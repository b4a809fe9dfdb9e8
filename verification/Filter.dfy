/** The bit-packed filters of test/algorithms/iaa_filter.c: elements of 1 to 32 bits packed into
    32-bit words, bit masks over them, and run-length bursts. */
module Filter {
  import opened Bits
  import opened ShiftRegister

  // ---------- Bits and fields of a buffer ----------

  /** Bit p of a buffer of words: `(buf[p / 32] >> (p % 32)) & 1`. */
  predicate BitAt(buf: seq<Word32>, p: nat) {
    p / 32 < |buf| && buf[p / 32][p % 32]
  }

  /** The n bits of a buffer from position pos on. */
  function Field(buf: seq<Word32>, pos: nat, n: nat): (f: Word)
    ensures |f| == n && forall k {:trigger f[k]} | 0 <= k < n :: f[k] == BitAt(buf, pos + k)
  {
    seq(n, k requires 0 <= k < n => BitAt(buf, pos + k))
  }

  /** Element width and the bits dropped from its ends. */
  datatype Layout = Layout(width: nat, dropHigh: nat, dropLow: nat) {
    predicate Valid() {
      1 <= width <= 32 && dropHigh + dropLow <= width
    }

    function ValidWidth(): nat
      requires Valid()
    {
      width - dropHigh - dropLow
    }
  }

  /** The words an element of the input is read from are in the buffer. */
  predicate Readable(size: nat, numInputs: nat, layout: Layout, idx: nat) {
    idx * layout.width / 32 + (if idx + 1 < numInputs then 1 else 0) < size
  }

  /** The bits an element is cut from: 64 of them for every element but the last, 32 for the last. */
  function Load(src: seq<Word32>, last: bool, row: nat): Word64
    requires row + (if last then 0 else 1) < |src|
  {
    if last then Resize(src[row], 64) else Or(Shl(Resize(src[row + 1], 64), 32), Resize(src[row], 64))
  }

  /** The element at its start bit, without the dropped bits. */
  function Cut(qword: Word64, startBit: nat, layout: Layout): Word32
    requires layout.Valid() && startBit < 32
  {
    var mask := Resize(Ones(layout.ValidWidth()), 64);
    Resize(And(Shr(Shr(qword, startBit), layout.dropLow), mask), 32)
  }

  /** `get_element`. */
  function GetElement(src: seq<Word32>, numInputs: nat, layout: Layout, idx: nat): Word32
    requires layout.Valid() && idx < numInputs && Readable(|src|, numInputs, layout, idx)
  {
    var row, startBit := idx * layout.width / 32, idx * layout.width % 32;
    Cut(Load(src, idx == numInputs - 1, row), startBit, layout)
  }

  /** No bit of the last element that is set lies in the word after its first. */
  predicate LastInOneWord(src: seq<Word32>, numInputs: nat, layout: Layout)
    requires layout.Valid() && numInputs > 0
  {
    var pos := (numInputs - 1) * layout.width;
    var first := pos + layout.dropLow;
    forall q | first <= q < first + layout.ValidWidth() && q >= pos - pos % 32 + 32 :: !BitAt(src, q)
  }

  lemma WordOfBit(row: nat, start: nat, t: nat, pos: nat)
    requires pos == 32 * row + start && start < 32 && t < 32
    ensures (pos + t) / 32 == (if start + t < 32 then row else row + 1)
    ensures (pos + t) % 32 == (if start + t < 32 then start + t else start + t - 32)
  {}

  /** Bit j of what is loaded is bit j of the buffer from the row on, unless it is cut off. */
  lemma LoadBit(src: seq<Word32>, last: bool, row: nat, j: nat)
    requires row + (if last then 0 else 1) < |src| && j < 64
    ensures Load(src, last, row)[j] == ((last ==> j < 32) && BitAt(src, 32 * row + j))
  {
    WordOfBit(row, 0, if j < 32 then j else j - 32, 32 * row);
    if j >= 32 {
      WordOfBit(row + 1, 0, j - 32, 32 * row + 32);
    }
  }

  lemma ShiftedBit(qword: Word64, start: nat, layout: Layout, k: nat)
    requires k < 32 && start < 32 && layout.Valid()
    ensures Cut(qword, start, layout)[k] == (k < layout.ValidWidth() && qword[start + layout.dropLow + k])
  {}

  lemma CutBits(src: seq<Word32>, last: bool, pos: nat, layout: Layout, k: nat)
    requires layout.Valid() && pos / 32 + (if last then 0 else 1) < |src| && k < 32
    ensures Cut(Load(src, last, pos / 32), pos % 32, layout)[k] ==
      (&& k < layout.ValidWidth()
       && (!last || pos % 32 + layout.dropLow + k < 32)
       && BitAt(src, pos + layout.dropLow + k))
  {
    hide Load, BitAt, Cut;
    var row, start := pos / 32, pos % 32;
    ShiftedBit(Load(src, last, row), start, layout, k);
    if k < layout.ValidWidth() {
      LoadBit(src, last, row, start + layout.dropLow + k);
    }
  }

  /** An element before the last is its field; the last is its field cut at the word boundary. */
  lemma ElementBits(src: seq<Word32>, numInputs: nat, layout: Layout, idx: nat, k: nat)
    requires layout.Valid() && idx < numInputs && Readable(|src|, numInputs, layout, idx)
    requires k < 32
    ensures var pos := idx * layout.width;
      GetElement(src, numInputs, layout, idx)[k] ==
      (&& k < layout.ValidWidth()
       && (idx + 1 < numInputs || pos % 32 + layout.dropLow + k < 32)
       && BitAt(src, pos + layout.dropLow + k))
  {
    hide Load, BitAt, Cut;
    CutBits(src, idx == numInputs - 1, idx * layout.width, layout, k);
  }

  /** `get_element` reads the field of its element, for the last one exactly when no bit of it
      that is set lies in the word after its first. */
  lemma ElementIsField(src: seq<Word32>, numInputs: nat, layout: Layout, idx: nat)
    requires layout.Valid() && idx < numInputs && Readable(|src|, numInputs, layout, idx)
    ensures
      (GetElement(src, numInputs, layout, idx)
        == Resize(Field(src, idx * layout.width + layout.dropLow, layout.ValidWidth()), 32))
      <==> (idx + 1 < numInputs || LastInOneWord(src, numInputs, layout))
  {
    hide GetElement, BitAt, Field, Resize, LastInOneWord, Readable;
    ElementCut(src, numInputs, layout, idx, idx * layout.width);
  }

  lemma ElementCut(src: seq<Word32>, numInputs: nat, layout: Layout, idx: nat, pos: nat)
    requires layout.Valid() && idx < numInputs && Readable(|src|, numInputs, layout, idx)
    requires pos == idx * layout.width
    ensures GetElement(src, numInputs, layout, idx)
            == Resize(Field(src, pos + layout.dropLow, layout.ValidWidth()), 32)
       <==> idx + 1 < numInputs || LastInOneWord(src, numInputs, layout)
  {
    hide GetElement, BitAt, Field, Resize, Readable, LastInOneWord;
    var n, first := layout.ValidWidth(), pos + layout.dropLow;
    var e := GetElement(src, numInputs, layout, idx);
    forall k | 0 <= k < 32
      ensures e[k] == (k < n && (idx + 1 < numInputs || pos % 32 + layout.dropLow + k < 32) && BitAt(src, first + k))
    {
      ElementBits(src, numInputs, layout, idx, k);
    }
    CutIsField(src, e, first, n, pos % 32 + layout.dropLow, idx + 1 == numInputs);
    if idx + 1 == numInputs {
      LastFrom(src, numInputs, layout, pos);
    }
  }

  lemma LastFrom(src: seq<Word32>, numInputs: nat, layout: Layout, pos: nat)
    requires layout.Valid() && numInputs > 0 && pos == (numInputs - 1) * layout.width
    ensures var first := pos + layout.dropLow;
      LastInOneWord(src, numInputs, layout) <==> forall q: nat |
        first <= q < first + layout.ValidWidth() && q >= first - (pos % 32 + layout.dropLow) + 32 :: !BitAt(src, q)
  {
    hide BitAt;
  }

  /** For instance the second of two 20-bit elements loses the bit that lies in the next word. */
  lemma LastElementCut()
    ensures var src, layout := [Zeros(32), Bit(32, 0)], Layout(20, 0, 0);
      && GetElement(src, 2, layout, 1) == Zeros(32)
      && Field(src, 20, 20) == Bit(20, 12)
  {
    var src: seq<Word32>, layout := [Zeros(32), Bit(32, 0)], Layout(20, 0, 0);
    assert BitAt(src, 32);
    forall k | 0 <= k < 32 ensures !GetElement(src, 2, layout, 1)[k] {
      ElementBits(src, 2, layout, 1, k);
    }
  }

  /** Bits cut off at the end of a word make no difference exactly when none of them is set. */
  lemma CutIsField(src: seq<Word32>, e: Word32, first: nat, n: nat, start: nat, last: bool)
    requires n <= 32
    requires forall k | 0 <= k < 32 :: e[k] == (k < n && (!last || start + k < 32) && BitAt(src, first + k))
    ensures e == Resize(Field(src, first, n), 32)
       <==> !last || forall q: nat | first <= q < first + n && q >= first - start + 32 :: !BitAt(src, q)
  {
    hide BitAt;
    var f := Resize(Field(src, first, n), 32);
    assert forall k | 0 <= k < 32 :: f[k] == (k < n && BitAt(src, first + k));
    if e == f {
      forall q: nat | last && first <= q < first + n && q >= first - start + 32
        ensures !BitAt(src, q)
      {
        assert f[q - first] == BitAt(src, first + (q - first));
      }
    } else {
      var k :| 0 <= k < 32 && e[k] != f[k];
      assert BitAt(src, first + k);
    }
  }

  // ---------- Packed output ----------

  /** The buffer holds exactly these elements, packed from bit 0 on, and zeros after them. */
  ghost predicate Packs(buf: seq<Word32>, elems: seq<Word>) {
    var bits := Flatten(elems);
    && |bits| <= 32 * |buf|
    && forall p: nat {:trigger BitAt(buf, p)} | p < 32 * |buf| :: BitAt(buf, p) == (p < |bits| && bits[p])
  }

  /** The bits of the element are or-ed in from position pos on, and no other bit has changed. */
  ghost predicate OrredIn(before: seq<Word32>, after: seq<Word32>, pos: nat, element: Word32) {
    && |after| == |before|
    && forall p: nat {:trigger BitAt(after, p)} | p < 32 * |after| ::
         BitAt(after, p) == (BitAt(before, p) || (pos <= p < pos + 32 && element[p - pos]))
  }

  /** `set_element`: the element is or-ed into 64 bits of the buffer. */
  method SetElement(dst: array<Word32>, element: Word32, validWidth: nat, idx: nat)
    requires validWidth * idx / 32 + 1 < dst.Length
    modifies dst
    ensures OrredIn(old(dst[..]), dst[..], validWidth * idx, element)
  {
    var dwordOffset, bitOffset := validWidth * idx / 32, validWidth * idx % 32;
    var low: Word, high: Word := dst[dwordOffset], dst[dwordOffset + 1];
    var qword := Or(low + high, Shl(Resize(element, 64), bitOffset));
    dst[dwordOffset] := qword[..32];
    dst[dwordOffset + 1] := qword[32..];
    SetBits(old(dst[..]), dst[..], dwordOffset, bitOffset, element, qword);
  }

  lemma SetBits(before: seq<Word32>, after: seq<Word32>, row: nat, start: nat, element: Word32, qword: Word64)
    requires row + 1 < |before| == |after| && start < 32
    requires forall k {:trigger qword[k]} | 0 <= k < 64 ::
      qword[k] == ((if k < 32 then before[row][k] else before[row + 1][k - 32])
          || (start <= k < start + 32 && element[k - start]))
    requires after == before[row := qword[..32]][row + 1 := qword[32..]]
    ensures OrredIn(before, after, 32 * row + start, element)
  {
    forall p: nat | p < 32 * |after|
      ensures BitAt(after, p) ==
        (BitAt(before, p) || (32 * row + start <= p < 32 * row + start + 32 && element[p - (32 * row + start)]))
    {
      if p / 32 == row || p / 32 == row + 1 {
        var k := p - 32 * row;
        assert BitAt(after, p) == qword[k];
      }
    }
  }

  lemma PackedAppend(before: seq<Word32>, after: seq<Word32>, elems: seq<Word>, element: Word32, width: nat)
    requires Packs(before, elems) && width <= 32
    requires |Flatten(elems)| + width <= 32 * |before|
    requires OrredIn(before, after, |Flatten(elems)|, element)
    requires forall k | width <= k < 32 :: !element[k]
    ensures Packs(after, elems + [Resize(element, width)])
  {
    hide BitAt;
    FlattenAppend(elems, [Resize(element, width)]);
    FlattenOne(Resize(element, width));
    hide Flatten;
    var bits, e := Flatten(elems), Resize(element, width);
    assert Flatten(elems + [e]) == bits + e;
    forall p: nat | p < 32 * |after|
      ensures BitAt(after, p) == (p < |bits| + width && (bits + e)[p])
    {
      assert BitAt(before, p) == (p < |bits| && bits[p]);
    }
  }

  lemma FlattenOne(e: Word)
    ensures Flatten([e]) == e
  {
    assert [e][1..] == [] && Flatten([]) == [];
  }

  lemma PackedNothing(buf: seq<Word32>)
    requires forall i | 0 <= i < |buf| :: buf[i] == Zeros(32)
    ensures Packs(buf, [])
  {}

  lemma {:induction false} PackedLength(elems: seq<Word>, width: nat)
    requires HaveWidth(elems, width)
    ensures |Flatten(elems)| == |elems| * width
  {
    if elems != [] {
      PackedLength(elems[1..], width);
      MulStep(|elems|, width);
    }
  }

  /** Element j of a packed buffer is the field at j times the width. */
  lemma PackedField(buf: seq<Word32>, elems: seq<Word>, width: nat, j: nat)
    requires Packs(buf, elems) && HaveWidth(elems, width) && j < |elems|
    ensures Field(buf, j * width, width) == elems[j]
  {
    hide BitAt, Flatten, Packs;
    var a, b := elems[..j], elems[j + 1..];
    assert elems == a + ([elems[j]] + b);
    FlattenAppend(a, [elems[j]] + b);
    FlattenAppend([elems[j]], b);
    FlattenOne(elems[j]);
    PackedLength(a, width);
    MiddleOf(Flatten(a), elems[j], Flatten(b));
    FieldOfBits(buf, elems, j * width, elems[j]);
  }

  lemma FieldOfBits(buf: seq<Word32>, elems: seq<Word>, pos: nat, e: Word)
    requires Packs(buf, elems) && pos + |e| <= |Flatten(elems)| && Flatten(elems)[pos..pos + |e|] == e
    ensures Field(buf, pos, |e|) == e
  {
    hide BitAt, Flatten;
    forall k | 0 <= k < |e| ensures Field(buf, pos, |e|)[k] == e[k] {
      assert BitAt(buf, pos + k) == Flatten(elems)[pos..pos + |e|][k];
    }
  }

  // ---------- Select and expand ----------

  /** The input as its elements, the way the filters read it; no bits are dropped. */
  function Read(src: seq<Word32>, numInputs: nat, width: nat, idx: nat): (e: Word)
    requires 1 <= width <= 32 && idx < numInputs && Readable(|src|, numInputs, Layout(width, 0, 0), idx)
    ensures |e| == width
  {
    Resize(GetElement(src, numInputs, Layout(width, 0, 0), idx), width)
  }

  /** The first n of so many elements can be read. */
  predicate FirstReadable(size: nat, numInputs: nat, width: nat, n: nat) {
    forall i: nat {:trigger Readable(size, numInputs, Layout(width, 0, 0), i)} | i < n ::
        Readable(size, numInputs, Layout(width, 0, 0), i)
  }

  lemma FewerReadable(size: nat, numInputs: nat, width: nat, m: nat, n: nat)
    requires FirstReadable(size, numInputs, width, n) && m <= n
    ensures FirstReadable(size, numInputs, width, m)
  {}

  function ReadAll(src: seq<Word32>, numInputs: nat, width: nat, n: nat): (r: seq<Word>)
    requires 1 <= width <= 32 && n <= numInputs && FirstReadable(|src|, numInputs, width, n)
    ensures |r| == n && HaveWidth(r, width)
    ensures forall i: nat {:trigger r[i]} | i < n :: r[i] == Read(src, numInputs, width, i)
  {
    seq(n, i requires 0 <= i < n => Read(src, numInputs, width, i))
  }

  /** How many of the first n mask bits are set. */
  function PopCount(mask: seq<Word32>, n: nat): (c: nat)
    ensures c <= n
  {
    if n == 0 then 0 else PopCount(mask, n - 1) + if BitAt(mask, n - 1) then 1 else 0
  }

  lemma {:induction false} PopCountIsSize(mask: seq<Word32>, n: nat)
    ensures PopCount(mask, n) == |set i: nat | i < n && i / 32 < |mask| && mask[i / 32][i % 32]|
  {
    var s := set i: nat | i < n && i / 32 < |mask| && mask[i / 32][i % 32];
    if n > 0 {
      PopCountIsSize(mask, n - 1);
      var t := set i: nat | i < n - 1 && i / 32 < |mask| && mask[i / 32][i % 32];
      assert s == t + if BitAt(mask, n - 1) then {n - 1} else {};
    } else {
      assert s == {};
    }
  }

  /** The elements at set mask bits. */
  function Selected(elems: seq<Word>, mask: seq<Word32>): (r: seq<Word>)
    ensures |r| == PopCount(mask, |elems|)
  {
    if elems == [] then []
    else
      var n := |elems| - 1;
      Selected(elems[..n], mask) + if BitAt(mask, n) then [elems[n]] else []
  }

  /** n elements: the given ones in turn at set mask bits, zeros elsewhere. */
  function Expanded(elems: seq<Word>, mask: seq<Word32>, n: nat, width: nat): (r: seq<Word>)
    requires PopCount(mask, n) <= |elems|
    ensures |r| == n
  {
    if n == 0 then []
    else
      Expanded(elems, mask, n - 1, width)
      + [if BitAt(mask, n - 1) then elems[PopCount(mask, n - 1)] else Zeros(width)]
  }

  /** Selecting from an expansion gives back the expanded elements. */
  lemma {:induction false} SelectOfExpand(elems: seq<Word>, mask: seq<Word32>, n: nat, width: nat)
    requires PopCount(mask, n) <= |elems|
    ensures Selected(Expanded(elems, mask, n, width), mask) == elems[..PopCount(mask, n)]
  {
    hide BitAt, Zeros, Selected, Expanded;
    if n == 0 {
      assert Expanded(elems, mask, 0, width) == [];
      SelectedNothing(mask);
    } else {
      ExpandedUnfold(elems, mask, n, width);
      SelectOfExpand(elems, mask, n - 1, width);
      var x, x', c := Expanded(elems, mask, n, width), Expanded(elems, mask, n - 1, width), PopCount(mask, n - 1);
      SelectedUnfold(x, mask);
      assert x[..n - 1] == x';
      if BitAt(mask, n - 1) {
        assert elems[..c + 1] == elems[..c] + [elems[c]];
      } else {
        assert Selected(x', mask) + [] == Selected(x', mask);
      }
    }
  }

  lemma ExpandedUnfold(elems: seq<Word>, mask: seq<Word32>, n: nat, width: nat)
    requires n > 0 && PopCount(mask, n) <= |elems|
    ensures PopCount(mask, n) == PopCount(mask, n - 1) + if BitAt(mask, n - 1) then 1 else 0
    ensures Expanded(elems, mask, n, width) == Expanded(elems, mask, n - 1, width)
      + [if BitAt(mask, n - 1) then elems[PopCount(mask, n - 1)] else Zeros(width)]
  {
    hide BitAt, Zeros;
  }

  /** Expanding a selection clears the elements that were not selected. */
  lemma {:induction false} ExpandOfSelect(elems: seq<Word>, mask: seq<Word32>, n: nat, width: nat, i: nat)
    requires i < n <= |elems|
    ensures PopCount(mask, n) <= PopCount(mask, |elems|)
    ensures Expanded(Selected(elems, mask), mask, n, width)[i] == if BitAt(mask, i) then elems[i] else Zeros(width)
  {
    hide BitAt, Zeros, Selected;
    PopCountGrows(mask, n, |elems|);
    if i < n - 1 {
      ExpandOfSelect(elems, mask, n - 1, width, i);
    } else if BitAt(mask, i) {
      SelectedAt(elems, mask, i);
    }
  }

  /** The elements at set mask bits in place, zeros elsewhere. */
  function Masked(elems: seq<Word>, mask: seq<Word32>, width: nat): seq<Word> {
    seq(|elems|, i requires 0 <= i < |elems| => if BitAt(mask, i) then elems[i] else Zeros(width))
  }

  lemma ExpandOfSelectIsMasked(elems: seq<Word>, mask: seq<Word32>, width: nat)
    ensures Expanded(Selected(elems, mask), mask, |elems|, width) == Masked(elems, mask, width)
  {
    hide Selected, Expanded, BitAt;
    forall i | 0 <= i < |elems|
      ensures Expanded(Selected(elems, mask), mask, |elems|, width)[i] == Masked(elems, mask, width)[i]
    {
      ExpandOfSelect(elems, mask, |elems|, width, i);
    }
  }

  lemma SelectedUnfold(elems: seq<Word>, mask: seq<Word32>)
    requires elems != []
    ensures var n := |elems| - 1;
      Selected(elems, mask) == Selected(elems[..n], mask) + if BitAt(mask, n) then [elems[n]] else []
  {}

  lemma {:induction false} PopCountGrows(mask: seq<Word32>, m: nat, n: nat)
    requires m <= n
    ensures PopCount(mask, m) <= PopCount(mask, n)
  {
    if m < n {
      PopCountGrows(mask, m, n - 1);
    }
  }

  lemma {:induction false} SelectedAt(elems: seq<Word>, mask: seq<Word32>, i: nat)
    requires i < |elems| && BitAt(mask, i)
    ensures PopCount(mask, i) < PopCount(mask, |elems|)
    ensures Selected(elems, mask)[PopCount(mask, i)] == elems[i]
    decreases |elems|
  {
    var n := |elems| - 1;
    if i < n {
      SelectedAt(elems[..n], mask, i);
    }
  }

  /** Bytes that hold n bits. */
  function ByteCount(n: nat): (bytes: nat)
    ensures n <= 8 * bytes < n + 8
  {
    if n % 8 != 0 then n / 8 + 1 else n / 8
  }

  /** Bits of n packed elements. */
  function BitsOf(n: nat, width: nat): (bits: nat)
    ensures bits == n * width
  {
    width * n
  }

  /** Room for n packed elements and the word that `set_element` touches behind the one it starts in. */
  predicate Roomy(size: nat, n: nat, width: nat) {
    n > 0 ==> (n - 1) * width / 32 + 1 < size
  }

  lemma RoomFor(size: nat, n: nat, i: nat, width: nat)
    requires Roomy(size, n, width) && i < n && width <= 32
    ensures width * i == i * width && i * width + width <= 32 * size && width * i / 32 + 1 < size
  {
    MulMonotonic(i, n - 1, width);
    var p, q := i * width, (n - 1) * width;
    assert width * i == p;
    RoomyBound(size, p, q);
  }

  lemma MulMonotonic(m: nat, n: nat, t: nat)
    requires m <= n
    ensures m * t <= n * t
  {}

  lemma RoomyBound(size: nat, p: nat, q: nat)
    requires p <= q && q / 32 + 1 < size
    ensures p + 32 <= 32 * size && p / 32 + 1 < size
  {}

  lemma ShortElement(src: seq<Word32>, numInputs: nat, width: nat, i: nat)
    requires 1 <= width <= 32 && i < numInputs && Readable(|src|, numInputs, Layout(width, 0, 0), i)
    ensures forall k | width <= k < 32 :: !GetElement(src, numInputs, Layout(width, 0, 0), i)[k]
  {
    hide GetElement, Readable, BitAt;
    forall k | width <= k < 32
      ensures !GetElement(src, numInputs, Layout(width, 0, 0), i)[k]
    {
      ElementBits(src, numInputs, Layout(width, 0, 0), i, k);
    }
  }

  lemma ReadNext(src: seq<Word32>, numInputs: nat, width: nat, i: nat)
    requires 1 <= width <= 32 && i < numInputs
    requires FirstReadable(|src|, numInputs, width, i) && FirstReadable(|src|, numInputs, width, i + 1)
    ensures ReadAll(src, numInputs, width, i + 1)
      == ReadAll(src, numInputs, width, i) + [Read(src, numInputs, width, i)]
    ensures Readable(|src|, numInputs, Layout(width, 0, 0), i)
    ensures forall k | width <= k < 32 :: !GetElement(src, numInputs, Layout(width, 0, 0), i)[k]
  {
    assert Readable(|src|, numInputs, Layout(width, 0, 0), i);
    hide GetElement, Readable;
    ShortElement(src, numInputs, width, i);
  }

  lemma SelectedNext(elems: seq<Word>, e: Word, mask: seq<Word32>)
    ensures Selected(elems + [e], mask) == Selected(elems, mask) + if BitAt(mask, |elems|) then [e] else []
  {
    assert (elems + [e])[..|elems|] == elems;
  }

  lemma SelectedWidth(elems: seq<Word>, mask: seq<Word32>, width: nat)
    requires HaveWidth(elems, width)
    ensures HaveWidth(Selected(elems, mask), width)
  {
    if elems != [] {
      SelectedWidth(elems[..|elems| - 1], mask, width);
    }
  }

  lemma {:induction false} ExpandedAt(elems: seq<Word>, mask: seq<Word32>, n: nat, width: nat, i: nat)
    requires i < n && PopCount(mask, n) <= |elems|
    ensures PopCount(mask, i) <= PopCount(mask, n) && (BitAt(mask, i) ==> PopCount(mask, i) < PopCount(mask, n))
    ensures Expanded(elems, mask, n, width)[i] == if BitAt(mask, i) then elems[PopCount(mask, i)] else Zeros(width)
  {
    hide BitAt, Zeros;
    if i < n - 1 {
      ExpandedAt(elems, mask, n - 1, width, i);
    }
  }

  lemma {:induction false} ExpandedWidth(elems: seq<Word>, mask: seq<Word32>, n: nat, width: nat)
    requires HaveWidth(elems, width) && PopCount(mask, n) <= |elems|
    ensures HaveWidth(Expanded(elems, mask, n, width), width)
  {
    if n > 0 {
      ExpandedWidth(elems, mask, n - 1, width);
    }
  }

  /** The output packs the elements at set mask bits. */
  method DoSelect(dst: array<Word32>, src1: array<Word32>, src2: array<Word32>, numInputs: nat, width: nat)
    returns (dstSize: nat)
    requires dst != src1 && dst != src2 && 1 <= width <= 32
    requires FirstReadable(src1.Length, numInputs, width, numInputs)
    requires Roomy(dst.Length, PopCount(src2[..], numInputs), width)
    requires forall i | 0 <= i < dst.Length :: dst[i] == Zeros(32)
    modifies dst
    ensures Packs(dst[..], Selected(ReadAll(src1[..], numInputs, width, numInputs), src2[..]))
    ensures dstSize == ByteCount(BitsOf(PopCount(src2[..], numInputs), width))
  {
    hide Packs, BitAt, GetElement, Readable, Roomy, Flatten, Selected, FirstReadable;
    ghost var data, mask := src1[..], src2[..];
    var outputIdx := 0;
    PackedNothing(dst[..]);
    FewerReadable(src1.Length, numInputs, width, 0, numInputs);
    assert ReadAll(data, numInputs, width, 0) == [];
    assert Selected([], mask) == [] by { SelectedNothing(mask); }
    for inputIdx := 0 to numInputs
      invariant src1[..] == data && src2[..] == mask
      invariant outputIdx <= inputIdx && outputIdx == PopCount(mask, inputIdx)
      invariant FirstReadable(|data|, numInputs, width, inputIdx)
      invariant Packs(dst[..], Selected(ReadAll(data, numInputs, width, inputIdx), mask))
    {
      ghost var elems := ReadAll(data, numInputs, width, inputIdx);
      FewerReadable(src1.Length, numInputs, width, inputIdx + 1, numInputs);
      ReadNext(data, numInputs, width, inputIdx);
      ghost var e := Read(data, numInputs, width, inputIdx);
      SelectedNext(elems, e, mask);
      SelectedWidth(elems, mask, width);
      PackedLength(Selected(elems, mask), width);
      if BitAt(src2[..], inputIdx) {
        PopCountGrows(mask, inputIdx + 1, numInputs);
        RoomFor(dst.Length, PopCount(mask, numInputs), outputIdx, width);
        var element := GetElement(src1[..], numInputs, Layout(width, 0, 0), inputIdx);
        ghost var before := dst[..];
        SetElement(dst, element, width, outputIdx);
        PackedAppend(before, dst[..], Selected(elems, mask), element, width);
        outputIdx := outputIdx + 1;
      } else {
        assert Selected(elems, mask) + [] == Selected(elems, mask);
      }
    }
    dstSize := ByteCount(outputIdx * width);
  }

  lemma SelectedNothing(mask: seq<Word32>)
    ensures Selected([], mask) == []
  {}

  /** The output packs the input elements in turn at set mask bits, and zeros elsewhere. */
  method DoExpand(dst: array<Word32>, src1: array<Word32>, src2: array<Word32>, numInputs: nat, width: nat)
    returns (dstSize: nat)
    requires dst != src1 && dst != src2 && 1 <= width <= 32
    requires FirstReadable(src1.Length, numInputs, width, PopCount(src2[..], numInputs))
    requires Roomy(dst.Length, numInputs, width)
    requires forall i | 0 <= i < dst.Length :: dst[i] == Zeros(32)
    modifies dst
    ensures var elems := ReadAll(src1[..], numInputs, width, PopCount(src2[..], numInputs));
      Packs(dst[..], Expanded(elems, src2[..], numInputs, width))
    ensures dstSize == ByteCount(BitsOf(numInputs, width))
  {
    hide Packs, BitAt, GetElement, Readable, Roomy, Flatten, FirstReadable, Zeros;
    ghost var data, mask := src1[..], src2[..];
    ghost var c := PopCount(mask, numInputs);
    ghost var elems := ReadAll(data, numInputs, width, c);
    var outputIdx := 0;
    PackedNothing(dst[..]);
    for inputIdx := 0 to numInputs
      invariant src1[..] == data && src2[..] == mask
      invariant outputIdx <= inputIdx && outputIdx == PopCount(mask, inputIdx)
      invariant outputIdx <= c
      invariant Packs(dst[..], Expanded(elems, mask, inputIdx, width))
    {
      ghost var done := Expanded(elems, mask, inputIdx, width);
      PopCountGrows(mask, inputIdx + 1, numInputs);
      ExpandedWidth(elems, mask, inputIdx, width);
      PackedLength(done, width);
      RoomFor(dst.Length, numInputs, inputIdx, width);
      ghost var before := dst[..];
      if BitAt(src2[..], inputIdx) {
        FewerReadable(src1.Length, numInputs, width, outputIdx, c);
        FewerReadable(src1.Length, numInputs, width, outputIdx + 1, c);
        ReadNext(data, numInputs, width, outputIdx);
        var element := GetElement(src1[..], numInputs, Layout(width, 0, 0), outputIdx);
        assert elems[outputIdx] == Resize(element, width);
        outputIdx := outputIdx + 1;
        SetElement(dst, element, width, inputIdx);
        PackedAppend(before, dst[..], done, element, width);
      } else {
        SetElement(dst, Zeros(32), width, inputIdx);
        assert Resize(Zeros(32), width) == Zeros(width) && forall k | width <= k < 32 :: !Zeros(32)[k] by {
          ZeroElement(width);
        }
        PackedAppend(before, dst[..], done, Zeros(32), width);
      }
    }
    dstSize := ByteCount(numInputs * width);
  }

  lemma ZeroElement(width: nat)
    requires width <= 32
    ensures Resize(Zeros(32), width) == Zeros(width) && forall k | width <= k < 32 :: !Zeros(32)[k]
  {}

  // ---------- Round trips through packed buffers ----------

  /** No set bit of the element, as element i of this width, lies beyond the word it starts in. */
  predicate StaysInWord(e: Word, i: nat, width: nat) {
    forall k | 0 <= k < |e| && i * width % 32 + k >= 32 :: !e[k]
  }

  lemma LastStays(buf: seq<Word32>, elems: seq<Word>, width: nat, i: nat)
    requires 1 <= width <= 32 && HaveWidth(elems, width) && Packs(buf, elems) && |elems| == i + 1
    ensures LastInOneWord(buf, i + 1, Layout(width, 0, 0)) <==> StaysInWord(elems[i], i, width)
  {
    hide BitAt, Packs, Flatten, LastInOneWord, StaysInWord;
    PackedField(buf, elems, width, i);
    FieldStays(buf, elems[i], i, width, i * width);
  }

  lemma FieldStays(buf: seq<Word32>, e: Word, i: nat, width: nat, pos: nat)
    requires 1 <= width <= 32 && pos == i * width && Field(buf, pos, width) == e
    ensures LastInOneWord(buf, i + 1, Layout(width, 0, 0)) <==> StaysInWord(e, i, width)
  {
    hide BitAt;
    if LastInOneWord(buf, i + 1, Layout(width, 0, 0)) {
      forall k | 0 <= k < |e| && pos % 32 + k >= 32 ensures !e[k] { assert e[k] == BitAt(buf, pos + k); }
    }
    if StaysInWord(e, i, width) {
      forall q: nat | pos <= q < pos + width && q >= pos - pos % 32 + 32 ensures !BitAt(buf, q) {
        assert e[q - pos] == BitAt(buf, pos + (q - pos));
      }
    }
  }

  lemma ElementOfWidth(src: seq<Word32>, n: nat, width: nat, i: nat, pos: nat)
    requires 1 <= width <= 32 && i < n && Readable(|src|, n, Layout(width, 0, 0), i) && pos == i * width
    ensures GetElement(src, n, Layout(width, 0, 0), i) == Resize(Field(src, pos, width), 32)
       <==> i + 1 < n || LastInOneWord(src, n, Layout(width, 0, 0))
  {
    hide GetElement, LastInOneWord, Readable;
    ElementIsField(src, n, Layout(width, 0, 0), i);
  }

  /** Reading element i of a packed buffer, as one of n, gives the element exactly when it is not read as the last
      or has no set bit beyond the word it starts in. */
  lemma ReadAt(buf: seq<Word32>, elems: seq<Word>, n: nat, width: nat, i: nat)
    requires 1 <= width <= 32 && HaveWidth(elems, width) && Packs(buf, elems) && i < |elems| <= n
    requires Readable(|buf|, n, Layout(width, 0, 0), i)
    ensures Read(buf, n, width, i) == elems[i] <==> i + 1 < n || StaysInWord(elems[i], i, width)
  {
    hide BitAt, Read, LastInOneWord, StaysInWord, Packs, Flatten, Field, Readable;
    PackedField(buf, elems, width, i);
    ReadIsField(buf, elems[i], n, width, i, i * width);
    if i + 1 == n {
      LastStays(buf, elems, width, i);
    }
  }

  lemma ReadIsField(buf: seq<Word32>, e: Word, n: nat, width: nat, i: nat, pos: nat)
    requires 1 <= width <= 32 && i < n && Readable(|buf|, n, Layout(width, 0, 0), i)
    requires pos == i * width && Field(buf, pos, width) == e
    ensures Read(buf, n, width, i) == e <==> i + 1 < n || LastInOneWord(buf, n, Layout(width, 0, 0))
  {
    hide BitAt, GetElement, LastInOneWord, Field, Readable, Resize;
    ElementOfWidth(buf, n, width, i, pos);
    ShortElement(buf, n, width, i);
    SameResized(GetElement(buf, n, Layout(width, 0, 0), i), e, width);
  }

  lemma SameResized(e: Word32, f: Word, width: nat)
    requires |f| == width <= 32 && forall k | width <= k < 32 :: !e[k]
    ensures Resize(e, width) == f <==> e == Resize(f, 32)
  {
    if Resize(e, width) == f {
      forall k | 0 <= k < 32 ensures e[k] == Resize(f, 32)[k] {
        if k < width {
          assert Resize(e, width)[k] == f[k];
        }
      }
    }
  }

  /** Reading a packed buffer gives its elements, all of them exactly when the last one has no
      set bit beyond the word it starts in. */
  lemma ReadPacked(buf: seq<Word32>, elems: seq<Word>, width: nat)
    requires 1 <= width <= 32 && HaveWidth(elems, width) && Packs(buf, elems) && |elems| > 0
    requires FirstReadable(|buf|, |elems|, width, |elems|)
    ensures ReadAll(buf, |elems|, width, |elems|) == elems <==> LastInOneWord(buf, |elems|, Layout(width, 0, 0))
  {
    hide BitAt, GetElement, LastInOneWord, StaysInWord, Packs, Flatten, Readable, Read;
    var n := |elems|;
    var r := ReadAll(buf, n, width, n);
    LastStays(buf, elems, width, n - 1);
    forall i: nat | i < n ensures r[i] == elems[i] <==> i + 1 < n || StaysInWord(elems[i], i, width) {
      ReadAt(buf, elems, n, width, i);
    }
    assert r == elems <==> r[n - 1] == elems[n - 1];
  }

  lemma {:induction false} SelectedDiffer(a: seq<Word>, b: seq<Word>, mask: seq<Word32>)
    requires |a| == |b|
    ensures Selected(a, mask) == Selected(b, mask) <==> forall i | 0 <= i < |a| && BitAt(mask, i) :: a[i] == b[i]
    decreases |a|
  {
    hide BitAt;
    if a != [] {
      var n := |a| - 1;
      SelectedDiffer(a[..n], b[..n], mask);
      SelectedUnfold(a, mask);
      SelectedUnfold(b, mask);
      var s, t := Selected(a[..n], mask), Selected(b[..n], mask);
      hide Selected;
      if BitAt(mask, n) {
        EndsDiffer(s, a[n], t, b[n]);
      } else {
        assert s + [] == s && t + [] == t;
      }
    }
  }

  lemma EndsDiffer(a: seq<Word>, x: Word, b: seq<Word>, y: Word)
    requires |a| == |b|
    ensures a + [x] == b + [y] <==> a == b && x == y
  {
    if a + [x] == b + [y] {
      assert a == (a + [x])[..|a|] == (b + [y])[..|a|] == b;
      assert x == (a + [x])[|a|] == (b + [y])[|a|] == y;
    }
  }

  lemma {:induction false} ExpandedDiffer(a: seq<Word>, b: seq<Word>, mask: seq<Word32>, n: nat, width: nat)
    requires PopCount(mask, n) <= |a| && PopCount(mask, n) <= |b|
    ensures Expanded(a, mask, n, width) == Expanded(b, mask, n, width)
       <==> a[..PopCount(mask, n)] == b[..PopCount(mask, n)]
  {
    hide BitAt, Zeros;
    if n > 0 {
      var c := PopCount(mask, n - 1);
      ExpandedDiffer(a, b, mask, n - 1, width);
      var taken := BitAt(mask, n - 1);
      EndsDiffer(
        Expanded(a, mask, n - 1, width), if taken then a[c] else Zeros(width),
        Expanded(b, mask, n - 1, width), if taken then b[c] else Zeros(width));
      if taken {
        assert a[..c + 1] == a[..c] + [a[c]] && b[..c + 1] == b[..c] + [b[c]];
        EndsDiffer(a[..c], a[c], b[..c], b[c]);
      }
    }
  }

  lemma PacksUnique(buf: seq<Word32>, a: seq<Word>, b: seq<Word>, width: nat)
    requires Packs(buf, a) && Packs(buf, b) && HaveWidth(a, width) && HaveWidth(b, width) && |a| == |b|
    ensures a == b
  {
    hide BitAt, Packs, Flatten;
    forall j | 0 <= j < |a| ensures a[j] == b[j] {
      PackedField(buf, a, width, j);
      PackedField(buf, b, width, j);
    }
  }

  /** The element that an expansion puts last, if any, stays in its word. */
  predicate LastSelectedStays(elems: seq<Word>, mask: seq<Word32>, n: nat, width: nat)
    requires n > 0 && |elems| == PopCount(mask, n)
  {
    BitAt(mask, n - 1) ==> StaysInWord(elems[|elems| - 1], n - 1, width)
  }

  /** What selecting from the expansion of these elements reads back: the elements exactly when the last element
      of the expansion is not selected or stays in its word. */
  lemma SelectedBack(mid: seq<Word32>, elems: seq<Word>, mask: seq<Word32>, n: nat, width: nat)
    requires 1 <= width <= 32 && n > 0 && |elems| == PopCount(mask, n) && HaveWidth(elems, width)
    requires FirstReadable(|mid|, n, width, n) && Packs(mid, Expanded(elems, mask, n, width))
    ensures Selected(ReadAll(mid, n, width, n), mask) == elems <==> LastSelectedStays(elems, mask, n, width)
  {
    hide BitAt, Packs, Flatten, Selected, StaysInWord, Read, Readable, Zeros;
    var y, r := Expanded(elems, mask, n, width), ReadAll(mid, n, width, n);
    ExpandedWidth(elems, mask, n, width);
    SelectOfExpand(elems, mask, n, width);
    assert elems[..|elems|] == elems;
    SelectedDiffer(r, y, mask);
    assert BitAt(mask, n - 1) ==> y[n - 1] == elems[|elems| - 1];
    hide Expanded, ReadAll, PopCount;
    forall i: nat | i < n ensures r[i] == y[i] <==> i + 1 < n || StaysInWord(y[i], i, width) {
      assert Readable(|mid|, n, Layout(width, 0, 0), i);
      ReadAt(mid, y, n, width, i);
    }
  }

  /** Expand, then select, for every width and mask: the output packs the first elements of x, as many as the mask
      has bits set, exactly when the element at the last position is not selected or stays in its word. */
  method ExpandThenSelect(x: array<Word32>, mask: array<Word32>, mid: array<Word32>, out: array<Word32>, n: nat,
      width: nat)
    requires x != mid && x != out && mask != mid && mask != out && mid != out
    requires 1 <= width <= 32 && n > 0
    requires FirstReadable(x.Length, n, width, PopCount(mask[..], n)) && FirstReadable(mid.Length, n, width, n)
    requires Roomy(mid.Length, n, width) && Roomy(out.Length, PopCount(mask[..], n), width)
    requires forall i | 0 <= i < mid.Length :: mid[i] == Zeros(32)
    requires forall i | 0 <= i < out.Length :: out[i] == Zeros(32)
    modifies mid, out
    ensures var elems := ReadAll(x[..], n, width, PopCount(mask[..], n));
      Packs(out[..], elems) <==> LastSelectedStays(elems, mask[..], n, width)
  {
    hide Packs, Readable, FirstReadable, GetElement, Read, Roomy, BitAt, Zeros, LastSelectedStays, Selected, Expanded,
      PopCount;
    ghost var m := mask[..];
    ghost var elems := ReadAll(x[..], n, width, PopCount(m, n));
    var _ := DoExpand(mid, x, mask, n, width);
    SelectedBack(mid[..], elems, m, n, width);
    ghost var z := ReadAll(mid[..], n, width, n);
    var _ := DoSelect(out, mid, mask, n, width);
    SelectedWidth(z, m, width);
    hide ReadAll;
    if Packs(out[..], elems) {
      PacksUnique(out[..], Selected(z, m), elems, width);
    }
  }

  /** What expanding the selection of x reads back: the masked elements of x exactly when not every element is
      selected or the last one stays in its word. */
  lemma ExpandedBack(mid: seq<Word32>, elems: seq<Word>, mask: seq<Word32>, n: nat, width: nat)
    requires 1 <= width <= 32 && n == |elems| > 0 && HaveWidth(elems, width)
    requires FirstReadable(|mid|, n, width, PopCount(mask, n)) && Packs(mid, Selected(elems, mask))
    ensures Expanded(ReadAll(mid, n, width, PopCount(mask, n)), mask, n, width) == Masked(elems, mask, width)
       <==> (PopCount(mask, n) == n ==> StaysInWord(elems[n - 1], n - 1, width))
  {
    hide BitAt, Packs, Flatten, Selected, StaysInWord, Read, Readable, Zeros, Masked;
    var c := PopCount(mask, n);
    var y, z := Selected(elems, mask), ReadAll(mid, n, width, c);
    SelectedWidth(elems, mask, width);
    ExpandOfSelectIsMasked(elems, mask, width);
    ExpandedDiffer(z, y, mask, n, width);
    if c == n {
      SelectedAt(elems, mask, n - 1);
    }
    hide Expanded, ReadAll, PopCount;
    forall i: nat | i < c ensures z[i] == y[i] <==> i + 1 < n || StaysInWord(y[i], i, width) {
      assert Readable(|mid|, n, Layout(width, 0, 0), i);
      ReadAt(mid, y, n, width, i);
    }
    assert y[..c] == y && z[..c] == z;
    assert z == y <==> forall i: nat | i < c :: z[i] == y[i];
  }

  /** Select, then expand, for every width and mask: the elements that were not selected are cleared and the others
      are back in place, exactly when not every element was selected or the last one stays in its word. */
  method SelectThenExpand(x: array<Word32>, mask: array<Word32>, mid: array<Word32>, out: array<Word32>, n: nat,
      width: nat)
    requires x != mid && x != out && mask != mid && mask != out && mid != out
    requires 1 <= width <= 32 && n > 0
    requires FirstReadable(x.Length, n, width, n) && FirstReadable(mid.Length, n, width, PopCount(mask[..], n))
    requires Roomy(mid.Length, PopCount(mask[..], n), width) && Roomy(out.Length, n, width)
    requires forall i | 0 <= i < mid.Length :: mid[i] == Zeros(32)
    requires forall i | 0 <= i < out.Length :: out[i] == Zeros(32)
    modifies mid, out
    ensures var elems := ReadAll(x[..], n, width, n);
      Packs(out[..], Masked(elems, mask[..], width))
      <==> (PopCount(mask[..], n) == n ==> StaysInWord(elems[n - 1], n - 1, width))
  {
    hide Packs, Readable, FirstReadable, GetElement, Read, Roomy, BitAt, Zeros, StaysInWord, Selected, Expanded,
      PopCount;
    ghost var elems, m := ReadAll(x[..], n, width, n), mask[..];
    var _ := DoSelect(mid, x, mask, n, width);
    ExpandedBack(mid[..], elems, m, n, width);
    ghost var z := ReadAll(mid[..], n, width, PopCount(m, n));
    var _ := DoExpand(out, mid, mask, n, width);
    ExpandedWidth(z, m, n, width);
    MaskedWidth(elems, m, width);
    hide ReadAll, Masked;
    if Packs(out[..], Masked(elems, m, width)) {
      PacksUnique(out[..], Expanded(z, m, n, width), Masked(elems, m, width), width);
    }
  }

  lemma MaskedWidth(elems: seq<Word>, mask: seq<Word32>, width: nat)
    requires HaveWidth(elems, width)
    ensures HaveWidth(Masked(elems, mask, width), width) && |Masked(elems, mask, width)| == |elems|
  {}
}
