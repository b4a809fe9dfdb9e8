/** The filters of test/algorithms/iaa_filter.c whose output is a bit mask: scan, set membership,
    find unique and run-length bursts. */
module FilterMasks {
  import opened Bits
  import opened Filter

  /** `buf[p / 32] |= 1 << (p % 32)`. */
  method OrBit(buf: array<Word32>, p: nat)
    requires p / 32 < buf.Length
    modifies buf
    ensures forall q: nat {:trigger BitAt(buf[..], q)} :: BitAt(buf[..], q) == (BitAt(old(buf[..]), q) || q == p)
  {
    buf[p / 32] := Or(buf[p / 32], Bit(32, p % 32));
  }

  /** `buf[p / 32] &= ~(1 << (p % 32))`. */
  method ClearBit(buf: array<Word32>, p: nat)
    requires p / 32 < buf.Length
    modifies buf
    ensures forall q: nat {:trigger BitAt(buf[..], q)} :: BitAt(buf[..], q) == (BitAt(old(buf[..]), q) && q != p)
  {
    buf[p / 32] := And(buf[p / 32], Not(Bit(32, p % 32)));
  }

  predicate AllReadable(size: nat, numInputs: nat, layout: Layout) {
    forall i: nat {:trigger Readable(size, numInputs, layout, i)} | i < numInputs ::
        Readable(size, numInputs, layout, i)
  }

  /** The value of element i. */
  function Value(src: seq<Word32>, numInputs: nat, layout: Layout, i: nat): (v: nat)
    requires layout.Valid() && i < numInputs && AllReadable(|src|, numInputs, layout)
  {
    assert Readable(|src|, numInputs, layout, i);
    ToNat(GetElement(src, numInputs, layout, i))
  }

  /** The value is the number in the element's field, for the last one exactly when no set bit of it lies in the
      word after its first. */
  lemma ValueOfField(src: seq<Word32>, numInputs: nat, layout: Layout, i: nat)
    requires layout.Valid() && i < numInputs && AllReadable(|src|, numInputs, layout)
    ensures Value(src, numInputs, layout, i)
            == ToNat(Field(src, i * layout.width + layout.dropLow, layout.ValidWidth()))
       <==> i + 1 < numInputs || LastInOneWord(src, numInputs, layout)
  {
    assert Readable(|src|, numInputs, layout, i);
    hide Readable, GetElement, Field, LastInOneWord, ToNat;
    var e, f := GetElement(src, numInputs, layout, i),
      Field(src, i * layout.width + layout.dropLow, layout.ValidWidth());
    ElementIsField(src, numInputs, layout, i);
    ToNatWiden(f, 32);
    FromToNat(e);
    FromToNat(Resize(f, 32));
  }

  lemma ToNatWiden(w: Word, n: nat)
    requires |w| <= n
    ensures ToNat(Resize(w, n)) == ToNat(w)
  {
    hide ToNat;
    ToNatSplit(Resize(w, n), |w|);
    assert Resize(w, n)[..|w|] == w && Resize(w, n)[|w|..] == Zeros(n - |w|);
    ZerosAreZero(n - |w|);
  }

  lemma {:induction false} ZerosAreZero(n: nat)
    ensures ToNat(Zeros(n)) == 0
  {
    if n > 0 {
      ZerosAreZero(n - 1);
      assert Zeros(n)[1..] == Zeros(n - 1);
    }
  }

  /** Masking with so many ones is the remainder by that power of two. */
  lemma MaskedNumber(w: Word32, width: nat)
    requires width <= 32
    ensures ToNat(And(w, Resize(Ones(width), 32))) == ToNat(w) % Pow2(width)
  {
    hide ToNat, Pow2;
    var m := And(w, Resize(Ones(width), 32));
    assert m == Resize(w[..width], 32);
    ToNatWiden(w[..width], 32);
    ToNatSplit(w, width);
    RemainderOf(ToNat(w[..width]), Pow2(width), ToNat(w[width..]));
  }

  lemma RemainderOf(low: nat, p: nat, h: nat)
    requires low < p
    ensures (low + p * h) % p == low
    decreases h
  {
    if h > 0 {
      RemainderOf(low, p, h - 1);
      assert low + p * h == low + p * (h - 1) + p;
      AddOnce(low + p * (h - 1), p);
    }
  }

  lemma AddOnce(a: nat, p: nat)
    requires p > 0
    ensures (a + p) % p == a % p
  {
    var q, r := a / p, a % p;
    assert a == q * p + r;
    assert a + p == (q + 1) * p + r;
    UniqueRemainder(a + p, p, q + 1, r);
  }

  lemma UniqueRemainder(a: nat, p: nat, q: nat, r: nat)
    requires p > 0 && r < p && a == q * p + r
    ensures a % p == r
  {
    var q', r' := a / p, a % p;
    assert q' * p + r' == q * p + r;
    assert (q + 1) * p == q * p + p && (q' + 1) * p == q' * p + p;
    MulMonotonic(q + 1, if q' > q then q' else q + 1, p);
    MulMonotonic(q' + 1, if q > q' then q else q' + 1, p);
  }

  /** Element i lies between the bounds, both cut to the element width. */
  predicate InRange(src: seq<Word32>, numInputs: nat, layout: Layout, low: Word32, high: Word32, i: nat)
    requires layout.Valid() && i < numInputs && AllReadable(|src|, numInputs, layout)
  {
    var mask := Resize(Ones(layout.width), 32);
    ToNat(And(low, mask)) <= Value(src, numInputs, layout, i) <= ToNat(And(high, mask))
  }

  lemma InRangeMeans(src: seq<Word32>, numInputs: nat, layout: Layout, low: Word32, high: Word32, i: nat)
    requires layout.Valid() && i < numInputs && AllReadable(|src|, numInputs, layout)
    ensures InRange(src, numInputs, layout, low, high, i) <==>
      ToNat(low) % Pow2(layout.width) <= Value(src, numInputs, layout, i) <= ToNat(high) % Pow2(layout.width)
  {
    hide AllReadable, Value, ToNat, Pow2;
    MaskedNumber(low, layout.width);
    MaskedNumber(high, layout.width);
  }

  /** Exactly the bits of the elements between the bounds are set, both bounds included and cut to the width. */
  method DoScan(dst: array<Word32>, src1: array<Word32>, low: Word32, high: Word32, numInputs: nat, layout: Layout)
    returns (dstSize: nat)
    requires dst != src1 && layout.Valid() && AllReadable(src1.Length, numInputs, layout)
    requires numInputs <= 32 * dst.Length
    modifies dst
    ensures forall p: nat {:trigger BitAt(dst[..], p)} :: BitAt(dst[..], p) ==
                  (BitAt(old(dst[..]), p) || (p < numInputs && InRange(src1[..], numInputs, layout, low, high, p)))
    ensures forall p: nat {:trigger BitAt(dst[..], p)} | p < numInputs :: BitAt(dst[..], p) ==
                  (BitAt(old(dst[..]), p)
                   || ToNat(low) % Pow2(layout.width) <= Value(src1[..], numInputs, layout, p)
                                                      <= ToNat(high) % Pow2(layout.width))
    ensures numInputs <= 8 * dstSize < numInputs + 8 && dstSize == ByteCount(numInputs)
  {
    hide BitAt, GetElement, Readable, AllReadable, InRange;
    ghost var data := src1[..];
    forall p: nat | p < numInputs
      ensures InRange(data, numInputs, layout, low, high, p) <==>
        ToNat(low) % Pow2(layout.width) <= Value(data, numInputs, layout, p) <= ToNat(high) % Pow2(layout.width)
    {
      InRangeMeans(data, numInputs, layout, low, high, p);
    }
    for i := 0 to numInputs
      invariant src1[..] == data
      invariant forall p: nat {:trigger BitAt(dst[..], p)} :: BitAt(dst[..], p) ==
                    (BitAt(old(dst[..]), p) || (p < i && InRange(data, numInputs, layout, low, high, p)))
    {
      if InRange(src1[..], numInputs, layout, low, high, i) {
        OrBit(dst, i);
      }
    }
    dstSize := ByteCount(numInputs);
  }

  method DoSetMembership(dst: array<Word32>, src1: array<Word32>, src2: array<Word32>, numInputs: nat, layout: Layout)
    returns (dstSize: nat)
    requires dst != src1 && dst != src2 && layout.Valid() && AllReadable(src1.Length, numInputs, layout)
    requires forall i: nat {:trigger Value(src1[..], numInputs, layout, i)} | i < numInputs ::
      Value(src1[..], numInputs, layout, i) / 32 < src2.Length
    requires numInputs <= 32 * dst.Length
    modifies dst
    ensures forall p: nat {:trigger BitAt(dst[..], p)} :: BitAt(dst[..], p) ==
                  (BitAt(old(dst[..]), p) || (p < numInputs && BitAt(src2[..], Value(src1[..], numInputs, layout, p))))
    ensures dstSize == ByteCount(numInputs)
  {
    hide BitAt, GetElement, Readable, AllReadable;
    ghost var data, members := src1[..], src2[..];
    for i := 0 to numInputs
      invariant src1[..] == data && src2[..] == members
      invariant forall p: nat {:trigger BitAt(dst[..], p)} :: BitAt(dst[..], p) ==
                    (BitAt(old(dst[..]), p) || (p < i && BitAt(members, Value(data, numInputs, layout, p))))
    {
      if BitAt(src2[..], Value(src1[..], numInputs, layout, i)) {
        OrBit(dst, i);
      }
    }
    dstSize := ByteCount(numInputs);
  }

  method DoFindUnique(dst: array<Word32>, src1: array<Word32>, numInputs: nat, layout: Layout) returns (dstSize: nat)
    requires dst != src1 && layout.Valid() && layout.ValidWidth() < 32 && AllReadable(src1.Length, numInputs, layout)
    requires forall i: nat {:trigger Value(src1[..], numInputs, layout, i)} | i < numInputs ::
      Value(src1[..], numInputs, layout, i) / 32 < dst.Length
    modifies dst
    ensures forall v: nat {:trigger BitAt(dst[..], v)} :: BitAt(dst[..], v) <==>
                  BitAt(old(dst[..]), v) || exists i: nat :: i < numInputs && Value(src1[..], numInputs, layout, i) == v
    ensures dstSize == ByteCount(Pow2(layout.ValidWidth()))
  {
    hide BitAt, GetElement, Readable, AllReadable;
    ghost var data := src1[..];
    for i := 0 to numInputs
      invariant src1[..] == data
      invariant forall v: nat {:trigger BitAt(dst[..], v)} :: BitAt(dst[..], v) <==>
                    BitAt(old(dst[..]), v) || exists j: nat :: j < i && Value(data, numInputs, layout, j) == v
    {
      OrBit(dst, Value(src1[..], numInputs, layout, i));
    }
    dstSize := ByteCount(Pow2(layout.ValidWidth()));
  }

  /** Every input is a member of the set of its own values. */
  method UniqueThenMembership(src: array<Word32>, members: array<Word32>, dst: array<Word32>, numInputs: nat,
      layout: Layout)
    requires src != members && src != dst && members != dst && layout.Valid() && layout.ValidWidth() < 32
      && AllReadable(src.Length, numInputs, layout)
    requires forall i: nat {:trigger Value(src[..], numInputs, layout, i)} | i < numInputs ::
      Value(src[..], numInputs, layout, i) / 32 < members.Length
    requires numInputs <= 32 * dst.Length
    modifies members, dst
    ensures forall p: nat {:trigger BitAt(dst[..], p)} | p < numInputs :: BitAt(dst[..], p)
  {
    hide BitAt, GetElement, Readable, AllReadable;
    var _ := DoFindUnique(members, src, numInputs, layout);
    assert forall i: nat {:trigger Value(src[..], numInputs, layout, i)} | i < numInputs ::
        BitAt(members[..], Value(src[..], numInputs, layout, i));
    var _ := DoSetMembership(dst, src, members, numInputs, layout);
  }

  /** Two buffers of the same size with the same bits are the same buffer. */
  lemma SameBits(a: seq<Word32>, b: seq<Word32>)
    requires |a| == |b| && forall p: nat {:trigger BitAt(a, p)} | p < 32 * |a| :: BitAt(a, p) == BitAt(b, p)
    ensures a == b
  {
    forall i | 0 <= i < |a|
      ensures a[i] == b[i]
    {
      forall k | 0 <= k < 32 ensures a[i][k] == b[i][k] { assert BitAt(a, 32 * i + k) == a[i][k]; }
    }
  }

  /** A scan is a set membership against the bitmap of its interval: on equal outputs they leave
      equal outputs. */
  method ScanIsMembership(src: array<Word32>, interval: array<Word32>, a: array<Word32>, b: array<Word32>,
                          low: Word32, high: Word32, numInputs: nat, layout: Layout)
    requires a != b && src != a && src != b && interval != a && interval != b
    requires layout.Valid() && AllReadable(src.Length, numInputs, layout)
    requires forall i: nat {:trigger Value(src[..], numInputs, layout, i)} | i < numInputs ::
      Value(src[..], numInputs, layout, i) / 32 < interval.Length
    requires forall i: nat {:trigger Value(src[..], numInputs, layout, i)} | i < numInputs ::
      BitAt(interval[..], Value(src[..], numInputs, layout, i)) <==> InRange(src[..], numInputs, layout, low, high, i)
    requires numInputs <= 32 * a.Length && a[..] == b[..]
    modifies a, b
    ensures a[..] == b[..]
  {
    hide BitAt, GetElement, Readable, AllReadable, InRange;
    var _ := DoScan(a, src, low, high, numInputs, layout);
    var _ := DoSetMembership(b, src, interval, numInputs, layout);
    SameBits(a[..], b[..]);
  }

  // ---------- Run-length bursts ----------

  /** Run i repeats mask bit i `counts[i]` times. */
  function Runs(counts: seq<nat>, mask: seq<Word32>): (r: seq<bool>)
    ensures |r| == Sum(counts)
  {
    if counts == [] then []
    else
      var n := |counts| - 1;
      Runs(counts[..n], mask) + seq(counts[n], _ => BitAt(mask, n))
  }

  /** Behind the runs before it, run i holds its mask bit. */
  lemma {:induction false} RunAt(counts: seq<nat>, mask: seq<Word32>, i: nat, k: nat)
    requires i < |counts| && k < counts[i]
    ensures Sum(counts[..i]) + k < |Runs(counts, mask)|
    ensures Runs(counts, mask)[Sum(counts[..i]) + k] == BitAt(mask, i)
    decreases |counts|
  {
    hide BitAt;
    var n := |counts| - 1;
    if i < n {
      RunAt(counts[..n], mask, i, k);
      assert counts[..n][..i] == counts[..i];
    }
  }

  function Sum(counts: seq<nat>): nat {
    if counts == [] then 0 else Sum(counts[..|counts| - 1]) + counts[|counts| - 1]
  }

  /** 32-bit subtraction. */
  function Difference(a: int, b: int): (d: nat)
    ensures 0 <= a < 0x1_0000_0000 && 0 <= b < 0x1_0000_0000 ==> d == if a >= b then a - b else 0x1_0000_0000 - (b - a)
  {
    (a - b) % 0x1_0000_0000
  }

  /** The repeat counts: the elements themselves at widths 8 and 16, and the differences of
      successive offsets, modulo 2^32, at width 32. */
  function Counts(src: seq<nat>, width: nat): seq<nat> {
    if width == 8 || width == 16 then src
    else if width == 32 then
      seq(if |src| > 0 then |src| - 1 else 0, i requires 0 <= i < |src| - 1 => Difference(src[i + 1], src[i]))
    else []
  }

  lemma CountsMean(src: seq<nat>)
    requires forall i | 0 <= i < |src| :: src[i] < 0x1_0000_0000
    ensures Counts(src, 8) == src && Counts(src, 16) == src
    ensures |Counts(src, 32)| == if src == [] then 0 else |src| - 1
    ensures forall i | 0 <= i < |Counts(src, 32)| ::
      Counts(src, 32)[i] == if src[i] <= src[i + 1] then src[i + 1] - src[i] else 0x1_0000_0000 - (src[i] - src[i + 1])
  {}

  /** The output starts with the given bits and is unchanged after them. */
  ghost predicate StartsWith(buf: seq<Word32>, before: seq<Word32>, bits: seq<bool>) {
    && |buf| == |before|
    && forall p: nat {:trigger BitAt(buf, p)} :: BitAt(buf, p) == if p < |bits| then bits[p] else BitAt(before, p)
  }

  lemma RunsNext(counts: seq<nat>, mask: seq<Word32>, n: nat)
    requires n < |counts|
    ensures Runs(counts[..n + 1], mask) == Runs(counts[..n], mask) + seq(counts[n], _ => BitAt(mask, n))
    ensures Sum(counts[..n + 1]) == Sum(counts[..n]) + counts[n]
  {
    assert counts[..n + 1][..n] == counts[..n];
  }

  lemma {:induction false} SumGrows(counts: seq<nat>, n: nat)
    requires n <= |counts|
    ensures Sum(counts[..n]) <= Sum(counts)
    decreases |counts|
  {
    if n < |counts| {
      SumGrows(counts[..|counts| - 1], n);
      assert counts[..|counts| - 1][..n] == counts[..n];
    } else {
      assert counts[..n] == counts;
    }
  }

  /** The inner loop: one run of `count` bits from position `from` on. */
  method Burst(dst: array<Word32>, from: nat, count: nat, bit: bool, ghost initial: seq<Word32>, ghost done: seq<bool>)
    requires from + count <= 32 * dst.Length && from == |done|
    requires StartsWith(dst[..], initial, done)
    modifies dst
    ensures StartsWith(dst[..], initial, done + seq(count, _ => bit))
  {
    hide BitAt, StartsWith;
    assert done + seq(0, _ => bit) == done;
    for i := from to from + count
      invariant StartsWith(dst[..], initial, done + seq(i - from, _ => bit))
    {
      ghost var before := dst[..];
      if bit {
        OrBit(dst, i);
      } else {
        ClearBit(dst, i);
      }
      OneMore(initial, before, dst[..], done + seq(i - from, _ => bit), bit);
      assert done + seq(i - from, _ => bit) + [bit] == done + seq(i + 1 - from, _ => bit);
    }
  }

  /** `src` holds the 8- or 16-bit repeat counts, or the 32-bit offsets. */
  method DoRleBurst(dst: array<Word32>, src: seq<nat>, src2: array<Word32>, width: nat) returns (dstSize: nat)
    requires dst != src2 && (width == 32 ==> |src| > 0)
    requires Sum(Counts(src, width)) <= 32 * dst.Length && Sum(Counts(src, width)) < 0x1_0000_0000
    modifies dst
    ensures StartsWith(dst[..], old(dst[..]), Runs(Counts(src, width), src2[..]))
    ensures dstSize == ByteCount(Sum(Counts(src, width)))
  {
    hide BitAt, Runs, StartsWith;
    ghost var counts, mask := Counts(src, width), src2[..];
    var runs := if width == 8 || width == 16 then |src| else if width == 32 then |src| - 1 else 0;
    assert counts[..0] == [] && StartsWith(dst[..], dst[..], Runs([], mask)) by { NoRuns(dst[..], mask); }
    var total := 0;
    for n := 0 to runs
      invariant src2[..] == mask && total == Sum(counts[..n])
      invariant StartsWith(dst[..], old(dst[..]), Runs(counts[..n], mask))
    {
      RunsNext(counts, mask, n);
      SumGrows(counts, n + 1);
      var replicaTimes := if width == 32 then Difference(src[n + 1], src[n]) else src[n];
      Burst(dst, total, replicaTimes, BitAt(src2[..], n), old(dst[..]), Runs(counts[..n], mask));
      total := total + replicaTimes;
    }
    assert counts[..runs] == counts;
    dstSize := ByteCount(total);
  }

  lemma NoRuns(buf: seq<Word32>, mask: seq<Word32>)
    ensures StartsWith(buf, buf, Runs([], mask))
  {}

  lemma OneMore(initial: seq<Word32>, before: seq<Word32>, after: seq<Word32>, bits: seq<bool>, bit: bool)
    requires StartsWith(before, initial, bits) && |after| == |before|
    requires forall q: nat {:trigger BitAt(after, q)} ::
      BitAt(after, q) == if q == |bits| then bit else BitAt(before, q)
    ensures StartsWith(after, initial, bits + [bit])
  {
    hide BitAt;
  }

  /** On a non-decreasing offset list the 32-bit form leaves the same output, of the same size, as the 16-bit form
      on the differences. */
  method OffsetsAreCounts(a: array<Word32>, b: array<Word32>, mask: array<Word32>, offsets: seq<nat>, counts: seq<nat>)
    returns (sizeA: nat, sizeB: nat)
    requires a != b && a != mask && b != mask && a[..] == b[..]
    requires |offsets| == |counts| + 1
    requires forall i | 0 <= i < |offsets| :: offsets[i] < 0x1_0000_0000
    requires forall i | 0 <= i < |counts| ::
      offsets[i] <= offsets[i + 1] && counts[i] == offsets[i + 1] - offsets[i] < 0x1_0000
    requires offsets[|offsets| - 1] - offsets[0] <= 32 * a.Length
    modifies a, b
    ensures a[..] == b[..]
    ensures sizeA == sizeB == ByteCount(Sum(counts)) && Sum(counts) + offsets[0] == offsets[|offsets| - 1]
  {
    hide BitAt, Runs, ByteCount;
    SameCounts(offsets, counts);
    assert Counts(counts, 16) == counts;
    hide Counts, Sum;
    sizeA := DoRleBurst(a, offsets, mask, 32);
    sizeB := DoRleBurst(b, counts, mask, 16);
    SameBits(a[..], b[..]);
  }

  lemma SameCounts(offsets: seq<nat>, counts: seq<nat>)
    requires |offsets| == |counts| + 1
    requires forall i | 0 <= i < |offsets| :: offsets[i] < 0x1_0000_0000
    requires forall i | 0 <= i < |counts| ::
      offsets[i] <= offsets[i + 1] && counts[i] == offsets[i + 1] - offsets[i] < 0x1_0000
    ensures Counts(offsets, 32) == Counts(counts, 16)
    ensures Sum(Counts(offsets, 32)) + offsets[0] == offsets[|offsets| - 1]
  {
    assert Counts(offsets, 32) == counts;
    Telescope(offsets, counts);
  }

  lemma {:induction false} Telescope(offsets: seq<nat>, counts: seq<nat>)
    requires |offsets| == |counts| + 1
    requires forall i | 0 <= i < |counts| :: offsets[i] <= offsets[i + 1] && counts[i] == offsets[i + 1] - offsets[i]
    ensures Sum(counts) + offsets[0] == offsets[|offsets| - 1]
    decreases |counts|
  {
    if counts != [] {
      Telescope(offsets[..|offsets| - 1], counts[..|counts| - 1]);
    }
  }
}
