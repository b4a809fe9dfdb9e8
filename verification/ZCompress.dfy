/** Zero compression, test/algorithms/iaa_zcompress.c.  The 8-, 16- and 32-bit encoders and
    decoders are the same loops over elements of that width, so each pair is modelled once with
    the element width as a parameter.  Lengths are in bytes, as in the source. */
module ZCompress {
  import opened Bits

  const BLOCK_SIZE: nat := 128

  predicate IsWidth(w: nat) {
    w == 8 || w == 16 || w == 32
  }

  /** Bytes occupied by n elements. */
  function Bytes(n: int, w: nat): int {
    if w == 8 then n else if w == 16 then 2 * n else 4 * n
  }

  /** Whole elements in n bytes. */
  function Elements(n: nat, w: nat): nat {
    if w == 8 then n else if w == 16 then n / 2 else n / 4
  }

  /** Elements of a 128-byte block, one tag bit each. */
  function PerBlock(w: nat): nat {
    if w == 8 then 128 else if w == 16 then 64 else 32
  }

  /** Elements that hold the tag bits of a block. */
  function TagCount(w: nat): nat {
    if w == 8 then 16 else if w == 16 then 4 else 1
  }

  /** The tag element that holds tag bit j. */
  function Row(j: nat, w: nat): (r: nat)
    ensures IsWidth(w) && j < PerBlock(w) ==> r < TagCount(w)
  {
    if w == 8 then j / 8 else if w == 16 then j / 16 else j / 32
  }

  /** The place of tag bit j in its tag element. */
  function Place(j: nat, w: nat): (b: nat)
    ensures IsWidth(w) ==> b < w
  {
    if w == 8 then j % 8 else if w == 16 then j % 16 else j % 32
  }

  predicate IsZero(element: Word, w: nat) {
    element == Zeros(w)
  }

  // ---------- The compressed format ----------

  /** The tags of a block: bit i, counted through the tag words, says that element i is nonzero;
      bits past the last element are `fill`. */
  function Tags(elems: seq<Word>, fill: bool, w: nat): (tags: seq<Word>)
    ensures |tags| == TagCount(w) && HaveWidth(tags, w)
  {
    seq(TagCount(w), t => seq(w, b =>
      if 0 <= t * w + b < |elems| then !IsZero(elems[t * w + b], w) else fill))
  }

  function Nonzero(elems: seq<Word>, w: nat): (r: seq<Word>)
    ensures |r| <= |elems|
    ensures HaveWidth(elems, w) ==> HaveWidth(r, w)
  {
    if elems == [] then []
    else
      var n := |elems| - 1;
      Nonzero(elems[..n], w) + if IsZero(elems[n], w) then [] else [elems[n]]
  }

  /** Every started block of 128 bytes gives its tags and then its nonzero elements. */
  function Compress(src: seq<Word>, srcLen: nat, w: nat): (r: seq<Word>)
    requires IsWidth(w) && |src| == Elements(srcLen, w)
    ensures HaveWidth(src, w) ==> HaveWidth(r, w)
    decreases srcLen
  {
    if srcLen == 0 then []
    else if srcLen < BLOCK_SIZE then Tags(src, true, w) + Nonzero(src, w)
    else
      var block := src[..PerBlock(w)];
      Tags(block, false, w) + Nonzero(block, w) + Compress(src[PerBlock(w)..], srcLen - BLOCK_SIZE, w)
  }

  // ---------- Decompression ----------

  function TagBit(tags: seq<Word>, j: nat, w: nat): bool
    requires IsWidth(w) && |tags| == TagCount(w)
    requires j < PerBlock(w)
  {
    Place(j, w) < |tags[Row(j, w)]| && tags[Row(j, w)][Place(j, w)]
  }

  /** The elements of one block from position j on, and how many of them were taken from `src`:
      a clear tag is a zero, a set one takes an element, or ends the block when none remain. */
  function Block(tags: seq<Word>, src: seq<Word>, remaining: int, j: nat, w: nat): (r: (seq<Word>, nat))
    requires IsWidth(w) && |tags| == TagCount(w)
    requires j <= PerBlock(w) && Bytes(|src|, w) >= remaining
    ensures r.1 <= |src|
    decreases PerBlock(w) - j
  {
    if j == PerBlock(w) then ([], 0)
    else if !TagBit(tags, j, w) then
      var (out, used) := Block(tags, src, remaining, j + 1, w);
      ([Zeros(w)] + out, used)
    else if remaining <= 0 then ([], 0)
    else
      var (out, used) := Block(tags, src[1..], remaining - Bytes(1, w), j + 1, w);
      ([src[0]] + out, used + 1)
  }

  /** At most `limit` blocks, until nothing remains. */
  function Blocks(src: seq<Word>, remaining: int, limit: nat, w: nat): seq<Word>
    requires IsWidth(w)
    requires Bytes(|src|, w) >= remaining + Bytes(TagCount(w), w)
    decreases limit
  {
    if remaining <= 0 || limit == 0 then []
    else
      var tags, rest := src[..TagCount(w)], src[TagCount(w)..];
      var (out, used) := Block(tags, rest, remaining - Bytes(TagCount(w), w), 0, w);
      out + Blocks(rest[used..], remaining - Bytes(TagCount(w), w) - Bytes(used, w), limit - 1, w)
  }

  /** The buffer must extend one group of tags past `srcLen`, because a truncated group is read whole. */
  function Decompress(src: seq<Word>, srcLen: nat, w: nat): seq<Word>
    requires IsWidth(w)
    requires Bytes(|src|, w) >= srcLen + Bytes(TagCount(w), w)
  {
    Blocks(src, srcLen, Elements(srcLen, w), w)
  }

  // ---------- The round trip ----------

  lemma TagsAt(elems: seq<Word>, fill: bool, j: nat, w: nat)
    requires IsWidth(w) && j < PerBlock(w)
    ensures TagBit(Tags(elems, fill, w), j, w) == if j < |elems| then !IsZero(elems[j], w) else fill
  {
    assert j == Row(j, w) * w + Place(j, w);
  }

  lemma NonzeroSplit(elems: seq<Word>, j: nat, w: nat)
    requires j < |elems|
    ensures Nonzero(elems[j..], w) == (if IsZero(elems[j], w) then [] else [elems[j]]) + Nonzero(elems[j + 1..], w)
    decreases |elems|
  {
    hide Nonzero, IsZero, HaveWidth;
    var a, b := [elems[j]], elems[j + 1..];
    assert elems[j..] == a + b;
    NonzeroAppend(a, b, w);
    NonzeroLast(a, w);
    assert a[..0] == [];
    NonzeroNothing(a[..0], w);
  }

  /** One step of the block decoder. */
  lemma BlockUnfold(tags: seq<Word>, src: seq<Word>, remaining: int, j: nat, w: nat)
    requires IsWidth(w) && |tags| == TagCount(w)
    requires j < PerBlock(w) && Bytes(|src|, w) >= remaining
    ensures var r := Block(tags, src, remaining, j, w);
      if !TagBit(tags, j, w) then
        var next := Block(tags, src, remaining, j + 1, w);
        r == ([Zeros(w)] + next.0, next.1)
      else if remaining <= 0 then r == ([], 0)
      else
        var next := Block(tags, src[1..], remaining - Bytes(1, w), j + 1, w);
        r == ([src[0]] + next.0, next.1 + 1)
  {
    hide TagBit, Zeros;
  }

  lemma ZeroElement(element: Word, w: nat)
    requires IsZero(element, w)
    ensures element == Zeros(w)
  {}

  /** A block comes back: a whole one whatever follows it, a partial one when nothing does.  Past
      the elements of a partial block every tag is set and no element remains to be taken. */
  lemma {:induction false} BlockReturns(elems: seq<Word>, fill: bool, rest: seq<Word>, extra: int, j: nat, w: nat)
    requires IsWidth(w) && j <= |elems| <= PerBlock(w)
    requires |elems| < PerBlock(w) ==> fill && extra == 0
    requires 0 <= extra <= Bytes(|rest|, w)
    ensures var m := |Nonzero(elems[j..], w)|;
      Block(Tags(elems, fill, w), Nonzero(elems[j..], w) + rest, Bytes(m, w) + extra, j, w) == (elems[j..], m)
    decreases PerBlock(w) - j
  {
    hide Tags, TagBit, HaveWidth, Nonzero, Block, IsZero;
    if j == PerBlock(w) {
      NonzeroNothing(elems[j..], w);
      BlockEnd(Tags(elems, fill, w), Nonzero(elems[j..], w) + rest, Bytes(|Nonzero(elems[j..], w)|, w) + extra, w);
    } else {
      var now := Nonzero(elems[j..], w);
      var remaining := Bytes(|now|, w) + extra;
      TagsAt(elems, fill, j, w);
      BlockUnfold(Tags(elems, fill, w), now + rest, remaining, j, w);
      if j < |elems| {
        NonzeroSplit(elems, j, w);
        BlockReturns(elems, fill, rest, extra, j + 1, w);
        var later := Nonzero(elems[j + 1..], w);
        assert elems[j..] == [elems[j]] + elems[j + 1..];
        if !IsZero(elems[j], w) {
          assert (now + rest)[1..] == later + rest;
        } else {
          ZeroElement(elems[j], w);
          assert now == later;
        }
      } else {
        NonzeroNothing(elems[j..], w);
      }
    }
  }

  lemma BlockEnd(tags: seq<Word>, src: seq<Word>, remaining: int, w: nat)
    requires IsWidth(w) && |tags| == TagCount(w)
    requires Bytes(|src|, w) >= remaining
    ensures Block(tags, src, remaining, PerBlock(w), w) == ([], 0)
  {}

  lemma NonzeroNothing(elems: seq<Word>, w: nat)
    requires elems == []
    ensures Nonzero(elems, w) == []
  {}

  lemma BytesAdd(m: nat, n: nat, w: nat)
    ensures Bytes(m + n, w) == Bytes(m, w) + Bytes(n, w)
    ensures m > 0 ==> Bytes(m, w) > 0
  {}

  lemma NoBytes(w: nat)
    ensures Bytes(0, w) == 0 && Elements(0, w) == 0
  {}

  lemma BlocksStep(src: seq<Word>, remaining: int, limit: nat, w: nat)
    requires IsWidth(w) && remaining > 0 && limit > 0
    requires Bytes(|src|, w) >= remaining + Bytes(TagCount(w), w)
    ensures |src| >= TagCount(w)
    ensures var left := remaining - Bytes(TagCount(w), w);
      var b := Block(src[..TagCount(w)], src[TagCount(w)..], left, 0, w);
      Blocks(src, remaining, limit, w) == b.0 + Blocks(src[TagCount(w)..][b.1..], left - Bytes(b.1, w), limit - 1, w)
  {
    hide Block;
  }

  lemma BlocksEnd(src: seq<Word>, remaining: int, limit: nat, w: nat)
    requires IsWidth(w) && (remaining <= 0 || limit == 0)
    requires Bytes(|src|, w) >= remaining + Bytes(TagCount(w), w)
    ensures Blocks(src, remaining, limit, w) == []
  {}

  lemma BlocksUnfold(src: seq<Word>, data: seq<Word>, tail: seq<Word>, remaining: int, limit: nat, elems: seq<Word>,
      w: nat)
    requires IsWidth(w) && |src| >= TagCount(w) && limit > 0
    requires src[TagCount(w)..] == data + tail
    requires 0 <= remaining && Bytes(|tail|, w) >= remaining + Bytes(TagCount(w), w)
    requires Block(src[..TagCount(w)], data + tail, Bytes(|data|, w) + remaining, 0, w) == (elems, |data|)
    ensures Blocks(src, Bytes(TagCount(w) + |data|, w) + remaining, limit, w)
      == elems + Blocks(tail, remaining, limit - 1, w)
  {
    hide Blocks, Block;
    assert (data + tail)[|data|..] == tail;
    var r := Bytes(TagCount(w) + |data|, w) + remaining;
    BytesAdd(TagCount(w), |data|, w);
    BytesAdd(TagCount(w), |data + tail|, w);
    BytesAdd(|data|, |tail|, w);
    hide Bytes;
    BlocksStep(src, r, limit, w);
  }

  /** Decompression undoes compression, down to the last whole element, whatever follows the
      compressed data in its buffer. */
  lemma {:induction false} BlocksUndoCompress(src: seq<Word>, srcLen: nat, slack: seq<Word>, limit: nat, w: nat)
    requires IsWidth(w) && |src| == Elements(srcLen, w)
    requires |slack| >= TagCount(w) && limit >= |Compress(src, srcLen, w)|
    ensures var c := Compress(src, srcLen, w); Blocks(c + slack, Bytes(|c|, w), limit, w) == src
    decreases srcLen
  {
    hide Tags, Nonzero, Block, IsZero, Blocks, Compress;
    if srcLen == 0 {
      CompressNothing(src, w);
      assert [] + slack == slack;
      BlocksEnd(slack, 0, limit, w);
    } else {
      var full := srcLen >= BLOCK_SIZE;
      var block := if full then src[..PerBlock(w)] else src;
      var more := if full then Compress(src[PerBlock(w)..], srcLen - BLOCK_SIZE, w) else [];
      var data := Nonzero(block, w);
      var c, tail := Compress(src, srcLen, w), more + slack;
      CompressUnfold(src, srcLen, slack, w);
      BlockOfStream(c + slack, block, !full, tail, Bytes(|more|, w), w);
      BlocksUnfold(c + slack, data, tail, Bytes(|more|, w), limit, block, w);
      if full {
        BlocksUndoCompress(src[PerBlock(w)..], srcLen - BLOCK_SIZE, slack, limit - 1, w);
        assert src == block + src[PerBlock(w)..];
      } else {
        assert tail == slack;
        BlocksEnd(slack, 0, limit - 1, w);
      }
    }
  }

  lemma CompressNothing(src: seq<Word>, w: nat)
    requires IsWidth(w) && src == []
    ensures Compress(src, 0, w) == []
  {}

  lemma CompressUnfold(src: seq<Word>, srcLen: nat, slack: seq<Word>, w: nat)
    requires IsWidth(w) && |src| == Elements(srcLen, w) && srcLen > 0
    ensures var full := srcLen >= BLOCK_SIZE;
      var block := if full then src[..PerBlock(w)] else src;
      var more := if full then Compress(src[PerBlock(w)..], srcLen - BLOCK_SIZE, w) else [];
      var c := Compress(src, srcLen, w);
      && |c| == TagCount(w) + |Nonzero(block, w)| + |more|
      && (c + slack)[..TagCount(w)] == Tags(block, !full, w)
      && (c + slack)[TagCount(w)..] == Nonzero(block, w) + (more + slack)
  {
    hide Tags, Nonzero, HaveWidth, IsZero, Compress;
    CompressFirst(src, srcLen, w);
    if srcLen >= BLOCK_SIZE {
      var block := src[..PerBlock(w)];
      Restream(Tags(block, false, w), Nonzero(block, w), Compress(src[PerBlock(w)..], srcLen - BLOCK_SIZE, w), slack);
    } else {
      Restream(Tags(src, true, w), Nonzero(src, w), [], slack);
      assert Tags(src, true, w) + Nonzero(src, w) + [] == Tags(src, true, w) + Nonzero(src, w);
    }
  }

  lemma Restream(tags: seq<Word>, data: seq<Word>, more: seq<Word>, slack: seq<Word>)
    ensures (tags + data + more + slack)[..|tags|] == tags
    ensures (tags + data + more + slack)[|tags|..] == data + (more + slack)
  {}

  lemma BlockOfStream(stream: seq<Word>, block: seq<Word>, fill: bool, tail: seq<Word>, extra: int, w: nat)
    requires IsWidth(w) && |block| <= PerBlock(w) && |stream| >= TagCount(w)
    requires |block| < PerBlock(w) ==> fill && extra == 0
    requires 0 <= extra <= Bytes(|tail|, w)
    requires stream[..TagCount(w)] == Tags(block, fill, w)
    ensures Block(stream[..TagCount(w)], Nonzero(block, w) + tail, Bytes(|Nonzero(block, w)|, w) + extra, 0, w)
         == (block, |Nonzero(block, w)|)
  {
    hide Tags, Nonzero, Block;
    assert block[0..] == block;
    BlockReturns(block, fill, tail, extra, 0, w);
  }

  lemma DecompressUndoesCompress(src: seq<Word>, srcLen: nat, slack: seq<Word>, w: nat)
    requires IsWidth(w) && |src| == Elements(srcLen, w)
    requires |slack| >= TagCount(w)
    ensures var c := Compress(src, srcLen, w); Decompress(c + slack, Bytes(|c|, w), w) == src
  {
    hide Tags, Nonzero, Blocks;
    hide Compress;
    BlocksUndoCompress(src, srcLen, slack, |Compress(src, srcLen, w)|, w);
  }

  /** Tag elements of n blocks. */
  function TagsOf(n: nat, w: nat): nat {
    if w == 8 then 16 * n else if w == 16 then 4 * n else n
  }

  /** The output is one group of tags for every started block, and the nonzero elements. */
  lemma {:induction false} CompressedSize(src: seq<Word>, srcLen: nat, w: nat)
    requires IsWidth(w) && |src| == Elements(srcLen, w)
    ensures |Compress(src, srcLen, w)| == TagsOf((srcLen + BLOCK_SIZE - 1) / BLOCK_SIZE, w) + |Nonzero(src, w)|
    decreases srcLen
  {
    hide Tags, Nonzero, IsZero, Compress;
    if srcLen == 0 {
      NonzeroNothing(src, w);
      CompressNothing(src, w);
    } else {
      CompressUnfold(src, srcLen, [], w);
      if srcLen >= BLOCK_SIZE {
        CompressedSize(src[PerBlock(w)..], srcLen - BLOCK_SIZE, w);
        NonzeroAppend(src[..PerBlock(w)], src[PerBlock(w)..], w);
        assert src == src[..PerBlock(w)] + src[PerBlock(w)..];
      }
    }
  }

  lemma {:induction false} NonzeroAppend(a: seq<Word>, b: seq<Word>, w: nat)
    ensures Nonzero(a + b, w) == Nonzero(a, w) + Nonzero(b, w)
    decreases |b|
  {
    hide IsZero, Nonzero, HaveWidth;
    if b == [] {
      assert a + b == a;
      NonzeroNothing(b, w);
    } else {
      var n := |b| - 1;
      var last := if IsZero(b[n], w) then [] else [b[n]];
      NonzeroAppend(a, b[..n], w);
      NonzeroLast(b, w);
      NonzeroLast(a + b, w);
      assert (a + b)[..|a + b| - 1] == a + b[..n];
      assert Nonzero(a, w) + Nonzero(b[..n], w) + last == Nonzero(a, w) + (Nonzero(b[..n], w) + last);
    }
  }

  lemma NonzeroLast(elems: seq<Word>, w: nat)
    requires elems != []
    ensures var n := |elems| - 1;
      Nonzero(elems, w) == Nonzero(elems[..n], w) + if IsZero(elems[n], w) then [] else [elems[n]]
  {
    hide IsZero;
  }

  // ---------- The encoder ----------

  /** How the next element changes the tags: a full block sets bits of cleared tags, a partial
      block clears bits of set ones. */
  lemma TagsNext(elems: seq<Word>, j: nat, fill: bool, w: nat)
    requires IsWidth(w) && j < |elems| <= PerBlock(w)
    ensures Row(j, w) < TagCount(w)
    ensures var p, q := Tags(elems[..j], fill, w), Tags(elems[..j + 1], fill, w);
      q == if IsZero(elems[j], w) == !fill then p
           else if fill then p[Row(j, w) := And(p[Row(j, w)], Not(Bit(w, Place(j, w))))]
           else p[Row(j, w) := Or(p[Row(j, w)], Bit(w, Place(j, w)))]
  {
    hide Row, Place, IsZero, Tags, And, Or, Not, Bit;
    var p, q := Tags(elems[..j], fill, w), Tags(elems[..j + 1], fill, w);
    forall t | 0 <= t < TagCount(w)
      ensures q[t] == if t != Row(j, w) || IsZero(elems[j], w) == !fill then p[t]
                      else if fill then And(p[t], Not(Bit(w, Place(j, w)))) else Or(p[t], Bit(w, Place(j, w)))
    {
      TagNext(elems, j, fill, t, w);
      if t == Row(j, w) {
        TagBefore(elems, j, fill, w);
        TagBits(p[t], q[t], Place(j, w), fill, !IsZero(elems[j], w), w);
      } else {
        assert p[t] == q[t];
      }
    }
  }

  lemma TagNext(elems: seq<Word>, j: nat, fill: bool, t: nat, w: nat)
    requires IsWidth(w) && j < |elems| <= PerBlock(w) && t < TagCount(w)
    ensures var p, q := Tags(elems[..j], fill, w)[t], Tags(elems[..j + 1], fill, w)[t];
      |p| == |q| == w && forall b | 0 <= b < w ::
        q[b] == if t == Row(j, w) && b == Place(j, w) then !IsZero(elems[j], w) else p[b]
  {
    var p, q := Tags(elems[..j], fill, w)[t], Tags(elems[..j + 1], fill, w)[t];
    forall b | 0 <= b < w
      ensures q[b] == if t == Row(j, w) && b == Place(j, w) then !IsZero(elems[j], w) else p[b]
    {
      TagBitNext(elems, j, fill, t, b, w);
    }
    hide IsZero, Row, Place, Tags;
  }

  lemma TagBitNext(elems: seq<Word>, j: nat, fill: bool, t: nat, b: nat, w: nat)
    requires IsWidth(w) && j < |elems| <= PerBlock(w) && t < TagCount(w) && b < w
    ensures Tags(elems[..j + 1], fill, w)[t][b] ==
      if t == Row(j, w) && b == Place(j, w) then !IsZero(elems[j], w) else Tags(elems[..j], fill, w)[t][b]
  {
    PlaceUnique(t, b, j, w);
    hide IsZero, Row, Place;
  }

  lemma TagBefore(elems: seq<Word>, j: nat, fill: bool, w: nat)
    requires IsWidth(w) && j < |elems| <= PerBlock(w)
    ensures Place(j, w) < w && Tags(elems[..j], fill, w)[Row(j, w)][Place(j, w)] == fill
  {
    PlaceUnique(Row(j, w), Place(j, w), j, w);
    hide IsZero, Row, Place;
  }

  lemma TagBits(p: Word, q: Word, b: nat, fill: bool, nonzero: bool, w: nat)
    requires |p| == |q| == w && b < w && p[b] == fill
    requires forall i | 0 <= i < w :: q[i] == if i == b then nonzero else p[i]
    ensures q == if nonzero == fill then p else if fill then And(p, Not(Bit(w, b))) else Or(p, Bit(w, b))
  {}

  lemma PlaceUnique(t: nat, b: nat, j: nat, w: nat)
    requires IsWidth(w) && b < w
    ensures t * w + b == j <==> t == Row(j, w) && b == Place(j, w)
  {}

  lemma NonzeroNext(elems: seq<Word>, j: nat, w: nat)
    requires j < |elems|
    ensures Nonzero(elems[..j + 1], w) == Nonzero(elems[..j], w) + if IsZero(elems[j], w) then [] else [elems[j]]
    ensures |Nonzero(elems[..j + 1], w)| <= |Nonzero(elems, w)|
  {
    assert elems[..j + 1][..j] == elems[..j];
    assert elems == elems[..j + 1] + elems[j + 1..];
    NonzeroAppend(elems[..j + 1], elems[j + 1..], w);
  }

  lemma NoTags(fill: bool, w: nat)
    ensures Tags([], fill, w) == seq(TagCount(w), t => if fill then Ones(w) else Zeros(w))
  {
    forall t | 0 <= t < TagCount(w)
      ensures Tags([], fill, w)[t] == if fill then Ones(w) else Zeros(w)
    {}
  }

  /** dst is `before` with tags and then data written over it from position `at` on. */
  ghost predicate Sliced(dst: seq<Word>, before: seq<Word>, at: nat, tags: seq<Word>, data: seq<Word>) {
    var dp := at + |tags| + |data|;
    && |dst| == |before| && dp <= |dst|
    && dst[..at] == before[..at]
    && dst[at..at + |tags|] == tags
    && dst[at + |tags|..dp] == data
    && dst[dp..] == before[dp..]
  }

  lemma SlicedTag(dst: seq<Word>, before: seq<Word>, at: nat, tags: seq<Word>, data: seq<Word>, t: nat, tag: Word)
    requires Sliced(dst, before, at, tags, data) && t < |tags|
    ensures Sliced(dst[at + t := tag], before, at, tags[t := tag], data)
  {
    var d := dst[at + t := tag];
    assert d[at..at + |tags|] == tags[t := tag];
    assert d[at + |tags|..at + |tags| + |data|] == data;
  }

  lemma SlicedData(dst: seq<Word>, before: seq<Word>, at: nat, tags: seq<Word>, data: seq<Word>, element: Word)
    requires Sliced(dst, before, at, tags, data) && at + |tags| + |data| < |dst|
    ensures Sliced(dst[at + |tags| + |data| := element], before, at, tags, data + [element])
  {
    var dp := at + |tags| + |data|;
    var d := dst[dp := element];
    assert d[at + |tags|..dp + 1] == data + [element];
    assert d[dp + 1..] == dst[dp..][1..] == before[dp..][1..] == before[dp + 1..];
  }

  /** What a block writer has put into dst from position `at` on, up to dp. */
  ghost predicate Written(dst: seq<Word>, before: seq<Word>, at: nat, elems: seq<Word>, fill: bool, dp: nat, w: nat) {
    && dp == at + TagCount(w) + |Nonzero(elems, w)|
    && Sliced(dst, before, at, Tags(elems, fill, w), Nonzero(elems, w))
  }

  lemma WrittenNothing(dst: seq<Word>, before: seq<Word>, at: nat, fill: bool, w: nat)
    requires IsWidth(w) && |dst| == |before| && at + TagCount(w) <= |dst|
    requires dst[..at] == before[..at] && dst[at + TagCount(w)..] == before[at + TagCount(w)..]
    requires forall t | at <= t < at + TagCount(w) :: dst[t] == if fill then Ones(w) else Zeros(w)
    ensures Written(dst, before, at, [], fill, at + TagCount(w), w)
  {
    NoTags(fill, w);
    NonzeroNothing([], w);
    hide Tags, Nonzero, Ones, Zeros, TagCount, IsWidth;
    assert Nonzero([], w) == [];
    assert dst[at..at + TagCount(w)] == Tags([], fill, w);
  }

  /** The buffer after one more element of a block. */
  function Put(dst: seq<Word>, at: nat, element: Word, j: nat, fill: bool, dp: nat, w: nat): seq<Word>
    requires IsWidth(w) && at + Row(j, w) < dp <= |dst|
    requires |dst[at + Row(j, w)]| == w
    requires !IsZero(element, w) ==> dp < |dst|
  {
    if IsZero(element, w) then
      if fill then dst[at + Row(j, w) := And(dst[at + Row(j, w)], Not(Bit(w, Place(j, w))))] else dst
    else
      (if fill then dst else dst[at + Row(j, w) := Or(dst[at + Row(j, w)], Bit(w, Place(j, w)))])[dp := element]
  }

  lemma PutFull(dst: seq<Word>, at: nat, element: Word, j: nat, dp: nat, w: nat)
    requires IsWidth(w) && at + Row(j, w) < dp <= |dst| && |dst[at + Row(j, w)]| == w
    requires !IsZero(element, w) ==> dp < |dst|
    ensures Put(dst, at, element, j, false, dp, w) ==
      if IsZero(element, w) then dst
      else dst[at + Row(j, w) := Or(dst[at + Row(j, w)], Bit(w, Place(j, w)))][dp := element]
  {
    hide IsZero, Row, Place, Or, Bit;
  }

  lemma PutPartial(dst: seq<Word>, at: nat, element: Word, j: nat, dp: nat, w: nat)
    requires IsWidth(w) && at + Row(j, w) < dp <= |dst| && |dst[at + Row(j, w)]| == w
    requires !IsZero(element, w) ==> dp < |dst|
    ensures Put(dst, at, element, j, true, dp, w) ==
      if IsZero(element, w) then dst[at + Row(j, w) := And(dst[at + Row(j, w)], Not(Bit(w, Place(j, w))))]
      else dst[dp := element]
  {
    hide IsZero, Row, Place, And, Not, Bit;
  }

  lemma WrittenNext(dst: seq<Word>, before: seq<Word>, at: nat, elems: seq<Word>, j: nat, fill: bool, dp: nat, w: nat)
    requires IsWidth(w) && j < |elems| <= PerBlock(w)
    requires at + TagCount(w) + |Nonzero(elems, w)| <= |dst|
    requires Written(dst, before, at, elems[..j], fill, dp, w)
    ensures at + Row(j, w) < dp <= |dst| && |dst[at + Row(j, w)]| == w
    ensures !IsZero(elems[j], w) ==> dp < |dst|
    ensures Written(Put(dst, at, elems[j], j, fill, dp, w), before, at, elems[..j + 1], fill,
                    if IsZero(elems[j], w) then dp else dp + 1, w)
  {
    hide Nonzero, IsZero, Tags, Sliced, And, Or, Not, Bit, Row, Place, Put;
    TagsNext(elems, j, fill, w);
    NonzeroNext(elems, j, w);
    var tags, tags' := Tags(elems[..j], fill, w), Tags(elems[..j + 1], fill, w);
    var data := Nonzero(elems[..j], w);
    SlicedBounds(dst, before, at, tags, data);
    assert tags[Row(j, w)] == dst[at + Row(j, w)];
    SlicedTag(dst, before, at, tags, data, Row(j, w), tags'[Row(j, w)]);
    assert tags[Row(j, w) := tags'[Row(j, w)]] == tags';
    PutMarks(dst, at, elems[j], j, fill, dp, w, tags'[Row(j, w)]);
    if IsZero(elems[j], w) {
      assert data + [] == data;
    } else {
      SlicedData(dst[at + Row(j, w) := tags'[Row(j, w)]], before, at, tags', data, elems[j]);
    }
  }

  lemma PutMarks(dst: seq<Word>, at: nat, element: Word, j: nat, fill: bool, dp: nat, w: nat, tag: Word)
    requires IsWidth(w) && at + Row(j, w) < dp <= |dst| && |dst[at + Row(j, w)]| == w
    requires !IsZero(element, w) ==> dp < |dst|
    requires tag == (if IsZero(element, w) != fill then dst[at + Row(j, w)]
                     else if fill then And(dst[at + Row(j, w)], Not(Bit(w, Place(j, w))))
                     else Or(dst[at + Row(j, w)], Bit(w, Place(j, w))))
    ensures Put(dst, at, element, j, fill, dp, w)
         == var marked := dst[at + Row(j, w) := tag]; if IsZero(element, w) then marked else marked[dp := element]
  {
    hide IsZero, Row, Place, And, Or, Not, Bit;
    var row := at + Row(j, w);
    assert dst[row := dst[row]] == dst;
  }

  lemma SlicedBounds(dst: seq<Word>, before: seq<Word>, at: nat, tags: seq<Word>, data: seq<Word>)
    requires Sliced(dst, before, at, tags, data)
    ensures |dst| == |before| && at + |tags| + |data| <= |dst|
    ensures forall t {:trigger tags[t]} | 0 <= t < |tags| :: tags[t] == dst[at + t]
  {
    forall t | 0 <= t < |tags| ensures tags[t] == dst[at + t] { assert dst[at..at + |tags|][t] == dst[at + t]; }
  }

  /** The inner loop over a whole block; the tag bits are only ever set, so the buffer must be zero. */
  method CompressFull(dst: array<Word>, at: nat, src: array<Word>, sp: nat, w: nat) returns (dp: nat)
    requires IsWidth(w) && dst != src
    requires sp + PerBlock(w) <= src.Length
    requires at + TagCount(w) + |Nonzero(src[sp..sp + PerBlock(w)], w)| <= dst.Length
    requires forall k | at <= k < dst.Length :: dst[k] == Zeros(w)
    modifies dst
    ensures at <= dp && Written(dst[..], old(dst[..]), at, src[sp..sp + PerBlock(w)], false, dp, w)
  {
    hide Tags, Nonzero, IsZero, Written, And, Or, Not, Bit, Row, Place, Put;
    ghost var block := src[sp..sp + PerBlock(w)];
    dp := at + TagCount(w);
    assert block[..0] == [];
    WrittenNothing(dst[..], old(dst[..]), at, false, w);
    for j := 0 to PerBlock(w)
      invariant at <= dp && Written(dst[..], old(dst[..]), at, block[..j], false, dp, w)
      invariant src[sp..sp + PerBlock(w)] == block
    {
      ghost var before := dst[..];
      WrittenNext(before, old(dst[..]), at, block, j, false, dp, w);
      assert block[j] == src[sp + j];
      PutFull(before, at, src[sp + j], j, dp, w);
      if !IsZero(src[sp + j], w) {
        dst[at + Row(j, w)] := Or(dst[at + Row(j, w)], Bit(w, Place(j, w)));
        dst[dp] := src[sp + j];
        dp := dp + 1;
      }
      assert dst[..] == Put(before, at, src[sp + j], j, false, if IsZero(src[sp + j], w) then dp else dp - 1, w);
    }
    assert block[..PerBlock(w)] == block;
  }

  method SetTags(dst: array<Word>, at: nat, w: nat)
    requires at + TagCount(w) <= dst.Length
    modifies dst
    ensures dst[..at] == old(dst[..at]) && dst[at + TagCount(w)..] == old(dst[at + TagCount(w)..])
    ensures forall k | at <= k < at + TagCount(w) :: dst[k] == Ones(w)
  {
    for t := 0 to TagCount(w)
      invariant dst[..at] == old(dst[..at]) && dst[at + t..] == old(dst[at + t..])
      invariant forall k | at <= k < at + t :: dst[k] == Ones(w)
    {
      dst[at + t] := Ones(w);
    }
  }

  /** The inner loop over the last, partial block: all tags are set first and then cleared bit by bit. */
  method CompressPartial(dst: array<Word>, at: nat, src: array<Word>, sp: nat, count: nat, w: nat) returns (dp: nat)
    requires IsWidth(w) && dst != src && count <= PerBlock(w)
    requires sp + count <= src.Length
    requires at + TagCount(w) + |Nonzero(src[sp..sp + count], w)| <= dst.Length
    modifies dst
    ensures at <= dp && Written(dst[..], old(dst[..]), at, src[sp..sp + count], true, dp, w)
  {
    hide Tags, Nonzero, IsZero, Written, And, Or, Not, Bit, Row, Place, Put;
    ghost var block := src[sp..sp + count];
    SetTags(dst, at, w);
    dp := at + TagCount(w);
    assert block[..0] == [];
    WrittenNothing(dst[..], old(dst[..]), at, true, w);
    for j := 0 to count
      invariant at <= dp && Written(dst[..], old(dst[..]), at, block[..j], true, dp, w)
      invariant src[sp..sp + count] == block
    {
      ghost var before := dst[..];
      WrittenNext(before, old(dst[..]), at, block, j, true, dp, w);
      assert block[j] == src[sp + j];
      PutPartial(before, at, src[sp + j], j, dp, w);
      if IsZero(src[sp + j], w) {
        dst[at + Row(j, w)] := And(dst[at + Row(j, w)], Not(Bit(w, Place(j, w))));
      } else {
        dst[dp] := src[sp + j];
        dp := dp + 1;
      }
      assert dst[..] == Put(before, at, src[sp + j], j, true, if IsZero(src[sp + j], w) then dp else dp - 1, w);
    }
    assert block[..count] == block;
  }

  lemma WrittenPrefix(dst: seq<Word>, before: seq<Word>, at: nat, elems: seq<Word>, fill: bool, dp: nat, w: nat)
    requires Written(dst, before, at, elems, fill, dp, w)
    ensures |dst| == |before| && dp <= |dst|
    ensures dst[..dp] == before[..at] + Tags(elems, fill, w) + Nonzero(elems, w)
    ensures dst[dp..] == before[dp..]
  {
    hide Tags, Nonzero;
    var t := at + TagCount(w);
    assert dst[..dp] == dst[..at] + dst[at..t] + dst[t..dp];
  }

  /** One block of `Compress`, split as the encoder's cursors see it. */
  lemma CompressFirst(src: seq<Word>, srcLen: nat, w: nat)
    requires IsWidth(w) && |src| == Elements(srcLen, w) && srcLen > 0
    ensures srcLen < BLOCK_SIZE ==> |src| < PerBlock(w)
    ensures srcLen >= BLOCK_SIZE ==> |src| >= PerBlock(w)
    ensures Compress(src, srcLen, w) ==
      if srcLen < BLOCK_SIZE then Tags(src, true, w) + Nonzero(src, w)
      else
        Tags(src[..PerBlock(w)], false, w) + Nonzero(src[..PerBlock(w)], w)
        + Compress(src[PerBlock(w)..], srcLen - BLOCK_SIZE, w)
  {
    hide Tags, Nonzero;
  }

  /** The encoder's cursor: what is written so far, followed by the compression of the rest, is
      the whole output, and beyond the cursor the buffer is as it was. */
  ghost predicate Encoding(dst: seq<Word>, initial: seq<Word>, dp: nat, rest: seq<Word>, left: nat, c: seq<Word>,
      w: nat) {
    && IsWidth(w) && |rest| == Elements(left, w)
    && dp <= |dst| == |initial|
    && dst[..dp] + Compress(rest, left, w) == c
    && dst[dp..] == initial[dp..]
  }

  lemma EncodingStart(initial: seq<Word>, src: seq<Word>, srcLen: nat, w: nat)
    requires IsWidth(w) && |src| == Elements(srcLen, w)
    ensures Encoding(initial, initial, 0, src, srcLen, Compress(src, srcLen, w), w)
  {
    hide Compress;
    assert initial[..0] + Compress(src, srcLen, w) == Compress(src, srcLen, w);
  }

  lemma EncodingRoom(dst: seq<Word>, initial: seq<Word>, dp: nat, rest: seq<Word>, left: nat, c: seq<Word>, w: nat)
    requires Encoding(dst, initial, dp, rest, left, c, w) && left > 0 && |c| <= |dst|
    ensures left >= BLOCK_SIZE ==>
      |rest| >= PerBlock(w) && dp + TagCount(w) + |Nonzero(rest[..PerBlock(w)], w)| <= |dst|
    ensures left < BLOCK_SIZE ==> |rest| < PerBlock(w) && dp + TagCount(w) + |Nonzero(rest, w)| <= |dst|
  {
    hide Tags, Nonzero, Compress;
    CompressFirst(rest, left, w);
  }

  lemma EncodingNext(before: seq<Word>, after: seq<Word>, initial: seq<Word>, dp: nat, end: nat,
                     rest: seq<Word>, left: nat, c: seq<Word>, w: nat)
    requires Encoding(before, initial, dp, rest, left, c, w) && left >= BLOCK_SIZE && |rest| >= PerBlock(w)
    requires Written(after, before, dp, rest[..PerBlock(w)], false, end, w)
    ensures Encoding(after, initial, end, rest[PerBlock(w)..], left - BLOCK_SIZE, c, w)
  {
    hide Tags, Nonzero, Compress, Written;
    CompressFirst(rest, left, w);
    var block := rest[..PerBlock(w)];
    WrittenPrefix(after, before, dp, block, false, end, w);
    var tags, data := Tags(block, false, w), Nonzero(block, w);
    var more := Compress(rest[PerBlock(w)..], left - BLOCK_SIZE, w);
    assert before[..dp] + (tags + data + more) == before[..dp] + tags + data + more;
    assert before[end..] == before[dp..][end - dp..] == initial[dp..][end - dp..] == initial[end..];
  }

  lemma EncodingLast(before: seq<Word>, after: seq<Word>, initial: seq<Word>, dp: nat, end: nat,
                     rest: seq<Word>, left: nat, c: seq<Word>, w: nat)
    requires Encoding(before, initial, dp, rest, left, c, w) && 0 < left < BLOCK_SIZE
    requires Written(after, before, dp, rest, true, end, w)
    ensures Encoding(after, initial, end, [], 0, c, w)
  {
    hide Tags, Nonzero, Compress, Written;
    CompressFirst(rest, left, w);
    WrittenPrefix(after, before, dp, rest, true, end, w);
    CompressNothing([], w);
    assert before[..dp] + (Tags(rest, true, w) + Nonzero(rest, w)) + []
        == before[..dp] + Tags(rest, true, w) + Nonzero(rest, w);
    assert before[end..] == before[dp..][end - dp..] == initial[dp..][end - dp..] == initial[end..];
  }

  lemma EncodingEnd(dst: seq<Word>, initial: seq<Word>, dp: nat, rest: seq<Word>, c: seq<Word>, w: nat)
    requires Encoding(dst, initial, dp, rest, 0, c, w)
    ensures dp == |c| <= |dst| && dst[..|c|] == c && dst[|c|..] == initial[|c|..]
  {
    CompressNothing(rest, w);
  }

  lemma ElementsOfBlock(left: nat, w: nat)
    requires IsWidth(w) && left >= BLOCK_SIZE
    ensures Elements(left, w) == PerBlock(w) + Elements(left - BLOCK_SIZE, w)
  {}

  lemma ElementsOfPart(left: nat, w: nat)
    requires IsWidth(w) && left < BLOCK_SIZE
    ensures Elements(left, w) <= PerBlock(w)
  {}

  lemma RestParts(a: array<Word>, n: nat, at: nat, k: nat)
    requires at + k <= n <= a.Length
    ensures a[..n][at..][..k] == a[at..at + k] && a[..n][at..][k..] == a[..n][at + k..]
    ensures at + k == n ==> a[..n][at..] == a[at..at + k]
  {}

  method DoCompress(dst: array<Word>, src: array<Word>, srcLen: nat, w: nat) returns (dstLen: nat)
    requires IsWidth(w) && dst != src
    requires Elements(srcLen, w) <= src.Length
    requires |Compress(src[..Elements(srcLen, w)], srcLen, w)| <= dst.Length
    requires forall k | 0 <= k < dst.Length :: dst[k] == Zeros(w)
    modifies dst
    ensures var c := Compress(src[..Elements(srcLen, w)], srcLen, w);
      && dst[..|c|] == c
      && dst[|c|..] == old(dst[|c|..])
      && dstLen == Bytes(|c|, w)
  {
    hide Tags, Nonzero, IsZero, Written, Compress, Encoding, Zeros, Bytes, Elements, PerBlock, TagCount;
    NoBytes(w);
    ghost var n := Elements(srcLen, w);
    ghost var initial, whole := dst[..], src[..n];
    ghost var c := Compress(whole, srcLen, w);
    var numBlocks := srcLen / BLOCK_SIZE;
    var remainderBytes := srcLen % BLOCK_SIZE;
    var sp: nat, dp: nat := 0, 0;
    dstLen := 0;
    ghost var left: nat := srcLen;
    assert whole[0..] == whole;
    EncodingStart(initial, whole, srcLen, w);
    for i := 0 to numBlocks
      invariant left == srcLen - BLOCK_SIZE * i
      invariant sp <= n && n - sp == Elements(left, w)
      invariant src[..n] == whole
      invariant dstLen == Bytes(dp, w)
      invariant Encoding(dst[..], initial, dp, whole[sp..], left, c, w)
    {
      ghost var before := dst[..];
      ElementsOfBlock(left, w);
      RestParts(src, n, sp, PerBlock(w));
      EncodingRoom(before, initial, dp, whole[sp..], left, c, w);
      EncodingClear(before, initial, dp, whole[sp..], left, c, w);
      var end := CompressFull(dst, dp, src, sp, w);
      EncodingNext(before, dst[..], initial, dp, end, whole[sp..], left, c, w);
      sp := sp + PerBlock(w);
      BytesAdd(dp, end - dp, w);
      BytesAdd(end - dp, 0, w);
      dstLen := dstLen + Bytes(end - dp, w);
      dp := end;
      left := left - BLOCK_SIZE;
    }
    if remainderBytes > 0 {
      ghost var before := dst[..];
      var count := Elements(remainderBytes, w);
      ElementsOfPart(remainderBytes, w);
      RestParts(src, n, sp, count);
      EncodingRoom(before, initial, dp, whole[sp..], left, c, w);
      var end := CompressPartial(dst, dp, src, sp, count, w);
      EncodingLast(before, dst[..], initial, dp, end, whole[sp..], left, c, w);
      EncodingEnd(dst[..], initial, end, [], c, w);
      BytesAdd(dp, end - dp, w);
      BytesAdd(end - dp, 0, w);
      dstLen := dstLen + Bytes(end - dp, w);
    } else {
      EncodingEnd(dst[..], initial, dp, whole[sp..], c, w);
    }
  }

  lemma EncodingClear(dst: seq<Word>, initial: seq<Word>, dp: nat, rest: seq<Word>, left: nat, c: seq<Word>, w: nat)
    requires Encoding(dst, initial, dp, rest, left, c, w)
    requires forall k | 0 <= k < |initial| :: initial[k] == Zeros(w)
    ensures |dst| == |initial| && forall k | dp <= k < |dst| :: dst[k] == Zeros(w)
  {
    forall k | dp <= k < |dst| ensures dst[k] == Zeros(w) { assert dst[dp..][k - dp] == initial[dp..][k - dp]; }
  }

  // ---------- The decoder ----------

  lemma Shift(done: seq<Word>, head: Word, tail: seq<Word>)
    ensures done + ([head] + tail) == done + [head] + tail
  {}

  /** `out` has been written into dst from dp0 on. */
  ghost predicate Copied(dst: seq<Word>, before: seq<Word>, dp0: nat, out: seq<Word>) {
    && dp0 + |out| <= |dst| == |before|
    && dst[..dp0 + |out|] == before[..dp0] + out
    && dst[dp0 + |out|..] == before[dp0 + |out|..]
  }

  lemma CopiedNext(dst: seq<Word>, before: seq<Word>, dp0: nat, out: seq<Word>, value: Word)
    requires Copied(dst, before, dp0, out) && dp0 + |out| < |dst|
    ensures Copied(dst[dp0 + |out| := value], before, dp0, out + [value])
  {
    var dp := dp0 + |out|;
    assert dst[dp := value][..dp + 1] == dst[..dp] + [value];
    assert dst[dp := value][dp + 1..] == dst[dp..][1..] == before[dp..][1..];
  }

  lemma CopiedNothing(before: seq<Word>, dp0: nat)
    requires dp0 <= |before|
    ensures Copied(before, before, dp0, [])
  {}

  lemma BlockDone(dst: seq<Word>, before: seq<Word>, dp0: nat, out: seq<Word>)
    requires Copied(dst, before, dp0, out)
    ensures dp0 + |out| <= |dst| == |before| && out + [] == out
    ensures dst[..dp0 + |out|] == before[..dp0] + out && dst[dp0 + |out|..] == before[dp0 + |out|..]
  {}

  /** The inner loop over the tag bits of one block. */
  method DecompressBlock(dst: array<Word>, dp0: nat, tags: seq<Word>, src: array<Word>, sp0: nat, remaining0: int,
      w: nat)
    returns (dp: nat, sp: nat, remaining: int)
    requires IsWidth(w) && dst != src && |tags| == TagCount(w)
    requires sp0 <= src.Length && Bytes(src.Length - sp0, w) >= remaining0
    requires dp0 + |Block(tags, src[sp0..], remaining0, 0, w).0| <= dst.Length
    modifies dst
    ensures var (out, used) := Block(tags, src[sp0..], remaining0, 0, w);
      && dp == dp0 + |out| && sp == sp0 + used && remaining == remaining0 - Bytes(used, w)
      && dst[..dp] == old(dst[..dp0]) + out
      && dst[dp..] == old(dst[dp..])
  {
    hide Block, TagBit, Copied;
    ghost var before := dst[..];
    ghost var (out, used) := Block(tags, src[sp0..], remaining0, 0, w);
    ghost var done: seq<Word>, rest, left: int := [], out, used;
    dp, sp, remaining := dp0, sp0, remaining0;
    CopiedNothing(before, dp0);
    for j := 0 to PerBlock(w)
      invariant sp0 <= sp <= src.Length && src[..] == old(src[..])
      invariant remaining == remaining0 - Bytes(sp - sp0, w) && Bytes(src.Length - sp, w) >= remaining
      invariant out == done + rest && dp == dp0 + |done| && Copied(dst[..], before, dp0, done)
      invariant Block(tags, src[sp..], remaining, j, w) == (rest, left)
      invariant left + (sp - sp0) == used
    {
      BlockUnfold(tags, src[sp..], remaining, j, w);
      var taken := TagBit(tags, j, w);
      if taken && remaining <= 0 {
        BlockDone(dst[..], before, dp0, done);
        return;
      }
      ghost var next := rest[1..];
      var value := if taken then src[sp] else Zeros(w);
      assert rest == [value] + next;
      Shift(done, value, next);
      CopiedNext(dst[..], before, dp0, done, value);
      dst[dp] := value;
      dp := dp + 1;
      if taken {
        assert src[sp..][1..] == src[sp + 1..];
        sp := sp + 1;
        remaining := remaining - Bytes(1, w);
        left := left - 1;
      }
      done, rest := done + [value], next;
    }
    BlockEnd(tags, src[sp..], remaining, w);
    BlockDone(dst[..], before, dp0, done);
  }

  /** The decoder's cursor: what is written so far, followed by the decoding of the rest, is the
      whole output, and beyond the cursor the buffer is as it was. */
  ghost predicate Decoding(dst: seq<Word>, initial: seq<Word>, dp: nat, src: seq<Word>, remaining: int, limit: nat,
                           out: seq<Word>, w: nat) {
    && IsWidth(w) && Bytes(|src|, w) >= remaining + Bytes(TagCount(w), w)
    && dp <= |dst| == |initial|
    && dst[..dp] + Blocks(src, remaining, limit, w) == out
    && dst[dp..] == initial[dp..]
  }

  lemma DecodingRoom(dst: seq<Word>, initial: seq<Word>, dp: nat, src: seq<Word>, remaining: int, limit: nat,
                     out: seq<Word>, w: nat)
    requires Decoding(dst, initial, dp, src, remaining, limit, out, w)
    requires remaining > 0 && limit > 0 && |out| <= |dst|
    ensures |src| >= TagCount(w)
    ensures dp + |Block(src[..TagCount(w)], src[TagCount(w)..], remaining - Bytes(TagCount(w), w), 0, w).0| <= |dst|
  {
    hide Block, Blocks;
    BlocksStep(src, remaining, limit, w);
  }

  lemma DecodingNext(before: seq<Word>, after: seq<Word>, initial: seq<Word>, dp: nat, end: nat, src: seq<Word>,
      used: nat, remaining: int, limit: nat, out: seq<Word>, w: nat)
    requires Decoding(before, initial, dp, src, remaining, limit, out, w)
    requires remaining > 0 && limit > 0 && |src| >= TagCount(w) && |after| == |before| && end <= |after|
    requires var b := Block(src[..TagCount(w)], src[TagCount(w)..], remaining - Bytes(TagCount(w), w), 0, w);
      used == b.1 && end == dp + |b.0| && after[..end] == before[..dp] + b.0 && after[end..] == before[end..]
    ensures Decoding(after, initial, end, src[TagCount(w) + used..],
                     remaining - Bytes(TagCount(w), w) - Bytes(used, w), limit - 1, out, w)
  {
    hide Block, Blocks;
    BlocksStep(src, remaining, limit, w);
    var b := Block(src[..TagCount(w)], src[TagCount(w)..], remaining - Bytes(TagCount(w), w), 0, w);
    var rest := src[TagCount(w) + used..];
    assert src[TagCount(w)..][used..] == rest;
    var more := Blocks(rest, remaining - Bytes(TagCount(w), w) - Bytes(used, w), limit - 1, w);
    assert before[..dp] + (b.0 + more) == before[..dp] + b.0 + more;
    assert before[end..] == before[dp..][end - dp..] == initial[dp..][end - dp..] == initial[end..];
  }

  lemma DecodingEnd(dst: seq<Word>, initial: seq<Word>, dp: nat, src: seq<Word>, remaining: int, limit: nat,
                    out: seq<Word>, w: nat)
    requires Decoding(dst, initial, dp, src, remaining, limit, out, w)
    requires remaining <= 0 || limit == 0
    ensures dp == |out| <= |dst| && dst[..|out|] == out && dst[|out|..] == initial[|out|..]
  {
    BlocksEnd(src, remaining, limit, w);
  }

  method DoDecompress(dst: array<Word>, src: array<Word>, srcLen: nat, w: nat) returns (dstLen: nat)
    requires IsWidth(w) && dst != src
    requires Bytes(src.Length, w) >= srcLen + Bytes(TagCount(w), w)
    requires |Decompress(src[..], srcLen, w)| <= dst.Length
    modifies dst
    ensures var out := Decompress(old(src[..]), srcLen, w);
      && dst[..|out|] == out
      && dst[|out|..] == old(dst[|out|..])
      && dstLen == Bytes(|out|, w)
    ensures src[..] == old(src[..])
  {
    hide Block, Blocks, Decoding, Decompress, Bytes, Elements;
    ghost var initial, data := dst[..], src[..];
    ghost var out := Decompress(data, srcLen, w);
    var remaining: int := srcLen;
    var sp, dp := 0, 0;
    dstLen := 0;
    NoBytes(w);
    ghost var limit: nat := Elements(srcLen, w);
    assert data[0..] == data && initial[..0] + out == out;
    assert Decoding(initial, initial, 0, data, srcLen, limit, out, w) by { DecodingStart(initial, data, srcLen, w); }
    var i := 0;
    while i < Elements(srcLen, w)
      invariant limit + i == Elements(srcLen, w)
      invariant sp <= src.Length && src[..] == data
      invariant Bytes(src.Length - sp, w) >= remaining + Bytes(TagCount(w), w)
      invariant dstLen == Bytes(dp, w)
      invariant Decoding(dst[..], initial, dp, data[sp..], remaining, limit, out, w)
      invariant srcLen > 0 ==> remaining > 0
      decreases limit
    {
      assert srcLen > 0;
      ghost var before := dst[..];
      DecodingRoom(before, initial, dp, data[sp..], remaining, limit, out, w);
      var tags := src[sp..sp + TagCount(w)];
      BytesAdd(TagCount(w), src.Length - sp - TagCount(w), w);
      assert tags == data[sp..][..TagCount(w)] && src[sp + TagCount(w)..] == data[sp..][TagCount(w)..];
      var end, at, left := DecompressBlock(dst, dp, tags, src, sp + TagCount(w), remaining - Bytes(TagCount(w), w), w);
      DecodingNext(before, dst[..], initial, dp, end, data[sp..], at - sp - TagCount(w), remaining, limit, out, w);
      assert data[sp..][at - sp..] == data[at..];
      BytesAdd(at - sp - TagCount(w), src.Length - at, w);
      BytesAdd(dp, end - dp, w);
      assert Bytes(end - dp, w) >= 0 by { BytesAdd(end - dp, 0, w); }
      dstLen := dstLen + Bytes(end - dp, w);
      sp, dp, remaining := at, end, left;
      limit := limit - 1;
      i := i + 1;
      if remaining <= 0 {
        break;
      }
    }
    DecodingEnd(dst[..], initial, dp, data[sp..], remaining, limit, out, w);
  }

  lemma DecodingStart(initial: seq<Word>, src: seq<Word>, srcLen: nat, w: nat)
    requires IsWidth(w) && Bytes(|src|, w) >= srcLen + Bytes(TagCount(w), w)
    ensures Decoding(initial, initial, 0, src, srcLen, Elements(srcLen, w), Decompress(src, srcLen, w), w)
  {
    hide Blocks;
    assert initial[..0] + Decompress(src, srcLen, w) == Decompress(src, srcLen, w);
  }

  /** Compressing into a clear buffer and decompressing from it gives back the source buffer, down
      to the last whole element. */
  method RoundTrip(src: array<Word>, srcLen: nat, packed: array<Word>, unpacked: array<Word>, w: nat)
    returns (packedLen: nat, unpackedLen: nat)
    requires IsWidth(w) && src != packed && packed != unpacked && src != unpacked
    requires Elements(srcLen, w) <= src.Length
    requires |Compress(src[..Elements(srcLen, w)], srcLen, w)| + TagCount(w) <= packed.Length
    requires Elements(srcLen, w) <= unpacked.Length
    requires forall k | 0 <= k < packed.Length :: packed[k] == Zeros(w)
    modifies packed, unpacked
    ensures unpackedLen == Bytes(Elements(srcLen, w), w)
    ensures unpacked[..Elements(srcLen, w)] == src[..Elements(srcLen, w)]
    ensures src[..] == old(src[..])
  {
    hide Compress, Decompress, Zeros;
    ghost var n := Elements(srcLen, w);
    ghost var data := src[..n];
    ghost var c := Compress(data, srcLen, w);
    packedLen := DoCompress(packed, src, srcLen, w);
    ghost var slack := packed[|c|..];
    assert packed[..] == c + slack;
    DecompressUndoesCompress(data, srcLen, slack, w);
    unpackedLen := DoDecompress(unpacked, packed, packedLen, w);
  }
}
