/** The compressed format of test/algorithms/iaa_zcompress.c, bit by bit: where every tag bit and every element
    stands in the output. */
module ZFormat {
  import opened Bits
  import opened ZCompress

  /** The sizes in terms of the width alone: a block has 1024 bits, and a tag bit for each element. */
  lemma Sizes(n: nat, j: nat, w: nat)
    requires IsWidth(w)
    ensures w == 8 || w == 16 || w == 32
    ensures Bytes(n, w) == n * (w / 8) && Elements(n, w) == n / (w / 8)
    ensures PerBlock(w) == 1024 / w && TagCount(w) == 1024 / w / w
    ensures Row(j, w) == j / w && Place(j, w) == j % w
  {}

  /** An element that is not zero has a set bit. */
  predicate HasBit(element: Word) {
    exists b :: 0 <= b < |element| && element[b]
  }

  lemma HasBitIsNonzero(element: Word, w: nat)
    requires |element| == w
    ensures HasBit(element) <==> !IsZero(element, w)
  {
    if !HasBit(element) {
      assert forall b | 0 <= b < |element| :: !element[b];
      assert element == Zeros(w);
    }
  }

  /** How many of the first n elements are not zero. */
  function Count(src: seq<Word>, n: nat): (c: nat)
    requires n <= |src|
    ensures c <= n
  {
    if n == 0 then 0 else Count(src, n - 1) + if HasBit(src[n - 1]) then 1 else 0
  }

  lemma {:induction false} CountIsNonzero(src: seq<Word>, n: nat, w: nat)
    requires HaveWidth(src, w) && n <= |src|
    ensures |Nonzero(src[..n], w)| == Count(src, n)
  {
    hide IsZero, HasBit, Nonzero;
    if n == 0 {
      NonzeroNothing(src[..0], w);
    } else {
      CountIsNonzero(src, n - 1, w);
      HasBitIsNonzero(src[n - 1], w);
      NonzeroLast(src[..n], w);
      assert src[..n][..n - 1] == src[..n - 1];
    }
  }

  lemma {:induction false} CountBehind(src: seq<Word>, skip: nat, n: nat)
    requires skip <= n <= |src|
    ensures Count(src, n) == Count(src, skip) + Count(src[skip..], n - skip)
  {
    hide HasBit;
    if n > skip {
      CountBehind(src, skip, n - 1);
      assert src[skip..][n - skip - 1] == src[n - 1];
    }
  }

  /** A kept element stands behind as many others as there are nonzero elements before it. */
  lemma {:induction false} NonzeroAt(src: seq<Word>, i: nat, w: nat)
    requires HaveWidth(src, w) && i < |src| && HasBit(src[i])
    ensures Count(src, i) < |Nonzero(src, w)| && Nonzero(src, w)[Count(src, i)] == src[i]
    decreases |src|
  {
    hide IsZero, HasBit, Nonzero, Count;
    var n := |src| - 1;
    NonzeroLast(src, w);
    HasBitIsNonzero(src[n], w);
    if i < n {
      NonzeroAt(src[..n], i, w);
      CountOfPrefix(src, n, i);
    } else {
      CountIsNonzero(src, n, w);
    }
  }

  lemma {:induction false} CountOfPrefix(src: seq<Word>, m: nat, n: nat)
    requires n <= m <= |src|
    ensures Count(src[..m], n) == Count(src, n)
  {
    hide HasBit;
    if n > 0 {
      CountOfPrefix(src, m, n - 1);
    }
  }

  /** The elements that are kept: every one as often as it occurs, but no zero. */
  lemma {:induction false} NonzeroKeeps(src: seq<Word>, w: nat, x: Word)
    requires HaveWidth(src, w)
    ensures multiset(Nonzero(src, w))[x] == if x == Zeros(w) then 0 else multiset(src)[x]
    decreases |src|
  {
    hide Nonzero;
    if src == [] {
      NonzeroNothing(src, w);
    } else {
      var n := |src| - 1;
      NonzeroKeeps(src[..n], w, x);
      NonzeroLast(src, w);
      assert src == src[..n] + [src[n]];
      assert Nonzero(src[..n], w) + [] == Nonzero(src[..n], w);
    }
  }

  // ---------- Where everything stands ----------

  /** The position of block b: behind the tags of the blocks before it and their nonzero elements, for blocks of
      `per` elements with so many tags. */
  function BlockAt(src: seq<Word>, b: nat, per: nat, tags: nat): nat
    requires b * per <= |src|
  {
    b * tags + Count(src, b * per)
  }

  /** This bit says whether element i is nonzero; it is set where there is no element. */
  ghost predicate TagStands(src: seq<Word>, c: seq<Word>, row: nat, place: nat, i: nat, w: nat) {
    row < |c| && |c[row]| == w && place < w && (c[row][place] <==> i >= |src| || HasBit(src[i]))
  }

  /** Element i, if nonzero, stands at this position. */
  ghost predicate ElementStands(src: seq<Word>, c: seq<Word>, at: nat, i: nat)
    requires i < |src|
  {
    HasBit(src[i]) ==> at < |c| && c[at] == src[i]
  }

  /** The block that starts with element `from` stands at position `at`: its element j has tag bit j, in this row and
      place, and stands behind the tags if it is nonzero. */
  ghost predicate BlockStands(src: seq<Word>, c: seq<Word>, from: nat, at: nat, tags: nat, j: nat, row: nat, place: nat,
                              w: nat)
  {
    && from <= |src|
    && TagStands(src, c, at + row, place, from + j, w)
    && (from + j < |src| ==>
        Count(src, from) <= Count(src, from + j)
        && ElementStands(src, c, at + tags + (Count(src, from + j) - Count(src, from)), from + j))
  }

  /** Element j of block b, for blocks of `per` elements with so many tags. */
  ghost predicate PlaceRight(src: seq<Word>, c: seq<Word>, b: nat, j: nat, per: nat, tags: nat, w: nat) {
    && w > 0 && 0 <= b * per <= |src|
    && BlockStands(src, c, b * per, BlockAt(src, b, per, tags), tags, j, j / w, j % w, w)
  }

  lemma FirstTag(src: seq<Word>, fill: bool, rest: seq<Word>, j: nat, w: nat)
    requires IsWidth(w) && HaveWidth(src, w) && j < PerBlock(w) && (|src| < PerBlock(w) ==> fill)
    requires |src| <= PerBlock(w)
    ensures TagStands(src, Tags(src, fill, w) + rest, Row(j, w), Place(j, w), j, w)
  {
    hide IsZero, HasBit, Tags, PerBlock, TagCount;
    TagsAt(src, fill, j, w);
    if j < |src| {
      HasBitIsNonzero(src[j], w);
    }
    assert (Tags(src, fill, w) + rest)[Row(j, w)] == Tags(src, fill, w)[Row(j, w)];
  }

  lemma StartedBlock(srcLen: nat, b: nat, w: nat)
    requires IsWidth(w) && b * 128 < srcLen
    ensures b * PerBlock(w) <= Elements(srcLen, w)
    ensures srcLen < 128 ==> b == 0 && Elements(srcLen, w) < PerBlock(w)
    ensures srcLen >= 128 ==> Elements(srcLen, w) >= PerBlock(w)
    ensures srcLen >= 128 ==> Elements(srcLen - 128, w) == Elements(srcLen, w) - PerBlock(w)
  {}

  /** The first block of the output and what follows it. */
  lemma FirstBlock(src: seq<Word>, srcLen: nat, w: nat) returns (n: nat, more: seq<Word>)
    requires IsWidth(w) && |src| == Elements(srcLen, w) && srcLen > 0 && HaveWidth(src, w)
    ensures n <= |src| && (if srcLen >= 128 then n == PerBlock(w) else n == |src| < PerBlock(w))
    ensures Compress(src, srcLen, w) == Tags(src[..n], srcLen < 128, w) + (Nonzero(src[..n], w) + more)
    ensures |Nonzero(src[..n], w)| == Count(src, n) && |Tags(src[..n], srcLen < 128, w)| == TagCount(w)
    ensures srcLen >= 128 ==>
      |src[n..]| == Elements(srcLen - 128, w) && more == Compress(src[n..], srcLen - 128, w)
    ensures HaveWidth(src[..n], w) && HaveWidth(src[n..], w)
  {
    StartedBlock(srcLen, 0, w);
    n := if srcLen >= 128 then PerBlock(w) else |src|;
    WidthOfPart(src, n, w);
    hide Tags, Nonzero, Compress, Elements, PerBlock, TagCount, HaveWidth;
    CompressFirst(src, srcLen, w);
    CountIsNonzero(src, n, w);
    assert srcLen < 128 ==> src[..n] == src;
    assert Nonzero(src[..n], w) + [] == Nonzero(src[..n], w);
    more := [];
    if srcLen >= 128 {
      more := Compress(src[n..], srcLen - 128, w);
      Regroup(Tags(src[..n], false, w), Nonzero(src[..n], w), more);
    }
  }

  lemma Regroup(a: seq<Word>, b: seq<Word>, c: seq<Word>)
    ensures a + b + c == a + (b + c)
  {}

  lemma FirstBlockRight(src: seq<Word>, srcLen: nat, j: nat, w: nat)
    requires IsWidth(w) && |src| == Elements(srcLen, w) && srcLen > 0 && HaveWidth(src, w) && j < PerBlock(w)
    ensures BlockStands(src, Compress(src, srcLen, w), 0, 0, TagCount(w), j, Row(j, w), Place(j, w), w)
  {
    hide HasBit, Tags, Nonzero, Compress, Elements, Row, Place, PerBlock, TagCount, IsWidth, HaveWidth,
      TagStands, ElementStands;
    assert Count(src, 0) == 0;
    hide Count;
    var n, more := FirstBlock(src, srcLen, w);
    FirstTag(src[..n], srcLen < 128, Nonzero(src[..n], w) + more, j, w);
    TagOfPart(src, n, Compress(src, srcLen, w), Row(j, w), Place(j, w), j, w);
    if j < |src| {
      ElementOfPart(src, n, Tags(src[..n], srcLen < 128, w), more, j, w);
    }
  }

  lemma TagOfPart(src: seq<Word>, n: nat, c: seq<Word>, row: nat, place: nat, j: nat, w: nat)
    requires n <= |src| && (j < n || n == |src|)
    ensures TagStands(src[..n], c, row, place, j, w) <==> TagStands(src, c, row, place, j, w)
  {
    hide HasBit;
    assert j < n ==> src[..n][j] == src[j];
  }

  lemma ElementOfPart(src: seq<Word>, n: nat, tags: seq<Word>, more: seq<Word>, j: nat, w: nat)
    requires HaveWidth(src, w) && j < n <= |src|
    ensures ElementStands(src, tags + (Nonzero(src[..n], w) + more), |tags| + Count(src, j), j)
  {
    hide Nonzero, Count, HasBit;
    if HasBit(src[j]) {
      NonzeroAt(src[..n], j, w);
      CountOfPrefix(src, n, j);
      ElementBehind(tags, Nonzero(src[..n], w), more, Count(src, j));
    }
  }

  lemma WidthOfPart(src: seq<Word>, n: nat, w: nat)
    requires HaveWidth(src, w)
    ensures n <= |src| ==> HaveWidth(src[..n], w) && HaveWidth(src[n..], w)
  {}

  lemma ElementBehind(tags: seq<Word>, data: seq<Word>, more: seq<Word>, k: nat)
    requires k < |data|
    ensures (tags + (data + more))[|tags| + k] == data[k]
  {}

  /** What stands in the rest of the output stands as far behind the first block of the whole. */
  lemma StandsBehind(src: seq<Word>, per: nat, head: seq<Word>, c: seq<Word>, from: nat, at: nat, tags: nat, j: nat,
                     row: nat, place: nat, w: nat)
    requires per <= |src| && BlockStands(src[per..], c, from, at, tags, j, row, place, w)
    ensures BlockStands(src, head + c, per + from, |head| + at, tags, j, row, place, w)
  {
    hide HasBit, Count;
    var i := from + j;
    assert (head + c)[|head| + at + row] == c[at + row];
    CountBehind(src, per, per + from);
    if per + i < |src| {
      CountBehind(src, per, per + i);
      var to := at + tags + (Count(src[per..], i) - Count(src[per..], from));
      assert to < |c| ==> (head + c)[|head| + to] == c[to];
      assert src[per..][i] == src[per + i];
    }
  }

  lemma LaterBlock(src: seq<Word>, head: seq<Word>, c: seq<Word>, b: nat, j: nat, per: nat, tags: nat, w: nat)
    requires 0 < b && per <= |src| && |head| == tags + Count(src, per)
    requires PlaceRight(src[per..], c, b - 1, j, per, tags, w)
    ensures PlaceRight(src, head + c, b, j, per, tags, w)
  {
    hide HasBit, Count, TagStands, ElementStands, BlockStands;
    MulStep(b, per);
    MulStep(b, tags);
    var from, at := (b - 1) * per, BlockAt(src[per..], b - 1, per, tags);
    CountBehind(src, per, per + from);
    StandsBehind(src, per, head, c, from, at, tags, j, j / w, j % w, w);
  }

  /** The output of the encoder, entirely: its length, every tag bit and every element. */
  lemma CompressMeans(src: seq<Word>, srcLen: nat, w: nat)
    requires IsWidth(w) && |src| == srcLen / (w / 8) && HaveWidth(src, w)
    ensures |src| == Elements(srcLen, w)
    ensures var c := Compress(src, srcLen, w);
      && |c| == (srcLen + 127) / 128 * (1024 / w / w) + Count(src, |src|)
      && forall b, j | 0 <= b && b * 128 < srcLen && 0 <= j < 1024 / w ::
           PlaceRight(src, c, b, j, 1024 / w, 1024 / w / w, w)
  {
    Sizes(srcLen, 0, w);
    CompressedSize(src, srcLen, w);
    CountIsNonzero(src, |src|, w);
    assert src[..|src|] == src;
    TagsOfBlocks((srcLen + 127) / 128, w);
    hide Compress, PlaceRight, Count, Elements, PerBlock, TagCount;
    forall b, j | 0 <= b && b * 128 < srcLen && 0 <= j < 1024 / w
      ensures PlaceRight(src, Compress(src, srcLen, w), b, j, 1024 / w, 1024 / w / w, w)
    {
      BlockRight(src, srcLen, b, j, w);
    }
  }

  lemma TagsOfBlocks(n: nat, w: nat)
    requires IsWidth(w)
    ensures TagsOf(n, w) == n * (1024 / w / w)
  {}

  lemma {:induction false} BlockRight(src: seq<Word>, srcLen: nat, b: nat, j: nat, w: nat)
    requires IsWidth(w) && |src| == Elements(srcLen, w) && HaveWidth(src, w)
    requires b * 128 < srcLen && j < PerBlock(w)
    ensures PlaceRight(src, Compress(src, srcLen, w), b, j, PerBlock(w), TagCount(w), w)
    decreases b
  {
    hide PlaceRight, BlockStands, Compress, Count, Elements, Tags, Nonzero, PerBlock, TagCount, IsWidth, HaveWidth;
    if b == 0 {
      FirstBlockRight(src, srcLen, j, w);
      FirstPlace(src, Compress(src, srcLen, w), j, w);
    } else {
      var n, more := FirstBlock(src, srcLen, w);
      BlockRight(src[n..], srcLen - 128, b - 1, j, w);
      Regroup(Tags(src[..n], false, w), Nonzero(src[..n], w), more);
      LaterBlock(src, Tags(src[..n], false, w) + Nonzero(src[..n], w), more, b, j, n, TagCount(w), w);
    }
  }

  lemma FirstPlace(src: seq<Word>, c: seq<Word>, j: nat, w: nat)
    requires IsWidth(w) && BlockStands(src, c, 0, 0, TagCount(w), j, Row(j, w), Place(j, w), w)
    ensures PlaceRight(src, c, 0, j, PerBlock(w), TagCount(w), w)
  {
    NothingToCount(src, 0);
    Sizes(0, j, w);
    hide BlockStands, Count, Row, Place;
  }

  /** An input of zeros gives its tags alone. */
  lemma ZerosVanish(src: seq<Word>, srcLen: nat, w: nat)
    requires IsWidth(w) && |src| == srcLen / (w / 8) && forall i | 0 <= i < |src| :: src[i] == Zeros(w)
    ensures |src| == Elements(srcLen, w)
    ensures |Compress(src, srcLen, w)| == (srcLen + 127) / 128 * (1024 / w / w)
  {
    CompressMeans(src, srcLen, w);
    NothingToCount(src, |src|);
  }

  lemma {:induction false} NothingToCount(src: seq<Word>, n: nat)
    requires n <= |src| && forall i | 0 <= i < n :: !HasBit(src[i])
    ensures Count(src, n) == 0
  {
    if n > 0 {
      NothingToCount(src, n - 1);
    }
  }
}
