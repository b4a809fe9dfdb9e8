/** The tag checker `task_result_verify_dif_tags` of test/dsa.c, and what a DIF insert looks like to it. */
module DifCheck {
  import opened Bits
  import opened Dif

  // ---------- The place of each tag ----------

  /** Behind block k of dst the first two tag bytes spell the guard of block k of src, whose blocks begin `stride`
      apart. */
  ghost predicate GuardRight(src: seq<Byte>, dst: seq<Byte>, stride: nat, blk: nat, k: nat) {
    var from, at := k * stride, k * (blk + 8) + blk;
    && from + blk <= |src| && at + 8 <= |dst|
    && BigEndian(dst[at..at + 2]) == ToNat(Guard(src[from..from + blk], false, false))
  }

  /** The next two spell the application tag. */
  ghost predicate AppRight(dst: seq<Byte>, blk: nat, app: Word16, k: nat) {
    var at := k * (blk + 8) + blk;
    at + 8 <= |dst| && BigEndian(dst[at + 2..at + 4]) == ToNat(app)
  }

  /** The last four spell the reference tag, which has 32 bits and counts up from block to block unless it is fixed. */
  ghost predicate RefRight(dst: seq<Byte>, blk: nat, ref: nat, fixed: bool, k: nat) {
    var at := k * (blk + 8) + blk;
    at + 8 <= |dst| && BigEndian(dst[at + 4..at + 8]) == (if fixed then ref else ref + k) % 0x1_0000_0000
  }

  /** Block k of dst holds block k of src. */
  ghost predicate DataRight(src: seq<Byte>, dst: seq<Byte>, blk: nat, k: nat) {
    var from, at := k * blk, k * (blk + 8);
    from + blk <= |src| && at + blk <= |dst| && dst[at..at + blk] == src[from..from + blk]
  }

  // ---------- The checker ----------

  /** The three counters: each is zero exactly when its tag is right in every block. */
  method VerifyDifTags(src: array<Byte>, dst: array<Byte>, blks: nat, idx: nat, insert: bool, update: bool,
                       app: Word16, ref: nat)
    returns (gCount: nat, aCount: nat, rCount: nat)
    requires idx < 4
    requires blks * (if insert then BlockSize(idx) else BlockSize(idx) + 8) <= src.Length
    requires blks * (BlockSize(idx) + 8) <= dst.Length
    ensures var blk := BlockSize(idx);
      var stride := if insert then blk else blk + 8;
      && (gCount == 0 <==> forall k: nat | k < blks :: GuardRight(src[..], dst[..], stride, blk, k))
      && (aCount == 0 <==> forall k: nat | k < blks :: AppRight(dst[..], blk, app, k))
      && (rCount == 0 <==> forall k: nat | k < blks :: RefRight(dst[..], blk, ref, update, k))
  {
    hide GuardRight, AppRight, RefRight, BlockSize, Guard;
    var bufSize := BlockSize(idx);
    var stride := if insert then bufSize else bufSize + 8;
    ghost var source, target := src[..], dst[..];
    var difRefTag := ref;
    gCount, aCount, rCount := 0, 0, 0;
    for i := 0 to blks
      invariant source == src[..] && target == dst[..]
      invariant difRefTag == if update then ref else ref + i
      invariant gCount == 0 <==> forall k: nat | k < i :: GuardRight(source, target, stride, bufSize, k)
      invariant aCount == 0 <==> forall k: nat | k < i :: AppRight(target, bufSize, app, k)
      invariant rCount == 0 <==> forall k: nat | k < i :: RefRight(target, bufSize, ref, update, k)
    {
      BlockFits(i, blks, stride, bufSize, src.Length, dst.Length);
      var g, a, r := CountBlock(src, dst, stride, bufSize, app, difRefTag, i);
      RefCounts(target, bufSize, ref, update, i);
      gCount := gCount + g;
      aCount := aCount + a;
      rCount := rCount + r;
      if !update {
        difRefTag := difRefTag + 1;
      }
    }
    assert source == src[..] && target == dst[..];
  }

  lemma BlockFits(i: nat, n: nat, stride: nat, blk: nat, srcLen: nat, dstLen: nat)
    requires i < n && blk <= stride && n * stride <= srcLen && n * (blk + 8) <= dstLen
    ensures i * stride >= 0 && i * stride + blk <= srcLen
    ensures i * (blk + 8) >= 0 && i * (blk + 8) + blk + 8 <= dstLen
  {
    Within(i, n, stride);
    Within(i, n, blk + 8);
  }

  lemma Within(i: nat, n: nat, t: nat)
    requires i < n
    ensures 0 <= i * t && i * t + t <= n * t
  {
    assert i * t + t == (i + 1) * t <= n * t;
  }

  lemma RefCounts(dst: seq<Byte>, blk: nat, ref: nat, fixed: bool, k: nat)
    ensures RefRight(dst, blk, ref, fixed, k) <==> RefRight(dst, blk, if fixed then ref else ref + k, true, k)
  {}

  /** The comparisons of block k. */
  method CountBlock(src: array<Byte>, dst: array<Byte>, stride: nat, blk: nat, app: Word16, ref: nat, k: nat)
    returns (g: nat, a: nat, r: nat)
    requires k * stride >= 0 && k * stride + blk <= src.Length
    requires k * (blk + 8) >= 0 && k * (blk + 8) + blk + 8 <= dst.Length
    ensures g == 0 <==> GuardRight(src[..], dst[..], stride, blk, k)
    ensures a == 0 <==> AppRight(dst[..], blk, app, k)
    ensures r == 0 <==> RefRight(dst[..], blk, ref, true, k)
  {
    hide BigEndian, ToNat, Guard, FromNat;
    var from, at := k * stride, k * (blk + 8) + blk;
    var guard := CalculateCrcT10dif(src, from, blk, false, false);
    var refTag: Word32 := FromNat(ref % 0x1_0000_0000, 32);
    g := CountTwo(guard, dst, at);
    a := CountTwo(app, dst, at + 2);
    r := CountFour(refTag, dst, at + 4);
    Pow2Is32();
    ToFromNat(ref % 0x1_0000_0000, 32);
    hide Resize, Shr;
    SliceOf(src, from, from + blk);
    SliceOf(dst, at, at + 2);
    SliceOf(dst, at + 2, at + 4);
    SliceOf(dst, at + 4, at + 8);
  }

  lemma SliceOf(a: array<Byte>, from: nat, to: nat)
    requires from <= to <= a.Length
    ensures a[from..to] == a[..][from..to]
  {}

  /** A tag of two bytes against the buffer, the high byte first. */
  method CountTwo(tag: Word16, dst: array<Byte>, at: nat) returns (n: nat)
    requires at + 2 <= dst.Length
    ensures n == 0 <==> BigEndian(dst[at..at + 2]) == ToNat(tag)
  {
    hide BigEndian, ToNat, Resize, Shr;
    n := 0;
    if Resize(Shr(tag, 8), 8) != dst[at] { n := n + 1; }
    if Resize(tag, 8) != dst[at + 1] { n := n + 1; }
    SpellsTwo(tag, dst[at..at + 2]);
  }

  /** A tag of four bytes against the buffer. */
  method CountFour(tag: Word32, dst: array<Byte>, at: nat) returns (n: nat)
    requires at + 4 <= dst.Length
    ensures n == 0 <==> BigEndian(dst[at..at + 4]) == ToNat(tag)
  {
    hide BigEndian, ToNat, Resize, Shr;
    n := 0;
    if Resize(Shr(tag, 24), 8) != dst[at] { n := n + 1; }
    if Resize(Shr(tag, 16), 8) != dst[at + 1] { n := n + 1; }
    if Resize(Shr(tag, 8), 8) != dst[at + 2] { n := n + 1; }
    if Resize(tag, 8) != dst[at + 3] { n := n + 1; }
    SpellsFour(tag, dst[at..at + 4]);
  }

  lemma SpellsTwo(w: Word16, bytes: seq<Byte>)
    requires |bytes| == 2
    ensures BigEndian(bytes) == ToNat(w) <==> bytes[0] == Resize(Shr(w, 8), 8) && bytes[1] == Resize(w, 8)
  {
    assert w[8..] == Resize(Shr(w, 8), 8) && w[..8] == Resize(w, 8);
    hide BigEndian, ToNat, Resize, Shr;
    TwoBytes(w);
    BigEndianInjective(bytes, [w[8..], w[..8]]);
    assert bytes == [bytes[0], bytes[1]];
  }

  lemma SpellsFour(w: Word32, bytes: seq<Byte>)
    requires |bytes| == 4
    ensures BigEndian(bytes) == ToNat(w) <==>
      && bytes[0] == Resize(Shr(w, 24), 8) && bytes[1] == Resize(Shr(w, 16), 8)
      && bytes[2] == Resize(Shr(w, 8), 8) && bytes[3] == Resize(w, 8)
  {
    hide BigEndian, ToNat;
    BytesOf(w);
    hide Resize, Shr;
    FourBytes(w);
    BigEndianInjective(bytes, [w[24..], w[16..24], w[8..16], w[..8]]);
    assert bytes == [bytes[0], bytes[1], bytes[2], bytes[3]];
  }

  lemma BytesOf(w: Word32)
    ensures w[24..] == Resize(Shr(w, 24), 8) && w[16..24] == Resize(Shr(w, 16), 8)
    ensures w[8..16] == Resize(Shr(w, 8), 8) && w[..8] == Resize(w, 8)
  {}

  // ---------- An insert, block by block ----------

  /** All of block k and its tags are right. */
  ghost predicate BlockRight(src: seq<Byte>, dst: seq<Byte>, blk: nat, app: Word16, ref: nat, k: nat) {
    && DataRight(src, dst, blk, k) && GuardRight(src, dst, blk, blk, k)
    && AppRight(dst, blk, app, k) && RefRight(dst, blk, ref, false, k)
  }

  ghost predicate BlocksRight(src: seq<Byte>, dst: seq<Byte>, idx: nat, app: Word16, ref: nat)
    requires idx < 4
  {
    forall k: nat | k < |src| / BlockSize(idx) :: BlockRight(src, dst, BlockSize(idx), app, ref, k)
  }

  lemma BlockBehind(src: seq<Byte>, dst: seq<Byte>, blk: nat, app: Word16, ref: nat, k: nat)
    requires 0 < k && blk <= |src| && blk + 8 <= |dst|
    ensures BlockRight(src, dst, blk, app, ref, k)
       <==> BlockRight(src[blk..], dst[blk + 8..], blk, app, ref + 1, k - 1)
  {
    hide DataRight, GuardRight, AppRight, RefRight;
    DataBehind(src, dst, blk, k);
    GuardBehind(src, dst, blk, k);
    AppBehind(dst, blk, app, k);
    RefBehind(dst, blk, ref, k);
  }

  lemma GuardBehind(src: seq<Byte>, dst: seq<Byte>, blk: nat, k: nat)
    requires 0 < k && blk <= |src| && blk + 8 <= |dst|
    ensures GuardRight(src, dst, blk, blk, k) <==> GuardRight(src[blk..], dst[blk + 8..], blk, blk, k - 1)
  {
    hide Guard, BigEndian, ToNat;
    MulStep(k, blk);
    MulStep(k, blk + 8);
    var from, at := (k - 1) * blk, (k - 1) * (blk + 8) + blk;
    Behind(src, blk, from, from + blk);
    Behind(dst, blk + 8, at, at + 2);
  }

  lemma AppBehind(dst: seq<Byte>, blk: nat, app: Word16, k: nat)
    requires 0 < k && blk + 8 <= |dst|
    ensures AppRight(dst, blk, app, k) <==> AppRight(dst[blk + 8..], blk, app, k - 1)
  {
    hide BigEndian, ToNat;
    MulStep(k, blk + 8);
    var at := (k - 1) * (blk + 8) + blk;
    Behind(dst, blk + 8, at + 2, at + 4);
  }

  lemma RefBehind(dst: seq<Byte>, blk: nat, ref: nat, k: nat)
    requires 0 < k && blk + 8 <= |dst|
    ensures RefRight(dst, blk, ref, false, k) <==> RefRight(dst[blk + 8..], blk, ref + 1, false, k - 1)
  {
    hide BigEndian, ToNat;
    MulStep(k, blk + 8);
    var at := (k - 1) * (blk + 8) + blk;
    Behind(dst, blk + 8, at + 4, at + 8);
  }

  lemma Behind(a: seq<Byte>, skip: nat, from: nat, to: nat)
    requires skip <= |a| && from <= to
    ensures skip + to <= |a| ==> a[skip..][from..to] == a[skip + from..skip + to]
  {}

  lemma FirstBlock(src: seq<Byte>, dst: seq<Byte>, blk: nat, app: Word16, ref: nat)
    requires blk <= |src| && blk + 8 <= |dst|
    ensures BlockRight(src, dst, blk, app, ref, 0) <==> dst[..blk + 8] == src[..blk] + Tag(src[..blk], app, ref)
  {
    hide Guard, BigEndian, ToNat, Tag;
    var t := Tag(src[..blk], app, ref);
    TagSpells(src[..blk], app, ref);
    BigEndianInjective(dst[blk..blk + 2], t[0..2]);
    BigEndianInjective(dst[blk + 2..blk + 4], t[2..4]);
    BigEndianInjective(dst[blk + 4..blk + 8], t[4..8]);
    assert dst[0..blk] == dst[..blk] && src[0..blk] == src[..blk];
    InParts(dst[..blk + 8], src[..blk], t);
    assert dst[..blk + 8][..blk] == dst[..blk];
    assert dst[..blk + 8][blk..blk + 2] == dst[blk..blk + 2];
    assert dst[..blk + 8][blk + 2..blk + 4] == dst[blk + 2..blk + 4];
    assert dst[..blk + 8][blk + 4..blk + 8] == dst[blk + 4..blk + 8];
  }

  lemma InParts(d: seq<Byte>, b: seq<Byte>, t: seq<Byte>)
    requires |t| == 8 && |d| == |b| + 8
    ensures var blk := |b|; d == b + t <==>
      && d[..blk] == b && d[blk..blk + 2] == t[0..2] && d[blk + 2..blk + 4] == t[2..4]
      && d[blk + 4..blk + 8] == t[4..8]
  {
    var blk := |b|;
    assert d == d[..blk] + d[blk..blk + 2] + d[blk + 2..blk + 4] + d[blk + 4..blk + 8];
    assert t == t[0..2] + t[2..4] + t[4..8];
    var e := b + t;
    assert e[..blk] == b && e[blk..blk + 2] == t[0..2];
    assert e[blk + 2..blk + 4] == t[2..4] && e[blk + 4..blk + 8] == t[4..8];
  }

  /** A buffer is the insert of its source exactly when, block by block, it holds the data, and tag bytes that spell
      the guard, the application tag and the reference tag counting up. */
  lemma {:induction false} InsertMeans(src: seq<Byte>, dst: seq<Byte>, idx: nat, app: Word16, ref: nat)
    requires idx < 4 && Whole(|src|, idx) && |dst| == |src| + 8 * BlocksIn(|src|, idx)
    ensures dst == Insert(src, BlockSize(idx), app, ref) <==> BlocksRight(src, dst, idx, app, ref)
    decreases |src|
  {
    hide Tag, BlockRight, Whole, BlockSize, BlocksIn;
    var blk := BlockSize(idx);
    DivideBlocks(|src|, idx);
    BlocksAre(|src|, idx);
    if |src| < blk {
      assert Insert(src, blk, app, ref) == [];
    } else {
      var src', dst', ref' := src[blk..], dst[blk + 8..], ref + 1;
      InsertMeans(src', dst', idx, app, ref');
      BlocksAre(|src'|, idx);
      FirstBlock(src, dst, blk, app, ref);
      forall k: nat | 0 < k < |src| / blk
        ensures BlockRight(src, dst, blk, app, ref, k) <==> BlockRight(src', dst', blk, app, ref', k - 1)
      {
        BlockBehind(src, dst, blk, app, ref, k);
      }
      InsertFirst(src, blk, app, ref);
      hide Insert;
      FirstAndRest(dst, blk + 8, src[..blk] + Tag(src[..blk], app, ref), Insert(src', blk, app, ref'));
      if forall k: nat | k < |src| / blk :: BlockRight(src, dst, blk, app, ref, k) {
        forall k: nat | k < |src'| / blk ensures BlockRight(src', dst', blk, app, ref', k) {
          assert BlockRight(src, dst, blk, app, ref, k + 1);
        }
      }
    }
  }

  lemma BlocksAre(n: nat, idx: nat)
    requires idx < 4
    ensures n / BlockSize(idx) == BlocksIn(n, idx)
  {}

  lemma FirstAndRest(d: seq<Byte>, n: nat, a: seq<Byte>, b: seq<Byte>)
    requires |a| == n <= |d|
    ensures d == a + b <==> d[..n] == a && d[n..] == b
  {
    if d == a + b {
      assert d[..n] == a && d[n..] == b;
    }
    assert d == d[..n] + d[n..];
  }

  /** Strip gives the data of every block. */
  lemma {:induction false} StripMeans(src: seq<Byte>, dst: seq<Byte>, idx: nat)
    requires idx < 4 && Whole(|src|, idx) && |dst| == |src| + 8 * BlocksIn(|src|, idx)
    ensures Strip(dst, BlockSize(idx)) == src
       <==> forall k: nat | k < |src| / BlockSize(idx) :: DataRight(src, dst, BlockSize(idx), k)
    decreases |src|
  {
    hide DataRight, Whole, BlockSize, BlocksIn;
    var blk := BlockSize(idx);
    DivideBlocks(|src|, idx);
    BlocksAre(|src|, idx);
    if |src| < blk {
      assert Strip(dst, blk) == [];
    } else {
      var src', dst' := src[blk..], dst[blk + 8..];
      StripMeans(src', dst', idx);
      BlocksAre(|src'|, idx);
      FirstData(src, dst, blk);
      forall k: nat | 0 < k < |src| / blk
        ensures DataRight(src, dst, blk, k) <==> DataRight(src', dst', blk, k - 1)
      {
        DataBehind(src, dst, blk, k);
      }
      assert Strip(dst, blk) == dst[..blk] + Strip(dst', blk);
      hide Strip;
      FirstAndRest(src, blk, dst[..blk], Strip(dst', blk));
      if forall k: nat | k < |src| / blk :: DataRight(src, dst, blk, k) {
        forall k: nat | k < |src'| / blk ensures DataRight(src', dst', blk, k) {
          assert DataRight(src, dst, blk, k + 1);
        }
      }
    }
  }

  lemma FirstData(src: seq<Byte>, dst: seq<Byte>, blk: nat)
    requires blk <= |src| && blk + 8 <= |dst|
    ensures DataRight(src, dst, blk, 0) <==> src[..blk] == dst[..blk]
  {
    assert dst[0..blk] == dst[..blk] && src[0..blk] == src[..blk];
  }

  lemma DataBehind(src: seq<Byte>, dst: seq<Byte>, blk: nat, k: nat)
    requires 0 < k && blk <= |src| && blk + 8 <= |dst|
    ensures DataRight(src, dst, blk, k) <==> DataRight(src[blk..], dst[blk + 8..], blk, k - 1)
  {
    MulStep(k, blk);
    MulStep(k, blk + 8);
    Behind(src, blk, (k - 1) * blk, (k - 1) * blk + blk);
    Behind(dst, blk + 8, (k - 1) * (blk + 8), (k - 1) * (blk + 8) + blk);
  }

  /** The checker finds no mismatch in a buffer that strips to the source exactly when the buffer
      is the insert of the source. */
  lemma CheckerAcceptsInsert(src: seq<Byte>, dst: seq<Byte>, idx: nat, app: Word16, ref: nat)
    requires idx < 4 && Whole(|src|, idx) && |dst| == |src| + 8 * BlocksIn(|src|, idx)
    ensures var blk := BlockSize(idx); var n := |src| / blk;
      dst == Insert(src, blk, app, ref) <==>
      && Strip(dst, blk) == src
      && (forall k: nat | k < n :: GuardRight(src, dst, blk, blk, k))
      && (forall k: nat | k < n :: AppRight(dst, blk, app, k))
      && (forall k: nat | k < n :: RefRight(dst, blk, ref, false, k))
  {
    hide Tag, Insert, Strip, Whole, BlocksIn, BlockSize, DataRight, GuardRight, AppRight, RefRight;
    InsertMeans(src, dst, idx, app, ref);
    StripMeans(src, dst, idx);
    var blk := BlockSize(idx);
    if dst == Insert(src, blk, app, ref) {
      forall k: nat | k < |src| / blk
        ensures DataRight(src, dst, blk, k) && GuardRight(src, dst, blk, blk, k)
        ensures AppRight(dst, blk, app, k) && RefRight(dst, blk, ref, false, k)
      {
        assert BlockRight(src, dst, blk, app, ref, k);
      }
    }
  }
}
