/** Data integrity fields: the T10 guard CRC of test/dsa.c, the eight tag bytes that a DIF insert
    adds to every block, and their removal by a strip. */
module Dif {
  import opened Bits
  import opened ShiftRegister

  // ---------- The guard CRC ----------

  function T10Polynomial(): Word16 {
    FromNat(0x8BB7, 16)
  }

  function ReverseAll(data: seq<Byte>): (r: seq<Byte>)
    ensures |r| == |data| && forall i | 0 <= i < |data| :: r[i] == Reverse(data[i])
  {
    seq(|data|, i requires 0 <= i < |data| => Reverse(data[i]))
  }

  /** The remainder of the message, shifted up by 16, divided by the T10 polynomial: bytes enter
      most significant bit first, and `invertSeed` and `invertResult` complement the ends. */
  function Guard(data: seq<Byte>, invertSeed: bool, invertResult: bool): Word16 {
    var init := if invertSeed then Ones(16) else Zeros(16);
    var crc := Reverse(Remainder(Dividend(init, Flatten(ReverseAll(data))), Reverse(T10Polynomial())));
    if invertResult then Not(crc) else crc
  }

  /** `t10_dif_crc_table` at a byte: the byte at the top of the register, shifted out to the left. */
  function T10Table(d: Byte): Word16 {
    LeftSteps(8, Shl(Resize(d, 16), 8), T10Polynomial())
  }

  /** Entry 1 of the source's table is the polynomial. */
  lemma T10EntryOne()
    ensures T10Table(FromNat(1, 8)) == FromNat(0x8BB7, 16)
  {
    PowerIsBit(0, 8);
    assert Pow2(0) == 1;
    hide FromNat, T10Polynomial, LeftSteps;
    assert Shl(Resize(Bit(8, 0), 16), 8) == Bit(16, 8);
    LeftToTop(8, T10Polynomial());
    assert T10Polynomial() == FromNat(0x8BB7, 16) by { T10Is(); }
  }

  lemma T10Is()
    ensures T10Polynomial() == FromNat(0x8BB7, 16)
  {
    hide FromNat;
  }

  lemma {:induction false} LeftToTop(i: nat, poly: Word16)
    requires i < 16
    ensures LeftSteps(16 - i, Bit(16, i), poly) == poly
    decreases 16 - i
  {
    if i == 15 {
      assert LeftStep(Bit(16, 15), poly) == poly;
    } else {
      assert LeftStep(Bit(16, i), poly) == Bit(16, i + 1);
      LeftToTop(i + 1, poly);
    }
  }

  /** Mirrored, the table is the byte table of the reversed polynomial. */
  lemma T10TableMirrored(d: Byte)
    ensures Reverse(T10Table(d)) == TableEntry(ToNat(Reverse(d)), Reverse(T10Polynomial()))
  {
    var seed := Shl(Resize(d, 16), 8);
    assert Reverse(seed) == Resize(Reverse(d), 16);
    hide T10Polynomial, LeftSteps, Steps, Reverse, ToNat, FromNat, Shl, Resize;
    FromToNat(Reverse(d));
    LeftStepsMirror(8, seed, T10Polynomial());
  }

  lemma T10Wiring(crc: Word16, d: Byte, entry: Word16)
    ensures Reverse(Resize(Xor(Shr(crc, 8), Resize(d, 16)), 8)) == Xor(Reverse(d), Reverse(crc)[..8])
    ensures Reverse(Xor(Shl(crc, 8), entry)) == Xor(Reverse(entry), Shr(Reverse(crc), 8))
  {}

  lemma T10Step(crc: Word16, d: Byte)
    ensures Reverse(Xor(Shl(crc, 8), T10Table(Resize(Xor(Shr(crc, 8), Resize(d, 16)), 8))))
         == Feed(Reverse(crc), Reverse(d), Reverse(T10Polynomial()))
  {
    hide T10Polynomial, T10Table, Feed, Reverse, Shl, Shr, Resize, Xor, ToNat, TableEntry;
    var index := Resize(Xor(Shr(crc, 8), Resize(d, 16)), 8);
    T10TableMirrored(index);
    T10Wiring(crc, d, T10Table(index));
    TableStep(Reverse(crc), Reverse(d), Reverse(T10Polynomial()));
  }

  method CalculateCrcT10dif(buffer: array<Byte>, at: nat, len: nat, invertSeed: bool, invertResult: bool)
    returns (crc: Word16)
    requires at + len <= buffer.Length
    ensures crc == Guard(buffer[at..at + len], invertSeed, invertResult)
  {
    hide T10Polynomial, T10Table, Feed, FeedAll, Reverse, Xor, Shl, Shr, Resize, Guard;
    crc := if invertSeed then Ones(16) else Zeros(16);
    ghost var init := crc;
    ghost var P := Reverse(T10Polynomial());
    assert ReverseAll(buffer[at..at]) == [];
    assert Reverse(init) == FeedAll(Reverse(init), [], P) by { FeedNothing(Reverse(init), P); }
    for i := 0 to len
      invariant Reverse(crc) == FeedAll(Reverse(init), ReverseAll(buffer[at..at + i]), P)
    {
      var d := buffer[at + i];
      T10Step(crc, d);
      ReverseAllNext(buffer[at..at + i + 1]);
      assert buffer[at..at + i + 1][..i] == buffer[at..at + i];
      FeedAllAppend(Reverse(init), ReverseAll(buffer[at..at + i]), [Reverse(d)], P);
      FeedAllOne(Reverse(crc), Reverse(d), P);
      crc := Xor(Shl(crc, 8), T10Table(Resize(Xor(Shr(crc, 8), Resize(d, 16)), 8)));
    }
    FedIsGuard(buffer[at..at + len], crc, invertSeed);
    if invertResult {
      crc := Not(crc);
    }
    GuardInverted(buffer[at..at + len], invertSeed);
  }

  lemma FeedNothing(init: Word, poly: Word)
    requires |init| == |poly|
    ensures FeedAll(init, [], poly) == init
  {}

  lemma ReverseAllNext(data: seq<Byte>)
    requires |data| > 0
    ensures ReverseAll(data) == ReverseAll(data[..|data| - 1]) + [Reverse(data[|data| - 1])]
  {}

  lemma SameBackwards(ones: bool)
    ensures var w := if ones then Ones(16) else Zeros(16); Reverse(w) == w
  {}

  lemma FedIsGuard(data: seq<Byte>, crc: Word16, invertSeed: bool)
    requires Reverse(crc) == FeedAll(Reverse(if invertSeed then Ones(16) else Zeros(16)), ReverseAll(data),
      Reverse(T10Polynomial()))
    ensures crc == Guard(data, invertSeed, false)
  {
    hide T10Polynomial, Remainder, Dividend, Flatten, FeedAll, Reverse, ReverseAll;
    var init: Word16 := if invertSeed then Ones(16) else Zeros(16);
    SameBackwards(invertSeed);
    ReverseTwice(crc);
    FeedAllIsDivision(init, ReverseAll(data), Reverse(T10Polynomial()));
  }

  lemma GuardInverted(data: seq<Byte>, invertSeed: bool)
    ensures Guard(data, invertSeed, true) == Not(Guard(data, invertSeed, false))
  {}

  // ---------- Tagged blocks ----------

  /** `dif_blk_arr`, the supported block sizes. */
  function BlockSize(idx: nat): (blk: nat)
    requires idx < 4
    ensures blk == (if idx < 2 then 512 else 4096) + 8 * (idx % 2)
  {
    if idx == 0 then 512 else if idx == 1 then 520 else if idx == 2 then 4096 else 4104
  }

  /** Blocks in n bytes, the source's `n / dif_arr[blk_idx_flg]`. */
  function BlocksIn(n: nat, idx: nat): nat
    requires idx < 4
  {
    n / BlockSize(idx)
  }

  /** n bytes are whole blocks. */
  predicate Whole(n: nat, idx: nat)
    requires idx < 4
  {
    n % BlockSize(idx) == 0
  }

  lemma {:induction false} WholeAdd(m: nat, n: nat, idx: nat)
    requires idx < 4 && Whole(m, idx)
    ensures Whole(m + n, idx) <==> Whole(n, idx)
    ensures BlocksIn(m + n, idx) == BlocksIn(m, idx) + BlocksIn(n, idx)
  {
    hide Whole, BlocksIn;
    DivideBlocks(m, idx);
    DivideBlocks(m + n, idx);
    if m >= BlockSize(idx) {
      WholeAdd(m - BlockSize(idx), n, idx);
    } else {
      assert m == 0;
    }
  }

  const REF_TAGS: nat := 0x1_0000_0000

  /** The eight tag bytes of a block: guard, application tag and reference tag, each big-endian. */
  function Tag(block: seq<Byte>, app: Word16, ref: nat): (t: seq<Byte>)
    ensures |t| == 8
  {
    var g: Word, a: Word, r: Word := Guard(block, false, false), app, FromNat(ref % REF_TAGS, 32);
    [g[8..], g[..8], a[8..], a[..8], r[24..], r[16..24], r[8..16], r[..8]]
  }

  /** What the tag bytes are: bytes 0 and 1 spell the guard, 2 and 3 the application tag, and 4 to 7
      the reference tag. */
  lemma TagSpells(block: seq<Byte>, app: Word16, ref: nat)
    ensures var t := Tag(block, app, ref);
      && BigEndian(t[0..2]) == ToNat(Guard(block, false, false))
      && BigEndian(t[2..4]) == ToNat(app)
      && BigEndian(t[4..8]) == ref % 0x1_0000_0000
  {
    hide Guard, FromNat, ToNat, BigEndian;
    var g, r: Word32 := Guard(block, false, false), FromNat(ref % REF_TAGS, 32);
    var t := Tag(block, app, ref);
    assert t[0..2] == [g[8..], g[..8]] && t[2..4] == [app[8..], app[..8]];
    assert t[4..8] == [r[24..], r[16..24], r[8..16], r[..8]];
    TwoBytes(g);
    TwoBytes(app);
    FourBytes(r);
    Pow2Is32();
    ToFromNat(ref % REF_TAGS, 32);
  }

  lemma Pow2Is32()
    ensures Pow2(32) == 0x1_0000_0000 && Pow2(8) == 0x100 && Pow2(16) == 0x1_0000
  {
    assert Pow2(8) == 0x100;
    assert Pow2(16) == 0x1_0000;
    assert Pow2(24) == 0x100_0000;
  }

  lemma TwoBytes(w: Word16)
    ensures BigEndian([w[8..], w[..8]]) == ToNat(w)
  {
    hide ToNat;
    ToNatSplit(w, 8);
    Pow2Is32();
    var high: Byte, low: Byte := w[8..], w[..8];
    assert [high, low][..1] == [high] && [high][..0] == [];
    assert BigEndian([high]) == ToNat(high);
  }

  lemma FourBytes(w: Word32)
    ensures BigEndian([w[24..], w[16..24], w[8..16], w[..8]]) == ToNat(w)
  {
    hide ToNat;
    var a: Byte, b: Byte, c: Byte, d: Byte := w[24..], w[16..24], w[8..16], w[..8];
    ToNatSplit(w, 8);
    ToNatSplit(w[8..], 8);
    ToNatSplit(w[16..], 8);
    assert w[8..][..8] == c && w[8..][8..] == w[16..] && w[16..][..8] == b && w[16..][8..] == a;
    Pow2Is32();
    assert [a, b, c, d][..3] == [a, b, c] && [a, b, c][..2] == [a, b] && [a, b][..1] == [a] && [a][..0] == [];
    assert BigEndian([a]) == ToNat(a);
    assert BigEndian([a, b]) == 256 * ToNat(a) + ToNat(b);
    assert BigEndian([a, b, c]) == 256 * (256 * ToNat(a) + ToNat(b)) + ToNat(c);
  }

  /** DIF insert: every whole block is followed by its tags, and the reference tag counts up. */
  function Insert(src: seq<Byte>, blk: nat, app: Word16, ref: nat): seq<Byte>
    requires blk > 0
    decreases |src|
  {
    if |src| < blk then []
    else src[..blk] + Tag(src[..blk], app, ref) + Insert(src[blk..], blk, app, ref + 1)
  }

  /** DIF strip: every eight bytes after a block are dropped. */
  function Strip(dst: seq<Byte>, blk: nat): seq<Byte>
    requires blk > 0
    decreases |dst|
  {
    if |dst| < blk + 8 then [] else dst[..blk] + Strip(dst[blk + 8..], blk)
  }

  lemma DivideBlocks(n: nat, idx: nat)
    requires idx < 4
    ensures n < BlockSize(idx) ==> BlocksIn(n, idx) == 0 && (Whole(n, idx) ==> n == 0)
    ensures n >= BlockSize(idx) ==> BlocksIn(n, idx) == BlocksIn(n - BlockSize(idx), idx) + 1
    ensures n >= BlockSize(idx) ==> (Whole(n, idx) <==> Whole(n - BlockSize(idx), idx))
  {}

  /** Strip undoes insert on whole blocks. */
  lemma {:induction false} StripUndoesInsert(src: seq<Byte>, idx: nat, app: Word16, ref: nat)
    requires idx < 4 && Whole(|src|, idx)
    ensures Strip(Insert(src, BlockSize(idx), app, ref), BlockSize(idx)) == src
    decreases |src|
  {
    hide Tag, Whole, BlocksIn;
    var blk := BlockSize(idx);
    DivideBlocks(|src|, idx);
    if |src| >= blk {
      var rest := Insert(src[blk..], blk, app, ref + 1);
      var all := Insert(src, blk, app, ref);
      assert all[..blk] == src[..blk] && all[blk + 8..] == rest;
      StripUndoesInsert(src[blk..], idx, app, ref + 1);
    }
  }

  /** The destination offset is the source offset plus eight bytes a block. */
  lemma {:induction false} InsertLength(src: seq<Byte>, idx: nat, app: Word16, ref: nat)
    requires idx < 4 && Whole(|src|, idx)
    ensures |Insert(src, BlockSize(idx), app, ref)| == |src| + 8 * BlocksIn(|src|, idx)
    decreases |src|
  {
    hide Tag, Whole, BlocksIn;
    DivideBlocks(|src|, idx);
    if |src| >= BlockSize(idx) {
      InsertLength(src[BlockSize(idx)..], idx, app, ref + 1);
    }
  }

  lemma InsertFirst(src: seq<Byte>, blk: nat, app: Word16, ref: nat)
    requires 0 < blk <= |src|
    ensures Insert(src, blk, app, ref) == src[..blk] + Tag(src[..blk], app, ref) + Insert(src[blk..], blk, app, ref + 1)
  {}

  /** An insert cut at a whole block and resumed, with the reference tag advanced by the blocks
      done, is the uninterrupted insert. */
  lemma {:induction false} InsertResumes(a: seq<Byte>, b: seq<Byte>, idx: nat, app: Word16, ref: nat)
    requires idx < 4 && Whole(|a|, idx)
    ensures Insert(a + b, BlockSize(idx), app, ref)
         == Insert(a, BlockSize(idx), app, ref) + Insert(b, BlockSize(idx), app, ref + BlocksIn(|a|, idx))
    decreases |a|
  {
    hide Tag, Whole, BlocksIn;
    var blk := BlockSize(idx);
    DivideBlocks(|a|, idx);
    if |a| < blk {
      assert a + b == b;
    } else {
      InsertResumes(a[blk..], b, idx, app, ref + 1);
      InsertFirst(a, blk, app, ref);
      InsertFirst(a + b, blk, app, ref);
      hide Insert, BlockSize;
      assert (a + b)[..blk] == a[..blk] && (a + b)[blk..] == a[blk..] + b;
    }
  }
}
