/** The CRC-32C of `dsa_calculate_crc32` in test/dsa.c: slicing by eight tables over 64-bit
    strides with a bytewise tail, or byte by byte over bit-reversed data. */
module Crc32c {
  import opened Bits
  import opened ShiftRegister

  /** The Castagnoli polynomial in division order: bit 0 is the coefficient of x^31. */
  function Castagnoli(): Word32 {
    FromNat(0x82F63B78, 32)
  }

  // ---------- What the CRC is by definition ----------

  /** With `bypassInvRef` the register is seeded and read out in reflected order; otherwise it is
      seeded and read out complemented. */
  function Fold(w: Word32, bypassInvRef: bool): Word32 {
    if bypassInvRef then Reverse(w) else Not(w)
  }

  /** With `bypassDataRef` every byte enters most significant bit first. */
  function DataOrder(data: seq<Byte>, bypassDataRef: bool): (v: seq<Byte>)
    ensures |v| == |data|
    ensures forall i | 0 <= i < |data| :: v[i] == if bypassDataRef then Reverse(data[i]) else data[i]
  {
    seq(|data|, i requires 0 <= i < |data| => if bypassDataRef then Reverse(data[i]) else data[i])
  }

  function Reference(data: seq<Byte>, seed: Word32, bypassInvRef: bool, bypassDataRef: bool): Word32 {
    Fold(Remainder(Dividend(Fold(seed, bypassInvRef), Flatten(DataOrder(data, bypassDataRef))), Castagnoli()),
         bypassInvRef)
  }

  // ---------- The tables, by the recurrences that generate them ----------

  /** `crc32_lookup[k]` at a byte; `crc32c_table` is table 0. */
  function Lookup(k: nat, d: Byte): (r: Word32)
    decreases k
  {
    if k == 0 then TableEntry(ToNat(d), Castagnoli())
    else
      var previous := Lookup(k - 1, d);
      Xor(Lookup(0, Resize(previous, 8)), Shr(previous, 8))
  }

  /** Entry 128 of the source's table is the polynomial. */
  lemma EntryOneTwoEight()
    ensures Lookup(0, FromNat(128, 8)) == FromNat(0x82F63B78, 32)
  {
    var d: Byte := FromNat(128, 8);
    PowerIsBit(7, 8);
    assert Pow2(7) == 128;
    FromToNat(d);
    hide FromNat, ToNat, Steps;
    assert Resize(d, 32) == Bit(32, 7);
    RightToBottom(7, Castagnoli());
    assert TableEntry(ToNat(d), Castagnoli()) == Castagnoli();
  }

  lemma {:induction false} RightToBottom(i: nat, poly: Word32)
    requires i < 32
    ensures Steps(i + 1, Bit(32, i), poly) == poly
  {
    if i == 0 {
      assert Step(Bit(32, 0), poly) == poly;
      StepsUnfold(1, Bit(32, 0), poly);
    } else {
      assert Step(Bit(32, i), poly) == Bit(32, i - 1);
      RightToBottom(i - 1, poly);
    }
  }

  /** Table k holds its index byte shifted out followed by k zero bytes. */
  lemma {:induction false} LookupIsSteps(k: nat, d: Byte)
    ensures Lookup(k, d) == Steps(8 * k + 8, Resize(d, 32), Castagnoli())
    decreases k
  {
    hide Steps, Castagnoli, ToNat, FromNat, Xor, Shr, Resize;
    FromToNat(d);
    if k > 0 {
      LookupIsSteps(k - 1, d);
      var previous := Lookup(k - 1, d);
      TableStep(previous, Zeros(8), Castagnoli());
      NoInput(previous);
      StepsAdd(8 * k, 8, Resize(d, 32), Castagnoli());
    }
  }

  lemma NoInput(w: Word32)
    ensures Xor(Zeros(8), w[..8]) == Resize(w, 8)
    ensures Xor(w, Resize(Zeros(8), 32)) == w
  {}

  // ---------- Slicing by eight ----------

  /** Byte j of a word: `(w >> 8 * j) & 0xff`. */
  function ByteOf(w: Word32, j: nat): Byte {
    Resize(Shr(w, 8 * j), 8)
  }

  /** Byte j of a word, in place. */
  function InPlace(w: Word32, j: nat): Word32 {
    Shl(Resize(ByteOf(w, j), 32), 8 * j)
  }

  lemma SplitBytes(w: Word32)
    ensures w == Xor(Xor(Xor(InPlace(w, 0), InPlace(w, 1)), InPlace(w, 2)), InPlace(w, 3))
  {}

  lemma InPlaceShifted(w: Word32, j: nat)
    requires j < 4
    ensures Shr(InPlace(w, j), 8 * j) == Resize(ByteOf(w, j), 32)
    ensures forall i | 0 <= i < 8 * j :: !InPlace(w, j)[i]
  {}

  /** A byte in place j needs j quiet byte steps before it is shifted out. */
  lemma LookupOfByte(w: Word32, j: nat, k: nat)
    requires j < 4
    ensures Lookup(k, ByteOf(w, j)) == Steps(8 * (k + j + 1), InPlace(w, j), Castagnoli())
  {
    hide Steps, Castagnoli, Lookup, ToNat, ByteOf, InPlace, Resize, Shl, Shr;
    LookupIsSteps(k, ByteOf(w, j));
    InPlaceShifted(w, j);
    QuietThen(8 * j, 8 * k + 8, InPlace(w, j), Castagnoli());
    assert 8 * (k + j + 1) == 8 * j + (8 * k + 8);
  }

  /** Four look-ups shift a whole word out, followed by k zero bytes. */
  lemma SliceWord(w: Word32, k: nat)
    ensures Xor(Xor(Xor(Lookup(k + 3, ByteOf(w, 0)), Lookup(k + 2, ByteOf(w, 1))),
                    Lookup(k + 1, ByteOf(w, 2))), Lookup(k, ByteOf(w, 3)))
         == Steps(8 * (k + 4), w, Castagnoli())
  {
    hide Steps, Castagnoli, Lookup, ToNat, ByteOf, InPlace, Xor;
    LookupOfByte(w, 0, k + 3);
    LookupOfByte(w, 1, k + 2);
    LookupOfByte(w, 2, k + 1);
    LookupOfByte(w, 3, k);
    SplitBytes(w);
    var n, P := 8 * (k + 4), Castagnoli();
    var w0, w1, w2, w3 := InPlace(w, 0), InPlace(w, 1), InPlace(w, 2), InPlace(w, 3);
    StepsLinear(n, Xor(Xor(w0, w1), w2), w3, P);
    StepsLinear(n, Xor(w0, w1), w2, P);
    StepsLinear(n, w0, w1, P);
  }

  /** Little-endian load of a 32-bit word. */
  function Load32(data: seq<Byte>): Word32
    requires |data| == 4
  {
    var b0: Word, b1: Word, b2: Word, b3: Word := data[0], data[1], data[2], data[3];
    b0 + (b1 + (b2 + b3))
  }

  lemma Load32IsFlatten(data: seq<Byte>)
    requires |data| == 4
    ensures Flatten(data) == Load32(data)
  {
    assert data == [data[0]] + ([data[1]] + ([data[2]] + [data[3]]));
    forall i | 0 <= i < 4 ensures Flatten([data[i]]) == data[i] { assert [data[i]][1..] == []; }
    hide Flatten;
    FlattenAppend([data[2]], [data[3]]);
    FlattenAppend([data[1]], [data[2]] + [data[3]]);
    FlattenAppend([data[0]], [data[1]] + ([data[2]] + [data[3]]));
  }

  /** The stride of the fast loop: eight look-ups, one table per byte position. */
  function Stride(one: Word32, two: Word32): Word32 {
    Xor(Xor(Xor(Xor(Xor(Xor(Xor(
      Lookup(7, ByteOf(one, 0)),
      Lookup(6, ByteOf(one, 1))),
      Lookup(5, ByteOf(one, 2))),
      Lookup(4, ByteOf(one, 3))),
      Lookup(3, ByteOf(two, 0))),
      Lookup(2, ByteOf(two, 1))),
      Lookup(1, ByteOf(two, 2))),
      Lookup(0, ByteOf(two, 3)))
  }

  lemma XorAssociates(a: Word32, b: Word32, c: Word32, d: Word32, e: Word32)
    ensures Xor(Xor(Xor(Xor(a, b), c), d), e) == Xor(a, Xor(Xor(Xor(b, c), d), e))
  {}

  lemma StrideIsSteps(one: Word32, two: Word32)
    ensures Stride(one, two) == Xor(Steps(64, one, Castagnoli()), Steps(32, two, Castagnoli()))
  {
    hide Steps, Castagnoli, Lookup, ByteOf, Xor;
    SliceWord(one, 4);
    SliceWord(two, 0);
    XorAssociates(Steps(64, one, Castagnoli()),
                  Lookup(3, ByteOf(two, 0)), Lookup(2, ByteOf(two, 1)),
                  Lookup(1, ByteOf(two, 2)), Lookup(0, ByteOf(two, 3)));
  }

  lemma FeedWord(crc: Word32, m: Word32)
    ensures Feed(crc, m, Castagnoli()) == Steps(32, Xor(crc, m), Castagnoli())
  {
    assert Resize(m, 32) == m;
    hide Steps, Castagnoli, Xor;
  }

  /** A stride consumes its eight bytes exactly as eight bytewise steps would. */
  lemma StrideFeeds(crc: Word32, data: seq<Byte>)
    requires |data| == 8
    ensures Stride(Xor(Load32(data[..4]), crc), Load32(data[4..])) == FeedAll(crc, data, Castagnoli())
  {
    hide Steps, Stride, Feed, FeedAll, Castagnoli, Load32, Xor;
    var P := Castagnoli();
    var a, b := data[..4], data[4..];
    var one := Xor(crc, Load32(a));
    assert Xor(Load32(a), crc) == one;
    assert data == a + b;
    Load32IsFlatten(a);
    Load32IsFlatten(b);
    FeedAllAppend(crc, a, b, P);
    FeedAllIsFeed(crc, a, P);
    FeedWord(crc, Load32(a));
    var mid := Steps(32, one, P);
    FeedAllIsFeed(mid, b, P);
    FeedWord(mid, Load32(b));
    StepsLinear(32, mid, Load32(b), P);
    StepsAdd(32, 32, one, P);
    StrideIsSteps(one, Load32(b));
  }

  // ---------- Bit reversal by nibbles ----------

  function ReversedNibble(x: nat): (r: nat)
    requires x < 16
    ensures r < 16
  {
    [0x0, 0x8, 0x4, 0xC, 0x2, 0xA, 0x6, 0xE, 0x1, 0x9, 0x5, 0xD, 0x3, 0xB, 0x7, 0xF][x]
  }

  function NibbleWord(x: Byte): Byte {
    assert Pow2(4) == 16;
    Resize(FromNat(ReversedNibble(ToNat(x[..4])), 4), 8)
  }

  function ReverseU8(x: Byte): Byte {
    Or(NibbleWord(Shr(x, 4)), Shl(NibbleWord(x), 4))
  }

  lemma NibbleIsReversed(x: Byte)
    ensures NibbleWord(x) == Resize(Reverse(x[..4]), 8)
  {
    hide FromNat, Reverse, Resize;
    var n := x[..4];
    FourBitsNat(n);
    var r := ReversedNibble(ToNat(n));
    hide ToNat;
    assert r == (if n[3] then 1 else 0) + (if n[2] then 2 else 0) + (if n[1] then 4 else 0) + (if n[0] then 8 else 0);
    FourBits(r, n);
  }

  lemma FourBitsNat(n: Word)
    requires |n| == 4
    ensures ToNat(n) ==
      (if n[0] then 1 else 0) + (if n[1] then 2 else 0) + (if n[2] then 4 else 0) + (if n[3] then 8 else 0)
  {
    assert ToNat(n) == (if n[0] then 1 else 0) + 2 * ToNat(n[1..]);
    assert ToNat(n[1..]) == (if n[1] then 1 else 0) + 2 * ToNat(n[2..]) by { assert n[1..][1..] == n[2..]; }
    assert ToNat(n[2..]) == (if n[2] then 1 else 0) + 2 * ToNat(n[3..]) by { assert n[2..][1..] == n[3..]; }
    assert ToNat(n[3..]) == (if n[3] then 1 else 0) by { assert n[3..][1..] == []; }
  }

  lemma FourBits(r: nat, n: Word)
    requires |n| == 4
    requires r == (if n[3] then 1 else 0) + (if n[2] then 2 else 0) + (if n[1] then 4 else 0) + (if n[0] then 8 else 0)
    ensures FromNat(r, 4) == Reverse(n)
  {
    assert FromNat(r, 4) == [n[3]] + FromNat(r / 2, 3);
    assert FromNat(r / 2, 3) == [n[2]] + FromNat(r / 4, 2);
    assert FromNat(r / 4, 2) == [n[1]] + FromNat(r / 8, 1);
    assert FromNat(r / 8, 1) == [n[0]] + FromNat(r / 16, 0);
  }

  lemma ReverseU8IsReverse(x: Byte)
    ensures ReverseU8(x) == Reverse(x)
  {
    hide NibbleWord;
    NibbleIsReversed(x);
    NibbleIsReversed(Shr(x, 4));
  }

  method ReverseWord(num: Word32) returns (revNum: Word32)
    ensures revNum == Reverse(num)
  {
    hide ReverseU8;
    revNum := Zeros(32);
    for i := 0 to 4
      invariant i < 4 ==> forall k | 0 <= k < 32 :: revNum[k] == (8 <= k < 8 + 8 * i && num[8 * i + 7 - k])
      invariant i == 4 ==> revNum == Reverse(num)
    {
      ReverseU8IsReverse(ByteOf(num, i));
      revNum := Or(revNum, Resize(ReverseU8(ByteOf(num, i)), 32));
      if i < 3 {
        revNum := Shl(revNum, 8);
      }
    }
  }

  // ---------- The whole engine ----------

  lemma ByteFeeds(crc: Word32, d: Byte)
    ensures Xor(Shr(crc, 8), Lookup(0, Xor(Resize(crc, 8), d))) == Feed(crc, d, Castagnoli())
    ensures Xor(Lookup(0, Resize(Xor(crc, Resize(d, 32)), 8)), Shr(crc, 8)) == Feed(crc, d, Castagnoli())
  {
    hide Steps, Castagnoli, Feed, Xor, Resize, Shr, ToNat, TableEntry;
    TableStep(crc, d, Castagnoli());
    IndexByte(crc, d);
    XorCommutes(Shr(crc, 8), Lookup(0, Xor(d, crc[..8])));
  }

  lemma IndexByte(crc: Word32, d: Byte)
    ensures Xor(Resize(crc, 8), d) == Xor(d, crc[..8]) == Resize(Xor(crc, Resize(d, 32)), 8)
  {}

  lemma XorCommutes(a: Word, b: Word)
    requires |a| == |b|
    ensures Xor(a, b) == Xor(b, a)
  {}

  /** The register after the first i bytes. */
  function Consumed(init: Word32, data: seq<Byte>, bypassDataRef: bool): Word32 {
    FeedAll(init, DataOrder(data, bypassDataRef), Castagnoli())
  }

  lemma ConsumedAppend(init: Word32, a: seq<Byte>, b: seq<Byte>, bypassDataRef: bool)
    ensures Consumed(init, a + b, bypassDataRef) == Consumed(Consumed(init, a, bypassDataRef), b, bypassDataRef)
  {
    hide FeedAll, Castagnoli;
    assert DataOrder(a + b, bypassDataRef) == DataOrder(a, bypassDataRef) + DataOrder(b, bypassDataRef);
    FeedAllAppend(init, DataOrder(a, bypassDataRef), DataOrder(b, bypassDataRef), Castagnoli());
  }

  lemma ConsumedByte(init: Word32, a: seq<Byte>, d: Byte, bypassDataRef: bool)
    ensures Consumed(init, a + [d], bypassDataRef)
         == Feed(Consumed(init, a, bypassDataRef), if bypassDataRef then Reverse(d) else d, Castagnoli())
  {
    hide FeedAll, Feed, Castagnoli;
    ConsumedAppend(init, a, [d], bypassDataRef);
    var v := if bypassDataRef then Reverse(d) else d;
    assert DataOrder([d], bypassDataRef) == [v];
    FeedAllOne(Consumed(init, a, bypassDataRef), v, Castagnoli());
  }

  lemma ConsumedStride(init: Word32, a: seq<Byte>, data: seq<Byte>)
    requires |data| == 8
    ensures Consumed(init, a + data, false)
         == Stride(Xor(Load32(data[..4]), Consumed(init, a, false)), Load32(data[4..]))
  {
    hide FeedAll, Stride, Load32, Castagnoli, Xor;
    ConsumedAppend(init, a, data, false);
    assert DataOrder(data, false) == data;
    StrideFeeds(Consumed(init, a, false), data);
  }

  lemma TwoHalves(data: seq<Byte>, at: nat)
    requires at + 8 <= |data|
    ensures data[at..at + 8][..4] == data[at..at + 4] && data[at..at + 8][4..] == data[at + 4..at + 8]
  {}

  method CalculateCrc32(data: array<Byte>, length: nat, seed: Word32, bypassInvRef: bool, bypassDataRef: bool)
    returns (crc: Word32)
    requires length <= data.Length
    ensures crc == Reference(data[..length], seed, bypassInvRef, bypassDataRef)
    ensures var bits := Flatten(DataOrder(data[..length], bypassDataRef));
      crc == if bypassInvRef then Reverse(Remainder(Dividend(Reverse(seed), bits), Castagnoli()))
             else Not(Remainder(Dividend(Not(seed), bits), Castagnoli()))
  {
    hide Consumed, Stride, Lookup, ReverseU8, Castagnoli, Feed, Load32, Reverse, Xor, Shr, Resize, Not,
      Reference, Remainder, Dividend, Flatten, DataOrder, Fold;
    if bypassInvRef {
      crc := ReverseWord(seed);
    } else {
      crc := Not(seed);
    }
    FoldIs(seed, bypassInvRef);
    ghost var init := crc;
    ConsumedNothing(init, bypassDataRef);
    var left, at := length, 0;
    assert data[..0] == [];
    if !bypassDataRef {
      while left >= 8
        invariant at + left == length
        invariant crc == Consumed(init, data[..at], false)
      {
        ConsumedStride(init, data[..at], data[at..at + 8]);
        assert data[..at + 8] == data[..at] + data[at..at + 8];
        TwoHalves(data[..], at);
        var one := Xor(Load32(data[at..at + 4]), crc);
        var two := Load32(data[at + 4..at + 8]);
        crc := Stride(one, two);
        at := at + 8;
        left := left - 8;
      }
      while left > 0
        invariant at + left == length
        invariant crc == Consumed(init, data[..at], false)
      {
        ConsumedByte(init, data[..at], data[at], false);
        ByteFeeds(crc, data[at]);
        assert data[..at + 1] == data[..at] + [data[at]];
        crc := Xor(Shr(crc, 8), Lookup(0, Xor(Resize(crc, 8), data[at])));
        at := at + 1;
        left := left - 1;
      }
    } else {
      while left > 0
        invariant at + left == length
        invariant crc == Consumed(init, data[..at], true)
      {
        ConsumedByte(init, data[..at], data[at], true);
        ReverseU8IsReverse(data[at]);
        ByteFeeds(crc, ReverseU8(data[at]));
        assert data[..at + 1] == data[..at] + [data[at]];
        crc := Xor(Lookup(0, Resize(Xor(crc, Resize(ReverseU8(data[at]), 32)), 8)), Shr(crc, 8));
        at := at + 1;
        left := left - 1;
      }
    }
    ConsumedIsReference(data[..length], seed, bypassInvRef, bypassDataRef);
    ReferenceMeans(data[..length], seed, bypassInvRef, bypassDataRef);
    FoldIs(crc, bypassInvRef);
    if bypassInvRef {
      crc := ReverseWord(crc);
    } else {
      crc := Not(crc);
    }
  }

  lemma FoldIs(w: Word32, bypassInvRef: bool)
    ensures Fold(w, bypassInvRef) == if bypassInvRef then Reverse(w) else Not(w)
  {}

  lemma ReferenceMeans(data: seq<Byte>, seed: Word32, bypassInvRef: bool, bypassDataRef: bool)
    ensures var bits := Flatten(DataOrder(data, bypassDataRef));
      Reference(data, seed, bypassInvRef, bypassDataRef) ==
        if bypassInvRef then Reverse(Remainder(Dividend(Reverse(seed), bits), Castagnoli()))
        else Not(Remainder(Dividend(Not(seed), bits), Castagnoli()))
  {
    hide Remainder, Dividend, Flatten, Castagnoli, Reverse, Not;
  }

  lemma ConsumedNothing(init: Word32, bypassDataRef: bool)
    ensures Consumed(init, [], bypassDataRef) == init
  {}

  lemma ConsumedIsReference(data: seq<Byte>, seed: Word32, bypassInvRef: bool, bypassDataRef: bool)
    ensures Fold(Consumed(Fold(seed, bypassInvRef), data, bypassDataRef), bypassInvRef)
         == Reference(data, seed, bypassInvRef, bypassDataRef)
  {
    hide Castagnoli, Fold, FeedAll, Remainder, Dividend, Flatten;
    FeedAllIsDivision(Fold(seed, bypassInvRef), DataOrder(data, bypassDataRef), Castagnoli());
  }

  // ---------- What follows about the CRC ----------

  lemma FoldTwice(w: Word32, bypassInvRef: bool)
    ensures Fold(Fold(w, bypassInvRef), bypassInvRef) == w
  {
    ReverseTwice(w);
  }

  /** Feeding the CRC of the first part back as the seed of the second gives the CRC of the whole. */
  lemma SeedComposes(a: seq<Byte>, b: seq<Byte>, seed: Word32, bypassInvRef: bool, bypassDataRef: bool)
    ensures Reference(a + b, seed, bypassInvRef, bypassDataRef)
         == Reference(b, Reference(a, seed, bypassInvRef, bypassDataRef), bypassInvRef, bypassDataRef)
  {
    hide Fold, Consumed, Reference;
    var init := Fold(seed, bypassInvRef);
    var mid := Consumed(init, a, bypassDataRef);
    ConsumedIsReference(a, seed, bypassInvRef, bypassDataRef);
    ConsumedIsReference(b, Fold(mid, bypassInvRef), bypassInvRef, bypassDataRef);
    ConsumedIsReference(a + b, seed, bypassInvRef, bypassDataRef);
    ConsumedAppend(init, a, b, bypassDataRef);
    FoldTwice(mid, bypassInvRef);
  }

  /** The bytewise path over bit-reversed data is the fast path on reversed bytes. */
  lemma DataOrdersMirror(data: seq<Byte>, seed: Word32, bypassInvRef: bool)
    ensures Reference(data, seed, bypassInvRef, true) == Reference(DataOrder(data, true), seed, bypassInvRef, false)
  {
    hide Castagnoli, Fold, Remainder, Dividend, Flatten;
    assert DataOrder(DataOrder(data, true), false) == DataOrder(data, true);
  }

  /** Two equally long messages that differ only inside four consecutive bytes have different CRCs. */
  lemma DetectsWindows(prefix: seq<Byte>, w: seq<Byte>, w': seq<Byte>, suffix: seq<Byte>,
                       seed: Word32, bypassInvRef: bool, bypassDataRef: bool)
    requires |w| == |w'| <= 4 && w != w'
    ensures Reference(prefix + w + suffix, seed, bypassInvRef, bypassDataRef)
      != Reference(prefix + w' + suffix, seed, bypassInvRef, bypassDataRef)
  {
    hide Reference;
    if bypassDataRef {
      DataOrdersMirror(prefix + w + suffix, seed, bypassInvRef);
      DataOrdersMirror(prefix + w' + suffix, seed, bypassInvRef);
      DataOrderOfParts(prefix, w, suffix);
      DataOrderOfParts(prefix, w', suffix);
      DataOrderInjective(w, w');
      DetectsPlainWindows(
        DataOrder(prefix, true), DataOrder(w, true), DataOrder(w', true), DataOrder(suffix, true), seed, bypassInvRef);
    } else {
      DetectsPlainWindows(prefix, w, w', suffix, seed, bypassInvRef);
    }
  }

  lemma DataOrderOfParts(a: seq<Byte>, b: seq<Byte>, c: seq<Byte>)
    ensures DataOrder(a + b + c, true) == DataOrder(a, true) + DataOrder(b, true) + DataOrder(c, true)
  {
    hide Reverse;
  }

  lemma DataOrderInjective(a: seq<Byte>, b: seq<Byte>)
    requires |a| == |b|
    ensures DataOrder(a, true) == DataOrder(b, true) <==> a == b
  {
    if DataOrder(a, true) == DataOrder(b, true) {
      forall i | 0 <= i < |a| ensures a[i] == b[i] {
        ReverseTwice(a[i]);
        ReverseTwice(b[i]);
        assert DataOrder(a, true)[i] == DataOrder(b, true)[i];
      }
    }
  }

  lemma DetectsPlainWindows(prefix: seq<Byte>, w: seq<Byte>, w': seq<Byte>, suffix: seq<Byte>,
                            seed: Word32, bypassInvRef: bool)
    requires |w| == |w'| <= 4 && w != w'
    ensures Reference(prefix + w + suffix, seed, bypassInvRef, false)
      != Reference(prefix + w' + suffix, seed, bypassInvRef, false)
  {
    hide Castagnoli, FeedAll, Fold, Reference, Consumed;
    var init := Fold(seed, bypassInvRef);
    var start := Consumed(init, prefix, false);
    ConstantTerm();
    WindowsSeparated(start, w, w', suffix, Castagnoli());
    ConsumedWindow(init, prefix, w + suffix);
    ConsumedWindow(init, prefix, w' + suffix);
    assert prefix + w + suffix == prefix + (w + suffix) && prefix + w' + suffix == prefix + (w' + suffix);
    ConsumedIsReference(prefix + w + suffix, seed, bypassInvRef, false);
    ConsumedIsReference(prefix + w' + suffix, seed, bypassInvRef, false);
    FoldTwice(Consumed(init, prefix + w + suffix, false), bypassInvRef);
    FoldTwice(Consumed(init, prefix + w' + suffix, false), bypassInvRef);
  }

  lemma ConsumedWindow(init: Word32, prefix: seq<Byte>, rest: seq<Byte>)
    ensures Consumed(init, prefix + rest, false) == FeedAll(Consumed(init, prefix, false), rest, Castagnoli())
  {
    ConsumedAppend(init, prefix, rest, false);
    hide FeedAll, Castagnoli;
    assert DataOrder(rest, false) == rest;
  }

  lemma ConstantTerm()
    ensures Castagnoli()[31]
  {
    hide FromNat;
    assert Pow2(8) == 0x100;
    assert Pow2(16) == 0x1_0000;
    assert Pow2(24) == 0x100_0000;
    assert Pow2(31) == 0x8000_0000;
    FromNatTop(0x82F63B78, 32);
  }
}
