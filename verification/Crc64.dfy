/** The software CRC-64 of test/algorithms/iaa_crc64.c: a 256-entry table for an arbitrary
    polynomial in either bit order, consumed as little-endian quad words plus a tail. */
module Crc64 {
  import opened Bits
  import opened ShiftRegister

  // ---------- What the CRC is by definition ----------

  /** Bit i is set when the polynomial has a set bit at or below i. */
  function WidthMask(poly: Word): (mask: Word)
    ensures |mask| == |poly|
  {
    seq(|poly|, i requires 0 <= i < |poly| => exists j | 0 <= j <= i :: poly[j])
  }

  /** A word in division order, highest coefficient first: as it is when the engine works
      bit-reversed (`msb`), reversed otherwise. */
  function View(w: Word, msb: bool): (v: Word)
    ensures |v| == |w|
  {
    if msb then w else Reverse(w)
  }

  function ViewAll(buf: seq<Byte>, msb: bool): (v: seq<Byte>)
    ensures |v| == |buf| && forall i | 0 <= i < |buf| :: v[i] == View(buf[i], msb)
  {
    seq(|buf|, i requires 0 <= i < |buf| => View(buf[i], msb))
  }

  function Mask(poly: Word64, invcrc: bool): Word64 {
    if invcrc then Reverse(WidthMask(poly)) else Zeros(64)
  }

  /** The remainder of the message, shifted up by 64, divided by x^64 + poly; with `invcrc` the
      mask of the polynomial is added to the front of the dividend and to the remainder. */
  function Reference(poly: Word64, buf: seq<Byte>, msb: bool, invcrc: bool): Word64 {
    var mask := Mask(poly, invcrc);
    var crc := Remainder(Dividend(mask, Flatten(ViewAll(buf, msb))), Reverse(poly));
    View(Xor(crc, mask), msb)
  }

  // ---------- The source ----------

  /** Byte `shift / 8` of x looked up in the bit-reversal table. */
  function ReversedByte(x: Word64, shift: nat): Word64 {
    Resize(Reverse(Resize(Shr(x, shift), 8)), 64)
  }

  function BitByteSwap64(x: Word64): Word64 {
    var y := ReversedByte(x, 56);
    var y := Or(y, Shl(ReversedByte(x, 48), 8));
    var y := Or(y, Shl(ReversedByte(x, 40), 16));
    var y := Or(y, Shl(ReversedByte(x, 32), 24));
    var y := Or(y, Shl(ReversedByte(x, 24), 32));
    var y := Or(y, Shl(ReversedByte(x, 16), 40));
    var y := Or(y, Shl(ReversedByte(x, 8), 48));
    Or(y, Shl(ReversedByte(x, 0), 56))
  }

  /** The polynomial with shifts of itself by 1, 2, 4, ... or-ed in. */
  function Smear(poly: Word64): Word64 {
    var p := Or(poly, Shl(poly, 1));
    var p := Or(p, Shl(p, 2));
    var p := Or(p, Shl(p, 4));
    var p := Or(p, Shl(p, 8));
    var p := Or(p, Shl(p, 16));
    Or(p, Shl(p, 32))
  }

  function InitCrc(poly: Word64, msb: bool, invcrc: bool): Word64 {
    if !invcrc then Zeros(64) else if !msb then Smear(poly) else BitByteSwap64(Smear(poly))
  }

  function Finalize(crc: Word64, poly: Word64, msb: bool, invcrc: bool): Word64 {
    if !invcrc then crc
    else if !msb then Xor(crc, Smear(poly)) else Xor(crc, BitByteSwap64(Smear(poly)))
  }

  // ---------- The bit-reversal table and the smeared polynomial ----------

  /** The low n bits of the reversal of x. */
  function ReversedLow(x: Word64, n: nat): Word64 {
    And(Reverse(x), Resize(Ones(n), 64))
  }

  lemma SwapOneByte(x: Word64, shift: nat)
    requires shift % 8 == 0 && 8 <= shift <= 56
    ensures Or(ReversedLow(x, shift), Shl(ReversedByte(x, 56 - shift), shift)) == ReversedLow(x, shift + 8)
  {}

  lemma SwapIsReversal(x: Word64)
    ensures BitByteSwap64(x) == Reverse(x)
  {
    assert ReversedByte(x, 56) == ReversedLow(x, 8);
    assert ReversedLow(x, 64) == Reverse(x);
    hide ReversedLow, ReversedByte, Or, Shl, Reverse;
    SwapOneByte(x, 8);
    SwapOneByte(x, 16);
    SwapOneByte(x, 24);
    SwapOneByte(x, 32);
    SwapOneByte(x, 40);
    SwapOneByte(x, 48);
    SwapOneByte(x, 56);
  }

  /** The polynomial with its shifts by 0 to k - 1 or-ed together. */
  function Smeared(poly: Word, k: nat): (p: Word)
    ensures |p| == |poly|
  {
    seq(|poly|, i requires 0 <= i < |poly| => exists j | 0 <= j <= i && i - j < k :: poly[j])
  }

  lemma SmearDoubles(poly: Word, k: nat)
    requires k > 0
    ensures Or(Smeared(poly, k), Shl(Smeared(poly, k), k)) == Smeared(poly, 2 * k)
  {
    var p, q := Smeared(poly, k), Smeared(poly, 2 * k);
    forall i | 0 <= i < |poly|
      ensures q[i] == Or(p, Shl(p, k))[i]
    {
      if q[i] {
        var j :| 0 <= j <= i && i - j < 2 * k && poly[j];
        assert i - j < k ==> p[i];
        assert i - j >= k ==> p[i - k];
      }
    }
  }

  lemma SmearIsWidthMask(poly: Word64)
    ensures Smear(poly) == WidthMask(poly)
  {
    assert Smeared(poly, 1) == poly by {
      assert forall i | 0 <= i < 64 :: Smeared(poly, 1)[i] == poly[i];
    }
    assert Smeared(poly, 64) == WidthMask(poly);
    hide Or, Shl, Smeared;
    SmearDoubles(poly, 1);
    SmearDoubles(poly, 2);
    SmearDoubles(poly, 4);
    SmearDoubles(poly, 8);
    SmearDoubles(poly, 16);
    SmearDoubles(poly, 32);
  }

  lemma MaskIsInitCrc(poly: Word64, msb: bool, invcrc: bool)
    ensures View(InitCrc(poly, msb, invcrc), msb) == Mask(poly, invcrc)
    ensures forall crc: Word64 :: View(Finalize(crc, poly, msb, invcrc), msb) == Xor(View(crc, msb), Mask(poly, invcrc))
  {
    SmearIsWidthMask(poly);
    SwapIsReversal(WidthMask(poly));
    hide Smear, BitByteSwap64, WidthMask;
    forall crc: Word64
      ensures View(Finalize(crc, poly, msb, invcrc), msb) == Xor(View(crc, msb), Mask(poly, invcrc))
    {
      ReverseXor(crc, WidthMask(poly));
    }
  }

  // ---------- The table ----------

  /** One shift of the table generator, towards the top bit or towards bit 0. */
  function TableShift(crc: Word64, poly: Word64, msb: bool): Word64 {
    if msb then Step(crc, poly) else LeftStep(crc, poly)
  }

  /** The index byte as it enters the generator. */
  function TableSeed(i: nat, msb: bool): Word64 {
    if msb then FromNat(i, 64) else Shl(FromNat(i, 64), 56)
  }

  /** In division order, the entry of byte i is that byte shifted out of the register. */
  ghost predicate IsEntry(entry: Word64, i: nat, poly: Word64, msb: bool) {
    View(entry, msb) == Steps(8, Resize(View(FromNat(i, 8), msb), 64), Reverse(poly))
  }

  ghost predicate TableFor(tbl: seq<Word64>, poly: Word64, msb: bool) {
    |tbl| == 256 && forall i | 0 <= i < 256 :: IsEntry(tbl[i], i, poly, msb)
  }

  lemma TableShiftIsStep(crc: Word64, poly: Word64, msb: bool)
    ensures View(TableShift(crc, if msb then Reverse(poly) else poly, msb), msb)
         == Step(View(crc, msb), Reverse(poly))
  {
    hide Step, LeftStep;
    if !msb {
      LeftStepMirrors(crc, poly);
    }
  }

  lemma SeedInDivisionOrder(i: nat, msb: bool)
    requires i < 256
    ensures View(TableSeed(i, msb), msb) == Resize(View(FromNat(i, 8), msb), 64)
  {
    assert Pow2(8) == 256;
    FromNatWiden(i, 8, 64);
    hide FromNat;
    var b, w := FromNat(i, 8), FromNat(i, 64);
    assert Reverse(Shl(w, 56)) == Resize(Reverse(b), 64);
  }

  lemma ShiftUnfolds(n: nat, crc: Word64, poly: Word64, msb: bool)
    requires n > 0
    ensures Steps(n, View(crc, msb), Reverse(poly))
         == Steps(n - 1, View(TableShift(crc, if msb then Reverse(poly) else poly, msb), msb), Reverse(poly))
  {
    hide Step, View, Reverse, TableShift, Steps;
    TableShiftIsStep(crc, poly, msb);
    StepsUnfold(n, View(crc, msb), Reverse(poly));
  }

  lemma SeedIsEntry(i: nat, poly: Word64, msb: bool)
    requires i < 256
    ensures forall crc: Word64 ::
      View(crc, msb) == Steps(8, View(TableSeed(i, msb), msb), Reverse(poly)) ==> IsEntry(crc, i, poly, msb)
  {
    hide Steps, View, Reverse, Resize, FromNat, TableSeed;
    SeedInDivisionOrder(i, msb);
  }

  lemma ZeroEntry(poly: Word64, msb: bool)
    ensures IsEntry(Zeros(64), 0, poly, msb)
  {
    FromNatZero(8);
    QuietSteps(8, Zeros(64), Reverse(poly));
    hide FromNat, Steps;
    assert Resize(View(Zeros(8), msb), 64) == Zeros(64);
    assert Shr(Zeros(64), 8) == View(Zeros(64), msb);
  }

  method InitTable(tbl: array<Word64>, poly: Word64, msb: bool)
    requires tbl.Length == 256
    modifies tbl
    ensures TableFor(tbl[..], poly, msb)
  {
    hide IsEntry, Zeros;
    tbl[0] := Zeros(64);
    ZeroEntry(poly, msb);
    for i := 1 to 256
      invariant forall k | 0 <= k < i :: IsEntry(tbl[k], k, poly, msb)
    {
      tbl[i] := ShiftOut(i, poly, msb);
    }
  }

  /** The inner loop of the table generator. */
  method ShiftOut(i: nat, poly: Word64, msb: bool) returns (crc: Word64)
    requires i < 256
    ensures IsEntry(crc, i, poly, msb)
  {
    hide Steps, BitByteSwap64, View, Reverse, TableShift, TableSeed, IsEntry;
    var shifted := if msb then BitByteSwap64(poly) else poly;
    SwapIsReversal(poly);
    crc := TableSeed(i, msb);
    SeedIsEntry(i, poly, msb);
    ghost var entry := Steps(8, View(crc, msb), Reverse(poly));
    for j := 0 to 8
      invariant Steps(8 - j, View(crc, msb), Reverse(poly)) == entry
    {
      ShiftUnfolds(8 - j, crc, poly, msb);
      crc := TableShift(crc, shifted, msb);
    }
    StepsUnfold(0, View(crc, msb), Reverse(poly));
  }

  // ---------- Consuming bytes ----------

  function Update(data: Byte, tbl: array<Word64>, crc: Word64, msb: bool): Word64
    requires tbl.Length == 256
    reads tbl
  {
    if msb then
      ByteBound(Xor(data, Resize(crc, 8)));
      Xor(tbl[ToNat(Xor(data, Resize(crc, 8)))], Shr(crc, 8))
    else
      ByteBound(Xor(data, Resize(Shr(crc, 56), 8)));
      Xor(tbl[ToNat(Xor(data, Resize(Shr(crc, 56), 8)))], Shl(crc, 8))
  }

  /** The looked-up index, in division order, is the byte added to the outgoing eight bits. */
  lemma IndexInDivisionOrder(data: Byte, crc: Word64, msb: bool)
    ensures View(Xor(data, Resize(if msb then crc else Shr(crc, 56), 8)), msb)
         == Xor(View(data, msb), View(crc, msb)[..8])
  {}

  lemma ShiftInDivisionOrder(entry: Word64, crc: Word64, msb: bool)
    ensures View(Xor(entry, if msb then Shr(crc, 8) else Shl(crc, 8)), msb)
         == Xor(View(entry, msb), Shr(View(crc, msb), 8))
  {}

  /** In division order, a table update feeds the eight bits of its byte to the register. */
  lemma UpdateFeeds(data: Byte, tbl: array<Word64>, poly: Word64, crc: Word64, msb: bool)
    requires tbl.Length == 256
    requires TableFor(tbl[..], poly, msb)
    ensures View(Update(data, tbl, crc, msb), msb) == Feed(View(crc, msb), View(data, msb), Reverse(poly))
  {
    var P := Reverse(poly);
    var v, d := View(crc, msb), View(data, msb);
    var index := Xor(data, Resize(if msb then crc else Shr(crc, 56), 8));
    var index' := Xor(d, v[..8]);
    ByteBound(index);
    FromToNat(index);
    FromToNat(index');
    IndexInDivisionOrder(data, crc, msb);
    TableStep(v, d, P);
    var entry := tbl[..][ToNat(index)];
    hide FromNat, ToNat, Steps, Feed, Xor, Shl, Shr, Resize, Reverse;
    assert IsEntry(entry, ToNat(index), poly, msb);
    ShiftInDivisionOrder(entry, crc, msb);
  }

  lemma OrByte(word: Word64, prefix: seq<bool>, b: Byte)
    requires |prefix| <= 56
    requires word == Resize(prefix, 64)
    ensures Or(word, Shl(And(Resize(b, 64), Resize(Ones(8), 64)), |prefix|)) == Resize(prefix + b, 64)
  {}

  /** Little-endian load of up to eight bytes. */
  method ReadQword(buf: array<Byte>, start: nat, len: nat) returns (qword: Word64)
    requires start + len <= buf.Length && len <= 8
    ensures qword == Resize(Flatten(buf[start..start + len]), 64)
  {
    qword := Zeros(64);
    for i := 0 to len
      invariant qword == Resize(Flatten(buf[start..start + i]), 64)
    {
      ghost var done := buf[start..start + i];
      FlattenLength(done);
      FlattenAppend(done, [buf[start + i]]);
      assert Flatten([buf[start + i]]) == buf[start + i];
      assert buf[start..start + (i + 1)] == done + [buf[start + i]];
      OrByte(qword, Flatten(done), buf[start + i]);
      hide Or, Shl, And, Resize;
      qword := Or(qword, Shl(And(Resize(buf[start + i], 64), Resize(Ones(8), 64)), 8 * i));
    }
  }

  /** What has been consumed: the register after the bytes, in division order. */
  function Consumed(init: Word64, bytes: seq<Byte>, poly: Word64, msb: bool): Word64 {
    FeedAll(init, ViewAll(bytes, msb), Reverse(poly))
  }

  lemma ConsumedAppend(init: Word64, a: seq<Byte>, b: seq<Byte>, poly: Word64, msb: bool)
    ensures Consumed(init, a + b, poly, msb) == Consumed(Consumed(init, a, poly, msb), b, poly, msb)
  {
    assert ViewAll(a + b, msb) == ViewAll(a, msb) + ViewAll(b, msb);
    FeedAllAppend(init, ViewAll(a, msb), ViewAll(b, msb), Reverse(poly));
  }

  lemma ConsumedByte(init: Word64, d: Byte, poly: Word64, msb: bool)
    ensures Consumed(init, [d], poly, msb) == Feed(init, View(d, msb), Reverse(poly))
  {
    hide Feed, FeedAll;
    assert ViewAll([d], msb) == [View(d, msb)];
    FeedAllOne(init, View(d, msb), Reverse(poly));
  }

  lemma ByteOfQword(data: Word64, bytes: seq<Byte>, k: nat)
    requires k < |bytes| <= 8
    requires data == Resize(Flatten(bytes), 64)
    ensures Resize(Shr(data, 8 * k), 8) == bytes[k]
  {
    FlattenByte(bytes, k);
    FlattenLength(bytes);
    hide Shr, Resize, Flatten;
    assert forall i | 0 <= i < 8 :: Resize(Shr(data, 8 * k), 8)[i] == Flatten(bytes)[8 * k..8 * k + 8][i];
  }

  lemma ConsumedNext(init: Word64, bytes: seq<Byte>, k: nat, data: Word64,
                     tbl: array<Word64>, crc: Word64, poly: Word64, msb: bool)
    requires tbl.Length == 256 && TableFor(tbl[..], poly, msb)
    requires k < |bytes| <= 8 && data == Resize(Flatten(bytes), 64)
    requires View(crc, msb) == Consumed(init, bytes[..k], poly, msb)
    ensures View(Update(Resize(Shr(data, 8 * k), 8), tbl, crc, msb), msb) == Consumed(init, bytes[..k + 1], poly, msb)
  {
    hide View, Update, Resize, Shr, Flatten, Consumed, TableFor, Feed, Reverse;
    ByteOfQword(data, bytes, k);
    UpdateFeeds(bytes[k], tbl, poly, crc, msb);
    ConsumedAppend(init, bytes[..k], [bytes[k]], poly, msb);
    ConsumedByte(View(crc, msb), bytes[k], poly, msb);
    assert bytes[..k + 1] == bytes[..k] + [bytes[k]];
  }

  /** The inner loop: the low `dataSize` bits of a quad word, byte by byte from the bottom. */
  method ConsumeQword(data: Word64, dataSize: nat, tbl: array<Word64>, crc0: Word64, msb: bool,
                      ghost poly: Word64, ghost bytes: seq<Byte>)
    returns (crc: Word64)
    requires tbl.Length == 256 && TableFor(tbl[..], poly, msb)
    requires |bytes| <= 8 && dataSize == 8 * |bytes| && data == Resize(Flatten(bytes), 64)
    ensures View(crc, msb) == Consumed(View(crc0, msb), bytes, poly, msb)
  {
    hide View, Update, Resize, Shr, Flatten, Consumed, TableFor;
    crc := crc0;
    ghost var k := 0;
    var j := 0;
    ConsumedNothing(View(crc0, msb), poly, msb);
    assert bytes[..0] == [];
    while j < dataSize
      invariant j == 8 * k && k <= |bytes|
      invariant View(crc, msb) == Consumed(View(crc0, msb), bytes[..k], poly, msb)
    {
      ConsumedNext(View(crc0, msb), bytes, k, data, tbl, crc, poly, msb);
      crc := Update(Resize(Shr(data, j), 8), tbl, crc, msb);
      j := j + 8;
      k := k + 1;
    }
    assert bytes[..k] == bytes;
  }

  lemma ConsumedNothing(init: Word64, poly: Word64, msb: bool)
    ensures Consumed(init, [], poly, msb) == init
  {}

  lemma ConsumedIsReference(poly: Word64, buf: seq<Byte>, msb: bool, invcrc: bool, crc: Word64)
    requires View(crc, msb) == Consumed(Mask(poly, invcrc), buf, poly, msb)
    ensures Finalize(crc, poly, msb, invcrc) == Reference(poly, buf, msb, invcrc)
  {
    FeedAllIsDivision(Mask(poly, invcrc), ViewAll(buf, msb), Reverse(poly));
    MaskIsInitCrc(poly, msb, invcrc);
    ReverseTwice(Finalize(crc, poly, msb, invcrc));
    ReverseTwice(Reference(poly, buf, msb, invcrc));
  }

  lemma PrefixGrows(buf: array<Byte>, i: nat, j: nat)
    requires i <= j <= buf.Length
    ensures buf[..j] == buf[..i] + buf[i..j]
  {}

  /** What inversion means: ones at and above the lowest set bit of the polynomial are added at both ends. */
  lemma ReferenceMeans(poly: Word64, buf: seq<Byte>, msb: bool, invcrc: bool) returns (mask: Word64)
    ensures forall i | 0 <= i < 64 :: mask[i] <==> invcrc && exists j | 0 <= j <= 63 - i :: poly[j]
    ensures (if msb then Reference(poly, buf, msb, invcrc) else Reverse(Reference(poly, buf, msb, invcrc)))
         == Xor(Remainder(Dividend(mask, Flatten(ViewAll(buf, msb))), Reverse(poly)), mask)
  {
    mask := Mask(poly, invcrc);
    var crc := Remainder(Dividend(mask, Flatten(ViewAll(buf, msb))), Reverse(poly));
    hide Remainder, Dividend, Flatten;
    ReverseTwice(Xor(crc, mask));
  }

  /** The remainder of the message divided by x^64 + poly, in the bit order asked for, with the mask at both ends. */
  method CalculateCrc64(poly: Word64, buf: array<Byte>, len: nat, msb: bool, invcrc: bool)
    returns (crc: Word64, ghost mask: Word64)
    requires len <= buf.Length && len < 0x1_0000_0000
    ensures crc == Reference(poly, buf[..len], msb, invcrc)
    ensures forall i | 0 <= i < 64 :: mask[i] <==> invcrc && exists j | 0 <= j <= 63 - i :: poly[j]
    ensures (if msb then crc else Reverse(crc))
         == Xor(Remainder(Dividend(mask, Flatten(ViewAll(buf[..len], msb))), Reverse(poly)), mask)
  {
    hide View, Consumed, TableFor, Resize, Flatten, Finalize, InitCrc, Reference, Mask;
    var alignedLen := len - len % 8;
    var remainLen := len - alignedLen;
    var tbl := new Word64[256];
    InitTable(tbl, poly, msb);
    crc := InitCrc(poly, msb, invcrc);
    MaskIsInitCrc(poly, msb, invcrc);
    ghost var init := Mask(poly, invcrc);
    ConsumedNothing(init, poly, msb);
    assert buf[..0] == [];
    var i := 0;
    while i < alignedLen
      invariant i % 8 == 0 && i <= alignedLen
      invariant TableFor(tbl[..], poly, msb)
      invariant View(crc, msb) == Consumed(init, buf[..i], poly, msb)
    {
      var data := ReadQword(buf, i, 8);
      ghost var bytes := buf[i..i + 8];
      crc := ConsumeQword(data, 64, tbl, crc, msb, poly, bytes);
      ConsumedAppend(init, buf[..i], bytes, poly, msb);
      PrefixGrows(buf, i, i + 8);
      i := i + 8;
    }
    if remainLen > 0 {
      var data := ReadQword(buf, i, remainLen);
      ghost var bytes := buf[i..i + remainLen];
      crc := ConsumeQword(data, remainLen * 8, tbl, crc, msb, poly, bytes);
      ConsumedAppend(init, buf[..i], bytes, poly, msb);
      PrefixGrows(buf, i, len);
    }
    ConsumedIsReference(poly, buf[..len], msb, invcrc, crc);
    crc := Finalize(crc, poly, msb, invcrc);
    mask := ReferenceMeans(poly, buf[..len], msb, invcrc);
  }

  // ---------- What follows about the CRC ----------

  /** The two bit orders are mirror images of each other. */
  lemma BitOrdersMirror(poly: Word64, buf: seq<Byte>, invcrc: bool)
    ensures Reference(poly, buf, true, invcrc)
         == BitByteSwap64(Reference(poly, ViewAll(buf, false), false, invcrc))
  {
    SwapIsReversal(Reference(poly, ViewAll(buf, false), false, invcrc));
    hide BitByteSwap64, Remainder, Dividend;
    assert ViewAll(ViewAll(buf, false), false) == buf == ViewAll(buf, true) by {
      forall i | 0 <= i < |buf| { ReverseTwice(buf[i]); }
    }
    var mask := Mask(poly, invcrc);
    ReverseTwice(Xor(Remainder(Dividend(mask, Flatten(buf)), Reverse(poly)), mask));
  }

  /** A division leaves clear the low places that the generator and the dividend leave clear. */
  lemma {:induction false} RemainderTail(dividend: seq<bool>, poly: Word, clear: nat)
    requires |dividend| >= |poly| >= clear
    requires forall i | |dividend| - clear <= i < |dividend| :: !dividend[i]
    requires forall i | |poly| - clear <= i < |poly| :: !poly[i]
    ensures forall i | |poly| - clear <= i < |poly| :: !Remainder(dividend, poly)[i]
    decreases |dividend|
  {
    if |dividend| > |poly| {
      var rest := dividend[1..];
      RemainderTail(if dividend[0] then Xor(rest, Resize(poly, |rest|)) else rest, poly, clear);
    }
  }

  /** No bit below the polynomial's lowest set bit is ever set in a CRC, whatever the message. */
  lemma LowBitsClear(poly: Word64, buf: seq<Byte>, invcrc: bool, i: nat)
    requires i < 64 && !WidthMask(poly)[i]
    ensures !Reference(poly, buf, false, invcrc)[i]
    ensures !Reference(poly, buf, true, invcrc)[63 - i]
  {
    forall msb: bool
      ensures !Xor(Remainder(Dividend(Mask(poly, invcrc), Flatten(ViewAll(buf, msb))), Reverse(poly)),
        Mask(poly, invcrc))[63 - i]
    {
      var mask := Mask(poly, invcrc);
      assert forall j | 0 <= j <= i :: !poly[j] && !WidthMask(poly)[j];
      RemainderTail(Dividend(mask, Flatten(ViewAll(buf, msb))), Reverse(poly), i + 1);
    }
  }

  // ---------- Which errors the CRC detects ----------

  /** Any two messages that differ only inside a window of at most eight bytes have different CRCs. */
  ghost predicate DetectsEveryWindow(poly: Word64, msb: bool, invcrc: bool) {
    forall prefix: seq<Byte>, w: seq<Byte>, w': seq<Byte>, suffix: seq<Byte>
      | |w| == |w'| <= 8 && w != w'
      :: Reference(poly, prefix + w + suffix, msb, invcrc) != Reference(poly, prefix + w' + suffix, msb, invcrc)
  }

  lemma ReferenceIsConsumed(poly: Word64, buf: seq<Byte>, msb: bool, invcrc: bool)
    ensures Reference(poly, buf, msb, invcrc)
         == View(Xor(Consumed(Mask(poly, invcrc), buf, poly, msb), Mask(poly, invcrc)), msb)
  {
    FeedAllIsDivision(Mask(poly, invcrc), ViewAll(buf, msb), Reverse(poly));
  }

  lemma ReferenceInjective(a: Word64, b: Word64, mask: Word64, msb: bool)
    requires View(Xor(a, mask), msb) == View(Xor(b, mask), msb)
    ensures a == b
  {
    ReverseTwice(Xor(a, mask));
    ReverseTwice(Xor(b, mask));
    var x, y := Xor(a, mask), Xor(b, mask);
    assert x == y;
    forall i | 0 <= i < 64 ensures a[i] == b[i] { assert x[i] == y[i]; }
  }

  lemma ViewAllInjective(w: seq<Byte>, w': seq<Byte>, msb: bool)
    requires |w| == |w'| && ViewAll(w, msb) == ViewAll(w', msb)
    ensures w == w'
  {
    forall i | 0 <= i < |w|
      ensures w[i] == w'[i]
    {
      assert ViewAll(w, msb)[i] == ViewAll(w', msb)[i];
      ReverseTwice(w[i]);
      ReverseTwice(w'[i]);
    }
  }

  lemma ConsumedWindow(mask: Word64, prefix: seq<Byte>, w: seq<Byte>, suffix: seq<Byte>, poly: Word64, msb: bool)
    ensures Consumed(mask, prefix + w + suffix, poly, msb)
         == FeedAll(Consumed(mask, prefix, poly, msb), ViewAll(w, msb) + ViewAll(suffix, msb), Reverse(poly))
  {
    hide FeedAll, View, Reverse;
    assert prefix + w + suffix == prefix + (w + suffix);
    ConsumedAppend(mask, prefix, w + suffix, poly, msb);
    assert ViewAll(w + suffix, msb) == ViewAll(w, msb) + ViewAll(suffix, msb);
  }

  lemma OddDetects(poly: Word64, prefix: seq<Byte>, w: seq<Byte>, w': seq<Byte>, suffix: seq<Byte>,
                   msb: bool, invcrc: bool)
    requires poly[0]
    requires |w| == |w'| <= 8 && w != w'
    ensures Reference(poly, prefix + w + suffix, msb, invcrc) != Reference(poly, prefix + w' + suffix, msb, invcrc)
  {
    var mask, P := Mask(poly, invcrc), Reverse(poly);
    assert P[63] == poly[0];
    hide Reference, Mask, Consumed, View, ViewAll, Xor, Reverse, FeedAll;
    var start := Consumed(mask, prefix, poly, msb);
    if ViewAll(w, msb) == ViewAll(w', msb) {
      ViewAllInjective(w, w', msb);
    }
    WindowsSeparated(start, ViewAll(w, msb), ViewAll(w', msb), ViewAll(suffix, msb), P);
    ConsumedWindow(mask, prefix, w, suffix, poly, msb);
    ConsumedWindow(mask, prefix, w', suffix, poly, msb);
    ReferenceIsConsumed(poly, prefix + w + suffix, msb, invcrc);
    ReferenceIsConsumed(poly, prefix + w' + suffix, msb, invcrc);
    if Reference(poly, prefix + w + suffix, msb, invcrc) == Reference(poly, prefix + w' + suffix, msb, invcrc) {
      ReferenceInjective(Consumed(mask, prefix + w + suffix, poly, msb),
                         Consumed(mask, prefix + w' + suffix, poly, msb), mask, msb);
    }
  }

  /** The eight bytes whose message bits are the given 64. */
  function Bytes(bits: Word64, msb: bool): (w: seq<Byte>)
    ensures |w| == 8
    ensures Flatten(ViewAll(w, msb)) == bits
  {
    var w := seq(8, k requires 0 <= k < 8 => View(bits[8 * k..8 * k + 8], msb));
    BytesFlatten(bits, msb, w);
    w
  }

  lemma EightBytes(v: seq<Byte>, a: Word64, b: Word64)
    requires |v| == 8 && forall k | 0 <= k < 8 :: a[8 * k..8 * k + 8] == v[k] && v[k] == b[8 * k..8 * k + 8]
    ensures a == b
  {
    forall i | 0 <= i < 64 ensures a[i] == b[i] {
      var k := i / 8;
      assert v[k][i - 8 * k] == a[i] && v[k][i - 8 * k] == b[i];
    }
  }

  lemma BytesFlatten(bits: Word64, msb: bool, w: seq<Byte>)
    requires |w| == 8 && forall k | 0 <= k < 8 :: w[k] == View(bits[8 * k..8 * k + 8], msb)
    ensures Flatten(ViewAll(w, msb)) == bits
  {
    hide Flatten, Reverse;
    var v := ViewAll(w, msb);
    FlattenLength(v);
    forall k | 0 <= k < 8
      ensures Flatten(v)[8 * k..8 * k + 8] == v[k] && v[k] == bits[8 * k..8 * k + 8]
    {
      FlattenByte(v, k);
      ReverseTwice(bits[8 * k..8 * k + 8]);
      assert v[k] == View(w[k], msb);
    }
    EightBytes(v, Flatten(v), bits);
  }

  /** With an even polynomial, eight zero bytes and a multiple of the generator collide. */
  lemma EvenCollides(poly: Word64, msb: bool, invcrc: bool)
    requires !poly[0]
    ensures Bytes(Zeros(64), msb) != Bytes(Blind(Reverse(poly)), msb)
    ensures Reference(poly, Bytes(Zeros(64), msb), msb, invcrc)
      == Reference(poly, Bytes(Blind(Reverse(poly)), msb), msb, invcrc)
  {
    var mask, P := Mask(poly, invcrc), Reverse(poly);
    var b := Blind(P);
    var w, w' := Bytes(Zeros(64), msb), Bytes(b, msb);
    assert Zeros(64)[0] != b[0];
    assert Xor(Zeros(64), b) == b;
    BlindToWindow(mask, Zeros(64), P);
    FeedAllIsFeed(mask, ViewAll(w, msb), P);
    FeedAllIsFeed(mask, ViewAll(w', msb), P);
    ReferenceIsConsumed(poly, w, msb, invcrc);
    ReferenceIsConsumed(poly, w', msb, invcrc);
  }

  /** Every change inside eight consecutive bytes is seen exactly when the polynomial is odd. */
  lemma DetectionNeedsOddPolynomial(poly: Word64, msb: bool, invcrc: bool)
    ensures DetectsEveryWindow(poly, msb, invcrc) <==> poly[0]
  {
    hide Reference, Bytes, Blind;
    if poly[0] {
      forall prefix: seq<Byte>, w: seq<Byte>, w': seq<Byte>, suffix: seq<Byte>
        | |w| == |w'| <= 8 && w != w'
        ensures Reference(poly, prefix + w + suffix, msb, invcrc) != Reference(poly, prefix + w' + suffix, msb, invcrc)
      {
        OddDetects(poly, prefix, w, w', suffix, msb, invcrc);
      }
    } else {
      EvenCollides(poly, msb, invcrc);
      var w, w' := Bytes(Zeros(64), msb), Bytes(Blind(Reverse(poly)), msb);
      assert [] + w + [] == w && [] + w' + [] == w';
    }
  }
}
