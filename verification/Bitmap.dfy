/** Bitmaps over 64-bit words, util/bitmap.c. */
module Bitmap {
  import opened Bits

  /** `test_bit`. */
  predicate TestBit(words: seq<Word64>, nr: nat) {
    nr / 64 < |words| && words[nr / 64][nr % 64]
  }

  /** `BITMAP_FIRST_WORD_MASK`: the bits of a word from start on. */
  function FirstWordMask(start: nat): Word64 {
    Shl(Ones(64), start % 64)
  }

  /** `BITMAP_LAST_WORD_MASK`: the bits of a word below nbits, all of them at a word boundary. */
  function LastWordMask(nbits: nat): Word64 {
    Shr(Ones(64), (64 - nbits % 64) % 64)
  }

  // ---------- Range updates ----------

  /** Exactly the bits from..to - 1 have been given the value `on`. */
  ghost predicate Ranged(before: seq<Word64>, after: seq<Word64>, from: nat, to: nat, on: bool) {
    && |after| == |before|
    && forall q: nat {:trigger TestBit(after, q)} | q < 64 * |after| ::
         TestBit(after, q) == if from <= q < to then on else TestBit(before, q)
  }

  /** One word under a mask that covers the bits cur..next - 1 of it. */
  function Masked(word: Word64, mask: Word64, on: bool): Word64 {
    if on then Or(word, mask) else And(word, Not(mask))
  }

  lemma RangedWord(before: seq<Word64>, mid: seq<Word64>, from: nat, cur: nat, next: nat, on: bool, p: nat,
      mask: Word64)
    requires Ranged(before, mid, from, cur, on) && from <= cur <= next
    requires p < |mid| && 64 * p <= cur && next <= 64 * p + 64
    requires forall k {:trigger mask[k]} | 0 <= k < 64 :: mask[k] <==> cur <= 64 * p + k < next
    ensures Ranged(before, mid[p := Masked(mid[p], mask, on)], from, next, on)
  {
    var after := mid[p := Masked(mid[p], mask, on)];
    forall q: nat | q < 64 * |after|
      ensures TestBit(after, q) == if from <= q < next then on else TestBit(before, q)
    {
      assert TestBit(mid, q) == if from <= q < cur then on else TestBit(before, q);
      if q / 64 == p {
        assert mask[q % 64] <==> cur <= q < next;
      }
    }
  }

  method BitmapSet(words: array<Word64>, start: nat, len0: nat)
    requires start + len0 <= 64 * words.Length && start + len0 < 0x1_0000_0000
    modifies words
    ensures Ranged(old(words[..]), words[..], start, start + len0, true)
  {
    hide Ranged, Masked, TestBit, Or, And, Not, LastWordMask;
    var p, size, len := start / 64, start + len0, len0;
    var bitsToSet := 64 - start % 64;
    var maskToSet := FirstWordMask(start);
    RangedNothing(words[..], start, true);
    while len - bitsToSet >= 0
      invariant 0 <= len <= len0 && 1 <= bitsToSet <= 64
      invariant start + (len0 - len) == 64 * p + 64 - bitsToSet
      invariant forall k {:trigger maskToSet[k]} | 0 <= k < 64 :: maskToSet[k] <==> k >= 64 - bitsToSet
      invariant Ranged(old(words[..]), words[..], start, start + (len0 - len), true)
      decreases len
    {
      RangedWord(old(words[..]), words[..], start, start + (len0 - len), start + (len0 - len) + bitsToSet, true, p,
          maskToSet);
      MaskedIs(words[p], maskToSet);
      words[p] := Or(words[p], maskToSet);
      len := len - bitsToSet;
      bitsToSet := 64;
      maskToSet := Ones(64);
      p := p + 1;
    }
    if len != 0 {
      maskToSet := And(maskToSet, LastWordMask(size));
      LastMaskBits(size, 64 * p, bitsToSet, len);
      RangedWord(old(words[..]), words[..], start, size - len, size, true, p, maskToSet);
      MaskedIs(words[p], maskToSet);
      words[p] := Or(words[p], maskToSet);
    }
  }

  method BitmapClear(words: array<Word64>, start: nat, len0: nat)
    requires start + len0 <= 64 * words.Length && start + len0 < 0x1_0000_0000
    modifies words
    ensures Ranged(old(words[..]), words[..], start, start + len0, false)
  {
    hide Ranged, Masked, TestBit, Or, And, Not, LastWordMask;
    var p, size, len := start / 64, start + len0, len0;
    var bitsToClear := 64 - start % 64;
    var maskToClear := FirstWordMask(start);
    RangedNothing(words[..], start, false);
    while len - bitsToClear >= 0
      invariant 0 <= len <= len0 && 1 <= bitsToClear <= 64
      invariant start + (len0 - len) == 64 * p + 64 - bitsToClear
      invariant forall k {:trigger maskToClear[k]} | 0 <= k < 64 :: maskToClear[k] <==> k >= 64 - bitsToClear
      invariant Ranged(old(words[..]), words[..], start, start + (len0 - len), false)
      decreases len
    {
      RangedWord(old(words[..]), words[..], start, start + (len0 - len), start + (len0 - len) + bitsToClear, false, p,
          maskToClear);
      MaskedIs(words[p], maskToClear);
      words[p] := And(words[p], Not(maskToClear));
      len := len - bitsToClear;
      bitsToClear := 64;
      maskToClear := Ones(64);
      p := p + 1;
    }
    if len != 0 {
      maskToClear := And(maskToClear, LastWordMask(size));
      LastMaskBits(size, 64 * p, bitsToClear, len);
      RangedWord(old(words[..]), words[..], start, size - len, size, false, p, maskToClear);
      MaskedIs(words[p], maskToClear);
      words[p] := And(words[p], Not(maskToClear));
    }
  }

  lemma RangedNothing(words: seq<Word64>, start: nat, on: bool)
    ensures Ranged(words, words, start, start, on)
  {}

  lemma MaskedIs(word: Word64, mask: Word64)
    ensures Masked(word, mask, true) == Or(word, mask) && Masked(word, mask, false) == And(word, Not(mask))
  {}

  /** In the word at base, where fewer bits remain than to its end, the last-word mask ends at size. */
  lemma LastMaskBits(size: nat, base: nat, bits: nat, len: nat)
    requires base % 64 == 0 && 1 <= bits <= 64 && 0 < len < bits
    requires size - len == base + 64 - bits
    ensures forall k {:trigger LastWordMask(size)[k]} | 0 <= k < 64 :: LastWordMask(size)[k] <==> base + k < size
  {
    assert size % 64 == size - base;
  }

  // ---------- Search ----------

  /** `__builtin_ffsl`: one plus the position of the lowest set bit, zero when there is none. */
  function Ffs(w: Word64): (r: nat)
    ensures r == 0 <==> w == Zeros(64)
    ensures r > 0 ==> r <= 64 && w[r - 1] && forall k | 0 <= k < r - 1 :: !w[k]
  {
    FfsFrom(w, 0)
  }

  function FfsFrom(w: Word64, i: nat): (r: nat)
    requires i <= 64 && forall k | 0 <= k < i :: !w[k]
    ensures r == 0 <==> w == Zeros(64)
    ensures r > 0 ==> r <= 64 && w[r - 1] && forall k | 0 <= k < r - 1 :: !w[k]
    decreases 64 - i
  {
    if i == 64 then 0 else if w[i] then i + 1 else FfsFrom(w, i + 1)
  }

  /** The bits the search looks for: set ones, or clear ones when inverted. */
  predicate Wanted(addr: seq<Word64>, invert: bool, k: nat) {
    k / 64 < |addr| && addr[k / 64][k % 64] != invert
  }

  /** k is the first wanted bit at or after start. */
  ghost predicate IsFirst(addr: seq<Word64>, invert: bool, start: nat, k: nat) {
    && start <= k && Wanted(addr, invert, k)
    && forall j: nat {:trigger Wanted(addr, invert, j)} | start <= j < k :: !Wanted(addr, invert, j)
  }

  ghost predicate NoneIn(addr: seq<Word64>, invert: bool, start: nat, end: nat) {
    forall j: nat {:trigger Wanted(addr, invert, j)} | start <= j < end :: !Wanted(addr, invert, j)
  }

  /** One more than the first wanted bit below nbits, or nbits when there is none. */
  ghost predicate IsOneAfterFirst(addr: seq<Word64>, invert: bool, start: nat, nbits: nat, r: nat) {
    if NoneIn(addr, invert, start, nbits) then r == nbits
    else 0 < r <= nbits && IsFirst(addr, invert, start, r - 1)
  }

  /** tmp holds the wanted bits of the word at start, from start0 on. */
  ghost predicate Holds(addr: seq<Word64>, invert: bool, start0: nat, start: nat, tmp: Word64) {
    forall k {:trigger tmp[k]} | 0 <= k < 64 :: tmp[k] == (start0 <= start + k && Wanted(addr, invert, start + k))
  }

  method FindNextBitCommon(addr: array<Word64>, nbits: nat, start0: nat, invert: bool) returns (r: nat)
    requires nbits <= 64 * addr.Length
    ensures IsOneAfterFirst(addr[..], invert, start0, nbits, r)
  {
    hide Wanted, FfsFrom, IsFirst, NoneIn, Holds, Xor, And;
    if nbits == 0 || start0 >= nbits {
      NoneBelow(addr[..], invert, start0, nbits, start0);
      return nbits;
    }
    var inverted := if invert then Ones(64) else Zeros(64);
    var tmp: Word64 := And(Xor(addr[start0 / 64], inverted), FirstWordMask(start0));
    var start := start0 - start0 % 64;
    NoneBelow(addr[..], invert, start0, start, start0);
    FirstLoaded(addr[..], invert, start0, inverted);
    while tmp == Zeros(64)
      invariant start % 64 == 0 && start < nbits && start + 64 > start0
      invariant NoneIn(addr[..], invert, start0, start)
      invariant Holds(addr[..], invert, start0, start, tmp)
      decreases nbits - start
    {
      WordEmpty(addr[..], invert, start0, start, tmp);
      start := start + 64;
      if start >= nbits {
        NoneBelow(addr[..], invert, start0, nbits, start);
        return nbits;
      }
      NextLoaded(addr[..], invert, start0, start, inverted);
      tmp := Xor(addr[start / 64], inverted);
    }
    FirstInWord(addr[..], invert, start0, start, tmp);
    FoundFirst(addr[..], invert, start0, nbits, start + Ffs(tmp) - 1);
    r := if start + Ffs(tmp) < nbits then start + Ffs(tmp) else nbits;
  }

  lemma LoadedBits(addr: seq<Word64>, invert: bool, start: nat, inverted: Word64)
    requires start % 64 == 0 && start / 64 < |addr|
    requires inverted == if invert then Ones(64) else Zeros(64)
    ensures forall k {:trigger Wanted(addr, invert, start + k)} | 0 <= k < 64 ::
              Xor(addr[start / 64], inverted)[k] == Wanted(addr, invert, start + k)
  {
    forall k | 0 <= k < 64
      ensures Xor(addr[start / 64], inverted)[k] == Wanted(addr, invert, start + k)
    {
      assert (start + k) / 64 == start / 64 && (start + k) % 64 == k;
    }
  }

  lemma FirstLoaded(addr: seq<Word64>, invert: bool, start0: nat, inverted: Word64)
    requires start0 / 64 < |addr| && inverted == if invert then Ones(64) else Zeros(64)
    ensures Holds(addr, invert, start0, start0 - start0 % 64,
      And(Xor(addr[start0 / 64], inverted), FirstWordMask(start0)))
  {
    LoadedBits(addr, invert, start0 - start0 % 64, inverted);
    hide Wanted;
  }

  lemma NextLoaded(addr: seq<Word64>, invert: bool, start0: nat, start: nat, inverted: Word64)
    requires start0 <= start && start % 64 == 0 && start / 64 < |addr|
    requires inverted == if invert then Ones(64) else Zeros(64)
    ensures Holds(addr, invert, start0, start, Xor(addr[start / 64], inverted))
  {
    LoadedBits(addr, invert, start, inverted);
    hide Wanted;
  }

  lemma NoneBelow(addr: seq<Word64>, invert: bool, start: nat, nbits: nat, end: nat)
    requires nbits <= end && (end <= start || NoneIn(addr, invert, start, end))
    ensures NoneIn(addr, invert, start, nbits)
  {}

  lemma FoundFirst(addr: seq<Word64>, invert: bool, start: nat, nbits: nat, k: nat)
    requires IsFirst(addr, invert, start, k)
    ensures NoneIn(addr, invert, start, nbits) <==> k >= nbits
  {
    hide Wanted;
  }

  lemma WordEmpty(addr: seq<Word64>, invert: bool, start0: nat, start: nat, tmp: Word64)
    requires start % 64 == 0 && NoneIn(addr, invert, start0, start) && tmp == Zeros(64)
    requires Holds(addr, invert, start0, start, tmp)
    ensures NoneIn(addr, invert, start0, start + 64)
  {
    hide Wanted;
    forall j: nat | start0 <= j < start + 64
      ensures !Wanted(addr, invert, j)
    {
      if j >= start {
        assert !tmp[j - start];
      }
    }
  }

  lemma FirstInWord(addr: seq<Word64>, invert: bool, start0: nat, start: nat, tmp: Word64)
    requires start % 64 == 0 && NoneIn(addr, invert, start0, start) && tmp != Zeros(64)
    requires Holds(addr, invert, start0, start, tmp)
    ensures IsFirst(addr, invert, start0, start + Ffs(tmp) - 1)
  {
    hide Wanted, FfsFrom;
    var k := start + Ffs(tmp) - 1;
    assert tmp[k - start];
    forall j: nat | start0 <= j < k
      ensures !Wanted(addr, invert, j)
    {
      if j >= start {
        assert !tmp[j - start];
      }
    }
  }

  /** The search the interface documents: the first set bit, or the size when there is none. */
  ghost predicate IsDocumentedResult(addr: seq<Word64>, size: nat, offset: nat, invert: bool, r: nat) {
    if NoneIn(addr, invert, offset, size) then r == size else r < size && IsFirst(addr, invert, offset, r)
  }

  /** The result is the documented one exactly when nothing is found; a found bit is reported one
      too high. */
  method FindNextBit(addr: array<Word64>, size: nat, offset: nat, invert: bool) returns (r: nat)
    requires size <= 64 * addr.Length
    ensures IsDocumentedResult(addr[..], size, offset, invert, r) <==> NoneIn(addr[..], invert, offset, size)
    ensures !NoneIn(addr[..], invert, offset, size) ==> 0 < r <= size && IsFirst(addr[..], invert, offset, r - 1)
  {
    hide Wanted;
    r := FindNextBitCommon(addr, size, offset, invert);
  }

  /** Every bit below nbits is set: what `bitmap_full` is meant to decide. */
  ghost predicate AllSet(src: seq<Word64>, nbits: nat) {
    forall k: nat {:trigger TestBit(src, k)} | k < nbits :: TestBit(src, k)
  }

  /** The non-constant form of `bitmap_full` is blind to the last bit: it holds exactly when the
      bits below nbits - 1 are set.  It decides what it is meant to exactly when the last bit is
      set or another one is clear. */
  method BitmapFull(src: array<Word64>, nbits: nat) returns (full: bool)
    requires nbits <= 64 * src.Length
    ensures full <==> forall k: nat | k + 1 < nbits :: TestBit(src[..], k)
    ensures (full <==> AllSet(src[..], nbits))
       <==> nbits == 0 || TestBit(src[..], nbits - 1) || exists k: nat :: k + 1 < nbits && !TestBit(src[..], k)
  {
    var zero := FindNextBitCommon(src, nbits, 0, true);
    full := zero == nbits;
    assert forall k: nat {:trigger TestBit(src[..], k)} | k < nbits ::
      TestBit(src[..], k) <==> !Wanted(src[..], true, k);
    hide Wanted, TestBit;
    if !NoneIn(src[..], true, 0, nbits) {
      assert !TestBit(src[..], zero - 1);
    }
  }

  /** For instance the lowest bit is reported as bit 1. */
  method LowestBitReported() returns (r: nat)
    ensures r == 1 && IsFirst([Bit(64, 0)], false, 0, 0) && !IsDocumentedResult([Bit(64, 0)], 64, 0, false, r)
  {
    var addr := new Word64[1];
    addr[0] := Bit(64, 0);
    assert addr[..] == [Bit(64, 0)];
    assert Wanted([Bit(64, 0)], false, 0) && !Wanted([Bit(64, 0)], false, 1);
    r := FindNextBit(addr, 64, 0, false);
  }

  /** For instance 64 bits of which only the last is clear pass for full. */
  lemma LastBitUnseen()
    ensures var src := [Not(Bit(64, 63))];
      !AllSet(src, 64) && forall k: nat | k + 1 < 64 :: TestBit(src, k)
  {
    assert !TestBit([Not(Bit(64, 63))], 63);
  }

  /** The form for small constant sizes. */
  function BitmapFullSmall(src: Word64, nbits: nat): bool {
    And(Not(src), LastWordMask(nbits)) == Zeros(64)
  }

  /** The form for small constant sizes looks at every bit of the size, but at the whole word when the size is 0;
      so it decides what it is meant to unless the size is 0 and the word is not full. */
  lemma SmallFullIsAllSet(src: Word64, nbits: nat)
    requires nbits <= 64
    ensures BitmapFullSmall(src, nbits) <==> AllSet([src], if nbits == 0 then 64 else nbits)
    ensures (BitmapFullSmall(src, nbits) <==> AllSet([src], nbits)) <==> nbits > 0 || src == Ones(64)
  {
    hide And, Not, Zeros, Ones, LastWordMask;
    SmallLooksAt(src, nbits);
    if nbits == 0 {
      assert AllSet([src], 0);
      SmallLooksAt(src, 64);
      AllSetIsOnes(src);
    }
  }

  lemma AllSetIsOnes(src: Word64)
    ensures AllSet([src], 64) <==> src == Ones(64)
  {
    assert forall k: nat {:trigger TestBit([src], k)} | k < 64 :: TestBit([src], k) == src[k];
    if AllSet([src], 64) {
      forall k | 0 <= k < 64 ensures src[k] { assert TestBit([src], k); }
    }
  }

  lemma SmallLooksAt(src: Word64, nbits0: nat)
    requires nbits0 <= 64
    ensures BitmapFullSmall(src, nbits0) <==> AllSet([src], if nbits0 == 0 then 64 else nbits0)
  {
    var w, nbits := And(Not(src), LastWordMask(nbits0)), if nbits0 == 0 then 64 else nbits0;
    assert forall k {:trigger w[k]} | 0 <= k < 64 :: w[k] == (k < nbits && !src[k]);
    assert forall k: nat {:trigger TestBit([src], k)} | k < nbits :: TestBit([src], k) == src[k];
    if BitmapFullSmall(src, nbits0) {
      forall k: nat | k < nbits ensures TestBit([src], k) { assert !w[k]; }
    } else {
      var k :| 0 <= k < 64 && w[k];
      assert !TestBit([src], k);
    }
  }

  /** The two forms of `bitmap_full` answer alike exactly when the last bit is set or another one is clear; when the
      size is 0, exactly when the word is full. */
  method FormsAgree(src: array<Word64>, nbits: nat) returns (general: bool, constant: bool)
    requires src.Length == 1 && nbits <= 64
    ensures nbits > 0 ==> (constant <==> AllSet(src[..], nbits))
    ensures general == constant <==>
      if nbits == 0 then src[0] == Ones(64)
      else TestBit(src[..], nbits - 1) || exists k: nat :: k + 1 < nbits && !TestBit(src[..], k)
  {
    hide TestBit, AllSet;
    general := BitmapFull(src, nbits);
    constant := BitmapFullSmall(src[0], nbits);
    assert src[..] == [src[0]];
    SmallFullIsAllSet(src[0], nbits);
  }
}
