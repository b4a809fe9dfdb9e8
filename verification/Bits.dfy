/** Machine words as their bits.  A word of width n is a sequence of n Booleans, bit 0 (the
    least significant) first, so that a little-endian load is a concatenation and a shift that
    falls off the word loses bits exactly as it does in C. */
module Bits {

  type Word = seq<bool>
  type Byte = w: Word | |w| == 8 witness Zeros(8)
  type Word16 = w: Word | |w| == 16 witness Zeros(16)
  type Word32 = w: Word | |w| == 32 witness Zeros(32)
  type Word64 = w: Word | |w| == 64 witness Zeros(64)

  function Zeros(n: nat): (w: Word)
    ensures |w| == n && forall i {:trigger w[i]} | 0 <= i < n :: !w[i]
  {
    seq(n, _ => false)
  }

  function Ones(n: nat): (w: Word)
    ensures |w| == n && forall i {:trigger w[i]} | 0 <= i < n :: w[i]
  {
    seq(n, _ => true)
  }

  /** The word of width n with only bit k set: the C expression `1 << k`. */
  function Bit(n: nat, k: nat): (w: Word)
    ensures |w| == n && forall i {:trigger w[i]} | 0 <= i < n :: w[i] <==> i == k
  {
    seq(n, i => i == k)
  }

  function Xor(a: Word, b: Word): (w: Word)
    requires |a| == |b|
    ensures |w| == |a| && forall i {:trigger w[i]} | 0 <= i < |a| :: w[i] == (a[i] != b[i])
  {
    seq(|a|, i requires 0 <= i < |a| => a[i] != b[i])
  }

  function Or(a: Word, b: Word): (w: Word)
    requires |a| == |b|
    ensures |w| == |a| && forall i {:trigger w[i]} | 0 <= i < |a| :: w[i] == (a[i] || b[i])
  {
    seq(|a|, i requires 0 <= i < |a| => a[i] || b[i])
  }

  function And(a: Word, b: Word): (w: Word)
    requires |a| == |b|
    ensures |w| == |a| && forall i {:trigger w[i]} | 0 <= i < |a| :: w[i] == (a[i] && b[i])
  {
    seq(|a|, i requires 0 <= i < |a| => a[i] && b[i])
  }

  function Not(a: Word): (w: Word)
    ensures |w| == |a| && forall i {:trigger w[i]} | 0 <= i < |a| :: w[i] == !a[i]
  {
    seq(|a|, i requires 0 <= i < |a| => !a[i])
  }

  function Shl(a: Word, k: nat): (w: Word)
    ensures |w| == |a| && forall i {:trigger w[i]} | 0 <= i < |a| :: w[i] == (i >= k && a[i - k])
  {
    seq(|a|, i requires 0 <= i < |a| => i >= k && a[i - k])
  }

  function Shr(a: Word, k: nat): (w: Word)
    ensures |w| == |a| && forall i {:trigger w[i]} | 0 <= i < |a| :: w[i] == (i + k < |a| && a[i + k])
  {
    seq(|a|, i requires 0 <= i < |a| => i + k < |a| && a[i + k])
  }

  /** Conversion to another width: truncation or zero extension. */
  function Resize(a: Word, n: nat): (w: Word)
    ensures |w| == n && forall i {:trigger w[i]} | 0 <= i < n :: w[i] == (i < |a| && a[i])
  {
    seq(n, i requires 0 <= i < n => i < |a| && a[i])
  }

  function Reverse(a: Word): (w: Word)
    ensures |w| == |a| && forall i {:trigger w[i]} | 0 <= i < |a| :: w[i] == a[|a| - 1 - i]
  {
    seq(|a|, i requires 0 <= i < |a| => a[|a| - 1 - i])
  }

  lemma ReverseTwice(a: Word)
    ensures Reverse(Reverse(a)) == a
  {}

  lemma ReverseXor(a: Word, b: Word)
    requires |a| == |b|
    ensures Reverse(Xor(a, b)) == Xor(Reverse(a), Reverse(b))
  {}

  lemma ShrAdd(a: Word, j: nat, k: nat)
    ensures Shr(Shr(a, j), k) == Shr(a, j + k)
  {
    assert forall i | 0 <= i < |a| :: Shr(Shr(a, j), k)[i] == Shr(a, j + k)[i];
  }

  /** All words of the list have this width. */
  predicate HaveWidth(words: seq<Word>, width: nat) {
    forall i | 0 <= i < |words| :: |words[i]| == width
  }

  // ---------- Words as numbers ----------

  lemma MulStep(n: nat, t: nat)
    requires n > 0
    ensures n * t == (n - 1) * t + t && (n - 1) * t >= 0
  {}

  function Pow2(n: nat): (p: nat)
    ensures p > 0
  {
    if n == 0 then 1 else 2 * Pow2(n - 1)
  }

  function ToNat(w: Word): (x: nat)
    ensures x < Pow2(|w|)
  {
    if w == [] then 0 else (if w[0] then 1 else 0) + 2 * ToNat(w[1..])
  }

  function FromNat(x: nat, n: nat): (w: Word)
    ensures |w| == n
  {
    if n == 0 then [] else [x % 2 == 1] + FromNat(x / 2, n - 1)
  }

  lemma {:induction false} FromToNat(w: Word)
    ensures FromNat(ToNat(w), |w|) == w
  {
    if w != [] {
      FromToNat(w[1..]);
      assert w == [w[0]] + w[1..];
      var x := ToNat(w[1..]);
      assert ToNat(w) / 2 == x && (ToNat(w) % 2 == 1 <==> w[0]);
    }
  }

  lemma {:induction false} ToFromNat(x: nat, n: nat)
    requires x < Pow2(n)
    ensures ToNat(FromNat(x, n)) == x
  {
    if n > 0 {
      ToFromNat(x / 2, n - 1);
    }
  }

  lemma {:induction false} FromNatPrefix(x: nat, m: nat, n: nat)
    requires m <= n
    ensures FromNat(x, n)[..m] == FromNat(x, m)
  {
    if m > 0 {
      FromNatPrefix(x / 2, m - 1, n - 1);
      assert FromNat(x, n)[..m] == [x % 2 == 1] + FromNat(x / 2, n - 1)[..m - 1];
    }
  }

  lemma {:induction false} FromNatTop(x: nat, n: nat)
    requires n > 0 && x < Pow2(n)
    ensures FromNat(x, n)[n - 1] <==> x >= Pow2(n - 1)
  {
    if n > 1 {
      FromNatTop(x / 2, n - 1);
    }
  }

  /** A number that fits in m bits is only zero-extended by a wider word. */
  lemma {:induction false} FromNatWiden(x: nat, m: nat, n: nat)
    requires m <= n && x < Pow2(m)
    ensures FromNat(x, n) == Resize(FromNat(x, m), n)
  {
    if m == 0 {
      FromNatZero(n);
    } else {
      FromNatWiden(x / 2, m - 1, n - 1);
      assert FromNat(x, n) == [x % 2 == 1] + Resize(FromNat(x / 2, m - 1), n - 1);
    }
  }

  lemma {:induction false} FromNatZero(n: nat)
    ensures FromNat(0, n) == Zeros(n)
  {
    if n > 0 {
      FromNatZero(n - 1);
      assert [false] + Zeros(n - 1) == Zeros(n);
    }
  }

  lemma {:induction false} PowerIsBit(k: nat, n: nat)
    requires k < n
    ensures FromNat(Pow2(k), n) == Bit(n, k)
  {
    if k == 0 {
      FromNatZero(n - 1);
      assert FromNat(1, n) == [true] + FromNat(0, n - 1);
    } else {
      PowerIsBit(k - 1, n - 1);
      assert FromNat(Pow2(k), n) == [false] + FromNat(Pow2(k - 1), n - 1);
    }
  }

  /** The number that bytes spell, the most significant first. */
  function BigEndian(bytes: seq<Byte>): nat {
    if bytes == [] then 0 else 256 * BigEndian(bytes[..|bytes| - 1]) + ToNat(bytes[|bytes| - 1])
  }

  lemma {:induction false} ToNatSplit(w: Word, k: nat)
    requires k <= |w|
    ensures ToNat(w) == ToNat(w[..k]) + Pow2(k) * ToNat(w[k..])
  {
    if k == 0 {
      assert w[..0] == [] && w[0..] == w;
    } else {
      ToNatSplit(w[1..], k - 1);
      assert w[..k][0] == w[0] && w[..k][1..] == w[1..][..k - 1] && w[k..] == w[1..][k - 1..];
      ToNatUnfold(w);
      ToNatUnfold(w[..k]);
      hide ToNat;
      var p, x, h := Pow2(k - 1), ToNat(w[1..][..k - 1]), ToNat(w[k..]);
      assert Pow2(k) == 2 * p;
      hide Pow2;
      TwiceSum(if w[0] then 1 else 0, x, p, h);
    }
  }

  lemma ToNatUnfold(w: Word)
    requires w != []
    ensures ToNat(w) == (if w[0] then 1 else 0) + 2 * ToNat(w[1..])
  {}

  lemma TwiceSum(b: nat, x: nat, p: nat, h: nat)
    ensures b + 2 * (x + p * h) == b + 2 * x + (2 * p) * h
  {}

  lemma {:induction false} BigEndianInjective(a: seq<Byte>, b: seq<Byte>)
    requires |a| == |b|
    ensures BigEndian(a) == BigEndian(b) <==> a == b
  {
    if a != [] {
      var n := |a| - 1;
      BigEndianInjective(a[..n], b[..n]);
      assert a == a[..n] + [a[n]] && b == b[..n] + [b[n]];
      assert ToNat(a[n]) < Pow2(8) == 256 && ToNat(b[n]) < 256;
      FromToNat(a[n]);
      FromToNat(b[n]);
    }
  }
}
