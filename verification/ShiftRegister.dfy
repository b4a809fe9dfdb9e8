/** Cyclic redundancy checks as polynomial division over GF(2), and the shift registers that
    compute them.  Coefficients are listed highest degree first; in that order the register of a
    right-shifting (bit-reflected) engine is an ordinary word, bit 0 first.  The monic leading term
    of the generator is implicit, as in the source. */
module ShiftRegister {
  import opened Bits

  // ---------- Division ----------

  /** Textbook long division by x^n + poly: while the dividend is longer than n, its leading
      coefficient is dropped and, when it was 1, poly is subtracted from the n that follow. */
  function Remainder(dividend: seq<bool>, poly: Word): (r: Word)
    requires |dividend| >= |poly|
    ensures |r| == |poly|
    decreases |dividend|
  {
    if |dividend| == |poly| then dividend
    else
      var rest := dividend[1..];
      Remainder(if dividend[0] then Xor(rest, Resize(poly, |rest|)) else rest, poly)
  }

  /** The message shifted up by the register width, with the initial register added to its front. */
  function Dividend(init: Word, message: seq<bool>): (d: seq<bool>)
    ensures |d| == |init| + |message|
  {
    Xor(message + Zeros(|init|), init + Zeros(|message|))
  }

  // ---------- The register ----------

  /** One shift without input. */
  function Step(crc: Word, poly: Word): (r: Word)
    requires |crc| == |poly|
    ensures |r| == |poly|
  {
    if |crc| > 0 && crc[0] then Xor(Shr(crc, 1), poly) else Shr(crc, 1)
  }

  function Steps(k: nat, crc: Word, poly: Word): (r: Word)
    requires |crc| == |poly|
    ensures |r| == |poly|
    decreases k
  {
    if k == 0 then crc else Steps(k - 1, Step(crc, poly), poly)
  }

  /** One shift of an engine that works towards the top bit. */
  function LeftStep(crc: Word, poly: Word): (r: Word)
    requires |crc| == |poly|
    ensures |r| == |poly|
  {
    if |crc| > 0 && crc[|crc| - 1] then Xor(Shl(crc, 1), poly) else Shl(crc, 1)
  }

  function LeftSteps(k: nat, crc: Word, poly: Word): (r: Word)
    requires |crc| == |poly|
    ensures |r| == |poly|
    decreases k
  {
    if k == 0 then crc else LeftSteps(k - 1, LeftStep(crc, poly), poly)
  }

  /** Consume up to a register's width of message bits: add them to the register, then shift. */
  function Feed(crc: Word, message: seq<bool>, poly: Word): (r: Word)
    requires |crc| == |poly|
    ensures |r| == |poly|
  {
    Steps(|message|, Xor(crc, Resize(message, |crc|)), poly)
  }

  /** Consume a message byte by byte. */
  function FeedAll(crc: Word, bytes: seq<Word>, poly: Word): (r: Word)
    requires |crc| == |poly|
    ensures |r| == |poly|
    decreases |bytes|
  {
    if bytes == [] then crc else FeedAll(Feed(crc, bytes[0], poly), bytes[1..], poly)
  }

  function Flatten(bytes: seq<Word>): seq<bool> {
    if bytes == [] then [] else bytes[0] + Flatten(bytes[1..])
  }

  lemma StepsUnfold(k: nat, crc: Word, poly: Word)
    requires |crc| == |poly|
    ensures Steps(k, crc, poly) == if k == 0 then crc else Steps(k - 1, Step(crc, poly), poly)
  {}

  /** The two directions are mirror images of each other. */
  lemma LeftStepMirrors(crc: Word, poly: Word)
    requires |crc| == |poly|
    ensures Reverse(LeftStep(crc, poly)) == Step(Reverse(crc), Reverse(poly))
  {
    assert Reverse(Shl(crc, 1)) == Shr(Reverse(crc), 1);
    ReverseXor(Shl(crc, 1), poly);
  }

  lemma {:induction false} LeftStepsMirror(k: nat, crc: Word, poly: Word)
    requires |crc| == |poly|
    ensures Reverse(LeftSteps(k, crc, poly)) == Steps(k, Reverse(crc), Reverse(poly))
    decreases k
  {
    hide LeftStep, Step, Reverse;
    if k > 0 {
      LeftStepMirrors(crc, poly);
      LeftStepsMirror(k - 1, LeftStep(crc, poly), poly);
    }
  }

  // ---------- Linearity and composition ----------

  lemma StepLinear(a: Word, b: Word, poly: Word)
    requires |a| == |b| == |poly|
    ensures Step(Xor(a, b), poly) == Xor(Step(a, poly), Step(b, poly))
  {}

  lemma {:induction false} StepsLinear(k: nat, a: Word, b: Word, poly: Word)
    requires |a| == |b| == |poly|
    ensures Steps(k, Xor(a, b), poly) == Xor(Steps(k, a, poly), Steps(k, b, poly))
    decreases k
  {
    hide Step;
    if k > 0 {
      StepLinear(a, b, poly);
      StepsLinear(k - 1, Step(a, poly), Step(b, poly), poly);
    }
  }

  lemma {:induction false} StepsAdd(j: nat, k: nat, crc: Word, poly: Word)
    requires |crc| == |poly|
    ensures Steps(j + k, crc, poly) == Steps(k, Steps(j, crc, poly), poly)
    decreases j
  {
    hide Step;
    if j > 0 {
      StepsAdd(j - 1, k, Step(crc, poly), poly);
    }
  }

  /** Shifting out k clear bits only shifts. */
  lemma {:induction false} QuietSteps(k: nat, crc: Word, poly: Word)
    requires |crc| == |poly|
    requires forall i | 0 <= i < k && i < |crc| :: !crc[i]
    ensures Steps(k, crc, poly) == Shr(crc, k)
    decreases k
  {
    if k == 0 {
      assert Shr(crc, 0) == crc;
    } else {
      assert Step(crc, poly) == Shr(crc, 1);
      QuietSteps(k - 1, Shr(crc, 1), poly);
      ShrAdd(crc, 1, k - 1);
    }
  }

  lemma QuietThen(j: nat, k: nat, crc: Word, poly: Word)
    requires |crc| == |poly|
    requires forall i | 0 <= i < j && i < |crc| :: !crc[i]
    ensures Steps(j + k, crc, poly) == Steps(k, Shr(crc, j), poly)
  {
    hide Step, Steps, Shr;
    QuietSteps(j, crc, poly);
    StepsAdd(j, k, crc, poly);
  }

  lemma FeedAllOne(crc: Word, d: Word, poly: Word)
    requires |crc| == |poly|
    ensures FeedAll(crc, [d], poly) == Feed(crc, d, poly)
  {
    hide Feed;
    var next := Feed(crc, d, poly);
    assert [d][1..] == [] && FeedAll(next, [], poly) == next;
  }

  lemma {:induction false} FeedAllAppend(crc: Word, a: seq<Word>, b: seq<Word>, poly: Word)
    requires |crc| == |poly|
    ensures FeedAll(crc, a + b, poly) == FeedAll(FeedAll(crc, a, poly), b, poly)
    decreases |a|
  {
    if a == [] {
      assert a + b == b;
    } else {
      assert (a + b)[1..] == a[1..] + b;
      FeedAllAppend(Feed(crc, a[0], poly), a[1..], b, poly);
    }
  }

  // ---------- The register computes the remainder ----------

  lemma {:induction false} FeedIsDivision(crc: Word, m: seq<bool>, tail: seq<bool>, poly: Word)
    requires |crc| == |poly|
    requires |m| <= |poly|
    ensures Remainder(Dividend(crc, m + tail), poly) == Remainder(Dividend(Feed(crc, m, poly), tail), poly)
    decreases |m|
  {
    hide Xor, Resize, Zeros;
    if m == [] {
      assert m + tail == tail;
      assert Xor(crc, Resize(m, |crc|)) == crc;
    } else {
      var c := Xor(crc, Resize(m, |crc|));
      var d := Dividend(crc, m + tail);
      var next := Xor(Step(c, poly), Resize(m[1..], |crc|));
      var rest := d[1..];
      assert d[0] == c[0];
      assert (if d[0] then Xor(rest, Resize(poly, |rest|)) else rest) == Dividend(next, m[1..] + tail);
      FeedIsDivision(next, m[1..], tail, poly);
      assert Xor(next, Resize(m[1..], |crc|)) == Step(c, poly);
    }
  }

  /** Feeding the bytes of a message one after the other leaves the remainder of the division. */
  lemma {:induction false} FeedAllIsDivision(crc: Word, bytes: seq<Word>, poly: Word)
    requires |crc| == |poly|
    requires forall b | b in bytes :: |b| <= |poly|
    ensures FeedAll(crc, bytes, poly) == Remainder(Dividend(crc, Flatten(bytes)), poly)
    decreases |bytes|
  {
    if bytes == [] {
      assert Dividend(crc, []) == crc;
    } else {
      FeedIsDivision(crc, bytes[0], Flatten(bytes[1..]), poly);
      FeedAllIsDivision(Feed(crc, bytes[0], poly), bytes[1..], poly);
    }
  }

  // ---------- Byte tables ----------

  /** The table entry of a byte: the byte alone in the register, shifted out. */
  function TableEntry(i: nat, poly: Word): (r: Word)
    ensures |r| == |poly|
  {
    Steps(8, Resize(FromNat(i, 8), |poly|), poly)
  }

  lemma ByteBound(d: Word)
    requires |d| == 8
    ensures ToNat(d) < 256
  {
    assert Pow2(8) == 256;
  }

  /** Looking up the outgoing byte and shifting the rest is feeding the byte. */
  lemma TableStep(crc: Word, d: Word, poly: Word)
    requires |crc| == |poly| >= 8
    requires |d| == 8
    ensures Xor(TableEntry(ToNat(Xor(d, crc[..8])), poly), Shr(crc, 8)) == Feed(crc, d, poly)
  {
    hide Steps, Xor, Resize, Shr;
    var index := Xor(d, crc[..8]);
    FromToNat(index);
    var c := Xor(crc, Resize(d, |crc|));
    var low := Resize(index, |crc|);
    var high := Xor(c, low);
    assert c == Xor(low, high);
    StepsLinear(8, low, high, poly);
    QuietSteps(8, high, poly);
    assert Shr(high, 8) == Shr(crc, 8);
  }

  // ---------- Messages no longer than the register ----------

  /** Input added ahead of its turn arrives shifted, and unaltered, j steps later. */
  lemma LateInput(j: nat, crc: Word, late: Word, poly: Word)
    requires |crc| == |late| == |poly|
    requires forall i | 0 <= i < j && i < |late| :: !late[i]
    ensures Steps(j, Xor(crc, late), poly) == Xor(Steps(j, crc, poly), Shr(late, j))
  {
    StepsLinear(j, crc, late, poly);
    QuietSteps(j, late, poly);
  }

  lemma PadSplit(crc: Word, a: seq<bool>, b: seq<bool>)
    requires |a| + |b| <= |crc|
    ensures var n := |crc|; var late := Resize(Zeros(|a|) + b, n);
      && Xor(Xor(crc, Resize(a, n)), late) == Xor(crc, Resize(a + b, n))
      && Shr(late, |a|) == Resize(b, n)
  {}

  lemma FeedAppend(crc: Word, a: seq<bool>, b: seq<bool>, poly: Word)
    requires |crc| == |poly|
    requires |a| + |b| <= |poly|
    ensures Feed(Feed(crc, a, poly), b, poly) == Feed(crc, a + b, poly)
  {
    hide Step, Xor, Resize;
    var n := |poly|;
    var late := Resize(Zeros(|a|) + b, n);
    var c := Xor(crc, Resize(a, n));
    PadSplit(crc, a, b);
    LateInput(|a|, c, late, poly);
    StepsAdd(|a|, |b|, Xor(c, late), poly);
    assert |a + b| == |a| + |b|;
  }

  lemma {:induction false} FeedAllIsFeed(crc: Word, bytes: seq<Word>, poly: Word)
    requires |crc| == |poly|
    requires |Flatten(bytes)| <= |poly|
    ensures FeedAll(crc, bytes, poly) == Feed(crc, Flatten(bytes), poly)
    decreases |bytes|
  {
    if bytes == [] {
      assert Xor(crc, Resize([], |crc|)) == crc;
    } else {
      FeedAllIsFeed(Feed(crc, bytes[0], poly), bytes[1..], poly);
      FeedAppend(crc, bytes[0], Flatten(bytes[1..]), poly);
    }
  }

  // ---------- When a register forgets nothing ----------

  lemma StepInjective(a: Word, b: Word, poly: Word)
    requires |a| == |b| == |poly| > 0
    requires poly[|poly| - 1]
    requires Step(a, poly) == Step(b, poly)
    ensures a == b
  {
    var n := |poly|;
    var r := Step(a, poly);
    assert r[n - 1] == a[0] == b[0];
    forall i | 0 < i < n
      ensures a[i] == b[i]
    {
      assert r[i - 1] == (a[i] != (a[0] && poly[i - 1])) == (b[i] != (b[0] && poly[i - 1]));
    }
  }

  lemma {:induction false} StepsInjective(k: nat, a: Word, b: Word, poly: Word)
    requires |a| == |b| == |poly| > 0
    requires poly[|poly| - 1]
    requires Steps(k, a, poly) == Steps(k, b, poly)
    ensures a == b
    decreases k
  {
    hide Steps, Step, Xor, Shr;
    StepsUnfold(k, a, poly);
    StepsUnfold(k, b, poly);
    if k > 0 {
      StepsInjective(k - 1, Step(a, poly), Step(b, poly), poly);
      StepInjective(a, b, poly);
    }
  }

  lemma FeedInjective(a: Word, b: Word, m: seq<bool>, m': seq<bool>, poly: Word)
    requires |a| == |b| == |poly| > 0
    requires poly[|poly| - 1]
    requires |m| == |m'| <= |poly|
    requires Feed(a, m, poly) == Feed(b, m', poly)
    ensures a == b ==> m == m'
    ensures m == m' ==> a == b
  {
    hide Steps, Xor, Resize;
    var x, y := Resize(m, |poly|), Resize(m', |poly|);
    var xa, xb := Xor(a, x), Xor(b, y);
    StepsInjective(|m|, xa, xb, poly);
    forall i | 0 <= i < |poly|
      ensures (a[i] != x[i]) == (b[i] != y[i])
    {
      assert xa[i] == xb[i];
    }
    if a == b {
      assert forall i | 0 <= i < |m| :: m[i] == x[i] == y[i] == m'[i];
    }
  }

  lemma {:induction false} FeedAllInjective(a: Word, b: Word, bytes: seq<Word>, poly: Word)
    requires |a| == |b| == |poly| > 0
    requires poly[|poly| - 1]
    requires forall d | d in bytes :: |d| <= |poly|
    requires FeedAll(a, bytes, poly) == FeedAll(b, bytes, poly)
    ensures a == b
    decreases |bytes|
  {
    if bytes != [] {
      FeedAllInjective(Feed(a, bytes[0], poly), Feed(b, bytes[0], poly), bytes[1..], poly);
      FeedInjective(a, b, bytes[0], bytes[0], poly);
    }
  }

  lemma {:induction false} FlattenInjective(a: seq<Word>, b: seq<Word>, width: nat)
    requires |a| == |b|
    requires forall d | d in a + b :: |d| == width
    requires Flatten(a) == Flatten(b)
    ensures a == b
  {
    if a != [] {
      assert a[0] in a + b && b[0] in a + b;
      var fa, fb := Flatten(a), Flatten(b);
      assert a[0] == fa[..width] && b[0] == fb[..width];
      assert Flatten(a[1..]) == fa[width..] && Flatten(b[1..]) == fb[width..];
      FlattenInjective(a[1..], b[1..], width);
    }
  }

  lemma {:induction false} FlattenLength(a: seq<Word>)
    requires forall d | d in a :: |d| == 8
    ensures |Flatten(a)| == 8 * |a|
  {
    if a != [] {
      FlattenLength(a[1..]);
    }
  }

  lemma {:induction false} FlattenAppend(a: seq<Word>, b: seq<Word>)
    ensures Flatten(a + b) == Flatten(a) + Flatten(b)
  {
    if a == [] {
      assert a + b == b;
    } else {
      assert (a + b)[1..] == a[1..] + b;
      FlattenAppend(a[1..], b);
    }
  }

  lemma MiddleOf(x: Word, y: Word, z: Word)
    ensures (x + (y + z))[|x|..|x| + |y|] == y
  {}

  lemma FlattenUnfold(a: seq<Word>)
    requires a != []
    ensures Flatten(a) == a[0] + Flatten(a[1..])
  {}

  lemma FlattenByte(a: seq<Word>, k: nat)
    requires forall d | d in a :: |d| == 8
    requires k < |a|
    ensures 8 * k + 8 <= |Flatten(a)| && Flatten(a)[8 * k..8 * k + 8] == a[k]
  {
    hide Flatten;
    assert a[k] in a;
    forall d | d in a[..k] ensures |d| == 8 { assert d in a; }
    assert a == a[..k] + a[k..];
    FlattenUnfold(a[k..]);
    FlattenAppend(a[..k], a[k..]);
    FlattenLength(a[..k]);
    MiddleOf(Flatten(a[..k]), a[k], Flatten(a[k..][1..]));
  }

  /** A generator with a constant term separates any two windows that fit in the register. */
  lemma WindowsSeparated(crc: Word, w: seq<Word>, w': seq<Word>, suffix: seq<Word>, poly: Word)
    requires |crc| == |poly| >= 8
    requires poly[|poly| - 1]
    requires |w| == |w'| && 8 * |w| <= |poly|
    requires forall d | d in w + w' + suffix :: |d| == 8
    requires w != w'
    ensures FeedAll(crc, w + suffix, poly) != FeedAll(crc, w' + suffix, poly)
  {
    assert forall d | d in w || d in w' || d in suffix :: d in w + w' + suffix;
    FlattenLength(w);
    FlattenLength(w');
    FeedAllAppend(crc, w, suffix, poly);
    FeedAllAppend(crc, w', suffix, poly);
    FeedAllIsFeed(crc, w, poly);
    FeedAllIsFeed(crc, w', poly);
    if FeedAll(crc, w + suffix, poly) == FeedAll(crc, w' + suffix, poly) {
      FeedAllInjective(FeedAll(crc, w, poly), FeedAll(crc, w', poly), suffix, poly);
      FeedInjective(crc, crc, Flatten(w), Flatten(w'), poly);
      FlattenInjective(w, w', 8);
    }
  }

  /** What a generator without a constant term cannot see: the generator itself, shifted down
      by its factor x, with the implicit leading term in front. */
  function Blind(poly: Word): (w: Word)
    requires |poly| > 0
    ensures |w| == |poly|
  {
    [true] + poly[..|poly| - 1]
  }

  lemma BlindVanishes(k: nat, poly: Word)
    requires |poly| > 0 && !poly[|poly| - 1]
    requires k > 0
    ensures Steps(k, Blind(poly), poly) == Zeros(|poly|)
  {
    var n := |poly|;
    assert Shr(Blind(poly), 1) == poly;
    assert Step(Blind(poly), poly) == Zeros(n);
    QuietSteps(k - 1, Zeros(n), poly);
    assert Shr(Zeros(n), k - 1) == Zeros(n);
  }

  lemma BlindToWindow(crc: Word, m: Word, poly: Word)
    requires |crc| == |poly| == |m| > 0
    requires !poly[|poly| - 1]
    ensures Feed(crc, Xor(m, Blind(poly)), poly) == Feed(crc, m, poly)
  {
    var n := |poly|;
    var b := Blind(poly);
    assert Xor(crc, Resize(Xor(m, b), n)) == Xor(Xor(crc, Resize(m, n)), b);
    StepsLinear(n, Xor(crc, Resize(m, n)), b, poly);
    BlindVanishes(n, poly);
    var r := Feed(crc, m, poly);
    assert Xor(r, Zeros(n)) == r;
  }
}
