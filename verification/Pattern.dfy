/** Eight-byte patterns: `memset_pattern` and `memcmp_pattern` of test/accel_test.c. */
module Pattern {
  import opened Bits

  /** Byte k of the pattern repeated for ever. */
  function PatternByte(pattern: Word64, k: nat): Byte {
    var at := 8 * (k % 8);
    pattern[at..at + 8]
  }

  /** The buffer holds the pattern from its start. */
  ghost predicate Holds(buf: seq<Byte>, pattern: Word64) {
    forall k | 0 <= k < |buf| :: buf[k] == PatternByte(pattern, k)
  }

  lemma Period(pattern: Word64, at: nat, k: nat)
    requires at % 8 == 0
    ensures PatternByte(pattern, at + k) == PatternByte(pattern, k)
  {
    assert (at + k) % 8 == k % 8;
  }

  /** A 64-bit store: eight bytes, least significant first. */
  method Store64(dst: array<Byte>, at: nat, value: Word64)
    requires at % 8 == 0 && at + 8 <= dst.Length
    modifies dst
    ensures forall k | at <= k < at + 8 :: dst[k] == PatternByte(value, k)
    ensures forall k | 0 <= k < dst.Length && !(at <= k < at + 8) :: dst[k] == old(dst[k])
  {
    hide PatternByte;
    for k := 0 to 8
      invariant forall j | at <= j < at + k :: dst[j] == PatternByte(value, j)
      invariant forall j | 0 <= j < dst.Length && !(at <= j < at + k) :: dst[j] == old(dst[j])
    {
      Period(value, at, k);
      dst[at + k] := PatternByte(value, k);
    }
  }

  method MemsetPattern(dst: array<Byte>, pattern: Word64, len: nat)
    requires len <= dst.Length
    modifies dst
    ensures Holds(dst[..len], pattern)
    ensures dst[len..] == old(dst[len..])
  {
    hide PatternByte;
    var alignedLen := len - len % 8;
    var at := 0;
    while at < alignedLen
      invariant at % 8 == 0 && at <= alignedLen
      invariant forall k | 0 <= k < at :: dst[k] == PatternByte(pattern, k)
      invariant forall k | at <= k < dst.Length :: dst[k] == old(dst[k])
    {
      Store64(dst, at, pattern);
      at := at + 8;
    }
    for k := 0 to len % 8
      invariant forall j | 0 <= j < alignedLen + k :: dst[j] == PatternByte(pattern, j)
      invariant forall j | alignedLen + k <= j < dst.Length :: dst[j] == old(dst[j])
    {
      Period(pattern, alignedLen, k);
      dst[alignedLen + k] := PatternByte(pattern, k);
    }
  }

  /** A 64-bit load: byte k is bits 8k to 8k + 7. */
  function Load64(src: seq<Byte>): Word64
    requires |src| == 8
  {
    seq(64, i requires 0 <= i < 64 => src[i / 8][i % 8])
  }

  lemma LoadIsPattern(src: seq<Byte>, pattern: Word64)
    requires |src| == 8
    ensures Load64(src) == pattern <==> forall k | 0 <= k < 8 :: src[k] == PatternByte(pattern, k)
  {
    var q := Load64(src);
    forall k | 0 <= k < 8 ensures PatternByte(q, k) == src[k] { LoadedByte(src, k); }
    hide Load64;
    if q != pattern {
      var i :| 0 <= i < 64 && q[i] != pattern[i];
      BitOfPattern(q, i);
      BitOfPattern(pattern, i);
      hide PatternByte;
    }
  }

  lemma LoadedByte(src: seq<Byte>, k: nat)
    requires |src| == 8 && k < 8
    ensures PatternByte(Load64(src), k) == src[k]
  {
    forall b | 0 <= b < 8 ensures Load64(src)[8 * k + b] == src[k][b] {
      assert (8 * k + b) / 8 == k && (8 * k + b) % 8 == b;
    }
  }

  lemma BitOfPattern(pattern: Word64, i: nat)
    requires i < 64
    ensures PatternByte(pattern, i / 8)[i % 8] == pattern[i]
  {}

  lemma HoldsWord(src: seq<Byte>, pattern: Word64, at: nat)
    requires at % 8 == 0 && at + 8 <= |src|
    ensures Holds(src[..at + 8], pattern) <==> Holds(src[..at], pattern) && Load64(src[at..at + 8]) == pattern
  {
    LoadIsPattern(src[at..at + 8], pattern);
    hide PatternByte, Load64;
    forall k | 0 <= k < 8
      ensures src[at..at + 8][k] == PatternByte(pattern, k) <==> src[at + k] == PatternByte(pattern, at + k)
    {
      Period(pattern, at, k);
    }
    assert forall k | at <= k < at + 8 :: src[at..at + 8][k - at] == src[k];
  }

  lemma HoldsNothing(pattern: Word64)
    ensures Holds([], pattern)
  {}

  lemma HoldsPart(src: seq<Byte>, pattern: Word64, n: nat)
    requires n <= |src|
    ensures Holds(src, pattern) ==> Holds(src[..n], pattern)
  {}

  /** Zero exactly when the first len bytes hold the pattern, -1 otherwise. */
  method MemcmpPattern(src: array<Byte>, pattern: Word64, len: nat) returns (rc: int)
    requires len <= src.Length
    ensures rc == if Holds(src[..len], pattern) then 0 else -1
  {
    hide PatternByte, Load64, Holds;
    ghost var bytes := src[..len];
    HoldsNothing(pattern);
    assert bytes[..0] == [];
    var alignedLen := len - len % 8;
    var at := 0;
    while at < alignedLen
      invariant at % 8 == 0 && at <= alignedLen
      invariant Holds(bytes[..at], pattern)
    {
      HoldsWord(bytes, pattern, at);
      HoldsPart(bytes, pattern, at + 8);
      assert bytes[at..at + 8] == src[at..at + 8];
      if Load64(src[at..at + 8]) != pattern {
        return -1;
      }
      at := at + 8;
    }
    for k := 0 to len % 8
      invariant Holds(bytes[..alignedLen + k], pattern)
    {
      Period(pattern, alignedLen, k);
      HoldsByte(bytes, pattern, alignedLen + k);
      HoldsPart(bytes, pattern, alignedLen + k + 1);
      if src[alignedLen + k] != PatternByte(pattern, k) {
        return -1;
      }
    }
    assert bytes[..len] == bytes;
    return 0;
  }

  lemma HoldsByte(src: seq<Byte>, pattern: Word64, n: nat)
    requires n < |src|
    ensures Holds(src[..n + 1], pattern) <==> Holds(src[..n], pattern) && src[n] == PatternByte(pattern, n)
  {
    hide PatternByte;
    assert forall k | 0 <= k < n :: src[..n + 1][k] == src[..n][k];
    assert src[..n + 1][n] == src[n];
  }
}
