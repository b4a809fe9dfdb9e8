/** Pattern fills and pattern compares that are interrupted by page faults and resubmitted:
    `dsa_reprep_memfill` and `dsa_reprep_compval` of test/dsa_prep.c under the wait loops of
    test/dsa.c.  The resubmitted descriptor restarts the eight-byte pattern from its first byte. */
module Refill {
  import opened Bits
  import opened Device
  import opened Pattern

  /** The outcomes of a descriptor that works upwards through one region. */
  predicate PossibleUpwards(c: Completion, mapped: set<nat>, addr: nat, size: nat, writes: bool) {
    && c.bytesCompleted <= size
    && (StatVal(c.status) == 0 ==> c.status == 0 && c.bytesCompleted == 0)
    && (StatVal(c.status) == COMP_PAGE_FAULT_NOBOF ==>
        && c.faultAddr / PAGE_SIZE !in mapped
        && InRegion(c.faultAddr, addr + c.bytesCompleted, size - c.bytesCompleted)
        && IsWriteFault(c.status) == writes)
  }

  predicate RetriesFault(status: nat, blockOnFault: bool) {
    StatVal(status) == COMP_PAGE_FAULT_NOBOF && !blockOnFault
  }

  lemma RetriesMeans(blockOnFault: bool)
    ensures forall status: nat :: RetriesFault(status, blockOnFault) <==> status % 64 == 3 && !blockOnFault
  {}

  lemma FaultBounds(c: Completion, mapped: set<nat>, addr: nat, size: nat, writes: bool, blockOnFault: bool,
      pages: set<nat>)
    requires PossibleUpwards(c, mapped, addr, size, writes) && RetriesFault(c.status, blockOnFault)
    requires Pages(addr, size) <= pages
    ensures InRegion(c.faultAddr, addr + c.bytesCompleted, size - c.bytesCompleted)
    ensures c.faultAddr / PAGE_SIZE in pages && c.faultAddr / PAGE_SIZE !in mapped
    ensures IsWriteFault(c.status) == writes
  {
    PageOfRegion(c.faultAddr, addr, size);
  }

  /** The pages of what is left are pages of the whole. */
  lemma {:induction false} PagesOfRest(addr: nat, size: nat, from: nat, left: nat)
    requires addr <= from && from + left <= addr + size
    ensures Pages(from, left) <= Pages(addr, size)
  {
    if left > 0 {
      PagesOfRest(addr, size, from, left - 1);
      PageOfRegion(from + left - 1, addr, size);
    }
  }

  // ---------- Where a run was interrupted ----------

  /** The offsets at which a run of the given size was resumed. */
  predicate AreCuts(cuts: seq<nat>, size: nat) {
    && (forall i, j | 0 <= i < j < |cuts| :: cuts[i] <= cuts[j])
    && (forall c | c in cuts :: c < size)
  }

  /** The offset at which the descriptor that handles byte x started. */
  function LastCut(cuts: seq<nat>, x: nat): (c: nat)
    ensures c <= x
  {
    if cuts == [] then 0
    else
      var last := |cuts| - 1;
      if cuts[last] <= x then cuts[last] else LastCut(cuts[..last], x)
  }

  /** The pattern byte that the run uses at offset x: every resumption starts again at the first. */
  function RestartedByte(pattern: Word64, cuts: seq<nat>, x: nat): Byte {
    PatternByte(pattern, x - LastCut(cuts, x))
  }

  /** From each resumption to the next the pattern agrees with itself shifted by the offset. */
  ghost predicate InStep(pattern: Word64, cuts: seq<nat>, size: nat) {
    forall x: nat | x < size :: RestartedByte(pattern, cuts, x) == PatternByte(pattern, x)
  }

  lemma LastCutNext(cuts: seq<nat>, cut: nat, x: nat)
    ensures LastCut(cuts + [cut], x) == if cut <= x then cut else LastCut(cuts, x)
  {
    assert (cuts + [cut])[..|cuts|] == cuts;
  }

  lemma LastCutNow(cuts: seq<nat>, x: nat)
    requires cuts != [] ==> cuts[|cuts| - 1] <= x
    ensures LastCut(cuts, x) == if cuts == [] then 0 else cuts[|cuts| - 1]
  {}

  lemma {:induction false} LastCutAtCut(cuts: seq<nat>, size: nat, i: nat)
    requires AreCuts(cuts, size) && i < |cuts|
    ensures LastCut(cuts, cuts[i]) == cuts[i]
  {
    var last := |cuts| - 1;
    if cuts[last] > cuts[i] {
      assert forall c | c in cuts[..last] :: c in cuts;
      LastCutAtCut(cuts[..last], size, i);
    }
  }

  lemma OneCutByte(pattern: Word64, done: nat, x: nat)
    ensures RestartedByte(pattern, [done], x) == PatternByte(pattern, if done <= x then x - done else x)
  {
    hide PatternByte;
    LastCutNext([], done, x);
    assert [] + [done] == [done];
  }

  /** A single resumption is in step exactly when the pattern agrees with itself shifted by its
      offset over the bytes that remain. */
  lemma OneCutInStep(pattern: Word64, size: nat, done: nat)
    requires done <= size
    ensures InStep(pattern, [done], size)
       <==> forall k: nat | k < size - done :: PatternByte(pattern, k) == PatternByte(pattern, done + k)
  {
    hide PatternByte, RestartedByte;
    forall x: nat ensures RestartedByte(pattern, [done], x) == PatternByte(pattern, if done <= x then x - done else x) {
      OneCutByte(pattern, done, x);
    }
    if InStep(pattern, [done], size) {
      forall k: nat | k < size - done
        ensures PatternByte(pattern, k) == PatternByte(pattern, done + k)
      {
        assert RestartedByte(pattern, [done], done + k) == PatternByte(pattern, done + k);
      }
    }
    if forall k: nat | k < size - done :: PatternByte(pattern, k) == PatternByte(pattern, done + k) {
      forall x: nat | x < size
        ensures RestartedByte(pattern, [done], x) == PatternByte(pattern, x)
      {
        if done <= x {
          assert PatternByte(pattern, x - done) == PatternByte(pattern, done + (x - done));
        }
      }
    }
  }

  lemma AlignedInStep(pattern: Word64, cuts: seq<nat>, size: nat)
    requires forall c | c in cuts :: c % 8 == 0
    ensures InStep(pattern, cuts, size)
  {
    hide PatternByte;
    forall x: nat | x < size
      ensures RestartedByte(pattern, cuts, x) == PatternByte(pattern, x)
    {
      LastCutAligned(cuts, x);
      Period(pattern, LastCut(cuts, x), x - LastCut(cuts, x));
    }
  }

  lemma {:induction false} LastCutAligned(cuts: seq<nat>, x: nat)
    requires forall c | c in cuts :: c % 8 == 0
    ensures LastCut(cuts, x) % 8 == 0
  {
    if cuts != [] {
      assert cuts[|cuts| - 1] in cuts;
      forall c | c in cuts[..|cuts| - 1] ensures c % 8 == 0 { assert c in cuts; }
      LastCutAligned(cuts[..|cuts| - 1], x);
    }
  }

  /** Restarting is harmless for every pattern exactly when all resumptions are at multiples of eight. */
  lemma PhaseMatters(cuts: seq<nat>, size: nat)
    requires AreCuts(cuts, size)
    ensures (forall pattern: Word64 :: InStep(pattern, cuts, size)) <==> (forall c | c in cuts :: c % 8 == 0)
  {
    if forall c | c in cuts :: c % 8 == 0 {
      forall pattern: Word64 ensures InStep(pattern, cuts, size) { AlignedInStep(pattern, cuts, size); }
    } else {
      hide InStep, AreCuts;
      var i :| 0 <= i < |cuts| && cuts[i] % 8 != 0;
      OutOfStep(cuts, size, i);
    }
  }

  /** A resumption off a multiple of eight shows with the pattern that has one bit set. */
  lemma OutOfStep(cuts: seq<nat>, size: nat, i: nat)
    requires AreCuts(cuts, size) && i < |cuts| && cuts[i] % 8 != 0
    ensures !InStep(Bit(64, 0), cuts, size)
  {
    var pattern: Word64 := Bit(64, 0);
    LastCutAtCut(cuts, size, i);
    assert cuts[i] in cuts;
    assert PatternByte(pattern, 0)[0] && !PatternByte(pattern, cuts[i])[0];
    hide PatternByte, Bit;
    assert RestartedByte(pattern, cuts, cuts[i]) == PatternByte(pattern, 0);
  }

  // ---------- Fill ----------

  /** Memory after the pattern is written to `done` bytes from dst on. */
  function Filled(mem: seq<Byte>, dst: nat, done: nat, pattern: Word64): (r: seq<Byte>)
    requires dst + done <= |mem|
    ensures |r| == |mem|
    ensures forall a {:trigger r[a]} | 0 <= a < |mem| ::
      r[a] == if InRegion(a, dst, done) then PatternByte(pattern, a - dst) else mem[a]
  {
    seq(|mem|, a requires 0 <= a < |mem| => if InRegion(a, dst, done) then PatternByte(pattern, a - dst) else mem[a])
  }

  datatype FillJob = FillJob(mem: seq<Byte>, dst: nat, size: nat, pattern: Word64)

  /** Memory after a fill that was resumed at the given offsets. */
  function InterruptedFill(job: FillJob, cuts: seq<nat>): (r: seq<Byte>)
    requires job.dst + job.size <= |job.mem|
    ensures |r| == |job.mem|
    ensures forall a {:trigger r[a]} | 0 <= a < |job.mem| ::
      r[a] == if InRegion(a, job.dst, job.size) then RestartedByte(job.pattern, cuts, a - job.dst) else job.mem[a]
  {
    seq(|job.mem|, a requires 0 <= a < |job.mem| =>
      if InRegion(a, job.dst, job.size) then RestartedByte(job.pattern, cuts, a - job.dst) else job.mem[a])
  }

  /** An interrupted fill ends as the uninterrupted one exactly when its resumptions are in step. */
  lemma ResumedFill(job: FillJob, cuts: seq<nat>)
    requires job.dst + job.size <= |job.mem|
    ensures InterruptedFill(job, cuts) == Filled(job.mem, job.dst, job.size, job.pattern)
       <==> InStep(job.pattern, cuts, job.size)
  {
    hide PatternByte, RestartedByte;
    var r, f := InterruptedFill(job, cuts), Filled(job.mem, job.dst, job.size, job.pattern);
    hide InterruptedFill, Filled;
    if r == f {
      forall x: nat | x < job.size
        ensures RestartedByte(job.pattern, cuts, x) == PatternByte(job.pattern, x)
      {
        assert r[job.dst + x] == f[job.dst + x];
      }
    }
  }

  /** Everything below d has been filled, the current descriptor starts at d, and nothing outside the
      region has changed. */
  ghost predicate FilledTo(job: FillJob, cuts: seq<nat>, now: seq<Byte>, d: nat, left: nat) {
    && job.dst + job.size <= |job.mem| == |now|
    && job.dst <= d && d + left == job.dst + job.size
    && (if cuts == [] then job.dst else job.dst + cuts[|cuts| - 1]) == d
    && (forall a: nat {:trigger now[a]} | job.dst <= a < d ::
        now[a] == RestartedByte(job.pattern, cuts, a - job.dst))
    && (forall a: nat {:trigger now[a]} | a < |now| && !InRegion(a, job.dst, job.size) :: now[a] == job.mem[a])
  }

  lemma FilledAtFirst(job: FillJob)
    requires job.dst + job.size <= |job.mem|
    ensures FilledTo(job, [], job.mem, job.dst, job.size)
  {}

  /** The bytes that one descriptor fills continue the run. */
  lemma FilledFrom(job: FillJob, cuts: seq<nat>, now: seq<Byte>, d: nat, left: nat, done: nat)
    requires FilledTo(job, cuts, now, d, left) && done <= left
    ensures var after := Filled(now, d, done, job.pattern);
      forall a: nat {:trigger after[a]} | job.dst <= a < d + done ::
        after[a] == RestartedByte(job.pattern, cuts, a - job.dst)
  {
    hide PatternByte;
    var after := Filled(now, d, done, job.pattern);
    hide Filled;
    forall a: nat {:trigger after[a]} | job.dst <= a < d + done
      ensures after[a] == RestartedByte(job.pattern, cuts, a - job.dst)
    {
      if d <= a {
        LastCutNow(cuts, a - job.dst);
        assert after[a] == PatternByte(job.pattern, a - d);
      } else {
        assert after[a] == now[a];
      }
    }
  }

  /** Resuming at the next byte, after a fault that disturbed a byte still to be filled. */
  lemma FilledNext(job: FillJob, cuts: seq<nat>, now: seq<Byte>, after: seq<Byte>, d: nat, left: nat, done: nat,
      addr: nat)
    requires FilledTo(job, cuts, now, d, left) && done <= left
    requires |after| == |now| && InRegion(addr, d + done, left - done)
    requires forall a | 0 <= a < |now| && a != addr :: after[a] == Filled(now, d, done, job.pattern)[a]
    ensures FilledTo(job, cuts + [d + done - job.dst], after, d + done, left - done)
  {
    hide PatternByte;
    FilledFrom(job, cuts, now, d, left, done);
    var cut, mid := d + done - job.dst, Filled(now, d, done, job.pattern);
    hide Filled;
    forall a: nat {:trigger after[a]} | job.dst <= a < d + done
      ensures after[a] == RestartedByte(job.pattern, cuts + [cut], a - job.dst)
    {
      LastCutNext(cuts, cut, a - job.dst);
      assert after[a] == mid[a];
    }
    forall a: nat {:trigger after[a]} | a < |after| && !InRegion(a, job.dst, job.size)
      ensures after[a] == job.mem[a]
    {
      assert after[a] == mid[a] == now[a];
    }
  }

  lemma FilledAtEnd(job: FillJob, cuts: seq<nat>, now: seq<Byte>, d: nat, left: nat)
    requires FilledTo(job, cuts, now, d, left)
    ensures Filled(now, d, left, job.pattern) == InterruptedFill(job, cuts)
  {
    hide PatternByte, RestartedByte;
    FilledFrom(job, cuts, now, d, left, left);
    var after, r := Filled(now, d, left, job.pattern), InterruptedFill(job, cuts);
    hide Filled, InterruptedFill;
    forall a: nat | a < |after| ensures after[a] == r[a] {}
  }

  lemma CutsNext(cuts: seq<nat>, size: nat, cut: nat)
    requires AreCuts(cuts, size) && cut < size && (cuts != [] ==> cuts[|cuts| - 1] <= cut)
    ensures AreCuts(cuts + [cut], size)
  {}

  method ExecuteFill(hw: Descriptor, m: Machine)
    requires hw.dstAddr + hw.xferSize <= |m.mem|
    modifies m`mem, m`comp
    ensures PossibleUpwards(m.comp, m.mapped, hw.dstAddr, hw.xferSize, true)
    ensures StatVal(m.comp.status) == COMP_SUCCESS ==> m.comp.bytesCompleted == hw.xferSize
    ensures m.mem == Filled(old(m.mem), hw.dstAddr, m.comp.bytesCompleted, hw.pattern)
  {
    var c: Completion := *;
    if !PossibleUpwards(c, m.mapped, hw.dstAddr, hw.xferSize, true)
       || (StatVal(c.status) == COMP_SUCCESS && c.bytesCompleted != hw.xferSize) {
      c := NOT_COMPLETED;
    }
    m.comp := c;
    m.mem := Filled(m.mem, hw.dstAddr, c.bytesCompleted, hw.pattern);
  }

  method ReprepMemfill(hw: Descriptor, m: Machine)
    requires m.comp.bytesCompleted <= hw.xferSize && m.comp.faultAddr < |m.mem|
    modifies hw`xferSize, hw`dstAddr, m
    ensures hw.xferSize == old(hw.xferSize) - old(m.comp).bytesCompleted
    ensures hw.dstAddr == old(hw.dstAddr) + old(m.comp).bytesCompleted
    ensures m.comp == old(m.comp).(status := 0)
    ensures m.mapped == old(m.mapped) + {old(m.comp).faultAddr / PAGE_SIZE}
    ensures |m.mem| == |old(m.mem)|
    ensures forall a | 0 <= a < |m.mem| && a != old(m.comp).faultAddr :: m.mem[a] == old(m.mem[a])
  {
    hw.xferSize := hw.xferSize - m.comp.bytesCompleted;
    hw.dstAddr := hw.dstAddr + m.comp.bytesCompleted;
    m.ResolvePageFault(m.comp.faultAddr, m.comp.status);
    m.comp := m.comp.(status := 0);
  }

  /** Every run ends as a fill restarted at its resumption offsets, and so as the uninterrupted fill
      exactly when those are in step. */
  method RunMemfill(hw: Descriptor, m: Machine, ghost job: FillJob)
    returns (rc: Status, ghost cuts: seq<nat>, ghost retried: seq<nat>)
    requires job == FillJob(m.mem, hw.dstAddr, hw.xferSize, hw.pattern)
    requires job.dst + job.size <= |job.mem|
    modifies hw`xferSize, hw`dstAddr, m
    ensures rc == Timeout <==> m.comp.status == 0
    ensures AreCuts(cuts, job.size) && |cuts| <= |Pages(job.dst, job.size) - old(m.mapped)|
    ensures rc == Ok && m.comp.status % 64 == 3 ==> hw.blockOnFault
    ensures |retried| == |cuts| && forall status | status in retried :: status % 64 == 3 && !hw.blockOnFault
    ensures StatVal(m.comp.status) == COMP_SUCCESS ==>
      && m.mem == InterruptedFill(job, cuts)
      && (m.mem == Filled(job.mem, job.dst, job.size, job.pattern) <==> InStep(job.pattern, cuts, job.size))
  {
    hide PatternByte, Filled, InterruptedFill, FilledTo, PossibleUpwards, Pages, InRegion, IsWriteFault, AreCuts,
      InStep, RetriesFault;
    ghost var pages := Pages(job.dst, job.size);
    cuts, retried := [], [];
    RetriesMeans(hw.blockOnFault);
    FilledAtFirst(job);
    NoCuts(job.size);
    while true
      invariant hw.pattern == job.pattern
      invariant job.dst <= hw.dstAddr && hw.dstAddr + hw.xferSize == job.dst + job.size <= |m.mem|
      invariant FilledTo(job, cuts, m.mem, hw.dstAddr, hw.xferSize)
      invariant AreCuts(cuts, job.size) && (cuts != [] ==> job.dst + cuts[|cuts| - 1] == hw.dstAddr)
      invariant |cuts| + |pages - m.mapped| <= |pages - old(m.mapped)|
      invariant |retried| == |cuts| && forall status | status in retried :: status % 64 == 3 && !hw.blockOnFault
      decreases |pages - m.mapped|
    {
      ghost var now, d, left := m.mem, hw.dstAddr, hw.xferSize;
      ExecuteFill(hw, m);
      ghost var c := m.comp;
      CompletedBounds(c, m.mapped, d, left, true);
      if m.comp.status == 0 {
        rc := Timeout;
        return;
      }
      if RetriesFault(m.comp.status, hw.blockOnFault) {
        PagesOfRest(job.dst, job.size, d, left);
        FaultBounds(c, m.mapped, d, left, true, hw.blockOnFault, pages);
        FewerUnmapped(pages, m.mapped, c.faultAddr / PAGE_SIZE);
        RegionBounds(c.faultAddr, d + c.bytesCompleted, left - c.bytesCompleted);
        ReprepMemfill(hw, m);
        FilledNext(job, cuts, now, m.mem, d, left, c.bytesCompleted, c.faultAddr);
        CutsNext(cuts, job.size, d + c.bytesCompleted - job.dst);
        cuts, retried := cuts + [d + c.bytesCompleted - job.dst], retried + [c.status];
      } else {
        if StatVal(m.comp.status) == COMP_SUCCESS {
          FilledAtEnd(job, cuts, now, d, left);
          ResumedFill(job, cuts);
        }
        rc := Ok;
        return;
      }
    }
  }

  lemma NoCuts(size: nat)
    ensures AreCuts([], size)
  {}

  lemma RegionBounds(a: nat, addr: nat, size: nat)
    requires InRegion(a, addr, size)
    ensures addr <= a < addr + size
  {}

  lemma CompletedBounds(c: Completion, mapped: set<nat>, addr: nat, size: nat, writes: bool)
    requires PossibleUpwards(c, mapped, addr, size, writes)
    ensures c.bytesCompleted <= size
    ensures StatVal(c.status) == 0 ==> c.status == 0
  {}

  // ---------- Compare with a pattern ----------

  /** The first `size` bytes from src hold the pattern. */
  ghost predicate Matches(mem: seq<Byte>, src: nat, size: nat, pattern: Word64) {
    && src + size <= |mem|
    && forall a: nat {:trigger mem[a]} | src <= a < src + size :: mem[a] == PatternByte(pattern, a - src)
  }

  /** The verdict of a compare that was resumed at the given offsets. */
  ghost predicate InterruptedMatch(mem: seq<Byte>, src: nat, size: nat, pattern: Word64, cuts: seq<nat>) {
    && src + size <= |mem|
    && forall a: nat {:trigger mem[a]} | src <= a < src + size :: mem[a] == RestartedByte(pattern, cuts, a - src)
  }

  /** The pattern itself, from the low end of a buffer. */
  function Repeated(pattern: Word64, size: nat): (r: seq<Byte>)
    ensures |r| == size && forall a {:trigger r[a]} | 0 <= a < size :: r[a] == PatternByte(pattern, a)
  {
    seq(size, a requires 0 <= a < size => PatternByte(pattern, a))
  }

  /** An interrupted compare gives the verdict of the uninterrupted one on every buffer exactly when its
      resumptions are in step; otherwise it rejects the pattern itself. */
  lemma InterruptedCompare(pattern: Word64, size: nat, cuts: seq<nat>)
    ensures
      (forall mem: seq<Byte>, src: nat | src + size <= |mem| ::
        InterruptedMatch(mem, src, size, pattern, cuts) <==> Matches(mem, src, size, pattern))
      <==> InStep(pattern, cuts, size)
  {
    hide PatternByte, RestartedByte;
    if InStep(pattern, cuts, size) {
      forall mem: seq<Byte>, src: nat | src + size <= |mem|
        ensures InterruptedMatch(mem, src, size, pattern, cuts) <==> Matches(mem, src, size, pattern)
      {
        SameVerdict(mem, src, size, pattern, cuts);
      }
    } else {
      var x: nat :| x < size && RestartedByte(pattern, cuts, x) != PatternByte(pattern, x);
      var mem := Repeated(pattern, size);
      assert mem[x] == PatternByte(pattern, x);
      assert Matches(mem, 0, size, pattern) && !InterruptedMatch(mem, 0, size, pattern, cuts);
    }
  }

  lemma SameVerdict(mem: seq<Byte>, src: nat, size: nat, pattern: Word64, cuts: seq<nat>)
    requires InStep(pattern, cuts, size)
    ensures InterruptedMatch(mem, src, size, pattern, cuts) <==> Matches(mem, src, size, pattern)
  {
    hide PatternByte, RestartedByte;
  }

  /** The bytes from the last resumption on are compared with the pattern from its first byte. */
  lemma LastPart(mem: seq<Byte>, src: nat, size: nat, pattern: Word64, cuts: seq<nat>, at: nat)
    requires at <= size && src + size <= |mem| && at == if cuts == [] then 0 else cuts[|cuts| - 1]
    ensures InterruptedMatch(mem, src, size, pattern, cuts)
       <==> InterruptedMatch(mem, src, at, pattern, cuts) && Matches(mem, src + at, size - at, pattern)
  {
    hide PatternByte;
    forall x: nat | at <= x < size
      ensures RestartedByte(pattern, cuts, x) == PatternByte(pattern, x - at)
    {
      LastCutNow(cuts, x);
    }
    hide RestartedByte;
    if InterruptedMatch(mem, src, size, pattern, cuts) {
      assert Matches(mem, src + at, size - at, pattern);
    }
  }

  lemma FirstPart(mem: seq<Byte>, src: nat, pattern: Word64, cuts: seq<nat>, cut: nat)
    ensures InterruptedMatch(mem, src, cut, pattern, cuts + [cut]) <==> InterruptedMatch(mem, src, cut, pattern, cuts)
  {
    hide PatternByte;
    forall x: nat | x < cut
      ensures RestartedByte(pattern, cuts + [cut], x) == RestartedByte(pattern, cuts, x)
    {
      LastCutNext(cuts, cut, x);
    }
    hide RestartedByte;
  }

  lemma TwoParts(mem: seq<Byte>, src: nat, size: nat, pattern: Word64, done: nat)
    requires done <= size && src + size <= |mem|
    ensures InterruptedMatch(mem, src, size, pattern, [done])
       <==> Matches(mem, src, done, pattern) && Matches(mem, src + done, size - done, pattern)
  {
    LastPart(mem, src, size, pattern, [done], done);
    FirstPart(mem, src, pattern, [], done);
    assert [] + [done] == [done];
    LastPart(mem, src, done, pattern, [], 0);
    NothingCompared(mem, src, pattern, []);
    hide InterruptedMatch, Matches;
  }

  /** Comparing a first part and then the rest from the first pattern byte on is, for every buffer, comparing
      the whole exactly when the pattern agrees with itself shifted by the length of the first part. */
  lemma ResumedCompare(pattern: Word64, size: nat, done: nat)
    requires done <= size
    ensures
      (forall mem: seq<Byte>, src: nat | src + size <= |mem| ::
        Matches(mem, src, size, pattern)
        <==> (Matches(mem, src, done, pattern) && Matches(mem, src + done, size - done, pattern)))
      <==> (forall k: nat | k < size - done :: PatternByte(pattern, k) == PatternByte(pattern, done + k))
  {
    hide PatternByte, InStep, InterruptedMatch, Matches;
    OneCutInStep(pattern, size, done);
    InterruptedCompare(pattern, size, [done]);
    forall mem: seq<Byte>, src: nat | src + size <= |mem|
      ensures InterruptedMatch(mem, src, size, pattern, [done])
         <==> Matches(mem, src, done, pattern) && Matches(mem, src + done, size - done, pattern)
    {
      TwoParts(mem, src, size, pattern, done);
    }
  }

  lemma NothingCompared(mem: seq<Byte>, src: nat, pattern: Word64, cuts: seq<nat>)
    requires src <= |mem|
    ensures InterruptedMatch(mem, src, 0, pattern, cuts)
  {}

  /** The device compares from the low end: it succeeds with the verdict on all its bytes, or
      faults after a stretch of bytes that all match. */
  method ExecuteCompval(hw: Descriptor, m: Machine)
    requires hw.srcAddr + hw.xferSize <= |m.mem|
    modifies m`comp
    ensures PossibleUpwards(m.comp, m.mapped, hw.srcAddr, hw.xferSize, false)
    ensures StatVal(m.comp.status) == COMP_SUCCESS ==>
      (m.comp.result == 0 <==> Matches(m.mem, hw.srcAddr, hw.xferSize, hw.pattern))
    ensures StatVal(m.comp.status) == COMP_PAGE_FAULT_NOBOF ==>
      Matches(m.mem, hw.srcAddr, m.comp.bytesCompleted, hw.pattern)
  {
    hide PatternByte;
    var c: Completion := *;
    var matching := 0;
    while matching < hw.xferSize && m.mem[hw.srcAddr + matching] == PatternByte(hw.pattern, matching)
      invariant matching <= hw.xferSize
      invariant Matches(m.mem, hw.srcAddr, matching, hw.pattern)
    {
      matching := matching + 1;
    }
    if !PossibleUpwards(c, m.mapped, hw.srcAddr, hw.xferSize, false)
       || (StatVal(c.status) == COMP_SUCCESS && (c.result == 0) != (matching == hw.xferSize))
       || (StatVal(c.status) == COMP_PAGE_FAULT_NOBOF && c.bytesCompleted > matching) {
      c := NOT_COMPLETED;
    }
    m.comp := c;
    assert matching < hw.xferSize ==>
      m.mem[hw.srcAddr + matching] != PatternByte(hw.pattern, hw.srcAddr + matching - hw.srcAddr);
  }

  method ReprepCompval(hw: Descriptor, m: Machine)
    requires m.comp.bytesCompleted <= hw.xferSize && m.comp.faultAddr < |m.mem|
    requires !IsWriteFault(m.comp.status)
    modifies hw`xferSize, hw`srcAddr, m
    ensures hw.xferSize == old(hw.xferSize) - old(m.comp).bytesCompleted
    ensures hw.srcAddr == old(hw.srcAddr) + old(m.comp).bytesCompleted
    ensures m.comp == old(m.comp).(status := 0)
    ensures m.mapped == old(m.mapped) + {old(m.comp).faultAddr / PAGE_SIZE}
    ensures m.mem == old(m.mem)
  {
    hw.xferSize := hw.xferSize - m.comp.bytesCompleted;
    hw.srcAddr := hw.srcAddr + m.comp.bytesCompleted;
    m.ResolvePageFault(m.comp.faultAddr, m.comp.status);
    m.comp := m.comp.(status := 0);
  }

  /** Every run ends with the verdict of a compare restarted at its resumption offsets, which is that of the
      uninterrupted compare when those are in step; reads leave memory as it was. */
  method RunCompval(hw: Descriptor, m: Machine)
    returns (rc: Status, ghost cuts: seq<nat>, ghost retried: seq<nat>)
    requires hw.srcAddr + hw.xferSize <= |m.mem|
    modifies hw`xferSize, hw`srcAddr, m
    ensures rc == Timeout <==> m.comp.status == 0
    ensures AreCuts(cuts, old(hw.xferSize))
    ensures |cuts| <= |Pages(old(hw.srcAddr), old(hw.xferSize)) - old(m.mapped)|
    ensures rc == Ok && m.comp.status % 64 == 3 ==> hw.blockOnFault
    ensures |retried| == |cuts| && forall status | status in retried :: status % 64 == 3 && !hw.blockOnFault
    ensures m.mem == old(m.mem)
    ensures StatVal(m.comp.status) == COMP_SUCCESS ==>
      (m.comp.result == 0 <==> InterruptedMatch(m.mem, old(hw.srcAddr), old(hw.xferSize), hw.pattern, cuts))
    ensures StatVal(m.comp.status) == COMP_SUCCESS && InStep(hw.pattern, cuts, old(hw.xferSize)) ==>
      (m.comp.result == 0 <==> Matches(m.mem, old(hw.srcAddr), old(hw.xferSize), hw.pattern))
  {
    hide PatternByte, PossibleUpwards, Pages, InRegion, IsWriteFault, Matches, InterruptedMatch, AreCuts, InStep,
      RetriesFault;
    ghost var src, size, pattern := hw.srcAddr, hw.xferSize, hw.pattern;
    ghost var pages := Pages(src, size);
    cuts, retried := [], [];
    RetriesMeans(hw.blockOnFault);
    NoCuts(size);
    NothingCompared(m.mem, src, pattern, []);
    while true
      invariant hw.pattern == pattern && m.mem == old(m.mem)
      invariant src <= hw.srcAddr && hw.srcAddr + hw.xferSize == src + size
      invariant AreCuts(cuts, size) && hw.srcAddr - src == (if cuts == [] then 0 else cuts[|cuts| - 1])
      invariant InterruptedMatch(m.mem, src, hw.srcAddr - src, pattern, cuts)
      invariant |cuts| + |pages - m.mapped| <= |pages - old(m.mapped)|
      invariant |retried| == |cuts| && forall status | status in retried :: status % 64 == 3 && !hw.blockOnFault
      decreases |pages - m.mapped|
    {
      ExecuteCompval(hw, m);
      ghost var c, s, left := m.comp, hw.srcAddr, hw.xferSize;
      CompletedBounds(c, m.mapped, s, left, false);
      if m.comp.status == 0 {
        rc := Timeout;
        return;
      }
      if RetriesFault(m.comp.status, hw.blockOnFault) {
        PagesOfRest(src, size, s, left);
        FaultBounds(c, m.mapped, s, left, false, hw.blockOnFault, pages);
        FewerUnmapped(pages, m.mapped, c.faultAddr / PAGE_SIZE);
        RegionBounds(c.faultAddr, s + c.bytesCompleted, left - c.bytesCompleted);
        ReprepCompval(hw, m);
        ghost var cut := s + c.bytesCompleted - src;
        LastPart(m.mem, src, cut, pattern, cuts, s - src);
        FirstPart(m.mem, src, pattern, cuts, cut);
        CutsNext(cuts, size, cut);
        cuts, retried := cuts + [cut], retried + [c.status];
      } else {
        LastPart(m.mem, src, size, pattern, cuts, s - src);
        if InStep(pattern, cuts, size) {
          SameVerdict(m.mem, src, size, pattern, cuts);
        }
        rc := Ok;
        return;
      }
    }
  }
}
