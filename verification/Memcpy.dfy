/** Memory copies that are interrupted by page faults and resubmitted: `dsa_wait_memcpy` in
    test/dsa.c and `dsa_reprep_memcpy` in test/dsa_prep.c. */
module Memcpy {
  import opened Bits
  import opened Device

  /** Working from this end a copy never writes a byte that it still has to read. */
  predicate Fits(src: nat, dst: nat, size: nat, fromHigh: bool) {
    Disjoint(src, dst, size) || if fromHigh then src <= dst else dst <= src
  }

  /** The outcomes a copy descriptor can have.  A copy may stop anywhere: `done` bytes are moved
      from the low end, or from the high end when `result` is nonzero, whichever fits if the buffers
      overlap.  A fault names an address on an unmapped page among the bytes that are still to be
      read, or to be written. */
  predicate Possible(c: Completion, mapped: set<nat>, src: nat, dst: nat, size: nat) {
    var low := if c.result == 0 then c.bytesCompleted else 0;
    && c.bytesCompleted <= size
    && (0 < c.bytesCompleted < size ==> Fits(src, dst, size, c.result != 0))
    && (StatVal(c.status) == COMP_SUCCESS ==> c.bytesCompleted == size)
    && (StatVal(c.status) == 0 ==> c.status == 0 && c.bytesCompleted == 0)
    && (StatVal(c.status) == COMP_PAGE_FAULT_NOBOF || StatVal(c.status) == COMP_CRA_XLAT ==>
        && c.faultAddr / PAGE_SIZE !in mapped
        && InRegion(c.faultAddr, (if IsWriteFault(c.status) then dst else src) + low, size - c.bytesCompleted))
  }

  /** Memory after `done` of `size` bytes are moved from one end. */
  function Moved(mem: seq<Byte>, src: nat, dst: nat, size: nat, done: nat, fromHigh: bool): (r: seq<Byte>)
    requires done <= size && src + size <= |mem| && dst + size <= |mem|
    ensures |r| == |mem|
    ensures forall a {:trigger r[a]} | 0 <= a < |mem| ::
      r[a] == if InRegion(a, dst + (if fromHigh then size - done else 0), done) then mem[a - dst + src] else mem[a]
  {
    var at := if fromHigh then size - done else 0;
    mem[..dst + at] + mem[src + at..src + at + done] + mem[dst + at + done..]
  }

  /** The device: any possible outcome may happen, including none before the timeout. */
  method Execute(hw: Descriptor, m: Machine)
    requires hw.srcAddr + hw.xferSize <= |m.mem| && hw.dstAddr + hw.xferSize <= |m.mem|
    modifies m`mem, m`comp
    ensures Possible(m.comp, m.mapped, hw.srcAddr, hw.dstAddr, hw.xferSize)
    ensures m.mem == Moved(old(m.mem), hw.srcAddr, hw.dstAddr, hw.xferSize, m.comp.bytesCompleted, m.comp.result != 0)
  {
    var c: Completion := *;
    if !Possible(c, m.mapped, hw.srcAddr, hw.dstAddr, hw.xferSize) {
      c := NOT_COMPLETED;
    }
    m.comp := c;
    m.mem := Moved(m.mem, hw.srcAddr, hw.dstAddr, hw.xferSize, c.bytesCompleted, c.result != 0);
  }

  /** The task a descriptor was first prepared for, and the memory at that time. */
  datatype Job = Job(mem: seq<Byte>, src: nat, dst: nat, size: nat) {
    predicate Valid() {
      src + size <= |mem| && dst + size <= |mem|
    }
  }

  /** The descriptor (s, d, left) covers exactly the bytes not yet moved: every other byte of the
      destination equals its source, the bytes still to be read are as they were, and so is every
      byte outside the destination. */
  ghost predicate Covered(job: Job, now: seq<Byte>, s: nat, d: nat, left: nat) {
    && job.Valid() && |now| == |job.mem|
    && job.src <= s && s - job.src == d - job.dst && s + left <= job.src + job.size
    && (forall a: nat {:trigger now[a]} | InRegion(a, job.dst, job.size) && !InRegion(a, d, left) ::
          now[a] == job.mem[a - job.dst + job.src])
    && (forall a: nat {:trigger now[a]} | InRegion(a, s, left) :: now[a] == job.mem[a])
    && (forall a: nat {:trigger now[a]} | a < |now| && !InRegion(a, job.dst, job.size) :: now[a] == job.mem[a])
  }

  /** A partial copy, rewritten as the source rewrites the descriptor, still covers exactly the rest. */
  lemma MovedIsCovered(job: Job, now: seq<Byte>, s: nat, d: nat, left: nat, done: nat, fromHigh: bool)
    requires Covered(job, now, s, d, left) && done <= left
    requires 0 < done < left ==> Fits(s, d, left, fromHigh)
    ensures var after := Moved(now, s, d, left, done, fromHigh);
      if fromHigh then Covered(job, after, s, d, left - done)
      else Covered(job, after, s + done, d + done, left - done)
  {
    hide Moved;
    var after, step := Moved(now, s, d, left, done, fromHigh), if fromHigh then 0 else done;
    NotYetRead(s, d, left, done, fromHigh);
    forall a: nat {:trigger after[a]} | InRegion(a, s + step, left - done)
      ensures after[a] == job.mem[a]
    {
      assert after[a] == now[a];
    }
    forall a: nat {:trigger after[a]} | InRegion(a, job.dst, job.size) && !InRegion(a, d + step, left - done)
      ensures after[a] == job.mem[a - job.dst + job.src]
    {
      if InRegion(a, d, left) {
        assert after[a] == now[a - d + s];
      } else {
        assert after[a] == now[a];
      }
    }
    forall a: nat {:trigger after[a]} | a < |after| && !InRegion(a, job.dst, job.size)
      ensures after[a] == job.mem[a]
    {
      assert after[a] == now[a];
    }
  }

  /** The bytes written are none of those still to be read. */
  lemma NotYetRead(s: nat, d: nat, left: nat, done: nat, fromHigh: bool)
    requires done <= left && (0 < done < left ==> Fits(s, d, left, fromHigh))
    ensures var unread, written := s + (if fromHigh then 0 else done), d + (if fromHigh then left - done else 0);
      forall a {:trigger InRegion(a, unread, left - done)} | InRegion(a, unread, left - done) ::
        !InRegion(a, written, done)
  {}

  /** Memory with a single byte that is not zero. */
  function Marked(size: nat, at: nat): (mem: seq<Byte>)
    ensures |mem| == size && forall a | 0 <= a < size :: mem[a][0] <==> a == at
  {
    var one: Byte, zero: Byte := Ones(8), Zeros(8);
    seq(size, a => if a == at then one else zero)
  }

  /** The direction matters: a copy that stops part way can be resumed on every memory exactly when it worked from
      the end that fits. */
  lemma DirectionMatters(src: nat, dst: nat, size: nat, done: nat, fromHigh: bool)
    requires 0 < done < size
    ensures (forall job: Job | job.Valid() && job.src == src && job.dst == dst && job.size == size ::
              var step := if fromHigh then 0 else done;
              Covered(job, Moved(job.mem, src, dst, size, done, fromHigh), src + step, dst + step, size - done))
       <==> Fits(src, dst, size, fromHigh)
  {
    hide Moved;
    if Fits(src, dst, size, fromHigh) {
      forall job: Job | job.Valid() && job.src == src && job.dst == dst && job.size == size
        ensures var step := if fromHigh then 0 else done;
          Covered(job, Moved(job.mem, src, dst, size, done, fromHigh), src + step, dst + step, size - done)
      {
        CoveredAtFirst(job);
        MovedIsCovered(job, job.mem, src, dst, size, done, fromHigh);
      }
    } else {
      var _ := ByteLost(src, dst, size, done, fromHigh);
    }
  }

  lemma ByteLost(src: nat, dst: nat, size: nat, done: nat, fromHigh: bool) returns (job: Job)
    requires 0 < done < size && !Fits(src, dst, size, fromHigh)
    ensures job.Valid() && job.src == src && job.dst == dst && job.size == size
    ensures var step := if fromHigh then 0 else done;
      !Covered(job, Moved(job.mem, src, dst, size, done, fromHigh), src + step, dst + step, size - done)
  {
    hide Moved;
    var written, unread := dst + (if fromHigh then size - done else 0), src + (if fromHigh then 0 else done);
    var lost := if written > unread then written else unread;
    job := Job(Marked(src + dst + size, lost), src, dst, size);
    var after := Moved(job.mem, src, dst, size, done, fromHigh);
    assert InRegion(lost, written, done) && InRegion(lost, unread, size - done);
    assert after[lost] == job.mem[lost - dst + src];
    assert !after[lost][0] && job.mem[lost][0];
  }

  /** Resolving a fault keeps the descriptor covering the rest exactly when it complements no
      byte but one that is still to be written and not still to be read. */
  lemma ResolvedIsCovered(job: Job, before: seq<Byte>, after: seq<Byte>, s: nat, d: nat, left: nat, addr: nat,
      write: bool)
    requires Covered(job, before, s, d, left)
    requires |after| == |before| && addr < |before|
    requires forall a | 0 <= a < |before| && (a != addr || !write) :: after[a] == before[a]
    requires write ==> after[addr] == Not(before[addr])
    ensures Covered(job, after, s, d, left) <==> !write || (InRegion(addr, d, left) && !InRegion(addr, s, left))
  {
    if write {
      assert after[addr][0] != before[addr][0];
    }
  }

  /** Memory with the bytes at these addresses complemented. */
  function Spoiled(mem: seq<Byte>, addrs: set<nat>): (r: seq<Byte>)
    ensures |r| == |mem|
    ensures forall a: nat {:trigger r[a]} | a < |mem| :: r[a] == if a in addrs then Not(mem[a]) else mem[a]
  {
    seq(|mem|, a requires 0 <= a < |mem| => if a in addrs then Not(mem[a]) else mem[a])
  }

  /** A job that reads complemented bytes where the resolution of write faults has spoiled them. */
  function SpoiledJob(job: Job, addrs: set<nat>): Job {
    job.(mem := Spoiled(job.mem, addrs))
  }

  /** Complementing a byte that is still to be written, and still to be read, spoils that byte and no other. */
  lemma ResolvedIsSpoiled(job: Job, addrs: set<nat>, before: seq<Byte>, after: seq<Byte>, s: nat, d: nat, left: nat,
      addr: nat)
    requires Covered(SpoiledJob(job, addrs), before, s, d, left) && InRegion(addr, d, left) && InRegion(addr, s, left)
    requires |after| == |before| && addr < |before| && addr !in addrs
    requires forall a | 0 <= a < |before| && a != addr :: after[a] == before[a]
    requires after[addr] == Not(before[addr])
    ensures Covered(SpoiledJob(job, addrs + {addr}), after, s, d, left)
  {
    hide Spoiled;
    var mem, mem' := Spoiled(job.mem, addrs), Spoiled(job.mem, addrs + {addr});
    assert forall a: nat {:trigger mem'[a]} | a < |mem| && a != addr :: mem'[a] == mem[a];
  }

  /** Spoiled bytes belong to both buffers and lie on pages that have been mapped. */
  predicate SpoiledIn(job: Job, addrs: set<nat>, mapped: set<nat>) {
    forall a | a in addrs :: InRegion(a, job.src, job.size) && InRegion(a, job.dst, job.size) && a / PAGE_SIZE in mapped
  }

  /** What one resolved fault does to a run. */
  lemma Resolved(job: Job, addrs: set<nat>, mapped: set<nat>, before: seq<Byte>, after: seq<Byte>,
      s: nat, d: nat, left: nat, addr: nat, write: bool) returns (next: set<nat>)
    requires Covered(SpoiledJob(job, addrs), before, s, d, left) && (write ==> InRegion(addr, d, left))
    requires SpoiledIn(job, addrs, mapped) && addr / PAGE_SIZE !in mapped
    requires |after| == |before| && addr < |before|
    requires forall a | 0 <= a < |before| && (a != addr || !write) :: after[a] == before[a]
    requires write ==> after[addr] == Not(before[addr])
    ensures Covered(SpoiledJob(job, next), after, s, d, left)
    ensures SpoiledIn(job, next, mapped + {addr / PAGE_SIZE}) && |next| <= |addrs| + 1
  {
    SpoiledBounds(job, addrs, before, s, d, left);
    hide Covered, SpoiledJob;
    if write && InRegion(addr, s, left) {
      next := addrs + {addr};
      ResolvedIsSpoiled(job, addrs, before, after, s, d, left, addr);
    } else {
      next := addrs;
      ResolvedIsCovered(SpoiledJob(job, addrs), before, after, s, d, left, addr, write);
    }
  }

  /** The copied bytes are those of the source exactly when none of them was spoiled. */
  lemma SpoiledCopy(job: Job, addrs: set<nat>)
    requires job.src + job.size <= |job.mem| && forall a | a in addrs :: InRegion(a, job.src, job.size)
    ensures Spoiled(job.mem, addrs)[job.src..job.src + job.size] == job.mem[job.src..job.src + job.size]
       <==> addrs == {}
  {
    hide Spoiled;
    var x, y := Spoiled(job.mem, addrs)[job.src..job.src + job.size], job.mem[job.src..job.src + job.size];
    if a :| a in addrs {
      assert Spoiled(job.mem, addrs)[a] == Not(job.mem[a]);
      assert x[a - job.src] == Not(job.mem[a]) && y[a - job.src] == job.mem[a];
      assert Not(job.mem[a])[0] != job.mem[a][0];
    }
  }

  lemma AllCopied(job: Job, now: seq<Byte>, s: nat, d: nat)
    requires Covered(job, now, s, d, 0)
    ensures job.src + job.size <= |now| == |job.mem| && job.dst + job.size <= |now|
    ensures now[job.dst..job.dst + job.size] == job.mem[job.src..job.src + job.size]
  {}

  /** The copy engine's retry condition. */
  predicate Retries(status: nat, blockOnFault: bool) {
    (StatVal(status) == COMP_PAGE_FAULT_NOBOF && !blockOnFault) || StatVal(status) == COMP_CRA_XLAT
  }

  lemma RetriesMeans(blockOnFault: bool)
    ensures forall status: nat ::
      Retries(status, blockOnFault) <==> status % 64 == 0x1A || (status % 64 == 3 && !blockOnFault)
  {}

  function Step(c: Completion): nat {
    if c.result == 0 then c.bytesCompleted else 0
  }

  lemma FaultPlace(job: Job, mem: seq<Byte>, c: Completion, mapped: set<nat>, s: nat, d: nat, left: nat,
      blockOnFault: bool)
    requires Covered(job, mem, s, d, left) && Possible(c, mapped, s, d, left)
    requires Retries(c.status, blockOnFault)
    ensures c.faultAddr < |mem|
    ensures c.faultAddr / PAGE_SIZE in Pages(job.src, job.size) + Pages(job.dst, job.size) - mapped
    ensures IsWriteFault(c.status) ==> InRegion(c.faultAddr, d + Step(c), left - c.bytesCompleted)
  {
    PageOfRegion(c.faultAddr, if IsWriteFault(c.status) then job.dst else job.src, job.size);
  }

  lemma PossibleBounds(c: Completion, mapped: set<nat>, s: nat, d: nat, left: nat)
    requires Possible(c, mapped, s, d, left)
    ensures c.bytesCompleted <= left
    ensures StatVal(c.status) == COMP_SUCCESS ==> c.bytesCompleted == left
    ensures 0 < c.bytesCompleted < left ==> Fits(s, d, left, c.result != 0)
    ensures StatVal(c.status) == 0 ==> c.status == 0
  {}

  method Reprep(hw: Descriptor, m: Machine)
    requires m.comp.bytesCompleted <= hw.xferSize && m.comp.faultAddr < |m.mem|
    modifies hw`xferSize, hw`srcAddr, hw`dstAddr, m`mem, m`mapped, m`comp
    ensures hw.xferSize == old(hw.xferSize) - old(m.comp).bytesCompleted
    ensures hw.srcAddr == old(hw.srcAddr) + Step(old(m.comp)) && hw.dstAddr == old(hw.dstAddr) + Step(old(m.comp))
    ensures m.comp == old(m.comp).(status := 0)
    ensures m.mapped == old(m.mapped) + {old(m.comp).faultAddr / PAGE_SIZE}
    ensures |m.mem| == |old(m.mem)|
    ensures forall a | 0 <= a < |m.mem| && (a != old(m.comp).faultAddr || !IsWriteFault(old(m.comp).status)) ::
      m.mem[a] == old(m.mem[a])
    ensures IsWriteFault(old(m.comp).status) ==> m.mem[m.comp.faultAddr] == Not(old(m.mem[m.comp.faultAddr]))
  {
    hw.xferSize := hw.xferSize - m.comp.bytesCompleted;
    if m.comp.result == 0 {
      hw.srcAddr := hw.srcAddr + m.comp.bytesCompleted;
      hw.dstAddr := hw.dstAddr + m.comp.bytesCompleted;
    }
    m.ResolvePageFault(m.comp.faultAddr, m.comp.status);
    m.comp := m.comp.(status := 0);
  }

  /** Submission and the wait loop.  In every run of faults and resubmissions the descriptor covers exactly the bytes
      not yet moved, except that write faults on bytes still to be read have spoiled these.  Page faults are
      resubmitted exactly when the flag that makes the device block on them is off, and translation failures always;
      there are at most as many resubmissions as unmapped pages under the two buffers.  On success the destination
      holds the source exactly when no byte was spoiled, which is so whenever the buffers do not overlap. */
  method Run(hw: Descriptor, m: Machine, ghost job: Job)
    returns (rc: Status, ghost retried: seq<nat>, ghost moved: nat, ghost s: nat, ghost d: nat, ghost left: nat,
             ghost spoiled: set<nat>)
    requires job == Job(m.mem, hw.srcAddr, hw.dstAddr, hw.xferSize) && job.Valid()
    modifies hw`xferSize, hw`srcAddr, hw`dstAddr, m
    ensures rc == Timeout <==> m.comp.status == 0
    ensures |retried| <= |Pages(job.src, job.size) + Pages(job.dst, job.size) - old(m.mapped)|
    ensures Covered(SpoiledJob(job, spoiled), m.mem, s, d, left) && moved + left == job.size
    ensures s == hw.srcAddr + Step(m.comp) && d == hw.dstAddr + Step(m.comp)
      && left == hw.xferSize - m.comp.bytesCompleted
    ensures |spoiled| <= |retried|
      && forall a | a in spoiled :: InRegion(a, job.src, job.size) && InRegion(a, job.dst, job.size)
    ensures Disjoint(job.src, job.dst, job.size) ==> spoiled == {}
    ensures StatVal(m.comp.status) == COMP_SUCCESS ==>
      && m.mem[job.dst..job.dst + job.size] == Spoiled(job.mem, spoiled)[job.src..job.src + job.size]
      && (m.mem[job.dst..job.dst + job.size] == job.mem[job.src..job.src + job.size] <==> spoiled == {})
    ensures rc == Ok ==> m.comp.status % 64 != 0x1A && (m.comp.status % 64 == 3 ==> hw.blockOnFault)
    ensures forall status | status in retried ::
      status % 64 == 0x1A || (status % 64 == 3 && !hw.blockOnFault)
  {
    hide Moved, Covered, Possible, Pages, InRegion, IsWriteFault, Retries, Step, Spoiled, SpoiledJob, SpoiledIn,
      Disjoint;
    ghost var pages := Pages(job.src, job.size) + Pages(job.dst, job.size);
    retried, moved, spoiled := [], 0, {};
    NothingSpoiled(job);
    while true
      invariant Covered(SpoiledJob(job, spoiled), m.mem, hw.srcAddr, hw.dstAddr, hw.xferSize)
      invariant |retried| + |pages - m.mapped| <= |pages - old(m.mapped)|
      invariant forall status | status in retried :: Retries(status, hw.blockOnFault)
      invariant moved + hw.xferSize == job.size
      invariant |spoiled| <= |retried|
      invariant SpoiledIn(job, spoiled, m.mapped)
      decreases |pages - m.mapped|
    {
      ghost var now, s0, d0, left0 := m.mem, hw.srcAddr, hw.dstAddr, hw.xferSize;
      SpoiledBounds(job, spoiled, now, s0, d0, left0);
      Execute(hw, m);
      ghost var c := m.comp;
      s, d, left := s0 + Step(c), d0 + Step(c), left0 - c.bytesCompleted;
      Progress(job, spoiled, now, m.mem, c, m.mapped, s0, d0, left0, hw.blockOnFault);
      moved := moved + c.bytesCompleted;
      RetriesMeans(hw.blockOnFault);
      if m.comp.status == 0 {
        NoOverlap(job, spoiled, m.mapped);
        rc := Timeout;
        return;
      }
      if Retries(m.comp.status, hw.blockOnFault) {
        FewerUnmapped(pages, m.mapped, c.faultAddr / PAGE_SIZE);
        ghost var before, mapped := m.mem, m.mapped;
        Reprep(hw, m);
        spoiled := Resolved(job, spoiled, mapped, before, m.mem, s, d, left, c.faultAddr, IsWriteFault(c.status));
        retried := retried + [c.status];
      } else {
        NoOverlap(job, spoiled, m.mapped);
        SpoiledCopy(job, spoiled);
        rc := Ok;
        return;
      }
    }
  }

  lemma NothingSpoiled(job: Job)
    requires job.Valid()
    ensures Covered(SpoiledJob(job, {}), job.mem, job.src, job.dst, job.size)
    ensures forall mapped :: SpoiledIn(job, {}, mapped)
  {
    assert Spoiled(job.mem, {}) == job.mem;
    CoveredAtFirst(job);
  }

  lemma NoOverlap(job: Job, addrs: set<nat>, mapped: set<nat>)
    requires SpoiledIn(job, addrs, mapped)
    ensures Disjoint(job.src, job.dst, job.size) ==> addrs == {}
    ensures forall a | a in addrs :: InRegion(a, job.src, job.size) && InRegion(a, job.dst, job.size)
  {}

  lemma SpoiledBounds(job: Job, addrs: set<nat>, now: seq<Byte>, s: nat, d: nat, left: nat)
    requires Covered(SpoiledJob(job, addrs), now, s, d, left)
    ensures |now| == |job.mem| && s + left <= |now| && d + left <= |now|
    ensures job.src <= s && job.dst <= d && s + left <= job.src + job.size && d + left <= job.dst + job.size
  {}

  /** Where a run stands after one execution. */
  lemma Progress(job: Job, addrs: set<nat>, now: seq<Byte>, after: seq<Byte>, c: Completion, mapped: set<nat>,
      s: nat, d: nat, left: nat, blockOnFault: bool)
    requires Covered(SpoiledJob(job, addrs), now, s, d, left)
    requires Possible(c, mapped, s, d, left) && c.bytesCompleted <= left
    requires s + left <= |now| && d + left <= |now|
    requires after == Moved(now, s, d, left, c.bytesCompleted, c.result != 0)
    ensures Covered(SpoiledJob(job, addrs), after, s + Step(c), d + Step(c), left - c.bytesCompleted)
    ensures StatVal(c.status) == 0 ==> c.status == 0
    ensures StatVal(c.status) == COMP_SUCCESS ==>
      && job.src + job.size <= |after| == |job.mem| && job.dst + job.size <= |after|
      && after[job.dst..job.dst + job.size] == Spoiled(job.mem, addrs)[job.src..job.src + job.size]
    ensures Retries(c.status, blockOnFault) ==>
      && c.faultAddr < |after|
      && c.faultAddr / PAGE_SIZE in Pages(job.src, job.size) + Pages(job.dst, job.size) - mapped
      && (IsWriteFault(c.status) ==> InRegion(c.faultAddr, d + Step(c), left - c.bytesCompleted))
  {
    hide Moved, Covered, Possible, Pages, InRegion, IsWriteFault, Retries, Spoiled, Fits;
    var job' := SpoiledJob(job, addrs);
    PossibleBounds(c, mapped, s, d, left);
    MovedIsCovered(job', now, s, d, left, c.bytesCompleted, c.result != 0);
    assert Covered(job', after, s + Step(c), d + Step(c), left - c.bytesCompleted);
    CoveredBounds(job', now, s, d, left);
    if StatVal(c.status) == COMP_SUCCESS {
      AllCopied(job', after, s + Step(c), d + Step(c));
    }
    if Retries(c.status, blockOnFault) {
      FaultPlace(job', now, c, mapped, s, d, left, blockOnFault);
    }
  }

  lemma CoveredAtFirst(job: Job)
    requires job.Valid()
    ensures Covered(job, job.mem, job.src, job.dst, job.size)
  {}

  lemma CoveredBounds(job: Job, now: seq<Byte>, s: nat, d: nat, left: nat)
    requires Covered(job, now, s, d, left)
    ensures |now| == |job.mem| && s + left <= |now| && d + left <= |now|
    ensures job.src <= s && job.dst <= d && s + left <= job.src + job.size && d + left <= job.dst + job.size
  {}
}
