/** DIF inserts interrupted by page faults and resubmitted: `dsa_reprep_dif` of test/dsa_prep.c for
    the insert opcode, under the wait loop of test/dsa.c. */
module DifInsert {
  import opened Bits
  import opened Device
  import opened Dif
  import opened DifCheck

  /** Outcomes of an insert: whole blocks are completed from the low end, the completion names the
      tags of the next block, and a fault names an unmapped page among the bytes still to be read
      or written. */
  predicate Possible(c: Completion, nextApp: Word16, nextRef: nat, idx: nat, s: nat, d: nat, left: nat,
                     app: Word16, ref: nat, mapped: set<nat>)
    requires idx < 4
  {
    var done := c.bytesCompleted;
    && done <= left && Whole(done, idx)
    && nextRef == ref + BlocksIn(done, idx) && nextApp == app
    && (StatVal(c.status) == COMP_SUCCESS ==> done == left)
    && (StatVal(c.status) == 0 ==> c.status == 0)
    && (StatVal(c.status) == COMP_PAGE_FAULT_NOBOF ==>
        && c.faultAddr / PAGE_SIZE !in mapped
        && if IsWriteFault(c.status)
           then InRegion(c.faultAddr, d + done + 8 * BlocksIn(done, idx), left - done + 8 * BlocksIn(left - done, idx))
           else InRegion(c.faultAddr, s + done, left - done))
  }

  class InsertTask {
    const m: Machine
    const idx: nat
    const blockOnFault: bool
    var srcAddr: nat
    var dstAddr: nat
    var xferSize: nat
    var insRefTag: nat
    var insAppTag: Word16
    var compRefTag: nat
    var compAppTag: Word16

    constructor (m: Machine, idx: nat, blockOnFault: bool, src: nat, dst: nat, size: nat, ref: nat, app: Word16)
      ensures this.m == m && this.idx == idx && this.blockOnFault == blockOnFault
      ensures srcAddr == src && dstAddr == dst && xferSize == size && insRefTag == ref && insAppTag == app
    {
      this.m, this.idx, this.blockOnFault := m, idx, blockOnFault;
      srcAddr, dstAddr, xferSize := src, dst, size;
      insRefTag, insAppTag, compRefTag, compAppTag := ref, app, ref, app;
    }

    /** The device. */
    method Execute()
      requires idx < 4 && Whole(xferSize, idx)
      requires srcAddr + xferSize <= |m.mem| && dstAddr + xferSize + 8 * BlocksIn(xferSize, idx) <= |m.mem|
      modifies m`mem, m`comp, `compRefTag, `compAppTag
      ensures Possible(m.comp, compAppTag, compRefTag, idx, srcAddr, dstAddr, xferSize, insAppTag, insRefTag, m.mapped)
      ensures m.mem == Splice(old(m.mem), dstAddr,
        Insert(old(m.mem)[srcAddr..srcAddr + m.comp.bytesCompleted], BlockSize(idx), insAppTag, insRefTag))
    {
      hide Insert;
      var c: Completion := *;
      var ref: nat := *;
      if !Possible(c, insAppTag, ref, idx, srcAddr, dstAddr, xferSize, insAppTag, insRefTag, m.mapped) {
        c, ref := NOT_COMPLETED, insRefTag;
      }
      m.comp, compRefTag, compAppTag := c, ref, insAppTag;
      m.mem := Splice(m.mem, dstAddr,
        Insert(m.mem[srcAddr..srcAddr + c.bytesCompleted], BlockSize(idx), insAppTag, insRefTag));
    }

    method Reprep()
      requires idx < 4
      requires m.comp.bytesCompleted <= xferSize && m.comp.faultAddr < |m.mem|
      modifies `srcAddr, `dstAddr, `xferSize, `insRefTag, `insAppTag, m
      ensures var done := old(m.comp).bytesCompleted;
        && srcAddr == old(srcAddr) + done && xferSize == old(xferSize) - done
        && dstAddr == old(dstAddr) + done + 8 * BlocksIn(done, idx)
      ensures insRefTag == compRefTag && insAppTag == compAppTag
      ensures m.comp == old(m.comp).(status := 0)
      ensures m.mapped == old(m.mapped) + {old(m.comp).faultAddr / PAGE_SIZE}
      ensures |m.mem| == |old(m.mem)|
      ensures forall a | 0 <= a < |m.mem| && (a != old(m.comp).faultAddr || !IsWriteFault(old(m.comp).status)) ::
        m.mem[a] == old(m.mem[a])
    {
      srcAddr := srcAddr + m.comp.bytesCompleted;
      insRefTag := compRefTag;
      var blksCompleted := BlocksIn(m.comp.bytesCompleted, idx);
      xferSize := xferSize - m.comp.bytesCompleted;
      dstAddr := dstAddr + m.comp.bytesCompleted + 8 * blksCompleted;
      insAppTag := compAppTag;
      m.ResolvePageFault(m.comp.faultAddr, m.comp.status);
      m.comp := m.comp.(status := 0);
    }

    /** In every run the destination offset is the source offset plus eight bytes for each block
        done and the reference tag has advanced by the blocks done; on success the destination is
        the uninterrupted insert, and no byte outside it has changed. */
    method Run(ghost job: InsertJob) returns (rc: Status, ghost retried: seq<nat>)
      requires job == InsertJob(idx, m.mem, srcAddr, dstAddr, xferSize, insAppTag, insRefTag) && job.Valid()
      modifies this, m
      ensures rc == Timeout <==> m.comp.status == 0
      ensures |retried| <= |Pages(job.src, job.size) + Pages(job.dst, job.DstSize()) - old(m.mapped)|
      ensures rc == Ok && m.comp.status % 64 == 3 ==> blockOnFault
      ensures forall status | status in retried :: status % 64 == 3 && !blockOnFault
      ensures job.src <= srcAddr <= job.src + job.size && Whole(srcAddr - job.src, idx)
      ensures dstAddr - job.dst == (srcAddr - job.src) + 8 * BlocksIn(srcAddr - job.src, idx)
      ensures insRefTag == job.ref + BlocksIn(srcAddr - job.src, idx)
      ensures StatVal(m.comp.status) == COMP_SUCCESS ==>
        && m.mem == Splice(job.mem, job.dst,
             Insert(job.mem[job.src..job.src + job.size], BlockSize(idx), job.app, job.ref))
        && TagsInPlace(job, m.mem)
    {
      hide Insert, Pages, Inserted, InRegion, IsWriteFault, Splice, BlockSize, Whole, BlocksIn, Possible,
        TagsInPlace;
      ghost var pages := Pages(job.src, job.size) + Pages(job.dst, job.DstSize());
      retried := [];
      InsertedAtFirst(job);
      while true
        invariant Inserted(job, m.mem, srcAddr, dstAddr, xferSize, insAppTag, insRefTag)
        invariant forall status | status in retried :: status % 64 == 3 && !blockOnFault
        invariant |retried| + |pages - m.mapped| <= |pages - old(m.mapped)|
        decreases |pages - m.mapped|
      {
        ghost var now, s, d, left, app, ref := m.mem, srcAddr, dstAddr, xferSize, insAppTag, insRefTag;
        InsertedBounds(job, now, s, d, left, app, ref);
        Execute();
        ghost var c, done := m.comp, m.comp.bytesCompleted;
        PossibleBounds(c, compAppTag, compRefTag, idx, s, d, left, app, ref, m.mapped);
        InsertedNext(job, now, s, d, left, app, ref, done);
        if m.comp.status == 0 {
          return Timeout, retried;
        }
        if StatVal(m.comp.status) == COMP_PAGE_FAULT_NOBOF && !blockOnFault {
          ghost var before := m.mem;
          InsertFault(job, now, s, d, left, app, ref, c, compAppTag, compRefTag, m.mapped);
          FewerUnmapped(pages, m.mapped, c.faultAddr / PAGE_SIZE);
          Reprep();
          DisturbedInserted(job, before, m.mem, srcAddr, dstAddr, xferSize, insAppTag, insRefTag,
                            c.faultAddr, IsWriteFault(c.status));
          retried := retried + [c.status];
        } else {
          if StatVal(m.comp.status) == COMP_SUCCESS {
            InsertedAtEnd(job, m.mem, s + done, d + done + 8 * BlocksIn(done, idx), app, compRefTag);
            InsertPutsTags(job, m.mem);
          }
          return Ok, retried;
        }
      }
    }
  }

  lemma PossibleBounds(c: Completion, nextApp: Word16, nextRef: nat, idx: nat, s: nat, d: nat, left: nat,
                       app: Word16, ref: nat, mapped: set<nat>)
    requires idx < 4 && Possible(c, nextApp, nextRef, idx, s, d, left, app, ref, mapped)
    ensures c.bytesCompleted <= left && Whole(c.bytesCompleted, idx)
    ensures nextRef == ref + BlocksIn(c.bytesCompleted, idx) && nextApp == app
    ensures StatVal(c.status) == COMP_SUCCESS ==> c.bytesCompleted == left
    ensures StatVal(c.status) == 0 ==> c.status == 0
  {}

  /** Memory with `data` written over it from `at` on. */
  function Splice(mem: seq<Byte>, at: nat, data: seq<Byte>): (r: seq<Byte>)
    ensures at + |data| <= |mem| ==> |r| == |mem|
    ensures at + |data| <= |mem| ==> forall a {:trigger r[a]} | 0 <= a < |mem| ::
      r[a] == if InRegion(a, at, |data|) then data[a - at] else mem[a]
  {
    if at + |data| <= |mem| then mem[..at] + data + mem[at + |data|..] else mem
  }

  datatype InsertJob = InsertJob(idx: nat, mem: seq<Byte>, src: nat, dst: nat, size: nat, app: Word16, ref: nat) {
    function DstSize(): nat
      requires idx < 4
    {
      size + 8 * BlocksIn(size, idx)
    }

    predicate Valid() {
      && idx < 4 && Whole(size, idx)
      && src + size <= |mem| && dst + DstSize() <= |mem|
      && (src + size <= dst || dst + DstSize() <= src)
    }
  }

  /** The descriptor covers exactly the blocks not yet inserted. */
  ghost predicate Inserted(job: InsertJob, now: seq<Byte>, s: nat, d: nat, left: nat, app: Word16, ref: nat) {
    && job.Valid() && |now| == |job.mem|
    && job.src <= s && s + left == job.src + job.size
    && var done := s - job.src; var blk := BlockSize(job.idx);
    && Whole(done, job.idx) && d == job.dst + done + 8 * BlocksIn(done, job.idx)
    && ref == job.ref + BlocksIn(done, job.idx) && app == job.app
    && d <= job.dst + job.DstSize()
    && now[job.dst..d] == Insert(job.mem[job.src..s], blk, job.app, job.ref)
    && (forall a: nat {:trigger now[a]} | a < |now| && !InRegion(a, job.dst, job.DstSize()) :: now[a] == job.mem[a])
  }

  lemma InsertedAtFirst(job: InsertJob)
    requires job.Valid()
    ensures Inserted(job, job.mem, job.src, job.dst, job.size, job.app, job.ref)
  {}

  lemma InsertedBounds(job: InsertJob, now: seq<Byte>, s: nat, d: nat, left: nat, app: Word16, ref: nat)
    requires Inserted(job, now, s, d, left, app, ref)
    ensures Whole(left, job.idx) && |now| == |job.mem|
    ensures s + left == job.src + job.size <= |now|
      && d + left + 8 * BlocksIn(left, job.idx) == job.dst + job.DstSize() <= |now|
    ensures job.src <= s <= job.src + job.size && Whole(s - job.src, job.idx)
    ensures d - job.dst == (s - job.src) + 8 * BlocksIn(s - job.src, job.idx)
    ensures ref == job.ref + BlocksIn(s - job.src, job.idx)
  {
    hide Insert, Whole, BlocksIn, BlockSize;
    WholeAdd(s - job.src, left, job.idx);
  }

  lemma InsertedNext(job: InsertJob, now: seq<Byte>, s: nat, d: nat, left: nat, app: Word16, ref: nat, done: nat)
    requires Inserted(job, now, s, d, left, app, ref)
    requires done <= left && Whole(done, job.idx) && s + left <= |now|
    ensures var blk := BlockSize(job.idx);
      && Inserted(job, Splice(now, d, Insert(now[s..s + done], blk, app, ref)),
               s + done, d + done + 8 * BlocksIn(done, job.idx), left - done, app, ref + BlocksIn(done, job.idx))
      && |Splice(now, d, Insert(now[s..s + done], blk, app, ref))| == |now|
  {
    hide Insert, Splice, Whole, BlocksIn, BlockSize;
    var blk := BlockSize(job.idx);
    var data := Insert(now[s..s + done], blk, app, ref);
    InsertedBounds(job, now, s, d, left, app, ref);
    WholeAdd(s - job.src, done, job.idx);
    WholeAdd(done, left - done, job.idx);
    InsertLength(now[s..s + done], job.idx, app, ref);
    assert d + |data| <= job.dst + job.DstSize();
    SourceUntouched(job, now, s, d, left, app, ref, done);
    JoinSlices(job.mem, job.src, s, s + done);
    InsertResumes(job.mem[job.src..s], job.mem[s..s + done], job.idx, job.app, job.ref);
    SpliceExtends(now, job.dst, d, data);
  }

  lemma SourceUntouched(job: InsertJob, now: seq<Byte>, s: nat, d: nat, left: nat, app: Word16, ref: nat, done: nat)
    requires Inserted(job, now, s, d, left, app, ref) && done <= left && s + left <= |now|
    ensures now[s..s + done] == job.mem[s..s + done]
  {
    hide Insert, Whole, BlocksIn, BlockSize;
    assert job.src <= s && s + done <= job.src + job.size;
    forall a: nat | s <= a < s + done ensures now[a] == job.mem[a] {
      assert !InRegion(a, job.dst, job.DstSize());
    }
  }

  lemma JoinSlices(mem: seq<Byte>, a: nat, b: nat, c: nat)
    requires a <= b <= c <= |mem|
    ensures mem[a..b] + mem[b..c] == mem[a..c]
  {}

  lemma SpliceExtends(mem: seq<Byte>, from: nat, at: nat, data: seq<Byte>)
    requires from <= at && at + |data| <= |mem|
    ensures Splice(mem, at, data)[from..at + |data|] == mem[from..at] + data
  {
    hide Splice;
    var after := Splice(mem, at, data);
    forall k | 0 <= k < at + |data| - from
      ensures after[from..at + |data|][k] == (mem[from..at] + data)[k]
    {
      assert after[from + k] == if from + k < at then mem[from + k] else data[from + k - at];
    }
  }

  lemma InsertFault(job: InsertJob, now: seq<Byte>, s: nat, d: nat, left: nat, app: Word16, ref: nat,
                    c: Completion, nextApp: Word16, nextRef: nat, mapped: set<nat>)
    requires Inserted(job, now, s, d, left, app, ref)
    requires Possible(c, nextApp, nextRef, job.idx, s, d, left, app, ref, mapped)
    requires StatVal(c.status) == COMP_PAGE_FAULT_NOBOF
    ensures c.faultAddr < |now|
    ensures c.faultAddr / PAGE_SIZE in Pages(job.src, job.size) + Pages(job.dst, job.DstSize()) - mapped
    ensures var next := d + c.bytesCompleted + 8 * BlocksIn(c.bytesCompleted, job.idx);
      IsWriteFault(c.status) ==>
        next <= job.dst + job.DstSize() && InRegion(c.faultAddr, next, job.dst + job.DstSize() - next)
  {
    hide Whole, BlocksIn, BlockSize, Insert, Pages;
    InsertedBounds(job, now, s, d, left, app, ref);
    PossibleBounds(c, nextApp, nextRef, job.idx, s, d, left, app, ref, mapped);
    WholeAdd(c.bytesCompleted, left - c.bytesCompleted, job.idx);
    if IsWriteFault(c.status) {
      PageOfRegion(c.faultAddr, job.dst, job.DstSize());
    } else {
      PageOfRegion(c.faultAddr, job.src, job.size);
    }
  }

  lemma DisturbedInserted(job: InsertJob, before: seq<Byte>, after: seq<Byte>, s: nat, d: nat, left: nat, app: Word16,
      ref: nat, addr: nat, write: bool)
    requires Inserted(job, before, s, d, left, app, ref)
    requires |after| == |before|
    requires forall a | 0 <= a < |before| && (a != addr || !write) :: after[a] == before[a]
    requires write ==> d <= job.dst + job.DstSize() && InRegion(addr, d, job.dst + job.DstSize() - d)
    ensures Inserted(job, after, s, d, left, app, ref)
  {
    hide Insert, Whole, BlocksIn, BlockSize;
    assert after[job.dst..d] == before[job.dst..d];
  }

  lemma InsertedAtEnd(job: InsertJob, now: seq<Byte>, s: nat, d: nat, app: Word16, ref: nat)
    requires Inserted(job, now, s, d, 0, app, ref)
    ensures now == Splice(job.mem, job.dst,
      Insert(job.mem[job.src..job.src + job.size], BlockSize(job.idx), job.app, job.ref))
  {
    hide Insert, Splice, Whole, BlocksIn, BlockSize;
    var data := Insert(job.mem[job.src..job.src + job.size], BlockSize(job.idx), job.app, job.ref);
    InsertLength(job.mem[job.src..job.src + job.size], job.idx, job.app, job.ref);
    forall a | 0 <= a < |now|
      ensures now[a] == Splice(job.mem, job.dst, data)[a]
    {
      if InRegion(a, job.dst, |data|) {
        assert now[job.dst..d][a - job.dst] == now[a];
      }
    }
  }

  /** Every block of the destination holds the data of its source block and the tags that belong behind it. */
  ghost predicate TagsInPlace(job: InsertJob, now: seq<Byte>) {
    && job.Valid() && job.dst + job.DstSize() <= |now|
    && BlocksRight(job.mem[job.src..job.src + job.size], now[job.dst..job.dst + job.DstSize()], job.idx, job.app,
         job.ref)
  }

  lemma InsertPutsTags(job: InsertJob, now: seq<Byte>)
    requires job.Valid()
    requires now == Splice(job.mem, job.dst,
      Insert(job.mem[job.src..job.src + job.size], BlockSize(job.idx), job.app, job.ref))
    ensures TagsInPlace(job, now)
  {
    hide Insert, Whole, BlocksIn, BlockSize, BlocksRight, Splice;
    var src := job.mem[job.src..job.src + job.size];
    var data := Insert(src, BlockSize(job.idx), job.app, job.ref);
    InsertLength(src, job.idx, job.app, job.ref);
    assert |data| == job.DstSize();
    forall a | 0 <= a < |data| ensures now[job.dst..job.dst + |data|][a] == data[a] {
      assert now[job.dst + a] == data[a];
    }
    assert now[job.dst..job.dst + |data|] == data;
    InsertMeans(src, data, job.idx, job.app, job.ref);
  }
}
