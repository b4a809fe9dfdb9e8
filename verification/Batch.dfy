/** Batches whose descriptor list faults: `dsa_wait_batch` in test/dsa.c and `dsa_reprep_batch` in
    test/dsa_prep.c. */
module Batch {
  import opened Device

  const DESC_SIZE: nat := 64

  datatype BatchCompletion = BatchCompletion(status: nat, faultAddr: nat, descsCompleted: nat)

  class BatchEngine {
    var descListAddr: nat
    var descCount: nat
    var mapped: set<nat>
    var comp: BatchCompletion
    ghost var executed: seq<nat>

    constructor (descListAddr: nat, descCount: nat, mapped: set<nat>)
      ensures this.descListAddr == descListAddr && this.descCount == descCount && this.mapped == mapped
      ensures executed == []
    {
      this.descListAddr := descListAddr;
      this.descCount := descCount;
      this.mapped := mapped;
      comp := BatchCompletion(0, 0, 0);
      executed := [];
    }

    /** Completed descriptors are the first of the list; a list fault names an unmapped page of
        what is left of it. */
    predicate Possible(c: BatchCompletion)
      reads this
    {
      && c.descsCompleted <= descCount
      && (StatVal(c.status) == COMP_SUCCESS ==> c.descsCompleted == descCount)
      && (StatVal(c.status) == 0 ==> c.status == 0 && c.descsCompleted == 0)
      && (StatVal(c.status) == COMP_BATCH_PAGE_FAULT ==>
          && c.faultAddr / PAGE_SIZE !in mapped
          && InRegion(c.faultAddr, descListAddr + DESC_SIZE * c.descsCompleted,
              DESC_SIZE * (descCount - c.descsCompleted)))
    }

    /** The device executes descriptors from the front of its list. */
    method Execute()
      modifies `comp, `executed
      ensures Possible(comp)
      ensures executed == old(executed) + ListAddrs(descListAddr, comp.descsCompleted)
    {
      var c: BatchCompletion := *;
      if !Possible(c) {
        c := BatchCompletion(0, 0, 0);
      }
      comp := c;
      executed := executed + ListAddrs(descListAddr, c.descsCompleted);
    }

    /** Maps the page of the fault and advances the list past what is completed. */
    method Reprep()
      requires comp.descsCompleted <= descCount
      modifies `descListAddr, `descCount, `mapped, `comp
      ensures descListAddr == old(descListAddr) + DESC_SIZE * old(comp).descsCompleted
      ensures descCount == old(descCount) - old(comp).descsCompleted
      ensures mapped == old(mapped) + {old(comp).faultAddr / PAGE_SIZE}
      ensures comp == old(comp).(status := 0)
    {
      mapped := mapped + {comp.faultAddr / PAGE_SIZE};
      descListAddr := descListAddr + comp.descsCompleted * DESC_SIZE;
      descCount := descCount - comp.descsCompleted;
      comp := comp.(status := 0);
    }

    /** In every run the executed descriptors are a prefix of the list, each once and in order; a
        batch is resubmitted only on a list fault with two descriptors left or more, and one that
        returns on a list fault has at most one left. */
    method Run() returns (rc: Status, ghost retried: seq<(nat, nat)>)
      requires executed == []
      modifies this
      ensures rc == Timeout <==> comp.status == 0
      ensures |executed| <= old(descCount) && executed == ListAddrs(old(descListAddr), |executed|)
      ensures forall i | 0 <= i < |executed| :: executed[i] == old(descListAddr) + 64 * i
      ensures comp.status % 64 == 1 ==> |executed| == old(descCount)
      ensures comp.status % 64 == 6 ==> old(descCount) - |executed| <= 1
      ensures forall r | r in retried :: r.0 % 64 == 6 && r.1 >= 2
      ensures |retried| <= |Pages(old(descListAddr), DESC_SIZE * old(descCount)) - old(mapped)|
    {
      hide Pages;
      ghost var addr, count := descListAddr, descCount;
      ghost var pages := Pages(addr, DESC_SIZE * count);
      retried := [];
      while true
        invariant |executed| + descCount == count
        invariant descListAddr == addr + DESC_SIZE * |executed|
        invariant executed == ListAddrs(addr, |executed|)
        invariant forall r | r in retried :: r.0 % 64 == 6 && r.1 >= 2
        invariant |retried| + |pages - mapped| <= |pages - old(mapped)|
        decreases |pages - mapped|
      {
        ghost var before := |executed|;
        Execute();
        ListAddrsAppend(addr, before, comp.descsCompleted);
        if comp.status == 0 {
          return Timeout, retried;
        }
        if StatVal(comp.status) == COMP_BATCH_PAGE_FAULT {
          if descCount - comp.descsCompleted >= 2 {
            PageOfRegion(comp.faultAddr, addr, DESC_SIZE * count);
            FewerUnmapped(pages, mapped, comp.faultAddr / PAGE_SIZE);
            retried := retried + [(comp.status, descCount - comp.descsCompleted)];
            Reprep();
            continue;
          }
        }
        return Ok, retried;
      }
    }
  }

  /** The addresses of the first n descriptors of a list. */
  function ListAddrs(addr: nat, n: nat): (r: seq<nat>)
    ensures |r| == n && forall i | 0 <= i < n :: r[i] == addr + DESC_SIZE * i
  {
    seq(n, i requires 0 <= i < n => addr + DESC_SIZE * i)
  }

  lemma ListAddrsAppend(addr: nat, m: nat, n: nat)
    ensures ListAddrs(addr, m) + ListAddrs(addr + DESC_SIZE * m, n) == ListAddrs(addr, m + n)
  {}
}
