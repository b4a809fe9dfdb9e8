/** The accelerator as the resubmission loops of test/dsa.c see it: a descriptor, a completion
    record, and byte-addressed memory of which some pages are unmapped. */
module Device {
  import opened Bits

  const PAGE_SIZE: nat := 4096
  const COMP_SUCCESS: nat := 1
  const COMP_PAGE_FAULT_NOBOF: nat := 3
  const COMP_BATCH_PAGE_FAULT: nat := 6
  const COMP_CRA_XLAT: nat := 0x1A

  /** The low six bits of a completion status. */
  function StatVal(status: nat): nat {
    status % 64
  }

  /** Bit 7 of a completion status: the fault was on a write. */
  predicate IsWriteFault(status: nat) {
    status / 128 % 2 == 1
  }

  /** A status is its low six bits, a bit 6 that is not used, and the write bit. */
  lemma StatusFields(value: nat, unused: nat, write: bool)
    requires value < 64 && unused < 2
    ensures var status := value + 64 * unused + (if write then 0x80 else 0);
      StatVal(status) == value && (IsWriteFault(status) <==> write)
  {}

  class Descriptor {
    var blockOnFault: bool
    var xferSize: nat
    var srcAddr: nat
    var dstAddr: nat
    var pattern: Word64

    constructor (blockOnFault: bool, xferSize: nat, srcAddr: nat, dstAddr: nat, pattern: Word64)
      ensures this.blockOnFault == blockOnFault && this.xferSize == xferSize
      ensures this.srcAddr == srcAddr && this.dstAddr == dstAddr && this.pattern == pattern
    {
      this.blockOnFault := blockOnFault;
      this.xferSize := xferSize;
      this.srcAddr := srcAddr;
      this.dstAddr := dstAddr;
      this.pattern := pattern;
    }
  }

  /** What a wait loop returns. */
  datatype Status = Ok | Timeout

  /** What the device reports; `result` is nonzero when a copy ran from the high end down. */
  datatype Completion = Completion(status: nat, result: nat, faultAddr: nat, bytesCompleted: nat)

  const NOT_COMPLETED := Completion(0, 0, 0, 0)

  class Machine {
    var mem: seq<Byte>
    var mapped: set<nat>
    var comp: Completion

    constructor (mem: seq<Byte>, mapped: set<nat>)
      ensures this.mem == mem && this.mapped == mapped && comp == NOT_COMPLETED
    {
      this.mem := mem;
      this.mapped := mapped;
      comp := NOT_COMPLETED;
    }

    /** `resolve_page_fault`: writing the complement of a byte maps its page; after a fault on a
        read the byte is complemented back. */
    method ResolvePageFault(addr: nat, status: nat)
      requires addr < |mem|
      modifies this`mem, this`mapped
      ensures mapped == old(mapped) + {addr / PAGE_SIZE}
      ensures |mem| == |old(mem)|
      ensures forall a | 0 <= a < |mem| && (a != addr || !IsWriteFault(status)) :: mem[a] == old(mem[a])
      ensures IsWriteFault(status) ==> mem[addr] == Not(old(mem[addr]))
    {
      mapped := mapped + {addr / PAGE_SIZE};
      mem := mem[addr := Not(mem[addr])];
      if !IsWriteFault(status) {
        mem := mem[addr := Not(mem[addr])];
        assert mem[addr] == old(mem[addr]);
      }
    }
  }

  /** The pages of a region. */
  function Pages(addr: nat, size: nat): set<nat> {
    if size == 0 then {} else Pages(addr, size - 1) + {(addr + size - 1) / PAGE_SIZE}
  }

  lemma {:induction false} PagesAreOfBytes(addr: nat, size: nat, page: nat)
    ensures page in Pages(addr, size) <==> exists a: nat :: addr <= a < addr + size && a / 4096 == page
  {
    if size > 0 {
      PagesAreOfBytes(addr, size - 1, page);
      assert page == (addr + size - 1) / 4096 ==> exists a: nat :: addr <= a < addr + size && a / 4096 == page;
    }
  }

  predicate InRegion(a: nat, addr: nat, size: nat) {
    addr <= a < addr + size
  }

  lemma {:induction false} PageOfRegion(a: nat, addr: nat, size: nat)
    requires InRegion(a, addr, size)
    ensures a / PAGE_SIZE in Pages(addr, size)
  {
    if a != addr + size - 1 {
      PageOfRegion(a, addr, size - 1);
    }
  }

  /** Two regions that share no byte. */
  predicate Disjoint(a: nat, b: nat, size: nat) {
    a + size <= b || b + size <= a
  }

  /** Mapping one more of the pages a loop can fault on leaves fewer of them unmapped. */
  lemma FewerUnmapped(pages: set<nat>, mapped: set<nat>, page: nat)
    requires page in pages && page !in mapped
    ensures |pages - (mapped + {page})| + 1 == |pages - mapped|
  {
    assert pages - (mapped + {page}) == pages - mapped - {page};
  }
}
