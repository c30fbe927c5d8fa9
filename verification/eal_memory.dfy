/**
 * The Windows EAL's memory bookkeeping: address translation through the
 * pool registered by the PCI scan, and a secondary process's attachment to
 * the primary's segment lists.
 */
module EalMemory {
  import opened CTypes
  import opened NetuioInterface
  import opened MemConfig
  import opened PciWindows

  // -------------------------------------------------------------------
  // rte_mem_virt2iova
  // -------------------------------------------------------------------

  /**
   * `rte_mem_virt2iova`: the physical address of segment 0 of list 0 plus
   * the distance of `v` from that list's base, in 64-bit unsigned
   * arithmetic; with no configuration or no segment 0, RTE_BAD_PHYS_ADDR.
   * The configuration always holds its fixed array of lists, so list 0
   * exists.
   */
  function Virt2Iova(mcfg: Option<MemCfg>, v: Ptr): (r: nat)
    requires mcfg.Some? ==> |mcfg.value.memsegs| > 0
    ensures IsU64(r)
    ensures mcfg.None? || |mcfg.value.memsegs[0].segs| == 0 ==> r == RTE_BAD_PHYS_ADDR
    ensures mcfg.Some? && |mcfg.value.memsegs[0].segs| > 0 ==>
      var l := mcfg.value.memsegs[0];
      ToU64(r + l.baseVa) == ToU64(l.segs[0].physAddr + v)
  {
    if mcfg.None? then RTE_BAD_PHYS_ADDR
    else
      var l := mcfg.value.memsegs[0];
      if |l.segs| == 0 then RTE_BAD_PHYS_ADDR
      else
        var r := ToU64(l.segs[0].physAddr + (v - l.baseVa));
        ModShift(l.segs[0].physAddr + (v - l.baseVa), l.baseVa);
        r
  }

  /** Adding the same amount before or after a reduction modulo 2^64 ends in the same residue. */
  lemma ModShift(x: int, b: nat)
    ensures ToU64(ToU64(x) + b) == ToU64(x + b)
  {
    var q := x / U64_LIMIT;
    assert x == q * U64_LIMIT + ToU64(x);
    assert x + b == q * U64_LIMIT + (ToU64(x) + b);
  }

  /**
   * The translation is a fixed offset: once the scan has stored the pool
   * in list 0, an address `d` bytes into the pool's user mapping
   * translates to `d` bytes past the pool's physical address, and every
   * segment's address translates to that segment's physical address.
   */
  lemma StoredPoolTranslates(m: MemCfg, info: PrivateInfo, d: nat)
    requires |m.memsegs| > 0 && !Claimed(m.memsegs[0])
    requires PoolPages(info) > 0
    ensures var (st, m1) := StoreMemsegInfo(Some(m), info, true);
      st == ERROR_SUCCESS &&
      Virt2Iova(m1, info.ms.userMappedVirtAddr + d) == ToU64(info.ms.physAddr + d) &&
      forall i :: 0 <= i < |m1.value.memsegs[0].segs| ==>
        Virt2Iova(m1, m1.value.memsegs[0].segs[i].addr) == ToU64(m1.value.memsegs[0].segs[i].physAddr)
  {
    var (st, m1) := StoreMemsegInfo(Some(m), info, true);
    assert FirstFree(m.memsegs, 0) == Some(0);
    var l := m1.value.memsegs[0];
    assert PoolSegment(l.segs[0], info, 0);
    assert l.baseVa == info.ms.userMappedVirtAddr;
    forall i | 0 <= i < |l.segs|
      ensures Virt2Iova(m1, l.segs[i].addr) == ToU64(l.segs[i].physAddr)
    {
      assert PoolSegment(l.segs[i], info, i);
    }
  }

  // -------------------------------------------------------------------
  // memseg_secondary_init, alloc_va_space
  // -------------------------------------------------------------------

  /**
   * `eal_get_virtual_area` as the secondary sees it: given the address the
   * primary used, the size and the page size, the reserved address, NULL
   * when the reservation fails.
   */
  type VaReserver = (Ptr, nat, nat) -> Ptr

  /** `alloc_va_space`'s request: page size times the array length, as a 64-bit `size_t`. */
  function ReserveSize(l: MemsegList): (n: nat)
    ensures IsU64(n)
    ensures l.pageSz * |l.segs| < U64_LIMIT ==> n == l.pageSz * |l.segs|
  {
    ToU64(l.pageSz * |l.segs|)
  }

  /** List `k` attaches (`rte_fbarray_attach` succeeds) and its address space is reserved; an empty list is skipped. */
  predicate ListAttaches(l: MemsegList, k: nat, attach: nat -> bool, reserve: VaReserver)
  {
    |l.segs| == 0 || (attach(k) && reserve(l.baseVa, ReserveSize(l), l.pageSz) != NULL)
  }

  /** A list after `alloc_va_space`: its base is the address reserved in this process. */
  function Attached(l: MemsegList, reserve: VaReserver): (r: MemsegList)
    ensures |l.segs| == 0 ==> r == l
    ensures r.segs == l.segs && r.pageSz == l.pageSz && r.socketId == l.socketId && r.arrName == l.arrName
  {
    if |l.segs| == 0 then l else l.(baseVa := reserve(l.baseVa, ReserveSize(l), l.pageSz))
  }

  /** The index of the first list at or after `i` that fails to attach, if any. */
  function FirstFailure(ls: seq<MemsegList>, i: nat, attach: nat -> bool, reserve: VaReserver): (r: Option<nat>)
    requires i <= |ls|
    ensures r.Some? ==> i <= r.value < |ls| && !ListAttaches(ls[r.value], r.value, attach, reserve)
    ensures r.Some? ==> forall k :: i <= k < r.value ==> ListAttaches(ls[k], k, attach, reserve)
    ensures r.None? <==> forall k :: i <= k < |ls| ==> ListAttaches(ls[k], k, attach, reserve)
    decreases |ls| - i
  {
    if i == |ls| then None
    else if !ListAttaches(ls[i], i, attach, reserve) then Some(i)
    else FirstFailure(ls, i + 1, attach, reserve)
  }

  /** List `k` was reached and attached before the loop stopped. */
  predicate AttachedBefore(ls: seq<MemsegList>, k: nat, attach: nat -> bool, reserve: VaReserver)
  {
    var f := FirstFailure(ls, 0, attach, reserve);
    f.None? || k < f.value
  }

  /**
   * `memseg_secondary_init`: walk the lists in order, skipping empty ones;
   * each other list attaches its segment array and reserves its address
   * space, taking the reserved address as its base. The first failure
   * returns -1, with the lists before it already rebased (the
   * configuration is shared, so those writes stay).
   */
  method SecondaryInit(m: MemCfg, attach: nat -> bool, reserve: VaReserver) returns (ret: int, out: MemCfg)
    ensures ret == 0 || ret == -1
    ensures ret == 0 <==> forall k :: 0 <= k < |m.memsegs| ==> ListAttaches(m.memsegs[k], k, attach, reserve)
    ensures |out.memsegs| == |m.memsegs| && out.complete == m.complete
    ensures forall k :: 0 <= k < |m.memsegs| ==>
      out.memsegs[k] == if AttachedBefore(m.memsegs, k, attach, reserve) then Attached(m.memsegs[k], reserve) else m.memsegs[k]
  {
    var lists := m.memsegs;
    var i := 0;
    while i < |lists|
      invariant 0 <= i <= |lists| && |lists| == |m.memsegs|
      invariant forall k :: 0 <= k < i ==> ListAttaches(m.memsegs[k], k, attach, reserve)
      invariant forall k :: 0 <= k < i ==> lists[k] == Attached(m.memsegs[k], reserve)
      invariant forall k :: i <= k < |lists| ==> lists[k] == m.memsegs[k]
    {
      var l := lists[i];
      if |l.segs| != 0 {
        if !attach(i) {
          assert FirstFailure(m.memsegs, 0, attach, reserve) == Some(i);
          return -1, m.(memsegs := lists);
        }
        var addr := reserve(l.baseVa, ReserveSize(l), l.pageSz);
        if addr == NULL {
          assert FirstFailure(m.memsegs, 0, attach, reserve) == Some(i);
          return -1, m.(memsegs := lists);
        }
        lists := lists[i := l.(baseVa := addr)];
      }
      i := i + 1;
    }
    return 0, m.(memsegs := lists);
  }

  // -------------------------------------------------------------------
  // rte_eal_memseg_init
  // -------------------------------------------------------------------

  /**
   * `rte_eal_memseg_init`: the primary's lists were filled during the PCI
   * scan, so it returns 0 and changes nothing; any other role runs the
   * secondary attachment.
   */
  method MemsegInit(pt: ProcType, m: MemCfg, attach: nat -> bool, reserve: VaReserver) returns (ret: int, out: MemCfg)
    ensures pt == Primary ==> ret == 0 && out == m
    ensures pt != Primary ==>
      (ret == 0 <==> forall k :: 0 <= k < |m.memsegs| ==> ListAttaches(m.memsegs[k], k, attach, reserve))
    ensures |out.memsegs| == |m.memsegs|
  {
    if pt == Primary {
      return 0, m;
    }
    ret, out := SecondaryInit(m, attach, reserve);
  }
}
