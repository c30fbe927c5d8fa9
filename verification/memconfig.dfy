/**
 * The shared memory configuration the Windows EAL keeps: a fixed array of
 * memory-segment lists, each a file-backed array of 4 KiB segments.
 */
module MemConfig {
  import opened CTypes

  /** `rte_proc_type_t`: the role a process plays in the shared configuration. */
  datatype ProcType = Auto | Primary | Secondary | Invalid

  /** `RTE_PGSIZE_4K`: the only page size the Windows port uses. */
  const RTE_PGSIZE_4K: nat := 4096

  /** `RTE_BAD_PHYS_ADDR`: `(phys_addr_t)-1`. */
  const RTE_BAD_PHYS_ADDR: nat := U64_MAX

  /** `struct rte_memseg`, with the `rte_fbarray` used flag of its slot. */
  datatype Memseg = Memseg(physAddr: nat, addr: Ptr, hugepageSz: nat, socketId: int, len: nat, used: bool)

  /** The zero-filled slot a fresh file-backed array holds. */
  const EMPTY_MEMSEG: Memseg := Memseg(0, NULL, 0, 0, 0, false)

  /**
   * `struct rte_memseg_list`: base address, page size, socket and the
   * segment array (its name and its slots; `memseg_arr.len` is `|segs|`).
   */
  datatype MemsegList = MemsegList(baseVa: Ptr, pageSz: nat, socketId: int, arrName: string, segs: seq<Memseg>)

  /** A list slot nobody has claimed: all zero. */
  const EMPTY_LIST: MemsegList := MemsegList(NULL, 0, 0, "", [])

  /**
   * `struct rte_mem_config`, reduced to its `RTE_MAX_MEMSEG_LISTS` segment
   * lists and whether its `magic` field holds `RTE_MAGIC` (the primary's
   * completion marker).
   */
  datatype MemCfg = MemCfg(memsegs: seq<MemsegList>, complete: bool)

  /** A list with a base address is in use; the first one without is the next to claim. */
  predicate Claimed(l: MemsegList)
  {
    l.baseVa != NULL
  }

  /** The index of the first unclaimed list at or after `i`, if any. */
  function FirstFree(lists: seq<MemsegList>, i: nat): (r: Option<nat>)
    requires i <= |lists|
    ensures r.Some? ==> i <= r.value < |lists| && !Claimed(lists[r.value])
    ensures r.Some? ==> forall k :: i <= k < r.value ==> Claimed(lists[k])
    ensures r.None? <==> forall k :: i <= k < |lists| ==> Claimed(lists[k])
    decreases |lists| - i
  {
    if i == |lists| then None
    else if !Claimed(lists[i]) then Some(i)
    else FirstFree(lists, i + 1)
  }

  /** Replace list `k`, leaving the others as they are. */
  function SetList(m: MemCfg, k: nat, l: MemsegList): (r: MemCfg)
    requires k < |m.memsegs|
    ensures |r.memsegs| == |m.memsegs| && r.memsegs[k] == l
    ensures forall j :: 0 <= j < |m.memsegs| && j != k ==> r.memsegs[j] == m.memsegs[j]
    ensures r.complete == m.complete
  {
    m.(memsegs := m.memsegs[k := l])
  }
}
