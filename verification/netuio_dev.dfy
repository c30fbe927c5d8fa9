/**
 * The netuio driver's per-device state and the work done on it when the
 * device is created and when its hardware resources arrive or leave: BAR
 * decoding (section 6.2.5.1 of the PCI Local Bus Specification 3.0), the
 * bus/device/function lookup, the symbolic link name and the 256 MiB pool.
 *
 * Kernel services (MmMapIoSpace, IoAllocateMdl, the contiguous allocator,
 * property queries, WDF object creation) are inputs: the value or status
 * each call returns is passed in.
 */
module NetuioDev {
  import opened CTypes
  import opened CStrings
  import opened NtStatus
  import opened NetuioInterface
  import opened Arith

  /** Size of the physically contiguous pool handed to the user process. */
  const USER_MEMORY_SEGMENT_SIZE: nat := 256 * 1024 * 1024

  /** Size of `PCI_COMMON_HEADER`, the part of configuration space read at start. */
  const PCI_COMMON_HEADER_SIZE: nat := 64

  /** `PCI_TYPE_64BIT`: bit 2 of a BAR, the upper bit of the memory type field (value 2 = 64-bit). */
  const PCI_TYPE_64BIT: nat := 4

  // -------------------------------------------------------------------
  // Device context
  // -------------------------------------------------------------------

  /** `struct pci_bar`: bus address, kernel mapping, length. */
  datatype PciBar = PciBar(baseAddr: nat, virtAddr: Ptr, size: nat)

  const ZERO_BAR: PciBar := PciBar(0, NULL, 0)

  /** `struct mem_map_region`: the MDL describing a region and the region itself. */
  datatype MemMapRegion = MemMapRegion(mdl: Ptr, mem: MemRegion)

  const ZERO_MAP: MemMapRegion := MemMapRegion(NULL, ZERO_REGION)

  /** `NETUIO_CONTEXT_DATA` without the WDF handles. */
  datatype Context = Context(
    bar: seq<PciBar>,
    addr: DevAddr,
    numaNode: nat,
    dpdkHw: seq<MemMapRegion>,
    dpdkSeg: MemMapRegion)

  predicate Valid(c: Context)
  {
    |c.bar| == PCI_MAX_BAR && |c.dpdkHw| == PCI_MAX_BAR
  }

  /** The framework zero-fills a new context. */
  function ZeroContext(): (c: Context)
    ensures Valid(c)
    ensures forall i :: 0 <= i < PCI_MAX_BAR ==> c.bar[i] == ZERO_BAR && c.dpdkHw[i] == ZERO_MAP
    ensures c.dpdkSeg == ZERO_MAP
  {
    Context(seq(PCI_MAX_BAR, _ => ZERO_BAR), DevAddr(0, 0, 0), 0, seq(PCI_MAX_BAR, _ => ZERO_MAP), ZERO_MAP)
  }

  /** Every BAR record and every BAR mapping slot is zero. */
  predicate HwCleared(c: Context)
  {
    Valid(c) && forall i :: 0 <= i < PCI_MAX_BAR ==> c.bar[i] == ZERO_BAR && c.dpdkHw[i] == ZERO_MAP
  }

  // -------------------------------------------------------------------
  // BAR decoding
  // -------------------------------------------------------------------

  /**
   * A translated resource descriptor: whether it is of memory type, and the
   * range it assigns.
   */
  datatype Descriptor = Descriptor(isMemory: bool, start: nat, length: nat)

  /**
   * What the kernel gives `netuio_map_hw_resources`: the byte count GetBusData
   * reports for the header; the header's six BAR dwords followed by the dword
   * after them (a 64-bit BAR in slot 5 reads it as its upper half); the
   * translated descriptor list; and, per BAR slot, the mapping MmMapIoSpace
   * returns and the MDL IoAllocateMdl returns (NULL for failure).
   */
  datatype HwInputs = HwInputs(
    headerBytes: nat,
    slots: seq<nat>,
    descriptors: seq<Descriptor>,
    ioSpace: seq<Ptr>,
    mdls: seq<Ptr>)

  predicate ValidHwInputs(h: HwInputs)
  {
    |h.slots| == PCI_MAX_BAR + 1 && (forall k :: 0 <= k < |h.slots| ==> IsU32(h.slots[k])) && |h.ioSpace| == PCI_MAX_BAR && |h.mdls| == PCI_MAX_BAR
  }

  /** `v & PCI_TYPE_64BIT`: bit 2 of the slot value is set. */
  predicate Is64Bit(v: nat)
  {
    (v / PCI_TYPE_64BIT) % 2 == 1
  }

  /** `v & PCI_ADDRESS_MEMORY_ADDRESS_MASK` (0xFFFFFFF0): the slot with its four flag bits cleared. */
  function MemoryAddressBits(v: nat): nat
  {
    v - v % 16
  }

  /**
   * The bus address a present BAR decodes to: for a 64-bit BAR the next slot
   * is the high dword, otherwise the high dword is zero; the low dword is the
   * slot with its flag bits cleared. The driver only asserts that the
   * descriptor's start equals it.
   */
  function BarAddress(slots: seq<nat>, i: nat): (a: nat)
    requires |slots| == PCI_MAX_BAR + 1 && i < PCI_MAX_BAR
    requires IsU32(slots[i]) && IsU32(slots[i + 1])
    ensures a % 16 == 0 && a < U64_LIMIT
    ensures a % U32_LIMIT == MemoryAddressBits(slots[i])
    ensures a / U32_LIMIT == if Is64Bit(slots[i]) then slots[i + 1] else 0
  {
    var high := if Is64Bit(slots[i]) then slots[i + 1] else 0;
    SplitDwords(high, MemoryAddressBits(slots[i]));
    high * U32_LIMIT + MemoryAddressBits(slots[i])
  }

  lemma SplitDwords(high: nat, low: nat)
    requires high < U32_LIMIT && low < U32_LIMIT && low % 16 == 0
    ensures (high * U32_LIMIT + low) % U32_LIMIT == low
    ensures (high * U32_LIMIT + low) / U32_LIMIT == high
    ensures (high * U32_LIMIT + low) % 16 == 0
    ensures high * U32_LIMIT + low < U64_LIMIT
  {
    DivModUnique(high * U32_LIMIT + low, U32_LIMIT, high, low);
    var k := high * 0x1000_0000 + low / 16;
    assert high * U32_LIMIT + low == k * 16;
    DivModUnique(k * 16, 16, k, 0);
    MulLe(high, U32_LIMIT - 1, U32_LIMIT);
  }

  /** Index of the first memory descriptor at or after `from`. */
  function NextMemory(ds: seq<Descriptor>, from: nat): (r: Option<nat>)
    ensures r.Some? ==> from <= r.value < |ds| && ds[r.value].isMemory
    ensures r.Some? ==> forall j :: from <= j < r.value ==> !ds[j].isMemory
    ensures r.None? ==> forall j :: from <= j < |ds| ==> !ds[j].isMemory
    decreases |ds| - from
  {
    if from >= |ds| then None
    else if ds[from].isMemory then Some(from)
    else NextMemory(ds, from + 1)
  }

  /** Where the descriptor cursor stands after `k` memory descriptors were taken. */
  function Cursor(ds: seq<Descriptor>, k: nat): Option<nat>
  {
    if k == 0 then Some(0)
    else match Cursor(ds, k - 1)
      case None => None
      case Some(p) =>
        match NextMemory(ds, p)
        case None => None
        case Some(j) => Some(j + 1)
  }

  /** Index of the descriptor the `k`-th present BAR (counting from 0) receives. */
  function KthMemory(ds: seq<Descriptor>, k: nat): Option<nat>
  {
    match Cursor(ds, k)
    case None => None
    case Some(p) => NextMemory(ds, p)
  }

  /**
   * Present BARs take memory descriptors in list order: the one taken by the
   * (k+1)-th present BAR is the first memory descriptor after the one taken
   * by the k-th.
   */
  lemma {:induction false} KthMemoryInOrder(ds: seq<Descriptor>, k: nat)
    requires KthMemory(ds, k + 1).Some?
    ensures KthMemory(ds, k).Some?
    ensures var a, b := KthMemory(ds, k).value, KthMemory(ds, k + 1).value;
      a < b && ds[a].isMemory && ds[b].isMemory && forall j :: a < j < b ==> !ds[j].isMemory
  {
  }

  /**
   * A slot is decoded as a BAR unless its value is 0 or the previous slot's
   * raw value has the 64-bit type bit set.
   */
  predicate Present(slots: seq<nat>, i: nat)
    requires i < |slots|
  {
    slots[i] != 0 && !(i > 0 && Is64Bit(slots[i - 1]))
  }

  /** Number of present slots before slot `i`. */
  function PresentBefore(slots: seq<nat>, i: nat): (n: nat)
    requires i <= |slots|
    ensures n <= i
  {
    if i == 0 then 0
    else PresentBefore(slots, i - 1) + (if Present(slots, i - 1) then 1 else 0)
  }

  /** Slot `i` gets everything it needs: a memory descriptor, a kernel mapping and an MDL. */
  predicate SlotResourced(h: HwInputs, i: nat)
    requires ValidHwInputs(h) && i < PCI_MAX_BAR
  {
    KthMemory(h.descriptors, PresentBefore(h.slots, i)).Some? && h.ioSpace[i] != NULL && h.mdls[i] != NULL
  }

  predicate SucceedsFrom(h: HwInputs, i: nat)
    requires ValidHwInputs(h) && i <= PCI_MAX_BAR
  {
    forall k :: i <= k < PCI_MAX_BAR && Present(h.slots, k) ==> SlotResourced(h, k)
  }

  /** The BAR record slot `i` ends with after a successful decode. */
  function ExpectedBar(h: HwInputs, i: nat): PciBar
    requires ValidHwInputs(h) && i < PCI_MAX_BAR
  {
    if !Present(h.slots, i) then ZERO_BAR
    else match KthMemory(h.descriptors, PresentBefore(h.slots, i))
      case None => ZERO_BAR
      case Some(j) =>
        if j < |h.descriptors| then
          PciBar(h.descriptors[j].start, h.ioSpace[i], h.descriptors[j].length)
        else ZERO_BAR
  }

  /** The mapping slot `i` ends with: MDL and mapped size set, other region fields kept. */
  function ExpectedHw(prev: MemMapRegion, h: HwInputs, i: nat): MemMapRegion
    requires ValidHwInputs(h) && i < PCI_MAX_BAR
  {
    if !Present(h.slots, i) then prev.(mdl := NULL, mem := prev.mem.(size := 0))
    else prev.(mdl := h.mdls[i], mem := prev.mem.(size := ExpectedBar(h, i).size))
  }

  function SetBar(c: Context, i: nat, b: PciBar): (r: Context)
    requires Valid(c) && i < PCI_MAX_BAR
    ensures Valid(r)
  {
    c.(bar := c.bar[i := b])
  }

  function SetHw(c: Context, i: nat, m: MemMapRegion): (r: Context)
    requires Valid(c) && i < PCI_MAX_BAR
    ensures Valid(r)
  {
    c.(dpdkHw := c.dpdkHw[i := m])
  }

  /** Outcome of one iteration of the BAR loop: stop with a status, or go on with a new descriptor cursor. */
  datatype StepResult = Stop(status: Status, ctx: Context) | Next(ctx: Context, cursor: nat)

  /**
   * One iteration of the loop in `netuio_map_hw_resources` for slot `i`, with
   * descriptor cursor `next` and the previous raw slot value `prev`: a slot
   * that is 0 or follows a raw value with the 64-bit bit is recorded absent;
   * otherwise it takes the next memory descriptor, its kernel mapping and its MDL.
   */
  function Step(c: Context, h: HwInputs, i: nat, next: nat, prev: nat): (r: StepResult)
    requires Valid(c) && ValidHwInputs(h) && i < PCI_MAX_BAR
    ensures Valid(r.ctx)
    ensures r.Stop? ==> r.status in {STATUS_DEVICE_CONFIGURATION_ERROR, STATUS_INSUFFICIENT_RESOURCES}
    ensures r.ctx.addr == c.addr && r.ctx.numaNode == c.numaNode && r.ctx.dpdkSeg == c.dpdkSeg
    ensures forall k :: 0 <= k < PCI_MAX_BAR && k != i ==> r.ctx.bar[k] == c.bar[k] && r.ctx.dpdkHw[k] == c.dpdkHw[k]
  {
    var curr := h.slots[i];
    if curr == 0 || Is64Bit(prev) then
      var skipped := SetHw(SetBar(c, i, ZERO_BAR), i,
        c.dpdkHw[i].(mdl := NULL, mem := c.dpdkHw[i].mem.(size := 0)));
      Next(skipped, next)
    else
      match NextMemory(h.descriptors, next)
      case None => Stop(STATUS_DEVICE_CONFIGURATION_ERROR, c)
      case Some(j) =>
        var d := h.descriptors[j];
        var c1 := SetBar(c, i, PciBar(d.start, h.ioSpace[i], d.length));
        if h.ioSpace[i] == NULL then Stop(STATUS_INSUFFICIENT_RESOURCES, c1)
        else
          var c2 := SetHw(c1, i, c1.dpdkHw[i].(mdl := h.mdls[i]));
          if h.mdls[i] == NULL then Stop(STATUS_INSUFFICIENT_RESOURCES, c2)
          else
            var c3 := SetHw(c2, i, c2.dpdkHw[i].(mem := c2.dpdkHw[i].mem.(size := d.length)));
            Next(c3, j + 1)
  }

  /** The loop over the six slots, from slot `i`. */
  function DecodeBars(c: Context, h: HwInputs, i: nat, next: nat, prev: nat): (r: (Status, Context))
    requires Valid(c) && ValidHwInputs(h) && i <= PCI_MAX_BAR
    ensures Valid(r.1)
    ensures r.0 in {STATUS_SUCCESS, STATUS_DEVICE_CONFIGURATION_ERROR, STATUS_INSUFFICIENT_RESOURCES}
    ensures r.1.addr == c.addr && r.1.numaNode == c.numaNode && r.1.dpdkSeg == c.dpdkSeg
    ensures forall k :: 0 <= k < i ==> r.1.bar[k] == c.bar[k] && r.1.dpdkHw[k] == c.dpdkHw[k]
    decreases PCI_MAX_BAR - i
  {
    if i == PCI_MAX_BAR then (STATUS_SUCCESS, c)
    else
      match Step(c, h, i, next, prev)
      case Stop(st, c') => (st, c')
      case Next(c', n') => DecodeBars(c', h, i + 1, n', h.slots[i])
  }

  /** The loop invariant linking the loop's state at slot `i` to the slot values and the descriptor list. */
  predicate LoopState(h: HwInputs, i: nat, next: nat, prev: nat)
    requires ValidHwInputs(h) && i <= PCI_MAX_BAR
  {
    prev == (if i == 0 then 0 else h.slots[i - 1]) &&
    Cursor(h.descriptors, PresentBefore(h.slots, i)) == Some(next)
  }

  /**
   * One iteration goes on exactly when the slot is absent or resourced; it
   * then leaves the slot as expected and re-establishes the invariant.
   */
  lemma StepSpec(c: Context, h: HwInputs, i: nat, next: nat, prev: nat)
    requires Valid(c) && ValidHwInputs(h) && i < PCI_MAX_BAR && LoopState(h, i, next, prev)
    ensures var r := Step(c, h, i, next, prev);
      (r.Next? <==> !Present(h.slots, i) || SlotResourced(h, i)) &&
      (r.Next? ==> r.ctx.bar[i] == ExpectedBar(h, i) && r.ctx.dpdkHw[i] == ExpectedHw(c.dpdkHw[i], h, i) &&
                   LoopState(h, i + 1, r.cursor, h.slots[i]))
  {
    var k := PresentBefore(h.slots, i);
    assert PresentBefore(h.slots, i + 1) == k + (if Present(h.slots, i) then 1 else 0);
    if Present(h.slots, i) {
      assert KthMemory(h.descriptors, k) == NextMemory(h.descriptors, next);
      match NextMemory(h.descriptors, next)
      case None =>
      case Some(j) =>
        assert Cursor(h.descriptors, k + 1) == Some(j + 1);
    }
  }

  /** From slot `i` on, the loop succeeds exactly when every present slot from `i` on is resourced. */
  lemma {:induction false} DecodeBarsStatus(c: Context, h: HwInputs, i: nat, next: nat, prev: nat)
    requires Valid(c) && ValidHwInputs(h) && i <= PCI_MAX_BAR && LoopState(h, i, next, prev)
    ensures DecodeBars(c, h, i, next, prev).0 == STATUS_SUCCESS <==> SucceedsFrom(h, i)
    decreases PCI_MAX_BAR - i
  {
    if i < PCI_MAX_BAR {
      StepSpec(c, h, i, next, prev);
      SucceedsFromStep(h, i);
      var r := Step(c, h, i, next, prev);
      if r.Next? {
        DecodeBarsStatus(r.ctx, h, i + 1, r.cursor, h.slots[i]);
      }
    }
  }

  /** Success from slot `i` is slot `i` being absent or resourced, and success from the next slot. */
  lemma SucceedsFromStep(h: HwInputs, i: nat)
    requires ValidHwInputs(h) && i < PCI_MAX_BAR
    ensures SucceedsFrom(h, i) <==> (!Present(h.slots, i) || SlotResourced(h, i)) && SucceedsFrom(h, i + 1)
  {
  }

  /** When the loop succeeds, every slot from `i` on holds its expected BAR record and mapping slot. */
  lemma {:induction false} DecodeBarsContents(c: Context, h: HwInputs, i: nat, next: nat, prev: nat)
    requires Valid(c) && ValidHwInputs(h) && i <= PCI_MAX_BAR && LoopState(h, i, next, prev)
    ensures var r := DecodeBars(c, h, i, next, prev);
      r.0 == STATUS_SUCCESS ==>
        forall k :: i <= k < PCI_MAX_BAR ==> r.1.bar[k] == ExpectedBar(h, k) && r.1.dpdkHw[k] == ExpectedHw(c.dpdkHw[k], h, k)
    decreases PCI_MAX_BAR - i
  {
    if i < PCI_MAX_BAR {
      StepSpec(c, h, i, next, prev);
      match Step(c, h, i, next, prev)
      case Stop(_, _) =>
      case Next(c', n') => DecodeBarsContents(c', h, i + 1, n', h.slots[i]);
    }
  }

  /** `netuio_free_hw_resources`: MDLs and kernel mappings released, every BAR and mapping slot zeroed. */
  function FreeHwResources(c: Context): (r: Context)
    requires Valid(c)
    ensures HwCleared(r)
    ensures r.addr == c.addr && r.numaNode == c.numaNode && r.dpdkSeg == c.dpdkSeg
  {
    c.(bar := seq(PCI_MAX_BAR, _ => ZERO_BAR), dpdkHw := seq(PCI_MAX_BAR, _ => ZERO_MAP))
  }

  /** Freeing twice is freeing once. */
  lemma FreeHwResourcesIdempotent(c: Context)
    requires Valid(c)
    ensures FreeHwResources(FreeHwResources(c)) == FreeHwResources(c)
  {
  }

  /**
   * `netuio_map_hw_resources` on the device's context (None when the
   * framework returns no context): a short header read fails with
   * NOT_SUPPORTED, otherwise the slots are decoded; any failure frees.
   */
  function MapHwResources(oc: Option<Context>, h: HwInputs): (r: (Status, Option<Context>))
    requires oc.Some? ==> Valid(oc.value)
    requires ValidHwInputs(h)
    ensures oc.None? ==> r == (STATUS_UNSUCCESSFUL, None)
    ensures oc.Some? ==> r.1.Some? && Valid(r.1.value)
    ensures oc.Some? ==>
      (r.0 == STATUS_SUCCESS <==> h.headerBytes == PCI_COMMON_HEADER_SIZE && SucceedsFrom(h, 0))
    ensures oc.Some? && h.headerBytes != PCI_COMMON_HEADER_SIZE ==> r.0 == STATUS_NOT_SUPPORTED
    ensures oc.Some? && r.0 != STATUS_SUCCESS ==> HwCleared(r.1.value)
    ensures oc.Some? && r.0 == STATUS_SUCCESS ==>
      var c, c' := oc.value, r.1.value;
      c'.addr == c.addr && c'.numaNode == c.numaNode && c'.dpdkSeg == c.dpdkSeg &&
      forall k :: 0 <= k < PCI_MAX_BAR ==>
        c'.bar[k] == ExpectedBar(h, k) && c'.dpdkHw[k] == ExpectedHw(c.dpdkHw[k], h, k)
  {
    match oc
    case None => (STATUS_UNSUCCESSFUL, None)
    case Some(c) =>
      if h.headerBytes != PCI_COMMON_HEADER_SIZE then (STATUS_NOT_SUPPORTED, Some(FreeHwResources(c)))
      else
        DecodeBarsStatus(c, h, 0, 0, 0);
        DecodeBarsContents(c, h, 0, 0, 0);
        var (st, c') := DecodeBars(c, h, 0, 0, 0);
        if st != STATUS_SUCCESS then (st, Some(FreeHwResources(c'))) else (st, Some(c'))
  }

  /** An absent slot ends zeroed: base 0, size 0, no kernel mapping, no MDL, mapped size 0. */
  lemma AbsentSlotIsZero(h: HwInputs, prev: MemMapRegion, i: nat)
    requires ValidHwInputs(h) && i < PCI_MAX_BAR && !Present(h.slots, i)
    ensures ExpectedBar(h, i) == ZERO_BAR
    ensures ExpectedHw(prev, h, i).mdl == NULL && ExpectedHw(prev, h, i).mem.size == 0
  {
  }

  /** A resourced slot records its descriptor's range, its mapping and MDL, and a mapped size equal to the BAR size. */
  lemma PresentSlotRecordsDescriptor(h: HwInputs, prev: MemMapRegion, i: nat)
    requires ValidHwInputs(h) && i < PCI_MAX_BAR && Present(h.slots, i) && SlotResourced(h, i)
    ensures var d := h.descriptors[KthMemory(h.descriptors, PresentBefore(h.slots, i)).value];
      d.isMemory &&
      ExpectedBar(h, i) == PciBar(d.start, h.ioSpace[i], d.length) &&
      ExpectedHw(prev, h, i).mdl == h.mdls[i] && ExpectedHw(prev, h, i).mem.size == ExpectedBar(h, i).size
  {
    var k := PresentBefore(h.slots, i);
    var j := KthMemory(h.descriptors, k).value;
    assert NextMemory(h.descriptors, Cursor(h.descriptors, k).value) == Some(j);
  }

  // -------------------------------------------------------------------
  // Bus/device/function lookup
  // -------------------------------------------------------------------

  /** A property query: the status it returns and the value it writes on success. */
  datatype PropertyRead = PropertyRead(status: Status, value: nat)

  /**
   * What `get_pci_device_info` obtains from the kernel: the bus-interface
   * query status, whether a physical device object exists, and the bus
   * number, address and NUMA node queries.
   */
  datatype PciInfoInputs = PciInfoInputs(
    queryStatus: Status,
    pdoPresent: bool,
    busNumber: PropertyRead,
    address: PropertyRead,
    numaNode: PropertyRead)

  /** Splits `DevicePropertyAddress` (a ULONG): function = prop & 0xFFFF, device = (prop >> 16) & 0xFFFF. */
  function DecodeAddressProperty(prop: nat): (r: (nat, nat))
    ensures r.0 < U16_LIMIT && r.1 < U16_LIMIT
  {
    ((prop / 0x1_0000) % 0x1_0000, prop % 0x1_0000)
  }

  /** The property a bus driver reports for device `d`, function `f`, i.e. (d << 16) | f, decodes back to (d, f). */
  lemma AddressPropertyRoundTrip(d: nat, f: nat)
    requires d < U16_LIMIT && f < U16_LIMIT
    ensures DecodeAddressProperty(d * 0x1_0000 + f) == (d, f)
  {
    assert (d * 0x1_0000 + f) / 0x1_0000 == d;
  }

  /**
   * `get_pci_device_info`: the result is the NUMA query's status whenever a
   * physical device object exists (the bus number and address statuses are
   * overwritten); fields are written only by successful queries.
   */
  function GetPciDeviceInfo(oc: Option<Context>, p: PciInfoInputs): (r: (Status, Option<Context>))
    requires oc.Some? ==> Valid(oc.value)
    ensures oc.None? ==> r == (STATUS_UNSUCCESSFUL, None)
    ensures oc.Some? ==> r.1.Some? && Valid(r.1.value)
    ensures oc.Some? ==>
      (r.1.value.bar == oc.value.bar && r.1.value.dpdkHw == oc.value.dpdkHw && r.1.value.dpdkSeg == oc.value.dpdkSeg)
    ensures oc.Some? && ValidDevAddr(oc.value.addr) ==> ValidDevAddr(r.1.value.addr)
    ensures oc.Some? && !NtSuccess(p.queryStatus) ==> r == (p.queryStatus, oc)
    ensures oc.Some? && NtSuccess(p.queryStatus) && p.pdoPresent ==> r.0 == p.numaNode.status
    ensures oc.Some? && NtSuccess(p.queryStatus) && p.pdoPresent && NtSuccess(p.address.status) && IsU32(p.address.value) ==>
      (r.1.value.addr.devNum == p.address.value / 0x1_0000 && r.1.value.addr.funcNum == p.address.value % 0x1_0000)
    ensures oc.Some? && NtSuccess(p.queryStatus) && !p.pdoPresent ==> r == (p.queryStatus, oc)
    ensures oc.Some? && NtSuccess(p.queryStatus) && p.pdoPresent ==>
      r.1.value.addr.busNum == (if NtSuccess(p.busNumber.status) then ToU32(p.busNumber.value) else oc.value.addr.busNum) &&
      r.1.value.numaNode == (if NtSuccess(p.numaNode.status) then ToU16(p.numaNode.value) else oc.value.numaNode)
    ensures oc.Some? && NtSuccess(p.queryStatus) && p.pdoPresent && !NtSuccess(p.address.status) ==>
      r.1.value.addr.devNum == oc.value.addr.devNum && r.1.value.addr.funcNum == oc.value.addr.funcNum
  {
    match oc
    case None => (STATUS_UNSUCCESSFUL, None)
    case Some(c) =>
      if !NtSuccess(p.queryStatus) then (p.queryStatus, oc)
      else if !p.pdoPresent then (p.queryStatus, oc)
      else
        var c1 := if NtSuccess(p.busNumber.status) then c.(addr := c.addr.(busNum := ToU32(p.busNumber.value))) else c;
        var c2 :=
          if NtSuccess(p.address.status) then
            var (d, f) := DecodeAddressProperty(ToU32(p.address.value));
            c1.(addr := c1.addr.(funcNum := f, devNum := d))
          else c1;
        var c3 := if NtSuccess(p.numaNode.status) then c2.(numaNode := ToU16(p.numaNode.value)) else c2;
        (p.numaNode.status, Some(c3))
  }

  // -------------------------------------------------------------------
  // Symbolic link
  // -------------------------------------------------------------------

  /** Capacity of the buffer the name is formatted into. */
  const SYMBOLIC_LINK_BUFFER: nat := 64

  /**
   * The per-device suffix: `_%04d%02d%02d` of bus, device, function. `%d`
   * reads the `ULONG` bus number as a signed `int`, so a bus of 2^31 or
   * more prints as a negative number.
   */
  function BdfSuffix(a: DevAddr): (r: string)
    requires ValidDevAddr(a)
    ensures |r| > 1 && r[0] == '_'
    ensures r[1] == '-' <==> a.busNum >= 0x8000_0000
  {
    FormatIntLeadingSign(AsI32(a.busNum), 4);
    "_" + FormatInt(AsI32(a.busNum), 4) + FormatInt(a.devNum, 2) + FormatInt(a.funcNum, 2)
  }

  /** The largest bus number prints as -1: `_-0010000` for device 0, function 0. */
  lemma BdfSuffixNegativeBus()
    ensures BdfSuffix(DevAddr(0xFFFF_FFFF, 0, 0)) == "_-0010000"
  {
    assert FormatInt(-1, 4) == "-001" by {
      assert DecimalDigits(1) == "1";
      assert Zeros(2) == "00";
    }
    assert FormatInt(0, 2) == "00" by {
      assert DecimalDigits(0) == "0";
      assert Zeros(1) == "0";
    }
  }

  /** `<prefix>_BBBBDDFF`; for any valid address it fits the 64-byte buffer with its NUL. */
  function SymbolicLinkName(a: DevAddr): (name: string)
    requires ValidDevAddr(a)
    ensures |NETUIO_DEVICE_SYMBOLIC_LINK| < |name| < SYMBOLIC_LINK_BUFFER
    ensures name[..|NETUIO_DEVICE_SYMBOLIC_LINK|] == NETUIO_DEVICE_SYMBOLIC_LINK
  {
    FormatSignedLength(AsI32(a.busNum), 4, 10);
    FormatIntLength(a.devNum, 2, 5);
    FormatIntLength(a.funcNum, 2, 5);
    NETUIO_DEVICE_SYMBOLIC_LINK + BdfSuffix(a)
  }

  /** For bus below 10000 and device and function below 100 the name determines the address. */
  lemma SymbolicLinkNameInjective(a: DevAddr, b: DevAddr)
    requires ValidDevAddr(a) && ValidDevAddr(b)
    requires a.busNum < 10000 && a.devNum < 100 && a.funcNum < 100
    requires b.busNum < 10000 && b.devNum < 100 && b.funcNum < 100
    requires SymbolicLinkName(a) == SymbolicLinkName(b)
    ensures a == b
  {
    SuffixDeterminesAddress(a);
    SuffixDeterminesAddress(b);
    var n := |NETUIO_DEVICE_SYMBOLIC_LINK|;
    assert SymbolicLinkName(a)[n..] == BdfSuffix(a);
    assert SymbolicLinkName(b)[n..] == BdfSuffix(b);
  }

  /** The suffix of a small address reads back as that address, 4 + 2 + 2 digits after the underscore. */
  lemma SuffixDeterminesAddress(a: DevAddr)
    requires a.busNum < 10000 && a.devNum < 100 && a.funcNum < 100
    ensures |BdfSuffix(a)| == 9
    ensures forall i :: 1 <= i < 9 ==> IsDigit(BdfSuffix(a)[i])
    ensures ValueOf(BdfSuffix(a)[1..5], 10) == a.busNum
    ensures ValueOf(BdfSuffix(a)[5..7], 10) == a.devNum
    ensures ValueOf(BdfSuffix(a)[7..9], 10) == a.funcNum
  {
    FixedWidthField(a.busNum, 4);
    FixedWidthField(a.devNum, 2);
    FixedWidthField(a.funcNum, 2);
    assert AsI32(a.busNum) == a.busNum;
    SuffixFields("_", FormatInt(a.busNum, 4), FormatInt(a.devNum, 2), FormatInt(a.funcNum, 2));
  }

  /** The fields of a one-character tag followed by fields of 4, 2 and 2 characters, by position. */
  lemma SuffixFields(u: string, f1: string, f2: string, f3: string)
    requires |u| == 1 && |f1| == 4 && |f2| == 2 && |f3| == 2
    ensures var s := u + f1 + f2 + f3;
      && |s| == 9 && s[1..5] == f1 && s[5..7] == f2 && s[7..9] == f3
      && (forall i :: 1 <= i < 5 ==> s[i] == f1[i - 1])
      && (forall i :: 5 <= i < 7 ==> s[i] == f2[i - 5])
      && (forall i :: 7 <= i < 9 ==> s[i] == f3[i - 7])
  {
  }

  /**
   * `create_device_specific_symbolic_link`: the link created is the
   * formatted name; the conversion status and the creation status are inputs.
   */
  function CreateSymbolicLink(oc: Option<Context>, unicodeStatus: Status, createStatus: Status): (r: (Status, Option<string>))
    requires oc.Some? ==> ValidDevAddr(oc.value.addr)
    ensures oc.None? ==> r == (STATUS_UNSUCCESSFUL, None)
    ensures r.1.Some? <==> oc.Some? && NtSuccess(unicodeStatus) && NtSuccess(createStatus)
    ensures r.1.Some? ==> r.1.value == SymbolicLinkName(oc.value.addr) && NtSuccess(r.0)
  {
    match oc
    case None => (STATUS_UNSUCCESSFUL, None)
    case Some(c) =>
      if !NtSuccess(unicodeStatus) then (unicodeStatus, None)
      else if !NtSuccess(createStatus) then (createStatus, None)
      else (createStatus, Some(SymbolicLinkName(c.addr)))
  }

  // -------------------------------------------------------------------
  // The user memory pool
  // -------------------------------------------------------------------

  /**
   * What the allocator gives `allocate_usermemory_segment`: the kernel
   * address of the contiguous block, the MDL, and the block's physical address.
   */
  datatype PoolInputs = PoolInputs(block: Ptr, mdl: Ptr, physAddr: nat)

  /** `free_usermemory_segment`: the MDL and the block are released and their fields reset. */
  function FreeUserMemorySegment(c: Context): (r: Context)
    ensures r.dpdkSeg.mdl == NULL && r.dpdkSeg.mem.virtAddr == NULL
    ensures r.dpdkSeg.mem.size == c.dpdkSeg.mem.size && r.dpdkSeg.mem.physAddr == c.dpdkSeg.mem.physAddr
    ensures r.dpdkSeg.mem.userMappedVirtAddr == c.dpdkSeg.mem.userMappedVirtAddr
    ensures r.bar == c.bar && r.dpdkHw == c.dpdkHw && r.addr == c.addr && r.numaNode == c.numaNode
  {
    var seg := c.dpdkSeg;
    var seg1 := if seg.mdl != NULL then seg.(mdl := NULL) else seg;
    var seg2 := if seg1.mem.virtAddr != NULL then seg1.(mem := seg1.mem.(virtAddr := NULL)) else seg1;
    c.(dpdkSeg := seg2)
  }

  /** The pool holds a 256 MiB block with its MDL. */
  predicate PoolAllocated(c: Context)
  {
    c.dpdkSeg.mdl != NULL && c.dpdkSeg.mem.virtAddr != NULL && c.dpdkSeg.mem.size == USER_MEMORY_SEGMENT_SIZE
  }

  /**
   * `allocate_usermemory_segment`: block, size, MDL, physical address, in
   * that order; a failure frees what was obtained.
   */
  function AllocateUserMemorySegment(oc: Option<Context>, p: PoolInputs): (r: (Status, Option<Context>))
    ensures oc.None? ==> r == (STATUS_INVALID_DEVICE_STATE, None)
    ensures oc.Some? ==> r.1.Some?
    ensures oc.Some? ==> (r.0 == STATUS_SUCCESS <==> p.block != NULL && p.mdl != NULL)
    ensures oc.Some? && r.0 != STATUS_SUCCESS ==>
      (r.0 == STATUS_NO_MEMORY && r.1.value.dpdkSeg.mdl == NULL && r.1.value.dpdkSeg.mem.virtAddr == NULL)
    ensures oc.Some? && r.0 == STATUS_SUCCESS ==>
      (PoolAllocated(r.1.value) && r.1.value.dpdkSeg.mem.virtAddr == p.block && r.1.value.dpdkSeg.mdl == p.mdl &&
       r.1.value.dpdkSeg.mem.physAddr == p.physAddr)
    ensures oc.Some? ==>
      (r.1.value.bar == oc.value.bar && r.1.value.dpdkHw == oc.value.dpdkHw && r.1.value.addr == oc.value.addr)
  {
    match oc
    case None => (STATUS_INVALID_DEVICE_STATE, None)
    case Some(c) =>
      var c1 := c.(dpdkSeg := c.dpdkSeg.(mem := c.dpdkSeg.mem.(virtAddr := p.block)));
      if p.block == NULL then (STATUS_NO_MEMORY, Some(FreeUserMemorySegment(c1)))
      else
        var c2 := c1.(dpdkSeg := c1.dpdkSeg.(mem := c1.dpdkSeg.mem.(size := USER_MEMORY_SEGMENT_SIZE)));
        var c3 := c2.(dpdkSeg := c2.dpdkSeg.(mdl := p.mdl));
        if p.mdl == NULL then (STATUS_NO_MEMORY, Some(FreeUserMemorySegment(c3)))
        else (STATUS_SUCCESS, Some(c3.(dpdkSeg := c3.dpdkSeg.(mem := c3.dpdkSeg.mem.(physAddr := p.physAddr)))))
  }

  /** Allocating and then freeing leaves no block and no MDL behind. */
  lemma AllocateThenFree(c: Context, p: PoolInputs)
    ensures var r := AllocateUserMemorySegment(Some(c), p);
      FreeUserMemorySegment(r.1.value).dpdkSeg.mdl == NULL &&
      FreeUserMemorySegment(r.1.value).dpdkSeg.mem.virtAddr == NULL
  {
  }

  // -------------------------------------------------------------------
  // Device creation
  // -------------------------------------------------------------------

  /** The statuses and values each step of `netuio_create_device` receives from the framework. */
  datatype CreateInputs = CreateInputs(
    deviceCreate: Status,
    interfaceCreate: Status,
    pciInfo: PciInfoInputs,
    unicodeStatus: Status,
    symlinkStatus: Status,
    queueInit: Status,
    pool: PoolInputs)

  /** The outcome: the status, the context (once the device exists), the link created, and how many steps ran. */
  datatype CreateResult = CreateResult(status: Status, ctx: Option<Context>, symlink: Option<string>, stepsRun: nat)

  /**
   * `netuio_create_device`: device, interface, PCI info, symbolic link,
   * queue, pool, each run only while the previous ones succeeded.
   */
  function CreateDevice(inp: CreateInputs): (r: CreateResult)
    ensures 1 <= r.stepsRun <= 6
    ensures r.ctx.Some? <==> NtSuccess(inp.deviceCreate)
    ensures r.ctx.Some? ==> Valid(r.ctx.value) && ValidDevAddr(r.ctx.value.addr)
    ensures r.stepsRun < 6 ==> !NtSuccess(r.status)
    ensures r.stepsRun >= 2 <==> NtSuccess(inp.deviceCreate)
    ensures r.stepsRun >= 3 <==> r.stepsRun >= 2 && NtSuccess(inp.interfaceCreate)
    ensures r.ctx.Some? && PoolAllocated(r.ctx.value) ==> r.stepsRun == 6
    ensures NtSuccess(r.status) ==>
      (r.stepsRun == 6 && r.ctx.Some? && PoolAllocated(r.ctx.value) &&
       r.symlink == Some(SymbolicLinkName(r.ctx.value.addr)))
  {
    if !NtSuccess(inp.deviceCreate) then CreateResult(inp.deviceCreate, None, None, 1)
    else
      var c0 := ZeroContext();
      if !NtSuccess(inp.interfaceCreate) then CreateResult(inp.interfaceCreate, Some(c0), None, 2)
      else
        var (st, oc1) := GetPciDeviceInfo(Some(c0), inp.pciInfo);
        var c1 := oc1.value;
        if !NtSuccess(st) then CreateResult(st, Some(c1), None, 3)
        else
          var (st2, link) := CreateSymbolicLink(Some(c1), inp.unicodeStatus, inp.symlinkStatus);
          if !NtSuccess(st2) then CreateResult(st2, Some(c1), link, 4)
          else if !NtSuccess(inp.queueInit) then CreateResult(inp.queueInit, Some(c1), link, 5)
          else
            var (st3, oc4) := AllocateUserMemorySegment(Some(c1), inp.pool);
            CreateResult(st3, oc4, link, 6)
  }
}
