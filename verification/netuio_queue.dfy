/**
 * The netuio request handlers: mapping the BARs and the pool into the
 * calling process, undoing that mapping, the map-hardware reply, and the
 * configuration-space request.
 *
 * Each kernel call's result is an input: MmMapLockedPagesSpecifyCache either
 * returns an address (possibly NULL) or raises an exception; GetBusData and
 * SetBusData return a byte count; the framework's buffer retrieval succeeds
 * exactly when the caller's buffer is at least the requested size.
 */
module NetuioQueue {
  import opened CTypes
  import opened Arith
  import opened NtStatus
  import opened NetuioInterface
  import opened NetuioDev

  // -------------------------------------------------------------------
  // Unmapping
  // -------------------------------------------------------------------

  /** The pool and all six BAR slots have no user mapping. */
  predicate Unmapped(c: Context)
    requires Valid(c)
  {
    c.dpdkSeg.mem.userMappedVirtAddr == NULL &&
    forall i :: 0 <= i < PCI_MAX_BAR ==> c.dpdkHw[i].mem.userMappedVirtAddr == NULL
  }

  /** `c` and `d` agree on everything except the user-mapped addresses. */
  predicate SameButUserMappings(c: Context, d: Context)
    requires Valid(c) && Valid(d)
  {
    c.bar == d.bar && c.addr == d.addr && c.numaNode == d.numaNode &&
    c.dpdkSeg.mdl == d.dpdkSeg.mdl &&
    c.dpdkSeg.mem.(userMappedVirtAddr := NULL) == d.dpdkSeg.mem.(userMappedVirtAddr := NULL) &&
    forall i :: 0 <= i < PCI_MAX_BAR ==>
      c.dpdkHw[i].mdl == d.dpdkHw[i].mdl &&
      c.dpdkHw[i].mem.(userMappedVirtAddr := NULL) == d.dpdkHw[i].mem.(userMappedVirtAddr := NULL)
  }

  /** Resets one user-mapped address, as the source does only when it is non-NULL. */
  function ClearUserMapping(m: MemMapRegion): (r: MemMapRegion)
    ensures r.mem.userMappedVirtAddr == NULL
    ensures r.mdl == m.mdl && r.mem.(userMappedVirtAddr := NULL) == m.mem.(userMappedVirtAddr := NULL)
  {
    if m.mem.userMappedVirtAddr != NULL then m.(mem := m.mem.(userMappedVirtAddr := NULL)) else m
  }

  /** `netuio_unmap_address_from_user_process`. */
  function UnmapUser(c: Context): (r: Context)
    requires Valid(c)
    ensures Valid(r) && Unmapped(r) && SameButUserMappings(c, r)
  {
    c.(dpdkSeg := ClearUserMapping(c.dpdkSeg), dpdkHw := seq(PCI_MAX_BAR, i requires 0 <= i < PCI_MAX_BAR => ClearUserMapping(c.dpdkHw[i])))
  }

  /** A context without user mappings is left as it is. */
  lemma UnmapUnmappedIsIdentity(c: Context)
    requires Valid(c) && Unmapped(c)
    ensures UnmapUser(c) == c
  {
    var r := UnmapUser(c);
    assert r.dpdkHw == c.dpdkHw by {
      forall i | 0 <= i < PCI_MAX_BAR
        ensures r.dpdkHw[i] == c.dpdkHw[i]
      {
        assert c.dpdkHw[i].mem.userMappedVirtAddr == NULL;
      }
    }
  }

  /** Unmapping twice is unmapping once. */
  lemma UnmapIdempotent(c: Context)
    requires Valid(c)
    ensures UnmapUser(UnmapUser(c)) == UnmapUser(c)
  {
    UnmapUnmappedIsIdentity(UnmapUser(c));
  }

  // -------------------------------------------------------------------
  // Mapping into the calling process
  // -------------------------------------------------------------------

  /** An exception code: never STATUS_SUCCESS. */
  type ExceptionCode = s: Status | s != STATUS_SUCCESS witness STATUS_UNSUCCESSFUL

  /** What one MmMapLockedPagesSpecifyCache call does: return an address (NULL for failure) or raise. */
  datatype MapOutcome = Returned(addr: Ptr) | Raised(code: ExceptionCode)

  /** The call produced a usable mapping. */
  predicate MapOk(o: MapOutcome)
  {
    o.Returned? && o.addr != NULL
  }

  /** The status a failed mapping call leads to. */
  function MapFailure(o: MapOutcome): (s: Status)
    requires !MapOk(o)
    ensures s != STATUS_SUCCESS
    ensures o.Returned? ==> s == STATUS_INSUFFICIENT_RESOURCES
  {
    match o
    case Returned(_) => STATUS_INSUFFICIENT_RESOURCES
    case Raised(code) => code
  }

  /** Records a user mapping on a slot. */
  function SetUserMapping(m: MemMapRegion, a: Ptr): MemMapRegion
  {
    m.(mem := m.mem.(userMappedVirtAddr := a))
  }

  /** Every BAR slot from `i` on that has an MDL maps successfully. */
  predicate BarsMappable(c: Context, outs: seq<MapOutcome>, i: nat)
    requires Valid(c) && |outs| == PCI_MAX_BAR
  {
    forall k :: i <= k < PCI_MAX_BAR && c.dpdkHw[k].mdl != NULL ==> MapOk(outs[k])
  }

  /**
   * The BAR loop of `netuio_map_address_into_user_process` from slot `i`:
   * slots without an MDL are skipped; the first failing call stops the loop.
   */
  function MapBars(c: Context, outs: seq<MapOutcome>, i: nat): (r: (Status, Context))
    requires Valid(c) && |outs| == PCI_MAX_BAR && i <= PCI_MAX_BAR
    ensures Valid(r.1) && SameButUserMappings(c, r.1)
    ensures r.1.dpdkSeg == c.dpdkSeg
    ensures r.0 == STATUS_SUCCESS <==> BarsMappable(c, outs, i)
    ensures forall k :: 0 <= k < i ==> r.1.dpdkHw[k] == c.dpdkHw[k]
    ensures r.0 == STATUS_SUCCESS ==>
      forall k :: i <= k < PCI_MAX_BAR ==>
        r.1.dpdkHw[k].mem.userMappedVirtAddr ==
          (if c.dpdkHw[k].mdl != NULL then outs[k].addr else c.dpdkHw[k].mem.userMappedVirtAddr)
    decreases PCI_MAX_BAR - i
  {
    if i == PCI_MAX_BAR then (STATUS_SUCCESS, c)
    else if c.dpdkHw[i].mdl == NULL then MapBars(c, outs, i + 1)
    else
      var o := outs[i];
      var c1 := c.(dpdkHw := c.dpdkHw[i := SetUserMapping(c.dpdkHw[i], if o.Returned? then o.addr else c.dpdkHw[i].mem.userMappedVirtAddr)]);
      if !MapOk(o) then (MapFailure(o), c1)
      else MapBars(c1, outs, i + 1)
  }

  /** Every mapping the request needs succeeds: the pool, and every BAR slot with an MDL. */
  predicate AllMappable(c: Context, seg: MapOutcome, outs: seq<MapOutcome>)
    requires Valid(c) && |outs| == PCI_MAX_BAR
  {
    MapOk(seg) && BarsMappable(c, outs, 0)
  }

  /**
   * `netuio_map_address_into_user_process`: the pool first, then the BARs;
   * on any failure everything mapped so far is unmapped.
   */
  function MapIntoUser(c: Context, seg: MapOutcome, outs: seq<MapOutcome>): (r: (Status, Context))
    requires Valid(c) && |outs| == PCI_MAX_BAR
    ensures Valid(r.1) && SameButUserMappings(c, r.1)
    ensures r.0 == STATUS_SUCCESS <==> AllMappable(c, seg, outs)
    ensures r.0 != STATUS_SUCCESS ==> Unmapped(r.1)
    ensures seg.Returned? && seg.addr == NULL ==> r.0 == STATUS_INSUFFICIENT_RESOURCES
    ensures seg.Raised? ==> r.0 == seg.code
    ensures r.0 == STATUS_SUCCESS ==>
      (r.1.dpdkSeg.mem.userMappedVirtAddr == seg.addr &&
       forall k :: 0 <= k < PCI_MAX_BAR ==>
         r.1.dpdkHw[k].mem.userMappedVirtAddr ==
           (if c.dpdkHw[k].mdl != NULL then outs[k].addr else c.dpdkHw[k].mem.userMappedVirtAddr))
  {
    var c1 := c.(dpdkSeg := SetUserMapping(c.dpdkSeg, if seg.Returned? then seg.addr else c.dpdkSeg.mem.userMappedVirtAddr));
    if !MapOk(seg) then (MapFailure(seg), UnmapUser(c1))
    else
      var (st, c2) := MapBars(c1, outs, 0);
      if st != STATUS_SUCCESS then (st, UnmapUser(c2)) else (st, c2)
  }

  /** Slots without an MDL are never mapped: on success they keep their previous user address, on failure it is NULL. */
  lemma SlotsWithoutMdlNotMapped(c: Context, seg: MapOutcome, outs: seq<MapOutcome>, k: nat)
    requires Valid(c) && |outs| == PCI_MAX_BAR && k < PCI_MAX_BAR && c.dpdkHw[k].mdl == NULL
    ensures var r := MapIntoUser(c, seg, outs);
      r.1.dpdkHw[k].mem.userMappedVirtAddr ==
        (if r.0 == STATUS_SUCCESS then c.dpdkHw[k].mem.userMappedVirtAddr else NULL)
  {
  }

  // -------------------------------------------------------------------
  // The map-hardware request
  // -------------------------------------------------------------------

  /**
   * `netuio_handle_get_hw_data_request`: a zeroed reply carrying, per BAR,
   * its bus address, user mapping and size, and the same for the pool.
   */
  function HwDataReply(c: Context): (p: PrivateInfo)
    requires Valid(c)
    ensures ValidPrivateInfo(p)
    ensures forall i :: 0 <= i < PCI_MAX_BAR ==>
      p.hw[i].physAddr == c.bar[i].baseAddr && p.hw[i].size == c.bar[i].size &&
      p.hw[i].userMappedVirtAddr == c.dpdkHw[i].mem.userMappedVirtAddr && p.hw[i].virtAddr == NULL
    ensures p.ms == MemRegion(c.dpdkSeg.mem.size, c.dpdkSeg.mem.physAddr, NULL, c.dpdkSeg.mem.userMappedVirtAddr)
    ensures p.devAddr == DevAddr(0, 0, 0) && p.devId == 0 && p.subDevId == 0 && p.reserved == 0
  {
    var z := ZeroPrivateInfo();
    z.(hw := seq(PCI_MAX_BAR, i requires 0 <= i < PCI_MAX_BAR =>
          MemRegion(c.bar[i].size, c.bar[i].baseAddr, NULL, c.dpdkHw[i].mem.userMappedVirtAddr)),
       ms := MemRegion(c.dpdkSeg.mem.size, c.dpdkSeg.mem.physAddr, NULL, c.dpdkSeg.mem.userMappedVirtAddr))
  }

  /** The reply never reports the NUMA node, whatever the context holds. */
  lemma ReplyOmitsNumaNode(c: Context)
    requires Valid(c)
    ensures HwDataReply(c).devNumaNode == 0
    ensures HwDataReply(c) == HwDataReply(c.(numaNode := c.numaNode + 1))
  {
  }

  /** The kind of request the framework hands to the in-caller-context callback. */
  datatype RequestType = DeviceControl | OtherRequest

  /** A request as seen by `netuio_evt_IO_in_caller_context`, with the results of the framework calls it makes. */
  datatype CallerRequest = CallerRequest(
    kind: RequestType,
    code: nat,
    inputLength: nat,
    input: PrivateInfo,
    outputLength: nat,
    enqueueStatus: Status,
    seg: MapOutcome,
    bars: seq<MapOutcome>)

  predicate ValidCallerRequest(q: CallerRequest)
  {
    |q.bars| == PCI_MAX_BAR
  }

  /**
   * What happens to the request: handed to the queue, handed back
   * completed because queueing failed, or completed here with a status,
   * a byte count and the reply written (if any). `poolZeroed` says whether
   * the pool was cleared.
   */
  datatype CallerOutcome =
    | Enqueued
    | EnqueueFailed(status: Status)
    | Completed(status: Status, bytes: nat, reply: Option<PrivateInfo>, poolZeroed: bool)

  predicate SameDevice(a: DevAddr, b: DevAddr)
  {
    a.busNum == b.busNum && a.devNum == b.devNum && a.funcNum == b.funcNum
  }

  /** `netuio_evt_IO_in_caller_context`. */
  function InCallerContext(c: Context, q: CallerRequest): (r: (CallerOutcome, Context))
    requires Valid(c) && ValidCallerRequest(q)
    ensures Valid(r.1)
    ensures !(q.kind == DeviceControl && q.code == IOCTL_NETUIO_MAP_HW_INTO_USERMODE) ==>
      r.1 == c && (r.0 == Enqueued <==> NtSuccess(q.enqueueStatus)) &&
      (r.0 != Enqueued ==> r.0 == EnqueueFailed(q.enqueueStatus))
    ensures q.kind == DeviceControl && q.code == IOCTL_NETUIO_MAP_HW_INTO_USERMODE ==> r.0.Completed?
    ensures r.0.Completed? && q.inputLength < PRIVATE_INFO_SIZE ==>
      r.0.status == STATUS_INVALID_BUFFER_SIZE && r.1 == c && !r.0.poolZeroed
    ensures r.0.Completed? && q.inputLength >= PRIVATE_INFO_SIZE && !SameDevice(c.addr, q.input.devAddr) ==>
      r.0.status == STATUS_NOT_SAME_DEVICE && r.1 == c && !r.0.poolZeroed
    ensures (r.0.Completed? && q.inputLength >= PRIVATE_INFO_SIZE && SameDevice(c.addr, q.input.devAddr) &&
             c.dpdkSeg.mem.userMappedVirtAddr != NULL) ==>
      r.0.status == STATUS_ALREADY_COMMITTED && r.1 == c && !r.0.poolZeroed
    ensures (r.0.Completed? && q.inputLength >= PRIVATE_INFO_SIZE && SameDevice(c.addr, q.input.devAddr) &&
             c.dpdkSeg.mem.userMappedVirtAddr == NULL && q.outputLength < PRIVATE_INFO_SIZE) ==>
      r.0.status == STATUS_INVALID_BUFFER_SIZE && r.1 == c && !r.0.poolZeroed
    ensures r.0.Completed? && r.0.status != STATUS_SUCCESS ==> r.0.bytes == 0 && r.0.reply.None?
    ensures r.0.Completed? && r.0.poolZeroed ==> c.dpdkSeg.mem.userMappedVirtAddr == NULL
    ensures r.0.Completed? && c.dpdkSeg.mem.userMappedVirtAddr != NULL ==> r.1 == c
  {
    if !(q.kind == DeviceControl && q.code == IOCTL_NETUIO_MAP_HW_INTO_USERMODE) then
      if NtSuccess(q.enqueueStatus) then (Enqueued, c) else (EnqueueFailed(q.enqueueStatus), c)
    else if q.inputLength < PRIVATE_INFO_SIZE then (Completed(STATUS_INVALID_BUFFER_SIZE, 0, None, false), c)
    else if !SameDevice(c.addr, q.input.devAddr) then (Completed(STATUS_NOT_SAME_DEVICE, 0, None, false), c)
    else if c.dpdkSeg.mem.userMappedVirtAddr != NULL then (Completed(STATUS_ALREADY_COMMITTED, 0, None, false), c)
    else if q.outputLength < PRIVATE_INFO_SIZE then (Completed(STATUS_INVALID_BUFFER_SIZE, 0, None, false), c)
    else
      var (st, c1) := MapIntoUser(c, q.seg, q.bars);
      if st != STATUS_SUCCESS then (Completed(st, 0, None, true), c1)
      else (Completed(st, q.outputLength, Some(HwDataReply(c1)), true), c1)
  }

  /** The checks before any mapping, in the order the source makes them. */
  predicate MapRequestAccepted(c: Context, q: CallerRequest)
  {
    q.kind == DeviceControl && q.code == IOCTL_NETUIO_MAP_HW_INTO_USERMODE &&
    q.inputLength >= PRIVATE_INFO_SIZE && SameDevice(c.addr, q.input.devAddr) &&
    c.dpdkSeg.mem.userMappedVirtAddr == NULL && q.outputLength >= PRIVATE_INFO_SIZE
  }

  /**
   * The request succeeds exactly when it passes the checks and every mapping
   * succeeds; the pool is zeroed exactly when the checks pass; a failure
   * leaves no user mapping; a success returns the whole output buffer with a
   * reply describing the new mappings.
   */
  lemma MapRequestAllOrNothing(c: Context, q: CallerRequest)
    requires Valid(c) && ValidCallerRequest(q)
    requires q.kind == DeviceControl && q.code == IOCTL_NETUIO_MAP_HW_INTO_USERMODE
    ensures var (o, c') := InCallerContext(c, q);
      (o.poolZeroed <==> MapRequestAccepted(c, q)) &&
      (o.status == STATUS_SUCCESS <==> MapRequestAccepted(c, q) && AllMappable(c, q.seg, q.bars)) &&
      (o.poolZeroed && o.status != STATUS_SUCCESS ==> Unmapped(c') && SameButUserMappings(c, c')) &&
      (o.status == STATUS_SUCCESS ==>
        (o.bytes == q.outputLength && o.reply == Some(HwDataReply(c')) &&
         c'.dpdkSeg.mem.userMappedVirtAddr == q.seg.addr && o.reply.value.ms.userMappedVirtAddr == q.seg.addr))
  {
  }

  // -------------------------------------------------------------------
  // Configuration-space access
  // -------------------------------------------------------------------

  /** The byte counts GetBusData and SetBusData report, and the value GetBusData reads. */
  datatype BusOracle = BusOracle(readBytes: nat, readValue: nat, writeBytes: nat)

  /** A configuration-space access the driver made: write or read, offset, width, and the value written. */
  datatype BusAccess = BusRead(offset: nat, width: nat) | BusWrite(offset: nat, width: nat, value: nat)

  /** A device-control request as `netuio_evt_IO_device_control` sees it. */
  datatype ControlRequest = ControlRequest(code: nat, inputLength: nat, input: ConfigIoRequest, outputLength: nat)

  /** The completion: status, byte count, the 8-byte output (if written) and the bus access (if made). */
  datatype ControlOutcome = ControlOutcome(status: Status, bytes: nat, output: Option<nat>, access: Option<BusAccess>)

  /**
   * The low `width` bytes of `v`: a value below 2^(8 * width) that differs
   * from `v` by a multiple of 2^(8 * width), and `v` itself when it fits.
   */
  function LowBytes(v: nat, width: nat): (r: nat)
    requires width <= 8
    ensures r < Pow2(8 * width)
    ensures (v - r) % Pow2(8 * width) == 0
    ensures v < Pow2(8 * width) ==> r == v
  {
    ModResidue(v, Pow2(8 * width));
    v % Pow2(8 * width)
  }

  /** `sizeof(UINT64)`: the output buffer a configuration request needs. */
  const CONFIG_OUTPUT_SIZE: nat := 8

  /** `netuio_evt_IO_device_control`. */
  function ConfigIo(c: Context, q: ControlRequest, bus: BusOracle): (r: ControlOutcome)
    ensures q.code != IOCTL_NETUIO_PCI_CONFIG_IO ==> r == ControlOutcome(STATUS_INVALID_DEVICE_REQUEST, 0, None, None)
    ensures r.status == STATUS_SUCCESS <==>
      q.code == IOCTL_NETUIO_PCI_CONFIG_IO && q.inputLength >= CONFIG_IO_SIZE && ValidAccessSize(q.input.accessSize) &&
      SameDevice(c.addr, q.input.devAddr) && q.outputLength >= CONFIG_OUTPUT_SIZE &&
      (q.input.op == PCI_IO_READ || q.input.op == PCI_IO_WRITE)
    ensures r.access.Some? <==> r.status == STATUS_SUCCESS
    ensures r.status != STATUS_SUCCESS ==> r.bytes == 0 && r.output.None?
    ensures r.status == STATUS_SUCCESS && q.input.op == PCI_IO_READ ==>
      (r.access == Some(BusRead(q.input.offset, q.input.accessSize)) && r.bytes == bus.readBytes &&
       r.output == Some(LowBytes(bus.readValue, q.input.accessSize)) && r.output.value < Pow2(8 * q.input.accessSize))
    ensures r.status == STATUS_SUCCESS && q.input.op == PCI_IO_WRITE ==>
      (r.access == Some(BusWrite(q.input.offset, q.input.accessSize, LowBytes(q.input.data, q.input.accessSize))) &&
       r.bytes == bus.writeBytes && r.output.None?)
  {
    if q.code != IOCTL_NETUIO_PCI_CONFIG_IO then ControlOutcome(STATUS_INVALID_DEVICE_REQUEST, 0, None, None)
    else if q.inputLength < CONFIG_IO_SIZE then ControlOutcome(STATUS_INVALID_BUFFER_SIZE, 0, None, None)
    else if !ValidAccessSize(q.input.accessSize) then ControlOutcome(STATUS_INVALID_PARAMETER, 0, None, None)
    else if !SameDevice(c.addr, q.input.devAddr) then ControlOutcome(STATUS_NOT_SAME_DEVICE, 0, None, None)
    else if q.outputLength < CONFIG_OUTPUT_SIZE then ControlOutcome(STATUS_INVALID_BUFFER_SIZE, 0, None, None)
    else if q.input.op == PCI_IO_READ then
      var w := q.input.accessSize;
      ControlOutcome(STATUS_SUCCESS, bus.readBytes, Some(LowBytes(bus.readValue, w)), Some(BusRead(q.input.offset, w)))
    else if q.input.op == PCI_IO_WRITE then
      var w := q.input.accessSize;
      ControlOutcome(STATUS_SUCCESS, bus.writeBytes, None, Some(BusWrite(q.input.offset, w, LowBytes(q.input.data, w))))
    else ControlOutcome(STATUS_INVALID_PARAMETER, 0, None, None)
  }

  /**
   * A read returns the configuration data: when the value GetBusData reads
   * fits the access width, the output buffer holds exactly that value.
   */
  lemma ConfigReadReturnsData(c: Context, q: ControlRequest, bus: BusOracle)
    requires q.code == IOCTL_NETUIO_PCI_CONFIG_IO && q.inputLength >= CONFIG_IO_SIZE
    requires ValidAccessSize(q.input.accessSize) && SameDevice(c.addr, q.input.devAddr)
    requires q.outputLength >= CONFIG_OUTPUT_SIZE && q.input.op == PCI_IO_READ
    requires bus.readValue < Pow2(8 * q.input.accessSize)
    ensures ConfigIo(c, q, bus).status == STATUS_SUCCESS
    ensures ConfigIo(c, q, bus).output == Some(bus.readValue)
  {
  }

  /**
   * A bad width is reported before the address is looked at: a request with
   * a width outside 1, 2, 4, 8 fails with INVALID_PARAMETER even when it
   * names another device, and touches no configuration space.
   */
  lemma WidthCheckedBeforeAddress(c: Context, q: ControlRequest, bus: BusOracle)
    requires q.code == IOCTL_NETUIO_PCI_CONFIG_IO && q.inputLength >= CONFIG_IO_SIZE
    requires !ValidAccessSize(q.input.accessSize)
    ensures ConfigIo(c, q, bus) == ControlOutcome(STATUS_INVALID_PARAMETER, 0, None, None)
  {
  }

  /** With a valid width, a request for another device fails with NOT_SAME_DEVICE whatever the operation. */
  lemma AddressCheckedBeforeOperation(c: Context, q: ControlRequest, bus: BusOracle)
    requires q.code == IOCTL_NETUIO_PCI_CONFIG_IO && q.inputLength >= CONFIG_IO_SIZE
    requires ValidAccessSize(q.input.accessSize) && !SameDevice(c.addr, q.input.devAddr)
    ensures ConfigIo(c, q, bus).status == STATUS_NOT_SAME_DEVICE && ConfigIo(c, q, bus).access.None?
  {
  }

  /** The configuration request's outcome does not depend on the user-space mappings the context holds. */
  lemma ConfigIoOutcomeIndependentOfMappings(c: Context, q: ControlRequest, bus: BusOracle)
    requires Valid(c)
    ensures ConfigIo(c, q, bus) == ConfigIo(UnmapUser(c), q, bus)
  {
  }
}
