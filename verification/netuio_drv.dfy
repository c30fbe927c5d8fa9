/**
 * The netuio driver's framework callbacks: driver entry, device add,
 * prepare-hardware, release-hardware and file cleanup, as transitions of
 * one device's state.
 */
module NetuioDrv {
  import opened CTypes
  import opened NtStatus
  import opened NetuioInterface
  import opened NetuioDev
  import opened NetuioQueue

  /**
   * `DriverEntry`: the failure path and the success path both return the
   * status `WdfDriverCreate` gave, so a failure is passed on as it is
   * rather than as STATUS_UNSUCCESSFUL.
   */
  function DriverEntry(driverCreate: Status): (r: Status)
    ensures NtSuccess(r) <==> NtSuccess(driverCreate)
    ensures r == driverCreate
  {
    driverCreate
  }

  /** One device as the framework sees it: no context until the device object exists. */
  datatype Device = Device(ctx: Option<Context>)

  predicate ValidDevice(d: Device)
  {
    d.ctx.Some? ==> Valid(d.ctx.value)
  }

  /** The framework events the driver handles for a device. */
  datatype Event =
    | Add(create: CreateInputs)
    | PrepareHw(hw: HwInputs)
    | ReleaseHw
    | FileCleanup

  predicate ValidEvent(e: Event)
  {
    e.PrepareHw? ==> ValidHwInputs(e.hw)
  }

  /**
   * The callback for each event. Add runs `netuio_create_device`;
   * prepare-hardware runs `netuio_map_hw_resources`; release-hardware frees
   * the hardware resources and reports success; file cleanup unmaps the
   * caller's mappings when there is a context.
   */
  function Handle(d: Device, e: Event): (r: (Status, Device))
    requires ValidDevice(d) && ValidEvent(e)
    ensures ValidDevice(r.1)
    ensures e.Add? ==> r.0 == CreateDevice(e.create).status && r.1.ctx == CreateDevice(e.create).ctx
    ensures e.PrepareHw? ==> r.0 == MapHwResources(d.ctx, e.hw).0 && r.1.ctx == MapHwResources(d.ctx, e.hw).1
    ensures e.ReleaseHw? ==> r.0 == STATUS_SUCCESS && (r.1.ctx.Some? <==> d.ctx.Some?)
    ensures e.ReleaseHw? && d.ctx.Some? ==> HwCleared(r.1.ctx.value)
    ensures e.FileCleanup? ==> r.0 == STATUS_SUCCESS && (r.1.ctx.Some? <==> d.ctx.Some?)
    ensures e.FileCleanup? && d.ctx.Some? ==>
      Unmapped(r.1.ctx.value) && SameButUserMappings(d.ctx.value, r.1.ctx.value)
  {
    match e
    case Add(create) => var cr := CreateDevice(create); (cr.status, Device(cr.ctx))
    case PrepareHw(hw) => var (st, oc) := MapHwResources(d.ctx, hw); (st, Device(oc))
    case ReleaseHw =>
      (STATUS_SUCCESS, if d.ctx.Some? then Device(Some(FreeHwResources(d.ctx.value))) else d)
    case FileCleanup =>
      (STATUS_SUCCESS, if d.ctx.Some? then Device(Some(UnmapUser(d.ctx.value))) else d)
  }

  /** A map request for the device's own address with buffers of the right size. */
  predicate WellFormedMapRequest(c: Context, q: CallerRequest)
  {
    q.kind == DeviceControl && q.code == IOCTL_NETUIO_MAP_HW_INTO_USERMODE &&
    q.inputLength >= PRIVATE_INFO_SIZE && q.outputLength >= PRIVATE_INFO_SIZE &&
    SameDevice(c.addr, q.input.devAddr)
  }

  /**
   * Closing the handle makes the device mappable again: after a successful
   * map request a second one is refused with ALREADY_COMMITTED, and after
   * the file cleanup the same request succeeds again when the kernel maps.
   */
  lemma CleanupAllowsRemap(c: Context, q: CallerRequest)
    requires Valid(c) && ValidCallerRequest(q) && WellFormedMapRequest(c, q)
    requires c.dpdkSeg.mem.userMappedVirtAddr == NULL
    requires AllMappable(c, q.seg, q.bars)
    ensures var (o1, c1) := InCallerContext(c, q);
      o1.status == STATUS_SUCCESS &&
      InCallerContext(c1, q).0.status == STATUS_ALREADY_COMMITTED &&
      InCallerContext(Handle(Device(Some(c1)), FileCleanup).1.ctx.value, q).0.status == STATUS_SUCCESS
  {
    var (o1, c1) := InCallerContext(c, q);
    MapRequestAllOrNothing(c, q);
    var c2 := Handle(Device(Some(c1)), FileCleanup).1.ctx.value;
    assert SameButUserMappings(c, c2);
    assert c2.dpdkHw == UnmapUser(c1).dpdkHw;
    forall k | 0 <= k < PCI_MAX_BAR
      ensures c2.dpdkHw[k].mdl == c.dpdkHw[k].mdl
    {
    }
    assert BarsMappable(c2, q.bars, 0);
    MapRequestAllOrNothing(c2, q);
  }

  /** Releasing the hardware twice leaves the device as one release does. */
  lemma ReleaseIdempotent(d: Device)
    requires ValidDevice(d)
    ensures var d1 := Handle(d, ReleaseHw).1;
      Handle(d1, ReleaseHw).1 == d1
  {
    if d.ctx.Some? {
      FreeHwResourcesIdempotent(d.ctx.value);
    }
  }

  /** A prepare-hardware failure leaves no BAR resources recorded, so a later release has nothing left to free. */
  lemma FailedPrepareLeavesNothing(d: Device, h: HwInputs)
    requires ValidDevice(d) && d.ctx.Some? && ValidHwInputs(h)
    ensures var (st, d1) := Handle(d, PrepareHw(h));
      st != STATUS_SUCCESS ==> Handle(d1, ReleaseHw).1 == d1
  {
    var (st, d1) := Handle(d, PrepareHw(h));
    if st != STATUS_SUCCESS {
      var c := d1.ctx.value;
      assert HwCleared(c);
      assert c.bar == seq(PCI_MAX_BAR, _ => ZERO_BAR);
      assert c.dpdkHw == seq(PCI_MAX_BAR, _ => ZERO_MAP);
    }
  }
}
