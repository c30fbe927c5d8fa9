/**
 * The generic flow API's library side: the error helpers, the lookup of a
 * port's flow operations, the wrappers that forward to a driver, and the
 * two-pass `rte_flow_copy` that measures and then stores a flow rule
 * description.
 *
 * The driver is not part of this model: each callback is replaced by the
 * value it returns (or its absence), and the port table by one `Port`
 * record. `rte_errno` and the caller's `struct rte_flow_error` are passed in
 * and handed back as plain values. The error numbers are those of the
 * Windows C runtime's `errno.h`.
 *
 * For `rte_flow_copy`, the sizes of the structures (`rte_flow_item`,
 * `rte_flow_action`, the header of `rte_flow_desc`, the fixed parts of the
 * RAW spec and of the RSS conf) and the per-type size tables are
 * parameters. What is copied is modelled by where it lands: a `Region`
 * (offset from `desc->data` and length) per header and per payload.
 */
module RteFlow {
  import opened CTypes
  import opened Arith
  import AlignMacros

  const EIO: int := 5
  const ENODEV: int := 19
  const ENOSYS: int := 40
  const ENOTSUP: int := 129

  /** `enum rte_flow_error_type`: the library only ever sets UNSPECIFIED. */
  datatype ErrorType = Unspecified | DriverErrorType(value: nat)

  /** The message an error carries: `rte_strerror(code)` or a driver's own text. */
  datatype Message = Strerror(code: int) | DriverMessage(text: string)

  /** `struct rte_flow_error`. */
  datatype FlowError = FlowError(kind: ErrorType, cause: Option<Ptr>, message: Message)

  /**
   * What a call leaves behind: its return value, `rte_errno`, and the
   * caller's error structure (`None` when the caller passed NULL).
   */
  datatype Status = Status(ret: int, errno: int, error: Option<FlowError>)

  /**
   * `rte_flow_error_set`: fills the error structure when there is one, sets
   * `rte_errno` to `code` and returns `-code`.
   */
  function ErrorSet(error: Option<FlowError>, code: int, kind: ErrorType, cause: Option<Ptr>, message: Message): (r: Status)
    ensures r.ret == -code && r.errno == code
    ensures r.error.Some? <==> error.Some?
    ensures r.error.Some? ==> r.error.value.kind == kind && r.error.value.cause == cause && r.error.value.message == message
  {
    Status(-code, code, if error.Some? then Some(FlowError(kind, cause, message)) else None)
  }

  /** The library's own failures: UNSPECIFIED, no cause, `rte_strerror(code)`. */
  function Fail(error: Option<FlowError>, code: int): (r: Status)
    ensures r.ret == -code && r.errno == code
    ensures r.error.Some? <==> error.Some?
  {
    ErrorSet(error, code, Unspecified, None, Strerror(code))
  }

  /** Setting the same error twice leaves what setting it once does. */
  lemma ErrorSetIdempotent(error: Option<FlowError>, code: int, kind: ErrorType, cause: Option<Ptr>, message: Message)
    ensures var once := ErrorSet(error, code, kind, cause, message);
            ErrorSet(once.error, code, kind, cause, message) == once
  {
  }

  /**
   * `flow_err`: a driver's zero passes through untouched; a nonzero result on
   * a port that has been removed becomes `-EIO`; any other result passes
   * through.
   */
  function FlowErr(removed: bool, ret: int, errno: int, error: Option<FlowError>): (r: Status)
    ensures ret == 0 ==> r == Status(0, errno, error)
    ensures ret != 0 && removed ==> r == Fail(error, EIO)
    ensures ret != 0 && !removed ==> r == Status(ret, errno, error)
  {
    if ret == 0 then Status(0, errno, error)
    else if removed then Fail(error, EIO)
    else Status(ret, errno, error)
  }

  /** `flow_err` reports success exactly when the driver did, and any failure it rewrites is `-EIO`. */
  lemma FlowErrKeepsOutcome(removed: bool, ret: int, errno: int, error: Option<FlowError>)
    ensures FlowErr(removed, ret, errno, error).ret == 0 <==> ret == 0
    ensures FlowErr(removed, ret, errno, error).ret != ret ==> FlowErr(removed, ret, errno, error).ret == -EIO
  {
  }

  /** What a driver's `create` callback does: return a flow, or return NULL with `rte_errno` set. */
  datatype CreateOutcome = Created(flow: Ptr) | CreateFailed(errno: int)

  /** `struct rte_flow_ops`: each callback is absent (NULL) or the value it returns. */
  datatype FlowOps = FlowOps(
    validate: Option<int>,
    create: Option<CreateOutcome>,
    destroy: Option<int>,
    flush: Option<int>,
    query: Option<int>,
    isolate: Option<int>)

  /** The device's `filter_ctrl` callback, asked for the generic flow operations. */
  datatype FilterCtrl = NoFilterCtrl | FilterCtrl(ret: int, ops: Option<FlowOps>)

  /** The slot `rte_eth_devices[port_id]` as the flow API sees it. */
  datatype Port = Port(valid: bool, removed: bool, filterCtrl: FilterCtrl)

  datatype OpsLookup = Found(ops: FlowOps) | NotFound(status: Status)

  /**
   * `rte_flow_ops_get`: an invalid port fails with ENODEV; a port whose
   * driver has no `filter_ctrl`, whose `filter_ctrl` fails, or which hands
   * back no operations fails with ENOSYS.
   */
  function OpsGet(port: Port, error: Option<FlowError>): (r: OpsLookup)
    ensures r.Found? <==> port.valid && port.filterCtrl.FilterCtrl? && port.filterCtrl.ret == 0 && port.filterCtrl.ops.Some?
    ensures r.Found? ==> r.ops == port.filterCtrl.ops.value
    ensures !port.valid ==> r == NotFound(Fail(error, ENODEV))
    ensures port.valid && r.NotFound? ==> r == NotFound(Fail(error, ENOSYS))
  {
    if !port.valid then NotFound(Fail(error, ENODEV))
    else if port.filterCtrl.NoFilterCtrl? || port.filterCtrl.ret != 0 || port.filterCtrl.ops.None? then
      NotFound(Fail(error, ENOSYS))
    else Found(port.filterCtrl.ops.value)
  }

  /** The wrappers that return an `int`. */
  datatype Op = Validate | Destroy | Flush | Query | Isolate

  function Callback(ops: FlowOps, op: Op): Option<int>
  {
    match op
    case Validate => ops.validate
    case Destroy => ops.destroy
    case Flush => ops.flush
    case Query => ops.query
    case Isolate => ops.isolate
  }

  /** The driver callback `op` reaches on `port`, if the lookup succeeds. */
  function Reached(port: Port, op: Op): Option<int>
  {
    if port.valid && port.filterCtrl.FilterCtrl? && port.filterCtrl.ret == 0 && port.filterCtrl.ops.Some? then
      Callback(port.filterCtrl.ops.value, op)
    else None
  }

  /**
   * `rte_flow_validate`, `_destroy`, `_flush`, `_query`, `_isolate`: a failed
   * lookup returns `-rte_errno`; an absent callback fails with ENOSYS; a
   * present one is called and its result goes through `flow_err`.
   */
  function CallOp(port: Port, op: Op, errno: int, error: Option<FlowError>): (r: Status)
    ensures !port.valid ==> r == Fail(error, ENODEV)
    ensures OpsGet(port, error).NotFound? ==> r.ret == -r.errno && r.errno in {ENODEV, ENOSYS}
    ensures OpsGet(port, error).Found? && Callback(OpsGet(port, error).ops, op).None? ==> r == Fail(error, ENOSYS)
    ensures Reached(port, op).Some? ==> r == FlowErr(port.removed, Reached(port, op).value, errno, error)
  {
    match OpsGet(port, error)
    case NotFound(s) => Status(-s.errno, s.errno, s.error)
    case Found(ops) =>
      match Callback(ops, op)
      case None => Fail(error, ENOSYS)
      case Some(ret) => FlowErr(port.removed, ret, errno, error)
  }

  /**
   * A wrapper succeeds exactly when it reached a driver callback that
   * returned zero, and then nothing else changes; otherwise it either
   * passes the driver's value through or reports its own error as
   * `-rte_errno`.
   */
  lemma CallOpOutcome(port: Port, op: Op, errno: int, error: Option<FlowError>)
    ensures var r := CallOp(port, op, errno, error);
            (r.ret == 0 <==> Reached(port, op) == Some(0)) &&
            (r.ret == 0 ==> r == Status(0, errno, error))
    ensures var r := CallOp(port, op, errno, error);
            (Reached(port, op).Some? && r == Status(Reached(port, op).value, errno, error)) ||
            (r.ret == -r.errno && r.errno in {ENODEV, ENOSYS, EIO})
  {
  }

  /** `rte_flow_create`: the flow handle, or NULL with `rte_errno` and the error set. */
  datatype CreateResult = CreateResult(flow: Option<Ptr>, errno: int, error: Option<FlowError>)

  /**
   * `rte_flow_create`: a failed lookup or an absent callback yield NULL; a
   * NULL from the driver, whether or not it set an errno of its own, goes
   * through `flow_err` with `-rte_errno`, which turns the error into EIO
   * when the port has been removed.
   */
  function Create(port: Port, errno: int, error: Option<FlowError>): (r: CreateResult)
    ensures r.flow.Some? <==>
      OpsGet(port, error).Found? && OpsGet(port, error).ops.create.Some? &&
      OpsGet(port, error).ops.create.value.Created? && OpsGet(port, error).ops.create.value.flow != NULL
    ensures r.flow.Some? ==> r.flow.value == OpsGet(port, error).ops.create.value.flow && r.flow.value != NULL && r.errno == errno && r.error == error
    ensures OpsGet(port, error).Found? && OpsGet(port, error).ops.create == Some(Created(NULL)) ==>
      r.flow.None? && r.errno == (if port.removed && errno != 0 then EIO else errno)
    ensures !port.valid ==> r.errno == ENODEV
    ensures OpsGet(port, error).Found? && OpsGet(port, error).ops.create.None? ==> r == CreateResult(None, ENOSYS, Fail(error, ENOSYS).error)
    ensures OpsGet(port, error).Found? && OpsGet(port, error).ops.create.Some? && OpsGet(port, error).ops.create.value.CreateFailed? ==>
              var e := OpsGet(port, error).ops.create.value.errno;
              r.flow.None? && r.errno == (if port.removed && e != 0 then EIO else e)
  {
    match OpsGet(port, error)
    case NotFound(s) => CreateResult(None, s.errno, s.error)
    case Found(ops) =>
      match ops.create
      case None =>
        var s := Fail(error, ENOSYS);
        CreateResult(None, s.errno, s.error)
      case Some(Created(f)) =>
        if f == NULL then
          var s := FlowErr(port.removed, -errno, errno, error);
          CreateResult(None, s.errno, s.error)
        else CreateResult(Some(f), errno, error)
      case Some(CreateFailed(e)) =>
        var s := FlowErr(port.removed, -e, e, error);
        CreateResult(None, s.errno, s.error)
  }

  // ---------------------------------------------------------------------
  // rte_flow_copy

  /** `v` rounded up to a multiple of 8, `RTE_ALIGN_CEIL(v, sizeof(double))`. */
  function RoundUp8(v: nat): (r: nat)
    ensures r % 8 == 0 && v <= r < v + 8
  {
    v + (8 - v % 8) % 8
  }

  /** Below 2^64 the rounding is the `RTE_ALIGN_CEIL` of the alignment macros. */
  lemma RoundUp8IsAlignCeil(v: nat)
    requires v + 7 < U64_LIMIT
    ensures AlignMacros.PowerOfTwo(8)
    ensures RoundUp8(v) == AlignMacros.AlignCeil(v, 8)
  {
    assert AlignMacros.PowerOfTwo(8) by {
      assert AlignMacros.PowerOfTwo(1);
      assert AlignMacros.PowerOfTwo(2);
      assert AlignMacros.PowerOfTwo(4);
    }
    var c := AlignMacros.AlignCeil(v, 8);
    var r := RoundUp8(v);
    if r < c {
      AlignMacros.AlignedGap(r, c, 8);
    } else if c < r {
      AlignMacros.AlignedGap(c, r, 8);
    }
  }

  /** Rounding a multiple of 8 changes nothing. */
  lemma RoundUp8Fixed(v: nat)
    requires v % 8 == 0
    ensures RoundUp8(v) == v
  {
  }

  /** Item type values of `enum rte_flow_item_type` (the table's order). */
  const ITEM_END: int := 0
  const ITEM_RAW: int := 8
  /** Action type values of `enum rte_flow_action_type` (the table's order). */
  const ACTION_END: int := 0
  const ACTION_RSS: int := 8

  /** `struct rte_flow_desc_data`: whether the entry has a name, and the spec/conf size. */
  datatype TypeDesc = TypeDesc(named: bool, size: nat)

  /** `rte_flow_desc_item[]` and `rte_flow_desc_action[]`. */
  datatype Tables = Tables(items: seq<TypeDesc>, actions: seq<TypeDesc>)
  {
    /**
     * The tables as this file declares them: 32 item types and 25 action
     * types, every one named, with a zero size for the types that carry
     * no spec or conf.
     */
    predicate AsDeclared()
    {
      |items| == 32 && |actions| == 25 &&
      (forall k :: 0 <= k < |items| ==> items[k].named) &&
      (forall k :: 0 <= k < |actions| ==> actions[k].named) &&
      (forall k :: k in {0, 1, 2, 4} ==> items[k].size == 0) &&
      (forall k :: k in {0, 1, 2, 4, 6, 9, 14, 16, 17, 18, 19} ==> actions[k].size == 0)
    }
  }

  /**
   * Structure sizes the copy depends on: `sizeof(struct rte_flow_item)`,
   * `sizeof(struct rte_flow_action)`, `offsetof(struct rte_flow_desc, data)`,
   * `offsetof(struct rte_flow_item_raw, pattern)` and the size of one
   * pattern byte, `offsetof(struct rte_flow_action_rss, queue)` and the
   * size of one queue index.
   */
  datatype Abi = Abi(
    itemSize: nat,
    actionSize: nat,
    dataOffset: nat,
    rawPatternOffset: nat,
    rawElemSize: nat,
    rssQueueOffset: nat,
    rssElemSize: nat)

  /** A spec or conf: only the element count matters, RAW's `length` or RSS's `queue_num`. */
  datatype Conf = Conf(count: nat)

  /** `struct rte_flow_item`: its type and which of `spec`, `last`, `mask` are non-NULL. */
  datatype Item = Item(kind: int, spec: Option<Conf>, last: bool, mask: bool)

  /** `struct rte_flow_action`: its type and its `conf`, if non-NULL. */
  datatype Action = Action(kind: int, conf: Option<Conf>)

  /** The copy's test: the type indexes the table (as a `size_t`) and has a name. */
  predicate KnownItem(tab: Tables, kind: int)
  {
    0 <= kind < |tab.items| && tab.items[kind].named
  }

  predicate KnownAction(tab: Tables, kind: int)
  {
    0 <= kind < |tab.actions| && tab.actions[kind].named
  }

  /** With the declared tables, a type is known exactly when it is one of the listed values. */
  lemma KnownAsDeclared(tab: Tables, kind: int)
    requires tab.AsDeclared()
    ensures KnownItem(tab, kind) <==> 0 <= kind < 32
    ensures KnownAction(tab, kind) <==> 0 <= kind < 25
  {
  }

  /** A size and the padding that rounds it up to 8 bytes. */
  datatype Footprint = Footprint(size: nat, pad: nat)

  /**
   * `flow_item_spec_size`: no spec takes no room; a RAW spec takes its
   * fixed part plus `length` pattern elements; any other spec takes the
   * table's size. The padding brings the size to a multiple of 8.
   */
  function ItemSpecSize(abi: Abi, tab: Tables, it: Item): (r: Footprint)
    requires KnownItem(tab, it.kind)
    ensures it.spec.None? ==> r == Footprint(0, 0)
    ensures it.spec.Some? && it.kind == ITEM_RAW ==> r.size == abi.rawPatternOffset + it.spec.value.count * abi.rawElemSize
    ensures it.spec.Some? && it.kind != ITEM_RAW ==> r.size == tab.items[it.kind].size
    ensures (r.size + r.pad) % 8 == 0 && r.pad < 8
  {
    var size :=
      if it.spec.None? then 0
      else if it.kind == ITEM_RAW then abi.rawPatternOffset + it.spec.value.count * abi.rawElemSize
      else tab.items[it.kind].size;
    Footprint(size, RoundUp8(size) - size)
  }

  /**
   * `flow_action_conf_size`: no conf takes no room; an RSS conf takes its
   * fixed part plus `queue_num` queue indices; any other conf takes the
   * table's size.
   */
  function ActionConfSize(abi: Abi, tab: Tables, a: Action): (r: Footprint)
    requires KnownAction(tab, a.kind)
    ensures a.conf.None? ==> r == Footprint(0, 0)
    ensures a.conf.Some? && a.kind == ACTION_RSS ==> r.size == abi.rssQueueOffset + a.conf.value.count * abi.rssElemSize
    ensures a.conf.Some? && a.kind != ACTION_RSS ==> r.size == tab.actions[a.kind].size
    ensures (r.size + r.pad) % 8 == 0 && r.pad < 8
  {
    var size :=
      if a.conf.None? then 0
      else if a.kind == ACTION_RSS then abi.rssQueueOffset + a.conf.value.count * abi.rssElemSize
      else tab.actions[a.kind].size;
    Footprint(size, RoundUp8(size) - size)
  }

  /** The padding is the least one: size plus padding is `RTE_ALIGN_CEIL(size, 8)`. */
  lemma FootprintIsAlignCeil(f: Footprint)
    requires (f.size + f.pad) % 8 == 0 && f.pad < 8
    requires f.size + 7 < U64_LIMIT
    ensures f.size + f.pad == AlignMacros.AlignCeil(f.size, 8)
  {
    RoundUp8IsAlignCeil(f.size);
    var r := RoundUp8(f.size);
    if r < f.size + f.pad {
      AlignMacros.AlignedGap(r, f.size + f.pad, 8);
    } else if f.size + f.pad < r {
      AlignMacros.AlignedGap(f.size + f.pad, r, 8);
    }
  }

  /**
   * The caller's obligation: walking the list meets END or a type the copy
   * refuses before the list runs out.
   */
  predicate ItemsTerminate(tab: Tables, s: seq<Item>)
    decreases |s|
  {
    |s| > 0 && (!KnownItem(tab, s[0].kind) || s[0].kind == ITEM_END || ItemsTerminate(tab, s[1..]))
  }

  predicate ActionsTerminate(tab: Tables, s: seq<Action>)
    decreases |s|
  {
    |s| > 0 && (!KnownAction(tab, s[0].kind) || s[0].kind == ACTION_END || ActionsTerminate(tab, s[1..]))
  }

  /** Every entry up to and including END is of a known type. */
  predicate ItemsSupported(tab: Tables, s: seq<Item>)
    decreases |s|
  {
    |s| > 0 && KnownItem(tab, s[0].kind) && (s[0].kind == ITEM_END || ItemsSupported(tab, s[1..]))
  }

  predicate ActionsSupported(tab: Tables, s: seq<Action>)
    decreases |s|
  {
    |s| > 0 && KnownAction(tab, s[0].kind) && (s[0].kind == ACTION_END || ActionsSupported(tab, s[1..]))
  }

  /** The entries the copy processes: everything up to and including the first END. */
  function ProcessedItems(tab: Tables, s: seq<Item>): (r: seq<Item>)
    requires ItemsSupported(tab, s)
    decreases |s|
  {
    if s[0].kind == ITEM_END then [s[0]] else [s[0]] + ProcessedItems(tab, s[1..])
  }

  /** The processed entries are a prefix of the list that ends at its first END. */
  lemma {:induction false} ProcessedItemsPrefix(tab: Tables, s: seq<Item>)
    requires ItemsSupported(tab, s)
    ensures var r := ProcessedItems(tab, s);
            0 < |r| <= |s| && r == s[..|r|] &&
            r[|r| - 1].kind == ITEM_END &&
            forall k :: 0 <= k < |r| - 1 ==> r[k].kind != ITEM_END
    decreases |s|
  {
    if s[0].kind != ITEM_END {
      ProcessedItemsPrefix(tab, s[1..]);
      var t := ProcessedItems(tab, s[1..]);
      assert s[..|t| + 1] == [s[0]] + s[1..][..|t|];
      assert forall k :: 1 <= k < |t| + 1 ==> ([s[0]] + t)[k] == t[k - 1];
    }
  }

  function ProcessedActions(tab: Tables, s: seq<Action>): (r: seq<Action>)
    requires ActionsSupported(tab, s)
    decreases |s|
  {
    if s[0].kind == ACTION_END then [s[0]] else [s[0]] + ProcessedActions(tab, s[1..])
  }

  /** The processed entries are a prefix of the list that ends at its first END. */
  lemma {:induction false} ProcessedActionsPrefix(tab: Tables, s: seq<Action>)
    requires ActionsSupported(tab, s)
    ensures var r := ProcessedActions(tab, s);
            0 < |r| <= |s| && r == s[..|r|] &&
            r[|r| - 1].kind == ACTION_END &&
            forall k :: 0 <= k < |r| - 1 ==> r[k].kind != ACTION_END
    decreases |s|
  {
    if s[0].kind != ACTION_END {
      ProcessedActionsPrefix(tab, s[1..]);
      var t := ProcessedActions(tab, s[1..]);
      assert s[..|t| + 1] == [s[0]] + s[1..][..|t|];
      assert forall k :: 1 <= k < |t| + 1 ==> ([s[0]] + t)[k] == t[k - 1];
    }
  }

  /** Reference: the bytes one item's spec, last and mask take, each padded to 8. */
  function ItemPayload(abi: Abi, tab: Tables, it: Item): nat
    requires KnownItem(tab, it.kind)
  {
    var f := ItemSpecSize(abi, tab, it);
    (if it.spec.Some? then f.size + f.pad else 0) +
    (if it.last then f.size + f.pad else 0) +
    (if it.mask then f.size + f.pad else 0)
  }

  function ActionPayload(abi: Abi, tab: Tables, a: Action): nat
    requires KnownAction(tab, a.kind)
  {
    var f := ActionConfSize(abi, tab, a);
    if a.conf.Some? then f.size + f.pad else 0
  }

  /** Reference: the payload bytes of the processed items. */
  function ItemsPayload(abi: Abi, tab: Tables, s: seq<Item>): nat
    requires ItemsSupported(tab, s)
    decreases |s|
  {
    if s[0].kind == ITEM_END then ItemPayload(abi, tab, s[0])
    else ItemPayload(abi, tab, s[0]) + ItemsPayload(abi, tab, s[1..])
  }

  function ActionsPayload(abi: Abi, tab: Tables, s: seq<Action>): nat
    requires ActionsSupported(tab, s)
    decreases |s|
  {
    if s[0].kind == ACTION_END then ActionPayload(abi, tab, s[0])
    else ActionPayload(abi, tab, s[0]) + ActionsPayload(abi, tab, s[1..])
  }

  /** A stretch of `desc->data`: its offset and its length. */
  datatype Region = Region(at: nat, len: nat)

  /**
   * `rs` lies in `[lo, hi)` in increasing order without overlap: each region
   * starts at or after the end of the one before it.
   */
  predicate Packed(rs: seq<Region>, lo: nat, hi: nat)
    decreases |rs|
  {
    if |rs| == 0 then lo <= hi
    else lo <= rs[0].at && Packed(rs[1..], rs[0].at + rs[0].len, hi)
  }

  /** The stored copy of one item: where its header went and where its spec, last and mask went. */
  datatype PlacedItem = PlacedItem(at: nat, item: Item, spec: Option<Region>, last: Option<Region>, mask: Option<Region>)

  datatype PlacedAction = PlacedAction(at: nat, action: Action, conf: Option<Region>)

  datatype ItemWalk = ItemWalk(placed: seq<PlacedItem>, off1: nat, off2: nat)

  datatype ActionWalk = ActionWalk(placed: seq<PlacedAction>, off1: nat, off2: nat)

  /** One entry placed, and where its payloads end (before rounding). */
  datatype ItemStep = ItemStep(placed: PlacedItem, end: nat)

  datatype ActionStep = ActionStep(placed: PlacedAction, end: nat)

  /**
   * One turn of the item loop: the header goes at `off1`; the spec, last and
   * mask that are present each take the spec's size plus padding from `off2`
   * on, in that order.
   */
  function PlaceItem(abi: Abi, tab: Tables, it: Item, off1: nat, off2: nat): (r: ItemStep)
    requires KnownItem(tab, it.kind)
    ensures r.placed.at == off1 && r.placed.item == it
    ensures r.end == off2 + ItemPayload(abi, tab, it)
  {
    var f := ItemSpecSize(abi, tab, it);
    var step := f.size + f.pad;
    var o2a := if it.spec.Some? then off2 + step else off2;
    var o2b := if it.last then o2a + step else o2a;
    var o2c := if it.mask then o2b + step else o2b;
    ItemStep(
      PlacedItem(
        off1, it,
        if it.spec.Some? then Some(Region(off2, f.size)) else None,
        if it.last then Some(Region(o2a, f.size)) else None,
        if it.mask then Some(Region(o2b, f.size)) else None),
      o2c)
  }

  /** One turn of the action loop: header at `off1`, conf (if any) at `off2`. */
  function PlaceAction(abi: Abi, tab: Tables, a: Action, off1: nat, off2: nat): (r: ActionStep)
    requires KnownAction(tab, a.kind)
    ensures r.placed.at == off1 && r.placed.action == a
    ensures r.end == off2 + ActionPayload(abi, tab, a)
  {
    var f := ActionConfSize(abi, tab, a);
    ActionStep(
      PlacedAction(off1, a, if a.conf.Some? then Some(Region(off2, f.size)) else None),
      if a.conf.Some? then off2 + f.size + f.pad else off2)
  }

  /**
   * The item loop of one pass of `rte_flow_copy`, from offsets `off1`
   * (headers) and `off2` (payloads): `off2` is rounded up to 8 after every
   * item, END included, and the loop stops after END.
   */
  function PlaceItems(abi: Abi, tab: Tables, s: seq<Item>, off1: nat, off2: nat): (w: ItemWalk)
    requires ItemsSupported(tab, s)
    decreases |s|
  {
    var st := PlaceItem(abi, tab, s[0], off1, off2);
    if s[0].kind == ITEM_END then ItemWalk([st.placed], off1 + abi.itemSize, RoundUp8(st.end))
    else
      var w := PlaceItems(abi, tab, s[1..], off1 + abi.itemSize, RoundUp8(st.end));
      ItemWalk([st.placed] + w.placed, w.off1, w.off2)
  }

  /** The action loop, likewise. */
  function PlaceActions(abi: Abi, tab: Tables, s: seq<Action>, off1: nat, off2: nat): (w: ActionWalk)
    requires ActionsSupported(tab, s)
    decreases |s|
  {
    var st := PlaceAction(abi, tab, s[0], off1, off2);
    if s[0].kind == ACTION_END then ActionWalk([st.placed], off1 + abi.actionSize, RoundUp8(st.end))
    else
      var w := PlaceActions(abi, tab, s[1..], off1 + abi.actionSize, RoundUp8(st.end));
      ActionWalk([st.placed] + w.placed, w.off1, w.off2)
  }

  /** The entries a walk stored, in order. */
  function ItemsOf(ps: seq<PlacedItem>): (r: seq<Item>)
    ensures |r| == |ps|
    decreases |ps|
  {
    if |ps| == 0 then [] else [ps[0].item] + ItemsOf(ps[1..])
  }

  function ActionsOf(ps: seq<PlacedAction>): (r: seq<Action>)
    ensures |r| == |ps|
    decreases |ps|
  {
    if |ps| == 0 then [] else [ps[0].action] + ActionsOf(ps[1..])
  }

  function OptRegion(o: Option<Region>): seq<Region>
  {
    if o.Some? then [o.value] else []
  }

  /** The item headers, each `itemSize` long, in order. */
  function ItemHeaders(ps: seq<PlacedItem>, size: nat): seq<Region>
    decreases |ps|
  {
    if |ps| == 0 then [] else [Region(ps[0].at, size)] + ItemHeaders(ps[1..], size)
  }

  function ActionHeaders(ps: seq<PlacedAction>, size: nat): seq<Region>
    decreases |ps|
  {
    if |ps| == 0 then [] else [Region(ps[0].at, size)] + ActionHeaders(ps[1..], size)
  }

  /** The item payloads in the order they are stored: spec, last, mask, item by item. */
  function ItemPayloads(ps: seq<PlacedItem>): seq<Region>
    decreases |ps|
  {
    if |ps| == 0 then [] else ItemStored(ps[0]) + ItemPayloads(ps[1..])
  }

  /** One item's payload stretches: spec, last, mask. */
  function ItemStored(p: PlacedItem): seq<Region>
  {
    OptRegion(p.spec) + OptRegion(p.last) + OptRegion(p.mask)
  }

  function ActionPayloads(ps: seq<PlacedAction>): seq<Region>
    decreases |ps|
  {
    if |ps| == 0 then [] else OptRegion(ps[0].conf) + ActionPayloads(ps[1..])
  }

  /** Packed stretches still lie in a wider range. */
  lemma {:induction false} PackedWiden(rs: seq<Region>, lo: nat, hi: nat, lo': nat, hi': nat)
    requires Packed(rs, lo, hi) && lo' <= lo && hi <= hi'
    ensures Packed(rs, lo', hi')
    decreases |rs|
  {
    if |rs| > 0 {
      PackedWiden(rs[1..], rs[0].at + rs[0].len, hi, rs[0].at + rs[0].len, hi');
    }
  }

  /** Two packed runs, the second starting after the first ends, form one packed run. */
  lemma {:induction false} PackedAppend(a: seq<Region>, b: seq<Region>, lo: nat, mid: nat, hi: nat)
    requires Packed(a, lo, mid) && Packed(b, mid, hi)
    ensures Packed(a + b, lo, hi)
    decreases |a|
  {
    if |a| > 0 {
      assert (a + b)[0] == a[0];
      assert (a + b)[1..] == a[1..] + b;
      PackedAppend(a[1..], b, a[0].at + a[0].len, mid, hi);
    } else {
      assert a + b == b;
    }
  }

  /** Headers packed below `h <= mid` and payloads packed from `mid` form one packed run from `lo`. */
  lemma PackedJoin(hs: seq<Region>, ps: seq<Region>, lo: nat, h: nat, mid: nat, hi: nat)
    requires Packed(hs, lo, h) && h <= mid && Packed(ps, mid, hi)
    ensures Packed(hs + ps, lo, hi)
  {
    PackedWiden(hs, lo, h, lo, mid);
    PackedAppend(hs, ps, lo, mid, hi);
  }

  /** What `Packed` promises: every region lies in `[lo, hi)` and no two overlap. */
  lemma {:induction false} PackedDisjoint(rs: seq<Region>, lo: nat, hi: nat)
    requires Packed(rs, lo, hi)
    ensures forall i :: 0 <= i < |rs| ==> lo <= rs[i].at && rs[i].at + rs[i].len <= hi
    ensures forall i, j :: 0 <= i < j < |rs| ==> rs[i].at + rs[i].len <= rs[j].at
    decreases |rs|
  {
    if |rs| > 0 {
      var t := rs[1..];
      PackedDisjoint(t, rs[0].at + rs[0].len, hi);
      if |t| > 0 {
        assert rs[0].at + rs[0].len <= t[0].at;
      } else {
        assert rs[0].at + rs[0].len <= hi;
      }
      forall i, j | 0 <= i < j < |rs|
        ensures rs[i].at + rs[i].len <= rs[j].at
      {
        if i > 0 {
          assert rs[i] == t[i - 1] && rs[j] == t[j - 1];
        } else {
          assert rs[j] == t[j - 1];
        }
      }
      forall i | 0 <= i < |rs|
        ensures lo <= rs[i].at && rs[i].at + rs[i].len <= hi
      {
        if i > 0 {
          assert rs[i] == t[i - 1];
        }
      }
    }
  }

  /** The item loop stores exactly the processed items, in order. */
  lemma {:induction false} PlaceItemsStores(abi: Abi, tab: Tables, s: seq<Item>, off1: nat, off2: nat)
    requires ItemsSupported(tab, s)
    ensures ItemsOf(PlaceItems(abi, tab, s, off1, off2).placed) == ProcessedItems(tab, s)
    decreases |s|
  {
    var st := PlaceItem(abi, tab, s[0], off1, off2);
    var o2 := RoundUp8(st.end);
    var rest := if s[0].kind == ITEM_END then ItemWalk([], off1 + abi.itemSize, o2)
                else PlaceItems(abi, tab, s[1..], off1 + abi.itemSize, o2);
    if s[0].kind != ITEM_END {
      PlaceItemsStores(abi, tab, s[1..], off1 + abi.itemSize, o2);
    }
    assert PlaceItems(abi, tab, s, off1, off2) == ItemWalk([st.placed] + rest.placed, rest.off1, rest.off2);
    PlacedItemsCons(st.placed, rest.placed, abi.itemSize);
  }

  /** The item loop takes one header per processed item. */
  lemma {:induction false} PlaceItemsHeaders(abi: Abi, tab: Tables, s: seq<Item>, off1: nat, off2: nat)
    requires ItemsSupported(tab, s)
    ensures var w := PlaceItems(abi, tab, s, off1, off2);
            w.off1 == off1 + |w.placed| * abi.itemSize
    decreases |s|
  {
    var st := PlaceItem(abi, tab, s[0], off1, off2);
    if s[0].kind == ITEM_END {
      assert PlaceItems(abi, tab, s, off1, off2).placed == [st.placed];
      assert 1 * abi.itemSize == abi.itemSize;
    } else {
      var o2 := RoundUp8(st.end);
      PlaceItemsHeaders(abi, tab, s[1..], off1 + abi.itemSize, o2);
      var w' := PlaceItems(abi, tab, s[1..], off1 + abi.itemSize, o2);
      assert |[st.placed] + w'.placed| == |w'.placed| + 1;
      MulSucc(|w'.placed|, abi.itemSize);
    }
  }

  /** The item loop leaves the payload offset aligned to 8. */
  lemma {:induction false} PlaceItemsAligned(abi: Abi, tab: Tables, s: seq<Item>, off1: nat, off2: nat)
    requires ItemsSupported(tab, s)
    ensures PlaceItems(abi, tab, s, off1, off2).off2 % 8 == 0
    decreases |s|
  {
    var st := PlaceItem(abi, tab, s[0], off1, off2);
    if s[0].kind != ITEM_END {
      PlaceItemsAligned(abi, tab, s[1..], off1 + abi.itemSize, RoundUp8(st.end));
    }
  }

  /** From an aligned start, the item loop's payloads take exactly the reference bytes. */
  lemma {:induction false} PlaceItemsPayload(abi: Abi, tab: Tables, s: seq<Item>, off1: nat, off2: nat)
    requires ItemsSupported(tab, s) && off2 % 8 == 0
    ensures PlaceItems(abi, tab, s, off1, off2).off2 == off2 + ItemsPayload(abi, tab, s)
    decreases |s|
  {
    var st := PlaceItem(abi, tab, s[0], off1, off2);
    ItemPayloadAligned(abi, tab, s[0], off2);
    RoundUp8Fixed(st.end);
    if s[0].kind == ITEM_END {
      assert PlaceItems(abi, tab, s, off1, off2).off2 == st.end;
    } else {
      PlaceItemsPayload(abi, tab, s[1..], off1 + abi.itemSize, st.end);
      assert PlaceItems(abi, tab, s, off1, off2).off2 == PlaceItems(abi, tab, s[1..], off1 + abi.itemSize, st.end).off2;
    }
  }

  /**
   * The item loop copies exactly the processed items, uses one header per
   * item, and (from an aligned start) exactly the reference payload bytes.
   */
  lemma PlaceItemsExtent(abi: Abi, tab: Tables, s: seq<Item>, off1: nat, off2: nat)
    requires ItemsSupported(tab, s)
    ensures var w := PlaceItems(abi, tab, s, off1, off2);
            ItemsOf(w.placed) == ProcessedItems(tab, s) &&
            w.off1 == off1 + |w.placed| * abi.itemSize &&
            w.off2 % 8 == 0 &&
            (off2 % 8 == 0 ==> w.off2 == off2 + ItemsPayload(abi, tab, s))
  {
    PlaceItemsStores(abi, tab, s, off1, off2);
    PlaceItemsHeaders(abi, tab, s, off1, off2);
    PlaceItemsAligned(abi, tab, s, off1, off2);
    if off2 % 8 == 0 {
      PlaceItemsPayload(abi, tab, s, off1, off2);
    }
  }

  lemma MulSucc(n: nat, k: nat)
    ensures (n + 1) * k == n * k + k
  {
  }

  /** The three payloads of an item are each a multiple of 8 long. */
  lemma ItemPayloadAligned(abi: Abi, tab: Tables, it: Item, off2: nat)
    requires KnownItem(tab, it.kind) && off2 % 8 == 0
    ensures (off2 + ItemPayload(abi, tab, it)) % 8 == 0
  {
    var f := ItemSpecSize(abi, tab, it);
    var step := f.size + f.pad;
    var k := (if it.spec.Some? then 1 else 0) + (if it.last then 1 else 0) + (if it.mask then 1 else 0);
    assert ItemPayload(abi, tab, it) == k * step;
    DividesLinear(8, off2, step, 1, k);
  }

  lemma {:induction false} PlaceActionsStores(abi: Abi, tab: Tables, s: seq<Action>, off1: nat, off2: nat)
    requires ActionsSupported(tab, s)
    ensures ActionsOf(PlaceActions(abi, tab, s, off1, off2).placed) == ProcessedActions(tab, s)
    decreases |s|
  {
    var st := PlaceAction(abi, tab, s[0], off1, off2);
    var o2 := RoundUp8(st.end);
    var rest := if s[0].kind == ACTION_END then ActionWalk([], off1 + abi.actionSize, o2)
                else PlaceActions(abi, tab, s[1..], off1 + abi.actionSize, o2);
    if s[0].kind != ACTION_END {
      PlaceActionsStores(abi, tab, s[1..], off1 + abi.actionSize, o2);
    }
    assert PlaceActions(abi, tab, s, off1, off2) == ActionWalk([st.placed] + rest.placed, rest.off1, rest.off2);
    PlacedActionsCons(st.placed, rest.placed, abi.actionSize);
  }

  lemma {:induction false} PlaceActionsHeaders(abi: Abi, tab: Tables, s: seq<Action>, off1: nat, off2: nat)
    requires ActionsSupported(tab, s)
    ensures var w := PlaceActions(abi, tab, s, off1, off2);
            w.off1 == off1 + |w.placed| * abi.actionSize
    decreases |s|
  {
    var st := PlaceAction(abi, tab, s[0], off1, off2);
    if s[0].kind == ACTION_END {
      assert PlaceActions(abi, tab, s, off1, off2).placed == [st.placed];
      assert 1 * abi.actionSize == abi.actionSize;
    } else {
      var o2 := RoundUp8(st.end);
      PlaceActionsHeaders(abi, tab, s[1..], off1 + abi.actionSize, o2);
      var w' := PlaceActions(abi, tab, s[1..], off1 + abi.actionSize, o2);
      assert |[st.placed] + w'.placed| == |w'.placed| + 1;
      MulSucc(|w'.placed|, abi.actionSize);
    }
  }

  lemma {:induction false} PlaceActionsAligned(abi: Abi, tab: Tables, s: seq<Action>, off1: nat, off2: nat)
    requires ActionsSupported(tab, s)
    ensures PlaceActions(abi, tab, s, off1, off2).off2 % 8 == 0
    decreases |s|
  {
    var st := PlaceAction(abi, tab, s[0], off1, off2);
    if s[0].kind != ACTION_END {
      PlaceActionsAligned(abi, tab, s[1..], off1 + abi.actionSize, RoundUp8(st.end));
    }
  }

  lemma {:induction false} PlaceActionsPayload(abi: Abi, tab: Tables, s: seq<Action>, off1: nat, off2: nat)
    requires ActionsSupported(tab, s) && off2 % 8 == 0
    ensures PlaceActions(abi, tab, s, off1, off2).off2 == off2 + ActionsPayload(abi, tab, s)
    decreases |s|
  {
    var st := PlaceAction(abi, tab, s[0], off1, off2);
    ActionPayloadAligned(abi, tab, s[0], off2);
    RoundUp8Fixed(st.end);
    if s[0].kind == ACTION_END {
      assert PlaceActions(abi, tab, s, off1, off2).off2 == st.end;
    } else {
      PlaceActionsPayload(abi, tab, s[1..], off1 + abi.actionSize, st.end);
      assert PlaceActions(abi, tab, s, off1, off2).off2 == PlaceActions(abi, tab, s[1..], off1 + abi.actionSize, st.end).off2;
    }
  }

  /** An action's conf takes a multiple of 8 bytes. */
  lemma ActionPayloadAligned(abi: Abi, tab: Tables, a: Action, off2: nat)
    requires KnownAction(tab, a.kind) && off2 % 8 == 0
    ensures (off2 + ActionPayload(abi, tab, a)) % 8 == 0
  {
  }

  lemma PlaceActionsExtent(abi: Abi, tab: Tables, s: seq<Action>, off1: nat, off2: nat)
    requires ActionsSupported(tab, s)
    ensures var w := PlaceActions(abi, tab, s, off1, off2);
            ActionsOf(w.placed) == ProcessedActions(tab, s) &&
            w.off1 == off1 + |w.placed| * abi.actionSize &&
            w.off2 % 8 == 0 &&
            (off2 % 8 == 0 ==> w.off2 == off2 + ActionsPayload(abi, tab, s))
  {
    PlaceActionsStores(abi, tab, s, off1, off2);
    PlaceActionsHeaders(abi, tab, s, off1, off2);
    PlaceActionsAligned(abi, tab, s, off1, off2);
    if off2 % 8 == 0 {
      PlaceActionsPayload(abi, tab, s, off1, off2);
    }
  }

  /** One item's payloads are packed from `off2` to where the step says they end. */
  lemma PlaceItemPacked(abi: Abi, tab: Tables, it: Item, off1: nat, off2: nat)
    requires KnownItem(tab, it.kind)
    ensures var st := PlaceItem(abi, tab, it, off1, off2);
            Packed(ItemStored(st.placed), off2, st.end)
  {
    var st := PlaceItem(abi, tab, it, off1, off2);
    var f := ItemSpecSize(abi, tab, it);
    var step := f.size + f.pad;
    var p := st.placed;
    var o2a := if it.spec.Some? then off2 + step else off2;
    var o2b := if it.last then o2a + step else o2a;
    assert Packed(OptRegion(p.spec), off2, o2a);
    assert Packed(OptRegion(p.last), o2a, o2b);
    assert Packed(OptRegion(p.mask), o2b, st.end);
    PackedAppend(OptRegion(p.spec), OptRegion(p.last), off2, o2a, o2b);
    PackedAppend(OptRegion(p.spec) + OptRegion(p.last), OptRegion(p.mask), off2, o2b, st.end);
  }

  /** The item loop's headers are packed in `[off1, w.off1)` and its payloads in `[off2, w.off2)`. */
  lemma {:induction false} PlaceItemsPacked(abi: Abi, tab: Tables, s: seq<Item>, off1: nat, off2: nat)
    requires ItemsSupported(tab, s)
    ensures var w := PlaceItems(abi, tab, s, off1, off2);
            Packed(ItemHeaders(w.placed, abi.itemSize), off1, w.off1) &&
            Packed(ItemPayloads(w.placed), off2, w.off2)
    decreases |s|
  {
    var st := PlaceItem(abi, tab, s[0], off1, off2);
    var p := st.placed;
    var o2 := RoundUp8(st.end);
    PlaceItemPacked(abi, tab, s[0], off1, off2);
    var head := [Region(off1, abi.itemSize)];
    assert Packed(head, off1, off1 + abi.itemSize);
    var rest := if s[0].kind == ITEM_END then ItemWalk([], off1 + abi.itemSize, o2)
                else PlaceItems(abi, tab, s[1..], off1 + abi.itemSize, o2);
    if s[0].kind != ITEM_END {
      PlaceItemsPacked(abi, tab, s[1..], off1 + abi.itemSize, o2);
    }
    assert PlaceItems(abi, tab, s, off1, off2) == ItemWalk([p] + rest.placed, rest.off1, rest.off2);
    PlacedItemsCons(p, rest.placed, abi.itemSize);
    PackedWiden(ItemPayloads(rest.placed), o2, rest.off2, st.end, rest.off2);
    PackedAppend(ItemStored(p), ItemPayloads(rest.placed), off2, st.end, rest.off2);
    PackedAppend(head, ItemHeaders(rest.placed, abi.itemSize), off1, off1 + abi.itemSize, rest.off1);
  }

  lemma PlacedItemsCons(p: PlacedItem, rest: seq<PlacedItem>, size: nat)
    ensures ItemHeaders([p] + rest, size) == [Region(p.at, size)] + ItemHeaders(rest, size)
    ensures ItemPayloads([p] + rest) == ItemStored(p) + ItemPayloads(rest)
    ensures ItemsOf([p] + rest) == [p.item] + ItemsOf(rest)
  {
    assert ([p] + rest)[1..] == rest;
  }

  lemma {:induction false} PlaceActionsPacked(abi: Abi, tab: Tables, s: seq<Action>, off1: nat, off2: nat)
    requires ActionsSupported(tab, s)
    ensures var w := PlaceActions(abi, tab, s, off1, off2);
            Packed(ActionHeaders(w.placed, abi.actionSize), off1, w.off1) &&
            Packed(ActionPayloads(w.placed), off2, w.off2)
    decreases |s|
  {
    var st := PlaceAction(abi, tab, s[0], off1, off2);
    var p := st.placed;
    var o2 := RoundUp8(st.end);
    assert Packed(OptRegion(p.conf), off2, st.end);
    var head := [Region(off1, abi.actionSize)];
    assert Packed(head, off1, off1 + abi.actionSize);
    var rest := if s[0].kind == ACTION_END then ActionWalk([], off1 + abi.actionSize, o2)
                else PlaceActions(abi, tab, s[1..], off1 + abi.actionSize, o2);
    if s[0].kind != ACTION_END {
      PlaceActionsPacked(abi, tab, s[1..], off1 + abi.actionSize, o2);
    }
    assert PlaceActions(abi, tab, s, off1, off2) == ActionWalk([p] + rest.placed, rest.off1, rest.off2);
    PlacedActionsCons(p, rest.placed, abi.actionSize);
    PackedWiden(ActionPayloads(rest.placed), o2, rest.off2, st.end, rest.off2);
    PackedAppend(OptRegion(p.conf), ActionPayloads(rest.placed), off2, st.end, rest.off2);
    PackedAppend(head, ActionHeaders(rest.placed, abi.actionSize), off1, off1 + abi.actionSize, rest.off1);
  }

  lemma PlacedActionsCons(p: PlacedAction, rest: seq<PlacedAction>, size: nat)
    ensures ActionHeaders([p] + rest, size) == [Region(p.at, size)] + ActionHeaders(rest, size)
    ensures ActionPayloads([p] + rest) == OptRegion(p.conf) + ActionPayloads(rest)
    ensures ActionsOf([p] + rest) == [p.action] + ActionsOf(rest)
  {
    assert ([p] + rest)[1..] == rest;
  }

  /** The lists the copy accepts: NULL, or walked to END without a refused type. */
  predicate Supported(tab: Tables, items: Option<seq<Item>>, actions: Option<seq<Action>>)
  {
    (items.Some? ==> ItemsSupported(tab, items.value)) &&
    (actions.Some? ==> ActionsSupported(tab, actions.value))
  }

  predicate Terminate(tab: Tables, items: Option<seq<Item>>, actions: Option<seq<Action>>)
  {
    (items.Some? ==> ItemsTerminate(tab, items.value)) &&
    (actions.Some? ==> ActionsTerminate(tab, actions.value))
  }

  /** Both loops of one pass of `rte_flow_copy`. */
  datatype Walk = Walk(
    itemsAt: Option<nat>, items: seq<PlacedItem>,
    actionsAt: Option<nat>, actions: seq<PlacedAction>,
    off1: nat, off2: nat)

  /**
   * One pass: the item loop (when `items` is not NULL) followed by rounding
   * `off1` up to 8, then the action loop (when `actions` is not NULL).
   */
  function Place(abi: Abi, tab: Tables, items: Option<seq<Item>>, actions: Option<seq<Action>>, off1: nat, off2: nat): (w: Walk)
    requires Supported(tab, items, actions)
  {
    var iw := if items.Some? then PlaceItems(abi, tab, items.value, off1, off2) else ItemWalk([], off1, off2);
    var a1 := if items.Some? then RoundUp8(iw.off1) else off1;
    var aw := if actions.Some? then PlaceActions(abi, tab, actions.value, a1, iw.off2) else ActionWalk([], a1, iw.off2);
    Walk(if items.Some? then Some(off1) else None, iw.placed,
         if actions.Some? then Some(a1) else None, aw.placed,
         aw.off1, aw.off2)
  }

  function ProcessedItemsOf(tab: Tables, items: Option<seq<Item>>): seq<Item>
    requires items.Some? ==> ItemsSupported(tab, items.value)
  {
    if items.Some? then ProcessedItems(tab, items.value) else []
  }

  function ProcessedActionsOf(tab: Tables, actions: Option<seq<Action>>): seq<Action>
    requires actions.Some? ==> ActionsSupported(tab, actions.value)
  {
    if actions.Some? then ProcessedActions(tab, actions.value) else []
  }

  /** Reference: the header bytes, items then actions, each part rounded up to 8. */
  function HeaderBytes(abi: Abi, tab: Tables, items: Option<seq<Item>>, actions: Option<seq<Action>>): nat
    requires Supported(tab, items, actions)
  {
    RoundUp8(RoundUp8(|ProcessedItemsOf(tab, items)| * abi.itemSize) + |ProcessedActionsOf(tab, actions)| * abi.actionSize)
  }

  /** Reference: the payload bytes of the items and the actions. */
  function PayloadBytes(abi: Abi, tab: Tables, items: Option<seq<Item>>, actions: Option<seq<Action>>): nat
    requires Supported(tab, items, actions)
  {
    (if items.Some? then ItemsPayload(abi, tab, items.value) else 0) +
    (if actions.Some? then ActionsPayload(abi, tab, actions.value) else 0)
  }

  /**
   * Reference: the bytes a description of these lists needs: the header of
   * `struct rte_flow_desc` rounded up to 8, then the headers, then the payloads.
   */
  function RequiredSize(abi: Abi, tab: Tables, items: Option<seq<Item>>, actions: Option<seq<Action>>): nat
    requires Supported(tab, items, actions)
  {
    RoundUp8(abi.dataOffset) + HeaderBytes(abi, tab, items, actions) + PayloadBytes(abi, tab, items, actions)
  }

  /** A pass stores exactly the processed entries. */
  lemma PlaceStores(abi: Abi, tab: Tables, items: Option<seq<Item>>, actions: Option<seq<Action>>, off1: nat, off2: nat)
    requires Supported(tab, items, actions)
    ensures var w := Place(abi, tab, items, actions, off1, off2);
            ItemsOf(w.items) == ProcessedItemsOf(tab, items) &&
            ActionsOf(w.actions) == ProcessedActionsOf(tab, actions)
  {
    var iw := if items.Some? then PlaceItems(abi, tab, items.value, off1, off2) else ItemWalk([], off1, off2);
    var a1 := if items.Some? then RoundUp8(iw.off1) else off1;
    var aw := if actions.Some? then PlaceActions(abi, tab, actions.value, a1, iw.off2) else ActionWalk([], a1, iw.off2);
    assert Place(abi, tab, items, actions, off1, off2).items == iw.placed;
    assert Place(abi, tab, items, actions, off1, off2).actions == aw.placed;
    if items.Some? {
      PlaceItemsStores(abi, tab, items.value, off1, off2);
    }
    if actions.Some? {
      PlaceActionsStores(abi, tab, actions.value, a1, iw.off2);
    }
  }

  /** A pass that stores: its placed entries are exactly the processed ones. */
  function StoredPlace(abi: Abi, tab: Tables, items: Option<seq<Item>>, actions: Option<seq<Action>>, off1: nat, off2: nat): (w: Walk)
    requires Supported(tab, items, actions)
    ensures w == Place(abi, tab, items, actions, off1, off2)
    ensures ItemsOf(w.items) == ProcessedItemsOf(tab, items)
    ensures ActionsOf(w.actions) == ProcessedActionsOf(tab, actions)
  {
    PlaceStores(abi, tab, items, actions, off1, off2);
    Place(abi, tab, items, actions, off1, off2)
  }

  /** A pass from offset 0 and an aligned payload start ends at the reference sizes. */
  lemma PlaceSizes(abi: Abi, tab: Tables, items: Option<seq<Item>>, actions: Option<seq<Action>>, off2: nat)
    requires Supported(tab, items, actions) && off2 % 8 == 0
    ensures var w := Place(abi, tab, items, actions, 0, off2);
            RoundUp8(w.off1) == HeaderBytes(abi, tab, items, actions) &&
            w.off2 == off2 + PayloadBytes(abi, tab, items, actions)
  {
    var iw := if items.Some? then PlaceItems(abi, tab, items.value, 0, off2) else ItemWalk([], 0, off2);
    var a1 := if items.Some? then RoundUp8(iw.off1) else 0;
    var aw := if actions.Some? then PlaceActions(abi, tab, actions.value, a1, iw.off2) else ActionWalk([], a1, iw.off2);
    assert Place(abi, tab, items, actions, 0, off2).off1 == aw.off1;
    assert Place(abi, tab, items, actions, 0, off2).off2 == aw.off2;
    ItemsPassSizes(abi, tab, items, off2);
    ActionsPassSizes(abi, tab, actions, a1, iw.off2);
    HeaderBytesOf(abi, tab, items, actions, a1, aw.off1);
  }

  /** The header bytes are the item headers rounded up to 8, then the action headers, rounded up to 8. */
  lemma HeaderBytesOf(abi: Abi, tab: Tables, items: Option<seq<Item>>, actions: Option<seq<Action>>, a1: nat, off1: nat)
    requires Supported(tab, items, actions)
    requires a1 == RoundUp8(|ProcessedItemsOf(tab, items)| * abi.itemSize)
    requires off1 == a1 + |ProcessedActionsOf(tab, actions)| * abi.actionSize
    ensures RoundUp8(off1) == HeaderBytes(abi, tab, items, actions)
  {
  }

  /** The item pass from header offset 0: the headers it takes, rounded up, and the payload bytes. */
  lemma ItemsPassSizes(abi: Abi, tab: Tables, items: Option<seq<Item>>, off2: nat)
    requires items.Some? ==> ItemsSupported(tab, items.value)
    requires off2 % 8 == 0
    ensures var iw := if items.Some? then PlaceItems(abi, tab, items.value, 0, off2) else ItemWalk([], 0, off2);
            (if items.Some? then RoundUp8(iw.off1) else 0) == RoundUp8(|ProcessedItemsOf(tab, items)| * abi.itemSize) &&
            iw.off2 == off2 + (if items.Some? then ItemsPayload(abi, tab, items.value) else 0) &&
            iw.off2 % 8 == 0
  {
    if items.Some? {
      PlaceItemsStores(abi, tab, items.value, 0, off2);
      PlaceItemsHeaders(abi, tab, items.value, 0, off2);
      PlaceItemsPayload(abi, tab, items.value, 0, off2);
      PlaceItemsAligned(abi, tab, items.value, 0, off2);
    } else {
      assert |ProcessedItemsOf(tab, items)| * abi.itemSize == 0;
    }
  }

  /** The action pass from header offset `a1`: the headers it takes and the payload bytes. */
  lemma ActionsPassSizes(abi: Abi, tab: Tables, actions: Option<seq<Action>>, a1: nat, off2: nat)
    requires actions.Some? ==> ActionsSupported(tab, actions.value)
    requires off2 % 8 == 0
    ensures var aw := if actions.Some? then PlaceActions(abi, tab, actions.value, a1, off2) else ActionWalk([], a1, off2);
            aw.off1 == a1 + |ProcessedActionsOf(tab, actions)| * abi.actionSize &&
            aw.off2 == off2 + (if actions.Some? then ActionsPayload(abi, tab, actions.value) else 0)
  {
    if actions.Some? {
      PlaceActionsStores(abi, tab, actions.value, a1, off2);
      PlaceActionsHeaders(abi, tab, actions.value, a1, off2);
      PlaceActionsPayload(abi, tab, actions.value, a1, off2);
    } else {
      assert |ProcessedActionsOf(tab, actions)| * abi.actionSize == 0;
    }
  }

  /** The stored `struct rte_flow_desc`: its size, its attributes and the placed entries. */
  datatype Desc<A> = Desc(size: nat, attr: A, walk: Walk)

  /** What `rte_flow_copy` returns, `rte_errno` afterwards, and what it wrote into `desc`. */
  datatype CopyResult<A> = CopyResult(ret: nat, errno: int, stored: Option<Desc<A>>)

  /**
   * The first pass of `rte_flow_copy`, with nothing to write: the header of
   * `struct rte_flow_desc` rounded up to 8, plus the header offset rounded
   * up to 8, plus the payload offset.
   */
  function Measure(abi: Abi, tab: Tables, items: Option<seq<Item>>, actions: Option<seq<Action>>): (size: nat)
    requires Supported(tab, items, actions)
    ensures size == RequiredSize(abi, tab, items, actions)
  {
    PlaceSizes(abi, tab, items, actions, 0);
    var w := Place(abi, tab, items, actions, 0, 0);
    RoundUp8(abi.dataOffset) + RoundUp8(w.off1) + w.off2
  }

  /** The header bytes the first pass measures: its `off1`, rounded up to 8. */
  function FirstPassHeaders(abi: Abi, tab: Tables, items: Option<seq<Item>>, actions: Option<seq<Action>>): (n: nat)
    requires Supported(tab, items, actions)
    ensures n == HeaderBytes(abi, tab, items, actions)
  {
    PlaceSizes(abi, tab, items, actions, 0);
    RoundUp8(Place(abi, tab, items, actions, 0, 0).off1)
  }

  /**
   * The second pass: `size` and `attr` go into the header, and the entries
   * are placed again with `off1` starting at the header's padding and `off2`
   * just past the rounded-up headers the first pass measured.
   */
  function Store<A>(abi: Abi, tab: Tables, size: nat, attr: A, items: Option<seq<Item>>, actions: Option<seq<Action>>): (d: Desc<A>)
    requires Supported(tab, items, actions)
    ensures d.size == size && d.attr == attr
    ensures ItemsOf(d.walk.items) == ProcessedItemsOf(tab, items)
    ensures ActionsOf(d.walk.actions) == ProcessedActionsOf(tab, actions)
  {
    var h := RoundUp8(abi.dataOffset) - abi.dataOffset;
    var off1 := FirstPassHeaders(abi, tab, items, actions);
    Desc(size, attr, StoredPlace(abi, tab, items, actions, h, h + off1))
  }

  /**
   * `rte_flow_copy(desc, len, attr, items, actions)`. The first pass refuses
   * an unknown or unnamed type with ENOTSUP and a return of 0, and
   * otherwise adds up the size. A size larger than `len` is returned with
   * nothing written. Otherwise, with a non-NULL `desc`, the second pass
   * stores the description and the size is returned; with a NULL `desc`
   * the return is 0.
   */
  function Copy<A>(abi: Abi, tab: Tables, desc: bool, len: nat, attr: A,
                   items: Option<seq<Item>>, actions: Option<seq<Action>>, errno: int): (r: CopyResult<A>)
    requires Terminate(tab, items, actions)
    ensures !Supported(tab, items, actions) ==> r == CopyResult(0, ENOTSUP, None)
    ensures Supported(tab, items, actions) ==> r.errno == errno
    ensures Supported(tab, items, actions) && RequiredSize(abi, tab, items, actions) > len ==>
              r.ret == RequiredSize(abi, tab, items, actions) && r.stored.None?
    ensures Supported(tab, items, actions) && RequiredSize(abi, tab, items, actions) <= len && !desc ==>
              r.ret == 0 && r.stored.None?
    ensures Supported(tab, items, actions) && RequiredSize(abi, tab, items, actions) <= len && desc ==>
              r.ret == RequiredSize(abi, tab, items, actions) && r.stored.Some? &&
              r.stored.value.size == r.ret && r.stored.value.attr == attr &&
              ItemsOf(r.stored.value.walk.items) == ProcessedItemsOf(tab, items) &&
              ActionsOf(r.stored.value.walk.actions) == ProcessedActionsOf(tab, actions)
  {
    if !Supported(tab, items, actions) then CopyResult(0, ENOTSUP, None)
    else
      var size := Measure(abi, tab, items, actions);
      if size > len then CopyResult(size, errno, None)
      else if !desc then CopyResult(0, errno, None)
      else CopyResult(size, errno, Some(Store(abi, tab, size, attr, items, actions)))
  }

  /** Every stretch of `desc->data` the second pass writes: headers first, then payloads. */
  function StoredRegions<A>(abi: Abi, d: Desc<A>): seq<Region>
  {
    (ItemHeaders(d.walk.items, abi.itemSize) + ActionHeaders(d.walk.actions, abi.actionSize)) +
    (ItemPayloads(d.walk.items) + ActionPayloads(d.walk.actions))
  }

  /**
   * When the header of `struct rte_flow_desc` ends on an 8-byte boundary (as
   * in its 64-bit layout), the second pass writes only inside the size the
   * first pass measured: the headers and the payloads it stores lie one
   * after another in `desc->data`, none overlapping another, all within
   * `size - offsetof(struct rte_flow_desc, data)` bytes.
   */
  lemma StoreInBounds<A>(abi: Abi, tab: Tables, attr: A, items: Option<seq<Item>>, actions: Option<seq<Action>>)
    requires Supported(tab, items, actions)
    requires abi.dataOffset % 8 == 0
    ensures var size := Measure(abi, tab, items, actions);
            abi.dataOffset <= size &&
            Packed(StoredRegions(abi, Store(abi, tab, size, attr, items, actions)), 0, size - abi.dataOffset)
  {
    var size := Measure(abi, tab, items, actions);
    MeasuredSize(abi, tab, items, actions);
    StoreWalk(abi, tab, size, attr, items, actions);
    SecondPassPacked(abi, tab, items, actions);
  }

  /** With an aligned header, the measured size is the header, the entry headers and the payloads. */
  lemma MeasuredSize(abi: Abi, tab: Tables, items: Option<seq<Item>>, actions: Option<seq<Action>>)
    requires Supported(tab, items, actions)
    requires abi.dataOffset % 8 == 0
    ensures Measure(abi, tab, items, actions) ==
            abi.dataOffset + HeaderBytes(abi, tab, items, actions) + PayloadBytes(abi, tab, items, actions)
  {
    RoundUp8Fixed(abi.dataOffset);
  }

  /** With an aligned header, the second pass places the entries from 0 with payloads after the measured headers. */
  lemma StoreWalk<A>(abi: Abi, tab: Tables, size: nat, attr: A, items: Option<seq<Item>>, actions: Option<seq<Action>>)
    requires Supported(tab, items, actions)
    requires abi.dataOffset % 8 == 0
    ensures Store(abi, tab, size, attr, items, actions).walk == Place(abi, tab, items, actions, 0, HeaderBytes(abi, tab, items, actions))
  {
    RoundUp8Fixed(abi.dataOffset);
  }

  /** Placed from 0 with payloads after the measured headers, everything is packed up to the measured end. */
  lemma SecondPassPacked(abi: Abi, tab: Tables, items: Option<seq<Item>>, actions: Option<seq<Action>>)
    requires Supported(tab, items, actions)
    ensures var off1 := HeaderBytes(abi, tab, items, actions);
            var w := Place(abi, tab, items, actions, 0, off1);
            Packed((ItemHeaders(w.items, abi.itemSize) + ActionHeaders(w.actions, abi.actionSize)) +
                   (ItemPayloads(w.items) + ActionPayloads(w.actions)),
                   0, off1 + PayloadBytes(abi, tab, items, actions))
  {
    var off1 := HeaderBytes(abi, tab, items, actions);
    var w := Place(abi, tab, items, actions, 0, off1);
    PlaceSizes(abi, tab, items, actions, off1);
    PlacePacked(abi, tab, items, actions, 0, off1);
    PackedJoin(ItemHeaders(w.items, abi.itemSize) + ActionHeaders(w.actions, abi.actionSize),
               ItemPayloads(w.items) + ActionPayloads(w.actions), 0, w.off1, off1, w.off2);
  }

  /**
   * What `rte_flow_copy` stores fits in the `len` bytes it was given, with
   * nothing overlapping (under the same header alignment).
   */
  lemma CopyStaysInBounds<A>(abi: Abi, tab: Tables, len: nat, attr: A,
                             items: Option<seq<Item>>, actions: Option<seq<Action>>, errno: int)
    requires Terminate(tab, items, actions)
    requires abi.dataOffset % 8 == 0
    ensures var r := Copy(abi, tab, true, len, attr, items, actions, errno);
            r.stored.Some? ==>
              abi.dataOffset <= r.stored.value.size <= len &&
              Packed(StoredRegions(abi, r.stored.value), 0, r.stored.value.size - abi.dataOffset)
  {
    if Supported(tab, items, actions) {
      StoreInBounds(abi, tab, attr, items, actions);
    }
  }

  /** A pass keeps its headers in `[off1, w.off1)` and its payloads in `[off2, w.off2)`. */
  lemma PlacePacked(abi: Abi, tab: Tables, items: Option<seq<Item>>, actions: Option<seq<Action>>, off1: nat, off2: nat)
    requires Supported(tab, items, actions)
    ensures var w := Place(abi, tab, items, actions, off1, off2);
            Packed(ItemHeaders(w.items, abi.itemSize) + ActionHeaders(w.actions, abi.actionSize), off1, w.off1) &&
            Packed(ItemPayloads(w.items) + ActionPayloads(w.actions), off2, w.off2)
  {
    var iw := if items.Some? then PlaceItems(abi, tab, items.value, off1, off2) else ItemWalk([], off1, off2);
    var a1 := if items.Some? then RoundUp8(iw.off1) else off1;
    var aw := if actions.Some? then PlaceActions(abi, tab, actions.value, a1, iw.off2) else ActionWalk([], a1, iw.off2);
    if items.Some? {
      PlaceItemsPacked(abi, tab, items.value, off1, off2);
      PackedWiden(ItemHeaders(iw.placed, abi.itemSize), off1, iw.off1, off1, a1);
    } else {
      assert ItemHeaders(iw.placed, abi.itemSize) == [] && ItemPayloads(iw.placed) == [];
    }
    if actions.Some? {
      PlaceActionsPacked(abi, tab, actions.value, a1, iw.off2);
    } else {
      assert ActionHeaders(aw.placed, abi.actionSize) == [] && ActionPayloads(aw.placed) == [];
    }
    PackedAppend(ItemHeaders(iw.placed, abi.itemSize), ActionHeaders(aw.placed, abi.actionSize), off1, a1, aw.off1);
    PackedAppend(ItemPayloads(iw.placed), ActionPayloads(aw.placed), off2, iw.off2, aw.off2);
  }

  /**
   * The usual calling pattern: a first call with no room returns the size
   * needed, and a second call given exactly that many bytes stores the
   * description with that size.
   */
  lemma CopyProbeThenStore<A>(abi: Abi, tab: Tables, attr: A,
                              items: Option<seq<Item>>, actions: Option<seq<Action>>, errno: int)
    requires Terminate(tab, items, actions) && Supported(tab, items, actions)
    requires abi.dataOffset > 0
    ensures var n := Copy(abi, tab, false, 0, attr, items, actions, errno).ret;
            n == RequiredSize(abi, tab, items, actions) &&
            Copy(abi, tab, true, n, attr, items, actions, errno).stored.Some? &&
            Copy(abi, tab, true, n, attr, items, actions, errno).ret == n
  {
    assert RequiredSize(abi, tab, items, actions) >= RoundUp8(abi.dataOffset) > 0;
  }
}
