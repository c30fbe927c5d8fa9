/**
 * The Windows EAL's CPU map: the processor counts the system reports and
 * the table giving each logical core its socket and core, spread evenly
 * over the sockets, with hyperthread siblings side by side.
 */
module EalLcore {
  import opened CTypes
  import opened Arith

  /** The size `GetLogicalProcessorInformationEx` reports per package or core record. */
  const PROCESSOR_RECORD_SIZE: nat := 48

  /** One `win_lcore_map` entry: `uint8_t` socket and core ids. */
  datatype LcoreMap = LcoreMap(socketId: nat, coreId: nat)

  /** `win_cpu_map`: the three counts and the lcore table (`RTE_MAX_LCORE` entries). */
  datatype CpuMap = CpuMap(totalProcessors: nat, sockets: nat, cores: nat, lcores: seq<LcoreMap>)

  /** Hyperthreading is taken to be on when there are more logical processors than cores. */
  predicate Hyperthreaded(total: nat, cores: nat)
  {
    total > cores
  }

  /** Lcores per core: two siblings with hyperthreading, else one. */
  function Siblings(total: nat, cores: nat): (k: nat)
    ensures k == 1 || k == 2
  {
    if Hyperthreaded(total, cores) then 2 else 1
  }

  /** The number of table entries the loop writes: cores split evenly over sockets, times the siblings. */
  function Filled(total: nat, sockets: nat, cores: nat): nat
  {
    if sockets == 0 then 0 else sockets * (cores / sockets) * Siblings(total, cores)
  }

  /** The lcore index the loop uses for sibling `h` of core `c` on socket `s`. */
  function Slot(s: nat, c: nat, h: nat, perSocket: nat, siblings: nat): nat
  {
    (s * perSocket + c) * siblings + h
  }

  /** The entry of lcore `l`: its core pair (or core), split into socket and core within the socket. */
  function Entry(l: nat, perSocket: nat, ht: bool): LcoreMap
    requires perSocket > 0
  {
    var p := if ht then l / 2 else l;
    LcoreMap(ToU8(p / perSocket), ToU8(p % perSocket))
  }

  /** The table the loop leaves behind: the first `Filled` entries rewritten, the rest as they were. */
  function ReferenceTable(total: nat, sockets: nat, cores: nat, table: seq<LcoreMap>): (t: seq<LcoreMap>)
    ensures |t| == |table|
  {
    if sockets == 0 || cores / sockets == 0 then table
    else seq(|table|, l requires 0 <= l < |table| => TableEntry(total, sockets, cores, table, l))
  }

  function TableEntry(total: nat, sockets: nat, cores: nat, table: seq<LcoreMap>, l: nat): LcoreMap
    requires sockets > 0 && cores / sockets > 0 && l < |table|
  {
    if l < Filled(total, sockets, cores) then Entry(l, cores / sockets, Hyperthreaded(total, cores)) else table[l]
  }

  lemma SlotEntry(s: nat, c: nat, h: nat, perSocket: nat, ht: bool)
    requires perSocket > 0 && c < perSocket && (h == 0 || (ht && h == 1))
    ensures Entry(Slot(s, c, h, perSocket, if ht then 2 else 1), perSocket, ht) == LcoreMap(ToU8(s), ToU8(c))
  {
    var p := s * perSocket + c;
    var l := Slot(s, c, h, perSocket, if ht then 2 else 1);
    if ht {
      assert l == 2 * p + h;
      assert l / 2 == p;
    }
    assert p / perSocket == s && p % perSocket == c by {
      DivModUnique(p, perSocket, s, c);
    }
  }

  lemma SlotBelowFilled(s: nat, c: nat, h: nat, sockets: nat, perSocket: nat, siblings: nat)
    requires s < sockets && c < perSocket && h < siblings
    ensures Slot(s, c, h, perSocket, siblings) < sockets * perSocket * siblings
  {
    var x := s * perSocket + c;
    assert x + 1 <= (s + 1) * perSocket;
    MulLe(s + 1, sockets, perSocket);
    MulLe(x + 1, sockets * perSocket, siblings);
    assert (x + 1) * siblings == x * siblings + siblings;
  }

  /**
   * `eal_create_cpu_map`, with the processor count and the byte sizes the
   * two information queries report as inputs: 48 bytes per record gives
   * the socket and core counts; for each socket and each of its
   * `cores / sockets` cores the next lcore (and, with hyperthreading, the
   * one after it) gets the socket and core, each kept in 8 bits. Nothing
   * bounds the loop by the table, so a count past its end is None (the
   * writes run off the array).
   */
  method CreateCpuMap(total: nat, socketBytes: nat, coreBytes: nat, table: seq<LcoreMap>) returns (r: Option<CpuMap>)
    ensures var sockets := socketBytes / PROCESSOR_RECORD_SIZE;
      var cores := coreBytes / PROCESSOR_RECORD_SIZE;
      (r.None? <==> Filled(total, sockets, cores) > |table|) &&
      (r.Some? ==> r.value == CpuMap(total, sockets, cores, ReferenceTable(total, sockets, cores, table)))
  {
    var sockets := socketBytes / PROCESSOR_RECORD_SIZE;
    var cores := coreBytes / PROCESSOR_RECORD_SIZE;
    var ht := total > cores;
    var siblings := if ht then 2 else 1;
    if sockets == 0 || cores / sockets == 0 {
      return Some(CpuMap(total, sockets, cores, table));
    }
    var per := cores / sockets;
    assert Filled(total, sockets, cores) == SocketStart(sockets, per, siblings);
    var lcores := table;
    var s := 0;
    while s < sockets
      invariant 0 <= s <= sockets
      invariant SocketStart(s, per, siblings) <= |table| && |lcores| == |table|
      invariant forall l :: 0 <= l < SocketStart(s, per, siblings) ==> lcores[l] == Entry(l, per, ht)
      invariant forall l :: SocketStart(s, per, siblings) <= l < |lcores| ==> lcores[l] == table[l]
    {
      var next := FillSocket(lcores, s, per, ht);
      if next.None? {
        SocketStartMonotone(s + 1, sockets, per, siblings);
        return None;
      }
      lcores := next.value;
      s := s + 1;
    }
    assert lcores == ReferenceTable(total, sockets, cores, table);
    return Some(CpuMap(total, sockets, cores, lcores));
  }

  /** The first lcore of socket `s`. */
  function SocketStart(s: nat, perSocket: nat, siblings: nat): nat
  {
    Slot(s, 0, 0, perSocket, siblings)
  }

  lemma SocketStartMonotone(s: nat, t: nat, perSocket: nat, siblings: nat)
    requires s <= t
    ensures SocketStart(s, perSocket, siblings) <= SocketStart(t, perSocket, siblings)
  {
    MulLe(s, t, perSocket);
    MulLe(s * perSocket, t * perSocket, siblings);
  }

  /** Consecutive cores' first siblings are `siblings` apart, and the last core of a socket ends where the next socket starts. */
  lemma SlotSteps(s: nat, c: nat, perSocket: nat, siblings: nat)
    ensures Slot(s, c, 0, perSocket, siblings) + siblings == Slot(s, c + 1, 0, perSocket, siblings)
    ensures Slot(s, perSocket, 0, perSocket, siblings) == SocketStart(s + 1, perSocket, siblings)
  {
    assert (s * perSocket + c + 1) * siblings == (s * perSocket + c) * siblings + siblings;
    assert (s + 1) * perSocket == s * perSocket + perSocket;
  }

  /**
   * The inner loop for socket `s`: each core's lcore (and its sibling)
   * gets the socket and core; None when an lcore falls past the table.
   */
  method FillSocket(lcores: seq<LcoreMap>, s: nat, per: nat, ht: bool) returns (r: Option<seq<LcoreMap>>)
    requires per > 0
    requires SocketStart(s, per, if ht then 2 else 1) <= |lcores|
    requires forall l :: 0 <= l < SocketStart(s, per, if ht then 2 else 1) ==> lcores[l] == Entry(l, per, ht)
    ensures r.None? <==> SocketStart(s + 1, per, if ht then 2 else 1) > |lcores|
    ensures r.Some? ==> |r.value| == |lcores|
    ensures r.Some? ==> forall l :: 0 <= l < SocketStart(s + 1, per, if ht then 2 else 1) ==> r.value[l] == Entry(l, per, ht)
    ensures r.Some? ==> forall l :: SocketStart(s + 1, per, if ht then 2 else 1) <= l < |lcores| ==> r.value[l] == lcores[l]
  {
    var siblings := if ht then 2 else 1;
    var out := lcores;
    var lcore := SocketStart(s, per, siblings);
    var c := 0;
    while c < per
      invariant 0 <= c <= per
      invariant lcore == Slot(s, c, 0, per, siblings) && lcore <= |lcores| && |out| == |lcores|
      invariant forall l :: 0 <= l < lcore ==> out[l] == Entry(l, per, ht)
      invariant forall l :: lcore <= l < |out| ==> out[l] == lcores[l]
    {
      SlotSteps(s, c, per, siblings);
      if lcore >= |out| {
        SlotBelowFilled(s, c, 0, s + 1, per, siblings);
        return None;
      }
      SlotEntry(s, c, 0, per, ht);
      out := out[lcore := LcoreMap(ToU8(s), ToU8(c))];
      lcore := lcore + 1;
      if ht {
        if lcore >= |out| {
          SlotBelowFilled(s, c, 1, s + 1, per, siblings);
          return None;
        }
        SlotEntry(s, c, 1, per, ht);
        out := out[lcore := LcoreMap(ToU8(s), ToU8(c))];
        lcore := lcore + 1;
      }
      c := c + 1;
    }
    SlotSteps(s, per, per, siblings);
    return Some(out);
  }

  /** `eal_cpu_detected`: an lcore exists when its index is below the processor count. */
  function CpuDetected(m: CpuMap, lcore: nat): (r: bool)
  {
    lcore < m.totalProcessors
  }

  /** `eal_cpu_socket_id` and `eal_cpu_core_id`: the table entry (the array has no bound check; an index past it is out of the model). */
  function CpuSocketId(m: CpuMap, lcore: nat): nat
    requires lcore < |m.lcores|
  {
    m.lcores[lcore].socketId
  }

  function CpuCoreId(m: CpuMap, lcore: nat): nat
    requires lcore < |m.lcores|
  {
    m.lcores[lcore].coreId
  }

  /**
   * The lookups after the map is built: every sibling of core `c` on
   * socket `s` reports that socket and core (in 8 bits), and with
   * hyperthreading the two siblings sit at consecutive lcores.
   */
  lemma LookupsFollowLayout(total: nat, sockets: nat, cores: nat, table: seq<LcoreMap>, s: nat, c: nat, h: nat)
    requires sockets > 0 && s < sockets && c < cores / sockets && h < Siblings(total, cores)
    requires Filled(total, sockets, cores) <= |table|
    ensures var m := CpuMap(total, sockets, cores, ReferenceTable(total, sockets, cores, table));
      var l := Slot(s, c, h, cores / sockets, Siblings(total, cores));
      l < |m.lcores| && CpuSocketId(m, l) == ToU8(s) && CpuCoreId(m, l) == ToU8(c) &&
      (CpuDetected(m, l) <==> l < total)
    ensures h == 1 ==> Slot(s, c, h, cores / sockets, 2) == Slot(s, c, 0, cores / sockets, 2) + 1
  {
    var per := cores / sockets;
    var sib := Siblings(total, cores);
    SlotBelowFilled(s, c, h, sockets, per, sib);
    SlotEntry(s, c, h, per, Hyperthreaded(total, cores));
  }

  /**
   * Without hyperthreading lcore `s * (C / S) + c` is core `c` of socket
   * `s`; with it, lcores `2p` and `2p + 1` are the same core.
   */
  lemma SiblingsShareCore(perSocket: nat, p: nat)
    requires perSocket > 0
    ensures Entry(2 * p, perSocket, true) == Entry(2 * p + 1, perSocket, true)
    ensures Entry(p, perSocket, true) == Entry(p / 2 * 2, perSocket, true)
  {
  }
}
