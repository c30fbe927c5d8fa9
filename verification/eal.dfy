/**
 * The Windows EAL's process roles and start-up: detecting primary or
 * secondary, creating or attaching the shared configuration, the
 * completion marker, the application usage hook, the default memory
 * amount, and the order `rte_eal_init` runs its steps in.
 */
module Eal {
  import opened CTypes
  import opened MemConfig

  // -------------------------------------------------------------------
  // eal_proc_type_detect
  // -------------------------------------------------------------------

  /**
   * `eal_proc_type_detect`: a process that can open the configuration file
   * but not lock it exclusively is a secondary; every other process is the
   * primary. The file handle stays open when the open succeeded (the
   * second component).
   */
  function ProcTypeDetect(fileOpens: bool, lockObtained: bool): (r: (ProcType, bool))
    ensures r.0 == Secondary <==> fileOpens && !lockObtained
    ensures r.0 == Primary <==> !fileOpens || lockObtained
    ensures r.1 == fileOpens
  {
    var pt := if fileOpens && !lockObtained then Secondary else Primary;
    (pt, fileOpens)
  }

  // -------------------------------------------------------------------
  // rte_config_init, rte_eal_config_create, rte_eal_config_attach
  // -------------------------------------------------------------------

  /**
   * `struct rte_config` as start-up uses it: the role, whether
   * `mem_config` points at the shared mapping (else at the process's early
   * configuration), the configuration it points at, and whether the
   * configuration file descriptor is open.
   */
  datatype RteConfig = RteConfig(processType: ProcType, shared: bool, memCfg: MemCfg, fdOpen: bool)

  /**
   * What the operating system does for the configuration file: whether
   * `_open` succeeds, whether the exclusive lock is granted, whether
   * `mmap` succeeds, and what the file holds (the primary's configuration).
   */
  datatype ConfigEnv = ConfigEnv(openOk: bool, lockOk: bool, mmapOk: bool, fileCfg: MemCfg)

  /**
   * How a start-up step ends: still running with a configuration,
   * `rte_panic`, `rte_exit`/`exit`, or a secondary spinning on a
   * completion marker that is not set.
   */
  datatype Outcome = Running(c: RteConfig) | Panicked | Exited | Waiting

  /**
   * `rte_eal_config_create`: nothing with `no_shconf`; otherwise open the
   * file unless the descriptor is already open (panic when that fails),
   * lock it exclusively (exit when another primary holds it), map it
   * (exit on failure), copy the early configuration in and switch to it.
   */
  function ConfigCreate(c: RteConfig, noShconf: bool, env: ConfigEnv): (r: Outcome)
    ensures noShconf ==> r == Running(c)
    ensures !noShconf && !env.lockOk ==> !r.Running?
    ensures !noShconf && r.Running? ==>
      r.c.shared && r.c.fdOpen && r.c.memCfg == c.memCfg && r.c.processType == c.processType
    ensures !noShconf ==> (r.Running? <==> (c.fdOpen || env.openOk) && env.lockOk && env.mmapOk)
  {
    if noShconf then Running(c)
    else if !c.fdOpen && !env.openOk then Panicked
    else if !env.lockOk then Exited
    else if !env.mmapOk then Exited
    else Running(c.(shared := true, fdOpen := true))
  }

  /**
   * `rte_eal_config_attach`: nothing with `no_shconf`; otherwise open the
   * file unless already open (panic when that fails), map it, close the
   * descriptor, and panic if the mapping failed; the configuration is now
   * the file's.
   */
  function ConfigAttach(c: RteConfig, noShconf: bool, env: ConfigEnv): (r: Outcome)
    ensures noShconf ==> r == Running(c)
    ensures r.Running? || r == Panicked
    ensures !noShconf && r.Running? ==>
      r.c.shared && !r.c.fdOpen && r.c.memCfg == env.fileCfg && r.c.processType == c.processType
    ensures !noShconf ==> (r.Running? <==> (c.fdOpen || env.openOk) && env.mmapOk)
  {
    if noShconf then Running(c)
    else if !c.fdOpen && !env.openOk then Panicked
    else if !env.mmapOk then Panicked
    else Running(c.(shared := true, fdOpen := false, memCfg := env.fileCfg))
  }

  /** `rte_eal_mcfg_wait_complete`: proceed once the marker is set; until then the process spins. */
  function WaitComplete(c: RteConfig): (r: Outcome)
    ensures r.Running? <==> c.memCfg.complete
    ensures r.Running? ==> r.c == c
  {
    if c.memCfg.complete then Running(c) else Waiting
  }

  /**
   * `rte_config_init`: record the configured role, then a primary creates
   * the shared configuration, a secondary attaches to it and waits for the
   * primary's marker, and an automatic or invalid role panics.
   */
  function ConfigInit(c: RteConfig, pt: ProcType, noShconf: bool, env: ConfigEnv): (r: Outcome)
    ensures (pt == Auto || pt == Invalid) ==> r == Panicked
    ensures r.Running? ==> r.c.processType == pt
    ensures pt == Primary ==> r == ConfigCreate(c.(processType := pt), noShconf, env)
    ensures pt == Secondary && r.Running? ==> r.c.memCfg.complete
    ensures pt == Secondary && !noShconf && r.Running? ==> r.c.memCfg == env.fileCfg
    ensures pt == Secondary && !noShconf ==>
      (r.Running? <==> (c.fdOpen || env.openOk) && env.mmapOk && env.fileCfg.complete)
  {
    var c1 := c.(processType := pt);
    match pt
    case Primary => ConfigCreate(c1, noShconf, env)
    case Secondary =>
      var a := ConfigAttach(c1, noShconf, env);
      if a.Running? then WaitComplete(a.c) else a
    case Auto => Panicked
    case Invalid => Panicked
  }

  /** `rte_eal_mcfg_complete`: only the primary writes the marker. */
  function McfgComplete(c: RteConfig): (r: RteConfig)
    ensures r.memCfg.complete <==> c.processType == Primary || c.memCfg.complete
    ensures r.processType == c.processType && r.shared == c.shared && r.fdOpen == c.fdOpen
    ensures r.memCfg.memsegs == c.memCfg.memsegs
    ensures c.processType != Primary ==> r == c
  {
    if c.processType == Primary then c.(memCfg := c.memCfg.(complete := true)) else c
  }

  /**
   * The hand-over between the two roles: a primary that created the
   * shared configuration and marked it complete leaves in the file
   * exactly what a secondary attaching afterwards runs with; before the
   * marker the secondary waits, and the secondary never writes the marker.
   */
  lemma PrimaryMarkerReleasesSecondary(early: MemCfg, primaryEnv: ConfigEnv, secondaryEnv: ConfigEnv)
    requires !early.complete
    requires primaryEnv.openOk && primaryEnv.lockOk && primaryEnv.mmapOk
    requires secondaryEnv.openOk && secondaryEnv.mmapOk
    ensures var p := ConfigInit(RteConfig(Primary, false, early, false), Primary, false, primaryEnv);
      p.Running? && p.c.shared &&
      ConfigInit(RteConfig(Primary, false, early, false), Secondary, false,
        secondaryEnv.(fileCfg := p.c.memCfg)) == Waiting &&
      var done := McfgComplete(p.c).memCfg;
      var s := ConfigInit(RteConfig(Primary, false, early, false), Secondary, false, secondaryEnv.(fileCfg := done));
      s.Running? && s.c.memCfg == done && s.c.memCfg.memsegs == early.memsegs &&
      McfgComplete(s.c) == s.c
  {
  }

  // -------------------------------------------------------------------
  // rte_set_application_usage_hook
  // -------------------------------------------------------------------

  /**
   * `rte_set_application_usage_hook`: install `usageFunc` (a function
   * pointer) and hand back the previous hook; the result is (returned,
   * now installed).
   */
  function SetApplicationUsageHook(installed: Ptr, usageFunc: Ptr): (r: (Ptr, Ptr))
    ensures r.1 == usageFunc
    ensures r.0 == installed
  {
    (installed, usageFunc)
  }

  /** Installing hooks one after another returns NULL first and then each previously installed hook. */
  lemma {:induction false} UsageHookHistory(hooks: seq<Ptr>)
    requires |hooks| > 0
    ensures var (returned, installed) := HookSequence(NULL, hooks);
      |returned| == |hooks| && returned[0] == NULL &&
      (forall i :: 0 < i < |hooks| ==> returned[i] == hooks[i - 1]) &&
      installed == hooks[|hooks| - 1]
    decreases |hooks|
  {
    if |hooks| > 1 {
      UsageHookHistory(hooks[..|hooks| - 1]);
      assert hooks[..|hooks| - 1][|hooks| - 2] == hooks[|hooks| - 2];
    }
  }

  /** Call the setter once per hook, collecting what each call returned and what is installed at the end. */
  function HookSequence(start: Ptr, hooks: seq<Ptr>): (r: (seq<Ptr>, Ptr))
    ensures |r.0| == |hooks|
    decreases |hooks|
  {
    if |hooks| == 0 then ([], start)
    else
      var (prev, installed) := HookSequence(start, hooks[..|hooks| - 1]);
      var (ret, now) := SetApplicationUsageHook(installed, hooks[|hooks| - 1]);
      (prev + [ret], now)
  }

  // -------------------------------------------------------------------
  // rte_eal_init
  // -------------------------------------------------------------------

  /** `MEMSIZE_IF_NO_HUGE_PAGE`: 64 MiB. */
  const MEMSIZE_IF_NO_HUGE_PAGE: nat := 64 * 1024 * 1024

  /** `SIZE_MAX` of 64-bit Windows. */
  const SIZE_MAX: nat := U64_MAX

  /** `eal_get_hugepage_mem_size`: the large-page minimum, capped at SIZE_MAX. */
  function HugepageMemSize(largePageMinimum: nat): (n: nat)
    requires IsU64(largePageMinimum)
    ensures n == largePageMinimum && n <= SIZE_MAX
  {
    if largePageMinimum < SIZE_MAX then largePageMinimum else SIZE_MAX
  }

  /**
   * The memory amount after start-up: a requested amount, or any
   * per-socket request, is kept; otherwise 64 MiB without hugepages and
   * the large-page minimum with them.
   */
  function DefaultMemory(memory: nat, forceSockets: bool, noHugetlbfs: bool, largePageMinimum: nat): (m: nat)
    requires IsU64(largePageMinimum)
    ensures memory != 0 || forceSockets ==> m == memory
    ensures memory == 0 && !forceSockets && noHugetlbfs ==> m == MEMSIZE_IF_NO_HUGE_PAGE
    ensures memory == 0 && !forceSockets && !noHugetlbfs ==> m == largePageMinimum
  {
    if memory == 0 && !forceSockets then
      (if noHugetlbfs then MEMSIZE_IF_NO_HUGE_PAGE else HugepageMemSize(largePageMinimum))
    else memory
  }

  /** The parts of `internal_config` start-up reads and writes. */
  datatype InternalConfig = InternalConfig(processType: ProcType, noShconf: bool, noHugetlbfs: bool, memory: nat, forceSockets: bool)

  /**
   * What the steps outside this model report: whether this is the first
   * call, `rte_eal_cpu_init`, `eal_parse_args`'s return (which includes
   * making the runtime directory), the configuration file, hugepage
   * information, the large-page minimum, `rte_pci_scan`'s return, and the
   * memzone, memory, later subsystem and bus-probe steps.
   */
  datatype InitEnv = InitEnv(
    firstCall: bool, cpuInitOk: bool, parseRet: int, cfgEnv: ConfigEnv,
    hugepageInfoOk: bool, largePageMinimum: nat, scanRet: int,
    memzoneOk: bool, memoryOk: bool, laterOk: bool, probeOk: bool)

  predicate ValidInitEnv(e: InitEnv)
  {
    IsU64(e.largePageMinimum)
  }

  /** The steps of `rte_eal_init` this model follows, in the order they are reached. */
  datatype InitStep = CpuMap | ParseArgs | ConfigInitStep | HugepageInfo | PciScan | MemzoneInit | MemoryInit | LaterInit | BusProbe | Complete

  /** How `rte_eal_init` ends, with the steps it reached. */
  datatype InitResult =
    | Returned(ret: int, c: RteConfig, ic: InternalConfig, trace: seq<InitStep>)
    | Stopped(how: Outcome, trace: seq<InitStep>)

  /**
   * `rte_eal_init`, reduced to the steps that decide the role, memory and
   * order: a repeated call returns -1; then the CPU map, argument parsing
   * (exit on failure), configuration set-up, hugepage information for a
   * non-secondary with hugepages, the memory default, the PCI scan (panic
   * below 0) BEFORE memory set-up, the remaining subsystems, the bus
   * probe, and the completion marker; the return is the parser's.
   */
  function EalInit(ic: InternalConfig, c: RteConfig, env: InitEnv): (r: InitResult)
    requires ValidInitEnv(env)
    ensures !env.firstCall ==> r == Returned(-1, c, ic, [])
    ensures env.firstCall && r.Returned? ==>
      r.ret == env.parseRet >= 0 && env.scanRet >= 0 && env.memoryOk && env.probeOk
    ensures env.firstCall && !env.cpuInitOk ==> r == Stopped(Panicked, [CpuMap])
  {
    if !env.firstCall then Returned(-1, c, ic, [])
    else if !env.cpuInitOk then Stopped(Panicked, [CpuMap])
    else if env.parseRet < 0 then Stopped(Exited, [CpuMap, ParseArgs])
    else
      var t := [CpuMap, ParseArgs, ConfigInitStep];
      var o := ConfigInit(c, ic.processType, ic.noShconf, env.cfgEnv);
      if !o.Running? then Stopped(o, t)
      else
        var needInfo := !ic.noHugetlbfs && ic.processType != Secondary;
        var t1 := if needInfo then t + [HugepageInfo] else t;
        if needInfo && !env.hugepageInfoOk then Stopped(Panicked, t1)
        else
          var ic1 := ic.(memory := DefaultMemory(ic.memory, ic.forceSockets, ic.noHugetlbfs, env.largePageMinimum));
          var t2 := t1 + [PciScan];
          if env.scanRet < 0 then Stopped(Panicked, t2)
          else if !env.memzoneOk then Stopped(Panicked, t2 + [MemzoneInit])
          else if !env.memoryOk then Stopped(Panicked, t2 + [MemzoneInit, MemoryInit])
          else if !env.laterOk then Stopped(Panicked, t2 + [MemzoneInit, MemoryInit, LaterInit])
          else if !env.probeOk then Stopped(Panicked, t2 + [MemzoneInit, MemoryInit, LaterInit, BusProbe])
          else Returned(env.parseRet, McfgComplete(o.c), ic1, t2 + [MemzoneInit, MemoryInit, LaterInit, BusProbe, Complete])
  }

  /**
   * The scan runs before memory set-up: whenever memory set-up is reached
   * the scan was reached earlier, and a negative scan result stops start-up
   * with a panic before memory set-up.
   */
  lemma ScanPrecedesMemoryInit(ic: InternalConfig, c: RteConfig, env: InitEnv)
    requires ValidInitEnv(env)
    ensures var t := EalInit(ic, c, env).trace;
      forall j :: 0 <= j < |t| && t[j] == MemoryInit ==> exists i :: 0 <= i < j && t[i] == PciScan
    ensures env.firstCall && env.cpuInitOk && env.parseRet >= 0 && env.scanRet < 0 ==>
      EalInit(ic, c, env).Stopped? && MemoryInit !in EalInit(ic, c, env).trace
  {
    var t := EalInit(ic, c, env).trace;
    forall j | 0 <= j < |t| && t[j] == MemoryInit
      ensures exists i :: 0 <= i < j && t[i] == PciScan
    {
      var k := if !ic.noHugetlbfs && ic.processType != Secondary then 4 else 3;
      assert t[k] == PciScan;
    }
  }

  /**
   * A start-up that returns has the role it was configured with, marks the
   * configuration complete exactly when that role is primary (or it
   * already was), keeps the segment lists, applies the memory default and
   * returns what argument parsing returned.
   */
  lemma InitCompletesOnlyAsPrimary(ic: InternalConfig, c: RteConfig, env: InitEnv)
    requires ValidInitEnv(env) && env.firstCall
    ensures var r := EalInit(ic, c, env);
      r.Returned? ==>
        r.ret == env.parseRet && r.c.processType == ic.processType &&
        (r.c.memCfg.complete <==> ic.processType == Primary || ConfigInit(c, ic.processType, ic.noShconf, env.cfgEnv).c.memCfg.complete) &&
        r.ic.memory == DefaultMemory(ic.memory, ic.forceSockets, ic.noHugetlbfs, env.largePageMinimum) &&
        Complete in r.trace
  {
  }
}
