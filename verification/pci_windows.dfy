/**
 * The Windows PCI bus scan in user space: the memory-segment registry the
 * driver's pool fills, the sorted device list, the per-candidate outcome
 * and the scan verdict, and the configuration-space request.
 */
module PciWindows {
  import opened CTypes
  import opened Arith
  import opened CStrings
  import opened NetuioInterface
  import NetuioDev
  import opened MemConfig
  import opened PciParse

  /** Win32 error codes the scan uses. */
  const ERROR_SUCCESS: int := 0
  const ERROR_INVALID_DATA: nat := 13
  const ERROR_OUTOFMEMORY: nat := 14
  const ERROR_CONTINUE: nat := 1246
  const ERROR_BAD_CONFIGURATION: nat := 1610

  // -------------------------------------------------------------------
  // store_memseg_info
  // -------------------------------------------------------------------

  /** `MEMSEG_LIST_FMT` for 4 KiB pages: `memseg-4k-<socket>-<list index>`. */
  function MemsegListName(socket: int, idx: nat): (name: string)
    ensures |name| > |MEMSEG_4K_PREFIX| && name[..|MEMSEG_4K_PREFIX|] == MEMSEG_4K_PREFIX
    ensures name[|MEMSEG_4K_PREFIX|..] == FormatInt(socket, 0) + "-" + FormatInt(idx, 0)
  {
    assert FormatInt(RTE_PGSIZE_4K / 1024, 0) == "4";
    "memseg-" + FormatInt(RTE_PGSIZE_4K / 1024, 0) + "k-" + FormatInt(socket, 0) + "-" + FormatInt(idx, 0)
  }

  /** The fixed part of a 4 KiB list name. */
  const MEMSEG_4K_PREFIX: string := "memseg-4k-"

  /** Lists on different sockets, or with different indexes, get different names. */
  lemma MemsegListNameInjective(s1: nat, i1: nat, s2: nat, i2: nat)
    requires MemsegListName(s1, i1) == MemsegListName(s2, i2)
    ensures s1 == s2 && i1 == i2
  {
    var a1, a2 := FormatInt(s1, 0), FormatInt(s2, 0);
    PlainFormat(s1);
    PlainFormat(s2);
    assert '-' !in a1 && '-' !in a2 by {
      assert forall k :: 0 <= k < |a1| ==> a1[k] != '-';
      assert forall k :: 0 <= k < |a2| ==> a2[k] != '-';
    }
    SplitAtSeparator(a1, FormatInt(i1, 0), a2, FormatInt(i2, 0), '-');
    FormatIntInjective(s1, s2);
    FormatIntInjective(i1, i2);
  }

  /**
   * The segment loop: slots `cur` to `n - 1` each take one page, with the
   * virtual and physical cursors advancing by a page per slot.
   */
  function FillSegments(segs: seq<Memseg>, cur: nat, n: nat, addr: nat, phys: nat, pageSz: nat, socket: int): (r: seq<Memseg>)
    requires cur <= n <= |segs|
    ensures |r| == |segs|
    ensures forall i :: cur <= i < n ==>
      r[i] == Memseg(phys + pageSz * (i - cur), addr + pageSz * (i - cur), pageSz, socket, pageSz, true)
    ensures forall i :: 0 <= i < |segs| && !(cur <= i < n) ==> r[i] == segs[i]
    decreases n - cur
  {
    if cur == n then segs
    else
      var r := FillSegments(segs[cur := Memseg(phys, addr, pageSz, socket, pageSz, true)], cur + 1, n, addr + pageSz, phys + pageSz, pageSz, socket);
      assert r[cur] == Memseg(phys + pageSz * (cur - cur), addr + pageSz * (cur - cur), pageSz, socket, pageSz, true);
      r
  }

  /** The number of pages of a pool, as the 32-bit `unsigned int` the source keeps it in. */
  function PoolPages(info: PrivateInfo): nat
  {
    ToU32(info.ms.size / RTE_PGSIZE_4K)
  }

  /** Segment `i` of the pool as the registry describes it. */
  predicate PoolSegment(s: Memseg, info: PrivateInfo, i: nat)
  {
    s.physAddr == info.ms.physAddr + RTE_PGSIZE_4K * i &&
    s.addr == info.ms.userMappedVirtAddr + RTE_PGSIZE_4K * i &&
    s.len == RTE_PGSIZE_4K && s.hugepageSz == RTE_PGSIZE_4K &&
    s.socketId == info.devNumaNode && s.used
  }

  /**
   * `store_memseg_info`: with no configuration, BAD_CONFIGURATION; otherwise
   * claim the first list without a base address, set its page size and
   * socket, create its segment array (`arrayInit` is whether
   * `rte_fbarray_init` succeeds; OUTOFMEMORY when it does not, with page
   * size and socket already written), then describe the pool page by page.
   * No free list gives OUTOFMEMORY.
   */
  function StoreMemsegInfo(mcfg: Option<MemCfg>, info: PrivateInfo, arrayInit: bool): (r: (nat, Option<MemCfg>))
    ensures r.0 == ERROR_BAD_CONFIGURATION <==> mcfg.None?
    ensures r.1.Some? <==> mcfg.Some?
    ensures r.0 == ERROR_SUCCESS || r.0 == ERROR_OUTOFMEMORY || r.0 == ERROR_BAD_CONFIGURATION
    ensures mcfg.Some? ==> |r.1.value.memsegs| == |mcfg.value.memsegs|
    ensures mcfg.Some? && FirstFree(mcfg.value.memsegs, 0).None? ==> r == (ERROR_OUTOFMEMORY, mcfg)
    ensures r.0 == ERROR_SUCCESS <==> mcfg.Some? && FirstFree(mcfg.value.memsegs, 0).Some? && arrayInit
    ensures r.0 == ERROR_SUCCESS ==>
      var k := FirstFree(mcfg.value.memsegs, 0).value;
      var l := r.1.value.memsegs[k];
      l.baseVa == info.ms.userMappedVirtAddr && l.pageSz == RTE_PGSIZE_4K && l.socketId == info.devNumaNode &&
      l.arrName == MemsegListName(info.devNumaNode, k) &&
      |l.segs| == PoolPages(info) &&
      (forall i :: 0 <= i < |l.segs| ==> PoolSegment(l.segs[i], info, i))
    ensures mcfg.Some? && FirstFree(mcfg.value.memsegs, 0).Some? ==>
      forall j :: 0 <= j < |mcfg.value.memsegs| && j != FirstFree(mcfg.value.memsegs, 0).value ==>
        r.1.value.memsegs[j] == mcfg.value.memsegs[j]
  {
    match mcfg
    case None => (ERROR_BAD_CONFIGURATION, None)
    case Some(m) =>
      match FirstFree(m.memsegs, 0)
      case None => (ERROR_OUTOFMEMORY, mcfg)
      case Some(k) =>
        var numa := info.devNumaNode;
        var msl := m.memsegs[k].(pageSz := RTE_PGSIZE_4K, socketId := numa);
        var n := PoolPages(info);
        if !arrayInit then (ERROR_OUTOFMEMORY, Some(SetList(m, k, msl)))
        else
          var blank := seq(n, i => EMPTY_MEMSEG);
          var segs := FillSegments(blank, 0, n, info.ms.userMappedVirtAddr, info.ms.physAddr, RTE_PGSIZE_4K, numa);
          var l := MemsegList(info.ms.userMappedVirtAddr, RTE_PGSIZE_4K, numa, MemsegListName(numa, k), segs);
          (ERROR_SUCCESS, Some(SetList(m, k, l)))
  }

  /**
   * A stored pool with a user address claims its list, so the next store
   * goes to a later list; a pool without one leaves the list free, and the
   * next store overwrites it.
   */
  lemma StoreClaimsList(m: MemCfg, info: PrivateInfo, arrayInit: bool)
    requires FirstFree(m.memsegs, 0).Some?
    ensures var (st, m1) := StoreMemsegInfo(Some(m), info, arrayInit);
      var k := FirstFree(m.memsegs, 0).value;
      st == ERROR_SUCCESS ==>
        (info.ms.userMappedVirtAddr != NULL ==>
          FirstFree(m1.value.memsegs, 0).None? || FirstFree(m1.value.memsegs, 0).value > k) &&
        (info.ms.userMappedVirtAddr == NULL ==> FirstFree(m1.value.memsegs, 0) == Some(k))
  {
    var (st, m1) := StoreMemsegInfo(Some(m), info, arrayInit);
    var k := FirstFree(m.memsegs, 0).value;
    if st == ERROR_SUCCESS {
      var ls := m1.value.memsegs;
      assert forall j :: 0 <= j < k ==> Claimed(ls[j]) by {
        forall j | 0 <= j < k
          ensures Claimed(ls[j])
        {
          assert ls[j] == m.memsegs[j];
        }
      }
      FirstFreeSkips(ls, 0, k);
    }
  }

  /** `FirstFree` passes over claimed lists. */
  lemma {:induction false} FirstFreeSkips(ls: seq<MemsegList>, i: nat, k: nat)
    requires i <= k < |ls|
    requires forall j :: i <= j < k ==> Claimed(ls[j])
    ensures FirstFree(ls, i) == FirstFree(ls, k)
    decreases k - i
  {
    if i < k {
      FirstFreeSkips(ls, i + 1, k);
    }
  }

  // -------------------------------------------------------------------
  // The device list
  // -------------------------------------------------------------------

  /** `enum rte_kdrv`, the two values the scan uses: a zeroed record, and the netuio driver. */
  datatype Kdrv = KdrvUnknown | KdrvNicUio

  /** `struct rte_mem_resource`: physical address, length, user address. */
  datatype MemResource = MemResource(physAddr: nat, len: nat, addr: Ptr)

  const ZERO_RESOURCE: MemResource := MemResource(0, 0, NULL)

  /** The fields of `struct rte_pci_device` the scan fills. */
  datatype PciDevice = PciDevice(addr: PciAddr, id: HwIds, numaNode: int, kdrv: Kdrv, maxVfs: nat, memResource: seq<MemResource>)

  /** `struct rte_pci_addr`: 32-bit domain, 8-bit bus, device and function. */
  predicate ValidPciAddr(a: PciAddr)
  {
    IsU32(a.domain) && IsU8(a.bus) && IsU8(a.devid) && IsU8(a.func)
  }

  /** The 64-bit key the address comparison orders by: domain, bus, device, function. */
  function AddrKey(a: PciAddr): nat
  {
    a.domain * 0x100_0000 + a.bus * 0x1_0000 + a.devid * 0x100 + a.func
  }

  /** Distinct valid addresses have distinct keys. */
  lemma AddrKeyInjective(a: PciAddr, b: PciAddr)
    requires ValidPciAddr(a) && ValidPciAddr(b) && AddrKey(a) == AddrKey(b)
    ensures a == b
  {
    var k := AddrKey(a);
    var ha, hb := a.domain * 0x1_0000 + a.bus * 0x100 + a.devid, b.domain * 0x1_0000 + b.bus * 0x100 + b.devid;
    LowByte(k, ha, a.func);
    LowByte(k, hb, b.func);
    var ma, mb := a.domain * 0x100 + a.bus, b.domain * 0x100 + b.bus;
    LowByte(ha, ma, a.devid);
    LowByte(ha, mb, b.devid);
    LowByte(ma, a.domain, a.bus);
    LowByte(ma, b.domain, b.bus);
  }

  /** The low byte and the rest of `hi * 0x100 + lo` are `lo` and `hi`. */
  lemma LowByte(x: int, hi: int, lo: int)
    requires 0 <= lo < 0x100 && x == hi * 0x100 + lo
    ensures x / 0x100 == hi && x % 0x100 == lo
  {
    DivModUnique(x, 0x100, hi, lo);
  }

  /** Strictly increasing keys: sorted and free of duplicate addresses. */
  predicate Sorted(l: seq<PciDevice>)
  {
    forall i, j :: 0 <= i < j < |l| ==> AddrKey(l[i].addr) < AddrKey(l[j].addr)
  }

  predicate ValidAddrs(l: seq<PciDevice>)
  {
    forall i :: 0 <= i < |l| ==> ValidPciAddr(l[i].addr)
  }

  function Addrs(l: seq<PciDevice>): set<PciAddr>
  {
    set i | 0 <= i < |l| :: l[i].addr
  }

  /** A device found again: the listed entry takes the new driver, VF count and resources. */
  function Merge(listed: PciDevice, found: PciDevice): (r: PciDevice)
    ensures r.addr == listed.addr && r.id == listed.id && r.numaNode == listed.numaNode
    ensures r.kdrv == found.kdrv && r.maxVfs == found.maxVfs && r.memResource == found.memResource
  {
    listed.(kdrv := found.kdrv, maxVfs := found.maxVfs, memResource := found.memResource)
  }

  /**
   * The insertion at the end of `pci_scan_one`: walk the list; before the
   * first entry with a greater address insert the device; on an equal
   * address merge into that entry; past the end append.
   */
  function InsertSorted(l: seq<PciDevice>, d: PciDevice): (r: seq<PciDevice>)
    ensures |l| <= |r| <= |l| + 1
    decreases |l|
  {
    if |l| == 0 then [d]
    else if AddrKey(d.addr) > AddrKey(l[0].addr) then [l[0]] + InsertSorted(l[1..], d)
    else if AddrKey(d.addr) < AddrKey(l[0].addr) then [d] + l
    else [Merge(l[0], d)] + l[1..]
  }

  /** The index of the first entry whose key is not below `key`. */
  function Rank(l: seq<PciDevice>, key: nat): (j: nat)
    ensures j <= |l|
    ensures forall i :: 0 <= i < j ==> AddrKey(l[i].addr) < key
    ensures j < |l| ==> AddrKey(l[j].addr) >= key
  {
    if |l| == 0 || AddrKey(l[0].addr) >= key then 0 else 1 + Rank(l[1..], key)
  }

  /** `l` with `d` inserted at index `j`. */
  function Spliced(l: seq<PciDevice>, j: nat, d: PciDevice): (r: seq<PciDevice>)
    requires j <= |l|
    ensures |r| == |l| + 1 && r[j] == d
    ensures forall i :: 0 <= i < j ==> r[i] == l[i]
    ensures forall i :: j < i < |r| ==> r[i] == l[i - 1]
  {
    l[..j] + [d] + l[j..]
  }

  /** Insertion stated positionally: merge at the rank when the key is there, insert at the rank otherwise. */
  function InsertAt(l: seq<PciDevice>, d: PciDevice): seq<PciDevice>
  {
    var j := Rank(l, AddrKey(d.addr));
    if j < |l| && AddrKey(l[j].addr) == AddrKey(d.addr) then l[j := Merge(l[j], d)]
    else Spliced(l, j, d)
  }

  /** The list walk and the positional statement agree on every list. */
  lemma {:induction false} InsertSortedIsInsertAt(l: seq<PciDevice>, d: PciDevice)
    ensures InsertSorted(l, d) == InsertAt(l, d)
    decreases |l|
  {
    var key := AddrKey(d.addr);
    if |l| > 0 && key > AddrKey(l[0].addr) {
      InsertSortedIsInsertAt(l[1..], d);
      var j := Rank(l[1..], key);
      assert Rank(l, key) == 1 + j;
      if j < |l[1..]| && AddrKey(l[1..][j].addr) == key {
        ConsUpdate(l, j, Merge(l[1..][j], d));
      } else {
        ConsSpliced(l, j, d);
      }
    } else if |l| > 0 && key == AddrKey(l[0].addr) {
      assert [Merge(l[0], d)] + l[1..] == l[0 := Merge(l[0], d)];
    } else {
      assert Spliced(l, 0, d) == [d] + l;
    }
  }

  /** Updating the tail at `j` is updating the whole list at `1 + j`. */
  lemma ConsUpdate(l: seq<PciDevice>, j: nat, v: PciDevice)
    requires j < |l| - 1
    ensures [l[0]] + l[1..][j := v] == l[1 + j := v]
  {
  }

  /** Splicing into the tail at `j` is splicing into the whole list at `1 + j`. */
  lemma ConsSpliced(l: seq<PciDevice>, j: nat, d: PciDevice)
    requires 0 < |l| && j <= |l| - 1
    ensures [l[0]] + Spliced(l[1..], j, d) == Spliced(l, 1 + j, d)
  {
    assert [l[0]] + Spliced(l[1..], j, d) == [l[0]] + (l[1..][..j] + [d] + l[1..][j..]);
    assert l[..1 + j] == [l[0]] + l[1..][..j];
    assert l[1 + j..] == l[1..][j..];
  }

  /** Merging at the rank: the same addresses in the same order. */
  lemma InsertMergeCase(l: seq<PciDevice>, d: PciDevice, j: nat)
    requires Sorted(l) && ValidAddrs(l) && ValidPciAddr(d.addr)
    requires j < |l| && AddrKey(l[j].addr) == AddrKey(d.addr)
    ensures var r := l[j := Merge(l[j], d)];
      Sorted(r) && ValidAddrs(r) && Addrs(r) == Addrs(l) + {d.addr} && d.addr in Addrs(l)
  {
    AddrKeyInjective(l[j].addr, d.addr);
    var r := l[j := Merge(l[j], d)];
    assert forall i :: 0 <= i < |l| ==> r[i].addr == l[i].addr;
    assert Addrs(r) == Addrs(l);
    assert d.addr in Addrs(l) by { assert l[j].addr == d.addr; }
  }

  /** Inserting at the rank of a new key keeps the keys increasing. */
  lemma InsertNewSorted(l: seq<PciDevice>, d: PciDevice, j: nat)
    requires Sorted(l) && j == Rank(l, AddrKey(d.addr))
    requires j == |l| || AddrKey(l[j].addr) > AddrKey(d.addr)
    ensures Sorted(Spliced(l, j, d))
  {
    var r := Spliced(l, j, d);
    forall i, i' | 0 <= i < i' < |r|
      ensures AddrKey(r[i].addr) < AddrKey(r[i'].addr)
    {
      if i' <= j {
      } else if i == j {
        assert i' - 1 == j || AddrKey(l[j].addr) < AddrKey(l[i' - 1].addr);
      } else if i < j {
        assert AddrKey(l[i].addr) < AddrKey(l[i' - 1].addr);
      } else {
        assert AddrKey(l[i - 1].addr) < AddrKey(l[i' - 1].addr);
      }
    }
  }

  /** Inserting at the rank of a new key adds exactly that address. */
  lemma InsertNewAddrs(l: seq<PciDevice>, d: PciDevice, j: nat)
    requires Sorted(l) && j == Rank(l, AddrKey(d.addr))
    requires j == |l| || AddrKey(l[j].addr) > AddrKey(d.addr)
    ensures Addrs(Spliced(l, j, d)) == Addrs(l) + {d.addr}
    ensures d.addr !in Addrs(l)
  {
    SplicedAddrs(l, j, d);
    forall i | 0 <= i < |l|
      ensures l[i].addr != d.addr
    {
      if i >= j {
        assert i == j || AddrKey(l[j].addr) < AddrKey(l[i].addr);
      }
    }
  }

  /** Splicing a device in adds its address to the addresses already listed. */
  lemma SplicedAddrs(l: seq<PciDevice>, j: nat, d: PciDevice)
    requires j <= |l|
    ensures Addrs(Spliced(l, j, d)) == Addrs(l) + {d.addr}
  {
    var r := Spliced(l, j, d);
    forall a | a in Addrs(r)
      ensures a in Addrs(l) + {d.addr}
    {
      var i :| 0 <= i < |r| && r[i].addr == a;
      if i < j {
        assert l[i].addr == a;
      } else if i > j {
        assert l[i - 1].addr == a;
      }
    }
    forall a | a in Addrs(l)
      ensures a in Addrs(r)
    {
      var i :| 0 <= i < |l| && l[i].addr == a;
      if i < j {
        assert r[i].addr == a;
      } else {
        assert r[i + 1].addr == a;
      }
    }
    assert r[j].addr == d.addr;
  }

  /**
   * Inserting into a sorted list keeps it sorted and duplicate-free; the
   * addresses become the old ones plus the new one; the list grows by one
   * exactly when the address is new.
   */
  lemma InsertSortedKeepsSorted(l: seq<PciDevice>, d: PciDevice)
    requires Sorted(l) && ValidAddrs(l) && ValidPciAddr(d.addr)
    ensures Sorted(InsertSorted(l, d)) && ValidAddrs(InsertSorted(l, d))
    ensures Addrs(InsertSorted(l, d)) == Addrs(l) + {d.addr}
    ensures |InsertSorted(l, d)| == if d.addr in Addrs(l) then |l| else |l| + 1
  {
    InsertSortedIsInsertAt(l, d);
    var j := Rank(l, AddrKey(d.addr));
    if j < |l| && AddrKey(l[j].addr) == AddrKey(d.addr) {
      InsertMergeCase(l, d, j);
    } else {
      InsertNewSorted(l, d, j);
      InsertNewAddrs(l, d, j);
      var r := Spliced(l, j, d);
      assert ValidAddrs(r) by {
        forall i | 0 <= i < |r|
          ensures ValidPciAddr(r[i].addr)
        {
          if i > j {
            assert r[i] == l[i - 1];
          }
        }
      }
    }
  }

  // -------------------------------------------------------------------
  // pci_scan_one
  // -------------------------------------------------------------------

  /** A registry property read: the text, or the error `GetLastError` reports. */
  datatype RegistryRead = Read(text: string) | ReadError(error: nat)

  /**
   * What the system supplies for one candidate device: whether the device
   * record is allocated, the location and hardware-ID properties, the
   * driver's reply to the map request (None when the netuio interface,
   * the device file or the request fails), and whether the segment array
   * of the memory registry is created.
   */
  datatype Candidate = Candidate(
    recordAllocated: bool,
    location: RegistryRead,
    hardwareId: RegistryRead,
    driverReply: Option<PrivateInfo>,
    arrayInit: bool)

  predicate ValidCandidate(c: Candidate)
  {
    c.driverReply.Some? ==> ValidPrivateInfo(c.driverReply.value)
  }

  /** The process state the scan updates: the bus's device list and the memory configuration. */
  datatype ScanState = ScanState(devices: seq<PciDevice>, mcfg: Option<MemCfg>)

  /** One candidate's outcome: its return code and the state after it, or undefined behaviour (a NULL token read, an endless index loop). */
  datatype ScanStep = Ended(ret: int, st: ScanState) | Undefined

  /** `strstr(s, t) != NULL`. */
  predicate HasSubstring(s: string, t: string)
  {
    exists k: nat | k <= |s| :: OccursAt(s, t, k)
  }

  predicate OccursAt(s: string, t: string, k: nat)
  {
    k + |t| <= |s| && s[k..k + |t|] == t
  }

  /** The BAR resources the driver reported, `PCI_MAX_RESOURCE` of them. */
  function Resources(info: PrivateInfo): (r: seq<MemResource>)
    requires ValidPrivateInfo(info)
    ensures |r| == PCI_MAX_BAR
    ensures forall i :: 0 <= i < PCI_MAX_BAR ==>
      r[i] == MemResource(info.hw[i].physAddr, info.hw[i].size, info.hw[i].userMappedVirtAddr)
  {
    seq(PCI_MAX_BAR, i requires 0 <= i < PCI_MAX_BAR => MemResource(info.hw[i].physAddr, info.hw[i].size, info.hw[i].userMappedVirtAddr))
  }

  /** The hardware-ID text parsed: the property, or the location text still in the buffer when the read fails. */
  function IdText(c: Candidate, location: string): string
  {
    match c.hardwareId
    case Read(t) => t
    case ReadError(_) => location
  }

  /**
   * `pci_scan_one`. Codes: -1 allocation failure; a failed location read
   * is ERROR_CONTINUE for ERROR_INVALID_DATA and -2 for any other error; a
   * location without "PCI" is ERROR_CONTINUE; a malformed location -3; a
   * malformed hardware ID -4; a failed driver request or memory registry
   * ERROR_CONTINUE; otherwise 0 with the device in the list. `alpha` is
   * the code page's letter test the location reader skips words with.
   */
  function ScanOne(alpha: LetterTest, st: ScanState, c: Candidate): (r: ScanStep)
    requires ValidCandidate(c)
    ensures !c.recordAllocated ==> r == Ended(-1, st)
    ensures r.Ended? && r.ret != ERROR_SUCCESS ==> r.st.devices == st.devices
    ensures r.Ended? && r.ret == ERROR_SUCCESS ==>
      c.location.Read? && ParseLocation(c.location.text, alpha).Parsed? && c.driverReply.Some? &&
      |st.devices| <= |r.st.devices| <= |st.devices| + 1
    ensures r.Undefined? ==> c.location.Read? && HasSubstring(c.location.text, "PCI") && !ParseLocation(c.location.text, alpha).Malformed?
  {
    if !c.recordAllocated then Ended(-1, st)
    else match c.location
      case ReadError(e) => Ended(if e == ERROR_INVALID_DATA then ERROR_CONTINUE else -2, st)
      case Read(text) =>
        if !HasSubstring(text, "PCI") then Ended(ERROR_CONTINUE, st)
        else
          var loc := ParseLocation(text, alpha);
          if loc.Malformed? then Ended(-3, st)
          else if !loc.Parsed? then Undefined
          else
            var ids := ParseHardwareId(IdText(c, text));
            if ids.Malformed? then Ended(-4, st)
            else if !ids.Parsed? then Undefined
            else match c.driverReply
              case None => Ended(ERROR_CONTINUE, st)
              case Some(info) =>
                var dev := PciDevice(loc.value, ids.value, info.devNumaNode, KdrvNicUio, 0, Resources(info));
                var (status, mcfg) := StoreMemsegInfo(st.mcfg, info, c.arrayInit);
                if status != ERROR_SUCCESS then Ended(ERROR_CONTINUE, st.(mcfg := mcfg))
                else Ended(ERROR_SUCCESS, ScanState(InsertSorted(st.devices, dev), mcfg))
  }

  /** The codes a candidate can end with; only 0 changes the device list. */
  lemma ScanOneCodes(alpha: LetterTest, st: ScanState, c: Candidate)
    requires ValidCandidate(c)
    ensures var r := ScanOne(alpha, st, c);
      r.Ended? ==>
        (r.ret in {ERROR_SUCCESS, ERROR_CONTINUE, -1, -2, -3, -4}) &&
        (r.ret != ERROR_SUCCESS ==> r.st.devices == st.devices) &&
        (r.ret == ERROR_CONTINUE || r.ret == ERROR_SUCCESS ==> c.recordAllocated && (c.location.Read? ==> HasSubstring(c.location.text, "PCI") || r.ret == ERROR_CONTINUE))
  {
  }

  /**
   * A candidate the scan skips is one whose location read fails with
   * ERROR_INVALID_DATA, whose location does not mention PCI, or whose
   * driver request or memory registry fails; -2, -3 and -4 are a location
   * read error of another kind, a malformed location, a malformed ID.
   */
  lemma ScanOneSkipsOnly(alpha: LetterTest, st: ScanState, c: Candidate)
    requires ValidCandidate(c) && c.recordAllocated
    ensures var r := ScanOne(alpha, st, c);
      ((r.Ended? && r.ret == ERROR_CONTINUE) <==>
        (c.location.ReadError? && c.location.error == ERROR_INVALID_DATA) ||
        (c.location.Read? && !HasSubstring(c.location.text, "PCI")) ||
        (c.location.Read? && HasSubstring(c.location.text, "PCI") &&
         ParseLocation(c.location.text, alpha).Parsed? && ParseHardwareId(IdText(c, c.location.text)).Parsed? &&
         (c.driverReply.None? || StoreMemsegInfo(st.mcfg, c.driverReply.value, c.arrayInit).0 != ERROR_SUCCESS))) &&
      (r == Ended(-2, st) <==> c.location.ReadError? && c.location.error != ERROR_INVALID_DATA) &&
      (r == Ended(-3, st) <==> c.location.Read? && HasSubstring(c.location.text, "PCI") && ParseLocation(c.location.text, alpha).Malformed?)
  {
  }

  /**
   * A successful candidate leaves a device with its parsed address, the
   * numbers the driver reported and the netuio driver in the list, and the
   * list keeps its order.
   */
  lemma ScanOneAdds(alpha: LetterTest, st: ScanState, c: Candidate)
    requires ValidCandidate(c) && Sorted(st.devices) && ValidAddrs(st.devices)
    ensures var r := ScanOne(alpha, st, c);
      r.Ended? ==> Sorted(r.st.devices) && ValidAddrs(r.st.devices)
    ensures var r := ScanOne(alpha, st, c);
      r.Ended? && r.ret == ERROR_SUCCESS ==>
        var a := ParseLocation(c.location.text, alpha).value;
        Addrs(r.st.devices) == Addrs(st.devices) + {a} &&
        exists i :: 0 <= i < |r.st.devices| && r.st.devices[i].addr == a &&
          r.st.devices[i].kdrv == KdrvNicUio && r.st.devices[i].memResource == Resources(c.driverReply.value)
  {
    var r := ScanOne(alpha, st, c);
    ScanOneCodes(alpha, st, c);
    if r.Ended? && r.ret == ERROR_SUCCESS {
      var text := c.location.text;
      var a := ParseLocation(text, alpha).value;
      var info := c.driverReply.value;
      var dev := PciDevice(a, ParseHardwareId(IdText(c, text)).value, info.devNumaNode, KdrvNicUio, 0, Resources(info));
      assert r.st.devices == InsertSorted(st.devices, dev);
      assert ValidPciAddr(a);
      InsertSortedKeepsSorted(st.devices, dev);
      InsertSortedHolds(st.devices, dev);
    }
  }

  /** After the insertion some entry has the device's address, driver and resources. */
  lemma InsertSortedHolds(l: seq<PciDevice>, d: PciDevice)
    requires ValidAddrs(l) && ValidPciAddr(d.addr)
    ensures var r := InsertSorted(l, d);
      exists i :: 0 <= i < |r| && r[i].addr == d.addr && r[i].kdrv == d.kdrv && r[i].memResource == d.memResource
  {
    InsertSortedIsInsertAt(l, d);
    var r := InsertSorted(l, d);
    var j := Rank(l, AddrKey(d.addr));
    if j < |l| && AddrKey(l[j].addr) == AddrKey(d.addr) {
      AddrKeyInjective(l[j].addr, d.addr);
      assert r[j].addr == d.addr;
    } else {
      assert r[j] == d;
    }
  }

  // -------------------------------------------------------------------
  // rte_pci_scan
  // -------------------------------------------------------------------

  /** The scan's end: the code returned, the state, and the codes of the candidates it visited. */
  datatype ScanEnd = Finished(ret: int, st: ScanState, codes: seq<int>) | ScanUndefined

  predicate Skipped(code: int) { code == ERROR_CONTINUE }

  /** A code that stops the scan. */
  predicate Aborts(code: int) { code != ERROR_SUCCESS && code != ERROR_CONTINUE }

  predicate ValidCandidates(cs: seq<Candidate>)
  {
    forall i :: 0 <= i < |cs| ==> ValidCandidate(cs[i])
  }

  /** No code in the list stops the scan. */
  predicate NoAbort(codes: seq<int>)
  {
    forall i :: 0 <= i < |codes| ==> !Aborts(codes[i])
  }

  /** A candidate's code in front of the codes of the rest of the scan. */
  function Prepend(code: int, r: ScanEnd): ScanEnd
  {
    if r.Finished? then Finished(r.ret, r.st, [code] + r.codes) else r
  }

  /**
   * The enumeration loop from here with `found` devices so far: count
   * successes, skip ERROR_CONTINUE, return any other code at once; at the
   * end 0 if something was found, else -1. The result lists the codes of
   * the candidates visited from here.
   */
  function ScanLoop(alpha: LetterTest, st: ScanState, cs: seq<Candidate>, found: nat): (r: ScanEnd)
    requires ValidCandidates(cs)
    ensures r.Finished? ==> |r.codes| <= |cs|
    ensures r.Finished? && NoAbort(r.codes) ==> |r.codes| == |cs|
    decreases |cs|
  {
    if |cs| == 0 then Finished(if found != 0 then 0 else -1, st, [])
    else match ScanOne(alpha, st, cs[0])
      case Undefined => ScanUndefined
      case Ended(ret, st1) =>
        if ret != ERROR_SUCCESS && ret != ERROR_CONTINUE then
          assert Aborts([ret][0]);
          Finished(ret, st1, [ret])
        else
          var rest := ScanLoop(alpha, st1, cs[1..], if ret == ERROR_SUCCESS then found + 1 else found);
          PrependFinished(ret, rest);
          Prepend(ret, rest)
  }

  /** A success or a skip in front of the rest of the scan adds one code that does not abort. */
  lemma PrependFinished(code: int, r: ScanEnd)
    requires !Aborts(code)
    ensures Prepend(code, r).Finished? <==> r.Finished?
    ensures r.Finished? ==>
      |Prepend(code, r).codes| == |r.codes| + 1 && (NoAbort(Prepend(code, r).codes) <==> NoAbort(r.codes))
  {
    if r.Finished? {
      PrependNoAbort(code, r.codes);
    }
  }

  /** `rte_pci_scan`: -1 when the device set cannot be enumerated, else the loop over the enumerated candidates. */
  function RtePciScan(alpha: LetterTest, enumerated: bool, st: ScanState, cs: seq<Candidate>): (r: ScanEnd)
    requires ValidCandidates(cs)
    ensures !enumerated ==> r == Finished(-1, st, [])
    ensures enumerated && r.Finished? && NoAbort(r.codes) ==> |r.codes| == |cs|
  {
    if !enumerated then Finished(-1, st, []) else ScanLoop(alpha, st, cs, 0)
  }

  /**
   * The loop's verdict from the codes it saw: 0 exactly when no candidate
   * aborted and something was found (before or during this stretch); on
   * an abort, the aborting code is the last one seen and is returned.
   */
  lemma {:induction false} ScanLoopVerdict(alpha: LetterTest, st: ScanState, cs: seq<Candidate>, found: nat)
    requires ValidCandidates(cs)
    ensures var r := ScanLoop(alpha, st, cs, found);
      r.Finished? ==>
        NoAbort(DropLast(r.codes)) &&
        (r.ret == 0 <==> NoAbort(r.codes) && (found > 0 || ERROR_SUCCESS in r.codes)) &&
        (!NoAbort(r.codes) ==> r.ret == r.codes[|r.codes| - 1])
    decreases |cs|
  {
    if |cs| > 0 {
      var s := ScanOne(alpha, st, cs[0]);
      if s.Ended? && (s.ret == ERROR_SUCCESS || s.ret == ERROR_CONTINUE) {
        var found1 := if s.ret == ERROR_SUCCESS then found + 1 else found;
        var rest := ScanLoop(alpha, s.st, cs[1..], found1);
        ScanLoopVerdict(alpha, s.st, cs[1..], found1);
        assert ScanLoop(alpha, st, cs, found) == Prepend(s.ret, rest);
        if rest.Finished? {
          PrependCodes(s.ret, rest.codes);
          if s.ret == ERROR_SUCCESS {
            assert ERROR_SUCCESS in [s.ret] + rest.codes;
          }
        }
      } else if s.Ended? {
        assert ScanLoop(alpha, st, cs, found) == Finished(s.ret, s.st, [s.ret]);
        assert DropLast([s.ret]) == [];
        assert !NoAbort([s.ret]) by { assert Aborts([s.ret][0]); }
      }
    }
  }

  /** All but the last element. */
  function DropLast(codes: seq<int>): seq<int>
  {
    if |codes| == 0 then [] else codes[..|codes| - 1]
  }

  /** What putting a success or a skip in front of a code list changes. */
  lemma PrependCodes(code: int, codes: seq<int>)
    requires !Aborts(code)
    ensures NoAbort([code] + codes) <==> NoAbort(codes)
    ensures NoAbort(DropLast([code] + codes)) <==> NoAbort(DropLast(codes))
    ensures ERROR_SUCCESS in [code] + codes <==> code == ERROR_SUCCESS || ERROR_SUCCESS in codes
    ensures |codes| > 0 ==> ([code] + codes)[|codes|] == codes[|codes| - 1]
  {
    PrependNoAbort(code, codes);
    if |codes| > 0 {
      assert DropLast([code] + codes) == [code] + DropLast(codes);
      PrependNoAbort(code, DropLast(codes));
    } else {
      assert DropLast([code] + codes) == [];
    }
  }

  /** A success or a skip in front of a list does not stop the scan. */
  lemma PrependNoAbort(code: int, codes: seq<int>)
    requires !Aborts(code)
    ensures NoAbort([code] + codes) <==> NoAbort(codes)
  {
    var c := [code] + codes;
    if NoAbort(codes) {
      forall i | 0 <= i < |c|
        ensures !Aborts(c[i])
      {
        if i > 0 {
          assert c[i] == codes[i - 1];
        }
      }
    }
    if NoAbort(c) {
      forall i | 0 <= i < |codes|
        ensures !Aborts(codes[i])
      {
        assert codes[i] == c[i + 1];
      }
    }
  }

  /** The device list stays sorted and duplicate-free through the whole scan. */
  lemma {:induction false} ScanLoopKeepsSorted(alpha: LetterTest, st: ScanState, cs: seq<Candidate>, found: nat)
    requires ValidCandidates(cs) && Sorted(st.devices) && ValidAddrs(st.devices)
    ensures var r := ScanLoop(alpha, st, cs, found);
      r.Finished? ==> Sorted(r.st.devices) && ValidAddrs(r.st.devices)
    decreases |cs|
  {
    if |cs| > 0 {
      ScanOneAdds(alpha, st, cs[0]);
      var s := ScanOne(alpha, st, cs[0]);
      if s.Ended? && (s.ret == ERROR_SUCCESS || s.ret == ERROR_CONTINUE) {
        ScanLoopKeepsSorted(alpha, s.st, cs[1..], if s.ret == ERROR_SUCCESS then found + 1 else found);
      }
    }
  }

  /** `rte_pci_scan` returns 0 exactly when no candidate aborted and at least one was added or merged. */
  lemma RtePciScanVerdict(alpha: LetterTest, enumerated: bool, st: ScanState, cs: seq<Candidate>)
    requires ValidCandidates(cs)
    ensures var r := RtePciScan(alpha, enumerated, st, cs);
      r.Finished? ==>
        (r.ret == 0 <==> enumerated && NoAbort(r.codes) && ERROR_SUCCESS in r.codes) &&
        NoAbort(DropLast(r.codes)) &&
        (!NoAbort(r.codes) ==> r.ret == r.codes[|r.codes| - 1])
  {
    if enumerated {
      ScanLoopVerdict(alpha, st, cs, 0);
    }
  }

  // -------------------------------------------------------------------
  // pci_config_io
  // -------------------------------------------------------------------

  /** `NETUIO_DEVICENAME_SZ`: the characters the device name may use, NUL included. */
  const NETUIO_DEVICENAME_SZ: nat := 20
  /** The Win32 device namespace prefix `\\.\`. */
  const WIN32_DEVICE_NAMESPACE: string := "\\\\.\\"

  /** `_%04d%02d%02d` of the `uint8_t` bus, device and function: never negative on this side. */
  function UserBdfSuffix(a: PciAddr): string
  {
    "_" + FormatInt(a.bus, 4) + FormatInt(a.devid, 2) + FormatInt(a.func, 2)
  }

  /**
   * The device file the config request opens, `\\.\netuio_BBBBDDFF`; None
   * when it and its NUL do not fit the buffer (the secure print's
   * invalid-parameter handler).
   */
  function UserDeviceName(a: PciAddr): (r: Option<string>)
    ensures r.Some? ==> |r.value| < NETUIO_DEVICENAME_SZ
  {
    var name := WIN32_DEVICE_NAMESPACE + NETUIO_DRIVER_NAME + UserBdfSuffix(a);
    if |name| < NETUIO_DEVICENAME_SZ then Some(name) else None
  }

  /**
   * The name user space opens is the name the driver links: both are the
   * same device name after their namespace prefix (`\\.\` is the user-mode
   * spelling of `\DosDevices\`), and any PCI address fits.
   */
  lemma UserNameMatchesKernelLink(a: PciAddr)
    requires ValidPciAddr(a) && a.devid < 32 && a.func < 8
    ensures UserDeviceName(a).Some?
    ensures var k := NetuioDev.SymbolicLinkName(DevAddr(a.bus, a.devid, a.func));
      var u := UserDeviceName(a).value;
      u[|WIN32_DEVICE_NAMESPACE|..] == k[|DOS_DEVICES|..]
  {
    var d := DevAddr(a.bus, a.devid, a.func);
    NetuioDev.SuffixDeterminesAddress(d);
    assert UserBdfSuffix(a) == NetuioDev.BdfSuffix(d);
    var t := NETUIO_DRIVER_NAME + NetuioDev.BdfSuffix(d);
    AppendAssoc(WIN32_DEVICE_NAMESPACE, NETUIO_DRIVER_NAME, NetuioDev.BdfSuffix(d));
    DropPrefix(WIN32_DEVICE_NAMESPACE, t);
    AppendAssoc(DOS_DEVICES, NETUIO_DRIVER_NAME, NetuioDev.BdfSuffix(d));
    DropPrefix(DOS_DEVICES, t);
  }

  lemma AppendAssoc(a: string, b: string, c: string)
    ensures a + b + c == a + (b + c)
  {
  }

  lemma DropPrefix(p: string, rest: string)
    ensures (p + rest)[|p|..] == rest
  {
  }

  /** Bytes, least significant first, read as one number. */
  function LittleEndian(bs: seq<nat>): nat
  {
    if |bs| == 0 then 0 else bs[0] + U8_LIMIT * LittleEndian(bs[1..])
  }

  /** The low `n` bytes of `v`, least significant first. */
  function LeBytes(v: nat, n: nat): (bs: seq<nat>)
    ensures |bs| == n
    ensures forall i :: 0 <= i < n ==> IsU8(bs[i])
  {
    if n == 0 then [] else [v % U8_LIMIT] + LeBytes(v / U8_LIMIT, n - 1)
  }

  predicate Bytes(bs: seq<nat>)
  {
    forall i :: 0 <= i < |bs| ==> IsU8(bs[i])
  }

  /** Writing bytes out as a number and reading that number back as bytes gives the same bytes. */
  lemma {:induction false} LeBytesOfLittleEndian(bs: seq<nat>)
    requires Bytes(bs)
    ensures LeBytes(LittleEndian(bs), |bs|) == bs
    decreases |bs|
  {
    if |bs| > 0 {
      var v := LittleEndian(bs);
      assert v % U8_LIMIT == bs[0] && v / U8_LIMIT == LittleEndian(bs[1..]);
      LeBytesOfLittleEndian(bs[1..]);
    }
  }

  /** The driver's answer to a config request: None when the request fails, else the 8-byte reply. */
  type ConfigDriver = ConfigIoRequest -> Option<nat>

  /** What a config access returns: 0 or -1, and the caller's buffer afterwards. */
  datatype IoResult = IoResult(ret: int, buf: seq<nat>)

  /** The request for a 4-byte access, as the source always sends it. */
  function AsWrittenRequest(a: PciAddr, buf: seq<nat>, offset: nat, op: nat): (q: ConfigIoRequest)
    requires op == PCI_IO_WRITE ==> |buf| >= 4
    ensures q.accessSize == 4
    ensures q.op == op && q.offset == offset && q.devAddr == DevAddr(a.bus, a.devid, a.func)
    ensures q.data == if op == PCI_IO_WRITE then LittleEndian(buf[..4]) else 0
  {
    ConfigIoRequest(DevAddr(a.bus, a.devid, a.func), offset, op, 4,
      if op == PCI_IO_WRITE then LittleEndian(buf[..4]) else 0)
  }

  /**
   * `pci_config_io` as written: whatever the length, the request carries
   * access size 4, a write sends the buffer's first 4 bytes and a read
   * copies 4 bytes back. A write reads its 4 bytes before the request goes
   * out; a read copies them back only after the driver answers. Touching a
   * buffer shorter than 4 bytes is undefined (None), as is a name that does
   * not fit.
   */
  function PciConfigIoAsWritten(a: PciAddr, buf: seq<nat>, offset: nat, op: nat, fileOpened: bool, driver: ConfigDriver): (r: Option<IoResult>)
    ensures UserDeviceName(a).Some? && fileOpened && |buf| < 4 && op == PCI_IO_WRITE ==> r.None?
    ensures UserDeviceName(a).Some? && fileOpened && |buf| < 4 && op == PCI_IO_READ ==>
      (r.None? <==> driver(AsWrittenRequest(a, buf, offset, op)).Some?)
    ensures r.Some? ==> |r.value.buf| == |buf| && (r.value.ret == 0 || r.value.ret == -1)
    ensures r.Some? && r.value.ret == -1 ==> r.value.buf == buf
    ensures r.Some? && r.value.ret == 0 && op == PCI_IO_READ ==>
      driver(AsWrittenRequest(a, buf, offset, op)).Some? && |buf| >= 4 &&
      r.value.buf == LeBytes(driver(AsWrittenRequest(a, buf, offset, op)).value, 4) + buf[4..]
    ensures r.Some? && op != PCI_IO_READ ==> r.value.buf == buf
  {
    if UserDeviceName(a).None? then None
    else if !fileOpened then Some(IoResult(-1, buf))
    else if op == PCI_IO_WRITE && |buf| < 4 then None
    else match driver(AsWrittenRequest(a, buf, offset, op))
      case None => Some(IoResult(-1, buf))
      case Some(out) =>
        if op == PCI_IO_READ then
          if |buf| < 4 then None else Some(IoResult(0, LeBytes(out, 4) + buf[4..]))
        else Some(IoResult(0, buf))
  }

  /** The request for an access of the caller's length. */
  function Request(a: PciAddr, buf: seq<nat>, offset: nat, op: nat): (q: ConfigIoRequest)
    ensures q.accessSize == |buf|
    ensures q.op == op && q.offset == offset && q.devAddr == DevAddr(a.bus, a.devid, a.func)
    ensures op == PCI_IO_WRITE ==> q.data == LittleEndian(buf)
  {
    ConfigIoRequest(DevAddr(a.bus, a.devid, a.func), offset, op, |buf|,
      if op == PCI_IO_WRITE then LittleEndian(buf) else 0)
  }

  /**
   * `pci_config_io` with the caller's length: the request carries `len` as
   * access size, a write sends exactly `len` bytes, a read copies exactly
   * `len` bytes back; a length the request cannot carry fails with -1.
   */
  function PciConfigIo(a: PciAddr, buf: seq<nat>, offset: nat, op: nat, fileOpened: bool, driver: ConfigDriver): (r: Option<IoResult>)
    ensures r.None? <==> UserDeviceName(a).None?
    ensures r.Some? ==> |r.value.buf| == |buf| && (r.value.ret == 0 || r.value.ret == -1)
    ensures r.Some? && r.value.ret == -1 ==> r.value.buf == buf
    ensures r.Some? && r.value.ret == 0 ==>
      fileOpened && ValidAccessSize(|buf|) && driver(Request(a, buf, offset, op)).Some? &&
      r.value.buf == if op == PCI_IO_READ then LeBytes(driver(Request(a, buf, offset, op)).value, |buf|) else buf
  {
    if UserDeviceName(a).None? then None
    else if !fileOpened || !ValidAccessSize(|buf|) then Some(IoResult(-1, buf))
    else match driver(Request(a, buf, offset, op))
      case None => Some(IoResult(-1, buf))
      case Some(out) =>
        if op == PCI_IO_READ then Some(IoResult(0, LeBytes(out, |buf|)))
        else Some(IoResult(0, buf))
  }

  /**
   * A one-byte read, as drivers issue for capability pointers: once the
   * driver answers, the source copies 4 bytes into the 1-byte buffer; with
   * the caller's length the read returns exactly the byte the driver reports.
   */
  lemma OneByteRead(a: PciAddr, driver: ConfigDriver, b: nat)
    requires ValidPciAddr(a) && a.devid < 32 && a.func < 8
    requires driver(AsWrittenRequest(a, [0], 0x34, PCI_IO_READ)).Some?
    requires driver(Request(a, [0], 0x34, PCI_IO_READ)) == Some(b)
    ensures PciConfigIoAsWritten(a, [0], 0x34, PCI_IO_READ, true, driver).None?
    ensures PciConfigIo(a, [0], 0x34, PCI_IO_READ, true, driver) == Some(IoResult(0, [b % U8_LIMIT]))
  {
    UserNameMatchesKernelLink(a);
    assert ValidAccessSize(|[0]|);
    var r := PciConfigIo(a, [0], 0x34, PCI_IO_READ, true, driver);
    assert r == Some(IoResult(0, LeBytes(b, 1)));
    assert LeBytes(b / U8_LIMIT, 0) == [];
    var low: nat := b % U8_LIMIT;
    assert LeBytes(b, 1) == [low] + LeBytes(b / U8_LIMIT, 0);
    assert [low] + [] == [low];
    assert LeBytes(b, 1) == [low];
  }

  /** A one-byte read the driver refuses fails with -1 before the buffer is touched. */
  lemma OneByteReadRefused(a: PciAddr, driver: ConfigDriver)
    requires ValidPciAddr(a) && a.devid < 32 && a.func < 8
    requires driver(AsWrittenRequest(a, [0], 0x34, PCI_IO_READ)).None?
    ensures PciConfigIoAsWritten(a, [0], 0x34, PCI_IO_READ, true, driver) == Some(IoResult(-1, [0]))
  {
    UserNameMatchesKernelLink(a);
  }

  /**
   * What a write sends is what a read of the same width returns: when the
   * driver's read reply holds the value the write carried, the caller's
   * buffer comes back unchanged.
   */
  lemma WriteThenReadRoundTrip(a: PciAddr, buf: seq<nat>, offset: nat, driver: ConfigDriver)
    requires Bytes(buf) && ValidAccessSize(|buf|)
    requires driver(Request(a, buf, offset, PCI_IO_READ)) == Some(Request(a, buf, offset, PCI_IO_WRITE).data)
    requires UserDeviceName(a).Some?
    ensures PciConfigIo(a, buf, offset, PCI_IO_READ, true, driver) == Some(IoResult(0, buf))
  {
    LeBytesOfLittleEndian(buf);
  }
}
