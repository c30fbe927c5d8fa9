# Windows DPDK draft: netuio driver, PCI discovery and EAL bookkeeping

This project models the core of the Windows port of DPDK in Dafny.

- **netuio kernel driver.** It hands user space the BARs of a PCI network device and a 256 MiB physically contiguous pool.
- **User-space PCI bus.** It finds devices by parsing registry strings, asks netuio to map them, and records the pool as a memory-segment list.
- **Windows EAL.** It covers the primary/secondary role choice, the shared-configuration hand-over, virtual-to-physical translation, runtime paths and the lcore table.
- **Helper headers.** These are the bit intrinsics, `strtok_r`/`strsep` replacements, `CPU_*` sets, alignment and mask macros, getopt's `gcd`/`permute_args`, and the rte_flow error helpers with `rte_flow_copy`.

Conventions used throughout:

- **Data.** C records are immutable datatypes and C strings are `seq<char>` (the characters before the NUL). Pointers are naturals, with `NULL == 0`. Fixed-width integers are naturals with explicit reduction (`ToU8`, `ToU16`, `ToU32`, `ToU64`) or bit-vectors where the source does bit tricks.
- **Outside services are inputs.** Every framework or OS call becomes a parameter: WDF, the memory manager, SetupAPI, the registry, `DeviceIoControl`, file locking, `mmap`, and `GetBusData`/`SetBusData`. A parameter is a status, an oracle function or a record of replies. The model decides only what the source code decides.
- **Undefined behaviour is explicit.** Where the C code reads a NULL token or loops forever, the parse result has explicit `Fault` and `Hang` outcomes instead of a precondition.

Modules: `CTypes`, `Arith`, `CStrings` (C library pieces the code calls), `NtStatus`, `WinBits`, `WinStrings`, `AlignMacros`, `GetoptPermute`, `NetuioInterface`, `NetuioDev`, `NetuioQueue`, `NetuioDrv`, `MemConfig`, `PciParse`, `PciWindows`, `EalMemory`, `Eal`, `EalFilesystem`, `EalLcore`, `RteFlow`.

Where the code and its comments disagree, the model follows the code:

- **Scan aborts.** A hardware-ID parse failure (-4) ends the whole bus scan instead of skipping the device. So does a location read that fails with anything but `ERROR_INVALID_DATA` (-2).
- **Fixed width.** A configuration access always carries width 4.
- **No NUMA node.** The map reply never carries the NUMA node.
- **BAR skip test.** The driver skips a BAR slot by testing the 64-bit flag of the previous raw slot value. That value can be the high dword of a 64-bit BAR, and `NetuioDev.Step` keeps that test.
- **Runtime directory.** `eal_create_runtime_dir` sits in eal.c, not in eal_filesystem.h.
- **Helpers defined elsewhere.** `rte_strsplit`, `strtoul`, `snprintf`, `strspn`/`strcspn` and `rte_eal_compare_pci_addr` are not defined in these files. `CStrings` and `PciWindows.AddrKey` state them from their standard or DPDK definitions.

## Model

| member | source | states |
|---|---|---|
| WinBits.PopcountCounts32 | lib/librte_eal/windows/rte_override/rte_wincompat.h:35-46 | the SWAR popcount equals the number of set bits of the 32-bit argument |
| WinBits.PopcountZero32 | lib/librte_eal/windows/rte_override/rte_wincompat.h:35-46 | the count is 0 exactly for 0 |
| WinBits.Popcountl | lib/librte_eal/windows/rte_override/rte_wincompat.h:48-51 | `unsigned long` is 32 bits on Windows, so it counts all 32 bits and is 0 only for 0 |
| WinBits.PopcountllLowByte | lib/librte_eal/windows/rte_override/rte_wincompat.h:53-64 | after the three SWAR stages the low byte holds the number of set bits among bits 0-7 |
| WinBits.PopcountllCounts | lib/librte_eal/windows/rte_override/rte_wincompat.h:53-64 | `__builtin_popcountll` (three SWAR stages, then `(x * h01) >> 56`) equals the number of set bits among all 64 bits |
| WinBits.PopcountllZero | lib/librte_eal/windows/rte_override/rte_wincompat.h:53-64 | the 64-bit count is 0 exactly for 0 |
| WinBits.ScanForward32 | lib/librte_eal/windows/rte_override/rte_wincompat.h:73-81 | `_BitScanForward` finds the lowest set bit at or above the start, or reports none exactly when no bit is set there |
| WinBits.ScanReverse32 | lib/librte_eal/windows/rte_override/rte_wincompat.h:103-111 | `_BitScanReverse` finds the highest set bit below the bound, or none exactly when no bit is set |
| WinBits.Ctz32 | lib/librte_eal/windows/rte_override/rte_wincompat.h:73-81 | the index of the lowest set bit with all lower bits clear; 32 exactly for 0 |
| WinBits.CtzUnique32 | lib/librte_eal/windows/rte_override/rte_wincompat.h:73-81 | ctz is i if and only if bit i is set and every bit below is clear |
| WinBits.Ctzl | lib/librte_eal/windows/rte_override/rte_wincompat.h:84-87 | same as ctz on the 32-bit `unsigned long`; 32 exactly when the popcount is 0 |
| WinBits.ScanForward64 | lib/librte_eal/windows/rte_override/rte_wincompat.h:90-98 | `_BitScanForward64` finds the lowest set bit at or above the start, or none |
| WinBits.ScanReverse64 | lib/librte_eal/windows/rte_override/rte_wincompat.h:119-128 | `_BitScanReverse64` finds the highest set bit below the start with no set bit between, or reports none exactly when no bit below the start is set |
| WinBits.Ctzll | lib/librte_eal/windows/rte_override/rte_wincompat.h:90-98 | index of the lowest set bit of 64; 64 exactly for 0 |
| WinBits.CtzllUnique | lib/librte_eal/windows/rte_override/rte_wincompat.h:90-98 | ctzll is i if and only if bit i is set and every lower bit is clear |
| WinBits.Clz32 | lib/librte_eal/windows/rte_override/rte_wincompat.h:103-111 | 31 minus the highest set bit, with every higher bit clear; 32 exactly for 0 |
| WinBits.Clzl | lib/librte_eal/windows/rte_override/rte_wincompat.h:114-117 | same as clz on the 32-bit `unsigned long` |
| WinBits.Clzll | lib/librte_eal/windows/rte_override/rte_wincompat.h:120-128 | 63 minus the highest set bit of 64; 64 exactly for 0 |
| WinBits.SetBitBounds32 | lib/librte_eal/windows/rte_override/rte_wincompat.h:73-111 | a set bit i bounds ctz by i and clz by 31 - i |
| WinBits.SetBitBounds64 | lib/librte_eal/windows/rte_override/rte_wincompat.h:90-128 | a set bit i bounds ctzll by i and clzll by 63 - i |
| WinBits.Bswap32 | lib/librte_eal/windows/rte_override/rte_wincompat.h:130-133 | byte k of the result is byte 3 - k of the argument |
| WinBits.Bswap32Involution | lib/librte_eal/windows/rte_override/rte_wincompat.h:130-133 | swapping twice gives the value back |
| WinBits.Bswap64 | lib/librte_eal/windows/rte_override/rte_wincompat.h:135-138 | byte k of the result is byte 7 - k of the argument |
| WinBits.Bswap64Involution | lib/librte_eal/windows/rte_override/rte_wincompat.h:135-138 | swapping twice gives the value back |
| WinBits.CpuZero | lib/librte_eal/windows/rte_override/rte_wincompat.h:237 | the cleared set contains no core |
| WinBits.CpuSet | lib/librte_eal/windows/rte_override/rte_wincompat.h:238 | afterwards a core is in the set exactly when it is the added core or was in it before |
| WinBits.CpuIsSet | lib/librte_eal/windows/rte_override/rte_wincompat.h:239 | 1 exactly when bit c is set, else 0 |
| WinStrings.StrtokR | lib/librte_eal/windows/rte_override/rte_wincompat.h:164-183 | no token exactly when only delimiters remain; otherwise the token follows only delimiters, is non-empty and delimiter-free, and the cursor lands just past the delimiter that ended it, or at the end |
| WinStrings.StrtokRNext | lib/librte_eal/windows/rte_override/rte_wincompat.h:164-183 | one call takes off the first non-empty field; the rest are the fields of the remainder |
| WinStrings.TokensAreFields | lib/librte_eal/windows/rte_override/rte_wincompat.h:164-183 | repeated calls produce exactly the non-empty delimiter-separated fields |
| WinStrings.WinStrSep | lib/librte_eal/windows/rte_override/rte_wincompat.h:214-231 | NULL pointer, NULL string or empty string give NULL and leave the cursor; otherwise the token is the separator-free prefix and the cursor is always one past its end |
| WinStrings.WinStrSepOverrun | lib/librte_eal/windows/rte_override/rte_wincompat.h:220-226 | with no separator the whole string is returned and the cursor is left beyond the terminator |
| WinStrings.WinStrSepOverrunExample | lib/librte_eal/windows/rte_override/rte_wincompat.h:220-226 | "a" with separator ',' leaves the cursor at offset 2, past the NUL |
| WinStrings.StrSep | lib/librte_eal/windows/rte_override/rte_wincompat.h:214-231 | as the NULL branch intends: the cursor becomes NULL exactly when the token is the whole rest, otherwise points just past a separator |
| WinStrings.SepTokensAreFields | lib/librte_eal/windows/rte_override/rte_wincompat.h:214-231 | repeated corrected calls yield every field, empty ones included, except an empty last one |
| AlignMacros.Min | lib/librte_eal/windows/rte_override/rte_common.h:34 | the result is one of the arguments and no larger than either |
| AlignMacros.AlignFloor | lib/librte_eal/windows/rte_override/rte_common.h:41 | an aligned 64-bit value at most v and less than one alignment below it |
| AlignMacros.AlignFloorGreatest | lib/librte_eal/windows/rte_override/rte_common.h:41 | every aligned value at most v is at most the floor, so the floor is the greatest |
| AlignMacros.AlignCeil | lib/librte_eal/windows/rte_override/rte_common.h:43-44 | aligned; without wrap-around at least v and less than one alignment above; when v + a - 1 wraps at 2^64 the result is 0 |
| AlignMacros.AlignCeilLeast | lib/librte_eal/windows/rte_override/rte_common.h:43-44 | without wrap-around every aligned value at least v is at least the ceiling |
| AlignMacros.PtrAdd | lib/librte_eal/windows/rte_override/rte_common.h:53 | the pointer sum is a 64-bit address, and the plain sum when it does not wrap |
| AlignMacros.PtrAlignFloor | lib/librte_eal/windows/rte_override/rte_common.h:49-50 | an aligned address at most the pointer and less than one alignment below it |
| AlignMacros.PtrAlignCeil | lib/librte_eal/windows/rte_override/rte_common.h:52-53 | aligned; without wrap-around at least the pointer and less than one alignment above it; 0 when `ptr + align - 1` wraps |
| AlignMacros.AlignIdempotent | lib/librte_eal/windows/rte_override/rte_common.h:41-44 | rounding an already rounded value changes nothing |
| AlignMacros.Align | lib/librte_eal/windows/rte_override/rte_common.h:47 | `RTE_ALIGN` is `RTE_ALIGN_CEIL` |
| AlignMacros.PtrAlignCeilIsAlignCeil | lib/librte_eal/windows/rte_override/rte_common.h:49-53 | the pointer forms are the integer forms on the address, the wrapping pointer add included |
| AlignMacros.Len2MaskLowBits | lib/librte_eal/windows/rte_override/rte_common.h:56 | for 1 <= ln <= 64 the mask has exactly the low ln bits set |
| AlignMacros.MaskLenToBitmask | lib/librte_eal/windows/rte_override/rte_acl.h:5-7 | length 0 gives 0 |
| AlignMacros.MaskLenTopBits | lib/librte_eal/windows/rte_override/rte_acl.h:5-7 | a nonzero length clears the low 8s - v bits and sets every bit above |
| AlignMacros.MaskLenComplement | lib/librte_eal/windows/rte_override/rte_acl.h:5-7 | below the full width the prefix mask is the complement of `RTE_LEN2MASK(8s - v)` |
| GetoptPermute.CRem | lib/librte_eal/windows/include_override/getopt.h:182 | C's truncating `%`: smaller in magnitude than the divisor, with the sign of the dividend, and differing from it by a multiple of the divisor |
| GetoptPermute.Gcd | lib/librte_eal/windows/include_override/getopt.h:177-190 | the result's magnitude divides both arguments and every common divisor divides it; positive for a >= 0, b > 0; only b must be nonzero |
| GetoptPermute.GcdBound | lib/librte_eal/windows/include_override/getopt.h:177-190 | for positive arguments the gcd lies between 1 and each argument |
| GetoptPermute.CyclesCover | lib/librte_eal/windows/include_override/getopt.h:206-209 | ncycle cycles of cyclelen steps cover both blocks exactly |
| GetoptPermute.WalkCycle | lib/librte_eal/windows/include_override/getopt.h:212-224 | the inner loop's swaps leave the array in the state of the cycle walked so far |
| GetoptPermute.PermuteCycle | lib/librte_eal/windows/include_override/getopt.h:211-225 | one cycle moves every entry of that cycle to receive its source's entry and leaves all others alone |
| GetoptPermute.RunCycle | lib/librte_eal/windows/include_override/getopt.h:211-225 | one turn of the outer loop extends the set of finished cycles by one |
| GetoptPermute.RunCycles | lib/librte_eal/windows/include_override/getopt.h:211-225 | after all gcd cycles every class of positions is finished |
| GetoptPermute.Rotated | lib/librte_eal/windows/include_override/getopt.h:192-196 | every position holding its source's entry is exactly the exchange of the two blocks, a permutation |
| GetoptPermute.PermuteArgs | lib/librte_eal/windows/include_override/getopt.h:197-226 | the result is the prefix, the option block, the non-option block, the suffix, in order: the two blocks exchanged with each keeping its order, and a permutation of the input |
| NetuioInterface.CtlCode | kernel/windows/netuio/netuio_interface.h:51-52 | the code is 32-bit and device type, function, method and access read back from their bit fields |
| NetuioInterface.RequestCodes | kernel/windows/netuio/netuio_interface.h:51-52 | the two request codes are 0x12C0CC and 0x12C0D0: distinct, functions 51 and 52 on the network device type |
| NetuioInterface.ZeroPrivateInfo | kernel/windows/netuio/netuio_interface.h:74-83 | the zeroed reply has 6 zero BAR regions, a zero pool region and NUMA node 0 |
| NetuioDev.ZeroContext | kernel/windows/netuio/netuio_dev.h:28-38 | a new context has 6 zero BAR records, 6 zero mapping slots and a zero pool slot |
| NetuioDev.BarAddress | kernel/windows/netuio/netuio_dev.c:166-173 | a 16-byte-aligned 64-bit address whose low dword is the slot without flag bits and whose high dword is the next slot for a 64-bit BAR, else 0 |
| NetuioDev.NextMemory | kernel/windows/netuio/netuio_dev.c:152-161 | the first memory-type descriptor at or after the cursor, skipping other types; none exactly when none remains |
| NetuioDev.KthMemoryInOrder | kernel/windows/netuio/netuio_dev.c:152-161 | present BARs take memory descriptors in list order, consecutive BARs consecutive memory descriptors |
| NetuioDev.Step | kernel/windows/netuio/netuio_dev.c:137-200 | one iteration touches only slot i and can only stop with DEVICE_CONFIGURATION_ERROR or INSUFFICIENT_RESOURCES |
| NetuioDev.StepSpec | kernel/windows/netuio/netuio_dev.c:137-200 | the iteration continues exactly when the slot is absent or resourced, and then records the expected BAR and mapping slot |
| NetuioDev.DecodeBars | kernel/windows/netuio/netuio_dev.c:137-200 | the loop ends with SUCCESS, DEVICE_CONFIGURATION_ERROR or INSUFFICIENT_RESOURCES and leaves the address, NUMA node and pool alone |
| NetuioDev.DecodeBarsStatus | kernel/windows/netuio/netuio_dev.c:137-202 | the loop succeeds exactly when every present slot finds a memory descriptor, a kernel mapping and an MDL |
| NetuioDev.DecodeBarsContents | kernel/windows/netuio/netuio_dev.c:137-200 | on success every slot holds its expected BAR record and mapping slot |
| NetuioDev.AbsentSlotIsZero | kernel/windows/netuio/netuio_dev.c:140-150 | a zero slot, or one after a raw value with the 64-bit flag, is recorded as the zero BAR, with no MDL and mapped size 0 |
| NetuioDev.PresentSlotRecordsDescriptor | kernel/windows/netuio/netuio_dev.c:152-199 | a resourced slot records its memory descriptor's start and length, its mapping and MDL, and a mapped size equal to the BAR size |
| NetuioDev.MapHwResources | kernel/windows/netuio/netuio_dev.c:98-210 | no context gives UNSUCCESSFUL; a short header read gives NOT_SUPPORTED; success exactly when the header is whole and every present slot is resourced; any failure leaves every BAR and mapping slot cleared |
| NetuioDev.FreeHwResources | kernel/windows/netuio/netuio_dev.c:212-235 | every BAR record and mapping slot is cleared; address, NUMA node and pool are kept |
| NetuioDev.FreeHwResourcesIdempotent | kernel/windows/netuio/netuio_dev.c:212-235 | freeing twice is freeing once |
| NetuioDev.DecodeAddressProperty | kernel/windows/netuio/netuio_dev.c:266-269 | device and function are 16-bit values |
| NetuioDev.AddressPropertyRoundTrip | kernel/windows/netuio/netuio_dev.c:266-269 | the property `(device << 16) \| function` decodes back to (device, function) |
| NetuioDev.GetPciDeviceInfo | kernel/windows/netuio/netuio_dev.c:238-279 | no context gives UNSUCCESSFUL; a failed device query returns its status and changes nothing; with a physical device object the NUMA query's status is returned; a successful bus-number query sets the bus (cut to 32 bits), a successful address query sets device and function, a successful NUMA query sets the node (cut to 16 bits), and a failed query leaves its field alone; without a physical device object nothing changes; the BAR and pool slots are kept |
| NetuioDev.SymbolicLinkName | kernel/windows/netuio/netuio_dev.c:293-297 | the name starts with the link prefix and fits the 64-byte buffer with its NUL for every valid address, negative-printed buses included |
| NetuioDev.SymbolicLinkNameInjective | kernel/windows/netuio/netuio_dev.c:293-297 | for bus < 10000 and device, function < 100 two addresses with the same link name are equal |
| NetuioDev.SuffixDeterminesAddress | kernel/windows/netuio/netuio_dev.c:295-297 | the suffix is 4 + 2 + 2 digits that read back as bus, device and function |
| NetuioDev.BdfSuffix | kernel/windows/netuio/netuio_dev.c:294-297 | the suffix starts with '_', and a '-' follows exactly when the `ULONG` bus is 2^31 or more, since `%d` prints it as a signed `int` |
| NetuioDev.BdfSuffixNegativeBus | kernel/windows/netuio/netuio_dev.c:294-297 | bus 0xFFFFFFFF with device 0 and function 0 gives `_-0010000` |
| NetuioDev.CreateSymbolicLink | kernel/windows/netuio/netuio_dev.c:281-311 | a link is created exactly when both the string conversion and the creation succeed, and it carries the formatted name |
| NetuioDev.AllocateUserMemorySegment | kernel/windows/netuio/netuio_dev.c:313-369 | no context gives INVALID_DEVICE_STATE; success exactly when block and MDL are obtained; a failure is NO_MEMORY with no block and no MDL left |
| NetuioDev.FreeUserMemorySegment | kernel/windows/netuio/netuio_dev.c:371-390 | MDL and block are released and their fields reset; nothing else changes |
| NetuioDev.AllocateThenFree | kernel/windows/netuio/netuio_dev.c:313-390 | allocating and then freeing leaves no block and no MDL |
| NetuioDev.CreateDevice | kernel/windows/netuio/netuio_dev.c:27-82 | the steps run in order: a context exists exactly when device creation succeeded, the third step runs only after the interface is made, and stopping before the sixth is a failure; success means all six ran, the pool is allocated and the link has the device's name |
| NetuioQueue.UnmapUser | kernel/windows/netuio/netuio_queue.c:137-155 | afterwards the pool and all six BAR slots have no user mapping and nothing but the user addresses changed |
| NetuioQueue.UnmapIdempotent | kernel/windows/netuio/netuio_queue.c:137-155 | unmapping twice is unmapping once |
| NetuioQueue.UnmapUnmappedIsIdentity | kernel/windows/netuio/netuio_queue.c:140-154 | a context without user mappings is unchanged |
| NetuioQueue.MapFailure | kernel/windows/netuio/netuio_queue.c:87-95 | a failed mapping call is never SUCCESS; a NULL mapping gives INSUFFICIENT_RESOURCES |
| NetuioQueue.MapBars | kernel/windows/netuio/netuio_queue.c:97-118 | the BAR loop succeeds exactly when every slot with an MDL maps, and then records each slot's new user address; slots without an MDL keep theirs |
| NetuioQueue.MapIntoUser | kernel/windows/netuio/netuio_queue.c:75-126 | success exactly when the pool and every BAR with an MDL map; a failure leaves no user mapping; a raised exception's code is returned |
| NetuioQueue.SlotsWithoutMdlNotMapped | kernel/windows/netuio/netuio_queue.c:98-101 | a slot without an MDL is never mapped: it keeps its old address on success and is NULL after a failure |
| NetuioQueue.HwDataReply | kernel/windows/netuio/netuio_queue.c:40-62 | the reply carries each BAR's bus address, size and user address and the pool's; every other field, the NUMA node included, is zero |
| NetuioQueue.ReplyOmitsNumaNode | kernel/windows/netuio/netuio_queue.c:51-61 | the reply's NUMA node is 0 whatever the context holds |
| NetuioQueue.InCallerContext | kernel/windows/netuio/netuio_queue.c:203-279 | only map requests are completed here and all others are enqueued unchanged; a short input gives INVALID_BUFFER_SIZE, a foreign address NOT_SAME_DEVICE, an already mapped pool ALREADY_COMMITTED, a short output INVALID_BUFFER_SIZE, each in that order and before any zeroing; a mapped pool is left untouched |
| NetuioQueue.MapRequestAllOrNothing | kernel/windows/netuio/netuio_queue.c:237-273 | the pool is zeroed exactly when the checks pass; success exactly when they pass and every mapping succeeds; a failure after the checks leaves no mapping; success returns the whole output buffer and the reply |
| NetuioQueue.LowBytes | kernel/windows/netuio/netuio_queue.c:355-360 | the bytes a `width`-byte access carries: a value below 2^(8 * width) that differs from the full value by a multiple of 2^(8 * width), and the value itself when it fits |
| NetuioQueue.ConfigIo | kernel/windows/netuio/netuio_queue.c:288-371 | another code gives INVALID_DEVICE_REQUEST; success exactly when code, input size, width, address, output size and operation are all valid; only a success touches configuration space, a read with the requested width and a write with the low bytes; a successful read's output is the low bytes of what GetBusData read into the zeroed buffer |
| NetuioQueue.ConfigReadReturnsData | kernel/windows/netuio/netuio_queue.c:344-351 | a valid read of data that fits the width succeeds and returns exactly that data |
| NetuioQueue.WidthCheckedBeforeAddress | kernel/windows/netuio/netuio_queue.c:321-335 | a bad width fails with INVALID_PARAMETER even for another device, with no bus access |
| NetuioQueue.AddressCheckedBeforeOperation | kernel/windows/netuio/netuio_queue.c:329-365 | with a valid width a foreign address fails with NOT_SAME_DEVICE whatever the operation |
| NetuioQueue.ConfigIoOutcomeIndependentOfMappings | kernel/windows/netuio/netuio_queue.c:288-371 | the configuration request's outcome does not depend on the user mappings |
| NetuioDrv.DriverEntry | kernel/windows/netuio/netuio_drv.c:53-76 | the entry returns the driver-creation status on both paths |
| NetuioDrv.Handle | kernel/windows/netuio/netuio_drv.c:88-175 | add returns the creation result; prepare returns the BAR decoding result; release always succeeds and clears all BARs; file cleanup unmaps every user mapping |
| NetuioDrv.CleanupAllowsRemap | kernel/windows/netuio/netuio_drv.c:162-175 | after a successful map a second request gets ALREADY_COMMITTED, and after closing the handle the same request succeeds again |
| NetuioDrv.ReleaseIdempotent | kernel/windows/netuio/netuio_drv.c:128-136 | releasing twice is releasing once |
| NetuioDrv.FailedPrepareLeavesNothing | kernel/windows/netuio/netuio_drv.c:103-136 | after a failed prepare a release has nothing left to free |
| MemConfig.FirstFree | drivers/bus/pci/windows/pci.c:271-273 | the first list without a base address, every earlier one claimed; none exactly when all are claimed |
| PciWindows.FillSegments | drivers/bus/pci/windows/pci.c:282-300 | segment i gets physical and virtual address base + page size * i, page-sized length, the socket, and is in use; other slots are untouched |
| PciWindows.StoreMemsegInfo | drivers/bus/pci/windows/pci.c:229-306 | no configuration gives BAD_CONFIGURATION; no free list or a failed array gives OUTOFMEMORY; success claims the first free list with 4 KiB pages, the NUMA node, the pool's user address and pool size / 4096 consecutive segments |
| PciWindows.MemsegListName | drivers/bus/pci/windows/pci.c:225 | the list name is `memseg-4k-` followed by the socket, '-' and the list index |
| PciWindows.MemsegListNameInjective | drivers/bus/pci/windows/pci.c:225 | lists with different sockets or different indexes get different names |
| PciWindows.StoreClaimsList | drivers/bus/pci/windows/pci.c:271-302 | a stored pool with a user address claims its list, so the next store goes further; one without leaves the list free |
| PciWindows.FirstFreeSkips | drivers/bus/pci/windows/pci.c:271-273 | the search passes over claimed lists |
| PciWindows.AddrKeyInjective | drivers/bus/pci/windows/pci.c:649 | the comparison key separates distinct valid addresses |
| PciWindows.Merge | drivers/bus/pci/windows/pci.c:655-661 | a device found again keeps its address, IDs and node and takes the new driver, VF count and resources |
| PciWindows.InsertSortedIsInsertAt | drivers/bus/pci/windows/pci.c:640-665 | the list walk agrees with the positional insertion before the first greater address |
| PciWindows.InsertSortedKeepsSorted | drivers/bus/pci/windows/pci.c:640-665 | the list stays sorted and duplicate-free; its addresses gain the new one; it grows exactly when the address is new |
| PciWindows.InsertSortedHolds | drivers/bus/pci/windows/pci.c:640-665 | afterwards some entry has the device's address, driver and resources |
| PciWindows.InsertSorted | drivers/bus/pci/windows/pci.c:640-665 | the list grows by at most one entry (one when the address is new, none on a merge) |
| PciWindows.Resources | drivers/bus/pci/windows/pci.c:386-392 | the six resources are the reply's BAR physical addresses, sizes and user addresses |
| PciWindows.ScanOneCodes | drivers/bus/pci/windows/pci.c:564-673 | a candidate ends with 0, ERROR_CONTINUE, -1, -2, -3 or -4, and only 0 changes the list |
| PciWindows.ScanOneSkipsOnly | drivers/bus/pci/windows/pci.c:586-638 | ERROR_CONTINUE exactly for an INVALID_DATA location error, a non-PCI location, or a failed driver reply or store; -2 exactly for other location errors; -3 exactly for a malformed location |
| PciWindows.ScanOneAdds | drivers/bus/pci/windows/pci.c:605-665 | success adds the parsed address with the netuio driver and the reported resources; the list stays sorted |
| PciWindows.ScanOne | drivers/bus/pci/windows/pci.c:564-673 | no record gives -1; every code but 0 leaves the device list alone; 0 needs a parsed location and a driver reply and adds at most one entry; undefined behaviour needs a PCI location that is not malformed |
| PciWindows.ScanLoopVerdict | drivers/bus/pci/windows/pci.c:694-707 | the loop returns 0 exactly when no candidate aborted and something was found; an abort returns the last code seen |
| PciWindows.ScanLoopKeepsSorted | drivers/bus/pci/windows/pci.c:694-704 | the device list stays sorted and duplicate-free through the scan |
| PciWindows.ScanLoop | drivers/bus/pci/windows/pci.c:694-707 | the loop records at most one code per candidate, and one for every candidate when none aborts |
| PciWindows.RtePciScanVerdict | drivers/bus/pci/windows/pci.c:676-713 | the scan returns 0 exactly when enumeration worked, no candidate aborted and one was added or merged |
| PciWindows.RtePciScan | drivers/bus/pci/windows/pci.c:676-713 | a device set that cannot be enumerated gives -1 with nothing visited; otherwise every candidate is visited unless one aborts |
| PciWindows.UserDeviceName | drivers/bus/pci/windows/pci.c:180-182 | the device file name, when printed, fits the 20-character buffer with its NUL |
| PciWindows.UserNameMatchesKernelLink | drivers/bus/pci/windows/pci.c:180-182 | for any PCI address the name user space opens is the driver's link name after the namespace prefix |
| PciWindows.LeBytesOfLittleEndian | drivers/bus/pci/windows/pci.c:211-214 | turning bytes into a little-endian number and back gives the bytes |
| PciWindows.AsWrittenRequest | drivers/bus/pci/windows/pci.c:193-204 | the request always has width 4, and a write carries the buffer's first 4 bytes |
| PciWindows.PciConfigIoAsWritten | drivers/bus/pci/windows/pci.c:171-223 | a write from a buffer shorter than 4 bytes has no defined outcome; a read into one has none exactly when the driver answers (the copy comes after the request); otherwise the result is 0 or -1, and -1 leaves the buffer alone; a successful read puts the low 4 bytes of the driver's reply in front of `buf[4..]`, and a write never changes the buffer |
| PciWindows.OneByteReadRefused | drivers/bus/pci/windows/pci.c:206-214 | a refused one-byte read returns -1 with the buffer untouched, since the copy is never reached |
| PciWindows.Request | drivers/bus/pci/windows/pci.c:193-204 | corrected: the width is the caller's length and a write carries exactly the caller's bytes |
| PciWindows.PciConfigIo | drivers/bus/pci/windows/pci.c:171-223 | corrected: success needs an opened device, a valid width and a driver reply; a read returns exactly the reply's low len bytes; a failure leaves the buffer |
| PciWindows.OneByteRead | drivers/bus/pci/windows/pci.c:198-214 | a one-byte capability read that the driver answers is out of bounds as written, and returns the driver's byte when corrected |
| PciWindows.WriteThenReadRoundTrip | drivers/bus/pci/windows/pci.c:193-214 | a read of the same width that gets back the value a write carried returns the caller's bytes |
| PciParse.NumericalValue | drivers/bus/pci/windows/pci.c:419-443 | the value fits 32 bits; a string shorter than 256 always gives a value; base 10 skips what the code page's `IsCharAlpha` (a parameter) calls a letter |
| PciParse.HexIgnoresLetters | drivers/bus/pci/windows/pci.c:432-437 | in base 16 the value is the same whatever the code page's letter test |
| PciParse.CodePageDecides | drivers/bus/pci/windows/pci.c:426-430 | in base 10 it is not: "Gerät 35" reads 35 in a code page where 'ä' is a letter and 0 with the ASCII letters alone |
| PciParse.NumericalValueOutcomes | drivers/bus/pci/windows/pci.c:419-443 | the reader spins exactly on long strings with no start character in the first 256 and gives 0 on a string without one |
| PciParse.ParseLocation | drivers/bus/pci/windows/pci.c:448-480 | malformed exactly when splitting at ',' gives 8 or more tokens; fewer than 3 tokens never parse (a NULL token is read); success gives domain 0 and bus, device, function from tokens 0-2 cut to 8 bits |
| PciParse.ParseLocationOf | drivers/bus/pci/windows/pci.c:462-471 | three tokens with readable numbers parse to those numbers cut to 8 bits |
| PciParse.ParseLocationText | drivers/bus/pci/windows/pci.c:448-480 | a text of three comma-separated parts, each letters and spaces of the code page followed by a number, parses back to those numbers cut to 8 bits, in every code page |
| PciParse.ParseLocationExample | drivers/bus/pci/windows/pci.c:462-471 | "PCI bus 5, device 35, function 0" parses to (0, 5, 35, 0) in every code page |
| PciParse.ParseHardwareIds | drivers/bus/pci/windows/pci.c:482-514 | malformed exactly at 8 or more '_' tokens; success gives a second value exactly when the ID is 8 characters; values are 16-bit |
| PciParse.ParseHardwareIdsOf | drivers/bus/pci/windows/pci.c:488-509 | `NAME_hhhh` gives the hex value; `NAME_hhhhhhhh` gives both 4-digit halves |
| PciParse.ParseHardwareIdAsWritten | drivers/bus/pci/windows/pci.c:519-562 | 8 or more '\\' tokens reach the free of an unassigned pointer |
| PciParse.ParseHardwareId | drivers/bus/pci/windows/pci.c:519-562 | corrected: 8 or more '\\' tokens are malformed; otherwise the same as written; the IDs are 16-bit |
| PciParse.EightBackslashTokens | drivers/bus/pci/windows/pci.c:534-561 | any ID with 8 or more '\\' fields faults as written and is rejected when corrected |
| PciParse.EightBackslashExample | drivers/bus/pci/windows/pci.c:534-561 | the ID `a\b\c\d\e\f\g\h` is one such input |
| PciParse.HardwareIdFields | drivers/bus/pci/windows/pci.c:532-541 | the '&' fields after the enumerator are the tokens the IDs are read from |
| PciParse.ParseHardwareIdOf | drivers/bus/pci/windows/pci.c:545-552 | 4-digit vendor, 4-digit device and 8-digit subsystem give vendor, device, subsystem device (first half) and subsystem vendor (second half) |
| PciParse.ParseHardwareIdExample | drivers/bus/pci/windows/pci.c:533 | `PCI\VEN_8086&DEV_153A&SUBSYS_00008086&REV_04` gives vendor 0x8086, device 0x153A, subsystem vendor 0x8086, subsystem device 0 |
| EalMemory.Virt2Iova | lib/librte_eal/windows/eal/eal_memory.c:27-44 | no configuration or no segment 0 gives RTE_BAD_PHYS_ADDR; otherwise result + base equals segment 0's physical address + v modulo 2^64 |
| EalMemory.StoredPoolTranslates | lib/librte_eal/windows/eal/eal_memory.c:33-40 | after the scan stores the pool in list 0, an address d bytes into the pool translates to d bytes past its physical address, and every segment translates to its own physical address |
| EalMemory.ReserveSize | lib/librte_eal/windows/eal/eal_memory.c:78-79 | the request is a 64-bit size, equal to page size times list length whenever that product fits 64 bits |
| EalMemory.Attached | lib/librte_eal/windows/eal/eal_memory.c:66-93 | attaching keeps the segments, page size, socket and name and changes only the base |
| EalMemory.FirstFailure | lib/librte_eal/windows/eal/eal_memory.c:113-131 | the first list that fails to attach or reserve, every earlier one attached; none exactly when all attach |
| EalMemory.SecondaryInit | lib/librte_eal/windows/eal/eal_memory.c:106-134 | 0 exactly when every non-empty list attaches and reserves; the lists reached before the stop take their reserved base, the others are unchanged |
| EalMemory.MemsegInit | lib/librte_eal/windows/eal/eal_memory.c:137-141 | a primary returns 0 and changes nothing; any other role returns 0 exactly when every list attaches |
| Eal.ProcTypeDetect | lib/librte_eal/windows/eal/eal.c:187-213 | secondary exactly when the file opens and the lock fails, primary otherwise; the handle stays open exactly when the open succeeded |
| Eal.ConfigCreate | lib/librte_eal/windows/eal/eal.c:118-159 | no_shconf changes nothing; otherwise it runs on exactly when the file is open or opens, the lock is obtained and the mapping works; a failed lock stops |
| Eal.ConfigAttach | lib/librte_eal/windows/eal/eal.c:162-184 | no_shconf changes nothing; otherwise it runs on exactly when the file opens and maps, then uses the file's configuration with the descriptor closed |
| Eal.WaitComplete | lib/librte_eal/windows/eal/eal.c:227 | the process proceeds exactly when the marker is set |
| Eal.ConfigInit | lib/librte_eal/windows/eal/eal.c:216-233 | a primary creates; a secondary attaches and runs on only with the marker set; auto or invalid panics |
| Eal.McfgComplete | lib/librte_eal/windows/eal/eal.c:405-411 | the marker is set exactly when the process is primary or it already was; a non-primary changes nothing |
| Eal.PrimaryMarkerReleasesSecondary | lib/librte_eal/windows/eal/eal.c:216-233 | a secondary attaching before the primary's marker waits, and after it runs with exactly the primary's configuration |
| Eal.SetApplicationUsageHook | lib/librte_eal/windows/eal/eal.c:249-259 | the new hook is installed and the previous one returned |
| Eal.UsageHookHistory | lib/librte_eal/windows/eal/eal.c:249-259 | successive installs return NULL first and then each previously installed hook |
| Eal.HugepageMemSize | lib/librte_eal/windows/eal/eal.c:261-268 | the large-page minimum, which never exceeds SIZE_MAX |
| Eal.DefaultMemory | lib/librte_eal/windows/eal/eal.c:542-547 | a requested amount or per-socket request is kept; otherwise 64 MiB without hugepages, the large-page minimum with them |
| Eal.ScanPrecedesMemoryInit | lib/librte_eal/windows/eal/eal.c:562-575 | memory set-up is always preceded by the PCI scan, and a negative scan result stops start-up before it |
| Eal.InitCompletesOnlyAsPrimary | lib/librte_eal/windows/eal/eal.c:481-657 | a start-up that returns has the configured role, sets the marker exactly as a primary (or when it was already set), applies the memory default and returns the argument-parsing result |
| Eal.EalInit | lib/librte_eal/windows/eal/eal.c:482-656 | a second call returns -1 and changes no modelled state; a failed CPU init panics at once; a start-up that returns had a non-negative parse, a non-negative scan, memory set-up and a bus probe that succeeded, and returns the parser's value |
| EalFilesystem.RuntimeConfigPath | lib/librte_eal/windows/eal/eal_filesystem.h:29-42 | `<temp>\<prefix>.config`, cut to at most PATH_MAX - 2 characters |
| EalFilesystem.ConfigPathsSeparatePrefixes | lib/librte_eal/windows/eal/eal_filesystem.h:29-42 | two prefixes name two configuration files when the paths fit |
| EalFilesystem.FbarrayPath | lib/librte_eal/windows/eal/eal_filesystem.h:44-51 | `<runtime dir>\fbarray_<name>`, cut to the buffer |
| EalFilesystem.FbarrayPathsSeparateNames | lib/librte_eal/windows/eal/eal_filesystem.h:44-51 | a fitting path lies in the runtime directory, and two names give two paths |
| EalFilesystem.MpSocketPath | lib/librte_eal/windows/eal/eal_filesystem.h:53-64 | `<runtime dir>/mp_socket`, cut to PATH_MAX - 2 |
| EalFilesystem.MpSocketInRuntimeDir | lib/librte_eal/windows/eal/eal_filesystem.h:53-64 | a fitting path is the runtime directory, a forward slash and `mp_socket` |
| EalFilesystem.HugepageInfoPath | lib/librte_eal/windows/eal/eal_filesystem.h:66-78 | `<system dir>\.<prefix>_hugepage_info`, cut to PATH_MAX - 2 |
| EalFilesystem.HugepageInfoPathsSeparatePrefixes | lib/librte_eal/windows/eal/eal_filesystem.h:66-78 | two prefixes name two information files when the paths fit |
| EalFilesystem.HugefilePath | lib/librte_eal/windows/eal/eal_filesystem.h:80-90 | `<dir>/<prefix>map_<id>`, shorter than the buffer because its last byte is forced to NUL |
| EalFilesystem.HugefilePathsSeparateIds | lib/librte_eal/windows/eal/eal_filesystem.h:80-90 | two page ids name two map files when the paths fit |
| EalFilesystem.CreateRuntimeDirAsWritten | lib/librte_eal/windows/eal/eal.c:672-716 | returns 0 or -1 and a directory name that fits PATH_MAX |
| EalFilesystem.RuntimeDirTruncationMissed | lib/librte_eal/windows/eal/eal.c:684-688 | a temporary directory of 256 to 259 characters overflows the first print without tripping the equality test, and the wrong directory is reported as made |
| EalFilesystem.CreateRuntimeDir | lib/librte_eal/windows/eal/eal.c:672-716 | corrected: succeeds exactly when `<temp>\dpdk\<prefix>` fits and both directories exist or are made, and then names that directory |
| EalFilesystem.RuntimeDirAgreesWhenFits | lib/librte_eal/windows/eal/eal.c:684-696 | when nothing is truncated the code as written and the corrected one agree |
| EalLcore.Siblings | lib/librte_eal/windows/eal/eal_lcore.c:40-41 | one or two lcores per core |
| EalLcore.CreateCpuMap | lib/librte_eal/windows/eal/eal_lcore.c:20-62 | counts are byte sizes over 48; the map fails exactly when the filled entries exceed the table; otherwise it is the reference table |
| EalLcore.FillSocket | lib/librte_eal/windows/eal/eal_lcore.c:46-58 | after socket s every lcore up to the next socket's start holds its (socket, core) entry and the rest are untouched; it fails exactly when the socket overruns the table |
| EalLcore.SlotEntry | lib/librte_eal/windows/eal/eal_lcore.c:47-56 | the lcore the loop uses for sibling h of core c on socket s gets (s, c) in 8 bits |
| EalLcore.LookupsFollowLayout | lib/librte_eal/windows/eal/eal_lcore.c:64-83 | each sibling of core c on socket s reports that socket and core; detected exactly when below the processor count; hyperthreaded siblings are consecutive |
| EalLcore.SiblingsShareCore | lib/librte_eal/windows/eal/eal_lcore.c:51-56 | with hyperthreading lcores 2p and 2p + 1 are the same core |
| RteFlow.ErrorSet | lib/librte_ethdev/rte_flow.c:272-288 | returns -code and sets errno to code; the error record is written, with type, cause and message, exactly when present |
| RteFlow.ErrorSetIdempotent | lib/librte_ethdev/rte_flow.c:272-288 | setting the same error twice is setting it once |
| RteFlow.FlowErr | lib/librte_ethdev/rte_flow.c:114-124 | 0 passes; a nonzero result on a removed port becomes -EIO; otherwise passes |
| RteFlow.FlowErrKeepsOutcome | lib/librte_ethdev/rte_flow.c:114-124 | success is kept exactly, and any rewritten failure is -EIO |
| RteFlow.OpsGet | lib/librte_ethdev/rte_flow.c:127-148 | operations are found exactly for a valid port whose filter_ctrl exists, succeeds and hands back operations; invalid ports give ENODEV, the rest ENOSYS |
| RteFlow.CallOp | lib/librte_ethdev/rte_flow.c:150-269 | a failed lookup returns -rte_errno; a missing callback gives ENOSYS; a present one's result goes through flow_err |
| RteFlow.CallOpOutcome | lib/librte_ethdev/rte_flow.c:150-269 | a wrapper succeeds exactly when it reached a callback that returned 0; otherwise it passes the driver's value or reports ENODEV, ENOSYS or EIO as -errno |
| RteFlow.Create | lib/librte_ethdev/rte_flow.c:171-194 | a flow comes back exactly when the driver returns a non-NULL one, and a NULL reply goes down the failure path; a missing callback gives ENOSYS; a driver failure keeps its errno unless the port was removed (EIO) |
| RteFlow.KnownAsDeclared | lib/librte_ethdev/rte_flow.c:34-112 | with the declared tables a type is known exactly when it is one of the 32 items or 25 actions listed |
| RteFlow.ItemSpecSize | lib/librte_ethdev/rte_flow.c:290-316 | no spec takes 0; RAW takes its fixed part plus its pattern; others take the table size; size + pad is a multiple of 8 with pad < 8 |
| RteFlow.ActionConfSize | lib/librte_ethdev/rte_flow.c:318-344 | no conf takes 0; RSS takes its fixed part plus its queues; others take the table size; size + pad is a multiple of 8 with pad < 8 |
| RteFlow.FootprintIsAlignCeil | lib/librte_ethdev/rte_flow.c:315 | size plus padding is `RTE_ALIGN_CEIL(size, 8)` |
| RteFlow.RoundUp8IsAlignCeil | lib/librte_ethdev/rte_flow.c:399-401 | the rounding between entries is `RTE_ALIGN_CEIL(_, 8)` |
| RteFlow.ProcessedItemsPrefix | lib/librte_ethdev/rte_flow.c:367-400 | the items processed are the prefix of the list up to and including its first END |
| RteFlow.ProcessedActionsPrefix | lib/librte_ethdev/rte_flow.c:409-430 | the actions processed are the prefix of the list up to and including its first END |
| RteFlow.Measure | lib/librte_ethdev/rte_flow.c:432-437 | the first pass gives the required size of the description |
| RteFlow.Store | lib/librte_ethdev/rte_flow.c:440-449 | the second pass stores the size and attribute and copies exactly the processed items and actions |
| RteFlow.Copy | lib/librte_ethdev/rte_flow.c:347-452 | an unknown or unnamed type gives 0 with ENOTSUP; a size over len is returned with nothing written; without a description 0; otherwise the required size with everything stored |
| RteFlow.StoreInBounds | lib/librte_ethdev/rte_flow.c:360-431 | with an 8-byte-aligned header, the second pass writes headers and payloads one after another, without overlap, inside the measured size |
| RteFlow.MeasuredSize | lib/librte_ethdev/rte_flow.c:432-437 | with an aligned header the size is the header, the entry headers and the payloads |
| RteFlow.CopyStaysInBounds | lib/librte_ethdev/rte_flow.c:360-451 | what is stored fits in the len bytes given, with nothing overlapping |
| RteFlow.CopyProbeThenStore | lib/librte_ethdev/rte_flow.c:432-451 | a probe with no room returns the size needed, and a call given exactly that size stores the description |
| CStrings.Strtoul | drivers/bus/pci/windows/pci.c:428-434 | the 32-bit `strtoul` the readers call never exceeds ULONG_MAX |
| CStrings.StrtoulReadsFormatted | drivers/bus/pci/windows/pci.c:428 | `strtoul` base 10 reads back what `%0Nd` printed for a 32-bit value |
| CStrings.StrSplit | drivers/bus/pci/windows/pci.c:463 | `rte_strsplit` returns at most max tokens, and none exactly for an empty string or a cap of 0 |
| CStrings.StrSplitSegments | drivers/bus/pci/windows/pci.c:463 | below the cap the tokens are the plain split; at the cap all tokens but the last are the plain ones, and the last is empty exactly when the plain one is |
| CStrings.StrSplitKeepsRest | drivers/bus/pci/windows/pci.c:463 | a capped last token that is not empty keeps the rest of the string, so joining the tokens gives the whole string |
| CStrings.StrSplitCapExample | drivers/bus/pci/windows/pci.c:463 | "a,b,c" split at ',' into at most 2 tokens gives "a" and "b,c" |
| CStrings.SegmentsJoin | drivers/bus/pci/windows/pci.c:463 | joining the tokens gives the string back, less a trailing delimiter |
| CStrings.SegmentsOfJoin | drivers/bus/pci/windows/pci.c:463 | splitting a join of delimiter-free tokens, the last non-empty, gives the tokens back |
| CStrings.FormatIntInjective | lib/librte_eal/windows/eal/eal_filesystem.h:87 | `%d` prints different values differently |
| CStrings.DecimalDigitsValue | lib/librte_eal/windows/eal/eal_filesystem.h:87 | the printed digits of n read back as n |
| CStrings.Truncate | lib/librte_eal/windows/eal/eal_filesystem.h:39 | `snprintf` into n bytes keeps a prefix shorter than n, and the whole text when it fits |

## Left out

- Windows SetupAPI, the registry, `CreateFile`, `DeviceIoControl` and handle management are inputs. So are the WDF framework calls, the kernel memory and bus-interface routines, file locking and `mmap`. Each becomes a status, a reply record or an oracle function.
- The stub functions in pci.c (mapping hooks, IOMMU class) and the hugepage init/attach and primary memseg stubs in eal_memory.c return constants and are not modelled separately.
- `rte_eal_init` is reduced to role, memory default, scan-before-memory and marker order. Thread and pipe launch, log set-up, bus probe and argument parsing are inputs.
- Eal.EalInit: the bus, mempool, tailq and PMD registration and `rte_timer_init` (eal.c:494-508) run on every call, before the run-once test, and are not modelled. A second call therefore re-runs them in the source, while the model only returns -1 with its own state unchanged.
- The busy-wait on the completion marker is the `Waiting` outcome. The cross-process race is not modelled.
- `usleep`, `WinSafeStrError` and the mutex helpers of rte_wincompat.h are not modelled; they are floating point, `strerror_s` and concurrency.
- `rte_flow_expand_rss` is not modelled: it is raw buffer layout over structures whose sizes are not in these files. The per-type sizes of the rte_flow tables are parameters (`Tables`), and the structure offsets are too (`Abi`).
- The op wrappers model only the driver callback's return value and errno. Whatever the callback writes into the error record is not modelled.
- `rte_eal_compare_pci_addr` is not part of this model. Ordering uses a lexicographic key over domain, bus, device and function, as in DPDK.
- Fixed-size arrays (`RTE_MAX_MEMSEG_LISTS`, `RTE_MAX_LCORE`, `PATH_MAX` buffers) are sequences of whatever length the caller provides.
- A negative `snprintf` return (an encoding error) is not modelled.
- WinBits.CpuSet: requires core < 31. `1 << 31` on a C `int` overflows, so `CPU_SET`/`CPU_ISSET` with core 31 is not modelled.
- AlignMacros.AlignFloor: stated as `v - v % a` for power-of-two alignments, which is what `& ~(a - 1)` computes for them. Other alignments are excluded by the precondition.
- AlignMacros.MaskLenToBitmask: requires a shift `8s - v` from 0 to 63, which is where the C shift is defined, and also a field size `s` below 2^61, so that `8s` does not wrap. With an unsigned 64-bit `s` of 2^61 or more, C would wrap the product and could still shift by a defined amount. No ACL field comes near that size.
- GetoptPermute.Gcd: works on unbounded integers, so `INT_MIN % -1` overflow is not modelled.
- WinStrings.StrtokR: the cursor is an offset into the string, not a pointer, so the NUL written into the caller's buffer appears only as the token boundary.
- RteFlow.KnownAsDeclared: the numeric values of `enum rte_flow_item_type` and `enum rte_flow_action_type` come from rte_flow.h, which is not part of this model. They are taken to follow the order of the tables at rte_flow.c:34-69 and 79-111, so that the tables have 32 and 25 entries, all named. If the header's enum has values that the table skips, those types are unnamed entries that the copy rejects with ENOTSUP, and the counts differ.
- RteFlow.ItemSpecSize: sizes are unbounded naturals. The `size_t` wrap-around of a huge RAW length or RSS queue count is not modelled.
- RteFlow.CopyStaysInBounds: assumes the header of `struct rte_flow_desc` ends on an 8-byte boundary, as in its 64-bit layout. For other layouts only the size equations are proved.
- PciWindows.ScanOne: reads the hardware ID with the corrected `PciParse.ParseHardwareId`. With the parser as written, an ID with eight or more '\'-separated parts is undefined behaviour (the free of an unassigned pointer) instead of -4. For every other ID the two parsers agree (the second ensures of `PciParse.ParseHardwareId`).
- NetuioQueue.InCallerContext: the queue's own creation (`netuio_queue_initialize`) and `netuio_evt_IO_stop` are not modelled. The enqueue status is an input.

## Findings

| source | as written | input that shows it | evidently intended | confidence | as-written member | corrected member |
|---|---|---|---|---|---|---|
| lib/librte_eal/windows/rte_override/rte_wincompat.h:220-226 | `pStrStart + strcspn(...)` is never NULL, so the cursor is always set one past the cut, even past the terminator when no separator occurs | "a" with separator ',': cursor at offset 2, past the NUL | like BSD `strsep`, set the cursor to NULL when no separator follows | high, not executed | WinStrings.WinStrSepOverrun | WinStrings.SepTokensAreFields |
| drivers/bus/pci/windows/pci.c:534-561 | the 8-token exit of the '\\' split jumps to `end`, which frees `buf_copy_stripped` before it is assigned | hardware ID `a\b\c\d\e\f\g\h` | reject the ID with -1 like the other length errors | high, not executed | PciParse.EightBackslashTokens | PciParse.ParseHardwareId |
| drivers/bus/pci/windows/pci.c:193-214 | the request always has width 4 and copies 4 bytes in and out, whatever `len` is | a 1-byte read at offset 0x34 into a 1-byte buffer, answered by the driver | width `len`, copying exactly `len` bytes | medium, not executed | PciWindows.OneByteRead | PciWindows.WriteThenReadRoundTrip |
| lib/librte_eal/windows/eal/eal.c:684-688 | truncation is detected only when `snprintf` returns exactly the buffer size | a temporary directory of 256 characters | reject any return of at least the buffer size | high, not executed | EalFilesystem.RuntimeDirTruncationMissed | EalFilesystem.RuntimeDirAgreesWhenFits |
