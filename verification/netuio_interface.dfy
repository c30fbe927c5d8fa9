/**
 * The protocol shared by the netuio driver and the userspace PCI bus:
 * the two request codes, the region descriptor, the device address, the
 * map-hardware reply and the configuration-space request, with the x64
 * layout (`#pragma pack(8)`) that fixes the buffer sizes both sides check.
 */
module NetuioInterface {
  import opened CTypes
  import opened Arith

  /** Number of base address registers of a type-0 PCI header. */
  const PCI_MAX_BAR: nat := 6

  /** `NETUIO_DRIVER_NAME`, the name both the driver's link and the user-mode path are built on. */
  const NETUIO_DRIVER_NAME: string := "netuio"
  /** The kernel's DOS device namespace `\DosDevices\`. */
  const DOS_DEVICES: string := "\\DosDevices\\"
  /** `NETUIO_DEVICE_SYMBOLIC_LINK`: `\DosDevices\netuio`. */
  const NETUIO_DEVICE_SYMBOLIC_LINK: string := DOS_DEVICES + NETUIO_DRIVER_NAME

  // -------------------------------------------------------------------
  // Request codes: CTL_CODE from the Windows Driver Kit's devioctl.h
  // -------------------------------------------------------------------

  const FILE_DEVICE_NETWORK: nat := 0x12
  const METHOD_BUFFERED: nat := 0
  const FILE_READ_ACCESS: nat := 1
  const FILE_WRITE_ACCESS: nat := 2

  /**
   * `CTL_CODE(type, function, method, access)`: type in bits 16-31, access
   * in bits 14-15, function in bits 2-13, method in bits 0-1. The fields do
   * not overlap, so the bitwise or is a sum.
   */
  function CtlCode(deviceType: nat, func: nat, transfer: nat, access: nat): (code: nat)
    requires deviceType < 0x1_0000 && func < 0x1000 && transfer < 4 && access < 4
    ensures code < U32_LIMIT
    ensures CodeDeviceType(code) == deviceType && CodeFunction(code) == func
    ensures CodeMethod(code) == transfer && CodeAccess(code) == access
  {
    CtlCodeFields(deviceType, func, transfer, access);
    deviceType * 0x1_0000 + access * 0x4000 + func * 4 + transfer
  }

  lemma CtlCodeFields(deviceType: nat, func: nat, transfer: nat, access: nat)
    requires deviceType < 0x1_0000 && func < 0x1000 && transfer < 4 && access < 4
    ensures var code := deviceType * 0x1_0000 + access * 0x4000 + func * 4 + transfer;
            code < U32_LIMIT && code / 0x1_0000 == deviceType && (code / 0x4000) % 4 == access &&
            (code / 4) % 0x1000 == func && code % 4 == transfer
  {
    var code := deviceType * 0x1_0000 + access * 0x4000 + func * 4 + transfer;
    DivModUnique(code, 0x1_0000, deviceType, access * 0x4000 + func * 4 + transfer);
    DivModUnique(code, 0x4000, deviceType * 4 + access, func * 4 + transfer);
    DivModUnique(deviceType * 4 + access, 4, deviceType, access);
    DivModUnique(code, 4, deviceType * 0x4000 + access * 0x1000 + func, transfer);
    DivModUnique(deviceType * 0x4000 + access * 0x1000 + func, 0x1000, deviceType * 4 + access, func);
  }

  function CodeDeviceType(code: nat): nat { code / 0x1_0000 }
  function CodeAccess(code: nat): nat { (code / 0x4000) % 4 }
  function CodeFunction(code: nat): nat { (code / 4) % 0x1000 }
  function CodeMethod(code: nat): nat { code % 4 }

  const IOCTL_NETUIO_MAP_HW_INTO_USERMODE: nat :=
    CtlCode(FILE_DEVICE_NETWORK, 51, METHOD_BUFFERED, FILE_READ_ACCESS + FILE_WRITE_ACCESS)
  const IOCTL_NETUIO_PCI_CONFIG_IO: nat :=
    CtlCode(FILE_DEVICE_NETWORK, 52, METHOD_BUFFERED, FILE_READ_ACCESS + FILE_WRITE_ACCESS)

  /** The two codes: network device type, functions 51 and 52, buffered, read and write access. */
  lemma RequestCodes()
    ensures IOCTL_NETUIO_MAP_HW_INTO_USERMODE == 0x12_C0CC
    ensures IOCTL_NETUIO_PCI_CONFIG_IO == 0x12_C0D0
    ensures IOCTL_NETUIO_MAP_HW_INTO_USERMODE != IOCTL_NETUIO_PCI_CONFIG_IO
    ensures CodeFunction(IOCTL_NETUIO_MAP_HW_INTO_USERMODE) == 51
    ensures CodeFunction(IOCTL_NETUIO_PCI_CONFIG_IO) == 52
  {
  }

  // -------------------------------------------------------------------
  // Protocol records
  // -------------------------------------------------------------------

  /** `struct mem_region`: size, physical address, kernel address, user-mapped address. */
  datatype MemRegion = MemRegion(size: nat, physAddr: nat, virtAddr: Ptr, userMappedVirtAddr: Ptr)

  const ZERO_REGION: MemRegion := MemRegion(0, 0, NULL, NULL)

  /** `struct dev_addr`: a 32-bit bus number and 16-bit device and function numbers. */
  datatype DevAddr = DevAddr(busNum: nat, devNum: nat, funcNum: nat)

  predicate ValidDevAddr(a: DevAddr)
  {
    IsU32(a.busNum) && IsU16(a.devNum) && IsU16(a.funcNum)
  }

  /** `enum pci_io`. The driver receives the raw number, so values other than these two can arrive. */
  const PCI_IO_READ: nat := 0
  const PCI_IO_WRITE: nat := 1

  /** `struct dpdk_private_info`: the map-hardware request and reply. */
  datatype PrivateInfo = PrivateInfo(
    hw: seq<MemRegion>,
    ms: MemRegion,
    devAddr: DevAddr,
    devId: nat,
    subDevId: nat,
    devNumaNode: nat,
    reserved: nat)

  /** Six BAR regions and one pool region. */
  predicate ValidPrivateInfo(p: PrivateInfo)
  {
    |p.hw| == PCI_MAX_BAR
  }

  /** The all-zero record (what `= { 0 }` and `RtlZeroMemory` produce). */
  function ZeroPrivateInfo(): (p: PrivateInfo)
    ensures ValidPrivateInfo(p)
    ensures forall i :: 0 <= i < PCI_MAX_BAR ==> p.hw[i] == ZERO_REGION
    ensures p.ms == ZERO_REGION && p.devNumaNode == 0
  {
    PrivateInfo(seq(PCI_MAX_BAR, _ => ZERO_REGION), ZERO_REGION, DevAddr(0, 0, 0), 0, 0, 0, 0)
  }

  /** `struct dpdk_pci_config_io`; `data` is the 8-byte union read as one 64-bit value. */
  datatype ConfigIoRequest = ConfigIoRequest(devAddr: DevAddr, offset: nat, op: nat, accessSize: nat, data: nat)

  /** The access widths the request documents. */
  predicate ValidAccessSize(n: nat)
  {
    n == 1 || n == 2 || n == 4 || n == 8
  }

  /**
   * Buffer sizes on x64 under `#pragma pack(8)`: a region is four 8-byte
   * fields (32 bytes); the map reply is 7 regions, an 8-byte address and four
   * 16-bit fields (240 bytes); a config request is the address, three 32-bit
   * fields, 4 bytes of padding and the 8-byte union (32 bytes).
   */
  const PRIVATE_INFO_SIZE: nat := 7 * 32 + 8 + 4 * 2
  const CONFIG_IO_SIZE: nat := 8 + 3 * 4 + 4 + 8
}
