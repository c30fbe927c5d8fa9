/**
 * The Windows kernel status codes the netuio driver returns, with the
 * `NT_SUCCESS` test (the code read as a signed 32-bit value is not negative).
 * Values are those of the Windows Driver Kit's ntstatus.h.
 */
module NtStatus {
  import opened CTypes

  type Status = s: nat | s < U32_LIMIT

  const STATUS_SUCCESS: Status := 0x0000_0000
  const STATUS_UNSUCCESSFUL: Status := 0xC000_0001
  const STATUS_INVALID_PARAMETER: Status := 0xC000_000D
  const STATUS_INVALID_DEVICE_REQUEST: Status := 0xC000_0010
  const STATUS_NO_MEMORY: Status := 0xC000_0017
  const STATUS_ALREADY_COMMITTED: Status := 0xC000_0021
  const STATUS_INSUFFICIENT_RESOURCES: Status := 0xC000_009A
  const STATUS_NOT_SUPPORTED: Status := 0xC000_00BB
  const STATUS_NOT_SAME_DEVICE: Status := 0xC000_00D4
  const STATUS_DEVICE_CONFIGURATION_ERROR: Status := 0xC000_0182
  const STATUS_INVALID_DEVICE_STATE: Status := 0xC000_0184
  const STATUS_INVALID_BUFFER_SIZE: Status := 0xC000_0206

  /** `NT_SUCCESS(s)`: the severity bits do not mark an error or warning, i.e. `(LONG)s >= 0`. */
  predicate NtSuccess(s: Status)
  {
    AsI32(s) >= 0
  }

  /** Every error code the driver produces is a failure under `NT_SUCCESS`. */
  lemma ErrorCodesFail()
    ensures NtSuccess(STATUS_SUCCESS)
    ensures !NtSuccess(STATUS_UNSUCCESSFUL) && !NtSuccess(STATUS_INVALID_PARAMETER)
    ensures !NtSuccess(STATUS_INVALID_DEVICE_REQUEST) && !NtSuccess(STATUS_NO_MEMORY)
    ensures !NtSuccess(STATUS_ALREADY_COMMITTED) && !NtSuccess(STATUS_INSUFFICIENT_RESOURCES)
    ensures !NtSuccess(STATUS_NOT_SUPPORTED) && !NtSuccess(STATUS_NOT_SAME_DEVICE)
    ensures !NtSuccess(STATUS_DEVICE_CONFIGURATION_ERROR) && !NtSuccess(STATUS_INVALID_DEVICE_STATE)
    ensures !NtSuccess(STATUS_INVALID_BUFFER_SIZE)
  {
  }

  /** `NT_SUCCESS` holds exactly for codes below 2^31. */
  lemma NtSuccessRange(s: Status)
    ensures NtSuccess(s) <==> s < 0x8000_0000
  {
  }
}
