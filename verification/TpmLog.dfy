/** The TPM event log. */
module TpmLog {
  import opened FileSystem

  datatype Event = Event(pcr: nat, data: Bytes)

  const PCR_KERNEL_IMAGE := 11
  const PCR_KERNEL_CONFIG := 12
  const PCR_SYSEXTS := 13
}
