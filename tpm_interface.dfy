/** The public interface of the TPM2-over-SPI driver: the cached identity record
    and the addresses of the FIFO-interface registers the driver uses. */
module TpmInterface {

  /** The cached device identification (three 16-bit fields). */
  datatype Tpm2Info = Tpm2Info(vendorId: bv16, deviceId: bv16, revision: bv16)

  /** The value of the zero-initialised global before any successful init. */
  const ZeroInfo := Tpm2Info(0, 0, 0)

  /** Register addresses of the FIFO interface, locality 0. */
  const TpmAccessReg: bv32 := 0
  const TpmStsReg: bv32 := 0x18
  const TpmDataFifoReg: bv32 := 0x24
  const TpmDidVidReg: bv32 := 0xf00
  const TpmRidReg: bv32 := 0xf04

  /** The register map: five distinct addresses, each of which fits the 24-bit
      address field of an SPI frame header. */
  function RegisterMap(): (m: seq<bv32>)
    ensures |m| == 5
    ensures forall i, j :: 0 <= i < j < |m| ==> m[i] != m[j]
    ensures forall i :: 0 <= i < |m| ==> m[i] <= 0xFF_FFFF
  {
    [TpmAccessReg, TpmStsReg, TpmDataFifoReg, TpmDidVidReg, TpmRidReg]
  }

  /** The identity assembled from the DID_VID word and the RID byte: the vendor id is
      the low half of DID_VID, the device id the high half, and the 8-bit revision is
      widened to 16 bits. */
  function Identity(didVid: bv32, rid: bv8): (info: Tpm2Info)
    ensures ((info.deviceId as bv32) << 16) | info.vendorId as bv32 == didVid
    ensures info.revision <= 0xFF && info.revision as bv8 == rid
  {
    Tpm2Info((didVid & 0xFFFF) as bv16, (didVid >> 16) as bv16, rid as bv16)
  }
}
