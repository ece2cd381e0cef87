/** The bitfields of the ACCESS and STS registers, and the byte orders the driver
    uses: registers are moved as little-endian words, command and response
    headers carry a big-endian 32-bit length. */
module TpmStatus {

  // Locality management bits of the ACCESS register.
  const TpmRegValidSts: bv8 := 0x80
  const ActiveLocality: bv8 := 0x20
  const RequestUse: bv8 := 0x02
  const TpmEstablishment: bv8 := 0x01

  // Fields of the STS register.
  const TpmFamilyShift := 26
  const TpmFamilyMask: bv32 := 3
  const TpmFamilyTpm2: bv32 := 1
  const ResetEstablishmentBit: bv32 := 0x200_0000
  const CommandCancel: bv32 := 0x100_0000
  const StsValid: bv32 := 0x80
  const CommandReady: bv32 := 0x40
  const TpmGo: bv32 := 0x20
  const DataAvail: bv32 := 0x10
  const Expect: bv32 := 0x08
  const SelfTestDone: bv32 := 0x04
  const ResponseRetry: bv32 := 0x02

  /** The bits the command engine waits for: status valid and data available. */
  const ResponseBits: bv32 := StsValid | DataAvail

  /** The burst count field: bits 8..23 of a status word (shift 8, mask
      0xFFFF). */
  function BurstCount(status: bv32): (r: bv32)
    ensures r < 0x1_0000
    ensures status == (status & 0xFF00_00FF) | (r << 8)
  {
    (status >> 8) & 0xFFFF
  }

  /** The burst count field read from the four register bytes, least
      significant first: bytes 1 and 2. */
  function BurstOfBytes(b: seq<bv8>): (n: nat)
    requires |b| == 4
    ensures n < 0x1_0000
  {
    b[1] as nat + 0x100 * b[2] as nat
  }

  /** Read from the bytes, the burst count is the field of the word they make. */
  lemma BurstCountOfBytes(b: seq<bv8>)
    requires |b| == 4
    ensures BurstOfBytes(b) == BurstCount(LittleEndianWord(b)) as nat
  {
    BurstCountBits(b);
    TwoByteValue(BurstCount(LittleEndianWord(b)), b[1], b[2]);
  }

  lemma BurstCountBits(b: seq<bv8>)
    requires |b| == 4
    ensures BurstCount(LittleEndianWord(b)) == (b[1] as bv32) | ((b[2] as bv32) << 8)
  {
  }

  /** The value of a word made of a low and a high byte. */
  lemma TwoByteValue(w: bv32, lo: bv8, hi: bv8)
    requires w == (lo as bv32) | ((hi as bv32) << 8)
    ensures w as nat == lo as nat + 0x100 * hi as nat
  {
    TwoByteValue16(lo, hi);
    assert w as bv16 == (lo as bv16) | ((hi as bv16) << 8);
    Narrow16(w);
  }

  lemma TwoByteValue16(lo: bv8, hi: bv8)
    ensures ((lo as bv16) | ((hi as bv16) << 8)) as nat == lo as nat + 0x100 * hi as nat
  {
  }

  lemma Narrow16(w: bv32)
    requires w < 0x1_0000
    ensures (w as bv16) as nat == w as nat
  {
  }

  /** The TPM family field: bits 26..27 of a status word. */
  function Family(status: bv32): (r: bv32)
    ensures r < 4
    ensures status & 0x0C00_0000 == r << 26
  {
    (status >> TpmFamilyShift) & TpmFamilyMask
  }

  /** The test that decides whether the locality is released and ACCESS re-read.
      It masks with ActiveLocality & TpmRegValidSts, which is zero, so it holds
      for every ACCESS value. */
  function ReleaseCondition(access: bv8): (r: bool)
    ensures r
  {
    (access & (ActiveLocality & TpmRegValidSts)) == (ActiveLocality & TpmRegValidSts)
  }

  /** After the release step ACCESS must read "valid status, no locality active";
      the establishment bit is ignored. */
  function ResetStateOk(access: bv8): (r: bool)
    ensures r <==> access == 0x80 || access == 0x81
  {
    access & !TpmEstablishment == TpmRegValidSts
  }

  /** After request-use ACCESS must read "valid status, locality 0 active";
      the establishment bit is ignored. */
  function LocalityClaimed(access: bv8): (r: bool)
    ensures r <==> access == 0xA0 || access == 0xA1
  {
    access & !TpmEstablishment == TpmRegValidSts | ActiveLocality
  }

  /** The status word reports a TPM 2.0 device. */
  function IsTpm2(status: bv32): (r: bool)
    ensures r <==> status & 0x0C00_0000 == 0x0400_0000
  {
    Family(status) == TpmFamilyTpm2
  }

  /** Status masked by `mask` equals `expected` (the exit test of the status wait). */
  predicate StatusMatches(status: bv32, mask: bv32, expected: bv32) {
    status & mask == expected
  }

  /** Status valid and data available are both set: a response byte is waiting. */
  function ResponsePending(status: bv32): (r: bool)
    ensures r <==> status & StsValid != 0 && status & DataAvail != 0
  {
    StatusMatches(status, ResponseBits, ResponseBits)
  }

  /** Status valid is set and data available clear: the response has been drained. */
  function ResponseDrained(status: bv32): (r: bool)
    ensures r <==> status & StsValid != 0 && status & DataAvail == 0
  {
    StatusMatches(status, ResponseBits, StsValid)
  }

  /** A 32-bit register value as four bytes, least significant first. */
  function LittleEndianBytes(v: bv32): (b: seq<bv8>)
    ensures |b| == 4
  {
    [(v & 0xFF) as bv8, ((v >> 8) & 0xFF) as bv8, ((v >> 16) & 0xFF) as bv8, (v >> 24) as bv8]
  }

  /** Four register bytes, least significant first, as a 32-bit word. */
  function LittleEndianWord(b: seq<bv8>): (v: bv32)
    requires |b| == 4
    ensures LittleEndianBytes(v) == b
  {
    b[0] as bv32 | ((b[1] as bv32) << 8) | ((b[2] as bv32) << 16) | ((b[3] as bv32) << 24)
  }

  lemma LittleEndianRoundTrip(v: bv32)
    ensures LittleEndianWord(LittleEndianBytes(v)) == v
  {
  }

  /** A 32-bit value as four bytes, most significant first (network order). */
  function BigEndianBytes(v: bv32): (b: seq<bv8>)
    ensures |b| == 4
  {
    [(v >> 24) as bv8, ((v >> 16) & 0xFF) as bv8, ((v >> 8) & 0xFF) as bv8, (v & 0xFF) as bv8]
  }

  /** The length field of a command or response header: bytes [2..6) of the
      buffer, most significant first. */
  function DeclaredLength(buf: seq<bv8>): bv32
    requires |buf| >= 6
  {
    BigEndianWord(buf[2], buf[3], buf[4], buf[5])
  }

  /** Four bytes, most significant first, as a 32-bit word. */
  function BigEndianWord(b0: bv8, b1: bv8, b2: bv8, b3: bv8): bv32 {
    ((b0 as bv32) << 24) | ((b1 as bv32) << 16) | ((b2 as bv32) << 8) | b3 as bv32
  }

  /** The declared length is bytes [2..6) read most significant first. */
  lemma DeclaredLengthBytes(buf: seq<bv8>)
    requires |buf| >= 6
    ensures BigEndianBytes(DeclaredLength(buf)) == buf[2..6]
  {
  }

  /** A header of tag + big-endian length declares that length. */
  lemma DeclaredLengthOfHeader(tag: seq<bv8>, n: bv32, rest: seq<bv8>)
    requires |tag| == 2
    ensures DeclaredLength(tag + BigEndianBytes(n) + rest) == n
  {
    var buf := tag + BigEndianBytes(n) + rest;
    assert buf[2..6] == BigEndianBytes(n);
    DeclaredLengthBytes(buf);
    BigEndianInjective(DeclaredLength(buf), n);
  }

  lemma BigEndianInjective(a: bv32, b: bv32)
    requires BigEndianBytes(a) == BigEndianBytes(b)
    ensures a == b
  {
    assert BigEndianBytes(a)[0] == BigEndianBytes(b)[0];
    assert BigEndianBytes(a)[1] == BigEndianBytes(b)[1];
    assert BigEndianBytes(a)[2] == BigEndianBytes(b)[2];
    assert BigEndianBytes(a)[3] == BigEndianBytes(b)[3];
  }
}
