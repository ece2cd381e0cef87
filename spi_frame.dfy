/** The SPI side of a TPM register transaction (PTP specification rev 00.43,
    section 6.4.6 "SPI Bit Protocol" and section 6.4.5 "Flow Control"): the 4-byte
    frame header the master sends, and the flow-control poll that follows it. */
module SpiFrame {

  datatype Option<T> = None | Some(value: T)

  /** What a frame header says: direction, transfer size (1..64) and a 24-bit
      register address. */
  datatype FrameHeader = FrameHeader(read: bool, bytes: nat, addr: bv32)

  /** The 6-bit size field, `bytes - 1` computed in a machine word and kept to its
      low 8 bits as the C assignment to an unsigned char does.  For a zero-length
      transfer this wraps to 0xFF. */
  function SizeField(bytes: nat): bv8 {
    if bytes == 0 then 0xFF else if bytes <= 0x100 then (bytes - 1) as bv8 else Low8(bytes - 1)
  }

  /** For 1..64 bytes the size field is `bytes - 1`, which fits six bits; for
      a zero-length transfer it is 0xFF. */
  lemma SizeFieldValue(bytes: nat)
    ensures 1 <= bytes <= 64 ==> SizeField(bytes) as nat == bytes - 1 && SizeField(bytes) < 0x40
    ensures bytes == 0 ==> SizeField(bytes) == 0xFF
  {
    if 1 <= bytes <= 64 {
      SixBitValue(bytes - 1);
      SixBitBound(bytes - 1);
    }
  }

  lemma SixBitValue(k: nat)
    requires k < 0x40
    ensures (k as bv8) as nat == k
  {
  }

  lemma SixBitBound(k: nat)
    requires k < 0x40
    ensures (k as bv8) < 0x40
  {
  }

  /** The low 8 bits of a machine word. */
  function Low8(n: nat): bv8 {
    (n % 0x100) as bv8
  }

  /** Byte 0 of the header: read flag, the always-set bit 6, and the size field. */
  function HeaderByte0(read: bool, bytes: nat): bv8 {
    (if read then 0x80 else 0) | 0x40 | SizeField(bytes)
  }

  /** The 4-byte frame header for a transfer of `bytes` bytes at `addr`: byte 0 as
      above, then bits 23..0 of the address, most significant byte first. */
  function EncodeHeader(read: bool, bytes: nat, addr: bv32): (h: seq<bv8>)
    ensures |h| == 4
  {
    [HeaderByte0(read, bytes), ((addr >> 16) & 0xFF) as bv8, ((addr >> 8) & 0xFF) as bv8, (addr & 0xFF) as bv8]
  }

  /** What the header says: bit 6 always set, bit 7 the direction, bits 5..0
      the size less one; a zero-length transfer gives an all-ones byte 0; bytes
      1..3 hold the low 24 bits of the address. */
  lemma HeaderFields(read: bool, bytes: nat, addr: bv32)
    ensures var h := EncodeHeader(read, bytes, addr);
            (1 <= bytes <= 64 ==>
               h[0] & 0x40 == 0x40 && (h[0] & 0x80 == 0x80 <==> read) && (h[0] & 0x3F) as nat == bytes - 1) &&
            (bytes == 0 ==> h[0] == 0xFF) &&
            ((h[1] as bv32) << 16) | ((h[2] as bv32) << 8) | h[3] as bv32 == addr & 0xFF_FFFF
  {
    SizeFieldValue(bytes);
    if 1 <= bytes <= 64 {
      Byte0Fields(read, SizeField(bytes));
    }
  }

  /** The three parts of byte 0 can be read back when the size field fits 6 bits. */
  lemma Byte0Fields(read: bool, size: bv8)
    requires size < 0x40
    ensures ((if read then 0x80 else 0) | 0x40 | size) & 0x3F == size
    ensures ((if read then 0x80 else 0) | 0x40 | size) & 0x40 == 0x40
    ensures ((if read then 0x80 else 0) | 0x40 | size) & 0x80 == 0x80 <==> read
  {
  }

  /** The slave's reading of a frame header: None unless it has four bytes and
      bit 6 of byte 0 set. */
  function DecodeHeader(h: seq<bv8>): (r: Option<FrameHeader>)
    ensures r.Some? ==> 1 <= r.value.bytes <= 64 && r.value.addr <= 0xFF_FFFF
  {
    if |h| != 4 || h[0] & 0x40 != 0x40 then None
    else Some(FrameHeader(h[0] & 0x80 != 0, (h[0] & 0x3F) as nat + 1,
                          ((h[1] as bv32) << 16) | ((h[2] as bv32) << 8) | h[3] as bv32))
  }

  /** Decoding an encoded header gives back the direction, the size and the address
      reduced to 24 bits. */
  lemma DecodeEncode(read: bool, bytes: nat, addr: bv32)
    requires 1 <= bytes <= 64
    ensures DecodeHeader(EncodeHeader(read, bytes, addr)) == Some(FrameHeader(read, bytes, addr & 0xFF_FFFF))
  {
    HeaderFields(read, bytes, addr);
    DecodedFields(EncodeHeader(read, bytes, addr), read, bytes, addr & 0xFF_FFFF);
  }

  /** A 4-byte header whose fields read back as given decodes to them. */
  lemma DecodedFields(h: seq<bv8>, read: bool, bytes: nat, addr: bv32)
    requires |h| == 4 && h[0] & 0x40 == 0x40
    requires (h[0] & 0x80 == 0x80 <==> read) && (h[0] & 0x3F) as nat + 1 == bytes
    requires ((h[1] as bv32) << 16) | ((h[2] as bv32) << 8) | h[3] as bv32 == addr
    ensures DecodeHeader(h) == Some(FrameHeader(read, bytes, addr))
  {
    assert h[0] & 0x80 == 0x80 <==> h[0] & 0x80 != 0;
  }

  /** Every header the slave accepts is the encoding of what it decodes to. */
  lemma EncodeDecode(h: seq<bv8>)
    requires DecodeHeader(h).Some?
    ensures var f := DecodeHeader(h).value; EncodeHeader(f.read, f.bytes, f.addr) == h
  {
    EncodeOfParts(h[0], h[1], h[2], h[3]);
    assert [h[0], h[1], h[2], h[3]] == h;
  }

  lemma EncodeOfParts(b0: bv8, a: bv8, b: bv8, c: bv8)
    requires b0 & 0x40 == 0x40
    ensures EncodeHeader(b0 & 0x80 != 0, (b0 & 0x3F) as nat + 1, ((a as bv32) << 16) | ((b as bv32) << 8) | c as bv32)
            == [b0, a, b, c]
  {
    Byte0OfFields(b0);
    AddressBytes(a, b, c);
  }

  lemma Byte0OfFields(b0: bv8)
    requires b0 & 0x40 == 0x40
    ensures HeaderByte0(b0 & 0x80 != 0, (b0 & 0x3F) as nat + 1) == b0
  {
    var size := b0 & 0x3F;
    assert (size as nat) as bv8 == size;
    assert SizeField(size as nat + 1) == size;
  }

  lemma AddressBytes(a: bv8, b: bv8, c: bv8)
    ensures var addr := ((a as bv32) << 16) | ((b as bv32) << 8) | c as bv32;
            ((addr >> 16) & 0xFF) as bv8 == a && ((addr >> 8) & 0xFF) as bv8 == b && (addr & 0xFF) as bv8 == c
  {
  }

  /** A flow-control byte signals "ready" when its least significant bit is set. */
  predicate Ready(b: bv8) {
    b & 1 == 1
  }

  /** The number of stall bytes at the front of `miso` before the first ready byte
      (all of `miso` if none is ready). */
  function StallLength(miso: seq<bv8>): (r: nat)
    ensures r <= |miso|
  {
    if miso == [] || Ready(miso[0]) then 0 else 1 + StallLength(miso[1..])
  }

  /** The stall is made of non-ready bytes and ends at a ready byte, if any. */
  lemma {:induction false} StallPrefix(miso: seq<bv8>)
    ensures forall i :: 0 <= i < StallLength(miso) ==> !Ready(miso[i])
    ensures StallLength(miso) < |miso| ==> Ready(miso[StallLength(miso)])
  {
    if miso != [] && !Ready(miso[0]) {
      StallPrefix(miso[1..]);
      assert forall i :: 1 <= i < |miso| ==> miso[i] == miso[1..][i - 1];
    }
  }
}
