# TPM 2.0 over SPI driver, modelled in Dafny

This project models the coreboot driver for a TPM 2.0 reached over SPI
(`src/drivers/spi/tpm/tpm.c` and `tpm.h`). The driver implements the FIFO
interface of the TCG PC Client Platform TPM Profile specification, rev 00.43.
The model covers four layers:

- **SPI framing.** The 4-byte frame header of section 6.4.6 "SPI Bit
  Protocol", and the byte-by-byte flow-control poll of section 6.4.5 "Flow
  Control" (`SpiFrame`).
- **The bus.** A class `SpiBus.Bus` stands in for the SPI controller and a
  scripted slave. The slave is the finite sequence of bytes it will put on
  MISO. Once that script is used up the line reads 0xFF, like an undriven,
  pulled-up line. The class also keeps a ghost log of chip-select and
  transfer events.
- **Registers.** The register map and the identity record
  (`TpmInterface`), plus the bitfields of ACCESS and STS and the byte orders
  (`TpmStatus`).
- **The driver.** A class `TpmDriver.Driver` holds the slave pointer and
  the cached `tpm2_info`, and records a ghost trace of every register
  access it makes. Its methods follow the C functions statement by
  statement: `start_transaction`, `tpm2_read_reg` and `tpm2_write_reg`, the
  status accessors, `get_burst_count`, `tpm2_init`, `tpm2_get_info`,
  `wait_for_status`, `bulk_transfer` and `tpm2_process_command`.

`Transactions` describes, as predicates over the access trace, the shape a
bulk transfer, a status wait, an initialisation and a command take. The
driver methods are proved against those predicates, and lemmas then derive
what the driver promises:

- which bytes go through the FIFO in each direction;
- which writes initialisation performs;
- when a command succeeds.

Several quirks of the code are reproduced as written:

- **The release step always runs.** The test at tpm.c:280 masks with
  `active_locality & tpm_reg_valid_sts`, which is 0, so it holds for every
  ACCESS value.
- **Zero-length FIFO access.** A response that declares exactly 7 bytes
  makes `bulk_transfer(0, …)` issue one zero-length FIFO access, whose
  header size field wraps to 0xFF. A command whose declared and supplied
  sizes are both 0 is written as one zero-length FIFO access too.
- **Header read before the capacity check.** The response header is read
  into the caller's buffer before `max_response` is checked.
- **Length field.** Both lengths are the big-endian value of bytes [2..6).

Two of the code's own comments say less than the code does. The model
follows the code:

- The comment at tpm.c:282-285 ("Locality active - maybe reset line is not
  connected?") reads as a step taken only when a locality is already
  active. The test at tpm.c:280 holds for every ACCESS value, so the release
  write and the re-read happen on every initialisation.
- The comment at tpm.c:109-112 says the transfer size is limited to 64
  bytes, which suggests 1 to 64. `bulk_transfer` is a do-while loop, so a
  zero total still makes one round with a 0-byte FIFO access. This happens
  in two places: the body read of a response that declares exactly 7
  bytes, and the command write of a command whose declared and supplied
  sizes are both 0.

Two assumptions about the platform:

- The host is little-endian. Register words are moved byte by byte into a
  `uint32_t`.
- `size_t` is 64 bits wide. The underflow of `bytes_to_go` is modelled
  modulo 2^64.

## Model

| member | source | states |
|---|---|---|
| TpmInterface.RegisterMap | src/drivers/spi/tpm/tpm.h:62-67 | the five FIFO-interface register addresses are pairwise distinct and each fits the 24-bit address field of a frame header |
| TpmInterface.Identity | src/drivers/spi/tpm/tpm.c:320-322 | the vendor id and device id put back together give the DID_VID word (vendor id in the low half); the revision is the RID byte widened to 16 bits |
| SpiFrame.HeaderFields | src/drivers/spi/tpm/tpm.c:114-118 | for 1..64 bytes, byte 0 has bit 6 set, bit 7 set exactly for a read, and bits 5..0 equal to bytes-1; a zero-length transfer gives byte 0 = 0xFF; bytes 1..3 are the address mod 2^24, most significant first |
| SpiFrame.SizeFieldValue | src/drivers/spi/tpm/tpm.c:114 | the size field is bytes-1 and below 0x40 for 1..64 bytes, and 0xFF (the unsigned-char wrap of -1) for 0 bytes |
| SpiFrame.DecodeEncode | src/drivers/spi/tpm/tpm.c:114-118 | decoding an encoded header gives back the direction, the size and the 24-bit address |
| SpiFrame.EncodeDecode | src/drivers/spi/tpm/tpm.c:114-118 | every header the slave accepts is the encoding of what it decodes to, so the encoding is onto the valid headers |
| SpiFrame.StallPrefix | src/drivers/spi/tpm/tpm.c:150-152 | the bytes polled before the first ready byte (bit 0 set) all have bit 0 clear, and the byte after them is ready if the slave sent one |
| SpiBus.PolledEndsReady | src/drivers/spi/tpm/tpm.c:150-152 | the polled bytes end with the first ready byte, and none before it is ready |
| SpiBus.PollStep | src/drivers/spi/tpm/tpm.c:150-152 | the byte polled after k stall bytes ends the poll exactly when k is the stall length |
| SpiBus.RegisterWireShape | src/drivers/spi/tpm/tpm.c:136-152 | the wire image of a register transaction is: CS asserted, the 4-byte header, one single-byte transfer per polled byte, the data transfer, CS released |
| SpiBus.Bus.Transfer | src/drivers/spi/tpm/tpm.c:28-35 | `xfer` sends its output bytes and receives the next bytes of the slave's script, 0xFF past its end, and logs the transfer |
| SpiBus.Bus.ClaimBus | src/drivers/spi/tpm/tpm.c:28-35 | `cs_assert` logs chip select asserted and leaves the slave's script alone |
| SpiBus.Bus.ReleaseBus | src/drivers/spi/tpm/tpm.c:28-35 | `cs_deassert` logs chip select released and leaves the slave's script alone |
| SpiBus.StreamSplit | src/drivers/spi/tpm/tpm.c:203-215 | receiving n and then m bytes receives the same bytes as receiving n+m |
| TpmDriver.Driver.StartTransaction | src/drivers/spi/tpm/tpm.c:97-153 | asserts CS, sends EncodeHeader(read, bytes, addr), then polls one byte at a time up to and including the first ready byte; the slave's script loses exactly those bytes |
| TpmDriver.Driver.ReadReg | src/drivers/spi/tpm/tpm.c:234-241 | returns exactly `bytes` bytes, the slave's next bytes after the flow-control poll; logs one read access and the full wire image (header, polls, data, CS released) |
| TpmDriver.Driver.WriteReg | src/drivers/spi/tpm/tpm.c:221-228 | logs one write access of the data and the full wire image with the data on MOSI; only the poll consumes slave bytes |
| TpmDriver.Driver.ReadSts | src/drivers/spi/tpm/tpm.c:247-250 | one 4-byte read of STS; the result is those bytes as a little-endian word |
| TpmDriver.Driver.WriteSts | src/drivers/spi/tpm/tpm.c:252-255 | one write of the status word's four little-endian bytes to STS |
| TpmStatus.BurstCount | src/drivers/spi/tpm/tpm.c:262-268 | the burst count is below 2^16 and is bits 8..23 of the status word: the status is rebuilt from its other bits and the field |
| TpmStatus.BurstCountOfBytes | src/drivers/spi/tpm/tpm.c:266-267 | the burst count read from register bytes 1 and 2 equals the field of the little-endian status word |
| Transactions.BurstOfStatus | src/drivers/spi/tpm/tpm.c:266-267 | the burst count recorded in a status read equals BurstCount of the status word |
| TpmDriver.Driver.GetBurstCount | src/drivers/spi/tpm/tpm.c:262-268 | one status read, and the count is its burst count field; a zero count always consumes slave bytes |
| TpmDriver.IdleStatus | src/drivers/spi/tpm/tpm.c:366-369 | a slave whose script is used up reports STS = 0xFFFFFFFF, so burst count 0xFFFF |
| TpmDriver.ZeroBurstConsumes | src/drivers/spi/tpm/tpm.c:366-369 | a status read reporting burst count 0 consumes part of the slave's script, so the burst poll ends |
| TpmStatus.Family | src/drivers/spi/tpm/tpm.c:308-309 | the family field is bits 26..27 of the status word |
| TpmStatus.IsTpm2 | src/drivers/spi/tpm/tpm.c:308-309 | the family test holds exactly when bits 26..27 are 01 |
| TpmStatus.ReleaseCondition | src/drivers/spi/tpm/tpm.c:280-281 | the test before the release step holds for every ACCESS value |
| TpmStatus.ResetStateOk | src/drivers/spi/tpm/tpm.c:292 | the reset-state check passes exactly for ACCESS = 0x80 or 0x81 |
| TpmStatus.LocalityClaimed | src/drivers/spi/tpm/tpm.c:300-301 | the claim check passes exactly for ACCESS = 0xA0 or 0xA1 |
| TpmStatus.ResponsePending | src/drivers/spi/tpm/tpm.c:480 | the intermediate check passes exactly when status valid and data available are both set |
| TpmStatus.ResponseDrained | src/drivers/spi/tpm/tpm.c:495 | the final check passes exactly when status valid is set and data available is clear |
| TpmStatus.LittleEndianWord | src/drivers/spi/tpm/tpm.c:247-250 | four register bytes read into a 32-bit word are recovered by splitting the word again |
| TpmStatus.LittleEndianRoundTrip | src/drivers/spi/tpm/tpm.c:252-255 | splitting a status word into bytes and rebuilding it gives the same word |
| TpmStatus.DeclaredLengthBytes | src/drivers/spi/tpm/tpm.c:403-404 | the declared length is the big-endian reading of buffer bytes [2..6) |
| TpmStatus.DeclaredLengthOfHeader | src/drivers/spi/tpm/tpm.c:456-457 | a header made of a 2-byte tag and the big-endian bytes of n declares n, whatever follows |
| TpmStatus.BigEndianInjective | src/drivers/spi/tpm/tpm.c:456-457 | two words with the same big-endian bytes are equal |
| TpmDriver.DeclaredLengthOfPrefix | src/drivers/spi/tpm/tpm.c:456-457 | the declared length depends only on the first six bytes of a buffer |
| TpmDriver.Driver.Init | src/drivers/spi/tpm/tpm.c:270-328 | attaches the slave; the accesses are one InitTrace ending at `exit`; returns 0 exactly on Connected and -1 otherwise; the cached identity changes only on success and is then InitIdentity of the trace |
| TpmDriver.Driver.Connect | src/drivers/spi/tpm/tpm.c:276-327 | the same as Init, with the slave already attached |
| TpmDriver.Driver.ReleaseLocality | src/drivers/spi/tpm/tpm.c:286-288 | the accesses are exactly ACCESS <- active locality followed by a read of ACCESS, whose value is returned |
| TpmDriver.Driver.RequestLocality | src/drivers/spi/tpm/tpm.c:297-298 | the accesses are exactly ACCESS <- request use followed by a read of ACCESS, whose value is returned |
| TpmDriver.Driver.Identify | src/drivers/spi/tpm/tpm.c:306-323 | after the claim of locality 0, the accesses so far plus the STS read and, for a TPM2 family value, the RID read are an InitTrace; the cached identity changes only on success, to the DID_VID and RID read |
| TpmDriver.Driver.ReadByte | src/drivers/spi/tpm/tpm.c:279 | a one-byte register read, logged as such |
| TpmDriver.Driver.WriteByte | src/drivers/spi/tpm/tpm.c:286-287 | a one-byte register write, logged as such |
| Transactions.InitTraceReset | src/drivers/spi/tpm/tpm.c:276-295 | DID_VID, ACCESS, release, ACCESS re-read with a bad reset state is an initialisation ending in InvalidResetState |
| Transactions.InitTraceClaim | src/drivers/spi/tpm/tpm.c:297-305 | the same followed by request-use and an ACCESS that does not show the claim ends in LocalityClaimFailed |
| Transactions.InitTraceFamily | src/drivers/spi/tpm/tpm.c:307-313 | the same followed by a status read with a family other than TPM 2.0 ends in UnexpectedFamily |
| Transactions.InitTraceConnected | src/drivers/spi/tpm/tpm.c:319-322 | the same followed by the RID read ends in Connected, and the identity it caches is built from DID_VID and RID |
| Transactions.InitIdentity | src/drivers/spi/tpm/tpm.c:319-322 | the identity of a successful initialisation: its revision is the RID byte, and its vendor and device ids together are the DID_VID word |
| Transactions.InitWrites | src/drivers/spi/tpm/tpm.c:286-298 | initialisation writes only ACCESS: always the locality release, then request-use unless the reset state was wrong |
| Transactions.InitConnected | src/drivers/spi/tpm/tpm.c:300-313 | a successful initialisation read an ACCESS value with valid status and active locality, and a status word of the TPM 2.0 family |
| TpmDriver.Driver.GetInfo | src/drivers/spi/tpm/tpm.c:87-90 | returns the cached identity |
| TpmDriver.Driver.constructor | src/drivers/spi/tpm/tpm.c:38-45 | before any initialisation there is no slave, the cached identity is all zeros and no access has been made |
| TpmDriver.Driver.WaitForStatus | src/drivers/spi/tpm/tpm.c:335-352 | the accesses are status polls only: on success the last one is the first that matched, on timeout `deadline` polls all failed |
| Transactions.WaitOutcome | src/drivers/spi/tpm/tpm.c:335-352 | a wait succeeds exactly when one of its polls matched, and never polls more often than the deadline allows |
| Transactions.ChunkSize | src/drivers/spi/tpm/tpm.c:371-380 | a chunk is at most what remains, at most the burst count and at most 64; it is one of those three, and positive when the other two are |
| TpmDriver.Driver.AwaitBurst | src/drivers/spi/tpm/tpm.c:366-369 | polls STS until the burst count is non-zero; the zero polls extend the transfer so far and the last poll reports that count |
| TpmDriver.Driver.RoundSize | src/drivers/spi/tpm/tpm.c:366-380 | waits for a non-zero burst count and returns ChunkSize of what remains and that count |
| TpmDriver.Driver.FifoChunk | src/drivers/spi/tpm/tpm.c:382-387 | one FIFO access of exactly `bytes` bytes at the current offset; a read leaves the buffer as the original overlaid with everything moved so far |
| TpmDriver.Driver.ReadChunk | src/drivers/spi/tpm/tpm.c:382-384 | one FIFO read of exactly `bytes` bytes; the bytes read land at the current offset, so the buffer is the original overlaid with everything moved so far |
| TpmDriver.Driver.WriteChunk | src/drivers/spi/tpm/tpm.c:385-387 | one FIFO write whose data is exactly `buffer[at..at + bytes]`; the buffer is not changed |
| TpmDriver.Driver.BulkRound | src/drivers/spi/tpm/tpm.c:365-389 | one round extends a run of complete rounds by one chunk, which is positive while bytes remain and never overshoots the size |
| TpmDriver.Driver.BulkTransfer | src/drivers/spi/tpm/tpm.c:358-391 | the accesses are complete rounds that move exactly `size` bytes in order; a read changes only buffer[offset..offset+size], which then holds the bytes read |
| Transactions.RoundsMoved | src/drivers/spi/tpm/tpm.c:358-391 | complete rounds move exactly the transferred bytes through the FIFO in their direction and none in the other; no FIFO access is longer than 64 bytes or, for a non-empty transfer, empty |
| Transactions.PolledMoved | src/drivers/spi/tpm/tpm.c:366-369 | zero-burst polls after complete rounds move no FIFO data |
| Transactions.SteadyRound | src/drivers/spi/tpm/tpm.c:365-389 | a status read showing burst count 8, followed by a FIFO access of min(remaining, 8) bytes, extends a run of complete rounds that had not finished |
| Transactions.SteadyBurstChunks | src/drivers/spi/tpm/tpm.c:358-391 | with every status read showing burst count 8, the three rounds with chunks of 8, 8 and 4 bytes are a valid complete 20-byte transfer |
| Transactions.BurstEight | src/drivers/spi/tpm/tpm.c:262-268 | a status word of 0x800 reads as burst count 8 |
| Transactions.SteadyRounds | src/drivers/spi/tpm/tpm.c:358-391 | with the burst count steady at 8, every complete run of rounds is two accesses per round and moves min(8k, total) bytes in k rounds; every round after the first starts with bytes still to move |
| Transactions.SteadyLast | src/drivers/spi/tpm/tpm.c:365-389 | the last round of a steady run moves the tail of the data in a chunk of min(remaining, burst, 64) bytes, after a run of rounds that had not finished |
| Transactions.SteadyPeel | src/drivers/spi/tpm/tpm.c:358-391 | with the burst count steady at 8, the last of k rounds starts after min(8(k-1), total) bytes and moves the rest, after a steady run of k-1 rounds |
| Transactions.SteadyBurstRun | src/drivers/spi/tpm/tpm.c:358-391 | conversely, any complete 20-byte transfer with the burst count steady at 8 is exactly six accesses, whose chunks are bytes 0..8, 8..16 and 16..20 |
| Transactions.BytesToGo | src/drivers/spi/tpm/tpm.c:475 | the body read length is declared-7 for a declared length of at least 7, and wraps to at least 2^64-7 below that |
| Transactions.BytesToGoOverrun | src/drivers/spi/tpm/tpm.c:475-476 | as written, a declared length below 7 asks the body read for more bytes than any buffer of a 32-bit size holds; a declared length of 6 asks for 2^64-1 |
| TpmDriver.Driver.SendCommand | src/drivers/spi/tpm/tpm.c:415-444 | STS <- command ready, a complete bulk write of exactly the command, STS <- go, then a status wait for valid and data available |
| TpmDriver.Driver.ReadHeader | src/drivers/spi/tpm/tpm.c:453 | reads the 6 header bytes into response[0..6) and leaves the rest of the buffer alone |
| TpmDriver.PhaseOfRejection | src/drivers/spi/tpm/tpm.c:459-467 | a declared length above `max_response` ends the response phase right after the header read; so does a declared length below 7, which is the corrected behaviour of the Findings row, not the code as written |
| TpmDriver.Driver.ReadMiddle | src/drivers/spi/tpm/tpm.c:475-476 | reads response bytes 6..n-2 in one bulk transfer into response[6..n-1) and leaves the header and bytes from n-1 on alone |
| TpmDriver.Driver.ReadLast | src/drivers/spi/tpm/tpm.c:487 | reads one byte into response[n-1] and leaves everything else alone |
| TpmDriver.Driver.ReadTail | src/drivers/spi/tpm/tpm.c:486-501 | reads byte n-1 into response[n-1], then the final status; STS <- command ready follows exactly when the FIFO is drained, and the exit is ResponseReceived exactly then; the rest of the buffer is left alone |
| TpmDriver.Driver.ReadBody | src/drivers/spi/tpm/tpm.c:475-501 | the body read, the intermediate check, the last byte, the final check and STS <- command ready, stopping at the first failed check; the buffer changes only below ReadLength |
| TpmDriver.Driver.ReceiveBody | src/drivers/spi/tpm/tpm.c:475-503 | as ReadBody, returning the declared length exactly when the response was received and 0 otherwise |
| TpmDriver.Driver.ReceiveResponse | src/drivers/spi/tpm/tpm.c:453-503 | reads the header, rejects a declared length above `max_response` or below 7, else reads the body; the accesses are a ResponsePhase; the result is the declared length on success and 0 otherwise |
| TpmDriver.Driver.CollectResponse | src/drivers/spi/tpm/tpm.c:447-503 | after the command went out and the wait saw the response ready, the accesses so far plus those of the response read are a CommandRun; the result is the declared length on success and 0 otherwise; response bytes past ReadLength keep their old values |
| TpmDriver.Driver.Exchange | src/drivers/spi/tpm/tpm.c:415-503 | once the declared command size matches, the accesses are a CommandRun of the command; the result is the declared response length when received and 0 otherwise; response bytes past ReadLength keep their old values |
| TpmDriver.Driver.ProcessCommand | src/drivers/spi/tpm/tpm.c:393-504 | a size mismatch returns 0 with no access; otherwise the accesses are a CommandRun of the command; the result is the declared response length when received and 0 on every failure; response bytes past ReadLength keep their old values |
| Transactions.PhaseOfBody | src/drivers/spi/tpm/tpm.c:453-503 | the header read followed by a response body is a response phase |
| Transactions.TimeoutRun | src/drivers/spi/tpm/tpm.c:433-443 | a command whose wait for the response times out is a complete command run with exit ResponseTimeout and no access after the wait |
| Transactions.RunOfPhases | src/drivers/spi/tpm/tpm.c:415-503 | the command delivery followed by a response phase is a command run |
| Transactions.SentFifo | src/drivers/spi/tpm/tpm.c:416-436 | sending a command writes exactly the command through the FIFO and reads nothing through it |
| Transactions.ResponsePhaseFifo | src/drivers/spi/tpm/tpm.c:453-501 | the response phase reads exactly response[0..ReadLength) through the FIFO, writes nothing, and reads a body only when 7 <= n <= max_response |
| Transactions.ResponseBodyFifo | src/drivers/spi/tpm/tpm.c:475-476 | the response body reads bytes 6..n-2 and, unless the intermediate check fails, byte n-1 |
| Transactions.CommandSplit | src/drivers/spi/tpm/tpm.c:415-503 | all FIFO writes of a command run come from its delivery, and all FIFO reads from its response phase |
| Transactions.CommandWrites | src/drivers/spi/tpm/tpm.c:416-444 | a command run writes exactly the command through the FIFO, and reads nothing when the wait timed out |
| Transactions.CommandReads | src/drivers/spi/tpm/tpm.c:453-503 | once the TPM answered, a command run reads exactly response[0..ReadLength) through the FIFO, never past the buffer; a body is read only for a declared length in 7..max_response |

## Left out

- `trace_dump` and every `printk` are not modelled. They only produce diagnostic output.
- `udelay` is not modelled. It is a delay with no effect on the state.
- The stopwatch of `wait_for_status` (120 s) is the parameter `deadline`: the number of times it is checked before it reports expiry. Time itself is not modelled.
- The SPI controller callbacks are not modelled as real hardware (`spi_claim_bus`, `spi_release_bus`, `spi_xfer`, tpm.c:38-42). They are modelled by `SpiBus.Bus`, with a finite slave script.
- A slave that stalls the flow-control poll forever, or reports burst count 0 forever, cannot be expressed. Every script ends, and an exhausted script reads 0xFF, which is ready and has a non-zero burst count. The model therefore does not capture the driver hanging on such a slave.
- The bytes the slave drives on MISO during write transfers are not modelled. Writes consume no script bytes.
- TpmDriver.Driver.ReadReg, TpmDriver.Driver.WriteReg: the constant `true` the C accessors return is not modelled. No caller looks at it.
- TpmDriver.Driver.BulkTransfer: requires `size < 2^32`, because `transaction_size` is a `uint32_t`. Every call in the driver meets this, except an underflowed `bytes_to_go`, which the model stops before (see Findings).
- TpmDriver.Driver.ProcessCommand: requires a command buffer of at least 6 bytes and a response buffer of at least 6 bytes with `max_response` within it. The source assumes both without checking. It also reads the length with an 8-byte `memcpy` whose upper four bytes `be32toh` discards; the model reads only bytes [2..6).
- TpmDriver.Driver.ProcessCommand: the contract refers to the command as it was on entry. A command buffer that aliases the response buffer is not modelled.
- TpmDriver.Driver.ProcessCommand: the rejection for a declared response length below 7 (exit BufferOverrun) is the corrected behaviour. The code as written is modelled by Transactions.BytesToGoOverrun (see Findings).
- TpmDriver.Driver.Exchange: requires `commandSize < 2^32`. Its only caller, ProcessCommand, calls it once the 32-bit declared size has matched `commandSize`.
- TpmDriver.Driver.ReceiveResponse: stops with BufferOverrun right after the header read when the declared length is below 7. The code as written goes on to the body read with a wrapped `bytes_to_go`; this stop is the corrected behaviour of the Findings row.
- TpmDriver.PhaseOfRejection: its below-7 case states the corrected BufferOverrun stop, not the code as written (see Findings).
- The byte-level copy into the caller's buffer is modelled by `Deposit` and the sequence function `Overlay`. Partial copies on a fault are not modelled.
- The SoC files under `src/soc/` and the mainboard files are not part of this model. They are board wiring and hardware register programming.

## Findings

| source | as written | input that shows it | evidently intended | confidence | as-written member | corrected member |
|---|---|---|---|---|---|---|
| src/drivers/spi/tpm/tpm.c:475-476 | `bytes_to_go = payload_size - 1 - HEADER_SIZE` in `size_t`, after checking only `payload_size > max_response` | a response header declaring length 6 (or anything from 0 to 6): `bytes_to_go` wraps to 2^64-1 and the bulk read keeps filling 64-byte chunks past the end of the response buffer | reject a declared length below 7 (the 6-byte header plus the last byte) before reading the body | not executed; high that the read overruns, medium that 7 is the intended lower bound | Transactions.BytesToGoOverrun | TpmDriver.Driver.ReceiveResponse |
