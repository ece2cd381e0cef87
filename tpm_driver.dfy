/** The driver itself: the interface descriptor (the SPI slave the driver
    talks to), the cached identity, and the operations of the driver, each
    recording the register accesses it performs in a ghost trace. */
module TpmDriver {
  import opened TpmInterface
  import opened TpmStatus
  import opened SpiFrame
  import opened SpiBus
  import opened Transactions

  /** The status word a status read returns when the slave has script `m` left:
      the four bytes after the flow-control poll, least significant first. */
  function NextStatus(m: seq<bv8>): bv32 {
    LittleEndianWord(Stream(Drop(m, PollLength(m)), 4))
  }

  /** A slave whose script is used up answers all ones, so it reports a burst
      count of 0xFFFF: a poll for a non-zero burst count never spins on an
      undriven line. */
  lemma IdleStatus()
    ensures NextStatus([]) == 0xFFFF_FFFF && BurstCount(NextStatus([])) == 0xFFFF
  {
    var b := Stream(Drop([], PollLength([])), 4);
    assert b == [0xFF, 0xFF, 0xFF, 0xFF];
  }

  /** A status read that reports a zero burst count has consumed script bytes. */
  lemma ZeroBurstConsumes(m: seq<bv8>)
    ensures BurstCount(NextStatus(m)) == 0 ==> |Drop(m, PollLength(m) + 4)| < |m|
  {
    if m == [] {
      IdleStatus();
    }
  }

  lemma WireJoin(w: seq<WireEvent>, header: seq<bv8>, polled: seq<bv8>, dout: seq<bv8>, din: seq<bv8>)
    ensures w + [CsAssert, Xfer(header, [])] + Polls(polled) + [Xfer(dout, din)] + [CsDeassert]
            == w + RegisterWire(header, polled, dout, din)
  {
  }

  /** The direction of a FIFO access as the C flag `to_read` selects it. */
  function DirOf(readDirection: bool): Direction {
    if readDirection then Read else Write
  }

  /** `s` with `d` written over it from index `at` on. */
  function Overlay(s: seq<bv8>, at: nat, d: seq<bv8>): (r: seq<bv8>)
    requires at + |d| <= |s|
    ensures |r| == |s|
  {
    seq(|s|, i requires 0 <= i < |s| => if at <= i < at + |d| then d[i - at] else s[i])
  }

  lemma OverlayEmpty(s: seq<bv8>, at: nat)
    requires at <= |s|
    ensures Overlay(s, at, []) == s
  {
  }

  lemma OverlayOwn(s: seq<bv8>, at: nat, n: nat)
    requires at + n <= |s|
    ensures Overlay(s, at, s[at..at + n]) == s
  {
  }

  /** Two adjacent overlays are one overlay of the joined data. */
  lemma OverlayJoin(s: seq<bv8>, at: nat, a: seq<bv8>, b: seq<bv8>)
    requires at + |a| + |b| <= |s|
    ensures Overlay(Overlay(s, at, a), at + |a|, b) == Overlay(s, at, a + b)
  {
  }

  lemma OverlaySlice(s: seq<bv8>, at: nat, d: seq<bv8>)
    requires at + |d| <= |s|
    ensures Overlay(s, at, d)[at..at + |d|] == d
  {
  }

  /** One more access at the end of a trace. */
  lemma TraceStep(t0: seq<RegAccess>, t: seq<RegAccess>, a: RegAccess)
    ensures t0 + t + [a] == t0 + (t + [a])
  {
  }

  lemma TraceSteps(t0: seq<RegAccess>, t: seq<RegAccess>, a: RegAccess, b: RegAccess)
    ensures t0 + t + [a] + [b] == t0 + (t + [a, b])
  {
  }

  lemma TraceJoin(t0: seq<RegAccess>, t: seq<RegAccess>, u: seq<RegAccess>)
    ensures t0 + t + u == t0 + (t + u)
  {
  }

  /** Arrays that agree from `h` on agree from any later `k` on. */
  lemma LaterSuffix(a: seq<bv8>, b: seq<bv8>, h: nat, k: nat)
    requires |a| == |b| && h <= k <= |a| && a[h..] == b[h..]
    ensures a[k..] == b[k..]
  {
    assert a[k..] == a[h..][k - h..];
    assert b[k..] == b[h..][k - h..];
  }

  /** A declared length that is too large or too small stops the response
      phase right after the header. */
  lemma PhaseOfRejection(t: seq<RegAccess>, rsp: seq<bv8>, header: seq<bv8>, maxResponse: nat, exit: CommandExit)
    requires |header| == HeaderSize && HeaderSize <= |rsp| && maxResponse <= |rsp| && rsp[..HeaderSize] == header
    requires t == [RegAccess(Read, TpmDataFifoReg, header)]
    requires exit == if DeclaredLength(header) as nat > maxResponse then ResponseTooLarge else BufferOverrun
    requires DeclaredLength(header) as nat > maxResponse || DeclaredLength(header) as nat < HeaderSize + 1
    ensures DeclaredLength(rsp) == DeclaredLength(header)
    ensures ResponsePhase(t, rsp, DeclaredLength(header) as nat, maxResponse, exit, [], 0, 0)
  {
    assert header[..HeaderSize] == header;
    DeclaredLengthOfPrefix(rsp, header);
  }

  /** An overlay leaves the bytes outside its range as they were. */
  lemma OverlayKeeps(s: seq<bv8>, at: nat, d: seq<bv8>, lo: nat, hi: nat)
    requires at + |d| <= |s| && lo <= hi <= |s| && (hi <= at || at + |d| <= lo)
    ensures Overlay(s, at, d)[lo..hi] == s[lo..hi]
  {
  }

  /** The declared length depends on the first six bytes only. */
  lemma DeclaredLengthOfPrefix(a: seq<bv8>, b: seq<bv8>)
    requires |a| >= HeaderSize && |b| >= HeaderSize && a[..HeaderSize] == b[..HeaderSize]
    ensures DeclaredLength(a) == DeclaredLength(b)
  {
    assert a[2] == a[..HeaderSize][2] && a[3] == a[..HeaderSize][3];
    assert a[4] == a[..HeaderSize][4] && a[5] == a[..HeaderSize][5];
  }

  lemma FinishBulk(t: seq<RegAccess>, dir: Direction, data: seq<bv8>, size: nat)
    requires Rounds(t, dir, data, size) && t != [] && |data| == size
    ensures BulkDone(t, dir, data)
  {
  }

  /** Received bytes land in the caller's buffer at `at`. */
  method Deposit(buffer: array<bv8>, at: nat, data: seq<bv8>)
    requires at + |data| <= buffer.Length
    modifies buffer
    ensures buffer[..] == Overlay(old(buffer[..]), at, data)
  {
    forall i | 0 <= i < |data| {
      buffer[at + i] := data[i];
    }
  }

  class Driver {
    /** The SPI slave the driver talks to (null before initialisation). */
    var slave: Bus?
    /** The cached device identification. */
    var info: Tpm2Info
    /** Every register access the driver has performed. */
    ghost var trace: seq<RegAccess>

    constructor()
      ensures slave == null && info == ZeroInfo && trace == []
    {
      slave := null;
      info := ZeroInfo;
      trace := [];
    }

    /** `tpm2_get_info`: a copy of the cached identity. */
    method GetInfo() returns (i: Tpm2Info)
      ensures i == info
    {
      i := info;
    }

    /** Assert chip select, send the frame header, then poll one byte at a time
        until the slave signals ready. */
    method StartTransaction(read: bool, bytes: nat, addr: bv32)
      requires slave != null
      modifies slave
      ensures var m := old(slave.miso);
              slave.miso == Drop(m, PollLength(m)) &&
              slave.wire == old(slave.wire) + [CsAssert, Xfer(EncodeHeader(read, bytes, addr), [])] + Polls(Stream(m, PollLength(m)))
    {
      ghost var m := slave.miso;
      var header := EncodeHeader(read, bytes, addr);
      slave.ClaimBus();
      var none := slave.Transfer(header, 0);
      ghost var w := slave.wire;
      assert Stream(m, 0) == [];
      assert w == old(slave.wire) + [CsAssert, Xfer(header, [])];
      ghost var k := 0;
      while true
        invariant k <= StallLength(m)
        invariant slave.miso == Drop(m, k) && slave.wire == w + Polls(Stream(m, k))
        decreases StallLength(m) - k
      {
        var din := slave.Transfer([], 1);
        PollStep(m, k);
        ghost var b := din[0];
        assert din == [b];
        StreamSplit(m, k, 1);
        PollsAppend(Stream(m, k), b);
        DropDrop(m, k, 1);
        k := k + 1;
        assert slave.wire == w + Polls(Stream(m, k));
        if Ready(din[0]) {
          assert k == PollLength(m);
          assert slave.miso == Drop(m, PollLength(m));
          break;
        }
      }
    }

    /** `tpm2_read_reg`: one read transaction of `bytes` bytes at `reg`. */
    method ReadReg(reg: bv32, bytes: nat) returns (data: seq<bv8>)
      requires slave != null
      modifies this`trace, slave
      ensures |data| == bytes
      ensures trace == old(trace) + [RegAccess(Read, reg, data)]
      ensures var m := old(slave.miso);
              var k := PollLength(m);
              data == Stream(Drop(m, k), bytes) && slave.miso == Drop(m, k + bytes) &&
              slave.wire == old(slave.wire) + RegisterWire(EncodeHeader(true, bytes, reg), Stream(m, k), [], data)
    {
      ghost var m := slave.miso;
      ghost var w := slave.wire;
      StartTransaction(true, bytes, reg);
      data := slave.Transfer([], bytes);
      slave.ReleaseBus();
      DropDrop(m, PollLength(m), bytes);
      WireJoin(w, EncodeHeader(true, bytes, reg), Stream(m, PollLength(m)), [], data);
      trace := trace + [RegAccess(Read, reg, data)];
    }

    /** `tpm2_write_reg`: one write transaction of `data` to `reg`. */
    method WriteReg(reg: bv32, data: seq<bv8>)
      requires slave != null
      modifies this`trace, slave
      ensures trace == old(trace) + [RegAccess(Write, reg, data)]
      ensures var m := old(slave.miso);
              var k := PollLength(m);
              slave.miso == Drop(m, k) &&
              slave.wire == old(slave.wire) + RegisterWire(EncodeHeader(false, |data|, reg), Stream(m, k), data, [])
    {
      ghost var m := slave.miso;
      ghost var w := slave.wire;
      StartTransaction(false, |data|, reg);
      var none := slave.Transfer(data, 0);
      slave.ReleaseBus();
      assert none == [];
      WireJoin(w, EncodeHeader(false, |data|, reg), Stream(m, PollLength(m)), data, []);
      trace := trace + [RegAccess(Write, reg, data)];
    }

    /** `read_tpm_sts`: the status register, read as a little-endian word. */
    method ReadSts() returns (status: bv32)
      requires slave != null
      modifies this`trace, slave
      ensures status == NextStatus(old(slave.miso))
      ensures trace == old(trace) + [StatusRead(status)]
      ensures slave.miso == Drop(old(slave.miso), PollLength(old(slave.miso)) + 4)
    {
      var data := ReadReg(TpmStsReg, 4);
      status := LittleEndianWord(data);
    }

    /** `write_tpm_sts`. */
    method WriteSts(status: bv32)
      requires slave != null
      modifies this`trace, slave
      ensures trace == old(trace) + [StatusWrite(status)]
    {
      WriteReg(TpmStsReg, LittleEndianBytes(status));
    }

    /** `get_burst_count`: the burst count field of a fresh status read (16
        bits, returned in a 32-bit integer).  A zero count always consumes part
        of the slave's script. */
    method GetBurstCount() returns (count: nat, ghost status: bv32)
      requires slave != null
      modifies this`trace, slave
      ensures trace == old(trace) + [StatusRead(status)]
      ensures status == NextStatus(old(slave.miso)) && count == BurstOf(StatusRead(status))
      ensures count == 0 ==> |slave.miso| < |old(slave.miso)|
    {
      ghost var m := slave.miso;
      var sts := ReadSts();
      count := BurstCount(sts) as nat;
      status := sts;
      BurstOfStatus(sts);
      ZeroBurstConsumes(m);
    }

    /** `wait_for_status`: poll STS until its bits under `mask` equal `expected`.
        The stopwatch is `deadline`, the number of times it is checked before it
        reports expiry; it is checked before every poll. */
    method WaitForStatus(mask: bv32, expected: bv32, deadline: nat) returns (ok: bool, ghost polls: seq<RegAccess>)
      requires slave != null
      modifies this`trace, slave
      ensures trace == old(trace) + polls
      ensures WaitTrace(polls, mask, expected, ok, deadline)
    {
      var checks := 0;
      polls := [];
      while true
        invariant checks == |polls| <= deadline
        invariant trace == old(trace) + polls && Unmatched(polls, mask, expected)
        decreases deadline - checks
      {
        if checks == deadline {
          return false, polls;
        }
        checks := checks + 1;
        var status := ReadSts();
        ghost var before := polls;
        polls := polls + [StatusRead(status)];
        assert polls[..|polls| - 1] == before;
        if StatusMatches(status, mask, expected) {
          return true, polls;
        }
      }
    }

    /** The inner loop of `bulk_transfer`: read the burst count until it is
        non-zero.  The polls extend a partial bulk transfer. */
    method AwaitBurst(ghost t: seq<RegAccess>, ghost dir: Direction, ghost moved: seq<bv8>, ghost total: nat)
      returns (burst: nat, ghost polls: seq<RegAccess>, ghost s: RegAccess)
      requires slave != null && Polled(t, dir, moved, total)
      modifies this`trace, slave
      ensures trace == old(trace) + polls + [s]
      ensures Polled(t + polls, dir, moved, total) && IsStatusRead(s) && BurstOf(s) == burst && burst != 0
    {
      polls := [];
      assert t + polls == t;
      while true
        invariant trace == old(trace) + polls && Polled(t + polls, dir, moved, total)
        decreases |slave.miso|
      {
        ghost var status;
        burst, status := GetBurstCount();
        s := StatusRead(status);
        if burst != 0 {
          return;
        }
        PolledMore(t, polls, s, dir, moved, total);
        polls := polls + [s];
      }
    }

    /** One FIFO access of `bytes` bytes at `buffer[at..]`, the bytes before it
        in the transfer that started at `offset` being `moved`: a read fills
        that part of the buffer, a write sends it. */
    method FifoChunk(buffer: array<bv8>, at: nat, bytes: nat, readDirection: bool,
                     ghost offset: nat, ghost moved: seq<bv8>, ghost orig: seq<bv8>)
      returns (chunk: seq<bv8>)
      requires slave != null && at == offset + |moved| && at + bytes <= buffer.Length
      requires |orig| == buffer.Length && buffer[..] == Overlay(orig, offset, moved)
      modifies this`trace, slave, if readDirection then {buffer} else {}
      ensures |chunk| == bytes
      ensures trace == old(trace) + [RegAccess(DirOf(readDirection), TpmDataFifoReg, chunk)]
      ensures buffer[..] == Overlay(orig, offset, moved + chunk)
    {
      if readDirection {
        chunk := ReadChunk(buffer, at, bytes, offset, moved, orig);
      } else {
        chunk := WriteChunk(buffer, at, bytes, offset, moved, orig);
      }
    }

    /** The read half of FifoChunk: the bytes read land at `buffer[at..]`. */
    method ReadChunk(buffer: array<bv8>, at: nat, bytes: nat,
                     ghost offset: nat, ghost moved: seq<bv8>, ghost orig: seq<bv8>)
      returns (chunk: seq<bv8>)
      requires slave != null && at == offset + |moved| && at + bytes <= buffer.Length
      requires |orig| == buffer.Length && buffer[..] == Overlay(orig, offset, moved)
      modifies this`trace, slave, buffer
      ensures |chunk| == bytes
      ensures trace == old(trace) + [RegAccess(Read, TpmDataFifoReg, chunk)]
      ensures buffer[..] == Overlay(orig, offset, moved + chunk)
    {
      chunk := ReadReg(TpmDataFifoReg, bytes);
      Deposit(buffer, at, chunk);
      OverlayJoin(orig, offset, moved, chunk);
    }

    /** The write half of FifoChunk: the bytes sent are `buffer[at..at + bytes]`,
        and the buffer is left alone. */
    method WriteChunk(buffer: array<bv8>, at: nat, bytes: nat,
                      ghost offset: nat, ghost moved: seq<bv8>, ghost orig: seq<bv8>)
      returns (chunk: seq<bv8>)
      requires slave != null && at == offset + |moved| && at + bytes <= buffer.Length
      requires |orig| == buffer.Length && buffer[..] == Overlay(orig, offset, moved)
      modifies this`trace, slave
      ensures chunk == buffer[at..at + bytes]
      ensures trace == old(trace) + [RegAccess(Write, TpmDataFifoReg, chunk)]
      ensures buffer[..] == Overlay(orig, offset, moved + chunk)
    {
      chunk := buffer[at..at + bytes];
      WriteReg(TpmDataFifoReg, chunk);
      OverlayOwn(buffer[..], at, bytes);
      OverlayJoin(orig, offset, moved, chunk);
    }

    /** The sizing half of a round of `bulk_transfer`: wait for a non-zero
        burst count and bound the chunk by it, by 64 and by what is left. */
    method RoundSize(size: nat, handled: nat, ghost t: seq<RegAccess>, ghost dir: Direction, ghost moved: seq<bv8>)
      returns (transactionSize: nat, ghost polls: seq<RegAccess>, ghost s: RegAccess)
      requires slave != null && handled == |moved| <= size
      requires Rounds(t, dir, moved, size) && (t == [] || handled < size)
      modifies this`trace, slave
      ensures trace == old(trace) + polls + [s]
      ensures Polled(t + polls, dir, moved, size) && IsStatusRead(s) && BurstOf(s) > 0
      ensures transactionSize == ChunkSize(size - handled, BurstOf(s))
    {
      PolledStart(t, dir, moved, size);
      var burst;
      burst, polls, s := AwaitBurst(t, dir, moved, size);
      transactionSize := size - handled;
      if transactionSize > burst {
        transactionSize := burst;
      }
      if transactionSize > 64 {
        transactionSize := 64;
      }
    }

    /** One round of `bulk_transfer`: size the chunk, then move it at
        `buffer[offset + handled..]`. */
    method BulkRound(size: nat, buffer: array<bv8>, offset: nat, handled: nat, readDirection: bool,
                     ghost t: seq<RegAccess>, ghost moved: seq<bv8>, ghost orig: seq<bv8>)
      returns (transactionSize: nat, ghost u: seq<RegAccess>, ghost chunk: seq<bv8>)
      requires slave != null && handled == |moved| <= size && offset + size <= buffer.Length
      requires Rounds(t, DirOf(readDirection), moved, size) && (t == [] || handled < size)
      requires |orig| == buffer.Length && buffer[..] == Overlay(orig, offset, moved)
      modifies this`trace, slave, if readDirection then {buffer} else {}
      ensures trace == old(trace) + u && |u| >= 2
      ensures handled + transactionSize <= size && (handled < size ==> transactionSize > 0)
      ensures |chunk| == transactionSize
      ensures Rounds(t + u, DirOf(readDirection), moved + chunk, size)
      ensures buffer[..] == Overlay(orig, offset, moved + chunk)
    {
      ghost var dir := DirOf(readDirection);
      ghost var polls, s;
      transactionSize, polls, s := RoundSize(size, handled, t, dir, moved);
      chunk := FifoChunk(buffer, offset + handled, transactionSize, readDirection, offset, moved, orig);
      RoundsMore(t, polls, s, dir, moved, chunk, size);
      u := polls + [s, RegAccess(dir, TpmDataFifoReg, chunk)];
    }

    /** `bulk_transfer`: move `size` bytes between the FIFO and
        `buffer[offset..offset + size]`, in chunks bounded by the burst count the
        TPM reports before each chunk and by 64 bytes.  A zero size still makes
        one round, with a zero-length FIFO access.  `data` is what was moved. */
    method BulkTransfer(size: nat, buffer: array<bv8>, offset: nat, readDirection: bool)
      returns (ghost t: seq<RegAccess>, ghost data: seq<bv8>)
      requires slave != null && size < 0x1_0000_0000 && offset + size <= buffer.Length
      modifies this`trace, slave, if readDirection then {buffer} else {}
      ensures trace == old(trace) + t && |data| == size
      ensures BulkDone(t, DirOf(readDirection), data)
      ensures buffer[..] == Overlay(old(buffer[..]), offset, data)
    {
      var handled := 0;
      data := [];
      t := [];
      OverlayEmpty(buffer[..], offset);
      while true
        invariant handled <= size && handled == |data|
        invariant trace == old(trace) + t
        invariant Rounds(t, DirOf(readDirection), data, size) && (t == [] || handled < size)
        invariant buffer[..] == Overlay(old(buffer[..]), offset, data)
        decreases size - handled
      {
        var transactionSize, u, chunk := BulkRound(size, buffer, offset, handled, readDirection, t, data, old(buffer[..]));
        t := t + u;
        data := data + chunk;
        handled := handled + transactionSize;
        if handled == size {
          FinishBulk(t, DirOf(readDirection), data, size);
          break;
        }
      }
    }
  
    /** A one-byte register read, as `tpm2_init` does it into `cmd`. */
    method ReadByte(reg: bv32) returns (b: bv8)
      requires slave != null
      modifies this`trace, slave
      ensures trace == old(trace) + [RegAccess(Read, reg, [b])]
    {
      var data := ReadReg(reg, 1);
      b := data[0];
      assert data == [b];
    }

    /** A one-byte register write. */
    method WriteByte(reg: bv32, b: bv8)
      requires slave != null
      modifies this`trace, slave
      ensures trace == old(trace) + [RegAccess(Write, reg, [b])]
    {
      WriteReg(reg, [b]);
    }

    /** `tpm2_init`: attach to `spiIf`, release and then claim locality 0,
        check the TPM family and cache the device identity.  The release step
        is taken for every ACCESS value (see ReleaseCondition).  Returns 0 on
        success and -1 on each of the three failures; the identity is kept
        unless initialisation succeeds. */
    method Init(spiIf: Bus) returns (r: int, ghost exit: InitExit, ghost t: seq<RegAccess>)
      modifies this, spiIf
      ensures slave == spiIf
      ensures trace == old(trace) + t && InitTrace(t, exit)
      ensures r == if exit == Connected then 0 else -1
      ensures info == if exit == Connected then InitIdentity(t) else old(info)
    {
      slave := spiIf;
      r, exit, t := Connect();
    }

    /** The register dialogue of `tpm2_init` with the slave already attached. */
    method Connect() returns (r: int, ghost exit: InitExit, ghost t: seq<RegAccess>)
      requires slave != null
      modifies this`trace, this`info, slave
      ensures trace == old(trace) + t && InitTrace(t, exit)
      ensures r == if exit == Connected then 0 else -1
      ensures info == if exit == Connected then InitIdentity(t) else old(info)
    {
      ghost var t0 := trace;
      var didVidBytes := ReadReg(TpmDidVidReg, 4);
      t := [RegAccess(Read, TpmDidVidReg, didVidBytes)];
      var access := ReadByte(TpmAccessReg);
      ghost var x1 := access;
      TraceStep(t0, t, RegAccess(Read, TpmAccessReg, [x1]));
      t := t + [RegAccess(Read, TpmAccessReg, [x1])];
      if ReleaseCondition(access) {
        access := ReleaseLocality();
        TraceJoin(t0, t, [RegAccess(Write, TpmAccessReg, [ActiveLocality]), RegAccess(Read, TpmAccessReg, [access])]);
        t := t + [RegAccess(Write, TpmAccessReg, [ActiveLocality]), RegAccess(Read, TpmAccessReg, [access])];
      }
      ghost var x3 := access;
      if !ResetStateOk(access) {
        InitTraceReset(didVidBytes, x1, x3);
        r, exit := -1, InvalidResetState;
      } else {
        access := RequestLocality();
        TraceJoin(t0, t, [RegAccess(Write, TpmAccessReg, [RequestUse]), RegAccess(Read, TpmAccessReg, [access])]);
        t := t + [RegAccess(Write, TpmAccessReg, [RequestUse]), RegAccess(Read, TpmAccessReg, [access])];
        if !LocalityClaimed(access) {
          InitTraceClaim(didVidBytes, x1, x3, access);
          r, exit := -1, LocalityClaimFailed;
        } else {
          ghost var rest;
          r, exit, rest := Identify(didVidBytes, x1, x3, access, t);
          TraceJoin(t0, t, rest);
          t := t + rest;
        }
      }
    }

    /** ACCESS <- active locality (the release), then a re-read of ACCESS. */
    method ReleaseLocality() returns (access: bv8)
      requires slave != null
      modifies this`trace, slave
      ensures trace == old(trace) + [RegAccess(Write, TpmAccessReg, [ActiveLocality]), RegAccess(Read, TpmAccessReg, [access])]
    {
      WriteByte(TpmAccessReg, ActiveLocality);
      access := ReadByte(TpmAccessReg);
      TraceSteps(old(trace), [], RegAccess(Write, TpmAccessReg, [ActiveLocality]), RegAccess(Read, TpmAccessReg, [access]));
    }

    /** ACCESS <- request use (the claim of locality 0), then a re-read of ACCESS. */
    method RequestLocality() returns (access: bv8)
      requires slave != null
      modifies this`trace, slave
      ensures trace == old(trace) + [RegAccess(Write, TpmAccessReg, [RequestUse]), RegAccess(Read, TpmAccessReg, [access])]
    {
      WriteByte(TpmAccessReg, RequestUse);
      access := ReadByte(TpmAccessReg);
      TraceSteps(old(trace), [], RegAccess(Write, TpmAccessReg, [RequestUse]), RegAccess(Read, TpmAccessReg, [access]));
    }

    /** The end of `tpm2_init`, once locality 0 is claimed after the accesses
        `t`: the family check on STS, the read of RID and the cached identity. */
    method Identify(didVidBytes: seq<bv8>, ghost x1: bv8, ghost x3: bv8, ghost x5: bv8, ghost t: seq<RegAccess>)
      returns (r: int, ghost exit: InitExit, ghost rest: seq<RegAccess>)
      requires slave != null && |didVidBytes| == 4 && ResetStateOk(x3) && LocalityClaimed(x5)
      requires t == [RegAccess(Read, TpmDidVidReg, didVidBytes)] + [RegAccess(Read, TpmAccessReg, [x1])] +
                    [RegAccess(Write, TpmAccessReg, [ActiveLocality]), RegAccess(Read, TpmAccessReg, [x3])] +
                    [RegAccess(Write, TpmAccessReg, [RequestUse]), RegAccess(Read, TpmAccessReg, [x5])]
      modifies this`trace, this`info, slave
      ensures trace == old(trace) + rest && InitTrace(t + rest, exit)
      ensures r == if exit == Connected then 0 else -1
      ensures info == if exit == Connected then InitIdentity(t + rest) else old(info)
    {
      ghost var t0 := trace;
      var status := ReadSts();
      rest := [StatusRead(status)];
      if !IsTpm2(status) {
        InitTraceFamily(didVidBytes, x1, x3, x5, status);
        r, exit := -1, UnexpectedFamily;
      } else {
        var rid := ReadByte(TpmRidReg);
        TraceStep(t0, rest, RegAccess(Read, TpmRidReg, [rid]));
        rest := rest + [RegAccess(Read, TpmRidReg, [rid])];
        InitTraceConnected(didVidBytes, x1, x3, x5, status, rid);
        assert t + rest == t + [StatusRead(status)] + [RegAccess(Read, TpmRidReg, [rid])];
        info := Identity(LittleEndianWord(didVidBytes), rid);
        r, exit := 0, Connected;
      }
    }

    /** The command half of `tpm2_process_command`: STS <- command ready, the
        bulk write of the command, STS <- go, and the wait for a response. */
    method SendCommand(command: array<bv8>, commandSize: nat, deadline: nat)
      returns (ok: bool, ghost tw: seq<RegAccess>, ghost tp: seq<RegAccess>)
      requires slave != null && commandSize <= command.Length && commandSize < 0x1_0000_0000
      modifies this`trace, slave
      ensures trace == old(trace) + Sent(tw, tp)
      ensures BulkDone(tw, Write, command[..commandSize])
      ensures WaitTrace(tp, ResponseBits, ResponseBits, ok, deadline)
    {
      WriteSts(CommandReady);
      ghost var data;
      tw, data := BulkTransfer(commandSize, command, 0, false);
      OverlaySlice(command[..], 0, data);
      assert command[..commandSize] == data;
      WriteSts(TpmGo);
      ok, tp := WaitForStatus(ResponseBits, ResponseBits, deadline);
    }

    /** bytes_to_go = n - 1 - 6 bytes of the response by bulk read, into
        `response[6..n - 1]`. */
    method ReadMiddle(response: array<bv8>, n: nat) returns (ghost tr: seq<RegAccess>)
      requires slave != null && HeaderSize + 1 <= n <= response.Length && n < 0x1_0000_0000
      modifies this`trace, slave, response
      ensures trace == old(trace) + tr
      ensures BulkDone(tr, Read, response[HeaderSize..n - 1])
      ensures response[..HeaderSize] == old(response[..HeaderSize])
      ensures response[n - 1..] == old(response[n - 1..]) && response[n..] == old(response[n..])
    {
      ghost var rsp0 := response[..];
      ghost var data;
      tr, data := BulkTransfer(BytesToGo(n), response, HeaderSize, true);
      OverlaySlice(rsp0, HeaderSize, data);
      OverlayKeeps(rsp0, HeaderSize, data, 0, HeaderSize);
      OverlayKeeps(rsp0, HeaderSize, data, n - 1, response.Length);
      OverlayKeeps(rsp0, HeaderSize, data, n, response.Length);
    }

    /** The read of the last response byte, into `response[n - 1]`. */
    method ReadLast(response: array<bv8>, n: nat)
      requires slave != null && HeaderSize + 1 <= n <= response.Length
      modifies this`trace, slave, response
      ensures trace == old(trace) + [RegAccess(Read, TpmDataFifoReg, [response[n - 1]])]
      ensures response[..HeaderSize] == old(response[..HeaderSize])
      ensures response[HeaderSize..n - 1] == old(response[HeaderSize..n - 1])
      ensures response[n..] == old(response[n..])
    {
      ghost var rsp0 := response[..];
      var last := ReadReg(TpmDataFifoReg, 1);
      Deposit(response, n - 1, last);
      OverlayKeeps(rsp0, n - 1, last, HeaderSize, n - 1);
      OverlayKeeps(rsp0, n - 1, last, 0, HeaderSize);
      OverlayKeeps(rsp0, n - 1, last, n, response.Length);
      assert last == [response[n - 1]];
    }

    /** The body half of `tpm2_process_command` for a response of declared
        length `n`: bytes 6..n-2 by bulk read, the intermediate status check,
        byte n-1, the final status check and STS <- command ready. */
    method ReadBody(response: array<bv8>, n: nat)
      returns (exit: CommandExit, ghost t: seq<RegAccess>, ghost tr: seq<RegAccess>, ghost s1: bv32, ghost s2: bv32)
      requires slave != null && HeaderSize + 1 <= n <= response.Length && n < 0x1_0000_0000
      modifies this`trace, slave, response
      ensures trace == old(trace) + t
      ensures ResponseBody(t, response[..], n, exit, tr, s1, s2)
      ensures exit == UnexpectedIntermediateStatus || exit == UnexpectedFinalStatus || exit == ResponseReceived
      ensures response[..HeaderSize] == old(response[..HeaderSize])
      ensures response[ReadLength(n, exit)..] == old(response[ReadLength(n, exit)..])
    {
      ghost var t0 := trace;
      tr := ReadMiddle(response, n);
      var status := ReadSts();
      s1 := status;
      TraceStep(t0, tr, StatusRead(s1));
      t := tr + [StatusRead(s1)];
      if !ResponsePending(status) {
        exit, s2 := UnexpectedIntermediateStatus, 0;
      } else {
        ghost var u;
        exit, u, s2 := ReadTail(response, n);
        TraceJoin(t0, t, u);
        t := t + u;
      }
    }

    /** The end of the body half of `tpm2_process_command`: byte n-1, the final
        status check and, when the FIFO is drained, STS <- command ready. */
    method ReadTail(response: array<bv8>, n: nat) returns (exit: CommandExit, ghost u: seq<RegAccess>, ghost s2: bv32)
      requires slave != null && HeaderSize + 1 <= n <= response.Length
      modifies this`trace, slave, response
      ensures trace == old(trace) + u
      ensures exit == if ResponseDrained(s2) then ResponseReceived else UnexpectedFinalStatus
      ensures var tail := [RegAccess(Read, TpmDataFifoReg, [response[n - 1]]), StatusRead(s2)];
              u == if ResponseDrained(s2) then tail + [StatusWrite(CommandReady)] else tail
      ensures response[..HeaderSize] == old(response[..HeaderSize])
      ensures response[HeaderSize..n - 1] == old(response[HeaderSize..n - 1])
      ensures response[n..] == old(response[n..])
    {
      ghost var t0 := trace;
      ReadLast(response, n);
      ghost var last := RegAccess(Read, TpmDataFifoReg, [response[n - 1]]);
      var status := ReadSts();
      s2 := status;
      u := [last, StatusRead(s2)];
      if !ResponseDrained(status) {
        exit := UnexpectedFinalStatus;
      } else {
        WriteSts(CommandReady);
        TraceStep(t0, u, StatusWrite(CommandReady));
        u := u + [StatusWrite(CommandReady)];
        exit := ResponseReceived;
      }
    }

    /** The read of the 6-byte response header, into `response[..6]`. */
    method ReadHeader(response: array<bv8>) returns (header: seq<bv8>)
      requires slave != null && HeaderSize <= response.Length
      modifies this`trace, slave, response
      ensures |header| == HeaderSize && response[..HeaderSize] == header
      ensures trace == old(trace) + [RegAccess(Read, TpmDataFifoReg, header)]
      ensures response[HeaderSize..] == old(response[HeaderSize..])
    {
      ghost var rsp0 := response[..];
      header := ReadReg(TpmDataFifoReg, HeaderSize);
      Deposit(response, 0, header);
      OverlaySlice(rsp0, 0, header);
      OverlayKeeps(rsp0, 0, header, HeaderSize, response.Length);
    }

    /** The response half of `tpm2_process_command`, once the TPM has reported
        a response: the header, the length checks and the body.  `n` is the
        length the header declares. */
    method ReceiveResponse(response: array<bv8>, maxResponse: nat)
      returns (r: nat, exit: CommandExit, ghost n: nat, ghost t: seq<RegAccess>, ghost tr: seq<RegAccess>,
               ghost s1: bv32, ghost s2: bv32)
      requires slave != null && HeaderSize <= response.Length && maxResponse <= response.Length
      modifies this`trace, slave, response
      ensures trace == old(trace) + t
      ensures n == DeclaredLength(response[..]) as nat
      ensures exit == ResponseTooLarge || exit == BufferOverrun || exit == UnexpectedIntermediateStatus ||
              exit == UnexpectedFinalStatus || exit == ResponseReceived
      ensures ResponsePhase(t, response[..], n, maxResponse, exit, tr, s1, s2)
      ensures exit == UnexpectedIntermediateStatus ==> n >= HeaderSize + 1
      ensures r == if exit == ResponseReceived then n else 0
      ensures ReadLength(n, exit) <= response.Length &&
              response[ReadLength(n, exit)..] == old(response[..])[ReadLength(n, exit)..]
    {
      ghost var t0 := trace;
      ghost var rsp0 := response[..];
      var header := ReadHeader(response);
      t := [RegAccess(Read, TpmDataFifoReg, header)];
      var payloadSize := DeclaredLength(header) as nat;
      n := payloadSize;
      assert header[..HeaderSize] == header;
      if payloadSize > maxResponse || payloadSize < HeaderSize + 1 {
        exit := if payloadSize > maxResponse then ResponseTooLarge else BufferOverrun;
        PhaseOfRejection(t, response[..], header, maxResponse, exit);
        r, tr, s1, s2 := 0, [], 0, 0;
      } else {
        ghost var body;
        r, exit, body, tr, s1, s2 := ReceiveBody(response, payloadSize, rsp0);
        DeclaredLengthOfPrefix(response[..], header);
        TraceJoin(t0, t, body);
        t := t + body;
        PhaseOfBody(t, response[..], payloadSize, maxResponse, exit, body, tr, s1, s2);
      }
    }

    /** The body part of the response half, for a declared length `n` that
        passed both checks; `rsp0` is the buffer before the header was read. */
    method ReceiveBody(response: array<bv8>, n: nat, ghost rsp0: seq<bv8>)
      returns (r: nat, exit: CommandExit, ghost t: seq<RegAccess>, ghost tr: seq<RegAccess>, ghost s1: bv32, ghost s2: bv32)
      requires slave != null && HeaderSize + 1 <= n <= response.Length && n < 0x1_0000_0000
      requires |rsp0| == response.Length && response[HeaderSize..] == rsp0[HeaderSize..]
      modifies this`trace, slave, response
      ensures trace == old(trace) + t
      ensures exit == UnexpectedIntermediateStatus || exit == UnexpectedFinalStatus || exit == ResponseReceived
      ensures response[..HeaderSize] == old(response[..HeaderSize])
      ensures ResponseBody(t, response[..], n, exit, tr, s1, s2)
      ensures r == if exit == ResponseReceived then n else 0
      ensures response[ReadLength(n, exit)..] == rsp0[ReadLength(n, exit)..]
    {
      ghost var rsp1 := response[..];
      exit, t, tr, s1, s2 := ReadBody(response, n);
      LaterSuffix(rsp1, rsp0, HeaderSize, ReadLength(n, exit));
      r := if exit == ResponseReceived then n else 0;
    }

    /** The response half of `tpm2_process_command`, after the command `cmd`
        went out as `tw` and the wait `tp` saw the response ready: read the
        response and extend the run of the command by what was read. */
    method CollectResponse(response: array<bv8>, maxResponse: nat, ghost cmd: seq<bv8>, ghost deadline: nat,
                           ghost tw: seq<RegAccess>, ghost tp: seq<RegAccess>)
      returns (r: nat, ghost exit: CommandExit, ghost rest: seq<RegAccess>)
      requires slave != null && HeaderSize <= response.Length && maxResponse <= response.Length
      requires BulkDone(tw, Write, cmd) && WaitTrace(tp, ResponseBits, ResponseBits, true, deadline)
      modifies this`trace, slave, response
      ensures trace == old(trace) + rest
      ensures CommandRun(Sent(tw, tp) + rest, cmd, response[..], maxResponse, deadline, exit)
      ensures exit == UnexpectedIntermediateStatus ==> DeclaredLength(response[..]) as nat >= HeaderSize + 1
      ensures r == if exit == ResponseReceived then DeclaredLength(response[..]) as nat else 0
      ensures var k := ReadLength(DeclaredLength(response[..]) as nat, exit);
              k <= response.Length && response[k..] == old(response[..])[k..]
    {
      ghost var n, tr, s1, s2;
      r, exit, n, rest, tr, s1, s2 := ReceiveResponse(response, maxResponse);
      RunOfPhases(Sent(tw, tp) + rest, cmd, response[..], maxResponse, deadline, exit, tw, tp, rest, tr, s1, s2);
    }

    /** `tpm2_process_command` once the declared command size matched: send
        `command[..commandSize]`, wait for the response, and read it. */
    method Exchange(command: array<bv8>, commandSize: nat, response: array<bv8>, maxResponse: nat, deadline: nat)
      returns (r: nat, ghost exit: CommandExit, ghost t: seq<RegAccess>)
      requires slave != null
      requires commandSize <= command.Length && commandSize < 0x1_0000_0000
      requires HeaderSize <= response.Length && maxResponse <= response.Length
      modifies this`trace, slave, response
      ensures trace == old(trace) + t
      ensures CommandRun(t, old(command[..commandSize]), response[..], maxResponse, deadline, exit)
      ensures exit == UnexpectedIntermediateStatus ==> DeclaredLength(response[..]) as nat >= HeaderSize + 1
      ensures r == if exit == ResponseReceived then DeclaredLength(response[..]) as nat else 0
      ensures var k := ReadLength(DeclaredLength(response[..]) as nat, exit);
              k <= response.Length && response[k..] == old(response[..])[k..]
    {
      ghost var t0 := trace;
      ghost var cmd := command[..commandSize];
      var ok;
      ghost var tw, tp;
      ok, tw, tp := SendCommand(command, commandSize, deadline);
      if !ok {
        TimeoutRun(cmd, response[..], maxResponse, deadline, tw, tp);
        r, exit, t := 0, ResponseTimeout, Sent(tw, tp);
      } else {
        ghost var rest;
        r, exit, rest := CollectResponse(response, maxResponse, cmd, deadline, tw, tp);
        TraceJoin(t0, Sent(tw, tp), rest);
        t := Sent(tw, tp) + rest;
      }
    }

    /** `tpm2_process_command`: send `command[..commandSize]` and read the
        response into `response`.  The result is the response length, or 0 on
        any failure.  A declared response length below 7 stops the command
        with BufferOverrun (see the findings). */
    method ProcessCommand(command: array<bv8>, commandSize: nat, response: array<bv8>, maxResponse: nat, deadline: nat)
      returns (r: nat, ghost exit: CommandExit, ghost t: seq<RegAccess>)
      requires slave != null
      requires HeaderSize <= command.Length && commandSize <= command.Length
      requires HeaderSize <= response.Length && maxResponse <= response.Length
      modifies this`trace, slave, response
      ensures trace == old(trace) + t
      ensures DeclaredLength(old(command[..])) as nat != commandSize ==> exit == SizeMismatch && t == []
      ensures DeclaredLength(old(command[..])) as nat == commandSize ==>
                CommandRun(t, old(command[..commandSize]), response[..], maxResponse, deadline, exit)
      ensures exit == UnexpectedIntermediateStatus ==> DeclaredLength(response[..]) as nat >= HeaderSize + 1
      ensures r == if exit == ResponseReceived then DeclaredLength(response[..]) as nat else 0
      ensures var k := ReadLength(DeclaredLength(response[..]) as nat, exit);
              k <= response.Length && response[k..] == old(response[..])[k..]
    {
      var declared := DeclaredLength(command[..]);
      if declared as nat != commandSize {
        return 0, SizeMismatch, [];
      }
      r, exit, t := Exchange(command, commandSize, response, maxResponse, deadline);
    }
}
}
