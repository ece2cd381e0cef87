/** The register-level view of the driver: every register read or write it
    performs, recorded as an access with its direction, address and data, and the
    shapes the sequence of accesses takes for a bulk FIFO transfer, a status wait,
    device initialisation and one command. */
module Transactions {
  import opened TpmInterface
  import opened TpmStatus

  datatype Direction = Read | Write

  /** One register transaction: the data moved to (Write) or from (Read) `reg`. */
  datatype RegAccess = RegAccess(dir: Direction, reg: bv32, data: seq<bv8>)

  predicate IsRead(a: RegAccess, reg: bv32, bytes: nat) {
    a.dir == Read && a.reg == reg && |a.data| == bytes
  }

  predicate IsStatusRead(a: RegAccess) {
    IsRead(a, TpmStsReg, 4)
  }

  /** The status word a status read returned. */
  function StatusOf(a: RegAccess): bv32
    requires IsStatusRead(a)
  {
    LittleEndianWord(a.data)
  }

  /** A status read that returned `status`. */
  function StatusRead(status: bv32): (a: RegAccess)
    ensures IsStatusRead(a) && StatusOf(a) == status
  {
    LittleEndianRoundTrip(status);
    RegAccess(Read, TpmStsReg, LittleEndianBytes(status))
  }

  /** A write of `status` to the status register. */
  function StatusWrite(status: bv32): RegAccess {
    RegAccess(Write, TpmStsReg, LittleEndianBytes(status))
  }

  /** The burst count a status read reported. */
  function BurstOf(a: RegAccess): (b: nat)
    requires IsStatusRead(a)
    ensures b < 0x1_0000
  {
    BurstOfBytes(a.data)
  }

  /** The burst count of a status read is the field of the word it returned. */
  lemma BurstOfStatus(status: bv32)
    ensures BurstOf(StatusRead(status)) == BurstCount(status) as nat
  {
    LittleEndianRoundTrip(status);
    BurstCountOfBytes(LittleEndianBytes(status));
  }

  /** The size of the next FIFO chunk: what remains, capped by the burst count and
      by the 64 bytes a frame header can describe. */
  function ChunkSize(remaining: nat, burst: nat): (c: nat)
    ensures c <= remaining && c <= burst && c <= 64
    ensures c == remaining || c == burst || c == 64
    ensures remaining > 0 && burst > 0 ==> c > 0
  {
    var c := if remaining > burst then burst else remaining;
    if c > 64 then 64 else c
  }

  predicate IsFifo(a: RegAccess) {
    a.reg == TpmDataFifoReg
  }

  /** `t` is a run of complete bulk-transfer rounds that moved `moved`, the first
      `|moved|` bytes of a `total`-byte transfer in direction `dir`.  A round is
      any number of status reads reporting burst count 0, one status read
      reporting a non-zero burst count b, and one FIFO access of
      ChunkSize(total - handled, b) bytes. */
  ghost predicate Rounds(t: seq<RegAccess>, dir: Direction, moved: seq<bv8>, total: nat)
    decreases |t|, 0
  {
    |moved| <= total &&
    if t == [] then moved == []
    else
      |t| >= 2 && IsStatusRead(t[|t| - 2]) && BurstOf(t[|t| - 2]) > 0 &&
      var last := t[|t| - 1];
      var before := |moved| - |last.data|;
      last.dir == dir && IsFifo(last) && 0 <= before && moved[before..] == last.data &&
      |last.data| == ChunkSize(total - before, BurstOf(t[|t| - 2])) &&
      Polled(t[..|t| - 2], dir, moved[..before], total)
  }

  /** `t` is a run of complete rounds followed by status reads reporting burst
      count 0, and the transfer was not finished when they were issued (the
      first round always starts). */
  ghost predicate Polled(t: seq<RegAccess>, dir: Direction, moved: seq<bv8>, total: nat)
    decreases |t|, 1
  {
    if t != [] && IsStatusRead(t[|t| - 1]) && BurstOf(t[|t| - 1]) == 0 then Polled(t[..|t| - 1], dir, moved, total)
    else Rounds(t, dir, moved, total) && (t == [] || |moved| < total)
  }

  /** A whole bulk transfer of `data`: at least one round, and rounds until every
      byte has been moved. */
  ghost predicate BulkDone(t: seq<RegAccess>, dir: Direction, data: seq<bv8>) {
    t != [] && Rounds(t, dir, data, |data|)
  }

  /** The bytes moved through the FIFO in direction `dir`, in order. */
  function FifoData(t: seq<RegAccess>, dir: Direction): seq<bv8> {
    if t == [] then []
    else FifoData(t[..|t| - 1], dir) + (if t[|t| - 1].dir == dir && IsFifo(t[|t| - 1]) then t[|t| - 1].data else [])
  }

  lemma {:induction false} FifoDataAppend(t: seq<RegAccess>, u: seq<RegAccess>, dir: Direction)
    ensures FifoData(t + u, dir) == FifoData(t, dir) + FifoData(u, dir)
    decreases |u|
  {
    if u == [] {
      assert t + u == t;
    } else {
      var v := u[..|u| - 1];
      assert (t + u)[..|t + u| - 1] == t + v;
      FifoDataAppend(t, v, dir);
    }
  }

  function Other(dir: Direction): Direction {
    if dir == Read then Write else Read
  }

  /** Complete rounds move exactly `moved` through the FIFO in their own direction,
      nothing in the other, and no FIFO access is longer than 64 bytes or, unless
      the transfer is empty, zero bytes long. */
  lemma {:induction false} RoundsMoved(t: seq<RegAccess>, dir: Direction, moved: seq<bv8>, total: nat)
    requires Rounds(t, dir, moved, total)
    ensures FifoData(t, dir) == moved && FifoData(t, Other(dir)) == []
    ensures forall i :: 0 <= i < |t| && IsFifo(t[i]) ==> t[i].dir == dir && |t[i].data| <= 64 && (total > 0 ==> |t[i].data| > 0)
    decreases |t|, 0
  {
    if t != [] {
      var last := t[|t| - 1];
      var before := |moved| - |last.data|;
      var p := t[..|t| - 2];
      PolledMoved(p, dir, moved[..before], total);
      assert t[..|t| - 1] == p + [t[|t| - 2]];
      FifoDataAppend(p, [t[|t| - 2]], dir);
      FifoDataAppend(p, [t[|t| - 2]], Other(dir));
      assert FifoData([t[|t| - 2]], dir) == [];
      assert FifoData([t[|t| - 2]], Other(dir)) == [];
      assert moved == moved[..before] + last.data;
      if total > 0 {
        PolledBefore(p, dir, moved[..before], total);
      }
    }
  }

  lemma {:induction false} PolledMoved(t: seq<RegAccess>, dir: Direction, moved: seq<bv8>, total: nat)
    requires Polled(t, dir, moved, total)
    ensures FifoData(t, dir) == moved && FifoData(t, Other(dir)) == []
    ensures forall i :: 0 <= i < |t| && IsFifo(t[i]) ==> t[i].dir == dir && |t[i].data| <= 64 && (total > 0 ==> |t[i].data| > 0)
    decreases |t|, 1
  {
    if t != [] && IsStatusRead(t[|t| - 1]) && BurstOf(t[|t| - 1]) == 0 {
      var p := t[..|t| - 1];
      PolledMoved(p, dir, moved, total);
      assert t == p + [t[|t| - 1]];
      PollAdds(p, t[|t| - 1], dir, moved, total);
    } else {
      RoundsMoved(t, dir, moved, total);
    }
  }

  /** A status read appended to a run moves nothing through the FIFO. */
  lemma PollAdds(p: seq<RegAccess>, a: RegAccess, dir: Direction, moved: seq<bv8>, total: nat)
    requires FifoData(p, dir) == moved && FifoData(p, Other(dir)) == []
    requires forall i :: 0 <= i < |p| && IsFifo(p[i]) ==> p[i].dir == dir && |p[i].data| <= 64 && (total > 0 ==> |p[i].data| > 0)
    requires IsStatusRead(a)
    ensures FifoData(p + [a], dir) == moved && FifoData(p + [a], Other(dir)) == []
    ensures forall i :: 0 <= i < |p + [a]| && IsFifo((p + [a])[i]) ==>
              (p + [a])[i].dir == dir && |(p + [a])[i].data| <= 64 && (total > 0 ==> |(p + [a])[i].data| > 0)
  {
    FifoDataAppendOne(p, a, dir);
    FifoDataAppendOne(p, a, Other(dir));
  }

  /** Rounds followed by zero polls were issued while bytes remained, or before
      the first round. */
  lemma {:induction false} PolledBefore(t: seq<RegAccess>, dir: Direction, moved: seq<bv8>, total: nat)
    requires Polled(t, dir, moved, total)
    ensures moved == [] || |moved| < total
    decreases |t|
  {
    if t != [] && IsStatusRead(t[|t| - 1]) && BurstOf(t[|t| - 1]) == 0 {
      PolledBefore(t[..|t| - 1], dir, moved, total);
    }
  }

  /** Steps of a bulk transfer, in the order the driver takes them: a round
      starts where the previous one ended, a zero burst count adds a poll, and a
      non-zero one is followed by the chunk it allows. */
  lemma PolledStart(t: seq<RegAccess>, dir: Direction, moved: seq<bv8>, total: nat)
    requires Rounds(t, dir, moved, total) && (t == [] || |moved| < total)
    ensures Polled(t, dir, moved, total)
  {
  }

  lemma PolledMore(t: seq<RegAccess>, polls: seq<RegAccess>, a: RegAccess, dir: Direction, moved: seq<bv8>, total: nat)
    requires Polled(t + polls, dir, moved, total) && IsStatusRead(a) && BurstOf(a) == 0
    ensures Polled(t + (polls + [a]), dir, moved, total)
  {
    assert t + (polls + [a]) == (t + polls) + [a];
    assert (t + polls + [a])[..|t + polls|] == t + polls;
  }

  lemma RoundsMore(t: seq<RegAccess>, polls: seq<RegAccess>, s: RegAccess, dir: Direction, moved: seq<bv8>,
                    chunk: seq<bv8>, total: nat)
    requires Polled(t + polls, dir, moved, total) && IsStatusRead(s) && BurstOf(s) > 0
    requires |moved| <= total && |chunk| == ChunkSize(total - |moved|, BurstOf(s))
    ensures Rounds(t + (polls + [s, RegAccess(dir, TpmDataFifoReg, chunk)]), dir, moved + chunk, total)
  {
    var u := t + (polls + [s, RegAccess(dir, TpmDataFifoReg, chunk)]);
    assert u[..|u| - 2] == t + polls;
    assert (moved + chunk)[|moved|..] == chunk && (moved + chunk)[..|moved|] == moved;
  }

  /** A round whose status read `s` shows burst count 8 extends a run of
      complete rounds. */
  lemma SteadyRound(t: seq<RegAccess>, s: RegAccess, dir: Direction, moved: seq<bv8>, chunk: seq<bv8>, total: nat)
    requires Rounds(t, dir, moved, total) && (t == [] || |moved| < total) && |moved| <= total
    requires IsStatusRead(s) && BurstOf(s) == 8 && |chunk| == ChunkSize(total - |moved|, 8)
    ensures Rounds(t + [s, RegAccess(dir, TpmDataFifoReg, chunk)], dir, moved + chunk, total)
  {
    var none: seq<RegAccess> := [];
    PolledStart(t, dir, moved, total);
    assert t + none == t;
    RoundsMore(t, none, s, dir, moved, chunk, total);
    assert none + [s, RegAccess(dir, TpmDataFifoReg, chunk)] == [s, RegAccess(dir, TpmDataFifoReg, chunk)];
  }

  /** With the burst count steady at 8 (the status read `s`), a 20-byte transfer
      goes out in chunks of 8, 8 and 4 bytes. */
  lemma SteadyBurstChunks(s: RegAccess, dir: Direction, d: seq<bv8>)
    requires IsStatusRead(s) && BurstOf(s) == 8 && |d| == 20
    ensures BulkDone([s, RegAccess(dir, TpmDataFifoReg, d[..8]), s, RegAccess(dir, TpmDataFifoReg, d[8..16]),
                      s, RegAccess(dir, TpmDataFifoReg, d[16..])], dir, d)
  {
    var r1 := [s, RegAccess(dir, TpmDataFifoReg, d[..8])];
    var r2 := r1 + [s, RegAccess(dir, TpmDataFifoReg, d[8..16])];
    var r3 := r2 + [s, RegAccess(dir, TpmDataFifoReg, d[16..])];
    SteadyRound([], s, dir, [], d[..8], 20);
    assert [] + r1 == r1 && [] + d[..8] == d[..8];
    SteadyRound(r1, s, dir, d[..8], d[8..16], 20);
    assert d[..8] + d[8..16] == d[..16];
    SteadyRound(r2, s, dir, d[..16], d[16..], 20);
    assert d[..16] + d[16..] == d;
    assert Rounds(r3, dir, d, 20);
    assert r3 == [s, RegAccess(dir, TpmDataFifoReg, d[..8]), s, RegAccess(dir, TpmDataFifoReg, d[8..16]),
                  s, RegAccess(dir, TpmDataFifoReg, d[16..])];
  }

  /** The status 0x800 reports burst count 8. */
  lemma BurstEight()
    ensures IsStatusRead(StatusRead(0x800)) && BurstOf(StatusRead(0x800)) == 8
  {
    BurstOfStatus(0x800);
  }

  /** Every status read in `t` reported burst count `b`. */
  ghost predicate SteadyBurst(t: seq<RegAccess>, b: nat) {
    forall i :: 0 <= i < |t| && IsStatusRead(t[i]) ==> BurstOf(t[i]) == b
  }

  function Min(x: int, y: int): int {
    if x <= y then x else y
  }

  /** With the burst count steady at 8, complete rounds are two accesses each,
      the k rounds move min(8 * k, total) bytes, and every round but the first
      started while bytes remained. */
  lemma {:induction false} SteadyRounds(t: seq<RegAccess>, dir: Direction, moved: seq<bv8>, total: nat)
    requires Rounds(t, dir, moved, total) && SteadyBurst(t, 8)
    ensures |t| % 2 == 0 && |moved| == Min(4 * |t|, total)
    ensures |t| >= 4 ==> 4 * |t| - 8 < total
    decreases |t|
  {
    if t != [] {
      SteadyLast(t, dir, moved, total, 8);
      SteadyRounds(t[..|t| - 2], dir, moved[..|moved| - |t[|t| - 1].data|], total);
    }
  }

  /** The last round of a steady run, and the run before it. */
  lemma SteadyLast(t: seq<RegAccess>, dir: Direction, moved: seq<bv8>, total: nat, b: nat)
    requires Rounds(t, dir, moved, total) && t != [] && SteadyBurst(t, b) && 0 < b <= 64
    ensures |t| >= 2 && 0 <= |moved| - |t[|t| - 1].data|
    ensures var before := |moved| - |t[|t| - 1].data|;
            var p := t[..|t| - 2];
            t[|t| - 1].data == moved[before..] && |t[|t| - 1].data| == ChunkSize(total - before, b) &&
            Rounds(p, dir, moved[..before], total) && (p == [] || before < total) && SteadyBurst(p, b)
  {
    var p := t[..|t| - 2];
    assert forall i :: 0 <= i < |p| ==> p[i] == t[i];
    if p != [] && IsStatusRead(p[|p| - 1]) {
      assert BurstOf(p[|p| - 1]) == BurstOf(t[|p| - 1]);
    }
  }

  /** With the burst count steady at 8, the last round of a run of k rounds
      starts after min(8 * (k - 1), total) bytes and moves the rest. */
  lemma SteadyPeel(t: seq<RegAccess>, dir: Direction, moved: seq<bv8>, total: nat)
    requires Rounds(t, dir, moved, total) && t != [] && SteadyBurst(t, 8)
    ensures |t| >= 2 && Min(4 * (|t| - 2), total) <= |moved|
    ensures var before := Min(4 * (|t| - 2), total);
            t[|t| - 1].data == moved[before..] &&
            Rounds(t[..|t| - 2], dir, moved[..before], total) && SteadyBurst(t[..|t| - 2], 8)
  {
    SteadyLast(t, dir, moved, total, 8);
    SteadyRounds(t[..|t| - 2], dir, moved[..|moved| - |t[|t| - 1].data|], total);
  }

  /** Conversely, a 20-byte transfer with the burst count steady at 8 is exactly
      three rounds, whose chunks are bytes 0..8, 8..16 and 16..20. */
  lemma SteadyBurstRun(t: seq<RegAccess>, dir: Direction, d: seq<bv8>)
    requires BulkDone(t, dir, d) && |d| == 20 && SteadyBurst(t, 8)
    ensures |t| == 6
    ensures t[1].data == d[..8] && t[3].data == d[8..16] && t[5].data == d[16..]
  {
    SteadyRounds(t, dir, d, 20);
    assert |t| == 6;
    SteadyPeel(t, dir, d, 20);
    var t2, d2 := t[..4], d[..16];
    SteadyPeel(t2, dir, d2, 20);
    var t1, d1 := t2[..2], d2[..8];
    SteadyPeel(t1, dir, d1, 20);
    assert d2[8..] == d[8..16] && d1 == d[..8];
  }

  /** `tp` is a run of status reads none of which showed `expected` under `mask`. */
  predicate Unmatched(tp: seq<RegAccess>, mask: bv32, expected: bv32) {
    forall i :: 0 <= i < |tp| ==> IsStatusRead(tp[i]) && !StatusMatches(StatusOf(tp[i]), mask, expected)
  }

  /** The status reads of a wait that had room for `deadline` polls: on success the
      last poll is the first that matched, on timeout all `deadline` polls failed. */
  predicate WaitTrace(tp: seq<RegAccess>, mask: bv32, expected: bv32, ok: bool, deadline: nat) {
    if ok then
      0 < |tp| <= deadline && Unmatched(tp[..|tp| - 1], mask, expected) &&
      IsStatusRead(tp[|tp| - 1]) && StatusMatches(StatusOf(tp[|tp| - 1]), mask, expected)
    else |tp| == deadline && Unmatched(tp, mask, expected)
  }

  /** A wait succeeds exactly when one of its polls matched, and it never polls
      more often than the deadline allows. */
  lemma WaitOutcome(tp: seq<RegAccess>, mask: bv32, expected: bv32, ok: bool, deadline: nat)
    requires WaitTrace(tp, mask, expected, ok, deadline)
    ensures |tp| <= deadline
    ensures ok <==> exists i :: 0 <= i < |tp| && IsStatusRead(tp[i]) && StatusMatches(StatusOf(tp[i]), mask, expected)
  {
    if ok {
      var i := |tp| - 1;
      assert IsStatusRead(tp[i]) && StatusMatches(StatusOf(tp[i]), mask, expected);
    }
  }

  /** An access pattern with no FIFO access moves no FIFO data. */
  lemma {:induction false} NoFifoData(t: seq<RegAccess>, dir: Direction)
    requires forall i :: 0 <= i < |t| ==> !IsFifo(t[i])
    ensures FifoData(t, dir) == []
    decreases |t|
  {
    if t != [] {
      NoFifoData(t[..|t| - 1], dir);
    }
  }

  // ---------------------------------------------------------------------------
  // Device initialisation

  datatype InitExit = InvalidResetState | LocalityClaimFailed | UnexpectedFamily | Connected

  /** The accesses of one initialisation, ending at `exit`: read DID_VID and ACCESS,
      release the locality and re-read ACCESS, check the reset state, request
      locality 0 and re-read ACCESS, check the claim, read STS and check the
      family, and read RID. */
  ghost predicate InitTrace(t: seq<RegAccess>, exit: InitExit) {
    |t| >= 4 &&
    IsRead(t[0], TpmDidVidReg, 4) && IsRead(t[1], TpmAccessReg, 1) &&
    t[2] == RegAccess(Write, TpmAccessReg, [ActiveLocality]) && IsRead(t[3], TpmAccessReg, 1) &&
    if !ResetStateOk(t[3].data[0]) then exit == InvalidResetState && |t| == 4
    else
      |t| >= 6 && t[4] == RegAccess(Write, TpmAccessReg, [RequestUse]) && IsRead(t[5], TpmAccessReg, 1) &&
      if !LocalityClaimed(t[5].data[0]) then exit == LocalityClaimFailed && |t| == 6
      else
        |t| >= 7 && IsStatusRead(t[6]) &&
        if !IsTpm2(StatusOf(t[6])) then exit == UnexpectedFamily && |t| == 7
        else exit == Connected && |t| == 8 && IsRead(t[7], TpmRidReg, 1)
  }

  /** The four ways an initialisation can end, each with the accesses it makes,
      listed one access after the other. */
  lemma InitTraceReset(d: seq<bv8>, x1: bv8, x3: bv8)
    requires |d| == 4 && !ResetStateOk(x3)
    ensures InitTrace([RegAccess(Read, TpmDidVidReg, d)] + [RegAccess(Read, TpmAccessReg, [x1])] +
                      [RegAccess(Write, TpmAccessReg, [ActiveLocality]), RegAccess(Read, TpmAccessReg, [x3])],
                      InvalidResetState)
  {
  }

  lemma InitTraceClaim(d: seq<bv8>, x1: bv8, x3: bv8, x5: bv8)
    requires |d| == 4 && ResetStateOk(x3) && !LocalityClaimed(x5)
    ensures InitTrace([RegAccess(Read, TpmDidVidReg, d)] + [RegAccess(Read, TpmAccessReg, [x1])] +
                      [RegAccess(Write, TpmAccessReg, [ActiveLocality]), RegAccess(Read, TpmAccessReg, [x3])] +
                      [RegAccess(Write, TpmAccessReg, [RequestUse]), RegAccess(Read, TpmAccessReg, [x5])],
                      LocalityClaimFailed)
  {
  }

  lemma InitTraceFamily(d: seq<bv8>, x1: bv8, x3: bv8, x5: bv8, status: bv32)
    requires |d| == 4 && ResetStateOk(x3) && LocalityClaimed(x5) && !IsTpm2(status)
    ensures InitTrace([RegAccess(Read, TpmDidVidReg, d)] + [RegAccess(Read, TpmAccessReg, [x1])] +
                      [RegAccess(Write, TpmAccessReg, [ActiveLocality]), RegAccess(Read, TpmAccessReg, [x3])] +
                      [RegAccess(Write, TpmAccessReg, [RequestUse]), RegAccess(Read, TpmAccessReg, [x5])] +
                      [StatusRead(status)],
                      UnexpectedFamily)
  {
  }

  lemma InitTraceConnected(d: seq<bv8>, x1: bv8, x3: bv8, x5: bv8, status: bv32, rid: bv8)
    requires |d| == 4 && ResetStateOk(x3) && LocalityClaimed(x5) && IsTpm2(status)
    ensures var t := [RegAccess(Read, TpmDidVidReg, d)] + [RegAccess(Read, TpmAccessReg, [x1])] +
                     [RegAccess(Write, TpmAccessReg, [ActiveLocality]), RegAccess(Read, TpmAccessReg, [x3])] +
                     [RegAccess(Write, TpmAccessReg, [RequestUse]), RegAccess(Read, TpmAccessReg, [x5])] +
                     [StatusRead(status)] + [RegAccess(Read, TpmRidReg, [rid])];
            InitTrace(t, Connected) && InitIdentity(t) == Identity(LittleEndianWord(d), rid)
  {
  }

  /** The identity a successful initialisation caches: DID_VID from its first access
      and RID from its last. */
  ghost function InitIdentity(t: seq<RegAccess>): (info: Tpm2Info)
    requires InitTrace(t, Connected)
    ensures info.revision <= 0xFF && info.revision as bv8 == t[7].data[0]
    ensures ((info.deviceId as bv32) << 16) | info.vendorId as bv32 == LittleEndianWord(t[0].data)
  {
    Identity(LittleEndianWord(t[0].data), t[7].data[0])
  }

  /** The writes among `t`, in order. */
  function Writes(t: seq<RegAccess>): seq<RegAccess> {
    if t == [] then [] else (if t[0].dir == Write then [t[0]] else []) + Writes(t[1..])
  }

  /** Initialisation writes nothing but ACCESS: the release of the locality, which
      it always performs, then the request for locality 0 unless the reset state
      was already wrong. */
  lemma InitWrites(t: seq<RegAccess>, exit: InitExit)
    requires InitTrace(t, exit)
    ensures Writes(t) == if exit == InvalidResetState then [RegAccess(Write, TpmAccessReg, [ActiveLocality])]
                         else [RegAccess(Write, TpmAccessReg, [ActiveLocality]), RegAccess(Write, TpmAccessReg, [RequestUse])]
  {
    var k := |t|;
    assert t[k..] == [];
    if k == 8 { assert Writes(t[7..]) == Writes(t[8..]); }
    if k >= 7 { assert Writes(t[6..]) == Writes(t[7..]); }
    if k >= 6 {
      assert Writes(t[5..]) == Writes(t[6..]);
      assert Writes(t[4..]) == [t[4]] + Writes(t[5..]);
    }
    assert Writes(t[3..]) == Writes(t[4..]);
    assert Writes(t[2..]) == [t[2]] + Writes(t[3..]);
    assert Writes(t[1..]) == Writes(t[2..]);
    assert Writes(t) == Writes(t[1..]);
  }

  /** Initialisation connects only to a device that reported a valid locality-0
      claim and the TPM 2.0 family. */
  lemma InitConnected(t: seq<RegAccess>)
    requires InitTrace(t, Connected)
    ensures t[5].data[0] & (TpmRegValidSts | ActiveLocality) == TpmRegValidSts | ActiveLocality
    ensures Family(StatusOf(t[6])) == TpmFamilyTpm2
  {
  }

  // ---------------------------------------------------------------------------
  // Command processing

  datatype CommandExit =
    | SizeMismatch
    | ResponseTimeout
    | ResponseTooLarge
    | BufferOverrun
    | UnexpectedIntermediateStatus
    | UnexpectedFinalStatus
    | ResponseReceived

  /** The fixed size of a command or response header. */
  const HeaderSize: nat := 6

  /** The number of response bytes read between the header and the last byte:
      the declared length less 1 less the header, in 64-bit unsigned arithmetic. */
  function BytesToGo(declared: nat): (n: nat)
    requires declared < 0x1_0000_0000
    ensures declared >= HeaderSize + 1 ==> n == declared - HeaderSize - 1
    ensures declared < HeaderSize + 1 ==> n >= 0x1_0000_0000_0000_0000 - HeaderSize - 1
    ensures n < 0x1_0000_0000_0000_0000
  {
    var d := declared - 1 - HeaderSize;
    assert d < 0 ==> d % 0x1_0000_0000_0000_0000 == d + 0x1_0000_0000_0000_0000;
    assert d >= 0 ==> d % 0x1_0000_0000_0000_0000 == d;
    d % 0x1_0000_0000_0000_0000
  }

  /** As written, a response header declaring fewer than 7 bytes makes the bulk
      read of the body ask for close to 2^64 bytes, far beyond any response
      buffer the 32-bit length field can describe; a header declaring 6 bytes
      asks for 2^64 - 1. */
  lemma BytesToGoOverrun(declared: nat, bufferLength: nat)
    requires declared < HeaderSize + 1 && bufferLength < 0x1_0000_0000
    ensures HeaderSize + BytesToGo(declared) > bufferLength
    ensures BytesToGo(HeaderSize) == 0xFFFF_FFFF_FFFF_FFFF
  {
    var d := HeaderSize - 1 - HeaderSize;
    assert d % 0x1_0000_0000_0000_0000 == 0xFFFF_FFFF_FFFF_FFFF;
  }

  /** The accesses of one command that passed the size check, with the bulk write
      `tw`, the status polls `tp`, the bulk read `tr` and the intermediate and
      final status words `s1`, `s2` made explicit.  `cmd` is the command and
      `rsp` the response buffer as the command leaves it.  The command goes out
      first (STS <- command ready, the bulk write, STS <- go, the status wait);
      the rest is the response phase. */
  ghost predicate CommandRunWith(t: seq<RegAccess>, cmd: seq<bv8>, rsp: seq<bv8>, maxResponse: nat, deadline: nat,
                                 exit: CommandExit, tw: seq<RegAccess>, tp: seq<RegAccess>, tr: seq<RegAccess>,
                                 s1: bv32, s2: bv32)
  {
    exit != SizeMismatch &&
    BulkDone(tw, Write, cmd) &&
    WaitTrace(tp, ResponseBits, ResponseBits, exit != ResponseTimeout, deadline) &&
    var sent := Sent(tw, tp);
    |sent| <= |t| && t[..|sent|] == sent &&
    var n := if |rsp| >= HeaderSize then DeclaredLength(rsp) as nat else 0;
    ResponsePhase(t[|sent|..], rsp, n, maxResponse, exit, tr, s1, s2)
  }

  /** The accesses that deliver a command and wait for its response. */
  function Sent(tw: seq<RegAccess>, tp: seq<RegAccess>): seq<RegAccess> {
    [StatusWrite(CommandReady)] + tw + [StatusWrite(TpmGo)] + tp
  }

  /** The accesses after the status wait: nothing on a timeout; otherwise the
      6-byte header read, then, if the length n the header declares fits
      `maxResponse` and is at least 7, the response body. */
  ghost predicate ResponsePhase(t: seq<RegAccess>, rsp: seq<bv8>, n: nat, maxResponse: nat, exit: CommandExit,
                                tr: seq<RegAccess>, s1: bv32, s2: bv32)
  {
    maxResponse <= |rsp| &&
    if exit == ResponseTimeout then t == []
    else
      |rsp| >= HeaderSize && |t| >= 1 && t[0] == RegAccess(Read, TpmDataFifoReg, rsp[..HeaderSize]) &&
      if n > maxResponse then exit == ResponseTooLarge && |t| == 1
      else if n < HeaderSize + 1 then exit == BufferOverrun && |t| == 1
      else ResponseBody(t[1..], rsp, n, exit, tr, s1, s2)
  }

  /** The response body of declared length n: the bulk read of bytes 6..n-2, a
      status read that must show data still available, the read of byte n-1, a
      status read that must show the FIFO drained, and STS <- command ready. */
  ghost predicate ResponseBody(t: seq<RegAccess>, rsp: seq<bv8>, n: nat, exit: CommandExit,
                               tr: seq<RegAccess>, s1: bv32, s2: bv32)
    requires HeaderSize + 1 <= n <= |rsp|
  {
    BulkDone(tr, Read, rsp[HeaderSize..n - 1]) &&
    var body := tr + [StatusRead(s1)];
    if !ResponsePending(s1) then exit == UnexpectedIntermediateStatus && t == body
    else
      var tail := body + [RegAccess(Read, TpmDataFifoReg, [rsp[n - 1]]), StatusRead(s2)];
      if !ResponseDrained(s2) then exit == UnexpectedFinalStatus && t == tail
      else exit == ResponseReceived && t == tail + [StatusWrite(CommandReady)]
  }

  ghost predicate CommandRun(t: seq<RegAccess>, cmd: seq<bv8>, rsp: seq<bv8>, maxResponse: nat, deadline: nat,
                             exit: CommandExit)
  {
    exists tw, tp, tr, s1, s2 :: CommandRunWith(t, cmd, rsp, maxResponse, deadline, exit, tw, tp, tr, s1, s2)
  }

  /** How many leading response bytes a command whose response declares length n
      has read through the FIFO when it stops at `exit`: none before the header,
      the header alone when the length is rejected, all but the last byte when the
      intermediate status check fails, and all n bytes after that. */
  function ReadLength(n: nat, exit: CommandExit): (k: nat)
    ensures exit == ResponseReceived ==> k == n
  {
    match exit
    case SizeMismatch => 0
    case ResponseTimeout => 0
    case ResponseTooLarge => HeaderSize
    case BufferOverrun => HeaderSize
    case UnexpectedIntermediateStatus => if n == 0 then 0 else n - 1
    case UnexpectedFinalStatus => n
    case ResponseReceived => n
  }

  /** What goes out before the response is read: the command, through the FIFO,
      and nothing in the other direction. */
  lemma SentFifo(cmd: seq<bv8>, tw: seq<RegAccess>, tp: seq<RegAccess>, ok: bool, deadline: nat)
    requires BulkDone(tw, Write, cmd)
    requires WaitTrace(tp, ResponseBits, ResponseBits, ok, deadline)
    ensures FifoData(Sent(tw, tp), Write) == cmd && FifoData(Sent(tw, tp), Read) == []
  {
    RoundsMoved(tw, Write, cmd, |cmd|);
    forall i | 0 <= i < |tp|
      ensures !IsFifo(tp[i])
    {
      if i < |tp| - 1 {
        assert IsStatusRead(tp[..|tp| - 1][i]);
      }
    }
    SentFifoDir(tw, tp, Write);
    SentFifoDir(tw, tp, Read);
  }

  lemma SentFifoDir(tw: seq<RegAccess>, tp: seq<RegAccess>, dir: Direction)
    requires forall i :: 0 <= i < |tp| ==> !IsFifo(tp[i])
    ensures FifoData(Sent(tw, tp), dir) == FifoData(tw, dir)
  {
    NoFifoData(tp, dir);
    FifoDataAppend([StatusWrite(CommandReady)], tw, dir);
    FifoDataAppendOne([StatusWrite(CommandReady)] + tw, StatusWrite(TpmGo), dir);
    FifoDataAppend([StatusWrite(CommandReady)] + tw + [StatusWrite(TpmGo)], tp, dir);
    FifoDataAppendOne([], StatusWrite(CommandReady), dir);
  }

  lemma FifoDataAppendOne(t: seq<RegAccess>, a: RegAccess, dir: Direction)
    ensures FifoData(t + [a], dir) == FifoData(t, dir) + (if a.dir == dir && IsFifo(a) then a.data else [])
  {
    assert (t + [a])[..|t|] == t;
  }

  /** The response phase reads the first ReadLength(n, exit) response bytes through
      the FIFO and writes nothing through it. */
  lemma ResponsePhaseFifo(t: seq<RegAccess>, rsp: seq<bv8>, n: nat, maxResponse: nat, exit: CommandExit,
                          tr: seq<RegAccess>, s1: bv32, s2: bv32)
    requires ResponsePhase(t, rsp, n, maxResponse, exit, tr, s1, s2) && exit != ResponseTimeout
    ensures |rsp| >= HeaderSize
    ensures exit == UnexpectedIntermediateStatus || exit == UnexpectedFinalStatus || exit == ResponseReceived ==>
              HeaderSize + 1 <= n <= maxResponse <= |rsp|
    ensures ReadLength(n, exit) <= |rsp| && FifoData(t, Read) == rsp[..ReadLength(n, exit)] && FifoData(t, Write) == []
  {
    if HeaderSize + 1 <= n <= maxResponse {
      BodyPhaseFifo(t, rsp, n, maxResponse, exit, tr, s1, s2);
    } else {
      RejectedPhaseFifo(t, rsp, n, maxResponse, exit, tr, s1, s2);
    }
  }

  lemma RejectedPhaseFifo(t: seq<RegAccess>, rsp: seq<bv8>, n: nat, maxResponse: nat, exit: CommandExit,
                          tr: seq<RegAccess>, s1: bv32, s2: bv32)
    requires ResponsePhase(t, rsp, n, maxResponse, exit, tr, s1, s2) && exit != ResponseTimeout
    requires !(HeaderSize + 1 <= n <= maxResponse)
    ensures |rsp| >= HeaderSize && (exit == ResponseTooLarge || exit == BufferOverrun)
    ensures FifoData(t, Read) == rsp[..HeaderSize] && FifoData(t, Write) == []
  {
    assert t[1..] == [];
    HeaderThenRest(t, rsp[..HeaderSize], Read);
    HeaderThenRest(t, rsp[..HeaderSize], Write);
  }

  lemma BodyPhaseFifo(t: seq<RegAccess>, rsp: seq<bv8>, n: nat, maxResponse: nat, exit: CommandExit,
                      tr: seq<RegAccess>, s1: bv32, s2: bv32)
    requires ResponsePhase(t, rsp, n, maxResponse, exit, tr, s1, s2) && exit != ResponseTimeout
    requires HeaderSize + 1 <= n <= maxResponse
    ensures exit == UnexpectedIntermediateStatus || exit == UnexpectedFinalStatus || exit == ResponseReceived
    ensures ReadLength(n, exit) <= |rsp| && FifoData(t, Read) == rsp[..ReadLength(n, exit)] && FifoData(t, Write) == []
  {
    HeaderThenRest(t, rsp[..HeaderSize], Read);
    HeaderThenRest(t, rsp[..HeaderSize], Write);
    ResponseBodyFifo(t[1..], rsp, n, exit, tr, s1, s2);
    BodyReadLength(rsp, n, exit);
  }

  /** The FIFO data of a trace that starts with the header read. */
  lemma HeaderThenRest(t: seq<RegAccess>, header: seq<bv8>, dir: Direction)
    requires |t| >= 1 && t[0] == RegAccess(Read, TpmDataFifoReg, header)
    ensures FifoData(t, dir) == FifoData([t[0]], dir) + FifoData(t[1..], dir)
    ensures FifoData([t[0]], dir) == if dir == Read then header else []
  {
    assert t == [t[0]] + t[1..];
    FifoDataAppend([t[0]], t[1..], dir);
    FifoDataAppendOne([], t[0], dir);
    assert [] + [t[0]] == [t[0]];
  }

  /** The header and the body bytes together are the first ReadLength(n, exit)
      bytes. */
  lemma BodyReadLength(rsp: seq<bv8>, n: nat, exit: CommandExit)
    requires HeaderSize + 1 <= n <= |rsp|
    requires exit == UnexpectedIntermediateStatus || exit == UnexpectedFinalStatus || exit == ResponseReceived
    ensures rsp[..HeaderSize] + (rsp[HeaderSize..n - 1] + (if exit == UnexpectedIntermediateStatus then [] else [rsp[n - 1]]))
            == rsp[..ReadLength(n, exit)]
  {
    PrefixJoin(rsp, HeaderSize, n);
    if exit == UnexpectedIntermediateStatus {
      assert rsp[HeaderSize..n - 1] + [] == rsp[HeaderSize..n - 1];
    }
  }

  /** A prefix of `s` split at `h` and before its last byte. */
  lemma PrefixJoin(s: seq<bv8>, h: nat, n: nat)
    requires h < n <= |s|
    ensures s[..h] + s[h..n - 1] == s[..n - 1]
    ensures s[..h] + (s[h..n - 1] + [s[n - 1]]) == s[..n]
  {
    assert s[..h] + (s[h..n - 1] + [s[n - 1]]) == (s[..h] + s[h..n - 1]) + [s[n - 1]];
  }

  /** The response body reads bytes 6..n-2 and, unless the intermediate status
      check fails, byte n-1; it writes nothing through the FIFO. */
  lemma ResponseBodyFifo(t: seq<RegAccess>, rsp: seq<bv8>, n: nat, exit: CommandExit,
                         tr: seq<RegAccess>, s1: bv32, s2: bv32)
    requires HeaderSize + 1 <= n <= |rsp|
    requires ResponseBody(t, rsp, n, exit, tr, s1, s2)
    ensures exit == UnexpectedIntermediateStatus || exit == UnexpectedFinalStatus || exit == ResponseReceived
    ensures FifoData(t, Read) == rsp[HeaderSize..n - 1] + (if exit == UnexpectedIntermediateStatus then [] else [rsp[n - 1]])
    ensures FifoData(t, Write) == []
  {
    RoundsMoved(tr, Read, rsp[HeaderSize..n - 1], n - 1 - HeaderSize);
    ResponseBodyDir(t, rsp, n, exit, tr, s1, s2, Read);
    ResponseBodyDir(t, rsp, n, exit, tr, s1, s2, Write);
  }

  /** What the response body moves in one direction, given what its bulk read
      moves. */
  lemma ResponseBodyDir(t: seq<RegAccess>, rsp: seq<bv8>, n: nat, exit: CommandExit,
                        tr: seq<RegAccess>, s1: bv32, s2: bv32, dir: Direction)
    requires HeaderSize + 1 <= n <= |rsp|
    requires ResponseBody(t, rsp, n, exit, tr, s1, s2)
    ensures FifoData(t, dir) == FifoData(tr, dir) +
              (if dir == Read && exit != UnexpectedIntermediateStatus then [rsp[n - 1]] else [])
  {
    var body := tr + [StatusRead(s1)];
    var last := RegAccess(Read, TpmDataFifoReg, [rsp[n - 1]]);
    var tail := body + [last, StatusRead(s2)];
    assert tail == body + [last] + [StatusRead(s2)];
    FifoDataAppendOne(tr, StatusRead(s1), dir);
    if ResponsePending(s1) {
      FifoDataAppendOne(body, last, dir);
      FifoDataAppendOne(body + [last], StatusRead(s2), dir);
      if ResponseDrained(s2) {
        FifoDataAppendOne(tail, StatusWrite(CommandReady), dir);
      }
    }
  }

  /** Whatever its exit, a command that passed the size check writes exactly the
      command through the FIFO, and reads nothing through it when the response
      never came. */
  lemma CommandWrites(t: seq<RegAccess>, cmd: seq<bv8>, rsp: seq<bv8>, maxResponse: nat, deadline: nat, exit: CommandExit)
    requires CommandRun(t, cmd, rsp, maxResponse, deadline, exit)
    ensures exit != SizeMismatch && FifoData(t, Write) == cmd
    ensures exit == ResponseTimeout ==> FifoData(t, Read) == []
  {
    var tw, tp, tr, s1, s2 :| CommandRunWith(t, cmd, rsp, maxResponse, deadline, exit, tw, tp, tr, s1, s2);
    var rest := t[|Sent(tw, tp)|..];
    CommandSplit(t, cmd, rsp, maxResponse, deadline, exit, tw, tp, tr, s1, s2);
    if exit == ResponseTimeout {
      NoFifoData(rest, Read);
    } else {
      ResponsePhaseFifo(rest, rsp, DeclaredLength(rsp) as nat, maxResponse, exit, tr, s1, s2);
    }
  }

  /** Once the TPM has answered, a command reads exactly the first
      ReadLength(n, exit) bytes of the response buffer through the FIFO, n being
      the length the response header declares; a response whose body was read
      has a length between 7 and `maxResponse`. */
  lemma CommandReads(t: seq<RegAccess>, cmd: seq<bv8>, rsp: seq<bv8>, maxResponse: nat, deadline: nat, exit: CommandExit)
    requires CommandRun(t, cmd, rsp, maxResponse, deadline, exit) && exit != ResponseTimeout
    ensures |rsp| >= HeaderSize
    ensures exit == UnexpectedIntermediateStatus || exit == UnexpectedFinalStatus || exit == ResponseReceived ==>
              HeaderSize + 1 <= DeclaredLength(rsp) as nat <= maxResponse <= |rsp|
    ensures ReadLength(DeclaredLength(rsp) as nat, exit) <= |rsp| &&
            FifoData(t, Read) == rsp[..ReadLength(DeclaredLength(rsp) as nat, exit)]
  {
    var tw, tp, tr, s1, s2 :| CommandRunWith(t, cmd, rsp, maxResponse, deadline, exit, tw, tp, tr, s1, s2);
    var rest := t[|Sent(tw, tp)|..];
    CommandSplit(t, cmd, rsp, maxResponse, deadline, exit, tw, tp, tr, s1, s2);
    ResponsePhaseFifo(rest, rsp, DeclaredLength(rsp) as nat, maxResponse, exit, tr, s1, s2);
  }

  /** A command run splits into the command delivery, which carries all FIFO
      writes, and the response phase, which carries all FIFO reads. */
  lemma CommandSplit(t: seq<RegAccess>, cmd: seq<bv8>, rsp: seq<bv8>, maxResponse: nat, deadline: nat,
                     exit: CommandExit, tw: seq<RegAccess>, tp: seq<RegAccess>, tr: seq<RegAccess>, s1: bv32, s2: bv32)
    requires CommandRunWith(t, cmd, rsp, maxResponse, deadline, exit, tw, tp, tr, s1, s2)
    ensures |Sent(tw, tp)| <= |t| && FifoData(t, Read) == FifoData(t[|Sent(tw, tp)|..], Read)
    ensures FifoData(t, Write) == cmd + FifoData(t[|Sent(tw, tp)|..], Write)
    ensures exit == ResponseTimeout ==> t[|Sent(tw, tp)|..] == []
  {
    SentFifo(cmd, tw, tp, exit != ResponseTimeout, deadline);
    PrefixFifo(t, |Sent(tw, tp)|);
  }

  /** What a trace moves through the FIFO is what its first `k` accesses move
      followed by what the rest move. */
  lemma PrefixFifo(t: seq<RegAccess>, k: nat)
    requires k <= |t|
    ensures FifoData(t, Read) == FifoData(t[..k], Read) + FifoData(t[k..], Read)
    ensures FifoData(t, Write) == FifoData(t[..k], Write) + FifoData(t[k..], Write)
  {
    SplitFifo(t, k, Read);
    SplitFifo(t, k, Write);
  }

  lemma SplitFifo(t: seq<RegAccess>, k: nat, dir: Direction)
    requires k <= |t|
    ensures FifoData(t, dir) == FifoData(t[..k], dir) + FifoData(t[k..], dir)
  {
    var a, b := t[..k], t[k..];
    assert a + b == t;
    FifoDataAppend(a, b, dir);
  }

  /** The header read followed by a response body is a response phase. */
  lemma PhaseOfBody(t: seq<RegAccess>, rsp: seq<bv8>, n: nat, maxResponse: nat, exit: CommandExit,
                    body: seq<RegAccess>, tr: seq<RegAccess>, s1: bv32, s2: bv32)
    requires HeaderSize + 1 <= n <= maxResponse <= |rsp|
    requires t == [RegAccess(Read, TpmDataFifoReg, rsp[..HeaderSize])] + body
    requires ResponseBody(body, rsp, n, exit, tr, s1, s2)
    ensures ResponsePhase(t, rsp, n, maxResponse, exit, tr, s1, s2)
  {
    assert t[1..] == body;
  }

  /** A wait for the response that times out ends the command run right there. */
  lemma TimeoutRun(cmd: seq<bv8>, rsp: seq<bv8>, maxResponse: nat, deadline: nat, tw: seq<RegAccess>, tp: seq<RegAccess>)
    requires BulkDone(tw, Write, cmd) && WaitTrace(tp, ResponseBits, ResponseBits, false, deadline)
    requires HeaderSize <= |rsp| && maxResponse <= |rsp|
    ensures CommandRun(Sent(tw, tp), cmd, rsp, maxResponse, deadline, ResponseTimeout)
  {
    assert Sent(tw, tp) + [] == Sent(tw, tp);
    RunOfPhases(Sent(tw, tp), cmd, rsp, maxResponse, deadline, ResponseTimeout, tw, tp, [], [], 0, 0);
  }

  /** A command run is the delivery of the command followed by a response phase. */
  lemma RunOfPhases(t: seq<RegAccess>, cmd: seq<bv8>, rsp: seq<bv8>, maxResponse: nat, deadline: nat,
                    exit: CommandExit, tw: seq<RegAccess>, tp: seq<RegAccess>, rest: seq<RegAccess>,
                    tr: seq<RegAccess>, s1: bv32, s2: bv32)
    requires exit != SizeMismatch && BulkDone(tw, Write, cmd)
    requires WaitTrace(tp, ResponseBits, ResponseBits, exit != ResponseTimeout, deadline)
    requires t == Sent(tw, tp) + rest
    requires HeaderSize <= |rsp| && ResponsePhase(rest, rsp, DeclaredLength(rsp) as nat, maxResponse, exit, tr, s1, s2)
    ensures CommandRun(t, cmd, rsp, maxResponse, deadline, exit)
  {
    var sent := Sent(tw, tp);
    assert t[..|sent|] == sent && t[|sent|..] == rest;
    assert CommandRunWith(t, cmd, rsp, maxResponse, deadline, exit, tw, tp, tr, s1, s2);
  }
}
