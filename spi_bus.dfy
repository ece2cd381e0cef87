/** The SPI controller the driver talks through (the `spi_claim_bus`,
    `spi_release_bus` and `spi_xfer` callbacks), together with a scripted slave.
    The slave is the finite sequence of bytes it puts on MISO during read
    transfers; once the script is used up the line is undriven and reads as 0xFF. */
module SpiBus {
  import opened SpiFrame

  /** What happens on the wire: chip select asserted or released, or one transfer
      with the bytes sent and the bytes received. */
  datatype WireEvent = CsAssert | CsDeassert | Xfer(dout: seq<bv8>, din: seq<bv8>)

  /** `n` bytes of an undriven, pulled-up MISO line. */
  function Idle(n: nat): (r: seq<bv8>)
    ensures |r| == n
  {
    if n == 0 then [] else Idle(n - 1) + [0xFF]
  }

  lemma {:induction false} IdleAt(n: nat, i: nat)
    requires i < n
    ensures Idle(n)[i] == 0xFF
  {
    if i < n - 1 {
      IdleAt(n - 1, i);
    }
  }

  /** The first `n` bytes the slave sends when its remaining script is `script`. */
  function Stream(script: seq<bv8>, n: nat): (r: seq<bv8>)
    ensures |r| == n
  {
    if n <= |script| then script[..n] else script + Idle(n - |script|)
  }

  /** Byte `i` of the stream is byte `i` of the script while there is one, and
      0xFF after it. */
  lemma StreamAt(script: seq<bv8>, n: nat, i: nat)
    requires i < n
    ensures Stream(script, n)[i] == if i < |script| then script[i] else 0xFF
  {
    if n > |script| && i >= |script| {
      IdleAt(n - |script|, i - |script|);
    }
  }

  /** The script left after the slave has sent `n` bytes. */
  function Drop(script: seq<bv8>, n: nat): (r: seq<bv8>)
    ensures |r| == if n <= |script| then |script| - n else 0
  {
    if n <= |script| then script[n..] else []
  }

  /** Sending `n` and then `m` bytes sends the same bytes as sending `n + m`. */
  lemma StreamSplit(script: seq<bv8>, n: nat, m: nat)
    ensures Stream(script, n + m) == Stream(script, n) + Stream(Drop(script, n), m)
  {
    var whole, left, right := Stream(script, n + m), Stream(script, n), Stream(Drop(script, n), m);
    forall i | 0 <= i < n + m
      ensures whole[i] == (left + right)[i]
    {
      StreamAt(script, n + m, i);
      if i >= n {
        assert (left + right)[i] == right[i - n];
        StreamAt(Drop(script, n), m, i - n);
      } else {
        StreamAt(script, n, i);
      }
    }
  }

  lemma DropDrop(script: seq<bv8>, n: nat, m: nat)
    ensures Drop(Drop(script, n), m) == Drop(script, n + m)
  {
  }

  /** One single-byte read transfer per polled byte. */
  function Polls(bytes: seq<bv8>): (w: seq<WireEvent>)
    ensures |w| == |bytes|
  {
    if bytes == [] then [] else Polls(bytes[..|bytes| - 1]) + [Xfer([], [bytes[|bytes| - 1]])]
  }

  lemma {:induction false} PollsAt(bytes: seq<bv8>, i: nat)
    requires i < |bytes|
    ensures Polls(bytes)[i] == Xfer([], [bytes[i]])
  {
    if i < |bytes| - 1 {
      PollsAt(bytes[..|bytes| - 1], i);
    }
  }

  lemma PollsAppend(bytes: seq<bv8>, b: bv8)
    ensures Polls(bytes + [b]) == Polls(bytes) + [Xfer([], [b])]
  {
    assert (bytes + [b])[..|bytes|] == bytes;
  }

  /** The wire image of one register transaction: chip select, the frame header,
      the flow-control polls, the data transfer, chip select released. */
  function RegisterWire(header: seq<bv8>, polled: seq<bv8>, dout: seq<bv8>, din: seq<bv8>): (w: seq<WireEvent>)
    ensures |w| == |polled| + 4
  {
    [CsAssert, Xfer(header, [])] + Polls(polled) + [Xfer(dout, din), CsDeassert]
  }

  /** The wire image opens with chip select and the header, then one single-byte
      transfer per polled byte, then the data transfer, and closes with chip
      select released. */
  lemma RegisterWireShape(header: seq<bv8>, polled: seq<bv8>, dout: seq<bv8>, din: seq<bv8>)
    ensures var w := RegisterWire(header, polled, dout, din);
            w[0] == CsAssert && w[1] == Xfer(header, []) && w[|w| - 2] == Xfer(dout, din) &&
            w[|w| - 1] == CsDeassert &&
            forall i :: 2 <= i < |w| - 2 ==> w[i] == Xfer([], [polled[i - 2]])
  {
    var w := RegisterWire(header, polled, dout, din);
    forall i | 2 <= i < |w| - 2
      ensures w[i] == Xfer([], [polled[i - 2]])
    {
      PollsAt(polled, i - 2);
    }
  }

  /** The bytes the master polls after a header: it stops at the first ready byte,
      and an exhausted script ends the stall. */
  function PollLength(script: seq<bv8>): (k: nat)
    ensures 1 <= k
  {
    StallLength(script) + 1
  }

  /** The polled bytes are stall bytes except the last one, which is ready. */
  lemma PolledEndsReady(script: seq<bv8>)
    ensures var p := Stream(script, PollLength(script));
            Ready(p[|p| - 1]) && forall i :: 0 <= i < |p| - 1 ==> !Ready(p[i])
  {
    var p := Stream(script, PollLength(script));
    var s := StallLength(script);
    StallPrefix(script);
    StreamAt(script, |p|, s);
    forall i | 0 <= i < |p| - 1
      ensures !Ready(p[i])
    {
      StreamAt(script, |p|, i);
    }
  }

  /** The byte polled after `k` stall bytes is ready exactly when the stall is
      over. */
  lemma PollStep(script: seq<bv8>, k: nat)
    requires k <= StallLength(script)
    ensures Ready(Stream(Drop(script, k), 1)[0]) <==> k == StallLength(script)
  {
    StallPrefix(script);
    StreamAt(Drop(script, k), 1, 0);
  }

  class Bus {
    /** The bytes the slave has still to send. */
    var miso: seq<bv8>
    /** Everything that has happened on the wire so far. */
    ghost var wire: seq<WireEvent>

    constructor(script: seq<bv8>)
      ensures miso == script && wire == []
    {
      miso := script;
      wire := [];
    }

    /** `spi_claim_bus`: assert chip select. */
    method ClaimBus()
      modifies this
      ensures miso == old(miso) && wire == old(wire) + [CsAssert]
    {
      wire := wire + [CsAssert];
    }

    /** `spi_release_bus`: release chip select. */
    method ReleaseBus()
      modifies this
      ensures miso == old(miso) && wire == old(wire) + [CsDeassert]
    {
      wire := wire + [CsDeassert];
    }

    /** `spi_xfer`: send `dout`, then receive `nIn` bytes from the slave. */
    method Transfer(dout: seq<bv8>, nIn: nat) returns (din: seq<bv8>)
      modifies this
      ensures din == Stream(old(miso), nIn)
      ensures miso == Drop(old(miso), nIn)
      ensures wire == old(wire) + [Xfer(dout, din)]
    {
      din := Stream(miso, nIn);
      miso := Drop(miso, nIn);
      wire := wire + [Xfer(dout, din)];
    }
  }
}
