/** The `OMHacker` session: whether the handshake has completed, the time it completed,
    and the packet counter stamped into every outbound frame. The serial transport is
    modelled by a ghost log of everything written to it; what it reads back is passed in. */
module Session {
  import opened Bytes
  import opened Outcomes
  import opened Payloads
  import opened Framing

  /** The single byte `connect` writes to open the session. */
  const HandshakeRequest: byte := 0x06
  /** The only reply byte that `connect` accepts. */
  const HandshakeAck: byte := 0x86

  /** The frames among a log of transport writes: every write of frame size, in order
      (the only other write is the one-byte handshake request). */
  ghost function FramesWritten(log: seq<seq<byte>>): seq<seq<byte>>
  {
    if |log| == 0 then []
    else FramesWritten(log[..|log| - 1]) + (if |log[|log| - 1]| == FrameSize then [log[|log| - 1]] else [])
  }

  lemma FramesWrittenAppend(log: seq<seq<byte>>, w: seq<byte>)
    ensures FramesWritten(log + [w]) == FramesWritten(log) + (if |w| == FrameSize then [w] else [])
  {
    assert (log + [w])[..|log|] == log;
  }

  class OMHacker {
    /** `_packet_index`: the number of frames sent so far. */
    var packetIndex: nat
    /** `_start_dt`: the clock reading, in milliseconds, at which the handshake succeeded. */
    var start: Option<int>
    /** `_connected` */
    var connected: bool
    /** Every buffer written to the serial port, in order. */
    ghost var written: seq<seq<byte>>

    /** The session invariant: the time origin is recorded exactly when the session is
        connected, the packet counter counts the frames written, and the k-th frame written
        is well formed and carries k modulo 256 as its packet index. */
    ghost predicate Valid()
      reads this
    {
      && connected == start.Some?
      && |FramesWritten(written)| == packetIndex
      && forall k | 0 <= k < packetIndex ::
           && ParseFrame(FramesWritten(written)[k]).Some?
           && ParseFrame(FramesWritten(written)[k]).value.sequence == SequenceByte(k)
    }

    /** `__init__`, without opening the serial port: not connected, no time origin, no packets. */
    constructor ()
      ensures Valid()
      ensures !connected && start == None && packetIndex == 0 && written == []
    {
      packetIndex := 0;
      start := None;
      connected := false;
      written := [];
    }

    /** `connect`: writes 0x06, then accepts the session only if the byte read back is 0x86,
        recording `now` as its time origin. An empty read (a timeout) and any other byte fail
        and leave the connected flag and the time origin as they were. */
    method Connect(reply: seq<byte>, now: int) returns (r: Outcome)
      requires Valid()
      requires |reply| <= 1
      modifies this
      ensures Valid()
      ensures written == old(written) + [[HandshakeRequest]]
      ensures packetIndex == old(packetIndex)
      ensures r.Pass? <==> |reply| == 1 && reply[0] == HandshakeAck
      ensures r == Fail(NoReply) <==> |reply| == 0
      ensures r == Fail(HandshakeRejected) <==> |reply| == 1 && reply[0] != HandshakeAck
      ensures r.Pass? ==> connected && start == Some(now)
      ensures r.Fail? ==> connected == old(connected) && start == old(start)
    {
      written := written + [[HandshakeRequest]];
      FramesWrittenAppend(old(written), [HandshakeRequest]);
      if |reply| == 0 {
        return Fail(NoReply);
      }
      if reply[0] != HandshakeAck {
        return Fail(HandshakeRejected);
      }
      connected := true;
      start := Some(now);
      r := Pass;
    }

    /** What one call of `wr` with `data` did, between the state before and after it: on a
        connected session and a 35-byte payload it wrote exactly one frame, stamped with the
        milliseconds elapsed since the handshake and the old packet index, advanced the index
        by one and returned what the port read back; either failed check left everything
        unchanged. The connected flag and the time origin never change. */
    twostate predicate Sent(data: seq<byte>, now: int, reply: seq<byte>, new r: Result<seq<byte>>)
      reads this
    {
      && connected == old(connected) && start == old(start)
      && (r.Success? <==> old(connected) && |data| == PayloadSize)
      && (!old(connected) ==> r == Failure(NotConnected))
      && (old(connected) && |data| != PayloadSize ==> r == Failure(InvalidPayloadLength))
      && (r.Failure? ==> written == old(written) && packetIndex == old(packetIndex))
      && (r.Success? ==>
            && start.Some? && |data| == PayloadSize
            && written == old(written) + [Frame(data, now - start.value, old(packetIndex))]
            && packetIndex == old(packetIndex) + 1
            && r.value == reply)
    }

    /** `wr`: sends one 35-byte payload as a frame on a connected session. */
    method Wr(data: seq<byte>, now: int, reply: seq<byte>) returns (r: Result<seq<byte>>)
      requires Valid()
      requires |reply| <= FrameSize
      modifies this
      ensures Valid()
      ensures Sent(data, now, reply, r)
    {
      if !connected {
        return Failure(NotConnected);
      }
      if |data| != PayloadSize {
        return Failure(InvalidPayloadLength);
      }
      var frame := Frame(data, now - start.value, packetIndex);
      written := written + [frame];
      FramesWrittenAppend(old(written), frame);
      FrameRoundTrip(data, now - start.value, packetIndex);
      packetIndex := packetIndex + 1;
      r := Success(reply);
    }

    /** `set_op_number`: selects operation profile `num`, which must lie in 0..15, by sending
        its payload with `wr`. An out-of-range number fails before anything is written. */
    method SetOpNumber(num: int, now: int, reply: seq<byte>) returns (r: Result<seq<byte>>)
      requires Valid()
      requires |reply| <= FrameSize
      modifies this
      ensures Valid()
      ensures !(0 <= num < 16) ==> r == Failure(OutOfRange) && unchanged(this)
      ensures 0 <= num < 16 ==> Sent(OpNumberPayload(num).value, now, reply, r)
    {
      var payload := OpNumberPayload(num);
      if payload.Failure? {
        return Failure(OutOfRange);
      }
      r := Wr(payload.value, now, reply);
    }

    /** `set_speed`: sets the speed to `speed` rpm, which must lie in 50..3000, by sending its
        payload with `wr`. An out-of-range speed fails before anything is written. */
    method SetSpeed(speed: int, now: int, reply: seq<byte>) returns (r: Result<seq<byte>>)
      requires Valid()
      requires |reply| <= FrameSize
      modifies this
      ensures Valid()
      ensures !(50 <= speed <= 3000) ==> r == Failure(OutOfRange) && unchanged(this)
      ensures 50 <= speed <= 3000 ==> Sent(SpeedPayload(speed).value, now, reply, r)
    {
      var payload := SpeedPayload(speed);
      if payload.Failure? {
        return Failure(OutOfRange);
      }
      r := Wr(payload.value, now, reply);
    }
  }
}
