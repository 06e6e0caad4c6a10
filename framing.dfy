/** The fixed 40-byte outbound frame that `wr` assembles around a 35-byte payload:
    marker 0xFF, the payload, the elapsed milliseconds (16 bits, little-endian), the
    packet index (8 bits) and an XOR checksum over everything before it. */
module Framing {
  import opened Bytes
  import opened Outcomes
  import opened Payloads

  const FrameSize := 40
  const Marker: byte := 0xFF

  /** The elapsed-time field of `int((ds.total_seconds() * 1e3) % 65536)`, taken on the
      exact whole number of elapsed milliseconds: the elapsed time wrapped to 16 bits. Python's `%` with a positive divisor, like Dafny's,
      never yields a negative value, so a clock that went backwards still wraps into range. */
  function ElapsedField(ms: int): (e: int)
    ensures 0 <= e < 0x1_0000
    ensures (ms - e) % 0x1_0000 == 0
  {
    ms % 0x1_0000
  }

  /** `(_packet_index % 256).to_bytes(1, 'little')`: the packet index wrapped to 8 bits. */
  function SequenceByte(index: nat): (b: byte)
    ensures b as int == index % 256
  {
    ByteOfInt(index % 256);
    (index % 256) as byte
  }

  /** `pkt_pre + parity`: the frame `wr` writes for `payload`, `elapsedMs` milliseconds after
      the handshake, as packet number `index`. */
  function Frame(payload: seq<byte>, elapsedMs: int, index: nat): (f: seq<byte>)
    requires |payload| == PayloadSize
    ensures |f| == FrameSize
  {
    var pre := [Marker] + payload + LittleEndian16(ElapsedField(elapsedMs)) + [SequenceByte(index)];
    pre + [Parity(pre)]
  }

  /** The frame layout: marker, the payload unchanged, the wrapped elapsed time little-endian,
      the wrapped packet index, and the XOR of the 39 bytes before the checksum. */
  lemma FrameLayout(payload: seq<byte>, elapsedMs: int, index: nat)
    requires |payload| == PayloadSize
    ensures var f := Frame(payload, elapsedMs, index);
      && f[0] == Marker
      && f[1..36] == payload
      && Uint16(f[36], f[37]) == ElapsedField(elapsedMs)
      && f[38] as int == index % 256
      && f[39] == Parity(f[..39])
  {
    var pre := [Marker] + payload + LittleEndian16(ElapsedField(elapsedMs)) + [SequenceByte(index)];
    assert (pre + [Parity(pre)])[..39] == pre;
  }

  /** The fields a receiver reads out of an outbound frame. */
  datatype Fields = Fields(payload: seq<byte>, elapsed: int, sequence: byte)

  /** Reference reading of the frame layout: the fields of a well-formed frame (right size,
      marker first, XOR of all bytes zero), and `None` for anything else. */
  function ParseFrame(f: seq<byte>): Option<Fields>
  {
    if |f| == FrameSize && f[0] == Marker && Parity(f) == 0 then
      Some(Fields(f[1..36], Uint16(f[36], f[37]), f[38]))
    else
      None
  }

  /** Because the checksum is the XOR of the 39 bytes before it, the XOR of all 40 bytes is 0. */
  lemma FrameParityZero(payload: seq<byte>, elapsedMs: int, index: nat)
    requires |payload| == PayloadSize
    ensures Parity(Frame(payload, elapsedMs, index)) == 0
  {
    var f := Frame(payload, elapsedMs, index);
    FrameLayout(payload, elapsedMs, index);
    assert f == f[..39] + [Parity(f[..39])];
    ParitySealed(f[..39]);
  }

  /** Every frame `wr` builds is well formed and gives back exactly the payload, the wrapped
      elapsed time and the wrapped packet index that went into it. */
  lemma FrameRoundTrip(payload: seq<byte>, elapsedMs: int, index: nat)
    requires |payload| == PayloadSize
    ensures ParseFrame(Frame(payload, elapsedMs, index))
            == Some(Fields(payload, ElapsedField(elapsedMs), SequenceByte(index)))
  {
    var f := Frame(payload, elapsedMs, index);
    FrameLayout(payload, elapsedMs, index);
    FrameParityZero(payload, elapsedMs, index);
    ByteInjective(f[38], SequenceByte(index));
  }

  /** Any single corrupted byte of a frame makes it fail the checksum. */
  lemma FrameDetectsOneBadByte(payload: seq<byte>, elapsedMs: int, index: nat, k: nat, d: byte)
    requires |payload| == PayloadSize && k < FrameSize && d != 0
    ensures ParseFrame(Frame(payload, elapsedMs, index)[k := Frame(payload, elapsedMs, index)[k] ^ d]) == None
  {
    var f := Frame(payload, elapsedMs, index);
    FrameParityZero(payload, elapsedMs, index);
    ParityDetectsOneByte(f, k, d);
  }

  /** Two frames carrying the same payload agree on their first 36 bytes, and differ at all
      only through the elapsed time, the packet index and the checksum recomputed from them. */
  lemma FramesDifferOnlyInStamp(payload: seq<byte>, ms1: int, i1: nat, ms2: int, i2: nat)
    requires |payload| == PayloadSize
    ensures Frame(payload, ms1, i1)[..36] == Frame(payload, ms2, i2)[..36]
    ensures ElapsedField(ms1) == ElapsedField(ms2) && i1 % 256 == i2 % 256
            ==> Frame(payload, ms1, i1) == Frame(payload, ms2, i2)
  {
    var f1, f2 := Frame(payload, ms1, i1), Frame(payload, ms2, i2);
    FrameLayout(payload, ms1, i1);
    FrameLayout(payload, ms2, i2);
    assert f1[..36] == [Marker] + payload == f2[..36];
    if ElapsedField(ms1) == ElapsedField(ms2) && i1 % 256 == i2 % 256 {
      Uint16OfSame(f1[36], f1[37], f2[36], f2[37]);
      ByteInjective(f1[38], f2[38]);
      assert f1[..39] == f2[..39];
    }
  }
}
