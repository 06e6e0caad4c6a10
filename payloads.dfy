/** The 35-byte command payloads built by `set_op_number` and `set_speed`. */
module Payloads {
  import opened Bytes
  import opened Outcomes

  /** Every payload handed to the frame encoder is exactly this long. */
  const PayloadSize := 35

  const OpNumberHeader: seq<byte> := [0x03, 0x00, 0x01, 0x0a, 0x00, 0x86, 0x01]
  const OpNumberMiddle: seq<byte> := [0x04, 0x00, 0x00]
  const SpeedHeader: seq<byte> := [0x03, 0x00, 0x01, 0x0c, 0x00, 0x81, 0x00, 0xc4, 0x01]

  /** Both encoders keep a local checksum: the byte at `at` is the XOR of the bytes from 3 up to `at`. */
  ghost predicate InnerChecksumAt(p: seq<byte>, at: nat)
  {
    3 <= at < |p| && p[at] == Parity(p[3..at])
  }

  /** `bytearray([0] * n)` */
  function Zeros(n: nat): (r: seq<byte>)
    ensures |r| == n && forall k | 0 <= k < n :: r[k] == 0
  {
    seq(n, _ => 0)
  }

  /** `mark_0`: the profile number shifted into a 16-bit control word, `((0b110 << 4) + num) << 5`. */
  function OpNumberWord(num: int): bv16
    requires 0 <= num < 16
  {
    ((0x6 << 4) + num as bv16) << 5
  }

  /** `mark_1`: `(((num + 4) % 8) << 5) + (5 - int(num / 8))`. For the non-negative `num`
      admitted here, `int` of the quotient is division rounded down. */
  function OpNumberMark(num: int): byte
    requires 0 <= num < 16
  {
    var n := num as byte;
    (((n + 4) % 8) << 5) + (5 - n / 8)
  }

  /** The control word computed on 16 bits is the unbounded integer the source computes:
      nothing is lost, so `to_bytes(2, 'little')` accepts it. */
  lemma OpNumberWordValue(num: int)
    requires 0 <= num < 16
    ensures OpNumberWord(num) as int == (0x60 + num) * 32 < 0x1_0000
  {
  }

  /** `mark_1` computed on 8 bits is the unbounded integer the source computes, so it fits in a byte. */
  lemma OpNumberMarkValue(num: int)
    requires 0 <= num < 16
    ensures OpNumberMark(num) as int == ((num + 4) % 8) * 32 + (5 - num / 8) < 0x100
  {
  }

  /** `set_op_number`'s payload; a profile number outside 0..15 fails its assertion. */
  function OpNumberPayload(num: int): (r: Result<seq<byte>>)
    ensures r.Success? <==> 0 <= num < 16
    ensures r.Success? ==> |r.value| == PayloadSize
  {
    if 0 <= num < 16 then
      Success(OpNumberHeader + LittleEndian16(OpNumberWord(num) as int) + OpNumberMiddle
              + [OpNumberMark(num)] + Zeros(22))
    else
      Failure(OutOfRange)
  }

  /** The layout of `set_op_number`'s payload: the fixed header, the control word
      little-endian at bytes 7..8, three fixed bytes, `mark_1` at byte 12, then zeros. */
  lemma OpNumberPayloadLayout(num: int)
    requires 0 <= num < 16
    ensures var p := OpNumberPayload(num).value;
      && p[..7] == OpNumberHeader
      && Uint16(p[7], p[8]) == OpNumberWord(num) as int
      && p[9..12] == OpNumberMiddle
      && p[12] == OpNumberMark(num)
      && forall k | 13 <= k < PayloadSize :: p[k] == 0
  {
  }

  /** Reads the profile number back out of the control word at bytes 7..8. */
  function OpNumberOf(p: seq<byte>): int
    requires |p| >= 9
  {
    Uint16(p[7], p[8]) / 32 - 0x60
  }

  /** The control word carries the profile number: decoding the payload recovers it,
      so distinct profile numbers give distinct payloads. */
  lemma OpNumberRoundTrip(num: int)
    requires 0 <= num < 16
    ensures OpNumberPayload(num).Success? && OpNumberOf(OpNumberPayload(num).value) == num
  {
    OpNumberPayloadLayout(num);
    OpNumberWordValue(num);
  }

  /** On bytes: `mark_1` is 0x89 XOR the two bytes of the control word, for every profile number. */
  lemma OpNumberMarkIsXor(num: int)
    requires 0 <= num < 16
    ensures OpNumberMark(num) == 0x89 ^ (OpNumberWord(num) & 0xFF) as byte ^ (OpNumberWord(num) >> 8) as byte
  {
  }

  /** The parity of bytes 3..11 of a profile-selection payload, in terms of its control word. */
  lemma OpNumberSpanParity(p: seq<byte>)
    requires |p| == PayloadSize && p[..7] == OpNumberHeader && p[9..12] == OpNumberMiddle
    ensures Parity(p[3..12]) == 0x89 ^ p[7] ^ p[8]
  {
    var head: seq<byte>, word, tail: seq<byte> := [0x0a, 0x00, 0x86, 0x01], [p[7], p[8]], [0x04, 0x00, 0x00];
    assert p[3..12] == head + word + tail;
    assert Parity(head) == 0x8d;
    assert Parity(tail) == 0x04;
    assert Parity(word) == p[7] ^ p[8] by {
      ParityAppend([p[7]], [p[8]]);
      ParitySingle(p[7]);
      ParitySingle(p[8]);
      assert word == [p[7]] + [p[8]];
    }
    ParityAppend(head, word);
    ParityAppend(head + word, tail);
  }

  /** A payload laid out like `set_op_number`'s whose byte 12 is 0x89 XOR the bytes of
      its control word carries a valid inner checksum at byte 12. */
  lemma OpNumberFieldsChecksum(p: seq<byte>, w: bv16)
    requires |p| == PayloadSize && p[..7] == OpNumberHeader && p[9..12] == OpNumberMiddle
    requires Uint16(p[7], p[8]) == w as int
    requires p[12] == 0x89 ^ (w & 0xFF) as byte ^ (w >> 8) as byte
    ensures InnerChecksumAt(p, 12)
  {
    OpNumberSpanParity(p);
    Uint16OfWord(p[7], p[8], w);
  }

  /** The hand-computed `mark_1` byte is the payload's inner checksum: it equals the XOR
      of bytes 3..11, the same scheme `set_speed` applies with `calc_parity`. */
  lemma OpNumberInnerChecksum(num: int)
    requires 0 <= num < 16
    ensures OpNumberPayload(num).Success? && InnerChecksumAt(OpNumberPayload(num).value, 12)
  {
    OpNumberPayloadLayout(num);
    OpNumberMarkIsXor(num);
    OpNumberFieldsChecksum(OpNumberPayload(num).value, OpNumberWord(num));
  }

  /** `set_speed`'s payload; a speed outside 50..3000 rpm fails its assertion. */
  function SpeedPayload(speed: int): (r: Result<seq<byte>>)
    ensures r.Success? <==> 50 <= speed <= 3000
    ensures r.Success? ==> |r.value| == PayloadSize
  {
    if 50 <= speed <= 3000 then
      var data := SpeedHeader + LittleEndian16(speed) + Zeros(3);
      Success(data + [Parity(data[3..])] + Zeros(20))
    else
      Failure(OutOfRange)
  }

  /** The layout of `set_speed`'s payload: the fixed header, the speed little-endian at
      bytes 9..10, three zeros, the inner checksum at byte 14, then zeros. */
  lemma SpeedPayloadLayout(speed: int)
    requires 50 <= speed <= 3000
    ensures var p := SpeedPayload(speed).value;
      && p[..9] == SpeedHeader
      && Uint16(p[9], p[10]) == speed
      && p[11] == p[12] == p[13] == 0
      && InnerChecksumAt(p, 14)
      && forall k | 15 <= k < PayloadSize :: p[k] == 0
  {
    var p := SpeedPayload(speed).value;
    var data := SpeedHeader + LittleEndian16(speed) + Zeros(3);
    assert p == data + [Parity(data[3..])] + Zeros(20);
    assert p[..14] == data;
    assert p[9..11] == LittleEndian16(speed);
  }

  /** Reads the speed back out of bytes 9..10. */
  function SpeedOf(p: seq<byte>): int
    requires |p| >= 11
  {
    Uint16(p[9], p[10])
  }

  /** The speed is carried little-endian at bytes 9..10 and decodes back unchanged. */
  lemma SpeedRoundTrip(speed: int)
    requires 50 <= speed <= 3000
    ensures SpeedPayload(speed).Success? && SpeedOf(SpeedPayload(speed).value) == speed
  {
    SpeedPayloadLayout(speed);
  }

  /** A receiver that checks an inner checksum by XOR-ing bytes 3 up to and including it
      gets zero for both payloads. */
  lemma InnerChecksumCancels(p: seq<byte>, at: nat)
    requires InnerChecksumAt(p, at)
    ensures Parity(p[3..at + 1]) == 0
  {
    assert p[3..at + 1] == p[3..at] + [Parity(p[3..at])];
    ParitySealed(p[3..at]);
  }
}
