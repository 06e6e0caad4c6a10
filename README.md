# OMHacker serial framing, modelled in Dafny

`test.py` drives a motor controller over a serial link. The controller speaks a reverse-engineered binary protocol, and the model covers its framing layer:

- **`calc_parity`**: the XOR of a byte sequence.
- **The `OMHacker` session**:
  - `connect` performs the 0x06 → 0x86 handshake and records the time origin;
  - `wr` wraps a 35-byte payload into a 40-byte frame, which carries a marker, the elapsed milliseconds, the packet index and a checksum;
  - `set_op_number` and `set_speed` build two parameterised command payloads and send them with `wr`.

Modules:

- `Outcomes` (`outcomes.dfy`): the error conditions and the `Option`/`Result`/`Outcome` wrappers.
- `Bytes` (`bytes.dfy`):
  - bytes are `bv8`;
  - `Parity` is `calc_parity` as a left-to-right XOR fold, checked against the right fold `XorAll`;
  - 16-bit little-endian fields are handled by `LittleEndian16`, with `Uint16` reading them back.
- `Payloads` (`payloads.dfy`): the `set_op_number` and `set_speed` payloads as functions, with their byte layouts, their decoders and their inner checksums.
- `Framing` (`framing.dfy`): the frame `wr` builds, with a reference reading `ParseFrame` of the layout.
- `Session` (`session.dfy`): class `OMHacker`, with fields `packetIndex`, `start` and `connected`.
  - A ghost log `written` records every buffer written to the port.
  - The clock reading (`now`, in milliseconds) and the bytes read back (`reply`) are parameters of the methods.

## Model

| member | source | states |
|---|---|---|
| Bytes.ParityIsXorAll | test.py:13-14 | numpy's left-to-right XOR reduce equals the right-fold XOR of all bytes (0 for no bytes, a case `calc_parity` never receives) |
| Bytes.XorFromIsXorAll | test.py:13-14 | reducing from any accumulator gives that accumulator XOR all the bytes |
| Bytes.ParityAppend | test.py:13-14 | the parity of a concatenation is the XOR of the parts' parities |
| Bytes.ParitySealed | test.py:48-49 | appending a sequence's parity to it makes the parity of the whole 0 |
| Bytes.ParityPermutation | test.py:13-14 | any rearrangement of the bytes has the same parity |
| Bytes.ParityDetectsOneByte | test.py:13-14 | XOR-ing one byte with `d` changes the parity by exactly `d` |
| Bytes.XorAllPermutation | test.py:13-14 | the right-fold XOR depends only on the multiset of bytes |
| Bytes.LittleEndian16 | test.py:44 | `to_bytes(2, 'little')` gives 2 bytes, low byte `n % 256` then high byte `n / 256`, and reading them back gives `n` |
| Bytes.Uint16OfSame | test.py:44 | two byte pairs with the same 16-bit value are equal |
| Framing.ElapsedField | test.py:43 | the elapsed field lies in 0..65535 and is congruent to the elapsed milliseconds modulo 65536 |
| Framing.SequenceByte | test.py:45 | the index byte is the packet index modulo 256 |
| Framing.Frame | test.py:41-49 | every frame is exactly 40 bytes |
| Framing.FrameLayout | test.py:43-49 | layout: byte 0 is 0xFF, bytes 1..35 are the payload unchanged, bytes 36..37 hold the elapsed time mod 65536 little-endian, byte 38 is the index mod 256, byte 39 is the XOR of bytes 0..38 |
| Framing.FrameParityZero | test.py:47-49 | the XOR of all 40 bytes of a frame is 0 |
| Framing.FrameRoundTrip | test.py:41-49 | every frame parses back to exactly the payload, the wrapped elapsed time and the wrapped index that went into it |
| Framing.FrameDetectsOneBadByte | test.py:47-49 | a frame with any one byte corrupted fails the parse |
| Framing.FramesDifferOnlyInStamp | test.py:47-49 | frames for the same payload share their first 36 bytes, and are equal when the wrapped time and wrapped index agree |
| Payloads.OpNumberWordValue | test.py:58 | `((0b110 << 4) + num) << 5` is `(0x60 + num) * 32`, which fits in 16 bits |
| Payloads.OpNumberMarkValue | test.py:59 | `mark_1` is `((num + 4) % 8) * 32 + 5 - num / 8`, which fits in one byte |
| Payloads.OpNumberPayload | test.py:56-61 | a payload exists exactly when `0 <= num < 16`, and it is 35 bytes long |
| Payloads.OpNumberPayloadLayout | test.py:58-61 | bytes 0..6 are `03 00 01 0a 00 86 01`, bytes 7..8 are the control word little-endian, bytes 9..11 are `04 00 00`, byte 12 is `mark_1`, bytes 13..34 are 0 |
| Payloads.OpNumberRoundTrip | test.py:58-60 | the profile number decodes back from bytes 7..8 |
| Payloads.OpNumberMarkIsXor | test.py:58-59 | `mark_1` equals 0x89 XOR both bytes of the control word, for every profile number |
| Payloads.OpNumberSpanParity | test.py:60-61 | the XOR of bytes 3..11 of such a payload is 0x89 XOR its control-word bytes |
| Payloads.OpNumberFieldsChecksum | test.py:58-61 | a payload laid out so, with byte 12 equal to 0x89 XOR the control-word bytes, has byte 12 equal to the XOR of bytes 3..11 |
| Payloads.OpNumberInnerChecksum | test.py:56-61 | `mark_1` is the XOR of payload bytes 3..11, the inner checksum `set_speed` computes explicitly |
| Payloads.SpeedPayload | test.py:64-70 | a payload exists exactly when `50 <= speed <= 3000`, and it is 35 bytes long |
| Payloads.SpeedPayloadLayout | test.py:66-70 | bytes 0..8 are `03 00 01 0c 00 81 00 c4 01`, bytes 9..10 are the speed little-endian, bytes 11..13 are 0, byte 14 is the XOR of bytes 3..13, bytes 15..34 are 0 |
| Payloads.SpeedRoundTrip | test.py:66-67 | the speed decodes back from bytes 9..10 |
| Payloads.InnerChecksumCancels | test.py:69-70 | XOR-ing from byte 3 through the inner checksum gives 0 |
| Session.FramesWrittenAppend | test.py:24-25 | a write extends the frame log by that buffer exactly when it is 40 bytes |
| Session.OMHacker.constructor | test.py:18-22 | a new session is disconnected, has no time origin, has sent no packets and has written nothing |
| Session.OMHacker.Connect | test.py:30-36 | writes 0x06 first; succeeds exactly when the byte read back is 0x86, and then records `now` as the time origin; an empty read and any other byte fail, leaving the connected flag and the time origin as they were; the packet counter is unchanged |
| Session.OMHacker.Wr | test.py:38-54 | succeeds exactly when connected and given 35 bytes; on success it appends the one frame for (payload, `now` − origin, old index), advances the index by 1 and returns the reply; a failure (NotConnected / InvalidPayloadLength) writes nothing and changes nothing; the invariant that the k-th frame written parses and carries k mod 256 is kept |
| Session.OMHacker.SetOpNumber | test.py:56-62 | `OutOfRange`, with nothing changed, unless `0 <= num < 16`; otherwise exactly what `wr` does with `OpNumberPayload(num)` |
| Session.OMHacker.SetSpeed | test.py:64-72 | `OutOfRange`, with nothing changed, unless `50 <= speed <= 3000`; otherwise exactly what `wr` does with `SpeedPayload(speed)` |

## Left out

- Serial port construction and the transport: `serial.Serial(...)`, `__w` and `__r` (test.py:19, 24-28). Writes go to a ghost log. The bytes a read returns are a parameter, at most as long as the read asks for.
- The clock: `datetime.now(tz=JST)` becomes the parameter `now`, in whole milliseconds.
  - Sub-millisecond float time in `total_seconds()*1e3` is not modelled.
- Framing.ElapsedField: the model's field is the exact elapsed milliseconds modulo 65536. The source computes it from a floating-point product (test.py:43). That product can fall just below the whole number, and `int()` then truncates it to one less. For example, 1001 ms becomes `1.001*1e3`, which is `1000.9999999999999`, so the source writes 1000. Double rounding is not modelled.
- Bytes.Parity: for an empty input the model returns 0. In the source, `np.bitwise_xor.reduce([])` raises a TypeError, because numpy makes the empty list a float array, which `bitwise_xor` does not accept. The source never reaches this case: it calls `calc_parity` only on 39 bytes (test.py:48) and 11 bytes (test.py:69).
- Session.OMHacker.Connect: a failed read (timeout or I/O error) is modelled as the `NoReply` error, including the `IndexError` an empty read raises at test.py:33. The Python exception type is not modelled.
- Session.OMHacker.Connect: calling `connect` again after a success re-runs the handshake and resets the time origin. A failed call leaves `connected` as it was, which is `true` after an earlier success (test.py:30-36).
- Assertion failures and exceptions are modelled as `Failure`/`Fail` results. The methods return normally, as a caller catching the exception would see it.
- The `print(rep(data))` in `set_speed` (test.py:71) and `rep` itself (test.py:74-75), because they only print.
- Decoding of the 40-byte reply `wr` returns (test.py:54). It is passed through unchanged; no decoder exists in `test.py`.
- `main` (test.py:77-112) and the command constants `MOVE_FWD`, `MOVE_BKW`, `STATUS`, `INIT_CMD` and `STOP`. om_comm.py, which defines them, is not part of this model.
- ble2_agent.py, ble2_client.py and the `ble2` module they call are not part of this model. They are framework and command-line glue around a driver whose source is not shown.
