# GSR bracelet frame decoder, modelled in Dafny

The bracelet streams 19-byte frames over a serial link. Each frame holds a start
marker `0xFA`, a big-endian 16-bit GSR reading, three big-endian 16-bit gyroscope
axes, six reserved bytes, a heart-rate byte, one more reserved byte, an 8-bit
additive checksum over bytes 1..16, and an end marker `0xAF`. The recorder reads
whatever bytes are waiting, appends them to a buffer and, while the buffer holds
at least 19 bytes, works on its front:

- if both markers are in place, it decodes the first 19 bytes, emits a sample if
  the checksum holds, and drops those 19 bytes;
- otherwise it drops one byte.

This project models two pieces of `ScriptPython-Read-GSR-HR-Gyro.py`:

- `packet.dfy` (module `Packet`) models the decoder `parse_sensor_packet` as pure
  functions. It adds an encoder that is proved to be its inverse.
- `stream.dfy` (module `Stream`) models the buffer loop of `record_sensor`. The
  loop itself is the `Feed` method of the class `PacketStream`, which owns the
  buffer. `Drain` is the specification function that `Feed` is proved against.
  `Record` feeds a list of reads through one `PacketStream`. The lemmas state
  suffix, ordering, resynchronisation and chunking properties.

The decoder is given the 19-byte window the loop cuts out. It rechecks the
length and both markers, and then the checksum.

**A valid frame can hide inside a rejected window.** When a window's markers match
but its checksum fails, the loop still drops all 19 bytes, because
`buffer = buffer[19:]` (line 139) sits under the marker test and not under
`if result:`. A valid frame that starts inside that window is therefore lost.
`Stream.HiddenFrameIsLost` exhibits one such stream.

## Model

| member | source | states |
|---|---|---|
| `Packet.Sum` | ScriptPython-Read-GSR-HR-Gyro.py:22 | the byte sum used by the checksum is at most 255 per byte, so for bytes 1..16 it fits in 16 bits |
| `Packet.BigEndian16` | ScriptPython-Read-GSR-HR-Gyro.py:25-28 | `hi << 8` or-ed with `lo` is a 16-bit value whose high byte is `hi` and whose low byte is `lo` |
| `Packet.ParseSensorPacket` | ScriptPython-Read-GSR-HR-Gyro.py:19-30 | a sample comes back exactly when the length is 19, byte 0 is `0xFA`, the last byte is `0xAF` and (sum of bytes 1..16) mod 256 equals byte 17; if so, gsr, gyro x/y/z are `256*b[i]+b[i+1]` for i = 1, 3, 5, 7 and hr is byte 15 (the types bound them to 0..65535 and 0..255) |
| `Packet.Encode` | ScriptPython-Read-GSR-HR-Gyro.py:20-29 | the frame built for a sample has length 19, the two markers, and the given reserved bytes at offsets 9..14 and 16 |
| `Packet.ParseEncode` | ScriptPython-Read-GSR-HR-Gyro.py:20-29 | decoding the frame built for any sample, with any reserved bytes, gives that sample back |
| `Packet.EncodeParse` | ScriptPython-Read-GSR-HR-Gyro.py:20-29 | every frame the decoder accepts is exactly the frame built from its decoded sample and its own reserved bytes, so no other frame is accepted |
| `Packet.SumUpdate` | ScriptPython-Read-GSR-HR-Gyro.py:22 | changing one byte changes the sum by the difference between the new and the old value |
| `Packet.ChangedPayloadByteRejected` | ScriptPython-Read-GSR-HR-Gyro.py:22-24 | changing any one byte at offsets 1..16 of a valid frame, without updating byte 17, makes the decoder return None |
| `Packet.ReservedByteChange` | ScriptPython-Read-GSR-HR-Gyro.py:22-29 | a reserved byte (offsets 9..14, 16) affects validity: changing it alone makes the frame invalid. It does not affect the fields: changing it and restoring the checksum decodes to the same sample |
| `Stream.Step` | ScriptPython-Read-GSR-HR-Gyro.py:128-141 | one turn of the loop removes 19 bytes when both markers match, whether or not the checksum holds, and exactly 1 byte otherwise. What remains is the untouched rest of the buffer. A sample comes out exactly when the markers match and the decoder accepts the first 19 bytes, and it is that decoded sample |
| `Stream.Drain` | ScriptPython-Read-GSR-HR-Gyro.py:127-141 | running the loop to its end (it terminates) leaves fewer than 19 bytes, and each emitted sample accounts for 19 removed bytes |
| `Stream.DrainRestIsSuffix` | ScriptPython-Read-GSR-HR-Gyro.py:127-141 | the bytes left by the loop are a suffix of its input: bytes are only removed from the front, never reordered |
| `Stream.DrainAppend` | ScriptPython-Read-GSR-HR-Gyro.py:126-141 | draining `x + b` gives what draining `x` gives, followed by what draining the leftover of `x` plus `b` gives: the split between reads does not change the output |
| `Stream.DrainHistory` | ScriptPython-Read-GSR-HR-Gyro.py:126-141 | if the history so far drained to the samples emitted and the current buffer, then the history plus a new read drains to those samples followed by this read's samples |
| `Stream.PacketStream.constructor` | ScriptPython-Read-GSR-HR-Gyro.py:122 | the buffer starts empty, with nothing received and nothing emitted |
| `Stream.PacketStream.Feed` | ScriptPython-Read-GSR-HR-Gyro.py:126-141 | appending a read and running the loop returns the samples of draining the old buffer plus the read, in order, and keeps the leftover (fewer than 19 bytes) as the new buffer. It keeps the invariant that all emitted samples are what draining every received byte at once gives |
| `Stream.Record` | ScriptPython-Read-GSR-HR-Gyro.py:122-141 | feeding reads one after another, from an empty buffer, emits exactly the samples of draining their concatenation and keeps the same leftover, however the stream was split into reads |
| `Stream.DrainWindows` | ScriptPython-Read-GSR-HR-Gyro.py:127-139 | every emitted sample is the decoding of its own 19-byte window of the input. The windows lie in the consumed part, do not overlap, and follow the order of the samples |
| `Stream.SkipGarbage` | ScriptPython-Read-GSR-HR-Gyro.py:127-128 | leading bytes at whose positions the two markers never line up are discarded one at a time, and, when at least 19 bytes follow them, the output is as if they had never arrived |
| `Stream.ResyncAfterGarbage` | ScriptPython-Read-GSR-HR-Gyro.py:127-141 | garbage followed by one valid frame yields exactly that frame's sample and an empty buffer, provided no garbage position lines up a false pair of markers |
| `Stream.DrainFrames` | ScriptPython-Read-GSR-HR-Gyro.py:127-139 | valid frames sent back to back give one sample each, in order, with nothing left over |
| `Stream.HiddenFrameIsLost` | ScriptPython-Read-GSR-HR-Gyro.py:128-139 | there is a stream with a valid frame at offset 1 in which the window at offset 0 has both markers but a bad checksum. The loop drops that window whole and emits nothing, so the valid frame is lost |

## Left out

- The timestamp `datetime.datetime.now()` in the decoder's result is not modelled: a `Sample` holds only the five numeric fields, because the clock is not a function of the bytes.
- The serial port (opening it, `ser.read(ser.in_waiting or 1)`, closing it) is not modelled. Each read is a parameter: the `newBytes` of `Feed`, or one element of the `chunks` of `Record`.
- The stop event, the worker thread, the pause between reads and the `except` that ends the session are not modelled. `Record` feeds a finite list of reads, and its `leftover` is the partial frame that is dropped when recording stops.
- CSV writing, the file that rotates every 60 seconds, folder creation, the chart, the `hr_data`/`gsr_data` histories and the Tk widgets are not modelled. They only consume the emitted samples.
- The bitwise operators are not modelled. The shift-and-or of `BigEndian16` is written as `hi * 256 + lo`, and the `& 0xFF` of the checksum as `% 256`. The shift-and-or equals `hi * 256 + lo` for bytes, and `& 0xFF` equals `% 256` for every non-negative integer.
- Bytes are integers 0..255, as Python's `bytes` indexing yields. `Sum` returns an unbounded integer with no wrap-around, as Python's `sum` does.
