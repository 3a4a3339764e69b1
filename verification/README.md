# socket-deli framing, modelled in Dafny

socket-deli wraps Node sockets so that a stream of bytes carries whole
messages. The sender turns each message into a **frame**:

- the ten magic bytes `0 1 1 2 3 5 8 13 21 34` (the first Fibonacci numbers);
- the payload length as a six-byte little-endian field;
- the CRC-32 of the payload, also as a six-byte little-endian field;
- the payload itself.

So the header is 22 bytes. On every data event the receiver does three things:

1. It appends the chunk to a per-socket buffer.
2. It looks at the front of the buffer and handles at most one frame.
3. It emits a `message` event for that frame's payload, but only if the checksum matches.

The model keeps only this framing core, written as pure functions over byte
sequences. It has these modules:

- `Bytes` covers the six-byte little-endian fields, with both round trips.
- `Crc32` covers the reflected CRC-32 of IEEE 802.3 (section 3.2.9). It uses polynomial `0xEDB88320` and a 256-entry table. It holds the table-building loops and the checksum loop as methods, each proved equal to a functional definition.
- `Framing` covers the constants, frame construction (`Frame` and `Encode`), header parsing and the frame layout.
- `Reassembly` covers one data event as `Step(buffer, chunk)`, which returns the new buffer and an optional payload. `Feed` folds `Step` over a sequence of data events.
- `AsWritten` covers the receiver exactly as it is written, with the two slips listed under Findings.

`Reassembly.Step` models what the receiver evidently intends, on two points:

- A header whose magic matches is decoded.
- Decoding waits until all `22 + length` bytes have arrived.

The code as written does neither (index.js:142, index.js:144). `AsWritten.Step` models that code faithfully, and the Findings section pairs each slip with its correction. Everything else in `Reassembly.Step` follows the code:

- one frame per data event;
- on a bad header, the whole buffer is discarded;
- a frame is consumed whether or not its checksum matches;
- a checksum mismatch is dropped silently.

The receiver does not drain several frames per data event, does not scan forward for the next magic header after a bad one, and does not report checksum mismatches or discarded bytes; the model follows the code. Buffer bytes are integers from 0 to 255 (`Bytes.byte`); the CRC register reads each as eight bits (`Crc32.Octets`). The values JavaScript keeps as signed 32-bit integers during the CRC are modelled as their `bv32` bit patterns, on which `>>>`, `^` and `&` agree. The number `crc32` returns is `Crc32.Checksum`, an unsigned value below 2^32.

## Model

| member | source | states |
|---|---|---|
| Bytes.ReadLE | index.js:143 | a field of n bytes read little-endian holds a value below 256^n |
| Bytes.WriteLE | index.js:126 | the n-byte little-endian encoding of a value below 256^n is n bytes long |
| Bytes.ReadWrite | index.js:126 | reading back a six-byte (any width) little-endian field yields the value that was written |
| Bytes.WriteRead | index.js:145 | writing back the value read from a field reproduces the field's bytes, so the encoding is canonical |
| Bytes.HighBytesZero | index.js:128 | a value below 256^k written into an n-byte field leaves bytes k..n-1 zero |
| Crc32.MakeCrcTable | index.js:161-173 | the table has 256 entries; entry n is n put through eight shift-and-conditional-xor rounds with 0xEDB88320; the loops build exactly the immutable table |
| Crc32.ComputeCrc32 | index.js:176-183 | the loop of crc32 (start with all ones, per byte shift by 8 and xor the table entry at the low byte of crc xor byte, finally invert) returns the table-driven CRC-32 of the buffer |
| Crc32.Checksum | index.js:182 | the checksum is an unsigned value below 2^32 |
| Crc32.UpdateAppend | index.js:179-181 | the CRC register can be fed in pieces: feeding a then b equals feeding a + b |
| Crc32.FiveZeros | index.js:176-183 | the CRC-32 of five zero bytes is 0xC622F71D, so it is not zero |
| Crc32.CheckValue | index.js:176-183 | the CRC-32 of the ASCII digits "123456789" is 0xCBF43926, the standard check value of this CRC |
| Framing.FieldLimitIsFieldRange | index.js:6-9 | the size-and-checksum part of the header is two six-byte fields, a six-byte field holds values below 2^48, and the magic is ten bytes long |
| Framing.Frame | index.js:124 | a frame is exactly 22 bytes longer than its payload |
| Framing.Encode | index.js:123-129 | building a frame fails, with PayloadTooLarge, exactly when the payload length does not fit the six-byte field; otherwise the result is the frame of the payload, 22 + n bytes ending in the payload |
| Framing.FrameLayout | index.js:125-129 | bytes 0..9 of a frame are the magic, bytes 10..15 read back as the payload length, bytes 16..21 read back as the payload's checksum with bytes 20 and 21 zero, and bytes 22.. are the payload |
| Framing.ParseHeader | index.js:141-145 | a header is accepted exactly when its first ten bytes are the magic; both fields then fit six bytes, and each field's bytes are the canonical encoding of the value read |
| Framing.ParseFrame | index.js:143-145 | the header at the front of a frame, whatever follows it, reads back as the payload length and checksum the sender wrote |
| Framing.FrameUnique | index.js:123-129 | no frame is a proper prefix of another: a stream that starts with a frame determines the frame and what follows it |
| Reassembly.Step | index.js:134-159 | the new buffer is always a suffix of old buffer + chunk; an emitted message is the payload of a complete frame at the front whose magic, length and checksum all match, and exactly that frame is consumed |
| Reassembly.ShortBufferWaits | index.js:140-141 | with fewer than 22 bytes buffered nothing is emitted and the buffer is old buffer + chunk |
| Reassembly.BadHeaderClears | index.js:156-157 | with 22 or more bytes and no magic at the front nothing is emitted and the buffer becomes empty |
| Reassembly.IncompleteFrameWaits | index.js:144 | with a valid header but fewer than 22 + length bytes nothing is emitted and every byte is kept |
| Reassembly.CompleteFrameConsumed | index.js:143-153 | with a complete frame exactly 22 + length bytes are removed from the front whether or not the checksum matches, and the payload is emitted if and only if its checksum equals the stored one |
| Reassembly.WideChecksumNeverMatches | index.js:145-149 | a stored checksum of 2^32 or more never matches, so its frame is never emitted |
| Reassembly.OneFramePerStep | index.js:141-153 | a frame followed by anything on an empty buffer emits the frame's payload and keeps exactly the bytes after it |
| Reassembly.RoundTrip | index.js:123-153 | the frame of p received on an empty buffer emits p and leaves the buffer empty |
| Reassembly.BackToBackFrames | index.js:134-159 | two frames in one chunk: the first payload is emitted at once, the second frame stays buffered and is emitted at the next data event |
| Reassembly.FramePrefixWaits | index.js:141-144 | any proper prefix of a frame is kept whole and emits nothing |
| Reassembly.Feed | index.js:134-159 | a sequence of data events emits at most one message per event |
| Reassembly.FeedNothing | index.js:137-141 | data events bringing no bytes leave an empty buffer empty and emit nothing |
| Reassembly.SplitDelivery | index.js:134-159 | however a frame is split into chunks, feeding them to a fresh receiver emits its payload exactly once and leaves the buffer empty |
| AsWritten.Step | index.js:134-159 | the receiver as written keeps a suffix of its input and emits only for buffers whose first ten bytes are NOT the magic |
| AsWritten.DiscardsEveryFrame | index.js:142 | as written, a well-formed frame and everything after it are discarded with nothing emitted |
| AsWritten.ConsumesIncompleteFrame | index.js:144-151 | as written, a header without the magic announcing five payload bytes is consumed before any of them arrive: the buffer is emptied and nothing is emitted, because the five zero bytes checksummed in their place do not match the stored zero |
| AsWritten.DecodesForeignHeader | index.js:142-151 | as written, 22 zero bytes carry no magic yet are decoded and emitted as an empty message |

## Left out

- The socket and server wrappers, with their delegation, getters, connect, listen, timeouts and keep-alive (index.js:12-114, index.js:185-246). They are thin layers over Node's `net` module, which is not part of this model.
- `writeJsonMessage` / `writeMessage` (index.js:116-121). They only serialise with `JSON.stringify`, a foreign library, before framing.
- The actual socket write and the debug logging (index.js:130-131, index.js:150). Framing returns the bytes that would be written.
- The `message` event (index.js:151). It is returned as `Some(payload)` instead.
- The lazily initialised global table (index.js:171, index.js:175). The table is an immutable value, `Crc32.Table`. `ComputeCrc32` builds it on every call, which yields the same table.
- Crc32.Step: the table-driven step is not proved equal to feeding the eight bits of the byte through `Round` one at a time. The model states the table's contents and the check value instead.
- Single-byte-corruption detection by the CRC is not stated. Both this property and the one above rest on the linearity of the CRC over bit-vectors, which the solver could not establish within the resource limits.
- Framing.Encode: the allocation of the frame buffer (index.js:124), which Node refuses once 22 + n exceeds its maximum Buffer length (about 2^31 to 2^32 bytes, depending on the release), is not modelled; `Encode` fails only at the six-byte field limit of 2^48.
- AsWritten.Step: in the truncated-copy path, Node's allocation limits for `new Buffer(length)` with a huge announced length are not modelled. Neither is the uninitialised memory of old Node versions. The missing bytes are modelled as zeros, as a fresh Buffer is filled on current Node.
- Integer width in JavaScript: `readUIntLE` and `writeUIntLE` on six bytes are exact in double precision, so unbounded `nat` fields are faithful below 2^48.

## Findings

| source | as written | input that shows it | evidently intended | confidence | as-written member | corrected member |
|---|---|---|---|---|---|---|
| index.js:142 | the result of `Buffer.compare`, which is 0 when the magic matches, is used as the "header is valid" condition, so a matching magic takes the discard branch | the frame of any payload, e.g. the 22-byte frame of the empty payload, on an empty buffer | decode when the first ten bytes equal the magic, discard the buffer otherwise | high (by reading; not executed) | AsWritten.DiscardsEveryFrame | Reassembly.RoundTrip |
| index.js:144 | `currentLength => messageLen` is an arrow function, always truthy, so decoding never waits (and the intended comparison leaves out the 22 header bytes) | a 22-byte header whose first ten bytes are NOT the magic (only such a header reaches the guard as written), announcing 5 payload bytes with none received: the buffer is emptied and 5 zero bytes are checksummed as the payload | decode only when the buffer holds at least 22 + length bytes, otherwise keep every byte and wait | high (by reading; not executed) | AsWritten.ConsumesIncompleteFrame | Reassembly.IncompleteFrameWaits |
