# RC car ground station: command bus, video fragmentation, NTP server

This project models the three protocol components of the RC car ground station (a Python
desktop application) and proves properties about them in Dafny.

- **Command bus** (`CommandBus`, `command_bus.dfy`). The bus keeps a FIFO queue of
  commands and a sequence counter. `submit` enqueues a command or a `(command_id, value)`
  shorthand. The worker takes commands in order, builds one request datagram per
  command and sends it once. The request is a `clientReq` header
  (`sequence_id` u32, `msg_length` u16) followed by the 9-byte `payload` record
  (`command_id` u8, a 4-byte value union, `payloadLen` u32) and then the extra payload
  bytes. `processReply` runs a fixed series of checks (empty, shorter than 15 bytes,
  truncated against `msg_length`, body smaller than 9 bytes). It then logs a
  `payloadLen` mismatch without rejecting the reply, and emits the 5-byte
  `replyPayload` record.
- **Video streaming** (`VideoStreaming`, `video_streaming.dfy`). `__sendFrame` cuts an
  encoded frame into segments of at most `MAX_SIZE = 65507 - 12` bytes. Each segment is
  sent as a full 65507-byte `Frame` datagram: a 12-byte `FrameMetadata` followed by the
  zero-padded payload. The first failed send stops the frame. `__streamThread` rebuilds
  frames from segments:
  - a new sequence id resets the segment map;
  - a repeated segment id overwrites the earlier copy;
  - when the map holds `numSegments` entries, the segments are joined in id order and
    the frame is pushed;
  - a gap at that point ends the receive loop.
- **NTP server** (`NtpServer`, `ntp_server.dfy`). `NTPPacket` packs and unpacks the
  48-byte big-endian header `!B B B b 11I`, including the leap/version/mode flags byte.
  `_work_loop` answers each request as a stratum-`stratum` server with poll 10. The reply
  copies the request's transmit timestamp words into the originate words.
  `NTP_DELTA` is the number of seconds from 1900-01-01 to the system epoch.

`wire.dfy` (`Wire`) holds the shared byte-level vocabulary: bytes, `Option`/`Result`, and
little- and big-endian integer encodings with their round trips. The ctypes records are
packed in native byte order, which is little-endian on the hosts the program runs on;
`processReply` reads its header fields little-endian explicitly.

Each class that the source updates in place is a Dafny `class` with the fields the
modelled operations use: `CommandBus.Bus` (`_seq_id`, `_queue`),
`VideoStreaming.VideoStreamer` (the send frame id, the segment map, the receive frame id,
the expected segment count and the frame buffer), `NtpServer.NTPPacket` (all seventeen
packet attributes) and `NtpServer.NTPServer` (`version`, `stratum`). Each method is
proved against a pure specification function, and the properties are proved as lemmas
about those functions:
- `EncodeRequest` / `Packets` for the bus;
- `Fragments` / `ReceiveStep` / `Feed` for video;
- `Pack` / `Unpack` / `ReplyTo` for NTP.

The outside world becomes parameters:
- the UDP send is a function `send: Bytes -> bool`;
- received datagrams are a sequence;
- clock readings are `Timestamp` arguments.

ctypes fields truncate silently on assignment. The model writes that truncation out as
`% 256`, `% 2^16` and `% 2^32`.

### Behaviour of the code worth knowing

- The request sequence id is a 32-bit field (`ctypes.c_uint32`): it wraps at 2^32.
- A processed reply is only emitted as a `replyPayload` record; the bus keeps no
  record of the commands it has sent.
- A received segment whose `length` field exceeds the payload is clamped by the slice
  `payload[:segLen]` (`StoredSegment`).
- A missing segment at completion leaves `__streamThread` through `return`, and a
  datagram shorter than a `Frame` makes `Frame.from_buffer_copy` raise; either way the
  receive thread ends. Both are modelled as the outcome `Stopped`, after which no
  further datagram is processed.
- A repeated datagram of a frame that has already been pushed starts that frame again:
  with a one-segment frame it is pushed a second time. `ReassembleAnyOrder` therefore
  speaks of deliveries without duplicates; `WithheldSegmentNeverPushed` allows them.
- An NTP request shorter than 48 bytes raises out of `from_data`. Only `queue.Empty` is
  caught in `_work_loop`, so the work thread ends (`WorkLoop` returns the error and stops).

## Model

| member | source | states |
|---|---|---|
| `Wire.LERoundTrip` | src/car_controls/CommandBus.py:144-145 | reading back an n-byte little-endian field recovers any value below 256^n |
| `Wire.LEInverse` | src/car_controls/CommandBus.py:68-74 | re-encoding the value of any little-endian byte string gives the same bytes |
| `Wire.BERoundTrip` | src/network/ntp_server.py:77 | reading back an n-byte big-endian field recovers any value below 256^n |
| `Wire.BEInverse` | src/network/ntp_server.py:77 | re-encoding the value of any big-endian byte string gives the same bytes |
| `CommandBus.ValueBytes` | src/car_controls/CommandBus.py:199-202 | the union is 4 bytes; an integer is stored modulo 2^32 and reads back as the same signed 32-bit `i`; a float stores its f32 bits |
| `CommandBus.EncodeBody` | src/car_controls/CommandBus.py:29-35 | the packed `payload` record is 9 bytes |
| `CommandBus.EncodeRequest` | src/car_controls/CommandBus.py:216-218 | a request is 15 bytes plus the extra payload |
| `CommandBus.RequestLayout` | src/car_controls/CommandBus.py:189-221 | byte layout of a request: seq id mod 2^32 at 0..4, `msg_length` = (9 + payload length) mod 2^16 at 4..6, command id mod 256 at 6, value at 7..11, payloadLen mod 2^32 at 11..15, payload after |
| `CommandBus.EncodeCameraCommand` | src/car_controls/CommandBus.py:46-51 | a packed `CameraCommand` is 5 bytes |
| `CommandBus.DecodeCameraCommand` | src/car_controls/CommandBus.py:46-51 | a `CameraCommand` is read exactly when at least 5 bytes are present |
| `CommandBus.CameraCommandRoundTrip` | src/car_controls/CommandBus.py:46-51 | decoding an encoded camera command gives the command byte mod 256 and the value union |
| `CommandBus.ProcessReply` | src/car_controls/CommandBus.py:124-186 | each rejection (empty, under 15 bytes, truncated, body under 9) occurs exactly under its condition and in the code's order; acceptance holds iff all checks pass; accepted replies give seq id (bytes 0..4), `msg_len` (4..6), command id (byte 6), `payloadLen` (11..15), extra bytes, the mismatch flag (payloadLen differs from the extra length) and the record (bytes 6..10, status byte 10) |
| `CommandBus.RequestFields` | src/car_controls/CommandBus.py:208-218 | without `msg_length` wrap, the request's length field is 9 + payload length and payloadLen is the payload length |
| `CommandBus.RequestReadBack` | src/car_controls/CommandBus.py:144-184 | a request built by the bus passes reply parsing when `msg_length` does not wrap, with seq id mod 2^32, its command id, payloadLen equal to the extra length (no mismatch) and the extra payload returned |
| `CommandBus.Packets` | src/car_controls/CommandBus.py:224-240 | the worker sends one packet per queued command |
| `CommandBus.PacketsAt` | src/car_controls/CommandBus.py:224-240 | the i-th packet sent is the request for the i-th command with counter value start + i |
| `CommandBus.ConsecutiveSequenceIds` | src/car_controls/CommandBus.py:208-220 | consecutive packets carry consecutive sequence ids modulo 2^32 |
| `CommandBus.PacketsExtend` | src/car_controls/CommandBus.py:228-236 | sending one more command extends the sent packets by exactly its request |
| `CommandBus.Bus.constructor` | src/car_controls/CommandBus.py:90-95 | a new bus has counter 0 and an empty queue |
| `CommandBus.Bus.Submit` | src/car_controls/CommandBus.py:117-121 | the (normalised) command is appended at the back of the queue; a shorthand gets an empty payload and no callback |
| `CommandBus.Bus.BuildPacket` | src/car_controls/CommandBus.py:189-221 | the built packet is `EncodeRequest` of the current counter and the counter advances by one |
| `CommandBus.Bus.WorkerStep` | src/car_controls/CommandBus.py:228-240 | with an empty queue nothing changes; otherwise the oldest command is removed, its request is sent once with the current counter and the counter advances whatever the send result |
| `CommandBus.Bus.RunWorker` | src/car_controls/CommandBus.py:224-240 | draining the queue sends exactly `Packets(start, queue)`, in FIFO order, and advances the counter by the queue length |
| `VideoStreaming.EncodeMetadata` | src/car_controls/VideoStreaming.py:16-24 | packed `FrameMetadata` is 12 bytes |
| `VideoStreaming.DecodeMetadata` | src/car_controls/VideoStreaming.py:16-24 | every decoded metadata has fields in their ctypes ranges |
| `VideoStreaming.MetadataRoundTrip` | src/car_controls/VideoStreaming.py:16-24 | decoding encoded metadata returns it |
| `VideoStreaming.EncodeFrame` | src/car_controls/VideoStreaming.py:26-33 | a packed `Frame` is exactly 65507 bytes |
| `VideoStreaming.DecodeFrame` | src/car_controls/VideoStreaming.py:201-206 | decoding a full datagram yields a well-formed frame |
| `VideoStreaming.FrameRoundTrip` | src/car_controls/VideoStreaming.py:26-33 | decoding an encoded frame returns it |
| `VideoStreaming.NumSegments` | src/car_controls/VideoStreaming.py:114 | the segment count is the least k with k * MAX_SIZE >= length (0 for empty data) |
| `VideoStreaming.ChunkLength` | src/car_controls/VideoStreaming.py:117-118 | every segment but the last carries MAX_SIZE bytes; the last ends exactly at the data end |
| `VideoStreaming.Chunk` | src/car_controls/VideoStreaming.py:117-121 | segment k has the segment length |
| `VideoStreaming.SegmentMetadata` | src/car_controls/VideoStreaming.py:111-118 | the metadata of a segment fits its ctypes fields |
| `VideoStreaming.SegmentFrame` | src/car_controls/VideoStreaming.py:120-138 | a segment's frame carries its chunk as the first `length` payload bytes and zeros after them |
| `VideoStreaming.Fragment` | src/car_controls/VideoStreaming.py:143-146 | every datagram sent is 65507 bytes |
| `VideoStreaming.Fragments` | src/car_controls/VideoStreaming.py:110-151 | a frame is cut into `NumSegments` datagrams |
| `VideoStreaming.FragmentDecodes` | src/car_controls/VideoStreaming.py:138-146 | the receiver decodes each datagram back to the segment's frame |
| `VideoStreaming.ChunksPrefix` | src/car_controls/VideoStreaming.py:106-141 | the first `count` chunks concatenate to the data prefix of length min(count * MAX_SIZE, length); all of them give the data |
| `VideoStreaming.ReceiveStep` | src/car_controls/VideoStreaming.py:201-250 | after one segment: either still collecting (frame id set, segment stored, count not reached) or the context is cleared; the expected count comes from a new frame's metadata or is kept |
| `VideoStreaming.NewSequenceResets` | src/car_controls/VideoStreaming.py:212-225 | a segment of a different frame discards what was collected and starts over with just that segment; a one-segment frame completes at once |
| `VideoStreaming.RepeatedSegmentOverwrites` | src/car_controls/VideoStreaming.py:227-228 | a repeated segment id replaces the stored bytes and changes nothing else |
| `VideoStreaming.MissingSegmentStops` | src/car_controls/VideoStreaming.py:231-241 | reaching the count with an id in 0..count-1 missing clears the context and stops |
| `VideoStreaming.SegmentCarries` | src/car_controls/VideoStreaming.py:111-138 | for a frame of at most 255 segments, the record of segment k carries the frame's 32-bit sequence id, id k, the segment count, and stores exactly chunk k (the clamped slice of line 228 gives back the chunk) |
| `VideoStreaming.DatagramsCarry` | src/car_controls/VideoStreaming.py:143-148 | the datagrams of any delivery order, as the receiver decodes them, carry those chunks in that order |
| `VideoStreaming.ChunkSegmentsFlatten` | src/car_controls/VideoStreaming.py:106-141 | joining the chunks gives the data back |
| `VideoStreaming.ConcatSegments` | src/car_controls/VideoStreaming.py:232-242 | a map holding segments 0..count-1 is complete and joins to their concatenation |
| `VideoStreaming.FeedSegments` | src/car_controls/VideoStreaming.py:195-250 | feeding any distinct segments of one frame (a fresh id) collects exactly those segments, pushing nothing until all are present |
| `VideoStreaming.ReassembleAnyOrder` | src/car_controls/VideoStreaming.py:101-250 | delivering all fragments of a non-empty frame (at most 255 segments) in any order pushes exactly the original bytes once and leaves the context cleared |
| `VideoStreaming.FeedPartial` | src/car_controls/VideoStreaming.py:212-231 | records of one frame that never carry some id, repeats included, leave exactly the segments seen in the map, push nothing and never stop |
| `VideoStreaming.MissingKeyBelowCount` | src/car_controls/VideoStreaming.py:231 | a map keyed in 0..count-1 lacking one id stays below the completion count |
| `VideoStreaming.WithheldSegmentNeverPushed` | src/car_controls/VideoStreaming.py:230-250 | while any fragment is missing, whatever arrives, repeats included, no frame is pushed and the receiver does not stop |
| `VideoStreaming.VideoStreamer.constructor` | src/car_controls/VideoStreaming.py:38-46 | a new streamer has send id 0, no segments, no frame id and an empty frame buffer |
| `VideoStreaming.VideoStreamer.FillPayload` | src/car_controls/VideoStreaming.py:123-136 | the payload array holds the segment followed by zeros |
| `VideoStreaming.VideoStreamer.SendFrame` | src/car_controls/VideoStreaming.py:101-153 | the datagrams sent are a prefix of `Fragments`, all sent successfully except possibly a failing last one; all of them when every send succeeds; the send id always advances by one |
| `VideoStreaming.VideoStreamer.SendStep` | src/car_controls/VideoStreaming.py:111-141 | in iteration k the offset is k * MAX_SIZE, the bytes sent are chunk k, the metadata written is `SegmentMetadata`, and the loop continues iff k + 1 < count |
| `VideoStreaming.VideoStreamer.SentPacket` | src/car_controls/VideoStreaming.py:138-146 | the packet built in iteration k is fragment k |
| `VideoStreaming.VideoStreamer.Step` | src/car_controls/VideoStreaming.py:197-250 | a short datagram stops without changing state; a full one updates the context as `ReceiveStep` and appends a completed frame to the frame buffer |
| `VideoStreaming.VideoStreamer.Assemble` | src/car_controls/VideoStreaming.py:231-242 | reports completeness iff segments 0..count-1 are all present, and then returns their concatenation |
| `VideoStreaming.VideoStreamer.StreamThread` | src/car_controls/VideoStreaming.py:195-250 | the receive loop ends in the state `Feed` gives for the full datagrams before the first short one; it appends exactly the frames `Feed` pushes and reports whether it stopped |
| `VideoStreaming.FullCount` | src/car_controls/VideoStreaming.py:197-201 | the datagrams before the first short one are all full size |
| `VideoStreaming.StreamStep` | src/car_controls/VideoStreaming.py:201-250 | one receive iteration extends `Feed` by one frame |
| `VideoStreaming.FeedStopped` | src/car_controls/VideoStreaming.py:241 | once the receiver stops, later datagrams change nothing |
| `NtpServer.InitialFields` | src/network/ntp_server.py:79-96 | a fresh packet has the given version, mode and transmit time and zero leap, stratum, poll and precision |
| `NtpServer.BitOr` | src/network/ntp_server.py:101 | bitwise or of naturals is at least each operand |
| `NtpServer.DisjointBitOr` | src/network/ntp_server.py:101 | or-ing a shifted value with a value below the shift is addition |
| `NtpServer.FlagsPack` | src/network/ntp_server.py:101 | in range, the or of `leap << 6`, `version << 3` and `mode` is leap*64 + version*8 + mode |
| `NtpServer.FlagsRoundTrip` | src/network/ntp_server.py:101-129 | packing in-range leap, version and mode gives one byte from which `from_data` recovers all three |
| `NtpServer.PackedFields` | src/network/ntp_server.py:127-129 | the shifts and masks of `from_data` undo the packing of in-range fields |
| `NtpServer.FlagsOfByte` | src/network/ntp_server.py:127-129 | repacking the fields read from any flags byte gives the byte back |
| `NtpServer.ByteFields` | src/network/ntp_server.py:127-129 | the fields read from a byte are within 2, 3 and 3 bits and recompose it |
| `NtpServer.Words` | src/network/ntp_server.py:105-115 | a packet has eleven 32-bit words |
| `NtpServer.EncodeWords` | src/network/ntp_server.py:100-115 | each word packs to four bytes |
| `NtpServer.DecodeWords` | src/network/ntp_server.py:122-123 | unpacking yields one 32-bit word per four bytes |
| `NtpServer.WordsRoundTrip` | src/network/ntp_server.py:77 | unpacking packed words returns them |
| `NtpServer.WordsInverse` | src/network/ntp_server.py:77 | packing unpacked bytes returns them |
| `NtpServer.DecodeWordsAt` | src/network/ntp_server.py:122-123 | word i is the big-endian value of bytes 4i..4i+4 |
| `NtpServer.Fits` | src/network/ntp_server.py:99-117 | a packet that fits has leap below 4, version below 32 and mode below 256, all non-negative |
| `NtpServer.Pack` | src/network/ntp_server.py:98-118 | a successful `to_data` yields 48 bytes |
| `NtpServer.Header` | src/network/ntp_server.py:100-115 | the packed header is 48 bytes |
| `NtpServer.SignedByte` | src/network/ntp_server.py:132 | the signed read of a byte (format `b`) lies in -128..127 and packs back to the byte |
| `NtpServer.SignedByteRoundTrip` | src/network/ntp_server.py:104 | a precision in -128..127 reads back as itself |
| `NtpServer.Unpack` | src/network/ntp_server.py:120-143 | `from_data` fails, with `InvalidPacket`, exactly on fewer than 48 bytes |
| `NtpServer.PackLayout` | src/network/ntp_server.py:98-118 | byte 0 is the flags byte, bytes 1 and 2 stratum and poll, byte 3 precision mod 256, and word i at 4+4i is the i-th field word |
| `NtpServer.PackRejects` | src/network/ntp_server.py:116-117 | negative or over-wide flags fields, out-of-range stratum, poll or precision, and words outside 32 bits make `to_data` fail with `InvalidFields` |
| `NtpServer.PackRoundTrip` | src/network/ntp_server.py:98-143 | unpacking a packed in-range packet returns it, except that the originate timestamp becomes the originate words and the transmit words become the transmit timestamp |
| `NtpServer.HeaderBytes` | src/network/ntp_server.py:100-104 | the first four header bytes give back leap, version, mode, stratum, poll and precision |
| `NtpServer.HeaderWords` | src/network/ntp_server.py:105-115 | the last 44 header bytes unpack to the packet's words |
| `NtpServer.UnpackRoundTrip` | src/network/ntp_server.py:120-143 | packing an unpacked datagram gives back its first 48 bytes |
| `NtpServer.UnpackFits` | src/network/ntp_server.py:120-143 | every unpacked packet can be packed again and its flags byte is the datagram's byte 0 |
| `NtpServer.UnpackWords` | src/network/ntp_server.py:130-143 | stratum, poll, reference id and the originate and transmit high/low words are read from their byte positions |
| `NtpServer.NTPPacket.constructor` | src/network/ntp_server.py:79-96 | a new packet holds `InitialFields` |
| `NtpServer.NTPPacket.FromData` | src/network/ntp_server.py:120-143 | a short datagram fails with `InvalidPacket` and leaves the packet unchanged; otherwise the packet holds `Unpack(data)` |
| `NtpServer.NTPPacket.Assign` | src/network/ntp_server.py:127-143 | all seventeen fields take the unpacked values |
| `NtpServer.NTPPacket.AssignHeader` | src/network/ntp_server.py:127-132 | flags, stratum, poll and precision are set |
| `NtpServer.NTPPacket.AssignReference` | src/network/ntp_server.py:133-137 | root delay and dispersion, reference id, reference and originate timestamps are set |
| `NtpServer.NTPPacket.AssignTimestamps` | src/network/ntp_server.py:138-143 | the originate and transmit words and the receive and transmit timestamps are set |
| `NtpServer.NTPPacket.ToData` | src/network/ntp_server.py:98-118 | `to_data` fails exactly when a field does not fit; otherwise it gives 48 bytes that `from_data` reads back to a packet packing to the same bytes |
| `NtpServer.TransmitWordsRead` | src/network/ntp_server.py:145-146 | after `from_data`, `GetTxTimeStamp` returns the transmit words at bytes 40..48 |
| `NtpServer.NTPPacket.SetOriginTimeStamp` | src/network/ntp_server.py:148-150 | only the two originate words change |
| `NtpServer.ShortRequestFails` | src/network/ntp_server.py:194-196 | a request under 48 bytes gets no reply but the `InvalidPacket` error |
| `NtpServer.ServerReply` | src/network/ntp_server.py:194-207 | every request of 48 bytes or more is answered; the reply reads back as leap 0, mode 4, the server's version and stratum, poll 10, originate words equal to the request's transmit words, reference time 5 s before receipt, and the given receive and transmit times |
| `NtpServer.ReplyUsesOnlyTransmitWords` | src/network/ntp_server.py:196-203 | two requests with the same bytes 40..48 get the same reply |
| `NtpServer.NTPServer.constructor` | src/network/ntp_server.py:156-160 | the server keeps the given version and stratum |
| `NtpServer.NTPServer.HandleRequest` | src/network/ntp_server.py:194-207 | handling one request with the packet objects yields `ReplyTo` |
| `NtpServer.NTPServer.BuildReply` | src/network/ntp_server.py:199-205 | the reply packet is new and holds `ReplyFields` |
| `NtpServer.NTPServer.WorkLoop` | src/network/ntp_server.py:191-210 | requests are answered in order, each reply addressed to its client, until the first failing one, whose error ends the loop |
| `NtpServer.DaysBeforeYearCount` | src/network/ntp_server.py:33-35 | days from 1900 to a year up to 2100 are 365 per year plus one per leap year |
| `NtpServer.UnixEpochDelta` | src/network/ntp_server.py:32-35 | `NTP_DELTA` for a 1970-01-01 system epoch is 2208988800 seconds |
| `NtpServer.SystemToNtpTime` | src/network/ntp_server.py:11-12 | system time converts to NTP time by adding 2208988800 seconds |

## Left out

- Threads, queues with timeouts, `start`/`shutdown`/`is_running`, `stop`, `select` and the
  shutdown events: each loop is modelled sequentially over its input sequence.
- Sockets: the UDP send is the parameter `send`, received datagrams and their timestamps
  are inputs, and `sendto` is represented by returning the reply with its client.
  `receive_data` returning `None` (the loop skips it) is not modelled.
- Logging calls and the `replyReceived` signal: `ProcessReply` returns what is logged and
  the emitted record instead.
- Exceptions raised inside the command bus worker (caught and logged) are not
  distinguished from a failed send; the model's `send` only returns a result.
- Float values: `CommandBus.ValueBytes` takes a float as its IEEE-754 single-precision
  bit pattern (`FloatValue(f32Bits)`); the conversion from a Python float is not modelled.
- NTP timestamps, root delay and root dispersion are floats in the source; the model keeps
  them as exact integer words (`Timestamp(seconds, fraction)`, 16.16 words). Loss of
  low fraction bits in `_to_time`/`_to_frac` and double rounding are not modelled, so
  `NtpServer.PackRoundTrip` is exact where the source may lose precision.
- `NtpServer.ServerReply`: proved only for a server version below 8, a stratum below 256,
  a receive time of at least 5 s and timestamps that fit 32-bit words. `struct.pack` also
  succeeds for versions 8..31, where the version bits spill into the leap bits; the
  lemma does not describe that reply.
- `VideoStreaming.ReassembleAnyOrder`: proved for frames of at most 255 segments; beyond
  that `numSegments` and `segmentID` wrap modulo 256 and the frame is not rebuilt.
- `__streamOutThread` (video capture and JPEG encoding through cv2), `__imShowThread`
  (display and FPS overlay), `setVideoSource`, `startStream`, `startStreamOut`: I/O.
- `cv2.imdecode` of the rebuilt bytes: the model pushes the joined bytes themselves.
- The 100-entry `CircularBuffer`: the frame buffer is an unbounded sequence, so
  overwriting the oldest frame when full is not modelled.
- `__receivedFrameBuff` is resized in the receive loop but never read; it is omitted.
- `NTP.REF_ID_TABLE`, `STRATUM_TABLE`, `MODE_TABLE`, `LEAP_TABLE`: descriptive tables not
  used by the code.
- `_recv_loop`: socket reading; the receive timestamp it takes from `time.time()` is the
  `recvTimestamp` input of each request.
