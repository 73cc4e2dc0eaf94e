# DexArm control server and client: command dispatch and video framing

A Dafny model of the two pieces of logic in the DexArm remote-control rig
that are not plain I/O.

The first is the arm server's **command dispatcher** (`handle_client` in
`server.py`):
- Each text message a client sends is stripped of surrounding whitespace.
- The stripped message is matched against a closed set of twelve command names.
- A matched command updates the tracked X/Y/Z position and produces one G-code line for the arm.
- An unmatched message produces the reply "Invalid Command" and no G-code.
- A message that is blank after stripping ends the session.

The second is the **length-prefixed video framing** between the server's
`video_stream` and the client's `VideoStreamThread.receive_frame`:
- The server sends each JPEG frame as a 4-byte big-endian length followed by the frame bytes.
- The client receives bytes in chunks.
- It fills an 8-byte header, reads it as an unsigned 64-bit integer in the host's byte order (`struct.unpack("Q")`), then fills and slices out that many payload bytes.

The model is functional:

| module | file | contents |
|---|---|---|
| `Results` | results.dfy | `Option` and `Result` |
| `Seqs` | seqs.dfy | small concatenation facts |
| `Decimal` | decimal.dfy | Python's `str(n)` for integers, and reading it back |
| `Whitespace` | whitespace.dfy | Python's `str.isspace` and `str.strip()` |
| `Dispatcher` | dispatch.dfy | position, commands, the per-command transition `Dispatch`, and the session loop |
| `Bytes` | bytes.dfy | bytes, fixed-width unsigned integers in either byte order, and concatenation of chunks |
| `Framing` | framing.dfy | the encoder and the receive call, both parameterised by prefix format |
| `FramingProperties` | framing_properties.dfy | round trips, and the places where the two ends disagree |

More detail on the model:
- A position is three unbounded integers, as in Python.
- A received stream is a sequence of chunks, each one the result of one `recv`. An empty chunk is an end-of-stream read.
- The header width and byte order are parameters (`HeaderFormat`):
  - `ServerFormat` is 4 bytes, big-endian.
  - `ClientFormat(host)` is 8 bytes in the host's order.
- `Deframe` is one receive call. It starts from bytes already buffered; `ReceiveFrame` is the call as written, with an empty buffer. It returns one of:
  - `Frame(payload, leftover, used)`: the payload; `leftover` is what the call read past the payload, and `used` is the number of chunks it read;
  - `Closed`: the stream ended before a full prefix, so the call returns None;
  - `Incomplete`: the call has not returned. Either more data is needed, or the stream ended during the payload and the loop spins forever.
- `RunAsWritten` is the client's loop as written: each call starts empty and the leftover is dropped. `RunBuffered` keeps the leftover for the next call.

## Model

| member | source | states |
|---|---|---|
| Dispatcher.Parse | server.py:59-80 | a message is recognised exactly when it equals one of the twelve command names (case-sensitive, no extra characters), and the command found has that name |
| Dispatcher.ParseName | server.py:59-80 | every command is recognised by its own name, so names and commands correspond one to one |
| Dispatcher.MoveCode | server.py:63 | a move line is "G0 ", the axis letter, then a number that reads back as exactly the target coordinate |
| Dispatcher.Execute | server.py:59-80 | every recognised command produces a non-empty G-code line; a jog moves only its own axis, by +10 or -10, and its line is the move to that axis's new value |
| Dispatcher.Dispatch | server.py:57-85 | no G-code is produced exactly when the command is not recognised, and then the position is unchanged; a produced G-code is never empty, so the truthiness test `if gcode_command` sends exactly the recognised commands to the arm |
| Dispatcher.JogMovesOneAxis | server.py:59-63 | a jog changes only the named axis, by +10 for "+" and -10 for "-"; its G-code is "G0 ", the axis letter and the axis's new value |
| Dispatcher.JogCodeReadsBack | server.py:63 | the number in a jog's G-code reads back as exactly the axis's new coordinate |
| Dispatcher.FixedCommands | server.py:65-80 | "Z0" zeroes Z only and sends "G0 Z0"; "Home" and "GoToWorkOrigin" reset all axes and send "G28" and "G0 X0 Y0 Z0"; "SetWorkOrigin", "Pick" and "Place" keep the position and send "G92 X0 Y0 Z0", "M1000" and "M1001" |
| Dispatcher.Respond | server.py:82-85 | the reply is "Invalid Command" exactly when there is no G-code |
| Dispatcher.Step | server.py:57-85 | one turn answers "Invalid Command" exactly for an unrecognised command, and then keeps the position |
| Dispatcher.InvalidCommandReply | server.py:82-85 | a message that is no command's name keeps the position and gets exactly "Invalid Command"; any other message gets the arm's answer to its G-code |
| Dispatcher.StepMoves | server.py:59-80 | a command other than "Z0", "Home" and "GoToWorkOrigin" moves an axis by one jog step per "+" jog of it, minus one per "-" jog, and otherwise leaves it |
| Dispatcher.LoopAnswers | server.py:50-54 | the loop answers every command before the first empty one, and closes exactly when it stops at an empty command, which is not answered |
| Dispatcher.Serve | server.py:50-87 | the session answers at most one reply per message, only non-empty commands are answered, and it closes exactly at the first empty command |
| Dispatcher.Stripped | server.py:52 | every message is replaced by its stripped form, in order |
| Dispatcher.HandleClient | server.py:50-87 | replies go to the messages before the first blank one; the session closes exactly when a message is blank after stripping, and that message gets no reply |
| Dispatcher.FirstReply | server.py:52-85 | when the first message is not all whitespace, it is answered, and its reply is the dispatch of its stripped form |
| Dispatcher.LoopAppend | server.py:50-87 | running the loop on two batches in turn equals running it on their concatenation, when the first batch has no empty command |
| Dispatcher.ServeAppend | server.py:50-87 | the session over two batches of commands is the session over their concatenation, when the first batch has no empty command |
| Dispatcher.PaddingIgnored | server.py:52 | whitespace around a command name does not change the session |
| Dispatcher.NetJogDisplacement | server.py:59-62 | over a session with no reset command, each axis ends at its start plus 10 times (the number of "+" jogs of it minus the number of "-" jogs), in any order |
| Decimal.NatToString | server.py:63 | the rendering of a natural number is canonical decimal digits denoting it |
| Decimal.IntToString | server.py:63 | a negative value renders as "-" and the canonical digits of its magnitude; any other value as its canonical digits |
| Decimal.IntRoundTrip | server.py:63 | reading back a rendered integer gives the integer |
| Decimal.IntToStringInjective | server.py:63 | distinct coordinates give distinct G-code numbers |
| Decimal.ParseIntOnlyCanonical | server.py:63 | every string that reads back as a number is that number's rendering |
| Whitespace.TrimStart | server.py:52 | dropping leading whitespace leaves the suffix after an all-whitespace prefix, not starting with whitespace |
| Whitespace.TrimEnd | server.py:52 | dropping trailing whitespace leaves the prefix before an all-whitespace suffix, not ending with whitespace |
| Whitespace.Strip | server.py:52 | the stripped message has whitespace at neither end and is no longer than the message |
| Whitespace.StripBlank | server.py:52-54 | a message strips to nothing exactly when it is all whitespace |
| Whitespace.StripRemovesPadding | server.py:52 | stripping whitespace padding around a text with no whitespace at either end gives that text |
| Whitespace.StripIdempotent | server.py:52 | stripping twice is stripping once |
| Bytes.FromBytes | client.py:47 | the value read from a byte string is below 256 to the power of its length |
| Bytes.ToBytes | server.py:124 | the encoding has exactly the requested number of bytes |
| Bytes.BigEndianFirstByte | server.py:124 | in big-endian order the first byte is the most significant: it is worth 256 to the power of the number of bytes after it |
| Bytes.LittleEndianFirstByte | client.py:47 | in little-endian order the first byte is the least significant, and the remaining bytes count in units of 256 |
| Bytes.BytesRoundTrip | server.py:124 | decoding the fixed-width encoding of a value that fits gives the value, in either byte order |
| Bytes.BytesInverse | client.py:47 | every byte string is the encoding of the value it decodes to, in either byte order |
| Framing.ClientFormat | client.py:38-47 | the client's prefix is in the host's byte order and holds exactly 256^8 = 2^64 values, the range of an unsigned 64-bit field |
| Framing.ClientPrefixRange | client.py:38-47 | every client prefix reads as a value below 2^64, and every value below 2^64 has a prefix that reads back as it |
| Framing.EncodeMessage | server.py:124-125 | a message is produced exactly when the length fits the prefix, otherwise an overflow error; it is the prefix, which decodes to the length, then the payload unchanged |
| Framing.EncodeFrame | server.py:124-125 | the server's message exists exactly for frames under 2^32 bytes; its four prefix bytes are the length most significant first, then the frame |
| Framing.Accumulate | client.py:39-43 | a filled loop holds at least what it needed; a loop that already holds enough reads nothing; one that does not reads at least one chunk |
| Framing.AccumulateFilled | client.py:39-43 | the buffer is the starting bytes followed by the chunks read, in order |
| Framing.AccumulateNeeded | client.py:39 | the loop stops at the first chunk that brings it to the needed size |
| Framing.AccumulateStarved | client.py:39-43 | the loop runs out of chunks only when all of them fall short of the need |
| Framing.EndOfStreamExactly | client.py:39-42 | the header loop returns None exactly when an empty read comes before the need is met |
| Framing.ReadPayload | client.py:49-52 | the payload loop never reports end of stream, and a payload has exactly the announced length |
| Framing.ReadPayloadFrame | client.py:49-52 | the bytes split into the payload, what follows it and the unread chunks; no chunk is read after the payload is complete |
| Framing.ReadPayloadIncomplete | client.py:49-50 | the payload loop fails to finish only when too few bytes arrive |
| Framing.Deframe | client.py:34-52 | a frame reads no more chunks than there are, and reads at least one when the prefix was not already buffered |
| Framing.DeframePrefix | client.py:45-47 | a returned frame's length is the value of the first prefix-width bytes of the stream |
| Framing.DeframeLayout | client.py:45-52 | the stream is the prefix, the payload, what was read past it, then the unread chunks |
| Framing.DeframeLength | client.py:45-52 | the prefix, payload, leftover and unread bytes together are exactly the stream's bytes |
| Framing.DeframeNeeded | client.py:39-52 | the last chunk a call reads is needed: what it reads past the payload is shorter than that chunk |
| Framing.DeframeFrame | client.py:34-52 | the prefix, layout and last-chunk facts of a returned frame together |
| Framing.DeframeClosed | client.py:39-42 | a call returns None exactly when an empty read comes before the prefix is complete |
| Framing.DeframeIncomplete | client.py:49-50 | a call that does not return lacks either prefix bytes or the payload bytes the prefix announces |
| Framing.DeframePayload | client.py:45-52 | a returned payload is the bytes right after the prefix, as many as the prefix announces |
| Framing.ReceiveFrame | client.py:34-52 | a call that starts with `data = b""` returns a frame only after reading at least one chunk; the frame is the bytes after the prefix, as many as it announces; it returns None exactly when an empty read comes before the prefix is complete |
| Framing.RunAsWritten | client.py:28-32 | the client loop as written yields at most one frame per chunk, because each call starts empty and reads at least one chunk |
| Framing.RunBuffered | client.py:28-32 | a receive loop that keeps leftovers ends, yielding at most one frame per byte received |
| Framing.RunBufferedPrefixes | client.py:28-32 | every frame the buffered loop yields consumed a whole prefix: at most one frame per prefix width of bytes received |
| FramingProperties.FrameNeedsWholePayload | client.py:49-52 | a returned frame means the stream held the prefix and every payload byte it announced |
| FramingProperties.DeframeLaidOut | client.py:45-52 | on a stream that is a prefix announcing the length of `f`, then `f`, then more, a call returns `f` and keeps the rest as leftover or unread |
| FramingProperties.MessageRoundTrip | client.py:34-52 | when both ends use the same prefix format, a call on a stream that starts with the encoding of `f` returns `f`, for every chunking and any trailing bytes |
| FramingProperties.ServerToMatchingReceiver | server.py:124-125 | a receiver with the server's 4-byte big-endian prefix returns every frame the server can send, intact, for every chunking |
| FramingProperties.StreamRoundTrip | client.py:28-32 | a receiver that keeps leftovers returns every frame sent back to back, in order, for every chunking |
| FramingProperties.NoMessages | client.py:39-43 | with no bytes at all, the buffered loop yields no frame |
| FramingProperties.FirstMessage | client.py:34-52 | on a stream of messages, one call returns the first frame and leaves exactly the remaining messages |
| FramingProperties.OneMessageOneRead | client.py:37-52 | when the first read holds exactly one whole message in the receiver's format, a call returns that frame after that read alone, with nothing left over |
| FramingProperties.AsWrittenOneMessagePerRead | client.py:28-52 | the as-written loop does return every frame, in order, when each read carries exactly one whole message in the receiver's own format |
| FramingProperties.AsWrittenNeverRecoversFrame | client.py:38-47 | the as-written receiver never returns the frame the server sent, whatever the host order and chunking |
| FramingProperties.NothingReceived | client.py:39-43 | a call on no data at all neither returns nor closes |
| FramingProperties.AsWrittenDropsSecondFrame | client.py:37-52 | when two messages arrive in one read, the as-written loop yields only the first frame, even with matching formats |
| FramingProperties.BufferedKeepsSecondFrame | client.py:37-52 | with leftovers kept, the same single read yields both frames |
| FramingProperties.EndAfterPrefixHangs | client.py:49-50 | a stream that ends after a complete prefix but before its payload leaves the call neither returning a frame nor None |
| FramingProperties.JpegDataEncoding | server.py:124-125 | "JPEGDATA" goes on the wire as 00 00 00 08 followed by its eight bytes |
| FramingProperties.JpegDataOneRead | client.py:34-52 | a receiver with the server's format returns "JPEGDATA" from a single read of the message |
| FramingProperties.JpegDataTwoReads | client.py:39-50 | the same holds when the message arrives in two reads split anywhere |
| FramingProperties.JpegDataAsWrittenReceiver | client.py:38-50 | the as-written receiver, given the whole "JPEGDATA" message, keeps waiting and never returns |
| FramingProperties.PrefixTooLarge | client.py:47 | the first eight bytes of that message, read in either byte order, announce more than the four bytes that follow |

## Left out

- Serial link to the arm (`send_command_to_dexarm`): device I/O, delays, `flushInput` and the `M400` handshake. The arm's answer to a G-code line is the parameter `arm` of `ReplyText`.
- Sockets, `accept` loops and threads: I/O plumbing. A session is modelled as the sequence of messages its `recv` calls return, and a video stream as the sequence of chunks its `recv` calls return.
- How `recv(1024)` groups a client's text into messages, and UTF-8 decode errors: a message is already-decoded text.
- The `ConnectionResetError` exit from the command loop: an I/O failure. The model's session ends only at a blank message or at the end of the messages.
- The shared global `position` across handler threads: a concurrency hazard. The dispatcher is modelled as owned by a single session.
- The upper bound of 4096 bytes per chunk from `recv(4 * 1024)`: chunks of any length are allowed, which covers every real chunking.
- OpenCV work (camera capture, resizing, `imencode`, `imdecode`): foreign image codecs. Payloads are opaque bytes. The None that `receive_frame` returns when `imdecode` fails is therefore not modelled; a frame whose bytes arrive is returned as a `Frame`.
- After `receive_frame` returns None at end of stream, the client's `run` loop calls it again. Every further read on the closed socket is empty, so no further frame is emitted. `RunAsWritten` stops at that point.
- The PyQt control panel and `gui.py`: UI code.
- The chat exchange is a second reader of the video socket (client.py:212-218): `send_to_server` sends on the one socket the client opens (client.py:82-84, port 12346, the server's `VIDEO_PORT`) and then calls `recv(1024)` on it. Each call can take up to 1024 bytes of the video stream. The framing lemmas (`MessageRoundTrip`, `ServerToMatchingReceiver`, `StreamRoundTrip` and the rest) assume that `receive_frame` is the only reader, so that the chunks it reads concatenate to what the server sent. They say nothing about a stream from which the chat has taken bytes.
- The client also never connects to the command port 12345 (server.py:11), so its button commands never reach `handle_client`. The dispatcher model describes `handle_client` for a client that does connect there.
- A `recv` that raises inside `receive_frame`: `except Exception: return None` (client.py:63-65) turns, for example, a `ConnectionResetError` into None. The chunk model has no raising read, so this None is not modelled. `Closed` covers only the None from an empty read during the header.
- A maximum frame size, and reporting a stream that ends mid-message as an error: the code has neither. The header loop returns None on an early end, and the payload loop spins forever (`EndAfterPrefixHangs`).

## Findings

| source | as written | input that shows it | evidently intended | confidence | as-written member | corrected member |
|---|---|---|---|---|---|---|
| client.py:38-47 | the receiver reads an 8-byte prefix as an unsigned 64-bit integer in host byte order, while the server writes a 4-byte big-endian prefix (server.py:124) | the frame "JPEGDATA" sent in one read as 00 00 00 08 4A 50 45 47 44 41 54 41: the receiver reads 00 00 00 08 4A 50 45 47 as the length, which is far more than the 4 bytes left, and waits forever | the receiver reads the same 4-byte big-endian prefix the server writes and returns the frame | not executed | FramingProperties.JpegDataAsWrittenReceiver | FramingProperties.ServerToMatchingReceiver |
| client.py:37-52 | each `receive_frame` call starts from an empty buffer and discards whatever it read past the payload | two messages that arrive together in one read: the as-written loop yields only the first frame | bytes read past a payload are kept for the next frame | not executed | FramingProperties.AsWrittenDropsSecondFrame | FramingProperties.BufferedKeepsSecondFrame |

More on the first row:
- `FramingProperties.AsWrittenNeverRecoversFrame` shows the mismatch for every frame and every chunking: a returned payload would need eight prefix bytes on top of its own length.
- The corrected receiver is `Deframe` with `ServerFormat`. `FramingProperties.MessageRoundTrip` proves the round trip for every prefix format on which the two ends agree.

More on the second row:
- The corrected loop is `RunBuffered`.
- `FramingProperties.StreamRoundTrip` proves that it returns every frame sent back to back, for every chunking without empty reads.
