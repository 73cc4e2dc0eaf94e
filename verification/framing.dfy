/** Length-prefixed video framing: the server writes each encoded image as a
    length prefix followed by the image bytes; the client accumulates
    received chunks until it has a prefix, reads the length from it, and
    accumulates again until it has that many payload bytes. */
module Framing {

  import opened Results
  import opened Bytes

  /** The shape of a length prefix: how many bytes, and in which order. */
  datatype HeaderFormat = HeaderFormat(width: nat, order: ByteOrder)

  /** The sender's prefix: `len(data).to_bytes(4, 'big')`. */
  const ServerFormat := HeaderFormat(4, BigEndian)

  /** The receiver's prefix: `struct.calcsize("Q")` bytes read with
      `struct.unpack("Q")`, an unsigned 64-bit field in the host's byte order. */
  function ClientFormat(host: ByteOrder): (f: HeaderFormat)
    ensures f.order == host
    ensures Pow256(f.width) == 0x1_0000_0000_0000_0000
  {
    HeaderFormat(8, host)
  }

  /** The client's prefix holds exactly the unsigned 64-bit range: every
      prefix reads as a value below 2^64, and every such value has a prefix
      that reads back as it. */
  lemma ClientPrefixRange(host: ByteOrder, prefix: seq<byte>, n: nat)
    requires |prefix| == ClientFormat(host).width
    ensures FromBytes(host, prefix) < 0x1_0000_0000_0000_0000
    ensures n < 0x1_0000_0000_0000_0000 ==> FromBytes(host, ToBytes(host, n, 8)) == n
  {
    if n < 0x1_0000_0000_0000_0000 {
      BytesRoundTrip(host, n, ClientFormat(host).width);
    }
  }

  /** `int.to_bytes` raises `OverflowError` when the length does not fit the prefix. */
  datatype EncodeError = LengthOverflow(length: nat)

  /** One message on the wire: the payload length as a prefix of the given
      format, then the payload unchanged. */
  function EncodeMessage(fmt: HeaderFormat, payload: seq<byte>): (r: Result<seq<byte>, EncodeError>)
    ensures r.Success? <==> |payload| < Pow256(fmt.width)
    ensures r.Failure? ==> r.error == LengthOverflow(|payload|)
    ensures r.Success? ==>
      && |r.value| == fmt.width + |payload|
      && r.value[fmt.width..] == payload
      && FromBytes(fmt.order, r.value[..fmt.width]) == |payload|
  {
    if |payload| < Pow256(fmt.width) then
      var prefix := ToBytes(fmt.order, |payload|, fmt.width);
      BytesRoundTrip(fmt.order, |payload|, fmt.width);
      assert (prefix + payload)[..fmt.width] == prefix;
      Success(prefix + payload)
    else
      Failure(LengthOverflow(|payload|))
  }

  /** The server's frame message (`video_stream`): four length bytes, most
      significant first, then the frame bytes; frames of 2^32 bytes or more
      are refused. */
  function EncodeFrame(payload: seq<byte>): (r: Result<seq<byte>, EncodeError>)
    ensures r.Success? <==> |payload| < 4294967296
    ensures r.Success? ==>
      && |r.value| == 4 + |payload|
      && r.value[4..] == payload
      && r.value[0] as int * 16777216 + r.value[1] as int * 65536 + r.value[2] as int * 256 + r.value[3] as int == |payload|
  {
    assert Pow256(4) == 4294967296;
    var r := EncodeMessage(ServerFormat, payload);
    if r.Success? then
      var h := r.value[..4];
      var b0, b1, b2 := h[0] as int, h[1] as int, h[2] as int;
      assert FromBigEndian(h[..1]) == b0 by {
        assert h[..1][..0] == [];
      }
      assert FromBigEndian(h[..2]) == b0 * 256 + b1 by {
        assert h[..2][..1] == h[..1];
      }
      assert FromBigEndian(h[..3]) == (b0 * 256 + b1) * 256 + b2 by {
        assert h[..3][..2] == h[..2];
      }
      assert h[..4][..3] == h[..3];
      assert h[..4] == h;
      r
    else
      r
  }

  /** Whether a chunk sequence contains no end-of-stream read (an empty `recv`). */
  predicate Live(chunks: seq<seq<byte>>) {
    forall i :: 0 <= i < |chunks| ==> |chunks[i]| > 0
  }

  /** Index of the first empty chunk, or the number of chunks if there is none. */
  function FirstEmpty(chunks: seq<seq<byte>>): (k: nat)
    ensures k <= |chunks|
    ensures forall i :: 0 <= i < k ==> |chunks[i]| > 0
    ensures k < |chunks| ==> |chunks[k]| == 0
  {
    if |chunks| == 0 || |chunks[0]| == 0 then 0 else 1 + FirstEmpty(chunks[1..])
  }

  /** The result of one accumulation loop. */
  datatype Fill =
    | Filled(data: seq<byte>, used: nat)  // enough bytes, after reading the first `used` chunks
    | EndOfStream                         // an empty read ended the loop early
    | Starved                             // the chunks ran out first

  /** `while len(data) < need: data += recv(...)`, reading chunks in order.
      With `endOnEmpty` an empty read ends the loop (the header loop's
      `if not packet: return None`); without it an empty read adds nothing
      and the loop carries on (the payload loop). */
  function Accumulate(data: seq<byte>, chunks: seq<seq<byte>>, need: nat, endOnEmpty: bool): (r: Fill)
    ensures r.Filled? ==> |r.data| >= need && r.used <= |chunks|
    ensures r.Filled? && |data| < need ==> r.used > 0
    ensures |data| >= need ==> r == Filled(data, 0)
    decreases chunks
  {
    if |data| >= need then
      Filled(data, 0)
    else if |chunks| == 0 then
      Starved
    else if endOnEmpty && |chunks[0]| == 0 then
      EndOfStream
    else
      var r := Accumulate(data + chunks[0], chunks[1..], need, endOnEmpty);
      if r.Filled? then Filled(r.data, r.used + 1) else r
  }

  /** A filled loop loses no byte and invents none: the bytes it holds, then
      the chunks it did not read, are the bytes it started with, then all
      the chunks. */
  lemma {:induction false} AccumulateFilled(data: seq<byte>, chunks: seq<seq<byte>>, need: nat, endOnEmpty: bool)
    requires Accumulate(data, chunks, need, endOnEmpty).Filled?
    ensures var r := Accumulate(data, chunks, need, endOnEmpty);
      r.data + Concat(chunks[r.used..]) == data + Concat(chunks)
    decreases chunks
  {
    if |data| < need {
      var r := Accumulate(data + chunks[0], chunks[1..], need, endOnEmpty);
      AccumulateFilled(data + chunks[0], chunks[1..], need, endOnEmpty);
      assert (data + chunks[0]) + Concat(chunks[1..]) == data + (chunks[0] + Concat(chunks[1..]));
      assert chunks[1..][r.used..] == chunks[r.used + 1..];
    } else {
      assert chunks[0..] == chunks;
    }
  }

  /** A filled loop reads no chunk more than it needs: without the last
      chunk it read, it would hold fewer than `need` bytes. */
  lemma {:induction false} AccumulateNeeded(data: seq<byte>, chunks: seq<seq<byte>>, need: nat, endOnEmpty: bool)
    requires Accumulate(data, chunks, need, endOnEmpty).Filled?
    ensures var r := Accumulate(data, chunks, need, endOnEmpty);
      r.used > 0 ==> |r.data| - |chunks[r.used - 1]| < need
    decreases chunks
  {
    if |data| < need && |data + chunks[0]| < need {
      var r := Accumulate(data + chunks[0], chunks[1..], need, endOnEmpty);
      AccumulateNeeded(data + chunks[0], chunks[1..], need, endOnEmpty);
      assert chunks[1..][r.used - 1] == chunks[r.used];
    }
  }

  /** The loop runs out of chunks only when all of them together with what
      it started with fall short of `need`. */
  lemma {:induction false} AccumulateStarved(data: seq<byte>, chunks: seq<seq<byte>>, need: nat, endOnEmpty: bool)
    ensures Accumulate(data, chunks, need, endOnEmpty).Starved? ==> |data| + |Concat(chunks)| < need
    decreases chunks
  {
    if |data| < need && |chunks| > 0 && !(endOnEmpty && |chunks[0]| == 0) {
      AccumulateStarved(data + chunks[0], chunks[1..], need, endOnEmpty);
    }
  }

  /** The accumulation loop ends early exactly when it may stop at an empty
      read and the first empty read comes while fewer than `need` bytes
      have arrived. */
  lemma {:induction false} EndOfStreamExactly(data: seq<byte>, chunks: seq<seq<byte>>, need: nat, endOnEmpty: bool)
    ensures Accumulate(data, chunks, need, endOnEmpty).EndOfStream? <==>
      endOnEmpty && FirstEmpty(chunks) < |chunks| && |data| + |Concat(chunks[..FirstEmpty(chunks)])| < need
    decreases chunks
  {
    var k := FirstEmpty(chunks);
    if |data| < need && |chunks| > 0 && !(endOnEmpty && |chunks[0]| == 0) {
      EndOfStreamExactly(data + chunks[0], chunks[1..], need, endOnEmpty);
      if k > 0 {
        assert chunks[..k][1..] == chunks[1..][..k - 1];
        assert Concat(chunks[..k]) == chunks[0] + Concat(chunks[1..][..k - 1]);
      }
    } else if |data| >= need || |chunks| == 0 {
    } else {
      assert chunks[..k] == [];
    }
  }

  /** What one receive call produces. */
  datatype Received =
    | Frame(payload: seq<byte>, leftover: seq<byte>, used: nat)
        // a payload; `leftover` is what the call read past it, after reading the first `used` chunks
    | Closed       // the stream ended before a full prefix arrived: `receive_frame` returns None
    | Incomplete   // the call has not returned: it waits for more data, or, if the
                   // stream ended during the payload, spins forever

  /** The payload half of a receive call: accumulate until `size` bytes
      follow the prefix, then split them off; the payload loop has no
      end-of-stream check, so it never closes. */
  function ReadPayload(data: seq<byte>, chunks: seq<seq<byte>>, size: nat): (r: Received)
    ensures !r.Closed?
    ensures r.Frame? ==> |r.payload| == size && r.used <= |chunks|
  {
    EndOfStreamExactly(data, chunks, size, false);
    var body := Accumulate(data, chunks, size, false);
    if body.Filled? then
      Frame(body.data[..size], body.data[size..], body.used)
    else
      Incomplete
  }

  /** A payload read splits the bytes it started with and the chunks it read
      into the payload and what came after it, and reads no chunk it did not need. */
  lemma ReadPayloadFrame(data: seq<byte>, chunks: seq<seq<byte>>, size: nat)
    requires ReadPayload(data, chunks, size).Frame?
    ensures var r := ReadPayload(data, chunks, size);
      && data + Concat(chunks) == r.payload + r.leftover + Concat(chunks[r.used..])
      && (r.used > 0 ==> |r.leftover| < |chunks[r.used - 1]|)
      && (r.used == 0 ==> |r.leftover| == |data| - size)
  {
    var body := Accumulate(data, chunks, size, false);
    AccumulateFilled(data, chunks, size, false);
    AccumulateNeeded(data, chunks, size, false);
    assert body.data == body.data[..size] + body.data[size..];
  }

  /** A payload read that does not finish lacks bytes. */
  lemma ReadPayloadIncomplete(data: seq<byte>, chunks: seq<seq<byte>>, size: nat)
    ensures ReadPayload(data, chunks, size).Incomplete? ==> |data| + |Concat(chunks)| < size
  {
    EndOfStreamExactly(data, chunks, size, false);
    AccumulateStarved(data, chunks, size, false);
  }

  /** One receive call starting from buffered bytes `buf`: fill the prefix,
      read the payload length from it, fill the payload, and slice it out. */
  function Deframe(fmt: HeaderFormat, buf: seq<byte>, chunks: seq<seq<byte>>): (r: Received)
    ensures r.Frame? ==> r.used <= |chunks|
    ensures r.Frame? && |buf| < fmt.width ==> r.used > 0
  {
    var header := Accumulate(buf, chunks, fmt.width, true);
    if header.EndOfStream? then
      Closed
    else if header.Starved? then
      Incomplete
    else
      var data, k := header.data, header.used;
      var r := ReadPayload(data[fmt.width..], chunks[k..], FromBytes(fmt.order, data[..fmt.width]));
      if r.Frame? then Frame(r.payload, r.leftover, k + r.used) else r
  }

  /** The prefix of a returned frame is complete and announces the
      payload's length. */
  lemma DeframePrefix(fmt: HeaderFormat, buf: seq<byte>, chunks: seq<seq<byte>>)
    requires Deframe(fmt, buf, chunks).Frame?
    ensures var s := buf + Concat(chunks);
      && |s| >= fmt.width
      && FromBytes(fmt.order, s[..fmt.width]) == |Deframe(fmt, buf, chunks).payload|
  {
    var header := Accumulate(buf, chunks, fmt.width, true);
    AccumulateFilled(buf, chunks, fmt.width, true);
    SplitAfterHeader(buf + Concat(chunks), header.data, Concat(chunks[header.used..]), fmt.width);
  }

  /** A returned frame lays the stream out as the prefix, then the payload,
      then what the call read past the payload, then the chunks it did not read. */
  lemma DeframeLayout(fmt: HeaderFormat, buf: seq<byte>, chunks: seq<seq<byte>>)
    requires Deframe(fmt, buf, chunks).Frame?
    ensures var s, r := buf + Concat(chunks), Deframe(fmt, buf, chunks);
      && |s| >= fmt.width
      && s == s[..fmt.width] + r.payload + r.leftover + Concat(chunks[r.used..])
  {
    var header := Accumulate(buf, chunks, fmt.width, true);
    AccumulateFilled(buf, chunks, fmt.width, true);
    var data, k := header.data, header.used;
    var size := FromBytes(fmt.order, data[..fmt.width]);
    ReadPayloadFrame(data[fmt.width..], chunks[k..], size);
    var r := ReadPayload(data[fmt.width..], chunks[k..], size);
    assert chunks[k..][r.used..] == chunks[k + r.used..];
    assert Deframe(fmt, buf, chunks) == Frame(r.payload, r.leftover, k + r.used);
    var s := buf + Concat(chunks);
    SplitAfterHeader(s, data, Concat(chunks[k..]), fmt.width);
    StreamLayout(s, data[..fmt.width], data[fmt.width..] + Concat(chunks[k..]), r.payload, r.leftover, Concat(chunks[k + r.used..]));
  }

  /** A returned frame read no chunk it did not need: what it read past the
      payload is shorter than the last chunk it read. */
  lemma DeframeNeeded(fmt: HeaderFormat, buf: seq<byte>, chunks: seq<seq<byte>>)
    requires Deframe(fmt, buf, chunks).Frame?
    ensures var r := Deframe(fmt, buf, chunks);
      r.used > 0 ==> |r.leftover| < |chunks[r.used - 1]|
  {
    var header := Accumulate(buf, chunks, fmt.width, true);
    AccumulateNeeded(buf, chunks, fmt.width, true);
    var data, k := header.data, header.used;
    var size := FromBytes(fmt.order, data[..fmt.width]);
    ReadPayloadFrame(data[fmt.width..], chunks[k..], size);
    var r := ReadPayload(data[fmt.width..], chunks[k..], size);
    if r.used > 0 {
      assert chunks[k..][r.used - 1] == chunks[k + r.used - 1];
    }
  }

  /** A returned frame accounts for every byte: prefix, payload, what was
      read past it and what was not read. */
  lemma DeframeLength(fmt: HeaderFormat, buf: seq<byte>, chunks: seq<seq<byte>>)
    requires Deframe(fmt, buf, chunks).Frame?
    ensures var r := Deframe(fmt, buf, chunks);
      |buf| + |Concat(chunks)| == fmt.width + |r.payload| + |r.leftover| + |Concat(chunks[r.used..])|
  {
    DeframeLayout(fmt, buf, chunks);
    var s, r := buf + Concat(chunks), Deframe(fmt, buf, chunks);
    assert |s| == |s[..fmt.width] + r.payload + r.leftover + Concat(chunks[r.used..])|;
  }

  /** All three facts about a returned frame together. */
  lemma DeframeFrame(fmt: HeaderFormat, buf: seq<byte>, chunks: seq<seq<byte>>)
    requires Deframe(fmt, buf, chunks).Frame?
    ensures var s, r := buf + Concat(chunks), Deframe(fmt, buf, chunks);
      && |s| >= fmt.width
      && FromBytes(fmt.order, s[..fmt.width]) == |r.payload|
      && s == s[..fmt.width] + r.payload + r.leftover + Concat(chunks[r.used..])
      && (r.used > 0 ==> |r.leftover| < |chunks[r.used - 1]|)
  {
    DeframePrefix(fmt, buf, chunks);
    DeframeLayout(fmt, buf, chunks);
    DeframeNeeded(fmt, buf, chunks);
  }

  /** A receive call returns None exactly when an empty read comes before
      the prefix is complete. */
  lemma DeframeClosed(fmt: HeaderFormat, buf: seq<byte>, chunks: seq<seq<byte>>)
    ensures Deframe(fmt, buf, chunks).Closed? <==>
      FirstEmpty(chunks) < |chunks| && |buf| + |Concat(chunks[..FirstEmpty(chunks)])| < fmt.width
  {
    EndOfStreamExactly(buf, chunks, fmt.width, true);
  }

  /** A receive call that does not return lacks either prefix bytes or the
      payload bytes the prefix announces. */
  lemma DeframeIncomplete(fmt: HeaderFormat, buf: seq<byte>, chunks: seq<seq<byte>>)
    ensures var s := buf + Concat(chunks);
      Deframe(fmt, buf, chunks).Incomplete? ==> |s| < fmt.width || |s| - fmt.width < FromBytes(fmt.order, s[..fmt.width])
  {
    var header := Accumulate(buf, chunks, fmt.width, true);
    AccumulateStarved(buf, chunks, fmt.width, true);
    if header.Filled? {
      AccumulateFilled(buf, chunks, fmt.width, true);
      var data, k := header.data, header.used;
      ReadPayloadIncomplete(data[fmt.width..], chunks[k..], FromBytes(fmt.order, data[..fmt.width]));
      SplitAfterHeader(buf + Concat(chunks), data, Concat(chunks[k..]), fmt.width);
    }
  }

  /** Once `data` holds at least the prefix, the stream is the prefix followed
      by the rest of `data` and then the unread bytes. */
  lemma SplitAfterHeader(s: seq<byte>, data: seq<byte>, unread: seq<byte>, width: nat)
    requires s == data + unread && |data| >= width
    ensures s[..width] == data[..width]
    ensures s == data[..width] + (data[width..] + unread)
  {
    assert data == data[..width] + data[width..];
  }

  /** Cutting the bytes after the prefix into a payload and what follows it
      cuts the whole stream the same way. */
  lemma StreamLayout(s: seq<byte>, h: seq<byte>, body: seq<byte>, p: seq<byte>, l: seq<byte>, c: seq<byte>)
    requires s == h + body && body == p + l + c
    ensures s[..|h|] == h
    ensures s == s[..|h|] + p + l + c
  {
    assert s[..|h|] == h;
    assert h + (p + l + c) == h + p + l + c;
  }

  /** `receive_frame` as written: every call starts from an empty buffer. */
  function ReceiveFrame(fmt: HeaderFormat, chunks: seq<seq<byte>>): (r: Received)
    ensures r.Frame? ==> r.used <= |chunks| && (fmt.width > 0 ==> r.used > 0)
    ensures r.Frame? ==> var s := Concat(chunks);
      && |s| >= fmt.width + |r.payload|
      && FromBytes(fmt.order, s[..fmt.width]) == |r.payload|
      && s[fmt.width..fmt.width + |r.payload|] == r.payload
    ensures r.Closed? <==>
      FirstEmpty(chunks) < |chunks| && |Concat(chunks[..FirstEmpty(chunks)])| < fmt.width
  {
    assert [] + Concat(chunks) == Concat(chunks);
    DeframeClosed(fmt, [], chunks);
    DeframePayload(fmt, [], chunks);
    Deframe(fmt, [], chunks)
  }

  /** A returned frame's payload sits right after the prefix, which announces its length. */
  lemma DeframePayload(fmt: HeaderFormat, buf: seq<byte>, chunks: seq<seq<byte>>)
    ensures var s, r := buf + Concat(chunks), Deframe(fmt, buf, chunks);
      r.Frame? ==>
        && |s| >= fmt.width + |r.payload|
        && FromBytes(fmt.order, s[..fmt.width]) == |r.payload|
        && s[fmt.width..fmt.width + |r.payload|] == r.payload
  {
    var s, r := buf + Concat(chunks), Deframe(fmt, buf, chunks);
    if r.Frame? {
      DeframePrefix(fmt, buf, chunks);
      DeframeLayout(fmt, buf, chunks);
      PayloadAfterPrefix(s, fmt.width, r.payload, r.leftover + Concat(chunks[r.used..]));
    }
  }

  /** A stream laid out as a prefix, a payload and a tail holds the payload right after the prefix. */
  lemma PayloadAfterPrefix(s: seq<byte>, width: nat, p: seq<byte>, t: seq<byte>)
    requires |s| >= width && s == s[..width] + p + t
    ensures |s| >= width + |p| && s[width..width + |p|] == p
  {
    assert s == s[..width] + (p + t);
  }

  /** A returned frame consumes at least its prefix: what is left for the
      next call is shorter by at least the prefix width. */
  lemma DeframeShrinks(fmt: HeaderFormat, buf: seq<byte>, chunks: seq<seq<byte>>)
    requires Deframe(fmt, buf, chunks).Frame?
    ensures var r := Deframe(fmt, buf, chunks);
      fmt.width + |r.leftover| + |Concat(chunks[r.used..])| <= |buf| + |Concat(chunks)|
  {
    DeframeLength(fmt, buf, chunks);
  }

  /** Room for `n` frames in what a returned frame leaves is room for `n + 1`
      frames in what the call started with. */
  lemma OneMoreFrame(fmt: HeaderFormat, buf: seq<byte>, chunks: seq<seq<byte>>, n: nat)
    requires Deframe(fmt, buf, chunks).Frame?
    requires var r := Deframe(fmt, buf, chunks);
      n * fmt.width <= |r.leftover| + |Concat(chunks[r.used..])|
    ensures (1 + n) * fmt.width <= |buf| + |Concat(chunks)|
  {
    DeframeShrinks(fmt, buf, chunks);
    assert (1 + n) * fmt.width == fmt.width + n * fmt.width;
  }

  /** The client's `run` loop as written: repeated `receive_frame` calls,
      each emitted payload in order; whatever a call read past its payload
      is dropped. Stops when a call returns None at end of stream or does
      not return. */
  function RunAsWritten(fmt: HeaderFormat, chunks: seq<seq<byte>>): (frames: seq<seq<byte>>)
    requires fmt.width > 0
    ensures |frames| <= |chunks|
    decreases |chunks|
  {
    var r := ReceiveFrame(fmt, chunks);
    if r.Frame? then
      [r.payload] + RunAsWritten(fmt, chunks[r.used..])
    else
      []
  }

  /** The receive loop with bytes read past a payload kept for the next call. */
  function RunBuffered(fmt: HeaderFormat, buf: seq<byte>, chunks: seq<seq<byte>>): (frames: seq<seq<byte>>)
    requires fmt.width > 0
    ensures |frames| <= |buf| + |Concat(chunks)|
    decreases |buf| + |Concat(chunks)|
  {
    var r := Deframe(fmt, buf, chunks);
    if r.Frame? then
      DeframeShrinks(fmt, buf, chunks);
      var more := RunBuffered(fmt, r.leftover, chunks[r.used..]);
      [r.payload] + more
    else
      []
  }

  /** Every frame the buffered loop yields consumed a whole prefix: at most
      one frame per prefix width of bytes received. */
  lemma {:induction false} RunBufferedPrefixes(fmt: HeaderFormat, buf: seq<byte>, chunks: seq<seq<byte>>)
    requires fmt.width > 0
    ensures |RunBuffered(fmt, buf, chunks)| * fmt.width <= |buf| + |Concat(chunks)|
    decreases |buf| + |Concat(chunks)|
  {
    var r := Deframe(fmt, buf, chunks);
    if r.Frame? {
      DeframeShrinks(fmt, buf, chunks);
      RunBufferedPrefixes(fmt, r.leftover, chunks[r.used..]);
      OneMoreFrame(fmt, buf, chunks, |RunBuffered(fmt, r.leftover, chunks[r.used..])|);
    }
  }

  /** Whether every frame fits the prefix of `fmt`. */
  predicate Encodable(fmt: HeaderFormat, frames: seq<seq<byte>>) {
    forall i :: 0 <= i < |frames| ==> |frames[i]| < Pow256(fmt.width)
  }

  /** The bytes of several messages sent back to back on one stream. */
  function Messages(fmt: HeaderFormat, frames: seq<seq<byte>>): seq<byte>
    requires Encodable(fmt, frames)
  {
    if |frames| == 0 then [] else EncodeMessage(fmt, frames[0]).value + Messages(fmt, frames[1..])
  }
}
