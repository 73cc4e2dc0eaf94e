/** What the framing model guarantees, and where the two ends of the video
    link disagree. */
module FramingProperties {

  import opened Results
  import opened Bytes
  import opened Framing
  import opened Seqs

  /** Every suffix of a chunk sequence without empty reads has none either. */
  lemma LiveSuffix(chunks: seq<seq<byte>>, k: nat)
    requires Live(chunks) && k <= |chunks|
    ensures Live(chunks[k..])
  {
    forall i | 0 <= i < |chunks[k..]|
      ensures |chunks[k..][i]| > 0
    {
      assert chunks[k..][i] == chunks[k + i];
    }
  }

  /** Without empty reads, no chunk is the first empty one. */
  lemma LiveHasNoEmpty(chunks: seq<seq<byte>>)
    requires Live(chunks)
    ensures FirstEmpty(chunks) == |chunks|
  {
  }

  /** A returned frame means the stream held the prefix and every payload
      byte the prefix announced. */
  lemma FrameNeedsWholePayload(fmt: HeaderFormat, buf: seq<byte>, chunks: seq<seq<byte>>)
    ensures var s := buf + Concat(chunks);
      Deframe(fmt, buf, chunks).Frame? ==>
        |s| >= fmt.width && |s| - fmt.width >= FromBytes(fmt.order, s[..fmt.width])
  {
    var s := buf + Concat(chunks);
    var r := Deframe(fmt, buf, chunks);
    if r.Frame? {
      DeframePrefix(fmt, buf, chunks);
      DeframeLayout(fmt, buf, chunks);
      assert |s| == fmt.width + |r.payload| + |r.leftover| + |Concat(chunks[r.used..])|;
    }
  }

  /** A receive call on a stream laid out as a prefix announcing `|f|`
      bytes, then `f`, then `tail`, returns `f` and leaves `tail`. */
  lemma DeframeLaidOut(fmt: HeaderFormat, header: seq<byte>, f: seq<byte>, tail: seq<byte>,
                       buf: seq<byte>, chunks: seq<seq<byte>>)
    requires Live(chunks)
    requires |header| == fmt.width && FromBytes(fmt.order, header) == |f|
    requires buf + Concat(chunks) == header + f + tail
    ensures var r := Deframe(fmt, buf, chunks);
      && r.Frame?
      && r.payload == f
      && r.leftover + Concat(chunks[r.used..]) == tail
  {
    var s := buf + Concat(chunks);
    var r := Deframe(fmt, buf, chunks);
    LiveHasNoEmpty(chunks);
    DeframeClosed(fmt, buf, chunks);
    DeframeIncomplete(fmt, buf, chunks);
    assert s[..fmt.width] == header;
    assert r.Frame?;
    DeframePrefix(fmt, buf, chunks);
    DeframeLayout(fmt, buf, chunks);
    assert s == (s[..fmt.width] + r.payload) + (r.leftover + Concat(chunks[r.used..]));
    CancelPrefix(header + f, tail, s[..fmt.width] + r.payload, r.leftover + Concat(chunks[r.used..]));
    CancelPrefix(header, f, s[..fmt.width], r.payload);
  }

  /** Round trip when both ends use the same prefix format: a receive call
      on a stream that starts with the encoding of `f` returns exactly `f`,
      however the bytes are split into chunks, and everything after the
      message is left over or unread. */
  lemma MessageRoundTrip(fmt: HeaderFormat, f: seq<byte>, tail: seq<byte>,
                         buf: seq<byte>, chunks: seq<seq<byte>>)
    requires |f| < Pow256(fmt.width)
    requires Live(chunks)
    requires buf + Concat(chunks) == EncodeMessage(fmt, f).value + tail
    ensures var r := Deframe(fmt, buf, chunks);
      && r.Frame?
      && r.payload == f
      && r.leftover + Concat(chunks[r.used..]) == tail
  {
    var m := EncodeMessage(fmt, f).value;
    assert m == m[..fmt.width] + f;
    DeframeLaidOut(fmt, m[..fmt.width], f, tail, buf, chunks);
  }

  /** Unread chunks without empty reads hold no bytes only when there are none. */
  lemma LiveConcatEmpty(chunks: seq<seq<byte>>, k: nat)
    requires Live(chunks) && k <= |chunks|
    requires |Concat(chunks[k..])| == 0
    ensures k == |chunks|
  {
  }

  /** The server's encoder and a receiver reading a four-byte big-endian
      prefix agree: every frame the server can send arrives intact, for
      every way the stream is split into reads, and the call reads every
      chunk and nothing past the frame. */
  lemma ServerToMatchingReceiver(f: seq<byte>, chunks: seq<seq<byte>>)
    requires EncodeFrame(f).Success?
    requires Live(chunks)
    requires Concat(chunks) == EncodeFrame(f).value
    ensures ReceiveFrame(ServerFormat, chunks) == Frame(f, [], |chunks|)
  {
    assert [] + Concat(chunks) == EncodeMessage(ServerFormat, f).value + [];
    MessageRoundTrip(ServerFormat, f, [], [], chunks);
    var r := ReceiveFrame(ServerFormat, chunks);
    LiveConcatEmpty(chunks, r.used);
  }

  /** Round trip for a whole stream: a receiver that keeps the bytes it read
      past each payload returns every frame sent back to back, in order,
      for every chunking without empty reads. */
  lemma {:induction false} StreamRoundTrip(fmt: HeaderFormat, frames: seq<seq<byte>>,
                                           buf: seq<byte>, chunks: seq<seq<byte>>)
    requires fmt.width > 0
    requires Encodable(fmt, frames)
    requires Live(chunks)
    requires buf + Concat(chunks) == Messages(fmt, frames)
    ensures RunBuffered(fmt, buf, chunks) == frames
    decreases frames
  {
    if |frames| == 0 {
      NoMessages(fmt, buf, chunks);
    } else {
      var leftover, used := FirstMessage(fmt, frames, buf, chunks);
      StreamRoundTrip(fmt, frames[1..], leftover, chunks[used..]);
      FirstThenRest(RunBuffered(fmt, buf, chunks), frames, RunBuffered(fmt, leftover, chunks[used..]));
    }
  }


  /** With no bytes at all, the buffered loop yields nothing. */
  lemma NoMessages(fmt: HeaderFormat, buf: seq<byte>, chunks: seq<seq<byte>>)
    requires fmt.width > 0
    requires |buf| + |Concat(chunks)| == 0
    ensures RunBuffered(fmt, buf, chunks) == []
  {
    FrameNeedsWholePayload(fmt, buf, chunks);
  }

  /** One step of the buffered loop on a stream of messages: it returns the
      first frame and continues on exactly the remaining messages. */
  lemma FirstMessage(fmt: HeaderFormat, frames: seq<seq<byte>>, buf: seq<byte>, chunks: seq<seq<byte>>)
    returns (leftover: seq<byte>, used: nat)
    requires fmt.width > 0
    requires Encodable(fmt, frames) && |frames| > 0
    requires Live(chunks)
    requires buf + Concat(chunks) == Messages(fmt, frames)
    ensures used <= |chunks|
    ensures Encodable(fmt, frames[1..])
    ensures Live(chunks[used..])
    ensures leftover + Concat(chunks[used..]) == Messages(fmt, frames[1..])
    ensures RunBuffered(fmt, buf, chunks) == [frames[0]] + RunBuffered(fmt, leftover, chunks[used..])
  {
    var r := Deframe(fmt, buf, chunks);
    MessageRoundTrip(fmt, frames[0], Messages(fmt, frames[1..]), buf, chunks);
    LiveSuffix(chunks, r.used);
    assert Encodable(fmt, frames[1..]) by {
      forall i | 0 <= i < |frames[1..]|
        ensures |frames[1..][i]| < Pow256(fmt.width)
      {
        assert frames[1..][i] == frames[i + 1];
      }
    }
    leftover, used := r.leftover, r.used;
  }

  /** When the first read holds exactly one whole message, a receive call
      returns its frame from that read alone and keeps nothing past it. */
  lemma OneMessageOneRead(fmt: HeaderFormat, f: seq<byte>, m: seq<byte>, rest: seq<seq<byte>>)
    requires fmt.width > 0
    requires EncodeMessage(fmt, f) == Success(m)
    requires Live(rest)
    ensures ReceiveFrame(fmt, [m] + rest) == Frame(f, [], 1)
  {
    var chunks := [m] + rest;
    assert chunks[..1] == [m] && chunks[1..] == rest;
    ConcatSplit(chunks, 1);
    ConcatSingle(m);
    assert Live(chunks) by {
      forall i | 0 <= i < |chunks|
        ensures |chunks[i]| > 0
      {
        if i > 0 {
          assert chunks[i] == rest[i - 1];
        }
      }
    }
    assert [] + Concat(chunks) == m + Concat(rest);
    MessageRoundTrip(fmt, f, Concat(rest), [], chunks);
    var r := Deframe(fmt, [], chunks);
    DeframeNeeded(fmt, [], chunks);
    // A second read would have to fit inside the empty leftover.
    var u := r.used;
    ConcatSplit(rest, u - 1);
    assert rest[u - 1..] == chunks[u..];
    ConcatCovers(rest, u - 1);
    assert r.leftover + Concat(rest) == [] + Concat(rest);
    CancelPrefix(r.leftover, Concat(rest), [], Concat(rest));
  }

  /** The client loop as written does recover every frame when each read
      carries exactly one whole message in the receiver's own format: the
      losses it suffers come from reads that join or split messages. */
  lemma {:induction false} AsWrittenOneMessagePerRead(fmt: HeaderFormat, frames: seq<seq<byte>>,
                                                      received: seq<seq<byte>>)
    requires fmt.width > 0
    requires |received| == |frames|
    requires forall i :: 0 <= i < |frames| ==> EncodeMessage(fmt, frames[i]) == Success(received[i])
    ensures RunAsWritten(fmt, received) == frames
    decreases frames
  {
    if |frames| > 0 {
      var rest := received[1..];
      OneMessagePerReadTail(fmt, frames, received);
      assert received == [received[0]] + rest;
      OneMessageOneRead(fmt, frames[0], received[0], rest);
      AsWrittenOneMessagePerRead(fmt, frames[1..], rest);
      FirstThenRest(RunAsWritten(fmt, received), frames, RunAsWritten(fmt, rest));
    }
  }

  /** After the first read of a one-message-per-read stream, the rest is one
      too, and none of its reads is empty. */
  lemma OneMessagePerReadTail(fmt: HeaderFormat, frames: seq<seq<byte>>, received: seq<seq<byte>>)
    requires fmt.width > 0
    requires |received| == |frames| > 0
    requires forall i :: 0 <= i < |frames| ==> EncodeMessage(fmt, frames[i]) == Success(received[i])
    ensures Live(received[1..])
    ensures forall i :: 0 <= i < |frames[1..]| ==> EncodeMessage(fmt, frames[1..][i]) == Success(received[1..][i])
  {
    var rest := received[1..];
    forall i | 0 <= i < |rest|
      ensures |rest[i]| > 0
      ensures EncodeMessage(fmt, frames[1..][i]) == Success(rest[i])
    {
      assert rest[i] == received[i + 1] && frames[1..][i] == frames[i + 1];
      assert EncodeMessage(fmt, frames[i + 1]) == Success(received[i + 1]);
    }
  }

  /** The receiver as written reads an eight-byte prefix, while the server
      writes four. Whatever the host byte order and however the stream is
      split, receiving one server message never yields the frame that was
      sent: a returned payload would need eight prefix bytes plus its own
      length, which leaves it at least four bytes short. */
  lemma AsWrittenNeverRecoversFrame(host: ByteOrder, f: seq<byte>, chunks: seq<seq<byte>>)
    requires EncodeFrame(f).Success?
    requires Concat(chunks) == EncodeFrame(f).value
    ensures var r := ReceiveFrame(ClientFormat(host), chunks);
      !(r.Frame? && r.payload == f)
  {
    var r := ReceiveFrame(ClientFormat(host), chunks);
    if r.Frame? {
      DeframeLayout(ClientFormat(host), [], chunks);
      var s := [] + Concat(chunks);
      assert |s| == 8 + |r.payload| + |r.leftover| + |Concat(chunks[r.used..])|;
    }
  }

  /** A receive call on no chunks at all neither returns a frame nor closes. */
  lemma NothingReceived(fmt: HeaderFormat)
    requires fmt.width > 0
    ensures ReceiveFrame(fmt, []).Incomplete?
  {
    DeframeClosed(fmt, [], []);
    FrameNeedsWholePayload(fmt, [], []);
  }

  /** The receiver as written drops what a call read past its payload. If
      two messages arrive in a single read, the second frame is lost even
      when the prefix formats match. */
  lemma AsWrittenDropsSecondFrame(fmt: HeaderFormat, f1: seq<byte>, f2: seq<byte>)
    requires fmt.width > 0
    requires |f1| < Pow256(fmt.width) && |f2| < Pow256(fmt.width)
    ensures RunAsWritten(fmt, [EncodeMessage(fmt, f1).value + EncodeMessage(fmt, f2).value]) == [f1]
  {
    var m1, m2 := EncodeMessage(fmt, f1).value, EncodeMessage(fmt, f2).value;
    var bytes := m1 + m2;
    var chunks := [bytes];
    ConcatSingle(bytes);
    assert Live(chunks) by {
      assert |bytes| >= fmt.width;
    }
    assert [] + Concat(chunks) == m1 + m2;
    MessageRoundTrip(fmt, f1, m2, [], chunks);
    var r := ReceiveFrame(fmt, chunks);
    assert chunks[r.used..] == [];
    NothingReceived(fmt);
    assert RunAsWritten(fmt, chunks) == [r.payload] + RunAsWritten(fmt, []);
  }

  /** With the bytes past each payload kept, the same single read yields both frames. */
  lemma BufferedKeepsSecondFrame(fmt: HeaderFormat, f1: seq<byte>, f2: seq<byte>)
    requires fmt.width > 0
    requires |f1| < Pow256(fmt.width) && |f2| < Pow256(fmt.width)
    ensures RunBuffered(fmt, [], [EncodeMessage(fmt, f1).value + EncodeMessage(fmt, f2).value]) == [f1, f2]
  {
    var m1, m2 := EncodeMessage(fmt, f1).value, EncodeMessage(fmt, f2).value;
    var bytes := m1 + m2;
    ConcatSingle(bytes);
    assert Live([bytes]) by {
      assert |bytes| >= fmt.width;
    }
    var frames: seq<seq<byte>> := [f1, f2];
    assert Encodable(fmt, frames);
    assert Messages(fmt, frames) == bytes by {
      assert frames[1..] == [f2];
      assert |frames[1..][1..]| == 0;
      assert Messages(fmt, [f2]) == m2 + Messages(fmt, []);
    }
    StreamRoundTrip(fmt, frames, [], [bytes]);
  }

  /** The payload loop has no end-of-stream check: if the stream ends after a
      complete prefix but before the payload it announces, the call neither
      returns a frame nor returns None. */
  lemma EndAfterPrefixHangs(fmt: HeaderFormat, c: seq<byte>)
    requires |c| >= fmt.width
    requires |c| - fmt.width < FromBytes(fmt.order, c[..fmt.width])
    ensures ReceiveFrame(fmt, [c, []]).Incomplete?
  {
    var chunks: seq<seq<byte>> := [c, []];
    assert Concat(chunks) == c by {
      assert chunks[1..] == [[]];
      ConcatSingle([]);
    }
    DeframeClosed(fmt, [], chunks);
    if |c| > 0 {
      assert FirstEmpty(chunks) == 1;
      assert chunks[..1] == [c];
      ConcatSingle(c);
    }
    FrameNeedsWholePayload(fmt, [], chunks);
    assert [] + Concat(chunks) == c;
  }

  /** The eight image bytes "JPEGDATA". */
  const JpegData: seq<byte> := [0x4A, 0x50, 0x45, 0x47, 0x44, 0x41, 0x54, 0x41]

  /** The wire bytes of the "JPEGDATA" frame: 00 00 00 08, then the eight bytes. */
  const JpegWire: seq<byte> := [0, 0, 0, 8] + JpegData

  /** The server encodes "JPEGDATA" as 00 00 00 08 followed by the eight bytes. */
  lemma JpegDataEncoding()
    ensures EncodeFrame(JpegData) == Success(JpegWire)
  {
    var e := EncodeFrame(JpegData).value;
    assert e[..4] == [0, 0, 0, 8];
    assert e == e[..4] + e[4..];
  }

  /** A receiver with the server's prefix format returns "JPEGDATA" exactly
      once from a single read of the whole message. */
  lemma JpegDataOneRead()
    ensures ReceiveFrame(ServerFormat, [JpegWire]) == Frame(JpegData, [], 1)
  {
    JpegDataEncoding();
    ConcatSingle(JpegWire);
    ServerToMatchingReceiver(JpegData, [JpegWire]);
  }

  /** The same holds when the message arrives in two reads split at any point. */
  lemma JpegDataTwoReads(cut: nat)
    requires 0 < cut < |JpegWire|
    ensures ReceiveFrame(ServerFormat, [JpegWire[..cut], JpegWire[cut..]]) == Frame(JpegData, [], 2)
  {
    JpegDataEncoding();
    var two: seq<seq<byte>> := [JpegWire[..cut], JpegWire[cut..]];
    assert Concat(two) == JpegWire by {
      assert two[1..] == [JpegWire[cut..]];
      ConcatSingle(JpegWire[cut..]);
      assert JpegWire == JpegWire[..cut] + JpegWire[cut..];
    }
    ServerToMatchingReceiver(JpegData, two);
  }

  /** The receiver as written, given the whole "JPEGDATA" message in one read,
      neither returns a frame nor reports the end of the stream: the
      eight-byte prefix it reads asks for more bytes than ever arrive, so it
      keeps waiting. */
  lemma JpegDataAsWrittenReceiver(host: ByteOrder)
    ensures ReceiveFrame(ClientFormat(host), [JpegWire]).Incomplete?
  {
    ConcatSingle(JpegWire);
    LiveHasNoEmpty([JpegWire]);
    PrefixTooLarge(host, JpegWire[..8]);
  }

  /** The first eight bytes of the "JPEGDATA" message, read as one unsigned
      64-bit number in either byte order, ask for far more than the four
      bytes that follow them. */
  lemma PrefixTooLarge(host: ByteOrder, h: seq<byte>)
    requires h == [0, 0, 0, 8, 0x4A, 0x50, 0x45, 0x47]
    ensures FromBytes(host, h) > 4
  {
    match host
    case BigEndian =>
      assert FromBigEndian(h) >= h[7];
    case LittleEndian =>
      var rv := Reverse(h);
      assert rv[4] == 8;
      assert FromBigEndian(rv[..5]) >= 8 by {
        assert rv[..5][4] == 8;
      }
      assert FromBigEndian(rv[..6]) >= FromBigEndian(rv[..5]) by {
        assert rv[..6][..5] == rv[..5];
      }
      assert FromBigEndian(rv[..7]) >= FromBigEndian(rv[..6]) by {
        assert rv[..7][..6] == rv[..6];
      }
      assert FromBigEndian(rv) >= FromBigEndian(rv[..7]);
  }
}
