/**
 Frames on a byte stream: `read_frame` and the reader loop (crates/execution/src/v8_host.rs), and
 many senders that share one locked writer.
 */
module FrameStream {
  import opened Wire
  import opened IpcFormat
  import opened V8Ipc

  /** `read_frame`: a four-byte length, the size limit, that many bytes, one frame. */
  function ReadFrame(side: Side, s: seq<u8>): (r: Read<BinaryFrame>)
    ensures r.Ok? ==> |r.value.1| < |s|
  {
    var (n, t) :- ReadUint(s, 4);
    if n > MAX_FRAME_SIZE then Err(InvalidData) else
    var (body, rest) :- ReadBytes(t, n);
    var f :- Decode(side, body);
    Ok((f, rest))
  }

  /** The frames a reader gets out of `s`, and the error that stops it. */
  function ReadAll(side: Side, s: seq<u8>): (r: (seq<BinaryFrame>, IoError))
    decreases |s|
  {
    var next := ReadFrame(side, s);
    if next.Err? then ([], next.error) else
    var (fs, e) := ReadAll(side, next.value.1);
    ([next.value.0] + fs, e)
  }

  predicate AllEncode(fs: seq<BinaryFrame>) {
    forall i :: 0 <= i < |fs| ==> Encode(fs[i]).Ok?
  }

  predicate AllSpeak(side: Side, fs: seq<BinaryFrame>) {
    forall i :: 0 <= i < |fs| ==> Speaks(side, fs[i])
  }

  /** The bytes of frames written one after the other. */
  function Stream(fs: seq<BinaryFrame>): (s: seq<u8>)
    requires AllEncode(fs)
  {
    if fs == [] then [] else Encode(fs[0]).value + Stream(fs[1..])
  }

  /** A frame in front of any bytes is read back, and exactly its own bytes are consumed. */
  lemma ReadFrameOfEncoded(side: Side, f: BinaryFrame, tail: seq<u8>)
    requires Encode(f).Ok? && Speaks(side, f)
    ensures ReadFrame(side, Encode(f).value + tail) == Ok((f, tail))
  {
    hide Decode, Body, GuardsPass, Be, Denotes;
    EncodeDecode(side, f);
    var body := Body(f);
    assert Encode(f).value == Be(|body|, 4) + body;
    assert Encode(f).value + tail == Be(|body|, 4) + (body + tail);
    Pow256Values();
    ReadUintOfBe(|body|, 4, body + tail);
    assert (body + tail)[..|body|] == body && (body + tail)[|body|..] == tail;
  }

  /** `body` behind its length, in front of `rest`, within the size limit. */
  predicate Framed(s: seq<u8>, body: seq<u8>, rest: seq<u8>) {
    |body| <= MAX_FRAME_SIZE && s == Be(|body|, 4) + (body + rest)
  }

  /**
   A frame is read if and only if the stream starts with the length of a body within the limit and
   that body, and the body is read as the frame; so every frame that is read can be sent on.
   */
  lemma ReadFrameExact(side: Side, s: seq<u8>, f: BinaryFrame, rest: seq<u8>)
    ensures ReadFrame(side, s) == Ok((f, rest)) <==>
            exists body :: Framed(s, body, rest) && Decode(side, body) == Ok(f)
    ensures ReadFrame(side, s) == Ok((f, rest)) ==> Encode(f).Ok?
  {
    hide Decode, Body, GuardsPass, Be, FromBe;
    if ReadFrame(side, s) == Ok((f, rest)) {
      ReadUintInverse(s, 4);
      var (n, t) := ReadUint(s, 4).value;
      var body := t[..n];
      assert t == body + rest;
      assert Framed(s, body, rest);
      DecodeEncode(side, body);
    }
    if body :| Framed(s, body, rest) && Decode(side, body) == Ok(f) {
      Pow256Values();
      ReadUintOfBe(|body|, 4, body + rest);
      assert (body + rest)[..|body|] == body && (body + rest)[|body|..] == rest;
    }
  }

  /** A length above 64 MiB is refused before any of the body is read; a stream that is too short has ended. */
  lemma ReadFrameErrors(side: Side, s: seq<u8>)
    ensures |s| < 4 ==> ReadFrame(side, s) == Err(UnexpectedEof)
    ensures |s| >= 4 && FromBe(s[..4]) > 67108864 ==> ReadFrame(side, s) == Err(InvalidData)
    ensures |s| >= 4 && FromBe(s[..4]) <= 67108864 && |s| - 4 < FromBe(s[..4]) ==>
      ReadFrame(side, s) == Err(UnexpectedEof)
  {
    hide Decode, FromBe;
  }

  /** Reading undoes writing, whatever follows on the stream. */
  lemma {:induction false} ReadAllOfStream(side: Side, fs: seq<BinaryFrame>, tail: seq<u8>)
    requires AllEncode(fs) && AllSpeak(side, fs)
    ensures ReadAll(side, Stream(fs) + tail) == (fs + ReadAll(side, tail).0, ReadAll(side, tail).1)
  {
    hide ReadFrame, Encode, Speaks;
    if fs == [] {
      assert [] + tail == tail;
      assert fs + ReadAll(side, tail).0 == ReadAll(side, tail).0;
    } else {
      var first := Encode(fs[0]).value;
      assert Stream(fs) + tail == first + (Stream(fs[1..]) + tail);
      ReadFrameOfEncoded(side, fs[0], Stream(fs[1..]) + tail);
      ReadAllOfStream(side, fs[1..], tail);
      var more := ReadAll(side, tail).0;
      assert [fs[0]] + (fs[1..] + more) == fs + more;
    }
  }

  /** How many of the frames lie wholly within the first `k` bytes. */
  function WholeFrames(fs: seq<BinaryFrame>, k: nat): (n: nat)
    requires AllEncode(fs)
    ensures n <= |fs|
  {
    if fs == [] || k < |Encode(fs[0]).value| then 0
    else 1 + WholeFrames(fs[1..], k - |Encode(fs[0]).value|)
  }

  /** A proper prefix of a frame is an early end, never a misread frame or a size error. */
  lemma ReadFrameOfCut(side: Side, f: BinaryFrame, k: nat)
    requires Encode(f).Ok? && Speaks(side, f) && k < |Encode(f).value|
    ensures ReadFrame(side, Encode(f).value[..k]) == Err(UnexpectedEof)
  {
    hide Decode, Body, GuardsPass, Be, FromBe, Denotes;
    EncodeDecode(side, f);
    var bytes := Encode(f).value;
    if k >= 4 {
      assert bytes[..k][..4] == bytes[..4];
    }
  }

  /**
   A stream cut at any byte, as when the peer dies in the middle of a write, yields exactly the
   frames that were completely written and then an end of file.
   */
  lemma {:induction false} ReadAllOfCutStream(side: Side, fs: seq<BinaryFrame>, k: nat)
    requires AllEncode(fs) && AllSpeak(side, fs)
    requires k <= |Stream(fs)|
    ensures ReadAll(side, Stream(fs)[..k]) == (fs[..WholeFrames(fs, k)], UnexpectedEof)
  {
    hide ReadFrame, Encode, Speaks;
    if fs == [] {
      assert ReadFrame(side, []) == Err(UnexpectedEof) by { ReadFrameOfNothing(side); }
    } else {
      var first := Encode(fs[0]).value;
      if k < |first| {
        assert Stream(fs)[..k] == first[..k];
        ReadFrameOfCut(side, fs[0], k);
      } else {
        var rest := Stream(fs[1..])[..k - |first|];
        assert Stream(fs)[..k] == first + rest;
        ReadFrameOfEncoded(side, fs[0], rest);
        ReadAllOfCutStream(side, fs[1..], k - |first|);
        assert fs[..WholeFrames(fs, k)] == [fs[0]] + fs[1..][..WholeFrames(fs[1..], k - |first|)];
      }
    }
  }

  lemma ReadFrameOfNothing(side: Side)
    ensures ReadFrame(side, []) == Err(UnexpectedEof)
  {
  }

  // ---------------------------------------------------------------------
  // Many senders, one writer
  // ---------------------------------------------------------------------

  /** One call of a sending method: who called it, with which frame. */
  datatype Send = Send(sender: nat, frame: BinaryFrame)

  /** A frame that cannot be encoded is refused before the lock is taken. */
  function Delivered(calls: seq<Send>): (d: seq<Send>)
    ensures forall i :: 0 <= i < |d| ==> Encode(d[i].frame).Ok?
  {
    if calls == [] then []
    else if Encode(calls[0].frame).Ok? then [calls[0]] + Delivered(calls[1..])
    else Delivered(calls[1..])
  }

  function Frames(calls: seq<Send>): (fs: seq<BinaryFrame>)
    ensures |fs| == |calls|
    ensures forall i :: 0 <= i < |calls| ==> fs[i] == calls[i].frame
  {
    seq(|calls|, i requires 0 <= i < |calls| => calls[i].frame)
  }

  /** The calls of one sender, in the order they got the lock. */
  function By(sender: nat, calls: seq<Send>): (fs: seq<BinaryFrame>) {
    if calls == [] then []
    else if calls[0].sender == sender then [calls[0].frame] + By(sender, calls[1..])
    else By(sender, calls[1..])
  }

  function Encodable(fs: seq<BinaryFrame>): (es: seq<BinaryFrame>) {
    if fs == [] then []
    else if Encode(fs[0]).Ok? then [fs[0]] + Encodable(fs[1..])
    else Encodable(fs[1..])
  }

  /** What the writer holds after one locked send. */
  function Appended(bytes: seq<u8>, f: BinaryFrame): (s: seq<u8>) {
    if Encode(f).Ok? then bytes + Encode(f).value else bytes
  }

  function Written(bytes: seq<u8>, calls: seq<Send>): (s: seq<u8>)
    decreases |calls|
  {
    if calls == [] then bytes else Written(Appended(bytes, calls[0].frame), calls[1..])
  }

  lemma StreamCons(f: BinaryFrame, fs: seq<BinaryFrame>)
    requires Encode(f).Ok? && AllEncode(fs)
    ensures AllEncode([f] + fs) && Stream([f] + fs) == Encode(f).value + Stream(fs)
  {
    hide Encode;
    assert ([f] + fs)[1..] == fs;
  }

  lemma FramesCons(c: Send, calls: seq<Send>)
    ensures Frames([c] + calls) == [c.frame] + Frames(calls)
  {
  }

  lemma DeliveredEncode(calls: seq<Send>)
    ensures AllEncode(Frames(Delivered(calls)))
  {
    hide Encode;
  }

  lemma {:induction false} WrittenIsStream(bytes: seq<u8>, calls: seq<Send>)
    ensures AllEncode(Frames(Delivered(calls)))
    ensures Written(bytes, calls) == bytes + Stream(Frames(Delivered(calls)))
    decreases |calls|
  {
    hide Encode, Frames, Stream, AllEncode;
    DeliveredEncode(calls);
    if calls == [] {
      assert Stream(Frames([])) == [] by { NothingWritten(); }
    } else {
      var c, rest := calls[0], calls[1..];
      WrittenIsStream(Appended(bytes, c.frame), rest);
      if Encode(c.frame).Ok? {
        var first, later := Encode(c.frame).value, Frames(Delivered(rest));
        FramesCons(c, Delivered(rest));
        StreamCons(c.frame, later);
        assert bytes + first + Stream(later) == bytes + (first + Stream(later));
      }
    }
  }

  lemma NothingWritten()
    ensures AllEncode(Frames([])) && Stream(Frames([])) == []
  {
  }

  lemma {:induction false} DeliveredKeepsOrder(sender: nat, calls: seq<Send>)
    ensures By(sender, Delivered(calls)) == Encodable(By(sender, calls))
  {
    hide Encode;
    if calls != [] {
      var c, rest := calls[0], calls[1..];
      DeliveredKeepsOrder(sender, rest);
      if Encode(c.frame).Ok? {
        assert Delivered(calls) == [c] + Delivered(rest);
        assert Delivered(calls)[1..] == Delivered(rest);
      }
      if c.sender == sender {
        assert By(sender, calls)[1..] == By(sender, rest);
      }
    }
  }

  /**
   Whatever order the senders take the lock in, the runtime reads the authentication frame and
   then exactly the frames that were sent, in lock order, up to the end of the stream; and the
   frames of each sender arrive in the order its own program sent them.
   */
  lemma InterleavedSends(token: Utf8, calls: seq<Send>, programs: seq<seq<BinaryFrame>>)
    requires Encode(Authenticate(token)).Ok?
    requires forall i :: 0 <= i < |programs| ==> By(i, calls) == programs[i]
    ensures var bytes := Written(Encode(Authenticate(token)).value, calls);
            ReadAll(Runtime, bytes) == ([Authenticate(token)] + Frames(Delivered(calls)), UnexpectedEof)
    ensures forall i :: 0 <= i < |programs| ==> By(i, Delivered(calls)) == Encodable(programs[i])
  {
    hide Encode, ReadFrame;
    var auth := Authenticate(token);
    var fs := Frames(Delivered(calls));
    WrittenIsStream(Encode(auth).value, calls);
    assert Stream([auth] + fs) == Encode(auth).value + Stream(fs) by {
      assert ([auth] + fs)[1..] == fs;
    }
    ReadAllOfStream(Runtime, [auth] + fs, []);
    assert Stream([auth] + fs) + [] == Stream([auth] + fs);
    ReadFrameOfNothing(Runtime);
    assert [auth] + fs + [] == [auth] + fs;
    forall i | 0 <= i < |programs|
      ensures By(i, Delivered(calls)) == Encodable(programs[i])
    {
      DeliveredKeepsOrder(i, calls);
    }
  }

  /** The socket writer behind the lock; a locked `write_all` and `flush` is one step. */
  class SharedWriter {
    var bytes: seq<u8>

    constructor ()
      ensures bytes == []
    {
      bytes := [];
    }

    /** `send_frame`, and the common end of every sending method of a session handle. */
    method SendFrame(f: BinaryFrame) returns (r: Result<()>)
      modifies this
      ensures bytes == Appended(old(bytes), f)
      ensures if Encode(f).Ok? then r == Ok(()) else r == Err(Encode(f).error)
    {
      hide Encode;
      var encoded :- EncodeFrame(f);
      bytes := bytes + encoded;
      return Ok(());
    }
  }

  class V8SessionHandle {
    const sessionId: Utf8
    const writer: SharedWriter

    constructor (sessionId: Utf8, writer: SharedWriter)
      ensures this.sessionId == sessionId && this.writer == writer
    {
      this.sessionId := sessionId;
      this.writer := writer;
    }

    method SendBridgeResponse(callId: u64, status: u8, payload: seq<u8>) returns (r: Result<()>)
      modifies writer
      ensures writer.bytes == Appended(old(writer.bytes), BridgeResponse(sessionId, callId, status, payload))
      ensures r.Ok? <==> Encode(BridgeResponse(sessionId, callId, status, payload)).Ok?
    {
      hide Encode;
      r := writer.SendFrame(BridgeResponse(sessionId, callId, status, payload));
    }

    method SendStreamEvent(eventType: Utf8, payload: seq<u8>) returns (r: Result<()>)
      modifies writer
      ensures writer.bytes == Appended(old(writer.bytes), StreamEvent(sessionId, eventType, payload))
      ensures r.Ok? <==> Encode(StreamEvent(sessionId, eventType, payload)).Ok?
    {
      hide Encode;
      r := writer.SendFrame(StreamEvent(sessionId, eventType, payload));
    }

    method Terminate() returns (r: Result<()>)
      modifies writer
      ensures writer.bytes == Appended(old(writer.bytes), TerminateExecution(sessionId))
      ensures r.Ok? <==> Encode(TerminateExecution(sessionId)).Ok?
    {
      hide Encode;
      r := writer.SendFrame(TerminateExecution(sessionId));
    }
  }

  /** The receiving end of a socket, as `read_exact` sees it. */
  class FrameReader {
    const input: seq<u8>
    var pos: nat

    ghost predicate Valid()
      reads this
    {
      pos <= |input|
    }

    ghost function Rest(): (s: seq<u8>)
      requires Valid()
      reads this
    {
      input[pos..]
    }

    constructor (input: seq<u8>)
      ensures Valid() && Rest() == input
    {
      this.input := input;
      pos := 0;
    }

    /** Fills a buffer of `n` bytes or fails; what was read before a failure is gone. */
    method ReadExact(n: nat) returns (r: Result<seq<u8>>)
      requires Valid()
      modifies this`pos
      ensures Valid() && Reads(ReadBytes(old(Rest()), n), r, Rest())
    {
      if pos + n > |input| {
        pos := |input|;
        return Err(UnexpectedEof);
      }
      var b := input[pos..pos + n];
      assert b == Rest()[..n];
      pos := pos + n;
      return Ok(b);
    }

    method ReadOne(side: Side) returns (r: Result<BinaryFrame>)
      requires Valid()
      modifies this`pos
      ensures Valid() && Reads(ReadFrame(side, old(Rest())), r, Rest())
    {
      hide Decode, FromBe, Denotes;
      var len :- ReadExact(4);
      var total := Word(len[0], len[1], len[2], len[3]);
      FromBe4(len);
      assert len[..4] == len;
      if total > MAX_FRAME_SIZE {
        return Err(InvalidData);
      }
      var body :- ReadExact(total);
      r := DecodeFrame(side, body);
    }
  }
}
