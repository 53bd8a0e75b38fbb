/**
 The frames byte by byte, as the wire format is documented (crates/execution/src/v8_ipc.rs,
 crates/v8-runtime/src/ipc_binary.rs): the type byte, the session id behind its length, and then the fields of
 each type. Nothing here is taken from the format that the codec is proved against; the theorems
 below say that the two agree.
 */
module IpcBytes {
  import opened Wire
  import opened IpcFormat
  import V8Ipc

  /** A number in two, four and eight bytes, most significant first. */
  function Big2(n: nat): (s: seq<u8>) {
    [n / 256 % 256, n % 256]
  }

  function Big4(n: nat): (s: seq<u8>) {
    [n / 16777216 % 256, n / 65536 % 256, n / 256 % 256, n % 256]
  }

  function Big8(n: nat): (s: seq<u8>) {
    Big4(n / 4294967296) + Big4(n)
  }

  /** The type byte and the session id. */
  function Head(code: u8, sid: seq<u8>): (s: seq<u8>) {
    [code, |sid| % 256] + sid
  }

  function ErrorBytes(e: ExecutionError): (s: seq<u8>) {
    (Big2(|e.errorType|) + e.errorType) + (Big2(|e.message|) + e.message)
    + (Big2(|e.stack|) + e.stack) + (Big2(|e.code|) + e.code)
  }

  /** The body of a frame. */
  function Documented(f: BinaryFrame): (s: seq<u8>) {
    match f
    case Authenticate(token) => [0x01, 0] + token
    case CreateSession(sid, heap, cpu) => Head(0x02, sid) + Big4(heap) + Big4(cpu)
    case DestroySession(sid) => Head(0x03, sid)
    case InjectGlobals(sid, payload) => Head(0x04, sid) + payload
    case Execute(sid, mode, path, bridge, script, code) =>
      Head(0x05, sid) + [mode] + (Big2(|path|) + path) + (Big4(|bridge|) + bridge) + (Big4(|script|) + script) + code
    case BridgeResponse(sid, id, status, payload) => Head(0x06, sid) + Big8(id) + [status] + payload
    case StreamEvent(sid, kind, payload) => Head(0x07, sid) + (Big2(|kind|) + kind) + payload
    case TerminateExecution(sid) => Head(0x08, sid)
    case WarmSnapshot(bridge) => [0x09, 0] + (Big4(|bridge|) + bridge)
    case BridgeCall(sid, id, name, payload) => Head(0x81, sid) + Big8(id) + (Big2(|name|) + name) + payload
    case ExecutionResult(sid, exit, exports, error) =>
      Head(0x82, sid) + Big4(if exit < 0 then exit + 4294967296 else exit) +
      (match (exports, error)
       case (None, None) => [0]
       case (Some(x), None) => [1] + Big4(|x|) + x
       case (None, Some(e)) => [2] + ErrorBytes(e)
       case (Some(x), Some(e)) => [3] + Big4(|x|) + x + ErrorBytes(e))
    case Log(sid, channel, message) => Head(0x83, sid) + [channel] + message
    case StreamCallback(sid, kind, payload) => Head(0x84, sid) + (Big2(|kind|) + kind) + payload
  }

  /** The strings whose lengths take one byte or two. */
  predicate LengthsFit(f: BinaryFrame) {
    match f
    case Authenticate(_) => true
    case WarmSnapshot(_) => true
    case CreateSession(sid, _, _) => |sid| <= 255
    case DestroySession(sid) => |sid| <= 255
    case InjectGlobals(sid, _) => |sid| <= 255
    case Execute(sid, _, path, _, _, _) => |sid| <= 255 && |path| <= 65535
    case BridgeResponse(sid, _, _, _) => |sid| <= 255
    case StreamEvent(sid, kind, _) => |sid| <= 255 && |kind| <= 65535
    case TerminateExecution(sid) => |sid| <= 255
    case BridgeCall(sid, _, name, _) => |sid| <= 255 && |name| <= 65535
    case ExecutionResult(sid, _, _, error) =>
      |sid| <= 255 &&
      (error.Some? ==>
         var e := error.value;
         |e.errorType| <= 65535 && |e.message| <= 65535 && |e.stack| <= 65535 && |e.code| <= 65535)
    case Log(sid, _, _) => |sid| <= 255
    case StreamCallback(sid, kind, _) => |sid| <= 255 && |kind| <= 65535
  }

  // ---------------------------------------------------------------------
  // The two definitions agree
  // ---------------------------------------------------------------------

  lemma BigIsBe(n: nat)
    ensures Big2(n) == Be(n, 2) && Big4(n) == Be(n, 4) && Big8(n) == Be(n, 8)
  {
    V8Ipc.U16BytesAreBe(n);
    V8Ipc.U32BytesAreBe(n);
    V8Ipc.U32BytesAreBe(n / 4294967296);
    V8Ipc.U64BytesAreBe(n);
  }

  lemma PrefixedIs(b: seq<u8>)
    ensures Prefixed(b, 2) == Big2(|b|) + b && Prefixed(b, 4) == Big4(|b|) + b
  {
    hide Be, Big2, Big4, Big8;
    BigIsBe(|b|);
  }

  lemma ByteIs(n: u8)
    ensures Be(n, 1) == [n]
  {
    V8Ipc.U8ByteIsBe(n);
  }

  lemma HeadIs(code: u8, sid: seq<u8>, rest: seq<u8>)
    ensures [code] + (Prefixed(sid, 1) + rest) == Head(code, sid) + rest
  {
    assert Be(|sid|, 1) == Be(|sid| / 256, 0) + [|sid| % 256];
  }

  lemma LayoutIs(f: BinaryFrame)
    requires HasSession(f)
    ensures Body(f) == Head(Tag(f), f.sid) + Fields(f, TIGHT)
  {
    hide Fields, Tag, Head, Prefixed;
    HeadIs(Tag(f), f.sid, Fields(f, TIGHT));
  }

  lemma Join3(a: seq<u8>, b: seq<u8>, c: seq<u8>)
    ensures a + (b + c) == a + b + c
  {
  }

  lemma Join6(a: seq<u8>, b: seq<u8>, c: seq<u8>, d: seq<u8>, e: seq<u8>, f: seq<u8>)
    ensures a + (b + (c + (d + (e + f)))) == a + b + c + d + e + f
  {
    Join3(a + b + c + d, e, f);
    Join3(a + b + c, d, e + f);
    Join3(a + b, c, d + (e + f));
    Join3(a, b, c + (d + (e + f)));
  }

  lemma ErrorBytesAre(e: ExecutionError)
    ensures ErrorFields(e, []) == ErrorBytes(e)
  {
    hide Prefixed, Big2, Big4;
    PrefixedIs(e.errorType);
    PrefixedIs(e.message);
    PrefixedIs(e.stack);
    PrefixedIs(e.code);
    var a, b, c, d := Prefixed(e.errorType, 2), Prefixed(e.message, 2), Prefixed(e.stack, 2), Prefixed(e.code, 2);
    assert a + (b + (c + (d + []))) == a + b + c + d;
  }

  lemma ExecutionResultBytes(f: BinaryFrame)
    requires f.ExecutionResult?
    ensures Body(f) == Documented(f)
  {
    hide Head, Prefixed, Be, Big2, Big4, ErrorFields, ErrorBytes;
    LayoutIs(f);
    var h, x := Head(0x82, f.sid), Big4(if f.exitCode < 0 then f.exitCode + 4294967296 else f.exitCode);
    BigIsBe(ToU32(f.exitCode));
    ByteIs(Flags(f.exports, f.error));
    if f.exports.Some? {
      PrefixedIs(f.exports.value);
    }
    if f.error.Some? {
      ErrorBytesAre(f.error.value);
    }
    match (f.exports, f.error)
    case (None, None) =>
      Join3(h, x, [0] + []);
    case (Some(b), None) =>
      Join3(h, x, [1] + ((Big4(|b|) + b) + []));
      assert (Big4(|b|) + b) + [] == Big4(|b|) + b;
      Join3([1], Big4(|b|), b);
    case (None, Some(e)) =>
      Join3(h, x, [2] + ErrorBytes(e));
    case (Some(b), Some(e)) =>
      Join3(h, x, [3] + ((Big4(|b|) + b) + ErrorBytes(e)));
      Join3([3], Big4(|b|) + b, ErrorBytes(e));
      Join3([3], Big4(|b|), b);
  }

  lemma ExecuteBytes(f: BinaryFrame)
    requires f.Execute?
    ensures Body(f) == Documented(f)
  {
    hide Head, Prefixed, Be, Big2, Big4;
    LayoutIs(f);
    ByteIs(f.mode);
    PrefixedIs(f.filePath);
    PrefixedIs(f.bridgeCode);
    PrefixedIs(f.postRestoreScript);
    var h, a, b := Head(0x05, f.sid), Prefixed(f.filePath, 2), Prefixed(f.bridgeCode, 4);
    var c := Prefixed(f.postRestoreScript, 4);
    Join6(h, [f.mode], a, b, c, f.userCode);
  }

  lemma CallBytes(f: BinaryFrame)
    requires f.BridgeCall? || f.BridgeResponse?
    ensures Body(f) == Documented(f)
  {
    hide Head, Prefixed, Be, Big2, Big4, Big8;
    LayoutIs(f);
    BigIsBe(f.callId);
    var h, x := Head(Tag(f), f.sid), Big8(f.callId);
    if f.BridgeCall? {
      PrefixedIs(f.callMethod);
      var a := Prefixed(f.callMethod, 2);
      assert h + (x + (a + f.payload)) == h + x + a + f.payload;
    } else {
      ByteIs(f.status);
      assert h + (x + ([f.status] + f.payload)) == h + x + [f.status] + f.payload;
    }
  }

  lemma NamedBytes(f: BinaryFrame)
    requires f.StreamEvent? || f.StreamCallback?
    ensures Body(f) == Documented(f)
  {
    hide Head, Prefixed, Be, Big2, Big4, Big8;
    LayoutIs(f);
    var kind := if f.StreamEvent? then f.eventType else f.callbackType;
    PrefixedIs(kind);
    Join3(Head(Tag(f), f.sid), Prefixed(kind, 2), f.payload);
  }

  lemma NoSessionBytes(f: BinaryFrame)
    requires !HasSession(f)
    ensures Body(f) == Documented(f)
  {
    V8Ipc.EmptySessionId();
    if f.WarmSnapshot? {
      hide Prefixed, Be, Big4;
      PrefixedIs(f.bridgeCode);
      var b := Prefixed(f.bridgeCode, 4);
      assert [0x09 as u8] + ([0 as u8] + (b + [])) == [0x09, 0] + b;
    } else {
      assert [0x01 as u8] + ([0 as u8] + f.token) == [0x01, 0] + f.token;
    }
  }

  lemma SmallBytes(f: BinaryFrame)
    requires f.CreateSession? || f.DestroySession? || f.InjectGlobals? || f.TerminateExecution? || f.Log?
    ensures Body(f) == Documented(f)
  {
    hide Head, Prefixed, Be, Big2, Big4, Big8;
    LayoutIs(f);
    var h := Head(Tag(f), f.sid);
    assert h + [] == h;
    match f
    case CreateSession(_, heap, cpu) =>
      BigIsBe(heap);
      BigIsBe(cpu);
      assert h + (Big4(heap) + (Big4(cpu) + [])) == h + Big4(heap) + Big4(cpu);
    case Log(_, channel, message) =>
      ByteIs(channel);
      Join3(h, [channel], message);
    case _ =>
  }

  /** The body that the codec is proved against is the documented one, byte for byte. */
  lemma BodyIsDocumented(f: BinaryFrame)
    ensures Body(f) == Documented(f)
  {
    hide Body, Documented;
    match f
    case Authenticate(_) => NoSessionBytes(f);
    case WarmSnapshot(_) => NoSessionBytes(f);
    case Execute(_, _, _, _, _, _) => ExecuteBytes(f);
    case ExecutionResult(_, _, _, _) => ExecutionResultBytes(f);
    case BridgeCall(_, _, _, _) => CallBytes(f);
    case BridgeResponse(_, _, _, _) => CallBytes(f);
    case StreamEvent(_, _, _) => NamedBytes(f);
    case StreamCallback(_, _, _) => NamedBytes(f);
    case _ => SmallBytes(f);
  }

  lemma GuardsAreLengths(f: BinaryFrame)
    ensures GuardsPass(f) <==> LengthsFit(f)
  {
  }

  /**
   What `encode_frame` returns, in bytes: a string that is too long for its length field, then a body of more than
   64 MiB, is an error; every other frame is its body behind its length.
   */
  lemma EncodeIsDocumented(f: BinaryFrame)
    ensures Encode(f) ==
      if !LengthsFit(f) then Err(InvalidInput)
      else if |Documented(f)| > 67108864 then Err(InvalidData)
      else Ok(Big4(|Documented(f)|) + Documented(f))
  {
    hide Body, Documented, GuardsPass, LengthsFit, Big4, Be;
    BodyIsDocumented(f);
    GuardsAreLengths(f);
    BigIsBe(|Body(f)|);
  }

  /** Either implementation that knows the frame reads the documented body as it. */
  lemma DocumentedIsRead(side: Side, f: BinaryFrame)
    requires LengthsFit(f) && |Documented(f)| <= 67108864 && (f.WarmSnapshot? ==> side.Runtime?)
    ensures Decode(side, Documented(f)) == Ok(f)
  {
    hide Body, Documented, GuardsPass, LengthsFit, Decode;
    BodyIsDocumented(f);
    EncodeIsDocumented(f);
    EncodeDecode(side, f);
  }

  predicate KnownCode(side: Side, code: u8) {
    1 <= code <= 8 || (code == 9 && side.Runtime?) || 0x81 <= code <= 0x84
  }

  lemma UnknownCode(side: Side, code: u8, sid: Utf8, s: seq<u8>)
    requires !KnownCode(side, code)
    ensures DecodeFields(side, code, sid, s) == Err(InvalidData)
  {
  }

  /** A string behind a length of one byte. */
  lemma ReadsHead(s: seq<u8>)
    ensures ReadString(s, 1) ==
      if |s| == 0 || |s| < 1 + s[0] as int then Err(UnexpectedEof)
      else if !ValidUtf8(s[1..1 + s[0] as int]) then Err(InvalidData)
      else Ok((s[1..1 + s[0] as int], s[1 + s[0] as int..]))
  {
    hide ValidUtf8;
    if |s| > 0 {
      assert s[..1] == [] + [s[0]];
      assert FromBe(s[..1]) == s[0] by {
        assert FromBe([]) == 0;
      }
      if |s| >= 1 + s[0] as int {
        assert s[1..][..s[0]] == s[1..1 + s[0] as int] && s[1..][s[0]..] == s[1 + s[0] as int..];
      }
    }
  }

  /** How the header of a body can be wrong, and which error each of the ways gives. */
  lemma HeaderErrors(side: Side, s: seq<u8>)
    ensures s == [] ==> Decode(side, s) == Err(InvalidData)
    ensures |s| == 1 ==> Decode(side, s) == Err(UnexpectedEof)
    ensures |s| >= 2 && |s| < 2 + s[1] as int ==> Decode(side, s) == Err(UnexpectedEof)
    ensures |s| >= 2 && |s| >= 2 + s[1] as int && !ValidUtf8(s[2..2 + s[1] as int]) ==>
      Decode(side, s) == Err(InvalidData)
    ensures |s| >= 2 && |s| >= 2 + s[1] as int && ValidUtf8(s[2..2 + s[1] as int]) && !KnownCode(side, s[0]) ==>
      Decode(side, s) == Err(InvalidData)
  {
    hide ValidUtf8, DecodeFields, ReadString, KnownCode;
    if s != [] {
      ReadsHead(s[1..]);
    }
    if |s| >= 2 && |s| >= 2 + s[1] as int {
      assert s[1..][1..1 + s[1] as int] == s[2..2 + s[1] as int];
      if ValidUtf8(s[2..2 + s[1] as int]) && !KnownCode(side, s[0]) {
        UnknownCode(side, s[0], s[2..2 + s[1] as int], s[1..][1 + s[1] as int..]);
      }
    }
  }

  /** The header-only lookup of the runtime, in bytes and with its errors. */
  lemma ExtractIs(raw: seq<u8>, sid: Utf8)
    ensures |raw| < 2 ==> ExtractSessionId(raw) == Err(InvalidData)
    ensures |raw| >= 2 && (raw[0] == 1 || raw[0] == 9) ==> ExtractSessionId(raw) == Ok(None)
    ensures |raw| >= 2 && raw[0] != 1 && raw[0] != 9 ==>
      (ExtractSessionId(raw) == Ok(Some(sid)) <==> raw[1] == |sid| && sid <= raw[2..])
    ensures ExtractSessionId(raw).Err? ==> ExtractSessionId(raw) == Err(InvalidData)
  {
    hide ValidUtf8;
    if |raw| >= 2 && sid <= raw[2..] {
      assert raw[2..][..|sid|] == sid;
    }
  }
}
