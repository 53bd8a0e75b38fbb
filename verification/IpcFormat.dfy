/**
 The frame format shared by the host (crates/execution/src/v8_ipc.rs) and the V8 runtime
 process (crates/v8-runtime/src/ipc_binary.rs), as values: what bytes a frame is written as, what
 byte strings are read as which frame, and the theorems that connect the two.
 */
module IpcFormat {
  import opened Wire

  const MAX_FRAME_SIZE := 64 * 1024 * 1024

  const MSG_AUTHENTICATE: u8 := 0x01
  const MSG_CREATE_SESSION: u8 := 0x02
  const MSG_DESTROY_SESSION: u8 := 0x03
  const MSG_INJECT_GLOBALS: u8 := 0x04
  const MSG_EXECUTE: u8 := 0x05
  const MSG_BRIDGE_RESPONSE: u8 := 0x06
  const MSG_STREAM_EVENT: u8 := 0x07
  const MSG_TERMINATE_EXECUTION: u8 := 0x08
  const MSG_WARM_SNAPSHOT: u8 := 0x09
  const MSG_BRIDGE_CALL: u8 := 0x81
  const MSG_EXECUTION_RESULT: u8 := 0x82
  const MSG_LOG: u8 := 0x83
  const MSG_STREAM_CALLBACK: u8 := 0x84

  /** The two implementations of the format. Only the runtime knows `WarmSnapshot`. */
  datatype Side = Host | Runtime

  datatype ExecutionError = ExecutionError(errorType: Utf8, message: Utf8, stack: Utf8, code: Utf8)

  datatype BinaryFrame =
      // host to V8
    | Authenticate(token: Utf8)
    | CreateSession(sid: Utf8, heapLimitMb: u32, cpuTimeLimitMs: u32)
    | DestroySession(sid: Utf8)
    | InjectGlobals(sid: Utf8, payload: seq<u8>)
    | Execute(sid: Utf8, mode: u8, filePath: Utf8, bridgeCode: Utf8, postRestoreScript: Utf8, userCode: Utf8)
    | BridgeResponse(sid: Utf8, callId: u64, status: u8, payload: seq<u8>)
    | StreamEvent(sid: Utf8, eventType: Utf8, payload: seq<u8>)
    | TerminateExecution(sid: Utf8)
    | WarmSnapshot(bridgeCode: Utf8)
      // V8 to host
    | BridgeCall(sid: Utf8, callId: u64, callMethod: Utf8, payload: seq<u8>)
    | ExecutionResult(sid: Utf8, exitCode: i32, exports: Option<seq<u8>>, error: Option<ExecutionError>)
    | Log(sid: Utf8, channel: u8, message: Utf8)
    | StreamCallback(sid: Utf8, callbackType: Utf8, payload: seq<u8>)

  predicate Speaks(side: Side, f: BinaryFrame) {
    side.Runtime? || !f.WarmSnapshot?
  }

  // ---------------------------------------------------------------------
  // Layout
  // ---------------------------------------------------------------------

  /**
   The freedom a reader leaves: a session id in front of a frame that has none, flag bits above
   the two defined ones, and bytes after the last field.
   */
  datatype Slack = Slack(ignoredSid: Utf8, flagBits: u8, trailing: seq<u8>)

  const TIGHT := Slack([], 0, [])

  predicate ValidSlack(sl: Slack) {
    |sl.ignoredSid| <= 0xFF && sl.flagBits % 4 == 0
  }

  function Tag(f: BinaryFrame): (t: u8) {
    match f
    case Authenticate(_) => MSG_AUTHENTICATE
    case CreateSession(_, _, _) => MSG_CREATE_SESSION
    case DestroySession(_) => MSG_DESTROY_SESSION
    case InjectGlobals(_, _) => MSG_INJECT_GLOBALS
    case Execute(_, _, _, _, _, _) => MSG_EXECUTE
    case BridgeResponse(_, _, _, _) => MSG_BRIDGE_RESPONSE
    case StreamEvent(_, _, _) => MSG_STREAM_EVENT
    case TerminateExecution(_) => MSG_TERMINATE_EXECUTION
    case WarmSnapshot(_) => MSG_WARM_SNAPSHOT
    case BridgeCall(_, _, _, _) => MSG_BRIDGE_CALL
    case ExecutionResult(_, _, _, _) => MSG_EXECUTION_RESULT
    case Log(_, _, _) => MSG_LOG
    case StreamCallback(_, _, _) => MSG_STREAM_CALLBACK
  }

  predicate HasSession(f: BinaryFrame) {
    !f.Authenticate? && !f.WarmSnapshot?
  }

  function WrittenSid(f: BinaryFrame, sl: Slack): (sid: Utf8) {
    if HasSession(f) then f.sid else sl.ignoredSid
  }

  function Flags(exports: Option<seq<u8>>, error: Option<ExecutionError>): (n: nat)
    ensures n < 4
  {
    (if exports.Some? then 1 else 0) + (if error.Some? then 2 else 0)
  }

  function ErrorFields(e: ExecutionError, rest: seq<u8>): (s: seq<u8>) {
    Prefixed(e.errorType, 2) + (Prefixed(e.message, 2) + (Prefixed(e.stack, 2) + (Prefixed(e.code, 2) + rest)))
  }

  function OptionalFields(exports: Option<seq<u8>>, error: Option<ExecutionError>, rest: seq<u8>): (s: seq<u8>) {
    var tail := if error.Some? then ErrorFields(error.value, rest) else rest;
    if exports.Some? then Prefixed(exports.value, 4) + tail else tail
  }

  /** The fields after the session id. */
  function Fields(f: BinaryFrame, sl: Slack): (s: seq<u8>)
    requires ValidSlack(sl)
  {
    match f
    case Authenticate(token) => token
    case CreateSession(_, heap, cpu) => Be(heap, 4) + (Be(cpu, 4) + sl.trailing)
    case DestroySession(_) => sl.trailing
    case InjectGlobals(_, payload) => payload
    case Execute(_, mode, path, bridge, script, code) =>
      Be(mode, 1) + (Prefixed(path, 2) + (Prefixed(bridge, 4) + (Prefixed(script, 4) + code)))
    case BridgeResponse(_, id, status, payload) => Be(id, 8) + (Be(status, 1) + payload)
    case StreamEvent(_, kind, payload) => Prefixed(kind, 2) + payload
    case TerminateExecution(_) => sl.trailing
    case WarmSnapshot(bridge) => Prefixed(bridge, 4) + sl.trailing
    case BridgeCall(_, id, callMethod, payload) => Be(id, 8) + (Prefixed(callMethod, 2) + payload)
    case ExecutionResult(_, exit, exports, error) =>
      Be(ToU32(exit), 4) + (Be(Flags(exports, error) + sl.flagBits, 1) + OptionalFields(exports, error, sl.trailing))
    case Log(_, channel, message) => Be(channel, 1) + message
    case StreamCallback(_, kind, payload) => Prefixed(kind, 2) + payload
  }

  function Layout(f: BinaryFrame, sl: Slack): (s: seq<u8>)
    requires ValidSlack(sl)
  {
    [Tag(f)] + (Prefixed(WrittenSid(f, sl), 1) + Fields(f, sl))
  }

  /** What `encode_body` appends. Lengths that do not fit their field are cut, as the casts cut them. */
  function Body(f: BinaryFrame): (s: seq<u8>) {
    Layout(f, TIGHT)
  }

  predicate ErrorFits(e: ExecutionError) {
    |e.errorType| <= 0xFFFF && |e.message| <= 0xFFFF && |e.stack| <= 0xFFFF && |e.code| <= 0xFFFF
  }

  /** The one- and two-byte lengths the encoder checks before it writes them. */
  predicate GuardsPass(f: BinaryFrame) {
    (HasSession(f) ==> |f.sid| <= 0xFF) &&
    match f
    case Execute(_, _, path, _, _, _) => |path| <= 0xFFFF
    case StreamEvent(_, kind, _) => |kind| <= 0xFFFF
    case BridgeCall(_, _, callMethod, _) => |callMethod| <= 0xFFFF
    case StreamCallback(_, kind, _) => |kind| <= 0xFFFF
    case ExecutionResult(_, _, _, Some(e)) => ErrorFits(e)
    case _ => true
  }

  /** The four-byte lengths the encoder casts without a check. */
  predicate CastsExact(f: BinaryFrame) {
    match f
    case Execute(_, _, _, bridge, script, _) => |bridge| < 0x1_0000_0000 && |script| < 0x1_0000_0000
    case WarmSnapshot(bridge) => |bridge| < 0x1_0000_0000
    case ExecutionResult(_, _, Some(exports), _) => |exports| < 0x1_0000_0000
    case _ => true
  }

  /** `encode_frame`: guards, size limit, length prefix, body. */
  function Encode(f: BinaryFrame): (r: Result<seq<u8>>) {
    if !GuardsPass(f) then Err(InvalidInput)
    else if |Body(f)| > MAX_FRAME_SIZE then Err(InvalidData)
    else Ok(Be(|Body(f)|, 4) + Body(f))
  }

  // ---------------------------------------------------------------------
  // Reading
  // ---------------------------------------------------------------------

  function DecodeCreate(sid: Utf8, s: seq<u8>): (r: Result<BinaryFrame>) {
    var (heap, t) :- ReadUint(s, 4);
    var (cpu, u) :- ReadUint(t, 4);
    Pow256Values(); ReadUintInverse(s, 4); ReadUintInverse(t, 4);
    Ok(CreateSession(sid, heap, cpu))
  }

  function DecodeExecute(sid: Utf8, s: seq<u8>): (r: Result<BinaryFrame>) {
    var (mode, t0) :- ReadUint(s, 1);
    var (path, t1) :- ReadString(t0, 2);
    var (bridge, t2) :- ReadString(t1, 4);
    var (script, t3) :- ReadString(t2, 4);
    var (code, t4) :- ReadUtf8(t3, |t3|);
    Pow256Values(); ReadUintInverse(s, 1);
    Ok(Execute(sid, mode, path, bridge, script, code))
  }

  function DecodeBridgeResponse(sid: Utf8, s: seq<u8>): (r: Result<BinaryFrame>) {
    var (id, t0) :- ReadUint(s, 8);
    var (status, t1) :- ReadUint(t0, 1);
    Pow256Values(); ReadUintInverse(s, 8); ReadUintInverse(t0, 1);
    Ok(BridgeResponse(sid, id, status, t1))
  }

  function DecodeBridgeCall(sid: Utf8, s: seq<u8>): (r: Result<BinaryFrame>) {
    var (id, t0) :- ReadUint(s, 8);
    var (callMethod, t1) :- ReadString(t0, 2);
    Pow256Values(); ReadUintInverse(s, 8);
    Ok(BridgeCall(sid, id, callMethod, t1))
  }

  function DecodeLog(sid: Utf8, s: seq<u8>): (r: Result<BinaryFrame>) {
    var (channel, t0) :- ReadUint(s, 1);
    var (message, t1) :- ReadUtf8(t0, |t0|);
    Pow256Values(); ReadUintInverse(s, 1);
    Ok(Log(sid, channel, message))
  }

  function ReadError(s: seq<u8>): (r: Read<ExecutionError>) {
    var (errorType, t0) :- ReadString(s, 2);
    var (message, t1) :- ReadString(t0, 2);
    var (stack, t2) :- ReadString(t1, 2);
    var (code, t3) :- ReadString(t2, 2);
    Ok((ExecutionError(errorType, message, stack, code), t3))
  }

  function ReadOptionalExports(flags: nat, s: seq<u8>): (r: Read<Option<seq<u8>>>) {
    if flags % 2 == 1 then
      var (data, t) :- ReadBlob(s, 4);
      Ok((Some(data), t))
    else Ok((None, s))
  }

  function ReadOptionalError(flags: nat, s: seq<u8>): (r: Read<Option<ExecutionError>>) {
    if flags / 2 % 2 == 1 then
      var (e, t) :- ReadError(s);
      Ok((Some(e), t))
    else Ok((None, s))
  }

  function DecodeExecutionResult(sid: Utf8, s: seq<u8>): (r: Result<BinaryFrame>) {
    var (exit, t0) :- ReadUint(s, 4);
    var (flags, t1) :- ReadUint(t0, 1);
    var (exports, t2) :- ReadOptionalExports(flags, t1);
    var (error, t3) :- ReadOptionalError(flags, t2);
    Pow256Values(); ReadUintInverse(s, 4);
    Ok(ExecutionResult(sid, ToI32(exit), exports, error))
  }

  function DecodeFields(side: Side, tag: u8, sid: Utf8, s: seq<u8>): (r: Result<BinaryFrame>) {
    if tag == MSG_AUTHENTICATE then
      var (token, _) :- ReadUtf8(s, |s|);
      Ok(Authenticate(token))
    else if tag == MSG_CREATE_SESSION then DecodeCreate(sid, s)
    else if tag == MSG_DESTROY_SESSION then Ok(DestroySession(sid))
    else if tag == MSG_INJECT_GLOBALS then Ok(InjectGlobals(sid, s))
    else if tag == MSG_EXECUTE then DecodeExecute(sid, s)
    else if tag == MSG_BRIDGE_RESPONSE then DecodeBridgeResponse(sid, s)
    else if tag == MSG_STREAM_EVENT then
      var (kind, t) :- ReadString(s, 2);
      Ok(StreamEvent(sid, kind, t))
    else if tag == MSG_TERMINATE_EXECUTION then Ok(TerminateExecution(sid))
    else if tag == MSG_WARM_SNAPSHOT && side.Runtime? then
      var (bridge, _) :- ReadString(s, 4);
      Ok(WarmSnapshot(bridge))
    else if tag == MSG_BRIDGE_CALL then DecodeBridgeCall(sid, s)
    else if tag == MSG_EXECUTION_RESULT then DecodeExecutionResult(sid, s)
    else if tag == MSG_LOG then DecodeLog(sid, s)
    else if tag == MSG_STREAM_CALLBACK then
      var (kind, t) :- ReadString(s, 2);
      Ok(StreamCallback(sid, kind, t))
    else Err(InvalidData)
  }

  /** What `decode_frame` (host) and `decode_body` (runtime) make of a body. */
  function Decode(side: Side, s: seq<u8>): (r: Result<BinaryFrame>) {
    if s == [] then Err(InvalidData) else
    var (sid, t) :- ReadString(s[1..], 1);
    DecodeFields(side, s[0], sid, t)
  }

  // ---------------------------------------------------------------------
  // The readers accept exactly the layouts
  // ---------------------------------------------------------------------

  lemma ReadErrorOfFields(e: ExecutionError, rest: seq<u8>)
    requires ErrorFits(e)
    ensures ReadError(ErrorFields(e, rest)) == Ok((e, rest))
  {
    Pow256Values();
    hide ReadString, Prefixed;
    var t2 := Prefixed(e.code, 2) + rest;
    var t1 := Prefixed(e.stack, 2) + t2;
    var t0 := Prefixed(e.message, 2) + t1;
    ReadStringOfPrefixed(e.errorType, 2, t0);
    ReadStringOfPrefixed(e.message, 2, t1);
    ReadStringOfPrefixed(e.stack, 2, t2);
    ReadStringOfPrefixed(e.code, 2, rest);
  }

  lemma ReadOptionalOfFields(exports: Option<seq<u8>>, error: Option<ExecutionError>, flags: nat, rest: seq<u8>)
    requires flags % 4 == Flags(exports, error)
    requires exports.Some? ==> |exports.value| < 0x1_0000_0000
    requires error.Some? ==> ErrorFits(error.value)
    ensures var tail := if error.Some? then ErrorFields(error.value, rest) else rest;
            ReadOptionalExports(flags, OptionalFields(exports, error, rest)) == Ok((exports, tail)) &&
            ReadOptionalError(flags, tail) == Ok((error, rest))
  {
    Pow256Values();
    hide ReadBlob, Prefixed, ReadError, ErrorFields, ErrorFits, Pow256;
    assert flags % 2 == flags % 4 % 2 && flags / 2 % 2 == flags % 4 / 2;
    if error.Some? {
      ReadErrorOfFields(error.value, rest);
    }
    if exports.Some? {
      ReadBlobOfPrefixed(exports.value, 4, if error.Some? then ErrorFields(error.value, rest) else rest);
    }
  }

  lemma ExecuteOfFields(f: BinaryFrame)
    requires f.Execute? && GuardsPass(f) && CastsExact(f)
    ensures DecodeExecute(f.sid, Fields(f, TIGHT)) == Ok(f)
  {
    Pow256Values();
    hide ReadUint, ReadString, Be, Prefixed, ValidUtf8;
    var t2 := Prefixed(f.postRestoreScript, 4) + f.userCode;
    var t1 := Prefixed(f.bridgeCode, 4) + t2;
    ReadUintOfBe(f.mode, 1, Prefixed(f.filePath, 2) + t1);
    ReadStringOfPrefixed(f.filePath, 2, t1);
    ReadStringOfPrefixed(f.bridgeCode, 4, t2);
    ReadStringOfPrefixed(f.postRestoreScript, 4, f.userCode);
    assert f.userCode[..|f.userCode|] == f.userCode;
  }

  lemma ExecutionResultOfFields(f: BinaryFrame, sl: Slack)
    requires f.ExecutionResult? && GuardsPass(f) && CastsExact(f) && ValidSlack(sl)
    ensures DecodeExecutionResult(f.sid, Fields(f, sl)) == Ok(f)
  {
    Pow256Values();
    hide ReadUint, Be, ReadOptionalExports, ReadOptionalError, OptionalFields, ErrorFields;
    var flags := Flags(f.exports, f.error) + sl.flagBits;
    var tail := OptionalFields(f.exports, f.error, sl.trailing);
    ReadUintOfBe(ToU32(f.exitCode), 4, Be(flags, 1) + tail);
    ReadUintOfBe(flags, 1, tail);
    ReadOptionalOfFields(f.exports, f.error, flags, sl.trailing);
  }

  lemma DecodeFieldsOfLayout(side: Side, f: BinaryFrame, sl: Slack)
    requires Speaks(side, f) && ValidSlack(sl) && GuardsPass(f) && CastsExact(f)
    ensures DecodeFields(side, Tag(f), WrittenSid(f, sl), Fields(f, sl)) == Ok(f)
  {
    Pow256Values();
    hide ReadUint, ReadString, Be, Prefixed, ValidUtf8, DecodeExecute, DecodeExecutionResult, OptionalFields;
    match f
    case Authenticate(token) =>
      assert token[..|token|] == token;
    case CreateSession(sid, heap, cpu) =>
      ReadUintOfBe(heap, 4, Be(cpu, 4) + sl.trailing);
      ReadUintOfBe(cpu, 4, sl.trailing);
    case DestroySession(_) =>
    case InjectGlobals(_, _) =>
    case Execute(_, _, _, _, _, _) =>
      ExecuteOfFields(f);
    case BridgeResponse(_, id, status, payload) =>
      ReadUintOfBe(id, 8, Be(status, 1) + payload);
      ReadUintOfBe(status, 1, payload);
    case StreamEvent(_, kind, payload) =>
      ReadStringOfPrefixed(kind, 2, payload);
    case TerminateExecution(_) =>
    case WarmSnapshot(bridge) =>
      ReadStringOfPrefixed(bridge, 4, sl.trailing);
    case BridgeCall(_, id, callMethod, payload) =>
      ReadUintOfBe(id, 8, Prefixed(callMethod, 2) + payload);
      ReadStringOfPrefixed(callMethod, 2, payload);
    case ExecutionResult(_, _, _, _) =>
      ExecutionResultOfFields(f, sl);
    case Log(_, channel, message) =>
      ReadUintOfBe(channel, 1, message);
      assert message[..|message|] == message;
    case StreamCallback(_, kind, payload) =>
      ReadStringOfPrefixed(kind, 2, payload);
  }

  lemma DecodeOfLayout(side: Side, f: BinaryFrame, sl: Slack)
    requires Speaks(side, f) && ValidSlack(sl) && GuardsPass(f) && CastsExact(f)
    ensures Decode(side, Layout(f, sl)) == Ok(f)
  {
    Pow256Values();
    var s := Layout(f, sl);
    assert s[1..] == Prefixed(WrittenSid(f, sl), 1) + Fields(f, sl);
    ReadStringOfPrefixed(WrittenSid(f, sl), 1, Fields(f, sl));
    DecodeFieldsOfLayout(side, f, sl);
  }

  lemma ReadErrorInverse(s: seq<u8>)
    ensures ReadError(s).Ok? ==>
              var (e, rest) := ReadError(s).value;
              s == ErrorFields(e, rest) && ErrorFits(e)
  {
    Pow256Values();
    hide ReadString, Prefixed;
    if ReadError(s).Ok? {
      ReadStringInverse(s, 2);
      var t0 := ReadString(s, 2).value.1;
      ReadStringInverse(t0, 2);
      var t1 := ReadString(t0, 2).value.1;
      ReadStringInverse(t1, 2);
      var t2 := ReadString(t1, 2).value.1;
      ReadStringInverse(t2, 2);
    }
  }

  lemma ReadOptionalInverse(flags: nat, s: seq<u8>)
    requires ReadOptionalExports(flags, s).Ok?
    requires ReadOptionalError(flags, ReadOptionalExports(flags, s).value.1).Ok?
    ensures var (exports, t) := ReadOptionalExports(flags, s).value;
            var (error, rest) := ReadOptionalError(flags, t).value;
            && s == OptionalFields(exports, error, rest)
            && flags % 4 == Flags(exports, error)
            && (exports.Some? ==> |exports.value| < 0x1_0000_0000)
            && (error.Some? ==> ErrorFits(error.value))
  {
    Pow256Values();
    hide ReadBlob, Prefixed, ReadError, ErrorFields, ErrorFits, Pow256;
    assert flags % 2 == flags % 4 % 2 && flags / 2 % 2 == flags % 4 / 2;
    ReadBlobInverse(s, 4);
    ReadErrorInverse(ReadOptionalExports(flags, s).value.1);
  }

  lemma ExecutionResultInverse(sid: Utf8, s: seq<u8>) returns (sl: Slack)
    requires DecodeExecutionResult(sid, s).Ok?
    ensures var f := DecodeExecutionResult(sid, s).value;
            ValidSlack(sl) && f.ExecutionResult? && f.sid == sid && CastsExact(f) &&
            (|sid| <= 0xFF ==> GuardsPass(f)) && s == Fields(f, sl)
  {
    Pow256Values();
    hide ReadUint, Be, ReadOptionalExports, ReadOptionalError, OptionalFields, ErrorFits, Pow256;
    ReadUintInverse(s, 4);
    var (exit, t0) := ReadUint(s, 4).value;
    ReadUintInverse(t0, 1);
    var (flags, t1) := ReadUint(t0, 1).value;
    ReadOptionalInverse(flags, t1);
    var t2 := ReadOptionalExports(flags, t1).value.1;
    assert (flags - flags % 4) % 4 == 0;
    assert flags < 0x100 && exit < 0x1_0000_0000 && ToU32(ToI32(exit)) == exit;
    sl := Slack([], flags - flags % 4, ReadOptionalError(flags, t2).value.1);
  }

  lemma ExecuteInverse(sid: Utf8, s: seq<u8>)
    requires DecodeExecute(sid, s).Ok?
    ensures var f := DecodeExecute(sid, s).value;
            f.Execute? && f.sid == sid && CastsExact(f) && (|sid| <= 0xFF ==> GuardsPass(f)) && s == Fields(f, TIGHT)
  {
    Pow256Values();
    hide ReadUint, ReadString, Be, Prefixed;
    ReadUintInverse(s, 1);
    var t0 := ReadUint(s, 1).value.1;
    ReadStringInverse(t0, 2);
    var t1 := ReadString(t0, 2).value.1;
    ReadStringInverse(t1, 4);
    var t2 := ReadString(t1, 4).value.1;
    ReadStringInverse(t2, 4);
    var t3 := ReadString(t2, 4).value.1;
    assert t3[..|t3|] == t3;
  }

  /** The variants with one or two fields. */
  lemma SmallFieldsInverse(side: Side, tag: u8, sid: Utf8, s: seq<u8>) returns (sl: Slack)
    requires |sid| <= 0xFF && tag != MSG_EXECUTE && tag != MSG_EXECUTION_RESULT
    requires DecodeFields(side, tag, sid, s).Ok?
    ensures var f := DecodeFields(side, tag, sid, s).value;
            && ValidSlack(sl) && Speaks(side, f) && GuardsPass(f) && CastsExact(f)
            && tag == Tag(f) && sid == WrittenSid(f, sl) && s == Fields(f, sl)
  {
    Pow256Values();
    hide ReadUint, ReadString, Be, Prefixed, DecodeExecute, DecodeExecutionResult, OptionalFields;
    sl := Slack(sid, 0, s);
    assert s[..|s|] == s;
    if tag == MSG_CREATE_SESSION {
      ReadUintInverse(s, 4);
      var t := ReadUint(s, 4).value.1;
      ReadUintInverse(t, 4);
      sl := Slack([], 0, ReadUint(t, 4).value.1);
    } else if tag == MSG_BRIDGE_RESPONSE {
      ReadUintInverse(s, 8);
      ReadUintInverse(ReadUint(s, 8).value.1, 1);
    } else if tag == MSG_STREAM_EVENT || tag == MSG_STREAM_CALLBACK {
      ReadStringInverse(s, 2);
    } else if tag == MSG_WARM_SNAPSHOT {
      ReadStringInverse(s, 4);
      sl := Slack(sid, 0, ReadString(s, 4).value.1);
    } else if tag == MSG_BRIDGE_CALL {
      ReadUintInverse(s, 8);
      ReadStringInverse(ReadUint(s, 8).value.1, 2);
    } else if tag == MSG_LOG {
      ReadUintInverse(s, 1);
      var t := ReadUint(s, 1).value.1;
      assert t[..|t|] == t;
    }
  }

  lemma DecodeFieldsInverse(side: Side, tag: u8, sid: Utf8, s: seq<u8>) returns (sl: Slack)
    requires |sid| <= 0xFF
    requires DecodeFields(side, tag, sid, s).Ok?
    ensures var f := DecodeFields(side, tag, sid, s).value;
            && ValidSlack(sl) && Speaks(side, f) && GuardsPass(f) && CastsExact(f)
            && tag == Tag(f) && sid == WrittenSid(f, sl) && s == Fields(f, sl)
  {
    if tag == MSG_EXECUTE {
      ExecuteInverse(sid, s);
      sl := TIGHT;
    } else if tag == MSG_EXECUTION_RESULT {
      sl := ExecutionResultInverse(sid, s);
    } else {
      sl := SmallFieldsInverse(side, tag, sid, s);
    }
  }

  /** An accepted body is a layout of the frame it is read as. */
  lemma DecodeInverse(side: Side, s: seq<u8>) returns (sl: Slack)
    requires Decode(side, s).Ok?
    ensures var f := Decode(side, s).value;
            && ValidSlack(sl) && Speaks(side, f) && GuardsPass(f) && CastsExact(f) && s == Layout(f, sl)
  {
    Pow256Values();
    ReadStringInverse(s[1..], 1);
    var (sid, t) := ReadString(s[1..], 1).value;
    sl := DecodeFieldsInverse(side, s[0], sid, t);
    assert s == [s[0]] + s[1..];
  }

  /** `s` is one of the ways `f` may be laid out on the wire. */
  ghost predicate Denotes(s: seq<u8>, f: BinaryFrame) {
    GuardsPass(f) && CastsExact(f) && exists sl :: ValidSlack(sl) && s == Layout(f, sl)
  }

  /** A reader returns `f` exactly on the layouts of `f`, on no others. */
  lemma DecodeExact(side: Side, s: seq<u8>, f: BinaryFrame)
    ensures Decode(side, s) == Ok(f) <==> Speaks(side, f) && Denotes(s, f)
  {
    if Decode(side, s) == Ok(f) {
      var sl := DecodeInverse(side, s);
    }
    if Speaks(side, f) && Denotes(s, f) {
      var sl :| ValidSlack(sl) && s == Layout(f, sl);
      DecodeOfLayout(side, f, sl);
    }
  }

  // ---------------------------------------------------------------------
  // Consequences
  // ---------------------------------------------------------------------

  lemma TightIsShortest(f: BinaryFrame, sl: Slack)
    requires ValidSlack(sl)
    ensures |Body(f)| <= |Layout(f, sl)|
  {
  }

  /** A body within the size limit cannot have lost bits in a four-byte length. */
  lemma SizeLimitMakesCastsExact(f: BinaryFrame)
    requires |Body(f)| <= MAX_FRAME_SIZE
    ensures CastsExact(f)
  {
    match f
    case Execute(_, mode, path, bridge, script, code) =>
      assert |Fields(f, TIGHT)| >= |bridge| && |Fields(f, TIGHT)| >= |script|;
    case WarmSnapshot(bridge) =>
      assert |Fields(f, TIGHT)| >= |bridge|;
    case ExecutionResult(_, exit, Some(exports), error) =>
      assert |Fields(f, TIGHT)| >= |exports|;
    case _ =>
  }

  /**
   Whenever a frame is encoded, the prefix is the length of what follows, no length was cut, and
   either implementation that knows the frame reads it back.
   */
  lemma EncodeDecode(side: Side, f: BinaryFrame)
    requires Encode(f).Ok? && Speaks(side, f)
    ensures var bytes := Encode(f).value;
            && |bytes| >= 4 && bytes[4..] == Body(f)
            && FromBe(bytes[..4]) == |bytes| - 4 <= MAX_FRAME_SIZE
            && CastsExact(f)
            && Decode(side, bytes[4..]) == Ok(f)
  {
    var bytes := Encode(f).value;
    Pow256Values();
    SizeLimitMakesCastsExact(f);
    FromBeOfBe(|Body(f)|, 4);
    assert bytes[..4] == Be(|Body(f)|, 4) && bytes[4..] == Body(f);
    DecodeOfLayout(side, f, TIGHT);
  }

  lemma EncodeInjective(f: BinaryFrame, g: BinaryFrame)
    requires Encode(f).Ok? && Encode(f) == Encode(g)
    ensures f == g
  {
    EncodeDecode(Runtime, f);
    EncodeDecode(Runtime, g);
  }

  /** Decode-then-encode succeeds, never grows the body, and is read as the same frame again. */
  lemma DecodeEncode(side: Side, s: seq<u8>)
    requires Decode(side, s).Ok? && |s| <= MAX_FRAME_SIZE
    ensures var f := Decode(side, s).value;
            && Encode(f).Ok?
            && |Body(f)| <= |s|
            && Decode(side, Encode(f).value[4..]) == Ok(f)
  {
    var sl := DecodeInverse(side, s);
    TightIsShortest(Decode(side, s).value, sl);
    EncodeDecode(side, Decode(side, s).value);
  }

  /** A frame can be sent exactly when some body within the size limit is read as it. */
  lemma EncodableIffDecodable(f: BinaryFrame)
    ensures Encode(f).Ok? <==> exists s: seq<u8> :: |s| <= MAX_FRAME_SIZE && Decode(Runtime, s) == Ok(f)
  {
    if Encode(f).Ok? {
      EncodeDecode(Runtime, f);
      assert |Body(f)| <= MAX_FRAME_SIZE && Decode(Runtime, Body(f)) == Ok(f);
    }
    if exists s: seq<u8> :: |s| <= MAX_FRAME_SIZE && Decode(Runtime, s) == Ok(f) {
      var s: seq<u8> :| |s| <= MAX_FRAME_SIZE && Decode(Runtime, s) == Ok(f);
      DecodeEncode(Runtime, s);
    }
  }

  /** The two implementations differ on warm-snapshot bodies only, which the host always refuses. */
  lemma SidesAgree(s: seq<u8>)
    ensures Decode(Host, s) != Decode(Runtime, s) ==> s != [] && s[0] == MSG_WARM_SNAPSHOT
    ensures s != [] && s[0] == MSG_WARM_SNAPSHOT ==> Decode(Host, s).Err?
    ensures Decode(Host, s).Ok? ==> Decode(Runtime, s) == Decode(Host, s)
  {
  }

  // ---------------------------------------------------------------------
  // The runtime's header-only reader
  // ---------------------------------------------------------------------

  /** `extract_session_id`: the session id without reading the rest of the frame. */
  function ExtractSessionId(raw: seq<u8>): (r: Result<Option<Utf8>>) {
    if |raw| < 2 then Err(InvalidData)
    else if raw[0] == MSG_AUTHENTICATE || raw[0] == MSG_WARM_SNAPSHOT then Ok(None)
    else if |raw| - 2 < raw[1] then Err(InvalidData)
    else if ValidUtf8(raw[2..][..raw[1]]) then Ok(Some(raw[2..][..raw[1]]))
    else Err(InvalidData)
  }

  /** On every body that is a frame, the short cut finds the session the full decoder finds. */
  lemma ExtractRefinesDecode(s: seq<u8>)
    requires Decode(Runtime, s).Ok?
    ensures var f := Decode(Runtime, s).value;
            ExtractSessionId(s) == Ok(if HasSession(f) then Some(f.sid) else None)
  {
    hide Decode, Fields, ValidUtf8;
    var sl := DecodeInverse(Runtime, s);
    var f := Decode(Runtime, s).value;
    var sid := WrittenSid(f, sl);
    assert Be(|sid|, 1) == [|sid|] by { assert Be(|sid| / 256, 0) == []; }
    assert s[2..][..|sid|] == sid;
  }
}
