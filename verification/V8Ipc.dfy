/**
 The codec as the program runs it (crates/execution/src/v8_ipc.rs): encoders that push onto one
 growing buffer and patch its first four bytes, and a decoder that moves one cursor. Each method is
 proved against the format in IpcFormat.
 */
module V8Ipc {
  import opened Wire
  import opened IpcFormat

  // ---------------------------------------------------------------------
  // `(n as uN).to_be_bytes()`, byte by byte
  // ---------------------------------------------------------------------

  function U16Bytes(n: nat): (s: seq<u8>) {
    [n / 0x100 % 0x100, n % 0x100]
  }

  function U32Bytes(n: nat): (s: seq<u8>) {
    [n / 0x100_0000 % 0x100, n / 0x1_0000 % 0x100, n / 0x100 % 0x100, n % 0x100]
  }

  lemma U16BytesAreBe(n: nat)
    ensures U16Bytes(n) == Be(n, 2)
  {
    assert Be(n / 0x100, 1) == Be(n / 0x100 / 0x100, 0) + [n / 0x100 % 0x100];
  }

  lemma U32BytesAreBe(n: nat)
    ensures U32Bytes(n) == Be(n, 4)
  {
    U16BytesAreBe(n / 0x1_0000);
    assert n / 0x100 / 0x100 == n / 0x1_0000;
    assert n / 0x1_0000 / 0x100 == n / 0x100_0000;
    assert Be(n / 0x100, 3) == Be(n / 0x1_0000, 2) + [n / 0x100 % 0x100];
    assert Be(n, 4) == Be(n / 0x100, 3) + [n % 0x100];
  }

  function U64Bytes(n: nat): (s: seq<u8>) {
    U32Bytes(n / 0x1_0000_0000) + U32Bytes(n)
  }

  lemma BeTop4(n: nat, w: nat)
    ensures Be(n, w + 4) == Be(n / 0x1_0000_0000, w) + U32Bytes(n)
  {
    assert n / 0x100 / 0x100 == n / 0x1_0000;
    assert n / 0x1_0000 / 0x100 == n / 0x100_0000;
    assert n / 0x100_0000 / 0x100 == n / 0x1_0000_0000;
    assert Be(n / 0x100_0000, w + 1) == Be(n / 0x1_0000_0000, w) + [n / 0x100_0000 % 0x100];
    assert Be(n / 0x1_0000, w + 2) == Be(n / 0x100_0000, w + 1) + [n / 0x1_0000 % 0x100];
    assert Be(n / 0x100, w + 3) == Be(n / 0x1_0000, w + 2) + [n / 0x100 % 0x100];
    assert Be(n, w + 4) == Be(n / 0x100, w + 3) + [n % 0x100];
  }

  lemma U64BytesAreBe(n: nat)
    ensures U64Bytes(n) == Be(n, 8)
  {
    BeTop4(n, 4);
    U32BytesAreBe(n / 0x1_0000_0000);
  }

  lemma U8ByteIsBe(n: u8)
    ensures Be(n, 1) == [n]
  {
    assert Be(n, 1) == Be(n / 0x100, 0) + [n];
  }

  // ---------------------------------------------------------------------
  // Encoding
  // ---------------------------------------------------------------------

  /** The `Vec<u8>` the encoders share. */
  class ByteBuffer {
    var bytes: seq<u8>

    constructor ()
      ensures bytes == []
    {
      bytes := [];
    }
  }

  method WriteSessionId(buf: ByteBuffer, sid: Utf8) returns (r: Result<()>)
    modifies buf
    ensures r == if |sid| <= 0xFF then Ok(()) else Err(InvalidInput)
    ensures buf.bytes == if r.Ok? then old(buf.bytes) + Prefixed(sid, 1) else old(buf.bytes)
  {
    if |sid| > 0xFF {
      return Err(InvalidInput);
    }
    buf.bytes := buf.bytes + [|sid|];
    buf.bytes := buf.bytes + sid;
    U8ByteIsBe(|sid|);
    assert old(buf.bytes) + ([|sid|] + sid) == (old(buf.bytes) + [|sid|]) + sid;
    return Ok(());
  }

  method WriteLenPrefixedU16(buf: ByteBuffer, s: Utf8) returns (r: Result<()>)
    modifies buf
    ensures r == if |s| <= 0xFFFF then Ok(()) else Err(InvalidInput)
    ensures buf.bytes == if r.Ok? then old(buf.bytes) + Prefixed(s, 2) else old(buf.bytes)
  {
    if |s| > 0xFFFF {
      return Err(InvalidInput);
    }
    buf.bytes := buf.bytes + U16Bytes(|s|);
    buf.bytes := buf.bytes + s;
    U16BytesAreBe(|s|);
    assert old(buf.bytes) + (Be(|s|, 2) + s) == (old(buf.bytes) + Be(|s|, 2)) + s;
    return Ok(());
  }

  /** A length cast to `u32`, then the bytes. There is no guard on the cast. */
  method WriteLenPrefixedU32(buf: ByteBuffer, s: seq<u8>)
    modifies buf
    ensures buf.bytes == old(buf.bytes) + Prefixed(s, 4)
  {
    buf.bytes := buf.bytes + U32Bytes(|s|);
    buf.bytes := buf.bytes + s;
    U32BytesAreBe(|s|);
    assert old(buf.bytes) + (Be(|s|, 4) + s) == (old(buf.bytes) + Be(|s|, 4)) + s;
  }

  /** What pushing four pieces one after the other leaves, grouped as the format groups it. */
  lemma Regroup4(s: seq<u8>, a: seq<u8>, b: seq<u8>, c: seq<u8>, d: seq<u8>)
    ensures s + a + b + c + d == s + (a + (b + (c + d)))
    ensures d + [] == d
  {
  }

  method WriteError(buf: ByteBuffer, e: ExecutionError) returns (r: Result<()>)
    modifies buf
    ensures r == if ErrorFits(e) then Ok(()) else Err(InvalidInput)
    ensures r.Ok? ==> buf.bytes == old(buf.bytes) + ErrorFields(e, [])
  {
    hide Prefixed, ValidUtf8;
    ghost var s0 := buf.bytes;
    var _ :- WriteLenPrefixedU16(buf, e.errorType);
    var _ :- WriteLenPrefixedU16(buf, e.message);
    var _ :- WriteLenPrefixedU16(buf, e.stack);
    var _ :- WriteLenPrefixedU16(buf, e.code);
    Regroup4(s0, Prefixed(e.errorType, 2), Prefixed(e.message, 2), Prefixed(e.stack, 2), Prefixed(e.code, 2));
    return Ok(());
  }

  /** The arm of `encode_body` for `Execute`, after the session id. */
  method WriteExecute(buf: ByteBuffer, f: BinaryFrame) returns (r: Result<()>)
    requires f.Execute?
    modifies buf
    ensures r == if |f.filePath| <= 0xFFFF then Ok(()) else Err(InvalidInput)
    ensures r.Ok? ==> buf.bytes == old(buf.bytes) + Fields(f, TIGHT)
  {
    hide Prefixed, ValidUtf8;
    buf.bytes := buf.bytes + [f.mode];
    U8ByteIsBe(f.mode);
    var _ :- WriteLenPrefixedU16(buf, f.filePath);
    WriteLenPrefixedU32(buf, f.bridgeCode);
    WriteLenPrefixedU32(buf, f.postRestoreScript);
    buf.bytes := buf.bytes + f.userCode;
    return Ok(());
  }

  /** The arm of `encode_body` for `ExecutionResult`, after the session id. */
  method WriteExecutionResult(buf: ByteBuffer, f: BinaryFrame) returns (r: Result<()>)
    requires f.ExecutionResult?
    modifies buf
    ensures r == if f.error.Some? && !ErrorFits(f.error.value) then Err(InvalidInput) else Ok(())
    ensures r.Ok? ==> buf.bytes == old(buf.bytes) + Fields(f, TIGHT)
  {
    hide Prefixed, ErrorFields, ErrorFits, ValidUtf8;
    buf.bytes := buf.bytes + U32Bytes(ToU32(f.exitCode));
    U32BytesAreBe(ToU32(f.exitCode));
    var flags: u8 := 0;
    if f.exports.Some? {
      flags := flags + 1;
    }
    if f.error.Some? {
      flags := flags + 2;
    }
    buf.bytes := buf.bytes + [flags];
    U8ByteIsBe(flags);
    ghost var head := buf.bytes;
    if f.exports.Some? {
      WriteLenPrefixedU32(buf, f.exports.value);
    }
    if f.error.Some? {
      var _ :- WriteError(buf, f.error.value);
    }
    assert buf.bytes == head + OptionalFields(f.exports, f.error, []);
    assert head == old(buf.bytes) + (Be(ToU32(f.exitCode), 4) + Be(flags, 1));
    return Ok(());
  }

  /** The arms of `encode_body` whose first string is guarded, after the session id. */
  method WriteNamedPayload(buf: ByteBuffer, f: BinaryFrame) returns (r: Result<()>)
    requires f.StreamEvent? || f.StreamCallback? || f.BridgeCall?
    modifies buf
    ensures r.Ok? ==> buf.bytes == old(buf.bytes) + Fields(f, TIGHT)
    ensures |f.sid| <= 0xFF ==> r == if GuardsPass(f) then Ok(()) else Err(InvalidInput)
  {
    hide Prefixed, ValidUtf8, Be, U32Bytes, U64Bytes;
    match f {
      case StreamEvent(_, kind, payload) =>
        var _ :- WriteLenPrefixedU16(buf, kind);
        buf.bytes := buf.bytes + payload;
      case StreamCallback(_, kind, payload) =>
        var _ :- WriteLenPrefixedU16(buf, kind);
        buf.bytes := buf.bytes + payload;
      case BridgeCall(_, id, callMethod, payload) =>
        buf.bytes := buf.bytes + U64Bytes(id);
        U64BytesAreBe(id);
        var _ :- WriteLenPrefixedU16(buf, callMethod);
        buf.bytes := buf.bytes + payload;
    }
    return Ok(());
  }

  predicate Unguarded(f: BinaryFrame) {
    match f
    case Execute(_, _, _, _, _, _) => false
    case ExecutionResult(_, _, _, _) => false
    case StreamEvent(_, _, _) => false
    case StreamCallback(_, _, _) => false
    case BridgeCall(_, _, _, _) => false
    case _ => true
  }

  /** The arms of `encode_body` that cannot fail, after the session id. */
  method WriteUnguardedFields(buf: ByteBuffer, f: BinaryFrame)
    requires Unguarded(f)
    modifies buf
    ensures buf.bytes == old(buf.bytes) + Fields(f, TIGHT)
  {
    hide Prefixed, ValidUtf8, Be, U32Bytes, U64Bytes;
    match f {
      case Authenticate(token) =>
        buf.bytes := buf.bytes + token;
      case CreateSession(_, heap, cpu) =>
        buf.bytes := buf.bytes + U32Bytes(heap);
        buf.bytes := buf.bytes + U32Bytes(cpu);
        U32BytesAreBe(heap);
        U32BytesAreBe(cpu);
      case DestroySession(_) =>
      case InjectGlobals(_, payload) =>
        buf.bytes := buf.bytes + payload;
      case BridgeResponse(_, id, status, payload) =>
        buf.bytes := buf.bytes + U64Bytes(id);
        buf.bytes := buf.bytes + [status];
        buf.bytes := buf.bytes + payload;
        U64BytesAreBe(id);
        U8ByteIsBe(status);
      case TerminateExecution(_) =>
      case WarmSnapshot(bridge) =>
        WriteLenPrefixedU32(buf, bridge);
      case Log(_, channel, message) =>
        buf.bytes := buf.bytes + [channel];
        buf.bytes := buf.bytes + message;
        U8ByteIsBe(channel);
    }
  }

  lemma EmptySessionId()
    ensures Prefixed([], 1) == [0]
  {
    U8ByteIsBe(0);
  }

  /** The type byte and the session id, which is empty in the two frames that have none. */
  method WriteHead(buf: ByteBuffer, f: BinaryFrame) returns (r: Result<()>)
    modifies buf
    ensures r == if HasSession(f) && |f.sid| > 0xFF then Err(InvalidInput) else Ok(())
    ensures r.Ok? ==> buf.bytes == old(buf.bytes) + ([Tag(f)] + Prefixed(WrittenSid(f, TIGHT), 1))
  {
    hide Prefixed, ValidUtf8, Tag, Be;
    buf.bytes := buf.bytes + [Tag(f)];
    if HasSession(f) {
      var _ :- WriteSessionId(buf, f.sid);
    } else {
      buf.bytes := buf.bytes + [0];
      EmptySessionId();
    }
    return Ok(());
  }

  /** The fields behind the session id. */
  method WriteFields(buf: ByteBuffer, f: BinaryFrame) returns (r: Result<()>)
    requires HasSession(f) ==> |f.sid| <= 0xFF
    modifies buf
    ensures r == if GuardsPass(f) then Ok(()) else Err(InvalidInput)
    ensures r.Ok? ==> buf.bytes == old(buf.bytes) + Fields(f, TIGHT)
  {
    hide Fields, Prefixed, ValidUtf8, ErrorFits, Tag, Be;
    if f.Execute? {
      var _ :- WriteExecute(buf, f);
    } else if f.ExecutionResult? {
      var _ :- WriteExecutionResult(buf, f);
    } else if Unguarded(f) {
      WriteUnguardedFields(buf, f);
    } else {
      var _ :- WriteNamedPayload(buf, f);
    }
    return Ok(());
  }

  method EncodeBody(buf: ByteBuffer, f: BinaryFrame) returns (r: Result<()>)
    modifies buf
    ensures r == if GuardsPass(f) then Ok(()) else Err(InvalidInput)
    ensures r.Ok? ==> buf.bytes == old(buf.bytes) + Body(f)
  {
    hide Fields, Prefixed, ValidUtf8, ErrorFits, Tag, Be;
    var _ :- WriteHead(buf, f);
    var _ :- WriteFields(buf, f);
    assert [Tag(f)] + Prefixed(WrittenSid(f, TIGHT), 1) + Fields(f, TIGHT) == Body(f);
    return Ok(());
  }

  /** `encode_frame`: reserve four bytes, append the body, check its size, patch the four bytes. */
  method EncodeFrame(f: BinaryFrame) returns (r: Result<seq<u8>>)
    ensures r == Encode(f)
  {
    hide Body, GuardsPass, Be;
    var buf := new ByteBuffer();
    buf.bytes := [0, 0, 0, 0];
    var _ :- EncodeBody(buf, f);
    var total := |buf.bytes| - 4;
    if total > MAX_FRAME_SIZE {
      return Err(InvalidData);
    }
    U32BytesAreBe(total);
    buf.bytes := U32Bytes(total) + buf.bytes[4..];
    return Ok(buf.bytes);
  }

  // ---------------------------------------------------------------------
  // Decoding
  // ---------------------------------------------------------------------

  /** `r` is the field `spec` reads, and on success `rest` is what `spec` leaves. */
  ghost predicate Reads<T(!new)>(spec: Read<T>, r: Result<T>, rest: seq<u8>) {
    if spec.Ok? then r == Ok(spec.value.0) && rest == spec.value.1 else r == Err(spec.error)
  }

  /** A frame body and the position the decoder has reached in it. */
  class Cursor {
    const buf: seq<u8>
    var pos: nat

    ghost predicate Valid()
      reads this
    {
      pos <= |buf|
    }

    ghost function Rest(): (s: seq<u8>)
      requires Valid()
      reads this
    {
      buf[pos..]
    }

    constructor (buf: seq<u8>, pos: nat)
      requires pos <= |buf|
      ensures Valid() && this.buf == buf && this.pos == pos
    {
      this.buf := buf;
      this.pos := pos;
    }

    method ReadU8() returns (r: Result<u8>)
      requires Valid()
      modifies this`pos
      ensures Valid() && Reads(ReadUint(old(Rest()), 1), r, Rest())
    {
      if pos >= |buf| {
        return Err(UnexpectedEof);
      }
      var v := buf[pos];
      ghost var s := Rest();
      assert s[..1] == [v] && FromBe([v]) == FromBe([v][..0]) * 256 + v == v;
      pos := pos + 1;
      return Ok(v);
    }

    method ReadU16() returns (r: Result<nat>)
      requires Valid()
      modifies this`pos
      ensures Valid() && Reads(ReadUint(old(Rest()), 2), r, Rest())
    {
      if pos + 2 > |buf| {
        return Err(UnexpectedEof);
      }
      var v: nat := buf[pos] as int * 0x100 + buf[pos + 1];
      FromBe2(Rest());
      pos := pos + 2;
      return Ok(v);
    }

    method ReadU32() returns (r: Result<nat>)
      requires Valid()
      modifies this`pos
      ensures Valid() && Reads(ReadUint(old(Rest()), 4), r, Rest())
      ensures r.Ok? ==> r.value < 0x1_0000_0000
    {
      if pos + 4 > |buf| {
        return Err(UnexpectedEof);
      }
      var v := Word(buf[pos], buf[pos + 1], buf[pos + 2], buf[pos + 3]);
      FromBe4(Rest());
      pos := pos + 4;
      return Ok(v);
    }

    method ReadI32() returns (r: Result<i32>)
      requires Valid()
      modifies this`pos
      ensures Valid()
      ensures var spec := ReadUint(old(Rest()), 4);
              if spec.Ok? then spec.value.0 < 0x1_0000_0000 && r == Ok(ToI32(spec.value.0)) && Rest() == spec.value.1
              else r == Err(spec.error)
    {
      if pos + 4 > |buf| {
        return Err(UnexpectedEof);
      }
      var v := Word(buf[pos], buf[pos + 1], buf[pos + 2], buf[pos + 3]);
      FromBe4(Rest());
      pos := pos + 4;
      return Ok(ToI32(v));
    }

    method ReadU64() returns (r: Result<nat>)
      requires Valid()
      modifies this`pos
      ensures Valid() && Reads(ReadUint(old(Rest()), 8), r, Rest())
    {
      if pos + 8 > |buf| {
        return Err(UnexpectedEof);
      }
      var hi := Word(buf[pos], buf[pos + 1], buf[pos + 2], buf[pos + 3]);
      var lo := Word(buf[pos + 4], buf[pos + 5], buf[pos + 6], buf[pos + 7]);
      FromBe8(Rest());
      pos := pos + 8;
      return Ok(hi as int * 0x1_0000_0000 + lo);
    }

    method ReadUtf8Bytes(len: nat) returns (r: Result<Utf8>)
      requires Valid()
      modifies this`pos
      ensures Valid() && Reads(ReadUtf8(old(Rest()), len), r, Rest())
    {
      hide ValidUtf8;
      if pos + len > |buf| {
        return Err(UnexpectedEof);
      }
      var s := buf[pos..pos + len];
      assert s == Rest()[..len];
      if !ValidUtf8(s) {
        return Err(InvalidData);
      }
      pos := pos + len;
      return Ok(s);
    }

    method ReadRaw(len: nat) returns (r: Result<seq<u8>>)
      requires Valid()
      modifies this`pos
      ensures Valid() && Reads(ReadBytes(old(Rest()), len), r, Rest())
    {
      if pos + len > |buf| {
        return Err(UnexpectedEof);
      }
      var data := buf[pos..pos + len];
      assert data == Rest()[..len];
      pos := pos + len;
      return Ok(data);
    }

    /** A string behind a two-byte length. */
    method ReadLenPrefixedU16() returns (r: Result<Utf8>)
      requires Valid()
      modifies this`pos
      ensures Valid() && Reads(ReadString(old(Rest()), 2), r, Rest())
    {
      hide ReadUint, ReadUtf8;
      var len :- ReadU16();
      r := ReadUtf8Bytes(len);
    }

    /** A string behind a four-byte length. */
    method ReadLenPrefixedU32() returns (r: Result<Utf8>)
      requires Valid()
      modifies this`pos
      ensures Valid() && Reads(ReadString(old(Rest()), 4), r, Rest())
    {
      hide ReadUint, ReadUtf8;
      var len :- ReadU32();
      r := ReadUtf8Bytes(len);
    }

    /** A string that fills the rest of the frame. */
    method ReadRemaining() returns (r: Result<Utf8>)
      requires Valid()
      modifies this`pos
      ensures Valid() && Reads(ReadUtf8(old(Rest()), |old(Rest())|), r, Rest())
    {
      var remaining := |buf| - pos;
      r := ReadUtf8Bytes(remaining);
    }
  }

  function Word(a: u8, b: u8, c: u8, d: u8): (n: u32) {
    a as int * 0x100_0000 + b as int * 0x1_0000 + c as int * 0x100 + d
  }

  lemma FromBe2(s: seq<u8>)
    requires |s| >= 2
    ensures FromBe(s[..2]) == s[0] as int * 0x100 + s[1]
  {
    assert s[..2][..1] == s[..1] && s[..1][..0] == [];
    assert FromBe(s[..1]) == FromBe([]) * 256 + s[0];
  }

  lemma FromBe4(s: seq<u8>)
    requires |s| >= 4
    ensures FromBe(s[..4]) == Word(s[0], s[1], s[2], s[3])
  {
    FromBe2(s);
    assert s[..4][..3] == s[..3] && s[..3][..2] == s[..2];
    assert FromBe(s[..3]) == FromBe(s[..2]) * 256 + s[2];
  }

  lemma FromBe8(s: seq<u8>)
    requires |s| >= 8
    ensures FromBe(s[..8]) ==
            Word(s[0], s[1], s[2], s[3]) as int * 0x1_0000_0000 + Word(s[4], s[5], s[6], s[7])
  {
    FromBe4(s);
    assert s[..8][..7] == s[..7] && s[..7][..6] == s[..6] && s[..6][..5] == s[..5] && s[..5][..4] == s[..4];
    assert FromBe(s[..5]) == FromBe(s[..4]) * 256 + s[4];
    assert FromBe(s[..6]) == FromBe(s[..5]) * 256 + s[5];
    assert FromBe(s[..7]) == FromBe(s[..6]) * 256 + s[6];
    assert FromBe(s[..8]) == FromBe(s[..7]) * 256 + s[7];
  }

  method DecodeExecuteAt(c: Cursor, sid: Utf8) returns (r: Result<BinaryFrame>)
    requires c.Valid()
    modifies c`pos
    ensures c.Valid() && r == DecodeExecute(sid, old(c.Rest()))
  {
    hide ReadUint, ReadString, ReadUtf8, ValidUtf8;
    var mode :- c.ReadU8();
    var filePath :- c.ReadLenPrefixedU16();
    var bridgeCode :- c.ReadLenPrefixedU32();
    var postRestoreScript :- c.ReadLenPrefixedU32();
    var userCode :- c.ReadRemaining();
    return Ok(Execute(sid, mode, filePath, bridgeCode, postRestoreScript, userCode));
  }

  method DecodeErrorAt(c: Cursor) returns (r: Result<ExecutionError>)
    requires c.Valid()
    modifies c`pos
    ensures c.Valid() && Reads(ReadError(old(c.Rest())), r, c.Rest())
  {
    hide ReadString, ValidUtf8;
    var errorType :- c.ReadLenPrefixedU16();
    var message :- c.ReadLenPrefixedU16();
    var stack :- c.ReadLenPrefixedU16();
    var code :- c.ReadLenPrefixedU16();
    return Ok(ExecutionError(errorType, message, stack, code));
  }

  method DecodeExportsAt(c: Cursor) returns (r: Result<seq<u8>>)
    requires c.Valid()
    modifies c`pos
    ensures c.Valid() && Reads(ReadBlob(old(c.Rest()), 4), r, c.Rest())
  {
    hide ReadUint, ReadBytes;
    var len :- c.ReadU32();
    r := c.ReadRaw(len);
  }

  method DecodeExecutionResultAt(c: Cursor, sid: Utf8) returns (r: Result<BinaryFrame>)
    requires c.Valid()
    modifies c`pos
    ensures c.Valid() && r == DecodeExecutionResult(sid, old(c.Rest()))
  {
    hide ReadUint, ReadBlob, ReadError, ValidUtf8;
    var exitCode :- c.ReadI32();
    var flags :- c.ReadU8();
    var exports: Option<seq<u8>> := None;
    if flags % 2 == 1 {
      var data :- DecodeExportsAt(c);
      exports := Some(data);
    }
    var error: Option<ExecutionError> := None;
    if flags / 2 % 2 == 1 {
      var e :- DecodeErrorAt(c);
      error := Some(e);
    }
    return Ok(ExecutionResult(sid, exitCode, exports, error));
  }

  /** The arms of `decode_frame` after the session id. */
  method DecodeFieldsAt(side: Side, c: Cursor, tag: u8, sid: Utf8) returns (r: Result<BinaryFrame>)
    requires c.Valid()
    modifies c`pos
    ensures c.Valid() && r == DecodeFields(side, tag, sid, old(c.Rest()))
  {
    hide ReadUint, ReadString, ReadUtf8, ValidUtf8, DecodeExecute, DecodeExecutionResult;
    if tag == MSG_AUTHENTICATE {
      var token :- c.ReadRemaining();
      return Ok(Authenticate(token));
    } else if tag == MSG_CREATE_SESSION {
      var heap :- c.ReadU32();
      var cpu :- c.ReadU32();
      return Ok(CreateSession(sid, heap, cpu));
    } else if tag == MSG_DESTROY_SESSION {
      return Ok(DestroySession(sid));
    } else if tag == MSG_INJECT_GLOBALS {
      return Ok(InjectGlobals(sid, c.buf[c.pos..]));
    } else if tag == MSG_EXECUTE {
      r := DecodeExecuteAt(c, sid);
    } else if tag == MSG_BRIDGE_RESPONSE {
      ghost var s := c.Rest();
      var id :- c.ReadU64();
      var status :- c.ReadU8();
      assert id < 0x1_0000_0000_0000_0000 by { Pow256Values(); ReadUintInverse(s, 8); }
      return Ok(BridgeResponse(sid, id, status, c.buf[c.pos..]));
    } else if tag == MSG_STREAM_EVENT {
      var kind :- c.ReadLenPrefixedU16();
      return Ok(StreamEvent(sid, kind, c.buf[c.pos..]));
    } else if tag == MSG_TERMINATE_EXECUTION {
      return Ok(TerminateExecution(sid));
    } else if tag == MSG_WARM_SNAPSHOT && side.Runtime? {
      var bridge :- c.ReadLenPrefixedU32();
      return Ok(WarmSnapshot(bridge));
    } else if tag == MSG_BRIDGE_CALL {
      ghost var s := c.Rest();
      var id :- c.ReadU64();
      assert id < 0x1_0000_0000_0000_0000 by { Pow256Values(); ReadUintInverse(s, 8); }
      var callMethod :- c.ReadLenPrefixedU16();
      return Ok(BridgeCall(sid, id, callMethod, c.buf[c.pos..]));
    } else if tag == MSG_EXECUTION_RESULT {
      r := DecodeExecutionResultAt(c, sid);
    } else if tag == MSG_LOG {
      var channel :- c.ReadU8();
      var message :- c.ReadRemaining();
      return Ok(Log(sid, channel, message));
    } else if tag == MSG_STREAM_CALLBACK {
      var kind :- c.ReadLenPrefixedU16();
      return Ok(StreamCallback(sid, kind, c.buf[c.pos..]));
    } else {
      return Err(InvalidData);
    }
  }

  /** `decode_frame` and `decode_body`: total on every byte string, the cursor never leaves the buffer. */
  method DecodeFrame(side: Side, buf: seq<u8>) returns (r: Result<BinaryFrame>)
    ensures r == Decode(side, buf)
    ensures r.Ok? ==> Speaks(side, r.value) && Denotes(buf, r.value)
    ensures r.Err? ==> forall f :: Speaks(side, f) ==> !Denotes(buf, f)
  {
    forall f: BinaryFrame
      ensures Decode(side, buf) == Ok(f) <==> Speaks(side, f) && Denotes(buf, f)
    {
      DecodeExact(side, buf, f);
    }
    hide DecodeFields, ReadUint, ReadUtf8, ValidUtf8, Denotes;
    if buf == [] {
      return Err(InvalidData);
    }
    var c := new Cursor(buf, 1);
    var sidLen :- c.ReadU8();
    var sid :- c.ReadUtf8Bytes(sidLen);
    r := DecodeFieldsAt(side, c, buf[0], sid);
  }
}
