/** Machine integers, I/O results and the byte-level building blocks of the frame format. */
module Wire {

  type u8 = x: int | 0 <= x < 0x100
  type u32 = x: int | 0 <= x < 0x1_0000_0000
  type u64 = x: int | 0 <= x < 0x1_0000_0000_0000_0000
  type i32 = x: int | -0x8000_0000 <= x < 0x8000_0000

  datatype Option<+T> = None | Some(value: T)

  /** The kinds of `io::Error` the codec and the reader thread tell apart. */
  datatype IoError = UnexpectedEof | InvalidData | InvalidInput

  datatype Result<+T> = Ok(value: T) | Err(error: IoError) {
    predicate IsFailure() { Err? }
    function PropagateFailure<U>(): Result<U>
      requires Err?
    {
      Err(error)
    }
    function Extract(): T
      requires Ok?
    {
      value
    }
  }

  // ---------------------------------------------------------------------
  // UTF-8 (the byte patterns `str::from_utf8` accepts: Unicode table 3-7)
  // ---------------------------------------------------------------------

  predicate Continuation(b: u8) { 0x80 <= b <= 0xBF }

  /** Length of the well-formed sequence that starts `s`, or 0 if there is none. */
  function Utf8Head(s: seq<u8>): (n: nat)
    ensures n <= |s|
  {
    if |s| >= 1 && s[0] <= 0x7F then 1
    else if |s| >= 2 && 0xC2 <= s[0] <= 0xDF && Continuation(s[1]) then 2
    else if |s| >= 3 && Continuation(s[2]) && Continuation(s[1]) && (
              || (s[0] == 0xE0 && s[1] >= 0xA0)
              || 0xE1 <= s[0] <= 0xEC
              || (s[0] == 0xED && s[1] <= 0x9F)
              || 0xEE <= s[0] <= 0xEF) then 3
    else if |s| >= 4 && Continuation(s[3]) && Continuation(s[2]) && Continuation(s[1]) && (
              || (s[0] == 0xF0 && s[1] >= 0x90)
              || 0xF1 <= s[0] <= 0xF3
              || (s[0] == 0xF4 && s[1] <= 0x8F)) then 4
    else 0
  }

  predicate ValidUtf8(s: seq<u8>)
    decreases |s|
  {
    s == [] || (Utf8Head(s) > 0 && ValidUtf8(s[Utf8Head(s)..]))
  }

  /** A Rust `String`, held as its bytes. */
  type Utf8 = s: seq<u8> | ValidUtf8(s) witness []

  // ---------------------------------------------------------------------
  // Big-endian integers
  // ---------------------------------------------------------------------

  function Pow256(w: nat): (p: nat)
    ensures p > 0
  {
    if w == 0 then 1 else 256 * Pow256(w - 1)
  }

  lemma Pow256Values()
    ensures Pow256(1) == 0x100 && Pow256(2) == 0x1_0000
    ensures Pow256(4) == 0x1_0000_0000 && Pow256(8) == 0x1_0000_0000_0000_0000
  {
    assert Pow256(3) == 0x100_0000;
    assert Pow256(5) == 0x100_0000_0000;
    assert Pow256(6) == 0x1_0000_0000_0000;
    assert Pow256(7) == 0x100_0000_0000_0000;
  }

  /** The low `w` bytes of `n`, most significant first: `(n as uN).to_be_bytes()`. */
  function Be(n: nat, w: nat): (s: seq<u8>)
    ensures |s| == w
  {
    if w == 0 then [] else Be(n / 256, w - 1) + [n % 256]
  }

  /** `uN::from_be_bytes`. */
  function FromBe(s: seq<u8>): (n: nat) {
    if s == [] then 0 else FromBe(s[..|s| - 1]) * 256 + s[|s| - 1]
  }

  lemma {:induction false} FromBeOfBe(n: nat, w: nat)
    requires n < Pow256(w)
    ensures FromBe(Be(n, w)) == n
  {
    if w > 0 {
      FromBeOfBe(n / 256, w - 1);
      assert Be(n, w)[..w - 1] == Be(n / 256, w - 1);
    }
  }

  lemma {:induction false} BeOfFromBe(s: seq<u8>)
    ensures FromBe(s) < Pow256(|s|)
    ensures Be(FromBe(s), |s|) == s
  {
    if s != [] {
      BeOfFromBe(s[..|s| - 1]);
      assert FromBe(s) / 256 == FromBe(s[..|s| - 1]);
      assert FromBe(s) % 256 == s[|s| - 1];
      assert s == s[..|s| - 1] + [s[|s| - 1]];
    }
  }

  /** The two's-complement reading of an `i32`. */
  function ToU32(v: i32): (n: u32) {
    if v < 0 then v + 0x1_0000_0000 else v
  }

  function ToI32(n: u32): (v: i32) {
    if n >= 0x8000_0000 then n - 0x1_0000_0000 else n
  }

  // ---------------------------------------------------------------------
  // Reading from the front of a byte string
  // ---------------------------------------------------------------------

  /** A field that was read, and the bytes after it. */
  type Read<+T> = Result<(T, seq<u8>)>

  function ReadBytes(s: seq<u8>, n: nat): (r: Read<seq<u8>>) {
    if n <= |s| then Ok((s[..n], s[n..])) else Err(UnexpectedEof)
  }

  function ReadUint(s: seq<u8>, w: nat): (r: Read<nat>) {
    var (b, rest) :- ReadBytes(s, w);
    Ok((FromBe(b), rest))
  }

  function ReadUtf8(s: seq<u8>, n: nat): (r: Read<Utf8>) {
    var (b, rest) :- ReadBytes(s, n);
    if ValidUtf8(b) then Ok((b, rest)) else Err(InvalidData)
  }

  /** A string behind a length of `w` bytes. */
  function ReadString(s: seq<u8>, w: nat): (r: Read<Utf8>) {
    var (n, rest) :- ReadUint(s, w);
    ReadUtf8(rest, n)
  }

  /** Raw bytes behind a length of `w` bytes. */
  function ReadBlob(s: seq<u8>, w: nat): (r: Read<seq<u8>>) {
    var (n, rest) :- ReadUint(s, w);
    ReadBytes(rest, n)
  }

  /** Bytes behind their length in `w` bytes; the length is cut to `w` bytes as the casts do. */
  function Prefixed(b: seq<u8>, w: nat): (s: seq<u8>)
    ensures |s| == w + |b|
  {
    Be(|b|, w) + b
  }

  lemma ReadUintOfBe(n: nat, w: nat, rest: seq<u8>)
    requires n < Pow256(w)
    ensures ReadUint(Be(n, w) + rest, w) == Ok((n, rest))
  {
    FromBeOfBe(n, w);
    assert (Be(n, w) + rest)[..w] == Be(n, w);
    assert (Be(n, w) + rest)[w..] == rest;
  }

  lemma ReadUintInverse(s: seq<u8>, w: nat)
    ensures ReadUint(s, w).Ok? ==>
              var (n, rest) := ReadUint(s, w).value;
              s == Be(n, w) + rest && n < Pow256(w)
  {
    hide Be, FromBe, Pow256;
    if w <= |s| {
      BeOfFromBe(s[..w]);
      assert s == s[..w] + s[w..];
    }
  }

  lemma ReadStringOfPrefixed(b: Utf8, w: nat, rest: seq<u8>)
    requires |b| < Pow256(w)
    ensures ReadString(Prefixed(b, w) + rest, w) == Ok((b, rest))
  {
    ReadBlobOfPrefixed(b, w, rest);
  }

  lemma ReadBlobOfPrefixed(b: seq<u8>, w: nat, rest: seq<u8>)
    requires |b| < Pow256(w)
    ensures ReadBlob(Prefixed(b, w) + rest, w) == Ok((b, rest))
  {
    assert Prefixed(b, w) + rest == Be(|b|, w) + (b + rest);
    ReadUintOfBe(|b|, w, b + rest);
  }

  lemma ReadBlobInverse(s: seq<u8>, w: nat)
    ensures ReadBlob(s, w).Ok? ==>
              var (b, rest) := ReadBlob(s, w).value;
              s == Prefixed(b, w) + rest && |b| < Pow256(w)
  {
    ReadUintInverse(s, w);
    if ReadBlob(s, w).Ok? {
      var (n, t) := ReadUint(s, w).value;
      assert t == t[..n] + t[n..];
      assert Prefixed(t[..n], w) + t[n..] == Be(n, w) + (t[..n] + t[n..]);
    }
  }

  lemma ReadStringInverse(s: seq<u8>, w: nat)
    ensures ReadString(s, w).Ok? ==>
              var (b, rest) := ReadString(s, w).value;
              s == Prefixed(b, w) + rest && |b| < Pow256(w)
  {
    ReadBlobInverse(s, w);
  }
}
