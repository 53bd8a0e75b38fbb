/**
 What it is to be UTF-8: the byte strings the decoder accepts as text (module Wire) are exactly the
 encodings of sequences of Unicode scalar values, each of exactly one.
 */
module Utf8Text {
  import opened Wire

  function EncodeChar(c: char): (b: seq<u8>)
    ensures 1 <= |b| <= 4
  {
    var n := c as int;
    if n < 0x80 then [n]
    else if n < 0x800 then [0xC0 + n / 64, 0x80 + n % 64]
    else if n < 0x1_0000 then [0xE0 + n / 64 / 64, 0x80 + n / 64 % 64, 0x80 + n % 64]
    else [0xF0 + n / 64 / 64 / 64, 0x80 + n / 64 / 64 % 64, 0x80 + n / 64 % 64, 0x80 + n % 64]
  }

  function EncodeText(s: string): (b: seq<u8>) {
    if s == "" then [] else EncodeChar(s[0]) + EncodeText(s[1..])
  }

  /** A number followed by six more bits. */
  function Join(high: int, low: int): (n: int) {
    high * 64 + low
  }

  /** The number that the head of a well-formed byte string stands for. */
  function HeadValue(b: seq<u8>): (n: nat)
    requires Utf8Head(b) > 0
  {
    match Utf8Head(b)
    case 1 => b[0]
    case 2 => Join(b[0] - 0xC0, b[1] - 0x80)
    case 3 => Join(Join(b[0] - 0xE0, b[1] - 0x80), b[2] - 0x80)
    case _ => Join(Join(Join(b[0] - 0xF0, b[1] - 0x80), b[2] - 0x80), b[3] - 0x80)
  }

  lemma HeadIsScalar(b: seq<u8>)
    requires Utf8Head(b) > 0
    ensures HeadValue(b) < 0xD800 || 0xE000 <= HeadValue(b) < 0x11_0000
    ensures Utf8Head(b) == 1 ==> HeadValue(b) < 0x80
    ensures Utf8Head(b) == 2 ==> 0x80 <= HeadValue(b) < 0x800
    ensures Utf8Head(b) == 3 ==> 0x800 <= HeadValue(b) < 0x1_0000
    ensures Utf8Head(b) == 4 ==> 0x1_0000 <= HeadValue(b)
  {
  }

  function HeadChar(b: seq<u8>): (c: char)
    requires Utf8Head(b) > 0
  {
    HeadIsScalar(b);
    HeadValue(b) as char
  }

  /** A well-formed head is the encoding of its character. */
  lemma HeadIsEncoding(b: seq<u8>)
    requires Utf8Head(b) > 0
    ensures b[..Utf8Head(b)] == EncodeChar(HeadChar(b))
  {
    HeadIsScalar(b);
    var n := HeadValue(b);
    if Utf8Head(b) == 1 {
      assert b[..1] == [n];
    } else if Utf8Head(b) == 2 {
      Digits(b[0] - 0xC0, b[1] - 0x80);
    } else if Utf8Head(b) == 3 {
      Digits(b[0] - 0xE0, b[1] - 0x80);
      Digits(Join(b[0] - 0xE0, b[1] - 0x80), b[2] - 0x80);
    } else {
      Digits(b[0] - 0xF0, b[1] - 0x80);
      Digits(Join(b[0] - 0xF0, b[1] - 0x80), b[2] - 0x80);
      Digits(Join(Join(b[0] - 0xF0, b[1] - 0x80), b[2] - 0x80), b[3] - 0x80);
    }
  }

  lemma Digits(high: int, low: int)
    requires 0 <= low < 64 && 0 <= high
    ensures Join(high, low) / 64 == high && Join(high, low) % 64 == low
  {
  }

  /** The encoding of a character, in front of anything, is a well-formed head of its own length. */
  lemma EncodingIsHead(c: char, rest: seq<u8>)
    ensures Utf8Head(EncodeChar(c) + rest) == |EncodeChar(c)|
  {
    var n := c as int;
    var b := EncodeChar(c);
    var m := n / 64;
    assert b + rest != [] && (b + rest)[0] == b[0];
    if n >= 0x80 {
      assert (b + rest)[1] == b[1];
    }
    if n >= 0x800 {
      assert (b + rest)[2] == b[2];
    }
    if n >= 0x1_0000 {
      assert (b + rest)[3] == b[3];
    }
  }

  lemma {:induction false} EncodedIsValid(s: string)
    ensures ValidUtf8(EncodeText(s))
    decreases |s|
  {
    hide Utf8Head, EncodeChar;
    if s != "" {
      var b, rest := EncodeChar(s[0]), EncodeText(s[1..]);
      EncodingIsHead(s[0], rest);
      assert (b + rest)[|b|..] == rest;
      EncodedIsValid(s[1..]);
    }
  }

  lemma {:induction false} ValidIsEncoded(b: seq<u8>) returns (s: string)
    requires ValidUtf8(b)
    ensures b == EncodeText(s)
    decreases |b|
  {
    hide Utf8Head, EncodeChar, HeadChar;
    if b == [] {
      s := "";
    } else {
      var n := Utf8Head(b);
      HeadIsEncoding(b);
      var more := ValidIsEncoded(b[n..]);
      s := [HeadChar(b)] + more;
      assert s[1..] == more;
      assert b == b[..n] + b[n..];
    }
  }

  lemma EncodeCharInjective(c: char, d: char)
    requires EncodeChar(c) == EncodeChar(d)
    ensures c == d
  {
    var n, m := c as int, d as int;
    assert n == n / 64 * 64 + n % 64 && m == m / 64 * 64 + m % 64;
    assert n / 64 == n / 64 / 64 * 64 + n / 64 % 64 && m / 64 == m / 64 / 64 * 64 + m / 64 % 64;
    assert n / 64 / 64 == n / 64 / 64 / 64 * 64 + n / 64 / 64 % 64 &&
      m / 64 / 64 == m / 64 / 64 / 64 * 64 + m / 64 / 64 % 64;
    assert |EncodeChar(c)| == |EncodeChar(d)|;
    assert EncodeChar(c)[0] == EncodeChar(d)[0];
    assert |EncodeChar(c)| > 1 ==> EncodeChar(c)[1] == EncodeChar(d)[1];
    assert |EncodeChar(c)| > 2 ==> EncodeChar(c)[2] == EncodeChar(d)[2];
    assert |EncodeChar(c)| > 3 ==> EncodeChar(c)[3] == EncodeChar(d)[3];
  }

  lemma {:induction false} EncodeTextInjective(s: string, t: string)
    requires EncodeText(s) == EncodeText(t)
    ensures s == t
    decreases |s|
  {
    hide Utf8Head, EncodeChar;
    assert s != "" ==> EncodeText(s) != [];
    assert t != "" ==> EncodeText(t) != [];
    if s != "" {
      var a, b := EncodeChar(s[0]), EncodeChar(t[0]);
      var x, y := EncodeText(s[1..]), EncodeText(t[1..]);
      EncodingIsHead(s[0], x);
      EncodingIsHead(t[0], y);
      assert a == (a + x)[..|a|] == (b + y)[..|b|] == b;
      assert x == (a + x)[|a|..] == (b + y)[|b|..] == y;
      EncodeCharInjective(s[0], t[0]);
      EncodeTextInjective(s[1..], t[1..]);
      assert s == [s[0]] + s[1..] && t == [t[0]] + t[1..];
    }
  }

  /** Accepted as text if and only if some string is written that way, and then exactly one. */
  lemma ValidIffText(b: seq<u8>)
    ensures ValidUtf8(b) <==> exists s: string :: EncodeText(s) == b
    ensures forall s: string, t: string :: EncodeText(s) == b && EncodeText(t) == b ==> s == t
  {
    if ValidUtf8(b) {
      var s := ValidIsEncoded(b);
      assert EncodeText(s) == b;
    }
    if exists s: string :: EncodeText(s) == b {
      var s: string :| EncodeText(s) == b;
      EncodedIsValid(s);
    }
    forall s: string, t: string | EncodeText(s) == b && EncodeText(t) == b
      ensures s == t
    {
      EncodeTextInjective(s, t);
    }
  }
}
