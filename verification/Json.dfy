/**
 The JSON encoders of crates/execution/src/common.rs, against a reader for the strings of section 7
 of RFC 8259, the arrays of section 5 and the objects of section 4. A Rust `char` is a Dafny `char`:
 a Unicode scalar value.
 */
module Json {
  import opened Wire
  import opened Hexadecimal

  // ---------------------------------------------------------------------
  // Writing
  // ---------------------------------------------------------------------

  /** `char::is_control`: general category Cc. */
  predicate IsControl(c: char) {
    c as int <= 0x1F || 0x7F <= c as int <= 0x9F
  }

  /** `char::encode_utf16`. */
  function Utf16(c: char): (units: seq<nat>)
    ensures forall i :: 0 <= i < |units| ==> units[i] <= 0xFFFF
  {
    var n := c as int;
    if n <= 0xFFFF then [n]
    else [0xD800 + (n - 0x1_0000) / 0x400, 0xDC00 + (n - 0x1_0000) % 0x400]
  }

  const UNIT_DIGITS := 4

  function UnitEscape(unit: nat): (s: string) {
    "\\u" + Hex(unit, UNIT_DIGITS)
  }

  function UnitEscapes(units: seq<nat>): (s: string) {
    if units == [] then "" else UnitEscape(units[0]) + UnitEscapes(units[1..])
  }

  /** What is written for one character. */
  function Escape(c: char): (s: string) {
    if c == '"' then "\\\""
    else if c == '\\' then "\\\\"
    else if c == '\n' then "\\n"
    else if c == '\r' then "\\r"
    else if c == '\t' then "\\t"
    else if c as int == 0x08 then "\\b"
    else if c as int == 0x0C then "\\f"
    else if IsControl(c) || c as int > 0xFFFF then UnitEscapes(Utf16(c))
    else [c]
  }

  function Escapes(s: string): (t: string) {
    if s == "" then "" else Escape(s[0]) + Escapes(s[1..])
  }

  function EncodeString(s: string): (t: string) {
    "\"" + (Escapes(s) + "\"")
  }

  // ---------------------------------------------------------------------
  // Reading (RFC 8259)
  // ---------------------------------------------------------------------

  /** Some character or value and the text after it. */
  type Parsed<+T> = Option<(T, string)>

  function HexValue(c: char): (v: Option<nat>)
    ensures v.Some? ==> v.value < 16
  {
    if '0' <= c <= '9' then Some(c as int - '0' as int)
    else if 'a' <= c <= 'f' then Some(c as int - 'a' as int + 10)
    else if 'A' <= c <= 'F' then Some(c as int - 'A' as int + 10)
    else None
  }

  /** Backslash, `u` and four hexadecimal digits. */
  function ParseUnit(s: string): (r: Parsed<nat>)
    ensures r.Some? ==> r.value.0 <= 0xFFFF && |r.value.1| == |s| - 6
  {
    if |s| < 6 || s[0] != '\\' || s[1] != 'u' then None else
    var a, b, c, d := HexValue(s[2]), HexValue(s[3]), HexValue(s[4]), HexValue(s[5]);
    if a.Some? && b.Some? && c.Some? && d.Some?
    then Some((((a.value * 16 + b.value) * 16 + c.value) * 16 + d.value, s[6..]))
    else None
  }

  /** A unit that is a character, or two that are a surrogate pair. */
  function ParseUnits(s: string): (r: Parsed<char>)
    ensures r.Some? ==> |r.value.1| < |s|
  {
    var first := ParseUnit(s);
    if first.None? then None else
    var (u, t) := first.value;
    if u < 0xD800 || u >= 0xE000 then Some((u as char, t))
    else if u >= 0xDC00 then None
    else
      var second := ParseUnit(t);
      if second.None? then None else
      var (v, rest) := second.value;
      if 0xDC00 <= v < 0xE000 then Some(((0x1_0000 + (u - 0xD800) * 0x400 + (v - 0xDC00)) as char, rest))
      else None
  }

  function ParseChar(s: string): (r: Parsed<char>)
    ensures r.Some? ==> |r.value.1| < |s|
  {
    if s == "" || s[0] as int < 0x20 || s[0] == '"' then None
    else if s[0] != '\\' then Some((s[0], s[1..]))
    else if |s| < 2 then None
    else if s[1] == '"' || s[1] == '\\' || s[1] == '/' then Some((s[1], s[2..]))
    else if s[1] == 'b' then Some((0x08 as char, s[2..]))
    else if s[1] == 'f' then Some((0x0C as char, s[2..]))
    else if s[1] == 'n' then Some(('\n', s[2..]))
    else if s[1] == 'r' then Some(('\r', s[2..]))
    else if s[1] == 't' then Some(('\t', s[2..]))
    else ParseUnits(s)
  }

  /** Characters up to the closing quotation mark. */
  function ParseChars(s: string): (r: Parsed<string>)
    ensures r.Some? ==> |r.value.1| < |s|
    decreases |s|
  {
    if s != "" && s[0] == '"' then Some(("", s[1..])) else
    var c := ParseChar(s);
    if c.None? then None else
    var more := ParseChars(c.value.1);
    if more.None? then None else Some(([c.value.0] + more.value.0, more.value.1))
  }

  function ParseString(s: string): (r: Parsed<string>)
    ensures r.Some? ==> |r.value.1| < |s|
  {
    if s != "" && s[0] == '"' then ParseChars(s[1..]) else None
  }

  // ---------------------------------------------------------------------
  // Strings come back
  // ---------------------------------------------------------------------

  lemma DigitValue(n: nat)
    requires n < 16
    ensures HexValue(DigitOf(n)) == Some(n)
  {
  }

  lemma HexSnoc(x: nat, d: nat, w: nat)
    requires d < 16
    ensures Hex(x * 16 + d, w + 1) == Hex(x, w) + [DigitOf(d)]
  {
    hide DigitOf;
    assert (x * 16 + d) / 16 == x && (x * 16 + d) % 16 == d;
  }

  lemma HexNothing()
    ensures Hex(0, 0) == ""
  {
  }

  lemma FourDigits(a: nat, b: nat, c: nat, d: nat, u: nat)
    requires a < 16 && b < 16 && c < 16 && d < 16 && u == ((a * 16 + b) * 16 + c) * 16 + d
    ensures Hex(u, UNIT_DIGITS) == [DigitOf(a), DigitOf(b), DigitOf(c), DigitOf(d)]
  {
    hide Hex, DigitOf;
    HexNothing();
    var x, y := a * 16 + b, (a * 16 + b) * 16 + c;
    HexSnoc(0, a, 0);
    HexSnoc(a, b, 1);
    HexSnoc(x, c, 2);
    HexSnoc(y, d, 3);
  }

  lemma ParseUnitOfDigits(a: nat, b: nat, c: nat, d: nat, u: nat, t: string)
    requires a < 16 && b < 16 && c < 16 && d < 16 && u == ((a * 16 + b) * 16 + c) * 16 + d
    ensures ParseUnit(UnitEscape(u) + t) == Some((u, t))
  {
    hide Hex, HexValue, DigitOf;
    FourDigits(a, b, c, d, u);
    DigitValue(a);
    DigitValue(b);
    DigitValue(c);
    DigitValue(d);
    var s := UnitEscape(u) + t;
    assert s == ['\\', 'u', DigitOf(a), DigitOf(b), DigitOf(c), DigitOf(d)] + t;
    assert s[6..] == t;
  }

  lemma ParseUnitOfEscape(u: nat, t: string)
    requires u <= 0xFFFF
    ensures ParseUnit(UnitEscape(u) + t) == Some((u, t))
  {
    hide ParseUnit, UnitEscape;
    var y := u / 16;
    var x := y / 16;
    ParseUnitOfDigits(x / 16, x % 16, y % 16, u % 16, u, t);
  }

  lemma ParseUnitsOfUtf16(c: char, t: string)
    ensures ParseUnits(UnitEscapes(Utf16(c)) + t) == Some((c, t))
  {
    hide ParseUnit, UnitEscape;
    var n, units := c as int, Utf16(c);
    if n <= 0xFFFF {
      assert units[1..] == [];
      assert UnitEscapes(units) + t == UnitEscape(n) + t;
      ParseUnitOfEscape(n, t);
    } else {
      var high, low := units[0], units[1];
      assert units[1..] == [low] && [low][1..] == [];
      assert UnitEscapes([low]) == UnitEscape(low) + UnitEscapes([]);
      assert UnitEscapes(units) + t == UnitEscape(high) + (UnitEscape(low) + t);
      ParseUnitOfEscape(high, UnitEscape(low) + t);
      ParseUnitOfEscape(low, t);
      assert 0xD800 <= high < 0xDC00 && 0xDC00 <= low < 0xE000;
      assert 0x1_0000 + (high - 0xD800) * 0x400 + (low - 0xDC00) == n;
    }
  }

  lemma UnitEscapesStart(c: char)
    ensures |UnitEscapes(Utf16(c))| >= 2
    ensures UnitEscapes(Utf16(c))[0] == '\\' && UnitEscapes(Utf16(c))[1] == 'u'
  {
    assert UnitEscape(Utf16(c)[0])[..2] == "\\u";
  }

  lemma ParseCharOfEscape(c: char, t: string)
    ensures Escape(c) != "" && Escape(c)[0] != '"'
    ensures ParseChar(Escape(c) + t) == Some((c, t))
  {
    hide ParseUnits, UnitEscapes, Utf16;
    var s := Escape(c) + t;
    if c == '"' || c == '\\' || c == '\n' || c == '\r' || c == '\t' || c as int == 0x08 || c as int == 0x0C {
      assert |Escape(c)| == 2;
      assert s[2..] == t;
    } else if IsControl(c) || c as int > 0xFFFF {
      UnitEscapesStart(c);
      assert s[0] == '\\' && s[1] == 'u';
      ParseUnitsOfUtf16(c, t);
    } else {
      assert s[1..] == t;
    }
  }

  lemma {:induction false} ParseCharsOfEscapes(s: string, t: string)
    ensures ParseChars(Escapes(s) + ("\"" + t)) == Some((s, t))
    decreases |s|
  {
    hide ParseChar, Escape, Hex;
    var end := "\"" + t;
    if s == "" {
      assert Escapes(s) + end == end;
      assert end[1..] == t;
    } else {
      var rest := Escapes(s[1..]) + end;
      assert Escapes(s) + end == Escape(s[0]) + rest;
      ParseCharOfEscape(s[0], rest);
      ParseCharsOfEscapes(s[1..], t);
      assert s == [s[0]] + s[1..];
    }
  }

  /** The encoding of a string, in front of any text, is read back as that string. */
  lemma StringRoundTrip(s: string, t: string)
    ensures ParseString(EncodeString(s) + t) == Some((s, t))
  {
    hide ParseChars, Escapes;
    ParseCharsOfEscapes(s, t);
    assert EncodeString(s) + t == "\"" + (Escapes(s) + ("\"" + t));
    assert (EncodeString(s) + t)[1..] == Escapes(s) + ("\"" + t);
  }

  /** Seven characters have escapes of their own; of the others exactly the plain ones are written as they are. */
  lemma EscapesAre(c: char)
    ensures c == '"' ==> Escape(c) == "\\\""
    ensures c == '\\' ==> Escape(c) == "\\\\"
    ensures c as int == 0x0A ==> Escape(c) == "\\n"
    ensures c as int == 0x0D ==> Escape(c) == "\\r"
    ensures c as int == 0x09 ==> Escape(c) == "\\t"
    ensures c as int == 0x08 ==> Escape(c) == "\\b"
    ensures c as int == 0x0C ==> Escape(c) == "\\f"
    ensures Escape(c) == [c] <==>
      c != '"' && c != '\\' && c as int > 0x1F && !(0x7F <= c as int <= 0x9F) && c as int <= 0xFFFF
  {
    UnitEscapesStart(c);
  }

  lemma NoMoreUnits()
    ensures UnitEscapes([]) == ""
  {
  }

  /** A control character without an escape of its own, and the repository's own example of a surrogate pair. */
  lemma KnownEscapes(bell: char, face: char)
    requires bell as int == 0x1B && face as int == 0x1F600
    ensures Escape(bell) == "\\u001b" && Escape(face) == "\\ud83d\\ude00"
  {
    hide Hex, UnitEscape, UnitEscapes;
    FourDigits(0, 0, 1, 0xb, 0x1B);
    FourDigits(0xd, 8, 3, 0xd, 0xD83D);
    FourDigits(0xd, 0xe, 0, 0, 0xDE00);
    KnownUnit(0x1B, "001b");
    KnownUnit(0xD83D, "d83d");
    KnownUnit(0xDE00, "de00");
    assert Utf16(bell) == [0x1B] && Utf16(face) == [0xD83D, 0xDE00];
    OneUnit(0x1B);
    TwoUnits(0xD83D, 0xDE00);
    assert "\\ud83d" + "\\ude00" == "\\ud83d\\ude00";
  }

  lemma KnownUnit(u: nat, digits: string)
    requires Hex(u, UNIT_DIGITS) == digits
    ensures UnitEscape(u) == "\\u" + digits
  {
  }

  lemma OneUnit(u: nat)
    ensures UnitEscapes([u]) == UnitEscape(u)
  {
    hide UnitEscape;
    NoMoreUnits();
    assert [u][1..] == [];
  }

  lemma TwoUnits(u: nat, v: nat)
    ensures UnitEscapes([u, v]) == UnitEscape(u) + UnitEscape(v)
  {
    hide UnitEscape;
    OneUnit(v);
    assert [u, v][1..] == [v];
  }

  /** What is written holds no control character and nothing outside the basic multilingual plane. */
  predicate Plain(s: string) {
    forall i :: 0 <= i < |s| ==> !IsControl(s[i]) && s[i] as int <= 0xFFFF
  }

  lemma {:induction false} HexIsPlain(n: nat, w: nat)
    ensures Plain(Hex(n, w))
    decreases w
  {
    if w > 0 {
      HexIsPlain(n / 16, w - 1);
    }
  }

  lemma {:induction false} UnitEscapesArePlain(units: seq<nat>)
    ensures Plain(UnitEscapes(units))
    decreases |units|
  {
    if units != [] {
      HexIsPlain(units[0], UNIT_DIGITS);
      UnitEscapesArePlain(units[1..]);
    }
  }

  lemma EscapeIsPlain(c: char)
    ensures Plain(Escape(c))
  {
    hide Utf16, UnitEscapes;
    UnitEscapesArePlain(Utf16(c));
  }

  lemma {:induction false} EscapesArePlain(s: string)
    ensures Plain(Escapes(s))
  {
    hide Escape;
    if s != "" {
      EscapeIsPlain(s[0]);
      EscapesArePlain(s[1..]);
    }
  }

  lemma EncodingIsPlain(s: string)
    ensures Plain(EncodeString(s))
  {
    EscapesArePlain(s);
  }

  // ---------------------------------------------------------------------
  // Arrays and objects
  // ---------------------------------------------------------------------

  /** A string, or a key with its value: what stands between two commas. */
  datatype Item = Text(s: string) | Pair(key: string, value: string)

  function EncodeItem(item: Item): (t: string) {
    match item
    case Text(s) => EncodeString(s)
    case Pair(key, value) => EncodeString(key) + (":" + EncodeString(value))
  }

  function EncodeItems(items: seq<Item>): (t: string) {
    if items == [] then ""
    else if |items| == 1 then EncodeItem(items[0])
    else EncodeItem(items[0]) + ("," + EncodeItems(items[1..]))
  }

  /** The start and end of an array of strings, or of an object. */
  datatype Kind = Array | Object

  function Open(kind: Kind): (c: char) { if kind.Array? then '[' else '{' }

  function Close(kind: Kind): (c: char) { if kind.Array? then ']' else '}' }

  predicate Fits(kind: Kind, items: seq<Item>) {
    forall i :: 0 <= i < |items| ==> items[i].Text? == kind.Array?
  }

  function Encode(kind: Kind, items: seq<Item>): (t: string) {
    [Open(kind)] + (EncodeItems(items) + [Close(kind)])
  }

  /** Insignificant white space. */
  function Skip(s: string): (t: string)
    ensures |t| <= |s|
  {
    if s != "" && (s[0] == ' ' || s[0] == '\t' || s[0] == '\n' || s[0] == '\r') then Skip(s[1..]) else s
  }

  function ParseItem(kind: Kind, s: string): (r: Parsed<Item>)
    ensures r.Some? ==> |r.value.1| < |s|
  {
    var first := ParseString(s);
    if first.None? then None
    else if kind.Array? then Some((Text(first.value.0), first.value.1))
    else
      var t := Skip(first.value.1);
      if t == "" || t[0] != ':' then None else
      var second := ParseString(Skip(t[1..]));
      if second.None? then None else Some((Pair(first.value.0, second.value.0), second.value.1))
  }

  /** One or more items and the closing bracket. */
  function ParseItems(kind: Kind, s: string): (r: Parsed<seq<Item>>)
    decreases |s|
  {
    var first := ParseItem(kind, s);
    if first.None? then None else
    var t := Skip(first.value.1);
    if t != "" && t[0] == Close(kind) then Some(([first.value.0], t[1..]))
    else if t != "" && t[0] == ',' then
      var more := ParseItems(kind, Skip(t[1..]));
      if more.None? then None else Some(([first.value.0] + more.value.0, more.value.1))
    else None
  }

  function Parse(kind: Kind, s: string): (r: Parsed<seq<Item>>) {
    if s == "" || s[0] != Open(kind) then None else
    var t := Skip(s[1..]);
    if t != "" && t[0] == Close(kind) then Some(([], t[1..])) else ParseItems(kind, t)
  }

  lemma SkipNothing(s: string)
    requires s == "" || (s[0] != ' ' && s[0] != '\t' && s[0] != '\n' && s[0] != '\r')
    ensures Skip(s) == s
  {
  }

  lemma EncodeItemStart(item: Item)
    ensures EncodeItem(item) != "" && EncodeItem(item)[0] == '"'
  {
  }

  lemma ParseItemOfEncoded(kind: Kind, item: Item, t: string)
    requires item.Text? == kind.Array?
    ensures ParseItem(kind, EncodeItem(item) + t) == Some((item, t))
  {
    hide ParseString, EncodeString, Skip;
    match item
    case Text(s) => StringRoundTrip(s, t);
    case Pair(key, value) =>
      var rest := EncodeString(value) + t;
      assert EncodeItem(item) + t == EncodeString(key) + (":" + rest);
      StringRoundTrip(key, ":" + rest);
      SkipNothing(":" + rest);
      assert (":" + rest)[1..] == rest;
      assert rest != "" && rest[0] == '"' by { EncodeItemStart(Text(value)); }
      SkipNothing(rest);
      StringRoundTrip(value, t);
  }

  lemma {:induction false} ParseItemsOfEncoded(kind: Kind, items: seq<Item>, t: string)
    requires items != [] && Fits(kind, items)
    ensures ParseItems(kind, EncodeItems(items) + ([Close(kind)] + t)) == Some((items, t))
    decreases |items|
  {
    hide ParseItem, EncodeItem, Skip;
    var end := [Close(kind)] + t;
    SkipNothing(end);
    assert end[1..] == t;
    if |items| == 1 {
      ParseItemOfEncoded(kind, items[0], end);
      assert items == [items[0]];
    } else {
      var rest := EncodeItems(items[1..]) + end;
      var comma := "," + rest;
      assert EncodeItems(items) + end == EncodeItem(items[0]) + comma;
      ParseItemOfEncoded(kind, items[0], comma);
      SkipNothing(comma);
      assert comma[1..] == rest;
      assert rest != "" && rest[0] == '"' by { EncodeItemStart(items[1]); }
      SkipNothing(rest);
      ParseItemsOfEncoded(kind, items[1..], t);
      assert items == [items[0]] + items[1..];
    }
  }

  /** An encoded array or object, in front of any text, is read back item by item. */
  lemma RoundTrip(kind: Kind, items: seq<Item>, t: string)
    requires Fits(kind, items)
    ensures Parse(kind, Encode(kind, items) + t) == Some((items, t))
  {
    hide ParseItems, EncodeItems, Skip;
    var end := [Close(kind)] + t;
    var s := Encode(kind, items) + t;
    assert s[1..] == EncodeItems(items) + end;
    if items == [] {
      assert EncodeItems(items) + end == end by { NoItems(); }
      SkipNothing(end);
      assert end[1..] == t;
    } else {
      var u := EncodeItems(items) + end;
      assert u != "" && u[0] == '"' by { ItemsStart(items); }
      SkipNothing(u);
      ParseItemsOfEncoded(kind, items, t);
    }
  }

  lemma NoItems()
    ensures EncodeItems([]) == ""
  {
  }

  lemma ItemsStart(items: seq<Item>)
    requires items != []
    ensures EncodeItems(items) != "" && EncodeItems(items)[0] == '"'
  {
    EncodeItemStart(items[0]);
  }

  // ---------------------------------------------------------------------
  // Ordered maps
  // ---------------------------------------------------------------------

  /** The order of strings: by the first difference, a prefix first. */
  predicate Less(a: string, b: string) {
    b != "" && (a == "" || a[0] < b[0] || (a[0] == b[0] && Less(a[1..], b[1..])))
  }

  lemma {:induction false} LessIsAsymmetric(a: string, b: string)
    requires Less(a, b)
    ensures !Less(b, a) && a != b
  {
    if a != "" && a[0] == b[0] {
      LessIsAsymmetric(a[1..], b[1..]);
    }
  }

  /** At the first difference the smaller character comes first; without one, the shorter string. */
  lemma {:induction false} LessIs(a: string, b: string)
    ensures Less(a, b) <==>
      exists k :: 0 <= k <= |a| && k < |b| && a[..k] == b[..k] && (k == |a| || a[k] < b[k])
    decreases |a|
  {
    if a != "" && b != "" && a[0] == b[0] {
      LessIs(a[1..], b[1..]);
      if k :| 0 <= k <= |a| && k < |b| && a[..k] == b[..k] && (k == |a| || a[k] < b[k]) {
        assert a[1..][..k - 1] == a[..k][1..] && b[1..][..k - 1] == b[..k][1..];
      }
      if k :| 0 <= k <= |a[1..]| && k < |b[1..]| && a[1..][..k] == b[1..][..k] &&
              (k == |a[1..]| || a[1..][k] < b[1..][k]) {
        assert a[..k + 1] == [a[0]] + a[1..][..k] && b[..k + 1] == [b[0]] + b[1..][..k];
      }
    } else if Less(a, b) {
      assert a[..0] == b[..0];
    } else {
      assert forall k :: 0 < k <= |a| && k <= |b| && a[..k] == b[..k] ==> a[..k][0] == b[..k][0];
    }
  }

  /** The entries of a `BTreeMap` in iteration order. */
  predicate SortedMap(entries: seq<Item>) {
    && Fits(Object, entries)
    && forall i, j :: 0 <= i < j < |entries| ==> Less(entries[i].key, entries[j].key)
  }

  lemma FirstIsLeast(a: seq<Item>, b: seq<Item>)
    requires SortedMap(a) && SortedMap(b) && a != [] && b != []
    requires forall e :: e in a <==> e in b
    ensures a[0] == b[0]
  {
    assert a[0] in b && b[0] in a;
    var i :| 0 <= i < |b| && b[i] == a[0];
    var j :| 0 <= j < |a| && a[j] == b[0];
    if i > 0 && j > 0 {
      assert Less(b[0].key, b[i].key) && Less(a[0].key, a[j].key);
      LessIsAsymmetric(b[0].key, a[0].key);
    }
  }

  lemma RestMembers(a: seq<Item>, e: Item)
    requires SortedMap(a) && a != []
    ensures e in a[1..] <==> e in a && e != a[0]
  {
    if e in a[1..] {
      var i :| 0 <= i < |a[1..]| && a[1..][i] == e;
      assert Less(a[0].key, a[i + 1].key);
      LessIsAsymmetric(a[0].key, a[i + 1].key);
    }
  }

  /** A map has one sequence of entries. */
  lemma {:induction false} EntriesAreUnique(a: seq<Item>, b: seq<Item>)
    requires SortedMap(a) && SortedMap(b)
    requires forall e :: e in a <==> e in b
    ensures a == b
    decreases |a|
  {
    assert b == [] || b[0] in b;
    if a != [] {
      assert a[0] in b;
      FirstIsLeast(a, b);
      forall e: Item
        ensures e in a[1..] <==> e in b[1..]
      {
        RestMembers(a, e);
        RestMembers(b, e);
      }
      EntriesAreUnique(a[1..], b[1..]);
    }
  }

  /** Two maps have the same encoding exactly when they have the same entries. */
  lemma MapEncodingIsCanonical(a: seq<Item>, b: seq<Item>)
    requires SortedMap(a) && SortedMap(b)
    ensures Encode(Object, a) == Encode(Object, b) <==> forall e :: e in a <==> e in b
  {
    hide Parse, Encode;
    RoundTrip(Object, a, "");
    RoundTrip(Object, b, "");
    if forall e :: e in a <==> e in b {
      EntriesAreUnique(a, b);
    }
  }

  // ---------------------------------------------------------------------
  // The loops
  // ---------------------------------------------------------------------

  lemma {:induction false} EscapesAppend(s: string, c: char)
    ensures Escapes(s + [c]) == Escapes(s) + Escape(c)
  {
    hide Escape;
    if s == "" {
      assert s + [c] == [c] && [c][1..] == "";
      assert Escapes([c]) == Escape(c) + Escapes("");
    } else {
      assert (s + [c])[1..] == s[1..] + [c];
      EscapesAppend(s[1..], c);
    }
  }

  lemma {:induction false} UnitEscapesAppend(units: seq<nat>, u: nat)
    ensures UnitEscapes(units + [u]) == UnitEscapes(units) + UnitEscape(u)
  {
    hide UnitEscape;
    if units == [] {
      assert units + [u] == [u] && [u][1..] == [];
      assert UnitEscapes([u]) == UnitEscape(u) + UnitEscapes([]);
    } else {
      assert (units + [u])[1..] == units[1..] + [u];
      UnitEscapesAppend(units[1..], u);
    }
  }

  /** `push_utf16_escape`. */
  method PushUtf16Escape(json: string, c: char) returns (r: string)
    ensures r == json + UnitEscapes(Utf16(c))
  {
    hide UnitEscape;
    var units := Utf16(c);
    r := json;
    for i := 0 to |units|
      invariant r == json + UnitEscapes(units[..i])
    {
      UnitEscapesAppend(units[..i], units[i]);
      assert units[..i + 1] == units[..i] + [units[i]];
      r := r + UnitEscape(units[i]);
    }
    assert units[..|units|] == units;
  }

  lemma NoEscapes(value: string)
    ensures Escapes(value[..0]) == ""
  {
  }

  /** `encode_json_string`: the result is the encoding, and so is read back as the value. */
  method EncodeJsonString(value: string) returns (json: string)
    ensures json == EncodeString(value)
    ensures Plain(json) && forall t :: ParseString(json + t) == Some((value, t))
  {
    hide UnitEscapes, Utf16, ParseString, Plain, Escapes, Hex;
    json := "\"";
    assert Escapes(value[..0]) == "" by { NoEscapes(value); }
    for i := 0 to |value|
      invariant json == "\"" + Escapes(value[..i])
    {
      var c := value[i];
      EscapesAppend(value[..i], c);
      assert value[..i + 1] == value[..i] + [c];
      ghost var before := json;
      if c == '"' {
        json := json + "\\\"";
      } else if c == '\\' {
        json := json + "\\\\";
      } else if c == '\n' {
        json := json + "\\n";
      } else if c == '\r' {
        json := json + "\\r";
      } else if c == '\t' {
        json := json + "\\t";
      } else if c as int == 0x08 {
        json := json + "\\b";
      } else if c as int == 0x0C {
        json := json + "\\f";
      } else if IsControl(c) || c as int > 0xFFFF {
        json := PushUtf16Escape(json, c);
      } else {
        json := json + [c];
      }
      assert json == before + Escape(c);
      assert ("\"" + Escapes(value[..i])) + Escape(c) == "\"" + (Escapes(value[..i]) + Escape(c));
    }
    assert value[..|value|] == value;
    json := json + "\"";
    assert ("\"" + Escapes(value)) + "\"" == "\"" + (Escapes(value) + "\"");
    EncodingIsPlain(value);
    forall t: string
      ensures ParseString(json + t) == Some((value, t))
    {
      StringRoundTrip(value, t);
    }
  }

  lemma {:induction false} EncodeItemsAppend(items: seq<Item>, item: Item)
    ensures EncodeItems(items + [item]) == EncodeItems(items) + (if items == [] then "" else ",") + EncodeItem(item)
  {
    hide EncodeItem;
    if items == [] {
      assert items + [item] == [item];
    } else {
      assert (items + [item])[1..] == items[1..] + [item];
      EncodeItemsAppend(items[1..], item);
      if |items| == 1 {
        assert EncodeItems([item]) == EncodeItem(item);
      }
    }
  }

  /** `encode_json_string_array`. */
  method EncodeJsonStringArray(values: seq<string>) returns (json: string)
    ensures json == Encode(Array, Texts(values))
    ensures forall t :: Parse(Array, json + t) == Some((Texts(values), t))
  {
    hide EncodeItems, Parse, ParseString, EncodeString, Plain;
    json := "[";
    NoItems();
    for i := 0 to |values|
      invariant json == "[" + EncodeItems(Texts(values[..i]))
    {
      ghost var items := Texts(values[..i]);
      EncodeItemsAppend(items, Text(values[i]));
      assert Texts(values[..i + 1]) == items + [Text(values[i])];
      if i > 0 {
        json := json + ",";
      }
      var s := EncodeJsonString(values[i]);
      json := json + s;
    }
    assert values[..|values|] == values;
    json := json + "]";
    assert json == "[" + (EncodeItems(Texts(values)) + "]");
    forall t: string
      ensures Parse(Array, json + t) == Some((Texts(values), t))
    {
      RoundTrip(Array, Texts(values), t);
    }
  }

  function Texts(values: seq<string>): (items: seq<Item>)
    ensures |items| == |values| && forall i :: 0 <= i < |values| ==> items[i] == Text(values[i])
  {
    seq(|values|, i requires 0 <= i < |values| => Text(values[i]))
  }

  /** `encode_json_string_map`, over the entries in the order the map iterates. */
  method EncodeJsonStringMap(entries: seq<Item>) returns (json: string)
    requires SortedMap(entries)
    ensures json == Encode(Object, entries)
    ensures forall t :: Parse(Object, json + t) == Some((entries, t))
  {
    hide EncodeItems, Parse, ParseString, EncodeString, Plain;
    json := "{";
    NoItems();
    for i := 0 to |entries|
      invariant json == "{" + EncodeItems(entries[..i])
    {
      var e := entries[i];
      EncodeItemsAppend(entries[..i], e);
      assert entries[..i + 1] == entries[..i] + [e];
      ghost var before := json;
      if i > 0 {
        json := json + ",";
      }
      var k := EncodeJsonString(e.key);
      json := json + k;
      json := json + ":";
      var v := EncodeJsonString(e.value);
      json := json + v;
      assert json == before + (if i > 0 then "," else "") + EncodeItem(e);
    }
    assert entries[..|entries|] == entries;
    json := json + "}";
    assert json == "{" + (EncodeItems(entries) + "}");
    forall t: string
      ensures Parse(Object, json + t) == Some((entries, t))
    {
      RoundTrip(Object, entries, t);
    }
  }
}
