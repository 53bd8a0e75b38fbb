/**
 The 64-bit FNV-1a hash of crates/execution/src/common.rs and the warm-up marker names built from it
 (crates/execution/src/runtime_support.rs).
 */
module StableHash {
  import opened Wire
  import opened BitString
  import opened Hexadecimal

  const MODULUS := 0x1_0000_0000_0000_0000
  const OFFSET_BASIS: u64 := 0xcbf29ce484222325
  const PRIME := 0x100000001b3
  /** The inverse of the prime: their product is one more than a multiple of 2^64. */
  const PRIME_INVERSE := 0xce965057aff6957b

  const INVERSE_QUOTIENT := 0xce9650590f

  /** `a ^ b` on numbers. */
  function Xor(a: nat, b: nat): (c: nat)
    decreases a + b
  {
    if a == 0 && b == 0 then 0
    else 2 * Xor(a / 2, b / 2) + if a % 2 != b % 2 then 1 else 0
  }

  lemma {:induction false} XorBelow(a: nat, b: nat, w: nat)
    requires a < Pow2(w) && b < Pow2(w)
    ensures Xor(a, b) < Pow2(w)
    decreases w
  {
    if w > 0 {
      XorBelow(a / 2, b / 2, w - 1);
    }
  }

  lemma {:induction false} XorTwice(a: nat, b: nat)
    ensures Xor(Xor(a, b), b) == a && Xor(a, Xor(a, b)) == b
    decreases a + b
  {
    if a > 0 || b > 0 {
      XorTwice(a / 2, b / 2);
      var c := Xor(a, b);
      assert c / 2 == Xor(a / 2, b / 2);
    }
  }

  lemma Pow2Of64()
    ensures Pow2(64) == MODULUS
  {
    Pow2Values();
    hide Pow2;
    Pow2Add(16, 16);
    Pow2Add(32, 32);
  }

  function XorByte(hash: u64, b: u8): (h: u64) {
    Pow2Values();
    Pow2Of64();
    Pow2Monotone(8, 64);
    XorBelow(hash, b, 64);
    Xor(hash, b)
  }

  /** One round: `hash ^= byte`, then a wrapping multiplication. */
  function Mix(hash: u64, b: u8): (h: u64) {
    XorByte(hash, b) * PRIME % MODULUS
  }

  function HashFrom(hash: u64, bytes: seq<u8>): (h: u64)
    decreases |bytes|
  {
    if bytes == [] then hash else HashFrom(Mix(hash, bytes[0]), bytes[1..])
  }

  /** The hash of a byte string. */
  function Hash(bytes: seq<u8>): (h: u64) {
    HashFrom(OFFSET_BASIS, bytes)
  }

  lemma ModOfMultiple(x: u64, t: int)
    ensures (x + t * MODULUS) % MODULUS == x
  {
  }

  /** Multiplying by the inverse undoes the wrapping multiplication. */
  lemma PrimeIsInvertible(x: u64)
    ensures x * PRIME % MODULUS * PRIME_INVERSE % MODULUS == x
  {
    var q, r := x * PRIME / MODULUS, x * PRIME % MODULUS;
    assert PRIME * PRIME_INVERSE == 1 + INVERSE_QUOTIENT * MODULUS;
    assert r == x * PRIME - q * MODULUS;
    assert r * PRIME_INVERSE == x + (INVERSE_QUOTIENT * x - q * PRIME_INVERSE) * MODULUS;
    ModOfMultiple(x, INVERSE_QUOTIENT * x - q * PRIME_INVERSE);
  }

  lemma MixInjective(x: u64, y: u64, b: u8)
    ensures Mix(x, b) == Mix(y, b) <==> x == y
  {
    PrimeIsInvertible(XorByte(x, b));
    PrimeIsInvertible(XorByte(y, b));
    XorTwice(x, b);
    XorTwice(y, b);
  }

  lemma MixInjectiveInByte(x: u64, a: u8, b: u8)
    ensures Mix(x, a) == Mix(x, b) <==> a == b
  {
    PrimeIsInvertible(XorByte(x, a));
    PrimeIsInvertible(XorByte(x, b));
    XorTwice(x, a);
    XorTwice(x, b);
  }

  lemma {:induction false} HashAppend(h: u64, x: seq<u8>, y: seq<u8>)
    ensures HashFrom(h, x + y) == HashFrom(HashFrom(h, x), y)
    decreases |x|
  {
    hide Mix;
    if x == [] {
      assert x + y == y;
    } else {
      assert (x + y)[1..] == x[1..] + y;
      HashAppend(Mix(h, x[0]), x[1..], y);
    }
  }

  /** A common suffix neither makes nor hides a collision. */
  lemma {:induction false} SuffixCancels(g: u64, h: u64, suffix: seq<u8>)
    ensures HashFrom(g, suffix) == HashFrom(h, suffix) <==> g == h
    decreases |suffix|
  {
    hide Mix;
    if suffix != [] {
      MixInjective(g, h, suffix[0]);
      SuffixCancels(Mix(g, suffix[0]), Mix(h, suffix[0]), suffix[1..]);
    }
  }

  /** Texts that agree before and after some middle collide exactly when they already collide there. */
  lemma CollisionIsLocal(prefix: seq<u8>, x: seq<u8>, y: seq<u8>, suffix: seq<u8>)
    ensures Hash(prefix + x + suffix) == Hash(prefix + y + suffix) <==> Hash(prefix + x) == Hash(prefix + y)
  {
    HashAppend(OFFSET_BASIS, prefix + x, suffix);
    HashAppend(OFFSET_BASIS, prefix + y, suffix);
    SuffixCancels(Hash(prefix + x), Hash(prefix + y), suffix);
  }

  ghost predicate DifferAtOnly(a: seq<u8>, b: seq<u8>, i: nat) {
    |a| == |b| && i < |a| && a[i] != b[i] && forall j :: 0 <= j < |a| && j != i ==> a[j] == b[j]
  }

  /** Changing one byte always changes the hash. */
  lemma OneByteChangesHash(a: seq<u8>, b: seq<u8>, i: nat)
    requires DifferAtOnly(a, b, i)
    ensures Hash(a) != Hash(b)
  {
    hide Mix, HashFrom, Hash;
    var prefix, suffix := a[..i], a[i + 1..];
    assert a == prefix + [a[i]] + suffix && b == prefix + [b[i]] + suffix;
    CollisionIsLocal(prefix, [a[i]], [b[i]], suffix);
    var h := Hash(prefix);
    OneMoreByte(prefix, a[i]);
    OneMoreByte(prefix, b[i]);
    MixInjectiveInByte(h, a[i], b[i]);
  }

  lemma OneMoreByte(prefix: seq<u8>, b: u8)
    ensures Hash(prefix + [b]) == Mix(Hash(prefix), b)
  {
    hide Mix;
    HashAppend(OFFSET_BASIS, prefix, [b]);
    assert HashFrom(Mix(Hash(prefix), b), [b][1..]) == Mix(Hash(prefix), b);
  }

  /** Only the low bits change when a small number is mixed in. */
  lemma {:induction false} XorLow(h: nat, x: nat, y: nat, k: nat)
    requires x < Pow2(k) && y < Pow2(k)
    ensures Xor(x + h * Pow2(k), y) == Xor(x, y) + h * Pow2(k)
    decreases k
  {
    if k == 0 {
      assert h * Pow2(0) == h;
      XorZero(h);
    } else {
      HalveProduct(h, k);
      var n := x + h * Pow2(k);
      assert n / 2 == x / 2 + h * Pow2(k - 1) && n % 2 == x % 2;
      XorLow(h, x / 2, y / 2, k - 1);
    }
  }

  lemma {:induction false} XorZero(h: nat)
    ensures Xor(h, 0) == h
  {
    if h > 0 {
      XorZero(h / 2);
    }
  }

  lemma SmallXor()
    ensures Xor(0x25, 0x61) == 0x44
  {
    assert Xor(0, 1) == 1;
    assert Xor(1, 3) == 2;
    assert Xor(2, 6) == 4;
    assert Xor(4, 12) == 8;
    assert Xor(9, 24) == 17;
    assert Xor(18, 48) == 34;
  }

  lemma MixOf(hash: u64, b: u8, high: nat, low: u8)
    requires hash == low + high * 0x100
    ensures Mix(hash, b) == (Xor(low, b) + high * 0x100) * PRIME % MODULUS
  {
    Pow2Values();
    hide Xor, Pow2;
    XorLow(high, low, b, 8);
  }

  /** A published FNV-1a value: the one-letter text "a". */
  lemma KnownHash(text: seq<u8>)
    requires text == [0x61]
    ensures Hash(text) == 0xaf63dc4c8601ec8c
  {
    hide Xor, Mix;
    SmallXor();
    MixOf(OFFSET_BASIS, text[0], 0xcbf29ce4842223, 0x25);
    assert Hash(text) == HashFrom(Mix(OFFSET_BASIS, text[0]), text[1..]);
  }

  /** `stable_hash64`. */
  method StableHash64(bytes: seq<u8>) returns (hash: u64)
    ensures hash == Hash(bytes)
  {
    hide Hash;
    hash := OFFSET_BASIS;
    assert hash == Hash(bytes[..0]) by { HashOfNothing(bytes); }
    for i := 0 to |bytes|
      invariant hash == Hash(bytes[..i])
    {
      OneMoreByte(bytes[..i], bytes[i]);
      assert bytes[..i + 1] == bytes[..i] + [bytes[i]];
      hash := XorByte(hash, bytes[i]);
      hash := hash * PRIME % MODULUS;
    }
    assert bytes[..|bytes|] == bytes;
  }

  lemma HashOfNothing(bytes: seq<u8>)
    ensures Hash(bytes[..0]) == OFFSET_BASIS
  {
  }

  // ---------------------------------------------------------------------
  // Marker names
  // ---------------------------------------------------------------------

  lemma SixteenDigits()
    ensures Pow16(16) == MODULUS
  {
    assert Pow16(4) == 0x1_0000;
    assert Pow16(8) == 0x1_0000_0000;
    assert Pow16(12) == 0x1_0000_0000_0000;
  }

  /** `warmup_marker_path`, with the directory joined by a slash. */
  function WarmupMarkerPath(dir: string, prefix: string, version: string, contents: seq<u8>): (path: string) {
    dir + "/" + prefix + "-v" + version + "-" + Hex(Hash(contents), 16) + ".stamp"
  }

  /** Markers of one kind and version have the same path exactly when the hashes are equal. */
  lemma MarkerPathIsHash(dir: string, prefix: string, version: string, a: seq<u8>, b: seq<u8>)
    ensures WarmupMarkerPath(dir, prefix, version, a) == WarmupMarkerPath(dir, prefix, version, b) <==>
      Hash(a) == Hash(b)
  {
    hide Hash, Hex;
    var start := dir + "/" + prefix + "-v" + version + "-";
    var x, y := Hex(Hash(a), 16), Hex(Hash(b), 16);
    var p, q := start + x + ".stamp", start + y + ".stamp";
    assert p[|start|..|start| + 16] == x && q[|start|..|start| + 16] == y;
    if p == q {
      SixteenDigits();
      HexInjective(Hash(a), Hash(b), 16);
    }
  }

  /** Markers of one kind have the same path exactly when the versions and the hashes are equal. */
  lemma MarkerPathIsVersionAndHash(dir: string, prefix: string, v: string, w: string, a: seq<u8>, b: seq<u8>)
    ensures WarmupMarkerPath(dir, prefix, v, a) == WarmupMarkerPath(dir, prefix, w, b) <==> v == w && Hash(a) == Hash(b)
  {
    hide Hash, Hex;
    var start := dir + "/" + prefix + "-v";
    var p, q := WarmupMarkerPath(dir, prefix, v, a), WarmupMarkerPath(dir, prefix, w, b);
    var x, y := "-" + Hex(Hash(a), 16) + ".stamp", "-" + Hex(Hash(b), 16) + ".stamp";
    assert p == start + v + x && q == start + w + y;
    if p == q {
      assert |x| == |y| && |v| == |w|;
      assert v == p[|start|..|start| + |v|] == q[|start|..|start| + |w|] == w;
      MarkerPathIsHash(dir, prefix, v, a, b);
    }
  }

  lemma HexNext(h: nat, d: nat, n: nat)
    requires d < 16
    ensures Hex(h * 16 + d, n + 1) == Hex(h, n) + [DigitOf(d)]
  {
    assert (h * 16 + d) / 16 == h && (h * 16 + d) % 16 == d;
  }

  /** Four digits after a number. */
  lemma HexNext4(h: nat, a: nat, b: nat, c: nat, d: nat, n: nat)
    requires a < 16 && b < 16 && c < 16 && d < 16
    ensures Hex((((h * 16 + a) * 16 + b) * 16 + c) * 16 + d, n + 4) ==
      Hex(h, n) + [DigitOf(a), DigitOf(b), DigitOf(c), DigitOf(d)]
  {
    hide Hex, DigitOf;
    HexNext(h, a, n);
    HexNext(h * 16 + a, b, n + 1);
    HexNext((h * 16 + a) * 16 + b, c, n + 2);
    HexNext(((h * 16 + a) * 16 + b) * 16 + c, d, n + 3);
    var s := Hex(h, n);
    assert s + [DigitOf(a)] + [DigitOf(b)] + [DigitOf(c)] + [DigitOf(d)]
        == s + [DigitOf(a), DigitOf(b), DigitOf(c), DigitOf(d)];
  }

  lemma KnownHex(h: nat)
    requires h == 0xaf63dc4c8601ec8c
    ensures Hex(h, 16) == "af63dc4c8601ec8c"
  {
    hide Hex;
    HexNext4(0, 0xa, 0xf, 0x6, 0x3, 0);
    HexNext4(0xaf63, 0xd, 0xc, 0x4, 0xc, 4);
    HexNext4(0xaf63dc4c, 0x8, 0x6, 0x0, 0x1, 8);
    HexNext4(0xaf63dc4c8601, 0xe, 0xc, 0x8, 0xc, 12);
    assert Hex(0, 0) == "" by { HexOfNothing(0); }
  }

  lemma HexOfNothing(h: nat)
    ensures Hex(h, 0) == ""
  {
  }

  /** The markers of the one-letter text "a". */
  lemma KnownMarker(dir: string, prefix: string, version: string, text: seq<u8>)
    requires text == [0x61]
    ensures WarmupMarkerPath(dir, prefix, version, text) ==
      dir + "/" + prefix + "-v" + version + "-" + "af63dc4c8601ec8c" + ".stamp"
  {
    KnownHash(text);
    hide Hash, Hex;
    KnownHex(Hash(text));
  }

  /** So editing one byte of what a marker stands for always leads to another marker file. */
  lemma OneByteChangesMarker(dir: string, prefix: string, version: string, a: seq<u8>, b: seq<u8>, i: nat)
    requires DifferAtOnly(a, b, i)
    ensures WarmupMarkerPath(dir, prefix, version, a) != WarmupMarkerPath(dir, prefix, version, b)
  {
    hide Hash, WarmupMarkerPath;
    OneByteChangesHash(a, b, i);
    MarkerPathIsHash(dir, prefix, version, a, b);
  }
}
