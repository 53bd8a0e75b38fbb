/**
 Adler-32 as the bundled zlib code computes it (`TE`, crates/execution/assets/v8-bridge-zlib.js,
 line 67): the modulus is taken once for up to 2000 bytes, in 32-bit signed arithmetic. The
 reference is section 2.2 of RFC 1950.
 */
module Adler {
  import opened Wire
  import opened BitString

  const BASE := 65521
  const BLOCK := 2000

  /** `n | 0`. */
  function ToInt32(n: int): (r: i32) {
    ToI32(n % 0x1_0000_0000)
  }

  datatype Sums = Sums(s1: nat, s2: nat)

  /** The two sums, with the modulus taken at every byte. */
  function Fold(s: Sums, bytes: seq<u8>): (r: Sums)
    decreases |bytes|
  {
    if bytes == [] then s
    else
      var s1 := (s.s1 + bytes[0]) % BASE;
      Fold(Sums(s1, (s.s2 + s1) % BASE), bytes[1..])
  }

  /** The two sums without any modulus. */
  function Raw(s: Sums, bytes: seq<u8>): (r: Sums)
    decreases |bytes|
  {
    if bytes == [] then s
    else Raw(Sums(s.s1 + bytes[0], s.s2 + s.s1 + bytes[0]), bytes[1..])
  }

  function Reduce(s: Sums): (r: Sums) {
    Sums(s.s1 % BASE, s.s2 % BASE)
  }

  function Unpack(adler: i32): (s: Sums)
    ensures s.s1 < 0x1_0000 && s.s2 < 0x1_0000
  {
    Sums(ToU32(adler) % 0x1_0000, ToU32(adler) / 0x1_0000)
  }

  /** `i | a << 16 | 0`. */
  function Pack(s: Sums): (adler: i32) {
    ToInt32(Or(s.s1, s.s2 * 0x1_0000))
  }

  /** The checksum after `bytes`, from the checksum before them. */
  function Checksum(adler: i32, bytes: seq<u8>): (r: i32) {
    if bytes == [] then adler else Pack(Fold(Unpack(adler), bytes))
  }

  lemma UnpackPack(s: Sums)
    requires s.s1 < 0x1_0000 && s.s2 < 0x1_0000
    ensures Unpack(Pack(s)) == s
  {
    hide Or;
    Pow2Values();
    OrAbove(s.s1, s.s2, 16);
    var n := s.s1 + s.s2 * 0x1_0000;
    assert ToU32(ToInt32(n)) == n;
  }

  lemma PackUnpack(adler: i32)
    ensures Pack(Unpack(adler)) == adler
  {
    hide Or;
    Pow2Values();
    OrAbove(Unpack(adler).s1, Unpack(adler).s2, 16);
  }

  // ---------------------------------------------------------------------
  // Deferring the modulus
  // ---------------------------------------------------------------------

  lemma ModAdd(a: nat, b: nat)
    ensures (a % BASE + b) % BASE == (a + b) % BASE
  {
  }

  /** It makes no difference when the modulus is taken. */
  lemma {:induction false} FoldOfRaw(s: Sums, bytes: seq<u8>)
    ensures Reduce(Raw(s, bytes)) == Reduce(Fold(Reduce(s), bytes))
    decreases |bytes|
  {
    if bytes != [] {
      var b := bytes[0];
      var t := Sums(s.s1 + b, s.s2 + s.s1 + b);
      FoldOfRaw(t, bytes[1..]);
      ModAdd(s.s1, b);
      ModAdd(s.s2, (s.s1 + b) % BASE);
      ModAdd(s.s1 + b, s.s2);
    }
  }

  lemma {:induction false} FoldReduced(s: Sums, bytes: seq<u8>)
    requires bytes != []
    ensures Reduce(Fold(s, bytes)) == Fold(s, bytes)
    decreases |bytes|
  {
    if |bytes| > 1 {
      var s1 := (s.s1 + bytes[0]) % BASE;
      FoldReduced(Sums(s1, (s.s2 + s1) % BASE), bytes[1..]);
    }
  }

  lemma FoldOfReduced(s: Sums, bytes: seq<u8>)
    requires bytes != []
    ensures Fold(Reduce(s), bytes) == Fold(s, bytes)
  {
    ModAdd(s.s1, bytes[0]);
    ModAdd(s.s2, (s.s1 + bytes[0]) % BASE);
  }

  lemma {:induction false} FoldAppend(s: Sums, x: seq<u8>, y: seq<u8>)
    ensures Fold(s, x + y) == Fold(Fold(s, x), y)
    decreases |x|
  {
    if x == [] {
      assert x + y == y;
    } else {
      assert (x + y)[1..] == x[1..] + y;
      var s1 := (s.s1 + x[0]) % BASE;
      FoldAppend(Sums(s1, (s.s2 + s1) % BASE), x[1..], y);
    }
  }

  lemma {:induction false} RawNext(s: Sums, bytes: seq<u8>, b: u8)
    ensures Raw(s, bytes + [b]) == Sums(Raw(s, bytes).s1 + b, Raw(s, bytes).s2 + Raw(s, bytes).s1 + b)
    decreases |bytes|
  {
    if bytes == [] {
      assert bytes + [b] == [b];
      assert Raw(Sums(s.s1 + b, s.s2 + s.s1 + b), [b][1..]) == Sums(s.s1 + b, s.s2 + s.s1 + b);
    } else {
      assert (bytes + [b])[1..] == bytes[1..] + [b];
      RawNext(Sums(s.s1 + bytes[0], s.s2 + s.s1 + bytes[0]), bytes[1..], b);
    }
  }

  /** Checksumming in two parts is checksumming the whole. */
  lemma ChecksumAppend(adler: i32, x: seq<u8>, y: seq<u8>)
    ensures Checksum(Checksum(adler, x), y) == Checksum(adler, x + y)
  {
    hide Pack, Unpack, Fold;
    if x == [] {
      assert x + y == y;
    } else if y == [] {
      assert x + y == x;
    } else {
      FoldAppend(Unpack(adler), x, y);
      FoldReduced(Unpack(adler), x);
      UnpackPack(Fold(Unpack(adler), x));
    }
  }

  // ---------------------------------------------------------------------
  // The closed form of RFC 1950
  // ---------------------------------------------------------------------

  function Sum(bytes: seq<u8>): (n: nat) {
    if bytes == [] then 0 else bytes[0] + Sum(bytes[1..])
  }

  /** Each byte counted once for itself and once for every byte after it. */
  function Weighted(bytes: seq<u8>): (n: nat) {
    if bytes == [] then 0 else |bytes| * bytes[0] + Weighted(bytes[1..])
  }

  lemma {:induction false} RawClosed(s: Sums, bytes: seq<u8>)
    ensures Raw(s, bytes) == Sums(s.s1 + Sum(bytes), s.s2 + |bytes| * s.s1 + Weighted(bytes))
    decreases |bytes|
  {
    if bytes != [] {
      var b: nat := bytes[0];
      RawClosed(Sums(s.s1 + b, s.s2 + s.s1 + b), bytes[1..]);
      Spread(|bytes| - 1, s.s1, b);
    }
  }

  lemma Spread(n: nat, s1: nat, b: nat)
    ensures n * (s1 + b) + s1 + b == (n + 1) * s1 + (n + 1) * b
  {
    assert n * (s1 + b) == n * s1 + n * b;
  }

  /** The checksum of a whole stream, as the standard defines it. */
  lemma ChecksumClosed(bytes: seq<u8>)
    ensures Checksum(1, bytes) == Pack(Sums((1 + Sum(bytes)) % BASE, (|bytes| + Weighted(bytes)) % BASE))
  {
    hide Pack, Fold, Raw;
    assert Unpack(1) == Sums(1, 0);
    if bytes == [] {
      PackUnpack(1);
    } else {
      RawClosed(Sums(1, 0), bytes);
      FoldOfRaw(Sums(1, 0), bytes);
      FoldReduced(Sums(1, 0), bytes);
    }
  }

  lemma PackIs(s: Sums)
    requires s.s1 < 0x1_0000 && s.s2 < 0x1_0000
    ensures ToU32(Pack(s)) == s.s2 * 65536 + s.s1
  {
    hide Or;
    Pow2Values();
    OrAbove(s.s1, s.s2, 16);
  }

  /** The same in the numbers of the standard, as an unsigned 32-bit value. */
  lemma ChecksumNumber(bytes: seq<u8>)
    ensures ToU32(Checksum(1, bytes)) ==
      (|bytes| + Weighted(bytes)) % 65521 * 65536 + (1 + Sum(bytes)) % 65521
  {
    hide Pack, Checksum, Sum, Weighted;
    ChecksumClosed(bytes);
    PackIs(Sums((1 + Sum(bytes)) % BASE, (|bytes| + Weighted(bytes)) % BASE));
  }

  // ---------------------------------------------------------------------
  // The loops
  // ---------------------------------------------------------------------

  /** The inner loop: a block of bytes is added up; the sums stay below 2^31, so nothing wraps. */
  method AddBlock(s1: nat, s2: nat, block: seq<u8>) returns (i: int, a: int)
    requires s1 < 0x1_0000 && s2 < 0x1_0000 && |block| <= BLOCK
    ensures i >= 0 && a >= 0 && Sums(i, a) == Raw(Sums(s1, s2), block)
    ensures i < 0x8000_0000 && a < 0x8000_0000
  {
    hide Raw, ToInt32;
    i, a := s1, s2;
    assert Raw(Sums(s1, s2), block[..0]) == Sums(s1, s2) by { RawNothing(Sums(s1, s2), block); }
    for k := 0 to |block|
      invariant 0 <= i <= 65535 + 255 * k && 0 <= a <= 65535 + 575535 * k
      invariant Sums(i, a) == Raw(Sums(s1, s2), block[..k])
    {
      RawNext(Sums(s1, s2), block[..k], block[k]);
      assert block[..k + 1] == block[..k] + [block[k]];
      NoWrap(i + block[k]);
      i := ToInt32(i + block[k]);
      NoWrap(a + i);
      a := ToInt32(a + i);
    }
    assert block[..|block|] == block;
  }

  lemma NoWrap(n: int)
    requires 0 <= n < 0x8000_0000
    ensures ToInt32(n) == n
  {
  }

  lemma SliceOfSlice(s: seq<u8>, a: nat, b: nat, c: nat, d: nat)
    requires c <= d && a + d <= b <= |s|
    ensures s[a..b][c..d] == s[a + c..a + d]
  {
    forall i | 0 <= i < d - c
      ensures s[a..b][c..d][i] == s[a + c..a + d][i]
    {
      assert s[a..b][c + i] == s[a + c + i];
    }
  }

  lemma RawNothing(s: Sums, block: seq<u8>)
    ensures Raw(s, block[..0]) == s
  {
  }

  /** `TE`: blocks of at most 2000 bytes, the modulus after each. */
  method Adler32(adler: i32, buf: seq<u8>, len: nat, pos: nat) returns (r: i32)
    requires pos + len <= |buf|
    ensures r == Checksum(adler, buf[pos..pos + len])
  {
    hide Raw, Fold, Pack, Reduce;
    var start := Unpack(adler);
    var i, a := start.s1, start.s2;
    var left, next := len, pos;
    ghost var bytes := buf[pos..pos + len];
    while left != 0
      invariant next == pos + (len - left) && 0 <= left <= len
      invariant 0 <= i < 0x1_0000 && 0 <= a < 0x1_0000
      invariant Sums(i, a) == if left == len then start else Fold(start, bytes[..len - left])
    {
      var n := if left > BLOCK then BLOCK else left;
      left := left - n;
      ghost var done := next - pos;
      ghost var before, block := bytes[..done], buf[next..next + n];
      SliceOfSlice(buf, pos, pos + len, done, done + n);
      assert bytes[..done + n] == before + block;
      ghost var s := Sums(i, a);
      var x, y := AddBlock(i, a, buf[next..next + n]);
      i, a := x % BASE, y % BASE;
      BlockFolds(s, block);
      assert Sums(i, a) == Fold(s, block) by { ReduceIs(Raw(s, block)); }
      FoldAppend(start, before, block);
      assert next == pos ==> before + block == block;
      next := next + n;
    }
    assert bytes[..len] == bytes;
    if len == 0 {
      PackUnpack(adler);
    }
    r := Pack(Sums(i, a));
  }

  lemma ReduceIs(s: Sums)
    ensures Reduce(s) == Sums(s.s1 % BASE, s.s2 % BASE)
  {
  }

  lemma BlockFolds(s: Sums, block: seq<u8>)
    requires block != []
    ensures Reduce(Raw(s, block)) == Fold(s, block)
  {
    hide Raw, Fold;
    FoldOfRaw(s, block);
    FoldOfReduced(s, block);
    FoldReduced(s, block);
  }
}
