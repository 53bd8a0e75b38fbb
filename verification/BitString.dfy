/** Numbers as bit strings, least significant bit first (section 3.1.1 of RFC 1951). */
module BitString {
  import opened Wire

  function Pow2(n: nat): (p: nat)
    ensures p > 0
  {
    if n == 0 then 1 else 2 * Pow2(n - 1)
  }

  lemma {:induction false} Pow2Add(a: nat, b: nat)
    ensures Pow2(a + b) == Pow2(a) * Pow2(b)
  {
    if a > 0 {
      Pow2Add(a - 1, b);
      assert Pow2(a + b) == 2 * Pow2(a - 1 + b);
    }
  }

  lemma Pow2Values()
    ensures Pow2(0) == 1 && Pow2(1) == 2 && Pow2(7) == 0x80 && Pow2(8) == 0x100
    ensures Pow2(15) == 0x8000 && Pow2(16) == 0x1_0000
  {
    assert Pow2(4) == 16;
    Pow2Add(4, 4);
    Pow2Add(8, 8);
    assert Pow2(8) == 2 * Pow2(7) && Pow2(16) == 2 * Pow2(15);
  }

  lemma {:induction false} Pow2Monotone(a: nat, b: nat)
    requires a <= b
    ensures Pow2(a) <= Pow2(b)
    decreases b - a
  {
    if a < b {
      Pow2Monotone(a, b - 1);
    }
  }

  /** The low `w` bits of `v`. */
  function Bits(v: nat, w: nat): (s: seq<bool>)
    ensures |s| == w
  {
    if w == 0 then [] else [v % 2 == 1] + Bits(v / 2, w - 1)
  }

  function BytesBits(bytes: seq<u8>): (s: seq<bool>)
    ensures |s| == 8 * |bytes|
  {
    if bytes == [] then [] else Bits(bytes[0], 8) + BytesBits(bytes[1..])
  }

  /** `v | x` on numbers. */
  function Or(a: nat, b: nat): (c: nat)
    decreases a + b
  {
    if a == 0 then b
    else if b == 0 then a
    else 2 * Or(a / 2, b / 2) + if a % 2 == 1 || b % 2 == 1 then 1 else 0
  }

  lemma {:induction false} HalveProduct(y: nat, k: nat)
    requires k > 0
    ensures y * Pow2(k) % 2 == 0 && y * Pow2(k) / 2 == y * Pow2(k - 1)
  {
    assert y * Pow2(k) == 2 * (y * Pow2(k - 1));
  }

  /** Or-ing in bits above `k` to a number below `2^k` is adding them. */
  lemma {:induction false} OrAbove(x: nat, y: nat, k: nat)
    requires x < Pow2(k)
    ensures Or(x, y * Pow2(k)) == x + y * Pow2(k)
    decreases k
  {
    var z := y * Pow2(k);
    if x > 0 && z > 0 && k > 0 {
      HalveProduct(y, k);
      OrAbove(x / 2, y, k - 1);
    }
  }

  lemma {:induction false} BitsJoin(x: nat, y: nat, k: nat, w: nat)
    requires x < Pow2(k)
    ensures Bits(x + y * Pow2(k), k + w) == Bits(x, k) + Bits(y, w)
    decreases k
  {
    if k == 0 {
      assert x + y * Pow2(0) == y;
      assert Bits(x, 0) + Bits(y, w) == Bits(y, w);
    } else {
      HalveProduct(y, k);
      var z := x + y * Pow2(k);
      assert z / 2 == x / 2 + y * Pow2(k - 1);
      assert z % 2 == x % 2;
      BitsJoin(x / 2, y, k - 1, w);
      assert Bits(z, k + w) == [z % 2 == 1] + Bits(z / 2, k - 1 + w);
      assert [x % 2 == 1] + (Bits(x / 2, k - 1) + Bits(y, w)) == ([x % 2 == 1] + Bits(x / 2, k - 1)) + Bits(y, w);
    }
  }

  /** `v >>> k`. */
  function Shr(v: nat, k: nat): (r: nat)
    decreases k
  {
    if k == 0 then v else Shr(v / 2, k - 1)
  }

  /** `v & ((1 << k) - 1)`. */
  function Mask(v: nat, k: nat): (r: nat)
    ensures r < Pow2(k)
    decreases k
  {
    if k == 0 then 0 else v % 2 + 2 * Mask(v / 2, k - 1)
  }

  /** `v << k`. */
  function Shl(v: nat, k: nat): (r: nat) {
    v * Pow2(k)
  }

  /** The two parts of a number at bit `k` are what they are by division. */
  lemma {:induction false} SplitUnique(v: nat, k: nat, low: nat, high: nat)
    requires low < Pow2(k) && v == low + high * Pow2(k)
    ensures Mask(v, k) == low && Shr(v, k) == high
    decreases k
  {
    if k == 0 {
      assert high * Pow2(0) == high;
    } else {
      HalveProduct(high, k);
      assert v / 2 == low / 2 + high * Pow2(k - 1) && v % 2 == low % 2;
      SplitUnique(v / 2, k - 1, low / 2, high);
    }
  }

  lemma {:induction false} SplitAt(v: nat, k: nat)
    ensures v == Mask(v, k) + Shl(Shr(v, k), k)
    decreases k
  {
    if k == 0 {
      assert v * Pow2(0) == v;
    } else {
      SplitAt(v / 2, k - 1);
      HalveProduct(Shr(v, k), k);
    }
  }

  lemma MaskBelow(v: nat, k: nat)
    requires v < Pow2(k)
    ensures Mask(v, k) == v && Shr(v, k) == 0
  {
    SplitUnique(v, k, v, 0);
  }

  lemma MulAtMost(x: nat, y: nat, p: nat)
    requires x <= y
    ensures x * p <= y * p
  {
  }

  lemma MulAssociates(x: nat, y: nat, z: nat)
    ensures x * y * z == x * (y * z)
  {
  }

  /** `y` below `2^b` with `x` below `2^a` on top of it is below `2^(a+b)`. */
  lemma StackBelow(x: nat, a: nat, y: nat, b: nat)
    requires x < Pow2(a) && y < Pow2(b)
    ensures y + x * Pow2(b) < Pow2(a + b)
  {
    hide Pow2;
    Pow2Add(a, b);
    MulAtMost(x + 1, Pow2(a), Pow2(b));
    assert (x + 1) * Pow2(b) == x * Pow2(b) + Pow2(b);
  }

  lemma {:induction false} ShrBelow(v: nat, a: nat, b: nat)
    requires v < Pow2(a + b)
    ensures Shr(v, a) < Pow2(b)
    decreases a
  {
    if a > 0 {
      ShrBelow(v / 2, a - 1, b);
    }
  }

  lemma BitsSplit(v: nat, k: nat, w: nat)
    ensures Bits(v, k + w) == Bits(Mask(v, k), k) + Bits(Shr(v, k), w)
  {
    SplitAt(v, k);
    hide Mask, Shr;
    BitsJoin(Mask(v, k), Shr(v, k), k, w);
  }

  lemma BitsMod(v: nat, w: nat)
    ensures Bits(Mask(v, w), w) == Bits(v, w)
  {
    hide Mask, Shr;
    BitsSplit(v, w, 0);
    assert Bits(v, w + 0) == Bits(Mask(v, w), w) + [];
  }

  lemma {:induction false} BitsInjective(x: nat, y: nat, w: nat)
    requires x < Pow2(w) && y < Pow2(w) && Bits(x, w) == Bits(y, w)
    ensures x == y
    decreases w
  {
    if w > 0 {
      assert Bits(x / 2, w - 1) == Bits(x, w)[1..] == Bits(y, w)[1..] == Bits(y / 2, w - 1);
      BitsInjective(x / 2, y / 2, w - 1);
      assert (x % 2 == 1) == Bits(x, w)[0] == Bits(y, w)[0] == (y % 2 == 1);
    }
  }

  lemma {:induction false} BytesBitsAppend(a: seq<u8>, b: seq<u8>)
    ensures BytesBits(a + b) == BytesBits(a) + BytesBits(b)
  {
    if a == [] {
      assert a + b == b;
      assert [] + BytesBits(b) == BytesBits(b);
    } else {
      assert (a + b)[1..] == a[1..] + b;
      BytesBitsAppend(a[1..], b);
      assert Bits(a[0], 8) + (BytesBits(a[1..]) + BytesBits(b)) == BytesBits(a) + BytesBits(b);
    }
  }

  lemma BytesBitsOne(b: u8)
    ensures BytesBits([b]) == Bits(b, 8)
  {
    assert BytesBits([b][1..]) == [];
  }

  /** Two bytes, low byte first, are the sixteen bits of the number. */
  lemma ShortBits(v: nat)
    requires v < 0x1_0000
    ensures BytesBits([v % 0x100, v / 0x100]) == Bits(v, 16)
  {
    Pow2Values();
    BitsJoin(v % 0x100, v / 0x100, 8, 8);
    BytesBitsOne(v % 0x100);
    BytesBitsOne(v / 0x100);
    BytesBitsAppend([v % 0x100], [v / 0x100]);
    assert [v % 0x100] + [v / 0x100] == [v % 0x100, v / 0x100];
  }

  function Zeros(n: nat): (s: seq<bool>)
    ensures |s| == n
  {
    seq(n, _ => false)
  }

  lemma {:induction false} BitsOfZero(w: nat)
    ensures Bits(0, w) == Zeros(w)
  {
    if w > 0 {
      BitsOfZero(w - 1);
      assert Zeros(w) == [false] + Zeros(w - 1);
    }
  }

  /** A number below `2^k` written in more bits is padded with zeros. */
  lemma BitsPad(x: nat, k: nat, w: nat)
    requires x < Pow2(k)
    ensures Bits(x, k + w) == Bits(x, k) + Zeros(w)
  {
    BitsJoin(x, 0, k, w);
    assert x + 0 * Pow2(k) == x;
    BitsOfZero(w);
  }

  /** Bit `i` of a number is what is left of it modulo two after `i` halvings. */
  lemma {:induction false} BitAt(v: nat, w: nat, i: nat)
    requires i < w
    ensures Bits(v, w)[i] <==> v / Pow2(i) % 2 == 1
    decreases w
  {
    hide Pow2;
    if i == 0 {
      PowerOfNothing();
    } else {
      BitAt(v / 2, w - 1, i - 1);
      assert Pow2(i) == 2 * Pow2(i - 1) by { PowerNext(i - 1); }
      HalfOf(v, Pow2(i - 1));
    }
  }

  lemma PowerOfNothing()
    ensures Pow2(0) == 1
  {
  }

  lemma PowerNext(i: nat)
    ensures Pow2(i + 1) == 2 * Pow2(i)
  {
  }

  lemma HalfOf(v: nat, p: nat)
    requires p > 0
    ensures v / 2 / p == v / (2 * p)
  {
    var q := v / (2 * p);
    var r := v - q * (2 * p);
    assert 0 <= r < 2 * p;
    assert v / 2 == q * p + r / 2;
    assert 0 <= r / 2 < p;
    Divided(q, r / 2, p);
  }

  lemma Divided(q: nat, r: nat, p: nat)
    requires r < p
    ensures (q * p + r) / p == q
  {
    var d := (q * p + r) / p;
    if d < q {
      MulAtMost(d + 1, q, p);
    } else if d > q {
      MulAtMost(q + 1, d, p);
    }
  }
}
