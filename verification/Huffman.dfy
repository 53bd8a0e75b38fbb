/**
 Canonical Huffman codes (section 3.2.2 of RFC 1951) as the bundled zlib code assigns and checks them
 (crates/execution/assets/v8-bridge-zlib.js, line 67): `Tp` gives every symbol with a length its code,
 `Op` reverses a code, and the table builder called as `Vt` refuses over-subscribed lengths.
 */
module Huffman {
  import opened BitString

  const MAX_BITS := 15

  /** One code length for each symbol; 0 is a symbol without a code. */
  predicate LengthsOk(lens: seq<nat>) {
    forall i :: 0 <= i < |lens| ==> lens[i] <= MAX_BITS
  }

  predicate Used(lens: seq<nat>, o: nat) {
    o < |lens| && 0 < lens[o] <= MAX_BITS
  }

  function Count(s: seq<nat>, l: nat): (n: nat) {
    if s == [] then 0
    else Count(s[..|s| - 1], l) + if s[|s| - 1] == l then 1 else 0
  }

  /** `bl_count`: how many codes have length `l`. Length 0 is not a code length. */
  function Codes(lens: seq<nat>, l: nat): (n: nat) {
    if l == 0 then 0 else Count(lens, l)
  }

  /** The first code of length `l`. */
  function First(lens: seq<nat>, l: nat): (c: nat) {
    if l == 0 then 0 else 2 * (First(lens, l - 1) + Codes(lens, l - 1))
  }

  /** How many earlier symbols have the same length. */
  function Rank(lens: seq<nat>, o: nat): (r: nat)
    requires o < |lens|
  {
    Count(lens[..o], lens[o])
  }

  /** The code of a symbol: codes of one length are consecutive in symbol order. */
  function Code(lens: seq<nat>, o: nat): (c: nat)
    requires Used(lens, o)
  {
    First(lens, lens[o]) + Rank(lens, o)
  }

  // ---------------------------------------------------------------------
  // Counting
  // ---------------------------------------------------------------------

  lemma CountNext(s: seq<nat>, i: nat, l: nat)
    requires i < |s|
    ensures Count(s[..i + 1], l) == Count(s[..i], l) + if s[i] == l then 1 else 0
  {
    assert s[..i + 1][..i] == s[..i];
  }

  lemma {:induction false} CountMonotone(s: seq<nat>, i: nat, j: nat, l: nat)
    requires i <= j <= |s|
    ensures Count(s[..i], l) <= Count(s[..j], l)
    decreases j - i
  {
    if i < j {
      CountMonotone(s, i, j - 1, l);
      CountNext(s, j - 1, l);
    }
  }

  lemma RankBelow(lens: seq<nat>, o: nat, j: nat)
    requires o < j <= |lens|
    ensures Rank(lens, o) < Count(lens[..j], lens[o])
  {
    CountNext(lens, o, lens[o]);
    CountMonotone(lens, o + 1, j, lens[o]);
  }

  /** Every rank below the count belongs to a symbol. */
  lemma {:induction false} SymbolOfRank(lens: seq<nat>, j: nat, l: nat, r: nat) returns (o: nat)
    requires j <= |lens| && r < Count(lens[..j], l)
    ensures o < j && lens[o] == l && Rank(lens, o) == r
  {
    assert lens[..0] == [];
    CountNext(lens, j - 1, l);
    if r < Count(lens[..j - 1], l) {
      o := SymbolOfRank(lens, j - 1, l, r);
    } else {
      o := j - 1;
    }
  }

  // ---------------------------------------------------------------------
  // Code space: a code of length l takes 2^(15-l) of 2^15
  // ---------------------------------------------------------------------

  /** The space the codes shorter than `l` take. */
  function Space(lens: seq<nat>, l: nat): (n: nat)
    requires l <= MAX_BITS + 1
  {
    if l <= 1 then 0 else Space(lens, l - 1) + Codes(lens, l - 1) * Pow2(MAX_BITS + 1 - l)
  }

  /** The lengths do not promise more codes than there are. */
  predicate NotOversubscribed(lens: seq<nat>) {
    Space(lens, MAX_BITS + 1) <= Pow2(MAX_BITS)
  }

  /** There is a code for every sequence of bits. */
  predicate Complete(lens: seq<nat>) {
    Space(lens, MAX_BITS + 1) == Pow2(MAX_BITS)
  }

  /** The space symbol by symbol: a code of length l is one in 2^l. */
  function Kraft(lens: seq<nat>): (n: nat) {
    if lens == [] then 0
    else
      var l := lens[|lens| - 1];
      Kraft(lens[..|lens| - 1]) + if 1 <= l <= 15 then Pow2(15 - l) else 0
  }

  lemma {:induction false} SpaceOfOneMore(lens: seq<nat>, last: nat, l: nat)
    requires l <= MAX_BITS + 1
    ensures Space(lens + [last], l) == Space(lens, l) + if 1 <= last < l then Pow2(MAX_BITS - last) else 0
  {
    hide Pow2, Count;
    if l > 1 {
      SpaceOfOneMore(lens, last, l - 1);
      CountOfOneMore(lens, last, l - 1);
      if last == l - 1 {
        var n := Count(lens, l - 1);
        assert (n + 1) * Pow2(MAX_BITS + 1 - l) == n * Pow2(MAX_BITS + 1 - l) + Pow2(MAX_BITS + 1 - l);
      }
    }
  }

  lemma CountOfOneMore(lens: seq<nat>, last: nat, l: nat)
    ensures Count(lens + [last], l) == Count(lens, l) + if last == l then 1 else 0
  {
    assert (lens + [last])[..|lens|] == lens;
  }

  lemma {:induction false} SpaceIsKraft(lens: seq<nat>)
    ensures Space(lens, 16) == Kraft(lens)
  {
    if lens == [] {
      NoSpaceAtAll(16);
    } else {
      var front := lens[..|lens| - 1];
      assert lens == front + [lens[|lens| - 1]];
      hide Space, Pow2;
      SpaceIsKraft(front);
      SpaceOfOneMore(front, lens[|lens| - 1], 16);
    }
  }

  lemma {:induction false} NoSpaceAtAll(l: nat)
    requires l <= MAX_BITS + 1
    ensures Space([], l) == 0
  {
    if l > 1 {
      NoSpaceAtAll(l - 1);
      assert Codes([], l - 1) == 0;
    }
  }

  /** What the table builder counts is the inequality of Kraft, and there is a code for everything where it is tight. */
  lemma CheckIsKraft(lens: seq<nat>)
    ensures NotOversubscribed(lens) <==> Kraft(lens) <= 32768
    ensures Complete(lens) <==> Kraft(lens) == 32768
  {
    hide Space, Kraft, Pow2;
    SpaceIsKraft(lens);
    Pow2Values();
  }

  lemma {:induction false} FirstIsSpace(lens: seq<nat>, l: nat)
    requires 1 <= l <= MAX_BITS
    ensures First(lens, l) * Pow2(MAX_BITS - l) == Space(lens, l)
  {
    if l == 1 {
      assert First(lens, 0) == 0 && Codes(lens, 0) == 0;
    } else {
      FirstIsSpace(lens, l - 1);
      hide Space, Codes, Pow2;
      var f, n, p := First(lens, l - 1), Codes(lens, l - 1), Pow2(MAX_BITS - l);
      assert Pow2(MAX_BITS - l + 1) == 2 * p by { PowStep(MAX_BITS - l); }
      Doubled(f, n, p);
      SpaceStep(lens, l);
    }
  }

  lemma PowStep(k: nat)
    ensures Pow2(k + 1) == 2 * Pow2(k)
  {
  }

  lemma SpaceStep(lens: seq<nat>, l: nat)
    requires 2 <= l <= MAX_BITS + 1
    ensures Space(lens, l) == Space(lens, l - 1) + Codes(lens, l - 1) * Pow2(MAX_BITS + 1 - l)
  {
  }

  lemma Doubled(f: nat, n: nat, p: nat)
    ensures 2 * (f + n) * p == f * (2 * p) + n * (2 * p)
  {
  }

  lemma {:induction false} SpaceMonotone(lens: seq<nat>, a: nat, b: nat)
    requires a <= b <= MAX_BITS + 1
    ensures Space(lens, a) <= Space(lens, b)
    decreases b - a
  {
    if a < b {
      SpaceMonotone(lens, a, b - 1);
    }
  }

  /** Where the strings that start with the code of `o` begin, and how many there are. */
  function Low(lens: seq<nat>, o: nat): (n: nat)
    requires Used(lens, o)
  {
    Code(lens, o) * Pow2(MAX_BITS - lens[o])
  }

  function Size(lens: seq<nat>, o: nat): (n: nat)
    requires Used(lens, o)
    ensures n > 0
  {
    Pow2(MAX_BITS - lens[o])
  }

  lemma LowAt(lens: seq<nat>, o: nat)
    requires Used(lens, o)
    ensures Low(lens, o) == Space(lens, lens[o]) + Rank(lens, o) * Size(lens, o)
  {
    hide Space, First, Rank, Pow2;
    var l := lens[o];
    FirstIsSpace(lens, l);
    var f, r, p := First(lens, l), Rank(lens, o), Pow2(MAX_BITS - l);
    assert (f + r) * p == f * p + r * p;
  }

  /** The strings of a code lie within the space of its length. */
  lemma WithinLength(lens: seq<nat>, o: nat)
    requires Used(lens, o)
    ensures Space(lens, lens[o]) <= Low(lens, o)
    ensures Low(lens, o) + Size(lens, o) <= Space(lens, lens[o] + 1)
  {
    hide Space, First, Rank, Pow2, Low;
    var l := lens[o];
    LowAt(lens, o);
    assert lens[..|lens|] == lens;
    RankBelow(lens, o, |lens|);
    var r, n, p := Rank(lens, o), Codes(lens, l), Pow2(MAX_BITS - l);
    SpaceStep(lens, l + 1);
    MulAtMost(r + 1, n, p);
    assert (r + 1) * p == r * p + p;
  }

  /** Different codes have no string in common. */
  lemma Disjoint(lens: seq<nat>, a: nat, b: nat)
    requires Used(lens, a) && Used(lens, b)
    requires lens[a] < lens[b] || (lens[a] == lens[b] && a < b)
    ensures Low(lens, a) + Size(lens, a) <= Low(lens, b)
  {
    hide Space, First, Pow2, Low;
    WithinLength(lens, a);
    WithinLength(lens, b);
    if lens[a] < lens[b] {
      SpaceMonotone(lens, lens[a] + 1, lens[b]);
    } else {
      LowAt(lens, a);
      LowAt(lens, b);
      RankBelow(lens, a, b);
      var p := Size(lens, a);
      MulAtMost(Rank(lens, a) + 1, Rank(lens, b), p);
      assert (Rank(lens, a) + 1) * p == Rank(lens, a) * p + p;
    }
  }

  /**
   The two rules of section 3.2.2 of RFC 1951, without counting: codes of one length are consecutive numbers in the
   order of their symbols, and the first code of a length follows, padded with zeros, on the last code before it.
   */
  lemma CanonicalOrder(lens: seq<nat>, a: nat, b: nat)
    requires Used(lens, a) && Used(lens, b)
    requires lens[a] < lens[b] || (lens[a] == lens[b] && a < b)
    requires forall o: nat :: Used(lens, o) ==> !Follows(lens, a, o) || !Follows(lens, o, b)
    ensures Code(lens, b) == (Code(lens, a) + 1) * Pow2(lens[b] - lens[a])
  {
    hide First, Pow2, Count;
    var l, m := lens[a], lens[b];
    if l == m {
      RankNext(lens, a, b);
      assert Pow2(0) == 1 by { OnePower(); }
    } else {
      LastRank(lens, a, b);
      FirstRank(lens, a, b);
      FirstAfter(lens, l, m, a, b);
    }
  }

  /** `b` comes after `a` in the order of the codes. */
  predicate Follows(lens: seq<nat>, a: nat, b: nat)
    requires Used(lens, a) && Used(lens, b)
  {
    lens[a] < lens[b] || (lens[a] == lens[b] && a < b)
  }

  lemma OnePower()
    ensures Pow2(0) == 1
  {
  }

  lemma {:induction false} NoneBetween(lens: seq<nat>, i: nat, j: nat, l: nat)
    requires i <= j <= |lens| && forall o :: i <= o < j ==> lens[o] != l
    ensures Count(lens[..j], l) == Count(lens[..i], l)
    decreases j
  {
    if i < j {
      NoneBetween(lens, i, j - 1, l);
      CountNext(lens, j - 1, l);
    }
  }

  lemma RankNext(lens: seq<nat>, a: nat, b: nat)
    requires Used(lens, a) && Used(lens, b) && lens[a] == lens[b] && a < b
    requires forall o: nat :: Used(lens, o) ==> !Follows(lens, a, o) || !Follows(lens, o, b)
    ensures Rank(lens, b) == Rank(lens, a) + 1
  {
    hide Count;
    CountNext(lens, a, lens[a]);
    forall o | a + 1 <= o < b
      ensures lens[o] != lens[a]
    {
      if Used(lens, o) {
        assert !Follows(lens, a, o) || !Follows(lens, o, b);
      }
    }
    NoneBetween(lens, a + 1, b, lens[a]);
  }

  lemma LastRank(lens: seq<nat>, a: nat, b: nat)
    requires Used(lens, a) && Used(lens, b) && lens[a] < lens[b]
    requires forall o: nat :: Used(lens, o) ==> !Follows(lens, a, o) || !Follows(lens, o, b)
    ensures Codes(lens, lens[a]) == Rank(lens, a) + 1
  {
    hide Count;
    CountNext(lens, a, lens[a]);
    forall o | a + 1 <= o < |lens|
      ensures lens[o] != lens[a]
    {
      if Used(lens, o) {
        assert !Follows(lens, a, o) || !Follows(lens, o, b);
      }
    }
    NoneBetween(lens, a + 1, |lens|, lens[a]);
    assert lens[..|lens|] == lens;
  }

  lemma FirstRank(lens: seq<nat>, a: nat, b: nat)
    requires Used(lens, a) && Used(lens, b) && lens[a] < lens[b]
    requires forall o: nat :: Used(lens, o) ==> !Follows(lens, a, o) || !Follows(lens, o, b)
    ensures Rank(lens, b) == 0
  {
    forall o | 0 <= o < b
      ensures lens[o] != lens[b]
    {
      if Used(lens, o) {
        assert !Follows(lens, a, o) || !Follows(lens, o, b);
      }
    }
    NoneBetween(lens, 0, b, lens[b]);
    assert lens[..0] == [];
  }

  /** Lengths without codes in between only append zeros. */
  lemma {:induction false} FirstAfter(lens: seq<nat>, l: nat, m: nat, a: nat, b: nat)
    requires Used(lens, a) && Used(lens, b) && lens[a] == l && l < m <= lens[b]
    requires forall o: nat :: Used(lens, o) ==> !Follows(lens, a, o) || !Follows(lens, o, b)
    ensures First(lens, m) == (First(lens, l) + Codes(lens, l)) * Pow2(m - l)
    decreases m
  {
    hide Count, Pow2;
    PowStep(m - l - 1);
    var n := First(lens, l) + Codes(lens, l);
    if m == l + 1 {
      OnePower();
    } else {
      FirstAfter(lens, l, m - 1, a, b);
      NoCodes(lens, m - 1, a, b);
      assert 2 * (n * Pow2(m - 1 - l)) == n * (2 * Pow2(m - 1 - l));
    }
  }

  lemma NoCodes(lens: seq<nat>, k: nat, a: nat, b: nat)
    requires Used(lens, a) && Used(lens, b) && lens[a] < k < lens[b]
    requires forall o: nat :: Used(lens, o) ==> !Follows(lens, a, o) || !Follows(lens, o, b)
    ensures Codes(lens, k) == 0
  {
    forall o | 0 <= o < |lens|
      ensures lens[o] != k
    {
      if Used(lens, o) {
        assert !Follows(lens, a, o) || !Follows(lens, o, b);
      }
    }
    NoneBetween(lens, 0, |lens|, k);
    assert lens[..|lens|] == lens && lens[..0] == [];
  }

  /** The first code of all is zero. */
  lemma FirstCodeIsZero(lens: seq<nat>, b: nat)
    requires Used(lens, b) && forall o: nat :: Used(lens, o) ==> !Follows(lens, o, b)
    ensures Code(lens, b) == 0
  {
    forall o | 0 <= o < b
      ensures lens[o] != lens[b]
    {
      if Used(lens, o) {
        assert !Follows(lens, o, b);
      }
    }
    NoneBetween(lens, 0, b, lens[b]);
    assert lens[..0] == [];
    NothingShorter(lens, b, lens[b]);
  }

  lemma {:induction false} NothingShorter(lens: seq<nat>, b: nat, l: nat)
    requires Used(lens, b) && l <= lens[b] && forall o: nat :: Used(lens, o) ==> !Follows(lens, o, b)
    ensures First(lens, l) == 0
    decreases l
  {
    if l > 0 {
      NothingShorter(lens, b, l - 1);
      forall o | 0 <= o < |lens|
        ensures lens[o] != l - 1 || l == 1
      {
        if Used(lens, o) {
          assert !Follows(lens, o, b);
        }
      }
      if l > 1 {
        NoneBetween(lens, 0, |lens|, l - 1);
      }
      assert lens[..|lens|] == lens && lens[..0] == [];
    }
  }

  // ---------------------------------------------------------------------
  // Codes fit their length exactly when the lengths are not over-subscribed
  // ---------------------------------------------------------------------

  lemma FitsIffBelow(lens: seq<nat>, o: nat)
    requires Used(lens, o)
    ensures Code(lens, o) < Pow2(lens[o]) <==> Low(lens, o) + Size(lens, o) <= Pow2(MAX_BITS)
  {
    hide Pow2, Code;
    var c, l := Code(lens, o), lens[o];
    var p, q := Pow2(MAX_BITS - l), Pow2(l);
    Pow2Add(l, MAX_BITS - l);
    assert (c + 1) * p == c * p + p;
    if c < q {
      MulAtMost(c + 1, q, p);
    } else {
      MulAtMost(q + 1, c + 1, p);
      assert (q + 1) * p == q * p + p;
    }
  }

  lemma CodeFits(lens: seq<nat>, o: nat)
    requires Used(lens, o) && NotOversubscribed(lens)
    ensures Code(lens, o) < Pow2(lens[o])
  {
    hide Pow2, Code, Low, Space;
    WithinLength(lens, o);
    SpaceMonotone(lens, lens[o] + 1, MAX_BITS + 1);
    FitsIffBelow(lens, o);
  }

  lemma OneMore(n: nat, p: nat)
    ensures n * p + p == (n + 1) * p
  {
  }

  /** The longest length in use, and its last symbol, whose strings end where the space ends. */
  lemma {:induction false} LastSymbol(lens: seq<nat>, l: nat) returns (o: nat)
    requires l <= MAX_BITS && Space(lens, l + 1) > 0
    ensures Used(lens, o) && Low(lens, o) + Size(lens, o) == Space(lens, l + 1)
  {
    assert l >= 1;
    SpaceStep(lens, l + 1);
    hide Rank, First, Low, Space, Pow2;
    var n, p := Codes(lens, l), Pow2(MAX_BITS - l);
    if n == 0 {
      assert n * p == 0;
      o := LastSymbol(lens, l - 1);
    } else {
      assert lens[..|lens|] == lens;
      o := SymbolOfRank(lens, |lens|, l, n - 1);
      LowAt(lens, o);
      OneMore(n - 1, p);
    }
  }

  /** All codes fit their lengths if and only if the check of the table builder passes. */
  lemma FitsIffNotOversubscribed(lens: seq<nat>)
    ensures (forall o: nat :: Used(lens, o) ==> Code(lens, o) < Pow2(lens[o])) <==> NotOversubscribed(lens)
  {
    hide Pow2, Code, Low, Space;
    if NotOversubscribed(lens) {
      forall o: nat | Used(lens, o)
        ensures Code(lens, o) < Pow2(lens[o])
      {
        CodeFits(lens, o);
      }
    } else {
      var o := LastSymbol(lens, MAX_BITS);
      FitsIffBelow(lens, o);
    }
  }

  // ---------------------------------------------------------------------
  // Codes as bits, most significant first
  // ---------------------------------------------------------------------

  function Msb(c: nat, l: nat): (s: seq<bool>)
    ensures |s| == l
    decreases l
  {
    if l == 0 then [] else Msb(c / 2, l - 1) + [c % 2 == 1]
  }

  lemma {:induction false} MsbPrefix(c: nat, l: nat, k: nat)
    requires k <= l
    ensures Msb(c, l)[..k] == Msb(Shr(c, l - k), k)
    decreases l
  {
    if k == l {
      assert Msb(c, l)[..k] == Msb(c, l);
    } else {
      MsbPrefix(c / 2, l - 1, k);
      assert Msb(c, l)[..k] == Msb(c / 2, l - 1)[..k];
    }
  }

  lemma {:induction false} MsbInjective(x: nat, y: nat, l: nat)
    requires x < Pow2(l) && y < Pow2(l) && Msb(x, l) == Msb(y, l)
    ensures x == y
    decreases l
  {
    if l > 0 {
      assert Msb(x / 2, l - 1) == Msb(x, l)[..l - 1] == Msb(y, l)[..l - 1] == Msb(y / 2, l - 1);
      MsbInjective(x / 2, y / 2, l - 1);
      assert (x % 2 == 1) == Msb(x, l)[l - 1] == Msb(y, l)[l - 1] == (y % 2 == 1);
    }
  }

  /** The low `l` bits of `c` in reverse. */
  function Reverse(c: nat, l: nat): (r: nat)
    ensures r < Pow2(l)
    decreases l
  {
    if l == 0 then 0 else (if c % 2 == 1 then Pow2(l - 1) else 0) + Reverse(c / 2, l - 1)
  }

  /** Sending the reversed code least significant bit first sends the code most significant bit first. */
  lemma {:induction false} BitsOfReverse(c: nat, l: nat)
    ensures Bits(Reverse(c, l), l) == Msb(c, l)
    decreases l
  {
    if l > 0 {
      BitsOfReverse(c / 2, l - 1);
      BitsJoin(Reverse(c / 2, l - 1), c % 2, l - 1, 1);
      assert c % 2 == 1 ==> (c % 2) * Pow2(l - 1) == Pow2(l - 1);
      assert Bits(c % 2, 1) == [c % 2 == 1] + Bits(c % 2 / 2, 0);
    }
  }

  /** The bits that stand for a symbol on the stream. */
  function CodeBits(lens: seq<nat>, o: nat): (s: seq<bool>)
    requires Used(lens, o)
    ensures |s| == lens[o]
  {
    Msb(Code(lens, o), lens[o])
  }

  /** No code is what a longer code starts with, as numbers. */
  lemma NotAPrefixNumber(lens: seq<nat>, a: nat, b: nat)
    requires Used(lens, a) && Used(lens, b) && a != b && lens[a] <= lens[b]
    ensures Shr(Code(lens, b), lens[b] - lens[a]) != Code(lens, a)
  {
    hide Pow2, Code, Low, Space, Shr, Mask;
    var d := lens[b] - lens[a];
    var ca, cb := Code(lens, a), Code(lens, b);
    if Shr(cb, d) == ca {
      SplitAt(cb, d);
      var m, pb := Mask(cb, d), Pow2(MAX_BITS - lens[b]);
      Pow2Add(d, MAX_BITS - lens[b]);
      MulAssociates(ca, Pow2(d), pb);
      assert (m + ca * Pow2(d)) * pb == m * pb + ca * Pow2(d) * pb;
      assert Low(lens, b) == Low(lens, a) + m * pb by { LowIs(lens, a); LowIs(lens, b); }
      MulAtMost(m + 1, Pow2(d), pb);
      assert (m + 1) * pb == m * pb + pb;
      assert Low(lens, b) < Low(lens, a) + Size(lens, a);
      if lens[a] < lens[b] || a < b {
        Disjoint(lens, a, b);
      } else {
        Disjoint(lens, b, a);
      }
      assert false;
    }
  }

  lemma LowIs(lens: seq<nat>, o: nat)
    requires Used(lens, o)
    ensures Low(lens, o) == Code(lens, o) * Pow2(MAX_BITS - lens[o])
  {
  }

  /** No symbol's bits are a prefix of another symbol's bits. */
  lemma PrefixFree(lens: seq<nat>, a: nat, b: nat)
    requires NotOversubscribed(lens) && Used(lens, a) && Used(lens, b) && a != b
    ensures !(CodeBits(lens, a) <= CodeBits(lens, b))
  {
    hide Pow2, Code, Space, Shr, Msb;
    if CodeBits(lens, a) <= CodeBits(lens, b) {
      var d := lens[b] - lens[a];
      MsbPrefix(Code(lens, b), lens[b], lens[a]);
      CodeFits(lens, a);
      CodeFits(lens, b);
      assert d + lens[a] == lens[b];
      ShrBelow(Code(lens, b), d, lens[a]);
      MsbInjective(Shr(Code(lens, b), d), Code(lens, a), lens[a]);
      NotAPrefixNumber(lens, a, b);
      assert false;
    }
  }

  /** The same for the reversed codes in the tree: no shorter one is the low bits of a longer one. */
  lemma ReversedPrefixFree(lens: seq<nat>, a: nat, b: nat)
    requires NotOversubscribed(lens) && Used(lens, a) && Used(lens, b) && a != b && lens[a] <= lens[b]
    ensures Mask(Reverse(Code(lens, b), lens[b]), lens[a]) != Reverse(Code(lens, a), lens[a])
  {
    hide Pow2, Code, Space, Shr, Msb, Bits, Mask, Reverse;
    var ra, rb := Reverse(Code(lens, a), lens[a]), Reverse(Code(lens, b), lens[b]);
    if Mask(rb, lens[a]) == ra {
      BitsOfReverse(Code(lens, a), lens[a]);
      BitsOfReverse(Code(lens, b), lens[b]);
      assert lens[a] + (lens[b] - lens[a]) == lens[b];
      BitsSplit(rb, lens[a], lens[b] - lens[a]);
      PrefixFree(lens, a, b);
      assert false;
    }
  }

  /** At most one symbol's bits start a bit string. */
  lemma UniqueDecoding(lens: seq<nat>, a: nat, b: nat, s: seq<bool>)
    requires NotOversubscribed(lens) && Used(lens, a) && Used(lens, b)
    requires CodeBits(lens, a) <= s && CodeBits(lens, b) <= s
    ensures a == b
  {
    hide Code, Space, Msb, CodeBits;
    var x, y := CodeBits(lens, a), CodeBits(lens, b);
    assert x == s[..|x|] && y == s[..|y|];
    assert |x| <= |y| ==> x == y[..|x|];
    assert |y| <= |x| ==> y == x[..|y|];
    if a != b {
      PrefixFree(lens, a, b);
      PrefixFree(lens, b, a);
    }
  }

  /** With complete lengths every long enough bit string starts with some symbol's bits. */
  lemma CompleteDecodes(lens: seq<nat>, x: nat) returns (o: nat)
    requires Complete(lens) && x < Pow2(MAX_BITS)
    ensures Used(lens, o) && CodeBits(lens, o) == Msb(x, MAX_BITS)[..lens[o]]
  {
    hide Code, Space, Shr, Msb, CodeBits, Pow2, Low;
    o := Covering(lens, x, MAX_BITS);
    var l := lens[o];
    var k := MAX_BITS - l;
    MsbPrefix(x, MAX_BITS, l);
    LowIs(lens, o);
    var c, p := Code(lens, o), Pow2(k);
    SplitUnique(x, k, x - c * p, c);
    assert CodeBits(lens, o) == Msb(c, l) by { CodeBitsIs(lens, o); }
  }

  /** Without complete lengths some sequence of bits starts with no symbol's bits. */
  lemma IncompleteLeavesGap(lens: seq<nat>) returns (x: nat)
    requires NotOversubscribed(lens) && !Complete(lens)
    ensures x < Pow2(MAX_BITS) && forall o: nat :: Used(lens, o) ==> CodeBits(lens, o) != Msb(x, MAX_BITS)[..lens[o]]
  {
    hide Code, Space, Shr, Msb, CodeBits, Pow2, Low;
    x := Space(lens, MAX_BITS + 1);
    forall o: nat | Used(lens, o)
      ensures CodeBits(lens, o) != Msb(x, MAX_BITS)[..lens[o]]
    {
      var l, k := lens[o], MAX_BITS - lens[o];
      WithinLength(lens, o);
      SpaceMonotone(lens, l + 1, MAX_BITS + 1);
      LowIs(lens, o);
      MsbPrefix(x, MAX_BITS, l);
      CodeBitsIs(lens, o);
      SplitAt(x, k);
      assert k + l == MAX_BITS;
      ShrBelow(x, k, l);
      CodeFits(lens, o);
      if Msb(Code(lens, o), l) == Msb(Shr(x, k), l) {
        MsbInjective(Code(lens, o), Shr(x, k), l);
      }
    }
  }

  lemma CodeBitsIs(lens: seq<nat>, o: nat)
    requires Used(lens, o)
    ensures CodeBits(lens, o) == Msb(Code(lens, o), lens[o])
  {
  }

  /** The symbol among whose strings `x` is. */
  lemma {:induction false} Covering(lens: seq<nat>, x: nat, l: nat) returns (o: nat)
    requires l <= MAX_BITS && x < Space(lens, l + 1)
    ensures Used(lens, o) && Low(lens, o) <= x < Low(lens, o) + Size(lens, o)
  {
    hide Code, Rank, Low, Pow2;
    assert l >= 1;
    SpaceStep(lens, l + 1);
    hide Space;
    if x < Space(lens, l) {
      o := Covering(lens, x, l - 1);
    } else {
      var p, n := Pow2(MAX_BITS - l), Codes(lens, l);
      var r := Quotient(x - Space(lens, l), p, n);
      assert lens[..|lens|] == lens;
      o := SymbolOfRank(lens, |lens|, l, r);
      LowAt(lens, o);
    }
  }

  lemma {:induction false} Quotient(y: nat, p: nat, n: nat) returns (r: nat)
    requires p > 0 && y < n * p
    ensures r < n && r * p <= y < r * p + p
    decreases y
  {
    if y < p {
      r := 0;
      assert n > 0;
    } else {
      assert n * p == (n - 1) * p + p;
      r := Quotient(y - p, p, n - 1);
      assert (r + 1) * p == r * p + p;
      r := r + 1;
    }
  }
}
