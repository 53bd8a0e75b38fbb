/**
 What the table builder called as `Vt` is made of (crates/execution/assets/v8-bridge-zlib.js, line 67): the
 offsets and sorting loops, the code counted up in reverse, and the loop that fills one stretch of a table.
 */
module HuffmanTable {
  import opened BitString
  import opened Huffman
  import opened HuffmanTree

  // ---------------------------------------------------------------------
  // Symbols in code order
  // ---------------------------------------------------------------------

  /** How many codes are shorter than `l`. */
  function Offset(lens: seq<nat>, l: nat): (n: nat) {
    if l == 0 then 0 else Offset(lens, l - 1) + Codes(lens, l - 1)
  }

  /** The place of a symbol when symbols are sorted by length and then by number. */
  function Place(lens: seq<nat>, o: nat): (n: nat)
    requires Used(lens, o)
  {
    Offset(lens, lens[o]) + Rank(lens, o)
  }

  lemma OffsetStep(lens: seq<nat>, l: nat)
    ensures Offset(lens, l + 1) == Offset(lens, l) + Codes(lens, l)
  {
  }

  lemma {:induction false} OffsetMonotone(lens: seq<nat>, a: nat, b: nat)
    requires a <= b
    ensures Offset(lens, a) <= Offset(lens, b)
    decreases b - a
  {
    if a < b {
      OffsetMonotone(lens, a, b - 1);
    }
  }

  lemma PlaceWithin(lens: seq<nat>, o: nat)
    requires Used(lens, o)
    ensures Offset(lens, lens[o]) <= Place(lens, o) < Offset(lens, lens[o] + 1)
  {
    hide Offset, Rank;
    assert lens[..|lens|] == lens;
    RankBelow(lens, o, |lens|);
    OffsetStep(lens, lens[o]);
  }

  lemma PlaceInjective(lens: seq<nat>, a: nat, b: nat)
    requires Used(lens, a) && Used(lens, b) && a != b
    ensures Place(lens, a) != Place(lens, b)
  {
    hide Offset;
    PlaceWithin(lens, a);
    PlaceWithin(lens, b);
    if lens[a] < lens[b] {
      OffsetMonotone(lens, lens[a] + 1, lens[b]);
    } else if lens[b] < lens[a] {
      OffsetMonotone(lens, lens[b] + 1, lens[a]);
    } else if a < b {
      RankBelow(lens, a, b);
    } else {
      RankBelow(lens, b, a);
    }
  }

  lemma {:induction false} OffsetOfPrefix(lens: seq<nat>, c: nat, l: nat)
    requires c < |lens|
    ensures Offset(lens[..c + 1], l) <= Offset(lens[..c], l) + if 1 <= lens[c] < l then 1 else 0
  {
    if l > 0 {
      OffsetOfPrefix(lens, c, l - 1);
      CountNext(lens, c, l - 1);
    }
  }

  lemma {:induction false} OffsetBound(lens: seq<nat>, c: nat, l: nat)
    requires c <= |lens|
    ensures Offset(lens[..c], l) <= c
  {
    if c == 0 {
      assert lens[..0] == [];
      OffsetOfNothing(l);
    } else {
      OffsetBound(lens, c - 1, l);
      OffsetOfPrefix(lens, c - 1, l);
    }
  }

  lemma {:induction false} OffsetOfNothing(l: nat)
    ensures Offset([], l) == 0
  {
    if l > 0 {
      OffsetOfNothing(l - 1);
    }
  }

  ghost predicate Sorted(lens: seq<nat>, work: seq<nat>) {
    forall o: nat :: Used(lens, o) ==> Place(lens, o) < |work| && work[Place(lens, o)] == o
  }

  /** The offsets loop and the sorting loop. */
  method SortSymbols(lens: seq<nat>, count: array<nat>) returns (work: array<nat>)
    requires LengthsOk(lens) && count.Length == MAX_BITS + 1
    requires forall l :: 0 <= l <= MAX_BITS ==> count[l] == Count(lens, l)
    ensures fresh(work) && Sorted(lens, work[..])
  {
    hide Offset, Count;
    var offs: seq<nat> := [0, 0];
    assert Offset(lens, 1) == 0 by { OffsetStart(lens); }
    for l := 1 to MAX_BITS
      invariant |offs| == l + 1
      invariant forall k :: 1 <= k <= l ==> offs[k] == Offset(lens, k)
    {
      OffsetStep(lens, l);
      offs := offs + [offs[l] + count[l]];
    }
    work := new nat[|lens|](_ => 0);
    assert forall l :: 1 <= l <= MAX_BITS ==> Count(lens[..0], l) == 0 by { CountNone(lens); }
    for c := 0 to |lens|
      invariant |offs| == MAX_BITS + 1
      invariant forall l :: 1 <= l <= MAX_BITS ==> offs[l] == Offset(lens, l) + Count(lens[..c], l)
      invariant forall o: nat :: o < c && Used(lens, o) ==> Place(lens, o) < work.Length && work[Place(lens, o)] == o
    {
      if lens[c] != 0 {
        PlaceFits(lens, c);
        forall o: nat | o < c && Used(lens, o)
          ensures Place(lens, o) != Place(lens, c)
        {
          PlaceInjective(lens, o, c);
        }
        work[offs[lens[c]]] := c;
        offs := offs[lens[c] := offs[lens[c]] + 1];
      }
      forall l: nat | 1 <= l <= MAX_BITS
        ensures offs[l] == Offset(lens, l) + Count(lens[..c + 1], l)
      {
        CountNext(lens, c, l);
      }
    }
  }

  lemma OffsetStart(lens: seq<nat>)
    ensures Offset(lens, 1) == 0
  {
    assert Offset(lens, 0) == 0;
  }

  lemma PlaceFits(lens: seq<nat>, o: nat)
    requires Used(lens, o)
    ensures Place(lens, o) < |lens|
  {
    PlaceWithin(lens, o);
    OffsetBound(lens, |lens|, lens[o] + 1);
    assert lens[..|lens|] == lens;
  }

  // ---------------------------------------------------------------------
  // Counting up in reverse
  // ---------------------------------------------------------------------

  /** One more in the reversed code: clear the high ones, set the next bit. */
  function ReversedNext(a: nat, l: nat): (r: nat)
    decreases l
  {
    if l == 0 then 0
    else if a < Pow2(l - 1) then a + Pow2(l - 1)
    else ReversedNext(a - Pow2(l - 1), l - 1)
  }

  lemma {:induction false} ReversedNextIsNext(c: nat, l: nat)
    ensures ReversedNext(Reverse(c, l), l) == Reverse(c + 1, l)
    decreases l
  {
    hide Pow2;
    if l > 0 {
      if c % 2 == 0 {
        assert (c + 1) / 2 == c / 2;
      } else {
        assert (c + 1) / 2 == c / 2 + 1;
        ReversedNextIsNext(c / 2, l - 1);
      }
    }
  }

  lemma {:induction false} MaskNext(a: nat, i: nat)
    ensures Mask(a, i + 1) == Mask(a, i) + (Shr(a, i) % 2) * Pow2(i)
    decreases i
  {
    if i > 0 {
      MaskNext(a / 2, i - 1);
      HalveProduct(Shr(a, i) % 2, i);
    } else {
      assert Mask(a / 2, 0) == 0;
    }
  }

  /** The loop that adds one to the reversed code `huff` of length `len`. */
  method Increment(huff: nat, len: nat) returns (r: nat)
    requires len > 0 && huff < Pow2(len)
    ensures r == ReversedNext(huff, len)
  {
    hide Mask, Shr, Pow2;
    var i := len - 1;
    MaskBelow(huff, len);
    while i >= 0 && Shr(huff, i) % 2 == 1
      invariant -1 <= i < len
      invariant ReversedNext(huff, len) == ReversedNext(Mask(huff, i + 1), i + 1)
    {
      MaskNext(huff, i);
      i := i - 1;
    }
    if i >= 0 {
      MaskNext(huff, i);
      r := Mask(huff, i) + Pow2(i);
    } else {
      r := 0;
    }
  }

  /** An empty length appends a zero to the next code, which its reversal does not show. */
  lemma {:induction false} SkipEmpty(lens: seq<nat>, l: nat, m: nat)
    requires 1 <= l < m && forall k :: l < k < m ==> Codes(lens, k) == 0
    ensures Reverse(First(lens, m), m) == Reverse(First(lens, l) + Codes(lens, l), l)
    ensures Offset(lens, m) == Offset(lens, l + 1)
    decreases m
  {
    if m > l + 1 {
      SkipEmpty(lens, l, m - 1);
    }
    var x := First(lens, m - 1) + Codes(lens, m - 1);
    assert 2 * x % 2 == 0 && 2 * x / 2 == x;
  }

  // ---------------------------------------------------------------------
  // The table
  // ---------------------------------------------------------------------

  datatype Entry = Entry(bits: nat, op: nat, val: nat)

  const INVALID := Entry(1, 64, 0)

  /** `x`, as the next bits of the stream, starts with the code of `o`. */
  predicate Starts(lens: seq<nat>, o: nat, x: nat)
    requires Used(lens, o)
  {
    Mask(x, lens[o]) == Reverse(Code(lens, o), lens[o])
  }

  lemma StartsIsPrefix(lens: seq<nat>, o: nat, x: nat, w: nat)
    requires NotOversubscribed(lens) && Used(lens, o) && lens[o] <= w
    ensures Starts(lens, o, x) <==> CodeBits(lens, o) <= Bits(x, w)
  {
    hide Mask, Reverse, Code, Bits, Msb, Shr, Space, Pow2;
    var l := lens[o];
    var rev := Reverse(Code(lens, o), l);
    BitsOfReverse(Code(lens, o), l);
    assert l + (w - l) == w;
    BitsSplit(x, l, w - l);
    assert Bits(x, w)[..l] == Bits(Mask(x, l), l);
    if CodeBits(lens, o) <= Bits(x, w) {
      BitsInjective(Mask(x, l), rev, l);
    }
  }

  lemma StartsUnique(lens: seq<nat>, a: nat, b: nat, x: nat)
    requires NotOversubscribed(lens) && Used(lens, a) && Used(lens, b) && Starts(lens, a, x) && Starts(lens, b, x)
    ensures a == b
  {
    hide Starts, Bits, CodeBits, Space;
    StartsIsPrefix(lens, a, x, MAX_BITS);
    StartsIsPrefix(lens, b, x, MAX_BITS);
    UniqueDecoding(lens, a, b, Bits(x, MAX_BITS));
  }

  lemma LowBitsOnly(lens: seq<nat>, o: nat, hold: nat, root: nat)
    requires Used(lens, o) && lens[o] <= root
    ensures Starts(lens, o, Mask(hold, root)) == Starts(lens, o, hold)
  {
    MaskOfMask(hold, root, lens[o]);
  }

  lemma {:induction false} MaskOfMask(v: nat, a: nat, b: nat)
    requires b <= a
    ensures Mask(Mask(v, a), b) == Mask(v, b)
    decreases b
  {
    if b > 0 {
      MaskOfMask(v / 2, a - 1, b - 1);
    }
  }

  lemma {:induction false} MsbOfReverse(c: nat, l: nat)
    ensures Msb(Reverse(c, l), l) == Bits(c, l)
    decreases l
  {
    hide Pow2;
    if l > 0 {
      MsbOfReverse(c, l - 1);
      ReverseNext(c, l - 1);
      BitsSplit(c, l - 1, 1);
      BitsMod(c, l - 1);
      var b := Shr(c, l - 1);
      assert Bits(b, 1) == [b % 2 == 1] + Bits(b / 2, 0);
    }
  }

  /** With complete lengths some symbol's code starts any fifteen bits. */
  lemma StartingSymbol(lens: seq<nat>, x: nat) returns (o: nat)
    requires Complete(lens) && x < Pow2(MAX_BITS)
    ensures Used(lens, o) && Starts(lens, o, x)
  {
    hide Reverse, Code, Space, Pow2, Starts, Bits, Msb, CodeBits, Shr, Mask;
    o := CompleteDecodes(lens, Reverse(x, MAX_BITS));
    MsbOfReverse(x, MAX_BITS);
    assert CodeBits(lens, o) <= Bits(x, MAX_BITS);
    StartsIsPrefix(lens, o, x, MAX_BITS);
  }

  /** The longest length in use. */
  ghost predicate Longest(lens: seq<nat>, h: nat) {
    h <= MAX_BITS && (h > 0 ==> Codes(lens, h) > 0) && forall l :: h < l <= MAX_BITS ==> Codes(lens, l) == 0
  }

  lemma NoLonger(lens: seq<nat>, h: nat, o: nat)
    requires Longest(lens, h) && Used(lens, o)
    ensures lens[o] <= h
  {
    assert lens[..|lens|] == lens;
    RankBelow(lens, o, |lens|);
    assert Codes(lens, lens[o]) > 0;
  }

  lemma LongestSymbol(lens: seq<nat>, h: nat) returns (o: nat)
    requires Longest(lens, h) && h > 0
    ensures Used(lens, o) && lens[o] == h
  {
    assert lens[..|lens|] == lens;
    o := SymbolOfRank(lens, |lens|, h, 0);
  }

  lemma NextLength(lens: seq<nat>, work: seq<nat>, l: nat, h: nat) returns (m: nat)
    requires Sorted(lens, work) && Longest(lens, h) && 1 <= l < h
    ensures l < m <= h && Codes(lens, m) > 0 && forall k :: l < k < m ==> Codes(lens, k) == 0
    ensures Offset(lens, l + 1) < |work| && work[Offset(lens, l + 1)] < |lens|
    ensures lens[work[Offset(lens, l + 1)]] == m
  {
    hide Offset, First, Reverse, Rank, Count;
    m := l + 1;
    while Codes(lens, m) == 0
      invariant l < m <= h && forall k :: l < k < m ==> Codes(lens, k) == 0
      decreases h - m
    {
      m := m + 1;
    }
    SkipEmpty(lens, l, m);
    assert lens[..|lens|] == lens;
    var o := SymbolOfRank(lens, |lens|, m, 0);
    assert Place(lens, o) == Offset(lens, l + 1);
  }

  lemma StartOfCodes(lens: seq<nat>, min: nat)
    requires 1 <= min && forall l :: 1 <= l < min ==> Codes(lens, l) == 0
    ensures Offset(lens, min) == 0 && First(lens, min) == 0 && Reverse(0, min) == 0
  {
    if min == 1 {
      OffsetStart(lens);
      assert First(lens, 0) == 0 && Codes(lens, 0) == 0;
      assert Reverse(0, 0) == 0;
    } else {
      StartOfCodes(lens, min - 1);
    }
  }

  /** The low `len` bits of an index. */
  predicate Ends(y: nat, len: nat, code: nat) {
    Mask(y, len) == code
  }

  /**
   `e` is at every index of the table of `bits` bits at `start` that ends in the `len` bits `code`; nothing else has
   changed.
   */
  ghost predicate Filled(before: seq<Entry>, after: seq<Entry>, start: nat, bits: nat, code: nat, len: nat, e: Entry) {
    && |before| == |after| && start + Pow2(bits) <= |after|
    && (forall y: nat :: y < Pow2(bits) && Ends(y, len, code) ==> after[start + y] == e)
    && (forall i: nat :: i < |before| && (i < start || i >= start + Pow2(bits) || !Ends(i - start, len, code)) ==>
        after[i] == before[i])
  }

  /** The innermost loop. */
  method Fill(table: array<Entry>, start: nat, bits: nat, code: nat, len: nat, e: Entry)
    requires len <= bits && code < Pow2(len) && start + Pow2(bits) <= table.Length
    modifies table
    ensures Filled(old(table[..]), table[..], start, bits, code, len, e)
  {
    hide Mask, Shr, Pow2;
    var incr := Pow2(len);
    ghost var j := Pow2(bits - len);
    Pow2Add(bits - len, len);
    var fill := Pow2(bits);
    forall y: nat | y < Pow2(bits)
      ensures Shr(y, len) < j
    {
      assert len + (bits - len) == bits;
      ShrBelow(y, len, bits - len);
    }
    while fill != 0
      invariant fill == j * incr && 0 <= j <= Pow2(bits - len)
      invariant forall y: nat :: y < Pow2(bits) && Ends(y, len, code) && Shr(y, len) >= j ==> table[start + y] == e
      invariant forall i: nat ::
        i < table.Length && (i < start || i >= start + Pow2(bits) || !Ends(i - start, len, code)) ==>
          table[i] == old(table[i])
      decreases j
    {
      assert j > 0;
      OneMore(j - 1, incr);
      j := j - 1;
      fill := fill - incr;
      var index := code + fill;
      StackBelow(j, bits - len, code, len);
      assert (bits - len) + len == bits;
      SplitUnique(index, len, code, j);
      table[start + index] := e;
      forall y: nat | y < Pow2(bits) && Ends(y, len, code) && Shr(y, len) >= j
        ensures table[start + y] == e
      {
        SplitAt(y, len);
      }
    }
    forall y: nat | y < Pow2(bits) && Ends(y, len, code)
      ensures table[start + y] == e
    {
      assert Shr(y, len) >= 0;
    }
  }
}
