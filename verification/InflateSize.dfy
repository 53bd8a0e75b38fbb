/**
 How large the inflate tables of some code lengths are: the root table, and behind it one sub-table for each block
 of longer codes, indexed by as many bits as the longest code of the block goes on for.
 */
module InflateSize {
  import opened BitString
  import opened Huffman
  import opened HuffmanTable
  import opened InflateTable

  // ---------------------------------------------------------------------
  // The root index
  // ---------------------------------------------------------------------

  /** The longest length. */
  function MaxLen(lens: seq<nat>): (m: nat)
    ensures forall i :: 0 <= i < |lens| ==> lens[i] <= m
    ensures m > 0 ==> m in lens
  {
    if lens == [] then 0
    else
      var m := MaxLen(lens[1..]);
      if lens[0] > m then lens[0] else m
  }

  /** The shortest length of a code; 0 if there is none. */
  function MinLen(lens: seq<nat>): (m: nat)
    ensures forall i :: 0 <= i < |lens| && lens[i] > 0 ==> 0 < m <= lens[i]
    ensures m > 0 ==> m in lens
  {
    if lens == [] then 0
    else
      var m := MinLen(lens[1..]);
      if lens[0] > 0 && (m == 0 || lens[0] < m) then lens[0] else m
  }

  /**
   The index bits of the root table: those asked for, but no more than the longest code and no fewer than the
   shortest.
   */
  function RootBits(lens: seq<nat>, bits: nat): (root: nat) {
    var min, max := MinLen(lens), MaxLen(lens);
    if max == 0 then 1 else if bits > max then max else if bits < min then min else bits
  }

  /** The index bits asked for are taken if some code is as long and some code is as short, else the nearest that do. */
  lemma RootBitsIs(lens: seq<nat>, bits: nat, o: nat)
    requires o < |lens| && lens[o] > 0
    ensures MinLen(lens) <= RootBits(lens, bits) <= MaxLen(lens)
    ensures MinLen(lens) <= bits <= MaxLen(lens) ==> RootBits(lens, bits) == bits
    ensures bits < MinLen(lens) ==> RootBits(lens, bits) == MinLen(lens)
    ensures bits > MaxLen(lens) ==> RootBits(lens, bits) == MaxLen(lens)
  {
  }

  // ---------------------------------------------------------------------
  // Sub-tables
  // ---------------------------------------------------------------------

  predicate InBlockOf(lens: seq<nat>, root: nat, b: nat, q: nat) {
    Used(lens, q) && root < lens[q] && Block(lens, q, root) == b
  }

  /** How many bits the longest of the first `n` codes in a block goes on for; 0 if there is none. */
  function DepthOf(lens: seq<nat>, root: nat, b: nat, n: nat): (d: nat) {
    if n == 0 then 0
    else
      var d := DepthOf(lens, root, b, n - 1);
      if InBlockOf(lens, root, b, n - 1) && lens[n - 1] - root > d then lens[n - 1] - root else d
  }

  function Depth(lens: seq<nat>, root: nat, b: nat): (d: nat) {
    DepthOf(lens, root, b, |lens|)
  }

  lemma {:induction false} DepthCovers(lens: seq<nat>, root: nat, b: nat, n: nat, q: nat)
    requires q < n && InBlockOf(lens, root, b, q)
    ensures lens[q] - root <= DepthOf(lens, root, b, n)
    decreases n
  {
    hide InBlockOf;
    if q < n - 1 {
      DepthCovers(lens, root, b, n - 1, q);
    }
  }

  lemma {:induction false} DepthReached(lens: seq<nat>, root: nat, b: nat, n: nat) returns (q: nat)
    requires DepthOf(lens, root, b, n) > 0
    ensures q < n && InBlockOf(lens, root, b, q) && lens[q] - root == DepthOf(lens, root, b, n)
    decreases n
  {
    hide InBlockOf;
    if DepthOf(lens, root, b, n) == DepthOf(lens, root, b, n - 1) {
      q := DepthReached(lens, root, b, n - 1);
    } else {
      q := n - 1;
    }
  }

  /** A code of the block that no other one is longer than has its depth. */
  lemma DepthIs(lens: seq<nat>, root: nat, b: nat, q: nat)
    requires InBlockOf(lens, root, b, q) && forall o: nat :: InBlockOf(lens, root, b, o) ==> lens[o] <= lens[q]
    ensures Depth(lens, root, b) == lens[q] - root
  {
    hide DepthOf;
    DepthCovers(lens, root, b, |lens|, q);
    var o := DepthReached(lens, root, b, |lens|);
  }

  lemma NoDepth(lens: seq<nat>, root: nat, b: nat)
    requires forall o: nat :: !InBlockOf(lens, root, b, o)
    ensures Depth(lens, root, b) == 0
  {
    hide DepthOf, InBlockOf;
    if Depth(lens, root, b) > 0 {
      var o := DepthReached(lens, root, b, |lens|);
    }
  }

  function SubSize(d: nat): (n: nat) {
    if d == 0 then 0 else Pow2(d)
  }

  /** The root table and the sub-tables of the first `k` blocks. */
  function SizeUpTo(lens: seq<nat>, root: nat, k: nat): (n: nat)
    ensures n >= Pow2(root)
  {
    if k == 0 then Pow2(root) else SizeUpTo(lens, root, k - 1) + SubSize(Depth(lens, root, k - 1))
  }

  /** How many entries the tables take. */
  function TableSize(lens: seq<nat>, root: nat): (n: nat) {
    SizeUpTo(lens, root, Pow2(root))
  }

  lemma {:induction false} SizeMonotone(lens: seq<nat>, root: nat, a: nat, b: nat)
    requires a <= b
    ensures SizeUpTo(lens, root, a) <= SizeUpTo(lens, root, b)
    decreases b
  {
    hide Depth;
    if a < b {
      SizeMonotone(lens, root, a, b - 1);
    }
  }

  lemma SizeNext(lens: seq<nat>, root: nat, b: nat)
    requires Depth(lens, root, b) > 0
    ensures SizeUpTo(lens, root, b + 1) == SizeUpTo(lens, root, b) + Pow2(Depth(lens, root, b))
  {
    hide Depth;
  }

  /** Blocks without longer codes take nothing. */
  lemma {:induction false} SizeSkip(lens: seq<nat>, root: nat, a: nat, b: nat)
    requires a <= b && forall k, q: nat :: a <= k < b ==> !InBlockOf(lens, root, k, q)
    ensures SizeUpTo(lens, root, a) == SizeUpTo(lens, root, b)
    decreases b
  {
    hide Depth, InBlockOf;
    if a < b {
      SizeSkip(lens, root, a, b - 1);
      NoDepth(lens, root, b - 1);
    }
  }

  /** Without longer codes there is only the root table. */
  lemma OnlyRoot(lens: seq<nat>, root: nat)
    requires forall q: nat :: Used(lens, q) ==> lens[q] <= root
    ensures TableSize(lens, root) == Pow2(root)
  {
    hide Depth, Pow2, Block;
    SizeSkip(lens, root, 0, Pow2(root));
  }

  // ---------------------------------------------------------------------
  // A bound
  // ---------------------------------------------------------------------

  /** Some symbol's strings hold any given one. */
  lemma Holder(lens: seq<nat>, x: nat) returns (o: nat)
    requires Complete(lens) && x < Pow2(MAX_BITS)
    ensures Used(lens, o) && Low(lens, o) <= x < Low(lens, o) + Size(lens, o)
  {
    hide Space, Low, Size;
    o := Covering(lens, x, MAX_BITS);
  }

  /** A string belongs to one symbol only. */
  lemma OneHolder(lens: seq<nat>, a: nat, b: nat, x: nat)
    requires Used(lens, a) && Used(lens, b)
    requires Low(lens, a) <= x < Low(lens, a) + Size(lens, a) && Low(lens, b) <= x < Low(lens, b) + Size(lens, b)
    ensures a == b
  {
    hide Low, Size;
    if a != b {
      if lens[a] < lens[b] || (lens[a] == lens[b] && a < b) {
        Disjoint(lens, a, b);
      } else {
        Disjoint(lens, b, a);
      }
    }
  }

  lemma MulAdds(x: nat, y: nat, z: nat)
    ensures (x + y) * z == x * z + y * z
  {
  }

  /** The strings of a symbol that fits the root table, counted in blocks. */
  lemma StringsInBlocks(lens: seq<nat>, o: nat, root: nat) returns (c: nat, s: nat)
    requires Used(lens, o) && lens[o] <= root <= MAX_BITS
    ensures Low(lens, o) == c * BlockSize(root) && Low(lens, o) + Size(lens, o) == (c + s) * BlockSize(root)
  {
    hide Code, Pow2, Low;
    var n := BlockSize(root);
    assert (root - lens[o]) + (MAX_BITS - root) == MAX_BITS - lens[o];
    Pow2Add(root - lens[o], MAX_BITS - root);
    s := Pow2(root - lens[o]);
    c := Code(lens, o) * s;
    LowIs(lens, o);
    MulAssociates(Code(lens, o), s, n);
    MulAdds(c, s, n);
  }

  /** The strings of a code that is no longer than the index are whole blocks. */
  lemma WholeBlocks(lens: seq<nat>, o: nat, root: nat, b: nat, x: nat)
    requires Used(lens, o) && lens[o] <= root <= MAX_BITS && Low(lens, o) <= x < Low(lens, o) + Size(lens, o)
    requires b * BlockSize(root) <= x < (b + 1) * BlockSize(root)
    ensures Low(lens, o) <= b * BlockSize(root) && (b + 1) * BlockSize(root) <= Low(lens, o) + Size(lens, o)
  {
    hide *;
    var c, s := StringsInBlocks(lens, o, root);
    Multiples(c, c + s, b, x, BlockSize(root));
  }

  lemma Multiples(a: nat, c: nat, b: nat, x: nat, n: nat)
    requires a * n <= x < c * n && b * n <= x < (b + 1) * n
    ensures a * n <= b * n && (b + 1) * n <= c * n
  {
    if b < a {
      MulAtMost(b + 1, a, n);
    } else {
      MulAtMost(a, b, n);
    }
    if c < b + 1 {
      MulAtMost(c, b, n);
    } else {
      MulAtMost(b + 1, c, n);
    }
  }

  /** With complete lengths a longer code shares its block: the rest of the block belongs to another one. */
  lemma SharesBlock(lens: seq<nat>, root: nat, b: nat, q: nat) returns (o: nat)
    requires Complete(lens) && root <= MAX_BITS && InBlockOf(lens, root, b, q)
    ensures o != q && InBlockOf(lens, root, b, o)
  {
    hide Space, Low, Pow2, Block, Code;
    var n, from := BlockSize(root), b * BlockSize(root);
    InBlock(lens, q, root);
    OneMore(b, n);
    HalfBlock(lens, q, root);
    BlockBelow(lens, q, root);
    EndsBelow(b, root);
    var x := if Low(lens, q) > from then from else from + n - 1;
    o := Holder(lens, x);
    if lens[o] <= root {
      WholeBlocks(lens, o, root, b, x);
      OneHolder(lens, o, q, Low(lens, q));
    } else {
      InBlock(lens, o, root);
      SameMultiple(b, Block(lens, o, root), x, n);
    }
  }

  lemma HalfBlock(lens: seq<nat>, q: nat, root: nat)
    requires Used(lens, q) && root < lens[q]
    ensures 2 * Size(lens, q) <= BlockSize(root)
  {
    hide Pow2;
    PowStep(MAX_BITS - lens[q]);
    Pow2Monotone(MAX_BITS - lens[q] + 1, MAX_BITS - root);
  }

  lemma EndsBelow(b: nat, root: nat)
    requires b < Pow2(root) && root <= MAX_BITS
    ensures (b + 1) * BlockSize(root) <= Pow2(MAX_BITS)
  {
    hide Pow2;
    assert root + (MAX_BITS - root) == MAX_BITS;
    Pow2Add(root, MAX_BITS - root);
    MulAtMost(b + 1, Pow2(root), BlockSize(root));
  }

  /** How many of the first `n` codes are in a block. */
  function CountIn(lens: seq<nat>, root: nat, b: nat, n: nat): (c: nat) {
    if n == 0 then 0 else CountIn(lens, root, b, n - 1) + if InBlockOf(lens, root, b, n - 1) then 1 else 0
  }

  lemma {:induction false} CountsOne(lens: seq<nat>, root: nat, b: nat, n: nat, q: nat)
    requires q < n && InBlockOf(lens, root, b, q)
    ensures CountIn(lens, root, b, n) >= 1
    decreases n
  {
    hide InBlockOf;
    if q < n - 1 {
      CountsOne(lens, root, b, n - 1, q);
    }
  }

  lemma {:induction false} CountsTwo(lens: seq<nat>, root: nat, b: nat, n: nat, p: nat, q: nat)
    requires p < q < n && InBlockOf(lens, root, b, p) && InBlockOf(lens, root, b, q)
    ensures CountIn(lens, root, b, n) >= 2
    decreases n
  {
    hide InBlockOf;
    if q < n - 1 {
      CountsTwo(lens, root, b, n - 1, p, q);
    } else {
      CountsOne(lens, root, b, n - 1, p);
    }
  }

  /** How many of the first `n` codes are in the first `k` blocks. */
  function CountUpTo(lens: seq<nat>, root: nat, k: nat, n: nat): (c: nat) {
    if k == 0 then 0 else CountUpTo(lens, root, k - 1, n) + CountIn(lens, root, k - 1, n)
  }

  /** A code is in one block at most. */
  lemma {:induction false} CountedOnce(lens: seq<nat>, root: nat, k: nat, q: nat)
    ensures CountUpTo(lens, root, k, q + 1) <= CountUpTo(lens, root, k, q) + 1
    ensures (forall b :: 0 <= b < k ==> !InBlockOf(lens, root, b, q)) ==>
              CountUpTo(lens, root, k, q + 1) == CountUpTo(lens, root, k, q)
    decreases k
  {
    hide Block;
    if k > 0 {
      CountedOnce(lens, root, k - 1, q);
    }
  }

  lemma {:induction false} CountBound(lens: seq<nat>, root: nat, k: nat, n: nat)
    ensures CountUpTo(lens, root, k, n) <= n
    decreases n
  {
    if n == 0 {
      CountNothing(lens, root, k);
    } else {
      CountBound(lens, root, k, n - 1);
      CountedOnce(lens, root, k, n - 1);
    }
  }

  lemma {:induction false} CountNothing(lens: seq<nat>, root: nat, k: nat)
    ensures CountUpTo(lens, root, k, 0) == 0
  {
    if k > 0 {
      CountNothing(lens, root, k - 1);
    }
  }

  /** A sub-table costs no more than half of the largest possible one for each of its codes. */
  lemma BlockCost(lens: seq<nat>, root: nat, b: nat, deepest: nat)
    requires Complete(lens) && root <= MAX_BITS && MaxLen(lens) <= root + deepest
    ensures 2 * SubSize(Depth(lens, root, b)) <= CountIn(lens, root, b, |lens|) * Pow2(deepest)
  {
    hide Space, InBlockOf, Pow2, DepthOf, CountIn;
    var d := Depth(lens, root, b);
    if d == 0 {
      NotNegative(CountIn(lens, root, b, |lens|), Pow2(deepest));
    } else {
      var q := DepthReached(lens, root, b, |lens|);
      var o := SharesBlock(lens, root, b, q);
      InRange(lens, root, b, o);
      if o < q {
        CountsTwo(lens, root, b, |lens|, o, q);
      } else {
        CountsTwo(lens, root, b, |lens|, q, o);
      }
      Pow2Monotone(d, deepest);
      MulAtMost(2, CountIn(lens, root, b, |lens|), Pow2(deepest));
    }
  }

  lemma NotNegative(a: nat, b: nat)
    ensures a * b >= 0
  {
  }

  lemma InRange(lens: seq<nat>, root: nat, b: nat, q: nat)
    requires InBlockOf(lens, root, b, q)
    ensures q < |lens|
  {
  }

  lemma {:induction false} SizeBoundUpTo(lens: seq<nat>, root: nat, k: nat, deepest: nat)
    requires Complete(lens) && root <= MAX_BITS && MaxLen(lens) <= root + deepest
    ensures 2 * (SizeUpTo(lens, root, k) - Pow2(root)) <= CountUpTo(lens, root, k, |lens|) * Pow2(deepest)
    decreases k
  {
    hide Complete, Depth, CountIn, MaxLen, SubSize, Pow2;
    if k > 0 {
      SizeBoundUpTo(lens, root, k - 1, deepest);
      BlockCost(lens, root, k - 1, deepest);
      var a, b, p := CountUpTo(lens, root, k - 1, |lens|), CountIn(lens, root, k - 1, |lens|), Pow2(deepest);
      assert (a + b) * p == a * p + b * p;
    } else {
      NotNegative(CountUpTo(lens, root, k, |lens|), Pow2(deepest));
    }
  }

  /**
   With complete lengths up to `deepest` more than the index, the sub-tables take at most `2^(deepest-1)` entries a
   symbol.
   */
  lemma SizeBound(lens: seq<nat>, root: nat, deepest: nat)
    requires Complete(lens) && root <= MAX_BITS && MaxLen(lens) <= root + deepest
    ensures 2 * (TableSize(lens, root) - Pow2(root)) <= |lens| * Pow2(deepest)
  {
    hide Complete, CountUpTo, SizeUpTo, MaxLen, Pow2;
    SizeBoundUpTo(lens, root, Pow2(root), deepest);
    CountBound(lens, root, Pow2(root), |lens|);
    MulAtMost(CountUpTo(lens, root, Pow2(root), |lens|), |lens|, Pow2(deepest));
  }

  /** One more length: the codes of `l` take at most the space of as many of the shortest codes. */
  lemma SpaceOfLength(n: nat, c: nat, space: nat, small: nat, p: nat)
    requires space <= n * p && (c == 0 || small <= p)
    ensures space + c * small <= (n + c) * p
  {
    if c > 0 {
      MulAtMost(small, p, c);
    }
    assert (n + c) * p == n * p + c * p;
  }

  lemma {:induction false} SpaceOfMany(lens: seq<nat>, min: nat, l: nat)
    requires min <= MAX_BITS && 1 <= l <= MAX_BITS + 1 && forall k :: 1 <= k < min ==> Codes(lens, k) == 0
    ensures Space(lens, l) <= Offset(lens, l) * Pow2(MAX_BITS - min)
    decreases l
  {
    hide Codes, Pow2, Offset, Space;
    if l == 1 {
      assert Space(lens, l) == 0 by { NoSpace(lens); }
      NotNegative(Offset(lens, l), Pow2(MAX_BITS - min));
    } else {
      SpaceOfMany(lens, min, l - 1);
      if l - 1 >= min {
        Pow2Monotone(MAX_BITS + 1 - l, MAX_BITS - min);
      }
      OffsetStep(lens, l - 1);
      SpaceStep(lens, l);
      SpaceOfLength(Offset(lens, l - 1), Codes(lens, l - 1), Space(lens, l - 1), Pow2(MAX_BITS + 1 - l),
                    Pow2(MAX_BITS - min));
    }
  }

  lemma NoSpace(lens: seq<nat>)
    ensures Space(lens, 1) == 0
  {
  }

  /** Complete lengths of at least `min` bits need at least `2^min` codes. */
  lemma CompleteNeedsMany(lens: seq<nat>)
    requires Complete(lens) && MinLen(lens) <= MAX_BITS
    ensures |lens| >= Pow2(MinLen(lens))
  {
    hide Space, Pow2, Offset, Count;
    var min := MinLen(lens);
    forall k | 1 <= k < min
      ensures Codes(lens, k) == 0
    {
      if Codes(lens, k) > 0 {
        assert lens[..|lens|] == lens;
        var o := SymbolOfRank(lens, |lens|, k, 0);
      }
    }
    SpaceOfMany(lens, min, MAX_BITS + 1);
    OffsetBound(lens, |lens|, MAX_BITS + 1);
    assert lens[..|lens|] == lens;
    var n, p := |lens|, Pow2(MAX_BITS - min);
    MulAtMost(Offset(lens, MAX_BITS + 1), n, p);
    assert min + (MAX_BITS - min) == MAX_BITS;
    Pow2Add(min, MAX_BITS - min);
    if n < Pow2(min) {
      MulAtMost(n + 1, Pow2(min), p);
      OneMore(n, p);
    }
  }

  /** The tables of the program fit their limits whenever the root index is at most a few bits short. */
  lemma TablesFit(kind: Kind, lens: seq<nat>)
    requires Complete(lens) && |lens| <= Symbols(kind) && !kind.CodeLengths?
    requires MaxLen(lens) <= if kind.Literals? then 10 else 11
    ensures !Exceeds(kind, TableSize(lens, RootBits(lens, if kind.Literals? then 9 else 6)))
  {
    hide Complete, Pow2, SizeUpTo;
    var bits, deepest := if kind.Literals? then 9 else 6, if kind.Literals? then 1 else 5;
    SmallPowers();
    CompleteNeedsMany(lens);
    if MinLen(lens) > bits {
      Pow2Monotone(bits, MinLen(lens));
    }
    var root := RootBits(lens, bits);
    if MaxLen(lens) <= bits {
      assert root <= bits;
      Pow2Monotone(root, bits);
      if MaxLen(lens) <= root {
        OnlyRoot(lens, root);
      }
    } else {
      assert root == bits;
      SizeBound(lens, bits, deepest);
      MulAtMost(|lens|, Symbols(kind), Pow2(deepest));
    }
  }
}
