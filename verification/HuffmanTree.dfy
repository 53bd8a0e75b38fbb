/**
 The loops that assign and check canonical codes in place: `Op`, `Tp` and the over-subscription check
 at the head of the table builder (crates/execution/assets/v8-bridge-zlib.js, line 67).
 */
module HuffmanTree {
  import opened Wire
  import opened BitString
  import opened Huffman

  lemma {:induction false} ShrNext(c: nat, k: nat)
    ensures Shr(c, k) / 2 == Shr(c, k + 1)
    decreases k
  {
    if k > 0 {
      ShrNext(c / 2, k - 1);
    }
  }

  /** One more bit is reversed by appending it at the low end. */
  lemma {:induction false} ReverseNext(c: nat, k: nat)
    ensures Reverse(c, k + 1) == 2 * Reverse(c, k) + Shr(c, k) % 2
    decreases k
  {
    if k == 0 {
      assert Reverse(c / 2, 0) == 0;
    } else {
      ReverseNext(c / 2, k - 1);
    }
  }

  lemma OrLowBit(a: nat, b: nat)
    requires a % 2 == 0 && b < 2
    ensures Or(a, b) == a + b
  {
    if a > 0 && b == 1 {
      assert Or(a / 2, 0) == a / 2;
    }
  }

  /** `Op`: the loop shifts bits out of one number and into the other. */
  method BiReverse(code: nat, len: nat) returns (res: nat)
    requires len > 0
    ensures res == Reverse(code, len)
  {
    hide Or, Shr, Reverse;
    var c, left := code, len;
    ghost var k := 0;
    res := 0;
    assert Shr(code, 0) == code && Reverse(code, 0) == 0 by { AtZero(code); }
    while left > 0
      invariant k + left == len && c == Shr(code, k) && res == 2 * Reverse(code, k)
    {
      OrLowBit(res, c % 2);
      ReverseNext(code, k);
      ShrNext(code, k);
      res := Or(res, c % 2);
      c := c / 2;
      res := 2 * res;
      left := left - 1;
      k := k + 1;
    }
    res := res / 2;
  }

  lemma AtZero(code: nat)
    ensures Shr(code, 0) == code && Reverse(code, 0) == 0
  {
  }

  /** Two neighbouring cells of a tree array: a symbol's code and its length. */
  datatype Node = Node(code: nat, len: nat)

  ghost function LensOf(tree: seq<Node>): (lens: seq<nat>)
    ensures |lens| == |tree|
    ensures forall o :: 0 <= o < |tree| ==> lens[o] == tree[o].len
  {
    seq(|tree|, o requires 0 <= o < |tree| => tree[o].len)
  }

  /**
   `Tp`: every symbol with a length gets the reversal of its canonical code; lengths, symbols
   without a length and everything behind the last symbol stay as they are.
   */
  method GenCodes(tree: array<Node>, n: nat, blCount: seq<nat>)
    requires n <= tree.Length && |blCount| == MAX_BITS + 1
    requires LengthsOk(LensOf(tree[..n]))
    requires forall l :: 0 <= l <= MAX_BITS ==> blCount[l] == Codes(LensOf(tree[..n]), l)
    modifies tree
    ensures LensOf(tree[..n]) == old(LensOf(tree[..n]))
    ensures forall o :: 0 <= o < n && Used(LensOf(tree[..n]), o) ==>
      tree[o].code == Reverse(Code(LensOf(tree[..n]), o), tree[o].len)
    ensures forall o :: 0 <= o < tree.Length && (o >= n || tree[o].len == 0) ==> tree[o] == old(tree[o])
  {
    hide Reverse, Code, First, Count;
    ghost var lens := LensOf(tree[..n]);
    var next := FirstCodes(lens, blCount);
    assert forall l :: 1 <= l <= MAX_BITS ==> Count(lens[..0], l) == 0 by { CountNone(lens); }
    for o := 0 to n
      invariant |next| == MAX_BITS + 1
      invariant forall i :: o <= i < tree.Length ==> tree[i] == old(tree[i])
      invariant forall l :: 1 <= l <= MAX_BITS ==> next[l] == First(lens, l) + Count(lens[..o], l)
      invariant forall p :: 0 <= p < o ==> tree[p].len == lens[p]
      invariant forall p :: 0 <= p < o && Used(lens, p) ==> tree[p].code == Reverse(Code(lens, p), lens[p])
      invariant forall p :: 0 <= p < o && lens[p] == 0 ==> tree[p] == old(tree[p])
    {
      var len := tree[o].len;
      assert len == lens[o];
      if len != 0 {
        assert next[len] == Code(lens, o) by { CodeIs(lens, o); }
        var code := BiReverse(next[len], len);
        tree[o] := Node(code, len);
        next := next[len := next[len] + 1];
      }
      forall l: nat | 1 <= l <= MAX_BITS
        ensures next[l] == First(lens, l) + Count(lens[..o + 1], l)
      {
        CountNext(lens, o, l);
      }
    }
    assert LensOf(tree[..n]) == lens;
  }

  lemma CountNone(lens: seq<nat>)
    ensures forall l :: 1 <= l <= MAX_BITS ==> Count(lens[..0], l) == 0
  {
    assert lens[..0] == [];
  }

  lemma CodeIs(lens: seq<nat>, o: nat)
    requires Used(lens, o)
    ensures Code(lens, o) == First(lens, lens[o]) + Rank(lens, o) && Rank(lens, o) == Count(lens[..o], lens[o])
  {
  }

  lemma FirstStep(lens: seq<nat>, l: nat)
    requires l > 0
    ensures First(lens, l) == 2 * (First(lens, l - 1) + Codes(lens, l - 1))
  {
  }

  /** The first loop of `Tp`. */
  method FirstCodes(ghost lens: seq<nat>, blCount: seq<nat>) returns (next: seq<nat>)
    requires |blCount| == MAX_BITS + 1
    requires forall l :: 0 <= l <= MAX_BITS ==> blCount[l] == Codes(lens, l)
    ensures |next| == MAX_BITS + 1
    ensures forall l :: 0 <= l <= MAX_BITS ==> next[l] == First(lens, l)
  {
    var code := 0;
    next := [0];
    assert First(lens, 0) == 0;
    hide Codes, First;
    for bits := 1 to MAX_BITS + 1
      invariant |next| == bits && code == First(lens, bits - 1)
      invariant forall l :: 0 <= l < bits ==> next[l] == First(lens, l)
    {
      FirstStep(lens, bits);
      code := 2 * (code + blCount[bits - 1]);
      next := next + [code];
    }
  }

  /** The counting loop at the head of the table builder. */
  method CountLengths(lens: seq<nat>) returns (count: array<nat>)
    requires LengthsOk(lens)
    ensures fresh(count) && count.Length == MAX_BITS + 1
    ensures forall l :: 0 <= l <= MAX_BITS ==> count[l] == Count(lens, l)
  {
    count := new nat[MAX_BITS + 1](_ => 0);
    assert lens[..0] == [];
    for c := 0 to |lens|
      invariant forall l :: 0 <= l <= MAX_BITS ==> count[l] == Count(lens[..c], l)
    {
      forall l: nat | l <= MAX_BITS
        ensures Count(lens[..c + 1], l) == Count(lens[..c], l) + if lens[c] == l then 1 else 0
      {
        CountNext(lens, c, l);
      }
      count[lens[c]] := count[lens[c]] + 1;
    }
    assert lens[..|lens|] == lens;
  }

  /**
   The over-subscription check: `left` halves the remaining code space at each length. It fails
   exactly on over-subscribed lengths, and what it leaves is the space no code takes.
   */
  method CheckSpace(ghost lens: seq<nat>, count: array<nat>) returns (left: Option<nat>)
    requires count.Length == MAX_BITS + 1
    requires forall l :: 0 <= l <= MAX_BITS ==> count[l] == Count(lens, l)
    ensures left.Some? <==> NotOversubscribed(lens)
    ensures left.Some? ==> left.value == Pow2(MAX_BITS) - Space(lens, MAX_BITS + 1)
  {
    hide Space, Pow2, Count;
    var w := 1;
    assert 1 * Pow2(MAX_BITS) + Space(lens, 1) == Pow2(MAX_BITS) by { SpaceStart(lens); }
    for l := 1 to MAX_BITS + 1
      invariant w >= 0
      invariant w * Pow2(MAX_BITS + 1 - l) + Space(lens, l) == Pow2(MAX_BITS)
    {
      PowStep(MAX_BITS - l);
      SpaceStep(lens, l + 1);
      var n, p := count[l], Pow2(MAX_BITS - l);
      assert w * (2 * p) == (2 * w - n) * p + n * p;
      w := 2 * w - n;
      if w < 0 {
        assert w * p < 0;
        SpaceMonotone(lens, l + 1, MAX_BITS + 1);
        return None;
      }
    }
    assert Pow2(0) == 1 by { PowZero(); }
    return Some(w);
  }

  lemma SpaceStart(lens: seq<nat>)
    ensures Space(lens, 1) == 0
  {
  }

  lemma PowZero()
    ensures Pow2(0) == 1
  {
  }
}
