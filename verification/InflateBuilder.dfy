/**
 The builder of the inflate tables (`Vt`, crates/execution/assets/v8-bridge-zlib.js, line 67) as it runs: the codes
 are entered in code order, and a sub-table is opened whenever a longer code begins a new block.
 */
module InflateBuilder {
  import opened Wire
  import opened BitString
  import opened Huffman
  import opened HuffmanTree
  import opened HuffmanTable
  import opened InflateSize
  import opened InflateTable

  // ---------------------------------------------------------------------
  // How large a sub-table has to be
  // ---------------------------------------------------------------------

  /** Where the strings of the next code begin when `taken` codes of length `len` have been entered. */
  function Pos(lens: seq<nat>, len: nat, taken: nat): (n: nat)
    requires 1 <= len <= MAX_BITS
  {
    Space(lens, len) + taken * Pow2(MAX_BITS - len)
  }

  lemma PosOf(lens: seq<nat>, o: nat)
    requires Used(lens, o)
    ensures Low(lens, o) == Pos(lens, lens[o], Rank(lens, o))
  {
    hide Space, Rank, Low, Pow2;
    LowAt(lens, o);
  }

  /** Every code of the block fits the sub-table. */
  ghost predicate Fits(lens: seq<nat>, root: nat, b: nat, bits: nat) {
    forall q: nat :: InBlockOf(lens, root, b, q) ==> lens[q] - root <= bits
  }

  /** If the codes up to some length reach the end of the block, no longer code is in it. */
  lemma FitsIfReached(lens: seq<nat>, root: nat, b: nat, bits: nat)
    requires root + bits <= MAX_BITS
    requires (b + 1) * BlockSize(root) <= Space(lens, root + bits + 1) || Longest(lens, root + bits)
    ensures Fits(lens, root, b, bits)
  {
    hide Space, Block, BlockSize, Pow2, Low;
    forall q: nat | InBlockOf(lens, root, b, q)
      ensures lens[q] - root <= bits
    {
      if Longest(lens, root + bits) {
        NoLonger(lens, root + bits, q);
      } else if lens[q] > root + bits {
        InBlock(lens, q, root);
        WithinLength(lens, q);
        SpaceMonotone(lens, root + bits + 1, lens[q]);
      }
    }
  }

  /** The counts of the codes still to be entered, when `len` is the length of the next one. */
  ghost predicate Counted(lens: seq<nat>, count: array<nat>, len: nat)
    reads count
  {
    && len < count.Length == MAX_BITS + 1 && count[len] <= Codes(lens, len)
    && forall l :: len < l <= MAX_BITS ==> count[l] == Codes(lens, l)
  }

  /** How many codes of the length have been entered. */
  ghost function Taken(lens: seq<nat>, count: array<nat>, len: nat): (n: nat)
    requires Counted(lens, count, len)
    reads count
  {
    Codes(lens, len) - count[len]
  }

  /** A block that the codes shorter than `c` do not fill, but begin before, holds the first code of length `c`. */
  lemma FirstOfLength(lens: seq<nat>, root: nat, b: nat, c: nat) returns (q: nat)
    requires root < c <= MAX_BITS && Codes(lens, c) > 0
    requires b * BlockSize(root) <= Space(lens, c) < (b + 1) * BlockSize(root)
    ensures InBlockOf(lens, root, b, q) && lens[q] == c
  {
    hide Space, Block, BlockSize, Low, Pos, Count;
    assert lens[..|lens|] == lens;
    q := SymbolOfRank(lens, |lens|, c, 0);
    PosOf(lens, q);
    PosStart(lens, c);
    BlockAt(lens, q, root, b);
  }

  lemma PosStart(lens: seq<nat>, m: nat)
    requires 1 <= m <= MAX_BITS
    ensures Pos(lens, m, 0) == Space(lens, m)
  {
  }

  /** If a block is filled by the codes of length `c` and not before, or these are the last ones, there is one in it. */
  lemma Deepest(lens: seq<nat>, root: nat, b: nat, c: nat, max: nat) returns (q: nat)
    requires root < c <= max && Longest(lens, max) && b * BlockSize(root) <= Space(lens, c) < (b + 1) * BlockSize(root)
    requires c == max || (b + 1) * BlockSize(root) <= Space(lens, c + 1)
    ensures InBlockOf(lens, root, b, q) && lens[q] == c
  {
    hide Space, Block, BlockSize, Pow2, Count;
    SpaceStep(lens, c + 1);
    if Codes(lens, c) == 0 {
      Nothing(Pow2(MAX_BITS - c));
    }
    q := FirstOfLength(lens, root, b, c);
  }

  lemma Nothing(p: nat)
    ensures 0 * p == 0
  {
  }

  /** Where the codes of length `c` that are still to be entered begin. */
  function Rest(lens: seq<nat>, len: nat, pos: nat, c: nat): (n: nat)
    requires c <= MAX_BITS
  {
    if c == len then pos else Space(lens, c)
  }

  /** They take all the space up to the next length. */
  lemma RestTakes(lens: seq<nat>, count: array<nat>, len: nat, pos: nat, c: nat)
    requires 1 <= len <= c <= MAX_BITS && Counted(lens, count, len) && pos == Pos(lens, len, Taken(lens, count, len))
    ensures Rest(lens, len, pos, c) + count[c] * Pow2(MAX_BITS - c) == Space(lens, c + 1)
  {
    hide Space, Pow2, Count;
    SpaceStep(lens, c + 1);
    if c == len {
      Shares(Codes(lens, c), count[c], Pow2(MAX_BITS - c));
    }
  }

  /** One round of the loop: what is left of the block after the codes of one more length. */
  lemma Narrowed(left: int, n: nat, c: nat, rest: nat, end: nat, space: nat)
    requires c < MAX_BITS && left * Pow2(MAX_BITS - c) == end - rest && rest + n * Pow2(MAX_BITS - c) == space
    ensures left - n <= 0 ==> end <= space
    ensures left - n > 0 ==> space < end && (left - n) * 2 * Pow2(MAX_BITS - (c + 1)) == end - space
    ensures rest <= space
  {
    hide Pow2;
    var p := Pow2(MAX_BITS - c);
    Shares(left, n, p);
    NotBelow(n, p);
    if left - n <= 0 {
      NotAbove(left - n, p);
    } else {
      Positive(left - n, p);
    }
    PowStep(MAX_BITS - (c + 1));
    Halved(left - n, Pow2(MAX_BITS - (c + 1)));
  }

  /** The loop that looks for the index bits of a new sub-table finds how far the longest code of the block goes on. */
  method SubTableBits(ghost lens: seq<nat>, count: array<nat>, len: nat, root: nat, max: nat, ghost b: nat,
                      ghost o: nat)
    returns (curr: nat)
    requires root < len <= max && Longest(lens, max) && Counted(lens, count, len)
    requires InBlockOf(lens, root, b, o) && lens[o] == len
    requires Pos(lens, len, Taken(lens, count, len)) == b * BlockSize(root)
    ensures len - root <= curr && curr + root <= max && Fits(lens, root, b, curr)
    ensures curr == Depth(lens, root, b)
  {
    hide Space, Pow2, Count, Fits, Depth, InBlockOf, BlockSize, Pos, Codes;
    curr := len - root;
    var left: int := Pow2(curr);
    ghost var pos := b * BlockSize(root);
    ghost var q := o;
    OneMore(b, BlockSize(root));
    BlockPart(root, len);
    while curr + root < max
      invariant len <= curr + root <= max
      invariant left * Pow2(MAX_BITS - (curr + root)) == pos + BlockSize(root) - Rest(lens, len, pos, curr + root)
      invariant pos <= Rest(lens, len, pos, curr + root) < pos + BlockSize(root)
      decreases max - curr
    {
      RestTakes(lens, count, len, pos, curr + root);
      Narrowed(left, count[curr + root], curr + root, Rest(lens, len, pos, curr + root), pos + BlockSize(root),
               Space(lens, curr + root + 1));
      left := left - count[curr + root];
      if left <= 0 {
        break;
      }
      curr := curr + 1;
      left := left * 2;
    }
    FitsIfReached(lens, root, b, curr);
    if curr + root > len {
      q := Deepest(lens, root, b, curr + root, max);
    }
    DeepestFits(lens, root, b, curr, q);
  }

  lemma BlockPart(root: nat, len: nat)
    requires root < len <= MAX_BITS
    ensures Pow2(len - root) * Pow2(MAX_BITS - len) == BlockSize(root)
  {
    hide Pow2;
    assert (len - root) + (MAX_BITS - len) == MAX_BITS - root;
    Pow2Add(len - root, MAX_BITS - len);
  }

  lemma DeepestFits(lens: seq<nat>, root: nat, b: nat, bits: nat, q: nat)
    requires Fits(lens, root, b, bits) && InBlockOf(lens, root, b, q) && lens[q] - root == bits
    ensures Depth(lens, root, b) == bits
  {
    hide Depth, Block;
    DepthIs(lens, root, b, q);
  }

  lemma NotBelow(a: nat, p: nat)
    ensures a * p >= 0
  {
  }

  lemma Positive(a: int, p: nat)
    requires a > 0 && p > 0
    ensures a * p > 0
  {
  }

  lemma Shares(a: int, b: int, p: nat)
    ensures (a - b) * p == a * p - b * p
  {
  }

  lemma NotAbove(a: int, p: nat)
    requires a <= 0
    ensures a * p <= 0
  {
  }

  lemma Halved(a: int, p: nat)
    ensures a * (2 * p) == a * 2 * p
  {
  }

  // ---------------------------------------------------------------------
  // Entering the codes
  // ---------------------------------------------------------------------

  /**
   The table that codes go into now, where it starts and by how many bits it is indexed; how many entries are in use;
   and the root index that leads to it.
   */
  datatype Current = Current(next: nat, curr: nat, used: nat, low: Option<nat>)

  /** The sub-tables by block, and the block that is being filled. */
  datatype Plan = Plan(subs: map<nat, Sub>, blk: nat)

  /** The table for the code that begins at `pos` is set up: the root table, or the sub-table of its block. */
  ghost predicate Ready(lens: seq<nat>, root: nat, len: nat, pos: nat, c: Current, p: Plan)
    requires root <= MAX_BITS
  {
    if len <= root then
      c == Current(0, root, Pow2(root), None) && p.subs == map[] && pos == p.blk * BlockSize(root)
    else
      && InTable(lens, root, c, p)
      && p.blk * BlockSize(root) <= pos < (p.blk + 1) * BlockSize(root)
  }

  /**
   The sub-table of the block is the current one and the last one, and every block up to it that needs one has one.
   */
  ghost predicate InTable(lens: seq<nat>, root: nat, c: Current, p: Plan) {
    && c.low == Some(Reverse(p.blk, root)) && p.blk in p.subs && p.subs[p.blk] == Sub(c.next, c.curr)
    && c.used == c.next + Pow2(c.curr) && c.used == SizeUpTo(lens, root, p.blk + 1)
    && (forall b :: b in p.subs ==> b <= p.blk) && Fits(lens, root, p.blk, c.curr)
  }

  /** The entries of one symbol are written; no other symbol loses one, and nothing behind those in use is touched. */
  method EnterSymbol(kind: Kind, lens: seq<nat>, table: array<Entry>, root: nat, c: Current, huff: nat, o: nat,
                     ghost p: Plan)
    requires |lens| <= Symbols(kind) && NotOversubscribed(lens) && Used(lens, o) && huff == Rev(lens, o)
    requires Laid(table[..], root, p.subs, c.used)
    requires lens[o] <= root ==> c.next == 0 && c.curr == root && p.subs == map[]
    requires lens[o] > root ==>
      var b := Block(lens, o, root);
      b in p.subs && p.subs[b] == Sub(c.next, c.curr) && lens[o] - root <= c.curr
    modifies table
    ensures Keeps(kind, lens, old(table[..]), table[..], root, p.subs, c.used, o)
  {
    hide Mask, Shr, Reverse, Code, Space, Pow2, Op, Val, Block, Starts, Entered, Filled, Keeps;
    ghost var before := table[..];
    var len := lens[o];
    if len <= root {
      Fill(table, 0, root, huff, len, SymbolEntry(kind, o, len));
      EnteredAtRoot(kind, lens, before, table[..], root, p.subs, c.used, o);
    } else {
      assert root + (len - root) == len;
      ShrBelow(huff, root, len - root);
      Fill(table, c.next, c.curr, Shr(huff, root), len - root, SymbolEntry(kind, o, len - root));
      EnteredInSub(kind, lens, before, table[..], root, p.subs, c.used, o);
    }
  }

  /** What entering a symbol does to the table. */
  ghost predicate Keeps(kind: Kind, lens: seq<nat>, before: seq<Entry>, after: seq<Entry>, root: nat,
                        subs: map<nat, Sub>, used: nat, o: nat)
    requires |lens| <= Symbols(kind) && Used(lens, o)
  {
    && |before| == |after| && Laid(after, root, subs, used) && Entered(kind, lens, after, root, subs, o)
    && (forall q: nat :: Used(lens, q) && Entered(kind, lens, before, root, subs, q) ==>
        Entered(kind, lens, after, root, subs, q))
    && (forall i: nat :: used <= i < |after| ==> after[i] == before[i])
  }

  lemma EnteredAtRoot(kind: Kind, lens: seq<nat>, before: seq<Entry>, after: seq<Entry>, root: nat,
                      subs: map<nat, Sub>, used: nat, o: nat)
    requires |lens| <= Symbols(kind) && NotOversubscribed(lens) && Used(lens, o) && lens[o] <= root && subs == map[]
    requires Laid(before, root, subs, used)
    requires Filled(before, after, 0, root, Rev(lens, o), lens[o], SymbolEntry(kind, o, lens[o]))
    ensures Keeps(kind, lens, before, after, root, subs, used, o)
  {
    hide Mask, Reverse, Code, Space, Pow2, Op, Val, Block;
    forall y: nat | y < Pow2(root) && Starts(lens, o, y)
      ensures after[y] == SymbolEntry(kind, o, lens[o])
    {
      assert Ends(y, lens[o], Rev(lens, o));
      assert after[0 + y] == SymbolEntry(kind, o, lens[o]);
    }
    assert AtRoot(kind, lens, after, root, o);
    forall q: nat | Used(lens, q) && Entered(kind, lens, before, root, subs, q)
      ensures Entered(kind, lens, after, root, subs, q)
    {
      if q != o {
        RootFillKeeps(kind, lens, before, after, root, o, q);
      }
    }
  }

  lemma EnteredInSub(kind: Kind, lens: seq<nat>, before: seq<Entry>, after: seq<Entry>, root: nat, subs: map<nat, Sub>,
                     used: nat, o: nat)
    requires |lens| <= Symbols(kind) && NotOversubscribed(lens) && Used(lens, o) && lens[o] > root
    requires Laid(before, root, subs, used) && Block(lens, o, root) in subs
    requires lens[o] - root <= subs[Block(lens, o, root)].bits
    requires var s := subs[Block(lens, o, root)];
             Filled(before, after, s.start, s.bits, Shr(Rev(lens, o), root), lens[o] - root,
                    SymbolEntry(kind, o, lens[o] - root))
    ensures Keeps(kind, lens, before, after, root, subs, used, o)
  {
    hide Shr, Reverse, Code, Space, Pow2, Op, Val, Block, Ends, Rev;
    assert InSub(kind, lens, after, root, subs, o);
    forall q: nat | Used(lens, q) && Entered(kind, lens, before, root, subs, q)
      ensures Entered(kind, lens, after, root, subs, q)
    {
      if q != o {
        SubFillKeeps(kind, lens, before, after, root, subs, used, o, q);
      }
    }
    assert Laid(after, root, subs, used);
  }

  /** A new sub-table behind the last one, linked from the root entry of its block. */
  lemma LinkLays(table: seq<Entry>, root: nat, subs: map<nat, Sub>, used: nat, b: nat, bits: nat)
    requires Laid(table, root, subs, used) && b !in subs && b < Pow2(root) && 0 < bits < 16
    requires used + Pow2(bits) <= |table|
    ensures Reverse(b, root) < |table|
    ensures Laid(table[Reverse(b, root) := Entry(root, bits, used)], root, subs[b := Sub(used, bits)],
                 used + Pow2(bits))
  {
    hide Reverse, Pow2;
    var p := Reverse(b, root);
    forall a | a in subs
      ensures Reverse(a, root) != p
    {
      if Reverse(a, root) == p {
        ReverseInjective(a, b, root);
      }
    }
  }

  // ---------------------------------------------------------------------
  // The filling loop
  // ---------------------------------------------------------------------

  lemma {:induction false} SpaceSkip(lens: seq<nat>, l: nat, m: nat)
    requires 1 <= l < m <= MAX_BITS + 1 && forall k :: l < k < m ==> Codes(lens, k) == 0
    ensures Space(lens, m) == Space(lens, l + 1)
    decreases m
  {
    if m > l + 1 {
      SpaceSkip(lens, l, m - 1);
    }
  }

  /** The strings of the next code begin where those of the last one end. */
  lemma PosNext(lens: seq<nat>, len: nat, taken: nat)
    requires 1 <= len <= MAX_BITS
    ensures Pos(lens, len, taken + 1) == Pos(lens, len, taken) + Pow2(MAX_BITS - len)
    ensures Pos(lens, len, Codes(lens, len)) == Space(lens, len + 1)
  {
    hide Space, Pow2, Codes;
    OneMore(taken, Pow2(MAX_BITS - len));
    SpaceStep(lens, len + 1);
  }

  /** As long as codes fit the root index, they begin at a block. */
  lemma StaysAligned(blk: nat, root: nat, len: nat)
    requires len <= root <= MAX_BITS
    ensures blk * BlockSize(root) + Pow2(MAX_BITS - len) == (blk + Pow2(root - len)) * BlockSize(root)
  {
    hide Pow2;
    assert (root - len) + (MAX_BITS - root) == MAX_BITS - len;
    Pow2Add(root - len, MAX_BITS - root);
    var a, p := Pow2(root - len), BlockSize(root);
    assert (blk + a) * p == blk * p + a * p;
  }

  /** The new position after a longer code: still within its block, or at the next one. */
  lemma AfterLong(lens: seq<nat>, o: nat, root: nat, blk: nat)
    requires Used(lens, o) && root < lens[o]
    requires blk * BlockSize(root) <= Low(lens, o) < (blk + 1) * BlockSize(root)
    ensures Block(lens, o, root) == blk
    ensures blk * BlockSize(root) <= Low(lens, o) + Size(lens, o) <= (blk + 1) * BlockSize(root)
  {
    hide Block, Low, BlockSize, Size;
    BlockAt(lens, o, root, blk);
    InBlock(lens, o, root);
  }

  /** Everything that holds before each round of the loop. */
  ghost predicate Round(kind: Kind, lens: seq<nat>, table: seq<Entry>, root: nat, subs: map<nat, Sub>, used: nat,
                        sym: nat)
    requires |lens| <= Symbols(kind)
  {
    && Laid(table, root, subs, used) && !Exceeds(kind, used)
    && forall q: nat :: Used(lens, q) && Place(lens, q) < sym ==> Entered(kind, lens, table, root, subs, q)
  }

  /** One symbol more has been entered. */
  lemma RoundNext(kind: Kind, lens: seq<nat>, before: seq<Entry>, after: seq<Entry>, root: nat, subs: map<nat, Sub>,
                  used: nat, o: nat)
    requires |lens| <= Symbols(kind) && Used(lens, o) && Round(kind, lens, before, root, subs, used, Place(lens, o))
    requires Keeps(kind, lens, before, after, root, subs, used, o)
    ensures Round(kind, lens, after, root, subs, used, Place(lens, o) + 1)
  {
    hide Entered, Laid, Place;
    forall q: nat | Used(lens, q) && Place(lens, q) < Place(lens, o) + 1
      ensures Entered(kind, lens, after, root, subs, q)
    {
      if q != o {
        PlaceInjective(lens, q, o);
      }
    }
  }

  /** A new sub-table has been linked for the block of the next symbol. */
  lemma RoundLinked(kind: Kind, lens: seq<nat>, table: seq<Entry>, root: nat, subs: map<nat, Sub>, used: nat, o: nat,
                    bits: nat)
    requires |lens| <= Symbols(kind) && NotOversubscribed(lens) && Used(lens, o) && root < lens[o]
    requires Round(kind, lens, table, root, subs, used, Place(lens, o)) && Block(lens, o, root) !in subs
    requires 0 < bits < 16
    requires used + Pow2(bits) <= |table| && !Exceeds(kind, used + Pow2(bits))
    ensures var b := Block(lens, o, root);
            Reverse(b, root) < |table| &&
            Round(kind, lens, table[Reverse(b, root) := Entry(root, bits, used)], root, subs[b := Sub(used, bits)],
                  used + Pow2(bits), Place(lens, o))
  {
    hide Entered, Laid, Place, Reverse, Block, Pow2, Space;
    var b := Block(lens, o, root);
    BlockBelow(lens, o, root);
    LinkLays(table, root, subs, used, b, bits);
    forall q: nat | Used(lens, q) && Place(lens, q) < Place(lens, o)
      ensures Entered(kind, lens, table[Reverse(b, root) := Entry(root, bits, used)], root,
                      subs[b := Sub(used, bits)], q)
    {
      LinkKeeps(kind, lens, table, root, subs, used, o, Sub(used, bits), q);
    }
  }

  /** The symbol at a place. */
  lemma SymbolAt(lens: seq<nat>, work: seq<nat>, len: nat, taken: nat) returns (o: nat)
    requires Sorted(lens, work) && 1 <= len <= MAX_BITS && taken < Codes(lens, len)
    ensures Used(lens, o) && lens[o] == len && Place(lens, o) == Offset(lens, len) + taken
    ensures Place(lens, o) < |work| && work[Place(lens, o)] == o
    ensures Rev(lens, o) == Reverse(First(lens, len) + taken, len) && Low(lens, o) == Pos(lens, len, taken)
  {
    hide Offset, First, Reverse, Low, Pos, Count, Code;
    assert lens[..|lens|] == lens;
    o := SymbolOfRank(lens, |lens|, len, taken);
    CodeIs(lens, o);
    PosOf(lens, o);
  }

  /** A longer code begins in the block that goes on, or begins the next one. */
  lemma BlockOfNext(lens: seq<nat>, o: nat, root: nat, blk: nat, low: Option<nat>)
    requires Used(lens, o) && root < lens[o] && NotOversubscribed(lens)
    requires blk * BlockSize(root) <= Low(lens, o) <= (blk + 1) * BlockSize(root)
    requires low == Some(Reverse(blk, root)) && blk < Pow2(root)
    ensures Block(lens, o, root) == if Low(lens, o) == (blk + 1) * BlockSize(root) then blk + 1 else blk
    ensures low == Some(Mask(Rev(lens, o), root)) <==> Block(lens, o, root) == blk
  {
    hide Block, Low, BlockSize, Reverse, Mask, Rev, Pow2, Space;
    OneMore(blk + 1, BlockSize(root));
    BlockAt(lens, o, root, if Low(lens, o) == (blk + 1) * BlockSize(root) then blk + 1 else blk);
    BlockBelow(lens, o, root);
    if Reverse(Block(lens, o, root), root) == Reverse(blk, root) {
      ReverseInjective(Block(lens, o, root), blk, root);
    }
  }

  /** No longer code begins before this one. */
  ghost predicate FirstLong(lens: seq<nat>, root: nat, o: nat)
    requires Used(lens, o)
  {
    forall q: nat :: Used(lens, q) && root < lens[q] ==> Low(lens, o) <= Low(lens, q)
  }

  /** What is known of the tables when the next symbol `o` is still to be placed. */
  ghost predicate Between(lens: seq<nat>, root: nat, o: nat, c: Current, p: Plan)
    requires root <= MAX_BITS && Used(lens, o)
  {
    if c.low.None? then
      && c == Current(0, root, Pow2(root), None) && p.subs == map[] && Low(lens, o) == p.blk * BlockSize(root)
      && (root < lens[o] ==> FirstLong(lens, root, o))
    else
      && root < lens[o] && InTable(lens, root, c, p)
      && p.blk * BlockSize(root) <= Low(lens, o) <= (p.blk + 1) * BlockSize(root)
  }

  /** If `o` is the first longer code and begins its block, no block before it needs a sub-table. */
  lemma NoneBefore(lens: seq<nat>, root: nat, o: nat, b: nat)
    requires root <= MAX_BITS && Used(lens, o) && FirstLong(lens, root, o) && Low(lens, o) == b * BlockSize(root)
    ensures SizeUpTo(lens, root, b) == Pow2(root)
  {
    hide Block, Low, BlockSize, Pow2, Depth;
    forall k, q: nat | 0 <= k < b
      ensures !InBlockOf(lens, root, k, q)
    {
      if InBlockOf(lens, root, k, q) {
        InBlock(lens, q, root);
        MulAtMost(k + 1, b, BlockSize(root));
      }
    }
    SizeSkip(lens, root, 0, b);
  }

  /** Which block `o` begins or goes on with, and whether that block needs a new sub-table. */
  lemma Turn(lens: seq<nat>, root: nat, o: nat, c: Current, p: Plan) returns (b: nat)
    requires NotOversubscribed(lens) && Used(lens, o) && root < lens[o] && (p.blk in p.subs ==> p.blk < Pow2(root))
    requires Between(lens, root, o, c, p)
    ensures b == Block(lens, o, root) && b < Pow2(root) && Mask(Rev(lens, o), root) == Reverse(b, root)
    ensures b * BlockSize(root) <= Low(lens, o) < (b + 1) * BlockSize(root)
    ensures c.low == Some(Reverse(b, root)) ==> b == p.blk && b in p.subs
    ensures c.low != Some(Reverse(b, root)) ==>
      && b !in p.subs && Low(lens, o) == b * BlockSize(root) && c.used == SizeUpTo(lens, root, b)
      && forall a :: a in p.subs ==> a <= b
  {
    hide Block, Low, BlockSize, Reverse, Mask, Rev, Pow2, Space, Fits, SizeUpTo, FirstLong;
    b := Block(lens, o, root);
    InBlock(lens, o, root);
    BlockBelow(lens, o, root);
    if c.low.None? {
      OneMore(p.blk, BlockSize(root));
      BlockAt(lens, o, root, p.blk);
      NoneBefore(lens, root, o, p.blk);
    } else {
      BlockOfNext(lens, o, root, p.blk, c.low);
    }
  }

  /** A new sub-table for the block that begins with `o`, unless the tables get too large with it. */
  method OpenTable(kind: Kind, lens: seq<nat>, table: array<Entry>, count: array<nat>, root: nat, max: nat,
                   len: nat, huff: nat, used: nat, ghost subs: map<nat, Sub>, ghost b: nat, ghost o: nat)
    returns (ok: bool, curr: nat)
    requires |lens| <= Symbols(kind) && NotOversubscribed(lens) && Longest(lens, max) && 1 <= root < len <= max
    requires Used(lens, o) && lens[o] == len && huff == Rev(lens, o) && Counted(lens, count, len)
    requires Pos(lens, len, Taken(lens, count, len)) == b * BlockSize(root) && b == Block(lens, o, root) && b !in subs
    requires !kind.CodeLengths? && Limit(kind) <= table.Length && used == SizeUpTo(lens, root, b)
    requires Round(kind, lens, table[..], root, subs, used, Place(lens, o))
    modifies table
    ensures Fits(lens, root, b, curr) && used + Pow2(curr) == SizeUpTo(lens, root, b + 1)
    ensures ok <==> !Exceeds(kind, SizeUpTo(lens, root, b + 1))
    ensures ok ==> Round(kind, lens, table[..], root, subs[b := Sub(used, curr)], used + Pow2(curr), Place(lens, o))
    ensures forall i: nat :: Limit(kind) <= i < table.Length ==> table[i] == old(table[i])
  {
    hide Mask, Reverse, Rev, Pow2, Space, Low, Block, BlockSize, Place, Entered, Fits, Count, Pos, Laid, Depth,
      SizeUpTo;
    curr := SubTableBits(lens, count, len, root, max, b, o);
    SizeNext(lens, root, b);
    if Exceeds(kind, used + Pow2(curr)) {
      return false, curr;
    }
    LaidBelow(table[..], root, subs, used, b);
    BlockBelow(lens, o, root);
    RoundLinked(kind, lens, table[..], root, subs, used, o, curr);
    ghost var before := table[..];
    table[Mask(huff, root)] := Entry(root, curr, used);
    assert table[..] == before[Mask(huff, root) := Entry(root, curr, used)];
    return true, curr;
  }

  /** The end of a round: a sub-table is opened if the next code begins a new block behind the root table. */
  method NextTable(kind: Kind, lens: seq<nat>, table: array<Entry>, count: array<nat>, root: nat, max: nat,
                   len: nat, huff: nat, c: Current, ghost p: Plan, ghost o: nat)
    returns (ok: bool, c': Current, ghost p': Plan)
    requires |lens| <= Symbols(kind) && NotOversubscribed(lens) && Longest(lens, max) && 1 <= root <= max
    requires Used(lens, o) && lens[o] == len <= max && huff == Rev(lens, o) && Counted(lens, count, len)
    requires Low(lens, o) == Pos(lens, len, Taken(lens, count, len))
    requires root == max || (!kind.CodeLengths? && Limit(kind) <= table.Length)
    requires Round(kind, lens, table[..], root, p.subs, c.used, Place(lens, o)) && Between(lens, root, o, c, p)
    modifies table
    ensures ok ==> Round(kind, lens, table[..], root, p'.subs, c'.used, Place(lens, o))
    ensures ok ==> Ready(lens, root, len, Low(lens, o), c', p')
    ensures !ok ==> Exceeds(kind, TableSize(lens, root))
    ensures root == max ==> table[..] == old(table[..])
    ensures forall i: nat :: Limit(kind) <= i < table.Length ==> table[i] == old(table[i])
  {
    hide Mask, Reverse, Rev, Pow2, Space, Low, Block, BlockSize, Place, Round, Fits, Counted, Pos, SizeUpTo, FirstLong;
    ok, c', p' := true, c, p;
    if len > root {
      assert p.blk in p.subs ==> p.blk < Pow2(root) by {
        RoundBelow(kind, lens, table[..], root, p.subs, c.used, Place(lens, o), p.blk);
      }
      ghost var b := Turn(lens, root, o, c, p);
      if c.low != Some(Mask(huff, root)) {
        SizeMonotone(lens, root, b + 1, Pow2(root));
        var curr;
        ok, curr := OpenTable(kind, lens, table, count, root, max, len, huff, c.used, p.subs, b, o);
        if !ok {
          return;
        }
        c' := Current(c.next + Pow2(c.curr), curr, c.used + Pow2(curr), Some(Mask(huff, root)));
        p' := Plan(p.subs[b := Sub(c.used, curr)], b);
      }
    }
  }

  lemma RoundBelow(kind: Kind, lens: seq<nat>, table: seq<Entry>, root: nat, subs: map<nat, Sub>, used: nat, sym: nat,
                   b: nat)
    requires |lens| <= Symbols(kind) && Round(kind, lens, table, root, subs, used, sym)
    ensures b in subs ==> b < Pow2(root)
  {
    hide Entered;
    LaidBelow(table, root, subs, used, b);
  }

  lemma LaidBelow(table: seq<Entry>, root: nat, subs: map<nat, Sub>, used: nat, b: nat)
    requires Laid(table, root, subs, used)
    ensures b in subs ==> b < Pow2(root)
    ensures Pow2(root) <= used
  {
  }

  lemma {:induction false} NoSpaceBefore(lens: seq<nat>, min: nat)
    requires 1 <= min <= MAX_BITS + 1 && forall l :: 1 <= l < min ==> Codes(lens, l) == 0
    ensures Space(lens, min) == 0
    decreases min
  {
    if min > 1 {
      NoSpaceBefore(lens, min - 1);
    }
  }

  /** The next symbol after the one that was just entered: its place, its reversed code and where its strings begin. */
  lemma NextSymbol(lens: seq<nat>, work: seq<nat>, len: nat, taken: nat, m: nat) returns (o: nat)
    requires Sorted(lens, work) && 1 <= len <= m <= MAX_BITS && taken < Codes(lens, len)
    requires if m == len then taken + 1 < Codes(lens, len)
             else taken + 1 == Codes(lens, len) && Codes(lens, m) > 0 && forall k :: len < k < m ==> Codes(lens, k) == 0
    ensures Used(lens, o) && lens[o] == m && Place(lens, o) == Offset(lens, len) + taken + 1
    ensures Rev(lens, o) == Reverse(First(lens, len) + taken + 1, len)
    ensures m > len ==> Offset(lens, m) == Offset(lens, len) + taken + 1 && Rev(lens, o) == Reverse(First(lens, m), m)
    ensures Low(lens, o) == Pos(lens, m, if m == len then taken + 1 else 0) ==
      Pos(lens, len, taken) + Pow2(MAX_BITS - len)
  {
    hide Offset, First, Reverse, Low, Pos, Space, Pow2, Rev, Place, Count;
    o := SymbolAt(lens, work, m, if m == len then taken + 1 else 0);
    PosNext(lens, len, taken);
    if m > len {
      SkipEmpty(lens, len, m);
      OffsetStep(lens, len);
      SpaceSkip(lens, len, m);
      PosStart(lens, m);
    }
  }

  /** From `Ready` for one symbol to `Between` for the next one. */
  lemma Passed(lens: seq<nat>, root: nat, o: nat, o': nat, c: Current, p: Plan) returns (p': Plan)
    requires root <= MAX_BITS && Used(lens, o) && Used(lens, o') && lens[o] <= lens[o']
    requires Low(lens, o') == Low(lens, o) + Size(lens, o)
    requires lens[o] < lens[o'] ==>
      Low(lens, o') == Space(lens, lens[o']) && forall k :: lens[o] < k < lens[o'] ==> Codes(lens, k) == 0
    requires Ready(lens, root, lens[o], Low(lens, o), c, p)
    ensures Between(lens, root, o', c, p') && p'.subs == p.subs
  {
    hide Reverse, Pow2, Low, BlockSize, Fits, SizeUpTo, Space, Codes;
    if lens[o] <= root {
      p' := p.(blk := p.blk + Pow2(root - lens[o]));
      StaysAligned(p.blk, root, lens[o]);
      if root < lens[o'] {
        LongBegin(lens, root, lens[o], o');
      }
    } else {
      p' := p;
      AfterLong(lens, o, root, p.blk);
    }
  }

  /** The first code after the ones that fit the root index is the first longer one. */
  lemma LongBegin(lens: seq<nat>, root: nat, len: nat, o: nat)
    requires Used(lens, o) && len <= root < lens[o] && Low(lens, o) == Space(lens, lens[o])
    requires forall k :: len < k < lens[o] ==> Codes(lens, k) == 0
    ensures FirstLong(lens, root, o)
  {
    hide Low, Space, Count;
    forall q: nat | Used(lens, q) && root < lens[q]
      ensures Low(lens, o) <= Low(lens, q)
    {
      assert lens[..|lens|] == lens;
      RankBelow(lens, q, |lens|);
      assert Codes(lens, lens[q]) > 0;
      WithinLength(lens, q);
      SpaceMonotone(lens, lens[o], lens[q]);
    }
  }

  /** The first symbol. */
  lemma FirstReady(lens: seq<nat>, root: nat, min: nat)
    requires 1 <= min <= root <= MAX_BITS && forall l :: 1 <= l < min ==> Codes(lens, l) == 0
    ensures Ready(lens, root, min, Pos(lens, min, 0), Current(0, root, Pow2(root), None), Plan(map[], 0))
    ensures Offset(lens, min) == 0 && Reverse(First(lens, min), min) == 0
  {
    hide Space, Pow2, Codes;
    NoSpaceBefore(lens, min);
    PosStart(lens, min);
    StartOfCodes(lens, min);
  }

  lemma FirstRound(kind: Kind, lens: seq<nat>, table: seq<Entry>, root: nat)
    requires |lens| <= Symbols(kind) && Pow2(root) <= |table| && !Exceeds(kind, Pow2(root))
    ensures Round(kind, lens, table, root, map[], Pow2(root), 0)
  {
    hide Entered, Place;
  }

  /** The first half of a round: the symbol that is next in code order is entered. */
  method EnterNext(kind: Kind, lens: seq<nat>, table: array<Entry>, work: array<nat>, root: nat, sym: nat, len: nat,
                   huff: nat, c: Current, ghost taken: nat, ghost p: Plan)
    returns (ghost o: nat)
    requires |lens| <= Symbols(kind) && NotOversubscribed(lens) && root <= MAX_BITS
    requires 1 <= len <= MAX_BITS && taken < Codes(lens, len)
    requires Sorted(lens, work[..]) && table != work as object
    requires sym == Offset(lens, len) + taken && huff == Reverse(First(lens, len) + taken, len)
    requires Ready(lens, root, len, Pos(lens, len, taken), c, p)
    requires Round(kind, lens, table[..], root, p.subs, c.used, sym)
    modifies table
    ensures Used(lens, o) && lens[o] == len && Low(lens, o) == Pos(lens, len, taken)
    ensures Round(kind, lens, table[..], root, p.subs, c.used, sym + 1)
    ensures !kind.CodeLengths? ==> forall i: nat :: Limit(kind) <= i < table.Length ==> table[i] == old(table[i])
  {
    hide Offset, First, Reverse, Code, Space, Pow2, Place, Rev, Low, Pos, Ready, Round, Keeps, Laid, Codes;
    o := SymbolAt(lens, work[..], len, taken);
    assert work[sym] == o;
    ReadyTable(kind, lens, table[..], root, o, c, p);
    ghost var before := table[..];
    EnterSymbol(kind, lens, table, root, c, huff, work[sym], p);
    KeepsBeyond(kind, lens, before, table[..], root, p.subs, c.used, o);
    RoundNext(kind, lens, before, table[..], root, p.subs, c.used, o);
  }

  /**
   The second half of a round: on to the next length if this one has no more codes, and to the table of the next
   code.
   */
  method Advance(kind: Kind, lens: seq<nat>, table: array<Entry>, count: array<nat>, work: array<nat>, root: nat,
                 max: nat, sym: nat, len: nat, huff: nat, c: Current, ghost taken: nat, ghost p: Plan, ghost o: nat)
    returns (ok: bool, len': nat, c': Current, ghost p': Plan)
    requires |lens| <= Symbols(kind) && NotOversubscribed(lens) && Longest(lens, max)
    requires 1 <= len <= max && 1 <= root <= max
    requires Counted(lens, count, len) && Taken(lens, count, len) == taken + 1 && (count[len] == 0 ==> len < max)
    requires Sorted(lens, work[..]) && Used(lens, o) && lens[o] == len && Low(lens, o) == Pos(lens, len, taken)
    requires sym == Offset(lens, len) + taken + 1 && huff == Reverse(First(lens, len) + taken + 1, len)
    requires root == max || (!kind.CodeLengths? && Limit(kind) <= table.Length)
    requires Ready(lens, root, len, Pos(lens, len, taken), c, p)
    requires Round(kind, lens, table[..], root, p.subs, c.used, sym)
    requires table != count as object && table != work as object
    modifies table
    ensures len <= len' <= max && Counted(lens, count, len') && count[len'] > 0 && (count[len] == 0 ==> len < len')
    ensures sym == Offset(lens, len') + Taken(lens, count, len')
    ensures huff == Reverse(First(lens, len') + Taken(lens, count, len'), len')
    ensures ok ==> Ready(lens, root, len', Pos(lens, len', Taken(lens, count, len')), c', p')
    ensures ok ==> Round(kind, lens, table[..], root, p'.subs, c'.used, sym)
    ensures !ok ==> Exceeds(kind, TableSize(lens, root))
    ensures !kind.CodeLengths? ==> forall i: nat :: Limit(kind) <= i < table.Length ==> table[i] == old(table[i])
  {
    hide Offset, First, Reverse, Count, Code, Space, Pow2, Place, Rev, Low, Pos, Ready, Between, Round, TableSize;
    len' := len;
    if count[len] == 0 {
      ghost var m := NextLength(lens, work[..], len, max);
      OffsetStep(lens, len);
      len' := lens[work[sym]];
      PosStart(lens, len');
    }
    ghost var o' := NextSymbol(lens, work[..], len, taken, len');
    ghost var at := Passed(lens, root, o, o', c, p);
    ok, c', p' := NextTable(kind, lens, table, count, root, max, len', huff, c, at, o');
  }

  /** When every symbol is entered, the entries in use are all the tables take. */
  lemma FinalSize(kind: Kind, lens: seq<nat>, table: seq<Entry>, root: nat, max: nat, pos: nat, c: Current, p: Plan)
    requires |lens| <= Symbols(kind) && Longest(lens, max) && 1 <= root <= max
    requires Round(kind, lens, table, root, p.subs, c.used, Offset(lens, max + 1)) && Ready(lens, root, max, pos, c, p)
    ensures c.used == TableSize(lens, root)
  {
    hide Offset, Laid, Reverse, Pow2, BlockSize, Fits, SizeUpTo, Longest, Block;
    if max <= root {
      forall q: nat | Used(lens, q)
        ensures lens[q] <= root
      {
        NoLonger(lens, max, q);
      }
      OnlyRoot(lens, root);
    } else {
      RoundBelow(kind, lens, table, root, p.subs, c.used, Offset(lens, max + 1), p.blk);
      forall k, q: nat | p.blk + 1 <= k < Pow2(root)
        ensures !InBlockOf(lens, root, k, q)
      {
        if InBlockOf(lens, root, k, q) {
          AllEntered(kind, lens, table, root, p.subs, c.used, max, q);
        }
      }
      SizeSkip(lens, root, p.blk + 1, Pow2(root));
    }
  }

  /** The loop over the symbols in code order, with the reversed code counted up next to them. */
  method FillTables(kind: Kind, lens: seq<nat>, table: array<Entry>, count: array<nat>, work: array<nat>,
                    root: nat, min: nat, max: nat)
    returns (ok: bool, huff: nat, c: Current, ghost p: Plan)
    requires |lens| <= Symbols(kind) && NotOversubscribed(lens) && Longest(lens, max) && 1 <= min <= root <= max
    requires Codes(lens, min) > 0 && forall l :: 1 <= l < min ==> Codes(lens, l) == 0
    requires count.Length == MAX_BITS + 1 && forall l :: 1 <= l <= MAX_BITS ==> count[l] == Codes(lens, l)
    requires Sorted(lens, work[..]) && Pow2(root) <= table.Length && !Exceeds(kind, Pow2(root))
    requires root == max || (!kind.CodeLengths? && Limit(kind) <= table.Length)
    requires table != count as object && table != work as object && count != work
    modifies table, count
    ensures ok <==> !Exceeds(kind, TableSize(lens, root))
    ensures ok ==> Round(kind, lens, table[..], root, p.subs, c.used, Offset(lens, max + 1))
    ensures ok ==> huff == Reverse(First(lens, max) + Codes(lens, max), max)
    ensures ok ==> c.used == TableSize(lens, root) && (root == max ==> c.next == 0)
    ensures !kind.CodeLengths? ==> forall i: nat :: Limit(kind) <= i < table.Length ==> table[i] == old(table[i])
  {
    hide Offset, First, Reverse, Count, Code, Space, Pow2, Place, Rev, Low, Pos, Ready, Round, Keeps, Laid, Fits,
      TableSize;
    var sym, len := 0, min;
    huff, c, p := 0, Current(0, root, Pow2(root), None), Plan(map[], 0);
    FirstReady(lens, root, min);
    FirstRound(kind, lens, table[..], root);
    while true
      invariant min <= len <= max && Counted(lens, count, len) && count[len] > 0
      invariant sym == Offset(lens, len) + Taken(lens, count, len)
      invariant huff == Reverse(First(lens, len) + Taken(lens, count, len), len)
      invariant Ready(lens, root, len, Pos(lens, len, Taken(lens, count, len)), c, p)
      invariant Round(kind, lens, table[..], root, p.subs, c.used, sym)
      invariant !kind.CodeLengths? ==> forall i: nat :: Limit(kind) <= i < table.Length ==> table[i] == old(table[i])
      decreases max - len, count[len]
    {
      ghost var taken := Taken(lens, count, len);
      ghost var o := EnterNext(kind, lens, table, work, root, sym, len, huff, c, taken, p);
      huff := Increment(huff, len);
      ReversedNextIsNext(First(lens, len) + taken, len);
      sym := sym + 1;
      count[len] := count[len] - 1;
      if count[len] == 0 && len == max {
        OffsetStep(lens, max);
        FinalSize(kind, lens, table[..], root, max, Pos(lens, len, taken), c, p);
        WithinLimit(kind, lens, table[..], root, p.subs, c.used, sym);
        RootOnly(lens, root, len, Pos(lens, len, taken), c, p);
        return true, huff, c, p;
      }
      var ok', len', c';
      ghost var p';
      ok', len', c', p' := Advance(kind, lens, table, count, work, root, max, sym, len, huff, c, taken, p, o);
      if !ok' {
        return false, huff, c, p;
      }
      len, c, p := len', c', p';
    }
  }

  lemma WithinLimit(kind: Kind, lens: seq<nat>, table: seq<Entry>, root: nat, subs: map<nat, Sub>, used: nat, sym: nat)
    requires |lens| <= Symbols(kind) && Round(kind, lens, table, root, subs, used, sym)
    ensures !Exceeds(kind, used)
  {
    hide Laid, Entered, Place;
  }

  lemma RootOnly(lens: seq<nat>, root: nat, len: nat, pos: nat, c: Current, p: Plan)
    requires root <= MAX_BITS && Ready(lens, root, len, pos, c, p)
    ensures len <= root ==> c.next == 0
  {
  }

  /** What `Ready` says about the table for the next symbol. */
  lemma ReadyTable(kind: Kind, lens: seq<nat>, table: seq<Entry>, root: nat, o: nat, c: Current, p: Plan)
    requires |lens| <= Symbols(kind) && root <= MAX_BITS && Used(lens, o)
    requires Round(kind, lens, table, root, p.subs, c.used, Place(lens, o))
    requires Ready(lens, root, lens[o], Low(lens, o), c, p)
    ensures Laid(table, root, p.subs, c.used)
    ensures lens[o] <= root ==> c.next == 0 && c.curr == root && p.subs == map[]
    ensures lens[o] > root ==>
      var b := Block(lens, o, root);
      b in p.subs && p.subs[b] == Sub(c.next, c.curr) && lens[o] - root <= c.curr
  {
    hide Laid, Entered, Place, Low, Block, BlockSize, Pow2, Reverse, SizeUpTo;
    if lens[o] > root {
      BlockAt(lens, o, root, p.blk);
      assert InBlockOf(lens, root, p.blk, o);
    }
  }

  lemma KeepsBeyond(kind: Kind, lens: seq<nat>, before: seq<Entry>, after: seq<Entry>, root: nat, subs: map<nat, Sub>,
                    used: nat, o: nat)
    requires |lens| <= Symbols(kind) && Used(lens, o) && Keeps(kind, lens, before, after, root, subs, used, o)
    requires Round(kind, lens, before, root, subs, used, Place(lens, o))
    ensures |before| == |after|
    ensures !kind.CodeLengths? ==> forall i: nat :: Limit(kind) <= i < |after| ==> after[i] == before[i]
  {
    hide Laid, Entered, Place;
  }

  // ---------------------------------------------------------------------
  // Every sequence of bits is found
  // ---------------------------------------------------------------------

  lemma AllEntered(kind: Kind, lens: seq<nat>, table: seq<Entry>, root: nat, subs: map<nat, Sub>, used: nat, max: nat,
                   o: nat)
    requires |lens| <= Symbols(kind) && Longest(lens, max) && Used(lens, o)
    requires Round(kind, lens, table, root, subs, used, Offset(lens, max + 1))
    ensures Entered(kind, lens, table, root, subs, o)
  {
    hide Offset, Laid, Entered, Place, Codes;
    NoLonger(lens, max, o);
    PlaceWithin(lens, o);
    OffsetMonotone(lens, lens[o] + 1, max + 1);
  }

  /** With complete lengths every root entry is a symbol's or a link. */
  lemma RootEntry(kind: Kind, lens: seq<nat>, table: seq<Entry>, root: nat, subs: map<nat, Sub>, used: nat, max: nat,
                  y: nat)
    requires |lens| <= Symbols(kind) && Complete(lens) && Longest(lens, max) && root <= MAX_BITS && y < Pow2(root)
    requires Round(kind, lens, table, root, subs, used, Offset(lens, max + 1))
    ensures y < |table| && (IsLink(table[y]) ==> table[y].bits == root && table[y].val + Pow2(table[y].op) <= |table|)
  {
    hide Offset, Starts, Mask, Reverse, Code, Space, Pow2, Op, Val, Block, Rev, Longest;
    Pow2Monotone(root, MAX_BITS);
    var o := StartingSymbol(lens, y);
    AllEntered(kind, lens, table, root, subs, used, max, o);
    if lens[o] > root {
      SplitStart(lens, o, root, y);
      MaskBelow(y, root);
    }
  }

  lemma AllFound(kind: Kind, lens: seq<nat>, table: seq<Entry>, root: nat, subs: map<nat, Sub>, used: nat, max: nat)
    requires |lens| <= Symbols(kind) && Complete(lens) && Longest(lens, max) && 1 <= root <= MAX_BITS
    requires Round(kind, lens, table, root, subs, used, Offset(lens, max + 1))
    ensures Decodes(kind, lens, table, root)
  {
    hide Offset, Starts, Mask, Reverse, Code, Space, Pow2, Op, Val, Block, Longest, Find, Laid, Entered, IsLink;
    assert Laid(table, root, subs, used);
    LaidBelow(table, root, subs, used, 0);
    forall y: nat | y < Pow2(root)
      ensures y < |table| && (IsLink(table[y]) ==> table[y].bits == root && table[y].val + Pow2(table[y].op) <= |table|)
    {
      RootEntry(kind, lens, table, root, subs, used, max, y);
    }
    LaidWithin(table, root, subs, used);
    assert WellFormed(table, root);
    forall x: nat
      ensures Finds(kind, lens, table, root, x)
    {
      var o := StartingSymbol(lens, Mask(x, MAX_BITS));
      LowBitsOnly(lens, o, x, MAX_BITS);
      AllEntered(kind, lens, table, root, subs, used, max, o);
      EnteredIs(kind, lens, table, root, subs, o);
      if lens[o] <= root {
        FoundAtRoot(kind, lens, table, root, x, o);
      } else {
        FoundInSub(kind, lens, table, root, subs, used, x, o);
      }
    }
  }

  lemma LaidWithin(table: seq<Entry>, root: nat, subs: map<nat, Sub>, used: nat)
    requires Laid(table, root, subs, used)
    ensures Pow2(root) <= |table|
  {
  }

  lemma EnteredIs(kind: Kind, lens: seq<nat>, table: seq<Entry>, root: nat, subs: map<nat, Sub>, o: nat)
    requires Used(lens, o) && |lens| <= Symbols(kind) && Entered(kind, lens, table, root, subs, o)
    ensures lens[o] <= root ==> AtRoot(kind, lens, table, root, o)
    ensures lens[o] > root ==> InSub(kind, lens, table, root, subs, o)
  {
  }

  /** The one incomplete code that is accepted: a single symbol of length one, whose code is 0. */
  lemma LoneCode(lens: seq<nat>)
    requires NotOversubscribed(lens) && !Complete(lens) && Longest(lens, 1)
    ensures Codes(lens, 1) == 1 && First(lens, 1) == 0
    ensures forall o: nat :: Used(lens, o) ==> lens[o] == 1 && Code(lens, o) == 0
  {
    hide Space, Pow2, Count;
    SpaceStart(lens);
    SpaceStep(lens, 2);
    SpaceSkip(lens, 1, MAX_BITS + 1);
    PowStep(MAX_BITS - 1);
    var n, p := Codes(lens, 1), Pow2(MAX_BITS - 1);
    assert 2 * p == Pow2(MAX_BITS);
    if n >= 2 {
      MulAtMost(2, n, p);
    }
    assert First(lens, 0) == 0 && Codes(lens, 0) == 0;
    assert lens[..|lens|] == lens;
    forall o: nat | Used(lens, o)
      ensures lens[o] == 1 && Code(lens, o) == 0
    {
      NoLonger(lens, 1, o);
      RankBelow(lens, o, |lens|);
      CodeIs(lens, o);
    }
  }

  /** After that code the counter is at one. */
  lemma LoneCounter(lens: seq<nat>)
    requires NotOversubscribed(lens) && !Complete(lens) && Longest(lens, 1)
    ensures Reverse(First(lens, 1) + Codes(lens, 1), 1) == 1
  {
    hide Space, Longest, Count, First, Codes;
    LoneCode(lens);
    assert Reverse(0, 0) == 0 && Pow2(0) == 1;
  }

  /** With complete lengths the counter ends at zero. */
  lemma EndOfCodes(lens: seq<nat>, max: nat)
    requires NotOversubscribed(lens) && Longest(lens, max) && max > 0
    ensures Complete(lens) ==> Reverse(First(lens, max) + Codes(lens, max), max) == 0
  {
    hide Space, Pow2, First, Reverse, Count;
    var f, n, p := First(lens, max), Codes(lens, max), Pow2(MAX_BITS - max);
    FirstIsSpace(lens, max);
    SpaceStep(lens, max + 1);
    if max < MAX_BITS {
      SpaceSkip(lens, max, MAX_BITS + 1);
    }
    assert max + (MAX_BITS - max) == MAX_BITS;
    Pow2Add(max, MAX_BITS - max);
    assert (f + n) * p == f * p + n * p;
    if Complete(lens) {
      SameFactor(f + n, Pow2(max), p);
      ReverseOfPower(max);
    }
  }

  lemma SameFactor(a: nat, b: nat, p: nat)
    requires p > 0 && a * p == b * p
    ensures a == b
  {
    if a < b {
      MulAtMost(a + 1, b, p);
      OneMore(a, p);
    } else if b < a {
      MulAtMost(b + 1, a, p);
      OneMore(b, p);
    }
  }

  lemma {:induction false} ReverseOfPower(l: nat)
    ensures Reverse(Pow2(l), l) == 0
    decreases l
  {
    if l > 0 {
      ReverseOfPower(l - 1);
    }
  }

  lemma LoneFound(kind: Kind, lens: seq<nat>, table: seq<Entry>, subs: map<nat, Sub>, used: nat)
    requires |lens| <= Symbols(kind) && NotOversubscribed(lens) && !Complete(lens) && Longest(lens, 1)
    requires Round(kind, lens, table, 1, subs, used, Offset(lens, 2))
    ensures |table| >= 2 && Decodes(kind, lens, table[1 := INVALID], 1)
  {
    hide Offset, Code, Space, Op, Val, Longest, Laid, Round, Count;
    LoneCode(lens);
    var q := LongestSymbol(lens, 1);
    AllEntered(kind, lens, table, 1, subs, used, 1, q);
    assert Pow2(0) == 1 && Pow2(1) == 2;
    assert Reverse(0, 0) == 0 && Reverse(0, 1) == 0;
    assert forall x: nat :: Mask(x / 2, 0) == 0 && Mask(x, 1) == x % 2;
    assert Starts(lens, q, 0);
    assert table[0] == SymbolEntry(kind, q, 1);
    var after := table[1 := INVALID];
    assert WellFormed(after, 1);
    forall x: nat
      ensures Finds(kind, lens, after, 1, x)
    {
      if x % 2 == 0 {
        assert Starts(lens, q, x);
      }
    }
  }

  // ---------------------------------------------------------------------
  // The builder
  // ---------------------------------------------------------------------

  /** The results 0, -1 and 1. */
  datatype Status = Built | Refused | TooLarge

  /** Lengths that make tables: none at all, complete ones, and outside the first alphabet a single code of one bit. */
  ghost predicate Acceptable(kind: Kind, lens: seq<nat>) {
    || (forall o: nat :: !Used(lens, o))
    || Complete(lens)
    || (!kind.CodeLengths? && NotOversubscribed(lens) && forall o: nat :: Used(lens, o) ==> lens[o] == 1)
  }

  /** The array has room for the root table, and for sub-tables if there can be any. */
  predicate Roomy(kind: Kind, lens: seq<nat>, bits: nat, length: nat) {
    || (Pow2(bits) <= length && forall i :: 0 <= i < |lens| ==> lens[i] <= bits)
    || (!kind.CodeLengths? && Limit(kind) <= length)
  }

  lemma TwoEntries(bits: nat)
    requires bits >= 1
    ensures Pow2(bits) >= 2
  {
    assert Pow2(bits) == 2 * Pow2(bits - 1);
  }

  lemma NothingFound(kind: Kind, lens: seq<nat>, table: seq<Entry>)
    requires |lens| <= Symbols(kind) && Longest(lens, 0) && |table| >= 2 && table[0] == table[1] == INVALID
    ensures Decodes(kind, lens, table, 1) && forall o: nat :: !Used(lens, o)
  {
    hide Count, Longest;
    forall o: nat
      ensures !Used(lens, o)
    {
      if Used(lens, o) {
        NoLonger(lens, 0, o);
      }
    }
    assert Pow2(0) == 1 && Pow2(1) == 2;
    assert WellFormed(table, 1);
    forall x: nat
      ensures Finds(kind, lens, table, 1, x)
    {
      assert Mask(x, 1) < 2;
    }
  }

  lemma AcceptableIff(kind: Kind, lens: seq<nat>, max: nat, longest: nat)
    requires Longest(lens, max) && max > 0 && Used(lens, longest) && lens[longest] == max
    ensures Acceptable(kind, lens) <==> NotOversubscribed(lens) && (Complete(lens) || (!kind.CodeLengths? && max == 1))
  {
    hide Space, Count, Pow2;
    if max == 1 {
      forall o: nat | Used(lens, o)
        ensures lens[o] == 1
      {
        NoLonger(lens, max, o);
      }
    }
  }

  /** The lengths the counting loops find. */
  lemma Extremes(lens: seq<nat>, min: nat, max: nat)
    requires LengthsOk(lens) && Longest(lens, max) && 1 <= min <= max
    requires Codes(lens, min) > 0 && forall l :: 1 <= l < min ==> Codes(lens, l) == 0
    ensures MaxLen(lens) == max && MinLen(lens) == min
  {
    hide Count;
    assert lens[..|lens|] == lens;
    var longest := LongestSymbol(lens, max);
    var shortest := SymbolOfRank(lens, |lens|, min, 0);
    forall o: nat | o < |lens| && lens[o] > 0
      ensures min <= lens[o] <= max
    {
      NoLonger(lens, max, o);
      RankBelow(lens, o, |lens|);
      assert Codes(lens, lens[o]) > 0;
    }
    assert lens[longest] == max && lens[shortest] == min;
  }

  /** There is room to fill the tables. */
  lemma Room(kind: Kind, lens: seq<nat>, bits: nat, length: nat)
    requires Roomy(kind, lens, bits, length) && MaxLen(lens) > 0
    ensures !Exceeds(kind, Pow2(RootBits(lens, bits))) ==> Pow2(RootBits(lens, bits)) <= length
    ensures RootBits(lens, bits) == MaxLen(lens) || (!kind.CodeLengths? && Limit(kind) <= length)
  {
    hide Pow2;
    if MaxLen(lens) <= bits {
      Pow2Monotone(RootBits(lens, bits), bits);
    }
  }

  lemma NothingLarge(kind: Kind, lens: seq<nat>, bits: nat)
    requires LengthsOk(lens) && forall o: nat :: !Used(lens, o)
    ensures RootBits(lens, bits) == 1 && !Exceeds(kind, TableSize(lens, 1))
  {
    hide TableSize;
    assert forall o: nat :: o < |lens| && lens[o] > 0 ==> Used(lens, o);
    OnlyRoot(lens, 1);
    assert Pow2(0) == 1 && Pow2(1) == 2;
  }

  /** The root table alone is at most all the tables. */
  lemma RootWithin(lens: seq<nat>, root: nat)
    ensures Pow2(root) <= TableSize(lens, root)
  {
    hide Pow2;
  }

  /**
   `Vt`: counts, checks, sorts and fills. Lengths are refused exactly if they are not acceptable, and given up exactly
   if their tables take more entries than the limit. All other lengths get tables that lead every sequence of bits
   to its symbol. No entry behind the limit is touched.
   */
  method BuildTable(kind: Kind, lens: seq<nat>, bits: nat, table: array<Entry>) returns (status: Status, root: nat)
    requires LengthsOk(lens) && |lens| <= Symbols(kind) && 1 <= bits <= MAX_BITS
    requires Roomy(kind, lens, bits, table.Length)
    modifies table
    ensures root == RootBits(lens, bits)
    ensures status.Refused? <==> !Acceptable(kind, lens)
    ensures status.TooLarge? <==> Acceptable(kind, lens) && Exceeds(kind, TableSize(lens, root))
    ensures status.Built? ==> Decodes(kind, lens, table[..], root)
    ensures !kind.CodeLengths? ==> forall i: nat :: Limit(kind) <= i < table.Length ==> table[i] == old(table[i])
  {
    hide Space, Pow2, Offset, Count, Decodes, Round, First, Reverse, TableSize, MaxLen, MinLen;
    TwoEntries(bits);
    var count := CountLengths(lens);
    var max := MAX_BITS;
    while max >= 1 && count[max] == 0
      invariant 0 <= max <= MAX_BITS && forall l :: max < l <= MAX_BITS ==> Codes(lens, l) == 0
    {
      max := max - 1;
    }
    assert Longest(lens, max);
    root := if bits > max then max else bits;
    if max == 0 {
      table[0], table[1] := INVALID, INVALID;
      NothingFound(kind, lens, table[..]);
      NothingLarge(kind, lens, bits);
      return Built, 1;
    }
    ghost var longest := LongestSymbol(lens, max);
    AcceptableIff(kind, lens, max, longest);
    var min: nat := 1;
    while min < max && count[min] == 0
      invariant 1 <= min <= max && forall l :: 1 <= l < min ==> Codes(lens, l) == 0
    {
      min := min + 1;
    }
    if root < min {
      root := min;
    }
    Extremes(lens, min, max);
    Room(kind, lens, bits, table.Length);
    var left := CheckSpace(lens, count);
    if left.None? {
      return Refused, root;
    }
    if left.value > 0 && (kind.CodeLengths? || max != 1) {
      return Refused, root;
    }
    var work := SortSymbols(lens, count);
    if Exceeds(kind, Pow2(root)) {
      RootWithin(lens, root);
      return TooLarge, root;
    }
    var ok, huff, c, p := FillTables(kind, lens, table, count, work, root, min, max);
    if !ok {
      return TooLarge, root;
    }
    if Complete(lens) {
      EndOfCodes(lens, max);
    } else {
      LoneCounter(lens);
    }
    if huff != 0 {
      LoneFound(kind, lens, table[..], p.subs, c.used);
      table[c.next + huff] := Entry(max, 64, 0);
    } else {
      AllFound(kind, lens, table[..], root, p.subs, c.used, max);
    }
    return Built, root;
  }
}
