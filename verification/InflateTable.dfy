/**
 The decode tables of inflate (`Vt`, crates/execution/assets/v8-bridge-zlib.js, line 67): a root table that is looked up
 with the next bits of the stream, and sub-tables behind it for codes that are longer than its index.
 */
module InflateTable {
  import opened BitString
  import opened Huffman
  import opened HuffmanTable

  // ---------------------------------------------------------------------
  // The three alphabets
  // ---------------------------------------------------------------------

  datatype Kind = CodeLengths | Literals | Distances

  const END_OF_BLOCK := 256

  const LENGTH_BASE: seq<nat> := [
    3, 4, 5, 6, 7, 8, 9, 10, 11, 13, 15, 17, 19, 23, 27, 31, 35, 43, 51, 59, 67, 83, 99, 115, 131, 163, 195,
    227, 258, 0, 0
  ]
  const LENGTH_EXTRA: seq<nat> := [
    16, 16, 16, 16, 16, 16, 16, 16, 17, 17, 17, 17, 18, 18, 18, 18, 19, 19, 19, 19, 20, 20, 20, 20, 21, 21,
    21, 21, 16, 72, 78
  ]
  const DISTANCE_BASE: seq<nat> := [
    1, 2, 3, 4, 5, 7, 9, 13, 17, 25, 33, 49, 65, 97, 129, 193, 257, 385, 513, 769, 1025, 1537, 2049, 3073,
    4097, 6145, 8193, 12289, 16385, 24577, 0, 0
  ]
  const DISTANCE_EXTRA: seq<nat> := [
    16, 16, 16, 16, 17, 17, 18, 18, 19, 19, 20, 20, 21, 21, 22, 22, 23, 23, 24, 24, 25, 25, 26, 26, 27, 27,
    28, 28, 29, 29, 64, 64
  ]

  /** How many symbols an alphabet can have. */
  function Symbols(kind: Kind): (n: nat) {
    match kind
    case CodeLengths => 19
    case Literals => 288
    case Distances => 32
  }

  /** How large the tables may get; the first alphabet has no limit. */
  function Limit(kind: Kind): (n: nat) {
    match kind
    case CodeLengths => 0
    case Literals => 852
    case Distances => 592
  }

  predicate Exceeds(kind: Kind, used: nat) {
    !kind.CodeLengths? && used > Limit(kind)
  }

  /** What the table says about a symbol: literal, end of block, or a base value with extra bits. */
  function Op(kind: Kind, o: nat): (op: nat)
    requires o < Symbols(kind)
    ensures op == 0 || op >= 16
  {
    match kind
    case CodeLengths => 0
    case Literals => if o < END_OF_BLOCK then 0 else if o == END_OF_BLOCK then 96 else LENGTH_EXTRA[o - 257]
    case Distances => DISTANCE_EXTRA[o]
  }

  function Val(kind: Kind, o: nat): (v: nat)
    requires o < Symbols(kind)
  {
    match kind
    case CodeLengths => o
    case Literals => if o < END_OF_BLOCK then o else if o == END_OF_BLOCK then 0 else LENGTH_BASE[o - 257]
    case Distances => DISTANCE_BASE[o]
  }

  function SymbolEntry(kind: Kind, o: nat, bits: nat): (e: Entry)
    requires o < Symbols(kind)
  {
    Entry(bits, Op(kind, o), Val(kind, o))
  }

  /** How many extra bits follow a code whose entry has `op`. */
  function ExtraBits(op: nat): (n: nat) {
    if 16 <= op < 32 then op - 16 else 0
  }

  /** Each length starts where the one before it ends. */
  lemma LengthSteps()
    ensures |LENGTH_BASE| == 31 && |LENGTH_EXTRA| == 31
    ensures forall k :: 0 <= k < 29 ==> 16 <= LENGTH_EXTRA[k] <= 21
    ensures forall k :: 0 <= k < 27 ==> LENGTH_BASE[k + 1] == LENGTH_BASE[k] + Pow2(LENGTH_EXTRA[k] - 16)
  {
    SmallPowers();
  }

  lemma LengthEnds()
    ensures LENGTH_BASE[0] == 3 && LENGTH_BASE[27] == 227 && LENGTH_EXTRA[27] == 21
    ensures LENGTH_BASE[28] == 258 && LENGTH_EXTRA[28] == 16 && LENGTH_EXTRA[29] == 72 && LENGTH_EXTRA[30] == 78
  {
  }

  lemma DistanceSteps()
    ensures |DISTANCE_BASE| == 32 && |DISTANCE_EXTRA| == 32
    ensures forall k :: 0 <= k < 30 ==> 16 <= DISTANCE_EXTRA[k] <= 29
    ensures forall k :: 0 <= k < 29 ==> DISTANCE_BASE[k + 1] == DISTANCE_BASE[k] + Pow2(DISTANCE_EXTRA[k] - 16)
  {
    SmallPowers();
  }

  lemma DistanceEnds()
    ensures DISTANCE_BASE[0] == 1 && DISTANCE_BASE[29] == 24577 && DISTANCE_EXTRA[29] == 29
    ensures DISTANCE_EXTRA[30] == 64 && DISTANCE_EXTRA[31] == 64
  {
  }

  /**
   What the entries of literals and lengths mean (section 3.2.5 of RFC 1951): a symbol below 256 is itself, 256 ends
   the block, and the lengths from 257 to 284, each with its extra bits, take the numbers from 3 to 258 without gap
   or overlap; 285 is 258 with no extra bits; 286 and 287 are no lengths.
   */
  lemma LengthRanges(o: nat)
    requires o < 288
    ensures o < 256 ==> Op(Literals, o) == 0 && Val(Literals, o) == o
    ensures o == 256 ==> Op(Literals, o) == 96 && Val(Literals, o) == 0
    ensures o == 257 ==> Val(Literals, o) == 3
    ensures 257 <= o < 286 ==> 16 <= Op(Literals, o) < 32
    ensures 257 <= o < 284 ==> Val(Literals, o + 1) == Val(Literals, o) + Pow2(ExtraBits(Op(Literals, o)))
    ensures o == 284 ==> Val(Literals, o) + Pow2(ExtraBits(Op(Literals, o))) == 259
    ensures o == 285 ==> Val(Literals, o) == 258 && ExtraBits(Op(Literals, o)) == 0
    ensures o >= 286 ==> Op(Literals, o) / 64 == 1 && Op(Literals, o) % 64 < 32
  {
    hide LENGTH_BASE, LENGTH_EXTRA, Pow2;
    LengthSteps();
    LengthEnds();
    SmallPowers();
  }

  /** The same for distances: 0 to 29 take the numbers from 1 to 32768 without gap or overlap; 30 and 31 are none. */
  lemma DistanceRanges(o: nat)
    requires o < 32
    ensures o == 0 ==> Val(Distances, o) == 1
    ensures o < 30 ==> 16 <= Op(Distances, o) < 32
    ensures o < 29 ==> Val(Distances, o + 1) == Val(Distances, o) + Pow2(ExtraBits(Op(Distances, o)))
    ensures o == 29 ==> Val(Distances, o) + Pow2(ExtraBits(Op(Distances, o))) == 32769
    ensures o >= 30 ==> Op(Distances, o) == 64
  {
    hide DISTANCE_BASE, DISTANCE_EXTRA, Pow2;
    DistanceSteps();
    DistanceEnds();
    SmallPowers();
  }

  lemma SmallPowers()
    ensures Pow2(0) == 1 && Pow2(1) == 2 && Pow2(2) == 4 && Pow2(3) == 8
    ensures Pow2(4) == 16 && Pow2(5) == 32 && Pow2(6) == 64
    ensures Pow2(7) == 128 && Pow2(8) == 256 && Pow2(9) == 512 && Pow2(10) == 1024 && Pow2(11) == 2048
    ensures Pow2(12) == 4096 && Pow2(13) == 8192
  {
  }

  /** The first alphabet's symbols are themselves; the sizes and limits of all three; the entry for unused bits. */
  lemma Alphabets(o: nat, n: nat)
    ensures o < 19 ==> Op(CodeLengths, o) == 0 && Val(CodeLengths, o) == o
    ensures Symbols(CodeLengths) == 19 && Symbols(Literals) == 288 && Symbols(Distances) == 32
    ensures !Exceeds(CodeLengths, n) && (Exceeds(Literals, n) <==> n > 852) && (Exceeds(Distances, n) <==> n > 592)
    ensures INVALID == Entry(1, 64, 0)
  {
  }

  // ---------------------------------------------------------------------
  // Looking bits up
  // ---------------------------------------------------------------------

  predicate IsLink(e: Entry) {
    0 < e.op < 16
  }

  predicate WellFormed(table: seq<Entry>, root: nat) {
    |table| >= Pow2(root) && forall y: nat :: y < Pow2(root) && IsLink(table[y]) ==>
      table[y].val + Pow2(table[y].op) <= |table|
  }

  /** The entry for the bits `x`, through the sub-table if there is one; its `bits` are those of both levels. */
  function Find(table: seq<Entry>, root: nat, x: nat): (e: Entry)
    requires WellFormed(table, root)
  {
    var e := table[Mask(x, root)];
    if !IsLink(e) then e
    else
      var f := table[e.val + Mask(Shr(x, e.bits), e.op)];
      Entry(e.bits + f.bits, f.op, f.val)
  }

  /**
   The bits `x` lead to the symbol they start with and to its length; no symbol starts them only if all codes are of
   length one.
   */
  ghost predicate Finds(kind: Kind, lens: seq<nat>, table: seq<Entry>, root: nat, x: nat)
    requires |lens| <= Symbols(kind) && WellFormed(table, root)
  {
    || (exists o: nat :: Used(lens, o) && Starts(lens, o, x) && Find(table, root, x) == SymbolEntry(kind, o, lens[o]))
    || ((forall o: nat :: Used(lens, o) ==> lens[o] == 1 && !Starts(lens, o, x)) && Find(table, root, x) == INVALID)
  }

  ghost predicate Decodes(kind: Kind, lens: seq<nat>, table: seq<Entry>, root: nat)
    requires |lens| <= Symbols(kind)
  {
    && 1 <= root <= MAX_BITS && WellFormed(table, root)
    && (forall y: nat :: y < Pow2(root) && IsLink(table[y]) ==> table[y].bits == root)
    && forall x: nat :: Finds(kind, lens, table, root, x)
  }

  // ---------------------------------------------------------------------
  // Blocks: the codes that share their first `root` bits
  // ---------------------------------------------------------------------

  /** The first `root` bits of a longer code, as a number. */
  function Block(lens: seq<nat>, o: nat, root: nat): (b: nat)
    requires Used(lens, o) && root < lens[o]
  {
    Shr(Code(lens, o), lens[o] - root)
  }

  /** The reversed code: what the stream starts with. */
  function Rev(lens: seq<nat>, o: nat): (r: nat)
    requires Used(lens, o)
    ensures r < Pow2(lens[o])
  {
    Reverse(Code(lens, o), lens[o])
  }

  lemma ReversedPrefix(c: nat, l: nat, r: nat)
    requires r <= l
    ensures Mask(Reverse(c, l), r) == Reverse(Shr(c, l - r), r)
  {
    hide Mask, Reverse, Shr, Bits, Msb, Pow2;
    var rev := Reverse(c, l);
    BitsOfReverse(c, l);
    BitsOfReverse(Shr(c, l - r), r);
    MsbPrefix(c, l, r);
    assert r + (l - r) == l;
    BitsSplit(rev, r, l - r);
    assert Bits(rev, l)[..r] == Bits(Mask(rev, r), r);
    BitsInjective(Mask(rev, r), Reverse(Shr(c, l - r), r), r);
  }

  lemma ReverseInjective(a: nat, b: nat, l: nat)
    requires a < Pow2(l) && b < Pow2(l) && Reverse(a, l) == Reverse(b, l)
    ensures a == b
  {
    hide Reverse, Bits, Msb, Pow2;
    BitsOfReverse(a, l);
    BitsOfReverse(b, l);
    MsbInjective(a, b, l);
  }

  /** Where the strings of a block end. */
  function BlockSize(root: nat): (n: nat)
    requires root <= MAX_BITS
    ensures n > 0
  {
    Pow2(MAX_BITS - root)
  }

  /** The strings of a code lie within its block. */
  lemma InBlock(lens: seq<nat>, o: nat, root: nat)
    requires Used(lens, o) && root < lens[o]
    ensures Block(lens, o, root) * BlockSize(root) <= Low(lens, o)
    ensures Low(lens, o) + Size(lens, o) <= (Block(lens, o, root) + 1) * BlockSize(root)
  {
    hide Code, Shr, Mask, Pow2, Low;
    var c, d := Code(lens, o), lens[o] - root;
    var b, rem := Shr(c, d), Mask(c, d);
    var p, s := Pow2(d), Pow2(MAX_BITS - lens[o]);
    SplitAt(c, d);
    LowIs(lens, o);
    assert d + (MAX_BITS - lens[o]) == MAX_BITS - root;
    Pow2Add(d, MAX_BITS - lens[o]);
    Within(b, rem, p, s);
  }

  lemma Within(b: nat, rem: nat, p: nat, s: nat)
    requires rem < p
    ensures b * (p * s) <= (rem + b * p) * s
    ensures (rem + b * p) * s + s <= (b + 1) * (p * s)
  {
    MulAssociates(b, p, s);
    assert (rem + b * p) * s == rem * s + b * p * s;
    MulAtMost(rem + 1, p, s);
    OneMore(rem, s);
    OneMore(b, p * s);
  }

  /** Where a block begins and ends tells which one it is. */
  lemma BlockAt(lens: seq<nat>, o: nat, root: nat, b: nat)
    requires Used(lens, o) && root < lens[o]
    requires b * BlockSize(root) <= Low(lens, o) < (b + 1) * BlockSize(root)
    ensures Block(lens, o, root) == b
  {
    hide Block, Low, BlockSize;
    InBlock(lens, o, root);
    SameMultiple(b, Block(lens, o, root), Low(lens, o), BlockSize(root));
  }

  lemma SameMultiple(a: nat, b: nat, v: nat, n: nat)
    requires a * n <= v < (a + 1) * n && b * n <= v < (b + 1) * n
    ensures a == b
  {
    if a < b {
      MulAtMost(a + 1, b, n);
    } else if b < a {
      MulAtMost(b + 1, a, n);
    }
  }

  lemma BlockBelow(lens: seq<nat>, o: nat, root: nat)
    requires Used(lens, o) && root < lens[o] && NotOversubscribed(lens)
    ensures Block(lens, o, root) < Pow2(root)
    ensures Mask(Rev(lens, o), root) == Reverse(Block(lens, o, root), root)
  {
    hide Code, Shr, Reverse, Mask, Space, Pow2;
    CodeFits(lens, o);
    assert (lens[o] - root) + root == lens[o];
    ShrBelow(Code(lens, o), lens[o] - root, root);
    ReversedPrefix(Code(lens, o), lens[o], root);
  }

  // ---------------------------------------------------------------------
  // What the filling loop keeps
  // ---------------------------------------------------------------------

  datatype Sub = Sub(start: nat, bits: nat)

  /** The sub-tables by block: linked from the root table, behind it, and apart from one another. */
  ghost predicate Laid(table: seq<Entry>, root: nat, subs: map<nat, Sub>, used: nat) {
    && Pow2(root) <= used <= |table|
    && (forall b :: b in subs ==> b < Pow2(root) && 0 < subs[b].bits < 16 && Pow2(root) <= subs[b].start
                                  && subs[b].start + Pow2(subs[b].bits) <= used)
    && (forall b :: b in subs ==> table[Reverse(b, root)] == Entry(root, subs[b].bits, subs[b].start))
    && (forall a, b :: a in subs && b in subs && a != b ==>
          subs[a].start + Pow2(subs[a].bits) <= subs[b].start || subs[b].start + Pow2(subs[b].bits) <= subs[a].start)
  }

  /** A code no longer than the index is at every root entry it starts. */
  predicate AtRoot(kind: Kind, lens: seq<nat>, table: seq<Entry>, root: nat, o: nat)
    requires Used(lens, o) && |lens| <= Symbols(kind)
  {
    |table| >= Pow2(root) &&
    forall y: nat :: y < Pow2(root) && Starts(lens, o, y) ==> table[y] == SymbolEntry(kind, o, lens[o])
  }

  /** An index into the sub-table that goes on with the rest of a longer code. */
  predicate Continues(lens: seq<nat>, o: nat, root: nat, y: nat)
    requires Used(lens, o) && root < lens[o]
  {
    Ends(y, lens[o] - root, Shr(Rev(lens, o), root))
  }

  /** A longer code is at every entry of its block's sub-table that goes on with the rest of it. */
  predicate InSub(kind: Kind, lens: seq<nat>, table: seq<Entry>, root: nat, subs: map<nat, Sub>, o: nat)
    requires Used(lens, o) && |lens| <= Symbols(kind) && root < lens[o]
  {
    var b := Block(lens, o, root);
    && b in subs && lens[o] - root <= subs[b].bits && subs[b].start + Pow2(subs[b].bits) <= |table|
    && forall y: nat :: y < Pow2(subs[b].bits) && Continues(lens, o, root, y) ==>
         table[subs[b].start + y] == SymbolEntry(kind, o, lens[o] - root)
  }

  predicate Entered(kind: Kind, lens: seq<nat>, table: seq<Entry>, root: nat, subs: map<nat, Sub>, o: nat)
    requires Used(lens, o) && |lens| <= Symbols(kind)
  {
    if lens[o] <= root then AtRoot(kind, lens, table, root, o) else InSub(kind, lens, table, root, subs, o)
  }

  lemma {:induction false} ShrOfMask(v: nat, a: nat, b: nat)
    requires b <= a
    ensures Shr(Mask(v, a), b) == Mask(Shr(v, b), a - b)
    decreases b
  {
    if b > 0 {
      ShrOfMask(v / 2, a - 1, b - 1);
    }
  }

  /** The bits that start with a longer code: its block, and the rest of it behind. */
  lemma SplitStart(lens: seq<nat>, o: nat, root: nat, x: nat)
    requires Used(lens, o) && root < lens[o] && NotOversubscribed(lens) && Starts(lens, o, x)
    ensures Mask(x, root) == Reverse(Block(lens, o, root), root)
    ensures Mask(Shr(x, root), lens[o] - root) == Shr(Rev(lens, o), root)
  {
    hide Shr, Mask, Reverse, Code, Space, Block;
    BlockBelow(lens, o, root);
    MaskOfMask(x, lens[o], root);
    ShrOfMask(x, lens[o], root);
  }

  /** The other way around, for an index into the sub-table. */
  lemma JoinStart(lens: seq<nat>, o: nat, root: nat, y: nat)
    requires Used(lens, o) && root < lens[o] && NotOversubscribed(lens)
    requires Continues(lens, o, root, y)
    ensures Starts(lens, o, Reverse(Block(lens, o, root), root) + Shl(y, root))
  {
    hide Shr, Mask, Reverse, Code, Space, Block, Pow2;
    var p, l := Reverse(Block(lens, o, root), root), lens[o];
    BlockBelow(lens, o, root);
    var x := p + y * Pow2(root);
    SplitUnique(x, root, p, y);
    // The low `l` bits of `x` are put together from the same two parts as the reversed code.
    var m := Mask(x, l);
    MaskOfMask(x, l, root);
    ShrOfMask(x, l, root);
    SplitAt(m, root);
    SplitAt(Rev(lens, o), root);
  }

  lemma FoundAtRoot(kind: Kind, lens: seq<nat>, table: seq<Entry>, root: nat, x: nat, o: nat)
    requires |lens| <= Symbols(kind) && WellFormed(table, root) && Used(lens, o) && Starts(lens, o, x)
    requires lens[o] <= root
    requires AtRoot(kind, lens, table, root, o)
    ensures Find(table, root, x) == SymbolEntry(kind, o, lens[o])
  {
    hide Starts, Mask, Shr, Pow2, Op, Val;
    LowBitsOnly(lens, o, x, root);
    assert table[Mask(x, root)] == SymbolEntry(kind, o, lens[o]);
  }

  lemma FoundInSub(kind: Kind, lens: seq<nat>, table: seq<Entry>, root: nat, subs: map<nat, Sub>, used: nat, x: nat,
                   o: nat)
    requires |lens| <= Symbols(kind) && NotOversubscribed(lens) && WellFormed(table, root)
    requires Laid(table, root, subs, used) && Used(lens, o) && Starts(lens, o, x) && root < lens[o]
    requires InSub(kind, lens, table, root, subs, o)
    ensures Find(table, root, x) == SymbolEntry(kind, o, lens[o])
  {
    hide Starts, Mask, Shr, Reverse, Code, Space, Pow2, Op, Val, Block, Rev;
    var b := Block(lens, o, root);
    SplitStart(lens, o, root, x);
    assert table[Mask(x, root)] == Entry(root, subs[b].bits, subs[b].start);
    var y := Mask(Shr(x, root), subs[b].bits);
    MaskOfMask(Shr(x, root), subs[b].bits, lens[o] - root);
    assert Continues(lens, o, root, y);
    assert table[subs[b].start + y] == SymbolEntry(kind, o, lens[o] - root);
  }

  // Entering one more symbol leaves the others as they are.

  lemma RootFillKeeps(kind: Kind, lens: seq<nat>, before: seq<Entry>, after: seq<Entry>, root: nat, o: nat, q: nat)
    requires |lens| <= Symbols(kind) && NotOversubscribed(lens) && Used(lens, o) && Used(lens, q) && o != q
    requires lens[o] <= root && lens[q] <= root && |before| == |after| >= Pow2(root)
    requires AtRoot(kind, lens, before, root, q)
    requires Filled(before, after, 0, root, Rev(lens, o), lens[o], SymbolEntry(kind, o, lens[o]))
    ensures AtRoot(kind, lens, after, root, q)
  {
    hide Mask, Reverse, Code, Space, Pow2, Op, Val;
    forall y: nat | y < Pow2(root) && Starts(lens, q, y)
      ensures after[y] == SymbolEntry(kind, q, lens[q])
    {
      if Starts(lens, o, y) {
        StartsUnique(lens, o, q, y);
      }
    }
  }

  /** A link for a new block overwrites no entry of a symbol that was entered. */
  lemma LinkKeeps(kind: Kind, lens: seq<nat>, table: seq<Entry>, root: nat, subs: map<nat, Sub>, used: nat, o: nat,
                  sub: Sub, q: nat)
    requires |lens| <= Symbols(kind) && NotOversubscribed(lens) && Used(lens, o) && Used(lens, q)
    requires root < lens[o] && o != q
    requires Laid(table, root, subs, used) && Block(lens, o, root) !in subs && Entered(kind, lens, table, root, subs, q)
    ensures var b := Block(lens, o, root);
            var p := Reverse(b, root);
            p < |table| && Entered(kind, lens, table[p := Entry(root, sub.bits, sub.start)], root, subs[b := sub], q)
  {
    hide Mask, Shr, Reverse, Code, Space, Pow2, Op, Val, Block;
    BlockBelow(lens, o, root);
    var b := Block(lens, o, root);
    var p := Reverse(b, root);
    if lens[q] <= root {
      if Starts(lens, q, p) {
        MaskOfMask(Rev(lens, o), root, lens[q]);
        OwnStart(lens, o);
        StartsUnique(lens, o, q, Rev(lens, o));
      }
    } else {
      assert Block(lens, q, root) != b;
    }
  }

  lemma OwnStart(lens: seq<nat>, o: nat)
    requires Used(lens, o)
    ensures Starts(lens, o, Rev(lens, o))
  {
    MaskBelow(Rev(lens, o), lens[o]);
  }

  lemma SubFillKeeps(kind: Kind, lens: seq<nat>, before: seq<Entry>, after: seq<Entry>, root: nat, subs: map<nat, Sub>,
                     used: nat, o: nat, q: nat)
    requires |lens| <= Symbols(kind) && NotOversubscribed(lens) && Used(lens, o) && Used(lens, q)
    requires root < lens[o] && o != q
    requires Laid(before, root, subs, used) && Block(lens, o, root) in subs
    requires Entered(kind, lens, before, root, subs, q)
    requires var s := subs[Block(lens, o, root)];
             Filled(before, after, s.start, s.bits, Shr(Rev(lens, o), root), lens[o] - root,
                    SymbolEntry(kind, o, lens[o] - root))
    ensures Entered(kind, lens, after, root, subs, q)
  {
    hide Shr, Reverse, Code, Space, Pow2, Op, Val, Block, Starts, Ends, Rev, Laid;
    if lens[q] <= root {
      SubFillKeepsRoot(kind, lens, before, after, root, subs, used, o, q);
    } else {
      SubFillKeepsSub(kind, lens, before, after, root, subs, used, o, q);
    }
  }

  lemma SubFillKeepsRoot(kind: Kind, lens: seq<nat>, before: seq<Entry>, after: seq<Entry>, root: nat,
                         subs: map<nat, Sub>, used: nat, o: nat, q: nat)
    requires |lens| <= Symbols(kind) && Used(lens, o) && Used(lens, q) && root < lens[o] && lens[q] <= root
    requires Laid(before, root, subs, used) && Block(lens, o, root) in subs && AtRoot(kind, lens, before, root, q)
    requires var s := subs[Block(lens, o, root)];
             Filled(before, after, s.start, s.bits, Shr(Rev(lens, o), root), lens[o] - root,
                    SymbolEntry(kind, o, lens[o] - root))
    ensures AtRoot(kind, lens, after, root, q)
  {
    hide Shr, Reverse, Code, Pow2, Op, Val, Block, Starts, Ends, Rev;
  }

  lemma SubFillKeepsSub(kind: Kind, lens: seq<nat>, before: seq<Entry>, after: seq<Entry>, root: nat,
                        subs: map<nat, Sub>, used: nat, o: nat, q: nat)
    requires |lens| <= Symbols(kind) && NotOversubscribed(lens) && Used(lens, o) && Used(lens, q)
    requires root < lens[o] && root < lens[q] && o != q
    requires Laid(before, root, subs, used) && Block(lens, o, root) in subs && InSub(kind, lens, before, root, subs, q)
    requires var s := subs[Block(lens, o, root)];
             Filled(before, after, s.start, s.bits, Shr(Rev(lens, o), root), lens[o] - root,
                    SymbolEntry(kind, o, lens[o] - root))
    ensures InSub(kind, lens, after, root, subs, q)
  {
    hide Shr, Reverse, Code, Space, Pow2, Op, Val, Block, Starts, Ends, Rev;
    var s := subs[Block(lens, q, root)];
    forall y: nat | y < Pow2(s.bits) && Continues(lens, q, root, y)
      ensures after[s.start + y] == SymbolEntry(kind, q, lens[q] - root)
    {
      if Block(lens, o, root) == Block(lens, q, root) && Continues(lens, o, root, y) {
        NotBoth(lens, o, q, root, y);
      }
      assert before[s.start + y] == SymbolEntry(kind, q, lens[q] - root);
    }
  }

  lemma NotBoth(lens: seq<nat>, o: nat, q: nat, root: nat, y: nat)
    requires NotOversubscribed(lens) && Used(lens, o) && Used(lens, q) && root < lens[o] && root < lens[q]
    requires Block(lens, o, root) == Block(lens, q, root) && Continues(lens, o, root, y) && Continues(lens, q, root, y)
    ensures o == q
  {
    hide Mask, Shr, Reverse, Code, Space, Pow2, Block, Continues, Starts;
    JoinStart(lens, o, root, y);
    JoinStart(lens, q, root, y);
    StartsUnique(lens, o, q, Reverse(Block(lens, o, root), root) + Shl(y, root));
  }
}
