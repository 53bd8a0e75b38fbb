/**
 Reading symbols through the tables (the code-length, literal and distance states of `Im`,
 crates/execution/assets/v8-bridge-zlib.js, line 67), and the round trip from symbols through `Tp` codes, the bit
 writer, the tables and the bit reader back to the same symbols.
 */
module InflateSymbols {
  import opened Wire
  import opened BitString
  import opened BitStream
  import opened Huffman
  import opened HuffmanTree
  import opened HuffmanTable
  import opened InflateTable
  import opened InflateBuilder
  import opened InflateSize

  // ---------------------------------------------------------------------
  // One symbol
  // ---------------------------------------------------------------------

  /** The symbol whose code the held bits start with, if the entry they lead to is no longer than what is held. */
  lemma Held(kind: Kind, lens: seq<nat>, table: seq<Entry>, root: nat, hold: nat, bits: nat) returns (sym: Option<nat>)
    requires |lens| <= Symbols(kind) && NotOversubscribed(lens) && Decodes(kind, lens, table, root)
    requires hold < Pow2(bits) && Find(table, root, hold).bits <= bits
    ensures sym.Some? ==> Used(lens, sym.value) && CodeBits(lens, sym.value) <= Bits(hold, bits)
                          && Find(table, root, hold) == SymbolEntry(kind, sym.value, lens[sym.value])
    ensures sym.None? ==> Find(table, root, hold) == INVALID
    ensures sym.None? ==> forall o: nat :: Used(lens, o) ==> lens[o] <= bits && !(CodeBits(lens, o) <= Bits(hold, bits))
  {
    hide Space, Pow2, Bits, Starts, CodeBits, Find, Op, Val;
    assert Finds(kind, lens, table, root, hold);
    if o: nat :| Used(lens, o) && Starts(lens, o, hold) && Find(table, root, hold) == SymbolEntry(kind, o, lens[o]) {
      StartsIsPrefix(lens, o, hold, bits);
      sym := Some(o);
    } else {
      sym := None;
      forall o: nat | Used(lens, o)
        ensures lens[o] <= bits && !(CodeBits(lens, o) <= Bits(hold, bits))
      {
        StartsIsPrefix(lens, o, hold, bits);
      }
    }
  }

  /** As long as the entry is longer than what is held, no symbol's code is held. */
  lemma NotHeld(kind: Kind, lens: seq<nat>, table: seq<Entry>, root: nat, hold: nat, bits: nat, o: nat)
    requires |lens| <= Symbols(kind) && NotOversubscribed(lens) && Decodes(kind, lens, table, root)
    requires hold < Pow2(bits) && Find(table, root, hold).bits > bits && Used(lens, o)
    ensures !(CodeBits(lens, o) <= Bits(hold, bits))
  {
    hide Space, Pow2, Bits, Starts, CodeBits, Find, Op, Val;
    assert Finds(kind, lens, table, root, hold);
    if CodeBits(lens, o) <= Bits(hold, bits) {
      StartsIsPrefix(lens, o, hold, bits);
      var q: nat :| Used(lens, q) && Starts(lens, q, hold) && Find(table, root, hold) == SymbolEntry(kind, q, lens[q]);
      StartsUnique(lens, o, q, hold);
    }
  }

  lemma NothingMore(r: BitReader)
    requires r.Valid() && r.next == |r.input|
    ensures r.Remaining() == Bits(r.hold, r.bits)
  {
    assert r.input[r.next..] == [];
    assert BytesBits([]) == [];
  }

  lemma NoneHeld(kind: Kind, lens: seq<nat>, table: seq<Entry>, root: nat, r: BitReader)
    requires |lens| <= Symbols(kind) && NotOversubscribed(lens) && Decodes(kind, lens, table, root)
    requires r.Valid() && r.next == |r.input| && Find(table, root, r.hold).bits > r.bits
    ensures forall o: nat :: Used(lens, o) ==> !(CodeBits(lens, o) <= r.Remaining())
  {
    hide Space, Pow2, Bits, CodeBits, Find, Decodes, BytesBits;
    NothingMore(r);
    forall o: nat | Used(lens, o)
      ensures !(CodeBits(lens, o) <= r.Remaining())
    {
      NotHeld(kind, lens, table, root, r.hold, r.bits, o);
    }
  }

  /** The index into the sub-table, as the program computes it. */
  lemma SubIndex(hold: nat, bits: nat, op: nat)
    ensures Shr(Mask(hold, bits + op), bits) == Mask(Shr(hold, bits), op)
  {
    ShrOfMask(hold, bits + op, bits);
  }

  /**
   Looks the held bits up at both levels, and pulls a byte while the entry is longer than what is held.
   What it returns is the entry that the bits held at the end lead to.
   */
  method LookUp(kind: Kind, lens: seq<nat>, table: array<Entry>, root: nat, r: BitReader)
    returns (ok: bool, last: nat, here: Entry)
    requires |lens| <= Symbols(kind) && NotOversubscribed(lens) && Decodes(kind, lens, table[..], root) && r.Valid()
    modifies r
    ensures r.Valid() && r.Remaining() == old(r.Remaining())
    ensures ok ==> last + here.bits <= r.bits
    ensures ok ==> Find(table[..], root, r.hold) == Entry(last + here.bits, here.op, here.val)
    ensures !ok ==> forall o: nat :: Used(lens, o) ==> !(CodeBits(lens, o) <= r.Remaining())
  {
    hide Space, Pow2, Bits, CodeBits, Mask, BytesBits, Starts, Shr, Finds;
    here, last := table[Mask(r.hold, root)], 0;
    while here.bits > r.bits
      invariant r.Valid() && r.Remaining() == old(r.Remaining()) && here == table[Mask(r.hold, root)]
      decreases |r.input| - r.next
    {
      EntryShort(kind, lens, table[..], root, r.hold);
      if r.next == |r.input| {
        NoneHeld(kind, lens, table[..], root, r);
        return false, last, here;
      }
      r.PullByte();
      here := table[Mask(r.hold, root)];
    }
    if IsLink(here) {
      var link := here;
      last := link.bits;
      SubIndex(r.hold, last, link.op);
      here := table[link.val + Shr(Mask(r.hold, last + link.op), last)];
      while last + here.bits > r.bits
        invariant r.Valid() && r.Remaining() == old(r.Remaining()) && link == table[Mask(r.hold, root)]
        invariant last <= r.bits
        invariant Find(table[..], root, r.hold) == Entry(last + here.bits, here.op, here.val)
        decreases |r.input| - r.next
      {
        EntryShort(kind, lens, table[..], root, r.hold);
        if r.next == |r.input| {
          NoneHeld(kind, lens, table[..], root, r);
          return false, last, here;
        }
        ghost var before, held := r.hold, r.bits;
        r.PullByte();
        assert Mask(r.hold, root) == Mask(before, root) by {
          assert Mask(r.hold, held) == before;
          MaskOfMask(r.hold, held, root);
        }
        SubIndex(r.hold, last, link.op);
        here := table[link.val + Shr(Mask(r.hold, last + link.op), last)];
      }
    }
    return true, last, here;
  }

  /** No entry needs more than fifteen bits. */
  lemma EntryShort(kind: Kind, lens: seq<nat>, table: seq<Entry>, root: nat, hold: nat)
    requires |lens| <= Symbols(kind) && Decodes(kind, lens, table, root)
    ensures Find(table, root, hold).bits <= MAX_BITS
    ensures table[Mask(hold, root)].bits <= Find(table, root, hold).bits
  {
    hide Mask, Starts, Op, Val, Shr;
    assert Finds(kind, lens, table, root, hold);
  }

  /** The symbol that comes next, if the entry for the held bits is no longer than what is held. */
  lemma Next(kind: Kind, lens: seq<nat>, table: seq<Entry>, root: nat, r: BitReader) returns (sym: Option<nat>)
    requires |lens| <= Symbols(kind) && NotOversubscribed(lens) && Decodes(kind, lens, table, root)
    requires r.Valid() && Find(table, root, r.hold).bits <= r.bits
    ensures sym.Some? ==> Used(lens, sym.value) && CodeBits(lens, sym.value) <= r.Remaining()
                          && Find(table, root, r.hold) == SymbolEntry(kind, sym.value, lens[sym.value])
    ensures sym.None? ==> Find(table, root, r.hold) == INVALID
    ensures sym.None? ==> forall o: nat :: Used(lens, o) ==> !(CodeBits(lens, o) <= r.Remaining())
  {
    hide Space, Pow2, Bits, CodeBits, BytesBits, Find, Decodes, Op, Val;
    sym := Held(kind, lens, table, root, r.hold, r.bits);
    var held := Bits(r.hold, r.bits);
    assert r.Remaining()[..r.bits] == held;
    if sym.None? {
      forall o: nat | Used(lens, o)
        ensures !(CodeBits(lens, o) <= r.Remaining())
      {
        if CodeBits(lens, o) <= r.Remaining() {
          PrefixOfPart(CodeBits(lens, o), r.Remaining(), held);
        }
      }
    }
  }

  lemma PrefixOfPart(a: seq<bool>, s: seq<bool>, part: seq<bool>)
    requires a <= s && part <= s && |a| <= |part|
    ensures a <= part
  {
    assert part == s[..|part|] && a == s[..|a|];
  }

  /** Two parts taken one after the other are the prefix that is as long as both. */
  lemma TwoParts(now: seq<bool>, a: seq<bool>, b: seq<bool>, rest: seq<bool>, code: seq<bool>)
    requires now == a + (b + rest) && code <= now
    ensures |code| == |a| + |b| ==> now == code + rest
  {
    assert now == (a + b) + rest;
    if |code| == |a| + |b| {
      assert code == now[..|code|] == a + b;
    }
  }

  /**
   The read of one symbol: what the table says about a symbol is returned exactly if the symbol's code comes next,
   and exactly that code is taken. At the end of the input nothing is taken; bits that no code starts with
   lead to the invalid entry.
   */
  method DecodeSymbol(kind: Kind, lens: seq<nat>, table: array<Entry>, root: nat, r: BitReader)
    returns (e: Option<Entry>, ghost sym: Option<nat>)
    requires |lens| <= Symbols(kind) && NotOversubscribed(lens) && Decodes(kind, lens, table[..], root) && r.Valid()
    modifies r
    ensures r.Valid() && (sym.Some? ==> e.Some?)
    ensures sym.Some? ==> Used(lens, sym.value) && old(r.Remaining()) == CodeBits(lens, sym.value) + r.Remaining()
                          && e.value == SymbolEntry(kind, sym.value, lens[sym.value])
    ensures sym.None? ==> forall o: nat :: Used(lens, o) ==> !(CodeBits(lens, o) <= old(r.Remaining()))
    ensures sym.None? && e.Some? ==> e.value == INVALID
    ensures e.None? ==> r.Remaining() == old(r.Remaining())
  {
    hide Space, Pow2, Bits, CodeBits, BytesBits, Find, Decodes, Op, Val;
    var ok, last, here := LookUp(kind, lens, table, root, r);
    if !ok {
      return None, None;
    }
    sym := Next(kind, lens, table[..], root, r);
    ghost var now := r.Remaining();
    var v := r.DropBits(last);
    var w := r.DropBits(here.bits);
    TwoParts(now, Bits(v, last), Bits(w, here.bits), r.Remaining(),
             if sym.Some? then CodeBits(lens, sym.value) else []);
    e := Some(Entry(last + here.bits, here.op, here.val));
  }

  lemma {:induction false} Increases(s: seq<nat>, n: nat, i: nat, j: nat)
    requires i < j < n <= |s| && forall k :: 0 < k < n ==> s[k - 1] < s[k]
    ensures s[i] < s[j]
    decreases j
  {
    if i < j - 1 {
      Increases(s, n, i, j - 1);
    }
  }

  lemma BasesIncrease()
    ensures forall k :: 0 < k < 29 ==> LENGTH_BASE[k - 1] < LENGTH_BASE[k]
    ensures forall k :: 0 < k < 30 ==> DISTANCE_BASE[k - 1] < DISTANCE_BASE[k]
  {
  }

  lemma LastOnes()
    ensures |LENGTH_BASE| == |LENGTH_EXTRA| == 31 && |DISTANCE_BASE| == |DISTANCE_EXTRA| == 32
    ensures LENGTH_BASE[0] > 0 && LENGTH_BASE[29] == 0 && LENGTH_BASE[30] == 0 && LENGTH_EXTRA[29] != LENGTH_EXTRA[30]
    ensures DISTANCE_BASE[0] > 0 && DISTANCE_BASE[30] == 0 && DISTANCE_BASE[31] == 0
  {
  }

  /** No base value but the unused ones occurs twice. */
  lemma DistinctBases(s: seq<nat>, n: nat, a: nat, b: nat)
    requires n > 0 && a < |s| && b < |s| && n <= |s| && (forall k :: 0 < k < n ==> s[k - 1] < s[k])
    requires s[0] > 0 && (forall k :: n <= k < |s| ==> s[k] == 0) && s[a] == s[b]
    ensures a == b || (a >= n && b >= n)
  {
    if a < b < n {
      Increases(s, n, a, b);
    } else if b < a < n {
      Increases(s, n, b, a);
    }
    if 0 < a < n {
      Increases(s, n, 0, a);
    }
    if 0 < b < n {
      Increases(s, n, 0, b);
    }
  }

  lemma LengthsTell(a: nat, b: nat)
    requires a < 31 && b < 31 && LENGTH_EXTRA[a] == LENGTH_EXTRA[b] && LENGTH_BASE[a] == LENGTH_BASE[b]
    ensures a == b
  {
    hide LENGTH_BASE, LENGTH_EXTRA;
    BasesIncrease();
    LastOnes();
    DistinctBases(LENGTH_BASE, 29, a, b);
  }

  lemma DistancesTell(a: nat, b: nat)
    requires a < 32 && b < 32 && DISTANCE_BASE[a] == DISTANCE_BASE[b]
    ensures a == b || (a >= 30 && b >= 30)
  {
    hide DISTANCE_BASE;
    BasesIncrease();
    LastOnes();
    DistinctBases(DISTANCE_BASE, 30, a, b);
  }

  /** What the tables say about a symbol tells which one it is, except for the two distances that are not in use. */
  lemma EntriesTellSymbols(kind: Kind, a: nat, b: nat)
    requires a < Symbols(kind) && b < Symbols(kind) && Op(kind, a) == Op(kind, b) && Val(kind, a) == Val(kind, b)
    ensures a == b || (kind.Distances? && a >= 30 && b >= 30)
  {
    hide LENGTH_BASE, LENGTH_EXTRA, DISTANCE_BASE, DISTANCE_EXTRA;
    LastOnes();
    match kind
    case CodeLengths =>
    case Literals =>
      KindsDiffer(a, b);
      if a > END_OF_BLOCK && b > END_OF_BLOCK {
        LengthsTell(a - 257, b - 257);
      }
    case Distances =>
      DistancesTell(a, b);
  }

  /** Literals, the end of a block and lengths are told apart by their kind of entry. */
  lemma KindsDiffer(a: nat, b: nat)
    requires a < 288 && b < 288
    ensures Op(Literals, a) == Op(Literals, b) ==>
      (a < END_OF_BLOCK <==> b < END_OF_BLOCK) && (a == END_OF_BLOCK <==> b == END_OF_BLOCK)
  {
    assert forall k :: 0 <= k < 31 ==> 0 < LENGTH_EXTRA[k] < 96;
  }

  // ---------------------------------------------------------------------
  // Round trip
  // ---------------------------------------------------------------------

  ghost function SymbolBits(lens: seq<nat>, symbols: seq<nat>): (s: seq<bool>)
    requires forall i :: 0 <= i < |symbols| ==> Used(lens, symbols[i])
  {
    if symbols == [] then [] else CodeBits(lens, symbols[0]) + SymbolBits(lens, symbols[1..])
  }

  lemma {:induction false} SymbolBitsAppend(lens: seq<nat>, symbols: seq<nat>, o: nat)
    requires forall i :: 0 <= i < |symbols| ==> Used(lens, symbols[i])
    requires Used(lens, o)
    ensures SymbolBits(lens, symbols + [o]) == SymbolBits(lens, symbols) + CodeBits(lens, o)
  {
    hide CodeBits, Used;
    if symbols == [] {
      assert symbols + [o] == [o];
      assert SymbolBits(lens, [o]) == CodeBits(lens, o) + SymbolBits(lens, [o][1..]);
    } else {
      assert (symbols + [o])[1..] == symbols[1..] + [o];
      SymbolBitsAppend(lens, symbols[1..], o);
      var a, b, c := CodeBits(lens, symbols[0]), SymbolBits(lens, symbols[1..]), CodeBits(lens, o);
      assert a + (b + c) == (a + b) + c;
    }
  }

  /** `Te` for each symbol: its tree entry is sent as a value and a width. */
  method EncodeSymbols(tree: array<Node>, symbols: seq<nat>) returns (bytes: seq<u8>)
    requires NotOversubscribed(LensOf(tree[..]))
    requires forall i :: 0 <= i < |symbols| ==> Used(LensOf(tree[..]), symbols[i])
    requires forall o :: 0 <= o < tree.Length && Used(LensOf(tree[..]), o) ==>
      tree[o].code == Reverse(Code(LensOf(tree[..]), o), tree[o].len)
    ensures exists pad :: 0 <= pad < 8 && BytesBits(bytes) == SymbolBits(LensOf(tree[..]), symbols) + Zeros(pad)
  {
    hide Space, Pow2, Bits, CodeBits, BytesBits, Zeros, Reverse, Code;
    ghost var lens := LensOf(tree[..]);
    var w := new BitWriter();
    for i := 0 to |symbols|
      invariant w.Valid() && fresh(w)
      invariant w.Written() == SymbolBits(lens, symbols[..i])
    {
      var node := tree[symbols[i]];
      assert node.len == lens[symbols[i]];
      assert Bits(node.code, node.len) == CodeBits(lens, symbols[i]) by { SentBits(lens, symbols[i]); }
      w.SendBits(node.code, node.len);
      SymbolBitsAppend(lens, symbols[..i], symbols[i]);
      assert symbols[..i + 1] == symbols[..i] + [symbols[i]];
    }
    assert symbols[..|symbols|] == symbols;
    w.Windup();
    bytes := w.pending;
  }

  lemma SentBits(lens: seq<nat>, o: nat)
    requires Used(lens, o)
    ensures Bits(Reverse(Code(lens, o), lens[o]), lens[o]) == CodeBits(lens, o)
  {
    BitsOfReverse(Code(lens, o), lens[o]);
  }

  /** `entries` is what the tables say about `symbols`. */
  ghost predicate Says(kind: Kind, lens: seq<nat>, symbols: seq<nat>, entries: seq<Entry>)
    requires |lens| <= Symbols(kind) && forall i :: 0 <= i < |symbols| ==> Used(lens, symbols[i])
  {
    |entries| == |symbols| &&
    forall i :: 0 <= i < |symbols| ==>
      assert Used(lens, symbols[i]); entries[i] == SymbolEntry(kind, symbols[i], lens[symbols[i]])
  }

  /** Reads back as many symbols as were sent; what is read is what was sent. */
  method DecodeSymbols(kind: Kind, lens: seq<nat>, table: array<Entry>, root: nat, bytes: seq<u8>, n: nat,
                       ghost sent: seq<nat>, ghost pad: nat)
    returns (entries: seq<Entry>)
    requires |lens| <= Symbols(kind) && NotOversubscribed(lens) && Decodes(kind, lens, table[..], root)
    requires |sent| == n && forall i :: 0 <= i < n ==> Used(lens, sent[i])
    requires BytesBits(bytes) == SymbolBits(lens, sent) + Zeros(pad)
    ensures Says(kind, lens, sent, entries)
  {
    hide Space, Pow2, Bits, CodeBits, BytesBits, Zeros, Decodes, Op, Val;
    var r := new BitReader(bytes);
    entries := [];
    for i := 0 to n
      invariant r.Valid() && fresh(r) && Says(kind, lens, sent[..i], entries)
      invariant r.Remaining() == SymbolBits(lens, sent[i..]) + Zeros(pad)
    {
      ghost var now := r.Remaining();
      ghost var head, tail := CodeBits(lens, sent[i]), SymbolBits(lens, sent[i + 1..]) + Zeros(pad);
      assert now == head + tail by { FirstSymbol(lens, sent, i, Zeros(pad)); }
      assert head <= now;
      var e, sym := DecodeSymbol(kind, lens, table, root, r);
      UniqueDecoding(lens, sent[i], sym.value, now);
      SamePrefix(head, tail, CodeBits(lens, sym.value), r.Remaining());
      entries := entries + [e.value];
    }
    assert sent[..n] == sent;
  }

  lemma FirstSymbol(lens: seq<nat>, sent: seq<nat>, i: nat, rest: seq<bool>)
    requires i < |sent| && forall k :: 0 <= k < |sent| ==> Used(lens, sent[k])
    ensures SymbolBits(lens, sent[i..]) + rest == CodeBits(lens, sent[i]) + (SymbolBits(lens, sent[i + 1..]) + rest)
  {
    hide CodeBits, Used;
    assert sent[i..][1..] == sent[i + 1..];
    var a, b := CodeBits(lens, sent[i]), SymbolBits(lens, sent[i + 1..]);
    assert (a + b) + rest == a + (b + rest);
  }

  /**
   From symbols to bytes and back, for all complete code lengths up to fifteen bits and any root index: if the tables
   for the lengths are within the limit, they are built and decode what was sent with the codes assigned from the
   lengths.
   */
  method RoundTrip(kind: Kind, tree: array<Node>, bits: nat, table: array<Entry>, symbols: seq<nat>)
    returns (status: Status, entries: seq<Entry>)
    requires Complete(LensOf(tree[..])) && LengthsOk(LensOf(tree[..])) && tree.Length <= Symbols(kind)
    requires 1 <= bits <= MAX_BITS
    requires forall i :: 0 <= i < |symbols| ==> Used(LensOf(tree[..]), symbols[i])
    requires Roomy(kind, LensOf(tree[..]), bits, table.Length) && table != tree as object
    modifies tree, table
    ensures LensOf(tree[..]) == old(LensOf(tree[..]))
    ensures status ==
      if Exceeds(kind, TableSize(LensOf(tree[..]), RootBits(LensOf(tree[..]), bits))) then TooLarge else Built
    ensures status.Built? ==> Says(kind, LensOf(tree[..]), symbols, entries)
  {
    hide Space, Pow2, Count, Decodes, Reverse, Code, SymbolBits, Zeros, BytesBits, CodeBits, Op, Val, TableSize,
      RootBits;
    ghost var lens := LensOf(tree[..]);
    assert tree[..tree.Length] == tree[..];
    var lengths := ReadLengths(tree);
    var count := CountLengths(lengths);
    count[0] := 0;
    GenCodes(tree, tree.Length, count[..]);
    assert tree[..tree.Length] == tree[..];
    assert LensOf(tree[..]) == lens;
    var bytes := EncodeSymbols(tree, symbols);
    var root;
    status, root := BuildTable(kind, lengths, bits, table);
    entries := [];
    if status.Built? {
      ghost var pad :| 0 <= pad < 8 && BytesBits(bytes) == SymbolBits(lens, symbols) + Zeros(pad);
      entries := DecodeSymbols(kind, lengths, table, root, bytes, |symbols|, symbols, pad);
    }
  }

  /** The lengths travel to the decoder in front of the data. */
  method ReadLengths(tree: array<Node>) returns (lens: seq<nat>)
    ensures lens == LensOf(tree[..])
  {
    lens := [];
    for i := 0 to tree.Length
      invariant |lens| == i && forall o :: 0 <= o < i ==> lens[o] == tree[o].len
    {
      lens := lens + [tree[i].len];
    }
  }
}
