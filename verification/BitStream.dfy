/**
 The bit writer and bit reader of the zlib code that is bundled into every V8 session
 (crates/execution/assets/v8-bridge-zlib.js, line 67): `ie`, `Zt`, `_E`, `Np` and the hold/bits reader
 of `Im`. The JavaScript bit operations are on 32-bit integers. Only a shift of a sixteen-bit value by sixteen
 leaves them, and it is masked to its low sixteen bits, which the wrap does not touch; so `<<`, `>>`, `&`
 and `|` are the operations of module BitString.
 */
module BitStream {
  import opened Wire
  import opened BitString

  const BUF_SIZE := 16

  class BitWriter {
    var pending: seq<u8>
    var biBuf: nat
    var biValid: nat

    ghost predicate Valid()
      reads this
    {
      biValid <= BUF_SIZE && biBuf < Pow2(biValid)
    }

    /** Every bit written so far. */
    ghost function Written(): (s: seq<bool>)
      reads this
    {
      BytesBits(pending) + Bits(biBuf, biValid)
    }

    constructor ()
      ensures Valid() && Written() == [] && pending == []
    {
      pending, biBuf, biValid := [], 0, 0;
      assert Pow2(0) == 1;
    }

    /** `Zt`: both bytes of a short, low byte first. */
    method PutShort(w: nat)
      requires w < 0x1_0000
      modifies this`pending
      ensures BytesBits(pending) == old(BytesBits(pending)) + Bits(w, 16)
      ensures |pending| == |old(pending)| + 2
    {
      ShortBits(w);
      BytesBitsAppend(pending, [w % 0x100, w / 0x100]);
      assert pending + [w % 0x100] + [w / 0x100] == pending + [w % 0x100, w / 0x100];
      pending := pending + [w % 0x100];
      pending := pending + [w / 0x100];
    }

    /** `ie`: the low `length` bits of `value` go out after everything written before. */
    method SendBits(value: nat, length: nat)
      requires Valid() && length <= 16 && value < Pow2(length)
      modifies this
      ensures Valid() && Written() == old(Written()) + Bits(value, length)
    {
      hide Or, Mask, Shr, Bits, BytesBits, Pow2;
      ghost var sent := Written();
      if biValid > BUF_SIZE - length {
        var room := BUF_SIZE - biValid;
        FillsBuffer(biBuf, biValid, value, length);
        ghost var low := Mask(value, room);
        ghost var full := biBuf + low * Pow2(biValid);
        biBuf := Or(biBuf, Mask(Shl(value, biValid), 16));
        PutShort(biBuf);
        biBuf := Shr(value, BUF_SIZE - biValid);
        biValid := biValid + length - BUF_SIZE;
        assert Written() == (old(BytesBits(pending)) + (old(Bits(biBuf, biValid)) + Bits(low, room))) +
          Bits(biBuf, biValid);
      } else {
        FitsBuffer(biBuf, biValid, value, length);
        biBuf := Or(biBuf, Mask(Shl(value, biValid), 16));
        biValid := biValid + length;
      }
    }

    /** `_E`: whole bytes leave the buffer; no bit is added or lost. */
    method FlushBits()
      requires Valid()
      modifies this
      ensures Valid() && Written() == old(Written()) && biValid < 8
    {
      hide Bits, BytesBits, Pow2;
      if biValid == 16 {
        Pow2Values();
        PutShort(biBuf);
        NoBits(biBuf);
        biBuf := 0;
        biValid := 0;
        NoBits(biBuf);
      } else if biValid >= 8 {
        LowByte(biBuf, biValid);
        BytesBitsAppend(pending, [biBuf % 0x100]);
        BytesBitsOne(biBuf % 0x100);
        pending := pending + [biBuf % 0x100];
        biBuf := biBuf / 0x100;
        biValid := biValid - 8;
      }
    }

    /** `Np`: pads with zero bits to the next byte and empties the buffer. */
    method Windup()
      requires Valid()
      modifies this
      ensures Valid() && biValid == 0
      ensures exists pad :: 0 <= pad < 8 && BytesBits(pending) == old(Written()) + Zeros(pad)
    {
      Pow2Values();
      ghost var pad := 0;
      if biValid > 8 {
        pad := 16 - biValid;
        Pow2Monotone(biValid, 16);
        BitsPad(biBuf, biValid, pad);
        PutShort(biBuf);
      } else if biValid > 0 {
        pad := 8 - biValid;
        Pow2Monotone(biValid, 8);
        BitsPad(biBuf, biValid, pad);
        BytesBitsAppend(pending, [biBuf]);
        BytesBitsOne(biBuf);
        pending := pending + [biBuf];
      }
      assert BytesBits(pending) == old(Written()) + Zeros(pad);
      biBuf := 0;
      biValid := 0;
    }
  }

  lemma NoBits(v: nat)
    ensures Bits(v, 0) == []
  {
  }

  /** The low byte of the buffer and what stays in it. */
  lemma LowByte(buf: nat, valid: nat)
    requires buf < Pow2(valid) && valid >= 8
    ensures Bits(buf, valid) == Bits(buf % 0x100, 8) + Bits(buf / 0x100, valid - 8)
    ensures buf / 0x100 < Pow2(valid - 8)
  {
    hide Bits, Mask, Shr, Pow2;
    Pow2Values();
    SplitUnique(buf, 8, buf % 0x100, buf / 0x100);
    BitsSplit(buf, 8, valid - 8);
    ShrBelow(buf, 8, valid - 8);
  }

  /** A value that still fits is laid on top of the buffered bits. */
  lemma FitsBuffer(buf: nat, valid: nat, value: nat, length: nat)
    requires buf < Pow2(valid) && value < Pow2(length) && valid + length <= 16
    ensures var buf' := Or(buf, Mask(Shl(value, valid), 16));
            buf' < Pow2(valid + length) && Bits(buf', valid + length) == Bits(buf, valid) + Bits(value, length)
  {
    hide Or, Mask, Bits;
    Pow2Values();
    StackBelow(value, length, 0, valid);
    Pow2Monotone(valid + length, 16);
    assert Pow2(length + valid) <= Pow2(16);
    MaskBelow(Shl(value, valid), 16);
    OrAbove(buf, value, valid);
    StackBelow(value, length, buf, valid);
    BitsJoin(buf, value, valid, length);
  }

  /** Otherwise the low part of the value completes the sixteen bits and the high part stays. */
  lemma FillsBuffer(buf: nat, valid: nat, value: nat, length: nat)
    requires buf < Pow2(valid) && value < Pow2(length) && valid <= 16 && length <= 16 && valid + length > 16
    ensures var room := 16 - valid;
            var buf' := Or(buf, Mask(Shl(value, valid), 16));
            && buf' < 0x1_0000 && Bits(buf', 16) == Bits(buf, valid) + Bits(Mask(value, room), room)
            && Shr(value, room) < Pow2(length - room)
            && Bits(value, length) == Bits(Mask(value, room), room) + Bits(Shr(value, room), length - room)
  {
    hide Or, Mask, Shr, Bits, Pow2;
    Pow2Values();
    var room := 16 - valid;
    var low, high := Mask(value, room), Shr(value, room);
    SplitAt(value, room);
    ShrBelow(value, room, length - room);
    BitsSplit(value, room, length - room);
    StackBelow(low, room, 0, valid);
    ShiftedSplit(value, low, high, room, valid);
    SplitUnique(Shl(value, valid), 16, low * Pow2(valid), high);
    OrAbove(buf, low, valid);
    StackBelow(low, room, buf, valid);
    BitsJoin(buf, low, valid, room);
  }

  lemma ShiftedSplit(value: nat, low: nat, high: nat, room: nat, valid: nat)
    requires value == low + high * Pow2(room)
    ensures Shl(value, valid) == low * Pow2(valid) + high * Pow2(room + valid)
  {
    hide Pow2;
    Pow2Add(room, valid);
    var p, q := Pow2(room), Pow2(valid);
    MulAssociates(high, p, q);
    assert (low + high * p) * q == low * q + high * p * q;
  }

  // ---------------------------------------------------------------------
  // Reading
  // ---------------------------------------------------------------------

  class BitReader {
    const input: seq<u8>
    var next: nat
    var hold: nat
    var bits: nat

    ghost predicate Valid()
      reads this
    {
      next <= |input| && hold < Pow2(bits) && bits < 24
    }

    /** Every bit not taken yet. */
    ghost function Remaining(): (s: seq<bool>)
      requires Valid()
      reads this
    {
      Bits(hold, bits) + BytesBits(input[next..])
    }

    constructor (input: seq<u8>)
      ensures Valid() && Remaining() == BytesBits(input)
    {
      this.input := input;
      next, hold, bits := 0, 0, 0;
      assert Pow2(0) == 1;
      new;
      assert input[0..] == input;
      assert Bits(0, 0) + BytesBits(input) == BytesBits(input);
    }

    /** One more byte on top of the held bits; at most 23 bits are ever held, so nothing wraps. */
    method PullByte()
      requires Valid() && next < |input| && bits < 16
      modifies this
      ensures Valid() && Remaining() == old(Remaining()) && bits == old(bits) + 8 && next == old(next) + 1
      ensures Mask(hold, old(bits)) == old(hold)
    {
      hide Bits, BytesBits, Pow2, Mask, Shr;
      Pow2Values();
      var b := input[next];
      StackBelow(b, 8, hold, bits);
      BitsJoin(hold, b, bits, 8);
      SplitUnique(hold + Shl(b, bits), bits, hold, b);
      assert BytesBits(input[next..]) == Bits(b, 8) + BytesBits(input[next + 1..]) by { FirstByte(input[next..]); }
      hold := hold + Shl(b, bits);
      bits := bits + 8;
      next := next + 1;
    }

    /** The low `n` held bits are taken off. */
    method DropBits(n: nat) returns (value: nat)
      requires Valid() && n <= bits
      modifies this
      ensures Valid() && value < Pow2(n) && old(Remaining()) == Bits(value, n) + Remaining()
      ensures value == Mask(old(hold), n) && bits == old(bits) - n && next == old(next)
    {
      hide Bits, BytesBits, Pow2, Mask, Shr;
      value := Mask(hold, n);
      BitsSplit(hold, n, bits - n);
      ShrBelow(hold, n, bits - n);
      hold := Shr(hold, n);
      bits := bits - n;
    }

    /** The loop in front of every field: pull bytes until `n` bits are held, or stop at the end of the input. */
    method NeedBits(n: nat) returns (ok: bool)
      requires Valid() && n <= 16
      modifies this
      ensures Valid() && Remaining() == old(Remaining())
      ensures ok <==> n <= |old(Remaining())|
      ensures ok ==> n <= bits
    {
      hide Bits, BytesBits, Pow2, Mask;
      while bits < n
        invariant Valid() && Remaining() == old(Remaining())
        decreases |input| - next
      {
        if next == |input| {
          assert BytesBits(input[next..]) == [];
          return false;
        }
        PullByte();
      }
      return true;
    }

    method ReadBits(n: nat) returns (r: Option<nat>)
      requires Valid() && n <= 16
      modifies this
      ensures Valid()
      ensures r.Some? <==> n <= |old(Remaining())|
      ensures r.Some? ==> r.value < Pow2(n) && old(Remaining()) == Bits(r.value, n) + Remaining()
      ensures r.None? ==> Remaining() == old(Remaining())
    {
      hide Bits, BytesBits, Pow2, Mask;
      var ok := NeedBits(n);
      if !ok {
        return None;
      }
      var v := DropBits(n);
      return Some(v);
    }
  }

  lemma FirstByte(bytes: seq<u8>)
    requires bytes != []
    ensures BytesBits(bytes) == Bits(bytes[0], 8) + BytesBits(bytes[1..])
  {
  }

  // ---------------------------------------------------------------------
  // Round trip
  // ---------------------------------------------------------------------

  datatype Field = Field(value: nat, width: nat)

  ghost predicate Writable(fields: seq<Field>) {
    forall i :: 0 <= i < |fields| ==> fields[i].width <= 16 && fields[i].value < Pow2(fields[i].width)
  }

  /** The bits of the fields, one after the other. */
  function FieldBits(fields: seq<Field>): (s: seq<bool>) {
    if fields == [] then [] else Bits(fields[0].value, fields[0].width) + FieldBits(fields[1..])
  }

  lemma {:induction false} FieldBitsAppend(fields: seq<Field>, f: Field)
    ensures FieldBits(fields + [f]) == FieldBits(fields) + Bits(f.value, f.width)
  {
    hide Bits;
    if fields == [] {
      assert FieldBits([f]) == Bits(f.value, f.width) + FieldBits([f][1..]);
      assert fields + [f] == [f];
      assert [] + Bits(f.value, f.width) == Bits(f.value, f.width) + [];
    } else {
      assert (fields + [f])[1..] == fields[1..] + [f];
      FieldBitsAppend(fields[1..], f);
      var a, b, c := Bits(fields[0].value, fields[0].width), FieldBits(fields[1..]), Bits(f.value, f.width);
      assert a + (b + c) == (a + b) + c;
    }
  }

  /** The emitted bytes are the fields' bits and less than one byte of zeros. */
  method WriteFields(fields: seq<Field>) returns (bytes: seq<u8>)
    requires Writable(fields)
    ensures exists pad :: 0 <= pad < 8 && BytesBits(bytes) == FieldBits(fields) + Zeros(pad)
  {
    hide Bits, BytesBits, Pow2, Zeros;
    var w := new BitWriter();
    for i := 0 to |fields|
      invariant w.Valid() && fresh(w)
      invariant w.Written() == FieldBits(fields[..i])
    {
      w.SendBits(fields[i].value, fields[i].width);
      FieldBitsAppend(fields[..i], fields[i]);
      assert fields[..i + 1] == fields[..i] + [fields[i]];
    }
    assert fields[..|fields|] == fields;
    w.Windup();
    bytes := w.pending;
  }

  /** Reading with the widths that were written returns the values that were written. */
  method WriteThenRead(fields: seq<Field>) returns (values: seq<nat>)
    requires Writable(fields)
    ensures |values| == |fields| && forall i :: 0 <= i < |fields| ==> values[i] == fields[i].value
  {
    hide Bits, BytesBits, Pow2, Zeros;
    var bytes := WriteFields(fields);
    ghost var pad :| 0 <= pad < 8 && BytesBits(bytes) == FieldBits(fields) + Zeros(pad);
    var r := new BitReader(bytes);
    values := [];
    for i := 0 to |fields|
      invariant r.Valid() && fresh(r) && |values| == i
      invariant r.Remaining() == FieldBits(fields[i..]) + Zeros(pad)
      invariant forall j :: 0 <= j < i ==> values[j] == fields[j].value
    {
      ghost var now := r.Remaining();
      ghost var head, tail := Bits(fields[i].value, fields[i].width), FieldBits(fields[i + 1..]);
      assert now == head + (tail + Zeros(pad)) by {
        assert fields[i..][1..] == fields[i + 1..];
        assert FieldBits(fields[i..]) == head + tail;
        assert (head + tail) + Zeros(pad) == head + (tail + Zeros(pad));
      }
      assert |head| == fields[i].width;
      var v := r.ReadBits(fields[i].width);
      SamePrefix(head, tail + Zeros(pad), Bits(v.value, fields[i].width), r.Remaining());
      BitsInjective(fields[i].value, v.value, fields[i].width);
      values := values + [v.value];
    }
  }

  lemma SamePrefix(a: seq<bool>, b: seq<bool>, c: seq<bool>, d: seq<bool>)
    requires |a| == |c| && a + b == c + d
    ensures a == c && b == d
  {
    assert a == (a + b)[..|a|] == (c + d)[..|c|] == c;
    assert b == (a + b)[|a|..] == (c + d)[|c|..] == d;
  }
}
