/** The shadow stack of `pebs_taine_tool.c`: packed bitmaps and a byte array standing for one entry per stack byte. */
module ShadowStack {
  import opened Arithmetic
  import opened Registers
  import opened Bits
  import opened Bytes

  /** One byte of a bitmap, bit 0 first. */
  type Bits8 = s: seq<bool> | |s| == 8 witness seq(8, _ => false)

  function And8(x: Bits8, y: Bits8): Bits8 { seq(8, i requires 0 <= i < 8 => x[i] && y[i]) }
  function Or8(x: Bits8, y: Bits8): Bits8 { seq(8, i requires 0 <= i < 8 => x[i] || y[i]) }
  function Not8(x: Bits8): Bits8 { seq(8, i requires 0 <= i < 8 => !x[i]) }
  function Shl8(x: Bits8, n: nat): Bits8 { seq(8, i requires 0 <= i < 8 => i >= n && x[i - n]) }
  function Shr8(x: Bits8, n: nat): Bits8 { seq(8, i requires 0 <= i < 8 => i + n < 8 && x[i + n]) }
  function Add8(x: Bits8, y: Bits8): Bits8 { Fit((Nat(x) + Nat(y)) % 256, 8) }

  /** The table `map`: 0x00, 0x01, 0x03, .. 0xFF. */
  function LowBits(k: nat): Bits8 { seq(8, i => i < k) }

  /** A byte range ending at `offset`, inside a map of `size` bytes; an empty range still touches the bitmap at
      `offset`. */
  predicate InRange(offset: nat, length: nat, size: nat) {
    length <= 8 && length <= offset <= size && (length == 0 ==> offset < size)
  }

  // ---------------------------------------------------------------------------------------------
  // Reference: one entry per stack byte
  // ---------------------------------------------------------------------------------------------

  function Unpacked(s: seq<Bits8>): seq<bool> {
    seq(8 * |s|, k requires 0 <= k < 8 * |s| => s[k / 8][k % 8])
  }

  function Marked(bits: seq<bool>, offset: nat, length: nat, b: bool): (r: seq<bool>)
    requires InRange(offset, length, |bits|)
    ensures |r| == |bits|
  {
    bits[..offset - length] + seq(length, _ => b) + bits[offset..]
  }

  /** The window's bits, lowest stack byte first, as the byte `get_stack_bit` returns. */
  function Window(bits: seq<bool>, offset: nat, length: nat): Bits8
    requires InRange(offset, length, |bits|)
  {
    bits[offset - length..offset] + Falses(8 - length)
  }

  /** Value bytes sit one index above the bitmap bits of the same access. */
  predicate ValueInRange(offset: nat, length: nat, size: nat) {
    length <= 8 && length <= offset < size
  }

  function Stored(values: seq<Byte>, offset: nat, length: nat, v: nat): (r: seq<Byte>)
    requires ValueInRange(offset, length, |values|)
    ensures |r| == |values|
  {
    values[..offset - length + 1] + BytesOf(v, length) + values[offset + 1..]
  }

  function Loaded(values: seq<Byte>, offset: nat, length: nat): nat
    requires ValueInRange(offset, length, |values|)
  {
    NumberOf(values[offset - length + 1..offset + 1])
  }

  // ---------------------------------------------------------------------------------------------
  // The operations
  // ---------------------------------------------------------------------------------------------

  method SetStackBit(offset: nat, length: nat, bitmap: array<Bits8>)
    requires InRange(offset, length, 8 * bitmap.Length)
    modifies bitmap
    ensures Unpacked(bitmap[..]) == Marked(Unpacked(old(bitmap[..])), offset, length, true)
  {
    var newOffset, inlineOffset := (offset - length) / 8, (offset - length) % 8;
    ghost var before := bitmap[..];
    if 8 - inlineOffset < length {
      bitmap[newOffset] := Or8(bitmap[newOffset], Shl8(LowBits(8 - inlineOffset), inlineOffset));
      bitmap[newOffset + 1] := Or8(bitmap[newOffset + 1], LowBits(length + inlineOffset - 8));
    } else {
      bitmap[newOffset] := Or8(bitmap[newOffset], Shl8(LowBits(length), inlineOffset));
    }
    forall k | 0 <= k < 8 * bitmap.Length
      ensures Unpacked(bitmap[..])[k] == Marked(Unpacked(before), offset, length, true)[k]
    {
    }
  }

  method UnsetStackBit(offset: nat, length: nat, bitmap: array<Bits8>)
    requires InRange(offset, length, 8 * bitmap.Length)
    modifies bitmap
    ensures Unpacked(bitmap[..]) == Marked(Unpacked(old(bitmap[..])), offset, length, false)
  {
    var newOffset, inlineOffset := (offset - length) / 8, (offset - length) % 8;
    ghost var before := bitmap[..];
    if 8 - inlineOffset < length {
      bitmap[newOffset] := And8(bitmap[newOffset], Not8(Shl8(LowBits(8 - inlineOffset), inlineOffset)));
      bitmap[newOffset + 1] := And8(bitmap[newOffset + 1], Not8(LowBits(length + inlineOffset - 8)));
    } else {
      bitmap[newOffset] := And8(bitmap[newOffset], Not8(Shl8(LowBits(length), inlineOffset)));
    }
    forall k | 0 <= k < 8 * bitmap.Length
      ensures Unpacked(bitmap[..])[k] == Marked(Unpacked(before), offset, length, false)[k]
    {
    }
  }

  /** What the two methods do to single bits. */
  lemma MarkedBits(before: seq<Bits8>, after: seq<Bits8>, offset: nat, length: nat, b: bool)
    requires |before| == |after| && InRange(offset, length, 8 * |before|)
    requires Unpacked(after) == Marked(Unpacked(before), offset, length, b)
    ensures forall k :: 0 <= k < 8 * |before| ==>
              after[k / 8][k % 8] == if offset - length <= k < offset then b else before[k / 8][k % 8]
  {
    forall k | 0 <= k < 8 * |before|
      ensures after[k / 8][k % 8] == if offset - length <= k < offset then b else before[k / 8][k % 8]
    {
      assert after[k / 8][k % 8] == Unpacked(after)[k];
      assert before[k / 8][k % 8] == Unpacked(before)[k];
    }
  }

  /** `get_stack_bit`, on the bitmap's bytes. */
  function StackBits(s: seq<Bits8>, offset: nat, length: nat): Bits8
    requires InRange(offset, length, 8 * |s|)
  {
    var newOffset, inlineOffset := (offset - length) / 8, (offset - length) % 8;
    if 8 - inlineOffset < length then
      Add8(Shr8(And8(s[newOffset], Shl8(LowBits(8 - inlineOffset), inlineOffset)), inlineOffset),
           Shl8(And8(s[newOffset + 1], LowBits(length + inlineOffset - 8)), 8 - inlineOffset))
    else
      Shr8(And8(s[newOffset], Shl8(LowBits(length), inlineOffset)), inlineOffset)
  }

  lemma Add8Disjoint(x: Bits8, y: Bits8)
    requires forall i :: 0 <= i < 8 ==> !(x[i] && y[i])
    ensures Add8(x, y) == Or8(x, y)
  {
    NatDisjoint(x, y);
    NatBound(Or8(x, y));
    Pow64();
    assert Or8(x, y) == seq(|x|, i requires 0 <= i < |x| => x[i] || y[i]);
    SmallMod(Nat(Or8(x, y)), 256);
    NatFit(Nat(Or8(x, y)), 8);
    NatInjective(Add8(x, y), Or8(x, y));
  }

  /** The bits of a window that starts at bit `inline` of byte `n`. */
  lemma WindowBit(s: seq<Bits8>, offset: nat, length: nat, n: nat, inline: nat, i: nat)
    requires InRange(offset, length, 8 * |s|) && i < 8 && inline < 8 && offset - length == 8 * n + inline
    ensures Window(Unpacked(s), offset, length)[i] ==
      if i >= length then false
      else if inline + i < 8 then s[n][inline + i]
      else s[n + 1][inline + i - 8]
  {
    var k := offset - length + i;
    if i < length {
      assert Window(Unpacked(s), offset, length)[i] == Unpacked(s)[k] == s[k / 8][k % 8];
    }
  }

  lemma SplitWindow(s: seq<Bits8>, offset: nat, length: nat, n: nat, inline: nat)
    requires InRange(offset, length, 8 * |s|) && inline < 8 && offset - length == 8 * n + inline
    requires 8 - inline < length
    ensures Add8(Shr8(And8(s[n], Shl8(LowBits(8 - inline), inline)), inline),
                 Shl8(And8(s[n + 1], LowBits(length + inline - 8)), 8 - inline))
         == Window(Unpacked(s), offset, length)
  {
    var low := Shr8(And8(s[n], Shl8(LowBits(8 - inline), inline)), inline);
    var high := Shl8(And8(s[n + 1], LowBits(length + inline - 8)), 8 - inline);
    Add8Disjoint(low, high);
    forall i | 0 <= i < 8 ensures Or8(low, high)[i] == Window(Unpacked(s), offset, length)[i] {
      WindowBit(s, offset, length, n, inline, i);
    }
  }

  lemma WholeWindow(s: seq<Bits8>, offset: nat, length: nat, n: nat, inline: nat)
    requires InRange(offset, length, 8 * |s|) && inline < 8 && offset - length == 8 * n + inline
    requires inline + length <= 8
    ensures Shr8(And8(s[n], Shl8(LowBits(length), inline)), inline) == Window(Unpacked(s), offset, length)
  {
    forall i | 0 <= i < 8
      ensures Shr8(And8(s[n], Shl8(LowBits(length), inline)), inline)[i] == Window(Unpacked(s), offset, length)[i]
    {
      WindowBit(s, offset, length, n, inline, i);
    }
  }

  /** `get_stack_bit` returns exactly the window's bits. */
  lemma StackBitsExact(s: seq<Bits8>, offset: nat, length: nat)
    requires InRange(offset, length, 8 * |s|)
    ensures StackBits(s, offset, length) == Window(Unpacked(s), offset, length)
  {
    var newOffset, inlineOffset := (offset - length) / 8, (offset - length) % 8;
    if 8 - inlineOffset < length {
      SplitWindow(s, offset, length, newOffset, inlineOffset);
    } else {
      WholeWindow(s, offset, length, newOffset, inlineOffset);
    }
  }

  /** Bit `i` of the answer is the bit of stack byte offset - length + i; the bits above `length` are 0. */
  lemma StackBitAt(s: seq<Bits8>, offset: nat, length: nat, i: nat)
    requires InRange(offset, length, 8 * |s|) && i < 8
    ensures StackBits(s, offset, length)[i] == (i < length && s[(offset - length + i) / 8][(offset - length + i) % 8])
  {
    StackBitsExact(s, offset, length);
    if i < length {
      assert Window(Unpacked(s), offset, length)[i] == Unpacked(s)[offset - length + i];
    }
  }

  method SetStackValue(offset: nat, length: nat, v: U64, data: array<Byte>)
    requires ValueInRange(offset, length, data.Length)
    modifies data
    ensures data[..] == Stored(old(data[..]), offset, length, v)
  {
    ghost var before := data[..];
    var value: nat := v;
    var index := 1;
    while index <= length
      invariant 1 <= index <= length + 1
      invariant data[..offset - length + index] + BytesOf(value, length + 1 - index) + before[offset + 1..]
             == Stored(before, offset, length, v)
      invariant data[offset - length + index..] == before[offset - length + index..]
    {
      ghost var head := data[..offset - length + index];
      data[offset - length + index] := value % 256;
      assert data[..offset - length + index + 1] == head + [value % 256];
      value := value / 256;
      index := index + 1;
    }
    assert data[..] == data[..offset + 1] + data[offset + 1..];
    assert BytesOf(value, 0) == [];
  }

  /** `get_stack_value`; 64-bit arithmetic. */
  method GetStackValue(offset: nat, length: nat, data: array<Byte>) returns (res: U64)
    requires ValueInRange(offset, length, data.Length) && length > 0
    ensures res == Loaded(data[..], offset, length)
  {
    var index := length;
    var tmp: int := 0;
    while index > 1
      invariant 1 <= index <= length
      invariant tmp == 256 * NumberOf(data[offset - length + 1 + index..offset + 1])
    {
      ghost var here := data[offset - length + index..offset + 1];
      assert here[1..] == data[offset - length + 1 + index..offset + 1];
      NumberFits(here);
      tmp := (tmp + data[offset - length + index]) % TWO_64;
      assert tmp == NumberOf(here);
      tmp := tmp * 256 % TWO_64;
      index := index - 1;
    }
    ghost var all := data[offset - length + 1..offset + 1];
    assert all[1..] == data[offset - length + 2..offset + 1];
    NumberFits(all);
    res := (tmp + data[offset - length + index]) % TWO_64;
  }

  // ---------------------------------------------------------------------------------------------
  // What the reference says
  // ---------------------------------------------------------------------------------------------

  /** A value read at the place and length of a write is the written value modulo 256^length. */
  lemma LoadAfterStore(values: seq<Byte>, offset: nat, length: nat, v: nat)
    requires ValueInRange(offset, length, |values|)
    ensures Loaded(Stored(values, offset, length, v), offset, length) == v % Pow256(length)
  {
    var r := Stored(values, offset, length, v);
    assert r[offset - length + 1..offset + 1] == BytesOf(v, length);
    NumberOfBytes(v, length);
  }

  /** Byte j of the value lands at offset - length + 1 + j; no other byte changes. */
  lemma StoredBytes(values: seq<Byte>, offset: nat, length: nat, v: nat)
    requires ValueInRange(offset, length, |values|)
    ensures forall i :: 0 <= i < |values| ==>
              (Stored(values, offset, length, v)[i]
               == if offset - length < i <= offset then v / Pow256(i - (offset - length + 1)) % 256 else values[i])
  {
    forall i | offset - length < i <= offset
      ensures Stored(values, offset, length, v)[i] == v / Pow256(i - (offset - length + 1)) % 256
    {
      ByteAt(v, length, i - (offset - length + 1));
    }
  }

  /** A read of `l` bytes that ends `s` below the end of a written value shows the value's bytes from length - s - l on.
      Since stack offsets grow towards lower addresses, this is the read that starts `s` bytes behind the written
      address. */
  lemma PartRead(values: seq<Byte>, offset: nat, length: nat, v: nat, s: nat, l: nat)
    requires ValueInRange(offset, length, |values|) && s + l <= length
    ensures Loaded(Stored(values, offset, length, v), offset - s, l) == v / Pow256(length - s - l) % Pow256(l)
  {
    StoredPart(values, offset, length, v, s, l);
    PartNumber(v, length, length - s - l, l);
  }

  lemma StoredPart(values: seq<Byte>, offset: nat, length: nat, v: nat, s: nat, l: nat)
    requires ValueInRange(offset, length, |values|) && s + l <= length
    ensures Loaded(Stored(values, offset, length, v), offset - s, l)
         == NumberOf(BytesOf(v, length)[length - s - l..length - s - l + l])
  {
    var r := Stored(values, offset, length, v);
    assert r[offset - s - l + 1..offset - s + 1] == BytesOf(v, length)[length - s - l..length - s - l + l];
  }

  /** Little-endian memory shows the bytes from `s` on instead. The two agree for every value exactly when the read is
      empty or lies in the middle of the written bytes. */
  lemma PartReadRight(length: nat, s: nat, l: nat)
    requires s + l <= length <= 8
    ensures (forall v: U64 :: v / Pow256(length - s - l) % Pow256(l) == v / Pow256(s) % Pow256(l))
            <==> l == 0 || 2 * s + l == length
  {
    if l > 0 && 2 * s + l != length {
      Pow256Grows(s, 7);
      var v: U64 := Pow256(s);
      PowerShift(s, length - s - l, l);
      PowerShift(s, s, l);
      assert v / Pow256(length - s - l) % Pow256(l) != v / Pow256(s) % Pow256(l);
    }
  }

  /** 256^s shifted down by `i` bytes and cut to `l` bytes is 1 only if i = s. */
  lemma PowerShift(s: nat, i: nat, l: nat)
    requires l > 0
    ensures Pow256(s) / Pow256(i) % Pow256(l) == 1 <==> i == s
  {
    PowerQuotient(s, i);
    if i <= s {
      PowerRemainder(s - i, l);
      Pow256Grows(if s > i then 1 else 0, s - i);
    } else {
      SmallMod(0, Pow256(l));
    }
  }

  lemma PowerQuotient(s: nat, i: nat)
    ensures Pow256(s) / Pow256(i) == if i <= s then Pow256(s - i) else 0
  {
    if i > s {
      Pow256Grows(s + 1, i);
      DivModUnique(Pow256(s), 0, Pow256(s), Pow256(i));
    } else {
      Pow256Add(s - i, i);
      DivModUnique(Pow256(s), Pow256(s - i), 0, Pow256(i));
    }
  }

  lemma PowerRemainder(t: nat, l: nat)
    ensures Pow256(t) % Pow256(l) == if t < l then Pow256(t) else 0
  {
    if t < l {
      Pow256Grows(t + 1, l);
      SmallMod(Pow256(t), Pow256(l));
    } else {
      Pow256Add(t - l, l);
      DivModUnique(Pow256(t), Pow256(t - l), 0, Pow256(l));
    }
  }

  lemma {:induction false} Pow256Add(a: nat, b: nat)
    ensures Pow256(a + b) == Pow256(a) * Pow256(b)
  {
    if a > 0 {
      Pow256Add(a - 1, b);
      MulAssociates(256, Pow256(a - 1), Pow256(b));
    }
  }

  /** A read over two writes that touch: the write at the lower address comes out in the high bytes. */
  lemma JoinedRead(values: seq<Byte>, offset: nat, l1: nat, v1: nat, l2: nat, v2: nat)
    requires ValueInRange(offset, l1 + l2, |values|)
    ensures Loaded(Stored(Stored(values, offset, l1, v1), offset - l1, l2, v2), offset, l1 + l2)
         == v2 % Pow256(l2) + Pow256(l2) * (v1 % Pow256(l1))
  {
    var r := Stored(Stored(values, offset, l1, v1), offset - l1, l2, v2);
    assert r[offset - (l1 + l2) + 1..offset + 1] == BytesOf(v2, l2) + BytesOf(v1, l1);
    NumberOfConcat(BytesOf(v2, l2), BytesOf(v1, l1));
    NumberOfBytes(v1, l1);
    NumberOfBytes(v2, l2);
  }

  predicate Disjoint(offset: nat, length: nat, offset': nat, length': nat) {
    offset + length' <= offset' || offset' + length <= offset
  }

  /** Accesses to disjoint byte ranges do not see each other. */
  lemma DisjointAccess(bits: seq<bool>, values: seq<Byte>, b: bool, v: nat,
                       offset: nat, length: nat, offset': nat, length': nat)
    requires Disjoint(offset, length, offset', length')
    ensures InRange(offset, length, |bits|) && InRange(offset', length', |bits|) ==>
              Window(Marked(bits, offset, length, b), offset', length') == Window(bits, offset', length')
    ensures ValueInRange(offset, length, |values|) && ValueInRange(offset', length', |values|) ==>
              Loaded(Stored(values, offset, length, v), offset', length') == Loaded(values, offset', length')
  {
    if InRange(offset, length, |bits|) && InRange(offset', length', |bits|) {
      SameSlice(Marked(bits, offset, length, b), bits, offset' - length', offset');
    }
    if ValueInRange(offset, length, |values|) && ValueInRange(offset', length', |values|) {
      SameSlice(Stored(values, offset, length, v), values, offset' - length' + 1, offset' + 1);
    }
  }

  lemma SameSlice<T>(s: seq<T>, t: seq<T>, lo: nat, hi: nat)
    requires lo <= hi <= |s| == |t| && forall i :: lo <= i < hi ==> s[i] == t[i]
    ensures s[lo..hi] == t[lo..hi]
  {
  }

  // ---------------------------------------------------------------------------------------------
  // Sequences of calls
  // ---------------------------------------------------------------------------------------------

  datatype Op =
    | SetBits(offset: nat, length: nat)
    | UnsetBits(offset: nat, length: nat)
    | GetBits(offset: nat, length: nat)
    | SetValue(offset: nat, length: nat, v: U64)
    | GetValue(offset: nat, length: nat)

  datatype Flat = Flat(bits: seq<bool>, values: seq<Byte>)

  predicate Fits(op: Op, f: Flat) {
    if op.SetValue? || op.GetValue? then
      ValueInRange(op.offset, op.length, |f.values|) && (op.GetValue? ==> op.length > 0)
    else InRange(op.offset, op.length, |f.bits|)
  }

  function Step(f: Flat, op: Op): (g: Flat)
    requires Fits(op, f)
    ensures |g.bits| == |f.bits| && |g.values| == |f.values|
  {
    match op
    case SetBits(offset, length) => f.(bits := Marked(f.bits, offset, length, true))
    case UnsetBits(offset, length) => f.(bits := Marked(f.bits, offset, length, false))
    case SetValue(offset, length, v) => f.(values := Stored(f.values, offset, length, v))
    case _ => f
  }

  predicate AllFit(ops: seq<Op>, f: Flat) {
    forall i :: 0 <= i < |ops| ==> Fits(ops[i], f)
  }

  function Answer(f: Flat, op: Op): nat
    requires Fits(op, f)
  {
    match op
    case GetBits(offset, length) => Nat(Window(f.bits, offset, length))
    case GetValue(offset, length) => Loaded(f.values, offset, length)
    case _ => 0
  }

  function After(f: Flat, ops: seq<Op>): (g: Flat)
    requires AllFit(ops, f)
    ensures |g.bits| == |f.bits| && |g.values| == |f.values|
  {
    if |ops| == 0 then f else Step(After(f, ops[..|ops| - 1]), ops[|ops| - 1])
  }

  ghost function FlatOf(bitmap: array<Bits8>, data: array<Byte>): Flat
    reads bitmap, data
  {
    Flat(Unpacked(bitmap[..]), data[..])
  }

  function Answers(f: Flat, ops: seq<Op>): (r: seq<nat>)
    requires AllFit(ops, f)
    ensures |r| == |ops|
  {
    if |ops| == 0 then []
    else
      var rest := ops[..|ops| - 1];
      Answers(f, rest) + [Answer(After(f, rest), ops[|ops| - 1])]
  }

  /** Every sequence of calls leaves what the reference leaves and answers what the reference answers. */
  method Perform(ops: seq<Op>, bitmap: array<Bits8>, data: array<Byte>) returns (answers: seq<nat>)
    requires AllFit(ops, FlatOf(bitmap, data))
    modifies bitmap, data
    ensures FlatOf(bitmap, data) == After(old(FlatOf(bitmap, data)), ops)
    ensures answers == Answers(old(FlatOf(bitmap, data)), ops)
  {
    ghost var f := FlatOf(bitmap, data);
    answers := [];
    var n := 0;
    while n < |ops|
      invariant n <= |ops|
      invariant FlatOf(bitmap, data) == After(f, ops[..n])
      invariant answers == Answers(f, ops[..n])
    {
      ghost var done := ops[..n + 1];
      assert done[..|done| - 1] == ops[..n] && done[|done| - 1] == ops[n];
      var answer := PerformOne(ops[n], bitmap, data);
      answers := answers + [answer];
      n := n + 1;
    }
    assert ops[..|ops|] == ops;
  }

  method PerformOne(op: Op, bitmap: array<Bits8>, data: array<Byte>) returns (answer: nat)
    requires Fits(op, FlatOf(bitmap, data))
    modifies bitmap, data
    ensures FlatOf(bitmap, data) == Step(old(FlatOf(bitmap, data)), op)
    ensures answer == Answer(old(FlatOf(bitmap, data)), op)
  {
    answer := 0;
    match op
    case SetBits(offset, length) => SetStackBit(offset, length, bitmap);
    case UnsetBits(offset, length) => UnsetStackBit(offset, length, bitmap);
    case GetBits(offset, length) =>
      StackBitsExact(bitmap[..], offset, length);
      answer := Nat(StackBits(bitmap[..], offset, length));
    case SetValue(offset, length, v) => SetStackValue(offset, length, v, data);
    case GetValue(offset, length) => answer := GetStackValue(offset, length, data);
  }

  predicate Touches(op: Op, offset: nat, length: nat) {
    !Disjoint(op.offset, op.length, offset, length)
  }

  /** A run that writes no bit or no value in a range leaves the reading of the range as it was. */
  lemma {:induction false} UntouchedRange(f: Flat, ops: seq<Op>, offset: nat, length: nat)
    requires AllFit(ops, f)
    ensures InRange(offset, length, |f.bits|)
            && (forall op :: op in ops && (op.SetBits? || op.UnsetBits?) ==> !Touches(op, offset, length)) ==>
              Window(After(f, ops).bits, offset, length) == Window(f.bits, offset, length)
    ensures ValueInRange(offset, length, |f.values|)
            && (forall op :: op in ops && op.SetValue? ==> !Touches(op, offset, length)) ==>
              Loaded(After(f, ops).values, offset, length) == Loaded(f.values, offset, length)
  {
    if |ops| > 0 {
      var rest, op := ops[..|ops| - 1], ops[|ops| - 1];
      UntouchedRange(f, rest, offset, length);
      var g := After(f, rest);
      assert op in ops;
      if !Touches(op, offset, length) {
        DisjointAccess(g.bits, g.values, op.SetBits?, if op.SetValue? then op.v else 0,
                       op.offset, op.length, offset, length);
      }
    }
  }

  lemma FitParts(f: Flat, ops: seq<Op>, more: seq<Op>)
    requires AllFit(ops + more, f)
    ensures AllFit(ops, f) && AllFit(more, f)
  {
    forall i | 0 <= i < |ops| ensures Fits(ops[i], f) {
      assert (ops + more)[i] == ops[i];
    }
    forall i | 0 <= i < |more| ensures Fits(more[i], f) {
      assert (ops + more)[|ops| + i] == more[i];
    }
  }

  lemma {:induction false} AfterConcat(f: Flat, ops: seq<Op>, more: seq<Op>)
    requires AllFit(ops + more, f) && AllFit(ops, f) && AllFit(more, f)
    ensures After(f, ops + more) == After(After(f, ops), more)
  {
    if |more| == 0 {
      assert ops + more == ops;
    } else {
      var n, all := |more| - 1, ops + more;
      assert all[..|all| - 1] == ops + more[..n] && all[|all| - 1] == more[n];
      AfterConcat(f, ops, more[..n]);
    }
  }

  /** Whatever ran before, and whatever runs in between elsewhere, a read sees the last write to its range. */
  lemma LastWriteSeen(f: Flat, earlier: seq<Op>, offset: nat, length: nat, v: U64, between: seq<Op>)
    requires ValueInRange(offset, length, |f.values|) && length > 0
    requires AllFit(earlier + [SetValue(offset, length, v)] + between, f)
    requires forall op :: op in between && op.SetValue? ==> !Touches(op, offset, length)
    ensures Answer(After(f, earlier + [SetValue(offset, length, v)] + between), GetValue(offset, length))
         == v % Pow256(length)
  {
    var ops := earlier + [SetValue(offset, length, v)];
    FitParts(f, ops, between);
    FitParts(f, earlier, [SetValue(offset, length, v)]);
    AfterConcat(f, ops, between);
    var g := After(f, ops);
    assert ops[..|ops| - 1] == earlier;
    LoadAfterStore(After(f, earlier).values, offset, length, v);
    UntouchedRange(g, between, offset, length);
  }

  /** The same for the bits: all set after `set_stack_bit`, none after `unset_stack_bit`. */
  lemma LastMarkSeen(f: Flat, earlier: seq<Op>, mark: Op, between: seq<Op>)
    requires mark.SetBits? || mark.UnsetBits?
    requires AllFit(earlier + [mark] + between, f)
    requires forall op :: op in between && (op.SetBits? || op.UnsetBits?) ==> !Touches(op, mark.offset, mark.length)
    ensures InRange(mark.offset, mark.length, |f.bits|)
    ensures Answer(After(f, earlier + [mark] + between), GetBits(mark.offset, mark.length))
         == if mark.SetBits? then Pow2(mark.length) - 1 else 0
  {
    var ops := earlier + [mark];
    FitParts(f, ops, between);
    FitParts(f, earlier, [mark]);
    assert Fits([mark][0], f);
    AfterConcat(f, ops, between);
    assert ops[..|ops| - 1] == earlier && ops[|ops| - 1] == mark;
    var g := After(f, ops);
    UntouchedRange(g, between, mark.offset, mark.length);
    WindowOfMark(After(f, earlier).bits, mark.offset, mark.length, mark.SetBits?);
  }

  lemma WindowOfMark(bits: seq<bool>, offset: nat, length: nat, b: bool)
    requires InRange(offset, length, |bits|)
    ensures Nat(Window(Marked(bits, offset, length, b), offset, length)) == if b then Pow2(length) - 1 else 0
  {
    var window := seq(length, _ => b);
    assert Window(Marked(bits, offset, length, b), offset, length) == window + Falses(8 - length);
    NatConcat(window, Falses(8 - length));
    NatFalses(8 - length);
    if b {
      NatTrues(window);
    } else {
      assert window == Falses(length);
      NatFalses(length);
    }
  }
}
