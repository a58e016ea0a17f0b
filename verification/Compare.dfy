/** `operator_expend` and `sub_set_flag` of `pebs_taine_tool.c`: the flags of a compare, and the jumps
    that read them. */
module Compare {
  import opened Arithmetic
  import opened Registers
  import opened Bits
  import opened Branches

  // ---------------------------------------------------------------------------------------------
  // operator_expend
  // ---------------------------------------------------------------------------------------------

  /** `x + y` on 64-bit words. */
  function Add(x: Word, y: Word): Word {
    Fit((Nat(x) + Nat(y)) % TWO_64, 64)
  }

  function Expanded(x: Word, source: nat, dest: nat, sign: bool): Word
    requires 0 < source && dest <= 64
  {
    if source >= dest then x
    else if sign && x[source - 1] then Or(x, Shl(Not(Shl(Ones(), dest - source)), source))
    else if dest == 64 then And(x, Not(Shl(Ones(), source)))
    else And(x, Add(Shl(Not(Shl(Ones(), 64 - dest)), dest), Not(Shl(Ones(), source))))
  }

  lemma AddDisjoint(x: Word, y: Word)
    requires forall i :: 0 <= i < 64 ==> !(x[i] && y[i])
    ensures Add(x, y) == Or(x, y)
  {
    NatDisjoint(x, y);
    WordIsU64(Or(x, y));
    assert Or(x, y) == seq(|x|, i requires 0 <= i < |x| => x[i] || y[i]);
    SmallMod(Nat(Or(x, y)), TWO_64);
  }

  /** Bits below `source` stay, bits from `source` to `dest` copy the sign or are cleared, bits above `dest` stay. */
  lemma ExpandedBits(x: Word, source: nat, dest: nat, sign: bool, i: nat)
    requires 0 < source && dest <= 64 && i < 64
    ensures Expanded(x, source, dest, sign)[i]
         == if source <= i < dest then sign && x[source - 1] else x[i]
  {
    if source < dest < 64 {
      var high, low := Shl(Not(Shl(Ones(), 64 - dest)), dest), Not(Shl(Ones(), source));
      AddDisjoint(high, low);
      assert Or(high, low)[i] == (high[i] || low[i]);
    }
  }

  method OperatorExpend(res: OperandResult, source: nat, dest: nat, sign: bool)
    requires 0 < source && dest <= 64
    modifies res`value
    ensures res.value == Nat(Expanded(old(WordOf(res.value)), source, dest, sign))
  {
    WordRoundTrip(res.value);
    if source >= dest {
      return;
    }
    var word := WordOf(res.value);
    var expandBit := sign && word[source - 1];
    if expandBit {
      var mask := Not(Shl(Ones(), dest - source));
      word := Or(word, Shl(mask, source));
    } else {
      var mask: Word;
      if dest == 64 {
        mask := Not(Shl(Ones(), source));
      } else {
        mask := Add(Shl(Not(Shl(Ones(), 64 - dest)), dest), Not(Shl(Ones(), source)));
      }
      word := And(word, mask);
    }
    WordIsU64(word);
    res.value := Nat(word);
  }

  lemma UnsignedReading(x: Word, w: nat)
    requires 0 < w <= 64
    ensures Nat(Expanded(x, w, 64, false)) == Nat(x[..w])
    ensures Expanded(x, w, 64, false)[..w] == x[..w]
  {
    var y := Expanded(x, w, 64, false);
    forall i | 0 <= i < 64 ensures y[i] == (i < w && x[i]) {
      ExpandedBits(x, w, 64, false, i);
    }
    assert y == x[..w] + seq(64 - w, _ => false);
    NatContinued(x[..w], 64 - w, false);
  }

  lemma SignExtensionParts(x: Word, w: nat)
    requires 0 < w <= 64
    ensures var y := Expanded(x, w, 64, true);
      && y[63] == x[w - 1]
      && Nat(y) == Nat(x[..w]) + (if x[w - 1] then Pow2(w) * (Pow2(64 - w) - 1) else 0)
  {
    var y := Expanded(x, w, 64, true);
    forall i | 0 <= i < 64 ensures y[i] == if i < w then x[i] else x[w - 1] {
      ExpandedBits(x, w, 64, true, i);
    }
    assert y == x[..w] + seq(64 - w, _ => x[w - 1]);
    NatContinued(x[..w], 64 - w, x[w - 1]);
  }

  lemma SignedReading(x: Word, w: nat)
    requires 0 < w <= 64
    ensures Signed(Expanded(x, w, 64, true), 64) == Signed(x, w)
  {
    var y := Expanded(x, w, 64, true);
    SignExtensionParts(x, w);
    assert y[..64] == y;
    PowAdd(w, 64 - w);
    SignBits(Nat(x[..w]), Pow2(w), Pow2(64 - w));
  }

  lemma SignBits(low: nat, p: nat, q: nat)
    ensures low + p * (q - 1) - p * q == low - p
  {
    MulDistributes(q, 1, p);
  }

  // ---------------------------------------------------------------------------------------------
  // sub_set_flag
  // ---------------------------------------------------------------------------------------------

  /** The 64-bit signed value a register holding `x` shows; subtraction wraps around. */
  function Wrapped(x: int): int {
    (x + TWO_64 / 2) % TWO_64 - TWO_64 / 2
  }

  predicate Threshold(d: int, length: int) {
    || (d >= 2147483647 && length <= 32)
    || (d >= 32767 && length <= 16)
    || (d >= 127 && length <= 8)
  }

  datatype SignFlags = SignFlags(of: bool, sf: bool)

  /** OF and SF from the two sign-extended operands. */
  function SignedFlags(l: int, r: int, length: int): SignFlags {
    if l == r then SignFlags(false, false)
    else if (l < 0 && r < 0) || (l > 0 && r > 0) then SignFlags(false, l < r)
    else if l < 0 then
      if Wrapped(l - r) > 0 then SignFlags(true, false)
      else if Threshold(Wrapped(Wrapped(-l) + r), length) then SignFlags(true, false)
      else SignFlags(false, true)
    else
      if Wrapped(l - r) < 0 then SignFlags(true, true)
      else if Threshold(Wrapped(l - r), length) then SignFlags(true, true)
      else SignFlags(false, false)
  }

  /** The RFLAGS word after a compare of the low `w` bits of `a` and `b`. */
  function FlagsAfter(flags: Word, a: Word, b: Word, w: nat): Word
    requires 0 < w <= 64
  {
    var signs := SignedFlags(Signed(a, w), Signed(b, w), w);
    flags[PF := true]
      [ZF := Nat(a[..w]) == Nat(b[..w])]
      [CF := Nat(a[..w]) < Nat(b[..w])]
      [OF := signs.of]
      [SF := signs.sf]
  }

  /** Both operands end up sign-extended to 64 bits; only RFLAGS changes in the register file. */
  method SubSetFlag(dest: OperandResult, source: OperandResult, info: Simulated, opLength: int)
    requires dest != source && opLength != 0
    modifies dest`value, source`value, info
    ensures var w := ClampSize(opLength);
      && info.file == Compared(old(info.file), old(WordOf(dest.value)), old(WordOf(source.value)), w)
      && dest.value == Nat(Expanded(old(WordOf(dest.value)), w, 64, true))
      && source.value == Nat(Expanded(old(WordOf(source.value)), w, 64, true))
  {
    var length: nat := if opLength > 64 || opLength < 0 then 64 else opLength;
    ghost var a, b := WordOf(dest.value), WordOf(source.value);
    OperatorExpend(dest, length, 64, false);
    OperatorExpend(source, length, 64, false);
    UnsignedReading(a, length);
    UnsignedReading(b, length);

    var flags := info.file.rflags;
    var tmp := (dest.value - dest.value) % TWO_64;
    flags := flags[PF := tmp % 2 == 0];
    if dest.value == source.value {
      flags := flags[ZF := true][CF := false];
    } else if dest.value < source.value {
      flags := flags[ZF := false][CF := true];
    } else {
      flags := flags[ZF := false][CF := false];
    }

    WordIsU64(Expanded(a, length, 64, false));
    WordIsU64(Expanded(b, length, 64, false));
    OperatorExpend(dest, length, 64, true);
    OperatorExpend(source, length, 64, true);
    ExpandedTwice(a, length);
    ExpandedTwice(b, length);
    var l, r := SignedValue(dest.value), SignedValue(source.value);
    SignedValueReads(a, length);
    SignedValueReads(b, length);
    flags := SetSignFlags(flags, l, r, length);
    info.file := info.file.(rflags := flags);
  }

  /** The second half: OF and SF, branch by branch. */
  method SetSignFlags(before: Word, l: int, r: int, length: int) returns (flags: Word)
    ensures flags == before[OF := SignedFlags(l, r, length).of][SF := SignedFlags(l, r, length).sf]
    ensures -TWO_64 / 2 <= l < TWO_64 / 2 && -TWO_64 / 2 <= r < TWO_64 / 2 ==>
              (flags[SF] != flags[OF] <==> l < r && !ZeroBelowPositive(l, r))
  {
    if -TWO_64 / 2 <= l < TWO_64 / 2 && -TWO_64 / 2 <= r < TWO_64 / 2 {
      SignedOrder(l, r, length);
    }
    flags := before;
    if l == r {
      flags := flags[OF := false][SF := false];
    } else if (l < 0 && r < 0) || (l > 0 && r > 0) {
      flags := flags[OF := false];
      if l < r {
        flags := flags[SF := true];
      } else {
        flags := flags[SF := false];
      }
    } else if l < 0 {
      if Wrapped(l - r) > 0 {
        flags := flags[OF := true][SF := false];
      } else {
        var d := Wrapped(Wrapped(-l) + r);
        if (d >= 2147483647 && length <= 32) || (d >= 32767 && length <= 16) || (d >= 127 && length <= 8) {
          flags := flags[OF := true][SF := false];
        } else {
          flags := flags[OF := false][SF := true];
        }
      }
    } else {
      if Wrapped(l - r) < 0 {
        flags := flags[OF := true][SF := true];
      } else {
        var d := Wrapped(l - r);
        if (d >= 2147483647 && length <= 32) || (d >= 32767 && length <= 16) || (d >= 127 && length <= 8) {
          flags := flags[OF := true][SF := true];
        } else {
          flags := flags[OF := false][SF := false];
        }
      }
    }
  }

  /** `(long long int)value` */
  function SignedValue(v: U64): int {
    if v >= TWO_64 / 2 then v - TWO_64 else v
  }

  lemma ExpandedTwice(x: Word, w: nat)
    requires 0 < w <= 64
    ensures Expanded(Expanded(x, w, 64, false), w, 64, true) == Expanded(x, w, 64, true)
  {
    var y := Expanded(x, w, 64, false);
    forall i | 0 <= i < 64
      ensures Expanded(y, w, 64, true)[i] == Expanded(x, w, 64, true)[i]
    {
      ExpandedBits(x, w, 64, false, i);
      ExpandedBits(x, w, 64, false, w - 1);
      ExpandedBits(y, w, 64, true, i);
      ExpandedBits(x, w, 64, true, i);
    }
  }

  lemma TopBit(x: Word)
    ensures x[63] <==> Nat(x) >= TWO_64 / 2
  {
    Pow64();
    PowAdd(1, 63);
    assert x == x[..63] + [x[63]];
    NatConcat(x[..63], [x[63]]);
    NatBound(x[..63]);
    assert Nat([x[63]]) == if x[63] then 1 else 0;
  }

  lemma SignedValueReads(x: Word, w: nat)
    requires 0 < w <= 64
    ensures 0 <= Nat(Expanded(x, w, 64, true)) < TWO_64
    ensures SignedValue(Nat(Expanded(x, w, 64, true))) == Signed(x, w)
  {
    var y := Expanded(x, w, 64, true);
    WordIsU64(y);
    TopBit(y);
    SignedReading(x, w);
    assert y[..64] == y;
    Pow64();
  }

  // ---------------------------------------------------------------------------------------------
  // What the jumps decide after a compare
  // ---------------------------------------------------------------------------------------------

  predicate Says(d: Decision, holds: bool) {
    d == if holds then Taken else NotTaken
  }

  /** No flag the jumps read is unsure; `cmp` clears them before it sets the flags. */
  predicate FlagsSure(r: RegisterFile) {
    !r.rflagsUnsure[CF] && !r.rflagsUnsure[ZF] && !r.rflagsUnsure[SF] && !r.rflagsUnsure[OF]
  }

  /** The one pair of operands whose signed order the flags get wrong. */
  predicate ZeroBelowPositive(l: int, r: int) {
    l == 0 && r > 0
  }

  function Compared(file: RegisterFile, a: Word, b: Word, w: nat): RegisterFile
    requires 0 < w <= 64
  {
    file.(rflags := FlagsAfter(file.rflags, a, b, w))
  }

  /** JE, JB, JNB, JA and JNA decide the unsigned relation of the operands, at every width. */
  lemma UnsignedJumps(file: RegisterFile, a: Word, b: Word, w: nat)
    requires 0 < w <= 64 && FlagsSure(file)
    ensures var r, x, y := Compared(file, a, b, w), Nat(a[..w]), Nat(b[..w]);
      && Says(AnalyzeBranch(3, r), x == y)
      && Says(AnalyzeBranch(2, r), x < y) && Says(AnalyzeBranch(9, r), x < y)
      && Says(AnalyzeBranch(-2, r), x >= y) && Says(AnalyzeBranch(-9, r), x >= y)
      && Says(AnalyzeBranch(4, r), x > y)
      && Says(AnalyzeBranch(-4, r), x <= y)
  {
    NegatedFlags(Compared(file, a, b, w).rflags);
  }

  lemma WrapOnce(x: int)
    ensures -TWO_64 / 2 <= x < TWO_64 / 2 ==> Wrapped(x) == x
    ensures TWO_64 / 2 <= x < TWO_64 ==> Wrapped(x) == x - TWO_64
    ensures -TWO_64 <= x < -TWO_64 / 2 ==> Wrapped(x) == x + TWO_64
  {
  }

  lemma SignedOrder(l: int, r: int, length: int)
    requires -TWO_64 / 2 <= l < TWO_64 / 2 && -TWO_64 / 2 <= r < TWO_64 / 2
    ensures var f := SignedFlags(l, r, length);
      (f.of != f.sf) == (if ZeroBelowPositive(l, r) then false else l < r)
  {
    WrapOnce(l - r);
  }

  lemma SignedRange(x: Word, w: nat)
    requires 0 < w <= 64
    ensures FitsSigned(Signed(x, w), Pow2(w - 1)) && Pow2(w - 1) <= TWO_64 / 2
    ensures x[w - 1] <==> Signed(x, w) < 0
  {
    assert x[..w] == x[..w - 1] + [x[w - 1]];
    NatConcat(x[..w - 1], [x[w - 1]]);
    NatBound(x[..w - 1]);
    assert Nat([x[w - 1]]) == if x[w - 1] then 1 else 0;
    Pow64();
    Pow2Grows(w, 64);
  }

  lemma {:induction false} Pow2Grows(i: nat, j: nat)
    requires i <= j
    ensures Pow2(i) <= Pow2(j)
  {
    if i < j {
      Pow2Grows(i, j - 1);
    }
  }

  lemma {:induction false} NatOrder(x: seq<bool>, y: seq<bool>)
    requires |x| == |y|
    ensures Nat(x) == Nat(y) <==> x == y
  {
    if Nat(x) == Nat(y) {
      NatInjective(x, y);
    }
  }

  /** JL, JNL, JG and JNG decide the signed relation, each of them for every pair of operands except 0 against a
      positive number, where each of them is wrong. */
  lemma SignedJumps(file: RegisterFile, a: Word, b: Word, w: nat)
    requires 0 < w <= 64 && FlagsSure(file)
    ensures var r, x, y := Compared(file, a, b, w), Signed(a, w), Signed(b, w);
      && (Says(AnalyzeBranch(7, r), x < y) <==> !ZeroBelowPositive(x, y))
      && (Says(AnalyzeBranch(-7, r), x >= y) <==> !ZeroBelowPositive(x, y))
      && (Says(AnalyzeBranch(8, r), x > y) <==> !ZeroBelowPositive(x, y))
      && (Says(AnalyzeBranch(-8, r), x <= y) <==> !ZeroBelowPositive(x, y))
  {
    SignedRange(a, w);
    SignedRange(b, w);
    SignedOrder(Signed(a, w), Signed(b, w), w);
    SameReading(a, b, w);
  }

  lemma SameReading(a: Word, b: Word, w: nat)
    requires 0 < w <= 64
    ensures Signed(a, w) == Signed(b, w) <==> Nat(a[..w]) == Nat(b[..w])
  {
    NatBound(a[..w]);
    NatBound(b[..w]);
    NatOrder(a[..w], b[..w]);
    assert a[..w] == b[..w] ==> a[..w][w - 1] == b[..w][w - 1];
  }

  // ---------------------------------------------------------------------------------------------
  // OF and SF on their own
  // ---------------------------------------------------------------------------------------------

  /** Does `d` fit a signed number with top bit worth `half`? */
  predicate FitsSigned(d: int, half: nat) {
    0 <= d + half < 2 * half
  }

  /** Operands on different sides of 0, narrower than 64 bits, whose difference is close to the end of the range. */
  predicate AtBoundary(l: int, r: int, w: nat, half: nat) {
    && w < 64
    && ((l < 0 <= r && half - 1 <= r - l <= half) || (r <= 0 <= l && l - r == half - 1))
  }

  predicate OperandWidth(w: nat, half: nat) {
    || (w == 8 && half == 0x80)
    || (w == 16 && half == 0x8000)
    || (w == 32 && half == 0x8000_0000)
    || (w == 64 && half == TWO_64 / 2)
  }

  /** OF and SF agree with the subtraction except at the boundaries; OF is wrong too for 0 against a positive number. */
  lemma SignFlagsExact(l: int, r: int, w: nat, half: nat)
    requires OperandWidth(w, half) && FitsSigned(l, half) && FitsSigned(r, half)
    ensures var f, d := SignedFlags(l, r, w), l - r;
      && ((f.of <==> !FitsSigned(d, half)) <==> !AtBoundary(l, r, w, half) && !ZeroBelowPositive(l, r))
      && ((f.sf <==> (d < 0 <==> FitsSigned(d, half))) <==> !AtBoundary(l, r, w, half))
  {
    WrapOnce(l - r);
    WrapOnce(-l);
    WrapOnce(-l + r);
  }

  /** The operands a compare looks at satisfy the ranges above, and its flags are the ones described there. */
  lemma CompareFlagsExact(file: RegisterFile, a: Word, b: Word, w: nat, half: nat)
    requires OperandWidth(w, half)
    ensures var r, x, y := Compared(file, a, b, w), Signed(a, w), Signed(b, w);
      && ((r.rflags[11] <==> !FitsSigned(x - y, half)) <==> !AtBoundary(x, y, w, half) && !ZeroBelowPositive(x, y))
      && ((r.rflags[7] <==> (x - y < 0 <==> FitsSigned(x - y, half))) <==> !AtBoundary(x, y, w, half))
  {
    SignedRange(a, w);
    SignedRange(b, w);
    Pow64();
    assert half == Pow2(w - 1);
    SignFlagsExact(Signed(a, w), Signed(b, w), w, half);
  }

  /** A compare sets PF whatever the operands, and leaves every flag but CF, PF, ZF, SF and OF as it was. */
  lemma OtherFlags(file: RegisterFile, a: Word, b: Word, w: nat)
    requires 0 < w <= 64
    ensures Compared(file, a, b, w).rflags[2]
    ensures forall k :: 0 <= k < 64 && k !in {0, 2, 6, 7, 11} ==> Compared(file, a, b, w).rflags[k] == file.rflags[k]
  {
  }
}
