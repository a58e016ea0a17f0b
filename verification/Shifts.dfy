/** `logic_shift_operator` of `pebs_taine_tool.c`: shifts and rotates of a `w`-bit operand held in a 64-bit word. */
module Shifts {
  import opened Arithmetic
  import opened Registers
  import opened Bits

  datatype Kind = ShiftLeft | ShiftRight | ShiftArithLeft | ShiftArithRight
                | RotateLeft | RotateRight | RotateCarryLeft | RotateCarryRight

  /** The operand has no bits above the operand size. */
  predicate FitsIn(a: Word, w: nat)
    requires w <= 64
  {
    forall i :: w <= i < 64 ==> !a[i]
  }

  predicate Sizes(n: nat, w: nat) { n < w <= 64 }

  /** Counts for which every shift in the code is by less than 64, as C requires. */
  predicate Defined(kind: Kind, n: nat, w: nat) {
    Sizes(n, w) && (kind == RotateCarryLeft ==> !(w == 64 && n == 1))
  }

  function Sar(a: Word, n: nat, w: nat): Word
    requires 0 < n && Sizes(n, w)
  {
    if a[w - 1] then Or(Shr(a, n), Shl(Ones(), w - n)) else Shr(a, n)
  }

  function Rol(a: Word, n: nat, w: nat): Word
    requires 0 < n && Sizes(n, w)
  {
    var tmp := Shr(And(a, Shl(Not(Shl(Ones(), n)), w - n)), w - n);
    Xor(And(Shl(a, n), LowMask(w)), tmp)
  }

  function Ror(a: Word, n: nat, w: nat): Word
    requires 0 < n && Sizes(n, w)
  {
    var tmp := And(a, Not(Shl(Ones(), n)));
    Xor(And(Shr(a, n), LowMask(w)), Shl(tmp, w - n))
  }

  function Rcl(a: Word, n: nat, w: nat, cf: bool): Word
    requires 0 < n && Defined(RotateCarryLeft, n, w)
  {
    Xor(And(Shl(a, n), LowMask(w)), RclLow(a, n, w, cf))
  }

  /** The `n` bits rcl moves to the low end, the carry highest. */
  function RclLow(a: Word, n: nat, w: nat, cf: bool): Word
    requires 0 < n && Defined(RotateCarryLeft, n, w)
  {
    var tmp := Shr(And(a, Shl(Not(Shl(Ones(), n - 1)), w - n + 1)), w - n + 1);
    if cf then Xor(tmp, Single(n - 1)) else tmp
  }

  function Rcr(a: Word, n: nat, w: nat, cf: bool): Word
    requires 0 < n && Sizes(n, w)
  {
    var tmp := And(a, Shl(Not(Shl(Ones(), n - 1)), 1));
    var tmp' := if cf then Xor(tmp, Single(0)) else tmp;
    Xor(And(Shr(a, n), LowMask(w)), Shl(tmp', w - n))
  }

  function Shifted(kind: Kind, a: Word, n: nat, w: nat, cf: bool): Word
    requires Defined(kind, n, w)
  {
    if n == 0 then a
    else
      match kind
      case ShiftLeft => And(Shl(a, n), LowMask(w))
      case ShiftRight => Shr(a, n)
      case ShiftArithLeft => And(Shl(a, n), LowMask(w))
      case ShiftArithRight => Sar(a, n, w)
      case RotateLeft => Rol(a, n, w)
      case RotateRight => Ror(a, n, w)
      case RotateCarryLeft => Rcl(a, n, w, cf)
      case RotateCarryRight => Rcr(a, n, w, cf)
  }

  /** The count operand is reduced in place; flags are raised, never cleared; RFLAGS is only read. */
  method LogicShiftOperator(kind: Kind, res1: OperandResult, res2: OperandResult, res3: OperandResult,
                            opSize: int, r: RegisterFile)
    requires opSize != 0 && res1 != res2 && res3 != res1 && res3 != res2
    requires Defined(kind, res2.value % ClampSize(opSize), ClampSize(opSize))
    modifies res2`value, res3
    ensures res2.value == old(res2.value) % ClampSize(opSize)
    ensures res3.value == Value(Shifted(kind, WordOf(res1.value), res2.value, ClampSize(opSize), r.rflags[0]))
    ensures res3.taint == (old(res3.taint) || res1.taint || res2.taint)
    ensures res3.unsure == (old(res3.unsure) || res1.unsure || res2.unsure)
  {
    var w := if opSize > 64 || opSize < 0 then 64 else opSize;
    res2.value := res2.value % w;
    if res1.taint || res2.taint {
      res3.taint := true;
    }
    if res1.unsure || res2.unsure {
      res3.unsure := true;
    }
    var a, n := WordOf(res1.value), res2.value;
    WordRoundTrip(res1.value);
    if n == 0 {
      res3.value := res1.value;
      return;
    }
    var word: Word;
    match kind {
      case ShiftLeft => word := And(Shl(a, n), LowMask(w));
      case ShiftRight => word := Shr(a, n);
      case ShiftArithLeft => word := And(Shl(a, n), LowMask(w));
      case ShiftArithRight => word := Sar(a, n, w);
      case RotateLeft => word := Rol(a, n, w);
      case RotateRight => word := Ror(a, n, w);
      case RotateCarryLeft => word := Rcl(a, n, w, Get(r.rflags, CF) != 0);
      case RotateCarryRight => word := Rcr(a, n, w, Get(r.rflags, CF) != 0);
    }
    res3.value := Value(word);
  }

  /** The count the SDM gives the instruction: masked to 5 bits, 6 at 64-bit size, and for the rotates reduced modulo
      the number of bits rotated. */
  function SdmCount(kind: Kind, count: nat, w: nat): nat
    requires w == 8 || w == 16 || w == 32 || w == 64
  {
    var masked := count % (if w == 64 then 64 else 32);
    match kind
    case RotateLeft => masked % w
    case RotateRight => masked % w
    case RotateCarryLeft => masked % (w + 1)
    case RotateCarryRight => masked % (w + 1)
    case _ => masked
  }

  /** The code's count, reduced modulo the operand size, is the SDM's for rol and ror, at 32 and 64 bits, and otherwise
      exactly when the masked count is below the operand size. */
  lemma CountsAgree(kind: Kind, count: nat, w: nat)
    requires w == 8 || w == 16 || w == 32 || w == 64
    ensures count % w == SdmCount(kind, count, w)
            <==> kind == RotateLeft || kind == RotateRight || w >= 32 || count % 32 < w
  {
    var masked := count % (if w == 64 then 64 else 32);
    if w == 8 {
      ModOfMod(count, 4, 8);
    } else if w == 16 {
      ModOfMod(count, 2, 16);
    }
    SmallCounts(masked, w);
  }

  lemma SmallCounts(m: nat, w: nat)
    requires w == 8 || w == 16 || w == 32 || w == 64
    requires m < if w == 64 then 64 else 32
    ensures m % w == m <==> m < w
    ensures m % w == m % (w + 1) <==> m < w
  {
  }

  // ---------------------------------------------------------------------------------------------
  // Shifts as arithmetic
  // ---------------------------------------------------------------------------------------------

  lemma LowMaskBits(w: nat)
    requires w <= 64
    ensures forall i :: 0 <= i < 64 ==> LowMask(w)[i] == (i < w)
  {
  }

  lemma ShlBits(a: Word, n: nat, w: nat, cf: bool)
    requires Sizes(n, w) && FitsIn(a, w)
    ensures Shifted(ShiftLeft, a, n, w, cf) == Falses(n) + a[..w - n] + Falses(64 - w)
  {
    LowMaskBits(w);
  }

  lemma NatShl(a: Word, n: nat, w: nat)
    requires Sizes(n, w) && FitsIn(a, w)
    ensures Nat(Falses(n) + a[..w - n] + Falses(64 - w)) == Nat(a) * Pow2(n) % Pow2(w)
  {
    var front := a[..w - n];
    NatPadded(Falses(n) + front, 64 - w);
    NatConcat(Falses(n), front);
    NatFalses(n);
    NatSplit(a, w - n);
    ModScales(Nat(a), Pow2(w - n), Pow2(n));
    PowAdd(n, w - n);
  }

  /** shl and sal multiply, modulo the operand size. */
  lemma ShlMultiplies(a: Word, n: nat, w: nat, cf: bool)
    requires Sizes(n, w) && FitsIn(a, w)
    ensures Nat(Shifted(ShiftLeft, a, n, w, cf)) == Nat(a) * Pow2(n) % Pow2(w)
    ensures Shifted(ShiftArithLeft, a, n, w, cf) == Shifted(ShiftLeft, a, n, w, cf)
  {
    ShlBits(a, n, w, cf);
    NatShl(a, n, w);
  }

  lemma NatPadded(x: seq<bool>, n: nat)
    ensures Nat(x + Falses(n)) == Nat(x)
  {
    NatConcat(x, Falses(n));
    NatFalses(n);
  }

  /** shr divides. */
  lemma ShrDivides(a: Word, n: nat, w: nat, cf: bool)
    requires Sizes(n, w) && FitsIn(a, w)
    ensures Nat(Shifted(ShiftRight, a, n, w, cf)) == Nat(a) / Pow2(n)
  {
    if n > 0 {
      NatSplit(a, n);
      assert Shr(a, n) == a[n..] + Falses(n);
      NatPadded(a[n..], n);
    }
  }

  lemma SarBits(a: Word, n: nat, w: nat, cf: bool)
    requires Sizes(n, w) && FitsIn(a, w)
    ensures Shifted(ShiftArithRight, a, n, w, cf)[..w] == a[n..w] + seq(n, _ => a[w - 1])
  {
  }

  lemma NatSarParts(a: Word, n: nat, w: nat)
    requires Sizes(n, w)
    ensures var x := Nat(a[n..w] + seq(n, _ => a[w - 1]));
      && x < Pow2(w)
      && x == Nat(a[..w]) / Pow2(n) + (if a[w - 1] then Pow2(w - n) * (Pow2(n) - 1) else 0)
  {
    var low := a[..w];
    NatSplit(low, n);
    assert low[n..] == a[n..w];
    NatContinued(a[n..w], n, a[w - 1]);
    NatBound(a[n..w] + seq(n, _ => a[w - 1]));
  }

  /** A quotient whose vacated high bits repeat the sign. */
  lemma SignedQuotient(x: nat, low: nat, s: int, p: nat, k: nat, t: nat, negative: bool)
    requires p > 0 && t > 0 && t == k * p && x < t
    requires x == low / p + (if negative then k * (p - 1) else 0)
    requires s == low - (if negative then t else 0)
    ensures x == s / p % t
  {
    SmallMod(x, t);
    if negative {
      NegativeQuotient(low, p, k, t);
    }
  }

  lemma NatSar(a: Word, n: nat, w: nat)
    requires 0 < w && Sizes(n, w)
    ensures Nat(a[n..w] + seq(n, _ => a[w - 1])) == Signed(a, w) / Pow2(n) % Pow2(w)
  {
    var x := Nat(a[n..w] + seq(n, _ => a[w - 1]));
    NatSarParts(a, n, w);
    PowAdd(w - n, n);
    SignedQuotient(x, Nat(a[..w]), Signed(a, w), Pow2(n), Pow2(w - n), Pow2(w), a[w - 1]);
  }

  /** sar divides the signed reading, rounding down, modulo the operand size. */
  lemma SarDivides(a: Word, n: nat, w: nat, cf: bool)
    requires Sizes(n, w) && FitsIn(a, w)
    ensures Nat(Shifted(ShiftArithRight, a, n, w, cf)) % Pow2(w) == Signed(a, w) / Pow2(n) % Pow2(w)
  {
    SarBits(a, n, w, cf);
    NatSar(a, n, w);
    NatSplit(Shifted(ShiftArithRight, a, n, w, cf), w);
  }

  // ---------------------------------------------------------------------------------------------
  // Rotates
  // ---------------------------------------------------------------------------------------------

  /** Reference: rotation of a bit string by `n` towards the high and the low end. */
  function RotatedLeft(s: seq<bool>, n: nat): (t: seq<bool>)
    requires n <= |s|
    ensures |t| == |s|
  {
    s[|s| - n..] + s[..|s| - n]
  }

  function RotatedRight(s: seq<bool>, n: nat): (t: seq<bool>)
    requires n <= |s|
    ensures |t| == |s|
  {
    s[n..] + s[..n]
  }

  lemma RolBit(a: Word, n: nat, w: nat, i: nat)
    requires 0 < n && Sizes(n, w) && FitsIn(a, w) && i < 64
    ensures Rol(a, n, w)[i] == if i < n then a[w - n + i] else i < w && a[i - n]
  {
    LowMaskBits(w);
  }

  lemma RolIsRotation(a: Word, n: nat, w: nat, cf: bool)
    requires Sizes(n, w) && FitsIn(a, w)
    ensures Shifted(RotateLeft, a, n, w, cf) == RotatedLeft(a[..w], n) + Falses(64 - w)
  {
    var x, y := Shifted(RotateLeft, a, n, w, cf), RotatedLeft(a[..w], n) + Falses(64 - w);
    forall i | 0 <= i < 64 ensures x[i] == y[i] {
      if n > 0 {
        RolBit(a, n, w, i);
      }
    }
  }

  lemma RorBit(a: Word, n: nat, w: nat, i: nat)
    requires 0 < n && Sizes(n, w) && FitsIn(a, w) && i < 64
    ensures Ror(a, n, w)[i] == if i < w - n then a[i + n] else i < w && a[i - (w - n)]
  {
    LowMaskBits(w);
  }

  lemma RorIsRotation(a: Word, n: nat, w: nat, cf: bool)
    requires Sizes(n, w) && FitsIn(a, w)
    ensures Shifted(RotateRight, a, n, w, cf) == RotatedRight(a[..w], n) + Falses(64 - w)
  {
    var x, y := Shifted(RotateRight, a, n, w, cf), RotatedRight(a[..w], n) + Falses(64 - w);
    forall i | 0 <= i < 64 ensures x[i] == y[i] {
      if n > 0 {
        RorBit(a, n, w, i);
      }
    }
  }

  lemma RclLowBit(a: Word, n: nat, w: nat, cf: bool, i: nat)
    requires 0 < n && Defined(RotateCarryLeft, n, w) && FitsIn(a, w) && i < 64
    ensures RclLow(a, n, w, cf)[i] == if i < n - 1 then a[w - n + 1 + i] else i == n - 1 && cf
  {
  }

  lemma RclBit(a: Word, n: nat, w: nat, cf: bool, i: nat)
    requires 0 < n && Defined(RotateCarryLeft, n, w) && FitsIn(a, w) && i < 64
    ensures Rcl(a, n, w, cf)[i] ==
      if i < n - 1 then a[w - n + 1 + i] else if i == n - 1 then cf else i < w && a[i - n]
  {
    RclLowBit(a, n, w, cf, i);
    LowMaskBits(w);
  }

  /** rcl rotates the (w + 1)-bit word CF:a. */
  lemma RclIsRotation(a: Word, n: nat, w: nat, cf: bool)
    requires Defined(RotateCarryLeft, n, w) && FitsIn(a, w)
    ensures Shifted(RotateCarryLeft, a, n, w, cf) == RotatedLeft(a[..w] + [cf], n)[..w] + Falses(64 - w)
  {
    if n > 0 {
      var x, y := Rcl(a, n, w, cf), RotatedLeft(a[..w] + [cf], n)[..w] + Falses(64 - w);
      forall i | 0 <= i < 64 ensures x[i] == y[i] {
        RclBit(a, n, w, cf, i);
      }
    }
  }

  /** rcr, bit by bit: the carry stays at w - n, and bit i of the operand goes to w - n + i where rotation puts bit
      i - 1. */
  lemma RcrBit(a: Word, n: nat, w: nat, cf: bool, j: nat)
    requires 0 < n && Sizes(n, w) && FitsIn(a, w) && j < 64
    ensures Rcr(a, n, w, cf)[j] ==
      if j < w - n then a[j + n] else if j == w - n then cf else j < w && a[j - (w - n)]
  {
    LowMaskBits(w);
  }

  /** rcr rotates CF:a only if the count is at most 1 or the bits leaving at the low end are all equal. */
  lemma RcrIsRotation(a: Word, n: nat, w: nat, cf: bool)
    requires Sizes(n, w) && FitsIn(a, w)
    ensures Shifted(RotateCarryRight, a, n, w, cf) == RotatedRight(a[..w] + [cf], n)[..w] + Falses(64 - w)
            <==> (forall i :: 0 < i < n ==> a[i] == a[i - 1])
  {
    LowMaskBits(w);
    if n > 0 {
      var x, y := Rcr(a, n, w, cf), RotatedRight(a[..w] + [cf], n)[..w] + Falses(64 - w);
      forall i | 0 <= i < 64 && !(w - n < i < w) ensures x[i] == y[i] {
      }
      forall j | w - n < j < w ensures x[j] == a[j - w + n] && y[j] == a[j - w + n - 1] {
      }
      if x == y {
        forall i | 0 < i < n ensures a[i] == a[i - 1] {
          assert x[w - n + i] == y[w - n + i];
        }
      }
      if forall i :: 0 < i < n ==> a[i] == a[i - 1] {
        forall j | 0 <= j < 64 ensures x[j] == y[j] {
        }
      }
    }
  }

  lemma RotationsUndo(s: seq<bool>, n: nat)
    requires n <= |s|
    ensures RotatedRight(RotatedLeft(s, n), n) == s && RotatedLeft(RotatedRight(s, n), n) == s
  {
  }

  /** rol and ror by the same count undo each other. */
  lemma RotationsInverse(a: Word, n: nat, w: nat, cf: bool)
    requires Sizes(n, w) && FitsIn(a, w)
    ensures Shifted(RotateRight, Shifted(RotateLeft, a, n, w, cf), n, w, cf) == a
    ensures Shifted(RotateLeft, Shifted(RotateRight, a, n, w, cf), n, w, cf) == a
  {
    var s := a[..w];
    assert a == s + Falses(64 - w);
    RotatedBack(s, n, w, cf);
    RotationsUndo(s, n);
    RotatedBack(RotatedLeft(s, n), n, w, cf);
    RotatedBack(RotatedRight(s, n), n, w, cf);
  }

  /** rol by `n` is ror by `w - n`. */
  lemma RolIsRor(a: Word, n: nat, w: nat, cf: bool)
    requires 0 < n && Sizes(n, w) && FitsIn(a, w)
    ensures Shifted(RotateLeft, a, n, w, cf) == Shifted(RotateRight, a, w - n, w, cf)
  {
    forall i | 0 <= i < 64 ensures Rol(a, n, w)[i] == Ror(a, w - n, w)[i] {
      RolBit(a, n, w, i);
      RorBit(a, w - n, w, i);
    }
  }

  /** The rotates on a word given by its low bits. */
  lemma RotatedBack(s: seq<bool>, n: nat, w: nat, cf: bool)
    requires Sizes(n, w) && |s| == w
    ensures var x: Word := s + Falses(64 - w);
      && FitsIn(x, w)
      && Shifted(RotateLeft, x, n, w, cf) == RotatedLeft(s, n) + Falses(64 - w)
      && Shifted(RotateRight, x, n, w, cf) == RotatedRight(s, n) + Falses(64 - w)
  {
    var x: Word := s + Falses(64 - w);
    assert x[..w] == s;
    RolIsRotation(x, n, w, cf);
    RorIsRotation(x, n, w, cf);
  }
}
