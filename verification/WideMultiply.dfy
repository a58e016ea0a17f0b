/** `top64`, `low64`, `op_sign_expend` and the multiplications of `compute_operator` in `pebs_taine_tool.c`. */
module WideMultiply {
  import opened Arithmetic
  import opened Registers
  import opened Bits
  import opened Compare

  /** The four partial products of two 64-bit numbers cut in halves, each reduced to 64 bits. */
  datatype Partial = Partial(ac: U64, bc: U64, ad: U64, bd: U64)

  function Partials(x: U64, y: U64): Partial {
    var a, b, c, d := x / TWO_32, x % TWO_32, y / TWO_32, y % TWO_32;
    Partial(a * c % TWO_64, b * c % TWO_64, a * d % TWO_64, b * d % TWO_64)
  }

  function Mid34(p: Partial): U64 {
    (p.bd / TWO_32 + p.bc % TWO_32 + p.ad % TWO_32) % TWO_64
  }

  function Top64(x: U64, y: U64): U64 {
    var p := Partials(x, y);
    (p.ac + p.bc / TWO_32 + p.ad / TWO_32 + Mid34(p) / TWO_32) % TWO_64
  }

  function Low64(x: U64, y: U64): U64 {
    var p := Partials(x, y);
    Value(Or(Shl(WordOf(Mid34(p)), 32), WordOf(p.bd % TWO_32)))
  }

  lemma HalvesMultiply(a: nat, b: nat, c: nat, d: nat)
    ensures (a * TWO_32 + b) * (c * TWO_32 + d) == a * c * (TWO_32 * TWO_32) + (b * c + a * d) * TWO_32 + b * d
  {
    MulDistributes(a * TWO_32, b, c * TWO_32 + d);
    MulAssociates(a, TWO_32, c * TWO_32 + d);
    assert a * (c * TWO_32 + d) == a * c * TWO_32 + a * d;
    assert b * (c * TWO_32 + d) == b * c * TWO_32 + b * d;
  }

  lemma HalfProduct(a: nat, b: nat)
    requires a < TWO_32 && b < TWO_32
    ensures 0 <= a * b <= (TWO_32 - 1) * (TWO_32 - 1)
  {
    ProductAtMost(a, b, TWO_32 - 1);
  }

  lemma ProductAtMost(a: nat, b: nat, n: nat)
    requires a <= n && b <= n
    ensures 0 <= a * b <= n * n
  {
    MulMonotone(0, a, b);
    MulMonotone(a, n, b);
    MulMonotone(b, n, n);
  }

  lemma PartialsExact(x: U64, y: U64)
    ensures var p := Partials(x, y);
      && p.ac == x / TWO_32 * (y / TWO_32) <= (TWO_32 - 1) * (TWO_32 - 1)
      && p.bc == x % TWO_32 * (y / TWO_32) <= (TWO_32 - 1) * (TWO_32 - 1)
      && p.ad == x / TWO_32 * (y % TWO_32) <= (TWO_32 - 1) * (TWO_32 - 1)
      && p.bd == x % TWO_32 * (y % TWO_32) <= (TWO_32 - 1) * (TWO_32 - 1)
  {
    HalfProduct(x / TWO_32, y / TWO_32);
    HalfProduct(x % TWO_32, y / TWO_32);
    HalfProduct(x / TWO_32, y % TWO_32);
    HalfProduct(x % TWO_32, y % TWO_32);
  }

  lemma ProductParts(x: U64, y: U64)
    ensures var p := Partials(x, y); x * y == p.ac * (TWO_32 * TWO_32) + (p.bc + p.ad) * TWO_32 + p.bd
  {
    PartialsExact(x, y);
    HalvesMultiply(x / TWO_32, x % TWO_32, y / TWO_32, y % TWO_32);
  }

  lemma SumsFit(p: Partial)
    requires p.ac <= (TWO_32 - 1) * (TWO_32 - 1) && p.bc <= (TWO_32 - 1) * (TWO_32 - 1)
    requires p.ad <= (TWO_32 - 1) * (TWO_32 - 1) && p.bd <= (TWO_32 - 1) * (TWO_32 - 1)
    ensures p.bd / TWO_32 + p.bc % TWO_32 + p.ad % TWO_32 < TWO_64
    ensures Mid34(p) == p.bd / TWO_32 + p.bc % TWO_32 + p.ad % TWO_32
    ensures p.ac + p.bc / TWO_32 + p.ad / TWO_32 + Mid34(p) / TWO_32 < TWO_64
  {
  }

  /** No partial product and no sum of `top64` and `low64` overflows. */
  lemma NothingOverflows(x: U64, y: U64)
    ensures var p := Partials(x, y);
      && x / TWO_32 * (y / TWO_32) < TWO_64 && x % TWO_32 * (y / TWO_32) < TWO_64
      && x / TWO_32 * (y % TWO_32) < TWO_64 && x % TWO_32 * (y % TWO_32) < TWO_64
      && p.bd / TWO_32 + p.bc % TWO_32 + p.ad % TWO_32 < TWO_64
      && p.ac + p.bc / TWO_32 + p.ad / TWO_32 + Mid34(p) / TWO_32 < TWO_64
  {
    PartialsExact(x, y);
    SumsFit(Partials(x, y));
  }

  lemma HalvesExact(x: U64, y: U64)
    ensures var p := Partials(x, y); var mid := p.bd / TWO_32 + p.bc % TWO_32 + p.ad % TWO_32;
      && Top64(x, y) == p.ac + p.bc / TWO_32 + p.ad / TWO_32 + mid / TWO_32
      && Low64(x, y) == mid % TWO_32 * TWO_32 + p.bd % TWO_32
  {
    var p := Partials(x, y);
    PartialsExact(x, y);
    SumsFit(p);
    SmallMod(p.ac + p.bc / TWO_32 + p.ad / TWO_32 + Mid34(p) / TWO_32, TWO_64);
    LowHalf(Mid34(p), p.bd % TWO_32);
  }

  /** `top64` and `low64` are the two halves of the exact product. */
  lemma WideProduct(x: U64, y: U64)
    ensures Top64(x, y) * TWO_64 + Low64(x, y) == x * y
  {
    var p := Partials(x, y);
    HalvesExact(x, y);
    ProductParts(x, y);
    SumOfParts(p.ac, p.bc, p.ad, p.bd);
  }

  lemma SumOfParts(ac: nat, bc: nat, ad: nat, bd: nat)
    ensures var mid := bd / TWO_32 + bc % TWO_32 + ad % TWO_32;
      (ac + bc / TWO_32 + ad / TWO_32 + mid / TWO_32) * TWO_64 + mid % TWO_32 * TWO_32 + bd % TWO_32
        == ac * TWO_64 + (bc + ad) * TWO_32 + bd
  {
  }

  lemma LowHalf(mid: U64, low: nat)
    requires low < TWO_32
    ensures Value(Or(Shl(WordOf(mid), 32), WordOf(low))) == mid % TWO_32 * TWO_32 + low
  {
    var m, l := WordOf(mid), WordOf(low);
    WordRoundTrip(mid);
    WordRoundTrip(low);
    Pow64();
    NatSplit(m, 32);
    assert Shl(m, 32) == Falses(32) + m[..32];
    NatConcat(Falses(32), m[..32]);
    NatFalses(32);
    HighClear(l, 32);
    NatDisjoint(Shl(m, 32), l);
    assert Or(Shl(m, 32), l) == seq(64, i requires 0 <= i < 64 => Shl(m, 32)[i] || l[i]);
  }

  lemma HighClear(l: Word, k: nat)
    requires k <= 64 && Nat(l) < Pow2(k)
    ensures forall i :: k <= i < 64 ==> !l[i]
  {
    NatSplit(l, k);
    DivModUnique(Nat(l), 0, Nat(l), Pow2(k));
    NatFalses(64 - k);
    NatInjective(l[k..], Falses(64 - k));
    assert forall i :: k <= i < 64 ==> l[i] == l[k..][i - k];
  }

  // ---------------------------------------------------------------------------------------------
  // op_sign_expend
  // ---------------------------------------------------------------------------------------------

  function SignExtended(x: Word, w: nat): Word
    requires 0 < w <= 64
  {
    if w == 64 then x
    else if x[w - 1] then Or(x, Shl(Ones(), w))
    else And(x, Not(Shl(Ones(), w)))
  }

  /** `op_sign_expend` and the signed `operator_expend` to 64 bits are the same function. */
  lemma SignExtensionsAgree(x: Word, w: nat)
    requires 0 < w <= 64
    ensures SignExtended(x, w) == Expanded(x, w, 64, true)
  {
    forall i | 0 <= i < 64 ensures SignExtended(x, w)[i] == Expanded(x, w, 64, true)[i] {
      ExpandedBits(x, w, 64, true, i);
    }
  }

  /** The 64-bit value left by `op_sign_expend` reads as the operand's signed value. */
  lemma SignExtendedReads(x: Word, w: nat)
    requires 0 < w <= 64
    ensures SignedValue(Value(SignExtended(x, w))) == Signed(x, w)
    ensures FitsSigned(Signed(x, w), Pow2(w - 1))
  {
    SignExtensionsAgree(x, w);
    SignedValueReads(x, w);
    SignedRange(x, w);
  }

  // ---------------------------------------------------------------------------------------------
  // The multiplications
  // ---------------------------------------------------------------------------------------------

  /** What a multiplication leaves: everything in the third result, or high and low halves in the third and fourth. */
  datatype Product = Packed(value: U64) | Halves(high: U64, low: U64)

  function Mul(x: U64, y: U64, w: nat): Product {
    var res := x * y % TWO_64;
    if w == 8 then Packed(res)
    else if w == 16 then Halves(res / 0x1_0000, res % 0x1_0000)
    else if w == 32 then Halves(res / TWO_32, res % TWO_32)
    else Halves(Top64(x, y), Low64(x, y))
  }

  function ImulTruncated(x: U64, y: U64, w: nat): Product
    requires 0 < w <= 64
  {
    Packed(Value(And(WordOf(SignedValue(x) * SignedValue(y) % TWO_64), LowMask(w))))
  }

  function Magnitude(x: U64): U64 {
    if SignedValue(x) < 0 then -SignedValue(x) else x
  }

  predicate SameSign(s: int, t: int) {
    (s > 0 && t > 0) || (s < 0 && t < 0)
  }

  /** Length of a bit string without its leading zeros. */
  function BitLength(x: seq<bool>): (k: nat)
    ensures k <= |x|
    ensures forall i :: k <= i < |x| ==> !x[i]
    ensures k > 0 ==> x[k - 1]
  {
    if |x| == 0 then 0 else if x[|x| - 1] then |x| else BitLength(x[..|x| - 1])
  }

  /** Every leading zero set. */
  function Filled(x: Word): Word {
    seq(64, i requires 0 <= i < 64 => i >= BitLength(x) || x[i])
  }

  function Imul(x: U64, y: U64, w: nat): Product {
    var res := SignedValue(x) * SignedValue(y) % TWO_64;
    if w == 8 then Packed(res % 0x1_0000)
    else if w == 16 then Packed(res % TWO_32)
    else if w == 32 then Halves(res / TWO_32, res % TWO_32)
    else ImulProduct(x, y)
  }

  /** One-operand imul at 64 bits multiplies the magnitudes; for a negative (or zero) product it then sets the leading
      zeros instead of negating. */
  function ImulProduct(x: U64, y: U64): Product {
    var high, low := Top64(Magnitude(x), Magnitude(y)), Low64(Magnitude(x), Magnitude(y));
    if SameSign(SignedValue(x), SignedValue(y)) then Halves(high, low)
    else FilledHalves(high, low)
  }

  method FillTop(v: U64) returns (r: U64)
    ensures r == Value(Filled(WordOf(v)))
  {
    var word := WordOf(v);
    ghost var before := word;
    var index := 0;
    while index < 64
      invariant 0 <= index <= 64
      invariant forall i :: 64 - index <= i < 64 ==> !before[i] && word[i]
      invariant forall i :: 0 <= i < 64 - index ==> word[i] == before[i]
    {
      if word[63 - index] {
        break;
      }
      word := word[63 - index := true];
      index := index + 1;
    }
    assert BitLength(before) == 64 - index;
    assert word == Filled(before);
    r := Value(word);
  }

  /** The multiplication cases of `compute_operator`, `mul` (7) and `imul` (9) with `operands` operands. The taint and
      unsure flags of both results are raised, never cleared, and the operands of `imul` are sign-extended in place. */
  method ComputeProduct(res1: OperandResult, res2: OperandResult, res3: OperandResult, res4: OperandResult,
                        opSize: int, signed: bool, operands: nat)
    requires res1 != res2 && res1 != res3 && res1 != res4 && res2 != res3 && res2 != res4 && res3 != res4
    requires signed ==> opSize != 0
    modifies res1`value, res2`value, res3, res4
    ensures res3.taint == (old(res3.taint) || res1.taint || res2.taint)
    ensures res4.taint == (old(res4.taint) || res1.taint || res2.taint)
    ensures res3.unsure == (old(res3.unsure) || res1.unsure || res2.unsure)
    ensures res4.unsure == (old(res4.unsure) || res1.unsure || res2.unsure)
    ensures var w: nat := ClampSize(opSize);
      var x, y := old(res1.value), old(res2.value);
      Left(res3, res4, old(res4.value),
        if !signed then Mul(x, y, w)
        else
          var x', y' := Value(SignExtended(WordOf(x), w)), Value(SignExtended(WordOf(y), w));
          if operands == 1 then Imul(x', y', w) else ImulTruncated(x', y', w))
  {
    var w: nat := if opSize > 64 || opSize < 0 then 64 else opSize;
    if res1.taint || res2.taint {
      res3.taint, res4.taint := true, true;
    }
    if res1.unsure || res2.unsure {
      res3.unsure, res4.unsure := true, true;
    }
    if !signed {
      MulCase(res1, res2, res3, res4, w);
    } else {
      res1.value := Value(SignExtended(WordOf(res1.value), w));
      res2.value := Value(SignExtended(WordOf(res2.value), w));
      if operands == 1 {
        ImulCase(res1, res2, res3, res4, w);
      } else {
        var tmp := SignedValue(res1.value) * SignedValue(res2.value) % TWO_64;
        res3.value := Value(And(WordOf(tmp), LowMask(w)));
      }
    }
  }

  /** The result is in place; the fourth result's value is untouched when everything is in the third. */
  ghost predicate Left(res3: OperandResult, res4: OperandResult, before4: U64, p: Product)
    reads res3, res4
  {
    match p
    case Packed(v) => res3.value == v && res4.value == before4
    case Halves(h, l) => res3.value == h && res4.value == l
  }

  method MulCase(res1: OperandResult, res2: OperandResult, res3: OperandResult, res4: OperandResult, w: nat)
    requires res1 != res3 && res1 != res4 && res2 != res3 && res2 != res4 && res3 != res4
    modifies res3`value, res4`value
    ensures Left(res3, res4, old(res4.value), Mul(res1.value, res2.value, w))
    ensures w == 8 && res1.value < Pow2(w) && res2.value < Pow2(w) ==> res3.value == res1.value * res2.value
    ensures (w == 16 || w == 32 || w == 64) && res1.value < Pow2(w) && res2.value < Pow2(w) ==>
              res3.value * Pow2(w) + res4.value == res1.value * res2.value
  {
    if (w == 8 || w == 16 || w == 32 || w == 64) && res1.value < Pow2(w) && res2.value < Pow2(w) {
      MulExact(res1.value, res2.value, w);
    }
    if w == 8 {
      res3.value := res1.value * res2.value % TWO_64;
    } else if w == 16 {
      var res := res1.value * res2.value % TWO_64;
      res3.value, res4.value := res / 0x1_0000, res % 0x1_0000;
    } else if w == 32 {
      var res := res1.value * res2.value % TWO_64;
      res3.value, res4.value := res / TWO_32, res % TWO_32;
    } else {
      res3.value := Top64(res1.value, res2.value);
      res4.value := Low64(res1.value, res2.value);
    }
  }

  method ImulCase(res1: OperandResult, res2: OperandResult, res3: OperandResult, res4: OperandResult, w: nat)
    requires res1 != res2 && res1 != res3 && res1 != res4 && res2 != res3 && res2 != res4 && res3 != res4
    modifies res1`value, res2`value, res3`value, res4`value
    ensures Left(res3, res4, old(res4.value), Imul(old(res1.value), old(res2.value), w))
  {
    if w != 8 && w != 16 && w != 32 {
      ImulWide(res1, res2, res3, res4);
      return;
    }
    var res := SignedValue(res1.value) * SignedValue(res2.value) % TWO_64;
    if w == 8 {
      res3.value := res % 0x1_0000;
    } else if w == 16 {
      res3.value := res % TWO_32;
    } else {
      res3.value, res4.value := res / TWO_32, res % TWO_32;
    }
  }

  method ImulWide(res1: OperandResult, res2: OperandResult, res3: OperandResult, res4: OperandResult)
    requires res1 != res2 && res1 != res3 && res1 != res4 && res2 != res3 && res2 != res4 && res3 != res4
    modifies res1`value, res2`value, res3`value, res4`value
    ensures Left(res3, res4, old(res4.value), ImulProduct(old(res1.value), old(res2.value)))
  {
    var sign := !SameSign(SignedValue(res1.value), SignedValue(res2.value));
    if SignedValue(res1.value) < 0 {
      res1.value := -SignedValue(res1.value);
    }
    if SignedValue(res2.value) < 0 {
      res2.value := -SignedValue(res2.value);
    }
    res3.value := Top64(res1.value, res2.value);
    res4.value := Low64(res1.value, res2.value);
    if sign {
      if res3.value != 0 {
        res3.value := FillTop(res3.value);
      } else {
        res3.value := TWO_64 - 1;
        res4.value := FillTop(res4.value);
      }
    }
  }

  // ---------------------------------------------------------------------------------------------
  // What the products mean
  // ---------------------------------------------------------------------------------------------

  /** The number a product of `w`-bit operands stands for. */
  function Meaning(p: Product, w: nat): nat {
    match p
    case Packed(v) => v
    case Halves(h, l) => h * Pow2(w) + l
  }

  /** mul is exact at every operand size, and its halves fit the operand size. */
  lemma MulExact(x: U64, y: U64, w: nat)
    requires w == 8 || w == 16 || w == 32 || w == 64
    requires x < Pow2(w) && y < Pow2(w)
    ensures Meaning(Mul(x, y, w), w) == x * y
    ensures w > 8 ==> Mul(x, y, w).Halves? && Mul(x, y, w).low < Pow2(w) && Mul(x, y, w).high < Pow2(w)
  {
    Pow64();
    if w == 64 {
      WideProduct(x, y);
    } else {
      ProductBelow(x, y, Pow2(w));
      SmallMod(x * y, TWO_64);
      if w > 8 {
        QuotientBelow(x * y, Pow2(w));
      }
    }
  }

  lemma QuotientBelow(p: nat, n: nat)
    requires p < n * n
    ensures 0 < n && p / n < n && p / n * n + p % n == p
  {
    if p / n >= n {
      MulMonotone(n, p / n, n);
    }
  }

  lemma ProductBelow(x: nat, y: nat, n: nat)
    requires x < n && y < n
    ensures 0 <= x * y < n * n
  {
    ProductAtMost(x, y, n - 1);
    ProductAtMost(n - 1, n - 1, n);
    MulStep(n - 1, n, n);
    MulMonotone(n - 1, n, n - 1);
  }

  /** Two- and three-operand imul gives the signed product modulo the operand size. */
  lemma ImulTruncatedExact(a: Word, b: Word, w: nat)
    requires 0 < w <= 64
    ensures Meaning(ImulTruncated(Value(SignExtended(a, w)), Value(SignExtended(b, w)), w), w)
         == Signed(a, w) * Signed(b, w) % Pow2(w)
  {
    SignExtendedReads(a, w);
    SignExtendedReads(b, w);
    Truncated(Signed(a, w) * Signed(b, w), w);
  }

  lemma Truncated(p: int, w: nat)
    requires 0 < w <= 64
    ensures Nat(And(WordOf(p % TWO_64), LowMask(w))) == p % Pow2(w)
  {
    MaskedIsMod(WordOf(p % TWO_64), w);
    WordRoundTrip(p % TWO_64);
    Pow64();
    PowAdd(64 - w, w);
    ModOfMod(p, Pow2(64 - w), Pow2(w));
  }

  lemma MaskedIsMod(x: Word, w: nat)
    requires w <= 64
    ensures Nat(And(x, LowMask(w))) == Nat(x) % Pow2(w)
  {
    assert And(x, LowMask(w)) == x[..w] + Falses(64 - w);
    NatConcat(x[..w], Falses(64 - w));
    NatFalses(64 - w);
    NatSplit(x, w);
  }

  lemma SignedProductFits(s: int, t: int, h: nat)
    requires FitsSigned(s, h) && FitsSigned(t, h)
    ensures -(h * h) <= s * t <= h * h
  {
    var m, n := if s < 0 then -s else s, if t < 0 then -t else t;
    MulMonotone(m, h, n);
    MulMonotone(n, h, h);
    MulMonotone(0, m, n);
    assert s * t == m * n || s * t == -(m * n);
  }

  lemma ImulNarrow(x: U64, y: U64, w: nat)
    requires w == 8 || w == 16 || w == 32
    ensures Meaning(Imul(x, y, w), w) == SignedValue(x) * SignedValue(y) % (Pow2(w) * Pow2(w))
  {
    Pow64();
    var p := SignedValue(x) * SignedValue(y);
    if w == 8 {
      ModOfMod(p, TWO_64 / 0x1_0000, 0x1_0000);
    } else if w == 16 {
      ModOfMod(p, TWO_32, TWO_32);
    }
  }

  /** One-operand imul up to 32 bits gives the exact signed product, as a number of twice the operand size. */
  lemma ImulExact(a: Word, b: Word, w: nat)
    requires w == 8 || w == 16 || w == 32
    ensures Meaning(Imul(Value(SignExtended(a, w)), Value(SignExtended(b, w)), w), w)
         == Signed(a, w) * Signed(b, w) % Pow2(2 * w)
    ensures FitsSigned(Signed(a, w) * Signed(b, w), Pow2(2 * w - 1))
  {
    SignExtendedReads(a, w);
    SignExtendedReads(b, w);
    ImulNarrow(Value(SignExtended(a, w)), Value(SignExtended(b, w)), w);
    SignedProductFits(Signed(a, w), Signed(b, w), Pow2(w - 1));
    PowAdd(w - 1, w - 1);
    assert Pow2(2 * w - 1) == 2 * Pow2(2 * w - 2);
    PowAdd(w, w);
  }

  lemma {:induction false} BitLengthBounds(x: seq<bool>)
    ensures Nat(x) < Pow2(BitLength(x))
    ensures BitLength(x) > 0 ==> Nat(x) >= Pow2(BitLength(x) - 1)
  {
    if |x| > 0 {
      var n := |x| - 1;
      assert x == x[..n] + [x[n]];
      NatConcat(x[..n], [x[n]]);
      assert Nat([x[n]]) == if x[n] then 1 else 0;
      if x[n] {
        NatBound(x);
      } else {
        BitLengthBounds(x[..n]);
      }
    }
  }

  lemma FilledValue(x: Word)
    ensures Nat(Filled(x)) == Nat(x) + TWO_64 - Pow2(BitLength(x))
  {
    var k := BitLength(x);
    var ones := seq(64 - k, _ => true);
    assert Filled(x) == x[..k] + ones;
    assert x == x[..k] + Falses(64 - k);
    NatConcat(x[..k], ones);
    NatConcat(x[..k], Falses(64 - k));
    NatFalses(64 - k);
    NatTrues(ones);
    PowAdd(k, 64 - k);
    Pow64();
    SignBits(Nat(x), Pow2(k), Pow2(64 - k));
  }

  /** The filled product `high:low` in numbers; `k` is the bit length of the product before. */
  lemma FilledProduct(high: U64, low: U64) returns (k: nat)
    ensures var p := high * TWO_64 + low;
      && p < Pow2(k) && (k > 0 ==> p >= Pow2(k - 1))
      && (if high != 0 then Value(Filled(WordOf(high))) * TWO_64 + low
          else (TWO_64 - 1) * TWO_64 + Value(Filled(WordOf(low)))) == p + TWO_64 * TWO_64 - Pow2(k)
  {
    WordRoundTrip(high);
    WordRoundTrip(low);
    Pow64();
    if high != 0 {
      var n := BitLength(WordOf(high));
      BitLengthBounds(WordOf(high));
      FilledValue(WordOf(high));
      k := n + 64;
      PowAdd(n, 64);
      PowAdd(n - 1, 64);
    } else {
      k := BitLength(WordOf(low));
      BitLengthBounds(WordOf(low));
      FilledValue(WordOf(low));
    }
  }

  ghost predicate PowerOfTwo(n: int) { exists e: nat :: Pow2(e) == n }

  lemma HalfOfPower(p: nat, k: nat)
    requires p < Pow2(k) && (k > 0 ==> p >= Pow2(k - 1))
    ensures 2 * p == Pow2(k) <==> PowerOfTwo(p)
  {
    if 2 * p == Pow2(k) {
      assert k > 0 && Pow2(k - 1) == p;
    }
    if e: nat :| Pow2(e) == p {
      if e >= k {
        Pow2Grows(k, e);
      } else if e + 1 < k {
        Pow2Grows(e + 1, k - 1);
      }
    }
  }

  lemma MagnitudesMultiply(x: U64, y: U64)
    ensures var s, t, p := SignedValue(x), SignedValue(y), Magnitude(x) * Magnitude(y);
      && Top64(Magnitude(x), Magnitude(y)) * TWO_64 + Low64(Magnitude(x), Magnitude(y)) == p
      && s * t == (if SameSign(s, t) then p else 0 - p)
      && 0 <= p < TWO_64 * TWO_64
  {
    WideProduct(Magnitude(x), Magnitude(y));
    SignsOfProduct(SignedValue(x), SignedValue(y));
  }

  /** One-operand imul at 64 bits gives the 128-bit signed product exactly when both operands have the same sign or the
      product's magnitude is a power of two. */
  lemma ImulWideExact(x: U64, y: U64)
    ensures var s, t := SignedValue(x), SignedValue(y);
      Meaning(ImulProduct(x, y), 64) == s * t % (TWO_64 * TWO_64)
      <==> SameSign(s, t) || PowerOfTwo(Magnitude(x) * Magnitude(y))
  {
    var p := Magnitude(x) * Magnitude(y);
    MagnitudesMultiply(x, y);
    if SameSign(SignedValue(x), SignedValue(y)) {
      Pow64();
      SmallMod(p, TWO_64 * TWO_64);
    } else {
      FilledMeaning(Top64(Magnitude(x), Magnitude(y)), Low64(Magnitude(x), Magnitude(y)), p);
    }
  }

  /** The leading zeros set where the halves should be negated. */
  function FilledHalves(high: U64, low: U64): Product {
    if high != 0 then Halves(Value(Filled(WordOf(high))), low) else Halves(TWO_64 - 1, Value(Filled(WordOf(low))))
  }

  lemma FilledMeaning(high: U64, low: U64, p: int)
    requires p == high * TWO_64 + low < TWO_64 * TWO_64
    ensures Meaning(FilledHalves(high, low), 64) == (0 - p) % (TWO_64 * TWO_64) <==> PowerOfTwo(p)
  {
    Pow64();
    var k := FilledProduct(high, low);
    HalfOfPower(p, k);
    Negated(p, Pow2(k));
  }

  lemma SignsOfProduct(s: int, t: int)
    requires -TWO_64 / 2 <= s < TWO_64 / 2 && -TWO_64 / 2 <= t < TWO_64 / 2
    ensures var p := (if s < 0 then -s else s) * (if t < 0 then -t else t);
      && s * t == (if SameSign(s, t) then p else -p)
      && 0 <= p < TWO_64 * TWO_64
  {
    ProductBelow(if s < 0 then -s else s, if t < 0 then -t else t, TWO_64);
  }

  lemma Negated(p: int, power: int)
    requires 0 <= p < power && p < TWO_64 * TWO_64
    requires p == 0 ==> power == 1
    ensures p + TWO_64 * TWO_64 - power == (0 - p) % (TWO_64 * TWO_64) <==> 2 * p == power
  {
  }
}
