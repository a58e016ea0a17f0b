/** Bitwise operators on words, bit 0 first, and the numbers they stand for. */
module Bits {
  import opened Arithmetic
  import opened Registers

  function Ones(): Word { seq(64, _ => true) }
  function Single(k: nat): Word
    requires k < 64
  {
    seq(64, i => i == k)
  }

  function And(x: Word, y: Word): Word { seq(64, i requires 0 <= i < 64 => x[i] && y[i]) }
  function Or(x: Word, y: Word): Word { seq(64, i requires 0 <= i < 64 => x[i] || y[i]) }
  function Xor(x: Word, y: Word): Word { seq(64, i requires 0 <= i < 64 => x[i] != y[i]) }
  function Not(x: Word): Word { seq(64, i requires 0 <= i < 64 => !x[i]) }

  /** `x << n` and `x >> n`, for counts C defines. */
  function Shl(x: Word, n: nat): Word
    requires n < 64
  {
    seq(64, i requires 0 <= i < 64 => i >= n && x[i - n])
  }

  function Shr(x: Word, n: nat): Word
    requires n < 64
  {
    seq(64, i requires 0 <= i < 64 => i + n < 64 && x[i + n])
  }

  /** The mask `op_size == 64 ? ~0 : ~(~0 << op_size)`. */
  function LowMask(w: nat): Word
    requires w <= 64
  {
    if w == 64 then Ones() else Not(Shl(Ones(), w))
  }

  function Falses(n: nat): seq<bool> { seq(n, _ => false) }

  /** The number a bit string stands for. */
  function Nat(x: seq<bool>): nat {
    if |x| == 0 then 0 else (if x[0] then 1 else 0) + 2 * Nat(x[1..])
  }

  function Fit(v: nat, n: nat): (x: seq<bool>)
    ensures |x| == n
  {
    if n == 0 then [] else [v % 2 == 1] + Fit(v / 2, n - 1)
  }

  function WordOf(v: U64): Word { Fit(v, 64) }

  lemma {:induction false} NatBound(x: seq<bool>)
    ensures Nat(x) < Pow2(|x|)
  {
    if |x| > 0 {
      NatBound(x[1..]);
    }
  }

  lemma {:induction false} NatConcat(x: seq<bool>, y: seq<bool>)
    ensures Nat(x + y) == Nat(x) + Pow2(|x|) * Nat(y)
  {
    if |x| == 0 {
      assert x + y == y;
    } else {
      NatConcat(x[1..], y);
      assert (x + y)[1..] == x[1..] + y;
      assert 2 * (Pow2(|x| - 1) * Nat(y)) == Pow2(|x|) * Nat(y);
    }
  }

  lemma {:induction false} NatFalses(n: nat)
    ensures Nat(Falses(n)) == 0
  {
    if n > 0 {
      NatFalses(n - 1);
      assert Falses(n)[1..] == Falses(n - 1);
    }
  }

  lemma {:induction false} NatTrues(x: seq<bool>)
    requires forall i :: 0 <= i < |x| ==> x[i]
    ensures Nat(x) == Pow2(|x|) - 1
  {
    if |x| > 0 {
      NatTrues(x[1..]);
    }
  }

  /** A bit string continued by equal bits. */
  lemma NatContinued(x: seq<bool>, n: nat, b: bool)
    ensures Nat(x + seq(n, _ => b)) == Nat(x) + (if b then Pow2(|x|) * (Pow2(n) - 1) else 0)
  {
    var high := seq(n, _ => b);
    NatConcat(x, high);
    if b {
      NatTrues(high);
    } else {
      assert high == Falses(n);
      NatFalses(n);
    }
  }

  /** Cutting a bit string is division by a power of two. */
  lemma NatSplit(x: seq<bool>, k: nat)
    requires k <= |x|
    ensures Nat(x[..k]) == Nat(x) % Pow2(k) && Nat(x[k..]) == Nat(x) / Pow2(k)
  {
    assert x == x[..k] + x[k..];
    NatConcat(x[..k], x[k..]);
    NatBound(x[..k]);
    assert Pow2(k) * Nat(x[k..]) == Nat(x[k..]) * Pow2(k);
    DivModUnique(Nat(x), Nat(x[k..]), Nat(x[..k]), Pow2(k));
  }

  lemma {:induction false} NatFit(v: nat, n: nat)
    requires v < Pow2(n)
    ensures Nat(Fit(v, n)) == v
  {
    if n > 0 {
      NatFit(v / 2, n - 1);
      assert Fit(v, n)[1..] == Fit(v / 2, n - 1);
    }
  }

  lemma {:induction false} NatInjective(x: seq<bool>, y: seq<bool>)
    requires |x| == |y| && Nat(x) == Nat(y)
    ensures x == y
  {
    if |x| > 0 {
      NatInjective(x[1..], y[1..]);
      assert x == [x[0]] + x[1..] && y == [y[0]] + y[1..];
    }
  }

  /** Joining bit strings without a common bit adds them. */
  lemma {:induction false} NatDisjoint(x: seq<bool>, y: seq<bool>)
    requires |x| == |y| && forall i :: 0 <= i < |x| ==> !(x[i] && y[i])
    ensures Nat(x) + Nat(y) == Nat(seq(|x|, i requires 0 <= i < |x| => x[i] || y[i]))
  {
    if |x| > 0 {
      var z := seq(|x|, i requires 0 <= i < |x| => x[i] || y[i]);
      NatDisjoint(x[1..], y[1..]);
      assert z[1..] == seq(|x| - 1, i requires 0 <= i < |x| - 1 => x[1..][i] || y[1..][i]);
    }
  }

  lemma Pow64()
    ensures Pow2(64) == TWO_64 && Pow2(32) == 0x1_0000_0000 && Pow2(16) == 0x1_0000 && Pow2(8) == 0x100
  {
    assert Pow2(4) == 16;
    PowAdd(4, 4);
    PowAdd(8, 8);
    PowAdd(16, 16);
    PowAdd(32, 32);
  }

  /** Values and words are the same thing. */
  lemma WordRoundTrip(v: U64)
    ensures Nat(WordOf(v)) == v
  {
    Pow64();
    NatFit(v, 64);
  }

  lemma WordIsU64(x: Word)
    ensures 0 <= Nat(x) < TWO_64 && WordOf(Nat(x)) == x
  {
    Pow64();
    NatBound(x);
    NatFit(Nat(x), 64);
    NatInjective(WordOf(Nat(x)), x);
  }

  function Value(x: Word): U64 {
    WordIsU64(x);
    Nat(x)
  }

  /** The signed reading of the low `w` bits. */
  function Signed(x: Word, w: nat): int
    requires 0 < w <= 64
  {
    Nat(x[..w]) - (if x[w - 1] then Pow2(w) else 0)
  }
}
