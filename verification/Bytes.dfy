/** Little-endian byte strings and the numbers they stand for. */
module Bytes {
  import opened Arithmetic
  import opened Registers

  /** Little-endian bytes of a number. */
  function BytesOf(v: nat, length: nat): (r: seq<Byte>)
    ensures |r| == length
  {
    if length == 0 then [] else [v % 256] + BytesOf(v / 256, length - 1)
  }

  function NumberOf(s: seq<Byte>): nat {
    if |s| == 0 then 0 else s[0] + 256 * NumberOf(s[1..])
  }

  function Pow256(k: nat): (p: nat)
    ensures p > 0
  {
    if k == 0 then 1 else 256 * Pow256(k - 1)
  }

  lemma NumberFits(s: seq<Byte>)
    requires |s| <= 8
    ensures NumberOf(s) < TWO_64
    ensures |s| < 8 ==> 256 * NumberOf(s) < TWO_64
  {
    NumberBound(s);
    Pow256Grows(|s|, 8);
    if |s| < 8 {
      Pow256Grows(|s|, 7);
    }
  }

  lemma {:induction false} NumberBound(s: seq<Byte>)
    ensures NumberOf(s) < Pow256(|s|)
  {
    if |s| > 0 {
      NumberBound(s[1..]);
    }
  }

  lemma {:induction false} Pow256Grows(i: nat, j: nat)
    requires i <= j
    ensures Pow256(i) <= Pow256(j)
    ensures Pow256(7) * 256 == Pow256(8) == TWO_64
  {
    assert Pow256(4) == 0x1_0000_0000;
    assert Pow256(8) == TWO_64;
    if i < j {
      Pow256Grows(i, j - 1);
    }
  }

  lemma {:induction false} NumberOfBytes(v: nat, length: nat)
    ensures NumberOf(BytesOf(v, length)) == v % Pow256(length)
  {
    if length > 0 {
      NumberOfBytes(v / 256, length - 1);
      assert BytesOf(v, length)[1..] == BytesOf(v / 256, length - 1);
      ModByDigits(v, Pow256(length - 1));
    }
  }

  /** The remainder modulo 256 p, lowest digit first. */
  lemma ModByDigits(v: nat, p: nat)
    requires p > 0
    ensures v % 256 + 256 * (v / 256 % p) == v % (256 * p)
  {
    var q, m := v / 256 / p, v / 256 % p;
    MulAssociates(q, p, 256);
    DivModUnique(v, q, 256 * m + v % 256, 256 * p);
  }

  lemma DivTwice(v: nat, a: nat, b: nat)
    requires a > 0 && b > 0
    ensures a * b > 0 && v / (a * b) == v / a / b
  {
    MulMonotone(1, a, b);
    var q, m := v / a / b, v / a % b;
    MulDistributes(q * b, m, a);
    MulAssociates(q, b, a);
    MulStep(m, b, a);
    DivModUnique(v, q, m * a + v % a, a * b);
  }

  /** Any part of the bytes of a number, lowest byte first. */
  lemma {:induction false} PartOfBytes(v: nat, length: nat, i: nat, l: nat)
    requires i + l <= length
    ensures BytesOf(v, length)[i..i + l] == BytesOf(Quotient(v, Pow256(i)), l)
    decreases i, l
  {
    if i > 0 {
      PartOfBytes(v / 256, length - 1, i - 1, l);
      DivTwice(v, 256, Pow256(i - 1));
      assert BytesOf(v, length)[i..i + l] == BytesOf(v / 256, length - 1)[i - 1..i - 1 + l];
    } else if l > 0 {
      PartOfBytes(v / 256, length - 1, 0, l - 1);
      assert BytesOf(v, length)[0..l] == [v % 256] + BytesOf(v / 256, length - 1)[0..l - 1];
    }
  }

  lemma PartNumber(v: nat, length: nat, i: nat, l: nat)
    requires i + l <= length
    ensures NumberOf(BytesOf(v, length)[i..i + l]) == v / Pow256(i) % Pow256(l)
  {
    PartOfBytes(v, length, i, l);
    NumberOfBytes(Quotient(v, Pow256(i)), l);
  }

  /** Byte `i` of a number. */
  lemma ByteAt(v: nat, length: nat, i: nat)
    requires i < length
    ensures BytesOf(v, length)[i] == v / Pow256(i) % 256
  {
    PartOfBytes(v, length, i, 1);
    assert BytesOf(v, length)[i] == BytesOf(v, length)[i..i + 1][0];
  }

  lemma {:induction false} NumberOfConcat(x: seq<Byte>, y: seq<Byte>)
    ensures NumberOf(x + y) == NumberOf(x) + Pow256(|x|) * NumberOf(y)
  {
    if |x| == 0 {
      assert x + y == y;
    } else {
      NumberOfConcat(x[1..], y);
      assert (x + y)[1..] == x[1..] + y;
      MulAssociates(256, Pow256(|x| - 1), NumberOf(y));
    }
  }
}
