/** Bit strings as the converter handles them: sequences of the characters
    '0' and '1', read most significant bit first. */
module Bits {

  predicate IsBit(c: char) { c == '0' || c == '1' }

  predicate IsBitString(s: seq<char>) { forall p :: 0 <= p < |s| ==> IsBit(s[p]) }

  predicate AllZero(s: seq<char>) { forall p :: 0 <= p < |s| ==> s[p] == '0' }

  predicate AllBinary(bits: seq<int>) { forall p :: 0 <= p < |bits| ==> bits[p] == 0 || bits[p] == 1 }

  function Pow2(n: nat): (r: nat)
    ensures r >= 1
  {
    if n == 0 then 1 else 2 * Pow2(n - 1)
  }

  lemma {:induction false} Pow2Add(m: nat, n: nat)
    ensures Pow2(m + n) == Pow2(m) * Pow2(n)
  {
    if m > 0 {
      Pow2Add(m - 1, n);
      assert Pow2(m + n) == 2 * Pow2(m - 1 + n);
    }
  }

  /** int(c) on a one-character string holding an ASCII digit '0'-'9': its value. */
  function DigitValue(c: char): (d: int)
    ensures IsBit(c) ==> (d == 0 || d == 1) && (d == 0 <==> c == '0')
  {
    (c as int) - ('0' as int)
  }

  /** The list [int(c) for c in s], for s made of the ASCII digits '0'-'9' (on any other
      character Python's int raises or reads a non-ASCII digit; the model only passes bits). */
  function BitValues(s: seq<char>): (bits: seq<int>)
    ensures |bits| == |s|
    ensures IsBitString(s) ==> AllBinary(bits)
    ensures forall p :: 0 <= p < |s| ==> (bits[p] == 0 <==> s[p] == '0')
  {
    seq(|s|, p requires 0 <= p < |s| => DigitValue(s[p]))
  }

  /** The positional-weight sum: bits[idx] * 2^(|bits| - idx - 1) summed over every idx. */
  function PositionalSum(bits: seq<int>): int
  {
    if |bits| == 0 then 0 else bits[0] * Pow2(|bits| - 1) + PositionalSum(bits[1..])
  }

  lemma {:induction false} PositionalSumBounds(bits: seq<int>)
    requires AllBinary(bits)
    ensures 0 <= PositionalSum(bits) < Pow2(|bits|)
  {
    if |bits| > 0 {
      PositionalSumBounds(bits[1..]);
      assert Pow2(|bits|) == 2 * Pow2(|bits| - 1);
    }
  }

  lemma {:induction false} PositionalSumZero(bits: seq<int>)
    requires AllBinary(bits)
    ensures PositionalSum(bits) == 0 <==> forall p :: 0 <= p < |bits| ==> bits[p] == 0
  {
    if |bits| > 0 {
      PositionalSumZero(bits[1..]);
      PositionalSumBounds(bits[1..]);
      if bits[0] == 0 {
        forall p | 0 <= p < |bits| && forall q :: 0 <= q < |bits[1..]| ==> bits[1..][q] == 0
          ensures bits[p] == 0
        {
          if p > 0 { assert bits[p] == bits[1..][p - 1]; }
        }
      } else {
        assert PositionalSum(bits) >= Pow2(|bits| - 1);
      }
    }
  }

  lemma {:induction false} PositionalSumAppend(a: seq<int>, b: seq<int>)
    ensures PositionalSum(a + b) == PositionalSum(a) * Pow2(|b|) + PositionalSum(b)
  {
    if |a| == 0 {
      assert a + b == b;
    } else {
      assert (a + b)[1..] == a[1..] + b;
      PositionalSumAppend(a[1..], b);
      Pow2Add(|a| - 1, |b|);
      FactorOut(a[0], Pow2(|a| - 1), Pow2(|b|), PositionalSum(a[1..]));
    }
  }

  lemma FactorOut(x: int, p: int, q: int, rest: int)
    ensures x * (p * q) + rest * q == (x * p + rest) * q
  {
  }

  /** The unsigned integer a bit string denotes, most significant bit first. */
  function BinValue(s: seq<char>): (v: int)
    requires IsBitString(s)
    ensures 0 <= v < Pow2(|s|)
    ensures v == 0 <==> AllZero(s)
  {
    var bits := BitValues(s);
    PositionalSumBounds(bits);
    PositionalSumZero(bits);
    PositionalSum(bits)
  }

  lemma BinValueAppend(a: seq<char>, b: seq<char>)
    requires IsBitString(a) && IsBitString(b)
    ensures IsBitString(a + b)
    ensures BinValue(a + b) == BinValue(a) * Pow2(|b|) + BinValue(b)
  {
    assert BitValues(a + b) == BitValues(a) + BitValues(b);
    PositionalSumAppend(BitValues(a), BitValues(b));
  }
}
