/** Enumeration of the group sizes: every k in 1..n with n % k == 0, ascending. */
module Divisibility {

  predicate StrictlyAscending(s: seq<int>) { forall p, q :: 0 <= p < q < |s| ==> s[p] < s[q] }

  /** The divisors of n that are at most m, in the order a scan 1, 2, ..., m finds them. */
  function DivisorsUpTo(n: int, m: int): seq<int>
  {
    if m < 1 then [] else DivisorsUpTo(n, m - 1) + (if n % m == 0 then [m] else [])
  }

  /** find_divisors(n) as a value. */
  function Divisors(n: int): seq<int> { DivisorsUpTo(n, n) }

  /** k is listed exactly when 1 <= k <= m and k divides n, and the list is strictly ascending. */
  lemma {:induction false} DivisorsUpToSpec(n: int, m: int)
    ensures forall k :: k in DivisorsUpTo(n, m) <==> 1 <= k <= m && n % k == 0
    ensures StrictlyAscending(DivisorsUpTo(n, m))
  {
    if m >= 1 {
      var prev := DivisorsUpTo(n, m - 1);
      DivisorsUpToSpec(n, m - 1);
      forall p | 0 <= p < |prev| ensures prev[p] < m {
        assert prev[p] in prev;
      }
    }
  }

  /** The full list for n: exactly the positive divisors of n, ascending; it starts with 1
      and ends with n when n >= 1, and is empty when n <= 0. */
  lemma DivisorsSpec(n: int)
    ensures forall k :: k in Divisors(n) <==> 1 <= k <= n && n % k == 0
    ensures StrictlyAscending(Divisors(n))
    ensures n >= 1 ==> |Divisors(n)| >= 1 && Divisors(n)[0] == 1 && Divisors(n)[|Divisors(n)| - 1] == n
    ensures n <= 0 ==> Divisors(n) == []
  {
    DivisorsUpToSpec(n, n);
    var d := Divisors(n);
    if n >= 1 {
      assert 1 in d && n in d;
      var first :| 0 <= first < |d| && d[first] == 1;
      var last :| 0 <= last < |d| && d[last] == n;
      assert d[0] in d && d[|d| - 1] in d;
    }
  }

  /** find_divisors: scans i = 1, 2, ..., n and appends each i with n % i == 0. */
  method FindDivisors(n: int) returns (divisors: seq<int>)
    ensures divisors == Divisors(n)
    ensures forall k :: k in divisors <==> 1 <= k <= n && n % k == 0
    ensures StrictlyAscending(divisors)
  {
    divisors := [];
    var i := 1;
    while i <= n
      invariant 1 <= i <= if n >= 1 then n + 1 else 1
      invariant divisors == DivisorsUpTo(n, i - 1)
    {
      if n % i == 0 {
        divisors := divisors + [i];
      }
      i := i + 1;
    }
    DivisorsSpec(n);
  }
}
