/**
 Digits of a number in a base, shared by the printer and the parsers.
 */
module Digits {
  import opened Bits

  function Power(b: nat, n: nat): nat {
    if n == 0 then 1 else b * Power(b, n - 1)
  }

  function Quotient(u: nat, b: nat): nat
    requires b > 0
  {
    u / b
  }

  lemma PowerPositive(b: nat, n: nat)
    requires b > 0
    ensures Power(b, n) > 0
  {
  }

  // The low digits, least significant first, at least one and at most the limit.
  function LeastFirst(u: nat, base: nat, limit: nat): (ds: seq<nat>)
    requires base >= 2 && limit >= 1
    ensures 1 <= |ds| <= limit && forall i :: 0 <= i < |ds| ==> ds[i] < base
    decreases limit
  {
    [u % base] + if u / base > 0 && limit > 1 then LeastFirst(u / base, base, limit - 1) else []
  }

  function Reverse(s: seq<nat>): (r: seq<nat>)
    ensures |r| == |s|
  {
    if s == [] then [] else Reverse(s[1..]) + [s[0]]
  }

  // The number that digits stand for, most significant first.
  ghost function ValueOf(ds: seq<nat>, base: nat): nat {
    if ds == [] then 0 else ValueOf(ds[..|ds| - 1], base) * base + ds[|ds| - 1]
  }

  lemma DivMod(x: nat, d: nat)
    requires d > 0
    ensures x == d * (x / d) + x % d && x % d < d
  {
  }

  lemma Expand(b: nat, p: nat, k: nat, s: nat, r: nat)
    ensures b * (p * k + s) + r == (b * p) * k + (s * b + r)
  {
  }

  lemma RemainderBelow(b: nat, p: nat, s: nat, r: nat)
    requires s < p && r < b
    ensures 0 <= s * b + r < b * p
  {
    MulAtLeast(b, p - s);
    assert b * (p - s) == b * p - s * b;
  }

  lemma SplitRemainder(u: nat, b: nat, p: nat)
    requires b > 0 && p > 0
    ensures b * p > 0 && ((u / b) % p) * b + u % b == u % (b * p)
  {
    var q, r := u / b, u % b;
    var k, s := q / p, q % p;
    DivMod(u, b);
    DivMod(q, p);
    RemainderBelow(b, p, s, r);
    Expand(b, p, k, s, r);
    FinishSplit(u, b, p, q, r, k, s);
  }

  lemma FinishSplit(u: nat, b: nat, p: nat, q: nat, r: nat, k: nat, s: nat)
    requires u == b * q + r && q == p * k + s && 0 <= s * b + r < b * p
    requires b * (p * k + s) + r == (b * p) * k + (s * b + r)
    ensures s * b + r == u % (b * p)
  {
    DivUnique(u, b * p, k, s * b + r);
  }

  lemma ValueOfReverse(d: nat, rest: seq<nat>, base: nat)
    ensures ValueOf(Reverse([d] + rest), base) == ValueOf(Reverse(rest), base) * base + d
  {
    var ds := [d] + rest;
    assert ds[1..] == rest;
    var rev := Reverse(ds);
    assert rev == Reverse(rest) + [d];
    assert rev[..|rev| - 1] == Reverse(rest);
  }

  // The digits above the lowest one.
  function Rest(q: nat, base: nat, n: nat): seq<nat>
    requires base >= 2
  {
    if q > 0 && n > 0 then LeastFirst(q, base, n) else []
  }

  lemma FirstAndRest(u: nat, base: nat, limit: nat)
    requires base >= 2 && limit >= 1
    ensures LeastFirst(u, base, limit) == [u % base] + Rest(u / base, base, limit - 1)
    ensures Power(base, limit) == base * Power(base, limit - 1)
  {
  }

  // The limit cuts the number down to its low digits.
  lemma {:induction false} DigitsValue(u: nat, base: nat, limit: nat)
    requires base >= 2 && limit >= 1
    ensures Power(base, limit) > 0
    ensures ValueOf(Reverse(LeastFirst(u, base, limit)), base) == u % Power(base, limit)
    decreases limit, 1
  {
    hide *;
    PowerPositive(base, limit);
    PowerPositive(base, limit - 1);
    FirstAndRest(u, base, limit);
    ValueOfReverse(u % base, Rest(u / base, base, limit - 1), base);
    RestValue(u / base, base, limit - 1);
    SplitRemainder(u, base, Power(base, limit - 1));
  }

  lemma {:induction false} RestValue(q: nat, base: nat, n: nat)
    requires base >= 2
    ensures Power(base, n) > 0
    ensures ValueOf(Reverse(Rest(q, base, n)), base) == q % Power(base, n)
    decreases n, 2
  {
    PowerPositive(base, n);
    if q > 0 && n > 0 {
      DigitsValue(q, base, n);
    } else {
      ValueOfNothing(base);
      if n > 0 {
        ZeroMod(q, Power(base, n));
      }
    }
  }

  lemma ValueOfNothing(base: nat)
    ensures ValueOf(Reverse([]), base) == 0
  {
  }

  lemma ZeroMod(q: nat, p: nat)
    requires q == 0 && p > 0
    ensures q % p == 0
  {
  }

  lemma ModIsSelf(u: nat, p: nat)
    requires p > 0
    ensures u % p == u <==> u < p
  {
  }

  // All digits are there exactly when the number is below the power of the base.
  lemma DigitsExact(u: nat, base: nat, limit: nat)
    requires base >= 2 && limit >= 1
    ensures ValueOf(Reverse(LeastFirst(u, base, limit)), base) == u <==> u < Power(base, limit)
  {
    hide *;
    DigitsValue(u, base, limit);
    ModIsSelf(u, Power(base, limit));
  }

  // One more digit asked for: the digits asked for before come first.
  lemma {:induction false} LimitIsPrefix(u: nat, base: nat, limit: nat)
    requires base >= 2 && limit >= 1
    ensures var long := LeastFirst(u, base, limit + 1);
            LeastFirst(u, base, limit) == if |long| == limit + 1 then long[..limit] else long
    decreases limit
  {
    if u / base > 0 && limit > 1 {
      LimitIsPrefix(u / base, base, limit - 1);
    }
  }
}
