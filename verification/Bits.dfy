/**
 Powers of two and the bitwise operators of C on natural numbers, with the facts that
 relate them to division, remainder and single bits.
 */
module Bits {

  function Pow2(n: nat): (p: nat)
    ensures p > 0
  {
    if n == 0 then 1 else 2 * Pow2(n - 1)
  }

  predicate Bit(x: nat, i: nat) {
    if i == 0 then x % 2 == 1 else Bit(x / 2, i - 1)
  }

  // x >> i and x << i
  function Shr(x: nat, i: nat): nat {
    if i == 0 then x else Shr(x / 2, i - 1)
  }

  function Shl(x: nat, i: nat): nat {
    if i == 0 then x else 2 * Shl(x, i - 1)
  }

  function And(x: nat, y: nat): nat {
    if x == 0 || y == 0 then 0 else 2 * And(x / 2, y / 2) + (if x % 2 == 1 then y % 2 else 0)
  }

  function Or(x: nat, y: nat): nat
    decreases x + y
  {
    if x == 0 && y == 0 then 0 else 2 * Or(x / 2, y / 2) + (if x % 2 == 1 then 1 else y % 2)
  }

  function Xor(x: nat, y: nat): nat
    decreases x + y
  {
    if x == 0 && y == 0 then 0 else 2 * Xor(x / 2, y / 2) + (x + y) % 2
  }

  lemma {:induction false} Pow2Add(a: nat, b: nat)
    ensures Pow2(a + b) == Pow2(a) * Pow2(b)
  {
    if a > 0 {
      Pow2Add(a - 1, b);
      assert Pow2(a + b) == 2 * Pow2(a - 1 + b);
    }
  }

  lemma {:induction false} Pow2Monotonic(a: nat, b: nat)
    requires a <= b
    ensures Pow2(a) <= Pow2(b)
    ensures a < b ==> 2 * Pow2(a) <= Pow2(b)
  {
    if a < b {
      Pow2Monotonic(a, b - 1);
    }
  }

  lemma Pow2Values()
    ensures Pow2(8) == 0x100 && Pow2(16) == 0x1_0000 && Pow2(30) == 0x4000_0000 && Pow2(32) == 0x1_0000_0000
    ensures Pow2(64) == 0x1_0000_0000_0000_0000
  {
    assert Pow2(4) == 16;
    Pow2Add(4, 4); Pow2Add(8, 8); Pow2Add(16, 16); Pow2Add(32, 32);
    assert Pow2(32) == 4 * Pow2(30);
  }

  lemma {:induction false} BitIsParity(x: nat, i: nat)
    ensures Bit(x, i) <==> Shr(x, i) % 2 == 1
  {
    if i > 0 {
      BitIsParity(x / 2, i - 1);
    }
  }

  lemma {:induction false} ShrCompose(x: nat, a: nat, b: nat)
    ensures Shr(x, a + b) == Shr(Shr(x, a), b)
  {
    if a > 0 {
      ShrCompose(x / 2, a - 1, b);
    }
  }

  // The numbers whose quotient by 2^i is c are the 2^i consecutive ones from c * 2^i on.
  lemma {:induction false} ShrBlock(x: nat, i: nat, c: nat)
    ensures Shr(x, i) == c <==> Shl(c, i) <= x < Shl(c, i) + Pow2(i)
  {
    if i > 0 {
      ShrBlock(x / 2, i - 1, c);
    }
  }

  lemma {:induction false} ShlFacts(c: nat, i: nat)
    ensures Shl(c, i + 1) == Shl(2 * c, i)
    ensures Shl(c + 1, i) == Shl(c, i) + Pow2(i)
  {
    if i > 0 {
      ShlFacts(c, i - 1);
    }
  }

  lemma {:induction false} ShlOfZero(i: nat)
    ensures Shl(0, i) == 0
  {
    if i > 0 {
      ShlOfZero(i - 1);
    }
  }

  lemma {:induction false} ShlIsMul(c: nat, i: nat)
    ensures Shl(c, i) == Pow2(i) * c
  {
    if i > 0 {
      ShlIsMul(c, i - 1);
    }
  }

  // Quotient and remainder are determined by x == d * q + r with 0 <= r < d.
  lemma DivUnique(x: int, d: nat, q: int, r: int)
    requires d > 0 && 0 <= r < d && x == d * q + r
    ensures x / d == q && x % d == r
  {
    var q', r' := x / d, x % d;
    assert x == d * q' + r';
    MulAtLeast(d, q - q');
    assert d * (q - q') == d * q - d * q';
  }

  lemma MulAtLeast(d: int, k: int)
    requires d >= 0
    ensures k >= 1 ==> d * k >= d
    ensures k <= -1 ==> d * k <= -d
  {
    if k >= 1 {
      assert d * (k - 1) >= 0;
    } else if k <= -1 {
      assert d * (-1 - k) >= 0;
    }
  }

  lemma {:induction false} AndPow2(x: nat, i: nat)
    ensures And(x, Pow2(i)) == if Bit(x, i) then Pow2(i) else 0
  {
    if x == 0 {
      BitOfZero(i);
    } else if i == 0 {
      assert And(x / 2, 0) == 0;
    } else {
      AndPow2(x / 2, i - 1);
    }
  }

  lemma {:induction false} BitOfZero(i: nat)
    ensures !Bit(0, i)
  {
    if i > 0 {
      BitOfZero(i - 1);
    }
  }

  lemma {:induction false} OrZero(x: nat)
    ensures Or(x, 0) == x && Or(0, x) == x
  {
    if x > 0 {
      OrZero(x / 2);
    }
  }

  lemma {:induction false} XorZero(x: nat)
    ensures Xor(x, 0) == x
  {
    if x > 0 {
      XorZero(x / 2);
    }
  }

  lemma {:induction false} XorPow2(x: nat, i: nat)
    ensures Xor(x, Pow2(i)) == if Bit(x, i) then x - Pow2(i) else x + Pow2(i)
  {
    if i == 0 {
      XorHalves(x, 1);
      XorZero(x / 2);
    } else {
      XorPow2Step(x, i);
      XorPow2(x / 2, i - 1);
    }
  }

  lemma XorPow2Step(x: nat, i: nat)
    requires i > 0
    ensures Xor(x, Pow2(i)) / 2 == Xor(x / 2, Pow2(i - 1)) && Xor(x, Pow2(i)) % 2 == x % 2
  {
    XorEven(x, Pow2(i - 1));
    assert Pow2(i) == 2 * Pow2(i - 1);
    hide Xor, Pow2;
  }

  lemma XorEven(x: nat, k: nat)
    ensures Xor(x, 2 * k) / 2 == Xor(x / 2, k) && Xor(x, 2 * k) % 2 == x % 2
  {
    hide Xor;
    XorHalves(x, 2 * k);
    assert (2 * k) / 2 == k && (x + 2 * k) % 2 == x % 2;
  }

  lemma XorHalves(x: nat, y: nat)
    ensures Xor(x, y) / 2 == Xor(x / 2, y / 2) && Xor(x, y) % 2 == (x + y) % 2
  {
  }

  // Flipping bit i by Xor changes bit i and no other bit.
  lemma {:induction false} BitOfXorPow2(x: nat, i: nat, c: nat)
    ensures Bit(Xor(x, Pow2(i)), c) <==> if c == i then !Bit(x, c) else Bit(x, c)
  {
    if i == 0 {
      XorHalves(x, 1);
      XorZero(x / 2);
    } else {
      XorPow2Step(x, i);
      if c > 0 {
        BitOfXorPow2(x / 2, i - 1, c - 1);
      }
    }
  }

  lemma {:induction false} BitBelow(x: nat, n: nat, c: nat)
    requires x < Pow2(n) && c >= n
    ensures !Bit(x, c)
  {
    if n == 0 {
      BitOfZero(c);
    } else {
      BitBelow(x / 2, n - 1, c - 1);
    }
  }

  lemma {:induction false} XorPow2Below(x: nat, i: nat, n: nat)
    requires x < Pow2(n) && i < n
    ensures Xor(x, Pow2(i)) < Pow2(n)
  {
    if i == 0 {
      XorHalves(x, 1);
      XorZero(x / 2);
    } else {
      XorPow2Step(x, i);
      XorPow2Below(x / 2, i - 1, n - 1);
    }
  }

  // Numbers with the same bits are equal.
  lemma {:induction false} SameBits(x: nat, y: nat)
    requires forall c: nat :: Bit(x, c) == Bit(y, c)
    ensures x == y
  {
    if x > 0 || y > 0 {
      assert Bit(x, 0) == Bit(y, 0);
      forall c: nat ensures Bit(x / 2, c) == Bit(y / 2, c) {
        assert Bit(x, c + 1) == Bit(y, c + 1);
      }
      SameBits(x / 2, y / 2);
    }
  }

  // ---- The low bits of a number ----

  function Low(x: nat, n: nat): (r: nat)
    ensures r < Pow2(n)
  {
    if n == 0 then 0 else 2 * Low(x / 2, n - 1) + x % 2
  }

  lemma {:induction false} LowIsMod(x: nat, n: nat)
    ensures Low(x, n) == x % Pow2(n)
  {
    LowSplit(x, n);
    DivUnique(x, Pow2(n), Shr(x, n), Low(x, n));
  }

  lemma {:induction false} LowSplit(x: nat, n: nat)
    ensures x == Pow2(n) * Shr(x, n) + Low(x, n)
  {
    if n > 0 {
      LowSplit(x / 2, n - 1);
      TwiceProduct(Pow2(n - 1), Shr(x / 2, n - 1));
    }
  }

  lemma TwiceProduct(p: nat, q: nat)
    ensures (2 * p) * q == 2 * (p * q)
  {
  }

  lemma {:induction false} LowOfSmall(x: nat, n: nat)
    requires x < Pow2(n)
    ensures Low(x, n) == x
  {
    if n > 0 {
      LowOfSmall(x / 2, n - 1);
    }
  }

  lemma AndHalves(x: nat, y: nat)
    ensures And(x, y) / 2 == And(x / 2, y / 2) && And(x, y) % 2 == if x % 2 == 1 then y % 2 else 0
  {
  }

  lemma OrHalves(x: nat, y: nat)
    ensures Or(x, y) / 2 == Or(x / 2, y / 2) && Or(x, y) % 2 == if x % 2 == 1 then 1 else y % 2
  {
  }

  lemma LowHalves(x: nat, n: nat)
    requires n > 0
    ensures Low(x, n) / 2 == Low(x / 2, n - 1) && Low(x, n) % 2 == x % 2
  {
  }

  // The low bits of a bitwise operation are the operation on the low bits.
  lemma {:induction false} LowBitwise(x: nat, y: nat, n: nat)
    ensures Low(And(x, y), n) == And(Low(x, n), Low(y, n))
    ensures Low(Or(x, y), n) == Or(Low(x, n), Low(y, n))
    ensures Low(Xor(x, y), n) == Xor(Low(x, n), Low(y, n))
  {
    if n > 0 {
      LowBitwise(x / 2, y / 2, n - 1);
      LowBitwiseStep(x, y, n);
    }
  }

  lemma LowBitwiseStep(x: nat, y: nat, n: nat)
    requires n > 0
    requires Low(And(x / 2, y / 2), n - 1) == And(Low(x / 2, n - 1), Low(y / 2, n - 1))
    requires Low(Or(x / 2, y / 2), n - 1) == Or(Low(x / 2, n - 1), Low(y / 2, n - 1))
    requires Low(Xor(x / 2, y / 2), n - 1) == Xor(Low(x / 2, n - 1), Low(y / 2, n - 1))
    ensures Low(And(x, y), n) == And(Low(x, n), Low(y, n))
    ensures Low(Or(x, y), n) == Or(Low(x, n), Low(y, n))
    ensures Low(Xor(x, y), n) == Xor(Low(x, n), Low(y, n))
  {
    hide And, Or, Xor, Low;
    LowHalves(x, n); LowHalves(y, n);
    LowHalves(And(x, y), n); LowHalves(Or(x, y), n); LowHalves(Xor(x, y), n);
    AndHalves(x, y); OrHalves(x, y); XorHalves(x, y);
    var a, b := Low(x, n), Low(y, n);
    AndHalves(a, b); OrHalves(a, b); XorHalves(a, b);
  }

  lemma {:induction false} BitwiseBelow(x: nat, y: nat, n: nat)
    requires x < Pow2(n) && y < Pow2(n)
    ensures And(x, y) < Pow2(n) && Or(x, y) < Pow2(n) && Xor(x, y) < Pow2(n)
  {
    LowBitwise(x, y, n);
    LowOfSmall(x, n);
    LowOfSmall(y, n);
  }

  // x & (2^n - 1)
  lemma {:induction false} AndMask(x: nat, n: nat)
    ensures And(x, Pow2(n) - 1) == Low(x, n)
  {
    if n > 0 {
      AndMask(x / 2, n - 1);
      AndHalves(x, Pow2(n) - 1);
      assert (Pow2(n) - 1) / 2 == Pow2(n - 1) - 1;
    } else {
      assert And(x, 0) == 0;
    }
  }

  // x ^ (2^n - 1)
  lemma {:induction false} XorMask(x: nat, n: nat)
    requires x < Pow2(n)
    ensures Xor(x, Pow2(n) - 1) == Pow2(n) - 1 - x
  {
    if n > 0 {
      var k := Pow2(n - 1) - 1;
      assert Pow2(n) - 1 == 2 * k + 1;
      XorMask(x / 2, n - 1);
      XorOdd(x, k);
    }
  }

  lemma XorOdd(x: nat, k: nat)
    ensures Xor(x, 2 * k + 1) == 2 * Xor(x / 2, k) + (1 - x % 2)
  {
    hide Xor;
    XorHalves(x, 2 * k + 1);
    assert (2 * k + 1) / 2 == k && (x + (2 * k + 1)) % 2 == 1 - x % 2;
  }

  lemma {:induction false} XorIsZero(x: nat, y: nat)
    ensures Xor(x, y) == 0 <==> x == y
    decreases x + y
  {
    if x > 0 || y > 0 {
      XorHalves(x, y);
      XorIsZero(x / 2, y / 2);
    }
  }

  // ---- Single bits of what the operators give ----

  lemma {:induction false} BitOfXor(x: nat, y: nat, i: nat)
    ensures Bit(Xor(x, y), i) <==> Bit(x, i) != Bit(y, i)
  {
    hide Xor;
    XorHalves(x, y);
    if i > 0 {
      BitOfXor(x / 2, y / 2, i - 1);
    }
  }

  lemma {:induction false} BitOfAnd(x: nat, y: nat, i: nat)
    ensures Bit(And(x, y), i) <==> Bit(x, i) && Bit(y, i)
  {
    hide And;
    AndHalves(x, y);
    if i > 0 {
      BitOfAnd(x / 2, y / 2, i - 1);
    }
  }

  lemma {:induction false} BitOfOr(x: nat, y: nat, i: nat)
    ensures Bit(Or(x, y), i) <==> Bit(x, i) || Bit(y, i)
  {
    hide Or;
    OrHalves(x, y);
    if i > 0 {
      BitOfOr(x / 2, y / 2, i - 1);
    }
  }

  lemma {:induction false} BitOfShr(x: nat, s: nat, i: nat)
    ensures Bit(Shr(x, s), i) <==> Bit(x, i + s)
  {
    if s > 0 {
      BitOfShr(x / 2, s - 1, i);
    }
  }

  lemma {:induction false} BitOfShl(x: nat, s: nat, i: nat)
    ensures Bit(Shl(x, s), i) <==> i >= s && Bit(x, i - s)
  {
    if s > 0 && i > 0 {
      BitOfShl(x, s - 1, i - 1);
    }
  }

  lemma {:induction false} BitOfLow(x: nat, n: nat, i: nat)
    ensures Bit(Low(x, n), i) <==> i < n && Bit(x, i)
  {
    if n == 0 {
      BitOfZero(i);
    } else if i > 0 {
      BitOfLow(x / 2, n - 1, i - 1);
    }
  }

  lemma ShrIsDiv(x: nat, n: nat)
    ensures Shr(x, n) == x / Pow2(n)
  {
    LowSplit(x, n);
    DivUnique(x, Pow2(n), Shr(x, n), Low(x, n));
  }

  lemma {:induction false} AndShl(x: nat, m: nat, i: nat)
    ensures And(x, Shl(m, i)) == Shl(And(Shr(x, i), m), i)
  {
    if i > 0 {
      AndShl(x / 2, m, i - 1);
      AndEven(x, Shl(m, i - 1));
    }
  }

  lemma AndEven(x: nat, k: nat)
    ensures And(x, 2 * k) == 2 * And(x / 2, k)
  {
    hide And;
    AndHalves(x, 2 * k);
    assert (2 * k) / 2 == k && (2 * k) % 2 == 0;
  }

  // Numbers without common bits: or is addition.
  lemma {:induction false} OrDisjoint(a: nat, b: nat, i: nat)
    requires b < Pow2(i)
    ensures Or(Shl(a, i), b) == Shl(a, i) + b
  {
    if i == 0 {
      OrZero(a);
    } else {
      OrDisjoint(a, b / 2, i - 1);
      OrEven(Shl(a, i - 1), b);
    }
  }

  lemma OrEven(k: nat, b: nat)
    ensures Or(2 * k, b) == 2 * Or(k, b / 2) + b % 2
  {
    hide Or;
    OrHalves(2 * k, b);
    assert (2 * k) / 2 == k && (2 * k) % 2 == 0;
  }

  // ---- Words of eight hexadecimal digits, to evaluate the operators ----

  datatype Hex8 = Hex8(a: nat, b: nat, c: nat, d: nat, e: nat, f: nat, g: nat, h: nat) {
    function Value(): nat {
      16 * (16 * (16 * (16 * (16 * (16 * (16 * a + b) + c) + d) + e) + f) + g) + h
    }
  }

  // The bits of a digit, the lowest first.
  function Bit0(d: nat): bool { d == 1 || d == 3 || d == 5 || d == 7 || d == 9 || d == 11 || d == 13 || d == 15 }
  function Bit1(d: nat): bool { d == 2 || d == 3 || d == 6 || d == 7 || d == 10 || d == 11 || d == 14 || d == 15 }
  function Bit2(d: nat): bool { 4 <= d < 8 || 12 <= d }
  function Bit3(d: nat): bool { 8 <= d }

  predicate XorDigit(x: nat, y: nat, r: nat) {
    && x < 16 && y < 16 && r < 16 && Bit0(r) == (Bit0(x) != Bit0(y)) && Bit1(r) == (Bit1(x) != Bit1(y))
    && Bit2(r) == (Bit2(x) != Bit2(y)) && Bit3(r) == (Bit3(x) != Bit3(y))
  }

  predicate AndDigit(x: nat, y: nat, r: nat) {
    && x < 16 && y < 16 && r < 16 && Bit0(r) == (Bit0(x) && Bit0(y)) && Bit1(r) == (Bit1(x) && Bit1(y))
    && Bit2(r) == (Bit2(x) && Bit2(y)) && Bit3(r) == (Bit3(x) && Bit3(y))
  }

  predicate XorDigits(x: Hex8, y: Hex8, r: Hex8) {
    && XorDigit(x.a, y.a, r.a) && XorDigit(x.b, y.b, r.b) && XorDigit(x.c, y.c, r.c) && XorDigit(x.d, y.d, r.d)
    && XorDigit(x.e, y.e, r.e) && XorDigit(x.f, y.f, r.f) && XorDigit(x.g, y.g, r.g) && XorDigit(x.h, y.h, r.h)
  }

  predicate AndDigits(x: Hex8, y: Hex8, r: Hex8) {
    && AndDigit(x.a, y.a, r.a) && AndDigit(x.b, y.b, r.b) && AndDigit(x.c, y.c, r.c) && AndDigit(x.d, y.d, r.d)
    && AndDigit(x.e, y.e, r.e) && AndDigit(x.f, y.f, r.f) && AndDigit(x.g, y.g, r.g) && AndDigit(x.h, y.h, r.h)
  }

  // A number with one more bit below.
  function Append(h: nat, b: bool): nat { 2 * h + if b then 1 else 0 }

  lemma AppendIs(v: nat, h: nat, b: bool)
    ensures v == Append(h, b) <==> v / 2 == h && v % 2 == if b then 1 else 0
  {
  }

  lemma Parity(x: nat, y: nat)
    ensures (x + y) % 2 == if x % 2 == y % 2 then 0 else 1
  {
  }

  lemma AppendDigit(h: nat, d: nat)
    requires d < 16
    ensures 16 * h + d == Append(Append(Append(Append(h, Bit3(d)), Bit2(d)), Bit1(d)), Bit0(d))
  {
  }

  lemma XorAppend(h: nat, k: nat, p: bool, q: bool, r: bool)
    requires r == (p != q)
    ensures Xor(Append(h, p), Append(k, q)) == Append(Xor(h, k), r)
  {
    hide Xor, Append;
    var x, y := Append(h, p), Append(k, q);
    XorHalves(x, y);
    AppendIs(x, h, p);
    AppendIs(y, k, q);
    AppendIs(Xor(x, y), Xor(h, k), r);
    Parity(x, y);
  }

  lemma XorOneDigit(x: nat, y: nat, h: nat, k: nat, p: nat, q: nat, r: nat)
    requires x == 16 * h + p && y == 16 * k + q && XorDigit(p, q, r)
    ensures Xor(x, y) == 16 * Xor(h, k) + r
  {
    hide Xor, Append, Bit0, Bit1, Bit2, Bit3;
    AppendDigit(h, p);
    AppendDigit(k, q);
    AppendDigit(Xor(h, k), r);
    var h3, k3 := Append(h, Bit3(p)), Append(k, Bit3(q));
    var h2, k2 := Append(h3, Bit2(p)), Append(k3, Bit2(q));
    XorAppend(h, k, Bit3(p), Bit3(q), Bit3(r));
    XorAppend(h3, k3, Bit2(p), Bit2(q), Bit2(r));
    XorAppend(h2, k2, Bit1(p), Bit1(q), Bit1(r));
    XorAppend(Append(h2, Bit1(p)), Append(k2, Bit1(q)), Bit0(p), Bit0(q), Bit0(r));
  }

  lemma AndAppend(h: nat, k: nat, p: bool, q: bool, r: bool)
    requires r == (p && q)
    ensures And(Append(h, p), Append(k, q)) == Append(And(h, k), r)
  {
    hide And, Append;
    var x, y := Append(h, p), Append(k, q);
    AndHalves(x, y);
    AppendIs(x, h, p);
    AppendIs(y, k, q);
    AppendIs(And(x, y), And(h, k), r);
    Parity(x, y);
  }

  lemma AndOneDigit(x: nat, y: nat, h: nat, k: nat, p: nat, q: nat, r: nat)
    requires x == 16 * h + p && y == 16 * k + q && AndDigit(p, q, r)
    ensures And(x, y) == 16 * And(h, k) + r
  {
    hide And, Append, Bit0, Bit1, Bit2, Bit3;
    AppendDigit(h, p);
    AppendDigit(k, q);
    AppendDigit(And(h, k), r);
    var h3, k3 := Append(h, Bit3(p)), Append(k, Bit3(q));
    var h2, k2 := Append(h3, Bit2(p)), Append(k3, Bit2(q));
    AndAppend(h, k, Bit3(p), Bit3(q), Bit3(r));
    AndAppend(h3, k3, Bit2(p), Bit2(q), Bit2(r));
    AndAppend(h2, k2, Bit1(p), Bit1(q), Bit1(r));
    AndAppend(Append(h2, Bit1(p)), Append(k2, Bit1(q)), Bit0(p), Bit0(q), Bit0(r));
  }

  lemma XorWord(x: Hex8, y: Hex8, r: Hex8)
    requires XorDigits(x, y, r)
    ensures Xor(x.Value(), y.Value()) == r.Value()
  {
    hide Xor, And, XorDigit, AndDigit;
    NoDigit();
    var x1, y1 := 16 * x.a + x.b, 16 * y.a + y.b;
    var x2, y2 := 16 * x1 + x.c, 16 * y1 + y.c;
    var x3, y3 := 16 * x2 + x.d, 16 * y2 + y.d;
    var x4, y4 := 16 * x3 + x.e, 16 * y3 + y.e;
    var x5, y5 := 16 * x4 + x.f, 16 * y4 + y.f;
    var x6, y6 := 16 * x5 + x.g, 16 * y5 + y.g;
    XorOneDigit(x.a, y.a, 0, 0, x.a, y.a, r.a);
    XorOneDigit(x1, y1, x.a, y.a, x.b, y.b, r.b);
    XorOneDigit(x2, y2, x1, y1, x.c, y.c, r.c);
    XorOneDigit(x3, y3, x2, y2, x.d, y.d, r.d);
    XorOneDigit(x4, y4, x3, y3, x.e, y.e, r.e);
    XorOneDigit(x5, y5, x4, y4, x.f, y.f, r.f);
    XorOneDigit(x6, y6, x5, y5, x.g, y.g, r.g);
    XorOneDigit(x.Value(), y.Value(), x6, y6, x.h, y.h, r.h);
  }

  lemma AndWord(x: Hex8, y: Hex8, r: Hex8)
    requires AndDigits(x, y, r)
    ensures And(x.Value(), y.Value()) == r.Value()
  {
    hide Xor, And, XorDigit, AndDigit;
    NoDigit();
    var x1, y1 := 16 * x.a + x.b, 16 * y.a + y.b;
    var x2, y2 := 16 * x1 + x.c, 16 * y1 + y.c;
    var x3, y3 := 16 * x2 + x.d, 16 * y2 + y.d;
    var x4, y4 := 16 * x3 + x.e, 16 * y3 + y.e;
    var x5, y5 := 16 * x4 + x.f, 16 * y4 + y.f;
    var x6, y6 := 16 * x5 + x.g, 16 * y5 + y.g;
    AndOneDigit(x.a, y.a, 0, 0, x.a, y.a, r.a);
    AndOneDigit(x1, y1, x.a, y.a, x.b, y.b, r.b);
    AndOneDigit(x2, y2, x1, y1, x.c, y.c, r.c);
    AndOneDigit(x3, y3, x2, y2, x.d, y.d, r.d);
    AndOneDigit(x4, y4, x3, y3, x.e, y.e, r.e);
    AndOneDigit(x5, y5, x4, y4, x.f, y.f, r.f);
    AndOneDigit(x6, y6, x5, y5, x.g, y.g, r.g);
    AndOneDigit(x.Value(), y.Value(), x6, y6, x.h, y.h, r.h);
  }

  lemma NoDigit()
    ensures Xor(0, 0) == 0 && And(0, 0) == 0
  {
  }

  // ---- Congruence ----

  lemma ModShift(x: int, p: nat, k: int)
    requires p > 0
    ensures (x + p * k) % p == x % p
  {
    assert x + p * k == p * (x / p + k) + x % p;
    DivUnique(x + p * k, p, x / p + k, x % p);
  }

  ghost predicate Congruent(x: int, y: int, p: nat)
    requires p > 0
  {
    x % p == y % p
  }

  lemma Offset(x: int, y: int, p: nat) returns (k: int)
    requires p > 0 && Congruent(x, y, p)
    ensures x == y + p * k
  {
    k := x / p - y / p;
    assert p * k == p * (x / p) - p * (y / p);
  }

  lemma FromOffset(x: int, y: int, p: nat, k: int)
    requires p > 0 && x == y + p * k
    ensures Congruent(x, y, p)
  {
    ModShift(y, p, k);
  }

  lemma CongruentSum(x: int, x': int, y: int, y': int, p: nat)
    requires p > 0 && Congruent(x, x', p) && Congruent(y, y', p)
    ensures Congruent(x + y, x' + y', p) && Congruent(x - y, x' - y', p)
  {
    hide Congruent;
    var k := Offset(x, x', p);
    var l := Offset(y, y', p);
    assert p * (k + l) == p * k + p * l && p * (k - l) == p * k - p * l;
    FromOffset(x + y, x' + y', p, k + l);
    FromOffset(x - y, x' - y', p, k - l);
  }

  lemma CongruentProduct(x: int, x': int, y: int, y': int, p: nat)
    requires p > 0 && Congruent(x, x', p) && Congruent(y, y', p)
    ensures Congruent(x * y, x' * y', p)
  {
    hide Congruent;
    var k := Offset(x, x', p);
    var l := Offset(y, y', p);
    ProductShift(x', y', p, k, l);
    FromOffset(x * y, x' * y', p, k * (y' + p * l) + x' * l);
  }

  lemma ProductShift(x': int, y': int, p: int, k: int, l: int)
    ensures (x' + p * k) * (y' + p * l) == x' * y' + p * (k * (y' + p * l) + x' * l)
  {
    var y := y' + p * l;
    assert (x' + p * k) * y == x' * y + (p * k) * y;
    assert (p * k) * y == p * (k * y);
    assert x' * y == x' * y' + x' * (p * l);
    assert x' * (p * l) == p * (x' * l);
  }

  // Reducing by a multiple of p first changes nothing modulo p.
  lemma ModOfMod(x: int, p: nat, q: nat)
    requires p > 0 && q > 0
    ensures p * q > 0 && Congruent(x % (p * q), x, p)
  {
    assert p * q > 0 by { MulAtLeast(p, q); }
    var k := x / (p * q);
    assert x == x % (p * q) + p * (q * k) by {
      assert (p * q) * k == p * (q * k);
    }
    ModShift(x % (p * q), p, q * k);
  }

  lemma MulLess(a: int, b: int, q: int)
    requires q > 0
    ensures a < b <==> a * q < b * q
    ensures a <= b <==> a * q <= b * q
  {
    MulAtLeast(q, b - a);
    assert q * (b - a) == b * q - a * q;
  }

  lemma ScaleSplit(p: int, k: int, r: int, q: int)
    ensures (p * k + r) * q == (p * q) * k + r * q
  {
    assert (p * k + r) * q == (p * k) * q + r * q;
    assert (p * k) * q == (p * q) * k;
  }

  // Scaling a number and its modulus scales the remainder.
  lemma ScaleMod(x: int, p: nat, q: nat)
    requires p > 0 && q > 0
    ensures p * q > 0 && (x * q) % (p * q) == (x % p) * q
  {
    var k, r := x / p, x % p;
    MulLess(0, p, q); MulLess(r, p, q); MulLess(-1, r, q);
    assert 0 <= r * q by { MulLess(0, r, q); }
    ScaleSplit(p, k, r, q);
    DivUnique(x * q, p * q, k, r * q);
  }
}
