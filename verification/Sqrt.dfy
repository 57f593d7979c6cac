/**
 The bit-by-bit square root of a positive normal double, on two 32-bit words.

 With N the significand of the argument (doubled when its exponent is odd) and M = N * 2^54,
 the loops compute the integer root Q of M, one bit a round, together with the remainder
 X = 2 * (M - Q * Q), all split into a high and a low word. The last step rounds Q / 2.
 */
module Sqrt {
  import opened Bits


  // How 1.0 - tiny and 1.0 + tiny come out tells the rounding direction in force.
  datatype Rounding = ToNearest | Downward | Upward

  function Pair(hi: int, lo: int): int { hi * 0x1_0000_0000 + lo }

  // x, x plus the carry of the low word; and the low word shifted: one doubling of a word pair.
  function TwiceHigh(hi: int, lo: int): int { hi + (hi + lo / 0x8000_0000) }
  function TwiceLow(lo: int): int { (lo + lo) % 0x1_0000_0000 }

  lemma Twice(hi: int, lo: int)
    requires 0 <= lo < 0x1_0000_0000
    ensures Pair(TwiceHigh(hi, lo), TwiceLow(lo)) == 2 * Pair(hi, lo) && 0 <= TwiceLow(lo) < 0x1_0000_0000
  {
  }

  // ---- The digit recurrence on whole numbers ----

  // Q is the root of M down to the bit above c / 2, and X its scaled remainder.
  ghost predicate Root(M: int, Q: int, c: int, X: int) {
    c > 0 && Q >= 0 && X * c == 2 * (M - Q * Q) && Q * Q <= M < (Q + c) * (Q + c)
  }

  lemma RootTaken(M: int, Q: int, b: int, X: int, Q': int, X': int)
    requires b > 0 && Root(M, Q, 2 * b, X)
    requires 2 * Q + b <= X && Q' == Q + b && X' == 2 * (X - (2 * Q + b))
    ensures Root(M, Q', b, X')
  {
    RootIdentity(M, Q, b, X);
    var T := 2 * Q + b;
    assert (X - T) * b >= 0;
    assert (2 * (X - T)) * b == 2 * ((X - T) * b);
  }

  lemma RootSkipped(M: int, Q: int, b: int, X: int, X': int)
    requires b > 0 && Root(M, Q, 2 * b, X)
    requires 2 * Q + b > X && X' == 2 * X
    ensures Root(M, Q, b, X')
  {
    RootIdentity(M, Q, b, X);
    var T := 2 * Q + b;
    NegativeProduct(X - T, b);
    assert (2 * X) * b == 2 * (X * b);
  }

  lemma NegativeProduct(x: int, b: int)
    requires x < 0 < b
    ensures x * b < 0
  {
  }

  lemma RootIdentity(M: int, Q: int, b: int, X: int)
    requires b > 0 && Root(M, Q, 2 * b, X)
    ensures X * b == M - Q * Q
    ensures (X - (2 * Q + b)) * b == M - (Q + b) * (Q + b)
  {
    assert X * (2 * b) == 2 * (X * b);
    assert (Q + b) * (Q + b) == Q * Q + (2 * Q + b) * b;
    assert (X - (2 * Q + b)) * b == X * b - (2 * Q + b) * b;
  }

  // The remainder stays small enough for the words that hold it.
  lemma RootBound(M: int, Q: int, c: int, X: int)
    requires Root(M, Q, c, X)
    ensures 0 <= X < 4 * Q + 2 * c
  {
    assert (Q + c) * (Q + c) == Q * Q + (2 * Q + c) * c;
    assert X * c < (4 * Q + 2 * c) * c by {
      assert (4 * Q + 2 * c) * c == 2 * ((2 * Q + c) * c);
    }
    Cancel(X, 4 * Q + 2 * c, c);
    Cancel(-1, X, c);
  }

  lemma Cancel(a: int, b: int, c: int)
    requires c > 0 && a * c < b * c
    ensures a < b
  {
    MulAtLeast(c, b - a);
    assert c * (b - a) == b * c - a * c;
  }

  lemma RootStart(N: int)
    requires 0x10_0000_0000_0000 <= N < 0x40_0000_0000_0000
    ensures Root(N * 0x40_0000_0000_0000, 0, 0x40_0000_0000_0000, 2 * N)
  {
  }

  // ---- Rounding ----

  // P is the root of M / 4 rounded in the given direction.
  ghost predicate Rounded(mode: Rounding, M: int, P: int) {
    match mode
    case ToNearest => (2 * P - 1) * (2 * P - 1) < M < (2 * P + 1) * (2 * P + 1)
    case Downward => (2 * P) * (2 * P) <= M < (2 * P + 2) * (2 * P + 2)
    case Upward => (2 * P - 2) * (2 * P - 2) < M <= (2 * P) * (2 * P)
  }

  ghost function RoundUpBy(mode: Rounding, Q: int): int {
    match mode
    case Downward => 0
    case Upward => if Q % 0x1_0000_0000 == 0x1_0000_0000 - 1 then 1 else 2
    case ToNearest => Q % 2
  }

  // The root Q after the last adjustment, X being the remainder.
  ghost function Adjusted(mode: Rounding, Q: int, X: int): int {
    if X == 0 then Q else Q + RoundUpBy(mode, Q)
  }

  // A perfect square that is a multiple of 4 has an even root.
  lemma ExactIsEven(M: int, Q: int)
    requires Q * Q == M && M % 4 == 0
    ensures Q % 2 == 0
  {
    var k, b := Q / 2, Q % 2;
    assert Q * Q == 4 * (k * k + k * b) + b * b by {
      assert Q == 2 * k + b;
    }
  }

  lemma SquareMonotonic(a: int, b: int)
    requires 0 <= a <= b
    ensures a * a <= b * b && (a < b ==> a * a < b * b)
  {
    MulAtLeast(b, b - a);
    MulAtLeast(a, b - a);
    assert b * b - a * a == b * (b - a) + a * (b - a);
  }

  // What lies at or below the root, and what lies above it.
  lemma RootBetween(M: int, Q: int, a: int, b: int)
    requires Q * Q <= M < (Q + 1) * (Q + 1) && 0 <= a <= Q && Q + 1 <= b
    ensures a * a <= M < b * b && (a < Q || Q * Q < M ==> a * a < M)
  {
    SquareMonotonic(a, Q);
    SquareMonotonic(Q + 1, b);
  }

  lemma RoundingIsRight(mode: Rounding, M: int, Q: int, X: int)
    requires Root(M, Q, 1, X) && M % 4 == 0 && Q >= 2
    ensures Rounded(mode, M, Adjusted(mode, Q, X) / 2)
  {
    assert X == 2 * (M - Q * Q);
    var P := Adjusted(mode, Q, X) / 2;
    if X == 0 {
      ExactIsEven(M, Q);
    }
    match mode
    case ToNearest => RootBetween(M, Q, 2 * P - 1, 2 * P + 1);
    case Downward => RootBetween(M, Q, 2 * P, 2 * P + 2);
    case Upward =>
      RootBetween(M, Q, 2 * P - 2, if X == 0 then 2 * P + 1 else 2 * P);
  }

  // ---- The program ----

  // The bit r == 2^p being decided, 0 after the last one.
  ghost function BitValue(p: int): int { if p < 0 then 0 else Pow2(p) }

  lemma BitValueHalves(p: int)
    requires p >= 0
    ensures BitValue(p) / 2 == BitValue(p - 1) && 2 * Pow2(p) == Pow2(p + 1)
  {
  }

  // Deciding the bits of the high word: the low words of root and divisor are still 0.
  ghost predicate HighState(M: int, ix0: int, ix1: int, q: int, s0: int, p: int) {
    && -1 <= p <= 21 && 0 <= ix1 < 0x1_0000_0000 && s0 == 2 * q
    && 0 <= q <= 0x40_0000 - Pow2(p + 1)
    && Root(M, Pair(q, 0), Pow2(p + 1) * 0x1_0000_0000, Pair(ix0, ix1))
  }

  lemma HighArithmetic(ix0: int, ix1: int, q: int, r: int)
    requires 0 <= ix1 < 0x1_0000_0000
    ensures 2 * q + r <= ix0 <==> 2 * Pair(q, 0) + r * 0x1_0000_0000 <= Pair(ix0, ix1)
    ensures Pair(ix0 - (2 * q + r), ix1) == Pair(ix0, ix1) - (2 * Pair(q, 0) + r * 0x1_0000_0000)
    ensures Pair(q + r, 0) == Pair(q, 0) + r * 0x1_0000_0000
  {
  }

  lemma HighTaken(M: int, ix0: int, ix1: int, q: int, s0: int, p: int)
    requires p >= 0 && HighState(M, ix0, ix1, q, s0, p) && s0 + Pow2(p) <= ix0
    ensures var t := s0 + Pow2(p);
            HighState(M, TwiceHigh(ix0 - t, ix1), TwiceLow(ix1), q + Pow2(p), t + Pow2(p), p - 1)
  {
    var t, b := s0 + Pow2(p), Pow2(p) * 0x1_0000_0000;
    BitValueHalves(p);
    HighArithmetic(ix0, ix1, q, Pow2(p));
    Twice(ix0 - t, ix1);
    assert Pow2(p + 1) * 0x1_0000_0000 == 2 * b;
    hide Root, Pair, TwiceHigh, TwiceLow, Pow2;
    RootTaken(M, Pair(q, 0), b, Pair(ix0, ix1), Pair(q + Pow2(p), 0), Pair(TwiceHigh(ix0 - t, ix1), TwiceLow(ix1)));
  }

  lemma HighSkipped(M: int, ix0: int, ix1: int, q: int, s0: int, p: int)
    requires p >= 0 && HighState(M, ix0, ix1, q, s0, p) && s0 + Pow2(p) > ix0
    ensures HighState(M, TwiceHigh(ix0, ix1), TwiceLow(ix1), q, s0, p - 1)
  {
    var b := Pow2(p) * 0x1_0000_0000;
    BitValueHalves(p);
    HighArithmetic(ix0, ix1, q, Pow2(p));
    Twice(ix0, ix1);
    assert Pow2(p + 1) * 0x1_0000_0000 == 2 * b;
    hide Root, Pair, TwiceHigh, TwiceLow, Pow2;
    RootSkipped(M, Pair(q, 0), b, Pair(ix0, ix1), Pair(TwiceHigh(ix0, ix1), TwiceLow(ix1)));
  }

  method HighBits(ix0': int, ix1': int, ghost M: int) returns (ix0: int, ix1: int, q: int, s0: int)
    requires HighState(M, ix0', ix1', 0, 0, 21)
    ensures HighState(M, ix0, ix1, q, s0, -1)
  {
    ix0, ix1, q, s0 := ix0', ix1', 0, 0;
    var r := 0x0020_0000;
    ghost var p := 21;
    assert r == Pow2(21) by { Pow2Add(16, 5); Pow2Values(); }
    hide Root;
    while r != 0
      invariant r == BitValue(p) && HighState(M, ix0, ix1, q, s0, p)
      decreases p
    {
      var t := s0 + r;
      if t <= ix0 {
        HighTaken(M, ix0, ix1, q, s0, p);
        s0 := t + r;
        ix0 := ix0 - t;
        q := q + r;
      } else {
        HighSkipped(M, ix0, ix1, q, s0, p);
      }
      ix0, ix1 := TwiceHigh(ix0, ix1), TwiceLow(ix1);
      BitValueHalves(p);
      r := r / 2;
      p := p - 1;
    }
  }

  // The subtraction of [t, t1] from [ix0, ix1] with its borrow, and the sum of [t, t1] and r with
  // the carry seen in the top bits.
  function Borrowed(ix0: int, ix1: int, t: int, t1: int): int { if ix1 < t1 then ix0 - t - 1 else ix0 - t }
  function Carried(t: int, t1: int, s1: int): int { if t1 / 0x8000_0000 == 1
    && s1 / 0x8000_0000 == 0 then t + 1 else t }

  // The words while the bits of the low word are decided, c being twice the next bit: s0, s1 hold
  // twice the root q, q1, with room for that bit.
  ghost predicate LowWords(ix1: int, q: int, q1: int, s0: int, s1: int, c: int) {
    && 0 <= ix1 < 0x1_0000_0000 && 0 <= q <= 0x3f_ffff
    && 0 <= q1 <= 0x1_0000_0000 - c
    && 0 <= s1 && (s1 == 0 || s1 <= 0x1_0000_0000 - 2 * c)
    && Pair(s0, s1) == 2 * Pair(q, q1)
  }

  ghost predicate IsBit(r: int) { r > 0 && (r == 0x8000_0000 || 2 * r <= 0x8000_0000) }

  ghost predicate LowState(M: int, ix0: int, ix1: int, q: int, q1: int, s0: int, s1: int, c: int) {
    LowWords(ix1, q, q1, s0, s1, c) && Root(M, Pair(q, q1), c, Pair(ix0, ix1))
  }

  ghost predicate Takes(ix0: int, ix1: int, s0: int, t1: int) {
    s0 < ix0 || (s0 == ix0 && t1 <= ix1)
  }

  // What the word comparison and subtraction mean for the pairs.
  lemma LowArithmetic(ix0: int, ix1: int, q: int, q1: int, s0: int, s1: int, r: int)
    requires IsBit(r) && LowWords(ix1, q, q1, s0, s1, 2 * r)
    ensures var t1 := s1 + r;
            var h, l := Borrowed(ix0, ix1, s0, t1), (ix1 - t1) % 0x1_0000_0000;
            && 0 <= t1 < 0x1_0000_0000
            && (Takes(ix0, ix1, s0, t1) <==> 2 * Pair(q, q1) + r <= Pair(ix0, ix1))
            && Pair(h, l) == Pair(ix0, ix1) - (2 * Pair(q, q1) + r)
  {
    Borrow(ix0, ix1, s0, s1 + r);
    hide Borrowed;
  }

  lemma LowWordsStep(ix1: int, l: int, q: int, q1: int, s0: int, s1: int, r: int)
    requires IsBit(r) && LowWords(ix1, q, q1, s0, s1, 2 * r) && 0 <= l < 0x1_0000_0000
    ensures LowWords(l, q, q1, s0, s1, r)
    ensures var t1 := s1 + r; var s1' := (t1 + r) % 0x1_0000_0000;
            q1 + r < 0x1_0000_0000 && LowWords(l, q, q1 + r, Carried(s0, t1, s1'), s1', r)
  {
    Carry(s0, s1, r);
    hide Carried;
  }

  lemma LowSkipped(M: int, ix0: int, ix1: int, q: int, q1: int, s0: int, s1: int, r: int)
    requires IsBit(r) && LowState(M, ix0, ix1, q, q1, s0, s1, 2 * r)
    requires !Takes(ix0, ix1, s0, s1 + r)
    ensures LowState(M, TwiceHigh(ix0, ix1), TwiceLow(ix1), q, q1, s0, s1, r)
  {
    assert 0 <= ix1 < 0x1_0000_0000 && r > 0;
    hide Root, LowWords, IsBit, Takes;
    LowArithmetic(ix0, ix1, q, q1, s0, s1, r);
    Twice(ix0, ix1);
    hide Pair, TwiceHigh, TwiceLow;
    LowWordsStep(ix1, TwiceLow(ix1), q, q1, s0, s1, r);
    RootSkipped(M, Pair(q, q1), r, Pair(ix0, ix1), Pair(TwiceHigh(ix0, ix1), TwiceLow(ix1)));
  }

  lemma LowTaken(M: int, ix0: int, ix1: int, q: int, q1: int, s0: int, s1: int, r: int)
    requires IsBit(r) && LowState(M, ix0, ix1, q, q1, s0, s1, 2 * r)
    requires Takes(ix0, ix1, s0, s1 + r)
    ensures var t1 := s1 + r; var s1' := (t1 + r) % 0x1_0000_0000;
            var h, l := Borrowed(ix0, ix1, s0, t1), (ix1 - t1) % 0x1_0000_0000;
            LowState(M, TwiceHigh(h, l), TwiceLow(l), q, q1 + r, Carried(s0, t1, s1'), s1', r)
  {
    var t1 := s1 + r;
    var h, l := Borrowed(ix0, ix1, s0, t1), (ix1 - t1) % 0x1_0000_0000;
    assert r > 0 && Pair(q, q1 + r) == Pair(q, q1) + r;
    hide Root, LowWords, IsBit, Takes, Borrowed, Carried;
    LowArithmetic(ix0, ix1, q, q1, s0, s1, r);
    Twice(h, l);
    hide Pair, TwiceHigh, TwiceLow;
    LowWordsStep(ix1, TwiceLow(l), q, q1, s0, s1, r);
    RootTaken(M, Pair(q, q1), r, Pair(ix0, ix1), Pair(q, q1 + r), Pair(TwiceHigh(h, l), TwiceLow(l)));
  }

  // Adding the bit r twice to [s0, s1]: only the top bit can carry into the high word.
  lemma Carry(s0: int, s1: int, r: int)
    requires IsBit(r) && 0 <= s1 && (s1 == 0 || s1 + 4 * r <= 0x1_0000_0000)
    ensures var t1 := s1 + r; var s1' := (t1 + r) % 0x1_0000_0000;
            && t1 < 0x1_0000_0000 && s1' == (if r == 0x8000_0000 then 0 else s1 + 2 * r)
            && Pair(Carried(s0, t1, s1'), s1') == Pair(s0, s1) + 2 * r
  {
  }

  lemma Borrow(ix0: int, ix1: int, t: int, t1: int)
    requires 0 <= ix1 < 0x1_0000_0000 && 0 <= t1 < 0x1_0000_0000
    ensures Pair(Borrowed(ix0, ix1, t, t1), (ix1 - t1) % 0x1_0000_0000) == Pair(ix0, ix1) - Pair(t, t1)
    ensures (t < ix0 || (t == ix0 && t1 <= ix1)) <==> Pair(t, t1) <= Pair(ix0, ix1)
  {
  }

  lemma TopBit(p: nat)
    requires p <= 31
    ensures Pow2(p) <= 0x8000_0000 && (p == 31 ==> Pow2(p) == 0x8000_0000) && (p < 31 ==> 2 * Pow2(p) <= 0x8000_0000)
  {
    Pow2Monotonic(p, 31);
    Pow2Values();
    BitValueHalves(31);
  }

  lemma BitIsBit(p: nat)
    requires p <= 31
    ensures IsBit(Pow2(p)) && (p == 31 ==> Pow2(p) == 0x8000_0000)
  {
    TopBit(p);
  }

  lemma LowStart(M: int, ix0: int, ix1: int, q: int, s0: int)
    requires HighState(M, ix0, ix1, q, s0, -1)
    ensures LowState(M, ix0, ix1, q, 0, s0, 0, 0x1_0000_0000)
  {
    hide Root;
  }

  ghost predicate IsRoot(M: int, ix0: int, ix1: int, q: int, q1: int) {
    && Root(M, Pair(q, q1), 1, Pair(ix0, ix1))
    && 0 <= q <= 0x3f_ffff && 0 <= q1 < 0x1_0000_0000 && 0 <= ix1 < 0x1_0000_0000
  }

  lemma LowEnd(M: int, ix0: int, ix1: int, q: int, q1: int, s0: int, s1: int)
    requires LowState(M, ix0, ix1, q, q1, s0, s1, 1)
    ensures IsRoot(M, ix0, ix1, q, q1)
  {
    hide Root;
  }

  method LowBits(ix0': int, ix1': int, q: int, s0': int, ghost M: int) returns (ix0: int, ix1: int, q1: int)
    requires HighState(M, ix0', ix1', q, s0', -1)
    ensures IsRoot(M, ix0, ix1, q, q1)
  {
    hide LowState, HighState, IsRoot, TwiceHigh, TwiceLow;
    ix0, ix1, q1 := ix0', ix1', 0;
    var s0, s1 := s0', 0;
    var r := 0x8000_0000;
    ghost var p := 31;
    BitIsBit(31);
    LowStart(M, ix0, ix1, q, s0);
    while r != 0
      invariant -1 <= p <= 31 && r == BitValue(p) && LowState(M, ix0, ix1, q, q1, s0, s1, Pow2(p + 1))
      decreases p
    {
      BitIsBit(p);
      BitValueHalves(p);
      LowRoom(M, ix0, ix1, q, q1, s0, s1, r);
      if Takes(ix0, ix1, s0, s1 + r) {
        LowTaken(M, ix0, ix1, q, q1, s0, s1, r);
      } else {
        LowSkipped(M, ix0, ix1, q, q1, s0, s1, r);
      }
      var t1 := (s1 + r) % 0x1_0000_0000;
      var t := s0;
      if t < ix0 || (t == ix0 && t1 <= ix1) {
        s1 := (t1 + r) % 0x1_0000_0000;
        if t1 / 0x8000_0000 == 1 && s1 / 0x8000_0000 == 0 {
          s0 := s0 + 1;
        }
        ix0 := ix0 - t;
        if ix1 < t1 {
          ix0 := ix0 - 1;
        }
        ix1 := (ix1 - t1) % 0x1_0000_0000;
        q1 := (q1 + r) % 0x1_0000_0000;
      }
      ix0, ix1 := TwiceHigh(ix0, ix1), TwiceLow(ix1);
      r := r / 2;
      p := p - 1;
    }
    LowEnd(M, ix0, ix1, q, q1, s0, s1);
  }

  lemma LowRoom(M: int, ix0: int, ix1: int, q: int, q1: int, s0: int, s1: int, r: int)
    requires IsBit(r) && LowState(M, ix0, ix1, q, q1, s0, s1, 2 * r)
    ensures (s1 + r) % 0x1_0000_0000 == s1 + r && (q1 + r) % 0x1_0000_0000 == q1 + r
  {
    hide Root;
  }

  // In every round the high words stay far inside 32 signed bits.
  lemma HighFits(M: int, ix0: int, ix1: int, q: int, s0: int, p: int)
    requires HighState(M, ix0, ix1, q, s0, p)
    ensures 0 <= ix0 < 0x200_0000 && 0 <= s0 <= 0x80_0000
  {
    var c := Pow2(p + 1) * 0x1_0000_0000;
    RootBound(M, Pair(q, 0), c, Pair(ix0, ix1));
    Pow2Monotonic(p + 1, 22); Pow2Add(16, 6); Pow2Values();
    hide Root;
  }

  lemma LowFits(M: int, ix0: int, ix1: int, q: int, q1: int, s0: int, s1: int, c: int)
    requires LowState(M, ix0, ix1, q, q1, s0, s1, c) && 0 < c <= 0x1_0000_0000
    ensures 0 <= ix0 < 0x200_0000 && 0 <= s0 <= 0x80_0000 && 0 <= s1 < 0x1_0000_0000
  {
    RootBound(M, Pair(q, q1), c, Pair(ix0, ix1));
    hide Root;
  }

  // ---- The argument and the result ----

  ghost predicate IsNormal(hi: int, lo: int) {
    0x0010_0000 <= hi < 0x7ff0_0000 && 0 <= lo < 0x1_0000_0000
  }

  // Significand (2^52 and more) and unbiased exponent of a positive normal double.
  ghost function Significand(hi: int, lo: int): int { Pair(hi % 0x10_0000 + 0x10_0000, lo) }
  ghost function Exponent(hi: int): int { hi / 0x10_0000 - 1023 }

  // The significand once the exponent has been made even.
  ghost function Evened(hi: int, lo: int): int {
    if Exponent(hi) % 2 == 1 then 2 * Significand(hi, lo) else Significand(hi, lo)
  }

  // The direction looks at the low word only.
  lemma RoundUpOfPair(mode: Rounding, q: int, q1: int)
    requires 0 <= q1 < 0x1_0000_0000
    ensures RoundUpBy(mode, Pair(q, q1)) ==
      match mode
      case Downward => 0
      case Upward => if q1 == 0xffff_ffff then 1 else 2
      case ToNearest => q1 % 2
  {
    DivUnique(Pair(q, q1), 0x1_0000_0000, q, q1);
    ModShift(q1, 2, q * 0x8000_0000);
  }

  lemma PairIsZero(hi: int, lo: int)
    requires 0 <= lo < 0x1_0000_0000
    ensures Pair(hi, lo) == 0 <==> hi == 0 && lo == 0
  {
  }

  // The last adjustment of the root, when the remainder is not zero, before it is halved.
  method Adjust(q': int, q1': int, ix0: int, ix1: int, mode: Rounding, ghost M: int) returns (q: int, q1: int)
    requires IsRoot(M, ix0, ix1, q', q1')
    ensures 0 <= q1 < 0x1_0000_0000
    ensures Pair(q, q1) == Adjusted(mode, Pair(q', q1'), Pair(ix0, ix1))
  {
    hide Root, RoundUpBy;
    RoundUpOfPair(mode, q', q1');
    PairIsZero(ix0, ix1);
    q, q1 := q', q1';
    if ix0 != 0 || ix1 != 0 {
      if mode != Downward {
        if q1 == 0xffff_ffff {
          q1 := 0;
          q := q + 1;
        } else if mode == Upward {
          if q1 == 0xffff_fffe {
            q := q + 1;
          }
          q1 := (q1 + 2) % 0x1_0000_0000;
        } else {
          q1 := q1 + q1 % 2;
        }
      }
    }
  }

  // Makes the exponent even and leaves twice the significand in the words.
  method Normalize(hi: int, lo: int) returns (ix0: int, ix1: int, m: int)
    requires IsNormal(hi, lo)
    ensures 0 <= ix1 < 0x1_0000_0000 && Pair(ix0, ix1) == 2 * Evened(hi, lo) && m == Exponent(hi) / 2
    ensures 0x10_0000_0000_0000 <= Evened(hi, lo) < 0x40_0000_0000_0000
  {
    ix0, ix1 := hi, lo;
    m := ix0 / 0x10_0000;
    m := m - 1023;
    ix0 := ix0 % 0x10_0000 + 0x10_0000;
    if m % 2 == 1 {
      Twice(ix0, ix1);
      ix0, ix1 := TwiceHigh(ix0, ix1), TwiceLow(ix1);
    }
    m := m / 2;
    Twice(ix0, ix1);
    ix0, ix1 := TwiceHigh(ix0, ix1), TwiceLow(ix1);
  }

  // Halves the adjusted root and puts the exponent on top.
  method Pack(q: int, q1: int, m: int, ghost hi: int, ghost lo: int, ghost mode: Rounding, ghost Q: int, ghost X: int)
    returns (ix0: int, ix1: int)
    requires 0 <= q1 < 0x1_0000_0000 && m == Exponent(hi) / 2
    requires Ready(hi, lo, mode, Q, X, Pair(q, q1))
    ensures 0 <= ix1 < 0x1_0000_0000
    ensures IsSquareRoot(hi, lo, mode, ix0, ix1)
  {
    hide Ready, IsSquareRoot;
    ix0 := q / 2 + 0x3fe0_0000;
    ix1 := q1 / 2 + if q % 2 == 1 then 0x8000_0000 else 0;
    ix0 := ix0 + m * 0x10_0000;
    assert Pair(ix0, ix1) == Pair(q, q1) / 2 + (m + 1022) * 0x10_0000_0000_0000;
    Packed(hi, lo, mode, Q, X, Pair(q, q1), m, ix0, ix1);
  }

  // R is the adjusted root for the significand of the argument.
  ghost predicate Ready(hi: int, lo: int, mode: Rounding, Q: int, X: int, R: int) {
    && 0x10_0000_0000_0000 <= Evened(hi, lo) < 0x40_0000_0000_0000
    && Root(Evened(hi, lo) * 0x40_0000_0000_0000, Q, 1, X)
    && R == Adjusted(mode, Q, X)
  }

  // The square root of a positive normal double: its exponent is half the evened exponent and its
  // significand the correctly rounded root, for each rounding direction.
  method SqrtNormal(hi: int, lo: int, mode: Rounding) returns (rhi: int, rlo: int)
    requires IsNormal(hi, lo)
    ensures 0 <= rlo < 0x1_0000_0000
    ensures IsSquareRoot(hi, lo, mode, rhi, rlo)
  {
    hide IsNormal, IsSquareRoot, Root, HighState, Evened, Exponent, Adjusted;
    var ix0, ix1, m := Normalize(hi, lo);
    ghost var N := Evened(hi, lo);
    ghost var M := N * 0x40_0000_0000_0000;
    HighStart(N, ix0, ix1);
    var q, q1, s0;
    ix0, ix1, q, s0 := HighBits(ix0, ix1, M);
    ix0, ix1, q1 := LowBits(ix0, ix1, q, s0, M);
    ghost var Q, X := Pair(q, q1), Pair(ix0, ix1);
    q, q1 := Adjust(q, q1, ix0, ix1, mode, M);
    rhi, rlo := Pack(q, q1, m, hi, lo, mode, Q, X);
  }

  lemma Packed(hi: int, lo: int, mode: Rounding, Q: int, X: int, R: int, m: int, rhi: int, rlo: int)
    requires Ready(hi, lo, mode, Q, X, R)
    requires m == Exponent(hi) / 2 && Pair(rhi, rlo) == R / 2 + (m + 1022) * 0x10_0000_0000_0000
    ensures IsSquareRoot(hi, lo, mode, rhi, rlo)
  {
    hide Rounded, RoundUpBy, Root, Evened, Exponent;
    RootIsRight(mode, Evened(hi, lo), Q, X);
  }

  // The words of the result hold an exponent and a significand P between 2^52 and 2^53.
  ghost predicate IsSquareRoot(hi: int, lo: int, mode: Rounding, rhi: int, rlo: int) {
    var P := Pair(rhi, rlo) - (Exponent(hi) / 2 + 1022) * 0x10_0000_0000_0000;
    0x10_0000_0000_0000 <= P <= 0x20_0000_0000_0000 && Rounded(mode, Evened(hi, lo) * 0x40_0000_0000_0000, P)
  }

  lemma HighStart(N: int, ix0: int, ix1: int)
    requires 0x10_0000_0000_0000 <= N < 0x40_0000_0000_0000
    requires 0 <= ix1 < 0x1_0000_0000 && Pair(ix0, ix1) == 2 * N
    ensures HighState(N * 0x40_0000_0000_0000, ix0, ix1, 0, 0, 21)
  {
    RootStart(N);
    Pow2Add(16, 6); Pow2Values();
  }

  lemma RootIsRight(mode: Rounding, N: int, Q: int, X: int)
    requires 0x10_0000_0000_0000 <= N < 0x40_0000_0000_0000
    requires Root(N * 0x40_0000_0000_0000, Q, 1, X)
    ensures 0x20_0000_0000_0000 <= Q < 0x40_0000_0000_0000
    ensures var P := Adjusted(mode, Q, X) / 2;
            Rounded(mode, N * 0x40_0000_0000_0000, P) && 0x10_0000_0000_0000 <= P <= 0x20_0000_0000_0000
  {
    var M := N * 0x40_0000_0000_0000;
    assert Q * Q <= M < (Q + 1) * (Q + 1);
    SquareLess(Q, 0x40_0000_0000_0000);
    SquareLess(0x20_0000_0000_0000 - 1, Q);
    hide Rounded;
    RoundingIsRight(mode, M, Q, X);
  }

  lemma SquareLess(a: int, b: int)
    requires a >= 0 && b >= 0
    ensures a * a < b * b ==> a < b
    ensures a + 1 <= b || b * b < (a + 1) * (a + 1)
  {
    if a >= b {
      assert (a - b) * (a + b) >= 0;
      assert (a - b) * (a + b) == a * a - b * b;
      assert (a + 1) * (a + 1) > a * a;
    }
  }

  // ---- The same in real numbers: the result is within rounding of the square root ----

  ghost function Times(x: real, y: real): real { x * y }

  lemma TimesLaws(x: real, y: real, z: real)
    ensures Times(x, y) == Times(y, x)
    ensures Times(x, Times(y, z)) == Times(Times(x, y), z)
    ensures Times(x + y, z) == Times(x, z) + Times(y, z)
    ensures x > 0.0 && y > 0.0 ==> Times(x, y) > 0.0
  {
    assert x * (y * z) == (x * y) * z;
    assert (x + y) * z == x * z + y * z;
    if x > 0.0 && y > 0.0 {
      assert x * y > 0.0;
    }
  }

  lemma TimesInts(a: int, b: int)
    ensures Times(a as real, b as real) == (a * b) as real
  {
  }

  ghost function RealPow2(e: int): (r: real)
    ensures r > 0.0
    decreases if e < 0 then -e else e
  {
    if e == 0 then 1.0 else if e > 0 then 2.0 * RealPow2(e - 1) else RealPow2(e + 1) / 2.0
  }

  lemma RealPow2Step(e: int)
    ensures RealPow2(e + 1) == 2.0 * RealPow2(e)
  {
  }

  lemma Double(x: real, y: real)
    ensures Times(x, 2.0 * y) == 2.0 * Times(x, y) == Times(2.0 * x, y)
  {
  }

  lemma {:induction false} RealPow2Add(a: int, b: int)
    ensures RealPow2(a + b) == Times(RealPow2(a), RealPow2(b))
    decreases if b < 0 then -b else b
  {
    if b > 0 {
      RealPow2Add(a, b - 1);
      RealPow2Step(a + b - 1);
      RealPow2Step(b - 1);
      Double(RealPow2(a), RealPow2(b - 1));
    } else if b < 0 {
      RealPow2Add(a, b + 1);
      RealPow2Step(a + b);
      RealPow2Step(b);
      Double(RealPow2(a), RealPow2(b));
    } else {
      TimesLaws(RealPow2(a), 1.0, 1.0);
    }
  }

  lemma {:induction false} RealPow2OfNat(n: nat)
    ensures RealPow2(n) == Pow2(n) as real
  {
    if n > 0 {
      RealPow2OfNat(n - 1);
    }
  }

  ghost function Square(x: real): real { Times(x, x) }

  ghost function Value(hi: int, lo: int): real {
    Times(Significand(hi, lo) as real, RealPow2(Exponent(hi) - 52))
  }

  // Half a unit in the last place of the result.
  ghost function HalfUlp(hi: int): real { RealPow2(Exponent(hi) / 2 - 53) }

  lemma Pow54()
    ensures RealPow2(54) == 0x40_0000_0000_0000 as real
  {
    RealPow2OfNat(54);
    Pow2Add(16, 6); Pow2Add(32, 22); Pow2Values();
  }

  // (n * 2^54) * w as n * (w * 2^54)
  lemma Scale54(n: int, w: real)
    ensures Times(n as real, Times(w, RealPow2(54))) == Times((n * 0x40_0000_0000_0000) as real, w)
  {
    Pow54();
    hide Times;
    TimesLaws(w, RealPow2(54), 0.0);
    TimesLaws(n as real, RealPow2(54), w);
    TimesInts(n, 0x40_0000_0000_0000);
  }

  lemma ArgumentValue(hi: int, lo: int)
    ensures Value(hi, lo) == Times((Evened(hi, lo) * 0x40_0000_0000_0000) as real, Square(HalfUlp(hi)))
  {
    var h := Exponent(hi) / 2;
    RealPow2Add(h - 53, h - 53);
    RealPow2Add(2 * h - 106, 54);
    RealPow2Step(2 * h - 52);
    Double(Significand(hi, lo) as real, RealPow2(2 * h - 52));
    assert Exponent(hi) % 2 == 1 ==>
      Exponent(hi) - 52 == 2 * h - 52 + 1 && Evened(hi, lo) as real == 2.0 * Significand(hi, lo) as real;
    assert Exponent(hi) % 2 == 0 ==> Exponent(hi) - 52 == 2 * h - 52;
    hide Times, RealPow2;
    Scale54(Evened(hi, lo), Square(HalfUlp(hi)));
  }

  // The words of the result hold the significand P, or 2^52 with a larger exponent when P is 2^53.
  lemma ResultValue(hi: int, lo: int, mode: Rounding, rhi: int, rlo: int) returns (P: int)
    requires IsNormal(hi, lo) && IsSquareRoot(hi, lo, mode, rhi, rlo) && 0 <= rlo < 0x1_0000_0000
    ensures IsNormal(rhi, rlo) && Value(rhi, rlo) == Times((2 * P) as real, HalfUlp(hi))
    ensures P >= 1 && Rounded(mode, Evened(hi, lo) * 0x40_0000_0000_0000, P)
  {
    var h := Exponent(hi) / 2;
    P := Pair(rhi, rlo) - (h + 1022) * 0x10_0000_0000_0000;
    ResultWords(rhi, rlo, P, h);
    hide Rounded, Significand, Evened, Times;
    RealPow2Step(h - 53); RealPow2Step(h - 52);
    Double(P as real, HalfUlp(hi));
    Double(0x10_0000_0000_0000 as real, 2.0 * HalfUlp(hi));
    Double(0x20_0000_0000_0000 as real, HalfUlp(hi));
    assert (2 * P) as real == 2.0 * P as real;
  }

  lemma ResultWords(rhi: int, rlo: int, P: int, h: int)
    requires -511 <= h <= 511 && 0 <= rlo < 0x1_0000_0000
    requires Pair(rhi, rlo) == P + (h + 1022) * 0x10_0000_0000_0000
    requires 0x10_0000_0000_0000 <= P <= 0x20_0000_0000_0000
    ensures IsNormal(rhi, rlo)
    ensures Exponent(rhi) == if P < 0x20_0000_0000_0000 then h else h + 1
    ensures Significand(rhi, rlo) == if P < 0x20_0000_0000_0000 then P else 0x10_0000_0000_0000
  {
    var e := if P < 0x20_0000_0000_0000 then h else h + 1;
    var f := if P < 0x20_0000_0000_0000 then P - 0x10_0000_0000_0000 else 0;
    var rest := rhi - (e + 1023) * 0x10_0000;
    assert Pair(rest, rlo) == f;
    assert 0 <= rest < 0x10_0000;
    DivUnique(rhi, 0x10_0000, e + 1023, rest);
  }

  // Squares of multiples of u compare with M * u^2 as the squared factors compare with M.
  lemma SquareLaw(k: int, u: real, M: int)
    requires u > 0.0
    ensures k * k < M ==> Square(Times(k as real, u)) < Times(M as real, Square(u))
    ensures k * k == M ==> Square(Times(k as real, u)) == Times(M as real, Square(u))
    ensures k * k > M ==> Square(Times(k as real, u)) > Times(M as real, Square(u))
  {
    var k' := k as real;
    TimesInts(k, k);
    TimesLaws(k', u, 0.0); TimesLaws(k', u, Times(k', u)); TimesLaws(u, k', u); TimesLaws(k', k', Times(u, u));
    TimesLaws(u, u, 0.0); TimesLaws(k', u, u);
    TimesLaws((k * k - M) as real, Square(u), 0.0); TimesLaws((M - k * k) as real, Square(u), 0.0);
    TimesLaws((k * k - M) as real, M as real, Square(u)); TimesLaws((M - k * k) as real, (k * k) as real, Square(u));
    hide Times;
    assert Square(Times(k', u)) == Times((k * k) as real, Square(u));
  }

  lemma Shift(P: int, d: int, u: real)
    ensures Times((2 * P + d) as real, u) == Times((2 * P) as real, u) + Times(d as real, u)
  {
    TimesLaws((2 * P) as real, d as real, u);
    assert (2 * P + d) as real == (2 * P) as real + d as real;
    hide Times;
  }

  // To nearest: strictly within half a unit in the last place of the root. Downward and upward:
  // the root lies less than a unit above, or below, the result.
  lemma RootIsCorrectlyRounded(hi: int, lo: int, mode: Rounding, rhi: int, rlo: int)
    requires IsNormal(hi, lo) && IsSquareRoot(hi, lo, mode, rhi, rlo) && 0 <= rlo < 0x1_0000_0000
    ensures var x, r, u := Value(hi, lo), Value(rhi, rlo), HalfUlp(hi);
            match mode
            case ToNearest => Square(r - u) < x < Square(r + u)
            case Downward => Square(r) <= x < Square(r + 2.0 * u)
            case Upward => Square(r - 2.0 * u) < x <= Square(r)
  {
    var P := ResultValue(hi, lo, mode, rhi, rlo);
    ArgumentValue(hi, lo);
    RoundedInReals(mode, Evened(hi, lo) * 0x40_0000_0000_0000, P, HalfUlp(hi));
  }

  lemma RoundedInReals(mode: Rounding, M: int, P: int, u: real)
    requires u > 0.0 && Rounded(mode, M, P)
    ensures var x, r := Times(M as real, Square(u)), Times((2 * P) as real, u);
            match mode
            case ToNearest => Square(r - u) < x < Square(r + u)
            case Downward => Square(r) <= x < Square(r + 2.0 * u)
            case Upward => Square(r - 2.0 * u) < x <= Square(r)
  {
    Shift(P, -2, u); Shift(P, -1, u); Shift(P, 1, u); Shift(P, 2, u);
    assert Times(-2.0, u) == -2.0 * u && Times(-1.0, u) == -u && Times(1.0, u) == u && Times(2.0, u) == 2.0 * u;
    hide Times, Square;
    SquareLaw(2 * P - 2, u, M); SquareLaw(2 * P - 1, u, M); SquareLaw(2 * P, u, M);
    SquareLaw(2 * P + 1, u, M); SquareLaw(2 * P + 2, u, M);
  }
}
