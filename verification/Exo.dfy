/**
 The encrypted integer types inte_t<Bits, IsSigned> for every width from 1 to 64: operators on
 64-bit words followed by a normalization. Each operator keeps the canonical form (zero- or
 sign-extended) and computes the operation of a machine of that width.
 */
module Exo {
  import opened Bits
  import opened Intrinsics

  ghost predicate IsWidth(b: nat) { 1 <= b <= 64 }

  function Normalize(b: nat, s: bool, raw: Word): Word
    requires IsWidth(b)
  {
    if b == 64 then raw
    else if s then Sra(Sll(raw, 64 - b), 64 - b)
    else Mask(b, raw)
  }

  function Mask(b: nat, raw: Word): Word
    requires 1 <= b < 64
  {
    MaskFits(b);
    AndW(raw, Pow2(b) - 1)
  }

  lemma MaskFits(b: nat)
    requires b <= 64
    ensures Pow2(b) <= 0x1_0000_0000_0000_0000
  {
    Pow2Monotonic(b, 64);
    Pow2Values();
  }

  // The number a word stands for.
  function Value(s: bool, w: Word): int { if s then Signed(w) else w }

  // The range of the type, and the reduction of any number into it.
  ghost predicate InRange(b: nat, s: bool, x: int)
    requires IsWidth(b)
  {
    if s then 0 - Pow2(b - 1) <= x < Pow2(b - 1) else 0 <= x < Pow2(b)
  }

  ghost function Wrap(b: nat, s: bool, x: int): int
    requires IsWidth(b)
  {
    var r := x % Pow2(b);
    if s && r >= Pow2(b - 1) then r - Pow2(b) else r
  }

  ghost predicate Canonical(b: nat, s: bool, w: Word)
    requires IsWidth(b)
  {
    InRange(b, s, Value(s, w))
  }

  // w is the canonical word for x reduced to the width.
  ghost predicate Stands(b: nat, s: bool, w: Word, x: int)
    requires IsWidth(b)
  {
    Canonical(b, s, w) && Value(s, w) == Wrap(b, s, x)
  }

  // ---- Reduction ----

  lemma WrapInRange(b: nat, s: bool, x: int)
    requires IsWidth(b)
    ensures InRange(b, s, Wrap(b, s, x)) && Congruent(Wrap(b, s, x), x, Pow2(b))
    ensures InRange(b, s, x) ==> Wrap(b, s, x) == x
  {
    assert Pow2(b) == 2 * Pow2(b - 1);
    var r, p := x % Pow2(b), Pow2(b);
    DivUnique(r, p, 0, r);
    ModShift(r, p, -1);
    if InRange(b, s, x) {
      if x >= 0 { DivUnique(x, p, 0, x); } else { DivUnique(x, p, -1, x + p); }
    }
  }

  lemma WrapCongruent(b: nat, s: bool, x: int, y: int)
    requires IsWidth(b) && Congruent(x, y, Pow2(b))
    ensures Wrap(b, s, x) == Wrap(b, s, y)
  {
  }

  // Truncation to 64 bits, and either reading of a word, change nothing modulo 2^b.
  lemma TruncateCongruent(b: nat, x: int)
    requires IsWidth(b)
    ensures Congruent(Truncate(x), x, Pow2(b))
  {
    Pow2Add(b, 64 - b);
    Pow2Values();
    ModOfMod(x, Pow2(b), Pow2(64 - b));
  }

  lemma ValueCongruent(b: nat, s: bool, w: Word)
    requires IsWidth(b)
    ensures Congruent(Value(s, w), w, Pow2(b))
  {
    TruncateCongruent(b, Signed(w));
  }

  // ---- Normalization ----

  lemma UnsignedNormalize(b: nat, raw: Word)
    requires 1 <= b < 64
    ensures Normalize(b, false, raw) == raw % Pow2(b)
  {
    MaskFits(b);
    BitwiseFit(raw, Pow2(b) - 1);
    AndMask(raw, b);
    LowIsMod(raw, b);
  }

  lemma SignedNormalize(b: nat, raw: Word)
    requires 1 <= b < 64
    ensures Signed(Normalize(b, true, raw)) == Wrap(b, true, raw)
  {
    hide Wrap, Sll, Pow2, Signed, Truncate, Congruent;
    var w := Wrap(b, true, raw);
    ShiftedLeft(b, raw);
    WrapInRange(b, true, raw);
    HalfRange(b);
    SignedOfTruncate(w);
    ShiftedBack(w, Pow2(64 - b));
  }

  lemma HalfRange(b: nat)
    requires IsWidth(b)
    ensures Pow2(b - 1) <= 0x8000_0000_0000_0000 && Pow2(63) == 0x8000_0000_0000_0000 && Pow2(b) == 2 * Pow2(b - 1)
  {
    Pow2Monotonic(b - 1, 63);
    Pow2Values();
    assert Pow2(64) == 2 * Pow2(63);
  }

  lemma SignedOfTruncate(x: int)
    requires -0x8000_0000_0000_0000 <= x < 0x8000_0000_0000_0000
    ensures Signed(Truncate(x)) == x
  {
  }

  lemma ShiftedBack(w: int, q: nat)
    requires q > 0
    ensures (w * q) / q == w
  {
    DivUnique(w * q, q, w, 0);
  }

  // The left shift moves the residue to the top of the word, where its sign bit is the word's.
  lemma ShiftedLeft(b: nat, raw: Word)
    requires 1 <= b < 64
    ensures Signed(Sll(raw, 64 - b)) == Wrap(b, true, raw) * Pow2(64 - b)
  {
    hide Pow2, Sll, Signed, Truncate;
    Pow2Add(b, 64 - b); Pow2Add(b - 1, 64 - b); Pow2Values();
    HalfRange(b);
    SllIsTruncate(raw, 64 - b);
    TopResidue(raw, Pow2(b - 1), Pow2(64 - b));
  }

  lemma SllIsTruncate(raw: Word, n: nat)
    requires n < 64
    ensures Sll(raw, n) == Truncate(raw * Pow2(n))
  {
    hide Truncate, Pow2;
    assert n % 64 == n;
  }

  lemma TopResidue(raw: Word, h: nat, q: nat)
    requires h > 0 && q > 0 && h * q == 0x8000_0000_0000_0000 && (2 * h) * q == 0x1_0000_0000_0000_0000
    ensures var r := raw % (2 * h);
            Signed(Truncate(raw * q)) == (if r >= h then r - 2 * h else r) * q
  {
    var r := raw % (2 * h);
    ScaleMod(raw, 2 * h, q);
    MulLess(r, h, q);
    assert (r - 2 * h) * q == r * q - (2 * h) * q;
  }

  // Normalizing any word yields the canonical word for its value reduced to the width.
  lemma NormalizeReduces(b: nat, s: bool, raw: Word, x: int)
    requires IsWidth(b) && Congruent(raw, x, Pow2(b))
    ensures Stands(b, s, Normalize(b, s, raw), x)
  {
    WrapCongruent(b, s, raw, x);
    WrapInRange(b, s, raw);
    if b == 64 {
      FullWidth(s, raw);
    } else if s {
      SignedNormalize(b, raw);
    } else {
      UnsignedNormalize(b, raw);
    }
  }

  lemma FullWidth(s: bool, raw: Word)
    ensures Wrap(64, s, raw) == Value(s, raw)
  {
    Pow2Values();
    assert Pow2(64) == 2 * Pow2(63);
  }

  // ---- Addition, subtraction, multiplication and negation, on any two words ----

  lemma RingOperators(b: nat, s: bool, l: Word, r: Word, x: int, y: int)
    requires IsWidth(b) && Congruent(l, x, Pow2(b)) && Congruent(r, y, Pow2(b))
    ensures Stands(b, s, Normalize(b, s, Add(l, r)), x + y)
    ensures Stands(b, s, Normalize(b, s, Sub(l, r)), x - y)
    ensures Stands(b, s, Normalize(b, s, Mul(l, r)), x * y)
  {
    hide Pow2, Normalize, Stands;
    CongruentSum(l, x, r, y, Pow2(b));
    CongruentProduct(l, x, r, y, Pow2(b));
    TruncateCongruent(b, l + r);
    TruncateCongruent(b, l - r);
    TruncateCongruent(b, l * r);
    NormalizeReduces(b, s, Add(l, r), x + y);
    NormalizeReduces(b, s, Sub(l, r), x - y);
    NormalizeReduces(b, s, Mul(l, r), x * y);
  }

  lemma UnaryOperators(b: nat, s: bool, w: Word, x: int)
    requires IsWidth(b) && Congruent(w, x, Pow2(b))
    ensures Stands(b, s, Normalize(b, s, Neg(w)), -x)
    ensures Stands(b, s, Normalize(b, s, Comp(w)), -x - 1)
  {
    hide Pow2, Normalize, Stands, Neg, Comp;
    ComplementAndNegate(w);
    CongruentSum(0, 0, w, x, Pow2(b));
    CongruentSum(0 - w, 0 - x, 1, 1, Pow2(b));
    TruncateCongruent(b, 0 - w);
    TruncateCongruent(b, 0 - w - 1);
    assert Truncate(0 - w - 1) == 0xffff_ffff_ffff_ffff - w;
    NormalizeReduces(b, s, Neg(w), -x);
    NormalizeReduces(b, s, Comp(w), -x - 1);
  }

  // ---- Bitwise operators, on any two words: the low b bits are combined ----

  lemma BitwiseOperators(b: nat, s: bool, l: Word, r: Word)
    requires IsWidth(b)
    ensures Stands(b, s, Normalize(b, s, AndW(l, r)), And(l % Pow2(b), r % Pow2(b)))
    ensures Stands(b, s, Normalize(b, s, OrW(l, r)), Or(l % Pow2(b), r % Pow2(b)))
    ensures Stands(b, s, Normalize(b, s, XorW(l, r)), Xor(l % Pow2(b), r % Pow2(b)))
  {
    hide Pow2, Normalize, Stands, And, Or, Xor, AndW, OrW, XorW;
    BitwiseFit(l, r);
    LowBitwise(l, r, b);
    LowIsMod(l, b); LowIsMod(r, b);
    LowIsMod(And(l, r), b); LowIsMod(Or(l, r), b); LowIsMod(Xor(l, r), b);
    ModOnce(And(l, r), b); ModOnce(Or(l, r), b); ModOnce(Xor(l, r), b);
    NormalizeReduces(b, s, AndW(l, r), And(l % Pow2(b), r % Pow2(b)));
    NormalizeReduces(b, s, OrW(l, r), Or(l % Pow2(b), r % Pow2(b)));
    NormalizeReduces(b, s, XorW(l, r), Xor(l % Pow2(b), r % Pow2(b)));
  }

  lemma ModOnce(x: nat, b: nat)
    ensures Congruent(x, x % Pow2(b), Pow2(b))
  {
    DivUnique(x % Pow2(b), Pow2(b), 0, x % Pow2(b));
  }

  // ---- Division and remainder, on canonical words ----

  // Division at width b: -1 (all ones) by zero, the dividend on overflow, else the quotient.
  ghost function QuotientAt(b: nat, s: bool, x: int, y: int): int
    requires IsWidth(b)
  {
    if y == 0 then (if s then -1 else Pow2(b) - 1)
    else if s && x == 0 - Pow2(b - 1) && y == -1 then x
    else Quotient(x, y)
  }

  ghost function RemainderAt(b: nat, s: bool, x: int, y: int): int
    requires IsWidth(b)
  {
    if y == 0 then x
    else if s && x == 0 - Pow2(b - 1) && y == -1 then 0
    else Remainder(x, y)
  }

  // The quotient truncates: the remainder is smaller than the divisor and has the dividend's sign.
  lemma QuotientTruncates(x: int, y: int)
    requires y != 0
    ensures var r := Remainder(x, y);
            && x == y * Quotient(x, y) + r
            && (if y > 0 then -y < r < y else y < r < -y)
            && (x >= 0 ==> 0 <= r <= x) && (x <= 0 ==> x <= r <= 0)
  {
    var d, m := if y > 0 then y else -y, if x >= 0 then x else -x;
    Division(m, d);
    SignRules(d, m / d);
  }

  lemma Division(m: nat, d: nat)
    requires d > 0
    ensures 0 <= m - d * (m / d) < d && d * (m / d) >= 0
  {
    assert m == d * (m / d) + m % d;
    NonNegativeProduct(d, m / d);
  }

  lemma NonNegativeProduct(a: nat, b: nat)
    ensures a * b >= 0
  {
  }

  lemma SignRules(d: int, q: int)
    ensures (0 - d) * q == 0 - d * q && d * (0 - q) == 0 - d * q && (0 - d) * (0 - q) == d * q
  {
  }

  lemma QuotientSmall(m: nat, d: nat)
    requires d > 0
    ensures 0 <= m / d <= m && (d > 1 && m > 0 ==> m / d < m)
  {
    var q := m / d;
    Division(m, d);
    TimesAtLeast(d, q);
  }

  lemma TimesAtLeast(d: nat, q: nat)
    requires d > 0
    ensures d * q >= q && (d > 1 ==> d * q >= 2 * q)
  {
    NonNegativeProduct(d - 1, q);
    assert (d - 1) * q == d * q - q;
    if d > 1 {
      NonNegativeProduct(d - 2, q);
      assert (d - 2) * q == d * q - 2 * q;
    }
  }

  // Quotient and remainder at width b are numbers of that width, so nothing is lost by wrapping.
  lemma DivisionInRange(b: nat, s: bool, x: int, y: int)
    requires IsWidth(b) && InRange(b, s, x) && InRange(b, s, y)
    ensures InRange(b, s, QuotientAt(b, s, x, y)) && InRange(b, s, RemainderAt(b, s, x, y))
  {
    assert Pow2(b) == 2 * Pow2(b - 1);
    if y != 0 {
      var d, m := if y > 0 then y else -y, if x >= 0 then x else -x;
      QuotientSmall(m, d);
      QuotientTruncates(x, y);
      hide Remainder;
    }
  }

  lemma Exactly(b: nat, s: bool, w: Word, x: int)
    requires IsWidth(b) && Stands(b, s, w, x) && InRange(b, s, x)
    ensures Canonical(b, s, w) && Value(s, w) == x
  {
    WrapInRange(b, s, x);
  }

  lemma UnsignedDivision(b: nat, l: Word, r: Word)
    requires IsWidth(b)
    ensures Stands(b, false, Normalize(b, false, Divu(l, r)), QuotientAt(b, false, l, r))
    ensures Stands(b, false, Normalize(b, false, Remu(l, r)), RemainderAt(b, false, l, r))
  {
    hide *;
    UnsignedDivisionCongruent(b, l, r);
    NormalizeReduces(b, false, Divu(l, r), QuotientAt(b, false, l, r));
    NormalizeReduces(b, false, Remu(l, r), RemainderAt(b, false, l, r));
  }

  lemma UnsignedDivisionCongruent(b: nat, l: Word, r: Word)
    requires IsWidth(b)
    ensures Congruent(Divu(l, r), QuotientAt(b, false, l, r), Pow2(b))
    ensures Congruent(Remu(l, r), RemainderAt(b, false, l, r), Pow2(b))
  {
    if r == 0 {
      UnsignedByZero(b);
    } else {
      UnsignedExact(l, r);
    }
  }

  lemma UnsignedExact(l: Word, r: Word)
    requires r != 0
    ensures Divu(l, r) == Quotient(l, r) && Remu(l, r) == Remainder(l, r)
  {
    QuotientSmall(l, r);
    Division(l, r);
    assert l % r == l - r * (l / r);
  }

  lemma UnsignedByZero(b: nat)
    requires IsWidth(b)
    ensures Congruent(0xffff_ffff_ffff_ffff, Pow2(b) - 1, Pow2(b))
  {
    Pow2Add(b, 64 - b); Pow2Values();
    AllOnes(Pow2(b), Pow2(64 - b));
  }

  lemma AllOnes(p: nat, q: nat)
    requires p > 0
    ensures Congruent(p * q - 1, p - 1, p)
  {
    ModShift(p - 1, p, q - 1);
    assert p * (q - 1) == p * q - p;
  }

  lemma SignedDivision(b: nat, l: Word, r: Word)
    requires IsWidth(b) && Canonical(b, true, l) && Canonical(b, true, r)
    ensures Stands(b, true, Normalize(b, true, Div(l, r)), QuotientAt(b, true, Signed(l), Signed(r)))
    ensures Stands(b, true, Normalize(b, true, Rem(l, r)), RemainderAt(b, true, Signed(l), Signed(r)))
  {
    var x, y := Signed(l), Signed(r);
    HalfRange(b);
    ValueCongruent(b, true, l);
    if y == 0 {
      TruncateCongruent(b, -1);
      NormalizeReduces(b, true, Div(l, r), -1);
      NormalizeReduces(b, true, Rem(l, r), x);
    } else if x == -0x8000_0000_0000_0000 && y == -1 {
      NormalizeReduces(b, true, Div(l, r), x);
      NormalizeReduces(b, true, Rem(l, r), 0);
    } else {
      TruncateCongruent(b, Quotient(x, y));
      TruncateCongruent(b, Remainder(x, y));
      SignedOverflow(b, x, y);
      NormalizeReduces(b, true, Div(l, r), QuotientAt(b, true, x, y));
      NormalizeReduces(b, true, Rem(l, r), RemainderAt(b, true, x, y));
    }
  }

  // MIN / -1 at width b comes out as 2^(b-1), which wraps to MIN.
  lemma SignedOverflow(b: nat, x: int, y: int)
    requires IsWidth(b) && y != 0
    ensures Congruent(Quotient(x, y), QuotientAt(b, true, x, y), Pow2(b))
    ensures Remainder(x, y) == RemainderAt(b, true, x, y)
  {
    if x == 0 - Pow2(b - 1) && y == -1 {
      assert Quotient(x, y) == Pow2(b - 1) && Pow2(b) == 2 * Pow2(b - 1);
      FromOffset(Pow2(b - 1), x, Pow2(b), 1);
    }
  }

  function DivOf(s: bool, l: Word, r: Word): Word { if s then Div(l, r) else Divu(l, r) }
  function RemOf(s: bool, l: Word, r: Word): Word { if s then Rem(l, r) else Remu(l, r) }

  lemma DivisionStands(b: nat, s: bool, l: Word, r: Word)
    requires IsWidth(b) && Canonical(b, s, l) && Canonical(b, s, r)
    ensures Stands(b, s, Normalize(b, s, DivOf(s, l, r)), QuotientAt(b, s, Value(s, l), Value(s, r)))
    ensures Stands(b, s, Normalize(b, s, RemOf(s, l, r)), RemainderAt(b, s, Value(s, l), Value(s, r)))
  {
    if s { SignedDivision(b, l, r); } else { UnsignedDivision(b, l, r); }
  }

  // The operators / and % on canonical words give exactly the quotient and remainder of width b.
  lemma DivisionExact(b: nat, s: bool, l: Word, r: Word)
    requires IsWidth(b) && Canonical(b, s, l) && Canonical(b, s, r)
    ensures var q, m := Normalize(b, s, DivOf(s, l, r)), Normalize(b, s, RemOf(s, l, r));
            && Canonical(b, s, q) && Value(s, q) == QuotientAt(b, s, Value(s, l), Value(s, r))
            && Canonical(b, s, m) && Value(s, m) == RemainderAt(b, s, Value(s, l), Value(s, r))
  {
    DivisionStands(b, s, l, r);
    DivisionInRange(b, s, Value(s, l), Value(s, r));
    hide Pow2, Normalize, Stands, Canonical, InRange, QuotientAt, RemainderAt, DivOf, RemOf, Value;
    Exactly(b, s, Normalize(b, s, DivOf(s, l, r)), QuotientAt(b, s, Value(s, l), Value(s, r)));
    Exactly(b, s, Normalize(b, s, RemOf(s, l, r)), RemainderAt(b, s, Value(s, l), Value(s, r)));
  }

  // ---- Shifts, by the low six bits of the right operand ----

  lemma ShiftCount(s: bool, r: Word)
    ensures Value(s, r) % 64 == r % 64
  {
  }

  lemma LeftShift(b: nat, s: bool, l: Word, r: Word, x: int)
    requires IsWidth(b) && Congruent(l, x, Pow2(b))
    ensures Stands(b, s, Normalize(b, s, Sll(l, r)), x * Pow2(Value(s, r) % 64))
  {
    ShiftCount(s, r);
    var q := Pow2(r % 64);
    hide Pow2, Normalize, Stands;
    CongruentProduct(l, x, q, q, Pow2(b));
    TruncateCongruent(b, l * q);
    NormalizeReduces(b, s, Sll(l, r), x * q);
  }

  // The right shift is logical on unsigned and arithmetic on signed types: a floor either way.
  lemma RightShift(b: nat, s: bool, l: Word, r: Word)
    requires IsWidth(b)
    ensures Stands(b, s, Normalize(b, s, if s then Sra(l, r) else Srl(l, r)), Value(s, l) / Pow2(Value(s, r) % 64))
  {
    ShiftCount(s, r);
    var q := Pow2(r % 64);
    hide Pow2, Normalize, Stands;
    TruncateCongruent(b, Signed(l) / q);
    TruncateCongruent(b, l / q);
    NormalizeReduces(b, s, if s then Sra(l, r) else Srl(l, r), Value(s, l) / q);
  }

  // ---- Relations and logic: 1 or 0, reduced to the width like every other result ----

  lemma RelationalOperators(b: nat, s: bool, l: Word, r: Word)
    requires IsWidth(b)
    ensures var x, y := Value(s, l), Value(s, r);
            && Stands(b, s, Normalize(b, s, Seq(l, r)), if x == y then 1 else 0)
            && Stands(b, s, Normalize(b, s, Sne(l, r)), if x != y then 1 else 0)
            && Stands(b, s, Normalize(b, s, if s then Slt(l, r) else Sltu(l, r)), if x < y then 1 else 0)
            && Stands(b, s, Normalize(b, s, if s then Sle(l, r) else Sleu(l, r)), if x <= y then 1 else 0)
            && Stands(b, s, Normalize(b, s, if s then Slt(r, l) else Sltu(r, l)), if x > y then 1 else 0)
            && Stands(b, s, Normalize(b, s, if s then Sge(l, r) else Sgeu(l, r)), if x >= y then 1 else 0)
  {
    EqualityValues(l, r);
    hide Normalize, Stands, Seq, Sne, Pow2;
    NormalizeReduces(b, s, 0, 0);
    NormalizeReduces(b, s, 1, 1);
  }

  lemma LogicalOperators(b: nat, s: bool, l: Word, r: Word)
    requires IsWidth(b)
    ensures var x, y := Value(s, l), Value(s, r);
            && Stands(b, s, Normalize(b, s, LAnd(l, r)), if x != 0 && y != 0 then 1 else 0)
            && Stands(b, s, Normalize(b, s, LOr(l, r)), if x != 0 || y != 0 then 1 else 0)
            && Stands(b, s, Normalize(b, s, LNot(l)), if x == 0 then 1 else 0)
  {
    LogicalValues(l, r);
    hide Normalize, Stands, LAnd, LOr, LNot, Pow2;
    NormalizeReduces(b, s, 0, 0);
    NormalizeReduces(b, s, 1, 1);
  }

  // A true relation is nonzero at every width, so it can drive a conditional move.
  lemma TruthIsNonzero(b: nat, s: bool)
    requires IsWidth(b)
    ensures Wrap(b, s, 0) == 0
    ensures Wrap(b, s, 1) == if b == 1 && s then -1 else 1
  {
    Pow2Monotonic(1, b);
    if b > 1 { Pow2Monotonic(1, b - 1); }
    DivUnique(1, Pow2(b), 0, 1);
    DivUnique(0, Pow2(b), 0, 0);
  }

  // A right shift stays inside the range of its type.
  lemma RightShiftInRange(b: nat, s: bool, x: int, n: nat)
    requires IsWidth(b) && InRange(b, s, x)
    ensures InRange(b, s, x / Pow2(n))
  {
    FloorBounds(x, Pow2(n));
    hide Pow2;
  }

  lemma FloorBounds(x: int, q: nat)
    requires q > 0
    ensures if x >= 0 then 0 <= x / q <= x else x <= x / q <= -1
  {
    if x >= 0 {
      QuotientSmall(x, q);
    } else {
      // x / q == -((-x - 1) / q) - 1
      var m := -x - 1;
      QuotientSmall(m, q);
      Division(m, q);
      SignRules(q, m / q + 1);
      assert q * (m / q + 1) == q * (m / q) + q;
      DivUnique(x, q, 0 - (m / q + 1), q - 1 - (m - q * (m / q)));
    }
  }

  // ---- Conversions and the conditional move ----

  // Converting between any two types reduces the value to the new width.
  lemma Conversion(b: nat, s: bool, fromSigned: bool, w: Word)
    requires IsWidth(b)
    ensures Stands(b, s, Normalize(b, s, w), Value(fromSigned, w))
  {
    ValueCongruent(b, fromSigned, w);
    NormalizeReduces(b, s, w, Value(fromSigned, w));
  }

  // cmov keeps the chosen operand unchanged, on any nonzero predicate.
  lemma ConditionalMove(b: nat, s: bool, cond: Word, ifTrue: Word, ifFalse: Word)
    requires IsWidth(b) && Canonical(b, s, ifTrue) && Canonical(b, s, ifFalse)
    ensures Normalize(b, s, Cmov(cond, ifTrue, ifFalse)) == if cond != 0 then ifTrue else ifFalse
  {
    CmovSelects(cond, ifTrue, ifFalse);
    NormalizeKeeps(b, s, if cond != 0 then ifTrue else ifFalse);
  }

  lemma NormalizeKeeps(b: nat, s: bool, w: Word)
    requires IsWidth(b) && Canonical(b, s, w)
    ensures Normalize(b, s, w) == w
  {
    Conversion(b, s, s, w);
    WrapInRange(b, s, Value(s, w));
    hide Normalize, Wrap, Pow2, InRange;
  }

  lemma IncrementStands(b: nat, s: bool, w: Word, one: Word)
    requires IsWidth(b) && Value(s, one) == Wrap(b, s, 1)
    ensures Stands(b, s, Normalize(b, s, Add(w, one)), Value(s, w) + 1)
  {
    hide Pow2, Normalize, Wrap, Value, Stands, Add;
    ValueCongruent(b, s, w);
    ValueCongruent(b, s, one);
    WrapInRange(b, s, 1);
    RingOperators(b, s, w, one, Value(s, w), 1);
  }

  // An encrypted integer variable; the compound operators update its word in place. Binary
  // operators copy their left operand and apply the compound one.
  class Inte {
    const bits: nat
    const signed: bool
    var value: Word

    ghost predicate Valid() reads this {
      IsWidth(bits) && Canonical(bits, signed, value)
    }

    ghost function Val(): int reads this { Value(signed, value) }

    ghost predicate SameType(rhs: Inte) { rhs.bits == bits && rhs.signed == signed }

    // From a plain word, or from the word of a value of any other type.
    constructor FromWord(bits: nat, signed: bool, plain: Word)
      requires IsWidth(bits)
      ensures Valid() && this.bits == bits && this.signed == signed && Val() == Wrap(bits, signed, plain)
      ensures value == Normalize(bits, signed, plain)
    {
      NormalizeReduces(bits, signed, plain, plain);
      this.bits, this.signed := bits, signed;
      value := Normalize(bits, signed, plain);
    }

    lemma Readings(rhs: Inte)
      requires Valid() && rhs.Valid() && SameType(rhs)
      ensures Congruent(value, Val(), Pow2(bits)) && Congruent(rhs.value, rhs.Val(), Pow2(bits))
    {
      ValueCongruent(bits, signed, value);
      ValueCongruent(bits, signed, rhs.value);
    }

    lemma RightShiftIs(rhs: Inte)
      requires Valid() && rhs.Valid() && SameType(rhs)
      ensures var w := Normalize(bits, signed, if signed then Sra(value, rhs.value) else Srl(value, rhs.value));
              Canonical(bits, signed, w) && Value(signed, w) == Val() / Pow2(rhs.Val() % 64)
    {
      RightShift(bits, signed, value, rhs.value);
      RightShiftInRange(bits, signed, Val(), rhs.Val() % 64);
      hide Pow2, Normalize, Stands, InRange, Sra, Srl;
      Exactly(bits, signed, Normalize(bits, signed, if signed then Sra(value, rhs.value) else Srl(value, rhs.value)),
        Val() / Pow2(rhs.Val() % 64));
    }

    // +=
    method AddAssign(rhs: Inte)
      requires Valid() && rhs.Valid() && SameType(rhs)
      modifies this`value
      ensures Valid() && Val() == Wrap(bits, signed, old(Val()) + old(rhs.Val()))
    {
      hide Pow2, Normalize, Canonical, Wrap, Value, Congruent, Add;
      Readings(rhs);
      RingOperators(bits, signed, value, rhs.value, Val(), rhs.Val());
      value := Normalize(bits, signed, Add(value, rhs.value));
    }

    // -=
    method SubAssign(rhs: Inte)
      requires Valid() && rhs.Valid() && SameType(rhs)
      modifies this`value
      ensures Valid() && Val() == Wrap(bits, signed, old(Val()) - old(rhs.Val()))
    {
      hide Pow2, Normalize, Canonical, Wrap, Value, Congruent, Sub;
      Readings(rhs);
      RingOperators(bits, signed, value, rhs.value, Val(), rhs.Val());
      value := Normalize(bits, signed, Sub(value, rhs.value));
    }

    // *=
    method MulAssign(rhs: Inte)
      requires Valid() && rhs.Valid() && SameType(rhs)
      modifies this`value
      ensures Valid() && Val() == Wrap(bits, signed, old(Val()) * old(rhs.Val()))
    {
      hide Pow2, Normalize, Canonical, Wrap, Value, Congruent, Mul;
      Readings(rhs);
      RingOperators(bits, signed, value, rhs.value, Val(), rhs.Val());
      value := Normalize(bits, signed, Mul(value, rhs.value));
    }

    // /=
    method DivAssign(rhs: Inte)
      requires Valid() && rhs.Valid() && SameType(rhs)
      modifies this`value
      ensures Valid() && Val() == QuotientAt(bits, signed, old(Val()), old(rhs.Val()))
    {
      hide Pow2, Normalize, Canonical, Wrap, Value, Congruent, DivOf, QuotientAt;
      DivisionExact(bits, signed, value, rhs.value);
      value := Normalize(bits, signed, DivOf(signed, value, rhs.value));
    }

    // %=
    method ModAssign(rhs: Inte)
      requires Valid() && rhs.Valid() && SameType(rhs)
      modifies this`value
      ensures Valid() && Val() == RemainderAt(bits, signed, old(Val()), old(rhs.Val()))
    {
      hide Pow2, Normalize, Canonical, Wrap, Value, Congruent, RemOf, RemainderAt;
      DivisionExact(bits, signed, value, rhs.value);
      value := Normalize(bits, signed, RemOf(signed, value, rhs.value));
    }

    // &=, on the low bits
    method AndAssign(rhs: Inte)
      requires Valid() && rhs.Valid() && SameType(rhs)
      modifies this`value
      ensures Valid() && Val() == Wrap(bits, signed, And(old(value) % Pow2(bits), old(rhs.value) % Pow2(bits)))
    {
      hide Pow2, Normalize, Canonical, Value, And, Or, Xor, AndW, OrW, XorW, Wrap;
      BitwiseOperators(bits, signed, value, rhs.value);
      value := Normalize(bits, signed, AndW(value, rhs.value));
    }

    // |=, on the low bits
    method OrAssign(rhs: Inte)
      requires Valid() && rhs.Valid() && SameType(rhs)
      modifies this`value
      ensures Valid() && Val() == Wrap(bits, signed, Or(old(value) % Pow2(bits), old(rhs.value) % Pow2(bits)))
    {
      hide Pow2, Normalize, Canonical, Value, And, Or, Xor, AndW, OrW, XorW, Wrap;
      BitwiseOperators(bits, signed, value, rhs.value);
      value := Normalize(bits, signed, OrW(value, rhs.value));
    }

    // ^=, on the low bits
    method XorAssign(rhs: Inte)
      requires Valid() && rhs.Valid() && SameType(rhs)
      modifies this`value
      ensures Valid() && Val() == Wrap(bits, signed, Xor(old(value) % Pow2(bits), old(rhs.value) % Pow2(bits)))
    {
      hide Pow2, Normalize, Canonical, Value, And, Or, Xor, AndW, OrW, XorW, Wrap;
      BitwiseOperators(bits, signed, value, rhs.value);
      value := Normalize(bits, signed, XorW(value, rhs.value));
    }

    // <<=
    method ShlAssign(rhs: Inte)
      requires Valid() && rhs.Valid() && SameType(rhs)
      modifies this`value
      ensures Valid() && Val() == Wrap(bits, signed, old(Val()) * Pow2(old(rhs.Val()) % 64))
    {
      hide Pow2, Normalize, Canonical, Wrap, Value, Congruent, Sll;
      Readings(rhs);
      LeftShift(bits, signed, value, rhs.value, Val());
      value := Normalize(bits, signed, Sll(value, rhs.value));
    }

    // >>=
    method ShrAssign(rhs: Inte)
      requires Valid() && rhs.Valid() && SameType(rhs)
      modifies this`value
      ensures Valid() && Val() == old(Val()) / Pow2(old(rhs.Val()) % 64)
    {
      hide Pow2, Normalize, Canonical, Wrap, Value, Congruent, Sra, Srl;
      RightShiftIs(rhs);
      value := Normalize(bits, signed, if signed then Sra(value, rhs.value) else Srl(value, rhs.value));
    }

    // ++ before and after: the latter returns a copy of the old value.
    method PreIncrement()
      requires Valid()
      modifies this`value
      ensures Valid() && Val() == Wrap(bits, signed, old(Val()) + 1)
    {
      hide Pow2, Normalize, Canonical, Wrap, Value, Add;
      var one := new Inte.FromWord(bits, signed, 1);
      IncrementStands(bits, signed, value, one.value);
      value := Normalize(bits, signed, Add(value, one.value));
    }

    method PostIncrement() returns (before: Inte)
      requires Valid()
      modifies this`value
      ensures Valid() && Val() == Wrap(bits, signed, old(Val()) + 1)
      ensures fresh(before) && before.Valid() && SameType(before) && before.value == old(value)
    {
      NormalizeKeeps(bits, signed, value);
      hide Pow2, Normalize, Canonical, Wrap, Signed;
      before := new Inte.FromWord(bits, signed, value);
      PreIncrement();
    }
  }
}
