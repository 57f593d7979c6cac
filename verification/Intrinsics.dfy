/**
 The 64-bit RISC-V instruction sequences the encrypted integer operators compile to. A register
 holds the word an encrypted value decrypts to; every intrinsic is a straight line of
 instructions.
 */
module Intrinsics {
  import opened Bits

  type Word = w: int | 0 <= w < 0x1_0000_0000_0000_0000

  // The two's complement reading of a word.
  function Signed(w: Word): int {
    if w < 0x8000_0000_0000_0000 then w else w - 0x1_0000_0000_0000_0000
  }

  function Truncate(x: int): Word { x % 0x1_0000_0000_0000_0000 }

  // ---- Instructions ----

  function Add(a: Word, b: Word): Word { Truncate(a + b) }
  function Sub(a: Word, b: Word): Word { Truncate(a - b) }
  function Mul(a: Word, b: Word): Word { Truncate(a * b) }

  // Division truncating toward zero, as the M extension defines it.
  function Quotient(x: int, y: int): int
    requires y != 0
  {
    if x >= 0 then (if y > 0 then x / y else -(x / -y))
    else (if y > 0 then -(-x / y) else -x / -y)
  }

  function Remainder(x: int, y: int): int
    requires y != 0
  {
    x - y * Quotient(x, y)
  }

  function Divu(a: Word, b: Word): Word {
    if b == 0 then 0xffff_ffff_ffff_ffff else Truncate(a / b)
  }

  function Remu(a: Word, b: Word): Word {
    if b == 0 then a else Truncate(a % b)
  }

  function Div(a: Word, b: Word): Word {
    if b == 0 then 0xffff_ffff_ffff_ffff
    else if Signed(a) == -0x8000_0000_0000_0000 && Signed(b) == -1 then a
    else Truncate(Quotient(Signed(a), Signed(b)))
  }

  function Rem(a: Word, b: Word): Word {
    if b == 0 then a
    else if Signed(a) == -0x8000_0000_0000_0000 && Signed(b) == -1 then 0
    else Truncate(Remainder(Signed(a), Signed(b)))
  }

  function AndW(a: Word, b: Word): Word { Truncate(And(a, b)) }
  function OrW(a: Word, b: Word): Word { Truncate(Or(a, b)) }
  function XorW(a: Word, b: Word): Word { Truncate(Xor(a, b)) }

  // Shifts use the low six bits of the second operand.
  function Sll(a: Word, b: Word): Word { Truncate(a * Pow2(b % 64)) }
  function Srl(a: Word, b: Word): Word { Truncate(a / Pow2(b % 64)) }
  function Sra(a: Word, b: Word): Word { Truncate(Signed(a) / Pow2(b % 64)) }

  function Slt(a: Word, b: Word): Word { if Signed(a) < Signed(b) then 1 else 0 }
  function Sltu(a: Word, b: Word): Word { if a < b then 1 else 0 }
  function Seqz(a: Word): Word { if a == 0 then 1 else 0 }
  function Snez(a: Word): Word { if a != 0 then 1 else 0 }
  function CzeroEqz(a: Word, cond: Word): Word { if cond == 0 then 0 else a }
  function CzeroNez(a: Word, cond: Word): Word { if cond != 0 then 0 else a }

  // ---- Intrinsics of more than one instruction ----

  function Comp(a: Word): Word { XorW(a, 0xffff_ffff_ffff_ffff) }
  function Neg(a: Word): Word { Add(XorW(a, 0xffff_ffff_ffff_ffff), 1) }
  function LAnd(a: Word, b: Word): Word { AndW(Snez(a), Snez(b)) }
  function LOr(a: Word, b: Word): Word { OrW(Snez(a), Snez(b)) }
  function LNot(a: Word): Word { Sltu(a, 1) }
  function Seq(a: Word, b: Word): Word { Seqz(XorW(a, b)) }
  function Sne(a: Word, b: Word): Word { Snez(XorW(a, b)) }
  function Sle(a: Word, b: Word): Word { LNot(Slt(b, a)) }
  function Sleu(a: Word, b: Word): Word { LNot(Sltu(b, a)) }
  function Sge(a: Word, b: Word): Word { LNot(Slt(a, b)) }
  function Sgeu(a: Word, b: Word): Word { LNot(Sltu(a, b)) }
  function Cmov(cond: Word, ifTrue: Word, ifFalse: Word): Word {
    OrW(CzeroNez(ifFalse, cond), CzeroEqz(ifTrue, cond))
  }

  // ---- What the sequences compute ----

  lemma BitwiseFit(a: Word, b: Word)
    ensures AndW(a, b) == And(a, b) && OrW(a, b) == Or(a, b) && XorW(a, b) == Xor(a, b)
  {
    hide And, Or, Xor, Pow2;
    Pow2Values();
    BitwiseBelow(a, b, 64);
  }

  lemma ComplementIs(a: Word)
    ensures XorW(a, 0xffff_ffff_ffff_ffff) == 0xffff_ffff_ffff_ffff - a
  {
    hide Xor, Pow2;
    Pow2Values();
    XorMask(a, 64);
  }

  lemma ComplementAndNegate(a: Word)
    ensures Comp(a) == 0xffff_ffff_ffff_ffff - a
    ensures Neg(a) == Truncate(0 - a)
  {
    ComplementIs(a);
    hide XorW;
  }

  lemma LogicalValues(a: Word, b: Word)
    ensures LAnd(a, b) == if a != 0 && b != 0 then 1 else 0
    ensures LOr(a, b) == if a != 0 || b != 0 then 1 else 0
    ensures LNot(a) == if a == 0 then 1 else 0
  {
    assert And(1, 1) == 1 && And(0, 1) == 0 && And(1, 0) == 0 && Or(0, 1) == 1 && Or(1, 0) == 1 && Or(1, 1) == 1;
  }

  lemma EqualityValues(a: Word, b: Word)
    ensures Seq(a, b) == if a == b then 1 else 0
    ensures Sne(a, b) == if a != b then 1 else 0
  {
    XorIsZero(a, b);
    BitwiseFit(a, b);
  }

  lemma OrWZero(a: Word)
    ensures OrW(a, 0) == a && OrW(0, a) == a
  {
    hide Or;
    OrZero(a);
  }

  // The conditional move selects, on any nonzero predicate.
  lemma CmovSelects(cond: Word, ifTrue: Word, ifFalse: Word)
    ensures Cmov(cond, ifTrue, ifFalse) == if cond != 0 then ifTrue else ifFalse
  {
    hide OrW;
    OrWZero(ifTrue);
    OrWZero(ifFalse);
  }
}
