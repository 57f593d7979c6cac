/**
 The Mersenne Twister twice: the runtime library's on 32-bit words and the benchmark's on 64-bit
 words. Both refresh their 624 words in place; the reference is the infinite recurrence.
 */
module Mersenne {
  import opened Bits
  import opened Common

  const N: nat := 624
  const M: nat := 397
  const MATRIX_A: nat := 0x9908b0df
  const UPPER_MASK: nat := 0x80000000
  const LOWER_MASK: nat := 0x7fffffff
  const HALF_MASK: nat := 0xffff0000
  const TEMPERING_MASK_B: nat := 0x9d2c5680
  const TEMPERING_MASK_C: nat := 0xefc60000
  const RAND_MAX: nat := 0x7fffffff

  // ---- The infinite sequence of words of width w ----

  function NextSeed(w: nat, seed: nat): nat { Low(69069 * seed + 1, w) }

  ghost function Seeds(w: nat, seed: nat, n: nat): nat {
    if n == 0 then seed else NextSeed(w, Seeds(w, seed, n - 1))
  }

  function Halves(s: nat, t: nat): nat { Or(And(s, HALF_MASK), Shr(And(t, HALF_MASK), 16)) }

  function Join(x: nat, y: nat): nat { Or(And(x, UPPER_MASK), And(y, LOWER_MASK)) }

  function Feedback(far: nat, z: nat): nat { Xor(Xor(far, Shr(z, 1)), And(z, 1) * MATRIX_A) }

  // Word k + 624 from words k, k + 1 and k + 397.
  function Twist(x: nat, y: nat, far: nat): nat { Feedback(far, Join(x, y)) }

  ghost function Word(w: nat, seed: nat, k: nat): nat {
    if k < 624 then Halves(Seeds(w, seed, 2 * k), Seeds(w, seed, 2 * k + 1))
    else Twist(Word(w, seed, k - 624), Word(w, seed, k - 623), Word(w, seed, k - 227))
  }

  function TemperU(y: nat): nat { Xor(y, Shr(y, 11)) }
  function TemperS(w: nat, y: nat): nat { Xor(y, And(Low(Shl(y, 7), w), TEMPERING_MASK_B)) }
  function TemperT(w: nat, y: nat): nat { Xor(y, And(Low(Shl(y, 15), w), TEMPERING_MASK_C)) }
  function TemperL(y: nat): nat { Xor(y, Shr(y, 18)) }

  function Temper(w: nat, y: nat): nat { TemperL(TemperT(w, TemperS(w, TemperU(y)))) }

  // ---- The two widths agree ----

  lemma {:induction false} AndAtMost(x: nat, m: nat)
    ensures And(x, m) <= m
  {
    if x > 0 {
      AndAtMost(x / 2, m / 2);
    }
  }

  lemma LowOfLow(x: nat)
    ensures Low(Low(x, 64), 32) == Low(x, 32)
  {
    Pow2Values();
    LowIsMod(x, 64);
    LowIsMod(x, 32);
    LowIsMod(Low(x, 64), 32);
    hide *;
    ModTwice(x);
  }

  lemma ModTwice(x: nat)
    ensures (x % 0x1_0000_0000_0000_0000) % 0x1_0000_0000 == x % 0x1_0000_0000
  {
    var q, r := x / 0x1_0000_0000_0000_0000, x % 0x1_0000_0000_0000_0000;
    ModShift(r, 0x1_0000_0000, 0x1_0000_0000 * q);
  }

  // Under a mask of 32 bits the high half of the other operand does not matter.
  lemma AndLow(x: nat, m: nat)
    requires m < 0x1_0000_0000
    ensures And(x, m) == And(Low(x, 32), m)
  {
    hide And, Low;
    Pow2Values();
    AndAtMost(x, m);
    LowOfSmall(And(x, m), 32);
    LowOfSmall(m, 32);
    LowBitwise(x, m, 32);
  }

  lemma NextSeedsAgree(s: nat, t: nat)
    requires Low(s, 32) == t
    ensures Low(NextSeed(64, s), 32) == NextSeed(32, t)
  {
    hide *;
    NextSeedIs(64, s);
    NextSeedIs(32, t);
    LowOfLow(69069 * s + 1);
    Pow2Values();
    LowIsMod(s, 32);
    LowIsMod(69069 * s + 1, 32);
    LowIsMod(69069 * t + 1, 32);
    AffineMod(s);
  }

  lemma NextSeedIs(width: nat, s: nat)
    ensures NextSeed(width, s) == Low(69069 * s + 1, width)
  {
  }

  lemma AffineMod(s: nat)
    ensures (69069 * s + 1) % 0x1_0000_0000 == (69069 * (s % 0x1_0000_0000) + 1) % 0x1_0000_0000
  {
    var q, r := s / 0x1_0000_0000, s % 0x1_0000_0000;
    ModShift(69069 * r + 1, 0x1_0000_0000, 69069 * q);
    assert 69069 * s + 1 == (69069 * r + 1) + 0x1_0000_0000 * (69069 * q);
  }

  lemma {:induction false} SeedsAgree(s: nat, t: nat, n: nat)
    requires Low(s, 32) == t
    ensures Low(Seeds(64, s, n), 32) == Seeds(32, t, n)
  {
    hide NextSeed, Low;
    if n > 0 {
      SeedsAgree(s, t, n - 1);
      NextSeedsAgree(Seeds(64, s, n - 1), Seeds(32, t, n - 1));
    }
  }

  // Word for word the same sequence, for seeds equal in their low 32 bits.
  lemma {:induction false} WordsAgree(s: nat, t: nat, k: nat)
    requires Low(s, 32) == t
    ensures Word(64, s, k) == Word(32, t, k)
  {
    hide Low, And, Or, Shr, Twist, Seeds;
    if k < 624 {
      SeedsAgree(s, t, 2 * k);
      SeedsAgree(s, t, 2 * k + 1);
      AndLow(Seeds(64, s, 2 * k), HALF_MASK);
      AndLow(Seeds(64, s, 2 * k + 1), HALF_MASK);
    } else {
      WordsAgree(s, t, k - 624);
      WordsAgree(s, t, k - 623);
      WordsAgree(s, t, k - 227);
    }
  }

  lemma TempersAgree(y: nat)
    ensures Temper(64, y) == Temper(32, y)
  {
    hide Low, And, Shl, Xor, TemperU, TemperL;
    var a := TemperU(y);
    AndLow(Low(Shl(a, 7), 64), TEMPERING_MASK_B);
    LowOfLow(Shl(a, 7));
    var b := TemperS(32, a);
    AndLow(Low(Shl(b, 15), 64), TEMPERING_MASK_C);
    LowOfLow(Shl(b, 15));
  }

  // What the two generators return at the same call, for seeds equal in their low 32 bits.
  lemma GeneratorsAgree(s: nat, t: nat, k: nat)
    requires Low(s, 32) == t
    ensures And(Temper(32, Word(32, t, k)), RAND_MAX) == And(Temper(64, Word(64, s, k)), RAND_MAX)
  {
    hide *;
    WordsAgree(s, t, k);
    TempersAgree(Word(64, s, k));
  }

  // All words are words of 32 bits.
  lemma ShrAtMost(x: nat, i: nat)
    ensures Shr(x, i) <= x
  {
    if i > 0 {
      ShrAtMost(x, i - 1);
    }
  }

  lemma {:induction false} WordsFit(w: nat, seed: nat, k: nat)
    ensures Word(w, seed, k) < 0x1_0000_0000
  {
    hide And, Or, Xor, Shr, Seeds;
    Pow2Values();
    if k < 624 {
      var s, t := Seeds(w, seed, 2 * k), Seeds(w, seed, 2 * k + 1);
      AndAtMost(s, HALF_MASK);
      AndAtMost(t, HALF_MASK);
      ShrAtMost(And(t, HALF_MASK), 16);
      BitwiseBelow(And(s, HALF_MASK), Shr(And(t, HALF_MASK), 16), 32);
    } else {
      WordsFit(w, seed, k - 227);
      TwistFits(Word(w, seed, k - 624), Word(w, seed, k - 623), Word(w, seed, k - 227));
    }
  }

  lemma TwistFits(x: nat, y: nat, far: nat)
    requires far < 0x1_0000_0000
    ensures Twist(x, y, far) < 0x1_0000_0000
  {
    hide And, Or, Xor, Shr;
    Pow2Values();
    var z := Join(x, y);
    AndAtMost(x, UPPER_MASK);
    AndAtMost(y, LOWER_MASK);
    BitwiseBelow(And(x, UPPER_MASK), And(y, LOWER_MASK), 32);
    ShrAtMost(z, 1);
    BitwiseBelow(far, Shr(z, 1), 32);
    AndAtMost(z, 1);
    BitwiseBelow(Xor(far, Shr(z, 1)), And(z, 1) * MATRIX_A, 32);
  }

  // ---- The same sequence in arithmetic ----

  ghost function SeedAt(seed: nat, n: nat): nat {
    if n == 0 then seed else (69069 * SeedAt(seed, n - 1) + 1) % 0x1_0000_0000
  }

  // The high bit of x over the low 31 bits of y.
  function Joined(x: nat, y: nat): nat { x / 0x8000_0000 * 0x8000_0000 + y % 0x8000_0000 }

  function Twisted(x: nat, y: nat, far: nat): nat {
    var z := Joined(x, y);
    if z % 2 == 0 then Xor(far, z / 2) else Xor(Xor(far, z / 2), 0x9908b0df)
  }

  // The first 624 words are made of the high halves of two seeds each.
  ghost function PaperWord(seed: nat, k: nat): nat {
    if k < 624 then 0x1_0000 * (SeedAt(seed, 2 * k) / 0x1_0000) + SeedAt(seed, 2 * k + 1) / 0x1_0000
    else Twisted(PaperWord(seed, k - 624), PaperWord(seed, k - 623), PaperWord(seed, k - 227))
  }

  lemma {:induction false} SeedsAreArithmetic(seed: nat, n: nat)
    requires seed < 0x1_0000_0000
    ensures Seeds(32, seed, n) == SeedAt(seed, n) < 0x1_0000_0000
  {
    hide Low;
    if n > 0 {
      SeedsAreArithmetic(seed, n - 1);
      Pow2Values();
      LowIsMod(69069 * Seeds(32, seed, n - 1) + 1, 32);
    }
  }

  lemma HighHalf(s: nat)
    requires s < 0x1_0000_0000
    ensures And(s, HALF_MASK) == Shl(s / 0x1_0000, 16) && s / 0x1_0000 < 0x1_0000
    ensures Shr(Shl(s / 0x1_0000, 16), 16) == s / 0x1_0000
    ensures Shl(s / 0x1_0000, 16) == 0x1_0000 * (s / 0x1_0000)
  {
    hide And, Shl, Shr, Pow2;
    var h := s / 0x1_0000;
    Pow2Values();
    ShlIsMul(0xffff, 16);
    ShlIsMul(h, 16);
    AndShl(s, 0xffff, 16);
    ShrIsDiv(s, 16);
    AndMask(h, 16);
    LowOfSmall(h, 16);
    ShrBlock(Shl(h, 16), 16, h);
  }

  lemma HalvesAreArithmetic(s: nat, t: nat)
    requires s < 0x1_0000_0000 && t < 0x1_0000_0000
    ensures Halves(s, t) == 0x1_0000 * (s / 0x1_0000) + t / 0x1_0000
  {
    hide And, Or, Shl, Shr, Pow2;
    Pow2Values();
    HighHalf(s);
    HighHalf(t);
    OrDisjoint(s / 0x1_0000, t / 0x1_0000, 16);
  }

  lemma Pow2Of31()
    ensures Pow2(31) == 0x8000_0000 && Pow2(1) == 2
  {
    Pow2Values();
    assert Pow2(31) == 2 * Pow2(30);
  }

  lemma JoinIsArithmetic(x: nat, y: nat)
    requires x < 0x1_0000_0000
    ensures Join(x, y) == Joined(x, y)
  {
    hide And, Or, Shl, Shr, Pow2, Low;
    var h := x / 0x8000_0000;
    Pow2Of31();
    ShlIsMul(1, 31);
    ShlIsMul(h, 31);
    AndShl(x, 1, 31);
    ShrIsDiv(x, 31);
    AndMask(h, 1);
    LowOfSmall(h, 1);
    AndMask(y, 31);
    LowIsMod(y, 31);
    OrDisjoint(h, y % 0x8000_0000, 31);
  }

  lemma TwistIsArithmetic(x: nat, y: nat, far: nat)
    requires x < 0x1_0000_0000
    ensures Twist(x, y, far) == Twisted(x, y, far)
  {
    hide And, Xor, Shr, Pow2, Low, Join, Joined;
    var z := Join(x, y);
    JoinIsArithmetic(x, y);
    Pow2Of31();
    ShrIsDiv(z, 1);
    AndMask(z, 1);
    LowIsMod(z, 1);
    XorZero(Xor(far, z / 2));
  }

  // The words of the library are these.
  lemma {:induction false} WordsAreArithmetic(seed: nat, k: nat)
    requires seed < 0x1_0000_0000
    ensures Word(32, seed, k) == PaperWord(seed, k)
  {
    hide Twist, Twisted, Halves, Seeds, SeedAt;
    if k < 624 {
      SeedsAreArithmetic(seed, 2 * k);
      SeedsAreArithmetic(seed, 2 * k + 1);
      HalvesAreArithmetic(SeedAt(seed, 2 * k), SeedAt(seed, 2 * k + 1));
    } else {
      WordsAreArithmetic(seed, k - 624);
      WordsAreArithmetic(seed, k - 623);
      WordsAreArithmetic(seed, k - 227);
      WordsFit(32, seed, k - 624);
      TwistIsArithmetic(Word(32, seed, k - 624), Word(32, seed, k - 623), Word(32, seed, k - 227));
    }
  }

  // ---- Tempering, bit by bit ----

  // y ^ (y >> s), and y ^ ((y << s) & mask)
  ghost predicate XorRight(y: nat, s: nat, r: nat) {
    forall i: nat {:trigger Bit(r, i)} :: Bit(r, i) <==> Bit(y, i) != Bit(y, i + s)
  }

  ghost predicate XorLeft(y: nat, s: nat, mask: nat, r: nat) {
    forall i: nat {:trigger Bit(r, i)} :: Bit(r, i) <==> Bit(y, i) != (i >= s && Bit(y, i - s) && Bit(mask, i))
  }

  ghost predicate Tempered(y: nat, r: nat) {
    exists a: nat, b: nat, c: nat ::
      XorRight(y, 11, a) && XorLeft(a, 7, 0x9d2c5680, b) && XorLeft(b, 15, 0xefc60000, c) && XorRight(c, 18, r)
  }

  lemma RightStep(y: nat, s: nat)
    ensures XorRight(y, s, Xor(y, Shr(y, s)))
  {
    hide Xor, Shr, Bit;
    forall i: nat ensures Bit(Xor(y, Shr(y, s)), i) <==> Bit(y, i) != Bit(y, i + s) {
      BitOfXor(y, Shr(y, s), i);
      BitOfShr(y, s, i);
    }
  }

  // A mask of 32 bits hides the width of the words.
  lemma LeftStep(w: nat, y: nat, s: nat, mask: nat)
    requires w >= 32 && mask < 0x1_0000_0000
    ensures XorLeft(y, s, mask, Xor(y, And(Low(Shl(y, s), w), mask)))
  {
    hide Xor, And, Shl, Low, Bit;
    var x := Low(Shl(y, s), w);
    forall i: nat ensures Bit(Xor(y, And(x, mask)), i) <==> Bit(y, i) != (i >= s && Bit(y, i - s) && Bit(mask, i)) {
      BitOfXor(y, And(x, mask), i);
      BitOfAnd(x, mask, i);
      BitOfLow(Shl(y, s), w, i);
      BitOfShl(y, s, i);
      if i >= w {
        Pow2Values();
        BitBelow(mask, 32, i);
      }
    }
  }

  lemma TemperIsTempered(w: nat, y: nat)
    requires w >= 32
    ensures Tempered(y, Temper(w, y))
  {
    hide Xor, And, Shl, Shr, Low, Bit, XorRight, XorLeft;
    var a := TemperU(y);
    var b := TemperS(w, a);
    var c := TemperT(w, b);
    RightStep(y, 11);
    LeftStep(w, a, 7, 0x9d2c5680);
    LeftStep(w, b, 15, 0xefc60000);
    RightStep(c, 18);
    assert XorRight(y, 11, a) && XorLeft(a, 7, 0x9d2c5680, b) && XorLeft(b, 15, 0xefc60000, c)
      && XorRight(c, 18, Temper(w, y));
  }

  // The highest bit comes back first.
  lemma {:induction false} RightBit(x: nat, y: nat, s: nat, r: nat, n: nat, i: nat)
    requires s > 0 && XorRight(x, s, r) && XorRight(y, s, r) && x < Pow2(n) && y < Pow2(n)
    ensures Bit(x, i) == Bit(y, i)
    decreases n - i
  {
    hide Bit, Pow2;
    if i >= n {
      BitBelow(x, n, i);
      BitBelow(y, n, i);
    } else {
      RightBit(x, y, s, r, n, i + s);
      assert Bit(r, i) <==> Bit(x, i) != Bit(x, i + s);
    }
  }

  // The lowest bit comes back first.
  lemma {:induction false} LeftBit(x: nat, y: nat, s: nat, mask: nat, r: nat, i: nat)
    requires s > 0 && XorLeft(x, s, mask, r) && XorLeft(y, s, mask, r)
    ensures Bit(x, i) == Bit(y, i)
    decreases i
  {
    hide Bit;
    if i >= s {
      LeftBit(x, y, s, mask, r, i - s);
    }
    assert Bit(r, i) <==> Bit(x, i) != (i >= s && Bit(x, i - s) && Bit(mask, i));
  }

  lemma {:induction false} BelowPow2(x: nat, n: nat)
    requires x <= n
    ensures x < Pow2(n)
  {
    if n > 0 {
      BelowPow2(if x > 0 then x - 1 else 0, n - 1);
    }
  }

  lemma UndoRight(x: nat, y: nat, s: nat, r: nat)
    requires s > 0 && XorRight(x, s, r) && XorRight(y, s, r)
    ensures x == y
  {
    hide Bit, XorRight, Pow2;
    BelowPow2(x, x + y);
    BelowPow2(y, x + y);
    forall i: nat ensures Bit(x, i) == Bit(y, i) {
      RightBit(x, y, s, r, x + y, i);
    }
    SameBits(x, y);
  }

  lemma UndoLeft(x: nat, y: nat, s: nat, mask: nat, r: nat)
    requires s > 0 && XorLeft(x, s, mask, r) && XorLeft(y, s, mask, r)
    ensures x == y
  {
    hide Bit, XorLeft;
    forall i: nat ensures Bit(x, i) == Bit(y, i) {
      LeftBit(x, y, s, mask, r, i);
    }
    SameBits(x, y);
  }

  // A word has one tempered word, and different words have different ones.
  lemma TemperingIsInjective(x: nat, y: nat, r: nat, t: nat)
    requires Tempered(x, r) && Tempered(y, t)
    ensures x == y <==> r == t
  {
    hide XorRight, XorLeft;
    var a: nat, b: nat, c: nat :| XorRight(x, 11, a) && XorLeft(a, 7, 0x9d2c5680, b) && XorLeft(b, 15, 0xefc60000, c)
      && XorRight(c, 18, r);
    var a': nat, b': nat, c': nat :| XorRight(y, 11, a') && XorLeft(a', 7, 0x9d2c5680, b')
      && XorLeft(b', 15, 0xefc60000, c') && XorRight(c', 18, t);
    if r == t {
      UndoRight(c, c', 18, r);
      UndoLeft(b, b', 15, 0xefc60000, c);
      UndoLeft(a, a', 7, 0x9d2c5680, b);
      UndoRight(x, y, 11, a);
    }
    if x == y {
      SameRight(x, 11, a, a');
      SameLeft(a, 7, 0x9d2c5680, b, b');
      SameLeft(b, 15, 0xefc60000, c, c');
      SameRight(c, 18, r, t);
    }
  }

  lemma SameRight(y: nat, s: nat, r: nat, t: nat)
    requires XorRight(y, s, r) && XorRight(y, s, t)
    ensures r == t
  {
    hide Bit;
    assert forall i: nat :: Bit(r, i) == Bit(t, i);
    SameBits(r, t);
  }

  lemma SameLeft(y: nat, s: nat, mask: nat, r: nat, t: nat)
    requires XorLeft(y, s, mask, r) && XorLeft(y, s, mask, t)
    ensures r == t
  {
    hide Bit;
    assert forall i: nat :: Bit(r, i) == Bit(t, i);
    SameBits(r, t);
  }

  // What the two generators return, in these terms: number k of a seed, whole and without its high bit.
  ghost predicate IsNumber(seed: nat, k: nat, r: nat) {
    Tempered(PaperWord(seed, k), r)
  }

  ghost predicate IsLowNumber(seed: nat, k: nat, r: nat) {
    exists t: nat :: IsNumber(seed, k, t) && r == t % 0x8000_0000
  }

  lemma LowBits31(t: nat)
    ensures And(t, RAND_MAX) == t % 0x8000_0000
  {
    Pow2Of31();
    AndMask(t, 31);
    LowIsMod(t, 31);
  }

  lemma BenchmarkNumber(seed: nat, k: nat)
    ensures IsNumber(seed % 0x1_0000_0000, k, Temper(64, Word(64, seed, k)))
  {
    hide Word, PaperWord, Tempered, Temper, Low;
    Pow2Values();
    LowIsMod(seed, 32);
    WordsAgree(seed, seed % 0x1_0000_0000, k);
    WordsAreArithmetic(seed % 0x1_0000_0000, k);
    TemperIsTempered(64, Word(64, seed, k));
  }

  lemma LibraryNumber(seed: nat, k: nat)
    requires seed < 0x1_0000_0000
    ensures IsLowNumber(seed, k, And(Temper(32, Word(32, seed, k)), RAND_MAX))
  {
    hide Word, PaperWord, Tempered, Temper, And;
    WordsAreArithmetic(seed, k);
    var t := Temper(32, Word(32, seed, k));
    TemperIsTempered(32, Word(32, seed, k));
    LowBits31(t);
    assert IsNumber(seed, k, t);
  }

  // ---- The first number of a seed ----

  // So many seeds further at once.
  ghost predicate Jumps(n: nat, a: nat, c: nat) {
    forall s: nat :: SeedAt(s, n) == (a * s + c) % 0x1_0000_0000
  }

  lemma {:induction false} SeedsCompose(s: nat, m: nat, n: nat)
    ensures SeedAt(s, m + n) == SeedAt(SeedAt(s, m), n)
  {
    if n > 0 {
      SeedsCompose(s, m, n - 1);
    }
  }

  lemma ComposeAffine(a: nat, c: nat, b: nat, d: nat, s: nat)
    ensures (b * ((a * s + c) % 0x1_0000_0000) + d) % 0x1_0000_0000
      == (((b * a) % 0x1_0000_0000) * s + (b * c + d) % 0x1_0000_0000) % 0x1_0000_0000
  {
    hide Congruent;
    var p: nat, x := 0x1_0000_0000, a * s + c;
    CongruentRemainder(x, p);
    CongruentSelf(b, p); CongruentSelf(d, p); CongruentSelf(s, p);
    CongruentProduct(b, b, x % p, x, p);
    CongruentSum(b * (x % p), b * x, d, d, p);
    CongruentRemainder(b * a, p);
    CongruentProduct((b * a) % p, b * a, s, s, p);
    CongruentRemainder(b * c + d, p);
    CongruentSum(((b * a) % p) * s, (b * a) * s, (b * c + d) % p, b * c + d, p);
    AffineOfAffine(a, c, b, d, s);
    SameRemainder(b * (x % p) + d, ((b * a) % p) * s + (b * c + d) % p, b * x + d, p);
  }

  lemma AffineOfAffine(a: nat, c: nat, b: nat, d: nat, s: nat)
    ensures b * (a * s + c) + d == (b * a) * s + (b * c + d)
  {
    assert b * (a * s + c) == b * (a * s) + b * c && b * (a * s) == (b * a) * s;
  }

  lemma SameRemainder(x: nat, y: nat, z: nat, p: nat)
    requires p > 0 && Congruent(x, z, p) && Congruent(y, z, p)
    ensures x % p == y % p
  {
  }

  lemma CongruentSelf(x: nat, p: nat)
    requires p > 0
    ensures Congruent(x, x, p)
  {
  }

  lemma CongruentRemainder(x: nat, p: nat)
    requires p > 0
    ensures Congruent(x % p, x, p)
  {
    ModOfMod(x, p, 1);
  }

  lemma JumpFurther(m: nat, a: nat, c: nat, n: nat, b: nat, d: nat, a': nat, c': nat)
    requires Jumps(m, a, c) && Jumps(n, b, d)
    requires a' == (b * a) % 0x1_0000_0000 && c' == (b * c + d) % 0x1_0000_0000
    ensures Jumps(m + n, a', c')
  {
    hide SeedAt;
    forall s: nat ensures SeedAt(s, m + n) == (a' * s + c') % 0x1_0000_0000 {
      SeedsCompose(s, m, n);
      ComposeAffine(a, c, b, d, s);
    }
  }

  lemma OneSeed()
    ensures Jumps(1, 69069, 1)
  {
  }

  lemma Jump794()
    ensures Jumps(794, 0x1f0f_8f89, 0xfc33_8816)
  {
    hide Jumps;
    OneSeed();
    JumpFurther(1, 0x1_0dcd, 0x1, 1, 0x1_0dcd, 0x1, 0x1c58_7629, 0x1_0dce);
    JumpFurther(2, 0x1c58_7629, 0x1_0dce, 1, 69069, 1, 0xa6ff_b3d5, 0x1c59_83f7);
    JumpFurther(3, 0xa6ff_b3d5, 0x1c59_83f7, 3, 0xa6ff_b3d5, 0x1c59_83f7, 0xfca9_8f39, 0xe723_057a);
    JumpFurther(6, 0xfca9_8f39, 0xe723_057a, 6, 0xfca9_8f39, 0xe723_057a, 0xa162_bab1, 0xa388_63a4);
    JumpFurther(12, 0xa162_bab1, 0xa388_63a4, 12, 0xa162_bab1, 0xa388_63a4, 0x19a9_ae61, 0x1602_7008);
    JumpFurther(24, 0x19a9_ae61, 0x1602_7008, 24, 0x19a9_ae61, 0x1602_7008, 0xa4da_00c1, 0xd25c_5310);
    JumpFurther(48, 0xa4da_00c1, 0xd25c_5310, 1, 69069, 1, 0x155d_678d, 0x7736_53d1);
    JumpFurther(49, 0x155d_678d, 0x7736_53d1, 49, 0x155d_678d, 0x7736_53d1, 0x8854_c3a9, 0x93c8_94ee);
    JumpFurther(98, 0x8854_c3a9, 0x93c8_94ee, 1, 69069, 1, 0x3d79_4355, 0x1c1d_5897);
    JumpFurther(99, 0x3d79_4355, 0x1c1d_5897, 99, 0x3d79_4355, 0x1c1d_5897, 0x3a0f_9a39, 0xfa6a_47ba);
    JumpFurther(198, 0x3a0f_9a39, 0xfa6a_47ba, 198, 0x3a0f_9a39, 0xfa6a_47ba, 0x4396_a0b1, 0x320_2424);
    JumpFurther(396, 0x4396_a0b1, 0x320_2424, 1, 69069, 1, 0x6678_aabd, 0x46b6_c4d5);
    JumpFurther(397, 0x6678_aabd, 0x46b6_c4d5, 397, 0x6678_aabd, 0x46b6_c4d5, 0x1f0f_8f89, 0xfc33_8816);
  }

  lemma FourSeeds()
    ensures SeedAt(4357, 0) == 0x1105 && SeedAt(4357, 1) == 0x11ef_e202 && SeedAt(4357, 2) == 0x6d94_159b
    ensures SeedAt(4357, 3) == 0x5a49_2c20
  {
    assert SeedAt(4357, 1) == (69069 * SeedAt(4357, 0) + 1) % 0x1_0000_0000;
    assert SeedAt(4357, 2) == (69069 * SeedAt(4357, 1) + 1) % 0x1_0000_0000;
  }

  lemma SeedAfterJump(s: nat, n: nat, a: nat, c: nat)
    requires Jumps(n, a, c)
    ensures SeedAt(s, n) == (a * s + c) % 0x1_0000_0000
    ensures SeedAt(s, n + 1) == (69069 * SeedAt(s, n) + 1) % 0x1_0000_0000
  {
  }

  lemma FarSeeds()
    ensures SeedAt(4357, 794) == 0xa009_6ec3 && SeedAt(4357, 795) == 0x10f0_9928
  {
    hide SeedAt, Jumps;
    Jump794();
    SeedAfterJump(4357, 794, 0x1f0f_8f89, 0xfc33_8816);
  }

  // The words 0, 1 and 397, and what they are twisted to.
  lemma FirstWord()
    ensures PaperWord(4357, 624) == 0x0fcb_8d0b
  {
    hide SeedAt, Xor, And;
    FourSeeds();
    FarSeeds();
    assert PaperWord(4357, 0) == 0x11ef && PaperWord(4357, 1) == 0x6d94_5a49 && PaperWord(4357, 397) == 0xa009_10f0;
    FirstTwist();
  }

  lemma FirstTwist()
    ensures Twisted(0x11ef, 0x6d94_5a49, 0xa009_10f0) == 0x0fcb_8d0b
  {
    hide Xor, And;
    assert Xor(0xa009_10f0, 0x36ca_2d24) == 0x96c3_3dd4 by {
      XorWord(Hex8(0xa, 0, 0, 9, 1, 0, 0xf, 0), Hex8(3, 6, 0xc, 0xa, 2, 0xd, 2, 4),
        Hex8(9, 6, 0xc, 3, 3, 0xd, 0xd, 4));
    }
    assert Xor(0x96c3_3dd4, 0x9908_b0df) == 0xfcb_8d0b by {
      XorWord(Hex8(9, 6, 0xc, 3, 3, 0xd, 0xd, 4), Hex8(9, 9, 0, 8, 0xb, 0, 0xd, 0xf),
        Hex8(0, 0xf, 0xc, 0xb, 8, 0xd, 0, 0xb));
    }
  }

  lemma FirstTempered()
    ensures Temper(32, 0x0fcb_8d0b) == 0xaae6_4ac3
  {
    hide TemperU, TemperS, TemperT, TemperL;
    FirstU();
    FirstS();
    FirstT();
    FirstL();
  }

  lemma FirstU()
    ensures TemperU(0x0fcb_8d0b) == 0xfca_747a
  {
    hide Xor, And, Shr;
    Pow2Of31();
    assert Pow2(11) == 2048;
    ShrIsDiv(0x0fcb_8d0b, 11);
    assert Xor(0xfcb_8d0b, 0x1_f971) == 0xfca_747a by {
      XorWord(Hex8(0, 0xf, 0xc, 0xb, 8, 0xd, 0, 0xb), Hex8(0, 0, 0, 1, 0xf, 9, 7, 1),
        Hex8(0, 0xf, 0xc, 0xa, 7, 4, 7, 0xa));
    }
  }

  lemma ShiftedLow(y: nat, s: nat, p: nat)
    requires p == Pow2(s)
    ensures Low(Shl(y, s), 32) == (p * y) % 0x1_0000_0000
  {
    hide Low, Shl;
    Pow2Values();
    ShlIsMul(y, s);
    LowIsMod(Shl(y, s), 32);
  }

  lemma FirstS()
    ensures TemperS(32, 0xfca_747a) == 0x8ae2_607a
  {
    hide Xor, And, Shl, Low;
    FirstMaskB();
    assert Xor(0xfca_747a, 0x8528_1400) == 0x8ae2_607a by {
      XorWord(Hex8(0, 0xf, 0xc, 0xa, 7, 4, 7, 0xa), Hex8(8, 5, 2, 8, 1, 4, 0, 0),
        Hex8(8, 0xa, 0xe, 2, 6, 0, 7, 0xa));
    }
  }

  lemma FirstMaskB()
    ensures And(Low(Shl(0xfca_747a, 7), 32), TEMPERING_MASK_B) == 0x8528_1400
  {
    hide And, Shl, Low;
    ShiftedB();
    assert And(0xe53a_3d00, 0x9d2c_5680) == 0x8528_1400 by {
      AndWord(Hex8(0xe, 5, 3, 0xa, 3, 0xd, 0, 0), Hex8(9, 0xd, 2, 0xc, 5, 6, 8, 0),
        Hex8(8, 5, 2, 8, 1, 4, 0, 0));
    }
  }

  lemma ShiftedB()
    ensures Low(Shl(0xfca_747a, 7), 32) == 0xe53a_3d00
  {
    hide Shl, Low;
    assert Pow2(7) == 128;
    ShiftedLow(0xfca_747a, 7, 128);
  }

  lemma FirstT()
    ensures TemperT(32, 0x8ae2_607a) == 0xaae6_607a
  {
    hide Xor, And, Shl, Low;
    FirstMaskC();
    assert Xor(0x8ae2_607a, 0x2004_0000) == 0xaae6_607a by {
      XorWord(Hex8(8, 0xa, 0xe, 2, 6, 0, 7, 0xa), Hex8(2, 0, 0, 4, 0, 0, 0, 0),
        Hex8(0xa, 0xa, 0xe, 6, 6, 0, 7, 0xa));
    }
  }

  lemma FirstMaskC()
    ensures And(Low(Shl(0x8ae2_607a, 15), 32), TEMPERING_MASK_C) == 0x2004_0000
  {
    hide And, Shl, Low;
    ShiftedC();
    assert And(0x303d_0000, 0xefc6_0000) == 0x2004_0000 by {
      AndWord(Hex8(3, 0, 3, 0xd, 0, 0, 0, 0), Hex8(0xe, 0xf, 0xc, 6, 0, 0, 0, 0),
        Hex8(2, 0, 0, 4, 0, 0, 0, 0));
    }
  }

  lemma ShiftedC()
    ensures Low(Shl(0x8ae2_607a, 15), 32) == 0x303d_0000
  {
    hide Shl, Low;
    assert Pow2(15) == 0x8000;
    ShiftedLow(0x8ae2_607a, 15, 0x8000);
  }

  lemma FirstL()
    ensures TemperL(0xaae6_607a) == 0xaae6_4ac3
  {
    hide Xor, And, Shr;
    assert Pow2(9) == 512;
    Pow2Add(9, 9);
    ShrIsDiv(0xaae6_607a, 18);
    assert Xor(0xaae6_607a, 0x2ab9) == 0xaae6_4ac3 by {
      XorWord(Hex8(0xa, 0xa, 0xe, 6, 6, 0, 7, 0xa), Hex8(0, 0, 0, 0, 2, 0xa, 0xb, 9),
        Hex8(0xa, 0xa, 0xe, 6, 4, 0xa, 0xc, 3));
    }
  }

  // The seed 4357 first gives 2867219139 on 64-bit words and 719735491 from the library.
  lemma FirstNumber()
    ensures Temper(64, Word(64, 4357, 624)) == 2867219139
    ensures And(Temper(32, Word(32, 4357, 624)), RAND_MAX) == 719735491
  {
    hide Temper, Word, PaperWord, And;
    FirstWord();
    FirstTempered();
    WordsAreArithmetic(4357, 624);
    TempersAgree(0x0fcb_8d0b);
    Pow2Values();
    LowOfSmall(4357, 32);
    WordsAgree(4357, 4357, 624);
    LowBits31(2867219139);
  }

  // ---- The runtime library's generator ----

  ghost predicate Shows(mt: array<nat>, w: nat, seed: nat, base: nat)
    reads mt
  {
    mt.Length >= 624 && forall i :: 0 <= i < 624 ==> mt[i] == Word(w, seed, base + i)
  }

  // The first words have been replaced by those 624 later.
  ghost predicate Mixed(mt: array<nat>, w: nat, seed: nat, base: nat, n: nat)
    reads mt
  {
    mt.Length >= 624 && forall i :: 0 <= i < 624 ==> mt[i] == Word(w, seed, base + i + if i < n then 624 else 0)
  }

  lemma WordNext(w: nat, seed: nat, k: nat)
    ensures Word(w, seed, k + 624) == Twist(Word(w, seed, k), Word(w, seed, k + 1), Word(w, seed, k + 397))
  {
    hide Twist;
  }

  // One refreshed word: the next one comes from the following word, the far one from the block
  // itself, from its new part for the last 227 words.
  method RefreshOne(mt: array<nat>, kk: nat, next: nat, far: nat, ghost w: nat, ghost seed: nat, ghost base: nat)
    requires kk < 624 && Mixed(mt, w, seed, base, kk)
    requires next == if kk < 623 then kk + 1 else 0
    requires far == if kk < 227 then kk + 397 else kk - 227
    modifies mt
    ensures Mixed(mt, w, seed, base, kk + 1)
  {
    hide Word, And, Or, Xor, Shr;
    WordNext(w, seed, base + kk);
    var y := Or(And(mt[kk], UPPER_MASK), And(mt[next], LOWER_MASK));
    mt[kk] := Xor(Xor(mt[far], Shr(y, 1)), And(y, 1) * MATRIX_A);
  }

  method Refresh(mt: array<nat>, ghost w: nat, ghost seed: nat, ghost base: nat)
    requires Shows(mt, w, seed, base)
    modifies mt
    ensures Shows(mt, w, seed, base + 624)
  {
    hide Word;
    var kk := 0;
    while kk < N - M
      invariant kk <= N - M && Mixed(mt, w, seed, base, kk)
    {
      RefreshOne(mt, kk, kk + 1, kk + M, w, seed, base);
      kk := kk + 1;
    }
    while kk < N - 1
      invariant N - M <= kk <= N - 1 && Mixed(mt, w, seed, base, kk)
    {
      RefreshOne(mt, kk, kk + 1, kk + M - N, w, seed, base);
      kk := kk + 1;
    }
    RefreshOne(mt, N - 1, 0, M - 1, w, seed, base);
  }

  // Fills the block from the seed, two seeds a word.
  method Fill(mt: array<nat>, w: nat, seed: nat)
    requires mt.Length >= 624
    modifies mt
    ensures Shows(mt, w, seed, 0)
  {
    hide Seeds, NextSeed, And, Or, Shr;
    var s := seed;
    SeedsStart(w, seed);
    for i := 0 to N
      invariant s == Seeds(w, seed, 2 * i)
      invariant forall j :: 0 <= j < i ==> mt[j] == Word(w, seed, j)
    {
      SeedsNext(w, seed, 2 * i);
      SeedsNext(w, seed, 2 * i + 1);
      mt[i] := And(s, HALF_MASK);
      s := NextSeed(w, s);
      mt[i] := Or(mt[i], Shr(And(s, HALF_MASK), 16));
      s := NextSeed(w, s);
    }
  }

  lemma SeedsStart(w: nat, seed: nat)
    ensures Seeds(w, seed, 0) == seed
  {
  }

  lemma SeedsNext(w: nat, seed: nat, n: nat)
    ensures Seeds(w, seed, n + 1) == NextSeed(w, Seeds(w, seed, n))
  {
  }

  class LibminRand {
    var mtInitialized: bool
    const mt: array<nat>
    var mti: nat
    ghost var seed: nat
    ghost var base: nat

    ghost predicate Valid()
      reads this, mt
    {
      && mt.Length == 625 && seed < 0x1_0000_0000
      && (mtInitialized ==> mti <= N && Shows(mt, 32, seed, base) && base + mti >= 624)
    }

    // How many numbers have been drawn since the seed was set.
    ghost function Calls(): nat
      requires Valid() && mtInitialized
      reads this, mt
    {
      base + mti - 624
    }

    constructor ()
      ensures Valid() && !mtInitialized && fresh(mt)
    {
      mt := new nat[625];
      mtInitialized, mti, seed, base := false, 625, 0, 0;
    }

    method Srand(s: nat)
      requires Valid() && s < 0x1_0000_0000
      modifies this, mt
      ensures Valid() && mtInitialized && seed == s && Calls() == 0
    {
      mtInitialized := true;
      Fill(mt, 32, s);
      mti := N;
      seed, base := s, 0;
    }

    // The next number of the sequence, its high bit dropped; without a seed the program stops.
    method Rand() returns (r: Option<nat>)
      requires Valid()
      modifies this, mt
      ensures Valid() && mtInitialized == old(mtInitialized) && seed == old(seed)
      ensures !old(mtInitialized) ==> r == None
      ensures old(mtInitialized) ==> Calls() == old(Calls()) + 1
      ensures old(mtInitialized) ==> r == Some(And(Temper(32, Word(32, seed, 624 + old(Calls()))), RAND_MAX))
      ensures old(mtInitialized) ==> IsLowNumber(seed, 624 + old(Calls()), r.value)
    {
      hide Word, And, Or, Xor, Shr, Shl, Low, IsLowNumber;
      if !mtInitialized {
        return None;
      }
      if mti >= N {
        Refresh(mt, 32, seed, base);
        mti := 0;
        base := base + 624;
      }
      LibraryNumber(seed, base + mti);
      var y := mt[mti];
      mti := mti + 1;
      y := Xor(y, Shr(y, 11));
      y := Xor(y, And(Low(Shl(y, 7), 32), TEMPERING_MASK_B));
      y := Xor(y, And(Low(Shl(y, 15), 32), TEMPERING_MASK_C));
      y := Xor(y, Shr(y, 18));
      r := Some(And(y, RAND_MAX));
    }
  }

  // ---- The benchmark's generator, on 64-bit encrypted words ----

  class Genrand {
    const mt: array<nat>
    var mti: nat
    ghost var seed: nat
    ghost var base: nat

    ghost predicate Valid()
      reads this, mt
    {
      mt.Length == 624 && mti <= N + 1 && (mti <= N ==> Shows(mt, 64, seed, base) && base + mti >= 624)
    }

    ghost function Calls(): nat
      requires Valid() && mti <= N
      reads this, mt
    {
      base + mti - 624
    }

    constructor ()
      ensures Valid() && mti == N + 1 && fresh(mt)
    {
      mt := new nat[624];
      mti, seed, base := N + 1, 0, 0;
    }

    method Sgenrand(s: nat)
      requires Valid() && s < 0x1_0000_0000_0000_0000
      modifies this, mt
      ensures Valid() && mti == N && seed == s && Calls() == 0
    {
      Fill(mt, 64, s);
      mti := N;
      seed, base := s, 0;
    }

    method Next() returns (r: Option<nat>)
      requires Valid()
      modifies this, mt
      ensures Valid() && seed == old(seed)
      ensures old(mti) == N + 1 ==> r == None && mti == old(mti)
      ensures old(mti) <= N ==> mti <= N && Calls() == old(Calls()) + 1
      ensures old(mti) <= N ==> r == Some(Temper(64, Word(64, seed, 624 + old(Calls()))))
      ensures old(mti) <= N ==> IsNumber(seed % 0x1_0000_0000, 624 + old(Calls()), r.value)
    {
      hide Word, And, Or, Xor, Shr, Shl, Low, IsNumber;
      if mti >= N {
        if mti == N + 1 {
          return None;
        }
        Refresh(mt, 64, seed, base);
        mti := 0;
        base := base + 624;
      }
      BenchmarkNumber(seed, base + mti);
      var y := mt[mti];
      mti := mti + 1;
      y := Xor(y, Shr(y, 11));
      y := Xor(y, And(Low(Shl(y, 7), 64), TEMPERING_MASK_B));
      y := Xor(y, And(Low(Shl(y, 15), 64), TEMPERING_MASK_C));
      y := Xor(y, Shr(y, 18));
      r := Some(y);
    }
  }

  // Seeded alike, in the low 32 bits, and drawn from equally often, the two give the same number.
  method DrawBoth(lib: LibminRand, gen: Genrand) returns (a: nat, b: nat)
    requires lib.Valid() && gen.Valid() && lib.mt != gen.mt && lib.mtInitialized && gen.mti <= N
    requires Low(gen.seed, 32) == lib.seed && gen.Calls() == lib.Calls()
    modifies lib, lib.mt, gen, gen.mt
    ensures lib.Valid() && gen.Valid() && lib.mtInitialized && gen.mti <= N && gen.Calls() == lib.Calls()
    ensures gen.seed == old(gen.seed) && lib.seed == old(lib.seed)
    ensures a == And(b, RAND_MAX)
  {
    hide Word, And, Temper, Low, Shows;
    GeneratorsAgree(gen.seed, lib.seed, 624 + lib.Calls());
    var x := lib.Rand();
    var y := gen.Next();
    a, b := x.value, y.value;
  }
}
