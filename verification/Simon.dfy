/**
 The SIMON block cipher: key schedule for all ten configurations, and the Feistel network that
 works in place on a pair of words, for word sizes 16, 32 and 64.

 Words are held in 64 bits and masked to the word size, as C's conversions do.
 */
module Simon {

  type Word = bv64

  // As many low bits as the word size says.
  function Mask(w: bv8): Word {
    if w < 64 then 0xffff_ffff_ffff_ffff >> (64 - w) else 0xffff_ffff_ffff_ffff
  }

  function Xor(a: Word, b: Word): Word { a ^ b }

  function Masked(a: Word, mask: Word): Word { a & mask }

  // Four words xored, and the bits outside the mask dropped.
  function Combine(a: Word, b: Word, c: Word, d: Word, mask: Word): Word { Masked(Xor(Xor(Xor(a, b), c), d), mask) }

  predicate FitsMask(x: Word, mask: Word) { x & mask == x }

  lemma CombineFits(a: Word, b: Word, c: Word, d: Word, mask: Word)
    ensures FitsMask(Combine(a, b, c, d, mask), mask)
  {
  }

  lemma XorIs(a: Word, b: Word)
    ensures Xor(a, b) == a ^ b
  {
  }

  lemma AssociatesInSteps(a: Word, b: Word, c: Word, x: Word, y: Word)
    requires x == a ^ b && y == b ^ c
    ensures x ^ c == a ^ y
  {
  }

  lemma XorAssociates(a: Word, b: Word, c: Word)
    ensures Xor(Xor(a, b), c) == Xor(a, Xor(b, c))
  {
    hide Xor;
    var x, y := Xor(a, b), Xor(b, c);
    XorIs(a, b); XorIs(b, c); XorIs(x, c); XorIs(a, y);
    AssociatesInSteps(a, b, c, x, y);
  }

  lemma XorCommutes(a: Word, b: Word)
    ensures Xor(a, b) == Xor(b, a)
  {
  }

  // The second of four words can be xored last.
  lemma XorReordered(f: Word, y: Word, t: Word, k: Word)
    ensures Xor(Xor(Xor(f, y), t), k) == Xor(Xor(Xor(f, t), k), y)
  {
    hide Xor;
    XorAssociates(f, y, t);
    XorCommutes(y, t);
    XorAssociates(f, t, y);
    XorAssociates(Xor(f, t), y, k);
    XorCommutes(y, k);
    XorAssociates(Xor(f, t), k, y);
  }

  lemma MaskedTwice(f: Word, y: Word, mask: Word)
    requires FitsMask(y, mask)
    ensures Masked(Xor(f, Masked(Xor(f, y), mask)), mask) == y
  {
  }

  lemma CombineTwice(f: Word, y: Word, t: Word, k: Word, mask: Word)
    requires FitsMask(y, mask)
    ensures Combine(f, Combine(f, y, t, k, mask), t, k, mask) == y
  {
    hide Xor, Masked, FitsMask;
    XorReordered(f, y, t, k);
    XorReordered(f, Combine(f, y, t, k, mask), t, k);
    MaskedTwice(Xor(Xor(f, t), k), y, mask);
  }

  lemma XorFits(x: Word, y: Word, mask: Word)
    requires FitsMask(x, mask) && FitsMask(y, mask)
    ensures FitsMask(Xor(x, y), mask)
  {
  }

  predicate IsWordSize(w: bv8) { w == 16 || w == 24 || w == 32 || w == 48 || w == 64 }

  predicate Fits(x: Word, w: bv8) {
    FitsMask(x, Mask(w))
  }

  // ---- Shifts ----

  function ShiftOne(x: Word, w: bv8): Word requires IsWordSize(w) { (x << 1) | (x >> (w - 1)) }
  function ShiftEight(x: Word, w: bv8): Word requires IsWordSize(w) { (x << 8) | (x >> (w - 8)) }
  function ShiftTwo(x: Word, w: bv8): Word requires IsWordSize(w) { (x << 2) | (x >> (w - 2)) }
  function RShiftThree(x: Word, w: bv8): Word requires IsWordSize(w) { (x >> 3) | ((x & 0x7) << (w - 3)) }
  function RShiftOne(x: Word, w: bv8): Word requires IsWordSize(w) { (x >> 1) | ((x & 0x1) << (w - 1)) }

  // Rotation to the left by one place, S in the paper (ePrint 2013/404, section 3).
  function S(x: Word, w: bv8): Word requires IsWordSize(w) { ShiftOne(x, w) & Mask(w) }

  // S on the numbers that the words are: twice the number modulo 2^w, and its highest bit.
  lemma RotationDoubles(x: Word, w: bv8)
    requires IsWordSize(w) && Fits(x, w)
    ensures w == 16 ==> S(x, w) == (2 * x) % 0x1_0000 + x / 0x8000
    ensures w == 24 ==> S(x, w) == (2 * x) % 0x100_0000 + x / 0x80_0000
    ensures w == 32 ==> S(x, w) == (2 * x) % 0x1_0000_0000 + x / 0x8000_0000
    ensures w == 48 ==> S(x, w) == (2 * x) % 0x1_0000_0000_0000 + x / 0x8000_0000_0000
    ensures w == 64 ==> S(x, w) == 2 * x + x / 0x8000_0000_0000_0000
    ensures w < 64 ==> x < 1 << w
  {
    hide S, Fits;
    FitsBelow(x, w);
    if w == 16 { Doubles16(x); } else if w == 24 { Doubles24(x); } else if w == 32 { Doubles32(x); }
    else if w == 48 { Doubles48(x); } else { Doubles64(x); }
  }

  lemma FitsBelow(x: Word, w: bv8)
    requires IsWordSize(w) && Fits(x, w)
    ensures w < 64 ==> x < 1 << w
    ensures w == 16 ==> x < 0x1_0000
    ensures w == 24 ==> x < 0x100_0000
    ensures w == 32 ==> x < 0x1_0000_0000
    ensures w == 48 ==> x < 0x1_0000_0000_0000
  {
  }

  lemma Doubles16(x: Word)
    requires x < 0x1_0000
    ensures S(x, 16) == (2 * x) % 0x1_0000 + x / 0x8000
  {
  }

  lemma Doubles24(x: Word)
    requires x < 0x100_0000
    ensures S(x, 24) == (2 * x) % 0x100_0000 + x / 0x80_0000
  {
  }

  lemma Doubles32(x: Word)
    requires x < 0x1_0000_0000
    ensures S(x, 32) == (2 * x) % 0x1_0000_0000 + x / 0x8000_0000
  {
  }

  lemma Doubles48(x: Word)
    requires x < 0x1_0000_0000_0000
    ensures S(x, 48) == (2 * x) % 0x1_0000_0000_0000 + x / 0x8000_0000_0000
  {
  }

  // At 64 bits the product wraps by itself.
  lemma Doubles64(x: Word)
    ensures S(x, 64) == 2 * x + x / 0x8000_0000_0000_0000
  {
  }

  function RotateTwo(x: Word, w: bv8): Word requires IsWordSize(w) { ShiftTwo(x, w) & Mask(w) }
  function RotateFour(x: Word, w: bv8): Word requires IsWordSize(w) { ((x << 4) | (x >> (w - 4))) & Mask(w) }
  function RotateEight(x: Word, w: bv8): Word requires IsWordSize(w) { ShiftEight(x, w) & Mask(w) }

  lemma TwoOnes(x: Word, w: bv8)
    requires IsWordSize(w) && Fits(x, w)
    ensures S(S(x, w), w) == RotateTwo(x, w) && Fits(RotateTwo(x, w), w)
  {
  }

  lemma TwoTwos(x: Word, w: bv8)
    requires IsWordSize(w) && Fits(x, w)
    ensures RotateTwo(RotateTwo(x, w), w) == RotateFour(x, w) && Fits(RotateFour(x, w), w)
  {
  }

  lemma TwoFours(x: Word, w: bv8)
    requires IsWordSize(w) && Fits(x, w)
    ensures RotateFour(RotateFour(x, w), w) == RotateEight(x, w)
  {
    if w == 16 {
    } else if w == 24 {
    } else if w == 32 {
    } else if w == 48 {
    } else {
    }
  }

  // The left shifts of the cipher, once masked, are rotations by two and eight places.
  lemma LeftShiftsRotate(x: Word, w: bv8)
    requires IsWordSize(w) && Fits(x, w)
    ensures RotateTwo(x, w) == S(S(x, w), w)
    ensures RotateEight(x, w) == S(S(S(S(S(S(S(S(x, w), w), w), w), w), w), w), w)
  {
    hide IsWordSize, S, Fits, RotateTwo, RotateFour, RotateEight;
    var two, four := RotateTwo(x, w), RotateFour(x, w);
    TwoOnes(x, w);
    TwoOnes(two, w);
    TwoTwos(x, w);
    TwoOnes(four, w);
    TwoOnes(RotateTwo(four, w), w);
    TwoTwos(four, w);
    TwoFours(x, w);
  }

  lemma RShiftOneUndoesRotation(x: Word, w: bv8)
    requires IsWordSize(w) && Fits(x, w)
    ensures Fits(RShiftOne(x, w), w) && S(RShiftOne(x, w), w) == x
  {
  }

  lemma RShiftThreeFits(x: Word, w: bv8)
    requires IsWordSize(w) && Fits(x, w)
    ensures Fits(RShiftThree(x, w), w)
    ensures RShiftThree(x, w) == RShiftOne(RShiftOne(RShiftOne(x, w), w), w)
  {
  }

  // The right shifts undo one and three rotations to the left.
  lemma RightShiftsUndoRotation(x: Word, w: bv8)
    requires IsWordSize(w) && Fits(x, w)
    ensures Fits(RShiftOne(x, w), w) && S(RShiftOne(x, w), w) == x
    ensures Fits(RShiftThree(x, w), w) && S(S(S(RShiftThree(x, w), w), w), w) == x
  {
    hide Fits, S, RShiftOne, RShiftThree, IsWordSize;
    var x1 := RShiftOne(x, w);
    var x2 := RShiftOne(x1, w);
    RShiftOneUndoesRotation(x, w);
    RShiftOneUndoesRotation(x1, w);
    RShiftOneUndoesRotation(x2, w);
    RShiftThreeFits(x, w);
  }

  // ---- Key schedule ----

  const BLOCK_SIZES: seq<bv8> := [32, 48, 48, 64, 64, 96, 96, 128, 128, 128]
  const KEY_SIZES: seq<nat> := [64, 72, 96, 96, 128, 96, 144, 128, 192, 256]
  const SIMON_ROUNDS: seq<nat> := [32, 36, 36, 42, 44, 52, 54, 68, 69, 72]
  const Z_ASSIGN: seq<nat> := [0, 0, 1, 2, 3, 2, 3, 2, 3, 4]
  const Z_ARRAYS: seq<Word> := [
    0x19c3_522f_b386_a45f,
    0x1686_4fb8_ad0c_9f71,
    0x3369_f885_192c_0ef5,
    0x3c2c_e512_07a6_35db,
    0x3dc9_4c3a_046d_678b]

  function WordSize(cfg: nat): (w: bv8)
    requires cfg <= 9
    ensures IsWordSize(w)
  {
    BLOCK_SIZES[cfg] >> 1
  }

  function KeyWords(cfg: nat): (m: nat)
    requires cfg <= 9
    ensures 2 <= m <= 4
  {
    KEY_SIZES[cfg] / (BLOCK_SIZES[cfg] >> 1) as nat
  }

  function RoundCount(cfg: nat): (r: nat)
    requires cfg <= 9
    ensures 32 <= r <= 72
  {
    SIMON_ROUNDS[cfg]
  }

  // The round constant of step i: all ones but the two lowest bits, and a bit of the z sequence.
  function RoundConstant(cfg: nat, i: nat): Word
    requires cfg <= 9
  {
    0xffff_ffff_ffff_fffc ^ ZBit(Z_ARRAYS[Z_ASSIGN[cfg]], i % 62)
  }

  // Bit n of a word: (z >> n) & 1.
  function ZBit(z: Word, n: nat): (b: Word)
    ensures b == 0 || b == 1
  {
    if n == 0 then z & 1 else ZBit(z >> 1, n - 1)
  }

  // Block size, key size, z sequence and rounds of the ten configurations (table 3.1 of the paper).
  lemma Configurations()
    ensures forall cfg :: 0 <= cfg <= 9 ==> RoundCount(cfg) == [32, 36, 36, 42, 44, 52, 54, 68, 69, 72][cfg]
    ensures forall cfg :: 0 <= cfg <= 9 ==> KeyWords(cfg) == [4, 3, 4, 3, 4, 2, 3, 2, 3, 4][cfg]
    ensures forall cfg :: 0 <= cfg <= 9 ==> Z_ASSIGN[cfg] == [0, 0, 1, 2, 3, 2, 3, 2, 3, 4][cfg]
    ensures WordSize(0) == 16 && WordSize(1) == WordSize(2) == 24 && WordSize(3) == WordSize(4) == 32
    ensures WordSize(5) == WordSize(6) == 48 && WordSize(7) == WordSize(8) == WordSize(9) == 64
  {
  }

  // The round constant is 2^n - 4 with a bit of the z sequence added.
  lemma RoundConstantIs(cfg: nat, i: nat)
    requires cfg <= 9
    ensures RoundConstant(cfg, i) == 0xffff_ffff_ffff_fffc + ZBit(Z_ARRAYS[Z_ASSIGN[cfg]], i % 62)
  {
    LowBitAdded(ZBit(Z_ARRAYS[Z_ASSIGN[cfg]], i % 62));
    hide ZBit;
  }

  lemma LowBitAdded(b: Word)
    requires b == 0 || b == 1
    ensures 0xffff_ffff_ffff_fffc ^ b == 0xffff_ffff_ffff_fffc + b
  {
  }

  // ---- The z sequences ----

  // Shift registers of five bits: the next bit is the sum of some of the last five.
  datatype Register = U | V | W

  function Tapped(r: Register, a: Word, b: Word, c: Word, d: Word, e: Word): Word {
    match r
    case U => a ^ b ^ c ^ e
    case V => a ^ b ^ c ^ d
    case W => a ^ c
  }

  // Sequence j as a register and its first five bits; from the third on, 0101... has been added.
  const ALTERNATING: Word := 0xaaaa_aaaa_aaaa_aaaa
  const REGISTERS: seq<Register> := [U, V, U, V, W]
  const FIRST_BITS: seq<Word> := [0x1f, 0x11, 0x1f, 0x11, 0x01]

  function Unmixed(j: nat): Word
    requires j < 5
  {
    if j < 2 then Z_ARRAYS[j] else Z_ARRAYS[j] ^ ALTERNATING
  }

  predicate Follows(z: Word, r: Register, ones: Word) {
    ((z >> 5) ^ Tapped(r, z, z >> 1, z >> 2, z >> 3, z >> 4)) & ones == 0
  }

  lemma FollowsOn(z: Word, r: Register, ones: Word)
    requires Follows(z, r, ones)
    ensures Follows(z >> 1, r, ones >> 1)
  {
    match r
    case U => FollowsOnU(z, ones);
    case V => FollowsOnV(z, ones);
    case W => FollowsOnW(z, ones);
  }

  lemma FollowsOnU(z: Word, ones: Word)
    requires Follows(z, U, ones)
    ensures Follows(z >> 1, U, ones >> 1)
  {
  }

  lemma FollowsOnV(z: Word, ones: Word)
    requires Follows(z, V, ones)
    ensures Follows(z >> 1, V, ones >> 1)
  {
  }

  lemma FollowsOnW(z: Word, ones: Word)
    requires Follows(z, W, ones)
    ensures Follows(z >> 1, W, ones >> 1)
  {
  }

  lemma FirstBits(z: Word)
    ensures ZBit(z, 0) == z & 1 && ZBit(z, 1) == (z >> 1) & 1 && ZBit(z, 2) == (z >> 2) & 1
    ensures ZBit(z, 3) == (z >> 3) & 1 && ZBit(z, 4) == (z >> 4) & 1 && ZBit(z, 5) == (z >> 5) & 1
  {
    assert ZBit(z, 1) == ZBit(z >> 1, 0);
    assert ZBit(z, 2) == ZBit((z >> 1) >> 1, 0);
    assert ZBit(z, 3) == ZBit(((z >> 1) >> 1) >> 1, 0);
    assert ZBit(z, 4) == ZBit((((z >> 1) >> 1) >> 1) >> 1, 0);
    assert ZBit(z, 5) == ZBit(((((z >> 1) >> 1) >> 1) >> 1) >> 1, 0);
  }

  lemma FollowsFirst(z: Word, r: Register, ones: Word)
    requires Follows(z, r, ones) && ones & 1 == 1
    ensures ZBit(z, 5) == Tapped(r, ZBit(z, 0), ZBit(z, 1), ZBit(z, 2), ZBit(z, 3), ZBit(z, 4))
  {
    FirstBits(z);
  }

  ghost predicate HasOnes(o: Word, k: nat) { k == 0 || (o & 1 == 1 && HasOnes(o >> 1, k - 1)) }

  lemma OneMore(o: Word, k: nat)
    requires o & 1 == 1 && HasOnes(o >> 1, k)
    ensures HasOnes(o, k + 1)
  {
  }

  lemma FourOdd(o: Word, p: Word, q: Word, r: Word)
    requires o & 0xf == 0xf && p == o >> 1 && q == p >> 1 && r == q >> 1
    ensures o & 1 == 1 && p & 1 == 1 && q & 1 == 1 && r & 1 == 1 && r >> 1 == o >> 4
  {
  }

  lemma MoreOnes(o: Word, k: nat)
    requires o & 0xf == 0xf && HasOnes(o >> 4, k)
    ensures HasOnes(o, k + 4)
  {
    hide HasOnes;
    var p := o >> 1;
    var q := p >> 1;
    var r := q >> 1;
    FourOdd(o, p, q, r);
    OneMore(r, k); OneMore(q, k + 1); OneMore(p, k + 2); OneMore(o, k + 3);
  }

  lemma AllOnes()
    ensures HasOnes(0x1ff_ffff_ffff_ffff, 57)
  {
    assert HasOnes(1, 1) by { assert HasOnes(0, 0); }
    hide HasOnes;
    MoreOnes(0x1f, 1); MoreOnes(0x1ff, 5); MoreOnes(0x1fff, 9); MoreOnes(0x1_ffff, 13); MoreOnes(0x1f_ffff, 17);
    MoreOnes(0x1ff_ffff, 21); MoreOnes(0x1fff_ffff, 25); MoreOnes(0x1_ffff_ffff, 29); MoreOnes(0x1f_ffff_ffff, 33);
    MoreOnes(0x1ff_ffff_ffff, 37); MoreOnes(0x1fff_ffff_ffff, 41); MoreOnes(0x1_ffff_ffff_ffff, 45);
    MoreOnes(0x1f_ffff_ffff_ffff, 49); MoreOnes(0x1ff_ffff_ffff_ffff, 53);
  }

  lemma {:induction false} RegisterAt(z: Word, r: Register, ones: Word, k: nat, n: nat)
    requires Follows(z, r, ones) && HasOnes(ones, k) && n < k
    ensures ZBit(z, n + 5) == Tapped(r, ZBit(z, n), ZBit(z, n + 1), ZBit(z, n + 2), ZBit(z, n + 3), ZBit(z, n + 4))
  {
    hide Follows, Tapped;
    if n == 0 {
      FollowsFirst(z, r, ones);
    } else {
      FollowsOn(z, r, ones);
      RegisterAt(z >> 1, r, ones >> 1, k - 1, n - 1);
    }
  }

  lemma SequencesFollow(j: nat)
    requires j < 5
    ensures Follows(Unmixed(j), REGISTERS[j], 0x1ff_ffff_ffff_ffff) && Unmixed(j) & 0x1f == FIRST_BITS[j]
  {
    if j == 0 { assert Unmixed(0) == 0x19c3_522f_b386_a45f; }
    else if j == 1 { assert Unmixed(1) == 0x1686_4fb8_ad0c_9f71; }
    else if j == 2 { assert Unmixed(2) == 0x99c3_522f_b386_a45f; }
    else if j == 3 { assert Unmixed(3) == 0x9686_4fb8_ad0c_9f71; }
    else { assert Unmixed(4) == 0x9763_e690_aec7_cd21; }
  }

  // The 62 bits of each z sequence are those of its register.
  lemma ZSequences(j: nat, n: nat)
    requires j < 5 && n < 57
    ensures var z := Unmixed(j);
            && z & 0x1f == FIRST_BITS[j]
            && ZBit(z, n + 5) ==
                 Tapped(REGISTERS[j], ZBit(z, n), ZBit(z, n + 1), ZBit(z, n + 2), ZBit(z, n + 3), ZBit(z, n + 4))
  {
    hide Follows, Tapped, ZBit, HasOnes, Unmixed;
    SequencesFollow(j);
    AllOnes();
    RegisterAt(Unmixed(j), REGISTERS[j], 0x1ff_ffff_ffff_ffff, 57, n);
  }

  // The last word rotated, and for four key words the second one xored in.
  function Rotated(cfg: nat, second: Word, last: Word): Word
    requires cfg <= 9
  {
    var r := RShiftThree(last, WordSize(cfg));
    if KeyWords(cfg) == 4 then Xor(r, second) else r
  }

  // The next key word from words i, i + 1 and i + m - 1.
  function NextKey(cfg: nat, i: nat, first: Word, second: Word, last: Word): Word
    requires cfg <= 9
  {
    var t := Rotated(cfg, second, last);
    Combine(t, first, RShiftOne(t, WordSize(cfg)), RoundConstant(cfg, i), Mask(WordSize(cfg)))
  }

  ghost function KeyWord(cfg: nat, key: seq<Word>, n: nat): Word
    requires cfg <= 9 && |key| == KeyWords(cfg)
  {
    var m := KeyWords(cfg);
    if n < m then key[n]
    else NextKey(cfg, n - m, KeyWord(cfg, key, n - m), KeyWord(cfg, key, n - m + 1), KeyWord(cfg, key, n - 1))
  }

  lemma KeyWordStarts(cfg: nat, key: seq<Word>, n: nat)
    requires cfg <= 9 && |key| == KeyWords(cfg) && n < |key|
    ensures KeyWord(cfg, key, n) == key[n]
  {
  }

  lemma KeyWordFits(cfg: nat, key: seq<Word>, n: nat)
    requires cfg <= 9 && |key| == KeyWords(cfg) && forall i :: 0 <= i < |key| ==> Fits(key[i], WordSize(cfg))
    ensures Fits(KeyWord(cfg, key, n), WordSize(cfg))
  {
    hide Combine, FitsMask, RShiftOne, Rotated, RoundConstant, WordSize, KeyWords, Mask;
    var w, m := WordSize(cfg), KeyWords(cfg);
    if n >= m {
      var t := Rotated(cfg, KeyWord(cfg, key, n - m + 1), KeyWord(cfg, key, n - 1));
      CombineFits(t, KeyWord(cfg, key, n - m), RShiftOne(t, w), RoundConstant(cfg, n - m), Mask(w));
    }
  }

  lemma PaperForm(t: Word, first: Word, u: Word, c: Word, mask: Word)
    requires FitsMask(t, mask) && FitsMask(first, mask) && FitsMask(u, mask)
    ensures Combine(t, first, u, c, mask) == Xor(Xor(Masked(c, mask), first), Xor(t, u))
  {
    hide Xor, Masked, FitsMask;
    var r := Masked(c, mask);
    XorFits(t, first, mask);
    XorFits(Xor(t, first), u, mask);
    MaskedSum(Xor(Xor(t, first), u), c, mask);
    XorAssociates(t, first, u);
    XorCommutes(first, u);
    XorAssociates(t, u, first);
    XorCommutes(Xor(t, u), first);
    XorAssociates(r, first, Xor(t, u));
  }

  lemma MaskedSum(x: Word, c: Word, mask: Word)
    requires FitsMask(x, mask)
    ensures Masked(Xor(x, c), mask) == Xor(Masked(c, mask), x)
  {
  }

  // The recurrence of section 3 of ePrint 2013/404: with r the word i + m - 1 rotated right by
  // three, t the same (xored with word i + 1 when m is 4) and u the word t rotated right by one,
  // word i + m is the round constant xored with word i, t and u.
  lemma KeyRecurrence(cfg: nat, key: seq<Word>, i: nat) returns (r: Word, t: Word, u: Word)
    requires cfg <= 9 && |key| == KeyWords(cfg) && forall j :: 0 <= j < |key| ==> Fits(key[j], WordSize(cfg))
    ensures var m, w := KeyWords(cfg), WordSize(cfg);
            && S(S(S(r, w), w), w) == KeyWord(cfg, key, i + m - 1)
            && t == (if m == 4 then Xor(r, KeyWord(cfg, key, i + 1)) else r)
            && S(u, w) == t
            && KeyWord(cfg, key, i + m) == Xor(Xor(Masked(RoundConstant(cfg, i), Mask(w)), KeyWord(cfg, key, i)),
              Xor(t, u))
  {
    hide S, RShiftOne, RShiftThree, RoundConstant, WordSize, KeyWords, FitsMask, Combine, Mask, Masked, Xor, IsWordSize,
      KeyWord;
    KeyWordNext(cfg, key, i);
    var m, w := KeyWords(cfg), WordSize(cfg);
    var first, second, last := KeyWord(cfg, key, i), KeyWord(cfg, key, i + 1), KeyWord(cfg, key, i + m - 1);
    KeyWordFits(cfg, key, i);
    KeyWordFits(cfg, key, i + 1);
    KeyWordFits(cfg, key, i + m - 1);
    RightShiftsUndoRotation(last, w);
    r := RShiftThree(last, w);
    XorFits(r, second, Mask(w));
    t := Rotated(cfg, second, last);
    RightShiftsUndoRotation(t, w);
    u := RShiftOne(t, w);
    PaperForm(t, first, u, RoundConstant(cfg, i), Mask(w));
  }

  // The sub keys are the m key words from word i on.
  ghost predicate Window(subKeys: array<Word>, cfg: nat, key: seq<Word>, i: nat)
    requires cfg <= 9 && |key| == KeyWords(cfg)
    reads subKeys
  {
    subKeys.Length == 4 && forall j :: 0 <= j < |key| ==> subKeys[j] == KeyWord(cfg, key, i + j)
  }

  // The schedule of a configuration is the recurrence, for as many words as there are rounds.
  method SimonInit(cfg: nat, key: seq<Word>, schedule: array<Word>) returns (code: nat)
    requires cfg <= 9 ==> |key| == KeyWords(cfg)
    requires schedule.Length >= 72
    modifies schedule
    ensures code == if cfg > 9 then 1 else 0
    ensures cfg <= 9 ==> forall i :: 0 <= i < RoundCount(cfg) ==> schedule[i] == KeyWord(cfg, key, i)
  {
    hide KeyWord, Window, WordSize, KeyWords, RoundCount;
    if cfg > 9 {
      return 1;
    }
    var m := KeyWords(cfg);
    var subKeys := new Word[4];
    for i := 0 to m
      invariant forall j :: 0 <= j < i ==> subKeys[j] == key[j]
    {
      subKeys[i] := key[i];
    }
    WindowStarts(subKeys, cfg, key);
    schedule[0] := subKeys[0];
    for i := 0 to RoundCount(cfg) - 1
      invariant Window(subKeys, cfg, key, i)
      invariant forall j :: 0 <= j <= i ==> schedule[j] == KeyWord(cfg, key, j)
    {
      NextSubKey(cfg, i, subKeys, key);
      WindowFirst(subKeys, cfg, key, i + 1);
      schedule[i + 1] := subKeys[0];
    }
    code := 0;
  }

  lemma WindowStarts(subKeys: array<Word>, cfg: nat, key: seq<Word>)
    requires cfg <= 9 && |key| == KeyWords(cfg) && subKeys.Length == 4
    requires forall j :: 0 <= j < |key| ==> subKeys[j] == key[j]
    ensures Window(subKeys, cfg, key, 0) && subKeys[0] == KeyWord(cfg, key, 0)
  {
    forall j | 0 <= j < |key| ensures subKeys[j] == KeyWord(cfg, key, j) {
      KeyWordStarts(cfg, key, j);
    }
  }

  lemma WindowFirst(subKeys: array<Word>, cfg: nat, key: seq<Word>, i: nat)
    requires cfg <= 9 && |key| == KeyWords(cfg) && Window(subKeys, cfg, key, i)
    ensures subKeys.Length == 4 && subKeys[0] == KeyWord(cfg, key, i)
  {
    hide KeyWord;
  }

  method NextSubKey(cfg: nat, i: nat, subKeys: array<Word>, ghost key: seq<Word>)
    requires cfg <= 9 && |key| == KeyWords(cfg) && Window(subKeys, cfg, key, i)
    modifies subKeys
    ensures Window(subKeys, cfg, key, i + 1)
  {
    hide WordSize, KeyWords, RShiftThree, RShiftOne, RoundConstant, Xor, Combine, Mask, KeyWord;
    var w, m := WordSize(cfg), KeyWords(cfg);
    KeyWordNext(cfg, key, i);
    var tmp1 := RShiftThree(subKeys[m - 1], w);
    if m == 4 {
      tmp1 := Xor(tmp1, subKeys[1]);
    }
    var tmp2 := RShiftOne(tmp1, w);
    tmp1 := Combine(tmp1, subKeys[0], tmp2, RoundConstant(cfg, i), Mask(w));
    ShiftDown(subKeys, m, tmp1);
  }

  // The words move down by one, and the new one becomes the last.
  method ShiftDown(subKeys: array<Word>, m: nat, last: Word)
    requires 2 <= m <= 4 == subKeys.Length
    modifies subKeys
    ensures forall k :: 0 <= k < m ==> subKeys[k] == if k < m - 1 then old(subKeys[k + 1]) else last
  {
    for j := 0 to m - 1
      invariant forall k :: 0 <= k < j ==> subKeys[k] == old(subKeys[k + 1])
      invariant forall k :: j <= k < m ==> subKeys[k] == old(subKeys[k])
    {
      subKeys[j] := subKeys[j + 1];
    }
    subKeys[m - 1] := last;
  }

  lemma KeyWordNext(cfg: nat, key: seq<Word>, i: nat)
    requires cfg <= 9 && |key| == KeyWords(cfg)
    ensures var m := KeyWords(cfg);
            KeyWord(cfg, key, i + m) == NextKey(cfg, i, KeyWord(cfg, key, i), KeyWord(cfg, key, i + 1),
              KeyWord(cfg, key, i + m - 1))
  {
    hide NextKey;
  }

  // ---- The Feistel network ----

  datatype State = State(x: Word, y: Word)

  // The and of the rotations by one and eight.
  function AndShifts(x: Word, w: bv8): Word
    requires IsWordSize(w)
  {
    ShiftOne(x, w) & ShiftEight(x, w)
  }

  // Shift, and, xor; the cross; the round key.
  function Round(s: State, k: Word, w: bv8): State
    requires IsWordSize(w)
  {
    State(Combine(AndShifts(s.x, w), s.y, ShiftTwo(s.x, w), k, Mask(w)), s.x)
  }

  ghost function Rounds(s: State, keys: seq<Word>, w: bv8): State
    requires IsWordSize(w)
  {
    if keys == [] then s else Round(Rounds(s, keys[..|keys| - 1], w), keys[|keys| - 1], w)
  }

  // The same rounds with the keys from the last to the first.
  ghost function RoundsBack(s: State, keys: seq<Word>, w: bv8): State
    requires IsWordSize(w)
    decreases |keys|
  {
    if keys == [] then s else RoundsBack(Round(s, keys[|keys| - 1], w), keys[..|keys| - 1], w)
  }

  // ---- The cipher of the paper ----

  // n rotations.
  function Turn(x: Word, n: nat, w: bv8): Word
    requires IsWordSize(w)
  {
    if n == 0 then x else S(Turn(x, n - 1, w), w)
  }

  // The sum of words modulo 2, bit for bit.
  function Sum(y: Word, a: Word, b: Word, k: Word): Word { y ^ a ^ b ^ k }

  // One round of the paper (ePrint 2013/404, section 3.1) on the left word x and the right word y.
  function PaperRound(x: Word, y: Word, k: Word, w: bv8): (r: (Word, Word))
    requires IsWordSize(w)
  {
    (Sum(y, Turn(x, 1, w) & Turn(x, 8, w), Turn(x, 2, w), k), x)
  }

  // The rounds with all keys, the first key first.
  function PaperRounds(x: Word, y: Word, keys: seq<Word>, w: bv8): (r: (Word, Word))
    requires IsWordSize(w)
    decreases |keys|
  {
    if keys == [] then (x, y)
    else var r := PaperRound(x, y, keys[0], w); PaperRounds(r.0, r.1, keys[1..], w)
  }

  ghost predicate KeysFit(keys: seq<Word>, w: bv8) {
    forall i :: 0 <= i < |keys| ==> Fits(keys[i], w)
  }

  lemma TurnsAreRotations(x: Word, w: bv8)
    requires IsWordSize(w) && Fits(x, w)
    ensures Turn(x, 1, w) == S(x, w) && Turn(x, 2, w) == RotateTwo(x, w) && Turn(x, 8, w) == RotateEight(x, w)
  {
    hide S, RotateTwo, RotateEight, IsWordSize, Fits;
    LeftShiftsRotate(x, w);
    assert Turn(x, 3, w) == S(Turn(x, 2, w), w);
    assert Turn(x, 4, w) == S(Turn(x, 3, w), w);
    assert Turn(x, 5, w) == S(Turn(x, 4, w), w);
    assert Turn(x, 6, w) == S(Turn(x, 5, w), w);
    assert Turn(x, 7, w) == S(Turn(x, 6, w), w);
  }

  lemma AndOfRotations(x: Word, w: bv8)
    requires IsWordSize(w)
    ensures Masked(AndShifts(x, w), Mask(w)) == S(x, w) & RotateEight(x, w)
    ensures Masked(ShiftTwo(x, w), Mask(w)) == RotateTwo(x, w)
  {
    hide ShiftOne, ShiftEight, ShiftTwo, Mask, IsWordSize;
  }

  lemma CombineParts(f: Word, y: Word, t: Word, k: Word, m: Word)
    requires FitsMask(y, m) && FitsMask(k, m)
    ensures Combine(f, y, t, k, m) == Sum(y, Masked(f, m), Masked(t, m), k)
  {
    hide Masked, FitsMask, Xor;
    XorReordered(f, y, t, k);
    XorAssociates(Xor(f, t), k, y);
    XorFits(k, y, m);
    MaskedSum(Xor(k, y), Xor(f, t), m);
    XorCommutes(Xor(k, y), Xor(f, t));
    MaskedOfXor(f, t, m);
    SumIsXor(Masked(f, m), Masked(t, m), k, y);
  }

  lemma MaskedOfXor(a: Word, b: Word, m: Word)
    ensures Masked(Xor(a, b), m) == Xor(Masked(a, m), Masked(b, m))
  {
    hide Xor, Masked;
    var x, y, c := Masked(a, m), Masked(b, m), Xor(a, b);
    XorIs(a, b); XorIs(x, y); MaskedIs(a, m); MaskedIs(b, m); MaskedIs(c, m);
    MaskedInSteps(a, b, m, x, y, c);
  }

  lemma MaskedIs(a: Word, m: Word)
    ensures Masked(a, m) == a & m
  {
  }

  lemma MaskedInSteps(a: Word, b: Word, m: Word, x: Word, y: Word, c: Word)
    requires x == a & m && y == b & m && c == a ^ b
    ensures c & m == x ^ y
  {
  }

  lemma SumOfThree(y: Word, a: Word, b: Word, k: Word, p: Word)
    requires p == y ^ a
    ensures Sum(y, a, b, k) == (p ^ b) ^ k
  {
  }

  lemma SumOfTwo(p: Word, b: Word, k: Word, q: Word)
    requires q == p ^ b
    ensures (p ^ b) ^ k == q ^ k
  {
  }

  lemma SumIs(y: Word, a: Word, b: Word, k: Word)
    ensures Sum(y, a, b, k) == Xor(Xor(Xor(y, a), b), k)
  {
    hide Xor, Sum;
    var p := Xor(y, a);
    var q := Xor(p, b);
    XorIs(y, a); XorIs(p, b); XorIs(q, k);
    SumOfThree(y, a, b, k, p);
    SumOfTwo(p, b, k, q);
  }

  lemma SumIsXor(a: Word, b: Word, k: Word, y: Word)
    ensures Sum(y, a, b, k) == Xor(Xor(a, b), Xor(k, y))
  {
    hide Xor, Sum;
    SumIs(y, a, b, k);
    XorAssociates(y, a, b);
    XorCommutes(y, Xor(a, b));
    XorAssociates(Xor(a, b), y, k);
    XorCommutes(y, k);
  }

  // A round of the program is a round of the paper, for words and keys that fit.
  lemma RoundIsPaperRound(s: State, k: Word, w: bv8)
    requires IsWordSize(w) && StateFits(s, w) && Fits(k, w)
    ensures var r := Round(s, k, w);
            (r.x, r.y) == PaperRound(s.x, s.y, k, w) && StateFits(r, w)
  {
    hide AndShifts, ShiftTwo, Mask, IsWordSize, Turn, S, RotateTwo, RotateEight, Combine, Sum, Masked,
      FitsMask;
    RoundUndone(s, k, w);
    TurnsAreRotations(s.x, w);
    AndOfRotations(s.x, w);
    CombineParts(AndShifts(s.x, w), s.y, ShiftTwo(s.x, w), k, Mask(w));
  }

  lemma {:induction false} PaperRoundsLast(x: Word, y: Word, keys: seq<Word>, w: bv8)
    requires IsWordSize(w) && keys != []
    ensures var r := PaperRounds(x, y, keys[..|keys| - 1], w);
            PaperRounds(x, y, keys, w) == PaperRound(r.0, r.1, keys[|keys| - 1], w)
    decreases |keys|
  {
    hide PaperRound, IsWordSize;
    if |keys| == 1 {
      assert keys[..0] == [] && keys[1..] == [];
    } else {
      var r := PaperRound(x, y, keys[0], w);
      PaperRoundsLast(r.0, r.1, keys[1..], w);
      assert keys[1..][..|keys| - 2] == keys[..|keys| - 1][1..];
    }
  }

  lemma {:induction false} RoundsArePaperRounds(s: State, keys: seq<Word>, w: bv8)
    requires IsWordSize(w) && StateFits(s, w) && KeysFit(keys, w)
    ensures var r := Rounds(s, keys, w);
            (r.x, r.y) == PaperRounds(s.x, s.y, keys, w) && StateFits(r, w)
    decreases |keys|
  {
    hide Round, PaperRound, StateFits, Fits, IsWordSize;
    if keys != [] {
      var init, k := keys[..|keys| - 1], keys[|keys| - 1];
      RoundsArePaperRounds(s, init, w);
      RoundIsPaperRound(Rounds(s, init, w), k, w);
      PaperRoundsLast(s.x, s.y, keys, w);
    }
  }

  function Swap(s: State): State { State(s.y, s.x) }

  ghost predicate StateFits(s: State, w: bv8)
  {
    Fits(s.x, w) && Fits(s.y, w)
  }

  // Ciphertext words: y comes first in memory. Decryption reads them the other way round.
  datatype Block = Block(lo: Word, hi: Word)

  ghost predicate BlockFits(b: Block, w: bv8)
  {
    Fits(b.lo, w) && Fits(b.hi, w)
  }

  ghost function Encrypted(b: Block, keys: seq<Word>, w: bv8): Block
    requires IsWordSize(w)
  {
    var s := Rounds(State(b.hi, b.lo), keys, w);
    Block(s.y, s.x)
  }

  ghost function Decrypted(b: Block, keys: seq<Word>, w: bv8): Block
    requires IsWordSize(w)
  {
    var s := RoundsBack(State(b.lo, b.hi), keys, w);
    Block(s.x, s.y)
  }

  // A round with its key, between swaps, undoes itself.
  lemma RoundUndone(s: State, k: Word, w: bv8)
    requires IsWordSize(w) && StateFits(s, w)
    ensures StateFits(Round(s, k, w), w)
    ensures Round(Swap(Round(s, k, w)), k, w) == Swap(s)
  {
    hide AndShifts, ShiftTwo, Combine, FitsMask, Mask, IsWordSize;
    var f, t := AndShifts(s.x, w), ShiftTwo(s.x, w);
    CombineTwice(f, s.y, t, k, Mask(w));
    CombineFits(f, s.y, t, k, Mask(w));
  }

  lemma {:induction false} RoundsFit(s: State, keys: seq<Word>, w: bv8)
    requires IsWordSize(w) && StateFits(s, w)
    ensures StateFits(Rounds(s, keys, w), w)
  {
    hide Round, StateFits, IsWordSize;
    if keys != [] {
      RoundsFit(s, keys[..|keys| - 1], w);
      RoundUndone(Rounds(s, keys[..|keys| - 1], w), keys[|keys| - 1], w);
    }
  }

  lemma {:induction false} RoundsUndone(s: State, keys: seq<Word>, w: bv8)
    requires IsWordSize(w) && StateFits(s, w)
    ensures RoundsBack(Swap(Rounds(s, keys, w)), keys, w) == Swap(s)
  {
    hide Round, StateFits, IsWordSize;
    if keys != [] {
      var init, k := keys[..|keys| - 1], keys[|keys| - 1];
      RoundsFit(s, init, w);
      RoundUndone(Rounds(s, init, w), k, w);
      RoundsUndone(s, init, w);
    }
  }

  lemma {:induction false} RoundsBackUndone(s: State, keys: seq<Word>, w: bv8)
    requires IsWordSize(w) && StateFits(s, w)
    ensures StateFits(RoundsBack(s, keys, w), w)
    ensures Rounds(Swap(RoundsBack(s, keys, w)), keys, w) == Swap(s)
    decreases |keys|
  {
    hide Round, StateFits, IsWordSize;
    if keys != [] {
      var init, k := keys[..|keys| - 1], keys[|keys| - 1];
      RoundUndone(s, k, w);
      RoundsBackUndone(Round(s, k, w), init, w);
      assert Rounds(Swap(RoundsBack(s, keys, w)), keys, w) == Round(Swap(Round(s, k, w)), k, w);
    }
  }

  // Decryption undoes encryption and encryption undoes decryption, for any keys and word size.
  lemma CipherIsBijective(b: Block, keys: seq<Word>, w: bv8)
    requires IsWordSize(w) && BlockFits(b, w)
    ensures BlockFits(Encrypted(b, keys, w), w) && Decrypted(Encrypted(b, keys, w), keys, w) == b
    ensures BlockFits(Decrypted(b, keys, w), w) && Encrypted(Decrypted(b, keys, w), keys, w) == b
  {
    hide Rounds, RoundsBack, Fits, IsWordSize;
    RoundsFit(State(b.hi, b.lo), keys, w);
    RoundsUndone(State(b.hi, b.lo), keys, w);
    RoundsBackUndone(State(b.lo, b.hi), keys, w);
  }

  // What encryption and decryption compute: the ciphertext of a block is what the paper's rounds make
  // of it, and the plaintext is the block that they make the ciphertext of.
  lemma CipherIsPaper(b: Block, keys: seq<Word>, w: bv8)
    requires IsWordSize(w) && BlockFits(b, w) && KeysFit(keys, w)
    ensures var c := Encrypted(b, keys, w); (c.hi, c.lo) == PaperRounds(b.hi, b.lo, keys, w)
    ensures var p := Decrypted(b, keys, w); PaperRounds(p.hi, p.lo, keys, w) == (b.hi, b.lo)
  {
    hide Rounds, RoundsBack, PaperRounds, Fits, IsWordSize, KeysFit;
    CipherIsBijective(b, keys, w);
    RoundsArePaperRounds(State(b.hi, b.lo), keys, w);
    var p := Decrypted(b, keys, w);
    RoundsArePaperRounds(State(p.hi, p.lo), keys, w);
  }

  lemma PaperIfFits(b: Block, keys: seq<Word>, w: bv8)
    requires IsWordSize(w)
    ensures BlockFits(b, w) && KeysFit(keys, w) ==>
      var c, p := Encrypted(b, keys, w), Decrypted(b, keys, w);
      (c.hi, c.lo) == PaperRounds(b.hi, b.lo, keys, w) && PaperRounds(p.hi, p.lo, keys, w) == (b.hi, b.lo)
  {
    hide *;
    if BlockFits(b, w) && KeysFit(keys, w) {
      CipherIsPaper(b, keys, w);
    }
  }

  // ---- The program ----

  // Works in the output buffer, whose two words are y and x; input and output may be one buffer.
  method Encrypt(rounds: nat, keySchedule: array<Word>, plaintext: array<Word>, ciphertext: array<Word>, w: bv8)
    requires IsWordSize(w) && plaintext.Length == ciphertext.Length == 2 && rounds <= keySchedule.Length
    requires keySchedule != ciphertext
    modifies ciphertext
    ensures Block(ciphertext[0], ciphertext[1]) == Encrypted(old(Block(plaintext[0], plaintext[1])),
      keySchedule[..rounds], w)
    ensures old(Fits(plaintext[0], w) && Fits(plaintext[1], w)) && KeysFit(keySchedule[..rounds], w) ==>
      (ciphertext[1], ciphertext[0]) == PaperRounds(old(plaintext[1]), old(plaintext[0]), keySchedule[..rounds], w)
  {
    hide AndShifts, ShiftTwo, Combine, Mask, IsWordSize, Fits, PaperRounds, KeysFit;
    PaperIfFits(Block(plaintext[0], plaintext[1]), keySchedule[..rounds], w);
    ghost var start := State(plaintext[1], plaintext[0]);
    ghost var keys := keySchedule[..];
    var lo := plaintext[0];
    var hi := plaintext[1];
    ciphertext[0] := lo;
    ciphertext[1] := hi;
    for i := 0 to rounds
      invariant keySchedule[..] == keys
      invariant State(ciphertext[1], ciphertext[0]) == Rounds(start, keys[..i], w)
    {
      assert keys[..i + 1][..i] == keys[..i];
      var x, y := ciphertext[1], ciphertext[0];
      ciphertext[0] := x;
      ciphertext[1] := Combine(AndShifts(x, w), y, ShiftTwo(x, w), keySchedule[i], Mask(w));
    }
  }

  method Decrypt(rounds: nat, keySchedule: array<Word>, ciphertext: array<Word>, plaintext: array<Word>, w: bv8)
    requires IsWordSize(w) && plaintext.Length == ciphertext.Length == 2 && rounds <= keySchedule.Length
    requires keySchedule != plaintext
    modifies plaintext
    ensures Block(plaintext[0], plaintext[1]) == Decrypted(old(Block(ciphertext[0], ciphertext[1])),
      keySchedule[..rounds], w)
    ensures old(Fits(ciphertext[0], w) && Fits(ciphertext[1], w)) && KeysFit(keySchedule[..rounds], w) ==>
      PaperRounds(plaintext[1], plaintext[0], keySchedule[..rounds], w) == old((ciphertext[1], ciphertext[0]))
  {
    hide AndShifts, ShiftTwo, Combine, Mask, IsWordSize, Fits, PaperRounds, KeysFit;
    PaperIfFits(Block(ciphertext[0], ciphertext[1]), keySchedule[..rounds], w);
    ghost var start := State(ciphertext[0], ciphertext[1]);
    ghost var keys := keySchedule[..];
    assert keys[..rounds] == keySchedule[..rounds];
    var lo := ciphertext[0];
    var hi := ciphertext[1];
    plaintext[0] := lo;
    plaintext[1] := hi;
    var i := rounds;
    while i > 0
      invariant i <= rounds && keySchedule[..] == keys
      invariant RoundsBack(State(plaintext[0], plaintext[1]), keys[..i], w) == RoundsBack(start, keys[..rounds], w)
    {
      i := i - 1;
      assert keys[..i + 1][..i] == keys[..i];
      var x, y := plaintext[0], plaintext[1];
      plaintext[1] := x;
      plaintext[0] := Combine(AndShifts(x, w), y, ShiftTwo(x, w), keySchedule[i], Mask(w));
    }
  }
}
