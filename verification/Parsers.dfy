/**
 The number parsers of the runtime library, and that they undo the printer.
 */
module Parsers {
  import opened Bits
  import opened Common
  import opened Digits
  import opened Printf

  // ---- Characters ----

  predicate IsSpace(c: char) { 9 <= c as int <= 13 || c == ' ' }

  function ToLower(c: char): char { if 'A' <= c <= 'Z' then (c as int + 32) as char else c }

  // The digit characters in the order the library has them: 'x' stands before 'w'.
  const DIGITS: string := "0123456789abcdefghijklmnopqrstuvxwyz"

  function Position(t: string, c: char, i: nat): (r: int)
    requires i <= |t|
    ensures r == -1 ==> forall j :: i <= j < |t| ==> t[j] != c
    ensures r != -1 ==> i <= r < |t| && t[r] == c && forall j :: i <= j < r ==> t[j] != c
    decreases |t| - i
  {
    if i == |t| then -1 else if t[i] == c then i else Position(t, c, i + 1)
  }

  // The value of a digit character, -1 for the others.
  function TableDigit(c: char): int { Position(DIGITS, ToLower(c), 0) }

  lemma LowDigits(d: nat)
    requires d < 16
    ensures DIGITS[d] == DigitChar(d, false)
  {
  }

  lemma TableOfDigitChar(d: nat)
    requires d < 16
    ensures TableDigit(DigitChar(d, false)) == d
  {
    LowDigits(d);
    var c := DigitChar(d, false);
    assert ToLower(c) == c;
    var r := TableDigit(c);
    if r < d {
      LowDigits(r);
    }
  }

  // Values below ten are those of the decimal digits.
  lemma TableIsDecimal(c: char)
    ensures '0' <= c <= '9' ==> TableDigit(c) == c as int - '0' as int
    ensures 0 <= TableDigit(c) < 10 ==> '0' <= c <= '9'
  {
    if '0' <= c <= '9' {
      TableOfDigitChar(c as int - '0' as int);
      assert DigitChar(c as int - '0' as int, false) == c;
    }
    if 0 <= TableDigit(c) < 10 {
      LowDigits(TableDigit(c));
    }
  }

  // ---- The number a text starts with, the reference ----

  function SkipSpaces(s: string, i: nat): (j: nat)
    requires i <= |s|
    ensures i <= j <= |s|
    decreases |s| - i
  {
    if i < |s| && IsSpace(s[i]) then SkipSpaces(s, i + 1) else i
  }

  function IsSign(c: char): bool { c == '-' || c == '+' }

  function AfterSign(s: string): (j: nat)
    ensures j <= |s|
  {
    var i := SkipSpaces(s, 0);
    if IsSign(At(s, i)) then i + 1 else i
  }

  function Negative(s: string): bool { At(s, SkipSpaces(s, 0)) == '-' }

  function IsX(c: char): bool { c == 'x' || c == 'X' }

  // Base 0 stands for the base that the prefix announces.
  function EffectiveBase(s: string, q: nat, base: int): int {
    if base != 0 then base
    else if At(s, q) == '0' then (if IsX(At(s, q + 1)) then 16 else 8)
    else 10
  }

  function AfterPrefix(s: string, q: nat, base: int): (j: nat)
    requires q <= |s|
    ensures j <= |s|
  {
    if base == 16 && At(s, q) == '0' && IsX(At(s, q + 1)) then q + 2 else q
  }

  predicate IsDigitOf(c: char, base: int) { 0 <= TableDigit(c) < base }

  function RunEnd(s: string, i: nat, base: int): (e: nat)
    requires i <= |s|
    ensures i <= e <= |s|
    ensures forall j :: i <= j < e ==> IsDigitOf(s[j], base)
    ensures e < |s| ==> !IsDigitOf(s[e], base)
    decreases |s| - i
  {
    hide IsDigitOf;
    if i < |s| && IsDigitOf(s[i], base) then RunEnd(s, i + 1, base) else i
  }

  function DigitValue(c: char): nat { if TableDigit(c) < 0 then 0 else TableDigit(c) }

  // The number that the digits of a stretch stand for.
  ghost function RunValue(s: string, i: nat, e: nat, base: int): int
    requires i <= e <= |s|
    decreases e
  {
    hide DigitValue;
    if i == e then 0 else RunValue(s, i, e - 1, base) * base + DigitValue(s[e - 1])
  }

  // Two's complement: what 64 bits keep of a number, read as signed.
  function Wrapped(x: int): (v: int)
    ensures IsLong(v)
  {
    var low := x % 0x1_0000_0000_0000_0000;
    if low < 0x8000_0000_0000_0000 then low else low - 0x1_0000_0000_0000_0000
  }

  ghost function NumberOf(s: string, base: int): (r: (int, nat)) {
    var q := AfterSign(s);
    var b := EffectiveBase(s, q, base);
    var i := AfterPrefix(s, q, b);
    var e := RunEnd(s, i, b);
    var m := RunValue(s, i, e, b);
    (Wrapped(if Negative(s) then 0 - m else m), e)
  }

  // ---- Arithmetic of the accumulators ----

  lemma WrappedShift(x: int) returns (k: int)
    ensures x == Wrapped(x) + 0x1_0000_0000_0000_0000 * k
  {
    k := if x % 0x1_0000_0000_0000_0000 < 0x8000_0000_0000_0000 then x / 0x1_0000_0000_0000_0000
      else x / 0x1_0000_0000_0000_0000 + 1;
  }

  lemma WrappedOfShift(x: int, k: int)
    ensures Wrapped(x + 0x1_0000_0000_0000_0000 * k) == Wrapped(x)
  {
    ModShift(x, 0x1_0000_0000_0000_0000, k);
  }

  // Wrapping at every step or once at the end gives the same number.
  lemma WrappedStep(x: int, b: int, d: int)
    ensures Wrapped(Wrapped(x) * b + d) == Wrapped(x * b + d)
  {
    hide Wrapped;
    var k := WrappedShift(x);
    WrappedOfShift(Wrapped(x) * b + d, k * b);
    assert x * b + d == Wrapped(x) * b + d + 0x1_0000_0000_0000_0000 * (k * b);
  }

  lemma WrappedNegation(x: int)
    ensures Wrapped(0 - Wrapped(x)) == Wrapped(0 - x)
  {
    WrappedStep(x, -1, 0);
  }

  lemma WrappedSmall(x: int)
    requires IsLong(x)
    ensures Wrapped(x) == x
  {
  }

  // ---- The programs ----

  // Skips spaces and a sign; the end of the text reads as NUL.
  method ReadSign(s: string) returns (i: nat, neg: bool)
    ensures i == AfterSign(s) && neg == Negative(s)
  {
    i := 0;
    neg := false;
    while i < |s| && IsSpace(s[i])
      invariant i <= |s| && SkipSpaces(s, 0) == SkipSpaces(s, i)
    {
      i := i + 1;
    }
    match At(s, i)
    case '-' =>
      neg := true;
      i := i + 1;
    case '+' => i := i + 1;
    case _ =>
  }

  // Accumulates the negative number, which 64 bits hold for the least number too.
  method LibminAtol(s: string) returns (r: int)
    ensures r == NumberOf(s, 10).0
    ensures exists n: Numeral, base: int :: n.Text() == s && n.IsFor(10, base)
    ensures forall n: Numeral, base: int :: n.Text() == s && n.IsFor(10, base) ==> Keeps64(r, n.Number(base))
  {
    hide RunEnd, RunValue, Wrapped, TableDigit, SkipSpaces, DigitValue, Numeral.Text, Numeral.IsFor, Numeral.Number,
      Keeps64, NumberOf;
    NumeralsAreRead(s, 10);
    var i, neg := ReadSign(s);
    ghost var q, e := i, RunEnd(s, i, 10);
    var n: int := 0;
    RunStarts(s, i, 10);
    while i < |s| && IsDigit(s[i])
      invariant q <= i <= e && n == Wrapped(0 - RunValue(s, q, i, 10))
    {
      TableIsDecimal(s[i]);
      InRun(s, q, i, 10);
      RunMore(s, q, i, 10);
      n := Wrapped(10 * n - (s[i] as int - '0' as int));
      i := i + 1;
    }
    if i < |s| {
      TableIsDecimal(s[i]);
    }
    RunIsOver(s, q, i, 10);
    WrappedNegation(0 - RunValue(s, q, e, 10));
    r := if neg then n else Wrapped(0 - n);
    AtolIsNumberOf(s, q, e);
  }

  lemma AtolIsNumberOf(s: string, q: nat, e: nat)
    requires q == AfterSign(s) && e == RunEnd(s, q, 10)
    ensures NumberOf(s, 10).0
      == Wrapped(if Negative(s) then 0 - RunValue(s, q, e, 10) else RunValue(s, q, e, 10))
  {
    hide RunEnd, RunValue, Wrapped, AfterSign, Negative;
  }

  lemma RunStarts(s: string, i: nat, base: int)
    requires i <= |s|
    ensures RunValue(s, i, i, base) == 0 && Wrapped(0) == 0
  {
  }

  lemma InRun(s: string, q: nat, i: nat, base: int)
    requires q <= i < |s| && i <= RunEnd(s, q, base) && IsDigitOf(s[i], base)
    ensures i < RunEnd(s, q, base)
  {
  }

  lemma RunIsOver(s: string, q: nat, i: nat, base: int)
    requires q <= |s| && q <= i <= RunEnd(s, q, base) && (i < |s| ==> !IsDigitOf(s[i], base))
    ensures i == RunEnd(s, q, base)
  {
  }

  lemma RunMore(s: string, q: nat, i: nat, base: int)
    requires q <= i < |s| && IsDigitOf(s[i], base)
    ensures RunValue(s, q, i + 1, base) == RunValue(s, q, i, base) * base + TableDigit(s[i])
    ensures Wrapped(Wrapped(0 - RunValue(s, q, i, base)) * base - TableDigit(s[i])) == Wrapped(0 - RunValue(s, q,
      i + 1, base))
    ensures Wrapped(Wrapped(RunValue(s, q, i, base)) * base + TableDigit(s[i])) == Wrapped(RunValue(s, q, i + 1, base))
  {
    hide Wrapped, TableDigit;
    var v, d := RunValue(s, q, i, base), TableDigit(s[i]);
    WrappedStep(0 - v, base, 0 - d);
    WrappedStep(v, base, d);
    assert (0 - v) * base + (0 - d) == 0 - (v * base + d);
  }

  // A shift by one to four places and an or with the digit, as the parser does for these bases.
  function ShiftOr(number: int, m: nat, d: nat): int {
    Wrapped(Or((number * m) % 0x1_0000_0000_0000_0000, d))
  }

  lemma OrFromHalves(x: nat, d: nat)
    requires Or(x, d / 2) == x + d / 2
    ensures Or(2 * x, d) == 2 * x + d
  {
    OrHalves(2 * x, d);
  }

  lemma OrAdds1(k: nat, d: nat)
    requires d < 2
    ensures Or(2 * k, d) == 2 * k + d
  {
    hide Or;
    OrZero(k);
    OrFromHalves(k, d);
  }

  lemma OrAdds2(k: nat, d: nat)
    requires d < 4
    ensures Or(4 * k, d) == 4 * k + d
  {
    hide Or;
    OrAdds1(k, d / 2);
    OrFromHalves(2 * k, d);
  }

  lemma OrAdds3(k: nat, d: nat)
    requires d < 8
    ensures Or(8 * k, d) == 8 * k + d
  {
    hide Or;
    OrAdds2(k, d / 2);
    OrFromHalves(4 * k, d);
  }

  lemma OrAdds4(k: nat, d: nat)
    requires d < 16
    ensures Or(16 * k, d) == 16 * k + d
  {
    hide Or;
    OrAdds3(k, d / 2);
    OrFromHalves(8 * k, d);
  }

  lemma MultipleMod(number: int, m: nat)
    requires m == 2 || m == 4 || m == 8 || m == 16
    ensures ((number * m) % 0x1_0000_0000_0000_0000) % m == 0
  {
    var c := if m == 2 then 0x8000_0000_0000_0000 else if m == 4 then 0x4000_0000_0000_0000
      else if m == 8 then 0x2000_0000_0000_0000 else 0x1000_0000_0000_0000;
    assert c * m == 0x1_0000_0000_0000_0000;
    ModStays(number, m, c, (number * m) / 0x1_0000_0000_0000_0000, (number * m) % 0x1_0000_0000_0000_0000);
  }

  lemma ModStays(number: int, m: nat, c: nat, k: int, r: nat)
    requires m > 0 && number * m == (c * m) * k + r
    ensures r % m == 0
  {
    assert r == 0 + m * (number - c * k);
    ModShift(0, m, number - c * k);
  }

  lemma ShiftOrIsStep(number: int, m: nat, d: nat)
    requires (m == 2 || m == 4 || m == 8 || m == 16) && d < m
    ensures ShiftOr(number, m, d) == Wrapped(number * m + d)
  {
    hide Or;
    var x := (number * m) % 0x1_0000_0000_0000_0000;
    MultipleMod(number, m);
    OrAddsDigit(x, m, d);
    SumMod(number * m, d);
  }

  lemma OrAddsDigit(x: nat, m: nat, d: nat)
    requires (m == 2 || m == 4 || m == 8 || m == 16) && d < m && x % m == 0
    ensures Or(x, d) == x + d
  {
    hide Or;
    if m == 2 {
      OrAdds1(x / 2, d);
    } else if m == 4 {
      OrAdds2(x / 4, d);
    } else if m == 8 {
      OrAdds3(x / 8, d);
    } else {
      OrAdds4(x / 16, d);
    }
  }

  lemma SumMod(y: int, d: nat)
    ensures (y % 0x1_0000_0000_0000_0000 + d) % 0x1_0000_0000_0000_0000 == (y + d) % 0x1_0000_0000_0000_0000
  {
  }

  // Bases 2, 4 and 8 compare the character directly, base 16 looks it up.
  predicate Accepts(c: char, base: nat) {
    if base <= 8 then '0' <= c && c as int < '0' as int + base else IsDigitOf(c, base)
  }

  function AcceptedDigit(c: char, base: nat): (d: nat)
    requires Accepts(c, base)
  {
    if base <= 8 then c as int - '0' as int else TableDigit(c)
  }

  lemma BothAccept(c: char, base: nat)
    requires base <= 8 || base == 16
    ensures Accepts(c, base) <==> IsDigitOf(c, base)
    ensures Accepts(c, base) ==> AcceptedDigit(c, base) == TableDigit(c) < base
  {
    TableIsDecimal(c);
  }

  method ShiftRun(s: string, q: nat, base: nat) returns (number: int, e: nat)
    requires q <= |s| && (base == 2 || base == 4 || base == 8 || base == 16)
    ensures e == RunEnd(s, q, base) && number == Wrapped(RunValue(s, q, e, base))
  {
    hide RunEnd, RunValue, Wrapped, TableDigit, ShiftOr, DigitValue, Accepts, AcceptedDigit;
    e, number := q, 0;
    RunStarts(s, q, base);
    while e < |s| && Accepts(s[e], base)
      invariant q <= e <= RunEnd(s, q, base) && number == Wrapped(RunValue(s, q, e, base))
    {
      BothAccept(s[e], base);
      InRun(s, q, e, base);
      RunMore(s, q, e, base);
      var digit := AcceptedDigit(s[e], base);
      ShiftOrIsStep(number, base, digit);
      number := ShiftOr(number, base, digit);
      e := e + 1;
    }
    if e < |s| {
      BothAccept(s[e], base);
    }
    RunIsOver(s, q, e, base);
  }

  // Accumulates the negative number.
  method MultiplyRun(s: string, q: nat, base: int) returns (number: int, e: nat)
    requires q <= |s|
    ensures e == RunEnd(s, q, base) && number == Wrapped(0 - RunValue(s, q, e, base))
  {
    hide RunEnd, RunValue, Wrapped, TableDigit, DigitValue;
    e, number := q, 0;
    RunStarts(s, q, base);
    while e < |s| && IsDigitOf(s[e], base)
      invariant q <= e <= RunEnd(s, q, base) && number == Wrapped(0 - RunValue(s, q, e, base))
    {
      InRun(s, q, e, base);
      RunMore(s, q, e, base);
      number := Wrapped(number * base - TableDigit(s[e]));
      e := e + 1;
    }
    RunIsOver(s, q, e, base);
  }

  // The base and the place of the first digit.
  method ReadPrefix(s: string, i: nat, radix: int) returns (base: int, q: nat)
    requires i <= |s|
    ensures base == EffectiveBase(s, i, radix) && q == AfterPrefix(s, i, base)
  {
    base := radix;
    if base == 0 {
      if At(s, i) == '0' {
        base := if IsX(At(s, i + 1)) then 16 else 8;
      } else {
        base := 10;
      }
    }
    q := i;
    if base == 16 && At(s, q) == '0' && IsX(At(s, q + 1)) {
      q := q + 2;
    }
  }

  // The number and where it ends, in any base: the guard of the source lets all of them through. Above
  // 36 the digits stay the same; below 0 there are none.
  method LibminStrtol(s: string, radix: int) returns (number: int, end: nat)
    ensures (number, end) == NumberOf(s, radix)
    ensures exists n: Numeral, base: int :: n.Text() == s && n.IsFor(radix, base)
    ensures forall n: Numeral, base: int ::
      n.Text() == s && n.IsFor(radix, base) ==> end == n.End() && Keeps64(number, n.Number(base))
  {
    hide RunEnd, RunValue, Wrapped, SkipSpaces, AfterSign, Negative, EffectiveBase, AfterPrefix, Numeral.Text,
      Numeral.IsFor, Numeral.Number, Numeral.End, Keeps64;
    NumeralsAreRead(s, radix);
    var i, neg := ReadSign(s);
    var base, q := ReadPrefix(s, i, radix);
    ghost var m: int := RunValue(s, q, RunEnd(s, q, base), base);
    WrappedNegation(m);
    WrappedNegation(0 - m);
    if base == 2 || base == 4 || base == 8 || base == 16 {
      number, end := ShiftRun(s, q, base);
      if neg {
        number := Wrapped(0 - number);
      }
    } else {
      number, end := MultiplyRun(s, q, base);
      if neg {
        return;
      }
      number := Wrapped(0 - number);
    }
  }

  // ---- The digit table ----

  // The standard's order of digits: the decimal digits, then the letters.
  function StandardDigit(c: char): int {
    if '0' <= c <= '9' then c as int - '0' as int
    else if 'a' <= c <= 'z' then c as int - 'a' as int + 10
    else if 'A' <= c <= 'Z' then c as int - 'A' as int + 10
    else -1
  }

  lemma MiddleDigits(d: nat)
    requires 16 <= d < 26
    ensures DIGITS[d] == ('a' as int + d - 10) as char
  {
  }

  lemma HighDigits(d: nat)
    requires 26 <= d < 36
    ensures DIGITS[d] == ('a' as int + (if d == 32 then 33 else if d == 33 then 32 else d) - 10) as char
  {
  }

  lemma TableEntry(d: nat)
    requires d < 36
    ensures StandardDigit(DIGITS[d]) == (if d == 32 then 33 else if d == 33 then 32 else d)
      && ToLower(DIGITS[d]) == DIGITS[d]
  {
    if d < 16 {
      LowDigits(d);
    } else if d < 26 {
      MiddleDigits(d);
    } else {
      HighDigits(d);
    }
  }

  lemma TableInverse(c: char, v: nat)
    requires v < 36 && DIGITS[v] == ToLower(c)
    ensures TableDigit(c) == v
  {
    TableEntry(v);
    if TableDigit(c) < v {
      TableEntry(TableDigit(c));
    }
  }

  lemma TableIsStandard(c: char)
    ensures TableDigit(c) == if StandardDigit(c) == 32 then 33 else if StandardDigit(c) == 33 then 32
      else StandardDigit(c)
  {
    var v := StandardDigit(c);
    if v >= 0 {
      var w := if v == 32 then 33 else if v == 33 then 32 else v;
      TableEntry(w);
      TableInverse(c, w);
    } else if TableDigit(c) >= 0 {
      TableEntry(TableDigit(c));
    }
  }

  // The table reads a base as the standard does exactly when the base does not need its 'w' and 'x'.
  lemma BasesReadRight(base: nat)
    requires base <= 36
    ensures (forall c :: IsDigitOf(c, base) ==> TableDigit(c) == StandardDigit(c)) <==> base <= 32
    ensures (forall c :: IsDigitOf(c, base) <==> 0 <= StandardDigit(c) < base) <==> base != 33
  {
    hide TableDigit, StandardDigit;
    forall c ensures TableDigit(c) == if StandardDigit(c) == 32 then 33 else if StandardDigit(c) == 33 then 32
      else StandardDigit(c) {
      TableIsStandard(c);
    }
    LettersWX();
  }

  lemma LettersWX()
    ensures StandardDigit('w') == 32 && StandardDigit('x') == 33
  {
  }

  // ---- Numerals ----

  // The library's digit values: those of the standard, with the letters w and x exchanged.
  function LibraryDigit(c: char): int {
    if c == 'w' || c == 'W' then 33 else if c == 'x' || c == 'X' then 32 else StandardDigit(c)
  }

  predicate DigitIn(c: char, base: int) { 0 <= LibraryDigit(c) < base }

  // The digits that characters stand for.
  function Values(t: string): (ds: seq<nat>)
    ensures |ds| == |t|
  {
    seq(|t|, i requires 0 <= i < |t| => if LibraryDigit(t[i]) < 0 then 0 else LibraryDigit(t[i]))
  }

  const BLANKS: string := " \t\n\U{B}\U{C}\r"

  predicate StartsHex(t: string) { |t| >= 2 && t[0] == '0' && (t[1] == 'x' || t[1] == 'X') }

  // A text in five pieces.
  datatype Numeral = Numeral(spaces: string, sign: string, prefix: string, digits: string, rest: string) {
    function Body(): string { digits + rest }

    function Text(): string { spaces + sign + prefix + Body() }

    function End(): nat { |spaces| + |sign| + |prefix| + |digits| }

    // Blanks and a sign or none; blanks are as many as they can be.
    predicate SignFits() {
      && (forall i :: 0 <= i < |spaces| ==> spaces[i] in BLANKS)
      && (sign == "" || sign == "+" || sign == "-")
      && (sign == "" && prefix == "" && Body() != "" ==> Body()[0] !in BLANKS && Body()[0] != '+' && Body()[0] != '-')
    }

    // For the base asked for, 0 for any, and the base that this comes to.
    predicate PrefixFits(radix: int, base: int) {
      if prefix == "" then
        && ((radix == 0 || radix == 16) ==> !StartsHex(Body()))
        && base == if radix != 0 then radix else if Body() != "" && Body()[0] == '0' then 8 else 10
      else
        (prefix == "0x" || prefix == "0X") && (radix == 0 || radix == 16) && base == 16
    }

    // As many digits as there can be.
    predicate DigitsFit(base: int) {
      (forall i :: 0 <= i < |digits| ==> DigitIn(digits[i], base)) && (rest != "" ==> !DigitIn(rest[0], base))
    }

    predicate IsFor(radix: int, base: int) { SignFits() && PrefixFits(radix, base) && DigitsFit(base) }

    ghost function Magnitude(base: int): nat { ValueOf(Values(digits), if base < 0 then 0 else base) }

    ghost function Number(base: int): int { if sign == "-" then 0 - Magnitude(base) else Magnitude(base) }
  }

  // The 64-bit number that is congruent to a number modulo 2^64.
  predicate Keeps64(r: int, x: int) { IsLong(r) && (r - x) % 0x1_0000_0000_0000_0000 == 0 }

  lemma WrappedKeeps(x: int)
    ensures Keeps64(Wrapped(x), x)
  {
    hide Wrapped;
    var k := WrappedShift(x);
    assert Wrapped(x) - x == 0 + 0x1_0000_0000_0000_0000 * (0 - k);
    ModShift(0, 0x1_0000_0000_0000_0000, 0 - k);
  }

  lemma DigitsAgree(c: char, base: int)
    ensures TableDigit(c) == LibraryDigit(c) && (IsDigitOf(c, base) <==> DigitIn(c, base))
  {
    hide TableDigit;
    TableIsStandard(c);
  }

  lemma SpacesAgree(c: char)
    ensures IsSpace(c) <==> c in BLANKS
  {
    assert BLANKS[0] == ' ' && BLANKS[1] as int == 9 && BLANKS[2] as int == 10 && BLANKS[3] as int == 11;
    assert BLANKS[4] as int == 12 && BLANKS[5] as int == 13;
    if IsSpace(c) && c != ' ' {
      var i := if c as int == 13 then 5 else c as int - 8;
      assert BLANKS[i] as int == c as int;
    }
  }

  lemma {:induction false} SkipAll(s: string, i: nat, j: nat)
    requires i <= j <= |s| && (forall k :: i <= k < j ==> IsSpace(s[k])) && (j < |s| ==> !IsSpace(s[j]))
    ensures SkipSpaces(s, i) == j
    decreases j - i
  {
    hide IsSpace;
    if i < j {
      SkipAll(s, i + 1, j);
    }
  }

  lemma {:induction false} RunAll(s: string, i: nat, j: nat, base: int)
    requires i <= j <= |s| && (forall k :: i <= k < j ==> IsDigitOf(s[k], base))
    requires j < |s| ==> !IsDigitOf(s[j], base)
    ensures RunEnd(s, i, base) == j
    decreases j - i
  {
    hide IsDigitOf;
    if i < j {
      RunAll(s, i + 1, j, base);
    }
  }

  lemma Pieces(n: Numeral)
    ensures var t, a, b, c := n.Text(), |n.spaces|, |n.spaces| + |n.sign|, |n.spaces| + |n.sign| + |n.prefix|;
            && |t| == c + |n.Body()| && n.End() == c + |n.digits| <= |t|
            && t[..a] == n.spaces && t[a..b] == n.sign && t[b..c] == n.prefix && t[c..] == n.Body()
  {
  }

  lemma CharsOfText(n: Numeral)
    ensures var t, a, b, c := n.Text(), |n.spaces|, |n.spaces| + |n.sign|, |n.spaces| + |n.sign| + |n.prefix|;
            && (forall i {:trigger t[i]} :: 0 <= i < a ==> t[i] == n.spaces[i])
            && (n.sign != "" ==> t[a] == n.sign[0])
            && (|n.prefix| == 2 ==> t[b] == n.prefix[0] && t[b + 1] == n.prefix[1])
            && (forall i {:trigger t[i]} :: c <= i < |t| ==> t[i] == n.Body()[i - c])
            && |t| == c + |n.Body()|
  {
    hide Numeral.Body;
  }

  lemma SignOf(n: Numeral, radix: int, base: int)
    requires n.IsFor(radix, base)
    ensures AfterSign(n.Text()) == |n.spaces| + |n.sign| && (Negative(n.Text()) <==> n.sign == "-")
  {
    hide Numeral.Text, Numeral.Body, IsSpace, DigitIn, StartsHex;
    var t, a := n.Text(), |n.spaces|;
    CharsOfText(n);
    forall i | 0 <= i < |t| ensures IsSpace(t[i]) <==> t[i] in BLANKS {
      SpacesAgree(t[i]);
    }
    BlanksAreNoMarks();
    SkipAll(t, 0, a);
  }

  lemma BlanksAreNoMarks()
    ensures '+' !in BLANKS && '-' !in BLANKS && '0' !in BLANKS
  {
  }

  lemma PrefixOf(n: Numeral, radix: int, base: int)
    requires n.IsFor(radix, base)
    ensures var q := |n.spaces| + |n.sign|;
            && EffectiveBase(n.Text(), q, radix) == base && q <= |n.Text()|
            && AfterPrefix(n.Text(), q, base) == q + |n.prefix|
  {
    hide Numeral.Text, Numeral.Body, DigitIn;
    CharsOfText(n);
  }

  lemma DigitsOf(n: Numeral, radix: int, base: int)
    requires n.IsFor(radix, base)
    ensures var t, i := n.Text(), |n.spaces| + |n.sign| + |n.prefix|;
            && i <= n.End() <= |t| && RunEnd(t, i, base) == n.End()
            && RunValue(t, i, n.End(), base) == n.Magnitude(base)
  {
    hide Numeral.Text, DigitIn, IsDigitOf, RunEnd, RunValue, Numeral.Magnitude;
    var t, i := n.Text(), |n.spaces| + |n.sign| + |n.prefix|;
    CharsOfText(n);
    forall j | 0 <= j < |t| ensures IsDigitOf(t[j], base) <==> DigitIn(t[j], base) {
      DigitsAgree(t[j], base);
    }
    RunAll(t, i, n.End(), base);
    if n.digits != "" {
      DigitsNeedABase(n, radix, base);
    }
    MagnitudeIsValue(n, base);
    ValueOfRun(t, i, n.digits, |n.digits|, base);
  }

  lemma MagnitudeIsValue(n: Numeral, base: int)
    ensures n.Magnitude(base) == ValueOf(Values(n.digits)[..|n.digits|], if base < 0 then 0 else base)
  {
    hide ValueOf, Values;
    assert Values(n.digits)[..|n.digits|] == Values(n.digits);
  }

  lemma DigitsNeedABase(n: Numeral, radix: int, base: int)
    requires n.IsFor(radix, base) && n.digits != ""
    ensures base > 0
  {
    assert DigitIn(n.digits[0], base);
  }

  lemma {:induction false} ValueOfRun(t: string, i: nat, d: string, k: nat, base: int)
    requires k <= |d| && i + |d| <= |t| && (forall j :: 0 <= j < |d| ==> t[i + j] == d[j])
    requires d != "" ==> base > 0
    ensures RunValue(t, i, i + k, base) == ValueOf(Values(d)[..k], if base < 0 then 0 else base)
  {
    hide DigitValue, LibraryDigit, TableDigit;
    if k > 0 {
      ValueOfRun(t, i, d, k - 1, base);
      assert t[i + (k - 1)] == d[k - 1];
      ValueOfDigit(d[k - 1]);
      assert Values(d)[..k][..k - 1] == Values(d)[..k - 1];
    }
  }

  lemma ValueOfDigit(c: char)
    ensures DigitValue(c) == if LibraryDigit(c) < 0 then 0 else LibraryDigit(c)
  {
    hide TableDigit, LibraryDigit;
    DigitsAgree(c, 0);
  }

  // What the parsers find in such a text.
  lemma NumeralIsRead(n: Numeral, radix: int, base: int)
    requires n.IsFor(radix, base)
    ensures NumberOf(n.Text(), radix) == (Wrapped(n.Number(base)), n.End())
    ensures Keeps64(Wrapped(n.Number(base)), n.Number(base))
  {
    hide Numeral.Text, Numeral.IsFor, Numeral.Magnitude, AfterSign, Negative, EffectiveBase, AfterPrefix, RunEnd,
      RunValue, Wrapped, Keeps64;
    SignOf(n, radix, base);
    PrefixOf(n, radix, base);
    DigitsOf(n, radix, base);
    WrappedKeeps(n.Number(base));
  }

  // Every text is such a numeral, for every base asked for.
  lemma NumeralExists(s: string, radix: int) returns (n: Numeral, base: int)
    ensures n.Text() == s && n.IsFor(radix, base)
  {
    hide RunEnd, SkipSpaces, EffectiveBase, AfterPrefix, AfterSign, Numeral.IsFor;
    var a, q := SkipSpaces(s, 0), AfterSign(s);
    base := EffectiveBase(s, q, radix);
    var i := AfterPrefix(s, q, base);
    var e := RunEnd(s, i, base);
    PlacesInOrder(s, base);
    n := Numeral(s[..a], s[a..q], s[q..i], s[i..e], s[e..]);
    assert n.Body() == s[i..];
    assert n.Text() == s;
    PiecesFit(s, radix, n, a, q, i, e, base);
  }

  // A text is a numeral, and all that it can be taken for is read alike.
  lemma NumeralsAreRead(s: string, radix: int)
    ensures exists n: Numeral, base: int :: n.Text() == s && n.IsFor(radix, base)
    ensures forall n: Numeral, base: int :: n.Text() == s && n.IsFor(radix, base) ==>
      NumberOf(s, radix).1 == n.End() && Keeps64(NumberOf(s, radix).0, n.Number(base))
  {
    hide Numeral.Text, Numeral.IsFor, Numeral.Number, Numeral.End, Keeps64, NumberOf, Wrapped;
    var m, b := NumeralExists(s, radix);
    forall n: Numeral, base: int | n.Text() == s && n.IsFor(radix, base)
      ensures NumberOf(s, radix).1 == n.End() && Keeps64(NumberOf(s, radix).0, n.Number(base))
    {
      NumeralIsRead(n, radix, base);
    }
  }

  lemma PlacesInOrder(s: string, base: int)
    ensures var q := AfterSign(s); SkipSpaces(s, 0) <= q <= AfterPrefix(s, q, base)
  {
    hide SkipSpaces;
  }

  lemma PiecesFit(s: string, radix: int, n: Numeral, a: nat, q: nat, i: nat, e: nat, base: int)
    requires a == SkipSpaces(s, 0) && q == AfterSign(s) && base == EffectiveBase(s, q, radix)
    requires i == AfterPrefix(s, q, base) && e == RunEnd(s, i, base) && a <= q <= i <= e <= |s|
    requires n == Numeral(s[..a], s[a..q], s[q..i], s[i..e], s[e..]) && n.Body() == s[i..]
    ensures n.IsFor(radix, base)
  {
    hide RunEnd, DigitIn, IsDigitOf, SkipSpaces, IsSpace, Numeral.Body, Numeral.SignFits, Numeral.PrefixFits;
    SpacesAndDigits(s, base);
    SignPieceFits(s, n, a, q, i);
    PrefixPieceFits(s, radix, n, q, i, base);
  }

  lemma SignPieceFits(s: string, n: Numeral, a: nat, q: nat, i: nat)
    requires a == SkipSpaces(s, 0) && q == AfterSign(s) && a <= q <= i <= |s|
    requires n.spaces == s[..a] && n.sign == s[a..q] && n.prefix == s[q..i] && n.Body() == s[i..]
    ensures n.SignFits()
  {
    hide SkipSpaces, IsSpace, Numeral.Body, AfterSign;
    SkippedAre(s, 0);
    SpacesAndDigits(s, 0);
    SignIs(s, a, q);
    if n.Body() != "" {
      assert n.Body()[0] == s[i];
    }
  }

  lemma SignIs(s: string, a: nat, q: nat)
    requires a == SkipSpaces(s, 0) && q == AfterSign(s) && a <= q <= |s|
    ensures s[a..q] == "" || s[a..q] == "+" || s[a..q] == "-"
    ensures a == q && a < |s| ==> s[a] != '+' && s[a] != '-'
  {
    hide SkipSpaces;
  }

  lemma PrefixPieceFits(s: string, radix: int, n: Numeral, q: nat, i: nat, base: int)
    requires q <= i <= |s| && base == EffectiveBase(s, q, radix) && i == AfterPrefix(s, q, base)
    requires n.prefix == s[q..i] && n.Body() == s[i..]
    ensures n.PrefixFits(radix, base)
  {
    hide Numeral.Body;
  }

  lemma SpacesAndDigits(s: string, base: int)
    ensures forall j {:trigger s[j]} ::
      0 <= j < |s| ==> (IsSpace(s[j]) <==> s[j] in BLANKS) && (IsDigitOf(s[j], base) <==> DigitIn(s[j], base))
  {
    hide IsSpace, IsDigitOf, DigitIn;
    forall j | 0 <= j < |s|
      ensures (IsSpace(s[j]) <==> s[j] in BLANKS) && (IsDigitOf(s[j], base) <==> DigitIn(s[j], base))
    {
      SpacesAgree(s[j]);
      DigitsAgree(s[j], base);
    }
  }

  lemma {:induction false} SkippedAre(s: string, i: nat)
    requires i <= |s|
    ensures var j := SkipSpaces(s, i);
            (forall k :: i <= k < j ==> IsSpace(s[k])) && (j < |s| ==> !IsSpace(s[j]))
    decreases |s| - i
  {
    hide IsSpace;
    if i < |s| && IsSpace(s[i]) {
      SkippedAre(s, i + 1);
    }
  }

  // ---- Parsing undoes printing ----

  lemma CharIsDigit(d: nat, base: nat)
    requires d < base <= 16
    ensures IsDigitOf(DigitChar(d, false), base) && DigitValue(DigitChar(d, false)) == d
    ensures !IsSpace(DigitChar(d, false)) && !IsSign(DigitChar(d, false)) && !IsX(DigitChar(d, false))
  {
    TableOfDigitChar(d);
    hide TableDigit;
  }

  lemma {:induction false} RunOfChars(t: string, i: nat, ds: seq<nat>, n: nat, base: nat)
    requires base <= 16 && n <= |ds| && |t| == i + |ds| && forall j :: 0 <= j < |ds| ==> ds[j] < base
    requires forall j :: 0 <= j < |ds| ==> t[i + j] == DigitChar(ds[j], false)
    ensures RunValue(t, i, i + n, base) == ValueOf(ds[..n], base)
  {
    hide DigitChar, DigitValue;
    if n > 0 {
      RunOfChars(t, i, ds, n - 1, base);
      CharIsDigit(ds[n - 1], base);
      assert ds[..n][..n - 1] == ds[..n - 1];
    }
  }

  lemma RunReachesEnd(t: string, i: nat, ds: seq<nat>, base: nat)
    requires base <= 16 && |t| == i + |ds| && forall j :: 0 <= j < |ds| ==> ds[j] < base
    requires forall j :: 0 <= j < |ds| ==> t[i + j] == DigitChar(ds[j], false)
    ensures RunEnd(t, i, base) == |t| && RunValue(t, i, |t|, base) == ValueOf(ds, base)
  {
    hide DigitChar, RunValue, RunEnd, ValueOf;
    RunOfChars(t, i, ds, |ds|, base);
    assert ds[..|ds|] == ds;
    forall e | i <= e < |t| ensures IsDigitOf(t[e], base) {
      CharIsDigit(ds[e - i], base);
      assert t[i + (e - i)] == t[e];
    }
  }

  // A sign or none, and digits.
  lemma ReadsBack(sign: string, u: nat, base: nat)
    requires (sign == "" || sign == "-") && (base == 10 || base == 16) && u < Power(base, 19)
    ensures var t := sign + DigitText(u, base, false);
            NumberOf(t, base) == (Wrapped(if sign == "-" then 0 - u else u), |t|)
  {
    hide DigitChar, RunValue, RunEnd, ValueOf, Wrapped, Power, DigitList, AfterSign, Negative, AfterPrefix;
    var ds, i := DigitList(u, base), |sign|;
    var t := sign + DigitText(u, base, false);
    TextOfDigits(sign, u, base);
    RunReachesEnd(t, i, ds, base);
    ExactDigits(u, base);
    StartOf(t, i, sign, ds, base);
  }

  lemma TextOfDigits(sign: string, u: nat, base: nat)
    requires 2 <= base <= 16
    ensures var t, ds := sign + DigitText(u, base, false), DigitList(u, base);
            |t| == |sign| + |ds| && forall j :: 0 <= j < |ds| ==> t[|sign| + j] == DigitChar(ds[j], false)
  {
    hide DigitChar, DigitList;
  }

  lemma ExactDigits(u: nat, base: nat)
    requires 2 <= base <= 16
    ensures ValueOf(DigitList(u, base), base) == u <==> u < Power(base, 19)
  {
    DigitsExact(u, base, 19);
  }

  // Ten to the 19th, which fits 64 bits, prints as zero.
  lemma TwentyDigitsAreCut()
    ensures ValueOf(DigitList(10_000_000_000_000_000_000, 10), 10) == 0
  {
    hide LeastFirst, Reverse, ValueOf, Power;
    DigitsValue(10_000_000_000_000_000_000, 10, 19);
    PowersOfTen();
  }

  lemma StartOf(t: string, i: nat, sign: string, ds: seq<nat>, base: nat)
    requires (sign == "" || sign == "-") && i == |sign| && base <= 16 && |ds| >= 1 && |t| == i + |ds|
    requires (i == 1 ==> t[0] == '-') && forall j :: 0 <= j < |ds| ==>
      ds[j] < base && t[i + j] == DigitChar(ds[j], false)
    ensures AfterSign(t) == i && Negative(t) == (sign == "-") && AfterPrefix(t, i, base) == i
  {
    hide DigitChar, TableDigit, DigitValue, IsDigitOf, IsX;
    CharIsDigit(ds[0], base);
    assert t[i + 0] == DigitChar(ds[0], false);
    if |ds| > 1 {
      CharIsDigit(ds[1], base);
      assert t[i + 1] == DigitChar(ds[1], false);
    }
  }

  lemma PowersOfTen()
    ensures Power(10, 19) == 10_000_000_000_000_000_000
  {
    assert Power(10, 3) == 1000;
    assert Power(10, 6) == 1_000_000;
    assert Power(10, 9) == 1_000_000_000;
    assert Power(10, 12) == 1_000_000_000_000;
    assert Power(10, 15) == 1_000_000_000_000_000;
    assert Power(10, 18) == 1_000_000_000_000_000_000;
  }

  lemma PowersOfSixteen()
    ensures Power(16, 19) >= 0x1_0000_0000_0000_0000
  {
    assert Power(16, 4) == 0x1_0000;
    assert Power(16, 8) == 0x1_0000_0000;
    assert Power(16, 12) == 0x1_0000_0000_0000;
    assert Power(16, 16) == 0x1_0000_0000_0000_0000;
  }

  lemma PlainIntText(value: int, base: nat, fl: Flags)
    requires IsLong(value) && 2 <= base <= 16 && (fl == NO_FLAGS || fl == NO_FLAGS.(unsigned := true))
    ensures IntText(value, base, 0, -1, fl) == SignText(value, fl) + DigitText(Magnitude(value, fl), base, false)
  {
    hide DigitText;
    var sign, digits := SignText(value, fl), DigitText(Magnitude(value, fl), base, false);
    assert Repeat(' ', 0) + sign + Repeat('0', 0) + digits == sign + digits;
  }

  // The %ld output of every 64-bit number reads back, to the end, in base 10.
  lemma DecimalRoundTrip(v: int)
    requires IsLong(v)
    ensures var t := IntText(v, 10, 0, -1, NO_FLAGS); NumberOf(t, 10) == (v, |t|)
  {
    hide IntText, DigitText, NumberOf, Power, Wrapped;
    PowersOfTen();
    PlainIntText(v, 10, NO_FLAGS);
    ReadsBack(SignText(v, NO_FLAGS), Magnitude(v, NO_FLAGS), 10);
    WrappedSmall(v);
  }

  // The %lx output reads back in base 16 as the same 64 bits: the number itself below 2^63.
  lemma HexRoundTrip(u: nat)
    requires u < 0x1_0000_0000_0000_0000
    ensures var t := IntText(Signed64(u), 16, 0, -1, NO_FLAGS.(unsigned := true));
            NumberOf(t, 16) == (Wrapped(u), |t|)
    ensures Wrapped(u) == u <==> u < 0x8000_0000_0000_0000
  {
    hide IntText, DigitText, NumberOf, Power;
    PowersOfSixteen();
    var fl := NO_FLAGS.(unsigned := true);
    PlainIntText(Signed64(u), 16, fl);
    assert Magnitude(Signed64(u), fl) == u;
    ReadsBack("", u, 16);
  }

  // The two formats themselves.
  lemma LongFormats(args: Args, fp: FloatText)
    ensures Text("%ld", 0, args, 0, fp) == IntText(Signed64(args(0).word), 10, 0, -1, NO_FLAGS)
    ensures Text("%lx", 0, args, 0, fp) == IntText(Signed64(args(0).word), 16, 0, -1, NO_FLAGS.(unsigned := true))
  {
    hide IntText, Signed64;
    OneDirective("%ld", args, fp);
    OneDirective("%lx", args, fp);
  }

  lemma OneDirective(f: string, args: Args, fp: FloatText)
    requires |f| == 3 && f[0] == '%' && f[1] == 'l' && (f[2] == 'd' || f[2] == 'x')
    ensures Text(f, 0, args, 0, fp) == Converted(f[2], Spec(NO_FLAGS, 0, -1, Long, 2, 0), args, fp).0
  {
    hide Converted;
    var s := ReadFlags(f, 1, args, 0, NO_FLAGS);
    assert s == ReadMin(f, 1, args, 0, NO_FLAGS, 0) == ReadDot(f, 1, args, 0, NO_FLAGS, 0) == ReadMod(f, 1, 0,
      NO_FLAGS, 0, -1);
    assert s == Spec(NO_FLAGS, 0, -1, Long, 2, 0);
    var r := Converted(f[2], s, args, fp);
    assert Text(f, 3, args, s.k + r.1, fp) == "";
    assert r.0 + "" == r.0;
    assert Text(f, 0, args, 0, fp) == DirectiveText(f, s, args, fp);
  }

  // Printing with %ld or %lx and parsing gives the argument back.
  lemma PrintThenParse(args: Args, fp: FloatText)
    requires args(0).word < 0x1_0000_0000_0000_0000
    ensures var t := Text("%ld", 0, args, 0, fp); NumberOf(t, 10) == (Signed64(args(0).word), |t|)
    ensures var t := Text("%lx", 0, args, 0, fp); NumberOf(t, 16) == (Wrapped(args(0).word), |t|)
  {
    hide Text, NumberOf, IntText, Wrapped;
    LongFormats(args, fp);
    DecimalRoundTrip(Signed64(args(0).word));
    HexRoundTrip(args(0).word);
  }
}
