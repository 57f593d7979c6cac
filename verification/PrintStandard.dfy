/**
 What the C standard asks of the string and integer conversions (section 7.21.6.1 of ISO C11), and
 exactly when the printer does that.

 A negative width, which only an argument can give, is the minus flag and a width; a negative
 precision is none. A period with neither digits nor an argument behind it is the precision 0,
 which the printer takes for none.
 */
module PrintStandard {
  import opened Bits
  import opened Common
  import opened Digits
  import opened Printf

  // The precision that the standard reads where the printer has max.
  function Precision(max: int, lone: bool): int { if lone then 0 else max }

  // ---- Strings ----

  // At most max characters, padded to the width.
  function StandardText(s: string, min: int, max: int, fl: Flags): string {
    var t := if 0 <= max < |s| then s[..max] else s;
    var spaces := Repeat(' ', Max(Max(min, -min) - |t|, 0));
    if fl.minus || min < 0 then t + spaces else spaces + t
  }

  // A width that is not negative, and a precision that is omitted or not below it.
  predicate PrintsStrings(min: int, max: int, lone: bool) {
    !lone && 0 <= min && (max == -1 || min <= max)
  }

  // Every string prints as the standard asks exactly then.
  lemma PrecisionIsKept(min: int, max: int, lone: bool, fl: Flags)
    requires lone ==> max == -1
    ensures PrintsStrings(min, max, lone) <==>
      (forall s :: StrArgText(Some(s), min, max, fl) == StandardText(s, min, Precision(max, lone), fl))
  {
    if PrintsStrings(min, max, lone) {
      forall s ensures StrArgText(Some(s), min, max, fl) == StandardText(s, min, Precision(max, lone), fl) {
        CutAndPadded(s, min, max, lone, fl);
      }
    } else {
      var s := if min < 0 then "" else Repeat('a', min + 1);
      StandardDiffers(s, min, max, lone, fl);
    }
  }

  // What the printer shows in any case: what the standard asks for a width that is not negative and a
  // precision that is not below it.
  function ShownAs(s: string, min: int, max: int, fl: Flags): string {
    if max < -1 then "" else StandardText(s, Max(min, 0), if max == -1 then -1 else Max(min, max), fl)
  }

  lemma StringAlwaysPrints(s: string, min: int, max: int, fl: Flags)
    ensures StrArgText(Some(s), min, max, fl) == ShownAs(s, min, max, fl)
  {
  }

  // Strings that the precision does not cut come out right too, whatever the width.
  lemma CutAndPadded(s: string, min: int, max: int, lone: bool, fl: Flags)
    requires 0 <= min && (if lone then max == -1 && s == "" else max >= -1)
    requires max == -1 || |s| <= max || min <= max
    ensures StrArgText(Some(s), min, max, fl) == StandardText(s, min, Precision(max, lone), fl)
  {
  }

  lemma StandardDiffers(s: string, min: int, max: int, lone: bool, fl: Flags)
    requires !PrintsStrings(min, max, lone) && (lone ==> max == -1)
    requires s == if min < 0 then "" else Repeat('a', min + 1)
    ensures StrArgText(Some(s), min, max, fl) != StandardText(s, min, Precision(max, lone), fl)
  {
    var t := StandardText(s, min, Precision(max, lone), fl);
    if min < 0 {
      assert |t| == -min;
    } else if lone {
      assert StrArgText(Some(s), min, max, fl) == s && |t| == min;
    } else if max < -1 {
      assert |t| == min + 1;
    } else {
      assert StrArgText(Some(s), min, max, fl) == s[..min];
      assert t[if fl.minus then max else 0] == ' ';
    }
  }

  // A precision below -1, which only an argument can give, prints nothing of any string.
  lemma NegativePrecisionPrintsNothing(s: string, min: int, max: int, fl: Flags)
    requires max < -1
    ensures StrArgText(Some(s), min, max, fl) == ""
    ensures StrArgText(Some(s), min, max, fl) == StandardText(s, min, max, fl) <==> s == "" && min == 0
  {
  }

  // A width above the precision prints more of the string than the precision allows.
  lemma WidthBreaksPrecision()
    ensures StrArgText(Some("abcdef"), 5, 3, NO_FLAGS) == "abcde"
    ensures StandardText("abcdef", 5, 3, NO_FLAGS) == "  abc"
  {
    assert Repeat(' ', 0) + "abcdef" == "abcdef";
    assert "abcdef"[..3] == "abc";
    assert Repeat(' ', 2) == "  ";
  }

  // ---- Integers ----

  // All digits of a number, most significant first.
  ghost function AllDigits(u: nat, base: nat): (ds: seq<nat>)
    requires 2 <= base
    ensures |ds| >= 1 && forall i :: 0 <= i < |ds| ==> ds[i] < base
  {
    if u < base then [u]
    else
      BigQuotient(u, base);
      AllDigits(Quotient(u, base), base) + [u % base]
  }

  const LOWER: string := "0123456789abcdef"
  const UPPER: string := "0123456789ABCDEF"

  ghost function FullText(u: nat, base: nat, caps: bool): (t: string)
    requires 2 <= base <= 16
    ensures |t| >= 1
  {
    var ds := AllDigits(u, base);
    seq(|ds|, i requires 0 <= i < |ds| => if caps then UPPER[ds[i]] else LOWER[ds[i]])
  }

  function Abs(n: int): nat { if n < 0 then -n else n }

  function Sign(n: int, fl: Flags): string {
    if fl.unsigned then "" else if n < 0 then "-" else if fl.plus then "+" else if fl.space then " " else ""
  }

  // A number in a field: spaces, a sign, a prefix, zeros, digits, and spaces again.
  datatype Field = Field(left: nat, sign: string, prefix: string, zeros: nat, digits: string, right: nat) {
    function Core(): string { prefix + Repeat('0', zeros) + digits }

    function Shown(): string { Repeat(' ', left) + (sign + Core()) + Repeat(' ', right) }
  }

  predicate IsConversion(base: nat) { base == 8 || base == 10 || base == 16 }

  // Zero with precision 0 has no digits, but keeps one in the alternative form of base 8.
  predicate IsBlank(n: int, base: nat, prec: int, fl: Flags) {
    n == 0 && prec == 0 && !(fl.num && base == 8)
  }

  // The field that the standard asks for. The least width is made up by spaces on the left, by
  // zeros when the flag asks for them and neither the minus flag nor a precision is given, and by
  // spaces on the right with the minus flag.
  ghost function StandardField(n: int, base: nat, min: int, prec: int, fl: Flags): Field
    requires 2 <= base <= 16
  {
    var sign, full := Sign(n, fl), FullText(Abs(n), base, fl.up);
    var digits := if IsBlank(n, base, prec, fl) then "" else full;
    var prefix := if fl.num && base == 16 && n != 0 then (if fl.up then "0X" else "0x") else "";
    var needed := Max(Max(prec, 0) - |full|, 0);
    var zeros := if fl.num && base == 8 && n != 0 then Max(needed, 1) else needed;
    var pad := Max(Max(min, -min) - (|sign| + |prefix| + zeros + |digits|), 0);
    if fl.minus || min < 0 then Field(0, sign, prefix, zeros, digits, pad)
    else if fl.zero && prec < 0 then Field(0, sign, prefix, zeros + pad, digits, 0)
    else Field(pad, sign, prefix, zeros, digits, 0)
  }

  ghost function StandardInteger(n: int, base: nat, min: int, prec: int, fl: Flags): string
    requires 2 <= base <= 16
  {
    StandardField(n, base, min, prec, fl).Shown()
  }

  // When an integer prints as the standard asks: it has at most 19 digits, it is not a zero that
  // should vanish, it needs no 0x, and the width is made up in the right way or not at all. In the
  // alternative form of base 8 the zero flag may happen to print the zero that is wanted.
  ghost predicate PrintsInteger(n: int, base: nat, min: int, prec: int, fl: Flags)
    requires 2 <= base <= 16
  {
    var length := |FullText(Abs(n), base, fl.up)|;
    var core := |Sign(n, fl)| + Max(prec, length);
    && Abs(n) < Power(base, 19)
    && !IsBlank(n, base, prec, fl)
    && !(fl.num && base == 16 && n != 0)
    && if fl.num && base == 8 && n != 0 && prec <= length then
         min > core && fl.zero && (min == core + 1 || (!fl.minus && prec < 0))
       else
         Max(min, -min) <= core || (0 <= min && (!fl.zero || (!fl.minus && prec < 0)))
  }

  // ---- What the printer does ----

  // The number that a 64-bit value of the printer stands for.
  function Denoted(value: int, fl: Flags): int {
    if fl.unsigned && value < 0 then value + 0x1_0000_0000_0000_0000 else value
  }

  lemma DenotedFacts(value: int, fl: Flags)
    requires IsLong(value)
    ensures var n := Denoted(value, fl);
            Magnitude(value, fl) == Abs(n) && SignText(value, fl) == Sign(n, fl) && (value == 0 <==> n == 0)
  {
  }

  lemma FullTextIs(u: nat, base: nat, caps: bool)
    requires 2 <= base <= 16
    ensures FullText(u, base, caps) == Chars(AllDigits(u, base), caps)
  {
    hide AllDigits;
    forall d: nat | d < 16 ensures DigitChar(d, caps) == if caps then UPPER[d] else LOWER[d] {
    }
  }

  // The field that the printer fills.
  ghost function PrintedField(value: int, base: nat, min: int, max: int, fl: Flags): Field
    requires IsLong(value) && 2 <= base <= 16
  {
    var sign, digits := SignText(value, fl), DigitText(Magnitude(value, fl), base, fl.up);
    var zeros := Max(Max(max, 0) - |digits|, 0);
    var spaces := Max(min - Max(Max(max, 0), |digits|) - |sign|, 0);
    if fl.zero then Field(0, sign, "", Max(zeros, spaces), digits, 0)
    else if fl.minus then Field(0, sign, "", zeros, digits, spaces)
    else Field(spaces, sign, "", zeros, digits, 0)
  }

  // The printer shows the last 19 digits of a number that has more.
  lemma {:induction false} LastDigits(u: nat, base: nat, limit: nat)
    requires 2 <= base && limit >= 1
    ensures Reverse(LeastFirst(u, base, limit)) == LastOf(AllDigits(u, base), limit)
    decreases limit
  {
    hide LeastFirst, Reverse;
    FirstAndRest(u, base, limit);
    var rest := Rest(u / base, base, limit - 1);
    ReverseGrows(u % base, rest);
    if u < base {
      SmallDigit(u, base);
      ReverseNothing();
    } else {
      BigQuotient(u, base);
      if limit == 1 {
        ReverseNothing();
      } else {
        LastDigits(u / base, base, limit - 1);
      }
    }
  }

  function LastOf<T>(s: seq<T>, n: nat): seq<T> {
    if |s| <= n then s else s[|s| - n..]
  }

  lemma ReverseGrows(d: nat, rest: seq<nat>)
    ensures Reverse([d] + rest) == Reverse(rest) + [d]
  {
    assert ([d] + rest)[1..] == rest;
  }

  lemma ReverseNothing()
    ensures Reverse([]) == []
  {
  }

  lemma SmallDigit(u: nat, base: nat)
    requires u < base
    ensures u / base == 0 && u % base == u
  {
  }

  lemma BigQuotient(u: nat, base: nat)
    requires 2 <= base <= u
    ensures 0 < u / base < u
  {
    DivMod(u, base);
    MulAtLeast(base, u / base);
  }

  lemma QuotientBelow(u: nat, base: nat, p: nat)
    requires base > 0
    ensures u / base < p <==> u < base * p
  {
    DivMod(u, base);
    if u / base < p {
      MulAtLeast(base, p - u / base);
      assert base * (p - u / base) == base * p - base * (u / base);
    } else if u / base > p {
      MulAtLeast(base, u / base - p);
      assert base * (u / base - p) == base * (u / base) - base * p;
    }
  }

  // As many digits as the power of the base says, the first of them not zero.
  lemma {:induction false} DigitCount(u: nat, base: nat, n: nat)
    requires 2 <= base && n >= 1
    ensures |AllDigits(u, base)| <= n <==> u < Power(base, n)
    decreases n
  {
    hide Power;
    PowerSteps(base, n);
    QuotientBelow(u, base, Power(base, n - 1));
    PowerPositive(base, n - 1);
    if u < base {
      SmallDigit(u, base);
    } else {
      BigQuotient(u, base);
      if n > 1 {
        DigitCount(u / base, base, n - 1);
      }
    }
  }

  lemma PowerSteps(base: nat, n: nat)
    requires n >= 1
    ensures Power(base, n) == base * Power(base, n - 1) && Power(base, 0) == 1
  {
  }

  lemma {:induction false} FirstDigit(u: nat, base: nat)
    requires 2 <= base
    ensures AllDigits(u, base)[0] == 0 <==> u == 0
    decreases u
  {
    if u >= base {
      BigQuotient(u, base);
      FirstDigit(u / base, base);
    }
  }

  predicate IsShownDigit(c: char) { c != ' ' && c != 'x' && c != 'X' }

  // What the printer has of the digits of a number.
  lemma DigitsOrMore(u: nat, base: nat, caps: bool)
    requires 2 <= base <= 16
    ensures DigitText(u, base, caps) == LastOf(FullText(u, base, caps), 19)
    ensures |FullText(u, base, caps)| <= 19 <==> u < Power(base, 19)
    ensures FullText(u, base, caps)[0] == '0' <==> u == 0
    ensures forall i :: 0 <= i < |FullText(u, base, caps)| ==> IsShownDigit(FullText(u, base, caps)[i])
  {
    hide Power, AllDigits, LeastFirst, FullText;
    FullTextIs(u, base, caps);
    LastDigits(u, base, 19);
    DigitCount(u, base, 19);
    FirstDigit(u, base);
  }

  lemma SpacesAround(a: nat, c: string, b: nat, a': nat, c': string, b': nat)
    requires c != "" && c' != "" && c[0] != ' ' && c'[0] != ' ' && c[|c| - 1] != ' ' && c'[|c'| - 1] != ' '
    ensures Repeat(' ', a) + c + Repeat(' ', b) == Repeat(' ', a') + c' + Repeat(' ', b')
      <==> a == a' && c == c' && b == b'
  {
    var s, t := Repeat(' ', a) + c + Repeat(' ', b), Repeat(' ', a') + c' + Repeat(' ', b');
    if s == t {
      assert s[a] == c[0] && t[a'] == c'[0];
      assert s[a + |c| - 1] == c[|c| - 1] && t[a' + |c'| - 1] == c'[|c'| - 1];
      assert a == a';
      assert a + |c| == a' + |c'|;
      assert c == s[a..a + |c|] && c' == t[a'..a' + |c'|];
    }
  }

  // Fields with the same sign show the same exactly when they are filled in the same way.
  lemma SameFields(p: Field, s: Field)
    requires p.sign == s.sign && |p.sign| <= 1 && p.Core() != "" && s.Core() != ""
    requires p.Core()[0] != ' ' && s.Core()[0] != ' '
    requires p.Core()[|p.Core()| - 1] != ' ' && s.Core()[|s.Core()| - 1] != ' '
    ensures p.Shown() == s.Shown() <==> p.left == s.left && p.right == s.right && p.Core() == s.Core()
  {
    hide Repeat;
    if p.sign == " " {
      SpaceSign(p);
      SpaceSign(s);
      SpacesAround(p.left + 1, p.Core(), p.right, s.left + 1, s.Core(), s.right);
    } else {
      SignFirst(p.sign, p.Core());
      SignFirst(s.sign, s.Core());
      SpacesAround(p.left, p.sign + p.Core(), p.right, s.left, s.sign + s.Core(), s.right);
    }
  }

  lemma SignFirst(sign: string, c: string)
    requires |sign| <= 1 && sign != " " && c != "" && c[0] != ' ' && c[|c| - 1] != ' '
    ensures var d := sign + c;
            d != "" && d[0] != ' ' && d[|d| - 1] != ' ' && d[|sign|..] == c
  {
  }

  lemma SpaceSign(p: Field)
    requires p.sign == " "
    ensures p.Shown() == Repeat(' ', p.left + 1) + p.Core() + Repeat(' ', p.right)
  {
    assert Repeat(' ', p.left + 1) == Repeat(' ', p.left) + " ";
  }

  lemma IntTextIsField(value: int, base: nat, min: int, max: int, fl: Flags)
    requires IsLong(value) && 2 <= base <= 16
    ensures IntText(value, base, min, max, fl) == PrintedField(value, base, min, max, fl).Shown()
  {
    hide DigitText, SignText, Magnitude;
  }

  // A blank shows no digit at all.
  lemma BlankDiffers(value: int, base: nat, min: int, max: int, prec: int, fl: Flags)
    requires IsLong(value) && 2 <= base <= 16 && IsBlank(Denoted(value, fl), base, prec, fl)
    ensures IntText(value, base, min, max, fl) != StandardInteger(Denoted(value, fl), base, min, prec, fl)
  {
    hide PrintedField, StandardField, IntText, FullText, DigitText, Power, Sign, Magnitude, Denoted;
    IntTextIsField(value, base, min, max, fl);
    DenotedFacts(value, fl);
    DigitsOrMore(0, base, fl.up);
    PowerPositive(base, 19);
    BlankField(Denoted(value, fl), base, min, prec, fl);
    FieldParts(value, base, min, max, prec, fl);
    NoZeroInBlank(StandardField(Denoted(value, fl), base, min, prec, fl));
    DigitInField(PrintedField(value, base, min, max, fl));
  }

  lemma BlankField(n: int, base: nat, min: int, prec: int, fl: Flags)
    requires 2 <= base <= 16 && IsBlank(n, base, prec, fl)
    ensures var s := StandardField(n, base, min, prec, fl); s.prefix == "" && s.zeros == 0 && s.digits == ""
  {
    hide FullText, Sign;
  }

  lemma NoZeroInBlank(s: Field)
    requires s.Core() == "" && '0' !in s.sign
    ensures '0' !in s.Shown()
  {
    forall i | 0 <= i < |s.Shown()| ensures s.Shown()[i] == ' ' || s.Shown()[i] in s.sign {}
  }

  lemma DigitInField(p: Field)
    requires p.digits != ""
    ensures p.digits[0] in p.Shown()
  {
    assert p.Shown()[p.left + |p.sign| + |p.prefix| + p.zeros] == p.digits[0];
  }

  // What the two fields have in common, and the digits of each.
  lemma FieldParts(value: int, base: nat, min: int, max: int, prec: int, fl: Flags)
    requires IsLong(value) && 2 <= base <= 16
    ensures var n := Denoted(value, fl);
            var p, s := PrintedField(value, base, min, max, fl), StandardField(n, base, min, prec, fl);
            && p.sign == s.sign == Sign(n, fl) && |p.sign| <= 1 && '0' !in p.sign && p.prefix == ""
            && p.digits == DigitText(Abs(n), base, fl.up)
            && (s.prefix == "" || s.prefix == "0x" || s.prefix == "0X")
            && (!IsBlank(n, base, prec, fl) ==> s.digits == FullText(Abs(n), base, fl.up))
  {
    hide FullText, DigitText, Magnitude, Denoted;
    DenotedFacts(value, fl);
  }

  // The zeros and digits agree when no digit is missing, no prefix is asked for, and the zeros do.
  lemma SameCores(z: nat, digits: string, prefix: string, z': nat, full: string)
    requires full != "" && digits == LastOf(full, 19) && (forall i :: 0 <= i < |full| ==> IsShownDigit(full[i]))
    requires prefix == "" || prefix == "0x" || prefix == "0X"
    requires |full| > 19 ==> full[0] != '0'
    ensures Repeat('0', z) + digits == prefix + Repeat('0', z') + full
      <==> |full| <= 19 && prefix == "" && z == z'
  {
    var c, d := Repeat('0', z) + digits, prefix + Repeat('0', z') + full;
    if prefix != "" {
      assert d[1] == prefix[1];
      if |c| > 1 {
        assert c[1] == '0' || c[1] in digits;
      }
      assert forall x :: x in digits ==> IsShownDigit(x);
    } else if |full| > 19 {
      assert d[z'] == full[0];
      assert |c| == |d| ==> c[z'] == '0';
    }
  }

  lemma CoresAreShown(p: Field, s: Field, u: nat, base: nat, caps: bool)
    requires 2 <= base <= 16 && p.digits == DigitText(u, base, caps) && s.digits == FullText(u, base, caps)
    requires p.prefix == "" && (s.prefix == "" || s.prefix == "0x" || s.prefix == "0X")
    ensures p.Core() != "" && s.Core() != "" && p.Core()[0] != ' ' && s.Core()[0] != ' '
    ensures p.Core()[|p.Core()| - 1] != ' ' && s.Core()[|s.Core()| - 1] != ' '
    ensures p.Core() == s.Core() <==> |s.digits| <= 19 && s.prefix == "" && p.zeros == s.zeros
  {
    hide DigitText, FullText, Power, LastOf, Repeat, IsShownDigit, Field.Core;
    DigitsOrMore(u, base, caps);
    PowerPositive(base, 19);
    LastOfShown(s.digits);
    CoreEnds(p);
    CoreEnds(s);
    SameCores(p.zeros, p.digits, s.prefix, s.zeros, s.digits);
  }

  lemma LastOfShown(t: string)
    requires t != "" && forall i :: 0 <= i < |t| ==> IsShownDigit(t[i])
    ensures LastOf(t, 19) != "" && forall i :: 0 <= i < |LastOf(t, 19)| ==> IsShownDigit(LastOf(t, 19)[i])
  {
  }

  lemma CoreEnds(p: Field)
    requires p.prefix == "" || p.prefix == "0x" || p.prefix == "0X"
    requires p.digits != "" && forall i :: 0 <= i < |p.digits| ==> IsShownDigit(p.digits[i])
    ensures var c := p.Core();
            && c == p.prefix + Repeat('0', p.zeros) + p.digits
            && (p.prefix == "" ==> c == Repeat('0', p.zeros) + p.digits)
            && c != "" && c[0] != ' ' && c[|c| - 1] != ' '
  {
    var c := p.Core();
    assert c[|c| - 1] == p.digits[|p.digits| - 1];
    assert IsShownDigit(p.digits[0]) && IsShownDigit(p.digits[|p.digits| - 1]);
  }

  // The fields are filled in the same way exactly under the condition.
  lemma FieldsAgree(value: int, base: nat, min: int, max: int, lone: bool, fl: Flags)
    requires IsLong(value) && IsConversion(base) && (lone ==> max == -1)
    requires !IsBlank(Denoted(value, fl), base, Precision(max, lone), fl)
    requires var u := Abs(Denoted(value, fl));
             && DigitText(u, base, fl.up) == LastOf(FullText(u, base, fl.up), 19)
             && (|FullText(u, base, fl.up)| <= 19 <==> u < Power(base, 19))
    ensures var n, prec := Denoted(value, fl), Precision(max, lone);
            var p, s := PrintedField(value, base, min, max, fl), StandardField(n, base, min, prec, fl);
            p.left == s.left && p.right == s.right && |s.digits| <= 19 && s.prefix == "" && p.zeros == s.zeros
            <==> PrintsInteger(n, base, min, prec, fl)
  {
    hide FullText, DigitText, Magnitude, Power, AllDigits, Denoted;
    DenotedFacts(value, fl);
  }

  lemma IntegerIsStandard(value: int, base: nat, min: int, max: int, lone: bool, fl: Flags)
    requires IsLong(value) && IsConversion(base) && (lone ==> max == -1)
    ensures var n, prec := Denoted(value, fl), Precision(max, lone);
            IntText(value, base, min, max, fl) == StandardInteger(n, base, min, prec, fl)
            <==> PrintsInteger(n, base, min, prec, fl)
  {
    hide FullText, DigitText, Repeat, Magnitude, Power, IsShownDigit, PrintedField, StandardField, IntText, SignText,
      Sign, Abs, PrintsInteger, IsBlank, Denoted;
    var n, prec := Denoted(value, fl), Precision(max, lone);
    IntTextIsField(value, base, min, max, fl);
    DigitsOrMore(Abs(n), base, fl.up);
    if IsBlank(n, base, prec, fl) {
      BlankDiffers(value, base, min, max, prec, fl);
      BlankIsNotPrinted(n, base, min, prec, fl);
    } else {
      var p, s := PrintedField(value, base, min, max, fl), StandardField(n, base, min, prec, fl);
      FieldParts(value, base, min, max, prec, fl);
      CoresAreShown(p, s, Abs(n), base, fl.up);
      SameFields(p, s);
      FieldsAgree(value, base, min, max, lone, fl);
    }
  }

  // What the printer shows of a number of at most 19 digits, in any case: what the standard asks
  // for without the zero flag and the alternative form, when the precision is at least one digit and
  // the zeros that the flag asks for are in the precision.
  ghost function PrintedAs(n: int, base: nat, min: int, prec: int, fl: Flags): string
    requires 2 <= base <= 16
  {
    var length := |FullText(Abs(n), base, fl.up)|;
    var spare := min - |Sign(n, fl)| - Max(prec, length);
    var precision := if fl.zero then Max(Max(prec, length), length + spare) else Max(prec, 1);
    StandardInteger(n, base, if fl.zero then 0 else Max(min, 0), precision, fl.(zero := false, num := false))
  }

  lemma IntegerAlwaysPrints(value: int, base: nat, min: int, max: int, lone: bool, fl: Flags)
    requires IsLong(value) && IsConversion(base) && (lone ==> max == -1)
    ensures var n := Denoted(value, fl);
            Abs(n) < Power(base, 19) ==>
              IntText(value, base, min, max, fl) == PrintedAs(n, base, min, Precision(max, lone), fl)
  {
    hide FullText, DigitText, Repeat, Power, IsShownDigit, IntText, Abs, Denoted, AllDigits, PrintedField,
      StandardField, Field.Shown, Sign;
    var n := Denoted(value, fl);
    if Abs(n) < Power(base, 19) {
      IntTextIsField(value, base, min, max, fl);
      DigitsOrMore(Abs(n), base, fl.up);
      FieldAsPrinted(value, base, min, max, Precision(max, lone), fl);
    }
  }

  lemma FieldAsPrinted(value: int, base: nat, min: int, max: int, prec: int, fl: Flags)
    requires IsLong(value) && IsConversion(base) && (prec == max || (prec == 0 && max == -1))
    requires var n := Denoted(value, fl); DigitText(Abs(n), base, fl.up) == FullText(Abs(n), base, fl.up)
    ensures var n := Denoted(value, fl);
            var length := |FullText(Abs(n), base, fl.up)|;
            var spare := min - |Sign(n, fl)| - Max(prec, length);
            var precision := if fl.zero then Max(Max(prec, length), length + spare) else Max(prec, 1);
            PrintedField(value, base, min, max, fl)
            == StandardField(n, base, if fl.zero then 0 else Max(min, 0), precision, fl.(zero := false, num := false))
  {
    hide FullText, DigitText, Magnitude, Abs, Denoted, SignText;
    DenotedFacts(value, fl);
  }

  lemma BlankIsNotPrinted(n: int, base: nat, min: int, prec: int, fl: Flags)
    requires 2 <= base <= 16 && IsBlank(n, base, prec, fl)
    ensures !PrintsInteger(n, base, min, prec, fl)
  {
  }

  lemma Halves(word: nat) returns (high: nat)
    ensures high < 0x1_0000 && word % 0x1_0000_0000 == 0x1_0000 * high + word % 0x1_0000
  {
    var low := word % 0x1_0000_0000;
    high := low / 0x1_0000;
    ModShift(low, 0x1_0000, 0x1_0000 * (word / 0x1_0000_0000));
  }

  // The h modifier does not cut its argument to 16 bits: right exactly for arguments that fit.
  lemma ShortIsNotCut(a: Arg)
    ensures SignedArg(a, Short) == Signed16(a.word) <==> -0x8000 <= SignedArg(a, Short) < 0x8000
    ensures UnsignedArg(a, Short) == a.word % 0x1_0000 <==> UnsignedArg(a, Short) < 0x1_0000
  {
    var high := Halves(a.word);
    ShortRanges(a.word % 0x1_0000_0000, high, a.word % 0x1_0000);
  }

  lemma ShortRanges(low: nat, high: nat, r: nat)
    requires high < 0x1_0000 && r < 0x1_0000 && low == 0x1_0000 * high + r
    ensures var v := if low < 0x8000_0000 then low else low - 0x1_0000_0000;
            v == (if r < 0x8000 then r else r - 0x1_0000) <==> -0x8000 <= v < 0x8000
    ensures low == r <==> low < 0x1_0000
  {
  }

  // The least width is kept, except when zeros are asked for both ways, by flag and by precision, and
  // except a negative one that is needed.
  lemma WidthIsKept(value: int, base: nat, min: int, max: int, fl: Flags)
    requires IsLong(value) && 2 <= base <= 16
    ensures var sign, digits := SignText(value, fl), DigitText(Magnitude(value, fl), base, fl.up);
            |IntText(value, base, min, max, fl)| == Max(Max(min, -min), |sign| + Max(max, |digits|))
            <==> if min >= 0 then !fl.zero || max <= |digits| || min <= |sign| + max
                 else -min <= |sign| + Max(max, |digits|)
  {
  }

  // A negative width, which only an argument can give, counts for nothing.
  lemma NegativeWidthIsIgnored(value: int, base: nat, text: Option<string>, min: int, max: int, fl: Flags)
    requires IsLong(value) && 2 <= base <= 16 && min < 0
    ensures IntText(value, base, min, max, fl) == IntText(value, base, 0, max, fl)
    ensures StrArgText(text, min, max, fl) == StrArgText(text, 0, max, fl)
  {
  }

  lemma FortyTwo()
    ensures DigitText(42, 10, false) == "42" && FullText(42, 10, false) == "42"
  {
    assert LeastFirst(4, 10, 18) == [4];
    assert LeastFirst(42, 10, 19) == [2, 4];
    assert [2, 4][1..] == [4] && [4][1..] == [];
    assert Reverse([2, 4]) == [4, 2];
    assert AllDigits(42, 10) == [4, 2] by {
      assert AllDigits(4, 10) == [4];
    }
    FullTextIs(42, 10, false);
  }

  // Width 8 and precision 5 with the zero flag print five columns, and width -10 prints two.
  lemma WidthIsMissed()
    ensures IntText(42, 10, 8, 5, NO_FLAGS.(zero := true)) == "00042"
    ensures IntText(42, 10, -10, -1, NO_FLAGS) == "42"
    ensures StandardInteger(42, 10, 8, 5, NO_FLAGS.(zero := true)) == "   00042"
  {
    hide DigitText, FullText;
    FortyTwo();
    assert Repeat('0', 3) == "000" && Repeat(' ', 3) == "   " && Repeat(' ', 0) == "";
  }
}
