/**
 Directives as they are written: a percent sign, flags, a width, a precision, a modifier and a
 conversion character. What a format prints in their place, compared with the C standard (section
 7.21.6.1 of ISO C11).
 */
module Directives {
  import opened Bits
  import opened Common
  import opened Digits
  import opened Printf
  import opened PrintStandard

  // ---- Arguments ----

  // The number that a 64-bit word holds for a C type: long with l and ll, int otherwise.
  predicate IsArgument(n: int, word: nat, unsigned: bool, mod: Mod) {
    if mod == Long || mod == LongLong then
      && (n - word) % 0x1_0000_0000_0000_0000 == 0
      && (if unsigned then 0 <= n < 0x1_0000_0000_0000_0000 else -0x8000_0000_0000_0000 <= n < 0x8000_0000_0000_0000)
    else
      && (n - word) % 0x1_0000_0000 == 0
      && (if unsigned then 0 <= n < 0x1_0000_0000 else -0x8000_0000 <= n < 0x8000_0000)
  }

  // Only one number is in the range and congruent to the word.
  lemma ArgumentIsUnique(n: int, m: int, word: nat, unsigned: bool, mod: Mod)
    requires IsArgument(n, word, unsigned, mod) && IsArgument(m, word, unsigned, mod)
    ensures n == m
  {
    var p: nat := if mod == Long || mod == LongLong then 0x1_0000_0000_0000_0000 else 0x1_0000_0000;
    SameInRange(n, m, word, p);
  }

  lemma SameInRange(n: int, m: int, word: int, p: nat)
    requires p > 0 && (n - word) % p == 0 && (m - word) % p == 0 && n - m < p && m - n < p
    ensures n == m
  {
    var k, l := (n - word) / p, (m - word) / p;
    assert p * (k - l) == p * k - p * l;
    MulAtLeast(p, k - l);
  }

  lemma CutIsCongruent(word: nat, p: nat, r: int)
    requires p > 0 && (r == word % p || r == word % p - p)
    ensures (r - word) % p == 0
  {
    var q := word / p;
    var k := if r == word % p then 0 - q else 0 - q - 1;
    assert p * k == (if r == word % p then 0 else 0 - p) - p * q;
    ModShift(0, p, k);
  }

  // The printer reads that number, signed and unsigned.
  lemma ArgumentIsRead(a: Arg, mod: Mod, fl: Flags)
    ensures IsArgument(SignedArg(a, mod), a.word, false, mod)
    ensures fl.unsigned ==> IsArgument(Denoted(UnsignedArg(a, mod), fl), a.word, true, mod)
    ensures !fl.unsigned ==> Denoted(SignedArg(a, mod), fl) == SignedArg(a, mod)
  {
    var p: nat := if mod == Long || mod == LongLong then 0x1_0000_0000_0000_0000 else 0x1_0000_0000;
    CutIsCongruent(a.word, p, SignedArg(a, mod));
    CutIsCongruent(a.word, p, Denoted(UnsignedArg(a, mod), fl.(unsigned := true)));
  }

  // ---- Directives ----

  // A width or a precision. A period with nothing behind it is the lone precision.
  datatype Amount = Omitted | Lone | Decimal(text: string) | Star

  predicate IsDecimal(t: string) { forall i :: 0 <= i < |t| ==> '0' <= t[i] <= '9' }

  // The number that decimal digits stand for.
  ghost function DecimalValue(t: string): nat
    requires IsDecimal(t)
  {
    if t == "" then 0 else 10 * DecimalValue(t[..|t| - 1]) + (t[|t| - 1] as int - '0' as int)
  }

  function ModifierText(mod: Mod): string {
    match mod
    case Plain => ""
    case Short => "h"
    case Long => "l"
    case LongLong => "ll"
    case LongDouble => "L"
  }

  datatype Directive = Directive(flags: string, width: Amount, precision: Amount, mod: Mod, conversion: char) {
    // The flags are any of the five, in any order; a width does not start with the flag 0.
    predicate Valid() {
      && (forall i :: 0 <= i < |flags| ==> flags[i] in "-+ #0")
      && !width.Lone? && (width.Decimal? ==> IsDecimal(width.text) && width.text != "" && width.text[0] != '0')
      && (precision.Decimal? ==> IsDecimal(precision.text) && precision.text != "")
      && conversion !in "-+ #0123456789*.hlL"
    }

    function WidthText(): string {
      match width
      case Decimal(t) => t
      case Star => "*"
      case _ => ""
    }

    function PrecisionText(): string {
      match precision
      case Omitted => ""
      case Lone => "."
      case Decimal(t) => "." + t
      case Star => ".*"
    }

    function Written(): string { "%" + flags + WidthText() + PrecisionText() + ModifierText(mod) + [conversion] }

    // How many arguments the width and the precision take.
    function Stars(): nat { (if width.Star? then 1 else 0) + (if precision.Star? then 1 else 0) }

    ghost predicate WidthIs(w: int, args: Args, k: nat)
      requires Valid()
    {
      match width
      case Decimal(t) => w == DecimalValue(t)
      case Star => IsArgument(w, args(k).word, false, Plain)
      case _ => w == 0
    }

    // None is -1; the standard reads a lone period as 0.
    ghost predicate PrecisionIs(p: int, args: Args, k: nat)
      requires Valid()
    {
      match precision
      case Omitted => p == -1
      case Lone => p == 0
      case Decimal(t) => p == DecimalValue(t)
      case Star => IsArgument(p, args(k + if width.Star? then 1 else 0).word, false, Plain)
    }

    predicate IsUnsigned() { conversion in "ouxX" }

    // A pointer is printed as a long number in base 16.
    function Base(): nat { if conversion == 'o' then 8 else if conversion in "xXp" then 16 else 10 }

    function ArgumentMod(): Mod { if conversion == 'p' then Long else mod }

    function FlagSet(): Flags {
      Flags('-' in flags, '+' in flags, ' ' in flags, '#' in flags, '0' in flags, conversion == 'X', IsUnsigned())
    }
  }

  // ---- How the printer reads them ----

  function Marks(t: string): Flags { Flags('-' in t, '+' in t, ' ' in t, '#' in t, '0' in t, false, false) }

  lemma OneFlag(t: string, c: char)
    ensures c in "-+ #0" <==> AddFlag(c, Marks(t)).Some?
    ensures c in "-+ #0" ==> AddFlag(c, Marks(t)).value == Marks(t + [c])
  {
  }

  lemma {:induction false} ReadsFlags(f: string, a: nat, i: nat, j: nat, args: Args, k: nat)
    requires a <= i <= j < |f| && (forall x :: a <= x < j ==> f[x] in "-+ #0") && f[j] !in "-+ #0"
    ensures ReadFlags(f, i, args, k, Marks(f[a..i])) == ReadMin(f, j, args, k, Marks(f[a..j]), 0)
    decreases j - i
  {
    hide ReadMin, AddFlag, Marks;
    OneFlag(f[a..i], f[i]);
    if i < j {
      assert f[a..i + 1] == f[a..i] + [f[i]];
      ReadsFlags(f, a, i + 1, j, args, k);
    }
  }

  lemma DecimalMore(t: string, c: char)
    requires IsDecimal(t) && IsDigit(c)
    ensures IsDecimal(t + [c]) && DecimalValue(t + [c]) == 10 * DecimalValue(t) + DigitOf(c)
  {
    assert (t + [c])[..|t|] == t;
  }

  lemma {:induction false} ReadsWidth(f: string, a: nat, i: nat, j: nat, args: Args, k: nat, fl: Flags)
    requires a <= i <= j < |f| && (forall x :: a <= x < j ==> IsDigit(f[x])) && !IsDigit(f[j])
    ensures IsDecimal(f[a..i]) && IsDecimal(f[a..j])
    ensures ReadMin(f, i, args, k, fl, DecimalValue(f[a..i])) == ReadMin(f, j, args, k, fl, DecimalValue(f[a..j]))
    decreases j - i
  {
    hide ReadDot, DecimalValue, SignedArg;
    if i < j {
      assert f[a..i + 1] == f[a..i] + [f[i]];
      DecimalMore(f[a..i], f[i]);
      ReadsWidth(f, a, i + 1, j, args, k, fl);
    }
  }

  lemma {:induction false} ReadsPrecision(f: string, a: nat, i: nat, j: nat, args: Args, k: nat, fl: Flags, min: int)
    requires a <= i <= j < |f| && (forall x :: a <= x < j ==> IsDigit(f[x])) && !IsDigit(f[j])
    ensures IsDecimal(f[a..i]) && IsDecimal(f[a..j])
    ensures ReadMax(f, i, args, k, fl, min, if i == a then -1 else DecimalValue(f[a..i]))
      == ReadMax(f, j, args, k, fl, min, if j == a then -1 else DecimalValue(f[a..j]))
    decreases j - i
  {
    hide ReadMod, DecimalValue, SignedArg;
    if i < j {
      assert f[a..i + 1] == f[a..i] + [f[i]];
      DecimalMore(f[a..i], f[i]);
      EmptyDecimal();
      assert f[a..a] == "";
      ReadsPrecision(f, a, i + 1, j, args, k, fl, min);
    }
  }

  lemma EmptyDecimal()
    ensures DecimalValue("") == 0
  {
  }

  // The directive stands at a place of a format.
  ghost predicate Stands(f: string, i: nat, d: Directive) {
    i + |d.Written()| <= |f| && f[i..i + |d.Written()|] == d.Written()
  }

  // Where its width, its precision, its modifier and its conversion character are.
  function WidthAt(i: nat, d: Directive): nat { i + 1 + |d.flags| }
  function PrecisionAt(i: nat, d: Directive): nat { WidthAt(i, d) + |d.WidthText()| }
  function ModAt(i: nat, d: Directive): nat { PrecisionAt(i, d) + |d.PrecisionText()| }
  function ConversionAt(i: nat, d: Directive): nat { ModAt(i, d) + |ModifierText(d.mod)| }

  lemma Places(f: string, i: nat, d: Directive)
    requires Stands(f, i, d)
    ensures ConversionAt(i, d) < |f| && f[i] == '%' && i + |d.Written()| == ConversionAt(i, d) + 1
    ensures f[i + 1..WidthAt(i, d)] == d.flags && f[WidthAt(i, d)..PrecisionAt(i, d)] == d.WidthText()
    ensures f[PrecisionAt(i, d)..ModAt(i, d)] == d.PrecisionText()
    ensures f[ModAt(i, d)..ConversionAt(i, d)] == ModifierText(d.mod) && f[ConversionAt(i, d)] == d.conversion
  {
    hide Directive.WidthText, Directive.PrecisionText, ModifierText;
    SixPieces(f, i, d.Written(), "%", d.flags, d.WidthText(), d.PrecisionText(), ModifierText(d.mod), [d.conversion]);
    assert f[i..i + 1][0] == f[i];
    assert f[ConversionAt(i, d)..ConversionAt(i, d) + 1][0] == f[ConversionAt(i, d)];
  }

  lemma SixPieces(f: string, i: nat, w: string, p1: string, p2: string, p3: string, p4: string, p5: string, p6: string)
    requires w == p1 + p2 + p3 + p4 + p5 + p6 && i + |w| <= |f| && f[i..i + |w|] == w
    ensures var a := i + |p1|;
            var b := a + |p2|;
            var c := b + |p3|;
            var d := c + |p4|;
            var e := d + |p5|;
            && i + |w| == e + |p6| && f[i..a] == p1 && f[a..b] == p2 && f[b..c] == p3 && f[c..d] == p4
            && f[d..e] == p5 && f[e..e + |p6|] == p6
  {
    LastPiece(f, i, p1 + p2 + p3 + p4 + p5, p6);
    LastPiece(f, i, p1 + p2 + p3 + p4, p5);
    LastPiece(f, i, p1 + p2 + p3, p4);
    LastPiece(f, i, p1 + p2, p3);
    LastPiece(f, i, p1, p2);
  }

  lemma LastPiece(f: string, i: nat, before: string, piece: string)
    requires i + |before + piece| <= |f| && f[i..i + |before + piece|] == before + piece
    ensures f[i..i + |before|] == before && f[i + |before|..i + |before + piece|] == piece
  {
    var w := before + piece;
    var g := f[i..i + |w|];
    forall y | i <= y < i + |w| ensures f[y] == w[y - i] {
      assert g[y - i] == w[y - i];
    }
  }

  // What stands behind a piece: the first character of the next piece that is not empty.
  lemma NextChars(f: string, i: nat, d: Directive)
    requires Stands(f, i, d) && d.Valid()
    ensures ConversionAt(i, d) < |f|
    ensures f[WidthAt(i, d)] !in "-+ #0"
    ensures !IsDigit(f[PrecisionAt(i, d)]) && f[PrecisionAt(i, d)] != '*'
    ensures f[PrecisionAt(i, d)] == '.' <==> !d.precision.Omitted?
    ensures !IsDigit(f[ModAt(i, d)]) && f[ModAt(i, d)] != '*'
  {
    hide Stands;
    Places(f, i, d);
    FirstChar(f, WidthAt(i, d), d.WidthText());
    FirstChar(f, PrecisionAt(i, d), d.PrecisionText());
    FirstChar(f, ModAt(i, d), ModifierText(d.mod));
  }

  lemma FirstChar(f: string, i: nat, t: string)
    requires i + |t| <= |f| && f[i..i + |t|] == t
    ensures t != "" ==> f[i] == t[0]
  {
    if t != "" {
      assert f[i..i + |t|][0] == f[i];
    }
  }

  lemma FlagsRead(f: string, i: nat, d: Directive, args: Args, k: nat)
    requires Stands(f, i, d) && d.Valid()
    ensures ReadFlags(f, i + 1, args, k, NO_FLAGS) == ReadMin(f, WidthAt(i, d), args, k, Marks(d.flags), 0)
  {
    hide Stands, ReadFlags, ReadMin, Directive.WidthText, Directive.PrecisionText;
    Places(f, i, d);
    NextChars(f, i, d);
    assert f[i + 1..i + 1] == "" && Marks("") == NO_FLAGS;
    forall x | i + 1 <= x < WidthAt(i, d) ensures f[x] in "-+ #0" {
      assert f[x] == d.flags[x - i - 1];
    }
    ReadsFlags(f, i + 1, i + 1, WidthAt(i, d), args, k);
  }

  // The next argument behind the width.
  function AfterWidth(d: Directive, k: nat): nat { k + if d.width.Star? then 1 else 0 }

  lemma WidthRead(f: string, i: nat, d: Directive, args: Args, k: nat, fl: Flags, w: int)
    requires Stands(f, i, d) && d.Valid() && d.WidthIs(w, args, k)
    ensures ReadMin(f, WidthAt(i, d), args, k, fl, 0) == ReadDot(f, PrecisionAt(i, d), args, AfterWidth(d, k), fl, w)
  {
    hide Stands, ReadDot, SignedArg, DecimalValue, IsArgument, Directive.PrecisionText;
    Places(f, i, d);
    NextChars(f, i, d);
    var a, b := WidthAt(i, d), PrecisionAt(i, d);
    if d.width.Star? {
      FirstChar(f, a, "*");
      ArgumentIsRead(args(k), Plain, NO_FLAGS);
      ArgumentIsUnique(w, SignedArg(args(k), Plain), args(k).word, false, Plain);
    } else {
      forall x | a <= x < b ensures IsDigit(f[x]) {
        assert f[x] == d.WidthText()[x - a];
      }
      ReadsWidth(f, a, a, b, args, k, fl);
      EmptyDecimal();
      assert f[a..a] == "";
    }
  }

  lemma PrecisionRead(f: string, i: nat, d: Directive, args: Args, k: nat, fl: Flags, min: int, p: int)
    requires Stands(f, i, d) && d.Valid() && d.PrecisionIs(p, args, k)
    ensures ReadDot(f, PrecisionAt(i, d), args, AfterWidth(d, k), fl, min)
      == ReadMod(f, ModAt(i, d), k + d.Stars(), fl, min, if d.precision.Lone? then -1 else p)
  {
    hide Stands, ReadMod, SignedArg, DecimalValue, IsArgument, Directive.WidthText, Directive.Valid;
    Places(f, i, d);
    NextChars(f, i, d);
    var a, b, k' := PrecisionAt(i, d), ModAt(i, d), AfterWidth(d, k);
    if d.precision.Star? {
      assert f[a..b][1] == f[a + 1];
      ArgumentIsRead(args(k'), Plain, NO_FLAGS);
      ArgumentIsUnique(p, SignedArg(args(k'), Plain), args(k').word, false, Plain);
    } else if !d.precision.Omitted? {
      PrecisionDigits(f, d, a, b);
      ReadsPrecision(f, a + 1, a + 1, b, args, k', fl, min);
    }
  }

  lemma PrecisionDigits(f: string, d: Directive, a: nat, b: nat)
    requires d.Valid() && a <= b < |f| && f[a..b] == d.PrecisionText() && (d.precision.Lone? || d.precision.Decimal?)
    ensures a < b && forall x :: a + 1 <= x < b ==> IsDigit(f[x])
    ensures f[a + 1..b] == if d.precision.Lone? then "" else d.precision.text
    ensures b == a + 1 <==> d.precision.Lone?
  {
    forall x | a + 1 <= x < b ensures IsDigit(f[x]) {
      assert f[x] == d.PrecisionText()[x - a];
    }
  }

  lemma ModRead(f: string, i: nat, d: Directive, k: nat, fl: Flags, min: int, max: int)
    requires Stands(f, i, d) && d.Valid()
    ensures ReadMod(f, ModAt(i, d), k, fl, min, max) == Spec(fl, min, max, d.mod, ConversionAt(i, d), k)
  {
    hide Stands, Directive.WidthText, Directive.PrecisionText;
    Places(f, i, d);
    var a := ModAt(i, d);
    assert d.mod != Plain ==> f[a..ConversionAt(i, d)][0] == f[a];
    assert d.mod == LongLong ==> f[a..ConversionAt(i, d)][1] == f[a + 1];
  }

  // The directive that the printer reads is the one that is written.
  lemma DirectiveIsRead(f: string, i: nat, d: Directive, args: Args, k: nat, w: int, p: int)
    requires Stands(f, i, d) && d.Valid() && d.WidthIs(w, args, k) && d.PrecisionIs(p, args, k)
    ensures ReadFlags(f, i + 1, args, k, NO_FLAGS)
      == Spec(Marks(d.flags), w, if d.precision.Lone? then -1 else p, d.mod, ConversionAt(i, d), k + d.Stars())
  {
    hide Stands, ReadFlags, ReadMin, ReadDot, ReadMod, Marks, Directive.Valid, Directive.WidthIs, Directive.PrecisionIs,
      WidthAt, PrecisionAt, ModAt, ConversionAt;
    FlagsRead(f, i, d, args, k);
    WidthRead(f, i, d, args, k, Marks(d.flags), w);
    PrecisionRead(f, i, d, args, k, Marks(d.flags), w, p);
    ModRead(f, i, d, k + d.Stars(), Marks(d.flags), w, if d.precision.Lone? then -1 else p);
  }

  // ---- What is printed for them ----

  function PrinterPrecision(d: Directive, p: int): int { if d.precision.Lone? then -1 else p }

  // The conversion's text, and then the text of what follows.
  lemma DirectivePrints(f: string, i: nat, d: Directive, args: Args, k: nat, fp: FloatText, w: int, p: int)
    requires Stands(f, i, d) && d.Valid() && d.WidthIs(w, args, k) && d.PrecisionIs(p, args, k)
    ensures var s := Spec(Marks(d.flags), w, PrinterPrecision(d, p), d.mod, ConversionAt(i, d), k + d.Stars());
            var r := Converted(d.conversion, s, args, fp);
            Text(f, i, args, k, fp)
              == r.0 + Text(f, AfterConversion(d.conversion, ConversionAt(i, d)), args, k + d.Stars() + r.1, fp)
    ensures ConversionAt(i, d) + 1 == i + |d.Written()|
  {
    hide Stands, Converted, AfterConversion, Marks, ReadFlags, Directive.Valid, Directive.WidthIs,
      Directive.PrecisionIs, Directive.Written, Directive.Stars, ConversionAt;
    Places(f, i, d);
    DirectiveIsRead(f, i, d, args, k, w, p);
    TextAtPercent(f, i, args, k, fp);
  }

  lemma TextAtPercent(f: string, i: nat, args: Args, k: nat, fp: FloatText)
    requires i < |f| && f[i] == '%'
    ensures Text(f, i, args, k, fp) == DirectiveText(f, ReadFlags(f, i + 1, args, k, NO_FLAGS), args, fp)
  {
  }

  lemma FlagSets(d: Directive)
    ensures d.conversion in "ouxX" ==>
      d.FlagSet() == if d.conversion == 'X' then Marks(d.flags).(unsigned := true, up := true)
      else Marks(d.flags).(unsigned := true)
    ensures d.conversion in "dicsp%" ==> d.FlagSet() == Marks(d.flags)
    ensures d.FlagSet().unsigned == d.IsUnsigned()
  {
  }

  // The text of an integer directive with its value for the printer.
  lemma IntegerText(d: Directive, s: Spec, args: Args, fp: FloatText) returns (value: int)
    requires d.conversion in "diouxXp" && s.fl == Marks(d.flags) && s.mod == d.mod
    ensures IsLong(value) && IsConversion(d.Base())
    ensures IsArgument(Denoted(value, d.FlagSet()), args(s.k).word, d.IsUnsigned(), d.ArgumentMod())
    ensures Converted(d.conversion, s, args, fp) == (IntText(value, d.Base(), s.min, s.max, d.FlagSet()), 1)
  {
    hide SignedArg, UnsignedArg, IntText, Marks, Denoted, IsArgument, Directive.FlagSet, Converted;
    FlagSets(d);
    IntegerConversions(d.conversion, s, args, fp);
    var mod := d.ArgumentMod();
    value := if d.IsUnsigned() then UnsignedArg(args(s.k), mod) else SignedArg(args(s.k), mod);
    ArgumentIsRead(args(s.k), mod, d.FlagSet());
    LongIs64(args(s.k));
  }

  lemma IntegerConversions(c: char, s: Spec, args: Args, fp: FloatText)
    ensures var a, fl := args(s.k), s.fl.(unsigned := true);
            && (c == 'd' || c == 'i' ==>
              Converted(c, s, args, fp) == (IntText(SignedArg(a, s.mod), 10, s.min, s.max, s.fl), 1))
            && (c == 'o' ==> Converted(c, s, args, fp) == (IntText(UnsignedArg(a, s.mod), 8, s.min, s.max, fl), 1))
            && (c == 'u' ==> Converted(c, s, args, fp) == (IntText(UnsignedArg(a, s.mod), 10, s.min, s.max, fl), 1))
            && (c == 'x' ==> Converted(c, s, args, fp) == (IntText(UnsignedArg(a, s.mod), 16, s.min, s.max, fl), 1))
            && (c == 'X' ==>
              Converted(c, s, args, fp) == (IntText(UnsignedArg(a, s.mod), 16, s.min, s.max, fl.(up := true)), 1))
            && (c == 'p' ==> Converted(c, s, args, fp) == (IntText(Signed64(a.word), 16, s.min, s.max, s.fl), 1))
  {
    hide SignedArg, UnsignedArg, Signed64, IntText, StrArgText;
  }

  lemma LongIs64(a: Arg)
    ensures SignedArg(a, Long) == Signed64(a.word)
  {
  }

  // d, i, o, u, x, X and p, with any flags, width, precision and modifier: the argument's number in the
  // base of the conversion, exactly when the standard's text for it is one that the printer makes.
  lemma IntegerDirectiveIsStandard(f: string, i: nat, d: Directive, args: Args, k: nat, fp: FloatText, w: int, p: int,
                                   n: int) returns (t: string)
    requires Stands(f, i, d) && d.Valid() && d.conversion in "diouxXp"
    requires d.WidthIs(w, args, k) && d.PrecisionIs(p, args, k)
    requires IsArgument(n, args(k + d.Stars()).word, d.IsUnsigned(), d.ArgumentMod())
    ensures Text(f, i, args, k, fp) == t + Text(f, i + |d.Written()|, args, k + d.Stars() + 1, fp)
    ensures t == StandardInteger(n, d.Base(), w, p, d.FlagSet()) <==> PrintsInteger(n, d.Base(), w, p, d.FlagSet())
    ensures Abs(n) < Power(d.Base(), 19) ==> t == PrintedAs(n, d.Base(), w, p, d.FlagSet())
  {
    hide Stands, Converted, Marks, Directive.Valid, Directive.WidthIs, Directive.Written, Text, IntText, PrintsInteger,
      Directive.ArgumentMod, PrintedAs, Abs, Power,
      StandardInteger, IsArgument, Denoted, Directive.FlagSet, Directive.Stars, ConversionAt, IsConversion;
    DirectivePrints(f, i, d, args, k, fp, w, p);
    var max := PrinterPrecision(d, p);
    var s := Spec(Marks(d.flags), w, max, d.mod, ConversionAt(i, d), k + d.Stars());
    var value := IntegerText(d, s, args, fp);
    t := IntText(value, d.Base(), w, max, d.FlagSet());
    ArgumentIsUnique(n, Denoted(value, d.FlagSet()), args(k + d.Stars()).word, d.IsUnsigned(), d.ArgumentMod());
    LoneIsZero(d, p, args, k);
    IntegerIsStandard(value, d.Base(), w, max, d.precision.Lone?, d.FlagSet());
    IntegerAlwaysPrints(value, d.Base(), w, max, d.precision.Lone?, d.FlagSet());
  }

  // The same arguments with another string.
  function WithText(args: Args, k: nat, s: string): Args {
    (j: nat) => if j == k then Arg(args(k).word, Some(s)) else args(j)
  }

  // s: the string as the standard asks, whatever it is, exactly under the condition.
  lemma StringDirectiveIsKept(f: string, i: nat, d: Directive, args: Args, k: nat, fp: FloatText, w: int, p: int)
    requires Stands(f, i, d) && d.Valid() && d.conversion == 's'
    requires d.WidthIs(w, args, k) && d.PrecisionIs(p, args, k)
    ensures PrintsStrings(w, PrinterPrecision(d, p), d.precision.Lone?) <==>
      (forall s :: PrintsAsString(f, i, d, WithText(args, k + d.Stars(), s), k, fp, StandardText(s, w, p, d.FlagSet())))
  {
    hide Stands, Directive.Valid, Directive.WidthIs, Directive.PrecisionIs, Directive.Written, Text, StrArgText,
      StandardText, PrintsStrings, PrintsAsString, Directive.FlagSet, Directive.Stars;
    forall s: string
      ensures PrintsAsString(f, i, d, WithText(args, k + d.Stars(), s), k, fp, StandardText(s, w, p, d.FlagSet()))
        <==> StrArgText(Some(s), w, PrinterPrecision(d, p), d.FlagSet()) == StandardText(s, w, p, d.FlagSet())
    {
      StringText(f, i, d, args, k, fp, w, p, s, StandardText(s, w, p, d.FlagSet()));
    }
    LoneIsZero(d, p, args, k);
    PrecisionIsKept(w, PrinterPrecision(d, p), d.precision.Lone?, d.FlagSet());
  }

  // What it prints of a string in any case.
  lemma StringDirectivePrints(f: string, i: nat, d: Directive, args: Args, k: nat, fp: FloatText, w: int, p: int,
                              s: string)
    requires Stands(f, i, d) && d.Valid() && d.conversion == 's' && args(k + d.Stars()).text == Some(s)
    requires d.WidthIs(w, args, k) && d.PrecisionIs(p, args, k)
    ensures Text(f, i, args, k, fp)
      == ShownAs(s, w, PrinterPrecision(d, p), d.FlagSet()) + Text(f, i + |d.Written()|, args, k + d.Stars() + 1, fp)
  {
    hide Stands, Directive.Valid, Directive.WidthIs, Directive.PrecisionIs, Directive.Written, Text, StrArgText,
      ShownAs, Marks, Directive.FlagSet, Directive.Stars, ConversionAt;
    DirectivePrints(f, i, d, args, k, fp, w, p);
    FlagSets(d);
    StringAlwaysPrints(s, w, PrinterPrecision(d, p), d.FlagSet());
  }

  // A text, and then the text of what follows the directive and its arguments.
  ghost predicate PrintsAsString(f: string, i: nat, d: Directive, args: Args, k: nat, fp: FloatText, t: string) {
    Text(f, i, args, k, fp) == t + Text(f, i + |d.Written()|, args, k + d.Stars() + 1, fp)
  }

  lemma LoneIsZero(d: Directive, p: int, args: Args, k: nat)
    requires d.Valid() && d.PrecisionIs(p, args, k)
    ensures Precision(PrinterPrecision(d, p), d.precision.Lone?) == p
  {
  }

  lemma SameAmounts(d: Directive, args: Args, k: nat, w: int, p: int, j: nat, s: string)
    requires d.Valid() && d.WidthIs(w, args, k) && d.PrecisionIs(p, args, k)
    ensures d.WidthIs(w, WithText(args, j, s), k) && d.PrecisionIs(p, WithText(args, j, s), k)
  {
    hide IsArgument;
  }

  lemma StringText(f: string, i: nat, d: Directive, args: Args, k: nat, fp: FloatText, w: int, p: int, s: string,
                   t: string)
    requires Stands(f, i, d) && d.Valid() && d.conversion == 's'
    requires d.WidthIs(w, args, k) && d.PrecisionIs(p, args, k)
    ensures PrintsAsString(f, i, d, WithText(args, k + d.Stars(), s), k, fp, t)
      <==> StrArgText(Some(s), w, PrinterPrecision(d, p), d.FlagSet()) == t
  {
    hide Stands, Directive.Valid, Directive.WidthIs, Directive.PrecisionIs, Directive.Written, Text, StrArgText, Marks,
      Directive.FlagSet, Directive.Stars, ConversionAt;
    var args' := WithText(args, k + d.Stars(), s);
    SameAmounts(d, args, k, w, p, k + d.Stars(), s);
    DirectivePrints(f, i, d, args', k, fp, w, p);
    FlagSets(d);
    var rest := Text(f, i + |d.Written()|, args', k + d.Stars() + 1, fp);
    SameStart(StrArgText(Some(s), w, PrinterPrecision(d, p), d.FlagSet()), t, rest);
  }

  lemma SameStart(a: string, b: string, rest: string)
    ensures a + rest == b + rest <==> a == b
  {
    if a + rest == b + rest {
      assert (a + rest)[..|a|] == a && (b + rest)[..|a|] == b;
    }
  }

  // c: the character in the low byte, whatever the width; that is what the standard asks for up to
  // width 1. The percent sign stands for itself and takes no argument of its own.
  lemma CharacterDirective(f: string, i: nat, d: Directive, args: Args, k: nat, fp: FloatText, w: int, p: int)
    requires Stands(f, i, d) && d.Valid() && d.WidthIs(w, args, k) && d.PrecisionIs(p, args, k)
    ensures d.conversion == 'c' ==>
      var c := [(args(k + d.Stars()).word % 256) as char];
      && Text(f, i, args, k, fp) == c + Text(f, i + |d.Written()|, args, k + d.Stars() + 1, fp)
      && (c == StandardText(c, w, -1, d.FlagSet()) <==> -1 <= w <= 1)
    ensures d.conversion == '%' ==>
      Text(f, i, args, k, fp) == "%" + Text(f, i + |d.Written()|, args, k + d.Stars(), fp)
  {
    hide Stands, Directive.Valid, Directive.WidthIs, Directive.PrecisionIs, Directive.Written, Text, IntText,
      StrArgText, Marks, Directive.FlagSet, Directive.Stars, ConversionAt, StandardText, SignedArg, UnsignedArg;
    DirectivePrints(f, i, d, args, k, fp, w, p);
    OneCharacter((args(k + d.Stars()).word % 256) as char, w, d.FlagSet());
  }

  lemma OneCharacter(c: char, w: int, fl: Flags)
    ensures [c] == StandardText([c], w, -1, fl) <==> -1 <= w <= 1
  {
    var t := StandardText([c], w, -1, fl);
    assert |t| == Max(Max(w, -w), 1);
    if -1 <= w <= 1 {
      assert Repeat(' ', 0) + [c] == [c] && [c] + Repeat(' ', 0) == [c];
    }
  }

  // f prints what is given from outside; e, g and n print nothing and take an argument; characters
  // that are no conversion print nothing and take none, and w skips the character behind it.
  lemma OtherDirectives(f: string, i: nat, d: Directive, args: Args, k: nat, fp: FloatText, w: int, p: int)
    requires Stands(f, i, d) && d.Valid() && d.WidthIs(w, args, k) && d.PrecisionIs(p, args, k)
    requires d.conversion !in "diouxXcsp%"
    ensures var j, m := i + |d.Written()|, k + d.Stars();
            Text(f, i, args, k, fp) ==
              if d.conversion == 'f' then
                fp(args(m), w, PrinterPrecision(d, p), d.FlagSet()) + Text(f, j, args, m + 1, fp)
              else if d.conversion in "eEgGn" then Text(f, j, args, m + 1, fp)
              else Text(f, if d.conversion == 'w' then j + 1 else j, args, m, fp)
  {
    hide Stands, Directive.Valid, Directive.WidthIs, Directive.PrecisionIs, Directive.Written, Text, IntText,
      StrArgText, Directive.Stars, ConversionAt, SignedArg, UnsignedArg;
    DirectivePrints(f, i, d, args, k, fp, w, p);
  }

  // The number that n stores for a count: cut to short, int or long, as the modifier says.
  predicate IsCount(v: int, count: nat, mod: Mod) {
    if mod == Short then (v - count) % 0x1_0000 == 0 && -0x8000 <= v < 0x8000 else IsArgument(v, count, false, mod)
  }

  lemma CountIsCut(arg: nat, mod: Mod, count: nat)
    ensures IsCount(CountFor(arg, mod, count).value, count, mod)
  {
    var p: nat := if mod == Short then 0x1_0000 else if mod == Long || mod == LongLong then 0x1_0000_0000_0000_0000
      else 0x1_0000_0000;
    CutIsCongruent(count, p, CountFor(arg, mod, count).value);
  }

  // n stores the number of characters so far through its argument, and no other directive stores
  // anything; only a w at the very end runs over the format.
  lemma DirectiveEffects(f: string, i: nat, d: Directive, args: Args, k: nat, fp: FloatText, w: int, p: int,
                         count: nat) returns (t: string, j: nat, m: nat, v: int)
    requires Stands(f, i, d) && d.Valid() && d.WidthIs(w, args, k) && d.PrecisionIs(p, args, k)
    ensures Text(f, i, args, k, fp) == t + Text(f, j, args, m, fp)
    ensures j == i + |d.Written()| + (if d.conversion == 'w' then 1 else 0)
    ensures IsCount(v, count, d.mod)
    ensures Stores(f, i, args, k, fp, count) == (if d.conversion == 'n' then [Stored(k + d.Stars(), d.mod, v)] else [])
      + Stores(f, j, args, m, fp, count + |t|)
    ensures Overruns(f, i, args, k, fp) <==>
      (d.conversion == 'w' && i + |d.Written()| == |f|) || Overruns(f, j, args, m, fp)
  {
    hide Stands, Converted, Marks, ReadFlags, Directive.Valid, Directive.WidthIs, Directive.PrecisionIs,
      Directive.Written, Directive.Stars, ConversionAt, IsCount, Text;
    Places(f, i, d);
    DirectivePrints(f, i, d, args, k, fp, w, p);
    DirectiveIsRead(f, i, d, args, k, w, p);
    var s := Spec(Marks(d.flags), w, PrinterPrecision(d, p), d.mod, ConversionAt(i, d), k + d.Stars());
    var r := Converted(d.conversion, s, args, fp);
    t, j, m := r.0, AfterConversion(d.conversion, ConversionAt(i, d)), k + d.Stars() + r.1;
    v := CountFor(k + d.Stars(), d.mod, count).value;
    CountIsCut(k + d.Stars(), d.mod, count);
    EffectsAtPercent(f, i, args, k, fp, count);
  }

  lemma EffectsAtPercent(f: string, i: nat, args: Args, k: nat, fp: FloatText, count: nat)
    requires i < |f| && f[i] == '%'
    ensures var s := ReadFlags(f, i + 1, args, k, NO_FLAGS);
            && Stores(f, i, args, k, fp, count) == DirectiveStores(f, s, args, fp, count)
            && (Overruns(f, i, args, k, fp) <==> DirectiveOverruns(f, s, args, fp))
  {
    hide DirectiveStores, DirectiveOverruns, ReadFlags;
  }

  // A lone period prints the whole string instead of nothing.
  lemma LonePeriodPrintsAll(args: Args, fp: FloatText)
    requires args(0).text == Some("abc")
    ensures var d := Directive("", Omitted, Lone, Plain, 's'); d.Valid() && d.Written() == "%.s"
    ensures Text("%.s", 0, args, 0, fp) == "abc" && StandardText("abc", 0, 0, NO_FLAGS) == ""
  {
    hide StrArgText, StandardText, IntText, SignedArg, UnsignedArg, Signed64;
    var f := "%.s";
    AbcLone();
    assert ReadFlags(f, 1, args, 0, NO_FLAGS) == Spec(NO_FLAGS, 0, -1, Plain, 2, 0);
    assert Text(f, 3, args, 1, fp) == "";
  }

  lemma AbcLone()
    ensures StrArgText(Some("abc"), 0, -1, NO_FLAGS) == "abc" && StandardText("abc", 0, 0, NO_FLAGS) == ""
  {
  }
}
