/**
 The formatted printer: a state machine over the format that writes into a bounded buffer. The
 reference is the text that the format describes, of unbounded length; the buffer holds the part
 of it that fits.
 */
module Printf {
  import opened Common
  import opened Digits

  datatype Flags = Flags(minus: bool, plus: bool, space: bool, num: bool, zero: bool, up: bool, unsigned: bool)

  datatype Mod = Plain | Short | Long | LongDouble | LongLong

  // One argument: its 64 bits, and the string when it is a pointer to one.
  datatype Arg = Arg(word: nat, text: Option<string>)

  type Args = nat -> Arg

  // What a floating-point conversion prints, given from outside.
  type FloatText = (Arg, int, int, Flags) -> string

  const NO_FLAGS: Flags := Flags(false, false, false, false, false, false, false)

  function Max(x: int, y: int): (m: int)
    ensures m >= x && m >= y && (m == x || m == y)
  {
    if x >= y then x else y
  }

  // ---- Words as C integers ----

  function Signed32(word: nat): int {
    var low := word % 0x1_0000_0000;
    if low < 0x8000_0000 then low else low - 0x1_0000_0000
  }

  function Signed64(word: nat): (v: int)
    ensures -0x8000_0000_0000_0000 <= v < 0x8000_0000_0000_0000
  {
    var low := word % 0x1_0000_0000_0000_0000;
    if low < 0x8000_0000_0000_0000 then low else low - 0x1_0000_0000_0000_0000
  }

  predicate IsLong(v: int) { -0x8000_0000_0000_0000 <= v < 0x8000_0000_0000_0000 }

  function SignedArg(a: Arg, mod: Mod): (v: int)
    ensures IsLong(v)
  {
    if mod == Long || mod == LongLong then Signed64(a.word) else Signed32(a.word)
  }

  function UnsignedArg(a: Arg, mod: Mod): (v: int)
    ensures IsLong(v)
  {
    if mod == Long || mod == LongLong then Signed64(a.word) else a.word % 0x1_0000_0000
  }

  // ---- What an integer conversion prints ----

  function DigitChar(d: nat, caps: bool): char
    requires d < 16
  {
    if d < 10 then ('0' as int + d) as char else if caps then ('A' as int + d - 10) as char
      else ('a' as int + d - 10) as char
  }

  function Chars(ds: seq<nat>, caps: bool): (t: string)
    requires forall i :: 0 <= i < |ds| ==> ds[i] < 16
    ensures |t| == |ds|
  {
    seq(|ds|, i requires 0 <= i < |ds| => DigitChar(ds[i], caps))
  }

  lemma ReverseKeepsBound(ds: seq<nat>, b: nat)
    requires forall i :: 0 <= i < |ds| ==> ds[i] < b
    ensures forall i :: 0 <= i < |Reverse(ds)| ==> Reverse(ds)[i] < b
  {
    if ds != [] {
      ReverseKeepsBound(ds[1..], b);
    }
  }

  // At most 19 digits: the buffer of 20 keeps one place for the end.
  function DigitList(u: nat, base: nat): (r: seq<nat>)
    requires 2 <= base <= 16
    ensures 1 <= |r| <= 19 && forall i :: 0 <= i < |r| ==> r[i] < base
  {
    var ds: seq<nat> := LeastFirst(u, base, 19);
    ReverseKeepsBound(ds, base);
    var r: seq<nat> := Reverse(ds);
    r
  }

  function DigitText(u: nat, base: nat, caps: bool): (t: string)
    requires 2 <= base <= 16
    ensures 1 <= |t| <= 19
  {
    Chars(DigitList(u, base), caps)
  }

  function Repeat(c: char, n: nat): (t: string)
    ensures |t| == n
  {
    seq(n, _ => c)
  }

  lemma RepeatAt(c: char, n: nat, i: nat)
    requires i < n
    ensures Repeat(c, n)[i] == c
  {
  }

  function SignText(value: int, fl: Flags): (t: string)
    ensures |t| <= 1
  {
    if fl.unsigned then "" else if value < 0 then "-" else if fl.plus then "+" else if fl.space then " " else ""
  }

  function Magnitude(value: int, fl: Flags): (u: nat)
    requires IsLong(value)
    ensures u < 0x1_0000_0000_0000_0000
  {
    if value >= 0 then value else if fl.unsigned then value + 0x1_0000_0000_0000_0000 else 0 - value
  }

  function IntText(value: int, base: nat, min: int, max: int, fl: Flags): string
    requires IsLong(value) && 2 <= base <= 16
  {
    var sign, digits := SignText(value, fl), DigitText(Magnitude(value, fl), base, fl.up);
    var zeros := Max(Max(max, 0) - |digits|, 0);
    var spaces := Max(min - Max(Max(max, 0), |digits|) - |sign|, 0);
    if fl.zero then sign + Repeat('0', Max(zeros, spaces)) + digits
    else if fl.minus then sign + Repeat('0', zeros) + digits + Repeat(' ', spaces)
    else Repeat(' ', spaces) + sign + Repeat('0', zeros) + digits
  }

  // ---- What a string conversion prints ----

  function StrText(value: Option<string>, min: int, max: int, fl: Flags): string {
    var s := if value.Some? then value.value else "<NULL>";
    var spaces := Repeat(' ', Max(min - |s|, 0));
    var full := if fl.minus then s + spaces else spaces + s;
    if max < 0 then "" else if max < |full| then full[..max] else full
  }

  // The limit that the caller passes on: the length without a precision, and never below the width.
  function StrLimit(value: Option<string>, min: int, max: int): int {
    var m := if max != -1 then max else if value.Some? then |value.value| else 0;
    if min > 0 && m >= 0 && min > m then min else m
  }

  function StrArgText(value: Option<string>, min: int, max: int, fl: Flags): string {
    StrText(value, min, StrLimit(value, min, max), fl)
  }

  // ---- The format ----

  // The character at a place of the format, NUL at its end.
  function At(f: string, i: nat): char {
    if i < |f| then f[i] else '\0'
  }

  predicate IsDigit(c: char) { '0' <= c <= '9' }

  function DigitOf(c: char): nat
    requires IsDigit(c)
  {
    c as int - '0' as int
  }

  // A directive: flags, width, precision and modifier, where its conversion character is, and the
  // number of the next argument.
  datatype Spec = Spec(fl: Flags, min: int, max: int, mod: Mod, at: nat, k: nat)

  function AddFlag(c: char, fl: Flags): Option<Flags> {
    match c
    case '-' => Some(fl.(minus := true))
    case '+' => Some(fl.(plus := true))
    case ' ' => Some(fl.(space := true))
    case '#' => Some(fl.(num := true))
    case '0' => Some(fl.(zero := true))
    case _ => None
  }

  function ReadFlags(f: string, i: nat, args: Args, k: nat, fl: Flags): (s: Spec)
    ensures i <= s.at && (s.at > |f| ==> s.at == i)
    decreases |f| - i
  {
    if i < |f| && AddFlag(f[i], fl).Some? then ReadFlags(f, i + 1, args, k, AddFlag(f[i], fl).value)
    else ReadMin(f, i, args, k, fl, 0)
  }

  function ReadMin(f: string, i: nat, args: Args, k: nat, fl: Flags, min: int): (s: Spec)
    ensures i <= s.at && (s.at > |f| ==> s.at == i)
    decreases |f| - i
  {
    if i < |f| && IsDigit(f[i]) then ReadMin(f, i + 1, args, k, fl, 10 * min + DigitOf(f[i]))
    else if At(f, i) == '*' then ReadDot(f, i + 1, args, k + 1, fl, SignedArg(args(k), Plain))
    else ReadDot(f, i, args, k, fl, min)
  }

  function ReadDot(f: string, i: nat, args: Args, k: nat, fl: Flags, min: int): (s: Spec)
    ensures i <= s.at && (s.at > |f| ==> s.at == i)
  {
    if At(f, i) == '.' then ReadMax(f, i + 1, args, k, fl, min, -1) else ReadMod(f, i, k, fl, min, -1)
  }

  function ReadMax(f: string, i: nat, args: Args, k: nat, fl: Flags, min: int, max: int): (s: Spec)
    ensures i <= s.at && (s.at > |f| ==> s.at == i)
    decreases |f| - i
  {
    if i < |f| && IsDigit(f[i]) then ReadMax(f, i + 1, args, k, fl, min, 10 * Max(max, 0) + DigitOf(f[i]))
    else if At(f, i) == '*' then ReadMod(f, i + 1, k + 1, fl, min, SignedArg(args(k), Plain))
    else ReadMod(f, i, k, fl, min, max)
  }

  function ReadMod(f: string, i: nat, k: nat, fl: Flags, min: int, max: int): (s: Spec)
    ensures i <= s.at && (s.at > |f| ==> s.at == i)
  {
    match At(f, i)
    case 'h' => Spec(fl, min, max, Short, i + 1, k)
    case 'l' => if At(f, i + 1) == 'l' then Spec(fl, min, max, LongLong, i + 2, k)
      else Spec(fl, min, max, Long, i + 1, k)
    case 'L' => Spec(fl, min, max, LongDouble, i + 1, k)
    case _ => Spec(fl, min, max, Plain, i, k)
  }

  // What a conversion prints and whether it takes an argument.
  function Converted(c: char, s: Spec, args: Args, fp: FloatText): (string, nat) {
    var a, unsigned := args(s.k), s.fl.(unsigned := true);
    match c
    case 'd' => (IntText(SignedArg(a, s.mod), 10, s.min, s.max, s.fl), 1)
    case 'i' => (IntText(SignedArg(a, s.mod), 10, s.min, s.max, s.fl), 1)
    case 'o' => (IntText(UnsignedArg(a, s.mod), 8, s.min, s.max, unsigned), 1)
    case 'u' => (IntText(UnsignedArg(a, s.mod), 10, s.min, s.max, unsigned), 1)
    case 'x' => (IntText(UnsignedArg(a, s.mod), 16, s.min, s.max, unsigned), 1)
    case 'X' => (IntText(UnsignedArg(a, s.mod), 16, s.min, s.max, unsigned.(up := true)), 1)
    case 'f' => (fp(a, s.min, s.max, s.fl), 1)
    case 'e' => ("", 1)
    case 'E' => ("", 1)
    case 'g' => ("", 1)
    case 'G' => ("", 1)
    case 'c' => ([(a.word % 256) as char], 1)
    case 's' => (StrArgText(a.text, s.min, s.max, s.fl), 1)
    case 'p' => (IntText(Signed64(a.word), 16, s.min, s.max, s.fl), 1)
    case 'n' => ("", 1)
    case '%' => ("%", 0)
    case _ => ("", 0)
  }

  // The place after a conversion; 'w' skips one more character.
  function AfterConversion(c: char, i: nat): nat {
    if c == 'w' then i + 2 else i + 1
  }

  // The text that the format describes from a place on.
  ghost function Text(f: string, i: nat, args: Args, k: nat, fp: FloatText): string
    decreases |f| - i, 1
  {
    if i >= |f| then ""
    else if f[i] != '%' then [f[i]] + Text(f, i + 1, args, k, fp)
    else DirectiveText(f, ReadFlags(f, i + 1, args, k, NO_FLAGS), args, fp)
  }

  ghost function DirectiveText(f: string, s: Spec, args: Args, fp: FloatText): string
    decreases |f| - s.at, 0
  {
    if s.at >= |f| then ""
    else
      var r := Converted(f[s.at], s, args, fp);
      r.0 + Text(f, AfterConversion(f[s.at], s.at), args, s.k + r.1, fp)
  }

  // A count stored through the pointer in an argument, cut to the type that the modifier names.
  datatype Stored = Stored(arg: nat, mod: Mod, value: int)

  function Signed16(word: nat): int {
    var low := word % 0x1_0000;
    if low < 0x8000 then low else low - 0x1_0000
  }

  function CountFor(arg: nat, mod: Mod, printed: nat): Stored {
    Stored(arg, mod,
      match mod
      case Short => Signed16(printed)
      case Long => Signed64(printed)
      case LongLong => Signed64(printed)
      case _ => Signed32(printed))
  }

  // What the %n directives from a place on store, after so many characters.
  ghost function Stores(f: string, i: nat, args: Args, k: nat, fp: FloatText, printed: nat): seq<Stored>
    decreases |f| - i, 1
  {
    if i >= |f| then []
    else if f[i] != '%' then Stores(f, i + 1, args, k, fp, printed + 1)
    else DirectiveStores(f, ReadFlags(f, i + 1, args, k, NO_FLAGS), args, fp, printed)
  }

  ghost function DirectiveStores(f: string, s: Spec, args: Args, fp: FloatText, printed: nat): seq<Stored>
    decreases |f| - s.at, 0
  {
    if s.at >= |f| then []
    else
      var r := Converted(f[s.at], s, args, fp);
      StoredBy(f[s.at], s, printed)
      + Stores(f, AfterConversion(f[s.at], s.at), args, s.k + r.1, fp, printed + |r.0|)
  }

  function StoredBy(c: char, s: Spec, printed: nat): seq<Stored> {
    if c == 'n' then [CountFor(s.k, s.mod, printed)] else []
  }

  // A format whose last directive is a 'w' right before the end: the printer would read past it.
  ghost predicate Overruns(f: string, i: nat, args: Args, k: nat, fp: FloatText)
    decreases |f| - i, 1
  {
    i < |f| && if f[i] != '%' then Overruns(f, i + 1, args, k, fp)
      else DirectiveOverruns(f, ReadFlags(f, i + 1, args, k, NO_FLAGS), args, fp)
  }

  ghost predicate DirectiveOverruns(f: string, s: Spec, args: Args, fp: FloatText)
    decreases |f| - s.at, 0
  {
    s.at < |f| && ((f[s.at] == 'w' && s.at + 1 == |f|)
      || Overruns(f, AfterConversion(f[s.at], s.at), args, s.k + Converted(f[s.at], s, args, fp).1, fp))
  }

  // Only a format that ends in 'w' can run over its end.
  lemma {:induction false} OverrunEndsInW(f: string, i: nat, args: Args, k: nat, fp: FloatText)
    requires Overruns(f, i, args, k, fp)
    ensures f != "" && f[|f| - 1] == 'w'
    decreases |f| - i
  {
    hide Converted;
    if f[i] != '%' {
      OverrunEndsInW(f, i + 1, args, k, fp);
    } else {
      var s := ReadFlags(f, i + 1, args, k, NO_FLAGS);
      if !(f[s.at] == 'w' && s.at + 1 == |f|) {
        OverrunEndsInW(f, AfterConversion(f[s.at], s.at), args, s.k + Converted(f[s.at], s, args, fp).1, fp);
      }
    }
  }

  // A stretch without directives is its own text.
  lemma {:induction false} PlainText(f: string, i: nat, j: nat, args: Args, k: nat, fp: FloatText)
    requires i <= j <= |f| && forall x :: i <= x < j ==> f[x] != '%'
    ensures Text(f, i, args, k, fp) == f[i..j] + Text(f, j, args, k, fp)
    ensures Overruns(f, i, args, k, fp) <==> Overruns(f, j, args, k, fp)
    decreases j - i
  {
    hide Text, Overruns;
    if i < j {
      PlainStep(f, i, args, k, fp);
      PlainText(f, i + 1, j, args, k, fp);
      assert f[i..j] == [f[i]] + f[i + 1..j];
    } else {
      assert f[i..j] == [];
    }
  }

  lemma PlainStep(f: string, i: nat, args: Args, k: nat, fp: FloatText)
    requires i < |f| && f[i] != '%'
    ensures Text(f, i, args, k, fp) == [f[i]] + Text(f, i + 1, args, k, fp)
    ensures Overruns(f, i, args, k, fp) <==> Overruns(f, i + 1, args, k, fp)
    ensures Text(f, |f|, args, k, fp) == "" && !Overruns(f, |f|, args, k, fp)
  {
    hide DirectiveText, DirectiveOverruns;
  }

  // ---- The bounded buffer ----

  // The part of the output so far that fits is in the buffer.
  ghost predicate Holds(buffer: array<char>, maxlen: nat, out: string)
    reads buffer
  {
    maxlen <= buffer.Length && forall i :: 0 <= i < |out| && i < maxlen ==> buffer[i] == out[i]
  }

  twostate predicate TailKept(buffer: array<char>, maxlen: nat)
    reads buffer
  {
    forall i :: maxlen <= i < buffer.Length ==> buffer[i] == old(buffer[i])
  }

  method OutCh(buffer: array<char>, currlen: nat, maxlen: nat, c: char, ghost out: string) returns (len: nat)
    requires Holds(buffer, maxlen, out) && currlen == |out|
    modifies buffer
    ensures Holds(buffer, maxlen, out + [c]) && len == currlen + 1 && TailKept(buffer, maxlen)
  {
    if currlen < maxlen {
      buffer[currlen] := c;
    }
    len := currlen + 1;
  }

  lemma RepeatMore(out: string, c: char, n: nat)
    ensures out + Repeat(c, n) + [c] == out + Repeat(c, n + 1) && out + Repeat(c, 0) == out
  {
    assert Repeat(c, n) + [c] == Repeat(c, n + 1);
  }

  // Counts down, printing the same character.
  method OutPad(buffer: array<char>, currlen: nat, maxlen: nat, c: char, n: nat, ghost out: string) returns (len: nat)
    requires Holds(buffer, maxlen, out) && currlen == |out|
    modifies buffer
    ensures Holds(buffer, maxlen, out + Repeat(c, n)) && len == currlen + n && TailKept(buffer, maxlen)
  {
    hide Holds, Repeat;
    len := currlen;
    RepeatMore(out, c, 0);
    for i := 0 to n
      invariant Holds(buffer, maxlen, out + Repeat(c, i)) && len == currlen + i && TailKept(buffer, maxlen)
    {
      RepeatMore(out, c, i);
      len := OutCh(buffer, len, maxlen, c, out + Repeat(c, i));
    }
  }

  // ---- Integers ----

  // What is left to convert after some digits.
  ghost predicate Left(all: seq<nat>, place: nat, u: nat, base: nat)
    requires base >= 2
  {
    place < 20 && place < |all| && all[place..] == LeastFirst(u, base, 20 - place)
  }

  lemma NextDigit(all: seq<nat>, place: nat, u: nat, base: nat)
    requires base >= 2 && Left(all, place, u, base)
    ensures place < 20 && place < |all| && all[place] == u % base
    ensures if Quotient(u, base) > 0
      && place + 1 < 20 then Left(all, place + 1, Quotient(u, base), base) else |all| == place + 1
  {
    hide LeastFirst;
    LeastFirstStep(u, base, 20 - place);
    var rest := all[place..];
    assert rest[0] == all[place] && rest[1..] == all[place + 1..];
  }

  // The conversion buffer holds the first digits.
  ghost predicate Wrote(convert: array<char>, all: seq<nat>, place: nat, caps: bool)
    reads convert
  {
    convert.Length == 20 && place <= 20 && place <= |all| && (forall i :: 0 <= i < |all| ==> all[i] < 16)
    && forall i :: 0 <= i < place ==> convert[i] == DigitChar(all[i], caps)
  }

  method WriteDigit(convert: array<char>, place: nat, u: nat, base: nat, caps: bool, ghost all: seq<nat>)
    requires 2 <= base <= 16 && Wrote(convert, all, place, caps) && Left(all, place, u, base)
    modifies convert
    ensures Wrote(convert, all, place + 1, caps) && place + 1 <= 20
    ensures if Quotient(u, base) > 0
      && place + 1 < 20 then Left(all, place + 1, Quotient(u, base), base) else |all| == place + 1
  {
    hide DigitChar, Left, Quotient;
    NextDigit(all, place, u, base);
    convert[place] := DigitChar(u % base, caps);
  }

  // The digits of the conversion buffer, least significant first.
  method Convert(u: nat, base: nat, caps: bool) returns (convert: array<char>, place: nat)
    requires 2 <= base <= 16
    ensures fresh(convert) && convert.Length == 20 && place == |DigitText(u, base, caps)|
    ensures forall i :: 0 <= i < place ==> convert[i] == DigitText(u, base, caps)[place - 1 - i]
  {
    hide LeastFirst, DigitChar, DigitText, Left, Wrote, Quotient;
    convert := new char[20];
    ghost var all := LeastFirst(u, base, 20);
    var uvalue: nat := u;
    place := 0;
    AllLeft(u, base);
    StartWriting(convert, all, caps);
    WriteDigit(convert, place, uvalue, base, caps, all);
    place := place + 1;
    uvalue := Quotient(uvalue, base);
    while uvalue > 0 && place < 20
      invariant place <= 20 && Wrote(convert, all, place, caps)
      invariant if uvalue > 0 && place < 20 then Left(all, place, uvalue, base) else |all| == place
      decreases 20 - place
    {
      WriteDigit(convert, place, uvalue, base, caps, all);
      place := place + 1;
      uvalue := Quotient(uvalue, base);
    }
    WroteAll(convert, all, place, caps);
    if place == 20 {
      place := place - 1;
    }
    PrintedDigits(u, base, caps, all);
  }

  lemma StartWriting(convert: array<char>, all: seq<nat>, caps: bool)
    requires convert.Length == 20 && forall i :: 0 <= i < |all| ==> all[i] < 16
    ensures Wrote(convert, all, 0, caps)
  {
  }

  lemma WroteAll(convert: array<char>, all: seq<nat>, place: nat, caps: bool)
    requires Wrote(convert, all, place, caps)
    ensures convert.Length == 20 && (forall i :: 0 <= i < |all| ==> all[i] < 16)
    ensures forall i :: 0 <= i < place && i < |all| ==> convert[i] == DigitChar(all[i], caps)
  {
  }

  lemma AllLeft(u: nat, base: nat)
    requires base >= 2
    ensures Left(LeastFirst(u, base, 20), 0, u, base)
  {
  }

  lemma LeastFirstStep(u: nat, base: nat, limit: nat)
    requires base >= 2 && limit >= 1
    ensures LeastFirst(u, base, limit) == [u % base] + if u / base > 0
      && limit > 1 then LeastFirst(u / base, base, limit - 1) else []
  {
  }

  lemma {:induction false} ReverseAt(s: seq<nat>, i: nat)
    requires i < |s|
    ensures Reverse(s)[|s| - 1 - i] == s[i]
  {
    var t := s[1..];
    assert Reverse(s) == Reverse(t) + [s[0]];
    if i > 0 {
      ReverseAt(t, i - 1);
      assert t[i - 1] == s[i];
    }
  }

  lemma PrintedDigits(u: nat, base: nat, caps: bool, all: seq<nat>)
    requires 2 <= base <= 16 && all == LeastFirst(u, base, 20)
    ensures var t := DigitText(u, base, caps);
            |t| == (if |all| == 20 then 19 else |all|) && forall i :: 0 <= i < |t| ==>
              DigitChar(all[i], caps) == t[|t| - 1 - i]
  {
    hide LeastFirst, DigitChar, Reverse;
    LimitIsPrefix(u, base, 19);
    var ds, t := LeastFirst(u, base, 19), DigitText(u, base, caps);
    forall i | 0 <= i < |ds| ensures DigitChar(all[i], caps) == t[|t| - 1 - i] {
      ReverseAt(ds, i);
    }
  }

  // The sign, zeros, digits and spaces of an integer, each where the flags want it.
  method FmtInt(buffer: array<char>, currlen: nat, maxlen: nat, value: int, base: nat, min: int, max: int, fl: Flags,
                ghost out: string)
    returns (len: nat)
    requires IsLong(value) && 2 <= base <= 16 && Holds(buffer, maxlen, out) && currlen == |out|
    modifies buffer
    ensures Holds(buffer, maxlen, out + IntText(value, base, min, max, fl))
    ensures len == currlen + |IntText(value, base, min, max, fl)| && TailKept(buffer, maxlen)
  {
    hide Holds, Repeat, DigitText;
    var m := Max(max, 0);
    var signvalue := SignText(value, fl);
    var uvalue := Magnitude(value, fl);
    var convert, place := Convert(uvalue, base, fl.up);
    ghost var digits := DigitText(uvalue, base, fl.up);
    var zpadlen := Max(m - place, 0);
    var spadlen := Max(min - Max(m, place) - |signvalue|, 0);
    if fl.zero {
      zpadlen := Max(zpadlen, spadlen);
      spadlen := 0;
    }
    ghost var left := if fl.minus then "" else Repeat(' ', spadlen);
    ghost var right := if fl.minus then Repeat(' ', spadlen) else "";
    NoRepeat();
    Assemble(out, left, signvalue, Repeat('0', zpadlen), digits, right, value, base, min, max, fl);
    len := currlen;
    if !fl.minus {
      len := OutPad(buffer, len, maxlen, ' ', spadlen, out);
    }
    len := OutSign(buffer, len, maxlen, signvalue, out + left);
    len := OutPad(buffer, len, maxlen, '0', zpadlen, out + left + signvalue);
    len := OutDigits(buffer, len, maxlen, convert, place, digits, out + left + signvalue + Repeat('0', zpadlen));
    if fl.minus {
      len := OutPad(buffer, len, maxlen, ' ', spadlen, out + left + signvalue + Repeat('0', zpadlen) + digits);
    }
  }

  lemma NoRepeat()
    ensures Repeat(' ', 0) == ""
  {
  }

  lemma Assemble(out: string, left: string, sign: string, zeros: string, digits: string, right: string,
                 value: int, base: nat, min: int, max: int, fl: Flags)
    requires IsLong(value) && 2 <= base <= 16
    requires sign == SignText(value, fl) && digits == DigitText(Magnitude(value, fl), base, fl.up)
    requires var z, s := Max(Max(max, 0) - |digits|, 0), Max(min - Max(Max(max, 0), |digits|) - |sign|, 0);
             && zeros == Repeat('0', if fl.zero then Max(z, s) else z)
             && left == (if fl.minus || fl.zero then "" else Repeat(' ', s))
             && right == (if fl.minus && !fl.zero then Repeat(' ', s) else "")
    ensures out + left + sign + zeros + digits + right == out + IntText(value, base, min, max, fl)
    ensures out + left + sign + zeros + digits + "" == out + left + sign + zeros + digits && out + "" == out
  {
    hide DigitText, SignText, Magnitude, Repeat;
    assert left + sign + zeros + digits + right == IntText(value, base, min, max, fl);
  }

  method OutSign(buffer: array<char>, currlen: nat, maxlen: nat, sign: string, ghost out: string) returns (len: nat)
    requires Holds(buffer, maxlen, out) && currlen == |out| && |sign| <= 1
    modifies buffer
    ensures Holds(buffer, maxlen, out + sign) && len == currlen + |sign| && TailKept(buffer, maxlen)
  {
    hide Holds;
    if sign == "" {
      assert out + sign == out;
      return currlen;
    }
    assert sign == [sign[0]];
    len := OutCh(buffer, currlen, maxlen, sign[0], out);
  }

  method OutDigits(buffer: array<char>, currlen: nat, maxlen: nat, convert: array<char>, count: nat,
                   ghost digits: string, ghost out: string)
    returns (len: nat)
    requires Holds(buffer, maxlen, out) && currlen == |out| && convert != buffer && count == |digits| <= convert.Length
    requires forall i :: 0 <= i < count ==> convert[i] == digits[count - 1 - i]
    modifies buffer
    ensures Holds(buffer, maxlen, out + digits) && len == currlen + |digits| && TailKept(buffer, maxlen)
  {
    hide Holds;
    len := currlen;
    var place: nat := count;
    assert out + digits[..0] == out;
    while place > 0
      invariant place <= count && len == currlen + (count - place) && TailKept(buffer, maxlen)
      invariant forall i :: 0 <= i < count ==> convert[i] == digits[count - 1 - i]
      invariant Holds(buffer, maxlen, out + digits[..count - place])
    {
      place := place - 1;
      ghost var n := count - 1 - place;
      assert out + digits[..n] + [digits[n]] == out + digits[..n + 1];
      len := OutCh(buffer, len, maxlen, convert[place], out + digits[..n]);
    }
    assert digits[..count] == digits;
  }

  // ---- Strings ----

  // A padded string before it is cut to the limit.
  ghost function Padded(s: string, min: int, fl: Flags): string {
    var spaces := Repeat(' ', Max(min - |s|, 0));
    if fl.minus then s + spaces else spaces + s
  }

  function Cut(n: nat, max: int): nat { if max < 0 then 0 else if n < max then n else max }

  // Prints a piece of the padded string, as long as fewer than max characters have been printed.
  method OutLimited(buffer: array<char>, currlen: nat, maxlen: nat, t: string, count: nat, max: int,
                    ghost full: string, ghost at: nat, ghost out: string)
    returns (len: nat, cnt: nat)
    requires at + |t| <= |full| && full[at..at + |t|] == t && count == Cut(at, max)
    requires Holds(buffer, maxlen, out + full[..count]) && currlen == |out| + count
    modifies buffer
    ensures cnt == Cut(at + |t|, max) && Holds(buffer, maxlen, out + full[..cnt]) && len == |out| + cnt
      && TailKept(buffer, maxlen)
  {
    hide Holds;
    len, cnt := currlen, count;
    var i: nat := 0;
    while i < |t| && cnt < max
      invariant i <= |t| && cnt == Cut(at + i, max)
      invariant Holds(buffer, maxlen, out + full[..cnt]) && len == |out| + cnt && TailKept(buffer, maxlen)
    {
      assert full[at + i] == full[at..at + |t|][i];
      len := OutFull(buffer, len, maxlen, t[i], full, cnt, out);
      i := i + 1;
      cnt := cnt + 1;
    }
  }

  lemma PaddedPieces(s: string, min: int, fl: Flags)
    ensures var full, n := Padded(s, min, fl), Max(min - |s|, 0);
            var lead := if fl.minus then 0 else n;
            && |full| == |s| + n
            && full[0..lead] == Repeat(' ', lead)
            && full[lead..lead + |s|] == s
            && full[lead + |s|..lead + |s| + (n - lead)] == Repeat(' ', n - lead)
  {
  }

  method FmtStr(buffer: array<char>, currlen: nat, maxlen: nat, value: Option<string>, fl: Flags, min: int, max: int,
                ghost out: string)
    returns (len: nat)
    requires Holds(buffer, maxlen, out) && currlen == |out|
    modifies buffer
    ensures Holds(buffer, maxlen, out + StrText(value, min, max, fl))
    ensures len == currlen + |StrText(value, min, max, fl)| && TailKept(buffer, maxlen)
  {
    hide Holds, Repeat, Padded;
    var s := if value.Some? then value.value else "<NULL>";
    ghost var full := Padded(s, min, fl);
    PaddedPieces(s, min, fl);
    var padlen := Max(min - |s|, 0);
    var lead := if fl.minus then 0 else padlen;
    assert out + full[..0] == out;
    var cnt: nat;
    len, cnt := OutLimited(buffer, currlen, maxlen, Repeat(' ', lead), 0, max, full, 0, out);
    len, cnt := OutLimited(buffer, len, maxlen, s, cnt, max, full, lead, out);
    len, cnt := OutLimited(buffer, len, maxlen, Repeat(' ', padlen - lead), cnt, max, full, lead + |s|, out);
    StrTextIsCut(value, s, min, max, fl);
  }

  lemma StrTextIsCut(value: Option<string>, s: string, min: int, max: int, fl: Flags)
    requires s == if value.Some? then value.value else "<NULL>"
    ensures var full := Padded(s, min, fl);
            StrText(value, min, max, fl) == full[..Cut(|full|, max)]
  {
    hide Repeat;
  }

  method OutFull(buffer: array<char>, currlen: nat, maxlen: nat, c: char, ghost full: string, ghost cnt: nat,
    ghost out: string)
    returns (len: nat)
    requires cnt < |full| && full[cnt] == c && Holds(buffer, maxlen, out + full[..cnt]) && currlen == |out| + cnt
    modifies buffer
    ensures Holds(buffer, maxlen, out + full[..cnt + 1]) && len == currlen + 1 && TailKept(buffer, maxlen)
  {
    hide Holds;
    assert out + full[..cnt] + [full[cnt]] == out + full[..cnt + 1];
    len := OutCh(buffer, currlen, maxlen, c, out + full[..cnt]);
  }

  method OutString(buffer: array<char>, currlen: nat, maxlen: nat, t: string, ghost out: string) returns (len: nat)
    requires Holds(buffer, maxlen, out) && currlen == |out|
    modifies buffer
    ensures Holds(buffer, maxlen, out + t) && len == currlen + |t| && TailKept(buffer, maxlen)
  {
    hide Holds;
    len := currlen;
    assert out + t[..0] == out;
    for i := 0 to |t|
      invariant Holds(buffer, maxlen, out + t[..i]) && len == currlen + i && TailKept(buffer, maxlen)
    {
      len := OutFull(buffer, len, maxlen, t[i], t, i, out);
    }
    assert t[..|t|] == t;
  }

  // ---- The state machine ----

  datatype State = Default | InFlags | InMin | InDot | InMax | InMod | InConv | Done

  function Rank(state: State): nat {
    match state
    case Default => 7
    case InFlags => 6
    case InMin => 5
    case InDot => 4
    case InMax => 3
    case InMod => 2
    case InConv => 1
    case Done => 0
  }

  // What is known of a directive so far: where the next character is, the next argument, the
  // flags, the width, the precision and the modifier.
  datatype Partial = Partial(i: nat, k: nat, fl: Flags, min: int, max: int, mod: Mod)

  ghost function Pending(state: State, f: string, p: Partial, args: Args): Spec {
    match state
    case InFlags => ReadFlags(f, p.i, args, p.k, p.fl)
    case InMin => ReadMin(f, p.i, args, p.k, p.fl, p.min)
    case InDot => ReadDot(f, p.i, args, p.k, p.fl, p.min)
    case InMax => ReadMax(f, p.i, args, p.k, p.fl, p.min, p.max)
    case InMod => ReadMod(f, p.i, p.k, p.fl, p.min, p.max)
    case _ => Spec(p.fl, p.min, p.max, p.mod, p.i, p.k)
  }

  // The variables that a state finds at their initial values.
  ghost predicate Fresh(state: State, p: Partial) {
    && (state == Default ==> p.fl == NO_FLAGS)
    && (state == Default || state == InFlags ==> p.min == 0)
    && (state == Default || state == InFlags || state == InMin || state == InDot ==> p.max == -1)
    && (state != InConv && state != Done ==> p.mod == Plain)
  }

  // The text still to come in a state.
  ghost function ToCome(state: State, f: string, p: Partial, args: Args, fp: FloatText): string {
    match state
    case Default => Text(f, p.i, args, p.k, fp)
    case Done => ""
    case _ => DirectiveText(f, Pending(state, f, p, args), args, fp)
  }

  ghost predicate WillOverrun(state: State, f: string, p: Partial, args: Args, fp: FloatText) {
    match state
    case Default => Overruns(f, p.i, args, p.k, fp)
    case Done => false
    case _ => DirectiveOverruns(f, Pending(state, f, p, args), args, fp)
  }

  ghost function WillStore(state: State, f: string, p: Partial, args: Args, fp: FloatText, printed: nat): seq<Stored> {
    match state
    case Default => Stores(f, p.i, args, p.k, fp, printed)
    case Done => []
    case _ => DirectiveStores(f, Pending(state, f, p, args), args, fp, printed)
  }

  // Nothing is to come at the end of the format.
  lemma NothingAtEnd(state: State, f: string, p: Partial, args: Args, fp: FloatText, n: nat)
    requires p.i == |f|
    ensures ToCome(state, f, p, args, fp) == "" && !WillOverrun(state, f, p, args, fp)
    ensures WillStore(state, f, p, args, fp, n) == []
  {
  }

  // One step inside a directive: the state and the variables after it.
  function Advance(state: State, f: string, p: Partial, args: Args): (r: (State, Partial))
    requires p.i < |f| && state != Default && state != InConv && state != Done
    ensures r.1.i <= |f| && (r.1.i > p.i || (r.1.i == p.i && Rank(r.0) < Rank(state)))
    ensures r.0 != Default && r.0 != Done
  {
    var ch, next := f[p.i], p.(i := p.i + 1);
    match state
    case InFlags =>
      var fl := AddFlag(ch, p.fl);
      if fl.Some? then (InFlags, next.(fl := fl.value)) else (InMin, p)
    case InMin =>
      if IsDigit(ch) then (InMin, next.(min := 10 * p.min + DigitOf(ch)))
      else if ch == '*' then (InDot, next.(min := SignedArg(args(p.k), Plain), k := p.k + 1))
      else (InDot, p)
    case InDot =>
      if ch == '.' then (InMax, next) else (InMod, p)
    case InMax =>
      if IsDigit(ch) then (InMax, next.(max := 10 * Max(p.max, 0) + DigitOf(ch)))
      else if ch == '*' then (InMod, next.(max := SignedArg(args(p.k), Plain), k := p.k + 1))
      else (InMod, p)
    case InMod =>
      if ch == 'h' then (InConv, next.(mod := Short))
      else if ch == 'l' then
        if At(f, p.i + 1) == 'l' then (InConv, p.(i := p.i + 2, mod := LongLong)) else (InConv, next.(mod := Long))
      else if ch == 'L' then (InConv, next.(mod := LongDouble))
      else (InConv, p)
  }

  // A step inside a directive does not change what it reads.
  lemma AdvanceKeepsPending(state: State, f: string, p: Partial, args: Args)
    requires p.i < |f| && state != Default && state != InConv && state != Done && Fresh(state, p)
    ensures var r := Advance(state, f, p, args);
            Fresh(r.0, r.1) && Pending(r.0, f, r.1, args) == Pending(state, f, p, args)
  {
    hide SignedArg;
    if state == InFlags || state == InDot || state == InMod {
      ShortStepKeepsPending(state, f, p, args);
    } else {
      NumberStepKeepsPending(state, f, p, args);
    }
  }

  lemma ShortStepKeepsPending(state: State, f: string, p: Partial, args: Args)
    requires p.i < |f| && (state == InFlags || state == InDot || state == InMod) && Fresh(state, p)
    ensures var r := Advance(state, f, p, args);
            Fresh(r.0, r.1) && Pending(r.0, f, r.1, args) == Pending(state, f, p, args)
  {
    hide SignedArg, IsDigit, DigitOf;
  }

  lemma NumberStepKeepsPending(state: State, f: string, p: Partial, args: Args)
    requires p.i < |f| && (state == InMin || state == InMax) && Fresh(state, p)
    ensures var r := Advance(state, f, p, args);
            Fresh(r.0, r.1) && Pending(r.0, f, r.1, args) == Pending(state, f, p, args)
  {
    hide SignedArg, AddFlag, ReadMod;
  }

  lemma AdvanceKeepsText(state: State, f: string, p: Partial, args: Args, fp: FloatText, n: nat)
    requires p.i < |f| && state != Default && state != InConv && state != Done && Fresh(state, p)
    ensures var r := Advance(state, f, p, args);
            && Fresh(r.0, r.1) && ToCome(r.0, f, r.1, args, fp) == ToCome(state, f, p, args, fp)
            && WillOverrun(r.0, f, r.1, args, fp) == WillOverrun(state, f, p, args, fp)
            && WillStore(r.0, f, r.1, args, fp, n) == WillStore(state, f, p, args, fp, n)
  {
    AdvanceKeepsPending(state, f, p, args);
    hide Pending, DirectiveText, DirectiveOverruns, DirectiveStores, Fresh;
  }

  lemma DefaultStep(f: string, p: Partial, args: Args, fp: FloatText, n: nat)
    requires p.i < |f| && Fresh(Default, p)
    ensures var next := p.(i := p.i + 1);
            var state := if f[p.i] == '%' then InFlags else Default;
            && Fresh(state, next)
            && ToCome(Default, f, p, args, fp) == (if f[p.i] == '%' then ""
              else [f[p.i]]) + ToCome(state, f, next, args, fp)
            && WillOverrun(state, f, next, args, fp) == WillOverrun(Default, f, p, args, fp)
            && WillStore(Default, f, p, args, fp, n)
              == WillStore(state, f, next, args, fp, if f[p.i] == '%' then n else n + 1)
  {
  }

  lemma ConvStep(f: string, p: Partial, args: Args, fp: FloatText, n: nat)
    requires p.i < |f|
    ensures var s := Spec(p.fl, p.min, p.max, p.mod, p.i, p.k);
            var r := Converted(f[p.i], s, args, fp);
            var next := Partial(AfterConversion(f[p.i], p.i), p.k + r.1, NO_FLAGS, 0, -1, Plain);
            && Fresh(Default, next) && ToCome(InConv, f, p, args, fp) == r.0 + ToCome(Default, f, next, args, fp)
            && WillStore(InConv, f, p, args, fp, n)
              == StoredBy(f[p.i], s, n) + WillStore(Default, f, next, args, fp, n + |r.0|)
            && (WillOverrun(InConv, f, p, args, fp) <==> next.i == |f| + 1 || WillOverrun(Default, f, next, args, fp))
  {
    hide Converted;
  }

  // One turn of the loop inside a directive.
  method StepDirective(state: State, format: string, args: Args, i: nat, k: nat, flags: Flags, min: int, max: int,
    cflags: Mod)
    returns (state': State, i': nat, k': nat, flags': Flags, min': int, max': int, cflags': Mod)
    requires i < |format| && state != Default && state != InConv && state != Done
    ensures (state', Partial(i', k', flags', min', max', cflags')) == Advance(state, format,
      Partial(i, k, flags, min, max, cflags), args)
  {
    hide SignedArg;
    var ch := format[i];
    state', i', k', flags', min', max', cflags' := state, i, k, flags, min, max, cflags;
    match state
    case InFlags =>
      match ch {
        case '-' => flags' := flags.(minus := true); i' := i + 1;
        case '+' => flags' := flags.(plus := true); i' := i + 1;
        case ' ' => flags' := flags.(space := true); i' := i + 1;
        case '#' => flags' := flags.(num := true); i' := i + 1;
        case '0' => flags' := flags.(zero := true); i' := i + 1;
        case _ => state' := InMin;
      }
    case InMin =>
      if IsDigit(ch) {
        min' := 10 * min + DigitOf(ch);
        i' := i + 1;
      } else if ch == '*' {
        min' := SignedArg(args(k), Plain);
        k' := k + 1;
        i' := i + 1;
        state' := InDot;
      } else {
        state' := InDot;
      }
    case InDot =>
      if ch == '.' {
        state' := InMax;
        i' := i + 1;
      } else {
        state' := InMod;
      }
    case InMax =>
      if IsDigit(ch) {
        if max' < 0 {
          max' := 0;
        }
        max' := 10 * max' + DigitOf(ch);
        i' := i + 1;
      } else if ch == '*' {
        max' := SignedArg(args(k), Plain);
        k' := k + 1;
        i' := i + 1;
        state' := InMod;
      } else {
        state' := InMod;
      }
    case InMod =>
      match ch {
        case 'h' => cflags' := Short; i' := i + 1;
        case 'l' =>
          cflags' := Long;
          i' := i + 1;
          if At(format, i') == 'l' {
            cflags' := LongLong;
            i' := i' + 1;
          }
        case 'L' => cflags' := LongDouble; i' := i + 1;
        case _ =>
      }
      state' := InConv;
  }

  // The conversion itself, and how many arguments it takes.
  method Conv(buffer: array<char>, currlen: nat, maxlen: nat, ch: char, s: Spec, args: Args, fp: FloatText,
    ghost out: string)
    returns (len: nat, k: nat, stored: seq<Stored>)
    requires Holds(buffer, maxlen, out) && currlen == |out|
    modifies buffer
    ensures stored == StoredBy(ch, s, currlen)
    ensures var r := Converted(ch, s, args, fp);
            Holds(buffer, maxlen, out + r.0) && len == currlen + |r.0| && k == s.k + r.1
    ensures TailKept(buffer, maxlen)
  {
    hide Holds, IntText, StrText, StrLimit, SignedArg, UnsignedArg, Signed64;
    var a, flags := args(s.k), s.fl;
    assert out + "" == out;
    len, k, stored := currlen, s.k + 1, [];
    if ch == 'd' || ch == 'i' {
      len := FmtInt(buffer, currlen, maxlen, SignedArg(a, s.mod), 10, s.min, s.max, flags, out);
    } else if ch == 'o' {
      flags := flags.(unsigned := true);
      len := FmtInt(buffer, currlen, maxlen, UnsignedArg(a, s.mod), 8, s.min, s.max, flags, out);
    } else if ch == 'u' {
      flags := flags.(unsigned := true);
      len := FmtInt(buffer, currlen, maxlen, UnsignedArg(a, s.mod), 10, s.min, s.max, flags, out);
    } else if ch == 'x' || ch == 'X' {
      if ch == 'X' {
        flags := flags.(up := true);
      }
      flags := flags.(unsigned := true);
      len := FmtInt(buffer, currlen, maxlen, UnsignedArg(a, s.mod), 16, s.min, s.max, flags, out);
    } else if ch == 'f' {
      len := OutString(buffer, currlen, maxlen, fp(a, s.min, s.max, flags), out);
    } else if ch == 'e' || ch == 'E' || ch == 'g' || ch == 'G' {
    } else if ch == 'n' {
      stored := [CountFor(s.k, s.mod, currlen)];
    } else if ch == 'c' {
      len := OutCh(buffer, currlen, maxlen, (a.word % 256) as char, out);
    } else if ch == 's' {
      var limit := StrLimit(a.text, s.min, s.max);
      len := FmtStr(buffer, currlen, maxlen, a.text, flags, s.min, limit, out);
    } else if ch == 'p' {
      len := FmtInt(buffer, currlen, maxlen, Signed64(a.word), 16, s.min, s.max, flags, out);
    } else {
      k := s.k;
      if ch == '%' {
        len := OutCh(buffer, currlen, maxlen, ch, out);
      }
    }
  }

  lemma StartPrinting(buffer: array<char>, maxlen: nat, format: string, args: Args, fp: FloatText)
    requires maxlen <= buffer.Length
    ensures var p := Partial(0, 0, NO_FLAGS, 0, -1, Plain);
            && Holds(buffer, maxlen, "") && Fresh(Default, p)
            && Text(format, 0, args, 0, fp) == "" + ToCome(Default, format, p, args, fp)
            && Overruns(format, 0, args, 0, fp) == WillOverrun(Default, format, p, args, fp)
            && Stores(format, 0, args, 0, fp, 0) == [] + WillStore(Default, format, p, args, fp, 0)
  {
  }

  lemma DoneIsLast(state: State, p: Partial)
    ensures Fresh(Done, p) && (state != Done ==> Rank(Done) < Rank(state))
  {
  }

  lemma AfterFacts(c: char, i: nat)
    ensures AfterConversion(c, i) == if c == 'w' then i + 2 else i + 1
  {
  }

  lemma NothingAtDone(f: string, p: Partial, args: Args, fp: FloatText)
    ensures ToCome(Done, f, p, args, fp) == "" && !WillOverrun(Done, f, p, args, fp)
    ensures forall n :: WillStore(Done, f, p, args, fp, n) == []
  {
  }

  // What the buffer holds at the end: the text that fits, and a NUL after it.
  ghost predicate Printed(buffer: seq<char>, maxlen: nat, text: string) {
    && maxlen <= |buffer|
    && (forall i :: 0 <= i < |text| && i < maxlen - 1 ==> buffer[i] == text[i])
    && (maxlen > 0 ==> buffer[if |text| < maxlen - 1 then |text| else maxlen - 1] == '\0')
  }

  method Terminate(buffer: array<char>, maxlen: nat, currlen: nat, ghost out: string)
    requires Holds(buffer, maxlen, out) && currlen == |out|
    modifies buffer
    ensures Printed(buffer[..], maxlen, out) && TailKept(buffer, maxlen)
  {
    if maxlen != 0 {
      if currlen < maxlen - 1 {
        buffer[currlen] := '\0';
      } else {
        buffer[maxlen - 1] := '\0';
      }
    }
  }

  // Ends in every state but the one run over; never writes past maxlen; returns the length of the
  // whole text, whatever maxlen is.
  method Dopr(buffer: array<char>, maxlen: nat, format: string, args: Args, fp: FloatText)
    returns (currlen: nat, overrun: bool, stores: seq<Stored>)
    requires maxlen <= buffer.Length && forall i :: 0 <= i < |format| ==> format[i] != '\0'
    modifies buffer
    ensures overrun <==> Overruns(format, 0, args, 0, fp)
    ensures !overrun ==> currlen == |Text(format, 0, args, 0, fp)|
    ensures !overrun ==> Printed(buffer[..], maxlen, Text(format, 0, args, 0, fp))
    ensures !overrun ==> stores == Stores(format, 0, args, 0, fp, 0)
    ensures TailKept(buffer, maxlen)
  {
    hide Stores, WillStore, DirectiveStores, StoredBy, Holds, Text, Overruns, ToCome, WillOverrun, Fresh, Converted,
      Advance, Rank, Printed, Pending, DirectiveText, DirectiveOverruns, AfterConversion;
    var state, i, k, flags, cflags := Default, 0, 0, NO_FLAGS, Plain;
    var min: int, max: int := 0, -1;
    currlen, overrun, stores := 0, false, [];
    ghost var out := "";
    StartPrinting(buffer, maxlen, format, args, fp);
    while state != Done
      invariant i <= |format| && Fresh(state, Partial(i, k, flags, min, max, cflags)) && TailKept(buffer, maxlen)
      invariant Holds(buffer, maxlen, out) && currlen == |out|
      invariant Text(format, 0, args, 0, fp) == out + ToCome(state, format, Partial(i, k, flags, min, max, cflags),
        args, fp)
      invariant Overruns(format, 0, args, 0, fp) == WillOverrun(state, format, Partial(i, k, flags, min, max, cflags),
        args, fp)
      invariant Stores(format, 0, args, 0, fp, 0)
        == stores + WillStore(state, format, Partial(i, k, flags, min, max, cflags), args, fp, currlen)
      decreases |format| - i, Rank(state)
    {
      ghost var p := Partial(i, k, flags, min, max, cflags);
      if i == |format| {
        NothingAtEnd(state, format, p, args, fp, currlen);
        NothingAtEnd(Done, format, p, args, fp, currlen);
        DoneIsLast(state, p);
        state := Done;
      } else if state == Default {
        DefaultStep(format, p, args, fp, currlen);
        if format[i] == '%' {
          assert "" + ToCome(InFlags, format, p.(i := i + 1), args, fp) == ToCome(InFlags, format, p.(i := i + 1),
            args, fp);
          state := InFlags;
        } else {
          ghost var rest := ToCome(Default, format, p.(i := i + 1), args, fp);
          assert out + ([format[i]] + rest) == out + [format[i]] + rest;
          currlen := OutCh(buffer, currlen, maxlen, format[i], out);
          out := out + [format[i]];
        }
        i := i + 1;
      } else if state == InConv {
        var s := Spec(flags, min, max, cflags, i, k);
        ghost var t := Converted(format[i], s, args, fp).0;
        ConvStep(format, p, args, fp, currlen);
        var stored: seq<Stored>;
        currlen, k, stored := Conv(buffer, currlen, maxlen, format[i], s, args, fp, out);
        ghost var next := Partial(AfterConversion(format[i], i), k, NO_FLAGS, 0, -1, Plain);
        AfterFacts(format[i], i);
        var skip := format[i] == 'w';
        if skip && i + 1 == |format| {
          return currlen, true, stores;
        }
        ghost var rest := ToCome(Default, format, next, args, fp);
        assert out + (t + rest) == out + t + rest;
        ghost var later := WillStore(Default, format, next, args, fp, currlen);
        assert stores + (stored + later) == stores + stored + later;
        out, stores := out + t, stores + stored;
        i := if skip then i + 2 else i + 1;
        state, flags, min, max, cflags := Default, NO_FLAGS, 0, -1, Plain;
      } else {
        AdvanceKeepsText(state, format, p, args, fp, currlen);
        state, i, k, flags, min, max, cflags := StepDirective(state, format, args, i, k, flags, min, max, cflags);
      }
    }
    NothingAtDone(format, Partial(i, k, flags, min, max, cflags), args, fp);
    assert out + "" == out;
    Terminate(buffer, maxlen, currlen, out);
  }

  // The string that a buffer of a given size shows.
  function Shown(text: string, maxlen: nat): string
    requires maxlen > 0
  {
    if |text| < maxlen - 1 then text else text[..maxlen - 1]
  }

  // The buffer holds the shown part with a NUL behind it; that of a smaller buffer is a prefix.
  lemma SmallerShowsPrefix(small: seq<char>, m: nat, large: seq<char>, n: nat, text: string)
    requires 0 < m <= n && Printed(small, m, text) && Printed(large, n, text)
    ensures var s, t := Shown(text, m), Shown(text, n);
            && |s| < |small| && small[..|s|] == s && small[|s|] == '\0'
            && |t| < |large| && large[..|t|] == t && large[|t|] == '\0'
            && s <= t
  {
  }
}
