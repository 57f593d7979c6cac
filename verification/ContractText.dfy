/**
 The text file of a data contract: lines KEY=value, byte strings in hexadecimal.
 */
module ContractText {
  import opened Common

  type Bytes = seq<bv8>

  // ---- Hexadecimal ----

  function NybbleToHex(v: nat): char
    requires v < 16
  {
    if v < 10 then ('0' as int + v) as char else ('a' as int + (v - 10)) as char
  }

  // -1 for a character that is no digit.
  function HexToNybble(c: char): (v: int)
    ensures -1 <= v < 16
  {
    if '0' <= c <= '9' then c as int - '0' as int
    else if 'a' <= c <= 'f' then 10 + (c as int - 'a' as int)
    else if 'A' <= c <= 'F' then 10 + (c as int - 'A' as int)
    else -1
  }

  predicate IsHexDigit(c: char) { HexToNybble(c) >= 0 }

  // The sixteen digits in order, in both cases.
  lemma DigitsInOrder(v: nat)
    requires v < 16
    ensures NybbleToHex(v) == "0123456789abcdef"[v]
    ensures HexToNybble("0123456789abcdef"[v]) == v && HexToNybble("0123456789ABCDEF"[v]) == v
    ensures forall c :: HexToNybble(c) >= 0 ==> c in "0123456789abcdef" || c in "0123456789ABCDEF"
  {
    forall c | HexToNybble(c) >= 0 ensures c in "0123456789abcdef" || c in "0123456789ABCDEF" {
      var w := HexToNybble(c);
      assert c == "0123456789abcdef"[w] || c == "0123456789ABCDEF"[w];
    }
  }

  lemma NybbleRoundTrip(v: nat)
    requires v < 16
    ensures HexToNybble(NybbleToHex(v)) == v && !IsBreak(NybbleToHex(v)) && !IsBlank(NybbleToHex(v))
  {
  }

  function High(b: bv8): (v: nat) ensures v < 16 { ((b >> 4) & 0xF) as nat }
  function LowNybble(b: bv8): (v: nat) ensures v < 16 { (b & 0xF) as nat }

  function Join4(hi: nat, lo: nat): bv8
    requires hi < 16 && lo < 16
  {
    (hi as bv8 << 4) | lo as bv8
  }

  lemma NybbleFits(v: bv8)
    requires v < 16
    ensures v as nat < 16 && (v as nat) as bv8 == v
  {
  }

  lemma SplitByte(b: bv8)
    ensures (((b >> 4) & 0xF) << 4) | (b & 0xF) == b && (b >> 4) & 0xF < 16 && b & 0xF < 16
  {
  }

  lemma SplitNybbles(b: bv8)
    ensures Join4(High(b), LowNybble(b)) == b
  {
    SplitByte(b);
    NybbleFits((b >> 4) & 0xF);
    NybbleFits(b & 0xF);
  }

  // The first digit of a byte is the high one.
  lemma HighAndLow(b: bv8)
    ensures b as int == 16 * High(b) + LowNybble(b)
  {
  }

  lemma JoinedValue(hi: nat, lo: nat)
    requires hi < 16 && lo < 16
    ensures Join4(hi, lo) as int == 16 * hi + lo
  {
    hide Join4, High, LowNybble;
    var b := ByteWith(16 * hi + lo);
    HighAndLow(b);
    SplitNybbles(b);
    SameNybbles(hi, lo, High(b), LowNybble(b));
  }

  lemma ByteWith(n: nat) returns (b: bv8)
    requires n < 256
    ensures b as int == n
  {
    b := 0;
    for i := 0 to n
      invariant b as int == i
    {
      NextByte(b);
      b := b + 1;
    }
  }

  lemma NextByte(b: bv8)
    requires b as int < 255
    ensures (b + 1) as int == b as int + 1
  {
  }

  lemma SameNybbles(hi: nat, lo: nat, h: nat, l: nat)
    requires hi < 16 && lo < 16 && h < 16 && l < 16 && 16 * hi + lo == 16 * h + l
    ensures hi == h && lo == l
  {
  }

  predicate IsBreak(c: char) { c == '\0' || c == '\n' || c == '\r' }

  predicate IsBlank(c: char) { c == ' ' || c == '\t' }

  ghost function Hex(b: Bytes): (t: string)
    ensures |t| == 2 * |b|
  {
    if b == [] then ""
    else Hex(b[..|b| - 1]) + [NybbleToHex(High(b[|b| - 1])), NybbleToHex(LowNybble(b[|b| - 1]))]
  }

  // The bytes that an even number of digits stands for.
  ghost function DigitsValue(s: string): (r: Option<Bytes>)
    requires |s| % 2 == 0
    ensures r.Some? ==> |r.value| == |s| / 2
  {
    if s == "" then Some([])
    else
      var rest, hi, lo := DigitsValue(s[..|s| - 2]), HexToNybble(s[|s| - 2]), HexToNybble(s[|s| - 1]);
      if rest.Some? && hi >= 0 && lo >= 0 then Some(rest.value + [Join4(hi, lo)]) else None
  }

  ghost predicate Plain(t: string) {
    forall i :: 0 <= i < |t| ==> !IsBreak(t[i]) && !IsBlank(t[i])
  }

  lemma {:induction false} HexRoundTrip(b: Bytes)
    ensures Plain(Hex(b)) && DigitsValue(Hex(b)) == Some(b)
  {
    hide NybbleToHex, HexToNybble, Join4, High, LowNybble, IsBreak, IsBlank, DigitsValue;
    if b == [] {
      EmptyDigits();
    }
    if b != [] {
      var init, x := b[..|b| - 1], b[|b| - 1];
      HexRoundTrip(init);
      var hi, lo := NybbleToHex(High(x)), NybbleToHex(LowNybble(x));
      NybbleRoundTrip(High(x));
      NybbleRoundTrip(LowNybble(x));
      SplitNybbles(x);
      DigitsGrow(Hex(init), init, hi, lo);
      assert b == init + [x];
    }
  }

  lemma EmptyDigits()
    ensures DigitsValue("") == Some([])
  {
  }

  lemma DigitsGrow(s: string, b: Bytes, hi: char, lo: char)
    requires |s| % 2 == 0 && DigitsValue(s) == Some(b) && IsHexDigit(hi) && IsHexDigit(lo)
    ensures DigitsValue(s + [hi, lo]) == Some(b + [Join4(HexToNybble(hi), HexToNybble(lo))])
  {
    hide Join4, HexToNybble;
    var t := s + [hi, lo];
    assert t[..|t| - 2] == s;
  }

  // A byte and its two digits: the high one first, both ways.
  lemma ByteOfDigits(x: bv8, c: char, d: char)
    requires IsHexDigit(c) && IsHexDigit(d)
    ensures var t := Hex([x]); |t| == 2 && 16 * HexToNybble(t[0]) + HexToNybble(t[1]) == x as int
    ensures DigitsValue([c, d]) == Some([x]) <==> x as int == 16 * HexToNybble(c) + HexToNybble(d)
  {
    hide NybbleToHex, HexToNybble, Join4, High, LowNybble, Hex, DigitsValue, IsHexDigit;
    HighAndLow(x);
    HexOfByte(x);
    NybbleRoundTrip(High(x));
    NybbleRoundTrip(LowNybble(x));
    ValueOfTwo(c, d);
    JoinedByte(x, HexToNybble(c), HexToNybble(d));
  }

  lemma HexOfByte(x: bv8)
    ensures Hex([x]) == [NybbleToHex(High(x)), NybbleToHex(LowNybble(x))]
  {
    hide NybbleToHex, High, LowNybble;
    assert [x][..0] == [] && Hex([]) == "";
  }

  lemma ValueOfTwo(c: char, d: char)
    requires IsHexDigit(c) && IsHexDigit(d)
    ensures HexToNybble(c) >= 0 && HexToNybble(d) >= 0
    ensures DigitsValue([c, d]) == Some([Join4(HexToNybble(c), HexToNybble(d))])
  {
    hide Join4, HexToNybble, DigitsValue;
    EmptyDigits();
    DigitsGrow("", [], c, d);
    var b := [Join4(HexToNybble(c), HexToNybble(d))];
    assert "" + [c, d] == [c, d] && [] + b == b;
  }

  lemma JoinedByte(x: bv8, hi: nat, lo: nat)
    requires hi < 16 && lo < 16
    ensures Join4(hi, lo) == x <==> x as int == 16 * hi + lo
  {
    hide Join4, High, LowNybble;
    JoinedValue(hi, lo);
    SameByte(x, Join4(hi, lo));
  }

  lemma SameByte(x: bv8, y: bv8)
    ensures x as int == y as int <==> x == y
  {
  }

  // Some bytes exactly when every character is a digit.
  lemma {:induction false} DigitsOnly(s: string)
    requires |s| % 2 == 0
    ensures DigitsValue(s).Some? <==> forall i :: 0 <= i < |s| ==> IsHexDigit(s[i])
  {
    if s != "" {
      DigitsOnly(s[..|s| - 2]);
      hide IsHexDigit;
      assert forall i :: 0 <= i < |s| - 2 ==> s[..|s| - 2][i] == s[i];
      assert IsHexDigit(s[|s| - 2]) <==> HexToNybble(s[|s| - 2]) >= 0;
      assert IsHexDigit(s[|s| - 1]) <==> HexToNybble(s[|s| - 1]) >= 0;
    }
  }

  // ---- One line ----

  // How long the line is that starts the text.
  ghost function LineLength(t: string): (n: nat)
    ensures n <= |t|
    ensures forall i :: 0 <= i < n ==> !IsBreak(t[i])
    ensures n < |t| ==> IsBreak(t[n])
  {
    if t == "" || IsBreak(t[0]) then 0 else LineLength(t[1..]) + 1
  }

  ghost function Trimmed(t: string): (n: nat)
    ensures n <= |t|
    ensures n > 0 ==> !IsBlank(t[n - 1])
    ensures forall i :: n <= i < |t| ==> IsBlank(t[i])
  {
    if t == "" || !IsBlank(t[|t| - 1]) then |t| else Trimmed(t[..|t| - 1])
  }

  // The value of a text is that of its first line without trailing blanks.
  ghost function HexValue(t: string): Option<Bytes> {
    var n := Trimmed(t[..LineLength(t)]);
    if n == 0 || n % 2 != 0 then None else DigitsValue(t[..n])
  }

  lemma HexValueOfLine(b: Bytes, blanks: string, rest: string)
    requires b != [] && (forall i :: 0 <= i < |blanks| ==> IsBlank(blanks[i])) && (rest == "" || IsBreak(rest[0]))
    ensures HexValue(Hex(b) + blanks + rest) == Some(b)
  {
    hide Hex, DigitsValue;
    var h, t := Hex(b), Hex(b) + blanks + rest;
    HexRoundTrip(b);
    assert LineLength(t) == |h + blanks| by {
      forall i | 0 <= i < |h + blanks| ensures !IsBreak(t[i]) {
        assert t[i] == if i < |h| then h[i] else blanks[i - |h|];
      }
      assert rest != "" ==> t[|h + blanks|] == rest[0];
    }
    assert t[..|h + blanks|] == h + blanks;
    assert Trimmed(h + blanks) == |h| by {
      assert !IsBlank((h + blanks)[|h| - 1]);
    }
    assert t[..|h|] == h;
  }

  // ---- Lines with keys ----

  // A line ends at a line feed, and with the text at a NUL.
  predicate EndsLine(c: char) { c == '\n' || c == '\0' }

  ghost function Eol(t: string): (n: nat)
    ensures n <= |t|
    ensures forall i :: 0 <= i < n ==> !EndsLine(t[i])
    ensures n < |t| ==> EndsLine(t[n])
  {
    if t == "" || EndsLine(t[0]) then 0 else Eol(t[1..]) + 1
  }

  // A line with the key, an equals sign and a value that is not empty.
  ghost predicate IsEntry(line: string, key: string) {
    |line| > |key| + 1 && line[..|key|] == key && line[|key|] == '='
  }

  // The text from the value of the first entry with the key.
  ghost function Lookup(t: string, key: string): (r: Option<string>)
    decreases |t|
  {
    if t == "" then None
    else
      var e := Eol(t);
      if IsEntry(t[..e], key) then Some(t[|key| + 1..])
      else if e == |t| || t[e] == '\0' then None
      else Lookup(t[e + 1..], key)
  }

  // Nothing behind a NUL is looked at.
  lemma {:induction false} LookupEndsAtNul(t: string, rest: string, key: string)
    ensures Lookup(t + "\0" + rest, key).Some? <==> Lookup(t, key).Some?
    ensures Lookup(t, key).Some? ==>
      Lookup(t + "\0" + rest, key).value == Lookup(t, key).value + "\0" + rest
    decreases |t|
  {
    hide Lookup, Eol, IsEntry;
    var u, e := t + "\0" + rest, Eol(t);
    EolIs(u, e);
    LookupUnfolds(u, e, key);
    assert u[..e] == t[..e];
    if t == "" {
      LookupAtEnd(t, key);
      NoEntry(key);
    } else {
      LookupUnfolds(t, e, key);
      EntryIsLonger(t[..e], key);
      if IsEntry(t[..e], key) {
        assert u[|key| + 1..] == t[|key| + 1..] + "\0" + rest;
      } else if e < |t| && t[e] == '\n' {
        LookupEndsAtNul(t[e + 1..], rest, key);
        assert u[e + 1..] == t[e + 1..] + "\0" + rest;
      }
    }
  }

  lemma NoEntry(key: string)
    ensures !IsEntry("", key)
  {
  }

  lemma EntryIsLonger(line: string, key: string)
    ensures IsEntry(line, key) ==> |line| > |key| + 1
  {
  }

  ghost function JoinLines(lines: seq<string>): string {
    if lines == [] then "" else lines[0] + "\n" + JoinLines(lines[1..])
  }

  ghost predicate OneLine(line: string) {
    forall i :: 0 <= i < |line| ==> !EndsLine(line[i])
  }

  lemma EolOfLine(line: string, rest: string)
    requires OneLine(line)
    ensures Eol(line + "\n" + rest) == |line|
  {
    var t := line + "\n" + rest;
    assert t[|line|] == '\n';
  }

  // Of a text made of lines, the value found is that of the first line with the key.
  lemma {:induction false} LookupInLines(lines: seq<string>, key: string, i: nat)
    requires forall j :: 0 <= j < |lines| ==> OneLine(lines[j])
    requires i <= |lines| && (forall j :: 0 <= j < i ==> !IsEntry(lines[j], key))
    requires i < |lines| ==> IsEntry(lines[i], key)
    ensures Lookup(JoinLines(lines), key) ==
      if i < |lines| then Some(lines[i][|key| + 1..] + "\n" + JoinLines(lines[i + 1..])) else None
  {
    if lines != [] {
      var line, rest := lines[0], JoinLines(lines[1..]);
      var t := line + "\n" + rest;
      EolOfLine(line, rest);
      assert t[..|line|] == line && t[|line| + 1..] == rest;
      if i == 0 {
        assert t[|key| + 1..] == line[|key| + 1..] + "\n" + rest;
      } else {
        LookupInLines(lines[1..], key, i - 1);
        assert i < |lines| ==> lines[1..][i..] == lines[i + 1..];
      }
    }
  }

  // ---- The program ----

  method BytesToHex(b: Bytes) returns (s: string)
    ensures s == Hex(b)
  {
    hide NybbleToHex, High, LowNybble;
    var a := new char[2 * |b|];
    for i := 0 to |b|
      invariant a[..2 * i] == Hex(b[..i])
    {
      a[2 * i] := NybbleToHex(High(b[i]));
      a[2 * i + 1] := NybbleToHex(LowNybble(b[i]));
      assert b[..i + 1][..i] == b[..i];
      assert a[..2 * (i + 1)] == a[..2 * i] + [a[2 * i], a[2 * i + 1]];
    }
    assert b[..|b|] == b;
    s := a[..];
    assert s == a[..2 * |b|];
  }

  // Parses up to the end of the line; the text ends at its end or at a NUL.
  method HexToBytes(hex: string) returns (r: Option<Bytes>)
    ensures r == HexValue(hex)
  {
    hide DigitsValue, Join4, HexToNybble;
    var n := 0;
    while n < |hex| && hex[n] != '\0' && hex[n] != '\n' && hex[n] != '\r'
      invariant n <= |hex| && forall i :: 0 <= i < n ==> !IsBreak(hex[i])
    {
      n := n + 1;
    }
    ghost var line := hex[..n];
    assert n == LineLength(hex);
    while n > 0 && (hex[n - 1] == ' ' || hex[n - 1] == '\t')
      invariant n <= |line| && forall i :: n <= i < |line| ==> IsBlank(line[i])
    {
      n := n - 1;
    }
    assert n == Trimmed(line) by {
      assert n > 0 ==> !IsBlank(line[n - 1]);
    }
    if n == 0 || n % 2 != 0 {
      return None;
    }
    r := DecodeDigits(hex[..n]);
  }

  method DecodeDigits(digits: string) returns (r: Option<Bytes>)
    requires |digits| % 2 == 0
    ensures r == DigitsValue(digits)
  {
    hide Join4, HexToNybble;
    var blen := |digits| / 2;
    var buf := new bv8[blen];
    assert DigitsValue(digits[..0]) == Some(buf[..0]);
    for i := 0 to blen
      invariant DigitsValue(digits[..2 * i]) == Some(buf[..i])
    {
      ghost var d := digits[..2 * (i + 1)];
      assert d[..|d| - 2] == digits[..2 * i];
      var hi := HexToNybble(digits[2 * i]);
      var lo := HexToNybble(digits[2 * i + 1]);
      if hi < 0 || lo < 0 {
        PrefixFails(digits, 2 * (i + 1));
        return None;
      }
      buf[i] := Join4(hi, lo);
      assert buf[..i + 1] == buf[..i] + [buf[i]];
    }
    assert digits[..2 * blen] == digits && buf[..blen] == buf[..];
    r := Some(buf[..]);
  }

  lemma {:induction false} PrefixFails(s: string, n: nat)
    requires |s| % 2 == 0 && n <= |s| && n % 2 == 0 && DigitsValue(s[..n]).None?
    ensures DigitsValue(s).None?
  {
    if n == |s| {
      assert s[..n] == s;
    } else {
      assert s[..|s| - 2][..n] == s[..n];
      PrefixFails(s[..|s| - 2], n);
    }
  }

  // The line of the text from p on, up to its end.
  ghost predicate IsLine(text: string, p: nat, eol: nat) {
    p <= eol <= |text| && p < |text| && (forall i :: p <= i < eol ==> !EndsLine(text[i]))
    && (eol < |text| ==> EndsLine(text[eol]))
  }

  lemma LineAt(text: string, p: nat, eol: nat, key: string)
    requires IsLine(text, p, eol)
    ensures text[p..] != "" && Eol(text[p..]) == eol - p
    ensures IsEntry(text[p..][..eol - p], key) <==>
      eol - p > |key| + 1 && text[p..p + |key|] == key && text[p + |key|] == '='
  {
    hide Eol, IsEntry;
    var t := text[p..];
    EolIs(t, eol - p);
    EntryOfPrefix(t, eol - p, key);
    Suffix(text, p, |key|);
  }

  lemma LookupHit(text: string, p: nat, eol: nat, key: string)
    requires IsLine(text, p, eol) && IsEntry(text[p..][..eol - p], key) && p + |key| + 1 <= |text|
    ensures Lookup(text[p..], key) == Some(text[p + |key| + 1..])
  {
    hide Lookup, Eol, IsEntry;
    LineAt(text, p, eol, key);
    LookupUnfolds(text[p..], eol - p, key);
    Suffix(text, p, |key| + 1);
  }

  lemma LookupMiss(text: string, p: nat, eol: nat, key: string)
    requires IsLine(text, p, eol) && !IsEntry(text[p..][..eol - p], key)
    ensures Lookup(text[p..], key) ==
      if eol == |text| || text[eol] == '\0' then None else Lookup(text[eol + 1..], key)
  {
    hide Lookup, Eol, IsEntry;
    LineAt(text, p, eol, key);
    LookupUnfolds(text[p..], eol - p, key);
    Suffix(text, p, eol - p + 1);
  }

  lemma LookupUnfolds(t: string, e: nat, key: string)
    requires t != "" && e == Eol(t)
    ensures Lookup(t, key) == if IsEntry(t[..e], key) then Some(t[|key| + 1..])
      else if e == |t| || t[e] == '\0' then None else Lookup(t[e + 1..], key)
  {
  }

  lemma EolIs(t: string, n: nat)
    requires n <= |t| && (forall i :: 0 <= i < n ==> !EndsLine(t[i])) && (n < |t| ==> EndsLine(t[n]))
    ensures Eol(t) == n
  {
  }

  lemma Suffix(text: string, p: nat, x: nat)
    ensures p + x <= |text| ==> text[p..][..x] == text[p..p + x] && text[p..][x..] == text[p + x..]
  {
  }

  lemma EntryOfPrefix(t: string, n: nat, key: string)
    requires n <= |t|
    ensures IsEntry(t[..n], key) <==> n > |key| + 1 && t[..|key|] == key && t[|key|] == '='
  {
    if n > |key| + 1 {
      assert t[..n][..|key|] == t[..|key|];
    }
  }

  // Looks at line after line; the result is where the value starts.
  method FindKv(text: string, key: string) returns (r: Option<nat>)
    ensures r.None? <==> Lookup(text, key).None?
    ensures r.Some? ==> r.value <= |text| && Lookup(text, key) == Some(text[r.value..])
  {
    hide Lookup;
    var p := 0;
    assert text[0..] == text;
    while p < |text| && text[p] != '\0'
      invariant p <= |text| && Lookup(text, key) == Lookup(text[p..], key)
    {
      var eol := p;
      while eol < |text| && text[eol] != '\0' && text[eol] != '\n'
        invariant p <= eol <= |text| && forall i :: p <= i < eol ==> !EndsLine(text[i])
      {
        eol := eol + 1;
      }
      LineAt(text, p, eol, key);
      var lineLen := eol - p;
      if lineLen > |key| + 1 && text[p..p + |key|] == key && text[p + |key|] == '=' {
        LookupHit(text, p, eol, key);
        return Some(p + |key| + 1);
      }
      LookupMiss(text, p, eol, key);
      if eol == |text| || text[eol] == '\0' {
        return None;
      }
      p := eol + 1;
    }
    LookupAtEnd(text[p..], key);
    r := None;
  }

  lemma LookupAtEnd(t: string, key: string)
    requires t == "" || t[0] == '\0'
    ensures Lookup(t, key) == None
  {
  }
}
