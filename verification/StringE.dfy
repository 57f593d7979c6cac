/**
 The fixed-capacity string: eight byte lanes packed in every 64-bit word, writes that touch every
 lane, and queries that look at every position. The reference is a plain sequence of bytes.

 Encrypted truth values are booleans; sizes and positions are 64 bits wide.
 */
module StringE {
  import opened Bits

  type Byte = bv8
  type Text = seq<Byte>

  const NPOS: nat := 0xffff_ffff_ffff_ffff

  // ---- Lanes of a word ----

  function LaneShift(lane: nat): (s: bv8)
    requires lane < 8
    ensures s <= 56
  {
    if lane == 0 then 0 else if lane == 1 then 8 else if lane == 2 then 16 else if lane == 3 then 24
    else if lane == 4 then 32 else if lane == 5 then 40 else if lane == 6 then 48 else 56
  }

  function Take(word: bv64, s: bv8): bv64
    requires s <= 56
  {
    (word >> s) & 0xff
  }

  function Put(word: bv64, c: bv64, s: bv8): bv64
    requires s <= 56
  {
    (word & !(0xff << s)) | (c << s)
  }

  function Wide(ch: Byte): bv64 { ch as bv64 }

  function ToByte(c: bv64): Byte { (c & 0xff) as Byte }

  function GetLane(word: bv64, lane: nat): Byte
    requires lane < 8
  {
    ToByte(Take(word, LaneShift(lane)))
  }

  function SetLane(word: bv64, lane: nat, ch: Byte): bv64
    requires lane < 8
  {
    Put(word, Wide(ch), LaneShift(lane))
  }

  predicate IsShift(s: bv8) {
    s == 0 || s == 8 || s == 16 || s == 24 || s == 32 || s == 40 || s == 48 || s == 56
  }

  predicate IsByte(c: bv64) { c & 0xff == c }

  lemma TakePut(word: bv64, c: bv64, s: bv8)
    requires IsShift(s) && IsByte(c)
    ensures Take(Put(word, c, s), s) == c
  {
  }

  lemma TakeOther(word: bv64, c: bv64, s: bv8, t: bv8)
    requires IsShift(s) && IsShift(t) && IsByte(c)
    ensures s != t ==> Take(Put(word, c, s), t) == Take(word, t)
  {
  }

  lemma ByteInWord(ch: Byte)
    ensures IsByte(Wide(ch)) && ToByte(Wide(ch)) == ch
  {
  }

  lemma LaneShifts(lane: nat, other: nat)
    requires lane < 8 && other < 8
    ensures IsShift(LaneShift(lane)) && IsShift(LaneShift(other))
    ensures LaneShift(lane) == LaneShift(other) <==> lane == other
  {
  }

  // A lane holds what was last stored in it, and storing leaves the other lanes alone.
  lemma LanesAreIndependent(word: bv64, lane: nat, ch: Byte, other: nat)
    requires lane < 8 && other < 8
    ensures GetLane(SetLane(word, lane, ch), other) == if other == lane then ch else GetLane(word, other)
  {
    hide LaneShift, Take, Put, ToByte, IsShift, Wide, IsByte;
    ByteInWord(ch);
    LaneShifts(lane, other);
    TakePut(word, Wide(ch), LaneShift(lane));
    TakeOther(word, Wide(ch), LaneShift(lane), LaneShift(other));
  }

  // ---- Packed bytes ----

  ghost function Unpack(words: seq<bv64>, n: nat): (t: Text)
    requires n <= 8 * |words|
    ensures |t| == n
  {
    seq(n, k requires 0 <= k < n => GetLane(words[k / 8], k % 8))
  }

  lemma StoreByte(words: seq<bv64>, n: nat, k: nat, ch: Byte)
    requires k < n <= 8 * |words|
    ensures Unpack(words[k / 8 := SetLane(words[k / 8], k % 8, ch)], n) == Unpack(words, n)[k := ch]
  {
    var words' := words[k / 8 := SetLane(words[k / 8], k % 8, ch)];
    forall i | 0 <= i < n ensures Unpack(words', n)[i] == Unpack(words, n)[k := ch][i] {
      LanesAreIndependent(words[k / 8], k % 8, ch, i % 8);
    }
  }

  lemma AllZero(words: seq<bv64>, n: nat)
    requires n <= 8 * |words| && forall i :: 0 <= i < |words| ==> words[i] == 0
    ensures forall k :: 0 <= k < n ==> Unpack(words, n)[k] == 0
  {
    forall k | 0 <= k < n ensures Unpack(words, n)[k] == 0 {
      ZeroLane(k % 8);
    }
  }

  lemma ZeroLane(lane: nat)
    requires lane < 8
    ensures GetLane(0, lane) == 0
  {
    LaneShifts(lane, lane);
    hide LaneShift;
  }

  // ---- The three-way order of byte strings, the reference for compare ----

  ghost function Order(a: Text, b: Text): int {
    if a == [] then (if b == [] then 0 else -1)
    else if b == [] then 1
    else if a[0] < b[0] then -1
    else if a[0] > b[0] then 1
    else Order(a[1..], b[1..])
  }

  lemma {:induction false} OrderZeroIsEqual(a: Text, b: Text)
    ensures Order(a, b) == 0 <==> a == b
  {
    if a != [] && b != [] && a[0] == b[0] {
      OrderZeroIsEqual(a[1..], b[1..]);
      assert a == [a[0]] + a[1..] && b == [b[0]] + b[1..];
    }
  }

  lemma {:induction false} OrderReverses(a: Text, b: Text)
    ensures Order(b, a) == 0 - Order(a, b)
  {
    if a != [] && b != [] && a[0] == b[0] {
      OrderReverses(a[1..], b[1..]);
    }
  }

  lemma {:induction false} OrderIsTransitive(a: Text, b: Text, c: Text)
    requires Order(a, b) <= 0 && Order(b, c) <= 0
    ensures Order(a, c) <= 0
  {
    if a != [] && b != [] && c != [] && a[0] == b[0] == c[0] {
      OrderIsTransitive(a[1..], b[1..], c[1..]);
    }
  }

  // A proper prefix is smaller, and what follows a first difference does not matter.
  lemma {:induction false} OrderOfExtensions(a: Text, b: Text, c: Text)
    ensures Order(a + b, a + c) == Order(b, c)
  {
    if a == [] {
      assert a + b == b && a + c == c;
    } else {
      OrderOfExtensions(a[1..], b, c);
      assert (a + b)[1..] == a[1..] + b && (a + c)[1..] == a[1..] + c;
    }
  }

  ghost function Drop(a: Text, i: nat): Text {
    if i <= |a| then a[i..] else []
  }

  lemma OrderStep(a: Text, b: Text, i: nat)
    ensures i < |a| && i < |b| && a[i] == b[i] ==>
      Order(Drop(a, i), Drop(b, i)) == Order(Drop(a, i + 1), Drop(b, i + 1))
    ensures i < |a| && i < |b| && a[i] < b[i] ==> Order(Drop(a, i), Drop(b, i)) == -1
    ensures i < |a| && i < |b| && a[i] > b[i] ==> Order(Drop(a, i), Drop(b, i)) == 1
    ensures i < |a| && i >= |b| ==> Order(Drop(a, i), Drop(b, i)) == 1
    ensures i >= |a| && i < |b| ==> Order(Drop(a, i), Drop(b, i)) == -1
    ensures i >= |a| && i >= |b| ==>
      Drop(a, i) == Drop(b, i) == Drop(a, i + 1) == Drop(b, i + 1) == [] && Order([], []) == 0
  {
  }

  // The comparison so far: decided with the final result, or the first i positions are equal.
  ghost predicate Decides(a: Text, b: Text, i: nat, result: int, decided: bool) {
    if decided then result == Order(a, b) else result == 0 && Order(a, b) == Order(Drop(a, i), Drop(b, i))
  }

  lemma DecidesStarts(a: Text, b: Text)
    ensures Decides(a, b, 0, 0, false)
  {
  }

  lemma DecidesEnds(a: Text, b: Text, i: nat, result: int, decided: bool)
    requires Decides(a, b, i, result, decided) && i >= |a| && i >= |b|
    ensures result == Order(a, b)
  {
  }

  ghost predicate Less(a: Text, b: Text, i: nat) {
    (i >= |a| && i < |b|) || (i < |a| && i < |b| && a[i] < b[i])
  }

  lemma OrderNext(a: Text, b: Text, i: nat, result: int, decided: bool)
    requires Decides(a, b, i, result, decided)
    ensures Decides(a, b, i + 1, if decided then result else if Less(a, b, i) then -1 else if Less(b, a, i) then 1
      else result,
                    decided || Less(a, b, i) || Less(b, a, i))
  {
    OrderStep(a, b, i);
    hide Order, Drop;
  }

  // ---- Occurrences, the reference for the searches ----

  ghost predicate OccursAt(text: Text, needle: Text, i: nat) {
    i + |needle| <= |text| && text[i..i + |needle|] == needle
  }

  // The first n bytes of the needle lie at position i.
  ghost predicate AgreesAt(text: Text, needle: Text, i: nat, n: nat) {
    var l := Min(n, |needle|);
    i + l <= |text| && text[i..i + l] == needle[..l]
  }

  lemma AgreesNext(text: Text, needle: Text, i: nat, n: nat)
    ensures AgreesAt(text, needle, i, n + 1) <==>
      AgreesAt(text, needle, i, n) && (n < |needle| ==> i + n < |text| && text[i + n] == needle[n])
  {
    if n < |needle| && i + n < |text| {
      assert Min(n + 1, |needle|) == n + 1 && Min(n, |needle|) == n;
      var t, u := text[i..i + n + 1], needle[..n + 1];
      assert t[..n] == text[i..i + n] && u[..n] == needle[..n];
      assert t[n] == text[i + n] && u[n] == needle[n];
      assert t == t[..n] + [t[n]] && u == u[..n] + [u[n]];
    }
  }

  lemma AgreesEnds(text: Text, needle: Text, i: nat, n: nat)
    requires n >= |needle|
    ensures i <= |text| ==> AgreesAt(text, needle, i, 0)
    ensures AgreesAt(text, needle, i, n) <==> OccursAt(text, needle, i)
  {
  }

  lemma OccursInside(text: Text, needle: Text)
    ensures forall i: nat :: OccursAt(text, needle, i) ==> i + |needle| <= |text|
  {
  }

  ghost predicate IsFirst(text: Text, needle: Text, pos: nat, r: nat) {
    if r == NPOS then forall i: nat :: pos <= i ==> !OccursAt(text, needle, i)
    else pos <= r && OccursAt(text, needle, r) && forall i: nat :: pos <= i < r ==> !OccursAt(text, needle, i)
  }

  ghost predicate IsLast(text: Text, needle: Text, pos: nat, r: nat) {
    if r == NPOS then forall i: nat :: i <= pos ==> !OccursAt(text, needle, i)
    else r <= pos && OccursAt(text, needle, r) && forall i: nat :: r < i <= pos ==> !OccursAt(text, needle, i)
  }

  // The searches so far: positions below i have been looked at.
  ghost predicate FirstBefore(text: Text, needle: Text, pos: nat, i: nat, best: nat) {
    if best == NPOS then forall k: nat :: pos <= k < i ==> !OccursAt(text, needle, k)
    else pos <= best < i && OccursAt(text, needle, best) && forall k: nat :: pos <= k < best ==>
      !OccursAt(text, needle, k)
  }

  lemma FirstNext(text: Text, needle: Text, pos: nat, i: nat, best: nat)
    requires i < NPOS && FirstBefore(text, needle, pos, i, best)
    ensures FirstBefore(text, needle, pos, i + 1, if best == NPOS && i >= pos
      && OccursAt(text, needle, i) then i else best)
  {
    hide OccursAt;
  }

  lemma FirstEnds(text: Text, needle: Text, pos: nat, i: nat, best: nat)
    requires FirstBefore(text, needle, pos, i, best) && needle != [] && i >= |text|
    ensures IsFirst(text, needle, pos, best)
  {
    OccursInside(text, needle);
    hide OccursAt;
  }

  ghost predicate LastBefore(text: Text, needle: Text, pos: nat, i: nat, best: nat) {
    if best == NPOS then forall k: nat :: k < i && k <= pos ==> !OccursAt(text, needle, k)
    else best < i && best <= pos && OccursAt(text, needle, best) && forall k: nat :: best < k < i && k <= pos ==>
      !OccursAt(text, needle, k)
  }

  lemma LastNext(text: Text, needle: Text, pos: nat, i: nat, best: nat)
    requires i < NPOS && LastBefore(text, needle, pos, i, best)
    ensures LastBefore(text, needle, pos, i + 1, if i <= pos && OccursAt(text, needle, i) then i else best)
  {
    hide OccursAt;
  }

  lemma LastEnds(text: Text, needle: Text, pos: nat, i: nat, best: nat)
    requires LastBefore(text, needle, pos, i, best) && needle != [] && i >= |text|
    ensures IsLast(text, needle, pos, best)
  {
    OccursInside(text, needle);
    hide OccursAt;
  }

  lemma SearchStarts(text: Text, needle: Text, pos: nat)
    ensures FirstBefore(text, needle, pos, 0, NPOS) && LastBefore(text, needle, pos, 0, NPOS)
  {
  }

  // ---- Slices ----

  ghost function Clip(text: Text, pos: nat, count: nat): Text {
    if pos >= |text| then [] else if pos + count <= |text| then text[pos..pos + count] else text[pos..]
  }

  function Wrap(pos: nat, i: nat): nat {
    (pos + i) % 0x1_0000_0000_0000_0000
  }

  function Minus(x: nat, y: nat): nat {
    (x - y) % 0x1_0000_0000_0000_0000
  }

  lemma FromEnd(x: nat, y: nat, i: nat)
    requires x < 0x8000_0000_0000_0000
    ensures y <= x && i < y ==> Wrap(Minus(x, y), i) == x - y + i
  {
  }

  // What substr stores at position i, and how many of the first n positions it counts.
  ghost function Sliced(text: Text, pos: nat, i: nat): Byte {
    if Wrap(pos, i) < |text| then text[Wrap(pos, i)] else 0
  }

  ghost function Counted(text: Text, pos: nat, n: nat): (c: nat)
    ensures c <= n
  {
    if n == 0 then 0 else Counted(text, pos, n - 1) + if Wrap(pos, n - 1) < |text| then 1 else 0
  }

  lemma SliceNext(text: Text, pos: nat, i: nat)
    ensures Counted(text, pos, 0) == 0
    ensures Counted(text, pos, i + 1) == Counted(text, pos, i) + if Wrap(pos, i) < |text| then 1 else 0
    ensures Sliced(text, pos, i) == if Wrap(pos, i) < |text| then text[Wrap(pos, i)] else 0
  {
  }

  ghost predicate IsRawSlice(text: Text, pos: nat, out: Text, size: nat) {
    size == Counted(text, pos, |out|) && forall i :: 0 <= i < |out| ==> out[i] == Sliced(text, pos, i)
  }

  lemma {:induction false} CountedPlain(text: Text, pos: nat, n: nat)
    requires pos + n <= 0x1_0000_0000_0000_0000
    ensures Counted(text, pos, n) == |Clip(text, pos, n)|
  {
    if n > 0 {
      CountedPlain(text, pos, n - 1);
    }
  }

  lemma {:induction false} CountedNone(text: Text, pos: nat, n: nat)
    requires text == []
    ensures Counted(text, pos, n) == 0
  {
    if n > 0 {
      CountedNone(text, pos, n - 1);
    }
  }

  lemma {:induction false} CountedMonotonic(text: Text, pos: nat, m: nat, n: nat)
    requires m <= n
    ensures Counted(text, pos, m) <= Counted(text, pos, n)
  {
    if m < n {
      CountedMonotonic(text, pos, m, n - 1);
    }
  }

  // The counted bytes are the requested slice exactly when the last position does not wrap past
  // 64 bits, or there is nothing to copy.
  lemma SliceUnlessWrapped(text: Text, pos: nat, out: Text, size: nat)
    requires |text| < 0x8000_0000_0000_0000 && |out| < 0x8000_0000_0000_0000 && pos <= NPOS
    requires IsRawSlice(text, pos, out, size)
    ensures out[..size] == Clip(text, pos, |out|) <==> pos + |out| <= 0x1_0000_0000_0000_0000 || text == []
  {
    if pos + |out| <= 0x1_0000_0000_0000_0000 {
      CountedPlain(text, pos, |out|);
      forall i | 0 <= i < size ensures out[i] == Clip(text, pos, |out|)[i] {}
      assert out[..size] == Clip(text, pos, |out|);
    } else if text == [] {
      CountedNone(text, pos, |out|);
    } else {
      var i := 0x1_0000_0000_0000_0000 - pos;
      CountedMonotonic(text, pos, i + 1, |out|);
      assert Counted(text, pos, i + 1) >= 1;
    }
  }

  // Past 64 bits the positions start over: the bytes counted are the first ones of the text.
  lemma {:induction false} CountedWrapped(text: Text, pos: nat, n: nat)
    requires |text| < 0x8000_0000_0000_0000 && n < 0x8000_0000_0000_0000 && pos <= NPOS
    requires pos + n >= 0x1_0000_0000_0000_0000
    ensures Counted(text, pos, n) == Min(pos + n - 0x1_0000_0000_0000_0000, |text|)
  {
    if pos + n == 0x1_0000_0000_0000_0000 {
      CountedPlain(text, pos, n);
    } else {
      CountedWrapped(text, pos, n - 1);
      assert Wrap(pos, n - 1) == pos + n - 1 - 0x1_0000_0000_0000_0000;
    }
  }

  ghost predicate ZeroFrom(bytes: Text, size: nat) {
    forall k :: size <= k < |bytes| ==> bytes[k] == 0
  }

  // A wrapped slice puts byte k of the text at position 2^64 - pos + k; the bytes that it puts past
  // the number of bytes counted are zero.
  ghost predicate ZeroWherePast(text: Text, pos: nat, size: nat)
    requires size <= |text| && pos <= NPOS
  {
    forall k :: 0 <= k < size && 0x1_0000_0000_0000_0000 - pos + k >= size ==> text[k] == 0
  }

  lemma CountedAtMost(text: Text, pos: nat, n: nat)
    requires |text| < 0x8000_0000_0000_0000 && n < 0x8000_0000_0000_0000 && pos <= NPOS
    ensures Counted(text, pos, n) <= |text|
  {
    if pos + n >= 0x1_0000_0000_0000_0000 { CountedWrapped(text, pos, n); } else { CountedPlain(text, pos, n); }
  }

  // The bytes past the size are zero unless the slice wraps onto bytes that are not.
  lemma SliceIsClean(text: Text, pos: nat, out: Text, size: nat)
    requires |text| < 0x8000_0000_0000_0000 && |out| < 0x8000_0000_0000_0000 && pos <= NPOS
    requires IsRawSlice(text, pos, out, size)
    ensures size <= |text|
    ensures ZeroFrom(out, size) <==> pos + |out| <= 0x1_0000_0000_0000_0000 || ZeroWherePast(text, pos, size)
  {
    hide Counted, Clip, Sliced, Wrap;
    CountedAtMost(text, pos, |out|);
    if pos + |out| <= 0x1_0000_0000_0000_0000 {
      CountedPlain(text, pos, |out|);
      PlainPositions(text, pos, |out|);
    } else {
      CountedWrapped(text, pos, |out|);
      WrappedPositions(text, pos, |out|);
      WrappedIsClean(text, 0x1_0000_0000_0000_0000 - pos, out, size);
      assert pos == 0x1_0000_0000_0000_0000 - (0x1_0000_0000_0000_0000 - pos);
    }
  }

  lemma PlainPositions(text: Text, pos: nat, n: nat)
    requires pos + n <= 0x1_0000_0000_0000_0000
    ensures |Clip(text, pos, n)| == if pos >= |text| then 0 else Min(n, |text| - pos)
    ensures forall k :: 0 <= k < n ==> Sliced(text, pos, k) == if pos + k < |text| then text[pos + k] else 0
  {
  }

  lemma WrappedPositions(text: Text, pos: nat, n: nat)
    requires |text| < 0x8000_0000_0000_0000 && n < 0x8000_0000_0000_0000 && pos <= NPOS
    requires pos + n > 0x1_0000_0000_0000_0000
    ensures var i := 0x1_0000_0000_0000_0000 - pos;
            forall k :: 0 <= k < n ==> Sliced(text, pos, k) == if i <= k < i + |text| then text[k - i] else 0
  {
    var i := 0x1_0000_0000_0000_0000 - pos;
    forall k | 0 <= k < n ensures Sliced(text, pos, k) == if i <= k < i + |text| then text[k - i] else 0 {
      assert Wrap(pos, k) == if k < i then pos + k else k - i;
    }
  }

  lemma WrappedIsClean(text: Text, i: nat, out: Text, size: nat)
    requires 0 < i <= 0x1_0000_0000_0000_0000 && i <= |out| && size == Min(|out| - i, |text|)
    requires forall k :: 0 <= k < |out| ==> out[k] == if i <= k < i + |text| then text[k - i] else 0
    ensures ZeroFrom(out, size) <==> ZeroWherePast(text, 0x1_0000_0000_0000_0000 - i, size)
  {
    forall k | 0 <= k < size ensures out[i + k] == text[k] {}
    if ZeroWherePast(text, 0x1_0000_0000_0000_0000 - i, size) {
      forall k | size <= k < |out| ensures out[k] == 0 {
        assert i <= k < i + |text| ==> text[k - i] == 0;
      }
    }
  }

  // ---- Facts about the bytes of a string that grows ----

  lemma Grow(bytes: Text, size: nat, ch: Byte)
    requires size < |bytes|
    ensures bytes[size := ch][..size + 1] == bytes[..size] + [ch]
    ensures forall k :: size < k < |bytes| ==> bytes[size := ch][k] == bytes[k]
  {
  }

  // What is appended when the prefix that fits of the first n bytes has been.
  ghost function Fitting(text: Text, room: nat, n: nat): (t: Text)
    ensures |t| == Min(Min(n, |text|), room)
  {
    text[..Min(Min(n, |text|), room)]
  }

  lemma FittingNext(text: Text, room: nat, n: nat)
    ensures Fitting(text, room, n + 1) == if n < |text|
      && n < room then Fitting(text, room, n) + [text[n]] else Fitting(text, room, n)
  {
  }

  lemma FittingAll(text: Text, room: nat, n: nat)
    requires |text| <= n
    ensures Fitting(text, room, n) == text[..Min(|text|, room)]
  {
  }

  function Min(x: nat, y: nat): nat { if x < y then x else y }

  // The first n bytes of endless copies of a text.
  ghost function Cycle(text: Text, n: nat): (t: Text)
    requires text == [] ==> n == 0
    ensures |t| == n
  {
    seq(n, k requires 0 <= k < n => text[k % |text|])
  }

  lemma CycleOnce(text: Text)
    ensures Cycle(text, |text|) == text
  {
  }

  lemma CycleNext(text: Text, i: nat, length: nat)
    requires i < length && |text| <= length && text != []
    ensures Cycle(text, Min(|text| + i, length))[i] == text[i % |text|]
    ensures |text| + i < length ==>
      Cycle(text, |text| + i + 1) == Cycle(text, |text| + i) + [text[i % |text|]]
  {
    ModShift(i, |text|, 1);
  }

  // ---- The class ----

  method AllocateWords(length: nat) returns (a: array<bv64>)
    ensures fresh(a) && a.Length == (length + 7) / 8
    ensures forall i :: 0 <= i < a.Length ==> a[i] == 0
  {
    a := new bv64[(length + 7) / 8];
    for i := 0 to a.Length
      invariant forall k :: 0 <= k < i ==> a[k] == 0
    {
      a[i] := 0;
    }
  }

  class StringE {
    var length: nat
    var words: array<bv64>
    var size: nat
    var exception: bool

    ghost predicate Valid()
      reads this`length, this`words, this`size
    {
      words.Length == (length + 7) / 8 && size <= length < 0x8000_0000_0000_0000
    }

    ghost function Bytes(): (t: Text)
      requires Valid()
      reads this`length, this`words, this`size, words
      ensures |t| == length
    {
      Unpack(words[..], length)
    }

    ghost function Contents(): (t: Text)
      requires Valid()
      reads this`length, this`words, this`size, words
      ensures |t| == size
    {
      Bytes()[..size]
    }

    // Bytes at or past the size are zero.
    ghost predicate Clean()
      requires Valid()
      reads this`length, this`words, this`size, words
    {
      forall k :: size <= k < length ==> Bytes()[k] == 0
    }

    constructor (capacity: nat)
      requires capacity < 0x8000_0000_0000_0000
      ensures Valid() && fresh(words) && length == capacity && !exception
      ensures Contents() == [] && Clean()
    {
      length := capacity;
      words := new bv64[(capacity + 7) / 8](i => 0);
      size := 0;
      exception := false;
      new;
      AllZero(words[..], length);
    }

    function GetCharPublic(idx: nat): (ch: Byte)
      requires Valid() && idx < length
      reads this`length, this`words, this`size, words
      ensures ch == Bytes()[idx]
    {
      GetLane(words[idx / 8], idx % 8)
    }

    method SetCharPublic(idx: nat, ch: Byte)
      requires Valid() && idx < length
      modifies words
      ensures Bytes() == old(Bytes())[idx := ch]
    {
      StoreByte(words[..], length, idx, ch);
      var w := idx / 8;
      ghost var after := words[..][w := SetLane(words[w], idx % 8, ch)];
      words[w] := SetLane(words[w], idx % 8, ch);
      assert words[..] == after;
    }

    // Rewrites every byte, one of them with the new value when the write is enabled.
    method ObliviousWrite(idx: nat, ch: Byte, enable: bool)
      requires Valid()
      modifies words
      ensures Bytes() == if enable && idx < length then old(Bytes())[idx := ch] else old(Bytes())
    {
      for k := 0 to length
        invariant Bytes() == if enable && idx < k then old(Bytes())[idx := ch] else old(Bytes())
      {
        var take := enable && idx == k;
        var cur := GetCharPublic(k);
        SetCharPublic(k, if take then ch else cur);
      }
    }

    // Appends a byte when it is wanted and fits; a wanted byte that does not fit sets the exception.
    method PushIf(ch: Byte, wanted: bool)
      requires Valid()
      modifies this`size, this`exception, words
      ensures Valid() && (old(Clean()) ==> Clean())
      ensures Contents() == if wanted && old(size) < length then old(Contents()) + [ch] else old(Contents())
      ensures exception == (old(exception) || (wanted && old(size) == length))
    {
      var fits := size < length;
      var doWrite := wanted && fits;
      ObliviousWrite(size, ch, doWrite);
      if doWrite {
        Grow(old(Bytes()), size, ch);
      }
      size := if doWrite then size + 1 else size;
      exception := exception || (wanted && !fits);
    }

    method PushBack(ch: Byte)
      requires Valid()
      modifies this`size, this`exception, words
      ensures Valid() && (old(Clean()) ==> Clean())
      ensures Contents() == if old(size) < length then old(Contents()) + [ch] else old(Contents())
      ensures exception == (old(exception) || old(size) == length)
    {
      PushIf(ch, true);
    }

    // What appending the first n bytes of a text to the given contents leaves behind.
    ghost predicate Appended(before: Text, flag: bool, text: Text, n: nat)
      requires Valid()
      reads this`length, this`words, this`size, this`exception, words
    {
      && |before| <= length
      && Contents() == before + Fitting(text, length - |before|, n)
      && exception == (flag || Min(n, |text|) > length - |before|)
    }

    method AppendNth(rhs: StringE, i: nat, ghost before: Text, ghost flag: bool)
      requires Valid() && rhs.Valid() && rhs != this && rhs.words != words && i < rhs.length
      requires Appended(before, flag, rhs.Contents(), i)
      modifies this`size, this`exception, words
      ensures Valid() && (old(Clean()) ==> Clean())
      ensures Appended(before, flag, rhs.Contents(), i + 1)
    {
      hide Unpack, Fitting, Clean;
      FittingNext(rhs.Contents(), length - |before|, i);
      var inRhs := i < rhs.size;
      var ch := rhs.GetCharPublic(i);
      PushIf(ch, inRhs);
    }

    // Appends the prefix of another string that fits.
    method Append(rhs: StringE)
      requires Valid() && rhs.Valid() && rhs != this && rhs.words != words
      modifies this`size, this`exception, words
      ensures Valid() && (old(Clean()) ==> Clean())
      ensures Contents() == old(Contents()) + rhs.Contents()[..Min(rhs.size, length - old(size))]
      ensures exception == (old(exception) || rhs.exception || rhs.size > length - old(size))
    {
      hide *;
      ghost var before, flag, text := Contents(), exception, rhs.Contents();
      AppendStarts(text);
      for i := 0 to rhs.length
        invariant Valid() && (old(Clean()) ==> Clean())
        invariant rhs.Valid() && rhs.Contents() == text && Appended(before, flag, text, i)
      {
        AppendNth(rhs, i, before, flag);
      }
      AppendEnds(rhs, before, flag);
      exception := exception || rhs.exception;
    }

    // The string so far, when it has been appended to itself from its first i positions.
    ghost predicate Repeats(before: Text, flag: bool, i: nat)
      requires Valid()
      reads this`length, this`words, this`size, this`exception, words
    {
      && |before| <= length && Contents() == Cycle(before, if before == [] then 0 else Min(|before| + i, length))
      && exception == (flag || (before != [] && |before| + i > length))
    }

    method AppendOwnNth(i: nat, ghost before: Text, ghost flag: bool)
      requires Valid() && i < length && Repeats(before, flag, i)
      modifies this`size, this`exception, words
      ensures Valid() && (old(Clean()) ==> Clean())
      ensures Repeats(before, flag, i + 1)
    {
      hide Unpack, Clean;
      var inRhs := i < size;
      var ch := GetCharPublic(i);
      if before != [] {
        CycleNext(before, i, length);
      }
      assert inRhs ==> ch == Contents()[i];
      PushIf(ch, inRhs);
    }

    // Appending a string to itself: its size grows with every byte, so a string that is not empty is
    // repeated until the capacity is full, and always sets the exception.
    method AppendSelf()
      requires Valid()
      modifies this`size, this`exception, words
      ensures Valid() && (old(Clean()) ==> Clean())
      ensures Contents() == Cycle(old(Contents()), if old(size) == 0 then 0 else length)
      ensures exception == (old(exception) || old(size) > 0)
    {
      hide Unpack, Clean;
      ghost var before, flag := Contents(), exception;
      CycleOnce(before);
      for i := 0 to length
        invariant Valid() && (old(Clean()) ==> Clean()) && Repeats(before, flag, i)
      {
        AppendOwnNth(i, before, flag);
      }
      exception := exception || exception;
    }

    lemma AppendStarts(text: Text)
      requires Valid()
      ensures Appended(Contents(), exception, text, 0)
    {
    }

    lemma AppendEnds(rhs: StringE, before: Text, flag: bool)
      requires Valid() && rhs.Valid() && Appended(before, flag, rhs.Contents(), rhs.length)
      ensures |before| <= length && Contents() == before + rhs.Contents()[..Min(rhs.size, length - |before|)]
      ensures exception == (flag || rhs.size > length - |before|)
    {
      FittingAll(rhs.Contents(), length - |before|, rhs.length);
    }

    // The sum has room for both, so nothing is dropped.
    static method Plus(lhs: StringE, rhs: StringE) returns (out: StringE)
      requires lhs.Valid() && rhs.Valid() && lhs.length + rhs.length < 0x8000_0000_0000_0000
      ensures fresh(out) && fresh(out.words) && out.Valid() && out.Clean()
      ensures out.length == lhs.length + rhs.length && out.Contents() == lhs.Contents() + rhs.Contents()
      ensures out.exception == (lhs.exception || rhs.exception)
    {
      hide Unpack;
      out := new StringE(lhs.length + rhs.length);
      out.Append(lhs);
      assert lhs.Contents()[..lhs.size] == lhs.Contents();
      assert out.Contents() == lhs.Contents();
      out.Append(rhs);
      assert rhs.Contents()[..rhs.size] == rhs.Contents();
      out.exception := out.exception || lhs.exception || rhs.exception;
    }

    // Copy assignment; the storage is replaced when the capacities differ.
    method Assign(rhs: StringE)
      requires Valid() && rhs.Valid() && (rhs == this || rhs.words != words)
      modifies this, words
      ensures Valid() && rhs.Valid() && (words == old(words) || fresh(words))
      ensures length == old(rhs.length) && Bytes() == old(rhs.Bytes()) && size == old(rhs.size)
        && exception == old(rhs.exception)
      ensures rhs != this ==> words != rhs.words
    {
      if this == rhs {
        return;
      }
      if length != rhs.length {
        length := rhs.length;
        words := AllocateWords(rhs.length);
      }
      for i := 0 to words.Length
        modifies words
        invariant forall k :: 0 <= k < i ==> words[k] == rhs.words[k]
      {
        words[i] := rhs.words[i];
      }
      size := rhs.size;
      exception := rhs.exception;
      assert words[..] == rhs.words[..];
    }

    // Three-way lexicographic order on unsigned bytes, whatever the two capacities.
    method Compare(rhs: StringE) returns (result: int)
      requires Valid() && rhs.Valid()
      ensures result == Order(Contents(), rhs.Contents())
    {
      hide Order, Decides, Unpack;
      result := 0;
      var decided := false;
      ghost var a, b := Contents(), rhs.Contents();
      DecidesStarts(a, b);
      var m := if length > rhs.length then length else rhs.length;
      for i := 0 to m
        invariant Decides(a, b, i, result, decided)
      {
        OrderNext(a, b, i, result, decided);
        var inL, inR := i < size, i < rhs.size;
        var lc := if i < length then GetCharPublic(i) else 0;
        var rc := if i < rhs.length then rhs.GetCharPublic(i) else 0;
        var lOnly, rOnly, both := inL && !inR, inR && !inL, inL && inR;
        var lt, gt := both && lc < rc, both && lc > rc;
        var choose := !decided;
        result := if choose && (lt || rOnly) then -1 else result;
        result := if choose && (gt || lOnly) then 1 else result;
        decided := decided || lOnly || rOnly || lt || gt;
      }
      DecidesEnds(a, b, m, result, decided);
    }

    function GetCharOrZero(idx: nat): (ch: Byte)
      requires Valid()
      reads this`length, this`words, this`size, words
      ensures ch == if idx < length then Bytes()[idx] else 0
    {
      if idx >= length then 0 else GetCharPublic(idx)
    }

    // Whether a nonempty needle lies at position i.
    method MatchesAt(needle: StringE, i: nat, allowed: bool) returns (matches: bool)
      requires Valid() && needle.Valid() && i < length
      ensures matches == (allowed && needle.size > 0 && OccursAt(Contents(), needle.Contents(), i))
    {
      hide Unpack, AgreesAt, OccursAt;
      matches := allowed && i < size;
      ghost var text, word := Contents(), needle.Contents();
      AgreesEnds(text, word, i, needle.length);
      OccursInside(text, word);
      for j := 0 to needle.length
        invariant matches == (allowed && i < size && AgreesAt(text, word, i, j))
      {
        AgreesNext(text, word, i, j);
        var nIn, sIn := j < needle.size, i + j < size;
        var a, b := GetCharOrZero(i + j), needle.GetCharPublic(j);
        matches := matches && if nIn then sIn && a == b else true;
      }
      matches := matches && needle.size > 0;
    }

    method Find(needle: StringE, pos: nat) returns (r: nat)
      requires Valid() && needle.Valid() && pos <= NPOS
      ensures needle.size > 0 ==> IsFirst(Contents(), needle.Contents(), pos, r)
      ensures needle.size == 0 ==> r == if pos <= size then pos else NPOS
    {
      hide Unpack, OccursAt, FirstBefore, IsFirst;
      var best: nat, found := NPOS, false;
      ghost var text, word := Contents(), needle.Contents();
      SearchStarts(text, word, pos);
      for i := 0 to length
        invariant found == (best != NPOS) && (needle.size == 0 ==> !found)
        invariant FirstBefore(text, word, pos, i, best) || needle.size == 0
      {
        if needle.size > 0 {
          FirstNext(text, word, pos, i, best);
        }
        var matches := MatchesAt(needle, i, i >= pos);
        var choose := matches && !found;
        best := if choose then i else best;
        found := found || matches;
      }
      if needle.size > 0 {
        FirstEnds(text, word, pos, length, best);
      }
      r := if needle.size == 0 && size >= pos then pos else best;
    }

    method RFind(needle: StringE, pos: nat) returns (r: nat)
      requires Valid() && needle.Valid() && pos <= NPOS
      ensures needle.size > 0 ==> IsLast(Contents(), needle.Contents(), pos, r)
      ensures needle.size == 0 ==> r == if pos == NPOS then size else if pos <= size then pos else NPOS
    {
      hide Unpack, OccursAt, LastBefore, IsLast;
      var best: nat := NPOS;
      ghost var text, word := Contents(), needle.Contents();
      SearchStarts(text, word, pos);
      for i := 0 to length
        invariant needle.size == 0 ==> best == NPOS
        invariant LastBefore(text, word, pos, i, best) || needle.size == 0
      {
        if needle.size > 0 {
          LastNext(text, word, pos, i, best);
        }
        var matches := MatchesAt(needle, i, if pos == NPOS then true else i <= pos);
        best := if matches then i else best;
      }
      if needle.size > 0 {
        LastEnds(text, word, pos, length, best);
      }
      var retPos := if pos == NPOS then size else pos;
      r := if needle.size == 0 && size >= retPos then retPos else best;
    }

    // A needle is contained when it occurs somewhere; the empty one always is.
    method Contains(needle: StringE) returns (r: bool)
      requires Valid() && needle.Valid()
      ensures r <==> exists i: nat :: OccursAt(Contents(), needle.Contents(), i)
    {
      var p := Find(needle, 0);
      r := p != NPOS;
      assert needle.size == 0 ==> OccursAt(Contents(), needle.Contents(), 0);
    }

    // The byte at a position that is looked for among all of them, zero when there is none.
    method GetCharBySecretIndex(idx: nat) returns (result: Byte)
      requires Valid()
      ensures result == if idx < length then Bytes()[idx] else 0
    {
      result := 0;
      for k := 0 to length
        invariant result == if idx < k then Bytes()[idx] else 0
      {
        var eq := idx == k;
        result := if eq then GetCharPublic(k) else result;
      }
    }

    method StartsWith(prefix: StringE) returns (ok: bool)
      requires Valid() && prefix.Valid()
      ensures ok == OccursAt(Contents(), prefix.Contents(), 0)
    {
      hide Unpack, AgreesAt, OccursAt;
      ok := size >= prefix.size;
      ghost var text, word := Contents(), prefix.Contents();
      AgreesEnds(text, word, 0, prefix.length);
      OccursInside(text, word);
      for i := 0 to prefix.length
        invariant ok == (|word| <= |text| && AgreesAt(text, word, 0, i))
      {
        AgreesNext(text, word, 0, i);
        var inside := i < prefix.size;
        ok := ok && if inside then GetCharOrZero(i) == prefix.GetCharPublic(i) else true;
      }
    }

    method EndsWith(suffix: StringE) returns (ok: bool)
      requires Valid() && suffix.Valid()
      ensures ok == (suffix.size <= size && OccursAt(Contents(), suffix.Contents(), size - suffix.size))
    {
      hide Unpack, AgreesAt, OccursAt, Wrap, Minus;
      ok := size >= suffix.size;
      var start := Minus(size, suffix.size);
      ghost var text, word := Contents(), suffix.Contents();
      ghost var at := if ok then size - suffix.size else 0;
      AgreesEnds(text, word, at, suffix.length);
      for i := 0 to suffix.length
        invariant ok == (|word| <= |text| && AgreesAt(text, word, at, i))
      {
        AgreesNext(text, word, at, i);
        FromEnd(size, suffix.size, i);
        var inside := i < suffix.size;
        var ch := GetCharBySecretIndex(Wrap(start, i));
        ok := ok && if inside then ch == suffix.GetCharPublic(i) else true;
      }
    }

    // The result is the clipped slice exactly when pos + count does not wrap or there is nothing to copy.
    method Substr(pos: nat, count: nat) returns (out: StringE)
      requires Valid() && pos <= NPOS && count < 0x8000_0000_0000_0000
      ensures fresh(out) && fresh(out.words) && out.Valid() && out.length == count && out.exception == exception
      ensures IsRawSlice(Contents(), pos, out.Bytes(), out.size)
      ensures out.Contents() == Clip(Contents(), pos, count) <==> pos + count <= 0x1_0000_0000_0000_0000 || size == 0
      ensures out.size <= size
      ensures out.Clean() <==>
        pos + count <= 0x1_0000_0000_0000_0000 || ZeroWherePast(Contents(), pos, out.size)
    {
      hide Unpack, Sliced, Counted, Clip, Wrap;
      out := new StringE(count);
      ghost var text := Contents();
      SliceNext(text, pos, 0);
      for i := 0 to count
        invariant fresh(out) && fresh(out.words) && out.Valid() && out.length == count
        invariant out.size == Counted(text, pos, i)
        invariant forall k :: 0 <= k < count ==> out.Bytes()[k] == if k < i then Sliced(text, pos, k) else 0
      {
        SliceNext(text, pos, i);
        var src := Wrap(pos, i);
        var inside := src < size;
        var ch := GetCharBySecretIndex(src);
        out.ObliviousWrite(i, ch, inside);
        out.size := if inside then out.size + 1 else out.size;
      }
      out.exception := exception;
      SliceUnlessWrapped(text, pos, out.Bytes(), out.size);
      SliceIsClean(text, pos, out.Bytes(), out.size);
    }
  }
}
