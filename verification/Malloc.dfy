/**
 The first-fit allocator over a program break: a singly linked list of headers, no splitting and
 no merging, and a break that moves back when the last block is released.

 Addresses index the bytes of the heap. The headers are kept in a map by address; that no
 block overlaps another block or its header is what is proved about the addresses.
 */
module Malloc {

  const WORD: nat := 0x1_0000_0000_0000_0000
  const FAILED: nat := 0xffff_ffff_ffff_ffff

  // ---- The layout, the reference ----

  // Blocks in address order; a block is what follows a header.
  datatype Cell = Cell(size: nat, isFree: bool)

  // The address of the header of block i, and for i == |cells| the first address after all blocks.
  ghost function Start(base: nat, cells: seq<Cell>, i: nat): nat
    requires i <= |cells|
  {
    if i == 0 then base else Start(base, cells, i - 1) + 24 + cells[i - 1].size
  }

  ghost function Block(base: nat, cells: seq<Cell>, i: nat): nat
    requires i <= |cells|
  {
    Start(base, cells, i) + 24
  }

  ghost predicate WellSized(cells: seq<Cell>) {
    forall i :: 0 <= i < |cells| ==> cells[i].size > 0 && cells[i].size % 8 == 0
  }

  ghost predicate Fits(cells: seq<Cell>, n: nat, i: nat)
    requires i < |cells|
  {
    cells[i].isFree && cells[i].size >= n
  }

  // The first free block that is large enough, |cells| when there is none.
  ghost function FirstFit(cells: seq<Cell>, n: nat, from: nat): (i: nat)
    requires from <= |cells|
    ensures from <= i <= |cells|
    ensures i < |cells| ==> Fits(cells, n, i)
    ensures forall k :: from <= k < i ==> !Fits(cells, n, k)
    decreases |cells| - from
  {
    if from == |cells| then from else if Fits(cells, n, from) then from else FirstFit(cells, n, from + 1)
  }

  ghost function Allocated(cells: seq<Cell>, n: nat): seq<Cell> {
    var i := FirstFit(cells, n, 0);
    if i < |cells| then cells[i := cells[i].(isFree := false)] else cells + [Cell(n, false)]
  }

  ghost function Released(cells: seq<Cell>, i: nat): seq<Cell>
    requires i < |cells|
  {
    if i == |cells| - 1 then cells[..i] else cells[i := cells[i].(isFree := true)]
  }

  // ---- Properties of the layout ----

  lemma {:induction false} StartAscends(base: nat, cells: seq<Cell>, i: nat, j: nat)
    requires i < j <= |cells|
    ensures Block(base, cells, i) + cells[i].size <= Start(base, cells, j)
  {
    if i < j - 1 {
      StartAscends(base, cells, i, j - 1);
    }
  }

  // Same sizes up to i, same address.
  lemma {:induction false} StartDepends(base: nat, cells: seq<Cell>, cells': seq<Cell>, i: nat)
    requires i <= |cells| && i <= |cells'| && forall k :: 0 <= k < i ==> cells[k].size == cells'[k].size
    ensures Start(base, cells, i) == Start(base, cells', i)
  {
    if i > 0 {
      StartDepends(base, cells, cells', i - 1);
    }
  }

  lemma {:induction false} StartAligned(base: nat, cells: seq<Cell>, i: nat)
    requires i <= |cells| && WellSized(cells) && base % 8 == 0
    ensures Start(base, cells, i) % 8 == 0
  {
    if i > 0 {
      StartAligned(base, cells, i - 1);
    }
  }

  lemma {:induction false} StartFromBase(base: nat, cells: seq<Cell>, i: nat)
    requires i <= |cells|
    ensures base <= Start(base, cells, i)
  {
    if i > 0 {
      StartFromBase(base, cells, i - 1);
    }
  }

  // Address ranges of two blocks, headers included, do not meet.
  lemma BlocksAreDisjoint(base: nat, cells: seq<Cell>, i: nat, j: nat)
    requires i < |cells| && j < |cells| && i != j
    ensures Block(base, cells, i) + cells[i].size <= Start(base, cells, j)
      || Block(base, cells, j) + cells[j].size <= Start(base, cells, i)
  {
    if i < j { StartAscends(base, cells, i, j); } else { StartAscends(base, cells, j, i); }
  }

  ghost predicate Live(cells: seq<Cell>, i: nat) {
    i < |cells| && !cells[i].isFree
  }

  // The index of the block that an allocation returns.
  ghost function Chosen(cells: seq<Cell>, n: nat): (i: nat)
    ensures i < |Allocated(cells, n)|
  {
    FirstFit(cells, n, 0)
  }

  // An allocation gives out a block that was not live, large enough and aligned; live blocks stay
  // where they are, keep their size, and do not meet the new one.
  lemma AllocationIsSafe(base: nat, cells: seq<Cell>, n: nat, j: nat)
    requires WellSized(cells) && n > 0 && n % 8 == 0 && base % 8 == 0
    ensures var c, i := Allocated(cells, n), Chosen(cells, n);
            && WellSized(c) && Live(c, i) && !Live(cells, i) && c[i].size >= n && Block(base, c, i) % 8 == 0
            && (Live(cells, j) ==>
              Live(c, j) && c[j].size == cells[j].size && Start(base, c, j) == Start(base, cells, j))
            && (Live(cells, j) ==>
              Block(base, c, i) + c[i].size <= Block(base, c, j) || Block(base, c, j) + c[j].size <= Block(base, c, i))
  {
    var c, i := Allocated(cells, n), Chosen(cells, n);
    StartAligned(base, c, i);
    if Live(cells, j) {
      StartDepends(base, c, cells, j);
      BlocksAreDisjoint(base, c, i, j);
    }
  }

  // A release ends one block and leaves every other live block where it was.
  lemma ReleaseIsSafe(base: nat, cells: seq<Cell>, i: nat, j: nat)
    requires WellSized(cells) && Live(cells, i)
    ensures var c := Released(cells, i);
            && WellSized(c) && !Live(c, i)
            && (Live(cells, j) && j != i ==>
              Live(c, j) && c[j].size == cells[j].size && Start(base, c, j) == Start(base, cells, j))
            && (Live(c, j) ==> Live(cells, j) && j != i)
  {
    var c := Released(cells, i);
    if j <= |c| {
      StartDepends(base, c, cells, j);
    }
  }

  lemma FewerWellSized(cells: seq<Cell>)
    requires WellSized(cells) && |cells| > 0
    ensures WellSized(cells[..|cells| - 1])
  {
  }

  lemma OneMore(base: nat, cells: seq<Cell>, n: nat)
    requires WellSized(cells) && n > 0 && n % 8 == 0
    ensures WellSized(cells + [Cell(n, false)])
    ensures Start(base, cells + [Cell(n, false)], |cells| + 1) == Start(base, cells, |cells|) + 24 + n
    ensures cells == [] ==> Start(base, cells, |cells|) == base
    ensures |cells| > 0 ==> Start(base, cells, |cells| - 1) >= base
  {
    var c := cells + [Cell(n, false)];
    StartDepends(base, c, cells, |cells|);
    if |cells| > 0 {
      StartFromBase(base, cells, |cells| - 1);
    }
  }

  // Releasing in the opposite order what freshly extended the heap restores it, and so the break.
  ghost function Extended(cells: seq<Cell>, sizes: seq<nat>): seq<Cell> {
    if sizes == [] then cells else Extended(cells, sizes[..|sizes| - 1]) + [Cell(sizes[|sizes| - 1], false)]
  }

  ghost function ReleasedLast(cells: seq<Cell>, count: nat): seq<Cell>
    requires count <= |cells|
  {
    if count == 0 then cells else ReleasedLast(Released(cells, |cells| - 1), count - 1)
  }

  lemma {:induction false} LastInFirstOut(cells: seq<Cell>, sizes: seq<nat>)
    ensures |Extended(cells, sizes)| == |cells| + |sizes|
    ensures ReleasedLast(Extended(cells, sizes), |sizes|) == cells
  {
    if sizes != [] {
      LastInFirstOut(cells, sizes[..|sizes| - 1]);
      var c := Extended(cells, sizes);
      assert Released(c, |c| - 1) == Extended(cells, sizes[..|sizes| - 1]);
    }
  }

  // Released in the order of allocation instead, the first block stays behind as a free one.
  lemma FirstInFirstOutLeavesAHole(cells: seq<Cell>, m: nat, n: nat)
    ensures var c := cells + [Cell(m, false), Cell(n, false)];
            Released(Released(c, |cells|), |cells| + 1) == cells + [Cell(m, true)]
  {
    var c := cells + [Cell(m, false), Cell(n, false)];
    assert Released(c, |cells|) == cells + [Cell(m, true), Cell(n, false)];
  }

  // Live blocks released one after another, in any order.
  ghost predicate Releasable(cells: seq<Cell>, order: seq<nat>)
    decreases |order|
  {
    order == [] || (Live(cells, order[0]) && Releasable(Released(cells, order[0]), order[1..]))
  }

  ghost function ReleasedIn(cells: seq<Cell>, order: seq<nat>): seq<Cell>
    requires Releasable(cells, order)
    decreases |order|
  {
    if order == [] then cells else ReleasedIn(Released(cells, order[0]), order[1..])
  }

  ghost predicate IsLastInFirstOut(from: int, order: seq<nat>) {
    forall k :: 0 <= k < |order| ==> order[k] == from + |order| - 1 - k
  }

  lemma LastComesFirst(from: int, order: seq<nat>)
    requires order != []
    ensures IsLastInFirstOut(from, order) <==> order[0] == from + |order| - 1 && IsLastInFirstOut(from, order[1..])
  {
    var rest := order[1..];
    if order[0] == from + |order| - 1 && IsLastInFirstOut(from, rest) {
      forall k | 0 <= k < |order| ensures order[k] == from + |order| - 1 - k {
        assert k > 0 ==> order[k] == rest[k - 1];
      }
    }
  }

  // Every release shortens the layout only when each one takes what is then the last block.
  lemma {:induction false} ReleasedLength(cells: seq<Cell>, order: seq<nat>)
    requires Releasable(cells, order)
    ensures |ReleasedIn(cells, order)| >= |cells| - |order|
    ensures |ReleasedIn(cells, order)| == |cells| - |order| <==> IsLastInFirstOut(|cells| - |order|, order)
    ensures |ReleasedIn(cells, order)| == |cells| - |order| ==>
      ReleasedIn(cells, order) == cells[..|cells| - |order|]
    decreases |order|
  {
    if order != [] {
      ReleasedLength(Released(cells, order[0]), order[1..]);
      LastComesFirst(|cells| - |order|, order);
    }
  }

  lemma {:induction false} ExtendedPrefix(cells: seq<Cell>, sizes: seq<nat>)
    ensures |Extended(cells, sizes)| == |cells| + |sizes| && Extended(cells, sizes)[..|cells|] == cells
  {
    if sizes != [] {
      ExtendedPrefix(cells, sizes[..|sizes| - 1]);
    }
  }

  // As many releases as there are fresh blocks restore the layout exactly in the opposite order.
  lemma RestoredOnlyLastInFirstOut(cells: seq<Cell>, sizes: seq<nat>, order: seq<nat>)
    requires |order| == |sizes| && Releasable(Extended(cells, sizes), order)
    ensures ReleasedIn(Extended(cells, sizes), order) == cells <==> IsLastInFirstOut(|cells|, order)
  {
    hide *;
    ExtendedPrefix(cells, sizes);
    ReleasedLength(Extended(cells, sizes), order);
  }

  // ---- Whole runs ----

  // The heap as its callers see it: the layout, and the bytes.
  datatype State = State(base: nat, limit: nat, cells: seq<Cell>, bytes: seq<bv8>)

  // A call on the heap, or a caller that stores a byte into a block of its own.
  datatype Op =
    | Malloc(size: nat)
    | Calloc(num: nat, nsize: nat)
    | Realloc(i: nat, size: nat)
    | Free(i: nat)
    | Store(i: nat, offset: nat, value: bv8)

  ghost function Break(s: State): nat {
    Start(s.base, s.cells, |s.cells|)
  }

  ghost predicate ValidState(s: State) {
    && s.base > 0 && s.base % 8 == 0 && WellSized(s.cells)
    && Break(s) <= s.limit == |s.bytes| < 0x8000_0000_0000_0000
  }

  // A request for nothing, and one that no free block fits and that the limit leaves no room for.
  ghost predicate Refused(s: State, size: nat) {
    var n := Rounded(size);
    n == 0 || (FirstFit(s.cells, n, 0) == |s.cells| && Break(s) + 24 + n > s.limit)
  }

  ghost function Given(s: State, size: nat): seq<Cell> {
    if Refused(s, size) then s.cells else Allocated(s.cells, Rounded(size))
  }

  ghost function Overwritten(bytes: seq<bv8>, at: nat, data: seq<bv8>): seq<bv8> {
    if at + |data| <= |bytes| then bytes[..at] + data + bytes[at + |data|..] else bytes
  }

  ghost function Zeros(n: nat): seq<bv8> {
    seq(n, _ => 0)
  }

  ghost function Contents(s: State, i: nat): seq<bv8>
    requires i < |s.cells|
  {
    var at := Block(s.base, s.cells, i);
    if at + s.cells[i].size <= |s.bytes| then s.bytes[at..at + s.cells[i].size] else []
  }

  // A block is moved when it is too small for the new size and the request is met.
  ghost predicate Moves(s: State, i: nat, size: nat) {
    i < |s.cells| && s.cells[i].size < size && !Refused(s, size)
  }

  ghost predicate Permitted(s: State, op: Op) {
    match op
    case Malloc(size) => size < WORD && !Escapes(s.base, Break(s), s.limit, size)
    case Calloc(num, nsize) =>
      num < WORD && nsize < WORD && (num * nsize < WORD ==> !Escapes(s.base, Break(s), s.limit, num * nsize))
    case Realloc(i, size) => Live(s.cells, i) && size < WORD && !Escapes(s.base, Break(s), s.limit, size)
    case Free(i) => Live(s.cells, i)
    case Store(i, offset, _) => Live(s.cells, i) && offset < s.cells[i].size
  }

  ghost function Next(s: State, op: Op): State
    requires Permitted(s, op)
  {
    match op
    case Malloc(size) => s.(cells := Given(s, size))
    case Calloc(num, nsize) => if num * nsize >= WORD then s else Cleared(s, num * nsize)
    case Realloc(i, size) => if Moves(s, i, size) then Moved(s, i, size) else s
    case Free(i) => s.(cells := Released(s.cells, i))
    case Store(i, offset, value) => s.(bytes := Overwritten(s.bytes, Block(s.base, s.cells, i) + offset, [value]))
  }

  ghost function Cleared(s: State, size: nat): State {
    if Refused(s, size) then s
    else
      var c, i := Given(s, size), Chosen(s.cells, Rounded(size));
      s.(cells := c, bytes := Overwritten(s.bytes, Block(s.base, c, i), Zeros(size)))
  }

  ghost function Moved(s: State, i: nat, size: nat): State
    requires Moves(s, i, size)
  {
    var c, j := Given(s, size), Chosen(s.cells, Rounded(size));
    s.(cells := Released(c, i), bytes := Overwritten(s.bytes, Block(s.base, c, j), Contents(s, i)))
  }

  // Where block j is after a call: elsewhere only when it is reallocated and moved.
  ghost function Follow(s: State, op: Op, j: nat): nat {
    if op.Realloc? && op.i == j && Moves(s, j, op.size) then Chosen(s.cells, Rounded(op.size)) else j
  }

  // A call that ends block j or stores into it.
  ghost predicate Spoils(op: Op, j: nat) {
    (op.Free? || op.Store?) && op.i == j
  }

  lemma OverwrittenRanges(bytes: seq<bv8>, at: nat, data: seq<bv8>, from: nat, n: nat)
    requires at + |data| <= |bytes| && from + n <= |bytes|
    ensures var after := Overwritten(bytes, at, data);
            && |after| == |bytes| && after[at..at + |data|] == data
            && (from + n <= at || at + |data| <= from ==> after[from..from + n] == bytes[from..from + n])
  {
  }

  // The contents of block j of size n or more are still those bytes.
  ghost predicate Holds(s: State, j: nat, data: seq<bv8>) {
    Live(s.cells, j) && |data| <= |Contents(s, j)| && Contents(s, j)[..|data|] == data
  }

  ghost predicate SamePlace(s: State, t: State, j: nat)
    requires j < |s.cells|
  {
    Live(t.cells, j) && t.cells[j].size == s.cells[j].size && Start(t.base, t.cells, j) == Start(s.base, s.cells, j)
  }

  lemma InsideLimit(s: State, i: nat)
    requires ValidState(s) && i < |s.cells|
    ensures Block(s.base, s.cells, i) + s.cells[i].size <= |s.bytes| && |Contents(s, i)| == s.cells[i].size
  {
    StartAscends(s.base, s.cells, i, |s.cells|);
  }

  // An allocation keeps the state valid, and every live block where it is and as it is.
  lemma GivenKeeps(s: State, size: nat, j: nat)
    requires ValidState(s) && Live(s.cells, j) && !Refused(s, size)
    ensures var t, i := s.(cells := Given(s, size)), Chosen(s.cells, Rounded(size));
            && ValidState(t) && SamePlace(s, t, j) && Contents(t, j) == Contents(s, j)
            && Live(t.cells, i) && i != j && t.cells[i].size >= Rounded(size)
  {
    hide ValidState, WellSized, Start, Rounded, Chosen;
    RoundedAligned(size);
    StateFacts(s);
    GivenValid(s, size);
    AllocationIsSafe(s.base, s.cells, Rounded(size), j);
  }

  lemma StateFacts(s: State)
    requires ValidState(s)
    ensures s.base % 8 == 0 && WellSized(s.cells)
  {
  }

  lemma GivenValid(s: State, size: nat)
    requires ValidState(s)
    ensures ValidState(s.(cells := Given(s, size)))
  {
    if !Refused(s, size) {
      var n := Rounded(size);
      RoundedAligned(size);
      var i := FirstFit(s.cells, n, 0);
      if i < |s.cells| {
        StartDepends(s.base, s.cells, Allocated(s.cells, n), |s.cells|);
      } else {
        OneMore(s.base, s.cells, n);
      }
    }
  }

  lemma RoundedAligned(size: nat)
    ensures Rounded(size) % 8 == 0
  {
  }

  lemma ReleasedValid(s: State, i: nat)
    requires ValidState(s) && Live(s.cells, i)
    ensures ValidState(s.(cells := Released(s.cells, i)))
  {
    var c := Released(s.cells, i);
    StartDepends(s.base, c, s.cells, |c|);
    if |c| < |s.cells| { StartAscends(s.base, s.cells, |c|, |s.cells|); }
  }

  lemma ReleasedKeeps(s: State, i: nat, j: nat)
    requires ValidState(s) && Live(s.cells, i) && Live(s.cells, j) && i != j
    ensures var t := s.(cells := Released(s.cells, i));
            ValidState(t) && SamePlace(s, t, j) && Contents(t, j) == Contents(s, j)
  {
    ReleasedValid(s, i);
    ReleaseIsSafe(s.base, s.cells, i, j);
  }

  lemma SliceOfSlice(bytes: seq<bv8>, at: nat, size: nat, offset: nat, n: nat)
    requires at + size <= |bytes| && offset + n <= size
    ensures bytes[at..at + size][offset..offset + n] == bytes[at + offset..at + offset + n]
  {
    var part := bytes[at..at + size];
    var left, right := part[offset..offset + n], bytes[at + offset..at + offset + n];
    forall k | 0 <= k < n ensures left[k] == right[k] {
      assert left[k] == part[offset + k] == bytes[at + (offset + k)] == right[k];
    }
  }

  // Bytes written inside one block leave every other block as it is.
  lemma WriteKeeps(s: State, i: nat, offset: nat, data: seq<bv8>, j: nat)
    requires ValidState(s) && i < |s.cells| && offset + |data| <= s.cells[i].size && j < |s.cells|
    ensures var t := s.(bytes := Overwritten(s.bytes, Block(s.base, s.cells, i) + offset, data));
            && ValidState(t) && (i != j ==> Contents(t, j) == Contents(s, j))
            && |Contents(t, i)| == s.cells[i].size && Contents(t, i)[offset..offset + |data|] == data
  {
    hide Overwritten, Start, WellSized, Contents, ValidState, Block;
    var a := Block(s.base, s.cells, i);
    InsideLimit(s, i);
    InsideLimit(s, j);
    OverwrittenLength(s.bytes, a + offset, data);
    SameLayoutValid(s, Overwritten(s.bytes, a + offset, data));
    WriteKeepsOther(s, i, offset, data, j);
    WriteIsRead(s, i, offset, data);
  }

  lemma OverwrittenLength(bytes: seq<bv8>, at: nat, data: seq<bv8>)
    ensures |Overwritten(bytes, at, data)| == |bytes|
  {
  }

  lemma SameLayoutValid(s: State, bytes: seq<bv8>)
    requires ValidState(s) && |bytes| == |s.bytes|
    ensures ValidState(s.(bytes := bytes))
  {
  }

  lemma WriteKeepsOther(s: State, i: nat, offset: nat, data: seq<bv8>, j: nat)
    requires ValidState(s) && i < |s.cells| && offset + |data| <= s.cells[i].size && j < |s.cells|
    ensures var t := s.(bytes := Overwritten(s.bytes, Block(s.base, s.cells, i) + offset, data));
            i != j ==> Contents(t, j) == Contents(s, j)
  {
    hide Overwritten, Start, WellSized, ValidState, Block, Contents;
    if i != j {
      var a, b := Block(s.base, s.cells, i), Block(s.base, s.cells, j);
      InsideLimit(s, i);
      InsideLimit(s, j);
      BlocksApart(s.base, s.cells, i, j);
      OverwrittenRanges(s.bytes, a + offset, data, b, s.cells[j].size);
      ContentsAre(s, j);
      ContentsAre(s.(bytes := Overwritten(s.bytes, a + offset, data)), j);
    }
  }

  lemma BlocksApart(base: nat, cells: seq<Cell>, i: nat, j: nat)
    requires i < |cells| && j < |cells| && i != j
    ensures Block(base, cells, i) + cells[i].size <= Block(base, cells, j)
      || Block(base, cells, j) + cells[j].size <= Block(base, cells, i)
  {
    hide Start;
    BlocksAreDisjoint(base, cells, i, j);
  }

  lemma ContentsAre(s: State, j: nat)
    requires j < |s.cells| && Block(s.base, s.cells, j) + s.cells[j].size <= |s.bytes|
    ensures Contents(s, j) == s.bytes[Block(s.base, s.cells, j)..Block(s.base, s.cells, j) + s.cells[j].size]
  {
    hide Block;
  }

  lemma WriteIsRead(s: State, i: nat, offset: nat, data: seq<bv8>)
    requires ValidState(s) && i < |s.cells| && offset + |data| <= s.cells[i].size
    ensures var t := s.(bytes := Overwritten(s.bytes, Block(s.base, s.cells, i) + offset, data));
            |Contents(t, i)| == s.cells[i].size && Contents(t, i)[offset..offset + |data|] == data
  {
    hide Overwritten, Start, WellSized, ValidState;
    InsideLimit(s, i);
    var a := Block(s.base, s.cells, i);
    OverwrittenRanges(s.bytes, a + offset, data, a, 0);
    SliceOfSlice(Overwritten(s.bytes, a + offset, data), a, s.cells[i].size, offset, |data|);
  }

  lemma GivenKeepsBlock(s: State, size: nat, j: nat)
    requires ValidState(s) && Live(s.cells, j)
    ensures var t := s.(cells := Given(s, size));
            ValidState(t) && SamePlace(s, t, j) && Contents(t, j) == Contents(s, j)
  {
    if !Refused(s, size) {
      GivenKeeps(s, size, j);
    }
  }

  lemma ClearedKeeps(s: State, size: nat, j: nat)
    requires ValidState(s) && Live(s.cells, j) && size < WORD
    ensures ValidState(Cleared(s, size)) && SamePlace(s, Cleared(s, size), j)
    ensures Contents(Cleared(s, size), j) == Contents(s, j)
  {
    hide Rounded, Given, Contents, Chosen, Block, Overwritten, ValidState, FirstFit;
    if !Refused(s, size) {
      var t, i := s.(cells := Given(s, size)), Chosen(s.cells, Rounded(size));
      RoundedIsLeast(size);
      GivenKeeps(s, size, j);
      WriteKeeps(t, i, 0, Zeros(size), j);
    }
  }

  // A block that is moved keeps its bytes, and so does every other block.
  lemma MovedKeeps(s: State, i: nat, size: nat, j: nat)
    requires ValidState(s) && Live(s.cells, i) && Live(s.cells, j) && Moves(s, i, size) && size < WORD
    ensures ValidState(Moved(s, i, size))
    ensures i != j ==> SamePlace(s, Moved(s, i, size), j) && Contents(Moved(s, i, size), j) == Contents(s, j)
    ensures Holds(Moved(s, i, size), Chosen(s.cells, Rounded(size)), Contents(s, i))
    ensures Moved(s, i, size).cells[Chosen(s.cells, Rounded(size))].size >= size
  {
    hide Rounded, Given, Contents, Chosen, Block, Overwritten, ValidState, Released, FirstFit;
    RoundedIsLeast(size);
    var t, k, data := s.(cells := Given(s, size)), Chosen(s.cells, Rounded(size)), Contents(s, i);
    GivenKeeps(s, size, i);
    GivenKeeps(s, size, j);
    InsideLimit(s, i);
    InsideLimit(t, k);
    WriteKeeps(t, k, 0, data, j);
    WriteKeeps(t, k, 0, data, i);
    var u := t.(bytes := Overwritten(t.bytes, Block(t.base, t.cells, k) + 0, data));
    ReleasedKeeps(u, i, k);
    if i != j { ReleasedKeeps(u, i, j); }
    InsideLimit(Moved(s, i, size), k);
  }

  // One call: the block that was block j has its bytes, and is where it was unless it was moved.
  lemma StepKeepsBlock(s: State, op: Op, j: nat)
    requires ValidState(s) && Permitted(s, op) && Live(s.cells, j) && !Spoils(op, j)
    ensures ValidState(Next(s, op)) && Holds(Next(s, op), Follow(s, op, j), Contents(s, j))
    ensures !(op.Realloc? && op.i == j) ==> Kept(s, Next(s, op), j)
  {
    hide Rounded, Given, Contents, Chosen, Overwritten, ValidState, Block, Released, Cleared, Moved, Refused, Escapes;
    InsideLimit(s, j);
    match op
    case Malloc(size) => GivenKeepsBlock(s, size, j);
    case Calloc(num, nsize) => if num * nsize < WORD { ClearedKeeps(s, num * nsize, j); }
    case Realloc(i, size) => if Moves(s, i, size) { MovedKeeps(s, i, size, j); }
    case Free(i) => ReleasedKeeps(s, i, j);
    case Store(i, offset, value) => WriteKeeps(s, i, offset, [value], j);
  }

  // Block j is where it was and holds what it held.
  ghost predicate Kept(s: State, t: State, j: nat)
    requires j < |s.cells|
  {
    SamePlace(s, t, j) && Contents(t, j) == Contents(s, j)
  }

  // Every live block but one is kept.
  ghost predicate KeepsBlocks(s: State, t: State, except: nat) {
    forall j :: Live(s.cells, j) && j != except ==> Kept(s, t, j)
  }

  // The block that a call is about, none for an allocation.
  ghost function Subject(s: State, op: Op): nat {
    if op.Malloc? || op.Calloc? then |s.cells| else op.i
  }

  lemma StepKeepsBlocks(s: State, op: Op)
    requires ValidState(s) && Permitted(s, op)
    ensures ValidState(Next(s, op)) && KeepsBlocks(s, Next(s, op), Subject(s, op))
  {
    hide ValidState, Next, Permitted, Contents, SamePlace, Follow;
    NextIsValid(s, op);
    forall j | Live(s.cells, j) && j != Subject(s, op)
      ensures Kept(s, Next(s, op), j)
    {
      StepKeepsBlock(s, op, j);
    }
  }

  lemma GivenIsNext(s: State, size: nat)
    requires ValidState(s) && size < WORD
    ensures var t := s.(cells := Given(s, size));
            !Escapes(s.base, Break(s), s.limit, size) ==>
              t == Next(s, Op.Malloc(size)) && KeepsBlocks(s, t, |s.cells|)
  {
    hide ValidState, Given, KeepsBlocks;
    if !Escapes(s.base, Break(s), s.limit, size) {
      StepKeepsBlocks(s, Op.Malloc(size));
    }
  }

  lemma OverwrittenIs(before: seq<bv8>, after: seq<bv8>, at: nat, data: seq<bv8>)
    requires |before| == |after| && at + |data| <= |before| && after[at..at + |data|] == data
    requires forall a :: 0 <= a < |before| && !(at <= a < at + |data|) ==> after[a] == before[a]
    ensures after == Overwritten(before, at, data)
  {
    assert after == after[..at] + after[at..at + |data|] + after[at + |data|..];
  }

  // Which bytes an allocation of cleared memory changes, and how.
  ghost predicate ClearsAt(s: State, t: State, p: nat, size: nat) {
    && t.cells == Given(s, size) && |t.bytes| == |s.bytes| && t.base == s.base && t.limit == s.limit
    && if Refused(s, size) then t.bytes == s.bytes
       else
         && p == Block(s.base, t.cells, Chosen(s.cells, Rounded(size)))
         && p + size <= |s.bytes| && (forall a :: p <= a < p + size ==> t.bytes[a] == 0)
         && forall a :: 0 <= a < |s.bytes| && !(p <= a < p + size) ==> t.bytes[a] == s.bytes[a]
  }

  lemma ClearedIsNext(s: State, num: nat, nsize: nat, t: State, p: nat)
    requires ValidState(s) && Permitted(s, Op.Calloc(num, nsize))
    requires if num * nsize < WORD then ClearsAt(s, t, p, num * nsize) else t == s
    ensures t == Next(s, Op.Calloc(num, nsize)) && KeepsBlocks(s, t, |s.cells|)
  {
    hide ValidState, KeepsBlocks, Refused, Allocated, Chosen, Rounded, Block, Overwritten, Escapes;
    StepKeepsBlocks(s, Op.Calloc(num, nsize));
    var size := num * nsize;
    if size < WORD && !Refused(s, size) {
      assert t.bytes[p..p + size] == Zeros(size);
      OverwrittenIs(s.bytes, t.bytes, p, Zeros(size));
    }
  }

  // Block i is copied to the start of block k, at p, and released; all other bytes stay.
  ghost predicate CopiesAt(s: State, t: State, p: nat, i: nat, k: nat)
    requires i < |s.cells|
  {
    var from, n := Block(s.base, s.cells, i), s.cells[i].size;
    && t.base == s.base && t.limit == s.limit && |t.bytes| == |s.bytes|
    && t.cells == Released(s.cells, i) && Live(t.cells, k) && p == Block(s.base, t.cells, k)
    && p + n <= |s.bytes| && from + n <= |s.bytes| && t.bytes[p..p + n] == s.bytes[from..from + n]
    && forall a :: 0 <= a < |s.bytes| && !(p <= a < p + n) ==> t.bytes[a] == s.bytes[a]
  }

  // A reallocation that moves block i: a new block, the copy, and the release.
  ghost predicate MovesAt(s: State, t: State, p: nat, i: nat, size: nat)
    requires Live(s.cells, i)
  {
    var u := s.(cells := Given(s, size));
    SamePlace(s, u, i) && CopiesAt(u, t, p, i, Chosen(s.cells, Rounded(size)))
  }

  lemma MovedIsNext(s: State, i: nat, size: nat, t: State, p: nat)
    requires ValidState(s) && Permitted(s, Op.Realloc(i, size))
    requires if Moves(s, i, size) then MovesAt(s, t, p, i, size) else t == s
    ensures t == Next(s, Op.Realloc(i, size)) && KeepsBlocks(s, t, i)
  {
    hide ValidState, KeepsBlocks, Refused, Given, Chosen, Rounded, Start, Overwritten, Escapes, Released;
    StepKeepsBlocks(s, Op.Realloc(i, size));
    if Moves(s, i, size) {
      var c, k := Given(s, size), Chosen(s.cells, Rounded(size));
      InsideLimit(s, i);
      OverwrittenIs(s.bytes, t.bytes, p, Contents(s, i));
      ReleasedStart(s.base, c, i, k);
    }
  }

  lemma ReleasedStart(base: nat, cells: seq<Cell>, i: nat, k: nat)
    requires i < |cells| && k < |Released(cells, i)|
    ensures k < |cells| && Start(base, Released(cells, i), k) == Start(base, cells, k)
  {
    StartDepends(base, cells, Released(cells, i), k);
  }

  lemma ReleasedIsNext(s: State, i: nat)
    requires ValidState(s) && Live(s.cells, i)
    ensures var t := s.(cells := Released(s.cells, i));
            t == Next(s, Op.Free(i)) && KeepsBlocks(s, t, i)
  {
    hide ValidState, Released, KeepsBlocks;
    StepKeepsBlocks(s, Op.Free(i));
  }

  // A run of calls, each one permitted when it is made.
  ghost predicate PermittedRun(s: State, ops: seq<Op>)
    decreases |ops|
  {
    ops == [] || (Permitted(s, ops[0]) && PermittedRun(Next(s, ops[0]), ops[1..]))
  }

  ghost function After(s: State, ops: seq<Op>): State
    requires PermittedRun(s, ops)
    decreases |ops|
  {
    if ops == [] then s else After(Next(s, ops[0]), ops[1..])
  }

  // Where block j is after a run.
  ghost function FollowRun(s: State, ops: seq<Op>, j: nat): nat
    requires PermittedRun(s, ops)
    decreases |ops|
  {
    if ops == [] then j else FollowRun(Next(s, ops[0]), ops[1..], Follow(s, ops[0], j))
  }

  // The run neither releases block j nor stores into it, wherever it is by then.
  ghost predicate Spares(s: State, ops: seq<Op>, j: nat)
    requires PermittedRun(s, ops)
    decreases |ops|
  {
    ops == [] || (!Spoils(ops[0], j) && Spares(Next(s, ops[0]), ops[1..], Follow(s, ops[0], j)))
  }

  ghost predicate Reallocates(op: Op, j: nat) {
    op.Realloc? && op.i == j
  }

  // Over any run, a live block that is not released nor stored into keeps its bytes through every
  // call, also when it is reallocated.
  lemma {:induction false} RunKeepsContents(s: State, ops: seq<Op>, j: nat, data: seq<bv8>)
    requires ValidState(s) && PermittedRun(s, ops) && Holds(s, j, data) && Spares(s, ops, j)
    ensures ValidState(After(s, ops)) && Holds(After(s, ops), FollowRun(s, ops, j), data)
    decreases |ops|
  {
    hide ValidState, Next, Follow, Permitted, Spoils, Contents;
    if ops != [] {
      StepKeepsBlock(s, ops[0], j);
      RunKeepsContents(Next(s, ops[0]), ops[1..], Follow(s, ops[0], j), data);
    }
  }

  // One that is not reallocated either keeps its address and its size as well.
  lemma {:induction false} RunKeepsBlock(s: State, ops: seq<Op>, j: nat)
    requires ValidState(s) && PermittedRun(s, ops) && Live(s.cells, j)
    requires forall k :: 0 <= k < |ops| ==> !Spoils(ops[k], j) && !Reallocates(ops[k], j)
    ensures Kept(s, After(s, ops), j)
    decreases |ops|
  {
    hide ValidState, Next, Follow, Permitted, Spoils, Contents, Start;
    if ops != [] {
      StepKeepsBlock(s, ops[0], j);
      assert !Reallocates(ops[0], j);
      RunKeepsBlock(Next(s, ops[0]), ops[1..], j);
    }
  }

  // After any run the live blocks are aligned, lie inside the heap, and do not overlap.
  lemma {:induction false} RunKeepsDisjoint(s: State, ops: seq<Op>, i: nat, j: nat)
    requires ValidState(s) && PermittedRun(s, ops)
    requires Live(After(s, ops).cells, i) && Live(After(s, ops).cells, j) && i != j
    ensures var t := After(s, ops);
            var a, b := Block(t.base, t.cells, i), Block(t.base, t.cells, j);
            && t.base < a && a % 8 == 0 && a + t.cells[i].size <= Break(t) <= t.limit == s.limit
            && (a + t.cells[i].size <= b || b + t.cells[j].size <= a)
    decreases |ops|
  {
    hide ValidState, Start, Live, Next, Permitted;
    if ops == [] {
      LiveBlocksApart(s, i, j);
    } else {
      NextIsValid(s, ops[0]);
      RunKeepsDisjoint(Next(s, ops[0]), ops[1..], i, j);
    }
  }

  lemma LiveBlocksApart(s: State, i: nat, j: nat)
    requires ValidState(s) && Live(s.cells, i) && Live(s.cells, j) && i != j
    ensures var a, b := Block(s.base, s.cells, i), Block(s.base, s.cells, j);
            && s.base < a && a % 8 == 0 && a + s.cells[i].size <= Break(s) <= s.limit
            && (a + s.cells[i].size <= b || b + s.cells[j].size <= a)
  {
    hide Start;
    StartAligned(s.base, s.cells, i);
    StartFromBase(s.base, s.cells, i);
    StartAscends(s.base, s.cells, i, |s.cells|);
    BlocksAreDisjoint(s.base, s.cells, i, j);
  }

  lemma NextIsValid(s: State, op: Op)
    requires ValidState(s) && Permitted(s, op)
    ensures ValidState(Next(s, op)) && Next(s, op).limit == s.limit
  {
    hide Rounded, Given, Contents, Chosen, Overwritten, ValidState, Block, Released, Refused, Escapes, FirstFit;
    match op
    case Malloc(size) => GivenValid(s, size);
    case Calloc(num, nsize) => if num * nsize < WORD { ClearedValid(s, num * nsize); }
    case Realloc(i, size) => if Moves(s, i, size) { MovedKeeps(s, i, size, i); }
    case Free(i) => ReleasedValid(s, i);
    case Store(i, offset, value) => WriteKeeps(s, i, offset, [value], i);
  }

  lemma ClearedValid(s: State, size: nat)
    requires ValidState(s)
    ensures ValidState(Cleared(s, size))
  {
    hide Rounded, Chosen, Block, FirstFit, Given, Start, WellSized;
    GivenValid(s, size);
  }

  // A request that is met gives a block of zeros of its own.
  lemma ClearedIsZero(s: State, size: nat)
    requires ValidState(s) && size < WORD && !Refused(s, size)
    ensures var t, i := Cleared(s, size), Chosen(s.cells, Rounded(size));
            Live(t.cells, i) && !Live(s.cells, i) && |Contents(t, i)| >= size && Contents(t, i)[..size] == Zeros(size)
  {
    hide Rounded, Given, Contents, Block, Overwritten, ValidState, FirstFit, Zeros;
    ZerosLength(size);
    RoundedIsLeast(size);
    GivenValid(s, size);
    GivenLive(s, size);
    WriteKeeps(s.(cells := Given(s, size)), Chosen(s.cells, Rounded(size)), 0, Zeros(size), 0);
  }

  lemma ZerosLength(n: nat)
    ensures |Zeros(n)| == n
  {
  }

  lemma GivenLive(s: State, size: nat)
    requires ValidState(s) && !Refused(s, size)
    ensures var c, i := Given(s, size), Chosen(s.cells, Rounded(size));
            |c| > 0 && Live(c, i) && !Live(s.cells, i) && c[i].size >= Rounded(size)
  {
  }

  // ---- Runs that grow the heap and shrink it again ----

  function Mallocs(sizes: seq<nat>): seq<Op> {
    seq(|sizes|, k requires 0 <= k < |sizes| => Op.Malloc(sizes[k]))
  }

  function Frees(order: seq<nat>): seq<Op> {
    seq(|order|, k requires 0 <= k < |order| => Op.Free(order[k]))
  }

  // Requests that are met, each one although no free block fits it.
  ghost predicate AllExtend(s: State, sizes: seq<nat>)
    decreases |sizes|
  {
    sizes == [] ||
    (Permitted(s, Op.Malloc(sizes[0])) && !Refused(s, sizes[0])
     && FirstFit(s.cells, Rounded(sizes[0]), 0) == |s.cells|
     && AllExtend(Next(s, Op.Malloc(sizes[0])), sizes[1..]))
  }

  lemma {:induction false} AfterBoth(s: State, ops: seq<Op>, more: seq<Op>)
    requires PermittedRun(s, ops)
    ensures PermittedRun(s, ops + more) <==> PermittedRun(After(s, ops), more)
    ensures PermittedRun(s, ops + more) ==> After(s, ops + more) == After(After(s, ops), more)
    decreases |ops|
  {
    hide Permitted, Next;
    if ops == [] {
      assert ops + more == more;
    } else {
      AfterBoth(Next(s, ops[0]), ops[1..], more);
      assert (ops + more)[0] == ops[0] && (ops + more)[1..] == ops[1..] + more;
    }
  }

  // They leave the old blocks in front of the new ones.
  lemma {:induction false} MallocsAppend(s: State, sizes: seq<nat>)
    requires AllExtend(s, sizes)
    ensures PermittedRun(s, Mallocs(sizes))
    ensures var t := After(s, Mallocs(sizes));
            && t == s.(cells := t.cells) && |t.cells| == |s.cells| + |sizes| && t.cells[..|s.cells|] == s.cells
            && forall i :: |s.cells| <= i < |t.cells| ==> Live(t.cells, i)
    decreases |sizes|
  {
    hide Permitted, Refused, Rounded, FirstFit;
    if sizes != [] {
      MallocsAppend(Next(s, Op.Malloc(sizes[0])), sizes[1..]);
      assert Mallocs(sizes)[1..] == Mallocs(sizes[1..]);
    }
  }

  lemma {:induction false} FreesRelease(s: State, order: seq<nat>)
    ensures PermittedRun(s, Frees(order)) <==> Releasable(s.cells, order)
    ensures Releasable(s.cells, order) ==>
      After(s, Frees(order)) == s.(cells := ReleasedIn(s.cells, order))
    decreases |order|
  {
    hide Released;
    if order != [] {
      assert Frees(order)[1..] == Frees(order[1..]);
      if Live(s.cells, order[0]) {
        FreesRelease(Next(s, Op.Free(order[0])), order[1..]);
      }
    }
  }

  // The fresh blocks can be released from the last one to the first.
  lemma {:induction false} LastInFirstOutReleasable(cells: seq<Cell>, n: nat, order: seq<nat>)
    requires n + |order| == |cells| && (forall i :: n <= i < |cells| ==> Live(cells, i)) && IsLastInFirstOut(n, order)
    ensures Releasable(cells, order)
    decreases |order|
  {
    if order != [] {
      LastComesFirst(n, order);
      forall i | n <= i < |cells| - 1 ensures Live(Released(cells, order[0]), i) {
        assert Live(cells, i);
      }
      LastInFirstOutReleasable(Released(cells, order[0]), n, order[1..]);
    }
  }

  // Requests that extend the heap, and as many releases, give back the state with its break exactly
  // when the releases come in the opposite order, and in that order they are always permitted.
  lemma RunRestoresOnlyLastInFirstOut(s: State, sizes: seq<nat>, order: seq<nat>)
    requires AllExtend(s, sizes) && |order| == |sizes|
    ensures var ops := Mallocs(sizes) + Frees(order);
            PermittedRun(s, ops) && After(s, ops) == s <==> IsLastInFirstOut(|s.cells|, order)
  {
    hide PermittedRun, AllExtend, Releasable;
    MallocsAppend(s, sizes);
    var t := After(s, Mallocs(sizes));
    AfterBoth(s, Mallocs(sizes), Frees(order));
    FreesRelease(t, order);
    if IsLastInFirstOut(|s.cells|, order) {
      LastInFirstOutReleasable(t.cells, |s.cells|, order);
    }
    if Releasable(t.cells, order) {
      ReleasedLength(t.cells, order);
    }
  }

  // The break comes back exactly then, too; otherwise it stays above where it was.
  lemma BreakRestoredOnlyLastInFirstOut(s: State, sizes: seq<nat>, order: seq<nat>)
    requires ValidState(s) && AllExtend(s, sizes) && |order| == |sizes|
    requires PermittedRun(s, Mallocs(sizes) + Frees(order))
    ensures var b := Break(After(s, Mallocs(sizes) + Frees(order)));
            b >= Break(s) && (b == Break(s) <==> IsLastInFirstOut(|s.cells|, order))
  {
    hide PermittedRun, AllExtend, Releasable;
    MallocsAppend(s, sizes);
    var t := After(s, Mallocs(sizes));
    AfterBoth(s, Mallocs(sizes), Frees(order));
    FreesRelease(t, order);
    ReleasedLength(t.cells, order);
    ReleasedKeepsSizes(t.cells, order);
    var c := ReleasedIn(t.cells, order);
    StartDepends(s.base, s.cells, c, |s.cells|);
    if |c| > |s.cells| {
      StartAscends(s.base, c, |s.cells|, |c|);
    }
  }

  lemma {:induction false} ReleasedKeepsSizes(cells: seq<Cell>, order: seq<nat>)
    requires Releasable(cells, order)
    ensures var c := ReleasedIn(cells, order);
            |c| <= |cells| && forall i :: 0 <= i < |c| ==> c[i].size == cells[i].size
    decreases |order|
  {
    if order != [] {
      ReleasedKeepsSizes(Released(cells, order[0]), order[1..]);
    }
  }

  // ---- Sizes ----

  // Rounds a request up to a multiple of 8, in 64 bits.
  function Rounded(size: nat): nat {
    if size % 8 != 0 then (size - size % 8 + 8) % 0x1_0000_0000_0000_0000 else size
  }

  // A request that neither the rounding nor the header carries past what the break can move by.
  predicate Sensible(size: nat) {
    Rounded(size) + 24 < 0x8000_0000_0000_0000
  }

  // A request that the break accepts although its sum with the header leaves the signed range: the
  // sum reads as a negative amount, or wraps to almost nothing.
  predicate Escapes(base: nat, brk: nat, limit: nat, size: nat) {
    !Sensible(size) && base + WORD <= brk + Rounded(size) + 24 <= limit + WORD
  }

  lemma RoundedIsLeast(size: nat)
    requires size < 0x1_0000_0000_0000_0000
    ensures Rounded(size) % 8 == 0
    ensures Rounded(size) == 0 <==> size == 0 || size > 0x1_0000_0000_0000_0000 - 8
    ensures Rounded(size) != 0 ==> size <= Rounded(size) < size + 8
  {
  }

  // The check on the quotient finds exactly the products that do not fit 64 bits.
  lemma QuotientDetectsOverflow(num: nat, nsize: nat)
    requires 0 < num < 0x1_0000_0000_0000_0000 && nsize < 0x1_0000_0000_0000_0000
    ensures (num * nsize) % 0x1_0000_0000_0000_0000 / num == nsize <==> num * nsize < 0x1_0000_0000_0000_0000
  {
    var p := num * nsize;
    var w := p % 0x1_0000_0000_0000_0000;
    if p < 0x1_0000_0000_0000_0000 {
      assert w == p;
      QuotientOfProduct(num, nsize);
    } else {
      assert w <= p - 0x1_0000_0000_0000_0000 < p - num;
      QuotientBelow(w, num, nsize);
    }
  }

  lemma QuotientOfProduct(n: nat, q: nat)
    requires n > 0
    ensures (n * q) / n == q
  {
    var d := (n * q) / n;
    assert n * q == n * d + (n * q) % n;
    if d < q { MulMonotonic(n, d + 1, q); }
    if d > q { MulMonotonic(n, q + 1, d); }
  }

  lemma MulMonotonic(n: nat, a: nat, b: nat)
    requires a <= b
    ensures n * a <= n * b
  {
  }

  lemma QuotientBelow(w: nat, n: nat, q: nat)
    requires n > 0 && w < n * q - n
    ensures w / n != q
  {
    var d := w / n;
    assert w == n * d + w % n;
  }

  // ---- The program ----

  datatype Header = Header(size: nat, isFree: bool, next: nat)

  type Headers = map<nat, Header>

  // The header of block i says what the block is and where the next header lies.
  ghost predicate LinkedAt(base: nat, cells: seq<Cell>, headers: Headers, i: nat)
    requires i < |cells|
  {
    var a := Start(base, cells, i);
    a in headers && headers[a] == Header(cells[i].size, cells[i].isFree, if i + 1 < |cells|
      then Start(base, cells, i + 1) else 0)
  }

  ghost predicate Listed(base: nat, cells: seq<Cell>, headers: Headers) {
    forall i :: 0 <= i < |cells| ==> LinkedAt(base, cells, headers, i)
  }

  ghost function SetFlag(cells: seq<Cell>, i: nat, flag: bool): seq<Cell>
    requires i < |cells|
  {
    cells[i := cells[i].(isFree := flag)]
  }

  lemma SameStarts(base: nat, cells: seq<Cell>, cells': seq<Cell>)
    requires |cells| <= |cells'| && forall k :: 0 <= k < |cells| ==> cells[k].size == cells'[k].size
    ensures forall i :: 0 <= i <= |cells| ==> Start(base, cells', i) == Start(base, cells, i)
  {
    forall i | 0 <= i <= |cells| ensures Start(base, cells', i) == Start(base, cells, i) {
      StartDepends(base, cells, cells', i);
    }
  }

  lemma StartsDiffer(base: nat, cells: seq<Cell>, i: nat)
    requires i <= |cells|
    ensures forall j :: 0 <= j <= |cells| && j != i ==> Start(base, cells, j) != Start(base, cells, i)
  {
    forall j | 0 <= j <= |cells| && j != i ensures Start(base, cells, j) != Start(base, cells, i) {
      if i < j { StartAscends(base, cells, i, j); } else { StartAscends(base, cells, j, i); }
    }
  }

  lemma FlagKeepsList(base: nat, cells: seq<Cell>, headers: Headers, i: nat, flag: bool)
    requires i < |cells| && Listed(base, cells, headers)
    ensures var a := Start(base, cells, i);
            a in headers && Listed(base, SetFlag(cells, i, flag), headers[a := headers[a].(isFree := flag)])
  {
    assert LinkedAt(base, cells, headers, i);
    var a, cells' := Start(base, cells, i), SetFlag(cells, i, flag);
    SameStarts(base, cells, cells');
    StartsDiffer(base, cells, i);
    hide Start;
    var h := headers[a := headers[a].(isFree := flag)];
    forall j | 0 <= j < |cells'| ensures LinkedAt(base, cells', h, j) {
      assert LinkedAt(base, cells, headers, j);
    }
  }

  // A new last block, and the old last one pointing to it.
  ghost function Attach(headers: Headers, tail: nat, header: nat, n: nat): Headers {
    var h := headers[header := Header(n, false, 0)];
    if tail != 0 && tail in h then h[tail := h[tail].(next := header)] else h
  }

  lemma AttachKeepsList(base: nat, cells: seq<Cell>, headers: Headers, tail: nat, n: nat)
    requires Listed(base, cells, headers) && base > 0
    requires tail == if |cells| == 0 then 0 else Start(base, cells, |cells| - 1)
    ensures Listed(base, cells + [Cell(n, false)], Attach(headers, tail, Start(base, cells, |cells|), n))
    ensures tail != 0 ==> tail in headers
  {
    var h, cells' := Start(base, cells, |cells|), cells + [Cell(n, false)];
    SameStarts(base, cells, cells');
    StartsDiffer(base, cells, |cells|);
    if |cells| > 0 {
      StartsDiffer(base, cells, |cells| - 1);
      assert LinkedAt(base, cells, headers, |cells| - 1);
    }
    forall j | 0 <= j < |cells'| ensures LinkedAt(base, cells', Attach(headers, tail, h, n), j) {
      if j < |cells| {
        assert LinkedAt(base, cells, headers, j);
      }
    }
  }

  // The last block gone, and the one before it ending the list.
  lemma DetachKeepsList(base: nat, cells: seq<Cell>, headers: Headers)
    requires |cells| >= 2 && Listed(base, cells, headers)
    ensures var a := Start(base, cells, |cells| - 2);
            a in headers && Listed(base, cells[..|cells| - 1], headers[a := headers[a].(next := 0)])
  {
    var i, cells' := |cells| - 2, cells[..|cells| - 1];
    var a := Start(base, cells, i);
    SameStarts(base, cells', cells);
    StartsDiffer(base, cells, i);
    assert LinkedAt(base, cells, headers, i);
    hide Start;
    var h := headers[a := headers[a].(next := 0)];
    forall j | 0 <= j < |cells'| ensures LinkedAt(base, cells', h, j) {
      assert LinkedAt(base, cells, headers, j);
    }
  }

  ghost function Signed(word: nat): int {
    if word < 0x8000_0000_0000_0000 then word else word - WORD
  }

  class Heap {
    const base: nat
    const limit: nat
    const memory: array<bv8>
    var brk: nat
    var head: nat
    var tail: nat
    var headers: map<nat, Header>
    ghost var cells: seq<Cell>

    // The list holds the blocks in address order, they fill the heap from the base to the break,
    // and the last one is the tail.
    ghost predicate Valid()
      reads this`brk, this`head, this`tail, this`headers, this`cells
    {
      && 0 < base && base % 8 == 0 && brk <= limit < 0x8000_0000_0000_0000 && memory.Length == limit
      && WellSized(cells) && brk == Start(base, cells, |cells|)
      && head == (if |cells| == 0 then 0 else base)
      && tail == (if |cells| == 0 then 0 else Start(base, cells, |cells| - 1))
      && Listed(base, cells, headers)
    }

    // The block at an address handed out earlier.
    ghost predicate IsBlock(block: nat, i: nat)
      reads this`cells
    {
      Live(cells, i) && block == Block(base, cells, i)
    }

    constructor (base: nat, limit: nat)
      requires 0 < base <= limit < 0x8000_0000_0000_0000 && base % 8 == 0
      ensures Valid() && cells == [] && brk == base && this.base == base && this.limit == limit && fresh(memory)
    {
      this.base, this.limit := base, limit;
      memory := new bv8[limit];
      brk, head, tail, headers, cells := base, 0, 0, map[], [];
    }

    // The heap as its callers see it.
    ghost function Abstract(): State
      reads this`cells, memory
    {
      State(base, limit, cells, memory[..])
    }

    lemma AbstractIsValid()
      requires Valid()
      ensures ValidState(Abstract()) && brk == Break(Abstract())
    {
    }

    // Moves the break by a signed 64-bit amount, or fails and leaves it.
    method Sbrk(inc: nat) returns (r: nat)
      requires inc < WORD
      requires base <= brk <= limit < 0x8000_0000_0000_0000
      modifies this`brk
      ensures var to := old(brk) + Signed(inc);
              if base <= to <= limit then r == old(brk) && brk == to else r == FAILED && brk == old(brk)
    {
      var to := brk + if inc < 0x8000_0000_0000_0000 then inc else inc - WORD;
      if to < base || to > limit {
        r := FAILED;
      } else {
        r := brk;
        brk := to;
      }
    }

    method GetFreeBlock(size: nat) returns (current: nat)
      requires Valid()
      ensures var i := FirstFit(cells, size, 0); current == if i < |cells| then Start(base, cells, i) else 0
    {
      current := head;
      ghost var i := 0;
      while current != 0
        invariant i <= |cells| && current == (if i < |cells| then Start(base, cells, i) else 0)
        invariant FirstFit(cells, size, 0) == FirstFit(cells, size, i)
        decreases |cells| - i
      {
        assert LinkedAt(base, cells, headers, i);
        if headers[current].isFree && headers[current].size >= size {
          return;
        }
        current := headers[current].next;
        i := i + 1;
      }
    }

    // What an allocation of n bytes, rounded, does: the block it returns and the new layout.
    twostate predicate AllocatedTo(n: nat, p: nat)
      reads this
    {
      var i := FirstFit(old(cells), n, 0);
      if n == 0 || (i == |old(cells)| && old(brk) + 24 + n > limit) then
        p == 0 && cells == old(cells) && brk == old(brk)
      else
        && cells == Allocated(old(cells), n) && p == Block(base, cells, i) && IsBlock(p, i)
        && brk == if i < |old(cells)| then old(brk) else old(brk) + 24 + n
    }

    method Reuse(header: nat, ghost i: nat)
      requires Valid() && i < |cells| && header == Start(base, cells, i)
      modifies this`headers, this`cells
      ensures Valid() && cells == SetFlag(old(cells), i, false) && header == Start(base, cells, i)
    {
      FlagKeepsList(base, cells, headers, i, false);
      SameStarts(base, cells, SetFlag(cells, i, false));
      headers := headers[header := headers[header].(isFree := false)];
      cells := SetFlag(cells, i, false);
    }

    // Moves the break for a new last block of n bytes; the sum with the header is 64 bits wide.
    method Extend(n: nat) returns (p: nat)
      requires Valid() && 0 < n < WORD && n % 8 == 0
      modifies this`brk, this`head, this`tail, this`headers, this`cells
      ensures var to := old(brk) + Signed((n + 24) % WORD);
              if base <= to <= limit then p == old(brk) + 24 && brk == to
              else p == 0 && brk == old(brk) && Valid() && cells == old(cells)
      ensures n + 24 < 0x8000_0000_0000_0000 && p != 0 ==>
        Valid() && cells == old(cells) + [Cell(n, false)] && p == Block(base, cells, |old(cells)|)
    {
      hide Start, Listed, WellSized;
      StartFromBase(base, cells, |cells|);
      SameStarts(base, cells, cells + [Cell(n, false)]);
      AttachKeepsList(base, cells, headers, tail, n);
      OneMore(base, cells, n);
      var total := (24 + n) % 0x1_0000_0000_0000_0000;
      var block := Sbrk(total);
      if block == FAILED {
        return 0;
      }
      var header := block;
      headers := headers[header := Header(n, false, 0)];
      if head == 0 {
        head := header;
      }
      if tail != 0 {
        headers := headers[tail := headers[tail].(next := header)];
      }
      tail := header;
      cells := cells + [Cell(n, false)];
      p := header + 24;
    }

    // A request for more than the heap can hold, which no free block fits.
    lemma TooLarge(n: nat)
      requires Valid() && n + 24 >= 0x8000_0000_0000_0000
      ensures FirstFit(cells, n, 0) == |cells| && base <= brk
    {
      var i := FirstFit(cells, n, 0);
      StartFromBase(base, cells, |cells|);
      if i < |cells| {
        EndsAtBreak(i);
      }
    }

    lemma SignedTotal(n: nat)
      requires n < WORD && base <= brk <= limit < 0x8000_0000_0000_0000
      ensures n + 24 < 0x8000_0000_0000_0000 ==> Signed((n + 24) % WORD) == n + 24
      ensures n + 24 >= 0x8000_0000_0000_0000 ==>
        (base <= brk + Signed((n + 24) % WORD) <= limit <==> base + WORD <= brk + n + 24 <= limit + WORD)
      ensures n + 24 >= 0x8000_0000_0000_0000 ==> Signed((n + 24) % WORD) == n + 24 - WORD
    {
      if n + 24 >= WORD {
        assert (n + 24) % WORD == n + 24 - WORD;
      }
    }

    // The first free block that fits, or a new one.
    method Take(n: nat) returns (p: nat)
      requires Valid() && 0 < n < WORD && n % 8 == 0
      modifies this`brk, this`head, this`tail, this`headers, this`cells
      ensures n + 24 < 0x8000_0000_0000_0000 ==> Valid() && AllocatedTo(n, p)
      ensures n + 24 >= 0x8000_0000_0000_0000 ==>
        if base + WORD <= old(brk) + n + 24 <= limit + WORD then p == old(brk) + 24 && brk == old(brk) + n + 24 - WORD
        else Valid() && AllocatedTo(n, p)
      ensures p != 0 ==> (p + n <= brk <==> n + 24 < 0x8000_0000_0000_0000)
    {
      hide Start, Listed, WellSized, Signed;
      ghost var i := FirstFit(cells, n, 0);
      var header := GetFreeBlock(n);
      StartFromBase(base, cells, i);
      StartFromBase(base, cells, |cells|);
      SignedTotal(n);
      if n + 24 >= 0x8000_0000_0000_0000 {
        TooLarge(n);
      }
      if header != 0 {
        StartAscends(base, cells, i, |cells|);
        Reuse(header, i);
        return header + 24;
      }
      p := Extend(n);
    }

    // Takes 64-bit requests of any size. One that escapes gets the address behind the old break, but
    // the break moves back, or by less than the header: the block does not lie in the heap.
    method Malloc(size: nat) returns (p: nat)
      requires Valid() && size < WORD
      modifies this`brk, this`head, this`tail, this`headers, this`cells
      ensures !Escapes(base, old(brk), limit, size) ==> Valid() && AllocatedTo(Rounded(size), p)
      ensures !Escapes(base, old(brk), limit, size) ==>
        && Abstract() == Next(old(Abstract()), Op.Malloc(size))
        && KeepsBlocks(old(Abstract()), Abstract(), |old(cells)|)
      ensures Escapes(base, old(brk), limit, size) ==>
        p == old(brk) + 24 && brk == old(brk) + Rounded(size) + 24 - WORD && brk < p < p + Rounded(size)
      ensures p != 0 ==> (p + Rounded(size) <= brk <==> Sensible(size))
    {
      hide Start, Listed, WellSized, FirstFit, Allocated, KeepsBlocks, Next, ValidState;
      AbstractIsValid();
      GivenIsNext(Abstract(), size);
      var n := size;
      if n % 8 != 0 {
        n := n - n % 8;
        n := (n + 8) % 0x1_0000_0000_0000_0000;
      }
      if n == 0 {
        p := 0;
      } else {
        p := Take(n);
      }
    }

    // Finds the block before the last one and ends the list there.
    method DropTail()
      requires Valid() && |cells| >= 2
      modifies this`headers, this`tail
      ensures tail == Start(base, cells, |cells| - 2) && tail in old(headers)
      ensures headers == old(headers)[tail := old(headers)[tail].(next := 0)]
    {
      ghost var j, last := 0, |cells| - 2;
      var tmp := head;
      StartsDiffer(base, cells, last + 1);
      StartsDiffer(base, cells, last);
      StartFromBase(base, cells, last);
      while tmp != 0
        invariant tmp != 0 ==> j <= last && tmp == Start(base, cells, j) && headers == old(headers) && tail == old(tail)
        invariant tmp == 0 ==> tail == Start(base, cells, last) && tail in old(headers)
        invariant tmp == 0 ==> headers == old(headers)[tail := old(headers)[tail].(next := 0)]
        decreases if tmp != 0 then last - j + 1 else 0
      {
        assert LinkedAt(base, cells, headers, j);
        if headers[tmp].next == tail {
          assert j == last;
          headers := headers[tmp := headers[tmp].(next := 0)];
          tail := tmp;
        }
        tmp := headers[tmp].next;
        j := j + 1;
      }
    }

    // Only the last block ends at the break.
    lemma EndsAtBreak(i: nat)
      requires Valid() && i < |cells|
      ensures Block(base, cells, i) + cells[i].size <= brk
      ensures Block(base, cells, i) + cells[i].size == brk <==> i == |cells| - 1
    {
      StartAscends(base, cells, i, |cells|);
      if i < |cells| - 1 {
        StartAscends(base, cells, i, |cells| - 1);
      }
    }

    // Releases a block; the last one goes back to the break.
    method Free(block: nat, ghost i: nat)
      requires Valid() && (block == 0 || IsBlock(block, i))
      modifies this`brk, this`head, this`tail, this`headers, this`cells
      ensures Valid() && cells == if block == 0 then old(cells) else Released(old(cells), i)
      ensures brk == if block != 0 && i == |old(cells)| - 1 then block - 24 else old(brk)
      ensures block != 0 ==>
        && Abstract() == Next(old(Abstract()), Op.Free(i))
        && KeepsBlocks(old(Abstract()), Abstract(), i)
    {
      hide KeepsBlocks, ValidState, Next;
      if block == 0 {
        return;
      }
      var header := block - 24;
      AbstractIsValid();
      ReleasedIsNext(Abstract(), i);
      assert LinkedAt(base, cells, headers, i);
      EndsAtBreak(i);
      StartFromBase(base, cells, i);
      var pbreak := Sbrk(0);
      if block + headers[header].size == pbreak {
        FreeLast(headers[header].size);
      } else {
        FlagKeepsList(base, cells, headers, i, true);
        SameStarts(base, cells, SetFlag(cells, i, true));
        headers := headers[header := headers[header].(isFree := true)];
        cells := SetFlag(cells, i, true);
      }
    }

    method FreeLast(size: nat)
      requires Valid() && |cells| > 0 && size == cells[|cells| - 1].size
      modifies this`brk, this`head, this`tail, this`headers, this`cells
      ensures Valid() && cells == old(cells)[..|old(cells)| - 1] && brk == Start(base, old(cells), |old(cells)| - 1)
    {
      hide Start, Listed, WellSized;
      ghost var last := |cells| - 1;
      LastFacts();
      SameStarts(base, cells[..last], cells);
      FewerWellSized(cells);
      if head == tail {
        head, tail := 0, 0;
      } else {
        DetachKeepsList(base, cells, headers);
        DropTail();
      }
      var r := Sbrk((0x1_0000_0000_0000_0000 - 24 - size) % 0x1_0000_0000_0000_0000);
      cells := cells[..last];
    }

    lemma LastFacts()
      requires Valid() && |cells| > 0
      ensures head == tail <==> |cells| == 1
      ensures base <= tail == Start(base, cells, |cells| - 1) && brk == tail + 24 + cells[|cells| - 1].size
      ensures Listed(base, [], headers)
    {
      StartFromBase(base, cells, |cells| - 1);
      StartsDiffer(base, cells, 0);
    }

    // Bytes outside a range are as they were.
    twostate predicate OnlyWrites(from: nat, n: nat)
      reads memory
    {
      forall a :: 0 <= a < memory.Length && !(from <= a < from + n) ==> memory[a] == old(memory[a])
    }

    method Memset(from: nat, value: bv8, n: nat)
      requires from + n <= memory.Length
      modifies memory
      ensures OnlyWrites(from, n) && forall a :: from <= a < from + n ==> memory[a] == value
    {
      for k := 0 to n
        invariant OnlyWrites(from, n) && forall a :: from <= a < from + k ==> memory[a] == value
      {
        memory[from + k] := value;
      }
    }

    method Memcpy(to: nat, from: nat, n: nat)
      requires to + n <= memory.Length && from + n <= memory.Length && (to + n <= from || from + n <= to)
      modifies memory
      ensures OnlyWrites(to, n) && memory[to..to + n] == old(memory[from..from + n])
    {
      for k := 0 to n
        invariant OnlyWrites(to, n) && memory[to..to + k] == old(memory[from..from + k])
      {
        memory[to + k] := memory[from + k];
        assert memory[to..to + k + 1] == memory[to..to + k] + [memory[to + k]];
        assert old(memory[from..from + k + 1]) == old(memory[from..from + k]) + [old(memory[from + k])];
      }
    }

    lemma BlockInside(p: nat, i: nat)
      requires Valid() && IsBlock(p, i)
      ensures p + cells[i].size <= memory.Length
    {
      StartAscends(base, cells, i, |cells|);
    }

    // Zeroed memory for num elements; a product that does not fit 64 bits is refused.
    method Calloc(num: nat, nsize: nat) returns (p: nat)
      requires Valid() && num < 0x1_0000_0000_0000_0000 && nsize < 0x1_0000_0000_0000_0000
      requires num * nsize < WORD ==> !Escapes(base, brk, limit, num * nsize)
      modifies this`brk, this`head, this`tail, this`headers, this`cells, memory
      ensures Valid()
      ensures num * nsize >= 0x1_0000_0000_0000_0000 ==> p == 0 && cells == old(cells) && brk == old(brk)
      ensures num * nsize < 0x1_0000_0000_0000_0000 ==> AllocatedTo(Rounded(num * nsize), p)
      ensures p == 0 ==> OnlyWrites(0, 0)
      ensures p != 0 ==> p + num * nsize <= memory.Length && OnlyWrites(p, num * nsize)
      ensures p != 0 ==> forall a :: p <= a < p + num * nsize ==> memory[a] == 0
      ensures Abstract() == Next(old(Abstract()), Op.Calloc(num, nsize))
      ensures KeepsBlocks(old(Abstract()), Abstract(), |old(cells)|)
    {
      hide Sensible, Start, FirstFit, Listed, WellSized, KeepsBlocks, ValidState, Escapes, Next, Allocated;
      ghost var s := Abstract();
      AbstractIsValid();
      NothingFromNothing(num, nsize);
      p := 0;
      if num != 0 && nsize != 0 {
        QuotientDetectsOverflow(num, nsize);
        var size := Product(num, nsize);
        if nsize == size / num {
          p := MallocCleared(size);
        }
      }
      ClearedIsNext(s, num, nsize, Abstract(), p);
    }

    method MallocCleared(size: nat) returns (p: nat)
      requires Valid() && size < WORD && !Escapes(base, brk, limit, size)
      modifies this`brk, this`head, this`tail, this`headers, this`cells, memory
      ensures Valid() && AllocatedTo(Rounded(size), p) && ClearsAt(old(Abstract()), Abstract(), p, size)
      ensures p == 0 ==> OnlyWrites(0, 0)
      ensures p != 0 ==> p + size <= memory.Length && OnlyWrites(p, size)
      ensures p != 0 ==> forall a :: p <= a < p + size ==> memory[a] == 0
    {
      hide Sensible, Start, FirstFit, Listed, WellSized, KeepsBlocks, ValidState, Escapes, Next;
      p := Malloc(size);
      if p != 0 {
        RoundedIsLeast(size);
        BlockInside(p, FirstFit(old(cells), Rounded(size), 0));
        Memset(p, 0, size);
      }
    }

    lemma HeaderOf(block: nat, i: nat)
      requires Valid() && IsBlock(block, i)
      ensures block > 24 && block - 24 in headers && headers[block - 24].size == cells[i].size
    {
      StartFromBase(base, cells, i);
      assert LinkedAt(base, cells, headers, i);
    }

    // Copies the old block to the new one and releases it.
    method CopyAndFree(p: nat, block: nat, keep: nat, ghost i: nat, ghost j: nat)
      requires Valid() && IsBlock(block, i) && IsBlock(p, j) && i != j && keep == cells[i].size <= cells[j].size
      modifies this`brk, this`head, this`tail, this`headers, this`cells, memory
      ensures Valid() && cells == Released(old(cells), i) && IsBlock(p, j) && cells[j].size == old(cells[j].size)
      ensures CopiesAt(old(Abstract()), Abstract(), p, i, j)
    {
      hide Start, Listed, WellSized, Released, KeepsBlocks, ValidState, Next;
      BlockInside(p, j);
      BlockInside(block, i);
      BlocksAreDisjoint(base, cells, i, j);
      CellsAreSized();
      ReleaseIsSafe(base, cells, i, j);
      Memcpy(p, block, keep);
      Free(block, i);
    }

    lemma CellsAreSized()
      requires Valid()
      ensures WellSized(cells) && base % 8 == 0
    {
    }

    // Moves a block: a new one, the old bytes copied, the old one released.
    method Move(block: nat, size: nat, ghost i: nat) returns (p: nat)
      requires Valid() && 0 < size < WORD && !Escapes(base, brk, limit, size)
        && IsBlock(block, i) && cells[i].size < size
      modifies this`brk, this`head, this`tail, this`headers, this`cells, memory
      ensures Valid()
      ensures p != 0 <==> Moves(old(Abstract()), i, size)
      ensures if p != 0 then MovesAt(old(Abstract()), Abstract(), p, i, size) else Abstract() == old(Abstract())
      ensures p != 0 ==> cells[Chosen(old(cells), Rounded(size))].size >= size
    {
      hide Start, FirstFit, Listed, WellSized, Sensible, Rounded, Allocated, Released, KeepsBlocks, ValidState, Next,
        Escapes, CopiesAt;
      ghost var j := Chosen(cells, Rounded(size));
      var header := block - 24;
      HeaderOf(block, i);
      var keep := headers[header].size;
      RoundedIsLeast(size);
      CellsAreSized();
      if Rounded(size) != 0 {
        AllocationIsSafe(base, cells, Rounded(size), i);
      }
      p := Malloc(size);
      if p != 0 {
        CopyAndFree(p, block, keep, i, j);
      }
    }

    method Realloc(block: nat, size: nat, ghost i: nat) returns (p: nat)
      requires Valid() && size < WORD && !Escapes(base, brk, limit, size)
        && (block == 0 || IsBlock(block, i))
      modifies this`brk, this`head, this`tail, this`headers, this`cells, memory
      ensures Valid()
      ensures block == 0 || size == 0 ==> AllocatedTo(Rounded(size), p) && OnlyWrites(0, 0)
      ensures block != 0 && 0 < size <= old(cells)[i].size ==>
        p == block && cells == old(cells) && brk == old(brk) && OnlyWrites(0, 0)
      ensures block != 0 && size > old(cells)[i].size ==> (p == 0 <==> Refused(old(Abstract()), size))
      ensures block != 0 && size > old(cells)[i].size && p == 0 ==> cells == old(cells) && OnlyWrites(0, 0)
      ensures block != 0 && size > old(cells)[i].size && p != 0 ==>
        && cells == Released(Allocated(old(cells), Rounded(size)), i)
        && IsBlock(p, Chosen(old(cells), Rounded(size))) && cells[Chosen(old(cells), Rounded(size))].size >= size
        && p + old(cells[i].size) <= memory.Length && block + old(cells[i].size) <= memory.Length
        && memory[p..p + old(cells[i].size)] == old(memory[block..block + cells[i].size])
        && OnlyWrites(p, old(cells[i].size))
      ensures Abstract() == Next(old(Abstract()), if block == 0 then Op.Malloc(size) else Op.Realloc(i, size))
      ensures KeepsBlocks(old(Abstract()), Abstract(), if block == 0 then |old(cells)| else i)
    {
      hide Start, FirstFit, Listed, WellSized, Escapes, Sensible, Rounded, Allocated, KeepsBlocks, ValidState, Next;
      ghost var s := Abstract();
      AbstractIsValid();
      NothingFromNothing(0, 0);
      if block == 0 || size == 0 {
        p := Malloc(size);
      } else {
        var header := block - 24;
        HeaderOf(block, i);
        if headers[header].size >= size {
          p := block;
        } else {
          p := Move(block, size, i);
        }
      }
      if block != 0 {
        MovedIsNext(s, i, size, Abstract(), p);
      }
    }
  }

  // The sum with the header wraps: 8 bytes short of 2^64 are granted, and the break moves by 16.
  method WrappedRequest() returns (h: Heap, p: nat)
    ensures fresh(h) && p == 32 && h.brk == 24
  {
    h := new Heap(8, 1000);
    p := h.Malloc(0xffff_ffff_ffff_fff8);
  }

  // The sum reads as -8: the break moves back over the bytes of a live block.
  method BackwardRequest() returns (h: Heap, live: nat, p: nat)
    ensures fresh(h) && live == 32 && live + 16 == p - 24 && h.brk == 40 < live + 16
  {
    h := new Heap(8, 1000);
    assert FirstFit(h.cells, 16, 0) == 0;
    live := h.Malloc(16);
    p := h.Malloc(0xffff_ffff_ffff_ffe0);
  }

  function Product(num: nat, nsize: nat): nat {
    (num * nsize) % 0x1_0000_0000_0000_0000
  }

  lemma NothingFromNothing(num: nat, nsize: nat)
    ensures num * nsize == 0 <==> num == 0 || nsize == 0
    ensures Rounded(0) == 0
  {
  }
}
