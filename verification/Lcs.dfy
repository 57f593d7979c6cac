/**
 Longest common subsequence and longest common substring of two strings: length of the longest
 and, among all of that length, the least position in the left string where one can start.
 */
module Lcs {

  type String = seq<nat>

  datatype MatchResult = MatchResult(startIndex: nat, length: nat)

  function IsBetterChoice(candLen: nat, candStart: nat, curLen: nat, curStart: nat): bool {
    candLen > curLen || (candLen == curLen && candStart < curStart)
  }

  // ---- Common subsequences, the reference ----

  ghost predicate Increasing(p: seq<nat>) {
    forall i, j :: 0 <= i < j < |p| ==> p[i] < p[j]
  }

  // Positions p in the first m characters of a and q in the first n of b that agree pairwise.
  ghost predicate IsCommon(a: String, b: String, m: nat, n: nat, p: seq<nat>, q: seq<nat>) {
    && m <= |a| && n <= |b| && |p| == |q| && Increasing(p) && Increasing(q)
    && (forall k :: 0 <= k < |p| ==> p[k] < m)
    && (forall k :: 0 <= k < |q| ==> q[k] < n)
    && forall k :: 0 <= k < |p| ==> a[p[k]] == b[q[k]]
  }

  // An embedding p does no better than the choice: shorter, or as long and not earlier.
  ghost predicate NoBetter(p: seq<nat>, len: nat, start: nat) {
    |p| < len || (|p| == len && (len > 0 ==> start <= p[0]))
  }

  ghost predicate Attains(p: seq<nat>, none: nat, len: nat, start: nat) {
    |p| == len && start == if len > 0 then p[0] else none
  }

  ghost predicate IsLongest(a: String, b: String, m: nat, n: nat, none: nat, len: nat, start: nat) {
    && (exists p, q :: IsCommon(a, b, m, n, p, q) && Attains(p, none, len, start))
    && (forall p, q :: IsCommon(a, b, m, n, p, q) ==> NoBetter(p, len, start))
  }

  // ---- The recurrence of the table ----

  lemma NonemptyNeedsRoom(a: String, b: String, m: nat, n: nat, p: seq<nat>, q: seq<nat>)
    requires IsCommon(a, b, m, n, p, q)
    ensures |p| > 0 ==> m > 0 && n > 0
  {
    if |p| > 0 {
      assert p[0] < m && q[0] < n;
    }
  }

  lemma EmptySide(a: String, b: String, m: nat, n: nat, none: nat)
    requires m <= |a| && n <= |b| && (m == 0 || n == 0)
    ensures IsLongest(a, b, m, n, none, 0, none)
  {
    assert IsCommon(a, b, m, n, [], []) && Attains([], none, 0, none);
    forall p, q | IsCommon(a, b, m, n, p, q) ensures NoBetter(p, 0, none) {
      NonemptyNeedsRoom(a, b, m, n, p, q);
    }
  }

  // The row above, the column before, and the diagonal when the characters match.
  function Choose(i: nat, matches: bool, upLen: nat, upStart: nat, leftLen: nat, leftStart: nat,
                  diagLen: nat, diagStart: nat): (nat, nat)
  {
    var left := IsBetterChoice(leftLen, leftStart, upLen, upStart);
    var bestLen := if left then leftLen else upLen;
    var bestStart := if left then leftStart else upStart;
    var candLen := diagLen + 1;
    var candStart := if diagLen == 0 then i else diagStart;
    if matches && IsBetterChoice(candLen, candStart, bestLen, bestStart) then (candLen, candStart)
    else (bestLen, bestStart)
  }

  // Where the last pair of an embedding lies.
  lemma LastPair(a: String, b: String, i: nat, j: nat, p: seq<nat>, q: seq<nat>)
    requires IsCommon(a, b, i + 1, j + 1, p, q)
    ensures || IsCommon(a, b, i, j + 1, p, q)
            || IsCommon(a, b, i + 1, j, p, q)
            || (&& |p| > 0 && p[|p| - 1] == i && a[i] == b[j]
                && IsCommon(a, b, i, j, p[..|p| - 1], q[..|q| - 1]))
  {
    if |p| > 0 {
      var l := |p| - 1;
      forall k | 0 <= k < l ensures p[k] < p[l] && q[k] < q[l] {}
    }
  }

  lemma ExtendPair(a: String, b: String, i: nat, j: nat, p: seq<nat>, q: seq<nat>)
    requires IsCommon(a, b, i, j, p, q) && i < |a| && j < |b| && a[i] == b[j]
    ensures IsCommon(a, b, i + 1, j + 1, p + [i], q + [j])
  {
  }

  lemma Wider(a: String, b: String, m: nat, n: nat, m': nat, n': nat, p: seq<nat>, q: seq<nat>)
    requires IsCommon(a, b, m, n, p, q) && m <= m' <= |a| && n <= n' <= |b|
    ensures IsCommon(a, b, m', n', p, q)
  {
  }

  lemma Step(a: String, b: String, i: nat, j: nat, none: nat, upLen: nat, upStart: nat, leftLen: nat, leftStart: nat,
             diagLen: nat, diagStart: nat)
    requires i < |a| && j < |b| && i < none
    requires IsLongest(a, b, i, j + 1, none, upLen, upStart)
    requires IsLongest(a, b, i + 1, j, none, leftLen, leftStart)
    requires IsLongest(a, b, i, j, none, diagLen, diagStart)
    ensures var best := Choose(i, a[i] == b[j], upLen, upStart, leftLen, leftStart, diagLen, diagStart);
            IsLongest(a, b, i + 1, j + 1, none, best.0, best.1)
  {
    var (len, start) := Choose(i, a[i] == b[j], upLen, upStart, leftLen, leftStart, diagLen, diagStart);
    var m, n := i + 1, j + 1;
    StepAttained(a, b, i, j, none, upLen, upStart, leftLen, leftStart, diagLen, diagStart, m, n, len, start);
    forall p, q | IsCommon(a, b, m, n, p, q) ensures NoBetter(p, len, start) {
      LastPair(a, b, i, j, p, q);
      if IsCommon(a, b, i, j + 1, p, q) {
        assert NoBetter(p, upLen, upStart);
      } else if IsCommon(a, b, i + 1, j, p, q) {
        assert NoBetter(p, leftLen, leftStart);
      } else {
        assert NoBetter(p[..|p| - 1], diagLen, diagStart);
      }
    }
  }

  lemma StepAttained(a: String, b: String, i: nat, j: nat, none: nat, upLen: nat, upStart: nat, leftLen: nat,
    leftStart: nat,
                     diagLen: nat, diagStart: nat, m: nat, n: nat, len: nat, start: nat)
    requires i < |a| && j < |b| && i < none && m == i + 1 && n == j + 1
    requires (len, start) == Choose(i, a[i] == b[j], upLen, upStart, leftLen, leftStart, diagLen, diagStart)
    requires IsLongest(a, b, i, j + 1, none, upLen, upStart)
    requires IsLongest(a, b, i + 1, j, none, leftLen, leftStart)
    requires IsLongest(a, b, i, j, none, diagLen, diagStart)
    ensures exists p, q :: IsCommon(a, b, m, n, p, q) && Attains(p, none, len, start)
  {
    hide IsCommon;
    var up, up' :| IsCommon(a, b, i, j + 1, up, up') && Attains(up, none, upLen, upStart);
    var left, left' :| IsCommon(a, b, i + 1, j, left, left') && Attains(left, none, leftLen, leftStart);
    var diag, diag' :| IsCommon(a, b, i, j, diag, diag') && Attains(diag, none, diagLen, diagStart);
    Wider(a, b, i, j + 1, i + 1, j + 1, up, up');
    Wider(a, b, i + 1, j, i + 1, j + 1, left, left');
    if a[i] == b[j] {
      ExtendPair(a, b, i, j, diag, diag');
    }
    assert Attains(diag + [i], none, diagLen + 1, if diagLen == 0 then i else diagStart);
  }

  // ---- The program: common subsequence ----

  method NewTable(rows: nat, columns: nat, value: nat) returns (table: array2<nat>)
    ensures fresh(table) && table.Length0 == rows && table.Length1 == columns
    ensures forall r, c :: 0 <= r < rows && 0 <= c < columns ==> table[r, c] == value
  {
    table := new nat[rows, columns];
    for i := 0 to rows
      invariant forall r, c :: 0 <= r < i && 0 <= c < columns ==> table[r, c] == value
    {
      for j := 0 to columns
        invariant forall r, c :: 0 <= r < i && 0 <= c < columns ==> table[r, c] == value
        invariant forall r, c :: r == i && 0 <= c < j ==> table[r, c] == value
      {
        table[i, j] := value;
      }
    }
  }

  // The cells filled before cell (i, j), row by row, hold the longest for their prefixes.
  ghost predicate SequencesTo(lhs: String, rhs: String, none: nat, dp: array2<nat>, start: array2<nat>, i: nat, j: nat)
    reads dp, start
  {
    && dp != start && dp.Length0 == start.Length0 && dp.Length1 == start.Length1
    && forall r, c :: 0 <= r < dp.Length0 && 0 <= c < dp.Length1 && (r < i || c == 0 || (r == i && c < j)) ==>
         IsLongest(lhs, rhs, r, c, none, dp[r, c], start[r, c])
  }

  method FillSequence(lhs: String, rhs: String, none: nat, dp: array2<nat>, start: array2<nat>, i: nat, j: nat)
    requires 1 <= i <= |lhs| && 1 <= j <= |rhs| && i < dp.Length0 && j < dp.Length1 && i <= none
    requires SequencesTo(lhs, rhs, none, dp, start, i, j)
    modifies dp, start
    ensures SequencesTo(lhs, rhs, none, dp, start, i, j + 1)
  {
    Step(lhs, rhs, i - 1, j - 1, none, dp[i - 1, j], start[i - 1, j], dp[i, j - 1], start[i, j - 1],
         dp[i - 1, j - 1], start[i - 1, j - 1]);
    hide IsLongest;
    var upLen, upStart := dp[i - 1, j], start[i - 1, j];
    var leftLen, leftStart := dp[i, j - 1], start[i, j - 1];
    var bestLen, bestStart := upLen, upStart;
    var leftBetter := IsBetterChoice(leftLen, leftStart, bestLen, bestStart);
    bestLen := if leftBetter then leftLen else bestLen;
    bestStart := if leftBetter then leftStart else bestStart;
    var matches := lhs[i - 1] == rhs[j - 1];
    var diagLenPrev := dp[i - 1, j - 1];
    var diagLen := diagLenPrev + 1;
    var diagStart := if diagLenPrev == 0 then i - 1 else start[i - 1, j - 1];
    var takeDiag := matches && IsBetterChoice(diagLen, diagStart, bestLen, bestStart);
    bestLen := if takeDiag then diagLen else bestLen;
    bestStart := if takeDiag then diagStart else bestStart;
    dp[i, j] := bestLen;
    start[i, j] := bestStart;
  }

  method LcseqStartAndLength(lhs: String, rhs: String, lhsLen: nat, rhsLen: nat) returns (ret: MatchResult)
    requires lhsLen <= |lhs| && rhsLen <= |rhs|
    ensures IsLongest(lhs, rhs, lhsLen, rhsLen, lhsLen, ret.length, ret.startIndex)
  {
    var dp := NewTable(lhsLen + 1, rhsLen + 1, 0);
    var start := NewTable(lhsLen + 1, rhsLen + 1, lhsLen);
    forall r, c | 0 <= r <= lhsLen && 0 <= c <= rhsLen && (r == 0 || c == 0)
      ensures IsLongest(lhs, rhs, r, c, lhsLen, dp[r, c], start[r, c])
    {
      EmptySide(lhs, rhs, r, c, lhsLen);
    }
    hide IsLongest;
    for i := 1 to lhsLen + 1
      invariant SequencesTo(lhs, rhs, lhsLen, dp, start, i, 1)
    {
      for j := 1 to rhsLen + 1
        invariant SequencesTo(lhs, rhs, lhsLen, dp, start, i, j)
      {
        FillSequence(lhs, rhs, lhsLen, dp, start, i, j);
      }
    }
    LongestNone(lhs, rhs, lhsLen, rhsLen, lhsLen, dp[lhsLen, rhsLen], start[lhsLen, rhsLen]);
    ret := MatchResult(if dp[lhsLen, rhsLen] == 0 then lhsLen else start[lhsLen, rhsLen], dp[lhsLen, rhsLen]);
  }

  lemma LongestNone(a: String, b: String, m: nat, n: nat, none: nat, len: nat, start: nat)
    requires IsLongest(a, b, m, n, none, len, start)
    ensures len == 0 ==> start == none
  {
  }

  // ---- Common substrings, the reference ----

  ghost predicate IsShared(a: String, b: String, m: nat, n: nat, x: nat, y: nat, len: nat) {
    m <= |a| && n <= |b| && x + len <= m && y + len <= n && a[x..x + len] == b[y..y + len]
  }

  ghost predicate IsLongestShared(a: String, b: String, m: nat, n: nat, none: nat, len: nat, start: nat) {
    && (len == 0 ==> start == none)
    && (len > 0 ==> exists y :: IsShared(a, b, m, n, start, y, len))
    && forall x: nat, y: nat, l: nat :: IsShared(a, b, m, n, x, y, l) ==>
      l < len || (l == len && (len > 0 ==> start <= x))
  }

  // The longest run that ends just before i in a and just before j in b.
  ghost function Run(a: String, b: String, i: nat, j: nat): (r: nat)
    requires i <= |a| && j <= |b|
    ensures r <= i && r <= j
  {
    if i == 0 || j == 0 || a[i - 1] != b[j - 1] then 0 else Run(a, b, i - 1, j - 1) + 1
  }

  lemma {:induction false} RunIsLongest(a: String, b: String, i: nat, j: nat, len: nat)
    requires i <= |a| && j <= |b| && len <= i && len <= j
    ensures IsShared(a, b, i, j, i - len, j - len, len) <==> len <= Run(a, b, i, j)
  {
    if len > 0 {
      RunIsLongest(a, b, i - 1, j - 1, len - 1);
      SharedShorter(a, b, i, j, len);
    }
  }

  // Stretches agree when all but their last characters do, and those.
  lemma SharedShorter(a: String, b: String, i: nat, j: nat, len: nat)
    requires i <= |a| && j <= |b| && 0 < len <= i && len <= j
    ensures IsShared(a, b, i, j, i - len, j - len, len) <==>
      a[i - 1] == b[j - 1] && IsShared(a, b, i - 1, j - 1, i - len, j - len, len - 1)
  {
    LastApart(a, i - len, i);
    LastApart(b, j - len, j);
  }

  lemma LastApart(a: String, x: nat, i: nat)
    requires x < i <= |a|
    ensures a[x..i] == a[x..i - 1] + [a[i - 1]] && a[x..i][..i - 1 - x] == a[x..i - 1] && a[x..i][i - 1 - x] == a[i - 1]
  {
  }

  // A run of the chosen length, positive, starts at the chosen position.
  ghost predicate RunAt(a: String, b: String, r: nat, c: nat, len: nat, start: nat) {
    r <= |a| && c <= |b| && Run(a, b, r, c) == len && start == r - len
  }

  // The run ending at a cell does no better than the choice.
  ghost predicate RunNoBetter(a: String, b: String, r: nat, c: nat, len: nat, start: nat)
    requires r <= |a| && c <= |b|
  {
    var l := Run(a, b, r, c);
    l < len || (l == len && (len > 0 ==> start <= r - l))
  }

  // The best choice over the runs that end at one of the first cells of the table.
  ghost predicate BestRun(a: String, b: String, i: nat, j: nat, n: nat, none: nat, len: nat, start: nat)
    requires i <= |a| && n <= |b|
  {
    && (len == 0 ==> start == none)
    && (len > 0 ==> exists r, c :: 1 <= r <= i && 1 <= c <= n && RunAt(a, b, r, c, len, start))
    && forall r, c :: 1 <= r <= i && 1 <= c <= n && (r < i || c < j) ==> RunNoBetter(a, b, r, c, len, start)
  }

  lemma RunStep(a: String, b: String, i: nat, j: nat, n: nat, none: nat, len: nat, start: nat, len': nat, start': nat)
    requires 1 <= i <= |a| && 1 <= j <= n <= |b| && BestRun(a, b, i, j, n, none, len, start)
    requires var run := Run(a, b, i, j);
             var take := run > 0 && IsBetterChoice(run, i - run, len, start);
             len' == (if take then run else len) && start' == (if take then i - run else start)
    ensures BestRun(a, b, i, j + 1, n, none, len', start')
  {
    hide Run;
    assert len' > 0 ==> (len' == len && start' == start) || RunAt(a, b, i, j, len', start');
    forall r, c | 1 <= r <= i && 1 <= c <= n && (r < i || c < j + 1) ensures RunNoBetter(a, b, r, c, len', start') {
      assert RunNoBetter(a, b, r, c, len, start) || (r == i && c == j);
    }
  }

  lemma SharedEndsARun(a: String, b: String, m: nat, n: nat, x: nat, y: nat, l: nat)
    requires IsShared(a, b, m, n, x, y, l)
    ensures l <= Run(a, b, x + l, y + l)
  {
    RunIsLongest(a, b, x + l, y + l, l);
  }

  lemma RunIsShared(a: String, b: String, m: nat, n: nat, r: nat, c: nat, len: nat, start: nat)
    requires m <= |a| && n <= |b| && r <= m && c <= n && RunAt(a, b, r, c, len, start)
    ensures len <= c && IsShared(a, b, m, n, start, c - len, len)
  {
    RunIsLongest(a, b, r, c, len);
  }

  lemma BestRunIsLongest(a: String, b: String, m: nat, n: nat, none: nat, len: nat, start: nat)
    requires m <= |a| && n <= |b| && BestRun(a, b, m, n + 1, n, none, len, start)
    ensures IsLongestShared(a, b, m, n, none, len, start)
  {
    hide Run;
    if len > 0 {
      var r, c :| 1 <= r <= m && 1 <= c <= n && RunAt(a, b, r, c, len, start);
      RunIsShared(a, b, m, n, r, c, len, start);
    }
    forall x: nat, y: nat, l: nat | IsShared(a, b, m, n, x, y, l) ensures l < len || (l == len && (len > 0 ==>
      start <= x)) {
      SharedEndsARun(a, b, m, n, x, y, l);
      assert l > 0 ==> RunNoBetter(a, b, x + l, y + l, len, start);
    }
  }

  // ---- The program: common substring ----

  ghost predicate RunsTo(lhs: String, rhs: String, dp: array2<nat>, i: nat, j: nat)
    reads dp
  {
    && dp.Length0 <= |lhs| + 1 && dp.Length1 <= |rhs| + 1
    && forall r, c :: 0 <= r < dp.Length0 && 0 <= c < dp.Length1 && (r < i || c == 0 || (r == i && c < j)) ==>
         dp[r, c] == Run(lhs, rhs, r, c)
  }

  method FillRun(lhs: String, rhs: String, dp: array2<nat>, i: nat, j: nat) returns (runLen: nat)
    requires 1 <= i < dp.Length0 && 1 <= j < dp.Length1 && RunsTo(lhs, rhs, dp, i, j)
    modifies dp
    ensures RunsTo(lhs, rhs, dp, i, j + 1) && runLen == Run(lhs, rhs, i, j)
  {
    RunHere(lhs, rhs, i, j);
    hide Run;
    var matches := lhs[i - 1] == rhs[j - 1];
    var candLen := dp[i - 1, j - 1] + 1;
    runLen := if matches then candLen else 0;
    dp[i, j] := runLen;
  }

  method LcsubStartAndLength(lhs: String, rhs: String, lhsLen: nat, rhsLen: nat) returns (ret: MatchResult)
    requires lhsLen <= |lhs| && rhsLen <= |rhs|
    ensures IsLongestShared(lhs, rhs, lhsLen, rhsLen, lhsLen, ret.length, ret.startIndex)
  {
    var dp := NewTable(lhsLen + 1, rhsLen + 1, 0);
    var bestLen, bestStart: nat := 0, lhsLen;
    assert RunsTo(lhs, rhs, dp, 1, 1);
    hide BestRun, Run, IsLongestShared;
    for i := 1 to lhsLen + 1
      invariant RunsTo(lhs, rhs, dp, i, 1)
      invariant BestRun(lhs, rhs, i - 1, rhsLen + 1, rhsLen, lhsLen, bestLen, bestStart)
    {
      NextRow(lhs, rhs, i, rhsLen, lhsLen, bestLen, bestStart);
      for j := 1 to rhsLen + 1
        invariant RunsTo(lhs, rhs, dp, i, j)
        invariant BestRun(lhs, rhs, i, j, rhsLen, lhsLen, bestLen, bestStart)
      {
        ghost var len, start := bestLen, bestStart;
        var runLen := FillRun(lhs, rhs, dp, i, j);
        var candStart := i - runLen;
        var take := runLen > 0 && IsBetterChoice(runLen, candStart, bestLen, bestStart);
        bestLen := if take then runLen else bestLen;
        bestStart := if take then candStart else bestStart;
        RunStep(lhs, rhs, i, j, rhsLen, lhsLen, len, start, bestLen, bestStart);
      }
    }
    BestRunIsLongest(lhs, rhs, lhsLen, rhsLen, lhsLen, bestLen, bestStart);
    LongestSharedNone(lhs, rhs, lhsLen, rhsLen, lhsLen, bestLen, bestStart);
    ret := MatchResult(if bestLen == 0 then lhsLen else bestStart, bestLen);
  }

  lemma LongestSharedNone(a: String, b: String, m: nat, n: nat, none: nat, len: nat, start: nat)
    requires IsLongestShared(a, b, m, n, none, len, start)
    ensures len == 0 ==> start == none
  {
  }

  lemma RunHere(a: String, b: String, i: nat, j: nat)
    requires 1 <= i <= |a| && 1 <= j <= |b|
    ensures Run(a, b, i, j) == if a[i - 1] == b[j - 1] then Run(a, b, i - 1, j - 1) + 1 else 0
  {
  }

  lemma NextRow(a: String, b: String, i: nat, n: nat, none: nat, len: nat, start: nat)
    requires 1 <= i <= |a| && n <= |b| && BestRun(a, b, i - 1, n + 1, n, none, len, start)
    ensures BestRun(a, b, i, 1, n, none, len, start)
  {
  }
}
