/**
 Edit distance: the table of distances between prefixes, filled row by row. The reference is not
 the recurrence but edit scripts: the least number of single-character insertions, deletions and
 substitutions, at any positions and in any order, that turn one string into the other.
 */
module EditDistance {

  type String = seq<nat>

  // ---- Edit scripts, the reference ----

  datatype Edit = Insert(pos: nat, c: nat) | Delete(pos: nat) | Substitute(pos: nat, c: nat)

  predicate Applies(e: Edit, s: String) {
    match e
    case Insert(pos, _) => pos <= |s|
    case Delete(pos) => pos < |s|
    case Substitute(pos, _) => pos < |s|
  }

  function Apply(e: Edit, s: String): String
    requires Applies(e, s)
  {
    match e
    case Insert(pos, c) => s[..pos] + [c] + s[pos..]
    case Delete(pos) => s[..pos] + s[pos + 1..]
    case Substitute(pos, c) => s[..pos] + [c] + s[pos + 1..]
  }

  ghost predicate Turns(script: seq<Edit>, s: String, t: String) {
    if script == [] then s == t
    else Applies(script[0], s) && Turns(script[1..], Apply(script[0], s), t)
  }

  // ---- The recurrence ----

  function Min3(x: nat, y: nat, z: nat): nat {
    if x < y && x < z then x else if y < z then y else z
  }

  function Differ(s: String, t: String): nat
    requires s != [] && t != []
  {
    if s[|s| - 1] == t[|t| - 1] then 0 else 1
  }

  function Init(s: String): String
    requires s != []
  {
    s[..|s| - 1]
  }

  function Distance(s: String, t: String): nat
    decreases |s| + |t|
  {
    if s == [] then |t|
    else if t == [] then |s|
    else Min3(Distance(Init(s), t) + 1, Distance(s, Init(t)) + 1, Distance(Init(s), Init(t)) + Differ(s, t))
  }

  // ---- Some script has the computed length ----

  lemma {:induction false} TurnsThen(p: seq<Edit>, q: seq<Edit>, s: String, t: String, u: String)
    requires Turns(p, s, t) && Turns(q, t, u)
    ensures Turns(p + q, s, u)
  {
    hide Apply, Applies;
    if p == [] {
      assert p + q == q;
    } else {
      TurnsThen(p[1..], q, Apply(p[0], s), t, u);
      var w := p + q;
      assert w[0] == p[0] && w[1..] == p[1..] + q;
    }
  }

  lemma ApplyInPrefix(e: Edit, s: String, z: String)
    requires Applies(e, s)
    ensures Applies(e, s + z) && Apply(e, s + z) == Apply(e, s) + z
  {
    assert (s + z)[..e.pos] == s[..e.pos];
    if e.Insert? {
      assert (s + z)[e.pos..] == s[e.pos..] + z;
    } else {
      assert (s + z)[e.pos + 1..] == s[e.pos + 1..] + z;
    }
  }

  lemma {:induction false} TurnsPrefix(p: seq<Edit>, s: String, t: String, z: String)
    requires Turns(p, s, t)
    ensures Turns(p, s + z, t + z)
  {
    if p != [] {
      ApplyInPrefix(p[0], s, z);
      TurnsPrefix(p[1..], Apply(p[0], s), t, z);
    }
  }

  lemma TurnsOnce(e: Edit, s: String, t: String)
    requires Applies(e, s) && Apply(e, s) == t
    ensures Turns([e], s, t)
  {
    assert [e][1..] == [];
  }

  lemma InitLast(s: String)
    requires s != []
    ensures s == Init(s) + [s[|s| - 1]]
  {
  }

  lemma DeleteLast(rest: seq<Edit>, s: String, t: String) returns (script: seq<Edit>)
    requires s != [] && Turns(rest, Init(s), t)
    ensures Turns(script, s, t) && |script| == |rest| + 1
  {
    var e := Delete(|s| - 1);
    TurnsOnce(e, s, Init(s));
    TurnsThen([e], rest, s, Init(s), t);
    script := [e] + rest;
  }

  lemma InsertLast(rest: seq<Edit>, s: String, t: String) returns (script: seq<Edit>)
    requires t != [] && Turns(rest, s, Init(t))
    ensures Turns(script, s, t) && |script| == |rest| + 1
  {
    var e := Insert(|t| - 1, t[|t| - 1]);
    TurnsOnce(e, Init(t), t);
    TurnsThen(rest, [e], s, Init(t), t);
    script := rest + [e];
  }

  lemma {:induction false} ScriptExists(s: String, t: String) returns (script: seq<Edit>)
    ensures Turns(script, s, t) && |script| == Distance(s, t)
    decreases |s| + |t|
  {
    if s == [] && t == [] {
      script := [];
    } else if t == [] || (s != [] && Distance(s, t) == Distance(Init(s), t) + 1) {
      var rest := ScriptExists(Init(s), t);
      script := DeleteLast(rest, s, t);
    } else if s == [] || Distance(s, t) == Distance(s, Init(t)) + 1 {
      var rest := ScriptExists(s, Init(t));
      script := InsertLast(rest, s, t);
    } else {
      script := ScriptDiagonal(s, t);
    }
  }

  lemma {:induction false} ScriptDiagonal(s: String, t: String) returns (script: seq<Edit>)
    requires s != [] && t != []
    ensures Turns(script, s, t) && |script| == Distance(Init(s), Init(t)) + Differ(s, t)
    decreases |s| + |t|, 0
  {
    var rest := ScriptExists(Init(s), Init(t));
    var x := [s[|s| - 1]];
    InitLast(s);
    InitLast(t);
    TurnsPrefix(rest, Init(s), Init(t), x);
    if Differ(s, t) == 0 {
      script := rest;
    } else {
      var e := Substitute(|t| - 1, t[|t| - 1]);
      TurnsOnce(e, Init(t) + x, t);
      TurnsThen(rest, [e], s, Init(t) + x, t);
      script := rest + [e];
    }
  }

  // ---- The distance is a metric ----

  lemma {:induction false} DistanceBounds(s: String, t: String)
    ensures |s| <= |t| + Distance(s, t) && |t| <= |s| + Distance(s, t)
    ensures Distance(s, t) <= if |s| < |t| then |t| else |s|
    decreases |s| + |t|
  {
    if s != [] && t != [] {
      DistanceBounds(Init(s), t);
      DistanceBounds(s, Init(t));
      DistanceBounds(Init(s), Init(t));
    }
  }

  lemma {:induction false} Symmetric(s: String, t: String)
    ensures Distance(s, t) == Distance(t, s)
    decreases |s| + |t|
  {
    if s != [] && t != [] {
      Symmetric(Init(s), t);
      Symmetric(s, Init(t));
      Symmetric(Init(s), Init(t));
    }
  }

  lemma {:induction false} ZeroWhenEqual(s: String, t: String)
    ensures Distance(s, t) == 0 <==> s == t
    decreases |s| + |t|
  {
    if s != [] && t != [] {
      ZeroWhenEqual(Init(s), Init(t));
      InitLast(s);
      InitLast(t);
    }
  }

  lemma {:induction false} Triangle(s: String, u: String, t: String)
    ensures Distance(s, t) <= Distance(s, u) + Distance(u, t)
    decreases |s| + |u| + |t|
  {
    hide Distance;
    if s == [] || u == [] || t == [] {
      DistanceBounds(s, u);
      DistanceBounds(u, t);
      DistanceBounds(s, t);
    } else {
      Triangle(Init(s), u, t);
      Triangle(s, u, Init(t));
      Triangle(s, Init(u), t);
      Triangle(s, Init(u), Init(t));
      Triangle(Init(s), Init(u), t);
      Triangle(Init(s), Init(u), Init(t));
      DistanceStep(s, u);
      DistanceStep(u, t);
      DistanceStep(s, t);
    }
  }

  // The distance is that of the best of the three last edits.
  lemma DistanceStep(s: String, t: String)
    requires s != [] && t != []
    ensures Distance(s, t) <= Distance(Init(s), t) + 1 && Distance(s, t) <= Distance(s, Init(t)) + 1
    ensures Distance(s, t) <= Distance(Init(s), Init(t)) + Differ(s, t)
    ensures || Distance(s, t) == Distance(Init(s), t) + 1 || Distance(s, t) == Distance(s, Init(t)) + 1
            || Distance(s, t) == Distance(Init(s), Init(t)) + Differ(s, t)
  {
  }

  // ---- No script is shorter ----

  lemma {:induction false} SharedEnding(a: String, b: String, z: String)
    ensures Distance(a + z, b + z) <= Distance(a, b)
  {
    if z == [] {
      assert a + z == a && b + z == b;
    } else {
      var s, t := a + z, b + z;
      SharedEnding(a, b, Init(z));
      assert Init(s) == a + Init(z) && Init(t) == b + Init(z);
      assert Differ(s, t) == 0;
      assert Distance(s, t) <= Distance(Init(s), Init(t)) + 0;
    }
  }

  lemma OneMore(a: String, c: nat)
    ensures Distance(a + [c], a) <= 1
  {
    var s := a + [c];
    assert Init(s) == a;
    ZeroWhenEqual(a, a);
    assert Distance(s, a) <= Distance(Init(s), a) + 1;
  }

  lemma OneOther(a: String, c: nat, d: nat)
    ensures Distance(a + [c], a + [d]) <= 1
  {
    var s, t := a + [c], a + [d];
    assert Init(s) == a && Init(t) == a;
    ZeroWhenEqual(a, a);
    assert Distance(s, t) <= Distance(Init(s), Init(t)) + 1;
  }

  lemma OneInsert(s: String, pos: nat, c: nat)
    requires pos <= |s|
    ensures Distance(s, s[..pos] + [c] + s[pos..]) <= 1
  {
    hide Distance;
    var a, z := s[..pos], s[pos..];
    OneMore(a, c);
    Symmetric(a, a + [c]);
    SharedEnding(a, a + [c], z);
    assert a + z == s;
  }

  lemma OneDelete(s: String, pos: nat)
    requires pos < |s|
    ensures Distance(s, s[..pos] + s[pos + 1..]) <= 1
  {
    hide Distance;
    var a, x, z := s[..pos], s[pos], s[pos + 1..];
    OneMore(a, x);
    SharedEnding(a + [x], a, z);
    assert a + [x] + z == s;
  }

  lemma OneSubstitute(s: String, pos: nat, c: nat)
    requires pos < |s|
    ensures Distance(s, s[..pos] + [c] + s[pos + 1..]) <= 1
  {
    hide Distance;
    var a, x, z := s[..pos], s[pos], s[pos + 1..];
    OneOther(a, x, c);
    SharedEnding(a + [x], a + [c], z);
    assert a + [x] + z == s;
  }

  lemma OneEdit(e: Edit, s: String)
    requires Applies(e, s)
    ensures Distance(s, Apply(e, s)) <= 1
  {
    match e
    case Insert(pos, c) => OneInsert(s, pos, c);
    case Delete(pos) => OneDelete(s, pos);
    case Substitute(pos, c) => OneSubstitute(s, pos, c);
  }

  lemma {:induction false} NoShorterScript(script: seq<Edit>, s: String, t: String)
    requires Turns(script, s, t)
    ensures Distance(s, t) <= |script|
  {
    if script == [] {
      ZeroWhenEqual(s, t);
    } else {
      var u := Apply(script[0], s);
      NoShorterScript(script[1..], u, t);
      OneEdit(script[0], s);
      Triangle(s, u, t);
    }
  }

  ghost predicate IsEditDistance(s: String, t: String, d: nat) {
    && (exists script :: Turns(script, s, t) && |script| == d)
    && (forall script :: Turns(script, s, t) ==> d <= |script|)
  }

  lemma DistanceIsEditDistance(s: String, t: String)
    ensures IsEditDistance(s, t, Distance(s, t))
  {
    var shortest := ScriptExists(s, t);
    forall script | Turns(script, s, t) ensures Distance(s, t) <= |script| {
      NoShorterScript(script, s, t);
    }
  }

  // ---- The program ----

  function Add64(x: nat, y: nat): nat { (x + y) % 0x1_0000_0000_0000_0000 }

  ghost predicate Entry(s: String, t: String, i: nat, j: nat, d: nat) {
    i <= |s| && j <= |t| && d == Distance(s[..i], t[..j])
  }

  lemma Edge(s: String, t: String, i: nat, j: nat)
    requires i <= |s| && j <= |t|
    ensures Entry(s, t, i, 0, i) && Entry(s, t, 0, j, j)
  {
  }

  lemma EntryFits(s: String, t: String, i: nat, j: nat, d: nat)
    requires Entry(s, t, i, j, d) && |s| < 0x1_0000_0000_0000_0000 - 1 && |t| < 0x1_0000_0000_0000_0000 - 1
    ensures Add64(d, 1) == d + 1 && Add64(d, 0) == d
  {
    DistanceBounds(s[..i], t[..j]);
  }

  lemma Step(s: String, t: String, i: nat, j: nat, up: nat, left: nat, diag: nat)
    requires i < |s| < 0x1_0000_0000_0000_0000 - 1 && j < |t| < 0x1_0000_0000_0000_0000 - 1
    requires Entry(s, t, i, j + 1, up) && Entry(s, t, i + 1, j, left) && Entry(s, t, i, j, diag)
    ensures Entry(s, t, i + 1, j + 1, Min3(Add64(up, 1), Add64(left, 1), Add64(diag, if s[i] == t[j] then 0 else 1)))
  {
    EntryFits(s, t, i, j + 1, up);
    EntryFits(s, t, i + 1, j, left);
    EntryFits(s, t, i, j, diag);
    hide Add64, Min3;
    var a, b := s[..i + 1], t[..j + 1];
    assert Init(a) == s[..i] && Init(b) == t[..j];
  }

  // Two strings of one public length; the additions are 64 bits wide and do not wrap.
  method EditDistance(str1: String, str2: String) returns (distance: nat)
    requires |str1| == |str2| < 0x1_0000_0000_0000_0000 - 1
    ensures IsEditDistance(str1, str2, distance)
  {
    var n := |str1|;
    var matrix := new nat[n + 1, n + 1];
    for i := 0 to n + 1
      invariant forall r :: 0 <= r < i ==> matrix[r, 0] == r
    {
      matrix[i, 0] := i;
    }
    for j := 0 to n + 1
      invariant forall r :: 0 <= r <= n ==> matrix[r, 0] == r
      invariant forall c :: 0 <= c < j ==> matrix[0, c] == c
    {
      matrix[0, j] := j;
    }
    forall r | 0 <= r <= n ensures Entry(str1, str2, r, 0, matrix[r, 0]) && Entry(str1, str2, 0, r, matrix[0, r]) {
      Edge(str1, str2, r, r);
    }
    hide Entry;
    for i := 0 to n
      invariant forall r :: 0 <= r <= n ==> Entry(str1, str2, r, 0, matrix[r, 0])
      invariant forall r, c :: 0 <= r <= i && 0 <= c <= n ==> Entry(str1, str2, r, c, matrix[r, c])
    {
      for j := 0 to n
        invariant forall r :: 0 <= r <= n ==> Entry(str1, str2, r, 0, matrix[r, 0])
        invariant forall r, c :: 0 <= r <= i && 0 <= c <= n ==> Entry(str1, str2, r, c, matrix[r, c])
        invariant forall r, c :: r == i + 1 && 0 <= c <= j ==> Entry(str1, str2, r, c, matrix[r, c])
      {
        Step(str1, str2, i, j, matrix[i, j + 1], matrix[i + 1, j], matrix[i, j]);
        var edit := if str1[i] == str2[j] then 0 else 1;
        matrix[i + 1, j + 1] := Min3(Add64(matrix[i, j + 1], 1), Add64(matrix[i + 1, j], 1), Add64(matrix[i, j], edit));
      }
    }
    distance := matrix[n, n];
    Result(str1, str2, distance);
  }

  lemma Result(s: String, t: String, d: nat)
    requires Entry(s, t, |s|, |t|, d)
    ensures IsEditDistance(s, t, d)
  {
    assert s[..|s|] == s && t[..|t|] == t;
    DistanceIsEditDistance(s, t);
  }
}
