/** The drift check: is the desired pod template contained in what the API server reports, and
    where do the two differ? */
module Drift {
  import opened Common
  import opened Json

  /** A value the API server leaves out when it serialises a resource. */
  predicate IsZeroValue(v: Value): (zero: bool)
    ensures zero <==> v in {Null, Bool(false), Num(Integer(0)), Num(Float(0.0)), Str("")}
  {
    match v
    case Null => true
    case Bool(b) => !b
    case Num(Integer(i)) => i == 0
    case Num(Float(r)) => r == 0.0
    case Str(s) => s == ""
    case _ => false
  }

  predicate IsSubset(desired: Value, actual: Value) {
    match (desired, actual)
    case (Obj(d), Obj(a)) =>
      forall k :: k in d ==> if k in a then IsSubset(d[k], a[k]) else IsZeroValue(d[k])
    case (Arr(d), Arr(a)) =>
      |d| == |a| && forall i :: 0 <= i < |d| ==> IsSubset(d[i], a[i])
    case _ => desired == actual
  }

  // ---- Paths ----

  datatype Segment = Key(name: string) | Index(i: nat)
  type Path = seq<Segment>

  function Under(s: Segment, paths: set<Path>): set<Path> {
    set p | p in paths :: [s] + p
  }

  /** The reported paths. The printed text of each report, and the order of the reports, are left out. */
  function DiffPaths(desired: Value, actual: Value): set<Path> {
    match (desired, actual)
    case (Obj(d), Obj(a)) =>
      (set k, p | k in d.Keys && k in a.Keys && p in Under(Key(k), DiffPaths(d[k], a[k])) :: p)
      + (set k | k in d.Keys && k !in a.Keys && !IsZeroValue(d[k]) :: [Key(k)])
    case (Arr(d), Arr(a)) =>
      if |d| == |a| then set i, p | 0 <= i < |d| && p in Under(Index(i), DiffPaths(d[i], a[i])) :: p
      else {[]}
    case _ => if desired == actual then {} else {[]}
  }

  /** The reports below key `k`. */
  ghost function DiffAtKey(d: map<string, Value>, a: map<string, Value>, k: string): set<Path>
    requires k in d
  {
    if k in a then DiffPaths(d[k], a[k]) else if IsZeroValue(d[k]) then {} else {[]}
  }

  lemma InUnder(s: Segment, paths: set<Path>, p: Path)
    ensures p in Under(s, paths) <==> p != [] && p[0] == s && p[1..] in paths
  {
    if p != [] && p[0] == s && p[1..] in paths {
      assert p == [s] + p[1..];
    }
  }

  lemma InObjectDiff(d: map<string, Value>, a: map<string, Value>, p: Path)
    ensures p in DiffPaths(Obj(d), Obj(a))
            <==> p != [] && p[0].Key? && p[0].name in d && p[1..] in DiffAtKey(d, a, p[0].name)
  {
    forall k | k in d && k in a ensures p in Under(Key(k), DiffPaths(d[k], a[k]))
                                        <==> p != [] && p[0] == Key(k) && p[1..] in DiffPaths(d[k], a[k])
    {
      InUnder(Key(k), DiffPaths(d[k], a[k]), p);
    }
    assert |p| == 1 ==> p[1..] == [];
    if p != [] && p[0].Key? && p[0].name in d && p[1..] in DiffAtKey(d, a, p[0].name) {
      var k := p[0].name;
      if k in a {
        assert p in Under(Key(k), DiffPaths(d[k], a[k]));
      } else {
        assert p == [Key(k)];
      }
    }
  }

  lemma InArrayDiff(d: seq<Value>, a: seq<Value>, p: Path)
    requires |d| == |a|
    ensures p in DiffPaths(Arr(d), Arr(a))
            <==> p != [] && p[0].Index? && p[0].i < |d| && p[1..] in DiffPaths(d[p[0].i], a[p[0].i])
  {
    forall i | 0 <= i < |d| ensures p in Under(Index(i), DiffPaths(d[i], a[i]))
                                    <==> p != [] && p[0] == Index(i) && p[1..] in DiffPaths(d[i], a[i])
    {
      InUnder(Index(i), DiffPaths(d[i], a[i]), p);
    }
  }

  /** Whether a path is reported, followed down from the two trees: it leads through objects and through
      arrays of equal length, and ends where the trees differ and no such step leads further, or at a
      desired field that is missing and not a zero value. */
  ghost predicate Reported(desired: Value, actual: Option<Value>, p: Path)
    decreases |p|
  {
    match (desired, actual)
    case (_, None) => p == [] && desired !in {Null, Bool(false), Num(Integer(0)), Num(Float(0.0)), Str("")}
    case (Obj(d), Some(Obj(a))) =>
      && p != [] && p[0].Key? && p[0].name in d
      && Reported(d[p[0].name], if p[0].name in a then Some(a[p[0].name]) else None, p[1..])
    case (Arr(d), Some(Arr(a))) =>
      if |d| != |a| then p == []
      else p != [] && p[0].Index? && p[0].i < |d| && Reported(d[p[0].i], Some(a[p[0].i]), p[1..])
    case (_, Some(a)) => p == [] && desired != a
  }

  lemma {:induction false} DiffReports(desired: Value, actual: Value, p: Path)
    ensures p in DiffPaths(desired, actual) <==> Reported(desired, Some(actual), p)
    decreases |p|
  {
    match (desired, actual)
    case (Obj(d), Obj(a)) =>
      InObjectDiff(d, a, p);
      if p != [] && p[0].Key? && p[0].name in d && p[0].name in a {
        DiffReports(d[p[0].name], a[p[0].name], p[1..]);
      }
    case (Arr(d), Arr(a)) =>
      if |d| == |a| {
        InArrayDiff(d, a, p);
        if p != [] && p[0].Index? && p[0].i < |d| {
          DiffReports(d[p[0].i], a[p[0].i], p[1..]);
        }
      }
    case _ =>
  }

  // ---- The diff and the check agree ----

  lemma {:induction false} DiffEmptyIffSubset(desired: Value, actual: Value)
    ensures DiffPaths(desired, actual) == {} <==> IsSubset(desired, actual)
  {
    match (desired, actual)
    case (Obj(d), Obj(a)) =>
      forall k | k in d
        ensures DiffAtKey(d, a, k) == {} <==> if k in a then IsSubset(d[k], a[k]) else IsZeroValue(d[k])
      {
        if k in a { DiffEmptyIffSubset(d[k], a[k]); }
      }
      forall p: Path ensures p in DiffPaths(desired, actual)
               <==> p != [] && p[0].Key? && p[0].name in d && p[1..] in DiffAtKey(d, a, p[0].name)
      {
        InObjectDiff(d, a, p);
      }
      forall k, q: Path | k in d && q in DiffAtKey(d, a, k) ensures [Key(k)] + q in DiffPaths(desired, actual) {
        assert ([Key(k)] + q)[1..] == q;
      }
    case (Arr(d), Arr(a)) =>
      if |d| == |a| {
        forall i | 0 <= i < |d| ensures DiffPaths(d[i], a[i]) == {} <==> IsSubset(d[i], a[i]) {
          DiffEmptyIffSubset(d[i], a[i]);
        }
        forall p: Path ensures p in DiffPaths(desired, actual)
                 <==> p != [] && p[0].Index? && p[0].i < |d| && p[1..] in DiffPaths(d[p[0].i], a[p[0].i])
        {
          InArrayDiff(d, a, p);
        }
        forall i, q: Path | 0 <= i < |d| && q in DiffPaths(d[i], a[i])
          ensures [Index(i)] + q in DiffPaths(desired, actual)
        {
          assert ([Index(i)] + q)[1..] == q;
        }
      }
    case _ =>
  }

  lemma {:induction false} SubsetReflexive(v: Value)
    ensures IsSubset(v, v)
  {
    match v
    case Obj(f) => forall k | k in f ensures IsSubset(f[k], f[k]) { SubsetReflexive(f[k]); }
    case Arr(s) => forall i | 0 <= i < |s| ensures IsSubset(s[i], s[i]) { SubsetReflexive(s[i]); }
    case _ =>
  }

  /** A field that is missing from `actual` is tolerated exactly when it is null, false, zero or the
      empty string, an empty object or array not being one of them; otherwise it is the one report. */
  lemma MissingFieldToleratedIffZero(f: map<string, Value>, k: string)
    requires k in f
    ensures IsSubset(Obj(f), Obj(f - {k}))
            <==> f[k] in {Null, Bool(false), Num(Integer(0)), Num(Float(0.0)), Str("")}
    ensures DiffPaths(Obj(f), Obj(f - {k})) == if IsSubset(Obj(f), Obj(f - {k})) then {} else {[Key(k)]}
  {
    var rest := f - {k};
    forall l | l in rest ensures IsSubset(f[l], rest[l]) && DiffPaths(f[l], rest[l]) == {} {
      SubsetReflexive(f[l]);
      DiffEmptyIffSubset(f[l], f[l]);
    }
    forall p ensures p in DiffPaths(Obj(f), Obj(rest)) <==> p == [Key(k)] && !IsZeroValue(f[k]) {
      InObjectDiff(f, rest, p);
      if p != [] && p[0] == Key(k) && p[1..] == [] { assert p == [p[0]] + p[1..]; }
    }
  }

  // ---- The diff is a repair script ----

  /** Whether `v` has, or could be given, a child at this segment. */
  predicate Fits(v: Value, s: Segment) {
    (v.Obj? && s.Key?) || (v.Arr? && s.Index? && s.i < |v.items|)
  }

  function Child(v: Value, s: Segment): Option<Value>
    requires Fits(v, s)
  {
    if v.Arr? then Some(v.items[s.i])
    else if s.name in v.fields then Some(v.fields[s.name])
    else None
  }

  function SetChild(v: Value, s: Segment, child: Value): Value
    requires Fits(v, s)
  {
    if v.Arr? then Arr(v.items[s.i := child]) else Obj(v.fields[s.name := child])
  }

  function At(v: Value, path: Path): Option<Value> {
    if path == [] then Some(v)
    else if !Fits(v, path[0]) then None
    else
      match Child(v, path[0])
      case Some(c) => At(c, path[1..])
      case None => None
  }

  /** Overwrite the value at `path`; the last key of the path may be new. */
  function Write(v: Value, path: Path, value: Value): Value
    decreases |path|
  {
    if path == [] then value
    else if !Fits(v, path[0]) then v
    else
      match Child(v, path[0])
      case Some(c) => SetChild(v, path[0], Write(c, path[1..], value))
      case None => if |path| == 1 then SetChild(v, path[0], value) else v
  }

  lemma {:induction false} ReportedPathExists(desired: Value, actual: Value, path: Path)
    requires path in DiffPaths(desired, actual)
    ensures At(desired, path).Some?
  {
    match (desired, actual)
    case (Obj(d), Obj(a)) =>
      InObjectDiff(d, a, path);
      var k := path[0].name;
      if k in a { ReportedPathExists(d[k], a[k], path[1..]); }
    case (Arr(d), Arr(a)) =>
      if |d| == |a| {
        InArrayDiff(d, a, path);
        ReportedPathExists(d[path[0].i], a[path[0].i], path[1..]);
      }
    case _ =>
  }

  /** Writing the desired value at one reported path removes that report and no other, and adds none. */
  lemma {:induction false} OneRepair(desired: Value, actual: Value, path: Path)
    requires path in DiffPaths(desired, actual)
    ensures At(desired, path).Some?
    ensures DiffPaths(desired, Write(actual, path, At(desired, path).value)) == DiffPaths(desired, actual) - {path}
    decreases |path|
  {
    ReportedPathExists(desired, actual, path);
    if path == [] {
      SubsetReflexive(desired);
      DiffEmptyIffSubset(desired, desired);
      WholeTreeReport(desired, actual);
    } else {
      match (desired, actual)
      case (Obj(d), Obj(a)) => RepairAtKey(d, a, path);
      case (Arr(d), Arr(a)) => RepairAtIndex(d, a, path);
    }
  }

  lemma WholeTreeReport(desired: Value, actual: Value)
    requires [] in DiffPaths(desired, actual)
    ensures DiffPaths(desired, actual) == {[]}
  {
    match (desired, actual)
    case (Obj(d), Obj(a)) => InObjectDiff(d, a, []);
    case (Arr(d), Arr(a)) => if |d| == |a| { InArrayDiff(d, a, []); }
    case _ =>
  }

  lemma RepairAtKey(d: map<string, Value>, a: map<string, Value>, path: Path)
    requires path != [] && path in DiffPaths(Obj(d), Obj(a)) && At(Obj(d), path).Some?
    ensures DiffPaths(Obj(d), Write(Obj(a), path, At(Obj(d), path).value)) == DiffPaths(Obj(d), Obj(a)) - {path}
    decreases |path|, 0
  {
    InObjectDiff(d, a, path);
    var k, rest := path[0].name, path[1..];
    var v := At(Obj(d), path).value;
    var a' := a[k := if k in a then Write(a[k], rest, v) else v];
    if k in a {
      OneRepair(d[k], a[k], rest);
    } else {
      assert rest == [];
      SubsetReflexive(v);
      DiffEmptyIffSubset(v, v);
    }
    assert Write(Obj(a), path, v) == Obj(a');
    assert DiffAtKey(d, a', k) == DiffAtKey(d, a, k) - {rest};
    forall q ensures q in DiffPaths(Obj(d), Obj(a')) <==> q in DiffPaths(Obj(d), Obj(a)) && q != path {
      InObjectDiff(d, a, q);
      InObjectDiff(d, a', q);
      if q != [] && q[0] == path[0] {
        assert q == [q[0]] + q[1..] && path == [path[0]] + rest;
      }
    }
  }

  lemma RepairAtIndex(d: seq<Value>, a: seq<Value>, path: Path)
    requires path != [] && path in DiffPaths(Arr(d), Arr(a)) && At(Arr(d), path).Some?
    ensures DiffPaths(Arr(d), Write(Arr(a), path, At(Arr(d), path).value)) == DiffPaths(Arr(d), Arr(a)) - {path}
    decreases |path|, 0
  {
    InArrayDiff(d, a, path);
    var i, rest := path[0].i, path[1..];
    var v := At(Arr(d), path).value;
    OneRepair(d[i], a[i], rest);
    var a' := a[i := Write(a[i], rest, v)];
    assert Write(Arr(a), path, v) == Arr(a');
    forall q ensures q in DiffPaths(Arr(d), Arr(a')) <==> q in DiffPaths(Arr(d), Arr(a)) && q != path {
      InArrayDiff(d, a, q);
      InArrayDiff(d, a', q);
      if q != [] && q[0] == path[0] {
        assert q == [q[0]] + q[1..] && path == [path[0]] + rest;
      }
    }
  }

  /** Write the desired value at every path of `script`, in that order. */
  function Repair(desired: Value, actual: Value, script: seq<Path>): Value
    decreases |script|
  {
    if script == [] then actual else
    match At(desired, script[0])
    case Some(v) => Repair(desired, Write(actual, script[0], v), script[1..])
    case None => Repair(desired, actual, script[1..])
  }

  /** In whatever order reported paths are repaired, exactly the others stay reported. */
  lemma {:induction false} RepairRemovesReports(desired: Value, actual: Value, script: seq<Path>)
    requires Distinct(script) && forall p :: p in script ==> p in DiffPaths(desired, actual)
    ensures DiffPaths(desired, Repair(desired, actual, script)) == DiffPaths(desired, actual) - (set p | p in script)
    decreases |script|
  {
    if script != [] {
      var p, rest := script[0], script[1..];
      assert p in script;
      OneRepair(desired, actual, p);
      var actual' := Write(actual, p, At(desired, p).value);
      assert forall q :: q in rest ==> q in script && q != p;
      RepairRemovesReports(desired, actual', rest);
      assert (set q | q in script) == {p} + (set q | q in rest);
    }
  }

  /** The diff, listed in any order, is a complete repair script. */
  lemma RepairIsComplete(desired: Value, actual: Value, script: seq<Path>)
    requires Distinct(script) && forall p :: p in script <==> p in DiffPaths(desired, actual)
    ensures IsSubset(desired, Repair(desired, actual, script))
  {
    RepairRemovesReports(desired, actual, script);
    DiffEmptyIffSubset(desired, Repair(desired, actual, script));
  }

  /** No reported path leads through another one. */
  lemma {:induction false} ReportsArePrefixFree(desired: Value, actual: Value, p: Path, q: Path)
    requires p in DiffPaths(desired, actual) && q in DiffPaths(desired, actual) && p <= q
    ensures p == q
    decreases |p|
  {
    if p == [] {
      WholeTreeReport(desired, actual);
    } else {
      match (desired, actual)
      case (Obj(d), Obj(a)) =>
        InObjectDiff(d, a, p);
        InObjectDiff(d, a, q);
        if p[0].name in a { ReportsArePrefixFree(d[p[0].name], a[p[0].name], p[1..], q[1..]); }
        assert p == [p[0]] + p[1..] && q == [q[0]] + q[1..];
      case (Arr(d), Arr(a)) =>
        InArrayDiff(d, a, p);
        InArrayDiff(d, a, q);
        ReportsArePrefixFree(d[p[0].i], a[p[0].i], p[1..], q[1..]);
        assert p == [p[0]] + p[1..] && q == [q[0]] + q[1..];
    }
  }

  lemma SetChildFrame(v: Value, s: Segment, child: Value, t: Segment)
    requires Fits(v, s)
    ensures Fits(SetChild(v, s, child), t) <==> Fits(v, t)
    ensures Fits(v, t) ==> Child(SetChild(v, s, child), t) == if t == s then Some(child) else Child(v, t)
  {
  }

  lemma SetChildCommutes(v: Value, s: Segment, x: Value, t: Segment, y: Value)
    requires Fits(v, s) && Fits(v, t) && s != t
    ensures SetChild(SetChild(v, s, x), t, y) == SetChild(SetChild(v, t, y), s, x)
  {
    if v.Obj? {
      assert v.fields[s.name := x][t.name := y] == v.fields[t.name := y][s.name := x];
    } else {
      assert v.items[s.i := x][t.i := y] == v.items[t.i := y][s.i := x];
    }
  }

  lemma SetChildTwice(v: Value, s: Segment, x: Value, y: Value)
    requires Fits(v, s)
    ensures SetChild(SetChild(v, s, x), s, y) == SetChild(v, s, y)
  {
  }

  /** A write that goes through segment `s`, seen from there: the child it leaves, if it leaves one. */
  function ChildAfter(v: Value, path: Path, value: Value): Option<Value>
    requires path != [] && Fits(v, path[0])
  {
    match Child(v, path[0])
    case Some(c) => Some(Write(c, path[1..], value))
    case None => if |path| == 1 then Some(value) else None
  }

  lemma WriteViaChild(v: Value, path: Path, value: Value)
    requires path != [] && Fits(v, path[0])
    ensures Write(v, path, value)
            == match ChildAfter(v, path, value) case Some(c) => SetChild(v, path[0], c) case None => v
  {
  }

  lemma WritesCommuteBothFit(v: Value, p: Path, x: Value, q: Path, y: Value)
    requires p != [] && q != [] && p[0] != q[0] && Fits(v, p[0]) && Fits(v, q[0])
    ensures Write(Write(v, p, x), q, y) == Write(Write(v, q, y), p, x)
  {
    WriteViaChild(v, p, x);
    WriteViaChild(v, q, y);
    match (ChildAfter(v, p, x), ChildAfter(v, q, y))
    case (Some(c), Some(e)) =>
      SetChildFrame(v, p[0], c, q[0]);
      SetChildFrame(v, q[0], e, p[0]);
      WriteViaChild(SetChild(v, p[0], c), q, y);
      WriteViaChild(SetChild(v, q[0], e), p, x);
      SetChildCommutes(v, p[0], c, q[0], e);
    case (Some(c), None) =>
      SetChildFrame(v, p[0], c, q[0]);
    case (None, Some(e)) =>
      SetChildFrame(v, q[0], e, p[0]);
    case _ =>
  }

  lemma WriteKeepsMisfit(v: Value, p: Path, x: Value, q: Path, y: Value)
    requires p != [] && q != [] && p[0] != q[0] && !Fits(v, q[0])
    ensures Write(Write(v, p, x), q, y) == Write(v, p, x)
  {
    if Fits(v, p[0]) && ChildAfter(v, p, x).Some? {
      SetChildFrame(v, p[0], ChildAfter(v, p, x).value, q[0]);
    }
  }

  lemma WritesCommuteApart(v: Value, p: Path, x: Value, q: Path, y: Value)
    requires p != [] && q != [] && p[0] != q[0]
    ensures Write(Write(v, p, x), q, y) == Write(Write(v, q, y), p, x)
  {
    if !Fits(v, q[0]) {
      WriteKeepsMisfit(v, p, x, q, y);
    } else if !Fits(v, p[0]) {
      WriteKeepsMisfit(v, q, y, p, x);
    } else {
      WritesCommuteBothFit(v, p, x, q, y);
    }
  }

  /** Two writes below the same child come to one replacement of that child. */
  lemma WriteTwiceBelow(v: Value, p: Path, x: Value, q: Path, y: Value)
    requires p != [] && q != [] && p[0] == q[0] && Fits(v, p[0]) && Child(v, p[0]).Some?
    ensures Write(Write(v, p, x), q, y)
            == SetChild(v, p[0], Write(Write(Child(v, p[0]).value, p[1..], x), q[1..], y))
  {
    var c := Write(Child(v, p[0]).value, p[1..], x);
    SetChildFrame(v, p[0], c, p[0]);
    SetChildTwice(v, p[0], c, Write(c, q[1..], y));
  }

  /** Writes at two paths, neither leading through the other, commute. */
  lemma {:induction false} WritesCommute(v: Value, p: Path, x: Value, q: Path, y: Value)
    requires !(p <= q) && !(q <= p)
    ensures Write(Write(v, p, x), q, y) == Write(Write(v, q, y), p, x)
    decreases |p|
  {
    var s := p[0];
    if s != q[0] {
      WritesCommuteApart(v, p, x, q, y);
    } else if Fits(v, s) && Child(v, s).Some? {
      TailsApart(p, q);
      WriteTwiceBelow(v, p, x, q, y);
      WriteTwiceBelow(v, q, y, p, x);
      WritesCommute(Child(v, s).value, p[1..], x, q[1..], y);
    } else if Fits(v, s) {
      TailsApart(p, q);
    }
  }

  lemma TailsApart(p: Path, q: Path)
    requires p != [] && q != [] && p[0] == q[0] && !(p <= q) && !(q <= p)
    ensures |p| > 1 && |q| > 1 && !(p[1..] <= q[1..]) && !(q[1..] <= p[1..])
  {
    assert p == [p[0]] + p[1..] && q == [q[0]] + q[1..];
  }

  lemma RepairsCommute(desired: Value, actual: Value, p: Path, q: Path)
    requires p in DiffPaths(desired, actual) && q in DiffPaths(desired, actual) && p != q
    ensures Repair(desired, actual, [p, q]) == Repair(desired, actual, [q, p])
  {
    if p <= q { ReportsArePrefixFree(desired, actual, p, q); }
    if q <= p { ReportsArePrefixFree(desired, actual, q, p); }
    ReportedPathExists(desired, actual, p);
    ReportedPathExists(desired, actual, q);
    var x, y := At(desired, p).value, At(desired, q).value;
    WritesCommute(actual, p, x, q, y);
    assert [p, q][1..] == [q] && [q, p][1..] == [p];
    assert Repair(desired, Write(actual, p, x), [q]) == Write(Write(actual, p, x), q, y);
    assert Repair(desired, Write(actual, q, y), [p]) == Write(Write(actual, q, y), p, x);
  }
}
