/** What the containment check means: it accepts exactly the trees an API server can turn the
    desired tree into, and it is transitive exactly from trees without zero-valued fields. */
module DriftRelation {
  import opened Json
  import opened Drift

  // ---- The API server's edits ----

  /** The two objects have the same field, or both none, at key `k`. */
  ghost predicate Agree(f: map<string, Value>, g: map<string, Value>, k: string) {
    (k in f <==> k in g) && (k in f ==> f[k] == g[k])
  }

  /** One edit at key `k`: a field the desired object lacks is added, changed or removed, a
      zero-valued desired field is omitted, or the field's value is edited further down. */
  ghost predicate EditAtKey(desired: Value, a: map<string, Value>, a': map<string, Value>, k: string)
    requires desired.Obj?
    decreases desired, 0
  {
    var d := desired.fields;
    && (forall l :: l != k ==> Agree(a, a', l))
    && (k in d && k in a ==> if k in a' then ServerEdit(d[k], a[k], a'[k]) else IsZeroValue(d[k]))
    && (k in d && k !in a ==> k !in a')
  }

  /** One edit of item `i`; the API server neither adds nor removes items. */
  ghost predicate EditAtIndex(desired: Value, a: seq<Value>, a': seq<Value>, i: int)
    requires desired.Arr? && |desired.items| == |a| == |a'|
    decreases desired, 0
  {
    && 0 <= i < |a|
    && (forall j :: 0 <= j < |a| && j != i ==> a'[j] == a[j])
    && ServerEdit(desired.items[i], a[i], a'[i])
  }

  ghost predicate ServerEdit(desired: Value, a: Value, a': Value)
    decreases desired, 1
  {
    match (desired, a, a')
    case (Obj(_), Obj(f), Obj(f')) => exists k :: EditAtKey(desired, f, f', k)
    case (Arr(d), Arr(s), Arr(s')) =>
      |d| == |s| == |s'| && exists i :: EditAtIndex(desired, s, s', i)
    case _ => a == a'
  }

  /** `n` edits lead from `a` to `a'`. */
  ghost predicate Edited(desired: Value, a: Value, a': Value, n: nat)
    decreases n
  {
    if n == 0 then a == a'
    else exists m :: ServerEdit(desired, a, m) && Edited(desired, m, a', n - 1)
  }

  ghost predicate ArisesFrom(desired: Value, actual: Value) {
    exists n :: Edited(desired, desired, actual, n)
  }

  lemma {:induction false} EditKeepsSubset(desired: Value, a: Value, a': Value)
    requires IsSubset(desired, a) && ServerEdit(desired, a, a')
    ensures IsSubset(desired, a')
  {
    match (desired, a, a')
    case (Obj(d), Obj(f), Obj(f')) =>
      var k :| EditAtKey(desired, f, f', k);
      if k in d && k in f && k in f' { EditKeepsSubset(d[k], f[k], f'[k]); }
      forall l | l in d && l != k ensures if l in f' then IsSubset(d[l], f'[l]) else IsZeroValue(d[l]) {
        assert Agree(f, f', l);
      }
    case (Arr(d), Arr(s), Arr(s')) =>
      var i :| EditAtIndex(desired, s, s', i);
      EditKeepsSubset(d[i], s[i], s'[i]);
    case _ =>
  }

  lemma {:induction false} EditsKeepSubset(desired: Value, a: Value, a': Value, n: nat)
    requires IsSubset(desired, a) && Edited(desired, a, a', n)
    ensures IsSubset(desired, a')
    decreases n
  {
    if n > 0 {
      var m :| ServerEdit(desired, a, m) && Edited(desired, m, a', n - 1);
      EditKeepsSubset(desired, a, m);
      EditsKeepSubset(desired, m, a', n - 1);
    }
  }

  lemma {:induction false} EditsCompose(desired: Value, a: Value, b: Value, c: Value, m: nat, n: nat)
    requires Edited(desired, a, b, m) && Edited(desired, b, c, n)
    ensures Edited(desired, a, c, m + n)
    decreases m
  {
    if m > 0 {
      var a' :| ServerEdit(desired, a, a') && Edited(desired, a', b, m - 1);
      EditsCompose(desired, a', b, c, m - 1, n);
    }
  }

  /** Edits below a key are edits of the object. */
  lemma {:induction false} LiftToKey(desired: Value, f: map<string, Value>, k: string, x: Value, y: Value, n: nat)
    requires desired.Obj? && k in desired.fields && Edited(desired.fields[k], x, y, n)
    ensures Edited(desired, Obj(f[k := x]), Obj(f[k := y]), n)
    decreases n
  {
    if n > 0 {
      var m :| ServerEdit(desired.fields[k], x, m) && Edited(desired.fields[k], m, y, n - 1);
      LiftToKey(desired, f, k, m, y, n - 1);
      assert EditAtKey(desired, f[k := x], f[k := m], k);
      assert ServerEdit(desired, Obj(f[k := x]), Obj(f[k := m]));
    }
  }

  /** Edits below an index are edits of the array. */
  lemma {:induction false} LiftToIndex(desired: Value, s: seq<Value>, i: nat, x: Value, y: Value, n: nat)
    requires desired.Arr? && i < |desired.items| == |s| && Edited(desired.items[i], x, y, n)
    ensures Edited(desired, Arr(s[i := x]), Arr(s[i := y]), n)
    decreases n
  {
    if n > 0 {
      var m :| ServerEdit(desired.items[i], x, m) && Edited(desired.items[i], m, y, n - 1);
      LiftToIndex(desired, s, i, m, y, n - 1);
      assert EditAtIndex(desired, s[i := x], s[i := m], i);
      assert ServerEdit(desired, Arr(s[i := x]), Arr(s[i := m]));
    }
  }

  lemma {:induction false} SubsetArises(desired: Value, actual: Value)
    requires IsSubset(desired, actual)
    ensures ArisesFrom(desired, actual)
    decreases desired, 1
  {
    if desired.Obj? && actual.Obj? {
      var n := EditKeys(desired, desired.fields, actual.fields, desired.fields.Keys + actual.fields.Keys);
    } else if desired.Arr? && actual.Arr? {
      var n := EditItems(desired, desired.items, actual.items, 0);
    } else {
      assert Edited(desired, desired, actual, 0);
    }
  }

  lemma AgreeEverywhere(f: map<string, Value>, a: map<string, Value>)
    requires forall k :: Agree(f, a, k)
    ensures f == a
  {
    forall k ensures k in f <==> k in a { assert Agree(f, a, k); }
    forall k | k in f ensures f[k] == a[k] { assert Agree(f, a, k); }
  }

  /** Edits turn `f` into `a` when the two agree outside `todo` and `f` is still as desired inside. */
  lemma {:induction false} EditKeys(desired: Value, f: map<string, Value>, a: map<string, Value>, todo: set<string>)
      returns (n: nat)
    requires desired.Obj? && IsSubset(desired, Obj(a)) && todo <= desired.fields.Keys + a.Keys
    requires forall k :: if k in todo then Agree(f, desired.fields, k) else Agree(f, a, k)
    ensures Edited(desired, Obj(f), Obj(a), n)
    decreases desired, 0, |todo| + 1
  {
    if todo == {} {
      AgreeEverywhere(f, a);
      return 0;
    }
    var k :| k in todo;
    var f' := if k in a then f[k := a[k]] else f - {k};
    assert forall l :: l != k ==> (Agree(f, desired.fields, l) ==> Agree(f', desired.fields, l))
                                  && (Agree(f, a, l) ==> Agree(f', a, l));
    assert Agree(f', a, k);
    var first := EditKey(desired, f, a, k);
    var rest := EditKeys(desired, f', a, todo - {k});
    EditsCompose(desired, Obj(f), Obj(f'), Obj(a), first, rest);
    n := first + rest;
  }

  /** Edits bring key `k` from its desired to its actual state. */
  lemma {:induction false} EditKey(desired: Value, f: map<string, Value>, a: map<string, Value>, k: string)
      returns (n: nat)
    requires desired.Obj? && IsSubset(desired, Obj(a)) && k in desired.fields.Keys + a.Keys
    requires Agree(f, desired.fields, k)
    ensures Edited(desired, Obj(f), Obj(if k in a then f[k := a[k]] else f - {k}), n)
    decreases desired, 0, 0
  {
    var d := desired.fields;
    if k in d && k in a {
      SubsetArises(d[k], a[k]);
      n :| Edited(d[k], d[k], a[k], n);
      LiftToKey(desired, f, k, d[k], a[k], n);
      assert f[k := d[k]] == f;
    } else {
      var f' := if k in a then f[k := a[k]] else f - {k};
      assert EditAtKey(desired, f, f', k);
      assert ServerEdit(desired, Obj(f), Obj(f')) && Edited(desired, Obj(f'), Obj(f'), 0);
      n := 1;
    }
  }

  /** Edits turn `s` into `a` when `s` agrees with `a` before index `i` and is as desired from there on. */
  lemma {:induction false} EditItems(desired: Value, s: seq<Value>, a: seq<Value>, i: nat) returns (n: nat)
    requires desired.Arr? && |desired.items| == |s| == |a| && i <= |a|
    requires s[..i] == a[..i] && s[i..] == desired.items[i..]
    requires forall j :: i <= j < |a| ==> IsSubset(desired.items[j], a[j])
    ensures Edited(desired, Arr(s), Arr(a), n)
    decreases desired, 0, |a| - i + 1
  {
    if i == |a| {
      assert s == s[..i] && a == a[..i];
      return 0;
    }
    assert s[i] == s[i..][0] == desired.items[i];
    var s' := s[i := a[i]];
    assert s'[..i + 1] == s[..i] + [a[i]] == a[..i + 1];
    assert s'[i + 1..] == s[i..][1..] == desired.items[i + 1..];
    var first := EditItem(desired, s, i, a[i]);
    var rest := EditItems(desired, s', a, i + 1);
    EditsCompose(desired, Arr(s), Arr(s'), Arr(a), first, rest);
    n := first + rest;
  }

  /** Edits bring item `i` from its desired to its actual state. */
  lemma {:induction false} EditItem(desired: Value, s: seq<Value>, i: nat, v: Value) returns (n: nat)
    requires desired.Arr? && i < |desired.items| == |s|
    requires s[i] == desired.items[i] && IsSubset(s[i], v)
    ensures Edited(desired, Arr(s), Arr(s[i := v]), n)
    decreases desired, 0, 0
  {
    SubsetArises(s[i], v);
    n :| Edited(s[i], s[i], v, n);
    LiftToIndex(desired, s, i, s[i], v, n);
    assert s[i := s[i]] == s;
  }

  /** No drift is reported exactly for the trees that server edits make out of the desired one. */
  lemma SubsetIffArises(desired: Value, actual: Value)
    ensures IsSubset(desired, actual) <==> ArisesFrom(desired, actual)
  {
    if IsSubset(desired, actual) {
      SubsetArises(desired, actual);
    }
    if ArisesFrom(desired, actual) {
      var n :| Edited(desired, desired, actual, n);
      SubsetReflexive(desired);
      EditsKeepSubset(desired, desired, actual, n);
    }
  }

  // ---- Transitivity ----

  /** No object anywhere in the tree has a zero-valued field. */
  ghost predicate NoZeroField(v: Value) {
    match v
    case Obj(f) => forall k :: k in f ==> !IsZeroValue(f[k]) && NoZeroField(f[k])
    case Arr(s) => forall i :: 0 <= i < |s| ==> NoZeroField(s[i])
    case _ => true
  }

  lemma {:induction false} SubsetTransitive(x: Value, y: Value, z: Value)
    requires NoZeroField(x) && IsSubset(x, y) && IsSubset(y, z)
    ensures IsSubset(x, z)
  {
    match (x, y, z)
    case (Obj(f), Obj(g), Obj(h)) =>
      forall k | k in f ensures k in h && IsSubset(f[k], h[k]) {
        assert k in g && IsSubset(f[k], g[k]) && !IsZeroValue(f[k]);
        assert !IsZeroValue(g[k]);
        SubsetTransitive(f[k], g[k], h[k]);
      }
    case (Arr(s), Arr(t), Arr(u)) =>
      forall i | 0 <= i < |s| ensures IsSubset(s[i], u[i]) {
        SubsetTransitive(s[i], t[i], u[i]);
      }
    case _ =>
  }

  lemma SubsetAtKey(f: map<string, Value>, k: string, v: Value)
    requires k in f
    ensures IsSubset(Obj(f), Obj(f[k := v])) <==> IsSubset(f[k], v)
    ensures IsZeroValue(f[k]) ==> IsSubset(Obj(f), Obj(f - {k})) && IsSubset(Obj(f - {k}), Obj(f[k := v]))
  {
    forall l | l in f ensures IsSubset(f[l], f[l]) { SubsetReflexive(f[l]); }
  }

  lemma SubsetAtIndex(s: seq<Value>, i: nat, v: Value)
    requires i < |s|
    ensures IsSubset(Arr(s), Arr(s[i := v])) <==> IsSubset(s[i], v)
  {
    forall j | 0 <= j < |s| ensures IsSubset(s[j], s[j]) { SubsetReflexive(s[j]); }
  }

  ghost predicate Broken(x: Value, y: Value, z: Value) {
    IsSubset(x, y) && IsSubset(y, z) && !IsSubset(x, z)
  }

  lemma BrokenAtKey(f: map<string, Value>, k: string, v: Value, w: Value)
    requires k in f && Broken(f[k], v, w)
    ensures Broken(Obj(f), Obj(f[k := v]), Obj(f[k := w]))
  {
    SubsetAtKey(f, k, v);
    SubsetAtKey(f, k, w);
    SubsetAtKey(f[k := v], k, w);
    assert f[k := v][k := w] == f[k := w];
  }

  lemma BrokenAtIndex(s: seq<Value>, i: nat, v: Value, w: Value)
    requires i < |s| && Broken(s[i], v, w)
    ensures Broken(Arr(s), Arr(s[i := v]), Arr(s[i := w]))
  {
    SubsetAtIndex(s, i, v);
    SubsetAtIndex(s, i, w);
    SubsetAtIndex(s[i := v], i, w);
    assert s[i := v][i := w] == s[i := w];
  }

  /** From any tree with a zero-valued field hangs a broken chain. */
  lemma {:induction false} BrokenChain(x: Value) returns (y: Value, z: Value)
    requires !NoZeroField(x)
    ensures Broken(x, y, z)
  {
    if x.Obj? {
      var f := x.fields;
      var k :| k in f && (IsZeroValue(f[k]) || !NoZeroField(f[k]));
      if IsZeroValue(f[k]) {
        y, z := Obj(f - {k}), Obj(f[k := Str("drift")]);
        SubsetAtKey(f, k, Str("drift"));
      } else {
        var v, w := BrokenChain(f[k]);
        y, z := Obj(f[k := v]), Obj(f[k := w]);
        BrokenAtKey(f, k, v, w);
      }
    } else {
      var i :| 0 <= i < |x.items| && !NoZeroField(x.items[i]);
      var v, w := BrokenChain(x.items[i]);
      y, z := Arr(x.items[i := v]), Arr(x.items[i := w]);
      BrokenAtIndex(x.items, i, v, w);
    }
  }

  ghost predicate TransitiveFrom(x: Value) {
    forall y, z :: IsSubset(x, y) && IsSubset(y, z) ==> IsSubset(x, z)
  }

  lemma TransitiveIffNoZeroField(x: Value)
    ensures TransitiveFrom(x) <==> NoZeroField(x)
  {
    if NoZeroField(x) {
      forall y, z | IsSubset(x, y) && IsSubset(y, z) ensures IsSubset(x, z) {
        SubsetTransitive(x, y, z);
      }
    } else {
      var y, z := BrokenChain(x);
    }
  }
}
