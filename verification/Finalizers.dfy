/** The cleanup finalizers of a Sonarr, Radarr or Lidarr app: added while it lives and a sync exists,
    dropped while it is being deleted, each only after its own cleanup. The object is written with
    JSON merge patches, which replace a list as a whole (section 2 of RFC 7396). */
module Finalizers {
  import opened Common

  /** The two cleanup finalizers, and any other string. */
  datatype Finalizer = ProwlarrSync | SeerrSync | Other(text: string) {
    function Text(): string {
      match this
      case ProwlarrSync => "servarr.dev/prowlarr-sync"
      case SeerrSync => "servarr.dev/overseerr-sync"
      case Other(text) => text
    }
  }

  /** A list entry read from the API server: an `Other` is none of the two. */
  predicate Proper(f: Finalizer) {
    f.Other? ==> f.text != ProwlarrSync.Text() && f.text != SeerrSync.Text()
  }

  /** Comparing finalizers is comparing their strings. */
  lemma EqualIffSameText(f: Finalizer, g: Finalizer)
    requires Proper(f) && Proper(g)
    ensures f == g <==> f.Text() == g.Text()
  {
    assert ProwlarrSync.Text()[12] != SeerrSync.Text()[12];
  }

  predicate IsCleanup(f: Finalizer) {
    f == ProwlarrSync || f == SeerrSync
  }

  datatype Result = AwaitChange | CleanupPending | KubeError | Continue

  // ---- The object in the API server ----

  /** `patches` counts the patches sent. */
  datatype Object = Object(finalizers: seq<Finalizer>, patches: nat)

  function Patched(o: Object, fate: Fate, finalizers: seq<Finalizer>): Object {
    Object(if fate.Applied() then finalizers else o.finalizers, o.patches + 1)
  }

  class ApiObject {
    const fates: Fates
    var finalizers: seq<Finalizer>
    var patches: nat

    constructor (fates: Fates, finalizers: seq<Finalizer>)
      ensures this.fates == fates && State() == Object(finalizers, 0)
    {
      this.fates := fates;
      this.finalizers, patches := finalizers, 0;
    }

    function State(): Object
      reads this
    {
      Object(finalizers, patches)
    }

    method MergePatch(finalizers: seq<Finalizer>) returns (ok: bool)
      modifies this
      ensures State() == Patched(old(State()), fates(old(patches)), finalizers)
      ensures ok == fates(old(patches)).Acknowledged?
    {
      var fate := fates(patches);
      patches := patches + 1;
      if fate.Applied() {
        this.finalizers := finalizers;
      }
      ok := fate.Acknowledged?;
    }
  }

  // ---- A reconcile of an app being deleted ----

  predicate Cleaned(f: Finalizer, prowlarrOk: bool, seerrOk: bool) {
    (prowlarrOk && f == ProwlarrSync) || (seerrOk && f == SeerrSync)
  }

  /** The finalizers left when those whose cleanup succeeded are dropped. */
  function Remaining(finalizers: seq<Finalizer>, prowlarrOk: bool, seerrOk: bool): seq<Finalizer> {
    if finalizers == [] then []
    else if Cleaned(finalizers[0], prowlarrOk, seerrOk) then Remaining(finalizers[1..], prowlarrOk, seerrOk)
    else [finalizers[0]] + Remaining(finalizers[1..], prowlarrOk, seerrOk)
  }

  predicate StillPending(finalizers: seq<Finalizer>) {
    exists f :: f in finalizers && IsCleanup(f)
  }

  function Delete(o: Object, fates: Fates, prowlarrOk: bool, seerrOk: bool): (Object, Result) {
    var remaining := Remaining(o.finalizers, prowlarrOk, seerrOk);
    var result := if StillPending(remaining) then CleanupPending else AwaitChange;
    if remaining == o.finalizers then (o, result)
    else (Patched(o, fates(o.patches), remaining), if fates(o.patches).Acknowledged? then result else KubeError)
  }

  lemma {:induction false} RemainingAppend(s: seq<Finalizer>, f: Finalizer, prowlarrOk: bool, seerrOk: bool)
    ensures Remaining(s + [f], prowlarrOk, seerrOk)
            == Remaining(s, prowlarrOk, seerrOk) + if Cleaned(f, prowlarrOk, seerrOk) then [] else [f]
  {
    if s == [] {
      assert s + [f] == [f] && [f][1..] == [];
    } else {
      assert (s + [f])[0] == s[0] && (s + [f])[1..] == s[1..] + [f];
      RemainingAppend(s[1..], f, prowlarrOk, seerrOk);
    }
  }

  method Retain(snapshot: seq<Finalizer>, prowlarrOk: bool, seerrOk: bool) returns (remaining: seq<Finalizer>)
    ensures remaining == Remaining(snapshot, prowlarrOk, seerrOk)
  {
    remaining := [];
    for i := 0 to |snapshot|
      invariant remaining == Remaining(snapshot[..i], prowlarrOk, seerrOk)
    {
      assert snapshot[..i + 1] == snapshot[..i] + [snapshot[i]];
      RemainingAppend(snapshot[..i], snapshot[i], prowlarrOk, seerrOk);
      if !Cleaned(snapshot[i], prowlarrOk, seerrOk) {
        remaining := remaining + [snapshot[i]];
      }
    }
    assert snapshot[..|snapshot|] == snapshot;
  }

  /** The snapshot is the object as it was when the reconcile began. */
  method ReconcileDeleting(target: ApiObject, prowlarrOk: bool, seerrOk: bool) returns (result: Result)
    modifies target
    ensures (target.State(), result) == Delete(old(target.State()), target.fates, prowlarrOk, seerrOk)
  {
    var snapshot := target.finalizers;
    var remaining := Retain(snapshot, prowlarrOk, seerrOk);
    if remaining != snapshot {
      var ok := target.MergePatch(remaining);
      if !ok {
        return KubeError;
      }
    }
    return if StillPending(remaining) then CleanupPending else AwaitChange;
  }

  // ---- A reconcile of a living app ----

  function Keep(o: Object, fates: Fates, prowlarrSync: bool, seerrSync: bool): (Object, Result) {
    var snapshot := o.finalizers;
    var patchProwlarr := ProwlarrSync !in snapshot && prowlarrSync;
    var o1 := if patchProwlarr then Patched(o, fates(o.patches), snapshot + [ProwlarrSync]) else o;
    if patchProwlarr && !fates(o.patches).Acknowledged? then (o1, KubeError) else
    var patchSeerr := SeerrSync !in snapshot && seerrSync;
    var o2 := if patchSeerr then Patched(o1, fates(o1.patches), snapshot + [SeerrSync]) else o1;
    if patchSeerr && !fates(o1.patches).Acknowledged? then (o2, KubeError) else
    (o2, Continue)
  }

  /** Both patches are built from the one snapshot taken when the reconcile began. */
  method ReconcileLiving(target: ApiObject, prowlarrSync: bool, seerrSync: bool) returns (result: Result)
    modifies target
    ensures (target.State(), result) == Keep(old(target.State()), target.fates, prowlarrSync, seerrSync)
  {
    var snapshot := target.finalizers;
    if ProwlarrSync !in snapshot && prowlarrSync {
      var finalizers := snapshot;
      finalizers := finalizers + [ProwlarrSync];
      var ok := target.MergePatch(finalizers);
      if !ok {
        return KubeError;
      }
    }
    if SeerrSync !in snapshot && seerrSync {
      var finalizers := snapshot;
      finalizers := finalizers + [SeerrSync];
      var ok := target.MergePatch(finalizers);
      if !ok {
        return KubeError;
      }
    }
    return Continue;
  }

  // ---- What a deleting run promises ----

  /** The finalizers that belong to others, in order. */
  function Foreign(finalizers: seq<Finalizer>): seq<Finalizer> {
    if finalizers == [] then []
    else if IsCleanup(finalizers[0]) then Foreign(finalizers[1..])
    else [finalizers[0]] + Foreign(finalizers[1..])
  }

  lemma {:induction false} RemainingMembers(finalizers: seq<Finalizer>, prowlarrOk: bool, seerrOk: bool)
    ensures var r := Remaining(finalizers, prowlarrOk, seerrOk);
            && |r| <= |finalizers|
            && Foreign(r) == Foreign(finalizers)
            && (forall f :: f in r <==>
                  f in finalizers && !Cleaned(f, prowlarrOk, seerrOk))
  {
    if finalizers != [] {
      var rest := Remaining(finalizers[1..], prowlarrOk, seerrOk);
      RemainingMembers(finalizers[1..], prowlarrOk, seerrOk);
      assert finalizers == [finalizers[0]] + finalizers[1..];
      assert ([finalizers[0]] + rest)[1..] == rest;
    }
  }

  /** One reconcile of a deleting app. */
  lemma DeleteStep(o: Object, fates: Fates, prowlarrOk: bool, seerrOk: bool)
    ensures var (o', result) := Delete(o, fates, prowlarrOk, seerrOk);
            && Foreign(o'.finalizers) == Foreign(o.finalizers)
            && (forall f :: f in o'.finalizers ==> f in o.finalizers)
            && (ProwlarrSync in o.finalizers && ProwlarrSync !in o'.finalizers ==> prowlarrOk)
            && (SeerrSync in o.finalizers && SeerrSync !in o'.finalizers ==> seerrOk)
            && (o'.patches == o.patches ==> o' == o)
            && (o'.patches > o.patches ==> Remaining(o.finalizers, prowlarrOk, seerrOk) != o.finalizers)
            && (result != KubeError ==>
                  && o'.finalizers == Remaining(o.finalizers, prowlarrOk, seerrOk)
                  && (result == CleanupPending <==> exists f :: f in o'.finalizers && IsCleanup(f)))
            && (prowlarrOk && seerrOk && result != KubeError ==> result == AwaitChange)
  {
    RemainingMembers(o.finalizers, prowlarrOk, seerrOk);
  }

  /** Some finalizer of the list is dropped: its own cleanup succeeded. */
  ghost predicate AnyCleaned(finalizers: seq<Finalizer>, prowlarrOk: bool, seerrOk: bool) {
    (prowlarrOk && ProwlarrSync in finalizers) || (seerrOk && SeerrSync in finalizers)
  }

  lemma RemainingSameIff(finalizers: seq<Finalizer>, prowlarrOk: bool, seerrOk: bool)
    ensures Remaining(finalizers, prowlarrOk, seerrOk) == finalizers
            <==> !AnyCleaned(finalizers, prowlarrOk, seerrOk)
  {
    RemainingMembers(finalizers, prowlarrOk, seerrOk);
    if !AnyCleaned(finalizers, prowlarrOk, seerrOk) {
      RemainingAll(finalizers, prowlarrOk, seerrOk);
    }
  }

  /** One reconcile of a deleting app sends exactly one patch if the list holds a finalizer whose
      cleanup succeeded, and none otherwise; it fails exactly when that patch is not acknowledged; and
      when the patch is applied, exactly those finalizers are gone. */
  lemma DeleteDrops(o: Object, fates: Fates, prowlarrOk: bool, seerrOk: bool)
    ensures var (o', result) := Delete(o, fates, prowlarrOk, seerrOk);
            var any := AnyCleaned(o.finalizers, prowlarrOk, seerrOk);
            && o'.patches == o.patches + (if any then 1 else 0)
            && (result == KubeError <==> any && fates(o.patches) != Acknowledged)
            && (fates(o.patches) == NotApplied ==> o'.finalizers == o.finalizers)
            && (fates(o.patches) != NotApplied ==>
                  && (ProwlarrSync in o'.finalizers <==> ProwlarrSync in o.finalizers && !prowlarrOk)
                  && (SeerrSync in o'.finalizers <==> SeerrSync in o.finalizers && !seerrOk))
            && (result == AwaitChange || result == CleanupPending || result == KubeError)
  {
    RemainingMembers(o.finalizers, prowlarrOk, seerrOk);
    RemainingSameIff(o.finalizers, prowlarrOk, seerrOk);
  }

  datatype Cleanup = Cleanup(prowlarrOk: bool, seerrOk: bool)

  ghost function DeletingRun(o: Object, fates: Fates, run: seq<Cleanup>): Object
    decreases |run|
  {
    if run == [] then o
    else DeletingRun(Delete(o, fates, run[0].prowlarrOk, run[0].seerrOk).0, fates, run[1..])
  }

  /** What the reconcile after the first `i` of the run does, and how it ends. */
  ghost function NthDelete(o: Object, fates: Fates, run: seq<Cleanup>, i: nat): (Object, Result)
    requires i < |run|
  {
    Delete(DeletingRun(o, fates, run[..i]), fates, run[i].prowlarrOk, run[i].seerrOk)
  }

  lemma {:induction false} DeletingRunGrows(o: Object, fates: Fates, run: seq<Cleanup>, i: nat)
    requires i < |run|
    ensures DeletingRun(o, fates, run[..i + 1]) == NthDelete(o, fates, run, i).0
    decreases |run|
  {
    if i == 0 {
      assert run[..1] == [run[0]] && run[..0] == [];
      assert DeletingRun(o, fates, run[..1]) == DeletingRun(NthDelete(o, fates, run, 0).0, fates, []);
    } else {
      var o1 := Delete(o, fates, run[0].prowlarrOk, run[0].seerrOk).0;
      assert run[..i + 1][1..] == run[1..][..i] && run[..i][1..] == run[1..][..i - 1];
      DeletingRunGrows(o1, fates, run[1..], i - 1);
    }
  }

  /** In the reconcile after the first `i` of the run, finalizer `f` leaves the list. */
  ghost predicate Leaves(o: Object, fates: Fates, run: seq<Cleanup>, i: nat, f: Finalizer) {
    && i < |run|
    && f in DeletingRun(o, fates, run[..i]).finalizers && f !in DeletingRun(o, fates, run[..i + 1]).finalizers
  }

  /** Over any run of a deleting app and any patch failures, in every reconcile of it: the others'
      finalizers keep their values and order; a finalizer leaves only with the success of its own
      cleanup in that very reconcile; no patch means no change, and a patch is sent only for a list
      that changes; and unless the patch failed, CleanupPending is returned exactly when a cleanup
      finalizer remains. */
  lemma DeletingRunIsSafe(o: Object, fates: Fates, run: seq<Cleanup>, i: nat)
    requires i < |run|
    ensures var before, after := DeletingRun(o, fates, run[..i]), DeletingRun(o, fates, run[..i + 1]);
            var result := NthDelete(o, fates, run, i).1;
            && Foreign(after.finalizers) == Foreign(before.finalizers) == Foreign(o.finalizers)
            && (forall f :: Leaves(o, fates, run, i, f) ==> Cleaned(f, run[i].prowlarrOk, run[i].seerrOk))
            && (forall f :: f in after.finalizers ==> f in before.finalizers)
            && (after.patches == before.patches ==> after == before)
            && (after.patches > before.patches ==>
                  exists f :: f in before.finalizers && Cleaned(f, run[i].prowlarrOk, run[i].seerrOk))
            && (result != KubeError ==> (result == CleanupPending <==> StillPending(after.finalizers)))
  {
    DeletingRunGrows(o, fates, run, i);
    DeletingRunKeepsForeign(o, fates, run[..i]);
    var before := DeletingRun(o, fates, run[..i]);
    DeleteStep(before, fates, run[i].prowlarrOk, run[i].seerrOk);
    RemainingMembers(before.finalizers, run[i].prowlarrOk, run[i].seerrOk);
    if forall f :: f in before.finalizers ==> !Cleaned(f, run[i].prowlarrOk, run[i].seerrOk) {
      RemainingAll(before.finalizers, run[i].prowlarrOk, run[i].seerrOk);
    }
  }

  lemma {:induction false} RemainingAll(finalizers: seq<Finalizer>, prowlarrOk: bool, seerrOk: bool)
    requires forall f :: f in finalizers ==> !Cleaned(f, prowlarrOk, seerrOk)
    ensures Remaining(finalizers, prowlarrOk, seerrOk) == finalizers
  {
    if finalizers != [] {
      RemainingAll(finalizers[1..], prowlarrOk, seerrOk);
    }
  }

  lemma {:induction false} DeletingRunKeepsForeign(o: Object, fates: Fates, run: seq<Cleanup>)
    ensures Foreign(DeletingRun(o, fates, run).finalizers) == Foreign(o.finalizers)
    decreases |run|
  {
    if run != [] {
      DeleteStep(o, fates, run[0].prowlarrOk, run[0].seerrOk);
      DeletingRunKeepsForeign(Delete(o, fates, run[0].prowlarrOk, run[0].seerrOk).0, fates, run[1..]);
    }
  }

  /** A finalizer that is gone after a run left in one of its reconciles, with its own cleanup. */
  lemma {:induction false} GoneMeansCleaned(o: Object, fates: Fates, run: seq<Cleanup>, f: Finalizer)
    requires f in o.finalizers && f !in DeletingRun(o, fates, run).finalizers
    ensures exists i: nat :: Leaves(o, fates, run, i, f) && Cleaned(f, run[i].prowlarrOk, run[i].seerrOk)
    decreases |run|
  {
    assert run != [];
    var n := |run| - 1;
    assert run[..n + 1] == run;
    if f in DeletingRun(o, fates, run[..n]).finalizers {
      assert Leaves(o, fates, run, n, f);
      DeletingRunIsSafe(o, fates, run, n);
    } else {
      GoneMeansCleaned(o, fates, run[..n], f);
      var i: nat :| Leaves(o, fates, run[..n], i, f) && Cleaned(f, run[..n][i].prowlarrOk, run[..n][i].seerrOk);
      assert run[..n][..i] == run[..i] && run[..n][..i + 1] == run[..i + 1];
      assert Leaves(o, fates, run, i, f);
    }
  }

  lemma {:induction false} GoneStaysGone(o: Object, fates: Fates, run: seq<Cleanup>, f: Finalizer)
    requires f !in o.finalizers
    ensures f !in DeletingRun(o, fates, run).finalizers
    decreases |run|
  {
    if run != [] {
      DeleteStep(o, fates, run[0].prowlarrOk, run[0].seerrOk);
      GoneStaysGone(Delete(o, fates, run[0].prowlarrOk, run[0].seerrOk).0, fates, run[1..], f);
    }
  }

  lemma {:induction false} DeletingRunsJoin(o: Object, fates: Fates, first: seq<Cleanup>, second: seq<Cleanup>)
    ensures DeletingRun(o, fates, first + second) == DeletingRun(DeletingRun(o, fates, first), fates, second)
    decreases |first|
  {
    if first == [] {
      assert first + second == second;
    } else {
      assert (first + second)[1..] == first[1..] + second;
      DeletingRunsJoin(Delete(o, fates, first[0].prowlarrOk, first[0].seerrOk).0, fates, first[1..], second);
    }
  }

  /** A cleanup finalizer is gone after a run if its cleanup succeeds in one of the reconciles and the
      patch that this reconcile would send is applied. */
  lemma CleanedIsGone(o: Object, fates: Fates, run: seq<Cleanup>, i: nat)
    requires i < |run| && fates(DeletingRun(o, fates, run[..i]).patches) != NotApplied
    ensures run[i].prowlarrOk ==> ProwlarrSync !in DeletingRun(o, fates, run).finalizers
    ensures run[i].seerrOk ==> SeerrSync !in DeletingRun(o, fates, run).finalizers
  {
    var before, after := DeletingRun(o, fates, run[..i]), DeletingRun(o, fates, run[..i + 1]);
    DeletingRunGrows(o, fates, run, i);
    DeleteDrops(before, fates, run[i].prowlarrOk, run[i].seerrOk);
    assert run == run[..i + 1] + run[i + 1..];
    DeletingRunsJoin(o, fates, run[..i + 1], run[i + 1..]);
    if run[i].prowlarrOk { GoneStaysGone(after, fates, run[i + 1..], ProwlarrSync); }
    if run[i].seerrOk { GoneStaysGone(after, fates, run[i + 1..], SeerrSync); }
  }

  // ---- What a living run promises ----

  function Occurrences(finalizers: seq<Finalizer>, f: Finalizer): nat {
    multiset(finalizers)[f]
  }

  lemma {:induction false} ForeignAppend(finalizers: seq<Finalizer>, f: Finalizer)
    requires IsCleanup(f)
    ensures Foreign(finalizers + [f]) == Foreign(finalizers)
  {
    if finalizers == [] {
      assert finalizers + [f] == [f];
    } else {
      assert finalizers + [f] == [finalizers[0]] + (finalizers[1..] + [f]);
      ForeignAppend(finalizers[1..], f);
    }
  }

  /** Each cleanup finalizer at most once. */
  ghost predicate Tidy(finalizers: seq<Finalizer>) {
    Occurrences(finalizers, ProwlarrSync) <= 1 && Occurrences(finalizers, SeerrSync) <= 1
  }

  lemma AppendCleanup(finalizers: seq<Finalizer>, f: Finalizer)
    requires IsCleanup(f) && f !in finalizers && Tidy(finalizers)
    ensures Tidy(finalizers + [f]) && Foreign(finalizers + [f]) == Foreign(finalizers)
    ensures forall g :: Occurrences(finalizers + [f], g) == Occurrences(finalizers, g) + if g == f then 1 else 0
  {
    ForeignAppend(finalizers, f);
    assert f !in multiset(finalizers);
  }

  lemma PresentOnce(finalizers: seq<Finalizer>, f: Finalizer)
    ensures f in finalizers <==> Occurrences(finalizers, f) > 0
  {
    assert f in finalizers <==> f in multiset(finalizers);
  }

  /** A reconcile leaves the snapshot, or the snapshot with one missing cleanup finalizer appended. */
  ghost predicate Grown(before: seq<Finalizer>, after: seq<Finalizer>) {
    || after == before
    || (ProwlarrSync !in before && after == before + [ProwlarrSync])
    || (SeerrSync !in before && after == before + [SeerrSync])
  }

  lemma GrownIsSafe(before: seq<Finalizer>, after: seq<Finalizer>)
    requires Tidy(before) && Grown(before, after)
    ensures Tidy(after) && Foreign(after) == Foreign(before) && before <= after && |after| <= |before| + 1
  {
    if ProwlarrSync !in before { AppendCleanup(before, ProwlarrSync); }
    if SeerrSync !in before { AppendCleanup(before, SeerrSync); }
  }

  /** Under any failures a reconcile loses no finalizer that was there, disturbs no other finalizer,
      and never doubles one. */
  lemma LivingStep(o: Object, fates: Fates, prowlarrSync: bool, seerrSync: bool)
    requires Tidy(o.finalizers)
    ensures var o' := Keep(o, fates, prowlarrSync, seerrSync).0;
            && Tidy(o'.finalizers) && Foreign(o'.finalizers) == Foreign(o.finalizers)
            && o.finalizers <= o'.finalizers && |o'.finalizers| <= |o.finalizers| + 1
  {
    GrownIsSafe(o.finalizers, Keep(o, fates, prowlarrSync, seerrSync).0.finalizers);
  }

  /** The finalizers that a reconcile should add: those of the syncs it found. */
  ghost predicate Wanted(finalizers: seq<Finalizer>, f: Finalizer, prowlarrSync: bool, seerrSync: bool) {
    f !in finalizers && ((f == ProwlarrSync && prowlarrSync) || (f == SeerrSync && seerrSync))
  }

  /** A reconcile of a living app adds only finalizers of the syncs it found. It sends no patch when
      none is wanted; when one is, exactly one patch, which appends it if applied and fails the
      reconcile unless acknowledged; when both are, a second patch if the first was acknowledged. */
  lemma KeepAddsWanted(o: Object, fates: Fates, prowlarrSync: bool, seerrSync: bool)
    ensures var (o', result) := Keep(o, fates, prowlarrSync, seerrSync);
            var prowlarr := Wanted(o.finalizers, ProwlarrSync, prowlarrSync, seerrSync);
            var seerr := Wanted(o.finalizers, SeerrSync, prowlarrSync, seerrSync);
            && (forall f :: f in o'.finalizers ==>
                  f in o.finalizers || Wanted(o.finalizers, f, prowlarrSync, seerrSync))
            && (!prowlarr && !seerr ==> o' == o && result == Continue)
            && (prowlarr != seerr ==>
                  var f := if prowlarr then ProwlarrSync else SeerrSync;
                  && o'.patches == o.patches + 1
                  && o'.finalizers == o.finalizers + (if fates(o.patches) != NotApplied then [f] else [])
                  && result == (if fates(o.patches) == Acknowledged then Continue else KubeError))
            && (prowlarr && seerr ==>
                  && o'.patches == o.patches + (if fates(o.patches) == Acknowledged then 2 else 1)
                  && result == (if fates(o.patches) == Acknowledged && fates(o.patches + 1) == Acknowledged
                                then Continue else KubeError))
  {
    assert o.finalizers + [] == o.finalizers;
  }

  /** Which syncs a reconcile found. */
  datatype Syncs = Syncs(prowlarr: bool, seerr: bool)

  ghost function LivingRun(o: Object, fates: Fates, run: seq<Syncs>): Object
    decreases |run|
  {
    if run == [] then o
    else LivingRun(Keep(o, fates, run[0].prowlarr, run[0].seerr).0, fates, run[1..])
  }

  lemma {:induction false} LivingRunIsSafe(o: Object, fates: Fates, run: seq<Syncs>)
    requires Tidy(o.finalizers)
    ensures var o' := LivingRun(o, fates, run);
            Tidy(o'.finalizers) && Foreign(o'.finalizers) == Foreign(o.finalizers) && o.finalizers <= o'.finalizers
    decreases |run|
  {
    if run != [] {
      LivingStep(o, fates, run[0].prowlarr, run[0].seerr);
      LivingRunIsSafe(Keep(o, fates, run[0].prowlarr, run[0].seerr).0, fates, run[1..]);
    }
  }

  ghost predicate BothOnce(finalizers: seq<Finalizer>) {
    Occurrences(finalizers, ProwlarrSync) == 1 && Occurrences(finalizers, SeerrSync) == 1
  }

  /** How many of the two cleanup finalizers are missing. */
  function Missing(finalizers: seq<Finalizer>): nat {
    (if ProwlarrSync in finalizers then 0 else 1) + if SeerrSync in finalizers then 0 else 1
  }

  /** With both syncs present, whether a reconcile of this object gets anywhere. */
  predicate Effective(o: Object, fates: Fates) {
    Missing(o.finalizers) > 0 && fates(o.patches).Applied()
  }

  /** With both syncs present and under any failures, one reconcile installs exactly one missing
      finalizer if its first patch is applied, and otherwise none: the second patch is built from the
      old snapshot and can only put one addition in place of the other. */
  lemma KeepLowersMissing(o: Object, fates: Fates)
    ensures Missing(Keep(o, fates, true, true).0.finalizers)
            == Missing(o.finalizers) - if Effective(o, fates) then 1 else 0
  {
    assert forall f, g: Finalizer :: g in o.finalizers + [f] <==> g in o.finalizers || g == f;
  }

  ghost function KeepRun(o: Object, fates: Fates, n: nat): Object {
    if n == 0 then o else Keep(KeepRun(o, fates, n - 1), fates, true, true).0
  }

  /** How many of the first `n` reconciles are effective. */
  ghost function EffectiveCount(o: Object, fates: Fates, n: nat): nat {
    if n == 0 then 0
    else EffectiveCount(o, fates, n - 1) + if Effective(KeepRun(o, fates, n - 1), fates) then 1 else 0
  }

  /** Over any number of reconciles and under any failures, what is still missing and the effective
      reconciles add up to what was missing: never more than two are effective. */
  lemma {:induction false} RunInstallsMissing(o: Object, fates: Fates, n: nat)
    ensures Missing(KeepRun(o, fates, n).finalizers) + EffectiveCount(o, fates, n) == Missing(o.finalizers)
  {
    if n > 0 {
      RunInstallsMissing(o, fates, n - 1);
      KeepLowersMissing(KeepRun(o, fates, n - 1), fates);
    }
  }

  lemma BothOnceIff(finalizers: seq<Finalizer>)
    requires Tidy(finalizers)
    ensures BothOnce(finalizers) <==> Missing(finalizers) == 0
  {
    PresentOnce(finalizers, ProwlarrSync);
    PresentOnce(finalizers, SeerrSync);
  }

  /** With both syncs present and under any failures, one reconcile leaves both finalizers installed
      exactly when they were already, or one was and the patch for the other is applied. */
  lemma OneReconcileSufficesIff(o: Object, fates: Fates)
    requires Tidy(o.finalizers)
    ensures BothOnce(Keep(o, fates, true, true).0.finalizers)
            <==> Missing(o.finalizers) <= if fates(o.patches).Applied() then 1 else 0
  {
    LivingStep(o, fates, true, true);
    BothOnceIff(Keep(o, fates, true, true).0.finalizers);
    KeepLowersMissing(o, fates);
  }

  /** Two reconciles whose first patches are applied, acknowledged or not, always do, and a third sends
      no patch. */
  lemma TwoReconcilesSuffice(o: Object, fates: Fates)
    requires Tidy(o.finalizers)
    requires fates(o.patches).Applied() && fates(Keep(o, fates, true, true).0.patches).Applied()
    ensures var o1 := Keep(o, fates, true, true).0;
            var o2 := Keep(o1, fates, true, true).0;
            && BothOnce(o2.finalizers) && Foreign(o2.finalizers) == Foreign(o.finalizers)
            && Keep(o2, fates, true, true) == (o2, Continue)
  {
    var o1 := Keep(o, fates, true, true).0;
    LivingStep(o, fates, true, true);
    LivingStep(o1, fates, true, true);
    KeepLowersMissing(o, fates);
    KeepLowersMissing(o1, fates);
    BothOnceIff(Keep(o1, fates, true, true).0.finalizers);
  }

  /** A list that has neither, and both patches applied: one reconcile loses what the first patch
      added exactly when that patch was acknowledged, for only then the second is sent. */
  lemma OneReconcileLosesProwlarr(o: Object, fates: Fates)
    requires ProwlarrSync !in o.finalizers && SeerrSync !in o.finalizers
    requires fates(o.patches).Applied() && fates(o.patches + 1).Applied()
    ensures var (o', result) := Keep(o, fates, true, true);
            && (ProwlarrSync !in o'.finalizers <==> fates(o.patches).Acknowledged?)
            && (fates(o.patches).Acknowledged? ==> o' == Object(o.finalizers + [SeerrSync], o.patches + 2))
            && (!fates(o.patches).Acknowledged? ==>
                  o' == Object(o.finalizers + [ProwlarrSync], o.patches + 1) && result == KubeError)
  {
  }
}
