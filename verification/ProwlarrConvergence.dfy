/** What the Prowlarr pass promises: it converges call by call, and it leaves alone what it must. */
module ProwlarrConvergence {
  import opened Common
  import opened Json
  import opened Discovery
  import opened ProwlarrTypes
  import opened ProwlarrSync

  // ---- The potential: how far a registry is from the discovered apps ----

  /** The app's URL is registered, and the last application there has the app's name. */
  ghost predicate Settled(apps: seq<ProwlarrApp>, a: DiscoveredApp) {
    LastByUrl(apps, a.BaseUrl()).Some? && LastByUrl(apps, a.BaseUrl()).value.name == a.name
  }

  /** Whether a discovered *arr app has its URL missing, or another name on the last application there. */
  ghost function Need(apps: seq<ProwlarrApp>, a: DiscoveredApp): nat {
    if IsArr(a) && !Settled(apps, a) then 1 else 0
  }

  ghost function Unsettled(apps: seq<ProwlarrApp>, discovered: seq<DiscoveredApp>): nat
    decreases |discovered|
  {
    if discovered == [] then 0
    else Need(apps, discovered[0]) + Unsettled(apps, discovered[1..])
  }

  ghost function StaleCount(apps: seq<ProwlarrApp>, synced: set<string>): nat {
    if apps == [] then 0
    else StaleCount(Init(apps), synced) + if Stale(Last(apps), synced) then 1 else 0
  }

  ghost function Potential(apps: seq<ProwlarrApp>, discovered: seq<DiscoveredApp>, autoRemove: bool): nat {
    Unsettled(apps, discovered) + if autoRemove then StaleCount(apps, SyncedUrls(discovered)) else 0
  }

  /** No two discovered *arr apps share a URL. Other kinds may share one with anything. */
  ghost predicate DistinctArrUrls(discovered: seq<DiscoveredApp>) {
    forall i, j :: 0 <= i < j < |discovered| && IsArr(discovered[i]) && IsArr(discovered[j])
                   ==> discovered[i].BaseUrl() != discovered[j].BaseUrl()
  }

  // ---- One call ----

  lemma {:induction false} ReplaceKeepsLast(apps: seq<ProwlarrApp>, id: int, app: ProwlarrApp, url: string)
    requires DistinctIds(apps) && app.BaseUrl() == Some(url)
    requires LastByUrl(apps, url).Some? && LastByUrl(apps, url).value.id == id
    ensures LastByUrl(Replace(apps, id, app), url) == Some(app)
  {
    assert Init(Replace(apps, id, app)) == Replace(Init(apps), id, app);
    if Last(apps).BaseUrl() != Some(url) {
      ReplaceKeepsLast(Init(apps), id, app, url);
    }
  }

  /** Writing an application over one that has the same URL changes nothing for the other URLs. */
  lemma {:induction false} ReplaceFrame(apps: seq<ProwlarrApp>, id: int, app: ProwlarrApp, url: string,
                                        synced: set<string>)
    requires app.BaseUrl() == Some(url) && url in synced
    requires forall x :: x in apps && x.id == id ==> x.BaseUrl() == Some(url)
    ensures forall v :: v != url ==> LastByUrl(Replace(apps, id, app), v) == LastByUrl(apps, v)
    ensures StaleCount(Replace(apps, id, app), synced) == StaleCount(apps, synced)
  {
    if apps != [] {
      assert Init(Replace(apps, id, app)) == Replace(Init(apps), id, app);
      ReplaceFrame(Init(apps), id, app, url, synced);
    }
  }

  lemma AppendFrame(apps: seq<ProwlarrApp>, app: ProwlarrApp, url: string, synced: set<string>)
    requires app.BaseUrl() == Some(url) && url in synced
    ensures LastByUrl(apps + [app], url) == Some(app)
    ensures forall v :: v != url ==> LastByUrl(apps + [app], v) == LastByUrl(apps, v)
    ensures StaleCount(apps + [app], synced) == StaleCount(apps, synced)
  {
    assert Init(apps + [app]) == apps;
  }

  lemma {:induction false} WithoutAbsent(apps: seq<ProwlarrApp>, id: int)
    requires forall x :: x in apps ==> x.id != id
    ensures Without(apps, id) == apps
  {
    if apps != [] {
      assert apps == Init(apps) + [Last(apps)];
      WithoutAbsent(Init(apps), id);
    }
  }

  lemma {:induction false} WithoutKeepsDistinct(apps: seq<ProwlarrApp>, id: int)
    requires DistinctIds(apps)
    ensures DistinctIds(Without(apps, id))
  {
    if apps != [] {
      var front := Init(apps);
      WithoutKeepsDistinct(front, id);
      forall x | x in Without(front, id) ensures x.id != Last(apps).id {
        assert x in front;
      }
    }
  }

  /** Deleting a stale application removes one stale application and hides no protected URL. */
  lemma {:induction false} WithoutFrame(apps: seq<ProwlarrApp>, x: ProwlarrApp, synced: set<string>)
    requires DistinctIds(apps) && x in apps && Stale(x, synced)
    ensures forall v :: v in synced ==> LastByUrl(Without(apps, x.id), v) == LastByUrl(apps, v)
    ensures StaleCount(Without(apps, x.id), synced) == StaleCount(apps, synced) - 1
  {
    var front := Init(apps);
    if Last(apps).id == x.id {
      assert forall y :: y in front ==> y.id != x.id;
      WithoutAbsent(front, x.id);
      assert Without(apps, x.id) == front;
    } else {
      WithoutFrame(front, x, synced);
      assert Init(Without(apps, x.id)) == Without(front, x.id);
    }
  }

  /** Of the applications with one URL, the last in the list counts. */
  lemma {:induction false} LastByUrlIsLast(apps: seq<ProwlarrApp>, url: string, k: nat)
    requires k < |apps| && apps[k].BaseUrl() == Some(url)
    requires forall j :: k < j < |apps| ==> apps[j].BaseUrl() != Some(url)
    ensures LastByUrl(apps, url) == Some(apps[k])
  {
    if k < |apps| - 1 {
      LastByUrlIsLast(Init(apps), url, k);
    }
  }

  // ---- The add-or-update sweep ----

  /** What one call for app `a` may do: settle the app or not, and touch no other URL. */
  ghost predicate Step(w: World, w': World, a: DiscoveredApp, synced: set<string>) {
    && w'.Valid()
    && w'.calls - w.calls == Need(w.apps, a)
    && w'.effects - w.effects == Need(w.apps, a) - Need(w'.apps, a)
    && (forall v :: !IsArr(a) || v != a.BaseUrl() ==> LastByUrl(w'.apps, v) == LastByUrl(w.apps, v))
    && StaleCount(w'.apps, synced) == StaleCount(w.apps, synced)
  }

  lemma NewAppUrl(a: DiscoveredApp, id: int)
    requires IsArr(a)
    ensures var app := NewApp(a).(id := id); app.id == id && app.name == a.name && app.BaseUrl() == Some(a.BaseUrl())
  {
  }

  lemma UpdateStep(w: World, fates: Fates, a: DiscoveredApp, app: ProwlarrApp, url: string, synced: set<string>)
    requires w.Valid() && url == a.BaseUrl() && url in synced && IsArr(a)
    requires app.name == a.name && app.BaseUrl() == Some(url)
    requires LastByUrl(w.apps, url).Some? && LastByUrl(w.apps, url).value.id == app.id
    requires LastByUrl(w.apps, url).value.name != a.name
    ensures Step(w, CallUpdate(w, fates, app.id, app), a, synced)
  {
    UpdateLookups(w.apps, app, url, synced);
  }

  lemma UpdateLookups(apps: seq<ProwlarrApp>, app: ProwlarrApp, url: string, synced: set<string>)
    requires DistinctIds(apps) && url in synced && app.BaseUrl() == Some(url)
    requires LastByUrl(apps, url).Some? && LastByUrl(apps, url).value.id == app.id
    ensures var r := Replace(apps, app.id, app);
            && LastByUrl(r, url) == Some(app)
            && (forall v :: v != url ==> LastByUrl(r, v) == LastByUrl(apps, v))
            && StaleCount(r, synced) == StaleCount(apps, synced)
  {
    var e := LastByUrl(apps, url).value;
    forall x | x in apps && x.id == app.id ensures x.BaseUrl() == Some(url) {
      SameId(apps, x, e);
    }
    ReplaceKeepsLast(apps, app.id, app, url);
    ReplaceFrame(apps, app.id, app, url, synced);
  }

  lemma SameId(apps: seq<ProwlarrApp>, x: ProwlarrApp, y: ProwlarrApp)
    requires DistinctIds(apps) && x in apps && y in apps && x.id == y.id
    ensures x == y
  {
  }

  lemma AddStep(w: World, fates: Fates, a: DiscoveredApp, app: ProwlarrApp, url: string, synced: set<string>)
    requires w.Valid() && url == a.BaseUrl() && url in synced && IsArr(a)
    requires app.id == w.nextId && app.name == a.name && app.BaseUrl() == Some(url)
    requires LastByUrl(w.apps, url).None?
    ensures Step(w, Call(w, fates(w.calls), w.apps + [app], w.nextId + 1), a, synced)
  {
    AppendFrame(w.apps, app, url, synced);
  }

  lemma AddOrUpdateStep(w: World, fates: Fates, existing: seq<ProwlarrApp>, a: DiscoveredApp, synced: set<string>)
    requires w.Valid() && a.BaseUrl() in synced
    requires IsArr(a) ==> LastByUrl(w.apps, a.BaseUrl()) == LastByUrl(existing, a.BaseUrl())
    ensures Step(w, AddOrUpdate(w, fates, existing, a), a, synced)
  {
    if IsArr(a) && !Settled(w.apps, a) {
      match LastByUrl(w.apps, a.BaseUrl())
      case Some(e) =>
        NewAppUrl(a, e.id);
        UpdateStep(w, fates, a, NewApp(a).(id := e.id), a.BaseUrl(), synced);
      case None =>
        NewAppUrl(a, w.nextId);
        AddStep(w, fates, a, NewApp(a).(id := w.nextId), a.BaseUrl(), synced);
    }
  }

  lemma {:induction false} UnsettledFrame(apps: seq<ProwlarrApp>, apps': seq<ProwlarrApp>,
                                          discovered: seq<DiscoveredApp>)
    requires forall a :: a in discovered && IsArr(a) ==> LastByUrl(apps, a.BaseUrl()) == LastByUrl(apps', a.BaseUrl())
    ensures Unsettled(apps, discovered) == Unsettled(apps', discovered)
  {
    if discovered != [] {
      assert discovered[0] in discovered;
      UnsettledFrame(apps, apps', discovered[1..]);
    }
  }

  lemma {:induction false} SweepLowersPotential(w: World, fates: Fates, existing: seq<ProwlarrApp>,
                                                discovered: seq<DiscoveredApp>, synced: set<string>)
    requires w.Valid() && DistinctArrUrls(discovered)
    requires forall a :: a in discovered ==> a.BaseUrl() in synced
    requires forall a :: a in discovered && IsArr(a) ==>
               LastByUrl(w.apps, a.BaseUrl()) == LastByUrl(existing, a.BaseUrl())
    ensures var w' := AddOrUpdateAll(w, fates, existing, discovered);
            && w'.Valid()
            && w'.calls - w.calls == Unsettled(w.apps, discovered)
            && w'.effects - w.effects == Unsettled(w.apps, discovered) - Unsettled(w'.apps, discovered)
            && (forall v :: (forall a :: a in discovered && IsArr(a) ==> v != a.BaseUrl())
                            ==> LastByUrl(w'.apps, v) == LastByUrl(w.apps, v))
            && StaleCount(w'.apps, synced) == StaleCount(w.apps, synced)
    decreases |discovered|
  {
    if discovered != [] {
      var a, rest := discovered[0], discovered[1..];
      assert a in discovered;
      assert forall b :: b in rest ==> b in discovered;
      AddOrUpdateStep(w, fates, existing, a, synced);
      var w1 := AddOrUpdate(w, fates, existing, a);
      assert forall b :: b in rest && IsArr(b) && IsArr(a) ==> b.BaseUrl() != a.BaseUrl();
      SweepLowersPotential(w1, fates, existing, rest, synced);
      var w2 := AddOrUpdateAll(w1, fates, existing, rest);
      UnsettledFrame(w.apps, w1.apps, rest);
      if IsArr(a) {
        assert LastByUrl(w2.apps, a.BaseUrl()) == LastByUrl(w1.apps, a.BaseUrl());
      }
    }
  }

  // ---- What a sweep leaves in place ----

  /** The application is the record this pass writes for discovered app `a`. */
  ghost predicate Describes(x: ProwlarrApp, a: DiscoveredApp) {
    && x.name == a.name && x.BaseUrl() == Some(a.BaseUrl())
    && x.syncLevel == "fullSync" && x.tags == []
    && ProwlarrAppField("apiKey", Str(a.apiKey)) in x.fields
    && x.implementation in {"Sonarr", "Radarr", "Lidarr"}
    && (x.implementation == "Sonarr" <==> a.appType.Sonarr?)
    && (x.implementation == "Radarr" <==> a.appType.Radarr?)
    && (x.implementation == "Lidarr" <==> a.appType.Lidarr?)
    && x.configContract == x.implementation + "Settings"
  }

  ghost predicate Written(x: ProwlarrApp, discovered: seq<DiscoveredApp>) {
    exists a :: a in discovered && IsArr(a) && Describes(x, a)
  }

  /** Every listed application is still at its index with its id and URL, either untouched or
      rewritten for a discovered app; everything appended was written for a discovered app. */
  ghost predicate Aligned(existing: seq<ProwlarrApp>, apps: seq<ProwlarrApp>, discovered: seq<DiscoveredApp>) {
    && |existing| <= |apps|
    && (forall i :: 0 <= i < |existing| ==>
          && apps[i].id == existing[i].id
          && apps[i].BaseUrl() == existing[i].BaseUrl()
          && (apps[i] == existing[i] || Written(apps[i], discovered)))
    && (forall i :: |existing| <= i < |apps| ==> Written(apps[i], discovered))
  }

  lemma NewAppDescribes(a: DiscoveredApp, id: int)
    requires IsArr(a)
    ensures Describes(NewApp(a).(id := id), a)
  {
    var x := NewApp(a).(id := id);
    assert x.fields[1] == ProwlarrAppField("apiKey", Str(a.apiKey));
  }

  lemma WrittenIsSynced(x: ProwlarrApp, discovered: seq<DiscoveredApp>)
    requires Written(x, discovered)
    ensures x.BaseUrl().Some? && x.BaseUrl().value != "" && x.BaseUrl().value in SyncedUrls(discovered)
  {
  }

  lemma AlignedReplace(existing: seq<ProwlarrApp>, apps: seq<ProwlarrApp>, k: nat, app: ProwlarrApp,
                       discovered: seq<DiscoveredApp>)
    requires Aligned(existing, apps, discovered) && DistinctIds(apps) && k < |existing|
    requires app.id == existing[k].id && app.BaseUrl() == existing[k].BaseUrl() && Written(app, discovered)
    ensures Aligned(existing, Replace(apps, app.id, app), discovered) && DistinctIds(Replace(apps, app.id, app))
  {
    var r := Replace(apps, app.id, app);
    assert forall i :: 0 <= i < |apps| ==> r[i] == if i == k then app else apps[i];
  }

  lemma AlignedUpdate(existing: seq<ProwlarrApp>, apps: seq<ProwlarrApp>, e: ProwlarrApp, app: ProwlarrApp,
                      discovered: seq<DiscoveredApp>)
    requires Aligned(existing, apps, discovered) && DistinctIds(apps) && e in existing
    requires app.id == e.id && app.BaseUrl() == e.BaseUrl() && Written(app, discovered)
    ensures Aligned(existing, Replace(apps, e.id, app), discovered) && DistinctIds(Replace(apps, e.id, app))
  {
    var k :| 0 <= k < |existing| && existing[k] == e;
    AlignedReplace(existing, apps, k, app, discovered);
  }

  lemma AlignedAppend(existing: seq<ProwlarrApp>, apps: seq<ProwlarrApp>, app: ProwlarrApp,
                      discovered: seq<DiscoveredApp>)
    requires Aligned(existing, apps, discovered) && Written(app, discovered)
    ensures Aligned(existing, apps + [app], discovered)
  {
  }

  lemma StepKeepsValid(w: World, fates: Fates, existing: seq<ProwlarrApp>, a: DiscoveredApp)
    requires w.Valid()
    ensures AddOrUpdate(w, fates, existing, a).Valid()
  {
  }

  lemma AlignedStep(w: World, fates: Fates, existing: seq<ProwlarrApp>, a: DiscoveredApp,
                    discovered: seq<DiscoveredApp>)
    requires w.Valid() && Aligned(existing, w.apps, discovered) && a in discovered
    ensures Aligned(existing, AddOrUpdate(w, fates, existing, a).apps, discovered)
  {
    if IsArr(a) {
      var found := LastByUrl(existing, a.BaseUrl());
      var id := if found.Some? then found.value.id else w.nextId;
      var app := NewApp(a).(id := id);
      NewAppDescribes(a, id);
      assert Written(app, discovered);
      if found.Some? {
        AlignedUpdate(existing, w.apps, found.value, app, discovered);
      } else {
        AlignedAppend(existing, w.apps, app, discovered);
      }
    }
  }

  lemma {:induction false} SweepAligned(w: World, fates: Fates, existing: seq<ProwlarrApp>,
                                        todo: seq<DiscoveredApp>, discovered: seq<DiscoveredApp>)
    requires w.Valid() && Aligned(existing, w.apps, discovered)
    requires forall a :: a in todo ==> a in discovered
    ensures var w' := AddOrUpdateAll(w, fates, existing, todo); w'.Valid() && Aligned(existing, w'.apps, discovered)
    decreases |todo|
  {
    if todo != [] {
      assert todo[0] in todo;
      assert forall a :: a in todo[1..] ==> a in todo;
      AlignedStep(w, fates, existing, todo[0], discovered);
      StepKeepsValid(w, fates, existing, todo[0]);
      SweepAligned(AddOrUpdate(w, fates, existing, todo[0]), fates, existing, todo[1..], discovered);
    }
  }

  // ---- The removal sweep ----

  lemma {:induction false} StaleCountSplit(apps: seq<ProwlarrApp>, synced: set<string>)
    requires apps != []
    ensures StaleCount(apps, synced) == (if Stale(apps[0], synced) then 1 else 0) + StaleCount(apps[1..], synced)
  {
    if |apps| > 1 {
      StaleCountSplit(Init(apps), synced);
      assert Init(apps)[1..] == Init(apps[1..]);
    }
  }

  /** The removal keeps every application but the listed stale ones. */
  ghost predicate Removal(w: World, w': World, ids: set<int>) {
    && (forall x :: x in w'.apps ==> x in w.apps)
    && (forall x :: x in w.apps && x.id !in ids ==> x in w'.apps)
  }

  ghost function StaleIds(existing: seq<ProwlarrApp>, synced: set<string>): set<int> {
    set e | e in existing && Stale(e, synced) :: e.id
  }

  lemma DeleteKeepsValid(w: World, fates: Fates, id: int)
    requires w.Valid()
    ensures CallDelete(w, fates, id).Valid()
  {
    var rest := Without(w.apps, id);
    WithoutKeepsDistinct(w.apps, id);
    forall i | 0 <= i < |rest| ensures rest[i].id < w.nextId { assert rest[i] in rest; }
  }

  lemma DeleteStep(w: World, fates: Fates, e: ProwlarrApp, synced: set<string>)
    requires w.Valid() && Stale(e, synced) && e in w.apps
    ensures var w' := CallDelete(w, fates, e.id);
            && w'.Valid() && w'.calls == w.calls + 1
            && w'.effects - w.effects == StaleCount(w.apps, synced) - StaleCount(w'.apps, synced)
            && (forall v :: v in synced ==> LastByUrl(w'.apps, v) == LastByUrl(w.apps, v))
            && (w'.apps == w.apps || w'.apps == Without(w.apps, e.id))
  {
    WithoutFrame(w.apps, e, synced);
    DeleteKeepsValid(w, fates, e.id);
  }

  /** The stale applications of the list are still registered. */
  ghost predicate StalePresent(existing: seq<ProwlarrApp>, apps: seq<ProwlarrApp>, synced: set<string>) {
    forall x :: x in existing && Stale(x, synced) ==> x in apps
  }

  lemma StalePresentInRest(existing: seq<ProwlarrApp>, apps: seq<ProwlarrApp>, synced: set<string>)
    requires existing != [] && DistinctIds(existing) && StalePresent(existing, apps, synced)
    ensures Stale(existing[0], synced) ==> existing[0] in apps
    ensures DistinctIds(existing[1..]) && StalePresent(existing[1..], apps, synced)
    ensures StalePresent(existing[1..], Without(apps, existing[0].id), synced)
  {
    assert existing[0] in existing;
    forall x | x in existing[1..] ensures x in existing && x.id != existing[0].id {}
  }

  lemma {:induction false} RemovalLowersPotential(w: World, fates: Fates, existing: seq<ProwlarrApp>,
                                                  synced: set<string>)
    requires w.Valid() && DistinctIds(existing) && StalePresent(existing, w.apps, synced)
    ensures var w' := RemoveStale(w, fates, existing, synced);
            && w'.Valid()
            && w'.calls - w.calls == StaleCount(existing, synced)
            && w'.effects - w.effects == StaleCount(w.apps, synced) - StaleCount(w'.apps, synced)
            && (forall v :: v in synced ==> LastByUrl(w'.apps, v) == LastByUrl(w.apps, v))
    decreases |existing|
  {
    if existing != [] {
      var e, rest := existing[0], existing[1..];
      StaleCountSplit(existing, synced);
      StalePresentInRest(existing, w.apps, synced);
      if Stale(e, synced) {
        DeleteStep(w, fates, e, synced);
        RemovalLowersPotential(CallDelete(w, fates, e.id), fates, rest, synced);
      } else {
        RemovalLowersPotential(w, fates, rest, synced);
      }
    }
  }

  lemma {:induction false} RemovalKeeps(w: World, fates: Fates, existing: seq<ProwlarrApp>, synced: set<string>)
    requires w.Valid()
    ensures var w' := RemoveStale(w, fates, existing, synced);
            w'.Valid() && Removal(w, w', StaleIds(existing, synced))
    decreases |existing|
  {
    if existing != [] {
      var e, rest := existing[0], existing[1..];
      assert e in existing && forall x :: x in rest ==> x in existing;
      assert StaleIds(rest, synced) <= StaleIds(existing, synced);
      if Stale(e, synced) {
        assert e.id in StaleIds(existing, synced);
        DeleteKeepsValid(w, fates, e.id);
        RemovalKeeps(CallDelete(w, fates, e.id), fates, rest, synced);
      } else {
        RemovalKeeps(w, fates, rest, synced);
      }
    }
  }

  // ---- The whole pass ----

  lemma StaleSurvivesSweep(existing: seq<ProwlarrApp>, apps: seq<ProwlarrApp>, discovered: seq<DiscoveredApp>)
    requires Aligned(existing, apps, discovered)
    ensures StalePresent(existing, apps, SyncedUrls(discovered))
  {
    forall x | x in existing && Stale(x, SyncedUrls(discovered)) ensures x in apps {
      var i :| 0 <= i < |existing| && existing[i] == x;
      if Written(apps[i], discovered) { WrittenIsSynced(apps[i], discovered); }
    }
  }

  /** Whatever the failures, a pass issues exactly as many calls as the potential, and each call that
      takes effect, acknowledged or not, lowers the potential by exactly one. */
  lemma PassLowersPotential(w: World, fates: Fates, discovered: seq<DiscoveredApp>, autoRemove: bool)
    requires w.Valid() && DistinctArrUrls(discovered)
    ensures var w' := Pass(w, fates, discovered, autoRemove);
            && w'.Valid()
            && w'.calls - w.calls == Potential(w.apps, discovered, autoRemove)
            && Potential(w'.apps, discovered, autoRemove)
               == Potential(w.apps, discovered, autoRemove) - (w'.effects - w.effects)
  {
    var synced := SyncedUrls(discovered);
    SweepLowersPotential(w, fates, w.apps, discovered, synced);
    if autoRemove {
      var w1 := AddOrUpdateAll(w, fates, w.apps, discovered);
      SweepAligned(w, fates, w.apps, discovered, discovered);
      StaleSurvivesSweep(w.apps, w1.apps, discovered);
      RemovalLowersPotential(w1, fates, w.apps, synced);
      UnsettledFrame(w1.apps, RemoveStale(w1, fates, w.apps, synced).apps, discovered);
    }
  }

  /** The application is still there with its id and URL, untouched or rewritten for a discovered app. */
  ghost predicate Kept(x: ProwlarrApp, apps: seq<ProwlarrApp>, discovered: seq<DiscoveredApp>) {
    exists y :: y in apps && y.id == x.id && y.BaseUrl() == x.BaseUrl() && (y == x || Written(y, discovered))
  }

  /** What a pass does, in two stages with the listed applications still traceable. */
  lemma PassStages(w: World, fates: Fates, discovered: seq<DiscoveredApp>, autoRemove: bool)
      returns (w1: World, ids: set<int>)
    requires w.Valid()
    ensures Aligned(w.apps, w1.apps, discovered)
    ensures ids == if autoRemove then StaleIds(w.apps, SyncedUrls(discovered)) else {}
    ensures var w' := Pass(w, fates, discovered, autoRemove);
            w'.Valid() && Removal(w1, w', ids)
  {
    w1 := AddOrUpdateAll(w, fates, w.apps, discovered);
    ids := if autoRemove then StaleIds(w.apps, SyncedUrls(discovered)) else {};
    SweepAligned(w, fates, w.apps, discovered, discovered);
    RemovalKeeps(w1, fates, w.apps, SyncedUrls(discovered));
  }

  /** Under any failures only stale applications are ever deleted, and none without auto-removal; an
      application without a non-empty URL is not even changed. */
  lemma PassKeeps(w: World, fates: Fates, discovered: seq<DiscoveredApp>, autoRemove: bool, x: ProwlarrApp)
    requires w.Valid() && x in w.apps && !(autoRemove && Stale(x, SyncedUrls(discovered)))
    ensures Kept(x, Pass(w, fates, discovered, autoRemove).apps, discovered)
    ensures x.BaseUrl().None? || x.BaseUrl() == Some("") ==> x in Pass(w, fates, discovered, autoRemove).apps
  {
    var w1, ids := PassStages(w, fates, discovered, autoRemove);
    var i :| 0 <= i < |w.apps| && w.apps[i] == x;
    var y := w1.apps[i];
    assert y in w1.apps;
    IdNotStale(w.apps, i, SyncedUrls(discovered));
    if Written(y, discovered) { WrittenIsSynced(y, discovered); }
  }

  /** The URL of a discovered app of any type protects the applications that have it. */
  lemma DiscoveredUrlIsKept(w: World, fates: Fates, discovered: seq<DiscoveredApp>, autoRemove: bool, x: ProwlarrApp,
                            a: DiscoveredApp)
    requires w.Valid() && x in w.apps && a in discovered && x.BaseUrl() == Some(a.BaseUrl())
    ensures Kept(x, Pass(w, fates, discovered, autoRemove).apps, discovered)
  {
    PassKeeps(w, fates, discovered, autoRemove, x);
  }

  lemma {:induction false} WithoutOthers(w: World, fates: Fates, existing: seq<ProwlarrApp>, synced: set<string>,
                                         id: int)
    requires forall n :: fates(n).Applied()
    requires (forall y :: y in w.apps ==> y.id != id) || exists e :: e in existing && Stale(e, synced) && e.id == id
    ensures forall y :: y in RemoveStale(w, fates, existing, synced).apps ==> y.id != id
    decreases |existing|
  {
    if existing != [] {
      var w1 := if Stale(existing[0], synced) then CallDelete(w, fates, existing[0].id) else w;
      assert forall e :: e in existing <==> e == existing[0] || e in existing[1..];
      WithoutOthers(w1, fates, existing[1..], synced, id);
    }
  }

  /** With auto-removal, and when every call is applied, an application goes whose non-empty URL no
      discovered app of any type has. */
  lemma UndiscoveredUrlIsRemoved(w: World, fates: Fates, discovered: seq<DiscoveredApp>, x: ProwlarrApp, url: string)
    requires forall n :: fates(n).Applied()
    requires x in w.apps && x.BaseUrl() == Some(url) && url != ""
    requires forall a :: a in discovered ==> a.BaseUrl() != url
    ensures forall y :: y in Pass(w, fates, discovered, true).apps ==> y.id != x.id
  {
    assert Stale(x, SyncedUrls(discovered));
    WithoutOthers(AddOrUpdateAll(w, fates, w.apps, discovered), fates, w.apps, SyncedUrls(discovered), x.id);
  }

  lemma {:induction false} SweepRegisters(w: World, fates: Fates, existing: seq<ProwlarrApp>,
                                          todo: seq<DiscoveredApp>, discovered: seq<DiscoveredApp>, a: DiscoveredApp)
    requires w.Valid() && Aligned(existing, w.apps, discovered) && (forall n :: fates(n).Applied())
    requires forall b :: b in todo ==> b in discovered
    requires IsArr(a) && (a in todo || LastByUrl(w.apps, a.BaseUrl()).Some?)
    ensures LastByUrl(AddOrUpdateAll(w, fates, existing, todo).apps, a.BaseUrl()).Some?
    decreases |todo|
  {
    if todo != [] {
      var b, w1 := todo[0], AddOrUpdate(w, fates, existing, todo[0]);
      assert b in todo && forall c :: c in todo[1..] ==> c in todo;
      AlignedStep(w, fates, existing, b, discovered);
      StepKeepsValid(w, fates, existing, b);
      if LastByUrl(w.apps, a.BaseUrl()).Some? {
        StepKeepsUrls(w, fates, existing, b, discovered, a.BaseUrl());
      } else if a == b {
        StepRegisters(w, fates, existing, a, discovered);
      }
      SweepRegisters(w1, fates, existing, todo[1..], discovered, a);
    }
  }

  lemma {:induction false} LastByUrlFinds(apps: seq<ProwlarrApp>, url: string)
    ensures LastByUrl(apps, url).Some? <==> exists i :: 0 <= i < |apps| && apps[i].BaseUrl() == Some(url)
  {
    if apps != [] {
      LastByUrlFinds(Init(apps), url);
      if i :| 0 <= i < |apps| && apps[i].BaseUrl() == Some(url) && i < |apps| - 1 {
        assert Init(apps)[i] == apps[i];
      }
    }
  }

  lemma UrlsAfterReplace(apps: seq<ProwlarrApp>, k: nat, app: ProwlarrApp, url: string)
    requires DistinctIds(apps) && k < |apps| && apps[k].id == app.id && apps[k].BaseUrl() == app.BaseUrl()
    requires LastByUrl(apps, url).Some?
    ensures LastByUrl(Replace(apps, app.id, app), url).Some?
  {
    var r := Replace(apps, app.id, app);
    LastByUrlFinds(apps, url);
    var i :| 0 <= i < |apps| && apps[i].BaseUrl() == Some(url);
    assert r[i].BaseUrl() == apps[i].BaseUrl();
    LastByUrlFinds(r, url);
  }

  lemma ListedUrlsRemain(existing: seq<ProwlarrApp>, apps: seq<ProwlarrApp>, discovered: seq<DiscoveredApp>,
                         url: string)
    requires Aligned(existing, apps, discovered) && LastByUrl(existing, url).Some?
    ensures LastByUrl(apps, url).Some?
  {
    LastByUrlFinds(existing, url);
    var i :| 0 <= i < |existing| && existing[i].BaseUrl() == Some(url);
    assert apps[i].BaseUrl() == Some(url);
    LastByUrlFinds(apps, url);
  }

  lemma AlignedAt(existing: seq<ProwlarrApp>, apps: seq<ProwlarrApp>, discovered: seq<DiscoveredApp>, e: ProwlarrApp)
      returns (k: nat)
    requires Aligned(existing, apps, discovered) && e in existing
    ensures k < |apps| && apps[k].id == e.id && apps[k].BaseUrl() == e.BaseUrl()
  {
    k :| 0 <= k < |existing| && existing[k] == e;
  }

  lemma CallKeepsUrl(w: World, fates: Fates, b: DiscoveredApp, found: Option<ProwlarrApp>, k: nat, url: string)
    requires DistinctIds(w.apps) && IsArr(b) && LastByUrl(w.apps, url).Some?
    requires found.Some? ==>
               k < |w.apps| && w.apps[k].id == found.value.id && w.apps[k].BaseUrl() == Some(b.BaseUrl())
    ensures LastByUrl(CallAdd(w, fates, NewApp(b)).apps, url).Some?
    ensures found.Some? ==>
              LastByUrl(CallUpdate(w, fates, found.value.id, NewApp(b).(id := found.value.id)).apps, url).Some?
  {
    AppendKeepsUrl(w.apps, NewApp(b).(id := w.nextId), url);
    if found.Some? {
      NewAppUrl(b, found.value.id);
      UrlsAfterReplace(w.apps, k, NewApp(b).(id := found.value.id), url);
    }
  }

  lemma StepKeepsUrls(w: World, fates: Fates, existing: seq<ProwlarrApp>, b: DiscoveredApp,
                      discovered: seq<DiscoveredApp>, url: string)
    requires w.Valid() && Aligned(existing, w.apps, discovered) && LastByUrl(w.apps, url).Some?
    ensures LastByUrl(AddOrUpdate(w, fates, existing, b).apps, url).Some?
  {
    if IsArr(b) {
      var found := LastByUrl(existing, b.BaseUrl());
      var k := 0;
      if found.Some? { k := AlignedAt(existing, w.apps, discovered, found.value); }
      CallKeepsUrl(w, fates, b, found, k, url);
    }
  }

  lemma AppendKeepsUrl(apps: seq<ProwlarrApp>, app: ProwlarrApp, url: string)
    requires LastByUrl(apps, url).Some?
    ensures LastByUrl(apps + [app], url).Some?
  {
    assert Init(apps + [app]) == apps;
  }

  lemma StepRegisters(w: World, fates: Fates, existing: seq<ProwlarrApp>, a: DiscoveredApp,
                      discovered: seq<DiscoveredApp>)
    requires w.Valid() && Aligned(existing, w.apps, discovered) && fates(w.calls).Applied() && IsArr(a)
    requires LastByUrl(w.apps, a.BaseUrl()).None?
    ensures LastByUrl(AddOrUpdate(w, fates, existing, a).apps, a.BaseUrl()).Some?
  {
    var url := a.BaseUrl();
    if LastByUrl(existing, url).Some? {
      ListedUrlsRemain(existing, w.apps, discovered, url);
      assert false;
    }
    NewAppUrl(a, w.nextId);
    AppendFrame(w.apps, NewApp(a).(id := w.nextId), url, {url});
  }

  /** When every call is applied, every discovered Sonarr, Radarr and Lidarr app ends up registered,
      also when apps share a URL. */
  lemma ArrAppsAreRegistered(w: World, fates: Fates, discovered: seq<DiscoveredApp>, autoRemove: bool,
                             a: DiscoveredApp)
    requires w.Valid() && (forall n :: fates(n).Applied()) && a in discovered && a.appType in {Sonarr, Radarr, Lidarr}
    ensures exists x :: x in Pass(w, fates, discovered, autoRemove).apps && x.BaseUrl() == Some(a.BaseUrl())
  {
    var w1 := AddOrUpdateAll(w, fates, w.apps, discovered);
    SweepRegisters(w, fates, w.apps, discovered, discovered, a);
    SweepAligned(w, fates, w.apps, discovered, discovered);
    if autoRemove {
      StaleSurvivesSweep(w.apps, w1.apps, discovered);
      RemovalLowersPotential(w1, fates, w.apps, SyncedUrls(discovered));
      assert a.BaseUrl() in SyncedUrls(discovered);
    }
  }

  lemma IdNotStale(apps: seq<ProwlarrApp>, k: nat, synced: set<string>)
    requires DistinctIds(apps) && k < |apps|
    ensures !Stale(apps[k], synced) ==> apps[k].id !in StaleIds(apps, synced)
  {
  }

  /** Whatever is registered after a pass was registered before it or was written for a discovered app. */
  lemma PassAdds(w: World, fates: Fates, discovered: seq<DiscoveredApp>, autoRemove: bool, x: ProwlarrApp)
    requires w.Valid() && x in Pass(w, fates, discovered, autoRemove).apps
    ensures x in w.apps || Written(x, discovered)
  {
    var w1, ids := PassStages(w, fates, discovered, autoRemove);
    var i :| 0 <= i < |w1.apps| && w1.apps[i] == x;
    if i < |w.apps| && w1.apps[i] == w.apps[i] { assert w.apps[i] in w.apps; }
  }

  ghost predicate InSync(apps: seq<ProwlarrApp>, discovered: seq<DiscoveredApp>, autoRemove: bool) {
    && (forall a :: a in discovered && IsArr(a) ==> Settled(apps, a))
    && (autoRemove ==> forall x :: x in apps ==> !Stale(x, SyncedUrls(discovered)))
  }

  lemma {:induction false} UnsettledZero(apps: seq<ProwlarrApp>, discovered: seq<DiscoveredApp>)
    ensures Unsettled(apps, discovered) == 0 <==> forall a :: a in discovered && IsArr(a) ==> Settled(apps, a)
  {
    if discovered != [] {
      UnsettledZero(apps, discovered[1..]);
      assert forall a :: a in discovered <==> a == discovered[0] || a in discovered[1..];
    }
  }

  lemma {:induction false} StaleZero(apps: seq<ProwlarrApp>, synced: set<string>)
    ensures StaleCount(apps, synced) == 0 <==> forall x :: x in apps ==> !Stale(x, synced)
  {
    if apps != [] {
      StaleZero(Init(apps), synced);
      assert forall x :: x in apps <==> x == Last(apps) || x in Init(apps);
    }
  }

  lemma PotentialZeroIffInSync(apps: seq<ProwlarrApp>, discovered: seq<DiscoveredApp>, autoRemove: bool)
    ensures Potential(apps, discovered, autoRemove) == 0 <==> InSync(apps, discovered, autoRemove)
  {
    UnsettledZero(apps, discovered);
    StaleZero(apps, SyncedUrls(discovered));
  }

  // ---- Whole runs ----

  /** What holds of any stretch of calls: counters grow, nothing changes without a call, and when the
      network applies everything each call takes effect. */
  ghost predicate Ran(w: World, w': World, fates: Fates) {
    && w.calls <= w'.calls && w.effects <= w'.effects
    && (w'.calls == w.calls ==> w' == w)
    && ((forall n :: fates(n).Applied()) ==> w'.effects - w.effects == w'.calls - w.calls)
  }

  lemma {:induction false} SweepRan(w: World, fates: Fates, existing: seq<ProwlarrApp>, discovered: seq<DiscoveredApp>)
    ensures Ran(w, AddOrUpdateAll(w, fates, existing, discovered), fates)
    decreases |discovered|
  {
    if discovered != [] {
      SweepRan(AddOrUpdate(w, fates, existing, discovered[0]), fates, existing, discovered[1..]);
    }
  }

  lemma {:induction false} RemovalRan(w: World, fates: Fates, existing: seq<ProwlarrApp>, synced: set<string>)
    ensures Ran(w, RemoveStale(w, fates, existing, synced), fates)
    decreases |existing|
  {
    if existing != [] {
      RemovalRan(if Stale(existing[0], synced) then CallDelete(w, fates, existing[0].id) else w,
                 fates, existing[1..], synced);
    }
  }

  lemma PassRan(w: World, fates: Fates, discovered: seq<DiscoveredApp>, autoRemove: bool)
    ensures Ran(w, Pass(w, fates, discovered, autoRemove), fates)
  {
    SweepRan(w, fates, w.apps, discovered);
    RemovalRan(AddOrUpdateAll(w, fates, w.apps, discovered), fates, w.apps, SyncedUrls(discovered));
  }

  lemma {:induction false} SweepCalls(w: World, fates: Fates, existing: seq<ProwlarrApp>,
                                      discovered: seq<DiscoveredApp>)
    ensures AddOrUpdateAll(w, fates, existing, discovered).calls == w.calls + Unsettled(existing, discovered)
    decreases |discovered|
  {
    if discovered != [] {
      SweepCalls(AddOrUpdate(w, fates, existing, discovered[0]), fates, existing, discovered[1..]);
    }
  }

  lemma {:induction false} RemovalCalls(w: World, fates: Fates, existing: seq<ProwlarrApp>, synced: set<string>)
    ensures RemoveStale(w, fates, existing, synced).calls == w.calls + StaleCount(existing, synced)
    decreases |existing|
  {
    if existing != [] {
      StaleCountSplit(existing, synced);
      RemovalCalls(if Stale(existing[0], synced) then CallDelete(w, fates, existing[0].id) else w,
                   fates, existing[1..], synced);
    }
  }

  /** From any registry, for any discovery and under any failures, a pass issues no mutating call if
      and only if the registry is in sync, and then it changes nothing. */
  lemma SilentIffInSync(w: World, fates: Fates, discovered: seq<DiscoveredApp>, autoRemove: bool)
    ensures Pass(w, fates, discovered, autoRemove).calls == w.calls <==> InSync(w.apps, discovered, autoRemove)
    ensures InSync(w.apps, discovered, autoRemove) ==> Pass(w, fates, discovered, autoRemove) == w
  {
    SweepCalls(w, fates, w.apps, discovered);
    RemovalCalls(AddOrUpdateAll(w, fates, w.apps, discovered), fates, w.apps, SyncedUrls(discovered));
    PotentialZeroIffInSync(w.apps, discovered, autoRemove);
    PassRan(w, fates, discovered, autoRemove);
  }

  /** Object names are unique in a namespace. When two *arr apps share a URL, every pass, from every
      registry and under any failures, issues a call again. */
  lemma SharedUrlIsNeverSilent(w: World, fates: Fates, discovered: seq<DiscoveredApp>, autoRemove: bool)
    requires DistinctNames(discovered) && !DistinctArrUrls(discovered)
    ensures Pass(w, fates, discovered, autoRemove).calls > w.calls
  {
    var i, j :| 0 <= i < j < |discovered| && IsArr(discovered[i]) && IsArr(discovered[j])
                && discovered[i].BaseUrl() == discovered[j].BaseUrl();
    assert discovered[i] in discovered && discovered[j] in discovered;
    assert !(Settled(w.apps, discovered[i]) && Settled(w.apps, discovered[j]));
    SilentIffInSync(w, fates, discovered, autoRemove);
    PassRan(w, fates, discovered, autoRemove);
  }

  /** When every call is applied, the second pass is silent exactly when no two discovered *arr apps
      share a URL. */
  lemma ConvergesIffDistinctUrls(w: World, fates: Fates, discovered: seq<DiscoveredApp>, autoRemove: bool)
    requires w.Valid() && (forall n :: fates(n).Applied()) && DistinctNames(discovered)
    ensures var w' := Pass(w, fates, discovered, autoRemove);
            && (Pass(w', fates, discovered, autoRemove).calls == w'.calls <==> DistinctArrUrls(discovered))
            && (InSync(w'.apps, discovered, autoRemove) <==> DistinctArrUrls(discovered))
  {
    var w' := Pass(w, fates, discovered, autoRemove);
    SilentIffInSync(w', fates, discovered, autoRemove);
    if DistinctArrUrls(discovered) {
      PassLowersPotential(w, fates, discovered, autoRemove);
      PassRan(w, fates, discovered, autoRemove);
      PotentialZeroIffInSync(w'.apps, discovered, autoRemove);
    } else {
      SharedUrlIsNeverSilent(w', fates, discovered, autoRemove);
    }
  }

  /** Two apps whose specs name the same Service: the operator renames their one URL for ever. */
  lemma SharedServiceIsNeverSilent(w: World, fates: Fates, autoRemove: bool)
    ensures var tv := DiscoveredApp("tv", Sonarr, "tv.media.svc", 8989, "key", None);
            var tv4k := DiscoveredApp("tv-4k", Sonarr, "tv.media.svc", 8989, "key4k", Some("4k"));
            Pass(w, fates, [tv, tv4k], autoRemove).calls > w.calls
  {
    var tv := DiscoveredApp("tv", Sonarr, "tv.media.svc", 8989, "key", None);
    var tv4k := DiscoveredApp("tv-4k", Sonarr, "tv.media.svc", 8989, "key4k", Some("4k"));
    var both := [tv, tv4k];
    assert both[0] == tv && both[1] == tv4k && |tv.name| != |tv4k.name|;
    assert tv.BaseUrl() == tv4k.BaseUrl();
    SharedUrlIsNeverSilent(w, fates, both, autoRemove);
  }

  /** `n` passes one after the other over an unchanging discovery. */
  ghost function Passes(w: World, fates: Fates, discovered: seq<DiscoveredApp>, autoRemove: bool, n: nat): World {
    if n == 0 then w
    else Pass(Passes(w, fates, discovered, autoRemove, n - 1), fates, discovered, autoRemove)
  }

  /** Over any number of passes and any failures, the calls that take effect pay off the initial
      potential one by one, so there are never more of them than that. */
  lemma {:induction false} RunPaysOffPotential(w: World, fates: Fates, discovered: seq<DiscoveredApp>,
                                               autoRemove: bool, n: nat)
    requires w.Valid() && DistinctArrUrls(discovered)
    ensures var w' := Passes(w, fates, discovered, autoRemove, n);
            && w'.Valid() && w.effects <= w'.effects
            && Potential(w'.apps, discovered, autoRemove) + (w'.effects - w.effects)
               == Potential(w.apps, discovered, autoRemove)
  {
    if n > 0 {
      RunPaysOffPotential(w, fates, discovered, autoRemove, n - 1);
      var mid := Passes(w, fates, discovered, autoRemove, n - 1);
      PassLowersPotential(mid, fates, discovered, autoRemove);
      PassRan(mid, fates, discovered, autoRemove);
    }
  }
}
