/** The Prowlarr registration pass: diff the discovered apps against the registered applications,
    then add, rename and remove, where any call may fail without stopping the pass. */
module ProwlarrSync {
  import opened Common
  import opened Json
  import opened Discovery
  import opened ProwlarrTypes

  // ---- The registry, as Prowlarr keeps it ----

  /** `calls` counts the mutating calls made so far, `effects` those that were applied. */
  datatype World = World(apps: seq<ProwlarrApp>, nextId: int, calls: nat, effects: nat) {
    /** Ids are unique and never handed out twice. */
    ghost predicate Valid() {
      DistinctIds(apps) && forall i :: 0 <= i < |apps| ==> apps[i].id < nextId
    }
  }

  ghost predicate DistinctIds(apps: seq<ProwlarrApp>) {
    forall i, j :: 0 <= i < j < |apps| ==> apps[i].id != apps[j].id
  }

  /** The application with this id replaced in place. */
  function Replace(apps: seq<ProwlarrApp>, id: int, app: ProwlarrApp): (r: seq<ProwlarrApp>)
    ensures |r| == |apps|
    ensures forall i :: 0 <= i < |apps| ==> r[i] == if apps[i].id == id then app else apps[i]
  {
    if apps == [] then []
    else Replace(Init(apps), id, app) + [if Last(apps).id == id then app else Last(apps)]
  }

  /** The applications without the one that has this id, in the same order. */
  function Without(apps: seq<ProwlarrApp>, id: int): (r: seq<ProwlarrApp>)
    ensures forall x :: x in r <==> x in apps && x.id != id
  {
    if apps == [] then []
    else Without(Init(apps), id) + if Last(apps).id == id then [] else [Last(apps)]
  }

  function Call(w: World, fate: Fate, apps: seq<ProwlarrApp>, nextId: int): World {
    if fate.Applied() then World(apps, nextId, w.calls + 1, w.effects + 1)
    else w.(calls := w.calls + 1)
  }

  function CallAdd(w: World, fates: Fates, app: ProwlarrApp): World {
    Call(w, fates(w.calls), w.apps + [app.(id := w.nextId)], w.nextId + 1)
  }

  function CallUpdate(w: World, fates: Fates, id: int, app: ProwlarrApp): World {
    Call(w, fates(w.calls), Replace(w.apps, id, app), w.nextId)
  }

  function CallDelete(w: World, fates: Fates, id: int): World {
    Call(w, fates(w.calls), Without(w.apps, id), w.nextId)
  }

  class Registry {
    const fates: Fates
    var apps: seq<ProwlarrApp>
    var nextId: int
    var calls: nat
    var effects: nat

    constructor (fates: Fates, apps: seq<ProwlarrApp>, nextId: int)
      ensures this.fates == fates && State() == World(apps, nextId, 0, 0)
    {
      this.fates := fates;
      this.apps, this.nextId, this.calls, this.effects := apps, nextId, 0, 0;
    }

    function State(): World
      reads this
    {
      World(apps, nextId, calls, effects)
    }

    method Add(app: ProwlarrApp) returns (ok: bool)
      modifies this
      ensures State() == CallAdd(old(State()), fates, app)
      ensures ok == fates(old(calls)).Acknowledged?
    {
      var fate := fates(calls);
      calls := calls + 1;
      if fate.Applied() {
        apps, nextId, effects := apps + [app.(id := nextId)], nextId + 1, effects + 1;
      }
      ok := fate.Acknowledged?;
    }

    method Update(id: int, app: ProwlarrApp) returns (ok: bool)
      modifies this
      ensures State() == CallUpdate(old(State()), fates, id, app)
      ensures ok == fates(old(calls)).Acknowledged?
    {
      var fate := fates(calls);
      calls := calls + 1;
      if fate.Applied() {
        apps, effects := Replace(apps, id, app), effects + 1;
      }
      ok := fate.Acknowledged?;
    }

    method Delete(id: int) returns (ok: bool)
      modifies this
      ensures State() == CallDelete(old(State()), fates, id)
      ensures ok == fates(old(calls)).Acknowledged?
    {
      var fate := fates(calls);
      calls := calls + 1;
      if fate.Applied() {
        apps, effects := Without(apps, id), effects + 1;
      }
      ok := fate.Acknowledged?;
    }
  }

  // ---- The pass ----

  predicate IsArr(a: DiscoveredApp): (arr: bool)
    ensures arr <==> a.appType in {Sonarr, Radarr, Lidarr}
  {
    a.appType.Sonarr? || a.appType.Radarr? || a.appType.Lidarr?
  }

  /** The record the pass writes for a discovered *arr app; id 0 asks for a fresh id. */
  function NewApp(a: DiscoveredApp): ProwlarrApp
    requires IsArr(a)
  {
    var implementation :=
      match a.appType
      case Sonarr => "Sonarr"
      case Radarr => "Radarr"
      case _ => "Lidarr";
    var configContract :=
      match a.appType
      case Sonarr => "SonarrSettings"
      case Radarr => "RadarrSettings"
      case _ => "LidarrSettings";
    ProwlarrApp(0, a.name, "fullSync", implementation, configContract,
                [ProwlarrAppField("baseUrl", Str(a.BaseUrl())), ProwlarrAppField("apiKey", Str(a.apiKey))],
                [])
  }

  /** The last registered application with this URL: a map filled in list order keeps that one. */
  function LastByUrl(apps: seq<ProwlarrApp>, url: string): (r: Option<ProwlarrApp>)
    ensures r.Some? ==> r.value in apps && r.value.BaseUrl() == Some(url)
  {
    if apps == [] then None
    else if Last(apps).BaseUrl() == Some(url) then Some(Last(apps))
    else LastByUrl(Init(apps), url)
  }

  ghost function SyncedUrls(discovered: seq<DiscoveredApp>): set<string> {
    set a | a in discovered :: a.BaseUrl()
  }

  ghost predicate Stale(app: ProwlarrApp, synced: set<string>) {
    app.BaseUrl().Some? && app.BaseUrl().value != "" && app.BaseUrl().value !in synced
  }

  function AddOrUpdate(w: World, fates: Fates, existing: seq<ProwlarrApp>, a: DiscoveredApp): World {
    if !IsArr(a) then w else
    match LastByUrl(existing, a.BaseUrl())
    case Some(e) => if e.name != a.name then CallUpdate(w, fates, e.id, NewApp(a).(id := e.id)) else w
    case None => CallAdd(w, fates, NewApp(a))
  }

  function AddOrUpdateAll(w: World, fates: Fates, existing: seq<ProwlarrApp>,
                          discovered: seq<DiscoveredApp>): World
    decreases |discovered|
  {
    if discovered == [] then w
    else AddOrUpdateAll(AddOrUpdate(w, fates, existing, discovered[0]), fates, existing, discovered[1..])
  }

  ghost function RemoveStale(w: World, fates: Fates, existing: seq<ProwlarrApp>, synced: set<string>): World
    decreases |existing|
  {
    if existing == [] then w
    else
      RemoveStale(if Stale(existing[0], synced) then CallDelete(w, fates, existing[0].id) else w,
                  fates, existing[1..], synced)
  }

  /** One whole pass. The list is read once, at the start: nothing is listed again. */
  ghost function Pass(w: World, fates: Fates, discovered: seq<DiscoveredApp>, autoRemove: bool): World {
    var synced := AddOrUpdateAll(w, fates, w.apps, discovered);
    if autoRemove then RemoveStale(synced, fates, w.apps, SyncedUrls(discovered)) else synced
  }

  /** `discovery` is None when the namespace sweep failed; `listed` is false when listing the
      registered applications failed. Both end the pass before any mutating call. */
  method SyncProwlarrApps(registry: Registry, discovery: Option<seq<DiscoveredApp>>, listed: bool, autoRemove: bool)
      returns (ok: bool)
    modifies registry
    ensures ok == (discovery.Some? && listed)
    ensures registry.State() ==
            if ok then Pass(old(registry.State()), registry.fates, discovery.value, autoRemove)
            else old(registry.State())
  {
    if discovery.None? || !listed {
      return false;
    }
    var discovered := discovery.value;
    ghost var start, fates := registry.State(), registry.fates;
    var existing := registry.apps;

    var existingByUrl: map<string, ProwlarrApp> := map[];
    for i := 0 to |existing|
      invariant forall u :: (u in existingByUrl) == LastByUrl(existing[..i], u).Some?
      invariant forall u :: u in existingByUrl ==> LastByUrl(existing[..i], u) == Some(existingByUrl[u])
    {
      assert Init(existing[..i + 1]) == existing[..i];
      if existing[i].BaseUrl().Some? {
        existingByUrl := existingByUrl[existing[i].BaseUrl().value := existing[i]];
      }
    }
    assert existing[..|existing|] == existing;

    var syncedUrls: set<string> := {};
    for i := 0 to |discovered|
      invariant syncedUrls == SyncedUrls(discovered[..i])
      invariant AddOrUpdateAll(registry.State(), fates, existing, discovered[i..])
             == AddOrUpdateAll(start, fates, existing, discovered)
    {
      var a := discovered[i];
      assert discovered[..i + 1] == discovered[..i] + [a];
      assert discovered[i..][1..] == discovered[i + 1..];
      syncedUrls := syncedUrls + {a.BaseUrl()};
      if IsArr(a) {
        if a.BaseUrl() in existingByUrl {
          var e := existingByUrl[a.BaseUrl()];
          if e.name != a.name {
            var _ := registry.Update(e.id, NewApp(a).(id := e.id));
          }
        } else {
          var _ := registry.Add(NewApp(a));
        }
      }
    }
    assert discovered[..|discovered|] == discovered;

    ghost var mid := registry.State();
    if autoRemove {
      for i := 0 to |existing|
        invariant RemoveStale(registry.State(), fates, existing[i..], syncedUrls)
               == RemoveStale(mid, fates, existing, syncedUrls)
      {
        assert existing[i..][1..] == existing[i + 1..];
        var url := match existing[i].BaseUrl() case Some(u) => u case None => "";
        if url != "" && url !in syncedUrls {
          var _ := registry.Delete(existing[i].id);
        }
      }
    }
    return true;
  }
}
