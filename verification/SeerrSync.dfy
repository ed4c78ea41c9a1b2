/** The Seerr registration pass: discovered Sonarr apps go into Seerr's Sonarr table, Radarr apps into
    its Radarr table, matched by host and port. */
module SeerrSync {
  import opened Common
  import opened Discovery

  // ---- Records ----

  /** `seasonFolders` is used for Sonarr only, `minimumAvailability` for Radarr only. */
  datatype Profile = Profile(profileId: real, profileName: string, rootFolder: string,
                             seasonFolders: Option<bool>, minimumAvailability: Option<string>)
  datatype Defaults = Defaults(standard: Profile, fourK: Option<Profile>)
  datatype SeerrConfig = SeerrConfig(sonarr: Option<Defaults>, radarr: Option<Defaults>)

  datatype Extra = SeasonFolders(enabled: bool) | MinimumAvailability(value: string)

  /** Seerr keeps ports as floating-point numbers. */
  datatype Server = Server(id: int, name: string, hostname: string, port: real, apiKey: string, useSsl: bool,
                           profileId: real, profileName: string, rootFolder: string,
                           is4k: bool, isDefault: bool, extra: Extra)
  {
    predicate At(host: string, p: real) {
      hostname == host && port == p
    }

    /** The key the removal sweep looks up: the port cast to a 32-bit integer. */
    function CastKey(): (string, int) {
      (hostname, CastToI32(port))
    }
  }

  const I32_MAX := 0x7fff_ffff
  const I32_MIN := -0x8000_0000

  /** A float cast to a 32-bit integer is cut towards zero and stays in range. */
  function CastToI32(r: real): (n: int)
    ensures I32_MIN <= n <= I32_MAX
    ensures 0.0 <= r <= I32_MAX as real ==> n as real <= r < n as real + 1.0
    ensures I32_MIN as real <= r <= 0.0 ==> n as real - 1.0 < r <= n as real
    ensures r >= I32_MAX as real ==> n == 0x7fff_ffff
    ensures r <= I32_MIN as real ==> n == -0x8000_0000
  {
    var cut := if r >= 0.0 then r.Floor else -(-r).Floor;
    if cut > I32_MAX then I32_MAX else if cut < I32_MIN then I32_MIN else cut
  }

  function DefaultsFor(config: Option<SeerrConfig>, kind: Kind): Option<Defaults> {
    match config
    case None => None
    case Some(c) => if kind.SonarrKind? then c.sonarr else c.radarr
  }

  function ProfileFor(config: Option<SeerrConfig>, kind: Kind, is4k: bool): Option<Profile> {
    match DefaultsFor(config, kind)
    case None => None
    case Some(d) => if is4k then d.fourK else Some(d.standard)
  }

  function ExtraFor(kind: Kind, profile: Option<Profile>): Extra {
    match kind
    case SonarrKind =>
      SeasonFolders(if profile.Some? && profile.value.seasonFolders.Some? then profile.value.seasonFolders.value
                    else true)
    case RadarrKind =>
      MinimumAvailability(if profile.Some? && profile.value.minimumAvailability.Some?
                          then profile.value.minimumAvailability.value else "released")
  }

  /** The record written for a discovered app; the id is filled in by the update or the server. */
  function Settings(config: Option<SeerrConfig>, kind: Kind, a: DiscoveredApp, id: int): Server {
    var is4k := a.instance == Some("4k");
    var profile := ProfileFor(config, kind, is4k);
    Server(id, a.name, a.host, a.port as real, a.apiKey, false,
           if profile.Some? then profile.value.profileId else 0.0,
           if profile.Some? then profile.value.profileName else "",
           if profile.Some? then profile.value.rootFolder else "",
           is4k, !is4k, ExtraFor(kind, profile))
  }

  // ---- One table, as Seerr keeps it ----

  datatype World = World(servers: seq<Server>, nextId: int, calls: nat, effects: nat) {
    ghost predicate Valid() {
      DistinctIds(servers) && forall i :: 0 <= i < |servers| ==> servers[i].id < nextId
    }
  }

  ghost predicate DistinctIds(servers: seq<Server>) {
    forall i, j :: 0 <= i < j < |servers| ==> servers[i].id != servers[j].id
  }

  function Replace(servers: seq<Server>, id: int, server: Server): (r: seq<Server>)
    ensures |r| == |servers|
    ensures forall i :: 0 <= i < |servers| ==> r[i] == if servers[i].id == id then server else servers[i]
  {
    if servers == [] then []
    else [if servers[0].id == id then server else servers[0]] + Replace(servers[1..], id, server)
  }

  function Without(servers: seq<Server>, id: int): (r: seq<Server>)
    ensures forall x :: x in r <==> x in servers && x.id != id
  {
    if servers == [] then []
    else if servers[0].id == id then Without(servers[1..], id)
    else [servers[0]] + Without(servers[1..], id)
  }

  function Call(w: World, fate: Fate, servers: seq<Server>, nextId: int): World {
    if fate.Applied() then World(servers, nextId, w.calls + 1, w.effects + 1)
    else w.(calls := w.calls + 1)
  }

  function CallCreate(w: World, fates: Fates, server: Server): World {
    Call(w, fates(w.calls), w.servers + [server.(id := w.nextId)], w.nextId + 1)
  }

  function CallUpdate(w: World, fates: Fates, id: int, server: Server): World {
    Call(w, fates(w.calls), Replace(w.servers, id, server), w.nextId)
  }

  function CallDelete(w: World, fates: Fates, id: int): World {
    Call(w, fates(w.calls), Without(w.servers, id), w.nextId)
  }

  class Table {
    const fates: Fates
    var servers: seq<Server>
    var nextId: int
    var calls: nat
    var effects: nat

    constructor (fates: Fates, servers: seq<Server>, nextId: int)
      ensures this.fates == fates && State() == World(servers, nextId, 0, 0)
    {
      this.fates := fates;
      this.servers, this.nextId, calls, effects := servers, nextId, 0, 0;
    }

    function State(): World
      reads this
    {
      World(servers, nextId, calls, effects)
    }

    method Create(server: Server) returns (ok: bool)
      modifies this
      ensures State() == CallCreate(old(State()), fates, server)
      ensures ok == fates(old(calls)).Acknowledged?
    {
      var fate := fates(calls);
      calls := calls + 1;
      if fate.Applied() {
        servers, nextId, effects := servers + [server.(id := nextId)], nextId + 1, effects + 1;
      }
      ok := fate.Acknowledged?;
    }

    method Update(id: int, server: Server) returns (ok: bool)
      modifies this
      ensures State() == CallUpdate(old(State()), fates, id, server)
      ensures ok == fates(old(calls)).Acknowledged?
    {
      var fate := fates(calls);
      calls := calls + 1;
      if fate.Applied() {
        servers, effects := Replace(servers, id, server), effects + 1;
      }
      ok := fate.Acknowledged?;
    }

    method Delete(id: int) returns (ok: bool)
      modifies this
      ensures State() == CallDelete(old(State()), fates, id)
      ensures ok == fates(old(calls)).Acknowledged?
    {
      var fate := fates(calls);
      calls := calls + 1;
      if fate.Applied() {
        servers, effects := Without(servers, id), effects + 1;
      }
      ok := fate.Acknowledged?;
    }
  }

  // ---- The pass, table by table ----

  function FindFirst(servers: seq<Server>, host: string, port: real): (r: Option<Server>)
    ensures r.Some? ==> r.value in servers && r.value.At(host, port)
    ensures r.None? ==> forall x :: x in servers ==> !x.At(host, port)
  {
    if servers == [] then None
    else if servers[0].At(host, port) then Some(servers[0])
    else FindFirst(servers[1..], host, port)
  }

  ghost function SyncedKeys(kind: Kind, discovered: seq<DiscoveredApp>): set<(string, int)> {
    set a | a in discovered && kind.Covers(a) :: (a.host, a.port)
  }

  function SyncOne(w: World, fates: Fates, existing: seq<Server>, kind: Kind, config: Option<SeerrConfig>,
                   a: DiscoveredApp): World {
    if !kind.Covers(a) then w else
    match FindFirst(existing, a.host, a.port as real)
    case Some(e) => CallUpdate(w, fates, e.id, Settings(config, kind, a, e.id))
    case None => CallCreate(w, fates, Settings(config, kind, a, 0))
  }

  function SyncAll(w: World, fates: Fates, existing: seq<Server>, kind: Kind, config: Option<SeerrConfig>,
                   discovered: seq<DiscoveredApp>): World
    decreases |discovered|
  {
    if discovered == [] then w
    else SyncAll(SyncOne(w, fates, existing, kind, config, discovered[0]), fates, existing, kind, config,
                 discovered[1..])
  }

  function RemoveStale(w: World, fates: Fates, existing: seq<Server>, synced: set<(string, int)>): World
    decreases |existing|
  {
    if existing == [] then w
    else
      RemoveStale(if existing[0].CastKey() !in synced then CallDelete(w, fates, existing[0].id) else w,
                  fates, existing[1..], synced)
  }

  /** The pass as one table sees it; the other table does not occur in it. */
  ghost function Pass(w: World, fates: Fates, kind: Kind, config: Option<SeerrConfig>, discovered: seq<DiscoveredApp>,
                      autoRemove: bool): World
  {
    var synced := SyncAll(w, fates, w.servers, kind, config, discovered);
    if autoRemove then RemoveStale(synced, fates, w.servers, SyncedKeys(kind, discovered)) else synced
  }

  /** `discovery` is None when the namespace sweep failed, `listed` is false when either table could
      not be listed; both end the pass before any mutating call. */
  method SyncSeerrServers(sonarr: Table, radarr: Table, discovery: Option<seq<DiscoveredApp>>, listed: bool,
                          config: Option<SeerrConfig>, autoRemove: bool) returns (ok: bool)
    requires sonarr != radarr
    modifies sonarr, radarr
    ensures ok == (discovery.Some? && listed)
    ensures sonarr.State()
            == if ok then Pass(old(sonarr.State()), sonarr.fates, SonarrKind, config, discovery.value, autoRemove)
               else old(sonarr.State())
    ensures radarr.State()
            == if ok then Pass(old(radarr.State()), radarr.fates, RadarrKind, config, discovery.value, autoRemove)
               else old(radarr.State())
  {
    if discovery.None? || !listed {
      return false;
    }
    var discovered := discovery.value;
    ghost var s0, r0 := sonarr.State(), radarr.State();
    var existingSonarr, existingRadarr := sonarr.servers, radarr.servers;
    var sonarrKeys: set<(string, int)>, radarrKeys: set<(string, int)> := {}, {};

    for i := 0 to |discovered|
      invariant sonarrKeys == SyncedKeys(SonarrKind, discovered[..i])
      invariant radarrKeys == SyncedKeys(RadarrKind, discovered[..i])
      invariant SyncAll(sonarr.State(), sonarr.fates, existingSonarr, SonarrKind, config, discovered[i..])
             == SyncAll(s0, sonarr.fates, existingSonarr, SonarrKind, config, discovered)
      invariant SyncAll(radarr.State(), radarr.fates, existingRadarr, RadarrKind, config, discovered[i..])
             == SyncAll(r0, radarr.fates, existingRadarr, RadarrKind, config, discovered)
    {
      var a := discovered[i];
      assert discovered[i..][1..] == discovered[i + 1..];
      SyncedKeysGrow(SonarrKind, discovered, i);
      SyncedKeysGrow(RadarrKind, discovered, i);
      if a.appType.Sonarr? {
        sonarrKeys := sonarrKeys + {(a.host, a.port)};
        SyncInto(sonarr, SonarrKind, existingSonarr, config, a);
      } else if a.appType.Radarr? {
        radarrKeys := radarrKeys + {(a.host, a.port)};
        SyncInto(radarr, RadarrKind, existingRadarr, config, a);
      }
    }
    assert discovered[..|discovered|] == discovered;

    if autoRemove {
      RemoveStaleFrom(sonarr, existingSonarr, sonarrKeys);
      RemoveStaleFrom(radarr, existingRadarr, radarrKeys);
    }
    return true;
  }

  lemma SyncedKeysGrow(kind: Kind, discovered: seq<DiscoveredApp>, i: nat)
    requires i < |discovered|
    ensures SyncedKeys(kind, discovered[..i + 1])
            == SyncedKeys(kind, discovered[..i])
               + if kind.Covers(discovered[i]) then {(discovered[i].host, discovered[i].port)} else {}
  {
    assert discovered[..i + 1] == discovered[..i] + [discovered[i]];
  }

  method SyncInto(table: Table, kind: Kind, existing: seq<Server>, config: Option<SeerrConfig>, a: DiscoveredApp)
    requires kind.Covers(a)
    modifies table
    ensures table.State() == SyncOne(old(table.State()), table.fates, existing, kind, config, a)
  {
    var found := FindFirst(existing, a.host, a.port as real);
    if found.Some? {
      var _ := table.Update(found.value.id, Settings(config, kind, a, found.value.id));
    } else {
      var _ := table.Create(Settings(config, kind, a, 0));
    }
  }

  method RemoveStaleFrom(table: Table, existing: seq<Server>, synced: set<(string, int)>)
    modifies table
    ensures table.State() == RemoveStale(old(table.State()), table.fates, existing, synced)
  {
    ghost var start := table.State();
    for i := 0 to |existing|
      invariant RemoveStale(table.State(), table.fates, existing[i..], synced)
             == RemoveStale(start, table.fates, existing, synced)
    {
      assert existing[i..][1..] == existing[i + 1..];
      if existing[i].CastKey() !in synced {
        var _ := table.Delete(existing[i].id);
      }
    }
  }
}
