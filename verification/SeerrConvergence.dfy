/** What the Seerr pass promises, for one table. */
module SeerrConvergence {
  import opened Common
  import opened Discovery
  import opened SeerrSync

  ghost predicate InRange(discovered: seq<DiscoveredApp>) {
    forall a :: a in discovered ==> I32_MIN <= a.port <= I32_MAX
  }

  /** No two discovered apps of the table's kind share host and port. */
  ghost predicate DistinctKeys(kind: Kind, discovered: seq<DiscoveredApp>) {
    forall i, j :: 0 <= i < j < |discovered| && kind.Covers(discovered[i]) && kind.Covers(discovered[j])
                   ==> (discovered[i].host, discovered[i].port) != (discovered[j].host, discovered[j].port)
  }

  // ---- What a record written by the pass says ----

  ghost predicate Describes(x: Server, config: Option<SeerrConfig>, kind: Kind, a: DiscoveredApp) {
    && x.At(a.host, a.port as real) && x.name == a.name && x.apiKey == a.apiKey && !x.useSsl
    && (x.is4k <==> a.instance == Some("4k"))
    && x.isDefault == !x.is4k
    && HasProfileOf(x, config, kind, a.instance == Some("4k"))
  }

  /** The record has the values of the profile that the configuration gives for Sonarr or Radarr: the
      standard one, or for a 4k app the 4k one, if there is one; otherwise the defaults. */
  ghost predicate HasProfileOf(x: Server, config: Option<SeerrConfig>, kind: Kind, is4k: bool) {
    match (kind, config)
    case (SonarrKind, Some(SeerrConfig(Some(Defaults(standard, fourK)), _))) =>
      if !is4k then HasSonarrProfile(x, standard)
      else if fourK.Some? then HasSonarrProfile(x, fourK.value)
      else HasNoProfile(x) && x.extra == SeasonFolders(true)
    case (RadarrKind, Some(SeerrConfig(_, Some(Defaults(standard, fourK))))) =>
      if !is4k then HasRadarrProfile(x, standard)
      else if fourK.Some? then HasRadarrProfile(x, fourK.value)
      else HasNoProfile(x) && x.extra == MinimumAvailability("released")
    case (SonarrKind, _) => HasNoProfile(x) && x.extra == SeasonFolders(true)
    case (RadarrKind, _) => HasNoProfile(x) && x.extra == MinimumAvailability("released")
  }

  ghost predicate HasProfile(x: Server, p: Profile) {
    x.profileId == p.profileId && x.profileName == p.profileName && x.rootFolder == p.rootFolder
  }

  ghost predicate HasNoProfile(x: Server) {
    x.profileId == 0.0 && x.profileName == "" && x.rootFolder == ""
  }

  /** Season folders are on unless the profile turns them off. */
  ghost predicate HasSonarrProfile(x: Server, p: Profile) {
    HasProfile(x, p) && x.extra == SeasonFolders(p.seasonFolders != Some(false))
  }

  /** The minimum availability is "released" unless the profile sets another. */
  ghost predicate HasRadarrProfile(x: Server, p: Profile) {
    && HasProfile(x, p)
    && x.extra == MinimumAvailability(match p.minimumAvailability case Some(v) => v case None => "released")
  }

  ghost predicate Written(x: Server, config: Option<SeerrConfig>, kind: Kind, discovered: seq<DiscoveredApp>) {
    exists a :: a in discovered && kind.Covers(a) && Describes(x, config, kind, a)
  }

  /** Every listed entry is still at its index with its id, host and port, untouched or rewritten for
      a discovered app; everything appended was written for a discovered app. */
  ghost predicate Aligned(existing: seq<Server>, servers: seq<Server>, config: Option<SeerrConfig>, kind: Kind,
                          discovered: seq<DiscoveredApp>)
  {
    && |existing| <= |servers|
    && (forall i :: 0 <= i < |existing| ==>
          && servers[i].id == existing[i].id
          && servers[i].hostname == existing[i].hostname && servers[i].port == existing[i].port
          && (servers[i] == existing[i] || Written(servers[i], config, kind, discovered)))
    && (forall i :: |existing| <= i < |servers| ==> Written(servers[i], config, kind, discovered))
  }

  lemma SettingsDescribe(config: Option<SeerrConfig>, kind: Kind, a: DiscoveredApp, id: int)
    ensures Describes(Settings(config, kind, a, id), config, kind, a)
  {
  }

  lemma CastOfWhole(p: int)
    requires I32_MIN <= p <= I32_MAX
    ensures CastToI32(p as real) == p
  {
    assert (p as real).Floor == p;
  }

  lemma WrittenKey(x: Server, config: Option<SeerrConfig>, kind: Kind, discovered: seq<DiscoveredApp>)
    requires Written(x, config, kind, discovered) && InRange(discovered)
    ensures x.CastKey() in SyncedKeys(kind, discovered) && x.port == x.CastKey().1 as real
  {
    var a :| a in discovered && kind.Covers(a) && Describes(x, config, kind, a);
    CastOfWhole(a.port);
    assert (a.host, a.port) in SyncedKeys(kind, discovered);
  }

  lemma AlignedReplace(existing: seq<Server>, servers: seq<Server>, k: nat, server: Server, config: Option<SeerrConfig>,
                       kind: Kind, discovered: seq<DiscoveredApp>)
    requires Aligned(existing, servers, config, kind, discovered) && DistinctIds(servers) && k < |existing|
    requires server.id == existing[k].id && server.At(existing[k].hostname, existing[k].port)
    requires Written(server, config, kind, discovered)
    ensures var r := Replace(servers, server.id, server);
            Aligned(existing, r, config, kind, discovered) && DistinctIds(r)
  {
    var r := Replace(servers, server.id, server);
    assert forall i :: 0 <= i < |servers| ==> r[i] == if i == k then server else servers[i];
  }

  lemma AlignedAppend(existing: seq<Server>, servers: seq<Server>, server: Server, config: Option<SeerrConfig>,
                      kind: Kind, discovered: seq<DiscoveredApp>)
    requires Aligned(existing, servers, config, kind, discovered) && Written(server, config, kind, discovered)
    ensures Aligned(existing, servers + [server], config, kind, discovered)
  {
  }

  lemma ValidReplace(servers: seq<Server>, server: Server)
    requires DistinctIds(servers)
    ensures DistinctIds(Replace(servers, server.id, server))
    ensures forall i :: 0 <= i < |servers| ==> Replace(servers, server.id, server)[i].id == servers[i].id
  {
  }

  lemma StepKeepsValid(w: World, fates: Fates, existing: seq<Server>, kind: Kind, config: Option<SeerrConfig>,
                       a: DiscoveredApp)
    requires w.Valid()
    ensures SyncOne(w, fates, existing, kind, config, a).Valid()
  {
    var found := FindFirst(existing, a.host, a.port as real);
    if found.Some? {
      ValidReplace(w.servers, Settings(config, kind, a, found.value.id));
    }
  }

  lemma SettingsWritten(config: Option<SeerrConfig>, kind: Kind, a: DiscoveredApp, id: int,
                        discovered: seq<DiscoveredApp>)
    requires a in discovered && kind.Covers(a)
    ensures Written(Settings(config, kind, a, id), config, kind, discovered)
  {
    SettingsDescribe(config, kind, a, id);
  }

  lemma AlignedUpdate(existing: seq<Server>, servers: seq<Server>, e: Server, server: Server,
                      config: Option<SeerrConfig>, kind: Kind, discovered: seq<DiscoveredApp>)
    requires Aligned(existing, servers, config, kind, discovered) && DistinctIds(servers) && e in existing
    requires server.id == e.id && server.At(e.hostname, e.port) && Written(server, config, kind, discovered)
    ensures Aligned(existing, Replace(servers, e.id, server), config, kind, discovered)
  {
    var k :| 0 <= k < |existing| && existing[k] == e;
    AlignedReplace(existing, servers, k, server, config, kind, discovered);
  }

  lemma AlignedStep(w: World, fates: Fates, existing: seq<Server>, kind: Kind, config: Option<SeerrConfig>,
                    a: DiscoveredApp, discovered: seq<DiscoveredApp>)
    requires w.Valid() && Aligned(existing, w.servers, config, kind, discovered) && a in discovered
    ensures Aligned(existing, SyncOne(w, fates, existing, kind, config, a).servers, config, kind, discovered)
  {
    if kind.Covers(a) {
      var found := FindFirst(existing, a.host, a.port as real);
      var id := if found.Some? then found.value.id else w.nextId;
      var server := Settings(config, kind, a, id);
      assert server.At(a.host, a.port as real);
      SettingsWritten(config, kind, a, id, discovered);
      if found.Some? {
        AlignedUpdate(existing, w.servers, found.value, server, config, kind, discovered);
      } else {
        AlignedAppend(existing, w.servers, server, config, kind, discovered);
      }
    }
  }

  lemma {:induction false} SweepAligned(w: World, fates: Fates, existing: seq<Server>, kind: Kind,
                                        config: Option<SeerrConfig>,
                                        todo: seq<DiscoveredApp>, discovered: seq<DiscoveredApp>)
    requires w.Valid() && Aligned(existing, w.servers, config, kind, discovered)
    requires forall a :: a in todo ==> a in discovered
    ensures var w' := SyncAll(w, fates, existing, kind, config, todo);
            w'.Valid() && Aligned(existing, w'.servers, config, kind, discovered)
    decreases |todo|
  {
    if todo != [] {
      assert todo[0] in todo;
      assert forall a :: a in todo[1..] ==> a in todo;
      AlignedStep(w, fates, existing, kind, config, todo[0], discovered);
      StepKeepsValid(w, fates, existing, kind, config, todo[0]);
      SweepAligned(SyncOne(w, fates, existing, kind, config, todo[0]), fates, existing, kind, config, todo[1..],
                   discovered);
    }
  }

  // ---- Removal ----

  ghost function StaleIds(existing: seq<Server>, synced: set<(string, int)>): set<int> {
    set e | e in existing && e.CastKey() !in synced :: e.id
  }

  lemma {:induction false} WithoutKeepsDistinct(servers: seq<Server>, id: int)
    requires DistinctIds(servers)
    ensures DistinctIds(Without(servers, id))
  {
    if servers != [] {
      WithoutKeepsDistinct(servers[1..], id);
      forall x | x in Without(servers[1..], id) ensures x.id != servers[0].id {
        assert x in servers[1..];
      }
    }
  }

  /** Deleting entries that are not at a place hides nothing there. */
  lemma {:induction false} WithoutKeepsFirst(servers: seq<Server>, id: int, host: string, port: real)
    requires forall x :: x in servers && x.id == id ==> !x.At(host, port)
    ensures FindFirst(Without(servers, id), host, port) == FindFirst(servers, host, port)
  {
    if servers != [] {
      assert servers[0] in servers;
      WithoutKeepsFirst(servers[1..], id, host, port);
    }
  }

  ghost predicate Removal(w: World, w': World, ids: set<int>, fates: Fates) {
    && w'.Valid()
    && (forall x :: x in w'.servers ==> x in w.servers)
    && (forall x :: x in w.servers && x.id !in ids ==> x in w'.servers)
    && ((forall n :: fates(n).Applied()) ==> forall x :: x in w'.servers ==> x.id !in ids)
    && (ids == {} ==> w' == w)
  }

  lemma {:induction false} RemovalOf(w: World, fates: Fates, existing: seq<Server>, synced: set<(string, int)>)
    requires w.Valid()
    ensures Removal(w, RemoveStale(w, fates, existing, synced), StaleIds(existing, synced), fates)
    decreases |existing|
  {
    if existing != [] {
      var e, rest := existing[0], existing[1..];
      assert e in existing;
      var w1 := if e.CastKey() !in synced then CallDelete(w, fates, e.id) else w;
      WithoutKeepsDistinct(w.servers, e.id);
      forall i | 0 <= i < |w1.servers| ensures w1.servers[i].id < w1.nextId { assert w1.servers[i] in w1.servers; }
      RemovalOf(w1, fates, rest, synced);
      assert StaleIds(existing, synced) == StaleIds(rest, synced) + if e.CastKey() !in synced then {e.id} else {};
    }
  }

  lemma {:induction false} RemovalKeepsFirst(w: World, fates: Fates, existing: seq<Server>, synced: set<(string, int)>,
                                             host: string, port: real)
    requires forall x :: x in w.servers && x.id in StaleIds(existing, synced) ==> !x.At(host, port)
    ensures FindFirst(RemoveStale(w, fates, existing, synced).servers, host, port) == FindFirst(w.servers, host, port)
    decreases |existing|
  {
    if existing != [] {
      var e, rest := existing[0], existing[1..];
      assert e in existing && forall x :: x in rest ==> x in existing;
      if e.CastKey() !in synced {
        assert e.id in StaleIds(existing, synced);
        WithoutKeepsFirst(w.servers, e.id, host, port);
      }
      RemovalKeepsFirst(if e.CastKey() !in synced then CallDelete(w, fates, e.id) else w, fates, rest, synced,
                        host, port);
    }
  }

  // ---- The frame of a pass, under any failures ----

  /** The entry is still there, with its id and place, untouched or rewritten for a discovered app. */
  ghost predicate Kept(x: Server, servers: seq<Server>, config: Option<SeerrConfig>, kind: Kind,
                       discovered: seq<DiscoveredApp>) {
    exists y :: y in servers && y.id == x.id && y.At(x.hostname, x.port)
                && (y == x || Written(y, config, kind, discovered))
  }

  lemma KeptThroughRemoval(w: World, w': World, ids: set<int>, fates: Fates, existing: seq<Server>, k: nat,
                           config: Option<SeerrConfig>, kind: Kind, discovered: seq<DiscoveredApp>)
    requires Aligned(existing, w.servers, config, kind, discovered) && Removal(w, w', ids, fates)
    requires k < |existing| && existing[k].id !in ids
    ensures Kept(existing[k], w'.servers, config, kind, discovered)
  {
    var y := w.servers[k];
    assert y in w.servers;
  }

  lemma {:induction false} AlignedMembers(existing: seq<Server>, servers: seq<Server>, config: Option<SeerrConfig>,
                                          kind: Kind, discovered: seq<DiscoveredApp>, x: Server)
    requires Aligned(existing, servers, config, kind, discovered) && x in servers
    ensures x in existing || Written(x, config, kind, discovered)
  {
    var i :| 0 <= i < |servers| && servers[i] == x;
    if i < |existing| && servers[i] == existing[i] { assert existing[i] in existing; }
  }

  /** What the pass does to the table, in two stages with the listed entries still traceable. */
  lemma PassStages(w: World, fates: Fates, kind: Kind, config: Option<SeerrConfig>, discovered: seq<DiscoveredApp>,
                   autoRemove: bool)
    returns (w1: World, ids: set<int>)
    requires w.Valid()
    ensures Aligned(w.servers, w1.servers, config, kind, discovered)
    ensures Removal(w1, Pass(w, fates, kind, config, discovered, autoRemove), ids, fates)
    ensures ids == if autoRemove then StaleIds(w.servers, SyncedKeys(kind, discovered)) else {}
  {
    w1 := SyncAll(w, fates, w.servers, kind, config, discovered);
    SweepAligned(w, fates, w.servers, kind, config, discovered, discovered);
    RemovalOf(w1, fates, w.servers, SyncedKeys(kind, discovered));
    ids := if autoRemove then StaleIds(w.servers, SyncedKeys(kind, discovered)) else {};
  }

  /** Whatever is in the table after a pass was there, or was written for a discovered app of this
      table's kind. */
  lemma PassAdds(w: World, fates: Fates, kind: Kind, config: Option<SeerrConfig>, discovered: seq<DiscoveredApp>,
                 autoRemove: bool, x: Server)
    requires w.Valid() && x in Pass(w, fates, kind, config, discovered, autoRemove).servers
    ensures x in w.servers || Written(x, config, kind, discovered)
  {
    var w1, ids := PassStages(w, fates, kind, config, discovered, autoRemove);
    AlignedMembers(w.servers, w1.servers, config, kind, discovered, x);
  }

  /** An entry whose cast key is discovered is never deleted, and without auto-removal none is. */
  lemma PassKeeps(w: World, fates: Fates, kind: Kind, config: Option<SeerrConfig>, discovered: seq<DiscoveredApp>,
                  autoRemove: bool, x: Server)
    requires w.Valid() && x in w.servers
    requires autoRemove ==> x.CastKey() in SyncedKeys(kind, discovered)
    ensures Kept(x, Pass(w, fates, kind, config, discovered, autoRemove).servers, config, kind, discovered)
  {
    var w1, ids := PassStages(w, fates, kind, config, discovered, autoRemove);
    var k :| 0 <= k < |w.servers| && w.servers[k] == x;
    IdNotStale(w.servers, k, SyncedKeys(kind, discovered));
    KeptThroughRemoval(w1, Pass(w, fates, kind, config, discovered, autoRemove), ids, fates, w.servers, k, config,
                       kind, discovered);
  }

  lemma IdNotStale(servers: seq<Server>, k: nat, synced: set<(string, int)>)
    requires DistinctIds(servers) && k < |servers|
    ensures servers[k].CastKey() in synced ==> servers[k].id !in StaleIds(servers, synced)
  {
  }

  /** Of the entries at one place, the first in the table counts. */
  lemma {:induction false} FindFirstIsFirst(servers: seq<Server>, host: string, port: real, k: nat)
    requires k < |servers| && servers[k].At(host, port)
    requires forall j :: 0 <= j < k ==> !servers[j].At(host, port)
    ensures FindFirst(servers, host, port) == Some(servers[k])
  {
    if k > 0 {
      FindFirstIsFirst(servers[1..], host, port, k - 1);
    }
  }

  // ---- Settling ----

  /** The app's place holds, first, exactly the record the pass would write there. */
  ghost predicate Settled(servers: seq<Server>, kind: Kind, config: Option<SeerrConfig>, a: DiscoveredApp) {
    var first := FindFirst(servers, a.host, a.port as real);
    first.Some? && first.value == Settings(config, kind, a, first.value.id)
  }

  lemma {:induction false} ReplaceKeepsFirst(servers: seq<Server>, server: Server, host: string, port: real)
    requires server.At(host, port) && DistinctIds(servers)
    requires FindFirst(servers, host, port).Some? && FindFirst(servers, host, port).value.id == server.id
    ensures FindFirst(Replace(servers, server.id, server), host, port) == Some(server)
  {
    var r := Replace(servers, server.id, server);
    assert r[1..] == Replace(servers[1..], server.id, server);
    if !servers[0].At(host, port) {
      assert FindFirst(servers[1..], host, port).value in servers[1..];
      ReplaceKeepsFirst(servers[1..], server, host, port);
    }
  }

  lemma {:induction false} ReplaceFrame(servers: seq<Server>, server: Server, host: string, port: real)
    requires !server.At(host, port) && forall x :: x in servers && x.id == server.id ==> !x.At(host, port)
    ensures FindFirst(Replace(servers, server.id, server), host, port) == FindFirst(servers, host, port)
  {
    if servers != [] {
      var r := Replace(servers, server.id, server);
      assert r[1..] == Replace(servers[1..], server.id, server);
      assert servers[0] in servers;
      ReplaceFrame(servers[1..], server, host, port);
    }
  }

  lemma {:induction false} AppendFirst(servers: seq<Server>, server: Server, host: string, port: real)
    ensures FindFirst(servers + [server], host, port)
            == if FindFirst(servers, host, port).Some? then FindFirst(servers, host, port)
               else if server.At(host, port) then Some(server) else None
  {
    if servers == [] {
      assert servers + [server] == [server];
    } else {
      assert servers + [server] == [servers[0]] + (servers[1..] + [server]);
      AppendFirst(servers[1..], server, host, port);
    }
  }

  predicate Here(kind: Kind, a: DiscoveredApp, host: string, port: real) {
    kind.Covers(a) && a.host == host && a.port as real == port
  }

  /** The first and the last discovered app of the kind at a place. */
  function FirstAt(kind: Kind, discovered: seq<DiscoveredApp>, host: string, port: real): Option<DiscoveredApp> {
    if discovered == [] then None
    else if Here(kind, discovered[0], host, port) then Some(discovered[0])
    else FirstAt(kind, discovered[1..], host, port)
  }

  function LastAt(kind: Kind, discovered: seq<DiscoveredApp>, host: string, port: real): Option<DiscoveredApp> {
    if discovered == [] then None
    else
      var later := LastAt(kind, discovered[1..], host, port);
      if later.None? && Here(kind, discovered[0], host, port) then Some(discovered[0]) else later
  }

  lemma {:induction false} AppsAtPlace(kind: Kind, discovered: seq<DiscoveredApp>, host: string, port: real)
    ensures var first, last := FirstAt(kind, discovered, host, port), LastAt(kind, discovered, host, port);
            && (first.None? <==> last.None?)
            && (first.None? ==> forall a :: a in discovered ==> !Here(kind, a, host, port))
            && (first.Some? ==> first.value in discovered && Here(kind, first.value, host, port))
            && (last.Some? ==> last.value in discovered && Here(kind, last.value, host, port))
  {
    if discovered != [] {
      AppsAtPlace(kind, discovered[1..], host, port);
      assert forall a :: a in discovered <==> a == discovered[0] || a in discovered[1..];
    }
  }

  lemma SamePlace(existing: seq<Server>, servers: seq<Server>, config: Option<SeerrConfig>, kind: Kind,
                  discovered: seq<DiscoveredApp>, e: Server, x: Server)
    requires Aligned(existing, servers, config, kind, discovered) && DistinctIds(servers)
    requires e in existing && x in servers && x.id == e.id
    ensures x.At(e.hostname, e.port)
  {
    var i :| 0 <= i < |existing| && existing[i] == e;
    var j :| 0 <= j < |servers| && servers[j] == x;
    assert servers[i].id == servers[j].id;
  }

  /** A call for an app elsewhere leaves a place as it is. */
  lemma StepElsewhere(w: World, fates: Fates, existing: seq<Server>, kind: Kind, config: Option<SeerrConfig>,
                      a: DiscoveredApp, discovered: seq<DiscoveredApp>, host: string, port: real)
    requires w.Valid() && Aligned(existing, w.servers, config, kind, discovered)
    requires !Here(kind, a, host, port)
    ensures FindFirst(SyncOne(w, fates, existing, kind, config, a).servers, host, port)
            == FindFirst(w.servers, host, port)
  {
    if kind.Covers(a) {
      match FindFirst(existing, a.host, a.port as real)
      case Some(e) =>
        forall x | x in w.servers && x.id == e.id ensures !x.At(host, port) {
          SamePlace(existing, w.servers, config, kind, discovered, e, x);
        }
        ReplaceFrame(w.servers, Settings(config, kind, a, e.id), host, port);
      case None => AppendFirst(w.servers, Settings(config, kind, a, w.nextId), host, port);
    }
  }

  /** What an applied call for an app at a place leaves first there: its record over a listed entry, or
      at the end of a table that had no entry there yet. */
  lemma StepAtPlace(w: World, fates: Fates, existing: seq<Server>, kind: Kind, config: Option<SeerrConfig>,
                    a: DiscoveredApp)
    requires w.Valid() && kind.Covers(a) && fates(w.calls).Applied()
    requires SameFirst(existing, w.servers, a.host, a.port as real)
    ensures var first := FindFirst(w.servers, a.host, a.port as real);
            FindFirst(SyncOne(w, fates, existing, kind, config, a).servers, a.host, a.port as real)
            == match FindFirst(existing, a.host, a.port as real)
               case Some(e) => Some(Settings(config, kind, a, e.id))
               case None => if first.Some? then first else Some(Settings(config, kind, a, w.nextId))
  {
    var found := FindFirst(existing, a.host, a.port as real);
    var id := if found.Some? then found.value.id else w.nextId;
    var server := Settings(config, kind, a, id);
    assert server.At(a.host, a.port as real) && server.id == id;
    if found.Some? {
      ReplaceKeepsFirst(w.servers, server, a.host, a.port as real);
    } else {
      AppendFirst(w.servers, server, a.host, a.port as real);
    }
  }

  /** A listed place is still held, first, by the entry that was listed first there. */
  ghost predicate SameFirst(existing: seq<Server>, servers: seq<Server>, host: string, port: real) {
    var listed, first := FindFirst(existing, host, port), FindFirst(servers, host, port);
    listed.Some? ==> first.Some? && first.value.id == listed.value.id
  }

  /** What the sweep leaves first at a place: over a listed entry the record of the last app there is
      written; at a place that was free the record of the first app there stays. */
  ghost predicate SweptFirst(existing: seq<Server>, before: Option<Server>, after: Option<Server>, kind: Kind,
                             config: Option<SeerrConfig>, todo: seq<DiscoveredApp>, host: string, port: real)
  {
    var first, last := FirstAt(kind, todo, host, port), LastAt(kind, todo, host, port);
    if first.None? || last.None? then after == before
    else if FindFirst(existing, host, port).Some? then
      after.Some? && after.value == Settings(config, kind, last.value, after.value.id)
    else if before.Some? then after == before
    else after.Some? && after.value == Settings(config, kind, first.value, after.value.id)
  }

  /** The first step of a sweep, and the rest of it. */
  lemma SweptFirstStep(existing: seq<Server>, before: Option<Server>, mid: Option<Server>, after: Option<Server>,
                       kind: Kind, config: Option<SeerrConfig>, todo: seq<DiscoveredApp>, host: string, port: real,
                       id: int)
    requires todo != [] && SweptFirst(existing, mid, after, kind, config, todo[1..], host, port)
    requires mid == if !Here(kind, todo[0], host, port) then before
                    else match FindFirst(existing, host, port)
                         case Some(e) => Some(Settings(config, kind, todo[0], e.id))
                         case None => if before.Some? then before else Some(Settings(config, kind, todo[0], id))
    ensures SweptFirst(existing, before, after, kind, config, todo, host, port)
  {
    AppsAtPlace(kind, todo[1..], host, port);
  }

  lemma {:induction false} SweepAtPlace(w: World, fates: Fates, existing: seq<Server>, kind: Kind,
                                        config: Option<SeerrConfig>, todo: seq<DiscoveredApp>,
                                        discovered: seq<DiscoveredApp>, host: string, port: real)
    requires w.Valid() && Aligned(existing, w.servers, config, kind, discovered) && forall n :: fates(n).Applied()
    requires forall a :: a in todo ==> a in discovered
    requires SameFirst(existing, w.servers, host, port)
    ensures SweptFirst(existing, FindFirst(w.servers, host, port),
                       FindFirst(SyncAll(w, fates, existing, kind, config, todo).servers, host, port),
                       kind, config, todo, host, port)
    decreases |todo|
  {
    if todo != [] {
      var a, rest := todo[0], todo[1..];
      assert a in todo;
      assert forall b :: b in rest ==> b in todo;
      var w1 := SyncOne(w, fates, existing, kind, config, a);
      var w' := SyncAll(w1, fates, existing, kind, config, rest);
      AlignedStep(w, fates, existing, kind, config, a, discovered);
      StepKeepsValid(w, fates, existing, kind, config, a);
      if Here(kind, a, host, port) {
        StepAtPlace(w, fates, existing, kind, config, a);
      } else {
        StepElsewhere(w, fates, existing, kind, config, a, discovered, host, port);
      }
      SweepAtPlace(w1, fates, existing, kind, config, rest, discovered, host, port);
      SweptFirstStep(existing, FindFirst(w.servers, host, port), FindFirst(w1.servers, host, port),
                     FindFirst(w'.servers, host, port), kind, config, todo, host, port, w.nextId);
    }
  }

  // ---- A pass in which every call is applied ----

  ghost function Places(servers: seq<Server>): set<(string, real)> {
    set x | x in servers :: (x.hostname, x.port)
  }

  ghost function DiscoveredPlaces(kind: Kind, discovered: seq<DiscoveredApp>): set<(string, real)> {
    set a | a in discovered && kind.Covers(a) :: (a.host, a.port as real)
  }

  /** No listed entry has a fractional or out-of-range port that the cast turns into a discovered key. */
  ghost predicate NoDisguise(servers: seq<Server>, kind: Kind, discovered: seq<DiscoveredApp>) {
    forall x :: x in servers && x.CastKey() in SyncedKeys(kind, discovered) ==> x.port == x.CastKey().1 as real
  }

  lemma StaleIsElsewhere(x: Server, kind: Kind, discovered: seq<DiscoveredApp>, a: DiscoveredApp)
    requires InRange(discovered) && a in discovered && kind.Covers(a) && x.CastKey() !in SyncedKeys(kind, discovered)
    ensures !x.At(a.host, a.port as real)
  {
    CastOfWhole(a.port);
    assert (a.host, a.port) in SyncedKeys(kind, discovered);
  }

  /** The ids the removal sweep deletes belong to entries whose cast key is not discovered. */
  lemma StaleIdsAreStale(existing: seq<Server>, servers: seq<Server>, config: Option<SeerrConfig>, kind: Kind,
                         discovered: seq<DiscoveredApp>, x: Server)
    requires Aligned(existing, servers, config, kind, discovered) && DistinctIds(servers) && InRange(discovered)
    requires x in servers
    ensures x.id in StaleIds(existing, SyncedKeys(kind, discovered)) ==> x.CastKey() !in SyncedKeys(kind, discovered)
    ensures x.id !in StaleIds(existing, SyncedKeys(kind, discovered)) ==> x.CastKey() in SyncedKeys(kind, discovered)
  {
    var i :| 0 <= i < |servers| && servers[i] == x;
    if i < |existing| {
      assert existing[i] in existing && existing[i].CastKey() == x.CastKey();
      forall e | e in existing && e.id == x.id ensures e == existing[i] {
        var j :| 0 <= j < |existing| && existing[j] == e;
        assert servers[j].id == servers[i].id;
      }
    } else {
      WrittenKey(x, config, kind, discovered);
      forall e | e in existing ensures e.id != x.id {
        var j :| 0 <= j < |existing| && existing[j] == e;
        assert servers[j].id != servers[i].id;
      }
    }
  }

  /** Whose record a fully applied pass leaves at the place of `a`: that of the last discovered app of
      the kind there if the place was listed, otherwise that of the first. */
  function Winner(existing: seq<Server>, kind: Kind, discovered: seq<DiscoveredApp>, a: DiscoveredApp)
      : Option<DiscoveredApp>
  {
    if FindFirst(existing, a.host, a.port as real).Some? then LastAt(kind, discovered, a.host, a.port as real)
    else FirstAt(kind, discovered, a.host, a.port as real)
  }

  /** The first entry at each discovered place is the record of the winner there. */
  lemma PlaceHoldsWinner(w: World, fates: Fates, kind: Kind, config: Option<SeerrConfig>,
                         discovered: seq<DiscoveredApp>, autoRemove: bool, a: DiscoveredApp)
    requires w.Valid() && InRange(discovered) && forall n :: fates(n).Applied()
    requires a in discovered && kind.Covers(a)
    ensures var winner := Winner(w.servers, kind, discovered, a);
            var after := Pass(w, fates, kind, config, discovered, autoRemove).servers;
            var first := FindFirst(after, a.host, a.port as real);
            && winner.Some? && winner.value in discovered && Here(kind, winner.value, a.host, a.port as real)
            && first.Some? && first.value == Settings(config, kind, winner.value, first.value.id)
  {
    var synced := SyncedKeys(kind, discovered);
    var w1 := SyncAll(w, fates, w.servers, kind, config, discovered);
    assert Here(kind, a, a.host, a.port as real);
    AppsAtPlace(kind, discovered, a.host, a.port as real);
    SweepAtPlace(w, fates, w.servers, kind, config, discovered, discovered, a.host, a.port as real);
    SweepAligned(w, fates, w.servers, kind, config, discovered, discovered);
    if autoRemove {
      forall x | x in w1.servers && x.id in StaleIds(w.servers, synced) ensures !x.At(a.host, a.port as real) {
        StaleIdsAreStale(w.servers, w1.servers, config, kind, discovered, x);
        StaleIsElsewhere(x, kind, discovered, a);
      }
      RemovalKeepsFirst(w1, fates, w.servers, synced, a.host, a.port as real);
    }
  }

  /** So a pass settles an app exactly when the winner at its place has the same record, as it does if
      no other app of the kind shares the place. */
  lemma PassSettlesIff(w: World, fates: Fates, kind: Kind, config: Option<SeerrConfig>,
                       discovered: seq<DiscoveredApp>, autoRemove: bool, a: DiscoveredApp)
    requires w.Valid() && InRange(discovered) && forall n :: fates(n).Applied()
    requires a in discovered && kind.Covers(a)
    ensures var winner := Winner(w.servers, kind, discovered, a);
            && winner.Some?
            && (Settled(Pass(w, fates, kind, config, discovered, autoRemove).servers, kind, config, a)
                <==> Settings(config, kind, winner.value, 0) == Settings(config, kind, a, 0))
            && (DistinctKeys(kind, discovered) ==> winner.value == a)
  {
    PlaceHoldsWinner(w, fates, kind, config, discovered, autoRemove, a);
    var winner := Winner(w.servers, kind, discovered, a).value;
    var id := FindFirst(Pass(w, fates, kind, config, discovered, autoRemove).servers, a.host, a.port as real).value.id;
    assert Settings(config, kind, winner, id).(id := 0) == Settings(config, kind, winner, 0);
    assert Settings(config, kind, a, id).(id := 0) == Settings(config, kind, a, 0);
    if DistinctKeys(kind, discovered) {
      var i :| 0 <= i < |discovered| && discovered[i] == a;
      var j :| 0 <= j < |discovered| && discovered[j] == winner;
      assert winner.port as real == a.port as real;
    }
  }

  /** With auto-removal, only entries whose cast key is discovered are left. */
  lemma PassRemovesStale(w: World, fates: Fates, kind: Kind, config: Option<SeerrConfig>,
                         discovered: seq<DiscoveredApp>, x: Server)
    requires w.Valid() && InRange(discovered) && forall n :: fates(n).Applied()
    requires x in Pass(w, fates, kind, config, discovered, true).servers
    ensures x.CastKey() in SyncedKeys(kind, discovered)
    ensures x in w.servers || x.port == x.CastKey().1 as real
  {
    var w1 := SyncAll(w, fates, w.servers, kind, config, discovered);
    SweepAligned(w, fates, w.servers, kind, config, discovered, discovered);
    RemovalOf(w1, fates, w.servers, SyncedKeys(kind, discovered));
    StaleIdsAreStale(w.servers, w1.servers, config, kind, discovered, x);
    AlignedMembers(w.servers, w1.servers, config, kind, discovered, x);
    if x !in w.servers { WrittenKey(x, config, kind, discovered); }
  }

  /** A pass with auto-removal in which every call is applied leaves exactly the discovered places of
      its kind, if and only if no listed entry is disguised by the cast of its port. Apps may share a
      place. */
  lemma ExactPlacesIff(w: World, fates: Fates, kind: Kind, config: Option<SeerrConfig>, discovered: seq<DiscoveredApp>)
    requires w.Valid() && InRange(discovered) && forall n :: fates(n).Applied()
    ensures Places(Pass(w, fates, kind, config, discovered, true).servers) == DiscoveredPlaces(kind, discovered)
            <==> NoDisguise(w.servers, kind, discovered)
  {
    var w' := Pass(w, fates, kind, config, discovered, true);
    DiscoveredPlacesHeld(w, fates, kind, config, discovered);
    if NoDisguise(w.servers, kind, discovered) {
      forall x | x in w'.servers ensures (x.hostname, x.port) in DiscoveredPlaces(kind, discovered) {
        PassRemovesStale(w, fates, kind, config, discovered, x);
        CastKeyPlace(x, kind, discovered);
      }
    } else {
      var x :| x in w.servers && x.CastKey() in SyncedKeys(kind, discovered) && x.port != x.CastKey().1 as real;
      PassKeeps(w, fates, kind, config, discovered, true, x);
      DisguisedIsNotDiscovered(x, kind, discovered);
      assert (x.hostname, x.port) in Places(w'.servers);
    }
  }

  /** Such an entry: its port 8989.5 is cast to the discovered 8989, so it is never removed, yet it is
      not at the discovered place. */
  lemma DisguisedPortSurvives(fates: Fates, config: Option<SeerrConfig>)
    requires forall n :: fates(n).Applied()
    ensures var old' := Server(1, "old", "tv.media.svc", 8989.5, "key", false, 0.0, "", "", false, true,
                               SeasonFolders(true));
            var discovered := [DiscoveredApp("tv", Sonarr, "tv.media.svc", 8989, "key", None)];
            var after := Pass(World([old'], 2, 0, 0), fates, SonarrKind, config, discovered, true).servers;
            && ("tv.media.svc", 8989.5) in Places(after)
            && Places(after) != DiscoveredPlaces(SonarrKind, discovered)
  {
    var x := Server(1, "old", "tv.media.svc", 8989.5, "key", false, 0.0, "", "", false, true, SeasonFolders(true));
    var w := World([x], 2, 0, 0);
    var app := DiscoveredApp("tv", Sonarr, "tv.media.svc", 8989, "key", None);
    assert app in [app] && x in w.servers && x.CastKey() == (app.host, app.port);
    assert x.CastKey() in SyncedKeys(SonarrKind, [app]);
    ExactPlacesIff(w, fates, SonarrKind, config, [app]);
    PassKeeps(w, fates, SonarrKind, config, [app], true, x);
  }

  lemma CastKeyPlace(x: Server, kind: Kind, discovered: seq<DiscoveredApp>)
    requires x.CastKey() in SyncedKeys(kind, discovered) && x.port == x.CastKey().1 as real
    ensures (x.hostname, x.port) in DiscoveredPlaces(kind, discovered)
  {
    var a :| a in discovered && kind.Covers(a) && (a.host, a.port) == x.CastKey();
  }

  lemma DiscoveredPlacesHeld(w: World, fates: Fates, kind: Kind, config: Option<SeerrConfig>,
                             discovered: seq<DiscoveredApp>)
    requires w.Valid() && InRange(discovered) && forall n :: fates(n).Applied()
    ensures DiscoveredPlaces(kind, discovered) <= Places(Pass(w, fates, kind, config, discovered, true).servers)
  {
    var w' := Pass(w, fates, kind, config, discovered, true);
    forall a | a in discovered && kind.Covers(a) ensures (a.host, a.port as real) in Places(w'.servers) {
      PlaceHoldsWinner(w, fates, kind, config, discovered, true, a);
      var first := FindFirst(w'.servers, a.host, a.port as real).value;
      assert first in w'.servers && first.At(a.host, a.port as real);
      assert (first.hostname, first.port) in Places(w'.servers);
    }
  }

  lemma DisguisedIsNotDiscovered(x: Server, kind: Kind, discovered: seq<DiscoveredApp>)
    requires InRange(discovered) && x.port != x.CastKey().1 as real
    ensures (x.hostname, x.port) !in DiscoveredPlaces(kind, discovered)
  {
    forall a | a in discovered && kind.Covers(a) ensures (a.host, a.port as real) != (x.hostname, x.port) {
      CastOfWhole(a.port);
    }
  }

  // ---- A repeated pass ----

  /** The table needs nothing from a pass over this discovery. */
  ghost predicate InSync(servers: seq<Server>, kind: Kind, config: Option<SeerrConfig>, discovered: seq<DiscoveredApp>,
                         autoRemove: bool)
  {
    && (forall a :: a in discovered && kind.Covers(a) ==> Settled(servers, kind, config, a))
    && (autoRemove ==> forall x :: x in servers ==> x.CastKey() in SyncedKeys(kind, discovered))
  }

  /** A fully applied pass reaches sync if no two discovered apps of the kind share host and port; as
      object names are unique in a namespace, only if. */
  lemma PassReachesSyncIff(w: World, fates: Fates, kind: Kind, config: Option<SeerrConfig>,
                           discovered: seq<DiscoveredApp>, autoRemove: bool)
    requires w.Valid() && InRange(discovered) && forall n :: fates(n).Applied()
    ensures var w' := Pass(w, fates, kind, config, discovered, autoRemove);
            && w'.Valid()
            && (DistinctKeys(kind, discovered) ==> InSync(w'.servers, kind, config, discovered, autoRemove))
            && (DistinctNames(discovered) && InSync(w'.servers, kind, config, discovered, autoRemove)
                ==> DistinctKeys(kind, discovered))
  {
    var w' := Pass(w, fates, kind, config, discovered, autoRemove);
    var _, _ := PassStages(w, fates, kind, config, discovered, autoRemove);
    if DistinctKeys(kind, discovered) {
      forall a | a in discovered && kind.Covers(a) ensures Settled(w'.servers, kind, config, a) {
        PassSettlesIff(w, fates, kind, config, discovered, autoRemove, a);
      }
    } else if DistinctNames(discovered) {
      var a := SharedPlaceLeavesUnsettled(w, fates, kind, config, discovered, autoRemove);
    }
    if autoRemove {
      forall x | x in w'.servers ensures x.CastKey() in SyncedKeys(kind, discovered) {
        PassRemovesStale(w, fates, kind, config, discovered, x);
      }
    }
  }

  /** When two apps of the kind share host and port, the pass leaves the one that does not win there
      unsettled: the record at its place carries another app's name. */
  lemma SharedPlaceLeavesUnsettled(w: World, fates: Fates, kind: Kind, config: Option<SeerrConfig>,
                                   discovered: seq<DiscoveredApp>, autoRemove: bool) returns (a: DiscoveredApp)
    requires w.Valid() && InRange(discovered) && forall n :: fates(n).Applied()
    requires DistinctNames(discovered) && !DistinctKeys(kind, discovered)
    ensures a in discovered && kind.Covers(a)
    ensures var after := Pass(w, fates, kind, config, discovered, autoRemove).servers;
            var first := FindFirst(after, a.host, a.port as real);
            first.Some? && first.value.name != a.name
    ensures !Settled(Pass(w, fates, kind, config, discovered, autoRemove).servers, kind, config, a)
  {
    var i, j :| 0 <= i < j < |discovered| && kind.Covers(discovered[i]) && kind.Covers(discovered[j])
                && (discovered[i].host, discovered[i].port) == (discovered[j].host, discovered[j].port);
    PlaceHoldsWinner(w, fates, kind, config, discovered, autoRemove, discovered[i]);
    var winner := Winner(w.servers, kind, discovered, discovered[i]).value;
    a := if winner.name == discovered[i].name then discovered[j] else discovered[i];
  }

  lemma {:induction false} RewriteSame(servers: seq<Server>, server: Server)
    requires DistinctIds(servers) && server in servers
    ensures Replace(servers, server.id, server) == servers
  {
    var r := Replace(servers, server.id, server);
    var k :| 0 <= k < |servers| && servers[k] == server;
    forall i | 0 <= i < |servers| ensures r[i] == servers[i] {
      if i != k { assert servers[i].id != servers[k].id; }
    }
  }

  lemma {:induction false} SettledSweepRewrites(w: World, fates: Fates, existing: seq<Server>, kind: Kind,
                                                config: Option<SeerrConfig>, todo: seq<DiscoveredApp>)
    requires DistinctIds(existing) && w.servers == existing
    requires forall a :: a in todo && kind.Covers(a) ==> Settled(existing, kind, config, a)
    ensures var w' := SyncAll(w, fates, existing, kind, config, todo);
            w'.servers == w.servers && w'.nextId == w.nextId && w'.calls == w.calls + OfKind(kind, todo)
    decreases |todo|
  {
    if todo != [] {
      var a := todo[0];
      assert a in todo;
      if kind.Covers(a) {
        RewriteSame(existing, FindFirst(existing, a.host, a.port as real).value);
      }
      SettledSweepRewrites(SyncOne(w, fates, existing, kind, config, a), fates, existing, kind, config, todo[1..]);
    }
  }

  /** Over a table in sync a pass sends one update for every discovered app of the kind, nothing else,
      and changes no entry, whatever becomes of the updates. */
  lemma InSyncPassRewrites(w: World, fates: Fates, kind: Kind, config: Option<SeerrConfig>,
                           discovered: seq<DiscoveredApp>, autoRemove: bool)
    requires w.Valid() && InSync(w.servers, kind, config, discovered, autoRemove)
    ensures var w' := Pass(w, fates, kind, config, discovered, autoRemove);
            w'.servers == w.servers && w'.nextId == w.nextId && w'.calls == w.calls + OfKind(kind, discovered)
  {
    SettledSweepRewrites(w, fates, w.servers, kind, config, discovered);
    if autoRemove {
      var w1 := SyncAll(w, fates, w.servers, kind, config, discovered);
      assert StaleIds(w.servers, SyncedKeys(kind, discovered)) == {};
      RemovalOf(w1, fates, w.servers, SyncedKeys(kind, discovered));
    }
  }

  // ---- The tables do not affect each other ----

  ghost function Only(kind: Kind, discovered: seq<DiscoveredApp>): seq<DiscoveredApp> {
    if discovered == [] then []
    else if kind.Covers(discovered[0]) then [discovered[0]] + Only(kind, discovered[1..])
    else Only(kind, discovered[1..])
  }

  lemma {:induction false} SweepIgnoresOthers(w: World, fates: Fates, existing: seq<Server>, kind: Kind,
                                              config: Option<SeerrConfig>, discovered: seq<DiscoveredApp>)
    ensures SyncAll(w, fates, existing, kind, config, discovered)
            == SyncAll(w, fates, existing, kind, config, Only(kind, discovered))
    ensures forall a :: a in Only(kind, discovered) <==> a in discovered && kind.Covers(a)
    decreases |discovered|
  {
    if discovered != [] {
      SweepIgnoresOthers(SyncOne(w, fates, existing, kind, config, discovered[0]), fates, existing, kind, config,
                         discovered[1..]);
      assert forall a :: a in discovered <==> a == discovered[0] || a in discovered[1..];
      if kind.Covers(discovered[0]) {
        var rest := Only(kind, discovered[1..]);
        assert ([discovered[0]] + rest)[1..] == rest;
      }
    }
  }

  /** A table's pass depends on the discovered apps of its own kind only. */
  lemma PassIgnoresOthers(w: World, fates: Fates, kind: Kind, config: Option<SeerrConfig>,
                          discovered: seq<DiscoveredApp>, autoRemove: bool)
    ensures Pass(w, fates, kind, config, discovered, autoRemove)
            == Pass(w, fates, kind, config, Only(kind, discovered), autoRemove)
  {
    SweepIgnoresOthers(w, fates, w.servers, kind, config, discovered);
    assert SyncedKeys(kind, discovered) == SyncedKeys(kind, Only(kind, discovered));
  }
}
