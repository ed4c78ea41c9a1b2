/** Registering discovered Sonarr and Radarr instances in a companion app: list what is there,
    register what is missing, count what failed. */
module CrossAppSync {
  import opened Common
  import opened Discovery

  datatype Instance = Instance(name: string, baseUrl: string, apiKey: string)

  // ---- The companion app ----

  /** The instances of one kind. Registering appends: the companion app does not de-duplicate. */
  datatype World = World(registered: seq<Instance>, calls: nat)

  function CallRegister(w: World, fates: Fates, instance: Instance): World {
    World(if fates(w.calls).Applied() then w.registered + [instance] else w.registered, w.calls + 1)
  }

  function NamesOf(instances: seq<Instance>): seq<string> {
    seq(|instances|, i requires 0 <= i < |instances| => instances[i].name)
  }

  /** `lists(n)` says whether the n-th listing of this kind works. */
  class Companion {
    const fates: Fates
    const lists: nat -> bool
    var registered: seq<Instance>
    var calls: nat
    var listings: nat

    constructor (fates: Fates, lists: nat -> bool, registered: seq<Instance>)
      ensures this.fates == fates && this.lists == lists
      ensures State() == World(registered, 0) && listings == 0
    {
      this.fates, this.lists := fates, lists;
      this.registered, calls, listings := registered, 0, 0;
    }

    function State(): World
      reads this
    {
      World(registered, calls)
    }

    method ListRegistered() returns (names: Option<seq<string>>)
      modifies this`listings
      ensures listings == old(listings) + 1
      ensures names == if lists(old(listings)) then Some(NamesOf(registered)) else None
    {
      names := if lists(listings) then Some(NamesOf(registered)) else None;
      listings := listings + 1;
    }

    method Register(instance: Instance) returns (ok: bool)
      modifies this`registered, this`calls
      ensures State() == CallRegister(old(State()), fates, instance)
      ensures ok == fates(old(calls)).Acknowledged?
    {
      var fate := fates(calls);
      calls := calls + 1;
      if fate.Applied() {
        registered := registered + [instance];
      }
      ok := fate.Acknowledged?;
    }
  }

  // ---- One kind ----

  /** What registering the discovered apps of one kind comes to. */
  datatype Sweep = Sweep(world: World, acknowledged: nat, failures: nat)

  function InstanceOf(a: DiscoveredApp): Instance {
    Instance(a.name, a.BaseUrl(), a.apiKey)
  }

  function RegisterOne(sweep: Sweep, fates: Fates, kind: Kind, existing: set<string>, a: DiscoveredApp): Sweep {
    if !kind.Covers(a) || a.name in existing then sweep
    else
      var w := CallRegister(sweep.world, fates, InstanceOf(a));
      if fates(sweep.world.calls).Acknowledged? then Sweep(w, sweep.acknowledged + 1, sweep.failures)
      else Sweep(w, sweep.acknowledged, sweep.failures + 1)
  }

  function RegisterMissing(sweep: Sweep, fates: Fates, kind: Kind, existing: set<string>,
                           discovered: seq<DiscoveredApp>): Sweep
    decreases |discovered|
  {
    if discovered == [] then sweep
    else RegisterMissing(RegisterOne(sweep, fates, kind, existing, discovered[0]), fates, kind, existing,
                         discovered[1..])
  }

  ghost function Names(registered: seq<Instance>): (names: set<string>)
    ensures forall n :: n in names <==> exists i :: i in registered && i.name == n
  {
    set i | i in registered :: i.name
  }

  ghost function SweepKind(w: World, fates: Fates, listed: bool, kind: Kind, discovered: seq<DiscoveredApp>): Sweep {
    if listed then RegisterMissing(Sweep(w, 0, 0), fates, kind, Names(w.registered), discovered)
    else Sweep(w, 0, 1)
  }

  // ---- The pass over both kinds ----

  /** `registered` has an entry for each kind with at least one acknowledged registration. */
  datatype SyncCounts = SyncCounts(registered: map<Kind, nat>, failures: nat)

  method SyncCrossApp(sonarr: Companion, radarr: Companion, discovered: seq<DiscoveredApp>) returns (counts: SyncCounts)
    requires sonarr != radarr
    modifies sonarr, radarr
    ensures var s := SweepKind(old(sonarr.State()), sonarr.fates, sonarr.lists(old(sonarr.listings)), SonarrKind,
                               discovered);
            var r := SweepKind(old(radarr.State()), radarr.fates, radarr.lists(old(radarr.listings)), RadarrKind,
                               discovered);
            && sonarr.State() == s.world && radarr.State() == r.world
            && counts.failures == s.failures + r.failures
            && counts.registered == WithEntry(WithEntry(map[], SonarrKind, s.acknowledged), RadarrKind, r.acknowledged)
  {
    counts := SyncCounts(map[], 0);
    counts := SyncKind(sonarr, SonarrKind, discovered, counts);
    counts := SyncKind(radarr, RadarrKind, discovered, counts);
  }

  function WithEntry(registered: map<Kind, nat>, kind: Kind, n: nat): map<Kind, nat> {
    if n > 0 then registered[kind := n] else registered
  }

  lemma EntryGrows(registered: map<Kind, nat>, kind: Kind, n: nat)
    requires kind !in registered
    ensures var before := WithEntry(registered, kind, n);
            WithEntry(registered, kind, n + 1) == before[kind := (if kind in before then before[kind] else 0) + 1]
  {
    assert registered[kind := n][kind := n + 1] == registered[kind := n + 1];
  }

  method SyncKind(companion: Companion, kind: Kind, discovered: seq<DiscoveredApp>, counts: SyncCounts)
      returns (counts': SyncCounts)
    requires kind !in counts.registered
    modifies companion
    ensures var sweep := SweepKind(old(companion.State()), companion.fates, companion.lists(old(companion.listings)),
                                   kind, discovered);
            && companion.State() == sweep.world
            && counts'.failures == counts.failures + sweep.failures
            && counts'.registered == WithEntry(counts.registered, kind, sweep.acknowledged)
  {
    var names := companion.ListRegistered();
    if names.None? {
      return counts.(failures := counts.failures + 1);
    }
    NamesAgree(companion.registered);
    var existing := set n | n in names.value;
    counts' := RegisterNew(companion, kind, discovered, existing, counts);
  }

  method RegisterNew(companion: Companion, kind: Kind, discovered: seq<DiscoveredApp>, existing: set<string>,
                     counts: SyncCounts)
      returns (counts': SyncCounts)
    requires kind !in counts.registered
    modifies companion`registered, companion`calls
    ensures var sweep := RegisterMissing(Sweep(old(companion.State()), 0, 0), companion.fates, kind, existing,
                                         discovered);
            && companion.State() == sweep.world
            && counts'.failures == counts.failures + sweep.failures
            && counts'.registered == WithEntry(counts.registered, kind, sweep.acknowledged)
  {
    counts' := counts;
    ghost var fates := companion.fates;
    ghost var sweep := Sweep(companion.State(), 0, 0);
    ghost var whole := RegisterMissing(sweep, fates, kind, existing, discovered);
    for i := 0 to |discovered|
      invariant companion.State() == sweep.world
      invariant RegisterMissing(sweep, fates, kind, existing, discovered[i..]) == whole
      invariant counts'.failures == counts.failures + sweep.failures
      invariant counts'.registered == WithEntry(counts.registered, kind, sweep.acknowledged)
    {
      var a := discovered[i];
      assert discovered[i..][1..] == discovered[i + 1..];
      ghost var acknowledged := sweep.acknowledged;
      sweep := RegisterOne(sweep, fates, kind, existing, a);
      if kind.Covers(a) && a.name !in existing {
        var ok := companion.Register(Instance(a.name, a.BaseUrl(), a.apiKey));
        if ok {
          EntryGrows(counts.registered, kind, acknowledged);
          var n := if kind in counts'.registered then counts'.registered[kind] else 0;
          counts' := counts'.(registered := counts'.registered[kind := n + 1]);
        } else {
          counts' := counts'.(failures := counts'.failures + 1);
        }
      }
    }
  }

  lemma NamesAgree(registered: seq<Instance>)
    ensures (set n | n in NamesOf(registered)) == Names(registered)
  {
    forall n ensures n in NamesOf(registered) <==> n in Names(registered) {
      if n in Names(registered) {
        var i :| 0 <= i < |registered| && registered[i].name == n;
        assert NamesOf(registered)[i] == n;
      }
    }
  }

  // ---- Conservation ----

  function AlreadyPresent(discovered: seq<DiscoveredApp>, kind: Kind, existing: set<string>): nat {
    if discovered == [] then 0
    else (if kind.Covers(discovered[0]) && discovered[0].name in existing then 1 else 0)
         + AlreadyPresent(discovered[1..], kind, existing)
  }

  lemma {:induction false} RegisterMissingConserves(sweep: Sweep, fates: Fates, kind: Kind, existing: set<string>,
                                                    discovered: seq<DiscoveredApp>)
    ensures var end := RegisterMissing(sweep, fates, kind, existing, discovered);
            && end.acknowledged - sweep.acknowledged + end.failures - sweep.failures
               + AlreadyPresent(discovered, kind, existing) == OfKind(kind, discovered)
            && end.world.calls - sweep.world.calls
              == OfKind(kind, discovered) - AlreadyPresent(discovered, kind, existing)
            && sweep.world.registered <= end.world.registered
    decreases |discovered|
  {
    if discovered != [] {
      RegisterMissingConserves(RegisterOne(sweep, fates, kind, existing, discovered[0]), fates, kind, existing,
                               discovered[1..]);
    }
  }

  /** Every discovered app of a kind is registered, failed or was already there. A failed listing is
      one failure, makes no call and changes nothing. */
  lemma SweepConserves(w: World, fates: Fates, listed: bool, kind: Kind, discovered: seq<DiscoveredApp>)
    ensures var sweep := SweepKind(w, fates, listed, kind, discovered);
            if listed then
              && sweep.acknowledged + sweep.failures + AlreadyPresent(discovered, kind, Names(w.registered))
                 == OfKind(kind, discovered)
              && sweep.world.calls - w.calls == sweep.acknowledged + sweep.failures
              && w.registered <= sweep.world.registered
            else sweep == Sweep(w, 0, 1)
  {
    RegisterMissingConserves(Sweep(w, 0, 0), fates, kind, Names(w.registered), discovered);
  }

  // ---- Which registrations take effect ----

  /** Of the registrations sent one after the other from call `n` on, those that are applied. */
  function AppliedOf(sent: seq<Instance>, fates: Fates, n: nat): seq<Instance> {
    if sent == [] then []
    else (if fates(n) == NotApplied then [] else [sent[0]]) + AppliedOf(sent[1..], fates, n + 1)
  }

  /** How many calls from `n` up to `m` were acknowledged. */
  function AcknowledgedCalls(fates: Fates, n: nat, m: nat): nat
    requires n <= m
    decreases m - n
  {
    if n == m then 0 else (if fates(n) == Acknowledged then 1 else 0) + AcknowledgedCalls(fates, n + 1, m)
  }

  /** The sweep `end` is `start` after these registrations. */
  ghost predicate Sent(start: Sweep, end: Sweep, sent: seq<Instance>, fates: Fates) {
    var n := start.world.calls;
    && end.world.calls == n + |sent|
    && end.world.registered == start.world.registered + AppliedOf(sent, fates, n)
    && end.acknowledged - start.acknowledged == AcknowledgedCalls(fates, n, n + |sent|)
    && end.failures - start.failures == |sent| - AcknowledgedCalls(fates, n, n + |sent|)
  }

  lemma Regroup(x: seq<Instance>, y: seq<Instance>, z: seq<Instance>)
    ensures (x + y) + z == x + (y + z)
  {
  }

  lemma SentOneMore(start: Sweep, end: Sweep, later: seq<Instance>, fates: Fates, kind: Kind, existing: set<string>,
                    a: DiscoveredApp)
    requires New(a, kind, existing) && Sent(RegisterOne(start, fates, kind, existing, a), end, later, fates)
    ensures Sent(start, end, [InstanceOf(a)] + later, fates)
  {
    var n, sent := start.world.calls, [InstanceOf(a)] + later;
    var head := if fates(n) == NotApplied then [] else [InstanceOf(a)];
    assert sent[1..] == later;
    var applied := AppliedOf(later, fates, n + 1);
    assert AppliedOf(sent, fates, n) == head + applied;
    assert RegisterOne(start, fates, kind, existing, a).world.registered == start.world.registered + head;
    Regroup(start.world.registered, head, applied);
    assert AcknowledgedCalls(fates, n, n + |sent|)
        == (if fates(n) == Acknowledged then 1 else 0) + AcknowledgedCalls(fates, n + 1, n + 1 + |later|);
  }

  lemma {:induction false} RegisterMissingExactly(sweep: Sweep, fates: Fates, kind: Kind, existing: set<string>,
                                                  discovered: seq<DiscoveredApp>)
    ensures Sent(sweep, RegisterMissing(sweep, fates, kind, existing, discovered),
                 NewInstances(discovered, kind, existing), fates)
    decreases |discovered|
  {
    if discovered != [] {
      var a, rest := discovered[0], discovered[1..];
      var step, later := RegisterOne(sweep, fates, kind, existing, a), NewInstances(rest, kind, existing);
      RegisterMissingExactly(step, fates, kind, existing, rest);
      if New(a, kind, existing) {
        SentOneMore(sweep, RegisterMissing(step, fates, kind, existing, rest), later, fates, kind, existing, a);
      } else {
        assert [] + later == later;
      }
    }
  }

  /** A pass whose listing worked sends every app of the kind whose name is not listed, in the order of
      the discovery. Those calls that are applied, acknowledged or not, add their instance; those that
      are acknowledged count as registered and all others as failures. */
  lemma SweepRegistersExactly(w: World, fates: Fates, kind: Kind, discovered: seq<DiscoveredApp>)
    ensures var sweep := SweepKind(w, fates, true, kind, discovered);
            var sent := NewInstances(discovered, kind, Names(w.registered));
            && sweep.world.registered == w.registered + AppliedOf(sent, fates, w.calls)
            && sweep.acknowledged == AcknowledgedCalls(fates, w.calls, w.calls + |sent|)
            && sweep.failures == |sent| - sweep.acknowledged
  {
    RegisterMissingExactly(Sweep(w, 0, 0), fates, kind, Names(w.registered), discovered);
  }

  /** Whatever a pass adds describes a discovered app of the kind whose name was not listed. */
  lemma {:induction false} AddedDescribesDiscovered(sweep: Sweep, fates: Fates, kind: Kind, existing: set<string>,
                                                    discovered: seq<DiscoveredApp>, k: nat)
    requires var end := RegisterMissing(sweep, fates, kind, existing, discovered);
             |sweep.world.registered| <= k < |end.world.registered|
    ensures var i := RegisterMissing(sweep, fates, kind, existing, discovered).world.registered[k];
            && i.name !in existing
            && exists a ::
                 && a in discovered && kind.Covers(a)
                 && i.name == a.name && i.baseUrl == a.BaseUrl() && i.apiKey == a.apiKey
    decreases |discovered|
  {
    if discovered != [] {
      var a := discovered[0];
      var step := RegisterOne(sweep, fates, kind, existing, a);
      assert a in discovered;
      assert forall b :: b in discovered[1..] ==> b in discovered;
      if k < |step.world.registered| {
        RegisterMissingConserves(step, fates, kind, existing, discovered[1..]);
      } else {
        AddedDescribesDiscovered(step, fates, kind, existing, discovered[1..], k);
      }
    }
  }

  // ---- No duplicates, over any run ----

  ghost predicate DuplicateFree(registered: seq<Instance>) {
    forall i, j :: 0 <= i < j < |registered| ==> registered[i].name != registered[j].name
  }

  predicate New(a: DiscoveredApp, kind: Kind, existing: set<string>) {
    kind.Covers(a) && a.name !in existing
  }

  /** No two discovered apps of the kind that are not yet registered share a name. */
  ghost predicate NewNamesDistinct(discovered: seq<DiscoveredApp>, kind: Kind, existing: set<string>) {
    forall i, j :: 0 <= i < j < |discovered| && New(discovered[i], kind, existing) && New(discovered[j], kind, existing)
                   ==> discovered[i].name != discovered[j].name
  }

  lemma {:induction false} RegisterMissingKeepsDuplicateFree(sweep: Sweep, fates: Fates, kind: Kind,
                                                             existing: set<string>, discovered: seq<DiscoveredApp>)
    requires DuplicateFree(sweep.world.registered) && NewNamesDistinct(discovered, kind, existing)
    requires forall a :: a in discovered && New(a, kind, existing) ==> a.name !in Names(sweep.world.registered)
    ensures DuplicateFree(RegisterMissing(sweep, fates, kind, existing, discovered).world.registered)
    decreases |discovered|
  {
    if discovered != [] {
      var a, rest := discovered[0], discovered[1..];
      var step := RegisterOne(sweep, fates, kind, existing, a);
      assert a in discovered;
      assert forall b :: b in rest ==> b in discovered;
      var before, after := sweep.world.registered, step.world.registered;
      assert after == before || (after == before + [InstanceOf(a)] && New(a, kind, existing));
      if after != before {
        forall i | 0 <= i < |before| ensures before[i].name != a.name { assert before[i] in before; }
      }
      assert Names(after) <= Names(before) + {a.name};
      RegisterMissingKeepsDuplicateFree(step, fates, kind, existing, rest);
    }
  }

  lemma SweepKeepsDuplicateFree(w: World, fates: Fates, listed: bool, kind: Kind, discovered: seq<DiscoveredApp>)
    requires DuplicateFree(w.registered) && NewNamesDistinct(discovered, kind, Names(w.registered))
    ensures DuplicateFree(SweepKind(w, fates, listed, kind, discovered).world.registered)
  {
    RegisterMissingKeepsDuplicateFree(Sweep(w, 0, 0), fates, kind, Names(w.registered), discovered);
  }

  function NewInstances(discovered: seq<DiscoveredApp>, kind: Kind, existing: set<string>): seq<Instance> {
    if discovered == [] then []
    else (if New(discovered[0], kind, existing) then [InstanceOf(discovered[0])] else [])
         + NewInstances(discovered[1..], kind, existing)
  }

  lemma {:induction false} AllApplied(sent: seq<Instance>, fates: Fates, n: nat)
    requires forall m :: fates(m).Applied()
    ensures AppliedOf(sent, fates, n) == sent
  {
    if sent != [] {
      AllApplied(sent[1..], fates, n + 1);
    }
  }

  lemma {:induction false} NewInstanceAt(discovered: seq<DiscoveredApp>, kind: Kind, existing: set<string>,
                                         j: nat) returns (k: nat)
    requires j < |discovered| && New(discovered[j], kind, existing)
    ensures k < |NewInstances(discovered, kind, existing)|
    ensures NewInstances(discovered, kind, existing)[k].name == discovered[j].name
    decreases |discovered|
  {
    var head := if New(discovered[0], kind, existing) then 1 else 0;
    if j == 0 {
      k := 0;
    } else {
      k := NewInstanceAt(discovered[1..], kind, existing, j - 1);
      k := k + head;
    }
  }

  lemma {:induction false} SharedNameIsDuplicate(discovered: seq<DiscoveredApp>, kind: Kind, existing: set<string>,
                                                 i: nat, j: nat)
    requires i < j < |discovered| && New(discovered[i], kind, existing) && New(discovered[j], kind, existing)
    requires discovered[i].name == discovered[j].name
    ensures !DuplicateFree(NewInstances(discovered, kind, existing))
    decreases |discovered|
  {
    var head := if New(discovered[0], kind, existing) then [InstanceOf(discovered[0])] else [];
    var rest := NewInstances(discovered[1..], kind, existing);
    if i == 0 {
      var k := NewInstanceAt(discovered[1..], kind, existing, j - 1);
      var all: seq<Instance> := head + rest;
      assert all[0].name == all[k + 1].name;
    } else {
      SharedNameIsDuplicate(discovered[1..], kind, existing, i - 1, j - 1);
      AppendedDuplicate(head, rest);
    }
  }

  lemma AppendedDuplicate(registered: seq<Instance>, added: seq<Instance>)
    requires !DuplicateFree(added)
    ensures !DuplicateFree(registered + added)
  {
    var m, n :| 0 <= m < n < |added| && added[m].name == added[n].name;
    var all, k := registered + added, |registered|;
    assert all[k + m] == added[m] && all[k + n] == added[n];
  }

  /** Nothing but the discovery keeps a pass from registering a name twice: when every call is applied,
      a registry without duplicates stays so exactly when no two new names are the same. */
  lemma DuplicateFreeIff(w: World, fates: Fates, kind: Kind, discovered: seq<DiscoveredApp>)
    requires DuplicateFree(w.registered) && forall n :: fates(n).Applied()
    ensures DuplicateFree(SweepKind(w, fates, true, kind, discovered).world.registered)
            <==> NewNamesDistinct(discovered, kind, Names(w.registered))
  {
    var existing, added := Names(w.registered), NewInstances(discovered, kind, Names(w.registered));
    if NewNamesDistinct(discovered, kind, existing) {
      SweepKeepsDuplicateFree(w, fates, true, kind, discovered);
    } else {
      SweepRegistersExactly(w, fates, kind, discovered);
      AllApplied(added, fates, w.calls);
      var i, j :| 0 <= i < j < |discovered| && New(discovered[i], kind, existing) && New(discovered[j], kind, existing)
                  && discovered[i].name == discovered[j].name;
      SharedNameIsDuplicate(discovered, kind, existing, i, j);
      AppendedDuplicate(w.registered, added);
    }
  }

  /** One pass of a run: whether its listing worked and what it discovered. */
  datatype Pass = Pass(listed: bool, discovered: seq<DiscoveredApp>)

  ghost function Run(w: World, fates: Fates, kind: Kind, passes: seq<Pass>): World
    decreases |passes|
  {
    if passes == [] then w
    else Run(SweepKind(w, fates, passes[0].listed, kind, passes[0].discovered).world, fates, kind, passes[1..])
  }

  /** Over any run of passes, whatever each discovers and whatever fails or is applied though reported
      failed, a registry without duplicates never gets one. */
  lemma {:induction false} RunKeepsDuplicateFree(w: World, fates: Fates, kind: Kind, passes: seq<Pass>)
    requires DuplicateFree(w.registered) && forall p :: p in passes ==> DistinctNames(p.discovered)
    ensures DuplicateFree(Run(w, fates, kind, passes).registered)
    decreases |passes|
  {
    if passes != [] {
      var p := passes[0];
      assert p in passes;
      SweepKeepsDuplicateFree(w, fates, p.listed, kind, p.discovered);
      RunKeepsDuplicateFree(SweepKind(w, fates, p.listed, kind, p.discovered).world, fates, kind, passes[1..]);
    }
  }
}
