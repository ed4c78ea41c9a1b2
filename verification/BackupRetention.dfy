/** Pruning old backups after a scheduled backup: the oldest go first, and any delete may fail. */
module BackupRetention {
  import opened Common

  datatype Backup = Backup(id: int, time: int)

  const U32_RANGE := 0x1_0000_0000

  /** A list length cast to 32 bits keeps its low bits only. */
  function AsU32(n: nat): nat {
    n % U32_RANGE
  }

  lemma AsU32Wraps(n: nat)
    ensures n < 0x1_0000_0000 ==> AsU32(n) == n
    ensures AsU32(n) < 0x1_0000_0000 && AsU32(n + 0x1_0000_0000) == AsU32(n)
  {
  }

  // ---- The stable sort by time ----

  function Insert(s: seq<Backup>, b: Backup): seq<Backup> {
    if s == [] || Last(s).time <= b.time then s + [b]
    else Insert(Init(s), b) + [Last(s)]
  }

  function SortByTime(s: seq<Backup>): seq<Backup> {
    if s == [] then [] else Insert(SortByTime(Init(s)), Last(s))
  }

  ghost predicate OldestFirst(s: seq<Backup>) {
    forall i, j :: 0 <= i < j < |s| ==> s[i].time <= s[j].time
  }

  lemma {:induction false} InsertPermutes(s: seq<Backup>, b: Backup)
    ensures multiset(Insert(s, b)) == multiset(s) + multiset{b}
  {
    if s != [] && Last(s).time > b.time {
      InsertPermutes(Init(s), b);
      assert s == Init(s) + [Last(s)];
    }
  }

  lemma {:induction false} InsertSorts(s: seq<Backup>, b: Backup)
    requires OldestFirst(s)
    ensures OldestFirst(Insert(s, b))
  {
    if s != [] && Last(s).time > b.time {
      InsertSorts(Init(s), b);
      InsertPermutes(Init(s), b);
      forall x | x in Insert(Init(s), b) ensures x.time <= Last(s).time {
        assert x in multiset(Insert(Init(s), b));
        assert x in Init(s) || x == b;
      }
    }
  }

  lemma {:induction false} SortByTimeSorts(s: seq<Backup>)
    ensures OldestFirst(SortByTime(s)) && multiset(SortByTime(s)) == multiset(s)
  {
    if s != [] {
      SortByTimeSorts(Init(s));
      InsertSorts(SortByTime(Init(s)), Last(s));
      InsertPermutes(SortByTime(Init(s)), Last(s));
      assert s == Init(s) + [Last(s)];
    }
  }

  /** The backups with this time, in list order. */
  function OfTime(s: seq<Backup>, time: int): seq<Backup> {
    if s == [] then [] else OfTime(Init(s), time) + if Last(s).time == time then [Last(s)] else []
  }

  lemma {:induction false} InsertIsStable(s: seq<Backup>, b: Backup, time: int)
    ensures OfTime(Insert(s, b), time) == OfTime(s, time) + if b.time == time then [b] else []
  {
    if s == [] || Last(s).time <= b.time {
      assert Init(s + [b]) == s;
    } else {
      InsertIsStable(Init(s), b, time);
      assert Init(Insert(Init(s), b) + [Last(s)]) == Insert(Init(s), b);
    }
  }

  /** Backups with the same time keep their order, so among them the first listed goes first. */
  lemma {:induction false} SortIsStable(s: seq<Backup>, time: int)
    ensures OfTime(SortByTime(s), time) == OfTime(s, time)
  {
    if s != [] {
      SortIsStable(Init(s), time);
      InsertIsStable(SortByTime(Init(s)), Last(s), time);
    }
  }

  // ---- The app's list of backups ----

  ghost predicate DistinctIds(s: seq<Backup>) {
    forall i, j :: 0 <= i < j < |s| ==> s[i].id != s[j].id
  }

  function Without(s: seq<Backup>, id: int): (r: seq<Backup>)
    ensures forall b :: b in r <==> b in s && b.id != id
  {
    if s == [] then [] else Without(Init(s), id) + if Last(s).id == id then [] else [Last(s)]
  }

  datatype World = World(backups: seq<Backup>, calls: nat, effects: nat)

  function CallDelete(w: World, fates: Fates, id: int): World {
    if fates(w.calls).Applied() then World(Without(w.backups, id), w.calls + 1, w.effects + 1)
    else w.(calls := w.calls + 1)
  }

  class BackupStore {
    const fates: Fates
    var backups: seq<Backup>
    var calls: nat
    var effects: nat

    constructor (fates: Fates, backups: seq<Backup>)
      ensures this.fates == fates && State() == World(backups, 0, 0)
    {
      this.fates := fates;
      this.backups, calls, effects := backups, 0, 0;
    }

    function State(): World
      reads this
    {
      World(backups, calls, effects)
    }

    method Delete(id: int) returns (ok: bool)
      modifies this
      ensures State() == CallDelete(old(State()), fates, id)
      ensures ok == fates(old(calls)).Acknowledged?
    {
      var fate := fates(calls);
      calls := calls + 1;
      if fate.Applied() {
        backups, effects := Without(backups, id), effects + 1;
      }
      ok := fate.Acknowledged?;
    }
  }

  // ---- Pruning ----

  /** The backups a prune tries to delete, in the order it tries. */
  function Doomed(backups: seq<Backup>, retention: nat): seq<Backup> {
    if AsU32(|backups|) > retention then
      SortLength(backups);
      SortByTime(backups)[..|backups| - retention]
    else []
  }

  lemma SortLength(s: seq<Backup>)
    ensures |SortByTime(s)| == |s|
  {
    SortByTimeSorts(s);
    assert |multiset(SortByTime(s))| == |multiset(s)|;
  }

  function DeleteAll(w: World, fates: Fates, doomed: seq<Backup>): World
    decreases |doomed|
  {
    if doomed == [] then w else DeleteAll(CallDelete(w, fates, doomed[0].id), fates, doomed[1..])
  }

  /** The count reported for that many stored backups. */
  function ReportedCount(stored: nat, retention: nat, relisted: bool): nat {
    if !relisted then 0
    else if AsU32(stored) < retention then AsU32(stored)
    else retention
  }

  /** `listed` and `relisted` say whether listing the backups worked before the prune and after it. */
  method PruneAndCount(store: BackupStore, retention: nat, listed: bool, relisted: bool) returns (count: nat)
    modifies store
    ensures store.State()
            == if listed then DeleteAll(old(store.State()), store.fates, Doomed(old(store.backups), retention))
               else old(store.State())
    ensures count <= retention && count == ReportedCount(|store.backups|, retention, relisted)
  {
    ghost var start, fates := store.State(), store.fates;
    if listed {
      var backups := store.backups;
      if AsU32(|backups|) > retention {
        var sorted := SortByTime(backups);
        SortLength(backups);
        var toDelete := |sorted| - retention;
        ghost var doomed := Doomed(backups, retention);
        assert doomed == sorted[..toDelete];
        for i := 0 to toDelete
          invariant DeleteAll(store.State(), fates, doomed[i..]) == DeleteAll(start, fates, doomed)
        {
          assert doomed[i..][1..] == doomed[i + 1..];
          var _ := store.Delete(sorted[i].id);
        }
      }
    }
    var length := if relisted then AsU32(|store.backups|) else 0;
    count := if length < retention then length else retention;
  }

  // ---- What a prune keeps ----

  lemma {:induction false} WithoutLength(s: seq<Backup>, b: Backup)
    requires DistinctIds(s) && b in s
    ensures DistinctIds(Without(s, b.id)) && |Without(s, b.id)| == |s| - 1
  {
    var front := Init(s);
    if Last(s).id == b.id {
      WithoutAbsent(front, b.id);
    } else {
      WithoutLength(front, b);
      forall x | x in Without(front, b.id) ensures x.id != Last(s).id { assert x in front; }
    }
  }

  lemma {:induction false} WithoutAbsent(s: seq<Backup>, id: int)
    requires forall b :: b in s ==> b.id != id
    ensures Without(s, id) == s
  {
    if s != [] {
      assert s == Init(s) + [Last(s)];
      WithoutAbsent(Init(s), id);
    }
  }

  lemma {:induction false} DeleteAllKeeps(w: World, fates: Fates, doomed: seq<Backup>)
    requires DistinctIds(w.backups) && DistinctIds(doomed)
    requires forall b :: b in doomed ==> b in w.backups
    ensures var w' := DeleteAll(w, fates, doomed);
            && DistinctIds(w'.backups)
            && (forall b :: b in w'.backups ==> b in w.backups)
            && (forall b :: b in w.backups && b !in doomed ==> b in w'.backups)
            && w'.calls == w.calls + |doomed|
            && |w'.backups| == |w.backups| - (w'.effects - w.effects)
            && ((forall n :: fates(n).Applied()) ==>
                  w'.effects == w.effects + |doomed| && forall b :: b in doomed ==> b !in w'.backups)
    decreases |doomed|
  {
    if doomed != [] {
      var d, rest := doomed[0], doomed[1..];
      assert d in doomed && forall b :: b in rest ==> b in doomed;
      WithoutLength(w.backups, d);
      var w1 := CallDelete(w, fates, d.id);
      forall b | b in w.backups && b !in doomed ensures b in w1.backups {
        if b.id == d.id { SameIdSameBackup(w.backups, b, d); }
      }
      DeleteAllKeeps(w1, fates, rest);
    }
  }

  lemma SameIdSameBackup(s: seq<Backup>, b: Backup, c: Backup)
    requires DistinctIds(s) && b in s && c in s && b.id == c.id
    ensures b == c
  {
  }

  lemma {:induction false} InsertKeepsDistinct(s: seq<Backup>, b: Backup)
    requires DistinctIds(s) && forall x :: x in s ==> x.id != b.id
    ensures DistinctIds(Insert(s, b)) && forall x :: x in Insert(s, b) <==> x in s || x == b
  {
    if s != [] && Last(s).time > b.time {
      assert s == Init(s) + [Last(s)];
      InsertKeepsDistinct(Init(s), b);
      forall x | x in Insert(Init(s), b) ensures x.id != Last(s).id {}
    }
  }

  lemma {:induction false} SortKeepsDistinct(s: seq<Backup>)
    requires DistinctIds(s)
    ensures DistinctIds(SortByTime(s)) && forall x :: x in SortByTime(s) <==> x in s
  {
    if s != [] {
      assert s == Init(s) + [Last(s)];
      SortKeepsDistinct(Init(s));
      forall x | x in SortByTime(Init(s)) ensures x.id != Last(s).id { assert x in Init(s); }
      InsertKeepsDistinct(SortByTime(Init(s)), Last(s));
    }
  }

  lemma DoomedAreOldest(backups: seq<Backup>, retention: nat)
    requires DistinctIds(backups)
    ensures |SortByTime(backups)| == |backups| && DistinctIds(Doomed(backups, retention))
    ensures Doomed(backups, retention) <= SortByTime(backups)
    ensures forall b :: b in Doomed(backups, retention) ==> b in backups
  {
    var sorted := SortByTime(backups);
    SortLength(backups);
    SortKeepsDistinct(backups);
    if AsU32(|backups|) > retention {
      var n := |backups| - retention;
      assert Doomed(backups, retention) == sorted[..n];
      forall b | b in sorted[..n] ensures b in backups { assert b in sorted; }
    }
  }

  /** Under any pattern of delete failures the newest `retention` backups survive, and whatever goes
      is not newer than any of them. */
  lemma PruneKeepsNewest(w: World, fates: Fates, retention: nat)
    requires DistinctIds(w.backups)
    ensures var w' := DeleteAll(w, fates, Doomed(w.backups, retention));
            var sorted := SortByTime(w.backups);
            && |sorted| == |w.backups| && OldestFirst(sorted) && multiset(sorted) == multiset(w.backups)
            && (forall b :: b in w'.backups ==> b in w.backups)
            && (forall k :: 0 <= k < |sorted| && |sorted| - retention <= k ==> sorted[k] in w'.backups)
            && (forall d, k :: d in w.backups && d !in w'.backups && 0 <= k < |sorted| && |sorted| - retention <= k
                  ==> d.time <= sorted[k].time)
  {
    var sorted, doomed := SortByTime(w.backups), Doomed(w.backups, retention);
    SortByTimeSorts(w.backups);
    SortKeepsDistinct(w.backups);
    DoomedAreOldest(w.backups, retention);
    DeleteAllKeeps(w, fates, doomed);
    forall k | 0 <= k < |sorted| && |sorted| - retention <= k
      ensures sorted[k] in DeleteAll(w, fates, doomed).backups
    {
      assert sorted[k] in sorted && sorted[k] !in doomed;
    }
  }

  /** When every delete is applied, no survivor is older than a deleted backup, and `retention`
      backups remain; but a list of 2^32 or more can look short enough and is then left whole. */
  lemma PruneWithoutFailures(w: World, fates: Fates, retention: nat)
    requires DistinctIds(w.backups) && forall n :: fates(n).Applied()
    ensures var w' := DeleteAll(w, fates, Doomed(w.backups, retention));
            && |w'.backups| == (if AsU32(|w.backups|) > retention then retention else |w.backups|)
            && (forall d, b :: d in w.backups && d !in w'.backups && b in w'.backups ==> d.time <= b.time)
  {
    var sorted, doomed := SortByTime(w.backups), Doomed(w.backups, retention);
    DoomedAreOldest(w.backups, retention);
    DeleteAllKeeps(w, fates, doomed);
    SurvivorsAreNewer(w.backups, DeleteAll(w, fates, doomed).backups, doomed, sorted);
  }

  lemma SurvivorsAreNewer(before: seq<Backup>, after: seq<Backup>, doomed: seq<Backup>, sorted: seq<Backup>)
    requires DistinctIds(before) && sorted == SortByTime(before) && doomed <= sorted
    requires forall b :: b in after ==> b in before && b !in doomed
    requires forall b :: b in before && b !in doomed ==> b in after
    ensures forall d, b :: d in before && d !in after && b in after ==> d.time <= b.time
  {
    SortByTimeSorts(before);
    SortKeepsDistinct(before);
    assert doomed == sorted[..|doomed|];
    forall d, b | d in before && d !in after && b in after ensures d.time <= b.time {
      PrefixIsOlder(sorted, |doomed|, d, b);
    }
  }

  lemma PrefixIsOlder(sorted: seq<Backup>, n: nat, d: Backup, b: Backup)
    requires OldestFirst(sorted) && n <= |sorted| && d in sorted[..n] && b in sorted && b !in sorted[..n]
    ensures d.time <= b.time
  {
    var i :| 0 <= i < n && sorted[..n][i] == d;
    var j :| 0 <= j < |sorted| && sorted[j] == b;
    assert n <= j by {
      assert forall k :: 0 <= k < n ==> sorted[..n][k] == sorted[k];
    }
  }

  /** The retention limit is kept exactly when the truncated length does not hide the excess; for a
      list shorter than 2^32 it always is. */
  lemma LimitKeptIff(w: World, fates: Fates, retention: nat)
    requires DistinctIds(w.backups) && forall n :: fates(n).Applied()
    ensures |DeleteAll(w, fates, Doomed(w.backups, retention)).backups| <= retention
            <==> (|w.backups| <= retention || AsU32(|w.backups|) > retention)
    ensures |w.backups| < U32_RANGE ==> |DeleteAll(w, fates, Doomed(w.backups, retention)).backups| <= retention
  {
    PruneWithoutFailures(w, fates, retention);
  }

  /** The reported count is the number of stored backups, as documented, exactly when there are none
      or the second listing worked and found no more than the limit. */
  lemma CountIsStoredIff(stored: nat, retention: nat, relisted: bool)
    requires retention < U32_RANGE
    ensures ReportedCount(stored, retention, relisted) == stored
            <==> stored == 0 || (relisted && stored <= retention)
  {
    if stored >= U32_RANGE {
      assert AsU32(stored) < U32_RANGE <= stored;
    }
  }

  /** So when every delete is applied and the second listing works, the count is right exactly when
      the prune was not needed or could do its work. */
  lemma CountIsStoredAfterPruneIff(w: World, fates: Fates, retention: nat, listed: bool)
    requires DistinctIds(w.backups) && (forall n :: fates(n).Applied()) && retention < U32_RANGE
    ensures var after := (if listed then DeleteAll(w, fates, Doomed(w.backups, retention)) else w).backups;
            ReportedCount(|after|, retention, true) == |after|
            <==> |w.backups| <= retention || (listed && AsU32(|w.backups|) > retention)
  {
    PruneWithoutFailures(w, fates, retention);
    CountIsStoredIff(|w.backups|, retention, true);
    CountIsStoredIff(retention, retention, true);
  }

  /** Below 2^32 stored backups, the report is their number or the limit, whichever is less, or 0 when
      the second listing failed. */
  lemma CountIsCapped(stored: nat, retention: nat, relisted: bool)
    requires stored < 0x1_0000_0000
    ensures ReportedCount(stored, retention, relisted)
            == if !relisted then 0 else if stored > retention then retention else stored
  {
  }

  /** One of these deletes, sent from call `n` on, is for this id and is applied. */
  ghost predicate Hit(doomed: seq<Backup>, fates: Fates, n: nat, id: int)
    decreases |doomed|
  {
    && doomed != []
    && ((doomed[0].id == id && fates(n) != NotApplied) || Hit(doomed[1..], fates, n + 1, id))
  }

  lemma {:induction false} SurvivesUnlessHit(w: World, fates: Fates, doomed: seq<Backup>, b: Backup)
    ensures b in DeleteAll(w, fates, doomed).backups <==> b in w.backups && !Hit(doomed, fates, w.calls, b.id)
    decreases |doomed|
  {
    if doomed != [] {
      SurvivesUnlessHit(CallDelete(w, fates, doomed[0].id), fates, doomed[1..], b);
    }
  }

  lemma {:induction false} HitIff(doomed: seq<Backup>, fates: Fates, n: nat, id: int)
    ensures Hit(doomed, fates, n, id)
            <==> exists k :: 0 <= k < |doomed| && doomed[k].id == id && fates(n + k) != NotApplied
    decreases |doomed|
  {
    if doomed != [] {
      HitIff(doomed[1..], fates, n + 1, id);
      if k :| 0 <= k < |doomed| && doomed[k].id == id && fates(n + k) != NotApplied {
        if k > 0 { assert doomed[1..][k - 1].id == id && fates(n + 1 + (k - 1)) != NotApplied; }
      }
      if j :| 0 <= j < |doomed| - 1 && doomed[1..][j].id == id && fates(n + 1 + j) != NotApplied {
        assert doomed[j + 1].id == id && fates(n + (j + 1)) != NotApplied;
      }
    }
  }

  /** Each delete decides about its own backup: the k-th of them is gone exactly when the k-th call is
      applied, acknowledged or not. */
  lemma EachDeleteDecides(w: World, fates: Fates, doomed: seq<Backup>, k: nat)
    requires DistinctIds(doomed) && k < |doomed| && doomed[k] in w.backups
    ensures doomed[k] in DeleteAll(w, fates, doomed).backups <==> fates(w.calls + k) == NotApplied
  {
    SurvivesUnlessHit(w, fates, doomed, doomed[k]);
    HitIff(doomed, fates, w.calls, doomed[k].id);
  }
}
