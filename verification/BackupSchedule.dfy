/** Scheduled backups over time: when one is due, what is recorded, and how many attempts a run of
    reconciles can make. Clock readings are reals; schedule instants and recorded times are whole
    seconds, except that a recorded time written by hand may be anything. */
module BackupSchedule {
  import opened Common

  /** A cron schedule: the whole seconds at which it fires. */
  type Schedule = int -> bool

  // ---- The due check ----

  /** `t` is the first instant after `last`, the only one the due check looks at. */
  ghost predicate IsNext(fires: Schedule, last: real, t: int) {
    && fires(t) && last < t as real
    && forall u :: fires(u) && last < u as real ==> t <= u
  }

  ghost predicate IsDue(fires: Schedule, last: real, now: real) {
    exists t :: IsNext(fires, last, t) && t as real <= now
  }

  lemma {:induction false} NextExists(fires: Schedule, last: real, t: int, floor: int) returns (first: int)
    requires fires(t) && last < t as real && floor as real <= last
    ensures IsNext(fires, last, first) && first <= t
    decreases t - floor
  {
    if u :| fires(u) && last < u as real && u < t {
      first := NextExists(fires, last, u, floor);
    } else {
      first := t;
    }
  }

  /** Looking at the first instant only loses nothing: a backup is due exactly when some instant has
      passed since the recorded time, however many have. */
  lemma DueIffInstantPassed(fires: Schedule, last: real, now: real)
    ensures IsDue(fires, last, now) <==> exists t :: fires(t) && last < t as real <= now
  {
    if t :| fires(t) && last < t as real <= now {
      var first := NextExists(fires, last, t, last.Floor);
      assert IsNext(fires, last, first) && first as real <= now;
    }
  }

  // ---- One reconcile ----

  /** The recorded time in the status; a time that does not parse counts as none. */
  datatype RecordedTime = Never | Unreadable | At(time: real)

  datatype BackupResult = SecretReadError | InvalidSchedule | ClientError | BackupFailed | BackupSucceeded

  datatype BackupStatus = BackupStatus(lastTime: RecordedTime, result: Option<BackupResult>, count: nat)

  /** What one reconcile meets. A backup is attempted only under `Creates`. */
  datatype Config = NotConfigured | SecretUnreadable | UnsupportedApp | BadSchedule | Usable(start: Start)
  datatype Start = DefaultsMissing | ClientRejected | Creates(created: bool, count: nat)

  function RecordedTimeOf(status: Option<BackupStatus>): RecordedTime {
    if status.Some? && status.value.lastTime.At? then status.value.lastTime else Never
  }

  /** The clock truncated to whole seconds, as it is recorded. */
  function Recorded(clock: real): RecordedTime {
    At(clock.Floor as real)
  }

  /** The status one reconcile returns, and whether it attempted a backup. The due check reads the
      clock at `now`; the recorded time is read from the clock at `end`. */
  ghost function MaybeRunBackup(status: Option<BackupStatus>, fires: Schedule, config: Config, now: real, end: real)
      : (Option<BackupStatus>, bool)
  {
    var last := RecordedTimeOf(status);
    match config
    case NotConfigured => (None, false)
    case SecretUnreadable => (Some(BackupStatus(Never, Some(SecretReadError), 0)), false)
    case UnsupportedApp => (None, false)
    case BadSchedule => (Some(BackupStatus(Never, Some(InvalidSchedule), 0)), false)
    case Usable(start) =>
      if last.At? && !IsDue(fires, last.time, now) then (status, false) else
      match start
      case DefaultsMissing => (None, false)
      case ClientRejected => (Some(BackupStatus(Never, Some(ClientError), 0)), false)
      case Creates(true, count) => (Some(BackupStatus(Recorded(end), Some(BackupSucceeded), count)), true)
      case Creates(false, _) =>
        (Some(BackupStatus(if last.At? then Recorded(end) else Never, Some(BackupFailed), 0)), true)
  }

  // ---- Runs ----

  /** One reconcile of a run; `stored` is false when the status it returned was never written. */
  datatype Event = Event(config: Config, now: real, end: real, stored: bool)

  ghost predicate ClockAdvances(run: seq<Event>) {
    && (forall i :: 0 <= i < |run| ==> run[i].now <= run[i].end)
    && (forall i, j :: 0 <= i < j < |run| ==> run[i].end <= run[j].now)
  }

  ghost function After(status: Option<BackupStatus>, fires: Schedule, e: Event): Option<BackupStatus> {
    if e.stored then MaybeRunBackup(status, fires, e.config, e.now, e.end).0 else status
  }

  ghost predicate Attempts(status: Option<BackupStatus>, fires: Schedule, e: Event) {
    MaybeRunBackup(status, fires, e.config, e.now, e.end).1
  }

  /** What a run amounts to: its attempts, those begun without a recorded time, those begun with one
      whose status was never written, and the schedule instants used up by the others. */
  datatype Tally = Tally(attempts: nat, blank: nat, lost: nat, consumed: seq<int>)

  ghost function Next(fires: Schedule, last: real): int
    requires exists t :: IsNext(fires, last, t)
  {
    var t :| IsNext(fires, last, t);
    t
  }

  lemma DatedAttemptIsDue(status: Option<BackupStatus>, fires: Schedule, e: Event)
    requires Attempts(status, fires, e) && RecordedTimeOf(status).At?
    ensures exists t :: IsNext(fires, RecordedTimeOf(status).time, t) && t as real <= e.now
  {
    assert IsDue(fires, RecordedTimeOf(status).time, e.now);
  }

  ghost function Count(status: Option<BackupStatus>, fires: Schedule, run: seq<Event>): Tally
    decreases |run|
  {
    if run == [] then Tally(0, 0, 0, [])
    else
      var rest := Count(After(status, fires, run[0]), fires, run[1..]);
      if !Attempts(status, fires, run[0]) then rest
      else if !RecordedTimeOf(status).At? then rest.(attempts := rest.attempts + 1, blank := rest.blank + 1)
      else if !run[0].stored then rest.(attempts := rest.attempts + 1, lost := rest.lost + 1)
      else
        DatedAttemptIsDue(status, fires, run[0]);
        rest.(attempts := rest.attempts + 1, consumed := [Next(fires, RecordedTimeOf(status).time)] + rest.consumed)
  }

  function Instants(fires: Schedule, lo: int, hi: int): set<int> {
    set t | lo < t <= hi && fires(t)
  }

  ghost predicate Increasing(s: seq<int>) {
    forall i, j :: 0 <= i < j < |s| ==> s[i] < s[j]
  }

  lemma FloorKeepsInstants(t: int, clock: real)
    requires t as real <= clock
    ensures t as real <= clock.Floor as real
  {
    assert t <= clock.Floor by {
      assert clock < clock.Floor as real + 1.0;
    }
  }

  /** A stored status never moves the recorded time below `lo`, and after an attempt that had a
      recorded time it is not below any instant that had passed. */
  lemma RecordedTimeHolds(status: Option<BackupStatus>, fires: Schedule, e: Event, lo: int)
    requires lo as real <= e.now <= e.end && (RecordedTimeOf(status).At? ==> lo as real <= RecordedTimeOf(status).time)
    ensures var last := RecordedTimeOf(After(status, fires, e));
            && (last.At? ==> lo as real <= last.time)
            && (Attempts(status, fires, e) && RecordedTimeOf(status).At? && e.stored ==> last == Recorded(e.end))
  {
    FloorKeepsInstants(lo, e.end);
  }

  lemma NextIsUnique(fires: Schedule, last: real, t: int)
    requires IsNext(fires, last, t)
    ensures Next(fires, last) == t
  {
  }

  /** Every instant an attempt uses up is an instant of the schedule in the run's time, and no two
      attempts use up the same one: truncating the recorded time never moves it back before the
      instant just used, because instants are whole seconds. */
  lemma {:induction false} InstantsUsedOnce(status: Option<BackupStatus>, fires: Schedule, run: seq<Event>, lo: int,
                                            hi: int)
    requires ClockAdvances(run)
    requires RecordedTimeOf(status).At? ==> lo as real <= RecordedTimeOf(status).time
    requires forall i :: 0 <= i < |run| ==> lo as real <= run[i].now < (hi + 1) as real
    ensures var used := Count(status, fires, run).consumed;
            && Increasing(used)
            && forall c :: c in used ==> c in Instants(fires, lo, hi)
    decreases |run|
  {
    if run != [] {
      var e, rest, status' := run[0], run[1..], After(status, fires, run[0]);
      RecordedTimeHolds(status, fires, e, lo);
      if Attempts(status, fires, e) && RecordedTimeOf(status).At? && e.stored {
        DatedAttemptIsDue(status, fires, e);
        var c :| IsNext(fires, RecordedTimeOf(status).time, c) && c as real <= e.now;
        ConsumesNext(status, fires, run, c);
        FloorKeepsInstants(c, e.end);
        LaterThan(run, c);
        InstantsUsedOnce(status', fires, rest, c, hi);
        InstantBefore(fires, lo, hi, c, Count(status', fires, rest).consumed);
      } else {
        InstantsUsedOnce(status', fires, rest, lo, hi);
      }
    }
  }

  lemma LaterThan(run: seq<Event>, c: int)
    requires ClockAdvances(run) && run != [] && c as real <= run[0].now
    ensures forall i :: 0 <= i < |run| ==> c as real <= run[i].now
  {
  }

  lemma InstantBefore(fires: Schedule, lo: int, hi: int, c: int, used: seq<int>)
    requires lo < c <= hi && fires(c)
    requires Increasing(used) && forall x :: x in used ==> x in Instants(fires, c, hi)
    ensures Increasing([c] + used) && forall x :: x in [c] + used ==> x in Instants(fires, lo, hi)
  {
    forall i | 0 <= i < |used| ensures c < used[i] { assert used[i] in used; }
  }

  lemma ConsumesNext(status: Option<BackupStatus>, fires: Schedule, run: seq<Event>, c: int)
    requires run != [] && Attempts(status, fires, run[0]) && RecordedTimeOf(status).At? && run[0].stored
    requires IsNext(fires, RecordedTimeOf(status).time, c)
    ensures Count(status, fires, run).consumed == [c] + Count(After(status, fires, run[0]), fires, run[1..]).consumed
  {
    DatedAttemptIsDue(status, fires, run[0]);
    NextIsUnique(fires, RecordedTimeOf(status).time, c);
  }

  lemma {:induction false} IncreasingFits(s: seq<int>, within: set<int>)
    requires Increasing(s) && forall c :: c in s ==> c in within
    ensures |s| <= |within|
  {
    if s != [] {
      var front, c := s[..|s| - 1], s[|s| - 1];
      assert c in s;
      assert forall x :: x in front ==> x in s && x < c;
      IncreasingFits(front, within - {c});
    }
  }

  lemma {:induction false} TallyAddsUp(status: Option<BackupStatus>, fires: Schedule, run: seq<Event>)
    ensures var tally := Count(status, fires, run);
            tally.attempts == |tally.consumed| + tally.blank + tally.lost
    decreases |run|
  {
    if run != [] {
      TallyAddsUp(After(status, fires, run[0]), fires, run[1..]);
    }
  }

  /** Over any run, attempts never exceed the schedule instants that passed, plus the attempts begun
      without a recorded time, plus those whose status was never written. */
  lemma AttemptsBounded(status: Option<BackupStatus>, fires: Schedule, run: seq<Event>, lo: int, hi: int)
    requires ClockAdvances(run)
    requires RecordedTimeOf(status).At? ==> lo as real <= RecordedTimeOf(status).time
    requires forall i :: 0 <= i < |run| ==> lo as real <= run[i].now < (hi + 1) as real
    ensures var tally := Count(status, fires, run);
            tally.attempts <= |Instants(fires, lo, hi)| + tally.blank + tally.lost
  {
    InstantsUsedOnce(status, fires, run, lo, hi);
    IncreasingFits(Count(status, fires, run).consumed, Instants(fires, lo, hi));
    TallyAddsUp(status, fires, run);
  }

  /** The reconcile starts a backup because of instant `t`. */
  ghost predicate AttemptsFor(status: Option<BackupStatus>, fires: Schedule, e: Event, t: int) {
    Attempts(status, fires, e) && RecordedTimeOf(status).At? && IsNext(fires, RecordedTimeOf(status).time, t)
  }

  /** The `lost` term is needed, and it is exact: an instant that has started a backup starts another
      at the next reconcile that can create one, if and only if the first one's status was not
      written. */
  lemma LostStatusRepeatsAttempt(status: Option<BackupStatus>, fires: Schedule, e: Event, f: Event, t: int)
    requires ClockAdvances([e, f]) && AttemptsFor(status, fires, e, t)
    requires f.config.Usable? && f.config.start.Creates?
    ensures AttemptsFor(After(status, fires, e), fires, f, t) <==> !e.stored
  {
    assert [e, f][0] == e && [e, f][1] == f;
    DatedAttemptIsDue(status, fires, e);
    assert t as real <= e.now <= e.end <= f.now;
    if e.stored {
      FloorKeepsInstants(t, e.end);
    } else {
      DueIffInstantPassed(fires, RecordedTimeOf(status).time, f.now);
    }
  }

  /** The status this reconcile returns has no recorded time. */
  ghost predicate Resets(status: Option<BackupStatus>, fires: Schedule, e: Event) {
    var dated := RecordedTimeOf(status).At?;
    match e.config
    case Usable(start) =>
      (dated ==> IsDue(fires, RecordedTimeOf(status).time, e.now))
      && !(start.Creates? && (start.created || dated))
    case _ => true
  }

  /** No instant has passed since the recorded time, if there is one. */
  ghost predicate NothingPassed(status: Option<BackupStatus>, fires: Schedule, now: real) {
    RecordedTimeOf(status).At? ==> forall t :: fires(t) && RecordedTimeOf(status).time < t as real ==> now < t as real
  }

  /** The `blank` term is needed, and it is exact: when no instant has passed, a reconcile that can
      create a backup starts one if and only if the reconcile before it stored a status without a
      recorded time, or stored none and had found none. A reset is an unreadable Secret, a schedule or
      client that is refused, a disabled backup, or a backup that failed with no time recorded. */
  lemma ResetStartsAttempt(status: Option<BackupStatus>, fires: Schedule, e: Event, f: Event)
    requires f.config.Usable? && f.config.start.Creates?
    requires NothingPassed(After(status, fires, e), fires, f.now)
    ensures Attempts(After(status, fires, e), fires, f)
            <==> if e.stored then Resets(status, fires, e) else !RecordedTimeOf(status).At?
  {
    var found := RecordedTimeOf(After(status, fires, e));
    if found.At? {
      DueIffInstantPassed(fires, found.time, f.now);
    }
  }

  /** Unless something resets the recorded time, an attempt is made exactly when an instant has
      passed, and afterwards the recorded time covers every instant that had. */
  lemma AttemptCatchesUp(status: Option<BackupStatus>, fires: Schedule, e: Event)
    requires e.config.Usable? && e.config.start.Creates? && e.stored && e.now <= e.end
    requires RecordedTimeOf(status).At?
    ensures Attempts(status, fires, e) <==> exists t :: fires(t) && RecordedTimeOf(status).time < t as real <= e.now
    ensures RecordedTimeOf(After(status, fires, e)).At?
    ensures forall t :: fires(t) && t as real <= e.now ==> t as real <= RecordedTimeOf(After(status, fires, e)).time
  {
    DueIffInstantPassed(fires, RecordedTimeOf(status).time, e.now);
    forall t | fires(t) && t as real <= e.now
      ensures t as real <= RecordedTimeOf(After(status, fires, e)).time
    {
      FloorKeepsInstants(t, e.end);
    }
  }

  // ---- What one reconcile attempts, records and reports, on clock readings ----

  /** The recorded time of a status, where an unreadable one counts as none. */
  ghost predicate Dated(status: Option<BackupStatus>) {
    status.Some? && status.value.lastTime.At?
  }

  /** A backup is attempted exactly when nothing hinders it and no time is recorded or an instant has
      passed since then. */
  lemma AttemptsIff(status: Option<BackupStatus>, fires: Schedule, e: Event)
    ensures Attempts(status, fires, e)
            <==> e.config.Usable? && e.config.start.Creates?
                 && (Dated(status) ==> exists t :: fires(t) && status.value.lastTime.time < t as real <= e.now)
  {
    if Dated(status) {
      DueIffInstantPassed(fires, status.value.lastTime.time, e.now);
    }
  }

  /** A stored attempt records the clock reading at its end cut to whole seconds, unless it failed with
      no time recorded before. */
  lemma AttemptRecordsClock(status: Option<BackupStatus>, fires: Schedule, e: Event)
    requires Attempts(status, fires, e) && e.stored
    ensures var after := After(status, fires, e);
            && (Dated(after) <==> e.config.start.created || Dated(status))
            && (Dated(after) ==>
                  var r := after.value.lastTime.time;
                  e.end - 1.0 < r <= e.end && r == r.Floor as real)
  {
  }

  /** So after a stored attempt that recorded its time, the next reconcile that can create a backup
      attempts one exactly when an instant lies between the two clock readings: cutting to whole
      seconds neither skips an instant nor repeats one. */
  lemma NextAttemptIff(status: Option<BackupStatus>, fires: Schedule, e: Event, f: Event)
    requires Attempts(status, fires, e) && e.stored && (e.config.start.created || Dated(status))
    requires f.config.Usable? && f.config.start.Creates?
    ensures Attempts(After(status, fires, e), fires, f) <==> exists t :: fires(t) && e.end < t as real <= f.now
  {
    var after := After(status, fires, e);
    AttemptRecordsClock(status, fires, e);
    AttemptsIff(after, fires, f);
    var r := after.value.lastTime.time;
    forall t | fires(t) ensures r < t as real <==> e.end < t as real {
      if r < t as real {
        assert r.Floor + 1 <= t;
        assert (r.Floor + 1) as real <= t as real;
      }
    }
  }

  /** What the status that a reconcile returns says about it. */
  lemma StatusReports(status: Option<BackupStatus>, fires: Schedule, e: Event)
    ensures var (after, attempted) := MaybeRunBackup(status, fires, e.config, e.now, e.end);
            && (attempted ==>
                  && after.Some?
                  && after.value.result == Some(if e.config.start.created then BackupSucceeded else BackupFailed)
                  && after.value.count == (if e.config.start.created then e.config.start.count else 0))
            && (e.config.NotConfigured? || e.config.UnsupportedApp? ==> after.None?)
            && (e.config.SecretUnreadable? ==> after == Some(BackupStatus(Never, Some(SecretReadError), 0)))
            && (e.config.BadSchedule? ==> after == Some(BackupStatus(Never, Some(InvalidSchedule), 0)))
            && (e.config.Usable? && !attempted ==>
                  var waits := Dated(status)
                               && !exists t :: fires(t) && status.value.lastTime.time < t as real <= e.now;
                  if waits then after == status
                  else if e.config.start.DefaultsMissing? then after.None?
                  else after == Some(BackupStatus(Never, Some(ClientError), 0)))
  {
    if Dated(status) {
      DueIffInstantPassed(fires, status.value.lastTime.time, e.now);
    }
  }
}
