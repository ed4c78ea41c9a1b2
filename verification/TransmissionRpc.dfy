/** The Transmission session handshake: any number of calls share one session-id cache and talk to
    a server that may change its id at any moment. A stale id is answered with status 409 and the
    current id, and the call is sent once more. */
module TransmissionRpc {
  import opened Common

  const CONFLICT := 409

  /** What the server makes of a request it receives. `status` is never 409 or a success status. */
  datatype Outcome = Succeed | Reject | FailAfter(status: int)
  datatype Answer = RefuseBefore(status: int) | Proceed(sid: Option<string>, outcome: Outcome)

  datatype Reply = NeedsSession(sid: Option<string>) | Success | Rejected | HttpError(status: int)

  datatype Result = Ok | OperationFailed | ApiResponse(status: int) | RequestFailed

  predicate PlainError(status: int) {
    status != CONFLICT && !(200 <= status < 300)
  }

  predicate WellFormed(answer: Answer) {
    match answer
    case RefuseBefore(status) => PlainError(status)
    case Proceed(_, FailAfter(status)) => PlainError(status)
    case _ => true
  }

  /** The server runs the method exactly when the request carries its current id. A 409 is sent
      instead of running it; `sid` is its id header, None when it has none. A header that is not text
      counts as the empty id. */
  function Runs(id: string, header: Option<string>, answer: Answer): bool {
    answer.Proceed? && header == Some(id)
  }

  function ReplyTo(id: string, header: Option<string>, answer: Answer): Reply {
    match answer
    case RefuseBefore(status) => HttpError(status)
    case Proceed(sid, outcome) =>
      if header != Some(id) then NeedsSession(sid) else
      match outcome
      case Succeed => Success
      case Reject => Rejected
      case FailAfter(status) => HttpError(status)
  }

  function ParseReply(reply: Reply): Result {
    match reply
    case NeedsSession(_) => ApiResponse(CONFLICT)
    case HttpError(status) => ApiResponse(status)
    case Rejected => OperationFailed
    case Success => Ok
  }

  // ---- Many calls, one step at a time ----

  /** Where one call stands. `again` marks the second request. */
  datatype Phase =
    | Ready(again: bool)
    | InFlight(header: Option<string>, again: bool)
    | Answered(reply: Reply, again: bool)
    | Storing(sid: string)
    | Done(result: Result)

  /** `sent` and `ran` count the requests of this call and the times its method ran on the server. */
  datatype Task = Task(phase: Phase, sent: nat, ran: nat)

  datatype State = State(cache: Option<string>, serverId: string, tasks: seq<Task>)

  datatype Step =
    | Send(t: nat)
    | Serve(t: nat, answer: Answer)
    | Lose(t: nat)
    | Read(t: nat)
    | Store(t: nat)
    | Rotate(id: string)

  predicate Enabled(s: State, step: Step) {
    if step.Rotate? then true else
    step.t < |s.tasks| &&
    var phase := s.tasks[step.t].phase;
    match step
    case Send(_) => phase.Ready?
    case Serve(_, answer) => phase.InFlight? && WellFormed(answer)
    case Lose(_) => phase.InFlight? || phase.Answered?
    case Read(_) => phase.Answered?
    case Store(_) => phase.Storing?
  }

  function Move(s: State, t: nat, phase: Phase): State
    requires t < |s.tasks|
  {
    s.(tasks := s.tasks[t := s.tasks[t].(phase := phase)])
  }

  function Apply(s: State, step: Step): State
    requires Enabled(s, step)
  {
    match step
    case Rotate(id) => s.(serverId := id)
    case Send(t) =>
      var task := s.tasks[t];
      s.(tasks := s.tasks[t := Task(InFlight(s.cache, task.phase.again), task.sent + 1, task.ran)])
    case Serve(t, answer) =>
      var task := s.tasks[t];
      var reply := ReplyTo(s.serverId, task.phase.header, answer);
      var ran := if Runs(s.serverId, task.phase.header, answer) then 1 else 0;
      s.(tasks := s.tasks[t := Task(Answered(reply, task.phase.again), task.sent, task.ran + ran)])
    case Lose(t) => Move(s, t, Done(RequestFailed))
    case Read(t) =>
      var phase := s.tasks[t].phase;
      if phase.reply.NeedsSession? && !phase.again then
        Move(s, t, match phase.reply.sid case Some(sid) => Storing(sid) case None => Ready(true))
      else Move(s, t, Done(ParseReply(phase.reply)))
    case Store(t) => Move(s.(cache := Some(s.tasks[t].phase.sid)), t, Ready(true))
  }

  ghost predicate IsRun(s: State, steps: seq<Step>)
    decreases |steps|
  {
    steps != [] ==> Enabled(s, steps[0]) && IsRun(Apply(s, steps[0]), steps[1..])
  }

  ghost function Exec(s: State, steps: seq<Step>): State
    requires IsRun(s, steps)
    decreases |steps|
  {
    if steps == [] then s else Exec(Apply(s, steps[0]), steps[1..])
  }

  // ---- At most two requests, at most one run ----

  ghost predicate TaskInvariant(task: Task) {
    match task.phase
    case Ready(again) => task.ran == 0 && task.sent == if again then 1 else 0
    case InFlight(_, again) => task.ran == 0 && task.sent == if again then 2 else 1
    case Answered(reply, again) =>
      && task.sent == (if again then 2 else 1)
      && (if reply.NeedsSession? then task.ran == 0
          else if reply.HttpError? then task.ran <= 1 && PlainError(reply.status)
          else task.ran == 1)
    case Storing(_) => task.ran == 0 && task.sent == 1
    case Done(result) =>
      && 1 <= task.sent <= 2 && task.ran <= 1
      && (result.Ok? || result.OperationFailed? ==> task.ran == 1)
      && (result == ApiResponse(CONFLICT) ==> task.ran == 0 && task.sent == 2)
  }

  ghost predicate Invariant(s: State) {
    forall t :: 0 <= t < |s.tasks| ==> TaskInvariant(s.tasks[t])
  }

  /** A call that has not begun. */
  ghost predicate Fresh(task: Task) {
    task == Task(Ready(false), 0, 0)
  }

  lemma {:induction false} RunKeepsInvariant(s: State, steps: seq<Step>)
    requires Invariant(s) && IsRun(s, steps)
    ensures Invariant(Exec(s, steps)) && |Exec(s, steps).tasks| == |s.tasks|
    decreases |steps|
  {
    if steps != [] {
      RunKeepsInvariant(Apply(s, steps[0]), steps[1..]);
    }
  }

  /** Over every interleaving of any number of calls and any rotations: a call sends at most two
      requests, its method runs at most once, a success or a refusal by the method means exactly
      once, and a call finally refused for its session id never ran. */
  lemma AtMostOnce(s: State, steps: seq<Step>, t: nat)
    requires forall i :: 0 <= i < |s.tasks| ==> Fresh(s.tasks[i])
    requires IsRun(s, steps) && t < |s.tasks|
    ensures |Exec(s, steps).tasks| == |s.tasks|
    ensures var task := Exec(s, steps).tasks[t];
            && task.sent <= 2 && task.ran <= 1
            && (task.phase == Done(Ok) || task.phase == Done(OperationFailed) ==> task.ran == 1)
            && (task.phase == Done(ApiResponse(CONFLICT)) ==> task.ran == 0 && task.sent == 2)
  {
    RunKeepsInvariant(s, steps);
  }

  /** How one answer ends a call, or sends it round again: the request is served and its reply read. */
  lemma ReplyDecides(s: State, t: nat, answer: Answer)
    requires Enabled(s, Serve(t, answer))
    ensures var header, again := s.tasks[t].phase.header, s.tasks[t].phase.again;
            var served := Apply(s, Serve(t, answer));
            var task := Apply(served, Read(t)).tasks[t];
            && task.ran == s.tasks[t].ran + (if answer.Proceed? && header == Some(s.serverId) then 1 else 0)
            && task.phase ==
               match answer
               case RefuseBefore(status) => Done(ApiResponse(status))
               case Proceed(sid, outcome) =>
                 if header == Some(s.serverId) then
                   Done(match outcome
                        case Succeed => Ok
                        case Reject => OperationFailed
                        case FailAfter(status) => ApiResponse(status))
                 else if again then Done(ApiResponse(409))
                 else if sid.Some? then Storing(sid.value)
                 else Ready(true)
  {
  }

  // ---- When a call can be finally refused for its session id ----

  /** Only calls in `movers` step, the server keeps its id, and every 409 names that id. */
  ghost predicate Quiet(s: State, steps: seq<Step>, movers: set<nat>) {
    forall i :: 0 <= i < |steps| ==>
      !steps[i].Rotate? && steps[i].t in movers
      && (steps[i].Serve? && steps[i].answer.Proceed? ==> steps[i].answer.sid == Some(s.serverId))
  }

  /** Call `m` has a 409 in hand that names another id, which it will store. */
  ghost predicate HoldsOldId(s: State, m: nat) {
    m < |s.tasks| &&
    match s.tasks[m].phase
    case Storing(sid) => sid != s.serverId
    case Answered(NeedsSession(Some(sid)), false) => sid != s.serverId
    case _ => false
  }

  ghost function OldIdHolders(s: State, movers: set<nat>): set<nat> {
    set m | m in movers && HoldsOldId(s, m)
  }

  /** The places in which something other than the server's id can still turn up: the cache, and
      the movers that hold an old id. */
  ghost function StaleIds(s: State, movers: set<nat>): nat {
    |OldIdHolders(s, movers)| + if s.cache != Some(s.serverId) then 1 else 0
  }

  /** With at most one stale id, what is known while call `t` can no longer end refused: once it has
      met a stale id, there is none left. */
  ghost predicate Safe(s: State, movers: set<nat>, t: nat)
    requires t < |s.tasks|
  {
    && TaskInvariant(s.tasks[t])
    && StaleIds(s, movers) <= 1
    && match s.tasks[t].phase
       case Ready(again) => again ==> StaleIds(s, movers) == 0
       case InFlight(header, again) =>
         header != Some(s.serverId) ==> !again && OldIdHolders(s, movers) == {}
       case Answered(NeedsSession(sid), again) =>
         !again && sid == Some(s.serverId) && OldIdHolders(s, movers) == {}
       case Answered(_, _) => true
       case Storing(sid) => sid == s.serverId && OldIdHolders(s, movers) == {}
       case Done(result) => result != ApiResponse(CONFLICT)
  }

  /** In a quiet stretch no call comes to hold an old id, and a call that stores one holds it no longer. */
  lemma HoldersShrink(s: State, step: Step, movers: set<nat>)
    requires Enabled(s, step) && Quiet(s, [step], movers)
    ensures var s' := Apply(s, step);
            && s'.serverId == s.serverId && |s'.tasks| == |s.tasks|
            && OldIdHolders(s', movers) <= OldIdHolders(s, movers)
            && (step.Store? && s.tasks[step.t].phase.sid != s.serverId ==>
                  OldIdHolders(s', movers) <= OldIdHolders(s, movers) - {step.t} && step.t in OldIdHolders(s, movers))
            && (step.Store? && s.tasks[step.t].phase.sid == s.serverId ==> s'.cache == Some(s.serverId))
            && (!step.Store? ==> s'.cache == s.cache)
  {
    assert [step][0] == step;
    var s' := Apply(s, step);
    forall m | m in movers && HoldsOldId(s', m)
      ensures HoldsOldId(s, m) && (step.Store? ==> m != step.t)
    {
      if m != step.t { assert s'.tasks[m] == s.tasks[m]; }
    }
  }

  lemma Smaller(a: set<nat>, b: set<nat>)
    requires a <= b
    ensures |a| <= |b| && (b == {} ==> a == {})
  {
    if a != b {
      var x :| x in b && x !in a;
      Smaller(a, b - {x});
    }
  }

  lemma StaleIdsShrink(s: State, step: Step, movers: set<nat>)
    requires Enabled(s, step) && Quiet(s, [step], movers)
    ensures StaleIds(Apply(s, step), movers) <= StaleIds(s, movers)
  {
    HoldersShrink(s, step, movers);
    var before, after := OldIdHolders(s, movers), OldIdHolders(Apply(s, step), movers);
    Smaller(after, before);
    if step.Store? && step.t in before && s.tasks[step.t].phase.sid != s.serverId {
      Smaller(after, before - {step.t});
    }
  }

  lemma QuietStep(s: State, step: Step, movers: set<nat>, t: nat)
    requires Enabled(s, step) && Quiet(s, [step], movers)
    requires t in movers && t < |s.tasks| && Safe(s, movers, t)
    ensures |Apply(s, step).tasks| == |s.tasks| && Safe(Apply(s, step), movers, t)
  {
    assert [step][0] == step;
    HoldersShrink(s, step, movers);
    StaleIdsShrink(s, step, movers);
  }

  lemma {:induction false} QuietRun(s: State, steps: seq<Step>, movers: set<nat>, t: nat)
    requires IsRun(s, steps) && Quiet(s, steps, movers)
    requires t in movers && t < |s.tasks| && Safe(s, movers, t)
    ensures t < |Exec(s, steps).tasks| && Safe(Exec(s, steps), movers, t)
    decreases |steps|
  {
    if steps != [] {
      assert Quiet(s, [steps[0]], movers);
      QuietStep(s, steps[0], movers, t);
      HoldersShrink(s, steps[0], movers);
      QuietRun(Apply(s, steps[0]), steps[1..], movers, t);
    }
  }

  /** However many calls run together, while the server keeps its id and at most one stale id is
      about, no call that begins is finally refused. */
  lemma NeverRefused(s: State, steps: seq<Step>, movers: set<nat>, t: nat)
    requires IsRun(s, steps) && Quiet(s, steps, movers) && StaleIds(s, movers) <= 1
    requires t in movers && t < |s.tasks| && Fresh(s.tasks[t])
    ensures t < |Exec(s, steps).tasks| && Exec(s, steps).tasks[t].phase != Done(ApiResponse(CONFLICT))
  {
    QuietRun(s, steps, movers, t);
  }

  /** In particular a call that runs alone is never finally refused, whatever other calls are
      waiting to do. */
  lemma NeverRefusedAlone(s: State, steps: seq<Step>, t: nat)
    requires IsRun(s, steps) && Quiet(s, steps, {t}) && t < |s.tasks| && Fresh(s.tasks[t])
    ensures t < |Exec(s, steps).tasks| && Exec(s, steps).tasks[t].phase != Done(ApiResponse(CONFLICT))
  {
    assert OldIdHolders(s, {t}) == {};
    NeverRefused(s, steps, {t}, t);
  }

  /** A quiet run of the movers that ends with call `t` finally refused for its session id. */
  ghost predicate Refusal(s: State, steps: seq<Step>, movers: set<nat>, t: nat) {
    && IsRun(s, steps) && Quiet(s, steps, movers)
    && t < |Exec(s, steps).tasks| && Exec(s, steps).tasks[t].phase == Done(ApiResponse(CONFLICT))
  }

  /** A quiet step before a refusal. */
  lemma RefusalAfter(s: State, step: Step, rest: seq<Step>, movers: set<nat>, t: nat)
    requires Enabled(s, step) && Quiet(s, [step], movers) && Refusal(Apply(s, step), rest, movers, t)
    ensures Refusal(s, [step] + rest, movers, t)
  {
    assert [step][0] == step;
    RunOfMore(s, step, rest);
    var all := [step] + rest;
    forall i | 0 <= i < |all|
      ensures !all[i].Rotate? && all[i].t in movers
              && (all[i].Serve? && all[i].answer.Proceed? ==> all[i].answer.sid == Some(s.serverId))
    {
      if i > 0 { assert all[i] == rest[i - 1]; }
    }
  }

  /** The second request of `t` is about to be sent with a stale id. */
  lemma SecondRequestRefused(s: State, movers: set<nat>, t: nat) returns (steps: seq<Step>)
    requires t in movers && t < |s.tasks| && s.tasks[t].phase == Ready(true) && s.cache != Some(s.serverId)
    ensures Refusal(s, steps, movers, t)
  {
    var conflict := Proceed(Some(s.serverId), Succeed);
    var s1 := Apply(s, Send(t));
    var s2 := Apply(s1, Serve(t, conflict));
    RunOfOne(s2, Read(t));
    RefusalAfter(s1, Serve(t, conflict), [Read(t)], movers, t);
    steps := [Serve(t, conflict)] + [Read(t)];
    RefusalAfter(s, Send(t), steps, movers, t);
    steps := [Send(t)] + steps;
  }

  /** Call `m` stores an old id while `t` waits to send again. */
  lemma OldIdStoredRefused(s: State, movers: set<nat>, t: nat, m: nat) returns (steps: seq<Step>)
    requires t in movers && t < |s.tasks| && s.tasks[t].phase == Ready(true)
    requires m in movers && m < |s.tasks| && m != t
    requires s.tasks[m].phase.Storing? && s.tasks[m].phase.sid != s.serverId
    ensures Refusal(s, steps, movers, t)
  {
    steps := SecondRequestRefused(Apply(s, Store(m)), movers, t);
    RefusalAfter(s, Store(m), steps, movers, t);
    steps := [Store(m)] + steps;
  }

  /** A call that begins with a stale id in the cache, while `m` waits to store another. */
  lemma FirstRequestRefused(s: State, movers: set<nat>, t: nat, m: nat) returns (steps: seq<Step>)
    requires t in movers && t < |s.tasks| && Fresh(s.tasks[t]) && s.cache != Some(s.serverId)
    requires m in movers && m < |s.tasks| && m != t
    requires s.tasks[m].phase.Storing? && s.tasks[m].phase.sid != s.serverId
    ensures Refusal(s, steps, movers, t)
  {
    var conflict := Proceed(Some(s.serverId), Succeed);
    var s1 := Apply(s, Send(t));
    var s2 := Apply(s1, Serve(t, conflict));
    var s3 := Apply(s2, Read(t));
    var s4 := Apply(s3, Store(t));
    assert s4.tasks[m] == s.tasks[m];
    steps := OldIdStoredRefused(s4, movers, t, m);
    RefusalAfter(s3, Store(t), steps, movers, t);
    RefusalAfter(s2, Read(t), [Store(t)] + steps, movers, t);
    RefusalAfter(s1, Serve(t, conflict), [Read(t)] + ([Store(t)] + steps), movers, t);
    RefusalAfter(s, Send(t), [Serve(t, conflict)] + ([Read(t)] + ([Store(t)] + steps)), movers, t);
    steps := [Send(t)] + ([Serve(t, conflict)] + ([Read(t)] + ([Store(t)] + steps)));
  }

  /** The state in which `m`, which holds an old id, is about to store it. */
  ghost function AboutToStore(s: State, m: nat): State
    requires HoldsOldId(s, m)
  {
    if s.tasks[m].phase.Storing? then s else Apply(s, Read(m))
  }

  lemma RefusalAfterReading(s: State, rest: seq<Step>, movers: set<nat>, t: nat, m: nat) returns (steps: seq<Step>)
    requires m in movers && HoldsOldId(s, m) && Refusal(AboutToStore(s, m), rest, movers, t)
    ensures Refusal(s, steps, movers, t)
  {
    if s.tasks[m].phase.Storing? {
      steps := rest;
    } else {
      RefusalAfter(s, Read(m), rest, movers, t);
      steps := [Read(m)] + rest;
    }
  }

  /** A stale cache and one old id about to be stored suffice. */
  lemma StaleCacheRefuses(s: State, movers: set<nat>, t: nat, m: nat) returns (steps: seq<Step>)
    requires t in movers && t < |s.tasks| && Fresh(s.tasks[t]) && s.cache != Some(s.serverId)
    requires m in movers && HoldsOldId(s, m)
    ensures Refusal(s, steps, movers, t)
  {
    steps := FirstRequestRefused(AboutToStore(s, m), movers, t, m);
    steps := RefusalAfterReading(s, steps, movers, t, m);
  }

  /** With the server's id in the cache, one of two old ids makes the cache stale. */
  lemma TwoOldIdsRefuse(s: State, movers: set<nat>, t: nat, m: nat, n: nat) returns (steps: seq<Step>)
    requires t in movers && t < |s.tasks| && Fresh(s.tasks[t])
    requires m in movers && HoldsOldId(s, m) && n in movers && HoldsOldId(s, n) && m != n
    ensures Refusal(s, steps, movers, t)
  {
    var s1 := AboutToStore(s, m);
    assert s1.tasks[n] == s.tasks[n];
    steps := StaleCacheRefuses(Apply(s1, Store(m)), movers, t, n);
    RefusalAfter(s1, Store(m), steps, movers, t);
    steps := RefusalAfterReading(s, [Store(m)] + steps, movers, t, m);
  }

  lemma TwoMembers(a: set<nat>) returns (m: nat, n: nat)
    requires |a| >= 2
    ensures m in a && n in a && m != n
  {
    m :| m in a;
    var rest := a - {m};
    assert |rest| == |a| - 1;
    n :| n in rest;
  }

  /** While the server keeps its id, a call that begins can be finally refused if and only if at least
      two stale ids are about: in the cache, or in the hands of calls that will store them. */
  lemma RefusedIffTwoStaleIds(s: State, movers: set<nat>, t: nat)
    requires t in movers && t < |s.tasks| && Fresh(s.tasks[t])
    ensures (exists steps :: Refusal(s, steps, movers, t)) <==> StaleIds(s, movers) >= 2
  {
    var holders := OldIdHolders(s, movers);
    if StaleIds(s, movers) >= 2 {
      if s.cache != Some(s.serverId) {
        assert |holders| >= 1;
        var m :| m in holders;
        var steps := StaleCacheRefuses(s, movers, t, m);
      } else {
        var m, n := TwoMembers(holders);
        var steps := TwoOldIdsRefuse(s, movers, t, m, n);
      }
    } else {
      forall steps | IsRun(s, steps) && Quiet(s, steps, movers) ensures !Refusal(s, steps, movers, t) {
        NeverRefused(s, steps, movers, t);
      }
    }
  }

  /** Two stale ids do come about. Two calls begin; one is answered with the id of the time, and before
      it stores that id the server moves on to another. The server then keeps its id, and the other
      call, which begins only now, is finally refused. */
  lemma OldIdRefusesAnotherCall() returns (s: State, before: seq<Step>, after: seq<Step>)
    ensures |s.tasks| == 2 && Fresh(s.tasks[0]) && Fresh(s.tasks[1])
    ensures IsRun(s, before + after) && IsRun(s, before)
    ensures var mid := Exec(s, before);
            && |mid.tasks| == 2 && Fresh(mid.tasks[0]) && Refusal(mid, after, {0, 1}, 0)
            && Exec(s, before + after) == Exec(mid, after)
  {
    var conflict := Proceed(Some("old"), Succeed);
    s := State(None, "old", [Task(Ready(false), 0, 0), Task(Ready(false), 0, 0)]);
    var s1 := Apply(s, Send(1));
    var s2 := Apply(s1, Serve(1, conflict));
    var mid := Apply(s2, Rotate("new"));
    RunOfOne(s2, Rotate("new"));
    RunOfMore(s1, Serve(1, conflict), [Rotate("new")]);
    RunOfMore(s, Send(1), [Serve(1, conflict)] + [Rotate("new")]);
    before := [Send(1)] + ([Serve(1, conflict)] + [Rotate("new")]);
    assert HoldsOldId(mid, 1);
    after := StaleCacheRefuses(mid, {0, 1}, 0, 1);
    RunsJoin(s, before, after);
  }

  lemma {:induction false} RunsJoin(s: State, first: seq<Step>, second: seq<Step>)
    requires IsRun(s, first) && IsRun(Exec(s, first), second)
    ensures IsRun(s, first + second) && Exec(s, first + second) == Exec(Exec(s, first), second)
    decreases |first|
  {
    if first == [] {
      assert first + second == second;
    } else {
      assert first + second == [first[0]] + (first[1..] + second);
      RunsJoin(Apply(s, first[0]), first[1..], second);
      RunOfMore(s, first[0], first[1..] + second);
    }
  }

  lemma RunOfOne(s: State, step: Step)
    requires Enabled(s, step)
    ensures IsRun(s, [step]) && Exec(s, [step]) == Apply(s, step)
  {
    assert [step][1..] == [];
  }

  lemma RunOfMore(s: State, step: Step, rest: seq<Step>)
    requires Enabled(s, step) && IsRun(Apply(s, step), rest)
    ensures IsRun(s, [step] + rest) && Exec(s, [step] + rest) == Exec(Apply(s, step), rest)
  {
    assert ([step] + rest)[1..] == rest;
  }
}
