/** Restoring from a backup on request: scale down, wait, restore, always scale up again, and take
    the request's annotation away only when the restore succeeded. */
module BackupRestore {
  import opened Common

  const MAX_POLLS := 12

  datatype Call = ScaleDown | Poll | Restore(id: int) | ScaleUp | RemoveAnnotation

  datatype PollResult = ReadyReplicas(n: int) | Unreachable

  /** The environment of one restore. `clientReady` is false when the API key, the app's defaults or
      the API client cannot be had, in which case the restore API is never called. */
  datatype Env = Env(scaleDown: Fate, polls: nat -> PollResult, clientReady: bool, restore: Fate, scaleUp: Fate,
                     removal: Fate)

  /** Which app asks for what: only some kinds support it, and the annotation must be a number. */
  datatype Request = Request(supported: bool, backupId: Option<int>)

  datatype Result = Ok | InvalidId | ScaleDownFailed | ClientFailed | RestoreFailed | RemovalFailed

  // ---- The cluster ----

  /** `trace` holds the calls made for restores. */
  datatype World = World(replicas: int, annotated: bool, trace: seq<Call>)

  class Cluster {
    var replicas: int
    var annotated: bool
    var trace: seq<Call>

    constructor (replicas: int)
      ensures State() == World(replicas, true, [])
    {
      this.replicas, annotated, trace := replicas, true, [];
    }

    function State(): World
      reads this
    {
      World(replicas, annotated, trace)
    }

    method Scale(call: Call, fate: Fate) returns (ok: bool)
      requires call.ScaleDown? || call.ScaleUp?
      modifies this`replicas, this`trace
      ensures trace == old(trace) + [call] && ok == fate.Acknowledged?
      ensures replicas == if !fate.Applied() then old(replicas) else if call.ScaleUp? then 1 else 0
    {
      if fate.Applied() {
        replicas := if call.ScaleUp? then 1 else 0;
      }
      trace := trace + [call];
      ok := fate.Acknowledged?;
    }

    method GetReadyReplicas(result: PollResult) returns (r: PollResult)
      modifies this`trace
      ensures trace == old(trace) + [Poll] && r == result
    {
      trace := trace + [Poll];
      r := result;
    }

    method RestoreBackup(id: int, fate: Fate) returns (ok: bool)
      modifies this`trace
      ensures trace == old(trace) + [Restore(id)] && ok == fate.Acknowledged?
    {
      trace := trace + [Restore(id)];
      ok := fate.Acknowledged?;
    }

    /** Applying the Deployment sets its one replica. */
    method ApplyDeployment(fate: Fate) returns (ok: bool)
      modifies this`replicas
      ensures replicas == (if fate.Applied() then 1 else old(replicas)) && ok == fate.Acknowledged?
    {
      if fate.Applied() {
        replicas := 1;
      }
      ok := fate.Acknowledged?;
    }

    method RemoveAnnotationPatch(fate: Fate) returns (ok: bool)
      modifies this`annotated, this`trace
      ensures trace == old(trace) + [RemoveAnnotation] && ok == fate.Acknowledged?
      ensures annotated == (old(annotated) && !fate.Applied())
    {
      if fate.Applied() {
        annotated := false;
      }
      trace := trace + [RemoveAnnotation];
      ok := fate.Acknowledged?;
    }
  }

  // ---- One restore ----

  predicate StopsPolling(result: PollResult) {
    result.Unreachable? || result.n == 0
  }

  /** How many polls are made from the `from`-th on. */
  function PollsMade(polls: nat -> PollResult, from: nat): (n: nat)
    requires from <= MAX_POLLS
    ensures n <= MAX_POLLS - from
    decreases MAX_POLLS - from
  {
    if from == MAX_POLLS then 0
    else if StopsPolling(polls(from)) then 1
    else 1 + PollsMade(polls, from + 1)
  }

  /** No poll before the last one made stops the polling, and the last one does unless all were made. */
  lemma {:induction false} PollsUntilStop(polls: nat -> PollResult, from: nat)
    requires from <= MAX_POLLS
    ensures var n := PollsMade(polls, from);
            && (forall k: nat :: from <= k < from + n - 1 ==> polls(k).ReadyReplicas? && polls(k).n != 0)
            && (n == 12 - from || (n > 0 && polls(from + n - 1) in {Unreachable, ReadyReplicas(0)}))
    decreases MAX_POLLS - from
  {
    if from < MAX_POLLS {
      var n := PollsMade(polls, from);
      if StopsPolling(polls(from)) {
        assert n == 1;
      } else {
        PollsUntilStop(polls, from + 1);
        assert n == 1 + PollsMade(polls, from + 1);
        assert polls(from).ReadyReplicas? && polls(from).n != 0;
      }
    }
  }

  function Polls(n: nat): seq<Call> {
    seq(n, _ => Poll)
  }

  predicate Attempted(request: Request) {
    request.supported && request.backupId.Some?
  }

  predicate ReachesApi(env: Env) {
    env.scaleDown.Acknowledged? && env.clientReady
  }

  /** Everything before the scale-up. */
  function DownAndRestore(id: int, env: Env): seq<Call> {
    if !env.scaleDown.Acknowledged? then [ScaleDown]
    else if !env.clientReady then [ScaleDown] + Polls(PollsMade(env.polls, 0))
    else [ScaleDown] + Polls(PollsMade(env.polls, 0)) + [Restore(id)]
  }

  function Trace(request: Request, env: Env): seq<Call> {
    if !Attempted(request) then []
    else
      DownAndRestore(request.backupId.value, env)
      + [ScaleUp]
      + if ReachesApi(env) && env.restore.Acknowledged? then [RemoveAnnotation] else []
  }

  function Outcome(request: Request, env: Env): Result {
    if !request.supported then Ok
    else if request.backupId.None? then InvalidId
    else if !env.scaleDown.Acknowledged? then ScaleDownFailed
    else if !env.clientReady then ClientFailed
    else if !env.restore.Acknowledged? then RestoreFailed
    else if !env.removal.Acknowledged? then RemovalFailed
    else Ok
  }

  /** The annotation patch was sent and applied. */
  predicate Landed(request: Request, env: Env) {
    Attempted(request) && ReachesApi(env) && env.restore.Acknowledged? && env.removal.Applied()
  }

  function ReplicasAfter(replicas: int, request: Request, env: Env): int {
    if !Attempted(request) then replicas
    else if env.scaleUp.Applied() then 1
    else if env.scaleDown.Applied() then 0
    else replicas
  }

  method MaybeRestoreBackup(cluster: Cluster, request: Request, env: Env) returns (result: Result)
    modifies cluster
    ensures result == Outcome(request, env)
    ensures cluster.trace == old(cluster.trace) + Trace(request, env)
    ensures cluster.annotated == (old(cluster.annotated) && !Landed(request, env))
    ensures cluster.replicas == ReplicasAfter(old(cluster.replicas), request, env)
  {
    if !request.supported {
      return Ok;
    }
    if request.backupId.None? {
      return InvalidId;
    }
    ghost var start := cluster.trace;
    var outcome := ScaleDownAndRestore(cluster, request.backupId.value, env);
    var _ := cluster.Scale(ScaleUp, env.scaleUp);
    if outcome != Ok {
      return outcome;
    }
    var removed := cluster.RemoveAnnotationPatch(env.removal);
    return if removed then Ok else RemovalFailed;
  }

  method ScaleDownAndRestore(cluster: Cluster, id: int, env: Env) returns (outcome: Result)
    modifies cluster`replicas, cluster`trace
    ensures outcome == if !env.scaleDown.Acknowledged? then ScaleDownFailed
                       else if !env.clientReady then ClientFailed
                       else if env.restore.Acknowledged? then Ok else RestoreFailed
    ensures cluster.trace == old(cluster.trace) + DownAndRestore(id, env)
    ensures cluster.replicas == if env.scaleDown.Applied() then 0 else old(cluster.replicas)
  {
    var scaledDown := cluster.Scale(ScaleDown, env.scaleDown);
    if !scaledDown {
      return ScaleDownFailed;
    }
    WaitForPods(cluster, env.polls);
    outcome := TryRestore(cluster, id, env);
  }

  method WaitForPods(cluster: Cluster, polls: nat -> PollResult)
    modifies cluster`trace
    ensures cluster.trace == old(cluster.trace) + Polls(PollsMade(polls, 0))
  {
    ghost var start, total := cluster.trace, PollsMade(polls, 0);
    ghost var made: nat := 0;
    for i := 0 to MAX_POLLS
      invariant made == i && cluster.trace == start + Polls(made)
      invariant made + PollsMade(polls, i) == total
    {
      var r := cluster.GetReadyReplicas(polls(i));
      assert Polls(made) + [Poll] == Polls(made + 1);
      made := made + 1;
      if StopsPolling(r) {
        break;
      }
    }
    assert made == total;
  }

  method TryRestore(cluster: Cluster, id: int, env: Env) returns (result: Result)
    modifies cluster`trace
    ensures result == if !env.clientReady then ClientFailed else if env.restore.Acknowledged? then Ok else RestoreFailed
    ensures cluster.trace == old(cluster.trace) + if env.clientReady then [Restore(id)] else []
  {
    if !env.clientReady {
      return ClientFailed;
    }
    var ok := cluster.RestoreBackup(id, env.restore);
    return if ok then Ok else RestoreFailed;
  }

  // ---- What every restore keeps to ----

  function Count(trace: seq<Call>, c: Call): nat {
    multiset(trace)[c]
  }

  lemma {:induction false} PollCount(n: nat, c: Call)
    ensures Count(Polls(n), c) == if c == Poll then n else 0
  {
    if n > 0 {
      assert Polls(n) == Polls(n - 1) + [Poll];
      PollCount(n - 1, c);
    }
  }

  lemma DownAndRestoreCount(id: int, env: Env, c: Call)
    ensures Count(DownAndRestore(id, env), c)
            == match c
               case ScaleDown => 1
               case Poll => if env.scaleDown.Acknowledged? then PollsMade(env.polls, 0) else 0
               case Restore(i) => if i == id && ReachesApi(env) then 1 else 0
               case _ => 0
  {
    PollCount(PollsMade(env.polls, 0), c);
  }

  /** The calls of one restore under any failures. It scales down and up again exactly once if the app
      is supported and the annotation a number. Only after an acknowledged scale-down it polls, at
      least once and at most 12 times, and, if a client could be had, calls the restore API, once and
      for the backup asked for. The annotation patch is sent exactly when that call is acknowledged. */
  lemma CallsAreSafe(request: Request, env: Env, id: int)
    ensures var t, tried := Trace(request, env), request.supported && request.backupId.Some?;
            var down := tried && env.scaleDown == Acknowledged;
            && Count(t, ScaleUp) == Count(t, ScaleDown) == (if tried then 1 else 0)
            && Count(t, Poll) == (if down then PollsMade(env.polls, 0) else 0)
            && 1 <= PollsMade(env.polls, 0) <= 12
            && Count(t, Restore(id)) == (if down && env.clientReady && request.backupId == Some(id) then 1 else 0)
            && Count(t, RemoveAnnotation)
               == (if down && env.clientReady && env.restore == Acknowledged then 1 else 0)
  {
    if Attempted(request) {
      var own := request.backupId.value;
      var last := if ReachesApi(env) && env.restore.Acknowledged? then [RemoveAnnotation] else [];
      forall c: Call ensures Count(Trace(request, env), c)
          == Count(DownAndRestore(own, env), c) + Count([ScaleUp], c) + Count(last, c) {}
      DownAndRestoreCount(own, env, Restore(id));
      DownAndRestoreCount(own, env, Poll);
      DownAndRestoreCount(own, env, ScaleUp);
      DownAndRestoreCount(own, env, ScaleDown);
      DownAndRestoreCount(own, env, RemoveAnnotation);
    }
  }

  /** What a restore returns, by its environment: the first thing that went wrong. */
  lemma OutcomeTells(request: Request, env: Env)
    ensures var tried, down := request.supported && request.backupId.Some?, env.scaleDown == Acknowledged;
            var result := Outcome(request, env);
            && (result == InvalidId <==> request.supported && request.backupId.None?)
            && (result == ScaleDownFailed <==> tried && !down)
            && (result == ClientFailed <==> tried && down && !env.clientReady)
            && (result == RestoreFailed <==> tried && down && env.clientReady && env.restore != Acknowledged)
            && (result == RemovalFailed <==>
                  tried && down && env.clientReady && env.restore == Acknowledged && env.removal != Acknowledged)
            && (result == Ok <==>
                  !request.supported
                  || (tried && down && env.clientReady && env.restore == Acknowledged && env.removal == Acknowledged))
  {
  }

  /** The annotation goes exactly when its patch is applied, acknowledged or not, after a restore that
      was acknowledged; a tried restore leaves one replica if the scale-up was applied, and otherwise
      none if the scale-down was. */
  lemma RestoreLeaves(request: Request, env: Env, replicas: int)
    ensures var tried := request.supported && request.backupId.Some?;
            var after := ReplicasAfter(replicas, request, env);
            && (Landed(request, env) <==>
                  && tried && env.scaleDown == Acknowledged && env.clientReady
                  && env.restore == Acknowledged && env.removal != NotApplied)
            && (tried && env.scaleUp != NotApplied ==> after == 1)
            && (tried && env.scaleUp == NotApplied && env.scaleDown != NotApplied ==> after == 0)
            && (!tried || (env.scaleUp == NotApplied && env.scaleDown == NotApplied) ==> after == replicas)
  {
  }

  /** Every call of kind `later` comes after a call `earlier`. */
  ghost predicate Preceded(trace: seq<Call>, later: Call, earlier: Call) {
    forall j :: 0 <= j < |trace| && trace[j] == later ==> exists i :: 0 <= i < j && trace[i] == earlier
  }

  /** The calls come in order: scale down, restore, scale up, remove the annotation. */
  lemma CallsAreOrdered(request: Request, env: Env, id: int)
    ensures var t := Trace(request, env);
            && Preceded(t, Restore(id), ScaleDown)
            && Preceded(t, ScaleUp, ScaleDown)
            && Preceded(t, RemoveAnnotation, ScaleUp)
            && (Restore(id) in t ==> Preceded(t, ScaleUp, Restore(id)))
  {
    if Attempted(request) {
      var t, head := Trace(request, env), DownAndRestore(request.backupId.value, env);
      assert t[0] == head[0] == ScaleDown && t[|head|] == ScaleUp;
      DownAndRestoreCount(request.backupId.value, env, ScaleUp);
      DownAndRestoreCount(request.backupId.value, env, RemoveAnnotation);
      forall j | 0 <= j < |head| ensures t[j] == head[j] && t[j] != ScaleUp && t[j] != RemoveAnnotation {
        assert head[j] in multiset(head);
      }
      if Restore(id) in t {
        var k :| 0 <= k < |t| && t[k] == Restore(id);
        assert k < |head|;
      }
    }
  }

  // ---- Repeated reconciles ----

  /** What one reconcile finds in the annotation, if it is there, and meets on the way. `deployment` is
      the fate of applying the Deployment later on, None when the reconcile ends before that. */
  datatype Visit = Visit(request: Request, env: Env, deployment: Option<Fate>) {
    predicate Lands() {
      Landed(request, env)
    }

    predicate Deploys() {
      deployment.Some? && deployment.value.Applied()
    }
  }

  /** The Deployment that is applied has one replica. */
  function Deployed(w: World, v: Visit): World {
    if v.Deploys() then w.(replicas := 1) else w
  }

  /** A restore is tried only while the annotation is there. */
  function Restored(w: World, v: Visit): World {
    if !w.annotated then w
    else World(ReplicasAfter(w.replicas, v.request, v.env), !v.Lands(), w.trace + Trace(v.request, v.env))
  }

  function Reconcile(w: World, v: Visit): World {
    Deployed(Restored(w, v), v)
  }

  function Run(w: World, run: seq<Visit>): World
    decreases |run|
  {
    if run == [] then w else Run(Reconcile(w, run[0]), run[1..])
  }

  /** The restore and, later in the same reconcile, the Deployment. A failed restore only becomes a
      status condition. */
  method ReconcileRestore(cluster: Cluster, visit: Visit) returns (result: Option<Result>)
    modifies cluster
    ensures result == if old(cluster.annotated) then Some(Outcome(visit.request, visit.env)) else None
    ensures cluster.State() == Reconcile(old(cluster.State()), visit)
  {
    result := None;
    if cluster.annotated {
      var outcome := MaybeRestoreBackup(cluster, visit.request, visit.env);
      result := Some(outcome);
    }
    if visit.deployment.Some? {
      var _ := cluster.ApplyDeployment(visit.deployment.value);
    }
  }

  lemma {:induction false} RunAppend(w: World, run: seq<Visit>, v: Visit)
    ensures Run(w, run + [v]) == Reconcile(Run(w, run), v)
    decreases |run|
  {
    if run == [] {
      assert ([] + [v])[1..] == [];
    } else {
      assert (run + [v])[1..] == run[1..] + [v];
      RunAppend(Reconcile(w, run[0]), run[1..], v);
    }
  }

  lemma {:induction false} AnnotatedIffNotLanded(w: World, run: seq<Visit>)
    ensures Run(w, run).annotated <==> w.annotated && forall v :: v in run ==> !v.Lands()
    decreases |run|
  {
    if run != [] {
      AnnotatedIffNotLanded(Reconcile(w, run[0]), run[1..]);
      assert forall v :: v in run <==> v == run[0] || v in run[1..];
    }
  }

  /** Whatever the annotation asks for meanwhile, one more reconcile makes a whole attempt exactly
      while no earlier annotation patch has landed, and only applies the Deployment from then on. */
  lemma RetriesUntilLanded(w: World, run: seq<Visit>, v: Visit)
    requires w.annotated
    ensures if exists u :: u in run && u.Lands() then Run(w, run + [v]) == Deployed(Run(w, run), v)
            else Run(w, run + [v]).trace == Run(w, run).trace + Trace(v.request, v.env)
  {
    RunAppend(w, run, v);
    AnnotatedIffNotLanded(w, run);
  }

  ghost predicate NoneDeploys(run: seq<Visit>) {
    forall v :: v in run ==> !v.Deploys()
  }

  lemma {:induction false} RestsOnceLanded(w: World, run: seq<Visit>)
    requires !w.annotated
    ensures Run(w, run) == if NoneDeploys(run) then w else w.(replicas := 1)
    decreases |run|
  {
    if run != [] {
      RestsOnceLanded(Deployed(w, run[0]), run[1..]);
      assert forall v :: v in run <==> v == run[0] || v in run[1..];
    }
  }

  /** The first annotation patch that lands is that of visit `i`. */
  ghost predicate LandsFirst(run: seq<Visit>, i: nat) {
    i < |run| && run[i].Lands() && forall j :: 0 <= j < i ==> !run[j].Lands()
  }

  /** Visit `i` takes the annotation away, leaves the app scaled down, and neither it nor any later
      visit gets the Deployment applied. */
  ghost predicate LeavesDown(run: seq<Visit>, i: nat) {
    LandsFirst(run, i) && !run[i].env.scaleUp.Applied() && NoneDeploys(run[i..])
  }

  /** A run ends with the restore done, the annotation gone and the app at zero replicas exactly when
      the visit that landed lost its scale-up and no Deployment was applied from that visit on. */
  lemma {:induction false} LeftDownIff(w: World, run: seq<Visit>)
    requires w.annotated
    ensures var w' := Run(w, run);
            !w'.annotated && w'.replicas == 0 <==> exists i: nat :: LeavesDown(run, i)
    decreases |run|
  {
    if run != [] {
      var v, rest := run[0], run[1..];
      if v.Lands() {
        RestsOnceLanded(Reconcile(w, v), rest);
        assert run[0..] == run && forall u :: u in run <==> u == v || u in rest;
        assert LeavesDown(run, 0) <==> !v.env.scaleUp.Applied() && !v.Deploys() && NoneDeploys(rest);
      } else {
        LeftDownIff(Reconcile(w, v), rest);
        forall i: nat | LeavesDown(rest, i) ensures LeavesDown(run, i + 1) {
          LandsFirstShift(run, i);
        }
        forall i: nat | LeavesDown(run, i) ensures i > 0 && LeavesDown(rest, i - 1) {
          LandsFirstShift(run, i - 1);
        }
      }
    }
  }

  lemma LandsFirstShift(run: seq<Visit>, i: nat)
    requires run != [] && !run[0].Lands()
    ensures LandsFirst(run, i + 1) <==> LandsFirst(run[1..], i)
    ensures i < |run| - 1 ==> run[i + 1] == run[1..][i] && run[i + 1..] == run[1..][i..]
  {
    if LandsFirst(run[1..], i) {
      forall j | 0 <= j < i + 1 ensures !run[j].Lands() {
        if j > 0 { assert run[j] == run[1..][j - 1]; }
      }
    }
    if LandsFirst(run, i + 1) {
      forall j | 0 <= j < i ensures !run[1..][j].Lands() { assert run[1..][j] == run[j + 1]; }
    }
  }
}
