/** The client's code for one call, and the proof that a call made by it is a run of the handshake
    in which no other call steps. */
module TransmissionClient {
  import opened Common
  import opened Json
  import opened TransmissionRpc

  /** What the n-th request meets: the server's id by then, and the way of request and reply. */
  datatype Delivery = RequestLost | ReplyLost(answer: Answer) | Delivered(answer: Answer)
  datatype Exchange = Exchange(id: string, delivery: Delivery) {
    predicate Valid() {
      delivery.RequestLost? || WellFormed(delivery.answer)
    }
  }

  function Received(header: Option<string>, x: Exchange): Option<Reply> {
    if x.delivery.Delivered? then Some(ReplyTo(x.id, header, x.delivery.answer)) else None
  }

  function TimesRun(header: Option<string>, x: Exchange): nat {
    if !x.delivery.RequestLost? && Runs(x.id, header, x.delivery.answer) then 1 else 0
  }

  /** The body of a request: a method of the RPC interface and its arguments. */
  datatype RpcRequest = RpcRequest(name: string, arguments: Option<Value>)

  function Copies(body: RpcRequest, n: nat): seq<RpcRequest> {
    seq(n, _ => body)
  }

  /** The network and the server: the bodies posted, and those whose method the server ran. */
  class Link {
    const exchanges: nat -> Exchange
    var posted: seq<RpcRequest>
    var executed: seq<RpcRequest>

    constructor (exchanges: nat -> Exchange)
      ensures this.exchanges == exchanges && posted == [] && executed == []
    {
      this.exchanges := exchanges;
      posted, executed := [], [];
    }

    method Post(header: Option<string>, body: RpcRequest) returns (reply: Option<Reply>)
      modifies this
      ensures posted == old(posted) + [body]
      ensures reply == Received(header, exchanges(|old(posted)|))
      ensures executed == old(executed) + Copies(body, TimesRun(header, exchanges(|old(posted)|)))
    {
      var x := exchanges(|posted|);
      posted := posted + [body];
      if x.delivery.RequestLost? {
        return None;
      }
      if Runs(x.id, header, x.delivery.answer) {
        executed := executed + [body];
      }
      reply := if x.delivery.Delivered? then Some(ReplyTo(x.id, header, x.delivery.answer)) else None;
    }
  }

  /** What one call does: its result, the cache it leaves, its requests and runs of its method. */
  datatype Call = Call(result: Result, cache: Option<string>, sent: nat, ran: nat)

  function CacheAfter(cache: Option<string>, reply: Option<Reply>): Option<string> {
    match reply
    case Some(NeedsSession(Some(sid))) => Some(sid)
    case _ => cache
  }

  function ResultOf(reply: Option<Reply>): Result {
    match reply
    case Some(r) => ParseReply(r)
    case None => RequestFailed
  }

  function SoloCall(cache: Option<string>, x: Exchange, y: Exchange): Call {
    var reply := Received(cache, x);
    if reply.Some? && reply.value.NeedsSession? then
      var cache' := CacheAfter(cache, reply);
      Call(ResultOf(Received(cache', y)), cache', 2, TimesRun(cache, x) + TimesRun(cache', y))
    else Call(ResultOf(reply), cache, 1, TimesRun(cache, x))
  }

  class Client {
    const link: Link
    var sessionId: Option<string>

    constructor (link: Link)
      ensures this.link == link && sessionId == None
    {
      this.link := link;
      sessionId := None;
    }

    method SendRpc(body: RpcRequest) returns (reply: Option<Reply>)
      modifies link
      ensures link.posted == old(link.posted) + [body]
      ensures reply == Received(sessionId, link.exchanges(|old(link.posted)|))
      ensures link.executed
              == old(link.executed) + Copies(body, TimesRun(sessionId, link.exchanges(|old(link.posted)|)))
    {
      reply := link.Post(sessionId, body);
    }

    method RpcCall(name: string, arguments: Option<Value>) returns (result: Result)
      modifies this, link
      ensures var first := |old(link.posted)|;
              var body := RpcRequest(name, arguments);
              var call := SoloCall(old(sessionId), link.exchanges(first), link.exchanges(first + 1));
              && result == call.result && sessionId == call.cache
              && link.posted == old(link.posted) + Copies(body, call.sent)
              && link.executed == old(link.executed) + Copies(body, call.ran)
    {
      var body := RpcRequest(name, arguments);
      var reply := SendRpc(body);
      if reply.None? {
        return RequestFailed;
      }
      if !reply.value.NeedsSession? {
        return ParseReply(reply.value);
      }
      if reply.value.sid.Some? {
        sessionId := Some(reply.value.sid.value);
      }
      reply := SendRpc(body);
      if reply.None? {
        return RequestFailed;
      }
      return ParseReply(reply.value);
    }

    /** An empty removal set must never reach the server: a request that names no torrent means all
        torrents. Whatever is posted or run asks for exactly the given set. */
    method TorrentRemove(hashes: seq<string>, deleteLocalData: bool) returns (result: Result)
      modifies this, link
      ensures hashes == [] ==> result == Ok && sessionId == old(sessionId)
      ensures hashes == [] ==> link.posted == old(link.posted) && link.executed == old(link.executed)
      ensures hashes != [] ==> |link.posted| > |old(link.posted)|
      ensures hashes != [] ==>
                var first := |old(link.posted)|;
                var call := SoloCall(old(sessionId), link.exchanges(first), link.exchanges(first + 1));
                result == call.result && sessionId == call.cache
      ensures old(link.posted) <= link.posted && old(link.executed) <= link.executed
      ensures forall i :: |old(link.posted)| <= i < |link.posted| ==>
                Removes(link.posted[i], Named(hashes), deleteLocalData)
      ensures forall i :: |old(link.executed)| <= i < |link.executed| ==>
                Removes(link.executed[i], Named(hashes), deleteLocalData)
    {
      if hashes == [] {
        return Ok;
      }
      var arguments := Obj(map["ids" := Texts(hashes), "delete-local-data" := Bool(deleteLocalData)]);
      TextsOfTexts(hashes);
      result := RpcCall("torrent-remove", Some(arguments));
    }
  }

  // ---- What a removal asks of the server ----

  /** Which torrents a request is about. The server takes a missing "ids" key for all of them. */
  datatype Scope = AllTorrents | Named(hashes: seq<string>) | Unclear

  function ScopeOf(request: RpcRequest): Scope {
    match request.arguments
    case Some(Obj(fields)) =>
      if "ids" !in fields then AllTorrents
      else if TextsIn(fields["ids"]).Some? then Named(TextsIn(fields["ids"]).value)
      else Unclear
    case _ => AllTorrents
  }

  predicate Removes(request: RpcRequest, scope: Scope, withData: bool) {
    && request.name == "torrent-remove" && ScopeOf(request) == scope
    && request.arguments.Some? && request.arguments.value.Obj?
    && "delete-local-data" in request.arguments.value.fields
    && request.arguments.value.fields["delete-local-data"] == Bool(withData)
  }

  function Texts(texts: seq<string>): Value {
    Arr(seq(|texts|, i requires 0 <= i < |texts| => Str(texts[i])))
  }

  /** The texts of a JSON array of texts. */
  function TextsIn(v: Value): Option<seq<string>> {
    if v.Arr? && forall i :: 0 <= i < |v.items| ==> v.items[i].Str?
    then Some(seq(|v.items|, i requires 0 <= i < |v.items| => v.items[i].s))
    else None
  }

  lemma TextsOfTexts(texts: seq<string>)
    ensures TextsIn(Texts(texts)) == Some(texts)
  {
    assert TextsIn(Texts(texts)).value == texts;
  }

  // ---- A call is a run of the handshake ----

  /** The steps of call 0 from sending a request to having read its reply. */
  function ExchangeSteps(x: Exchange): seq<Step> {
    [Rotate(x.id), Send(0)]
    + match x.delivery
      case RequestLost => [Lose(0)]
      case ReplyLost(answer) => [Serve(0, answer), Lose(0)]
      case Delivered(answer) => [Serve(0, answer), Read(0)]
  }

  /** The phase in which a call is left once it has read the reply. */
  function PhaseAfter(reply: Option<Reply>, again: bool): Phase {
    if reply.Some? && reply.value.NeedsSession? && !again then
      match reply.value.sid case Some(sid) => Storing(sid) case None => Ready(true)
    else Done(ResultOf(reply))
  }

  lemma ExchangeIsARun(cache: Option<string>, id: string, again: bool, sent: nat, ran: nat, x: Exchange)
    requires x.Valid()
    ensures var s := State(cache, id, [Task(Ready(again), sent, ran)]);
            var task := Task(PhaseAfter(Received(cache, x), again), sent + 1, ran + TimesRun(cache, x));
            IsRun(s, ExchangeSteps(x)) && Exec(s, ExchangeSteps(x)) == State(cache, x.id, [task])
  {
    var s := State(cache, id, [Task(Ready(again), sent, ran)]);
    var inFlight := State(cache, x.id, [Task(InFlight(cache, again), sent + 1, ran)]);
    var tail := ExchangeSteps(x)[2..];
    assert ExchangeSteps(x) == [Rotate(x.id), Send(0)] + tail;
    RequestIsARun(s, inFlight, x.id);
    ReplyIsARun(inFlight, x);
    RunsJoin(s, [Rotate(x.id), Send(0)], tail);
  }

  lemma RequestIsARun(s: State, inFlight: State, id: string)
    requires |s.tasks| == 1 && s.tasks[0].phase.Ready?
    requires inFlight == State(s.cache, id,
                               [Task(InFlight(s.cache, s.tasks[0].phase.again), s.tasks[0].sent + 1, s.tasks[0].ran)])
    ensures IsRun(s, [Rotate(id), Send(0)]) && Exec(s, [Rotate(id), Send(0)]) == inFlight
  {
    var s1 := Apply(s, Rotate(id));
    assert Apply(s1, Send(0)).tasks == inFlight.tasks;
    RunOfOne(s1, Send(0));
    RunOfMore(s, Rotate(id), [Send(0)]);
    assert [Rotate(id)] + [Send(0)] == [Rotate(id), Send(0)];
  }

  lemma ReplyIsARun(s: State, x: Exchange)
    requires x.Valid() && |s.tasks| == 1 && s.tasks[0].phase.InFlight? && s.serverId == x.id
    ensures var task, steps := s.tasks[0], ExchangeSteps(x)[2..];
            var header := task.phase.header;
            && IsRun(s, steps)
            && Exec(s, steps) == State(s.cache, s.serverId,
                                       [Task(PhaseAfter(Received(header, x), task.phase.again), task.sent,
                                             task.ran + TimesRun(header, x))])
  {
    var steps := ExchangeSteps(x)[2..];
    match x.delivery
    case RequestLost =>
      assert steps == [Lose(0)];
      RunOfOne(s, Lose(0));
    case ReplyLost(answer) =>
      assert steps == [Serve(0, answer)] + [Lose(0)];
      RunOfOne(Apply(s, Serve(0, answer)), Lose(0));
      RunOfMore(s, Serve(0, answer), [Lose(0)]);
    case Delivered(answer) =>
      assert steps == [Serve(0, answer)] + [Read(0)];
      RunOfOne(Apply(s, Serve(0, answer)), Read(0));
      RunOfMore(s, Serve(0, answer), [Read(0)]);
  }

  /** Every call made by the client's code is a run of the handshake from its beginning to its end. */
  lemma SoloCallIsARun(cache: Option<string>, id: string, x: Exchange, y: Exchange) returns (steps: seq<Step>)
    requires x.Valid() && y.Valid()
    ensures var s := State(cache, id, [Task(Ready(false), 0, 0)]);
            var call := SoloCall(cache, x, y);
            && IsRun(s, steps)
            && Exec(s, steps).cache == call.cache
            && Exec(s, steps).tasks == [Task(Done(call.result), call.sent, call.ran)]
  {
    var s := State(cache, id, [Task(Ready(false), 0, 0)]);
    ExchangeIsARun(cache, id, false, 0, 0, x);
    steps := ExchangeSteps(x);
    var s1 := Exec(s, steps);
    var reply := Received(cache, x);
    if reply.Some? && reply.value.NeedsSession? {
      if reply.value.sid.Some? {
        RunOfOne(s1, Store(0));
        RunsJoin(s, steps, [Store(0)]);
        steps := steps + [Store(0)];
        s1 := Exec(s, steps);
      }
      var cache' := CacheAfter(cache, reply);
      assert s1 == State(cache', x.id, [Task(Ready(true), 1, TimesRun(cache, x))]);
      ExchangeIsARun(cache', x.id, true, 1, TimesRun(cache, x), y);
      RunsJoin(s, steps, ExchangeSteps(y));
      steps := steps + ExchangeSteps(y);
    }
  }

  /** So one call sends at most two requests, runs its method at most once, and reports success only
      when it ran exactly once. */
  lemma SoloCallAtMostOnce(cache: Option<string>, x: Exchange, y: Exchange)
    requires x.Valid() && y.Valid()
    ensures var call := SoloCall(cache, x, y);
            && 1 <= call.sent <= 2 && call.ran <= 1
            && (call.result.Ok? ==> call.ran == 1)
            && (call.result == ApiResponse(CONFLICT) ==> call.ran == 0)
  {
    var steps := SoloCallIsARun(cache, "", x, y);
    AtMostOnce(State(cache, "", [Task(Ready(false), 0, 0)]), steps, 0);
  }

  // ---- What the caller is told, on the exchanges ----

  /** The request carried the server's id, and the server let it through with this outcome. */
  predicate Carried(header: Option<string>, x: Exchange, outcome: Outcome) {
    && x.delivery.Delivered? && x.delivery.answer.Proceed?
    && x.delivery.answer.outcome == outcome && header == Some(x.id)
  }

  /** A delivered 409: the request carried another id, or none. */
  predicate Refused(header: Option<string>, x: Exchange) {
    x.delivery.Delivered? && x.delivery.answer.Proceed? && header != Some(x.id)
  }

  /** A second request is sent exactly after a delivered 409. The last request decides what the caller is
      told: success exactly when the server let it through and the method succeeded; a failed operation
      exactly when the method rejected it, though the server answered with a success status; an error
      status exactly as answered, 409 for a second refusal; and a failed request exactly when the
      request or its reply was lost. The id of a delivered 409, if it has one, is cached. */
  lemma SoloCallTells(cache: Option<string>, x: Exchange, y: Exchange)
    requires x.Valid() && y.Valid()
    ensures var call, again := SoloCall(cache, x, y), Refused(cache, x);
            var last := if again then y else x;
            var header := if again && x.delivery.answer.sid.Some? then x.delivery.answer.sid else cache;
            && call.sent == (if again then 2 else 1) && call.cache == header
            && (call.result == Ok <==> Carried(header, last, Succeed))
            && (call.result == OperationFailed <==> Carried(header, last, Reject))
            && (call.result == RequestFailed <==> !last.delivery.Delivered?)
            && (forall status :: call.result == ApiResponse(status) <==>
                  || Carried(header, last, FailAfter(status))
                  || last.delivery == Delivered(RefuseBefore(status))
                  || (Refused(header, last) && status == 409))
  {
  }

  /** The server runs the method for each request that reaches it with its id and that it lets through. */
  lemma SoloCallRuns(cache: Option<string>, x: Exchange, y: Exchange)
    ensures var call, again := SoloCall(cache, x, y), Refused(cache, x);
            call.ran == (if LetThrough(cache, x) then 1 else 0)
                        + (if again && LetThrough(call.cache, y) then 1 else 0)
  {
  }

  predicate LetThrough(header: Option<string>, x: Exchange) {
    && (x.delivery.ReplyLost? || x.delivery.Delivered?)
    && x.delivery.answer.Proceed? && header == Some(x.id)
  }
}
