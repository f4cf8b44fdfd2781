/**
 Client, server and two unreliable channels as a state machine. A channel is the
 set of all it was ever given: whatever is in it may arrive late, again, in any
 order, or never. Requests are numbered in the order they were sent; the number
 is not on the wire.
 */
module RpcProtocol {
  import opened RpcServer

  datatype Request = Request(seqn: nat, noReply: bool, queued: bool, gotReply: bool, timedout: bool)

  /** `requests` are all requests sent so far; `pending` is the position of the one awaiting its reply. */
  datatype Client = Client(seqn: nat, pending: Option<nat>, requests: seq<Request>)

  datatype Call = Call(id: nat, header: Header)

  /** A reply with the request the server produced it for. */
  datatype Reply = Reply(id: nat, header: ReplyHeader)

  /** Two histories: which request's reply answered a request, and which requests were dropped while pending. */
  datatype World = World(client: Client, calls: set<Call>, replies: set<Reply>, answeredBy: map<nat, nat>,
                         dropped: set<nat>)

  datatype Event =
    | Send(noReply: bool, callsetQuery: bool, whichCallset: nat)
    | AddPending(id: nat)
    | Serve(call: Call, callsets: seq<Entry>, callsetUnpacks: bool, handlerFound: bool, handlerStatus: Status,
            headerFits: bool)
    | Receive(reply: Reply, headerParses: bool, handlerParses: bool)
    /** Bytes without a header that can be parsed, a torn reply for one. */
    | ReceiveNoise
    | Timeout

  // ----- the client's steps ----------------------------------------------------------------------------

  /** `get_next_seqn` and a new entry. */
  function Sent(c: Client, noReply: bool): Client {
    c.(seqn := c.seqn + 1, requests := c.requests + [Request(c.seqn + 1, noReply, false, false, false)])
  }

  /** `send` queues its request once, after writing it, unless it wants no reply. */
  predicate CanAdd(c: Client, id: nat) {
    id < |c.requests| && !c.requests[id].noReply && !c.requests[id].queued
  }

  function Added(c: Client, id: nat): Client
    requires CanAdd(c, id)
  {
    c.(pending := Some(id), requests := c.requests[id := c.requests[id].(queued := true)])
  }

  /** The pending request is answered by this reply. */
  predicate Accepts(c: Client, seqn: nat, headerParses: bool, handlerParses: bool) {
    && c.pending.Some? && c.pending.value < |c.requests|
    && headerParses && seqn == c.requests[c.pending.value].seqn && handlerParses
  }

  /** Parsing the header raises, or the reply has the right number and parsing the rest raises. */
  predicate Raises(c: Client, seqn: nat, headerParses: bool, handlerParses: bool) {
    && c.pending.Some? && c.pending.value < |c.requests|
    && (headerParses ==> seqn == c.requests[c.pending.value].seqn && !handlerParses)
  }

  /** One turn of `run` with data: a match answers the request, an exception drops it, a mismatch is skipped. */
  function Received(c: Client, seqn: nat, headerParses: bool, handlerParses: bool): Client {
    if Accepts(c, seqn, headerParses, handlerParses) then
      var id := c.pending.value;
      c.(pending := None, requests := c.requests[id := c.requests[id].(gotReply := true)])
    else if Raises(c, seqn, headerParses, handlerParses) then c.(pending := None)
    else c
  }

  function TimedOut(c: Client): Client {
    if c.pending.None? || c.pending.value >= |c.requests| then c
    else
      var id := c.pending.value;
      c.(pending := None, requests := c.requests[id := c.requests[id].(timedout := true)])
  }

  // ----- the whole system ------------------------------------------------------------------------------

  function Initial(): World { World(Client(0, None, []), {}, {}, map[], {}) }

  predicate Enabled(w: World, e: Event) {
    match e
    case Send(_, _, _) => true
    case AddPending(id) => CanAdd(w.client, id)
    case Serve(call, _, _, _, _, _) => call in w.calls
    case Receive(reply, _, _) => reply in w.replies
    case ReceiveNoise => true
    case Timeout => true
  }

  /** The step drops the pending request: it queues another one, or it receives what cannot be parsed. */
  predicate LosesPending(c: Client, e: Event) {
    match e
    case AddPending(_) => c.pending.Some?
    case Receive(reply, parses, handled) => Raises(c, reply.header.seqn, parses, handled)
    case ReceiveNoise => Raises(c, 0, false, false)
    case _ => false
  }

  function Drops(c: Client, e: Event): set<nat> { if LosesPending(c, e) then {c.pending.value} else {} }

  function Next(w: World, e: Event): World
    requires Enabled(w, e)
  {
    Step(w, e).(dropped := w.dropped + Drops(w.client, e))
  }

  function Step(w: World, e: Event): World
    requires Enabled(w, e)
  {
    match e
    case Send(noReply, query, which) =>
      var client := Sent(w.client, noReply);
      w.(client := client,
         calls := w.calls + {Call(|w.client.requests|, Header(client.seqn, noReply, query, which))})
    case AddPending(id) => w.(client := Added(w.client, id))
    case Serve(call, callsets, unpacks, found, status, fits) =>
      var out := Answer(callsets, Attempt(Some(call.header), unpacks, found, status, fits));
      if out.Whole? then w.(replies := w.replies + {Reply(call.id, out.header)}) else w
    case Receive(reply, parses, handled) =>
      var w' := w.(client := Received(w.client, reply.header.seqn, parses, handled));
      if Accepts(w.client, reply.header.seqn, parses, handled)
      then w'.(answeredBy := w.answeredBy[w.client.pending.value := reply.id])
      else w'
    case ReceiveNoise => w.(client := Received(w.client, 0, false, false))
    case Timeout => w.(client := TimedOut(w.client))
  }

  predicate Run(w: World, events: seq<Event>)
    decreases |events|
  {
    events != [] ==> Enabled(w, events[0]) && Run(Next(w, events[0]), events[1..])
  }

  function Reached(w: World, events: seq<Event>): World
    requires Run(w, events)
    decreases |events|
  {
    if events == [] then w else Reached(Next(w, events[0]), events[1..])
  }

  // ----- safety ------------------------------------------------------------------------------------------

  /** Requests carry 1, 2, 3, ... in the order they were sent. */
  ghost predicate Numbered(c: Client) {
    c.seqn == |c.requests| && forall i :: 0 <= i < |c.requests| ==> c.requests[i].seqn == i + 1
  }

  /** Whatever is on its way carries the number of the request it belongs to. */
  ghost predicate Tagged(w: World) {
    && (forall c :: c in w.calls ==> c.id < |w.client.requests| && c.header.seqn == c.id + 1)
    && (forall r :: r in w.replies ==> r.id < |w.client.requests| && r.header.seqn == r.id + 1)
  }

  /** A request ends at most once, as answered or as timed out, and the pending one has not ended. */
  ghost predicate EndsOnce(c: Client) {
    && (c.pending.Some? ==> c.pending.value < |c.requests| && c.requests[c.pending.value].queued
                            && !c.requests[c.pending.value].gotReply && !c.requests[c.pending.value].timedout)
    && (forall i :: 0 <= i < |c.requests| ==>
          && !(c.requests[i].gotReply && c.requests[i].timedout)
          && (c.requests[i].gotReply || c.requests[i].timedout ==> c.requests[i].queued)
          && (c.requests[i].queued ==> !c.requests[i].noReply))
  }

  /** Answered means answered by a reply the server produced for this very request. */
  ghost predicate NoStaleAnswers(w: World) {
    forall i :: 0 <= i < |w.client.requests| ==>
      (w.client.requests[i].gotReply <==> i in w.answeredBy) && (i in w.answeredBy ==> w.answeredBy[i] == i)
  }

  ghost predicate Ended(r: Request) { r.gotReply || r.timedout }

  /** A request that was queued is pending, ended or dropped, and only one of these. */
  ghost predicate Accounted(w: World) {
    && (forall i :: i in w.dropped ==> i < |w.client.requests|)
    && (forall i :: 0 <= i < |w.client.requests| ==>
          var r := w.client.requests[i];
          && (r.queued <==> w.client.pending == Some(i) || Ended(r) || i in w.dropped)
          && !(w.client.pending == Some(i) && i in w.dropped) && !(Ended(r) && i in w.dropped))
  }

  ghost predicate Inv(w: World) {
    Numbered(w.client) && Tagged(w) && EndsOnce(w.client) && NoStaleAnswers(w) && Accounted(w)
  }

  lemma ServeKeepsInv(w: World, e: Event)
    requires Inv(w) && e.Serve? && Enabled(w, e)
    ensures Inv(Next(w, e))
  {}

  lemma SendKeepsInv(w: World, e: Event)
    requires Inv(w) && e.Send? && (forall i :: i in w.answeredBy ==> i < |w.client.requests|)
    ensures Inv(Next(w, e))
  {
    var c, c' := w.client, Next(w, e).client;
    assert forall i :: 0 <= i < |c.requests| ==> c'.requests[i] == c.requests[i];
  }

  /** A reply that is taken comes from the server, so it carries the pending request's own number. */
  lemma AnswerKeepsInv(w: World, e: Event)
    requires Inv(w) && e.Receive? && Enabled(w, e)
    requires Accepts(w.client, e.reply.header.seqn, e.headerParses, e.handlerParses)
    ensures Inv(Next(w, e))
  {
    assert e.reply.id == w.client.pending.value;
    assert !Raises(w.client, e.reply.header.seqn, e.headerParses, e.handlerParses);
  }

  lemma ReceiveKeepsInv(w: World, e: Event)
    requires Inv(w) && e.Receive? && Enabled(w, e)
    ensures Inv(Next(w, e))
  {
    if Accepts(w.client, e.reply.header.seqn, e.headerParses, e.handlerParses) {
      AnswerKeepsInv(w, e);
    }
  }

  lemma OwnStepKeepsInv(w: World, e: Event)
    requires Inv(w) && (e.AddPending? || e.Timeout? || e.ReceiveNoise?) && Enabled(w, e)
    ensures Inv(Next(w, e))
  {}

  ghost predicate AnswersKnown(w: World) {
    forall i :: i in w.answeredBy ==> i < |w.client.requests|
  }

  lemma StepKeepsInv(w: World, e: Event)
    requires Inv(w) && AnswersKnown(w) && Enabled(w, e)
    ensures Inv(Next(w, e)) && AnswersKnown(Next(w, e))
  {
    match e
    case Send(_, _, _) => SendKeepsInv(w, e);
    case Serve(_, _, _, _, _, _) => ServeKeepsInv(w, e);
    case Receive(_, _, _) => ReceiveKeepsInv(w, e);
    case ReceiveNoise => OwnStepKeepsInv(w, e);
    case AddPending(_) => OwnStepKeepsInv(w, e);
    case Timeout => OwnStepKeepsInv(w, e);
  }

  lemma {:induction false} RunKeepsInv(w: World, events: seq<Event>)
    requires Inv(w) && AnswersKnown(w) && Run(w, events)
    ensures Inv(Reached(w, events)) && AnswersKnown(Reached(w, events))
    decreases |events|
  {
    if events != [] {
      StepKeepsInv(w, events[0]);
      RunKeepsInv(Next(w, events[0]), events[1..]);
    }
  }

  /**
   In every run, whatever is delayed, repeated, reordered or lost: an answered
   request was answered by a reply produced for it, and it did not also time out.
   */
  lemma NoStaleAnswersEver(events: seq<Event>)
    requires Run(Initial(), events)
    ensures var w := Reached(Initial(), events);
            && NoStaleAnswers(w)
            && (forall i :: 0 <= i < |w.client.requests| ==>
                  !(w.client.requests[i].gotReply && w.client.requests[i].timedout))
  {
    RunKeepsInv(Initial(), events);
  }

  /** In every run a queued request that is no longer pending has ended, unless it was dropped. */
  lemma EndedUnlessDropped(events: seq<Event>, i: nat)
    requires Run(Initial(), events) && i < |Reached(Initial(), events).client.requests|
    requires Reached(Initial(), events).client.requests[i].queued
    requires Reached(Initial(), events).client.pending != Some(i)
    ensures var w := Reached(Initial(), events);
            Ended(w.client.requests[i]) <==> i !in w.dropped
  {
    RunKeepsInv(Initial(), events);
  }

  /** No step of the run sends a request while one is pending, and none receives what cannot be parsed. */
  predicate NoDrops(w: World, events: seq<Event>)
    requires Run(w, events)
    decreases |events|
  {
    events != [] ==> !LosesPending(w.client, events[0]) && NoDrops(Next(w, events[0]), events[1..])
  }

  /** Nothing is dropped in exactly these runs. */
  lemma {:induction false} DroppedNone(w: World, events: seq<Event>)
    requires Inv(w) && AnswersKnown(w) && Run(w, events)
    ensures Reached(w, events).dropped == {} <==> w.dropped == {} && NoDrops(w, events)
    decreases |events|
  {
    if events != [] {
      var w' := Next(w, events[0]);
      StepKeepsInv(w, events[0]);
      DroppedNone(w', events[1..]);
      assert w'.dropped == {} <==> w.dropped == {} && !LosesPending(w.client, events[0]);
    }
  }

  /**
   After a run every queued request has ended or is pending if and only if no step of
   the run replaced a pending request or raised.
   */
  lemma AllEndWithoutDrops(events: seq<Event>)
    requires Run(Initial(), events)
    ensures var w := Reached(Initial(), events);
            NoDrops(Initial(), events)
            <==> (forall i :: 0 <= i < |w.client.requests| && w.client.requests[i].queued && w.client.pending != Some(i)
                    ==> Ended(w.client.requests[i]))
  {
    RunKeepsInv(Initial(), events);
    DroppedNone(Initial(), events);
    var w := Reached(Initial(), events);
    if i :| i in w.dropped {
      assert !Ended(w.client.requests[i]);
    }
  }

  /** And a dropped one never ends: whatever follows, a caller that waits for it waits forever. */
  lemma DroppedNeverEnds(events: seq<Event>, later: seq<Event>, i: nat)
    requires Run(Initial(), events) && i in Reached(Initial(), events).dropped
    requires Run(Reached(Initial(), events), later)
    ensures var w := Reached(Reached(Initial(), events), later);
            i < |w.client.requests| && !Ended(w.client.requests[i])
  {
    RunKeepsInv(Initial(), events);
    StaysDropped(Reached(Initial(), events), later, i);
    RunKeepsInv(Reached(Initial(), events), later);
  }

  lemma {:induction false} StaysDropped(w: World, later: seq<Event>, i: nat)
    requires Run(w, later) && i in w.dropped
    ensures i in Reached(w, later).dropped
    decreases |later|
  {
    if later != [] {
      StaysDropped(Next(w, later[0]), later[1..], i);
    }
  }

  /** It happens: a second request is sent while the first one is pending. */
  lemma SecondRequestDropsFirst(whichCallset: nat)
    ensures var send := Send(false, false, whichCallset);
            var events := [send, AddPending(0), send, AddPending(1)];
            Run(Initial(), events) && 0 in Reached(Initial(), events).dropped
  {
    var send := Send(false, false, whichCallset);
    var w1 := Next(Initial(), send);
    var w2 := Next(w1, AddPending(0));
    var w3 := Next(w2, send);
    OneStep(w3, AddPending(1), []);
    OneStep(w2, send, [AddPending(1)]);
    OneStep(w1, AddPending(0), [send, AddPending(1)]);
    OneStep(Initial(), send, [AddPending(0), send, AddPending(1)]);
  }

  lemma OneStep(w: World, e: Event, later: seq<Event>)
    requires Enabled(w, e) && Run(Next(w, e), later)
    ensures Run(w, [e] + later) && Reached(w, [e] + later) == Reached(Next(w, e), later)
  {}

  // ----- what each step achieves -----------------------------------------------------------------------

  /** After any run a timeout ends the pending request, and changes no other. */
  lemma TimeoutEnds(events: seq<Event>)
    requires Run(Initial(), events) && Reached(Initial(), events).client.pending.Some?
    ensures var w := Reached(Initial(), events);
            var w', i := Next(w, Timeout), w.client.pending.value;
            && i < |w.client.requests| == |w'.client.requests| && w'.client.pending == None
            && w'.client.requests[i].timedout && !w'.client.requests[i].gotReply
            && (forall j :: 0 <= j < |w.client.requests| && j != i ==> w'.client.requests[j] == w.client.requests[j])
  {
    RunKeepsInv(Initial(), events);
  }

  /** After any run a reply to the pending request that can be parsed answers it, and changes no other. */
  lemma AnswerEnds(events: seq<Event>, reply: Reply)
    requires Run(Initial(), events) && reply in Reached(Initial(), events).replies
    requires Reached(Initial(), events).client.pending == Some(reply.id)
    ensures var w := Reached(Initial(), events);
            var w', i := Next(w, Receive(reply, true, true)), reply.id;
            && i < |w.client.requests| == |w'.client.requests| && w'.client.pending == None
            && w'.client.requests[i].gotReply && !w'.client.requests[i].timedout
            && (forall j :: 0 <= j < |w.client.requests| && j != i ==> w'.client.requests[j] == w.client.requests[j])
  {
    RunKeepsInv(Initial(), events);
    RepliesFindTheirRequest(events, reply);
  }

  /** Serving a call that wants a reply, with a header that fits, puts a reply for this call among the replies. */
  lemma ServeAnswers(w: World, call: Call, callsets: seq<Entry>, unpacks: bool, found: bool, handlerStatus: Status)
    returns (status: Status)
    requires call in w.calls && !call.header.noReply
    ensures var w' := Next(w, Serve(call, callsets, unpacks, found, handlerStatus, true));
            var header := ReplyHeader(call.header.seqn, call.header.whichCallset, status);
            && w'.replies == w.replies + {Reply(call.id, header)}
            && w'.client == w.client && w'.calls == w.calls
    ensures !call.header.callsetQuery && Resolves(call.header.whichCallset, callsets) && unpacks && found ==>
              status == handlerStatus
  {
    AnswerOnFields(callsets, call.header, unpacks, found, handlerStatus, true);
    status := Answer(callsets, Attempt(Some(call.header), unpacks, found, handlerStatus, true)).header.status;
  }

  /** From every reachable world a call can be sent, served and answered, whatever else is on its way. */
  lemma CallCompletes(events: seq<Event>, which: nat, callsets: seq<Entry>, unpacks: bool, found: bool,
                      handlerStatus: Status)
    returns (later: seq<Event>, id: nat)
    requires Run(Initial(), events)
    ensures Run(Reached(Initial(), events), later) && |later| == 4
    ensures var w, w' := Reached(Initial(), events), Reached(Reached(Initial(), events), later);
            && id == |w.client.requests| && |w'.client.requests| == id + 1 && w'.client.pending == None
            && w'.client.requests[id].gotReply && !w'.client.requests[id].timedout
  {
    RunKeepsInv(Initial(), events);
    var w := Reached(Initial(), events);
    id := |w.client.requests|;
    var send, add := Send(false, false, which), AddPending(id);
    var call := Call(id, Header(w.client.seqn + 1, false, false, which));
    var w1 := Next(w, send);
    StepKeepsInv(w, send);
    var w2 := Next(w1, add);
    StepKeepsInv(w1, add);
    var status := ServeAnswers(w2, call, callsets, unpacks, found, handlerStatus);
    var serve := Serve(call, callsets, unpacks, found, handlerStatus, true);
    var w3 := Next(w2, serve);
    var receive := Receive(Reply(id, ReplyHeader(w.client.seqn + 1, which, status)), true, true);
    OneStep(w3, receive, []);
    OneStep(w2, serve, [receive]);
    OneStep(w1, add, [serve] + [receive]);
    OneStep(w, send, [add] + ([serve] + [receive]));
    later := [send] + ([add] + ([serve] + [receive]));
  }

  /** Sequence numbers are never used twice. */
  lemma SeqnsIncrease(events: seq<Event>, i: nat, j: nat)
    requires Run(Initial(), events) && i < j < |Reached(Initial(), events).client.requests|
    ensures var r := Reached(Initial(), events).client.requests; r[i].seqn < r[j].seqn
  {
    RunKeepsInv(Initial(), events);
  }

  /** In every run a reply that parses is taken exactly by the request it was produced for. */
  lemma RepliesFindTheirRequest(events: seq<Event>, reply: Reply)
    requires Run(Initial(), events) && reply in Reached(Initial(), events).replies
    ensures var c := Reached(Initial(), events).client;
            Accepts(c, reply.header.seqn, true, true) <==> c.pending == Some(reply.id)
  {
    RunKeepsInv(Initial(), events);
  }
}
