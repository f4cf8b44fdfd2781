/** The Python client objects: a connection with its counter and its one pending request. */
module RpcClient {
  import RpcServer
  import Proto = RpcProtocol

  class Request {
    const noReply: bool
    var seqn: nat
    var queued: bool
    var gotReply: bool
    var timedout: bool

    constructor (noReply: bool)
      ensures this.noReply == noReply && seqn == 0 && !queued && !gotReply && !timedout
    {
      this.noReply := noReply;
      seqn := 0;
      queued, gotReply, timedout := false, false, false;
    }

    ghost function View(): Proto.Request
      reads this
    {
      Proto.Request(seqn, noReply, queued, gotReply, timedout)
    }
  }

  /** `data`, as far as it matters here: its header's sequence number and what can be parsed. */
  datatype Received = Received(seqn: nat, headerParses: bool, handlerParses: bool)

  class Connection {
    var seqn: nat
    var pendingRequest: Request?
    /** All requests sent on this connection, in order. */
    ghost var log: seq<Request>

    ghost predicate Valid()
      reads this
    {
      && (forall i, j :: 0 <= i < j < |log| ==> log[i] != log[j])
      && (pendingRequest != null ==> pendingRequest in log)
    }

    ghost function PendingId(): RpcServer.Option<nat>
      reads this
      requires Valid()
    {
      if pendingRequest == null then RpcServer.None else RpcServer.Some(Position(log, pendingRequest))
    }

    ghost function View(): Proto.Client
      reads this, log
      requires Valid()
    {
      Proto.Client(seqn, PendingId(), Views(log))
    }

    constructor ()
      ensures Valid() && View() == Proto.Client(0, RpcServer.None, []) && log == []
    {
      seqn := 0;
      pendingRequest := null;
      log := [];
    }

    method GetNextSeqn() returns (r: nat)
      modifies this`seqn
      ensures seqn == old(seqn) + 1 && r == seqn
    {
      seqn := seqn + 1;
      return seqn;
    }

    /** `Request.send` up to the write: the header that goes on the wire. */
    method Send(request: Request, callsetQuery: bool, whichCallset: nat) returns (header: RpcServer.Header)
      requires Valid() && request !in log
      requires !request.queued && !request.gotReply && !request.timedout
      modifies this, request
      ensures Valid() && log == old(log) + [request]
      ensures View() == Proto.Sent(old(View()), request.noReply)
      ensures seqn == old(seqn) + 1 && request.seqn == seqn && pendingRequest == old(pendingRequest)
      ensures !request.queued && !request.gotReply && !request.timedout
      ensures header == RpcServer.Header(seqn, request.noReply, callsetQuery, whichCallset)
    {
      var n := GetNextSeqn();
      request.seqn := n;
      ghost var before := Views(log);
      log := log + [request];
      assert Views(log) == before + [request.View()];
      if pendingRequest != null {
        PositionIs(old(log), pendingRequest);
        PositionIs(log, pendingRequest);
      }
      return RpcServer.Header(n, request.noReply, callsetQuery, whichCallset);
    }

    /** `add_pending`, as `send` calls it. */
    method AddPending(request: Request, ghost id: nat)
      requires Valid() && id < |log| && log[id] == request && Proto.CanAdd(View(), id)
      modifies this`pendingRequest, request
      ensures Valid() && log == old(log) && View() == Proto.Added(old(View()), id)
      ensures pendingRequest == request && request.queued && request.seqn == old(request.seqn)
      ensures request.gotReply == old(request.gotReply) && request.timedout == old(request.timedout)
    {
      pendingRequest := request;
      request.queued := true;
      PositionIs(log, request);
    }

    method RemovePending()
      requires Valid()
      modifies this`pendingRequest
      ensures Valid() && pendingRequest == null
    {
      pendingRequest := null;
    }

    /**
     One turn of `run`: `data` is what `read_loop` returned, `expired` the test
     of the time to live, made only when the data did not settle the request.
     */
    method RunOnce(data: RpcServer.Option<Received>, expired: bool)
      requires Valid()
      modifies this, pendingRequest
      ensures Valid() && log == old(log)
      ensures View() == Turn(old(View()), data, expired)
      ensures seqn == old(seqn) && (old(pendingRequest) == null ==> pendingRequest == null)
      ensures old(pendingRequest) != null ==>
                var p := old(pendingRequest);
                var settled := data.Some? && (data.value.headerParses ==> data.value.seqn == p.seqn);
                var answered := settled && data.value.headerParses && data.value.handlerParses;
                && p.seqn == old(pendingRequest.seqn) && p.queued == old(pendingRequest.queued)
                && p.gotReply == (old(pendingRequest.gotReply) || answered)
                && p.timedout == (old(pendingRequest.timedout) || (expired && !settled))
                && pendingRequest == if settled || expired then null else p
    {
      if pendingRequest != null {
        PositionIs(log, pendingRequest);
        if data.Some? {
          if data.value.headerParses {
            if data.value.seqn == pendingRequest.seqn {
              if data.value.handlerParses {
                pendingRequest.gotReply := true;
              }
              RemovePending();
              return;
            }
          } else {
            RemovePending();
            return;
          }
        }
        if expired {
          pendingRequest.timedout := true;
          RemovePending();
        }
      }
    }
  }

  /** Receiving, then the timeout unless the pending request has just been settled. */
  function Turn(c: Proto.Client, data: RpcServer.Option<Received>, expired: bool): Proto.Client {
    var c1 := if data.Some? then Proto.Received(c, data.value.seqn, data.value.headerParses, data.value.handlerParses)
              else c;
    if expired then Proto.TimedOut(c1) else c1
  }

  ghost function Position(log: seq<Request>, r: Request): nat
    requires r in log
  {
    if log[0] == r then 0 else 1 + Position(log[1..], r)
  }

  /** Where it stands, in this log and in every longer one. */
  lemma {:induction false} PositionIs(log: seq<Request>, r: Request)
    requires r in log
    ensures Position(log, r) < |log| && log[Position(log, r)] == r
    ensures forall k :: 0 <= k < Position(log, r) ==> log[k] != r
  {
    if log[0] != r {
      PositionIs(log[1..], r);
    }
  }

  ghost function Views(log: seq<Request>): seq<Proto.Request>
    reads log
  {
    seq(|log|, i reads log requires 0 <= i < |log| => log[i].View())
  }
}
