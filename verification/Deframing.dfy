/**
 Calls of a deframer with its FIFO, whatever the protocol: what one call returns
 and leaves behind, and what runs of calls guarantee.
 */
module Deframing {
  import opened Bytes
  import opened ByteStream

  /** The C return value: a size (0 also means "nothing yet"), -EOVERFLOW or -EINVAL. */
  datatype Ret = Size(n: nat) | Overflow | Invalid

  /** How a call ends at a byte that its machine cannot take. */
  datatype Stop<S> = Stop(s: S, keepsFifo: bool, ret: Ret)

  /** In a `failed` state a call only throws away the FIFO and becomes idle. */
  datatype Protocol<!S> = Protocol(step: Machine<S>, idle: S, failed: S -> bool, stop: S -> Stop<S>)

  /** `msg` is what stands in the output buffer below the returned size. */
  datatype Result<S> = Result(link: Link<S>, ret: Ret, msg: seq<byte>)

  function Settle<S>(p: Protocol<S>, o: Outcome<S>): Result<S> {
    match o
    case Quiet(s) => Result(Link(s, []), Size(0), [])
    case Got(s, msg, rest) => Result(Link(s, rest), Size(|msg|), msg)
    case Halted(s, rest) =>
      var stop := p.stop(s);
      Result(Link(stop.s, if stop.keepsFifo then rest else []), stop.ret, [])
  }

  /** A chunk that does not fit the FIFO is thrown away with everything in it. */
  function Call<S>(p: Protocol<S>, depth: nat, l: Link<S>, chunk: seq<byte>): (r: Result<S>)
    ensures |r.link.fifo| <= |l.fifo| + |chunk|
  {
    if |l.fifo| + |chunk| > depth || p.failed(l.s) then Result(Link(p.idle, []), Size(0), [])
    else Settle(p, Scan(p.step, l.s, l.fifo + chunk))
  }

  function Calls<S>(p: Protocol<S>, depth: nat, l: Link<S>, chunks: seq<seq<byte>>): (r: seq<Result<S>>)
    ensures |r| == |chunks|
    decreases |chunks|
  {
    if chunks == [] then []
    else var first := Call(p, depth, l, chunks[0]);
         [first] + Calls(p, depth, first.link, chunks[1..])
  }

  /** The messages a caller picks up: the results of positive size. */
  function PickedUp<S>(results: seq<Result<S>>): seq<seq<byte>> {
    if results == [] then []
    else (if results[0].ret.Size? && results[0].ret.n > 0 then [results[0].msg] else []) + PickedUp(results[1..])
  }

  function LastLink<S>(l: Link<S>, results: seq<Result<S>>): Link<S> {
    if results == [] then l else results[|results| - 1].link
  }

  /** The first of several calls. */
  lemma FirstCall<S>(p: Protocol<S>, depth: nat, l: Link<S>, chunks: seq<seq<byte>>)
    requires chunks != []
    ensures var all, first := Calls(p, depth, l, chunks), Call(p, depth, l, chunks[0]);
            var rest := Calls(p, depth, first.link, chunks[1..]);
            && all == [first] + rest && LastLink(l, all) == LastLink(first.link, rest)
            && PickedUp(all) == (if first.ret.Size? && first.ret.n > 0 then [first.msg] else []) + PickedUp(rest)
  {
    hide Call;
    var first := Call(p, depth, l, chunks[0]);
    var rest := Calls(p, depth, first.link, chunks[1..]);
    assert ([first] + rest)[1..] == rest;
  }

  /** No call meets an overflow of the FIFO, a failed state or a byte it cannot take. */
  predicate Smooth<S>(p: Protocol<S>, depth: nat, l: Link<S>, chunks: seq<seq<byte>>)
    decreases |chunks|
  {
    || chunks == []
    || (&& |l.fifo| + |chunks[0]| <= depth && !p.failed(l.s)
        && !Scan(p.step, l.s, l.fifo + chunks[0]).Halted?
        && Smooth(p, depth, Call(p, depth, l, chunks[0]).link, chunks[1..]))
  }

  /** Failure comes from stopping only. */
  ghost predicate StepsStayLive<S(!new)>(p: Protocol<S>) {
    && !p.failed(p.idle)
    && (forall s, b :: !p.failed(s) && !p.step(s, b).Halt? ==> !p.failed(p.step(s, b).s))
  }

  lemma {:induction false} StaysLive<S(!new)>(p: Protocol<S>, s: S, q: seq<byte>)
    requires StepsStayLive(p) && !p.failed(s)
    ensures !p.failed(Scan(p.step, s, q).s)
    decreases |q|
  {
    if q != [] && p.step(s, q[0]).Next? {
      StaysLive(p, p.step(s, q[0]).s, q[1..]);
    }
  }

  // ----- one message in any chunks -----------------------------------------------------------------

  /** The rest of a frame of m: once it is read, m is returned and nothing is left over. */
  ghost predicate Awaits<S>(p: Protocol<S>, l: Link<S>, rest: seq<byte>, m: seq<byte>) {
    l.fifo == [] && !p.failed(l.s) && Scan(p.step, l.s, rest) == Got(p.idle, m, [])
  }

  /** A piece that does not end the frame returns 0, and the one that does returns m. */
  lemma NextPiece<S(!new)>(p: Protocol<S>, depth: nat, l: Link<S>, chunk: seq<byte>, rest: seq<byte>, m: seq<byte>)
    requires StepsStayLive(p) && Awaits(p, l, chunk + rest, m) && |chunk| <= depth
    ensures !Scan(p.step, l.s, l.fifo + chunk).Halted?
    ensures var r := Call(p, depth, l, chunk);
            if rest == [] then r == Result(Link(p.idle, []), Size(|m|), m)
            else r.ret == Size(0) && Awaits(p, r.link, rest, m)
  {
    hide Scan, StepsStayLive;
    assert [] + chunk == chunk;
    if rest != [] {
      ScanResume(p.step, l.s, chunk, rest);
      StaysLive(p, l.s, chunk);
    } else {
      assert chunk + rest == chunk;
    }
  }

  /** All calls return 0 but the last, which returns the message and leaves an idle deframer and an empty FIFO. */
  ghost predicate DeliversAtEnd<S>(p: Protocol<S>, results: seq<Result<S>>, m: seq<byte>) {
    && results != []
    && (forall i :: 0 <= i < |results| - 1 ==> results[i].ret == Size(0))
    && results[|results| - 1] == Result(Link(p.idle, []), Size(|m|), m)
  }

  /** Bytes that end with one message, in whatever chunks: all calls but the last are quiet, and the last gets it. */
  lemma {:induction false} MessageInChunks<S(!new)>(p: Protocol<S>, depth: nat, l: Link<S>, chunks: seq<seq<byte>>,
                                                    stream: seq<byte>, m: seq<byte>)
    requires StepsStayLive(p) && Awaits(p, l, stream, m) && Chunks(chunks, depth, stream)
    ensures DeliversAtEnd(p, Calls(p, depth, l, chunks), m) && Smooth(p, depth, l, chunks)
    decreases |chunks|
  {
    hide Scan, StepsStayLive, Awaits, Call;
    assert chunks[0] in chunks;
    AwaitsLive(p, l, stream, m);
    NextPiece(p, depth, l, chunks[0], Concat(chunks[1..]), m);
    var first := Call(p, depth, l, chunks[0]);
    if |chunks| > 1 {
      ConcatNotEmpty(chunks[1..]);
      MessageInChunks(p, depth, first.link, chunks[1..], Concat(chunks[1..]), m);
      LaterDelivers(p, first, Calls(p, depth, first.link, chunks[1..]), m);
    } else {
      assert Concat(chunks[1..]) == [];
      assert Calls(p, depth, l, chunks) == [first];
    }
  }

  lemma AwaitsLive<S>(p: Protocol<S>, l: Link<S>, rest: seq<byte>, m: seq<byte>)
    requires Awaits(p, l, rest, m)
    ensures l.fifo == [] && !p.failed(l.s)
  {}

  lemma LaterDelivers<S>(p: Protocol<S>, first: Result<S>, later: seq<Result<S>>, m: seq<byte>)
    requires first.ret == Size(0) && DeliversAtEnd(p, later, m)
    ensures DeliversAtEnd(p, [first] + later, m)
  {}

  /** What such a run hands out, if the message is not empty. */
  lemma {:induction false} DeliveredIsPickedUp<S>(p: Protocol<S>, results: seq<Result<S>>, m: seq<byte>)
    requires DeliversAtEnd(p, results, m)
    ensures PickedUp(results) == Visible(m)
  {
    if |results| > 1 {
      DeliveredIsPickedUp(p, results[1..], m);
    } else {
      assert PickedUp(results[1..]) == [];
    }
  }

  // ----- streams of messages -----------------------------------------------------------------------

  lemma CallIsTurn<S(!new)>(p: Protocol<S>, depth: nat, l: Link<S>, chunk: seq<byte>)
    requires StepsStayLive(p) && !p.failed(l.s)
    requires FaultFree(p.step, l.s, l.fifo + chunk) && |l.fifo| + |chunk| <= depth
    ensures !Scan(p.step, l.s, l.fifo + chunk).Halted?
    ensures var r := Call(p, depth, l, chunk);
            && r.ret.Size? && !p.failed(r.link.s)
            && (r.link, if r.ret.n > 0 then [r.msg] else []) == Turn(p.step, l, chunk)
  {
    hide Scan, FaultFree, StepsStayLive;
    FaultFreeScan(p.step, l.s, l.fifo + chunk);
    StaysLive(p, l.s, l.fifo + chunk);
  }

  /** On a stream without faults, calls whose chunks fit behave like turns. */
  lemma {:induction false} CallsFeed<S(!new)>(p: Protocol<S>, depth: nat, l: Link<S>, chunks: seq<seq<byte>>)
    requires StepsStayLive(p) && !p.failed(l.s)
    requires FaultFree(p.step, l.s, l.fifo + Concat(chunks)) && Fits(p.step, depth, l, chunks)
    ensures var (l', got) := Feed(p.step, l, chunks);
            var results := Calls(p, depth, l, chunks);
            PickedUp(results) == got && LastLink(l, results) == l'
    ensures Smooth(p, depth, l, chunks)
    decreases |chunks|
  {
    if chunks != [] {
      hide Scan, FaultFree, Turn, Call, StepsStayLive;
      assert chunks == [chunks[0]] + chunks[1..];
      TurnKeepsFaultFree(p.step, l, chunks[0], chunks[1..]);
      CallIsTurn(p, depth, l, chunks[0]);
      var first := Call(p, depth, l, chunks[0]);
      var results' := Calls(p, depth, first.link, chunks[1..]);
      CallsFeed(p, depth, first.link, chunks[1..]);
      assert ([first] + results')[1..] == results';
    }
  }

  /** Frames and junk, cut anywhere: the calls and enough draining calls hand out all messages in order. */
  lemma MessagesInChunks<S(!new)>(p: Protocol<S>, depth: nat, items: seq<Item>, chunks: seq<seq<byte>>, n: nat)
    requires StepsStayLive(p) && (forall x :: x in items ==> IsItem(p.step, p.idle, x))
    requires Concat(chunks) == Stream(items)
    requires Fits(p.step, depth, Link(p.idle, []), chunks + Empties(n))
    requires n >= |Feed(p.step, Link(p.idle, []), chunks).0.fifo|
    ensures var results := Calls(p, depth, Link(p.idle, []), chunks + Empties(n));
            PickedUp(results) == Payloads(items) && LastLink(Link(p.idle, []), results) == Link(p.idle, [])
    ensures Smooth(p, depth, Link(p.idle, []), chunks + Empties(n))
  {
    assert !p.failed(p.idle);
    hide Scan, Feed, Fits, Stream, IsItem, StepsStayLive;
    ItemsInChunks(p.step, p.idle, items, chunks, n);
    CallsFeed(p, depth, Link(p.idle, []), chunks + Empties(n));
  }

  // ----- runs of calls and whole streams -------------------------------------------------------------

  /** In a run without trouble the bytes fed are the bytes read, which fix what is picked up, and the FIFO. */
  lemma {:induction false} SmoothAccounts<S(!new)>(p: Protocol<S>, depth: nat, l: Link<S>, chunks: seq<seq<byte>>)
    requires Smooth(p, depth, l, chunks)
    ensures var results := Calls(p, depth, l, chunks);
            Accounts(p.step, l.s, l.fifo + Concat(chunks), LastLink(l, results), PickedUp(results))
    decreases |chunks|
  {
    if chunks == [] {
      assert l.fifo + Concat(chunks) == l.fifo;
      assert AccountsUpTo(p.step, l.s, l.fifo, 0, l, []);
    } else {
      hide Scan, Call, FaultFree, Final, Messages, Accounts, Calls, PickedUp, LastLink;
      FirstCall(p, depth, l, chunks);
      CallAccounts(p, depth, l, chunks[0]);
      var first := Call(p, depth, l, chunks[0]);
      SmoothAccounts(p, depth, first.link, chunks[1..]);
      var rest := Calls(p, depth, first.link, chunks[1..]);
      var got := if first.ret.Size? && first.ret.n > 0 then [first.msg] else [];
      AccountsCompose(p.step, l.s, l.fifo + chunks[0], first.link, got, Concat(chunks[1..]),
                      LastLink(first.link, rest), PickedUp(rest));
      Reassociate(l.fifo, chunks[0], Concat(chunks[1..]));
    }
  }

  lemma CallAccounts<S(!new)>(p: Protocol<S>, depth: nat, l: Link<S>, chunk: seq<byte>)
    requires |l.fifo| + |chunk| <= depth && !p.failed(l.s) && !Scan(p.step, l.s, l.fifo + chunk).Halted?
    ensures var r := Call(p, depth, l, chunk);
            Accounts(p.step, l.s, l.fifo + chunk, r.link, if r.ret.Size? && r.ret.n > 0 then [r.msg] else [])
  {
    hide Scan, FaultFree, Final, Messages;
    var q, r := l.fifo + chunk, Call(p, depth, l, chunk);
    var k := ScanReads(p.step, l.s, q);
    assert AccountsUpTo(p.step, l.s, q, k, r.link, if r.ret.Size? && r.ret.n > 0 then [r.msg] else []);
  }

  lemma NothingLeft<S(!new)>(step: Machine<S>, s: S, all: seq<byte>, l: Link<S>, got: seq<seq<byte>>)
    requires Accounts(step, s, all, l, got) && l.fifo == []
    ensures FaultFree(step, s, all) && Final(step, s, all) == l.s && Messages(step, s, all) == got
  {
    hide FaultFree, Final, Messages;
    var k: nat :| AccountsUpTo(step, s, all, k, l, got);
    assert all[..k] == all;
  }

  /** The run meets no trouble, picks up these messages, and ends in this state with an empty FIFO. */
  ghost predicate RunsTo<S>(p: Protocol<S>, depth: nat, chunks: seq<seq<byte>>, s: S, got: seq<seq<byte>>) {
    var l := Link(p.idle, []);
    var results := Calls(p, depth, l, chunks);
    Smooth(p, depth, l, chunks) && PickedUp(results) == got && LastLink(l, results) == Link(s, [])
  }

  /** Calls on chunks that fit, the draining calls included, do exactly what reading the whole stream does. */
  lemma RunReadsStream<S(!new)>(p: Protocol<S>, depth: nat, chunks: seq<seq<byte>>, n: nat, s: S, got: seq<seq<byte>>)
    requires StepsStayLive(p)
    requires Fits(p.step, depth, Link(p.idle, []), chunks + Empties(n))
    requires n >= |Feed(p.step, Link(p.idle, []), chunks).0.fifo|
    ensures var all := Concat(chunks);
            RunsTo(p, depth, chunks + Empties(n), s, got)
            <==> FaultFree(p.step, p.idle, all) && Final(p.step, p.idle, all) == s
                 && Messages(p.step, p.idle, all) == got
  {
    assert !p.failed(p.idle);
    hide Scan, Feed, Fits, FaultFree, Final, Messages, StepsStayLive, Accounts, Smooth, Calls;
    var all, l, cut := Concat(chunks), Link(p.idle, []), chunks + Empties(n);
    ConcatEmpties(chunks, n);
    assert l.fifo + all == all;
    if FaultFree(p.step, p.idle, all) {
      ChunkingDoesNotMatter(p.step, l, chunks, n);
      CallsFeed(p, depth, l, cut);
    }
    if Smooth(p, depth, l, cut) {
      SmoothAccounts(p, depth, l, cut);
      if LastLink(l, Calls(p, depth, l, cut)).fifo == [] {
        NothingLeft(p.step, p.idle, all, LastLink(l, Calls(p, depth, l, cut)), PickedUp(Calls(p, depth, l, cut)));
      }
    }
  }
}
