/** The bounded queue that SwFifo implements, with the history since the last flush. */
module BoundedQueue {
  import opened Bytes

  datatype Op =
    | Write(items: seq<byte>)
    | Peek(num: uint32)
    | Ack(num: uint32)
    | Read(num: uint32)
    | Flush

  /** What a caller observes of one operation: the return value and the bytes copied out. */
  datatype Reply = Reply(ret: int, bytes: seq<byte>)

  /** `accepted` and `removed` record all bytes that went in and out since the last flush. */
  datatype Queue = Queue(depth: nat, items: seq<byte>, accepted: seq<byte>, removed: seq<byte>) {
    ghost predicate Conserves() {
      accepted == removed + items && |items| <= depth
    }
  }

  function Empty(depth: nat): Queue { Queue(depth, [], [], []) }

  /** `SwFifo_ack` trusts its caller not to drop more than is stored. */
  predicate Legal(q: Queue, op: Op) {
    op.Ack? ==> op.num <= |q.items|
  }

  function Drop(q: Queue, n: nat): Queue
    requires n <= |q.items|
  {
    q.(items := q.items[n..], removed := q.removed + q.items[..n])
  }

  function Apply(q: Queue, op: Op): Queue
    requires Legal(q, op)
  {
    match op
    case Write(items) =>
      if |q.items| + |items| <= q.depth
      then q.(items := q.items + items, accepted := q.accepted + items)
      else q
    case Peek(_) => q
    case Ack(num) => Drop(q, num)
    case Read(num) => Drop(q, Min(num, |q.items|))
    case Flush => Empty(q.depth)
  }

  function Answer(q: Queue, op: Op): Reply
    requires Legal(q, op)
  {
    match op
    case Write(items) => Reply(if |q.items| + |items| <= q.depth then 0 else -1, [])
    case Peek(num) => var n := Min(num, |q.items|); Reply(n, q.items[..n])
    case Read(num) => var n := Min(num, |q.items|); Reply(n, q.items[..n])
    case Ack(_) => Reply(0, [])
    case Flush => Reply(0, [])
  }

  predicate LegalRun(q: Queue, ops: seq<Op>)
    decreases ops
  {
    ops != [] ==> Legal(q, ops[0]) && LegalRun(Apply(q, ops[0]), ops[1..])
  }

  function Run(q: Queue, ops: seq<Op>): Queue
    requires LegalRun(q, ops)
    decreases ops
  {
    if ops == [] then q else Run(Apply(q, ops[0]), ops[1..])
  }

  function Answers(q: Queue, ops: seq<Op>): seq<Reply>
    requires LegalRun(q, ops)
    decreases ops
  {
    if ops == [] then [] else [Answer(q, ops[0])] + Answers(Apply(q, ops[0]), ops[1..])
  }

  /** Over every run nothing is lost, duplicated or reordered between two flushes. */
  lemma {:induction false} RunConserves(q: Queue, ops: seq<Op>)
    requires LegalRun(q, ops) && q.Conserves()
    ensures Run(q, ops).Conserves() && Run(q, ops).depth == q.depth
    decreases ops
  {
    if ops != [] {
      RunConserves(Apply(q, ops[0]), ops[1..]);
    }
  }

  // ----- in terms of what callers see ------------------------------------------------------------------

  function BytesIn(ops: seq<Op>, replies: seq<Reply>): seq<byte>
    requires |ops| == |replies|
  {
    if ops == [] then []
    else Accepted(ops[0], replies[0]) + BytesIn(ops[1..], replies[1..])
  }

  function Accepted(op: Op, reply: Reply): seq<byte> { if op.Write? && reply.ret == 0 then op.items else [] }

  /** How many bytes leave the queue with this operation. */
  function Taken(op: Op, reply: Reply): nat {
    match op
    case Read(_) => |reply.bytes|
    case Ack(num) => num
    case _ => 0
  }

  function TakenBy(ops: seq<Op>, replies: seq<Reply>): nat
    requires |ops| == |replies|
  {
    if ops == [] then 0 else Taken(ops[0], replies[0]) + TakenBy(ops[1..], replies[1..])
  }

  /** Each reply holds the bytes of `stream` that follow those taken before it. */
  ghost predicate InStream(stream: seq<byte>, taken: nat, ops: seq<Op>, replies: seq<Reply>)
    requires |ops| == |replies|
    decreases |ops|
  {
    || ops == []
    || (&& taken <= |stream| && replies[0].bytes <= stream[taken..]
        && InStream(stream, taken + Taken(ops[0], replies[0]), ops[1..], replies[1..]))
  }

  lemma Unfold(q: Queue, ops: seq<Op>)
    requires ops != [] && LegalRun(q, ops)
    ensures var rest := Answers(Apply(q, ops[0]), ops[1..]);
            |rest| == |ops[1..]| && |Answers(q, ops)| == |ops|
            && Answers(q, ops)[0] == Answer(q, ops[0]) && Answers(q, ops)[1..] == rest
            && Run(q, ops) == Run(Apply(q, ops[0]), ops[1..])
  {
    AnswersLength(q, ops);
    AnswersLength(Apply(q, ops[0]), ops[1..]);
  }

  lemma AnswersLength(q: Queue, ops: seq<Op>)
    requires LegalRun(q, ops)
    ensures |Answers(q, ops)| == |ops|
    decreases ops
  {}

  /**
   Between flushes, for every run of writes, reads, peeks and acks: the bytes stored at
   first and the accepted writes behind them make one stream; each reply holds the part of
   it that follows the bytes taken so far, and what is stored in the end is all the rest.
   */
  lemma WhatGoesInComesOut(q: Queue, ops: seq<Op>)
    requires LegalRun(q, ops)
    requires forall i :: 0 <= i < |ops| ==> !ops[i].Flush?
    ensures |Answers(q, ops)| == |ops|
    ensures var replies := Answers(q, ops);
            var stream := q.items + BytesIn(ops, replies);
            && InStream(stream, 0, ops, replies)
            && TakenBy(ops, replies) <= |stream| && stream[TakenBy(ops, replies)..] == Run(q, ops).items
  {
    GoesOn([], q, ops);
    assert [] + q.items == q.items;
  }

  /** The same with `before` taken already. */
  lemma {:induction false} GoesOn(before: seq<byte>, q: Queue, ops: seq<Op>)
    requires LegalRun(q, ops)
    requires forall i :: 0 <= i < |ops| ==> !ops[i].Flush?
    ensures |Answers(q, ops)| == |ops|
    ensures var replies := Answers(q, ops);
            var stream := before + q.items + BytesIn(ops, replies);
            var taken := |before| + TakenBy(ops, replies);
            && InStream(stream, |before|, ops, replies)
            && taken <= |stream| && stream[taken..] == Run(q, ops).items
    decreases |ops|
  {
    AnswersLength(q, ops);
    if ops == [] {
      assert (before + q.items + [])[|before|..] == q.items;
    } else {
      var q', reply := Apply(q, ops[0]), Answer(q, ops[0]);
      var rest := Answers(q', ops[1..]);
      Unfold(q, ops);
      UnfoldCounts(ops, Answers(q, ops));
      hide Answers, Apply, Answer, Taken, Accepted, TakenBy, BytesIn, InStream, Run;
      StepInStream(before, q, ops[0], BytesIn(ops[1..], rest));
      var before' := before + q.items[..Taken(ops[0], reply)];
      GoesOn(before', q', ops[1..]);
      FirstInStream(before' + q'.items + BytesIn(ops[1..], rest), |before|, ops, Answers(q, ops));
    }
  }

  lemma UnfoldCounts(ops: seq<Op>, replies: seq<Reply>)
    requires ops != [] && |ops| == |replies|
    ensures BytesIn(ops, replies) == Accepted(ops[0], replies[0]) + BytesIn(ops[1..], replies[1..])
    ensures TakenBy(ops, replies) == Taken(ops[0], replies[0]) + TakenBy(ops[1..], replies[1..])
  {}

  lemma FirstInStream(stream: seq<byte>, taken: nat, ops: seq<Op>, replies: seq<Reply>)
    requires ops != [] && |ops| == |replies| && taken <= |stream| && replies[0].bytes <= stream[taken..]
    requires InStream(stream, taken + Taken(ops[0], replies[0]), ops[1..], replies[1..])
    ensures InStream(stream, taken, ops, replies)
  {}

  lemma StepInStream(before: seq<byte>, q: Queue, op: Op, in': seq<byte>)
    requires Legal(q, op) && !op.Flush?
    ensures var reply, n := Answer(q, op), Taken(op, Answer(q, op));
            && n <= |q.items|
            && (var stream := before + q.items + (Accepted(op, reply) + in');
                && stream == before + q.items[..n] + Apply(q, op).items + in'
                && reply.bytes <= stream[|before|..])
  {
    OneStep(q, op);
    hide Apply, Answer;
    var accepted, n := Accepted(op, Answer(q, op)), Taken(op, Answer(q, op));
    var stream := before + q.items + (accepted + in');
    Reassociate(before + q.items, accepted, in');
    Reassociate(before, q.items, accepted);
    Reassociate(before, q.items[..n], Apply(q, op).items);
    assert stream == before + (q.items + (accepted + in'));
    assert stream[|before|..] == q.items + (accepted + in');
  }

  /** What is stored and what comes in is what goes out and what is stored then. */
  lemma OneStep(q: Queue, op: Op)
    requires Legal(q, op) && !op.Flush?
    ensures var n := Taken(op, Answer(q, op));
            && n <= |q.items| && Answer(q, op).bytes <= q.items
            && q.items + Accepted(op, Answer(q, op)) == q.items[..n] + Apply(q, op).items
  {
    assert q.items[..0] + q.items == q.items + [];
  }
}
