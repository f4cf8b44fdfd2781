/** The SLIP deframer over whole runs of calls. */
module SlipLink {
  import opened Bytes
  import opened ByteStream
  import opened Deframing
  import opened SlipCodec

  type State = Link<Phase>

  /** Both faults flush the FIFO and start over. */
  function SlipProtocol(outMax: nat): Protocol<Phase> {
    Protocol(Receiver(outMax), Hunt, _ => false, p => Fault(outMax, p))
  }

  function Fault(outMax: nat, p: Phase): Stop<Phase> {
    Stop(Hunt, false, if p.In? && |p.body.out| != outMax then Invalid else Overflow)
  }

  lemma SlipStaysLive(outMax: nat)
    ensures StepsStayLive(SlipProtocol(outMax))
  {}

  // ----- one frame in any chunks -------------------------------------------------------------------

  /** Any message that leaves a byte of output space gets through, in whatever chunks its frame arrives. */
  lemma FrameInChunks(depth: nat, outMax: nat, m: seq<byte>, chunks: seq<seq<byte>>)
    requires |m| < outMax && Chunks(chunks, depth, Frame(m))
    ensures DeliversAtEnd(SlipProtocol(outMax), Calls(SlipProtocol(outMax), depth, Link(Hunt, []), chunks), m)
    ensures Smooth(SlipProtocol(outMax), depth, Link(Hunt, []), chunks)
  {
    hide Scan;
    SlipStaysLive(outMax);
    FrameDelivered(outMax, m);
    MessageInChunks(SlipProtocol(outMax), depth, Link(Hunt, []), chunks, Frame(m), m);
  }

  // ----- recovery ----------------------------------------------------------------------------------------

  /** The FIFO overflows, the output buffer overflows, or an escape is bad. */
  predicate Faults(depth: nat, outMax: nat, l: State, chunk: seq<byte>) {
    |l.fifo| + |chunk| > depth || Scan(Receiver(outMax), l.s, l.fifo + chunk).Halted?
  }

  /** After a fault, in any state and on any bytes, the next frame is delivered intact. */
  lemma Recovery(depth: nat, outMax: nat, l: State, bad: seq<byte>, m: seq<byte>, chunks: seq<seq<byte>>)
    requires Faults(depth, outMax, l, bad)
    requires |m| < outMax && Chunks(chunks, depth, Frame(m))
    ensures var p := SlipProtocol(outMax);
            var results := Calls(p, depth, l, [bad] + chunks);
            DeliversAtEnd(p, results[1..], m) && PickedUp(results) == Visible(m)
  {
    assert ([bad] + chunks)[1..] == chunks;
    FrameInChunks(depth, outMax, m, chunks);
    DeliveredIsPickedUp(SlipProtocol(outMax), Calls(SlipProtocol(outMax), depth, Link(Hunt, []), chunks), m);
  }

  /** What an idle deframer returns: -EINVAL for a bad escape, whatever was right before it. */
  lemma BadEscapeIsInvalid(depth: nat, outMax: nat, m: seq<byte>, c: byte, q: seq<byte>)
    requires |m| < outMax && c != 0xC0 && c != 0xDB && c != 0xDC && c != 0xDD
    requires |Escape(m)| + 3 + |q| <= depth
    ensures Call(SlipProtocol(outMax), depth, Link(Hunt, []), [0xC0] + Escape(m) + ([0xDB, c] + q))
         == Result(Link(Hunt, []), Invalid, [])
  {
    hide Scan, Escape;
    BadEscape(outMax, m, c, q);
    var chunk := [0xC0] + Escape(m) + ([0xDB, c] + q);
    assert [] + chunk == chunk;
  }

  /** -EOVERFLOW for a message that leaves no byte of output space. */
  lemma FullOutputIsOverflow(depth: nat, outMax: nat, m: seq<byte>, q: seq<byte>)
    requires |m| >= outMax && |Frame(m)| + |q| <= depth
    ensures Call(SlipProtocol(outMax), depth, Link(Hunt, []), Frame(m) + q) == Result(Link(Hunt, []), Overflow, [])
  {
    hide Scan, Frame;
    FullOutput(outMax, m, q);
    assert [] + (Frame(m) + q) == Frame(m) + q;
  }

  /** And 0 for a chunk that does not fit the FIFO, in every state. */
  lemma FullFifoIsSilent(depth: nat, outMax: nat, l: State, chunk: seq<byte>)
    requires |l.fifo| + |chunk| > depth
    ensures Call(SlipProtocol(outMax), depth, l, chunk) == Result(Link(Hunt, []), Size(0), [])
  {}

  // ----- streams of frames ---------------------------------------------------------------------------

  lemma {:induction false} JunkIsSkipped(outMax: nat, junk: seq<byte>)
    requires END !in junk
    ensures Skipped(Receiver(outMax), Hunt, junk)
  {
    if junk != [] {
      JunkIsSkipped(outMax, junk[1..]);
    }
  }

  /** Frames of messages that leave a byte of output space, with junk free of END before each. */
  ghost predicate Frames(outMax: nat, items: seq<Item>) {
    forall x :: x in items ==> END !in x.junk && x.frame == Frame(x.msg) && |x.msg| < outMax
  }

  lemma FramesAreItems(outMax: nat, items: seq<Item>)
    requires Frames(outMax, items)
    ensures forall x :: x in items ==> IsItem(Receiver(outMax), Hunt, x)
  {
    forall x | x in items
      ensures IsItem(Receiver(outMax), Hunt, x)
    {
      JunkIsSkipped(outMax, x.junk);
      FrameDelivered(outMax, x.msg);
    }
  }

  /** Frames and junk, cut anywhere: the calls and enough draining calls hand out all messages in order. */
  lemma FramesInChunks(depth: nat, outMax: nat, items: seq<Item>, chunks: seq<seq<byte>>, n: nat)
    requires Frames(outMax, items) && Concat(chunks) == Stream(items)
    requires Fits(Receiver(outMax), depth, Link(Hunt, []), chunks + Empties(n))
    requires n >= |Feed(Receiver(outMax), Link(Hunt, []), chunks).0.fifo|
    ensures var results := Calls(SlipProtocol(outMax), depth, Link(Hunt, []), chunks + Empties(n));
            PickedUp(results) == Payloads(items) && LastLink(Link(Hunt, []), results) == Link(Hunt, [])
  {
    hide Scan, Feed, Fits, Stream, IsItem, Receiver;
    SlipStaysLive(outMax);
    FramesAreItems(outMax, items);
    MessagesInChunks(SlipProtocol(outMax), depth, items, chunks, n);
  }

  // ----- delimiter pairing over whole runs --------------------------------------------------------

  /** The deframer with the bytes it has read since the last reset. */
  datatype Traced = Traced(link: State, read: seq<byte>)

  function TracedCall(depth: nat, outMax: nat, t: Traced, chunk: seq<byte>): Traced {
    var r := Call(SlipProtocol(outMax), depth, t.link, chunk);
    var all := t.link.fifo + chunk;
    if Faults(depth, outMax, t.link, chunk) then Traced(r.link, [])
    else Traced(r.link, t.read + all[..|all| - |r.link.fifo|])
  }

  function TracedRun(depth: nat, outMax: nat, t: Traced, chunks: seq<seq<byte>>): Traced
    decreases |chunks|
  {
    if chunks == [] then t else TracedRun(depth, outMax, TracedCall(depth, outMax, t, chunks[0]), chunks[1..])
  }

  /** The state is the one reached by reading these bytes from an idle start. */
  ghost predicate Explained(outMax: nat, t: Traced) {
    FaultFree(Receiver(outMax), Hunt, t.read) && Final(Receiver(outMax), Hunt, t.read) == t.link.s
  }

  lemma CallExplained(depth: nat, outMax: nat, t: Traced, chunk: seq<byte>)
    requires Explained(outMax, t)
    ensures Explained(outMax, TracedCall(depth, outMax, t, chunk))
  {
    if !Faults(depth, outMax, t.link, chunk) {
      hide FaultFree, Final, Messages;
      var all := t.link.fifo + chunk;
      var k := ScanReads(Receiver(outMax), t.link.s, all);
      StreamConcat(Receiver(outMax), Hunt, t.read, all[..k]);
    }
  }

  lemma {:induction false} RunExplained(depth: nat, outMax: nat, t: Traced, chunks: seq<seq<byte>>)
    requires Explained(outMax, t)
    ensures Explained(outMax, TracedRun(depth, outMax, t, chunks))
    decreases |chunks|
  {
    if chunks != [] {
      CallExplained(depth, outMax, t, chunks[0]);
      RunExplained(depth, outMax, TracedCall(depth, outMax, t, chunks[0]), chunks[1..]);
    }
  }

  /**
   Over every run of calls, faulty ones included: between calls the deframer is
   inside a frame exactly when it has read an odd number of ENDs since the last
   reset, and then its output and its escape flag unescape the bytes after the last END.
   */
  lemma DelimiterPairing(depth: nat, outMax: nat, chunks: seq<seq<byte>>)
    ensures var t := TracedRun(depth, outMax, Traced(Link(Hunt, []), []), chunks);
            && (t.link.s.In? <==> Count(END, t.read) % 2 == 1)
            && (t.link.s.In? ==> Unescape(AfterLastEnd(t.read)) == Some(t.link.s.body))
  {
    RunExplained(depth, outMax, Traced(Link(Hunt, []), []), chunks);
    StatePairing(outMax, TracedRun(depth, outMax, Traced(Link(Hunt, []), []), chunks).read);
  }

  // ----- which frames get through --------------------------------------------------------------------

  /**
   A frame behind any bytes without a fault, cut anywhere: the calls and enough draining
   calls hand out its message behind the earlier ones, and end idle, if and only if the
   bytes before the frame hold an even number of ENDs and a byte of output space is left over.
   */
  lemma FrameAfterInChunks(depth: nat, outMax: nat, q: seq<byte>, m: seq<byte>, chunks: seq<seq<byte>>, n: nat)
    requires FaultFree(Receiver(outMax), Hunt, q) && Concat(chunks) == q + Frame(m)
    requires Fits(Receiver(outMax), depth, Link(Hunt, []), chunks + Empties(n))
    requires n >= |Feed(Receiver(outMax), Link(Hunt, []), chunks).0.fifo|
    ensures RunsTo(SlipProtocol(outMax), depth, chunks + Empties(n), Hunt,
                   Messages(Receiver(outMax), Hunt, q) + Visible(m))
            <==> Count(END, q) % 2 == 0 && |m| < outMax
  {
    hide FaultFree, Final, Messages, Receiver, Feed, Fits, Frame, RunsTo;
    SlipStaysLive(outMax);
    FrameAfter(outMax, q, m);
    RunReadsStream(SlipProtocol(outMax), depth, chunks, n, Hunt, Messages(Receiver(outMax), Hunt, q) + Visible(m));
  }

  /**
   After every run of calls, faulty ones included, that leaves the FIFO empty: the next
   frame is delivered, in whatever chunks, if and only if the bytes read since the last
   reset hold an even number of ENDs and a byte of output space is left over.
   */
  lemma NextFrame(depth: nat, outMax: nat, before: seq<seq<byte>>, m: seq<byte>, chunks: seq<seq<byte>>)
    requires TracedRun(depth, outMax, Traced(Link(Hunt, []), []), before).link.fifo == []
    requires Chunks(chunks, depth, Frame(m))
    ensures var t, p := TracedRun(depth, outMax, Traced(Link(Hunt, []), []), before), SlipProtocol(outMax);
            Smooth(p, depth, t.link, chunks) && DeliversAtEnd(p, Calls(p, depth, t.link, chunks), m)
            <==> Count(END, t.read) % 2 == 0 && |m| < outMax
  {
    RunExplained(depth, outMax, Traced(Link(Hunt, []), []), before);
    hide FaultFree, Final, Messages, Receiver, Frame, TracedRun, Accounts, DeliversAtEnd, Smooth, Calls, PickedUp;
    var t, p := TracedRun(depth, outMax, Traced(Link(Hunt, []), []), before), SlipProtocol(outMax);
    DelimiterPairing(depth, outMax, before);
    if Count(END, t.read) % 2 == 0 && |m| < outMax {
      assert t.link == Link(Hunt, []);
      FrameInChunks(depth, outMax, m, chunks);
    }
    var results := Calls(p, depth, t.link, chunks);
    if Smooth(p, depth, t.link, chunks) && DeliversAtEnd(p, results, m) {
      SmoothAccounts(p, depth, t.link, chunks);
      DeliveryEndsIdle(p, t.link, results, m);
      assert t.link.fifo + Concat(chunks) == Frame(m);
      NothingLeft(Receiver(outMax), t.link.s, Frame(m), LastLink(t.link, results), PickedUp(results));
      DeliveredIsPickedUp(p, results, m);
      StreamConcat(Receiver(outMax), Hunt, t.read, Frame(m));
      FrameAfter(outMax, t.read, m);
    }
  }

  lemma DeliveryEndsIdle(p: Protocol<Phase>, l: State, results: seq<Result<Phase>>, m: seq<byte>)
    requires DeliversAtEnd(p, results, m)
    ensures LastLink(l, results) == Link(p.idle, [])
  {}

  /** Frames back to back, without junk. */
  function BackToBack(ms: seq<seq<byte>>): seq<byte> {
    if ms == [] then [] else Frame(ms[0]) + BackToBack(ms[1..])
  }

  /** Inside a frame a further frame reads as an empty message, junk, and a new opening END. */
  lemma FrameOutOfPhase(outMax: nat, m: seq<byte>)
    requires outMax > 0
    ensures var step, within := Receiver(outMax), In(Body([], false));
            && FaultFree(step, within, Frame(m)) && Final(step, within, Frame(m)) == within
            && Messages(step, within, Frame(m)) == []
  {
    var step, within := Receiver(outMax), In(Body([], false));
    BodyOutOfPhase(outMax, m);
    OneEnd(outMax);
    hide FaultFree, Final, Messages;
    Reassociate([END], Escape(m), [END]);
    StreamConcat(step, within, [END], Escape(m) + [END]);
  }

  /** An END closes an empty frame inside one, and opens one outside. */
  lemma OneEnd(outMax: nat)
    requires outMax > 0
    ensures var step, within := Receiver(outMax), In(Body([], false));
            && FaultFree(step, within, [END]) && FaultFree(step, Hunt, [END])
            && Final(step, within, [END]) == Hunt && Messages(step, within, [END]) == []
            && Final(step, Hunt, [END]) == within && Messages(step, Hunt, [END]) == []
  {
    assert [END][1..] == [];
  }

  lemma {:induction false} OutOfPhase(outMax: nat, ms: seq<seq<byte>>)
    requires outMax > 0
    ensures var step, within := Receiver(outMax), In(Body([], false));
            && FaultFree(step, within, BackToBack(ms)) && Final(step, within, BackToBack(ms)) == within
            && Messages(step, within, BackToBack(ms)) == []
  {
    if ms != [] {
      hide FaultFree, Final, Messages, Frame;
      FrameOutOfPhase(outMax, ms[0]);
      OutOfPhase(outMax, ms[1..]);
      StreamConcat(Receiver(outMax), In(Body([], false)), Frame(ms[0]), BackToBack(ms[1..]));
    }
  }

  /** A frame without its closing END is closed by the next frame's opening END, and that frame by the one after it. */
  lemma UnclosedFrame(outMax: nat, a: seq<byte>, ms: seq<seq<byte>>)
    requires |a| < outMax
    ensures var step, all := Receiver(outMax), [END] + Escape(a) + BackToBack(ms);
            && FaultFree(step, Hunt, all) && Messages(step, Hunt, all) <= Visible(a)
            && (ms != [] ==> Messages(step, Hunt, all) == Visible(a) && Final(step, Hunt, all) == In(Body([], false)))
  {
    var step := Receiver(outMax);
    if ms == [] {
      OpenFrame(outMax, a);
      assert [END] + Escape(a) + BackToBack(ms) == [END] + Escape(a);
    } else {
      var tail, rest := Escape(ms[0]) + [END], BackToBack(ms[1..]);
      UnclosedBytes(a, ms);
      hide FaultFree, Final, Messages, Receiver, Escape, Frame, BackToBack;
      FrameFromIdle(outMax, a);
      BodyOutOfPhase(outMax, ms[0]);
      OutOfPhase(outMax, ms[1..]);
      StreamConcat(step, Hunt, Frame(a), tail);
      StreamConcat(step, Hunt, Frame(a) + tail, rest);
    }
  }

  lemma OpenFrame(outMax: nat, a: seq<byte>)
    requires |a| < outMax
    ensures var step, open := Receiver(outMax), [END] + Escape(a);
            FaultFree(step, Hunt, open) && Messages(step, Hunt, open) <= Visible(a)
  {
    hide FaultFree, Final, Messages, Receiver, Escape;
    FrameFromIdle(outMax, a);
    FaultFreePrefix(Receiver(outMax), Hunt, [END] + Escape(a), [END]);
    StreamConcat(Receiver(outMax), Hunt, [END] + Escape(a), [END]);
  }

  lemma UnclosedBytes(a: seq<byte>, ms: seq<seq<byte>>)
    requires ms != []
    ensures [END] + Escape(a) + BackToBack(ms) == Frame(a) + (Escape(ms[0]) + [END]) + BackToBack(ms[1..])
  {
    hide Escape;
  }

  /** Outside a frame, a body without its opening END is junk, and its closing END opens the next frame. */
  lemma BodyOutOfPhase(outMax: nat, m: seq<byte>)
    requires outMax > 0
    ensures var step, q := Receiver(outMax), Escape(m) + [END];
            && FaultFree(step, Hunt, q) && Final(step, Hunt, q) == In(Body([], false)) && Messages(step, Hunt, q) == []
  {
    EscapeGrammar(m);
    JunkIsSkipped(outMax, Escape(m));
    OneEnd(outMax);
    hide FaultFree, Final, Messages;
    StreamConcat(Receiver(outMax), Hunt, Escape(m), [END]);
  }

  /**
   A stray END (`a` is empty) or a frame whose closing END is lost, and any number of
   frames behind it: the cut-off bytes are returned as if they were a message, and all
   frames are lost, without a fault and so without recovery, for every cut into chunks that fit.
   */
  lemma UnclosedFrameLosesFrames(depth: nat, outMax: nat, a: seq<byte>, ms: seq<seq<byte>>, chunks: seq<seq<byte>>)
    requires |a| < outMax && Concat(chunks) == [END] + Escape(a) + BackToBack(ms)
    requires Fits(Receiver(outMax), depth, Link(Hunt, []), chunks)
    ensures PickedUp(Calls(SlipProtocol(outMax), depth, Link(Hunt, []), chunks)) <= Visible(a)
    ensures Smooth(SlipProtocol(outMax), depth, Link(Hunt, []), chunks)
  {
    hide FaultFree, Final, Messages, Scan, Feed, Fits, BackToBack, Escape, Receiver;
    var step := Receiver(outMax);
    UnclosedFrame(outMax, a, ms);
    SlipStaysLive(outMax);
    assert [] + Concat(chunks) == Concat(chunks);
    CallsFeed(SlipProtocol(outMax), depth, Link(Hunt, []), chunks);
    FeedAccounts(step, Link(Hunt, []), chunks);
    var (l, got) := Feed(step, Link(Hunt, []), chunks);
    AccountsWhole(step, Hunt, Concat(chunks), l, got);
    assert got <= got + Messages(step, l.s, l.fifo);
  }
}
