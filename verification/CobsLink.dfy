/** The COBS deframer over whole runs of calls. */
module CobsLink {
  import opened Bytes
  import opened ByteStream
  import opened CobsBlocks
  import opened Cobs
  import opened Deframing

  /** `Failed`: the work buffer overflowed, and the next call will throw away the FIFO. */
  datatype Phase = Hunt | In(body: seq<byte>) | Failed

  type State = Link<Phase>

  /** The work buffer is checked before each byte of a body, the delimiter included. */
  function Step(workSize: nat, maxOut: nat, p: Phase, b: byte): Reaction<Phase> {
    match p
    case Hunt => Next(if b == FRAMING_BYTE then In([]) else Hunt)
    case Failed => Halt
    case In(body) =>
      if |body| == workSize then Halt
      else if b != FRAMING_BYTE then Next(In(body + [b]))
      else if WellFormed(body) && |Decoded(body)| <= maxOut then Emit(Hunt, Decoded(body))
      else Halt
  }

  function Receiver(workSize: nat, maxOut: nat): Machine<Phase> { (p, b) => Step(workSize, maxOut, p, b) }

  /** An overflow of the work buffer keeps the FIFO for one more call; an overflow of the output flushes it. */
  function Fault(workSize: nat, p: Phase): Stop<Phase> {
    if p.In? && |p.body| == workSize then Stop(Failed, true, Size(0)) else Stop(Hunt, false, Size(0))
  }

  function CobsProtocol(workSize: nat, maxOut: nat): Protocol<Phase> {
    Protocol(Receiver(workSize, maxOut), Hunt, (p: Phase) => p.Failed?, p => Fault(workSize, p))
  }

  lemma CobsStaysLive(workSize: nat, maxOut: nat)
    ensures StepsStayLive(CobsProtocol(workSize, maxOut))
  {}

  /**
   The decoder is not defined on a body whose chain of code bytes misses its end while
   the output has room for all that the body yields: it reads behind the body. A call
   gets there exactly when its scan halts at the closing delimiter of such a body.
   */
  predicate Malformed(workSize: nat, maxOut: nat, o: Outcome<Phase>) {
    o.Halted? && o.s.In? && |o.s.body| != workSize && !Inside(o.s.body, maxOut)
  }

  predicate Defined(depth: nat, workSize: nat, maxOut: nat, l: State, chunk: seq<byte>) {
    || |l.fifo| + |chunk| > depth || l.s.Failed?
    || !Malformed(workSize, maxOut, Scan(Receiver(workSize, maxOut), l.s, l.fifo + chunk))
  }

  predicate AllDefined(depth: nat, workSize: nat, maxOut: nat, l: State, chunks: seq<seq<byte>>)
    decreases |chunks|
  {
    || chunks == []
    || (var next := Call(CobsProtocol(workSize, maxOut), depth, l, chunks[0]).link;
        Defined(depth, workSize, maxOut, l, chunks[0]) && AllDefined(depth, workSize, maxOut, next, chunks[1..]))
  }

  lemma {:induction false} SmoothIsDefined(depth: nat, workSize: nat, maxOut: nat, l: State, chunks: seq<seq<byte>>)
    requires Smooth(CobsProtocol(workSize, maxOut), depth, l, chunks)
    ensures AllDefined(depth, workSize, maxOut, l, chunks)
    decreases |chunks|
  {
    if chunks != [] {
      hide Scan, Call;
      var next := Call(CobsProtocol(workSize, maxOut), depth, l, chunks[0]).link;
      SmoothIsDefined(depth, workSize, maxOut, next, chunks[1..]);
    }
  }

  // ----- one frame, exactly ----------------------------------------------------------------------------

  /** The body has no zero, fits the work buffer with a byte to spare, and its message fits the output. */
  predicate Deliverable(workSize: nat, maxOut: nat, m: seq<byte>) {
    !HasFullRun(m) && |Encode(m)| < workSize && |m| <= maxOut
  }

  lemma {:induction false} ScanBody(workSize: nat, maxOut: nat, body: seq<byte>, e: seq<byte>, tail: seq<byte>)
    requires FRAMING_BYTE !in e && |body| + |e| <= workSize
    ensures Scan(Receiver(workSize, maxOut), In(body), e + tail)
         == Scan(Receiver(workSize, maxOut), In(body + e), tail)
    decreases |e|
  {
    if e == [] {
      assert e + tail == tail && body + e == body;
    } else {
      hide Scan;
      assert e + tail == [e[0]] + (e[1..] + tail);
      ScanOne(Receiver(workSize, maxOut), In(body), e[0], e[1..] + tail);
      ScanBody(workSize, maxOut, body + [e[0]], e[1..], tail);
      assert body + [e[0]] + e[1..] == body + e;
    }
  }

  /** A body of exactly the work buffer's size, or longer, overflows it at the next byte. */
  lemma ScanTooLong(workSize: nat, maxOut: nat, e: seq<byte>, tail: seq<byte>)
    requires FRAMING_BYTE !in e && |e| >= workSize && tail != []
    ensures Scan(Receiver(workSize, maxOut), In([]), e + tail).Halted?
  {
    var a, b := e[..workSize], e[workSize..];
    assert e + tail == a + (b + tail);
    assert [] + a == a;
    ScanBody(workSize, maxOut, [], a, b + tail);
  }

  /** The first zero of a body ends it. */
  lemma ScanToZero(workSize: nat, maxOut: nat, e: seq<byte>, tail: seq<byte>)
    requires FRAMING_BYTE !in e && |e| < workSize
    ensures Scan(Receiver(workSize, maxOut), In([]), e + ([FRAMING_BYTE] + tail))
         == if WellFormed(e) && |Decoded(e)| <= maxOut then Got(Hunt, Decoded(e), tail)
            else Halted(In(e), [FRAMING_BYTE] + tail)
  {
    hide WellFormed, Decoded;
    ScanBody(workSize, maxOut, [], e, [FRAMING_BYTE] + tail);
    assert [] + e == e;
    ScanStop(Receiver(workSize, maxOut), In(e), [FRAMING_BYTE] + tail);
    assert ([FRAMING_BYTE] + tail)[1..] == tail;
  }

  function FirstZero(e: seq<byte>): (k: nat)
    requires FRAMING_BYTE in e
    ensures k < |e| && e[k] == FRAMING_BYTE && FRAMING_BYTE !in e[..k]
  {
    if e[0] == FRAMING_BYTE then 0
    else
      assert e == [e[0]] + e[1..];
      var k := FirstZero(e[1..]);
      assert e[..k + 1] == [e[0]] + e[1..][..k];
      k + 1
  }

  /** A frame is received as its message, with nothing left over, exactly for deliverable messages. */
  lemma FrameDelivered(workSize: nat, maxOut: nat, m: seq<byte>)
    ensures Scan(Receiver(workSize, maxOut), Hunt, Frame(m)) == Got(Hunt, m, [])
            <==> !HasFullRun(m) && |Encode(m)| < workSize && |m| <= maxOut
  {
    hide Scan, HasFullRun, WellFormed, Decoded, Encode;
    var step, e := Receiver(workSize, maxOut), Encode(m);
    Reassociate([FRAMING_BYTE], e, [FRAMING_BYTE]);
    ScanOne(step, Hunt, FRAMING_BYTE, e + [FRAMING_BYTE]);
    ZeroFree(m);
    RoundTrip(m);
    if FRAMING_BYTE in e {
      var k := FirstZero(e);
      var tail := e[k + 1..] + [FRAMING_BYTE];
      assert e + [FRAMING_BYTE] == e[..k] + ([FRAMING_BYTE] + tail);
      if k < workSize {
        ScanToZero(workSize, maxOut, e[..k], tail);
      } else {
        ScanTooLong(workSize, maxOut, e[..k], [FRAMING_BYTE] + tail);
      }
    } else if |e| < workSize {
      assert [FRAMING_BYTE] + [] == [FRAMING_BYTE];
      ScanToZero(workSize, maxOut, e, []);
    } else {
      ScanTooLong(workSize, maxOut, e, [FRAMING_BYTE]);
    }
  }

  // ----- one frame in any chunks -----------------------------------------------------------------------

  /** A deliverable message gets through in whatever chunks its frame arrives. */
  lemma FrameInChunks(depth: nat, workSize: nat, maxOut: nat, m: seq<byte>, chunks: seq<seq<byte>>)
    requires Deliverable(workSize, maxOut, m) && Chunks(chunks, depth, Frame(m))
    ensures var p := CobsProtocol(workSize, maxOut);
            DeliversAtEnd(p, Calls(p, depth, Link(Hunt, []), chunks), m)
    ensures AllDefined(depth, workSize, maxOut, Link(Hunt, []), chunks)
  {
    hide Scan, HasFullRun, Encode, Frame;
    CobsStaysLive(workSize, maxOut);
    FrameDelivered(workSize, maxOut, m);
    MessageInChunks(CobsProtocol(workSize, maxOut), depth, Link(Hunt, []), chunks, Frame(m), m);
    SmoothIsDefined(depth, workSize, maxOut, Link(Hunt, []), chunks);
  }

  // ----- recovery ----------------------------------------------------------------------------------------

  /** An overflow of the FIFO or of the output buffer is over with the call that meets it. */
  predicate FaultsAtOnce(depth: nat, workSize: nat, maxOut: nat, l: State, chunk: seq<byte>) {
    || |l.fifo| + |chunk| > depth
    || (var o := Scan(Receiver(workSize, maxOut), l.s, l.fifo + chunk);
        !l.s.Failed? && o.Halted? && o.s.In? && |o.s.body| != workSize && Inside(o.s.body, maxOut))
  }

  /** After such a fault, in any state and on any bytes, the next frame is delivered intact. */
  lemma Recovery(depth: nat, workSize: nat, maxOut: nat, l: State, bad: seq<byte>, m: seq<byte>, chunks: seq<seq<byte>>)
    requires FaultsAtOnce(depth, workSize, maxOut, l, bad)
    requires Deliverable(workSize, maxOut, m) && Chunks(chunks, depth, Frame(m))
    ensures AllDefined(depth, workSize, maxOut, l, [bad] + chunks)
    ensures var p := CobsProtocol(workSize, maxOut);
            DeliversAtEnd(p, Calls(p, depth, l, [bad] + chunks), m)
  {
    hide Scan, Frame, Deliverable, Inside;
    var p := CobsProtocol(workSize, maxOut);
    assert ([bad] + chunks)[1..] == chunks;
    FrameInChunks(depth, workSize, maxOut, m, chunks);
    LaterDelivers(p, Call(p, depth, l, bad), Calls(p, depth, Link(Hunt, []), chunks), m);
  }

  /** The call overflows the work buffer, before whatever byte comes next. */
  predicate WorkOverflows(depth: nat, workSize: nat, maxOut: nat, l: State, chunk: seq<byte>) {
    && |l.fifo| + |chunk| <= depth && !l.s.Failed?
    && (var o := Scan(Receiver(workSize, maxOut), l.s, l.fifo + chunk);
        o.Halted? && o.s.In? && |o.s.body| == workSize)
  }

  /**
   After an overflow of the work buffer one more call is thrown away, whatever it
   brings, and the frame after that is delivered intact.
   */
  lemma RecoveryAfterWorkOverflow(depth: nat, workSize: nat, maxOut: nat, l: State, bad: seq<byte>, lost: seq<byte>,
                                  m: seq<byte>, chunks: seq<seq<byte>>)
    requires WorkOverflows(depth, workSize, maxOut, l, bad)
    requires Deliverable(workSize, maxOut, m) && Chunks(chunks, depth, Frame(m))
    ensures AllDefined(depth, workSize, maxOut, l, [bad, lost] + chunks)
    ensures var p := CobsProtocol(workSize, maxOut);
            DeliversAtEnd(p, Calls(p, depth, l, [bad, lost] + chunks), m)
  {
    hide Scan, Frame, Deliverable;
    var p := CobsProtocol(workSize, maxOut);
    var first := Call(p, depth, l, bad);
    var second := Call(p, depth, first.link, lost);
    assert first.link.s == Failed && second == Result(Link(Hunt, []), Size(0), []);
    assert ([bad, lost] + chunks)[1..] == [lost] + chunks;
    assert ([lost] + chunks)[1..] == chunks;
    FrameInChunks(depth, workSize, maxOut, m, chunks);
    LaterDelivers(p, second, Calls(p, depth, Link(Hunt, []), chunks), m);
    LaterDelivers(p, first, Calls(p, depth, first.link, [lost] + chunks), m);
    assert AllDefined(depth, workSize, maxOut, first.link, [lost] + chunks);
  }

  /** In an idle deframer a body too long for the work buffer returns 0, and what is left of it stays in the FIFO. */
  lemma WorkOverflowKeepsFifo(depth: nat, workSize: nat, maxOut: nat, e: seq<byte>, tail: seq<byte>)
    requires 0 !in e && |e| >= workSize && tail != [] && 1 + |e| + |tail| <= depth
    ensures Call(CobsProtocol(workSize, maxOut), depth, Link(Hunt, []), [0] + e + tail)
         == Result(Link(Failed, e[workSize..] + tail), Size(0), [])
  {
    hide Scan;
    var step, chunk, a, rest := Receiver(workSize, maxOut), [0] + e + tail, e[..workSize], e[workSize..] + tail;
    assert [] + chunk == chunk == [FRAMING_BYTE] + (a + rest) && [] + a == a;
    ScanOne(step, Hunt, FRAMING_BYTE, a + rest);
    ScanBody(workSize, maxOut, [], a, rest);
    ScanStop(step, In(a), rest);
  }

  /** A message too long for the output returns 0 and empties the FIFO. */
  lemma OutputOverflowFlushes(depth: nat, workSize: nat, maxOut: nat, m: seq<byte>, q: seq<byte>)
    requires !HasFullRun(m) && |Encode(m)| < workSize && |m| > maxOut && |Frame(m)| + |q| <= depth
    ensures Call(CobsProtocol(workSize, maxOut), depth, Link(Hunt, []), Frame(m) + q)
         == Result(Link(Hunt, []), Size(0), [])
  {
    hide Scan, HasFullRun, WellFormed, Decoded, Encode;
    var step, e, chunk := Receiver(workSize, maxOut), Encode(m), Frame(m) + q;
    ZeroFree(m);
    RoundTrip(m);
    assert [] + chunk == chunk == [FRAMING_BYTE] + (e + ([FRAMING_BYTE] + q));
    ScanOne(step, Hunt, FRAMING_BYTE, e + ([FRAMING_BYTE] + q));
    ScanToZero(workSize, maxOut, e, q);
  }

  // ----- streams of frames ---------------------------------------------------------------------------

  lemma {:induction false} JunkIsSkipped(workSize: nat, maxOut: nat, junk: seq<byte>)
    requires FRAMING_BYTE !in junk
    ensures Skipped(Receiver(workSize, maxOut), Hunt, junk)
  {
    if junk != [] {
      JunkIsSkipped(workSize, maxOut, junk[1..]);
    }
  }

  /** Frames of deliverable messages, with junk free of zeros before each. */
  ghost predicate Frames(workSize: nat, maxOut: nat, items: seq<Item>) {
    forall x :: x in items ==>
      FRAMING_BYTE !in x.junk && x.frame == Frame(x.msg) && Deliverable(workSize, maxOut, x.msg)
  }

  lemma FramesAreItems(workSize: nat, maxOut: nat, items: seq<Item>)
    requires Frames(workSize, maxOut, items)
    ensures forall x :: x in items ==> IsItem(Receiver(workSize, maxOut), Hunt, x)
  {
    hide Scan, HasFullRun, Encode, Frame;
    forall x | x in items
      ensures IsItem(Receiver(workSize, maxOut), Hunt, x)
    {
      JunkIsSkipped(workSize, maxOut, x.junk);
      FrameDelivered(workSize, maxOut, x.msg);
    }
  }

  /** Frames and junk, cut anywhere: the calls and enough draining calls hand out all messages in order. */
  lemma FramesInChunks(depth: nat, workSize: nat, maxOut: nat, items: seq<Item>, chunks: seq<seq<byte>>, n: nat)
    requires Frames(workSize, maxOut, items) && Concat(chunks) == Stream(items)
    requires Fits(Receiver(workSize, maxOut), depth, Link(Hunt, []), chunks + Empties(n))
    requires n >= |Feed(Receiver(workSize, maxOut), Link(Hunt, []), chunks).0.fifo|
    ensures var results := Calls(CobsProtocol(workSize, maxOut), depth, Link(Hunt, []), chunks + Empties(n));
            PickedUp(results) == Payloads(items) && LastLink(Link(Hunt, []), results) == Link(Hunt, [])
    ensures AllDefined(depth, workSize, maxOut, Link(Hunt, []), chunks + Empties(n))
  {
    hide Scan, Feed, Fits, Stream, Frames, IsItem, Receiver;
    CobsStaysLive(workSize, maxOut);
    FramesAreItems(workSize, maxOut, items);
    MessagesInChunks(CobsProtocol(workSize, maxOut), depth, items, chunks, n);
    SmoothIsDefined(depth, workSize, maxOut, Link(Hunt, []), chunks + Empties(n));
  }

  // ----- which frames get through --------------------------------------------------------------------

  /** Inside a frame exactly after an odd number of zeros. */
  lemma {:induction false} PhaseIsParity(workSize: nat, maxOut: nat, q: seq<byte>)
    requires FaultFree(Receiver(workSize, maxOut), Hunt, q)
    ensures var p := Final(Receiver(workSize, maxOut), Hunt, q);
            !p.Failed? && (p.In? <==> Count(FRAMING_BYTE, q) % 2 == 1)
    decreases |q|
  {
    if q != [] {
      hide FaultFree, Final, Messages, Count, Receiver;
      var step, q', b := Receiver(workSize, maxOut), q[..|q| - 1], q[|q| - 1];
      assert q == q' + [b];
      FaultFreePrefix(step, Hunt, q', [b]);
      PhaseIsParity(workSize, maxOut, q');
      StreamConcat(step, Hunt, q', [b]);
      StepTurns(workSize, maxOut, Final(step, Hunt, q'), b);
      CountAppend(FRAMING_BYTE, q', [b]);
      Parity(Count(FRAMING_BYTE, q'));
    }
  }

  lemma Parity(c: nat)
    ensures (c + 1) % 2 == 1 - c % 2
  {}

  /** A zero leads into a frame or out of one, any other byte does neither. */
  lemma StepTurns(workSize: nat, maxOut: nat, p: Phase, b: byte)
    requires FaultFree(Receiver(workSize, maxOut), p, [b]) && !p.Failed?
    ensures var p' := Final(Receiver(workSize, maxOut), p, [b]);
            !p'.Failed? && (p'.In? <==> (if b == FRAMING_BYTE then !p.In? else p.In?))
    ensures Count(FRAMING_BYTE, [b]) == if b == FRAMING_BYTE then 1 else 0
  {
    hide WellFormed, Decoded;
    assert [b][..0] == [];
  }

  /** From idle, the frame of a message without a full run is read without a fault exactly if it is deliverable. */
  lemma FrameFromIdle(workSize: nat, maxOut: nat, m: seq<byte>)
    requires !HasFullRun(m)
    ensures var step := Receiver(workSize, maxOut);
            && (FaultFree(step, Hunt, Frame(m)) <==> Deliverable(workSize, maxOut, m))
            && (Deliverable(workSize, maxOut, m) ==>
                  Final(step, Hunt, Frame(m)) == Hunt && Messages(step, Hunt, Frame(m)) == Visible(m))
  {
    hide Scan, FaultFree, Final, Messages, HasFullRun, WellFormed, Decoded, Encode;
    var step, e := Receiver(workSize, maxOut), Encode(m);
    FrameDelivered(workSize, maxOut, m);
    if Deliverable(workSize, maxOut, m) {
      GotIsStream(step, Hunt, Frame(m));
    } else {
      Reassociate([FRAMING_BYTE], e, [FRAMING_BYTE]);
      ScanOne(step, Hunt, FRAMING_BYTE, e + [FRAMING_BYTE]);
      ZeroFree(m);
      RoundTrip(m);
      if |e| < workSize {
        assert [FRAMING_BYTE] + [] == [FRAMING_BYTE];
        ScanToZero(workSize, maxOut, e, []);
      } else {
        ScanTooLong(workSize, maxOut, e, [FRAMING_BYTE]);
      }
      if FaultFree(step, Hunt, Frame(m)) {
        FaultFreeScan(step, Hunt, Frame(m));
      }
    }
  }

  /**
   A frame behind any bytes without a fault, cut anywhere: the calls and enough draining
   calls hand out its message behind the earlier ones, and end idle, if and only if the
   bytes before the frame hold an even number of zeros and the message is deliverable.
   */
  lemma FrameAfterInChunks(depth: nat, workSize: nat, maxOut: nat, q: seq<byte>, m: seq<byte>,
                           chunks: seq<seq<byte>>, n: nat)
    requires FaultFree(Receiver(workSize, maxOut), Hunt, q) && Concat(chunks) == q + Frame(m) && !HasFullRun(m)
    requires Fits(Receiver(workSize, maxOut), depth, Link(Hunt, []), chunks + Empties(n))
    requires n >= |Feed(Receiver(workSize, maxOut), Link(Hunt, []), chunks).0.fifo|
    ensures RunsTo(CobsProtocol(workSize, maxOut), depth, chunks + Empties(n), Hunt,
                   Messages(Receiver(workSize, maxOut), Hunt, q) + Visible(m))
            <==> Count(FRAMING_BYTE, q) % 2 == 0 && Deliverable(workSize, maxOut, m)
  {
    hide FaultFree, Final, Messages, Receiver, Feed, Fits, RunsTo, HasFullRun, Encode, Deliverable;
    var step, p := Receiver(workSize, maxOut), CobsProtocol(workSize, maxOut);
    ZeroFree(m);
    CountDelimited(FRAMING_BYTE, Encode(m));
    CountAppend(FRAMING_BYTE, q, Frame(m));
    hide Frame;
    CobsStaysLive(workSize, maxOut);
    PhaseIsParity(workSize, maxOut, q);
    FrameFromIdle(workSize, maxOut, m);
    StreamConcat(step, Hunt, q, Frame(m));
    if FaultFree(step, Hunt, q + Frame(m)) {
      PhaseIsParity(workSize, maxOut, q + Frame(m));
    }
    RunReadsStream(p, depth, chunks, n, Hunt, Messages(step, Hunt, q) + Visible(m));
  }

  /** A zero right behind an opening zero sends the decoder an empty body, which is undefined. */
  lemma {:induction false} EmptyBodyIsUndefined(depth: nat, workSize: nat, maxOut: nat, chunks: seq<seq<byte>>,
                                                tail: seq<byte>)
    requires workSize > 0 && (forall c :: c in chunks ==> |c| <= depth)
    requires Concat(chunks) == [FRAMING_BYTE] + tail
    ensures !AllDefined(depth, workSize, maxOut, Link(In([]), []), chunks)
    decreases |chunks|
  {
    var chunk, step := chunks[0], Receiver(workSize, maxOut);
    assert chunk in chunks && [] + chunk == chunk;
    if chunk == [] {
      EmptyBodyIsUndefined(depth, workSize, maxOut, chunks[1..], tail);
    } else {
      assert chunk[0] == Concat(chunks)[0];
      hide Scan;
      ScanStop(step, In([]), chunk);
    }
  }

  /** So does a stray zero before a frame: whatever the chunks, some call is undefined. */
  lemma {:induction false} StrayZeroIsUndefined(depth: nat, workSize: nat, maxOut: nat, chunks: seq<seq<byte>>,
                                                tail: seq<byte>)
    requires workSize > 0 && (forall c :: c in chunks ==> |c| <= depth)
    requires Concat(chunks) == [FRAMING_BYTE, FRAMING_BYTE] + tail
    ensures !AllDefined(depth, workSize, maxOut, Link(Hunt, []), chunks)
    decreases |chunks|
  {
    var chunk := chunks[0];
    assert chunk in chunks;
    assert chunk != [] ==> chunk[0] == Concat(chunks)[0];
    assert |chunk| > 1 ==> chunk[1] == Concat(chunks)[1];
    ZerosCall(depth, workSize, maxOut, chunk);
    FirstIsDefined(depth, workSize, maxOut, Link(Hunt, []), chunks);
    hide AllDefined, Defined, Call;
    if chunk == [] {
      assert Concat(chunks) == Concat(chunks[1..]);
      StrayZeroIsUndefined(depth, workSize, maxOut, chunks[1..], tail);
    } else if |chunk| == 1 {
      assert Concat(chunks[1..]) == Concat(chunks)[1..] == [FRAMING_BYTE] + tail;
      EmptyBodyIsUndefined(depth, workSize, maxOut, chunks[1..], tail);
    }
  }

  lemma FirstIsDefined(depth: nat, workSize: nat, maxOut: nat, l: State, chunks: seq<seq<byte>>)
    requires chunks != []
    ensures var next := Call(CobsProtocol(workSize, maxOut), depth, l, chunks[0]).link;
            AllDefined(depth, workSize, maxOut, l, chunks)
            <==> Defined(depth, workSize, maxOut, l, chunks[0])
                 && AllDefined(depth, workSize, maxOut, next, chunks[1..])
  {}

  /** A call of an idle deframer on no byte, on one zero, and on two and more bytes behind them. */
  lemma ZerosCall(depth: nat, workSize: nat, maxOut: nat, chunk: seq<byte>)
    requires workSize > 0 && |chunk| <= depth
    requires (chunk != [] ==> chunk[0] == FRAMING_BYTE) && (|chunk| > 1 ==> chunk[1] == FRAMING_BYTE)
    ensures |chunk| <= 1 ==> Call(CobsProtocol(workSize, maxOut), depth, Link(Hunt, []), chunk).link
                             == Link(if chunk == [] then Hunt else In([]), [])
    ensures |chunk| > 1 ==> !Defined(depth, workSize, maxOut, Link(Hunt, []), chunk)
  {
    assert [] + chunk == chunk;
    if chunk != [] {
      ScanZeros(workSize, maxOut, chunk);
      hide Scan;
    }
  }

  lemma ScanZeros(workSize: nat, maxOut: nat, q: seq<byte>)
    requires workSize > 0 && q != [] && q[0] == FRAMING_BYTE && (|q| > 1 ==> q[1] == FRAMING_BYTE)
    ensures Scan(Receiver(workSize, maxOut), Hunt, q) == if |q| == 1 then Quiet(In([])) else Halted(In([]), q[1..])
  {}
}
