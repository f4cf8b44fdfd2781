/** The C deframer: its states, its work buffer and its FIFO. */
module CobsFrame {
  import opened Bytes
  import opened ByteStream
  import opened CobsBlocks
  import opened Cobs
  import opened CobsLink
  import opened Deframing
  import opened SwFifo

  datatype DeframerState = INIT | FIND_SOF | FIND_EOF | DECODE | ERROR

  class Deframer {
    var state: DeframerState
    const work: array<byte>
    const workSize: uint16
    const fifo: Fifo
    var count: uint16

    ghost predicate Valid()
      reads this, fifo
    {
      && fifo.Valid() && work != fifo.mem && work.Length == workSize
      && (state == FIND_SOF ==> count == 0)
      && (state == FIND_EOF || state == DECODE ==> count <= workSize)
    }

    /** No call ends in these states. */
    ghost predicate BetweenCalls()
      reads this
    {
      state != FIND_SOF && state != DECODE
    }

    ghost function Received(): Phase
      reads this, fifo, work
      requires Valid()
    {
      match state
      case FIND_EOF => In(work[..count])
      case ERROR => CobsLink.Failed
      case _ => Hunt
    }

    /** The abstract state between calls. */
    ghost function View(): State
      reads this, fifo, fifo.mem, work
      requires Valid()
    {
      Link(Received(), fifo.Contents())
    }

    constructor (bufDepth: uint16)
      ensures Valid() && fresh(fifo) && fresh(fifo.mem) && fresh(work)
      ensures workSize == bufDepth && fifo.depth == bufDepth
      ensures state == INIT && View() == Link(Hunt, [])
    {
      state := INIT;
      work := new byte[bufDepth];
      workSize := bufDepth;
      fifo := new Fifo(bufDepth);
      count := 0;
    }

    /** FIND_SOF: drops bytes up to and including the next framing byte. */
    method FindSof(ghost maxOut: nat)
      requires Valid() && state == FIND_SOF && fifo.Contents() != []
      modifies this`state, fifo
      ensures Valid() && (state == FIND_SOF || state == FIND_EOF) && count == 0
      ensures |fifo.Contents()| < |old(fifo.Contents())|
      ensures Scan(Receiver(workSize, maxOut), Received(), fifo.Contents())
           == Scan(Receiver(workSize, maxOut), Hunt, old(fifo.Contents()))
    {
      hide Scan;
      var avail := fifo.Count();
      var cell := new byte[1];
      ghost var q := fifo.Contents();
      for i := 0 to avail
        invariant Valid() && state == FIND_SOF
        invariant |fifo.Contents()| == avail - i && |q| == avail
        invariant Scan(Receiver(workSize, maxOut), Hunt, fifo.Contents()) == Scan(Receiver(workSize, maxOut), Hunt, q)
      {
        fifo.ReadByte(cell, 0);
        ScanOne(Receiver(workSize, maxOut), Hunt, cell[0], fifo.Contents());
        if cell[0] == FRAMING_BYTE {
          state := FIND_EOF;
          assert work[..count] == [];
          break;
        }
      }
    }

    /** FIND_EOF: moves bytes into the work buffer until the framing byte, an overflow, or an empty FIFO. */
    method FindEof(ghost maxOut: nat) returns (foundEof: bool)
      requires Valid() && state == FIND_EOF && fifo.Contents() != []
      modifies this`state, this`count, fifo, work
      ensures Valid() && (foundEof ==> |fifo.Contents()| < |old(fifo.Contents())|)
      ensures var o := old(Scan(Receiver(workSize, maxOut), Received(), fifo.Contents()));
              if foundEof
              then state == DECODE && count < workSize
                   && o == Scan(Receiver(workSize, maxOut), In(work[..count]), [FRAMING_BYTE] + fifo.Contents())
              else (state == FIND_EOF || state == ERROR)
                   && Settle(CobsProtocol(workSize, maxOut), o) == Result(View(), Size(0), [])
                   && !Malformed(workSize, maxOut, o)
    {
      hide Scan, Settle, Malformed;
      var avail := fifo.Count();
      ghost var step, q := Receiver(workSize, maxOut), fifo.Contents();
      ghost var o := Scan(step, Received(), q);
      for i := 0 to avail
        invariant Valid() && state == FIND_EOF
        invariant |fifo.Contents()| == avail - i && |q| == avail
        invariant Scan(step, Received(), fifo.Contents()) == o
      {
        ghost var rest, body := fifo.Contents(), work[..count];
        if count == workSize {
          SettleWorkOverflow(workSize, maxOut, body, rest);
          state := ERROR;
          return false;
        }
        fifo.ReadByte(work, count);
        if work[count] == FRAMING_BYTE {
          state := DECODE;
          return true;
        }
        ScanOne(step, In(body), work[count], fifo.Contents());
        count := count + 1;
        assert work[..count] == body + [work[count - 1]];
      }
      SettleNothing(workSize, maxOut, Received());
      return false;
    }

    /** DECODE: writes the message to the output, or finds that it does not fit. */
    method Decode(bufOut: array<byte>, maxBufOut: nat) returns (num: int)
      requires Valid() && state == DECODE && count < workSize
      requires bufOut != fifo.mem && bufOut != work && maxBufOut <= bufOut.Length
      requires !Malformed(workSize, maxBufOut,
                          Scan(Receiver(workSize, maxBufOut), In(work[..count]), [FRAMING_BYTE] + fifo.Contents()))
      modifies this`state, bufOut
      ensures Valid() && state == if num < 0 then ERROR else INIT
      ensures var o := Scan(Receiver(workSize, maxBufOut), In(work[..count]), [FRAMING_BYTE] + fifo.Contents());
              && num <= bufOut.Length
              && Settle(CobsProtocol(workSize, maxBufOut), o)
                 == if num < 0 then Result(Link(Hunt, []), Size(0), [])
                    else Result(Link(Hunt, fifo.Contents()), Size(num), bufOut[..num])
    {
      hide Scan, Settle, Malformed, WellFormed, Decoded, Inside, Fifo.Contents;
      ghost var body := work[..count];
      SettleDecode(workSize, maxBufOut, body, fifo.Contents());
      num := CobsDecode(work, count, bufOut, maxBufOut);
      state := if num < 0 then ERROR else INIT;
    }

    /** The abstract result of a call is this state, this return value and this output. */
    ghost predicate Matches(r: Result<Phase>, bufOut: array<byte>, ret: int)
      reads this, fifo, fifo.mem, work, bufOut
      requires Valid()
    {
      && View() == r.link && ret >= 0 && r.ret == Size(ret)
      && ret == |r.msg| <= bufOut.Length && bufOut[..ret] == r.msg
    }

    method CobsDeframer(bufIn: seq<byte>, bufOut: array<byte>, maxBufOut: nat) returns (ret: int)
      requires Valid() && BetweenCalls()
      requires bufOut != fifo.mem && bufOut != work && maxBufOut <= bufOut.Length
      requires Defined(fifo.depth, workSize, maxBufOut, View(), bufIn)
      modifies this, fifo, fifo.mem, work, bufOut
      ensures Valid() && BetweenCalls()
      ensures Matches(Call(CobsProtocol(workSize, maxBufOut), fifo.depth, old(View()), bufIn), bufOut, ret)
    {
      hide Scan, Settle, Malformed, Receiver, Fifo.Contents;
      var r := fifo.Write(bufIn);
      if r < 0 {
        fifo.Flush();
        state := INIT;
        assert bufOut[..0] == [];
        return 0;
      }
      ret := RunStates(bufOut, maxBufOut);
    }

    /** The state machine of a call, on what is in the FIFO now. */
    method RunStates(bufOut: array<byte>, maxBufOut: nat) returns (ret: int)
      requires Valid() && BetweenCalls()
      requires bufOut != fifo.mem && bufOut != work && maxBufOut <= bufOut.Length
      requires var o := Scan(Receiver(workSize, maxBufOut), Received(), fifo.Contents());
               state != ERROR ==> !Malformed(workSize, maxBufOut, o)
      modifies this, fifo, work, bufOut
      ensures Valid() && BetweenCalls()
      ensures var o := old(Scan(Receiver(workSize, maxBufOut), Received(), fifo.Contents()));
              Matches(if old(state) == ERROR then Result(Link(Hunt, []), Size(0), [])
                      else Settle(CobsProtocol(workSize, maxBufOut), o), bufOut, ret)
    {
      hide Scan, Settle, Malformed, Receiver, Fifo.Contents;
      ghost var protocol, step, p := CobsProtocol(workSize, maxBufOut), Receiver(workSize, maxBufOut), Received();
      ghost var o := Scan(step, p, fifo.Contents());
      while true
        invariant Valid()
        invariant state != ERROR && state != DECODE ==> !p.Failed? && Scan(step, Received(), fifo.Contents()) == o
        invariant state == DECODE ==> !p.Failed? && count < workSize
        invariant state == DECODE ==> Scan(step, In(work[..count]), [FRAMING_BYTE] + fifo.Contents()) == o
        invariant state == ERROR ==> p.Failed? || Settle(protocol, o) == Result(Link(Hunt, []), Size(0), [])
        decreases |fifo.Contents()|, Rank(state)
      {
        match state {
          case INIT =>
            count := 0;
            state := FIND_SOF;
          case FIND_SOF =>
            if fifo.Count() == 0 {
              SettleNothing(workSize, maxBufOut, Hunt);
              state := INIT;
              assert bufOut[..0] == [];
              return 0;
            }
            FindSof(maxBufOut);
          case FIND_EOF =>
            assert bufOut[..0] == [];
            if fifo.Count() == 0 {
              SettleNothing(workSize, maxBufOut, Received());
              return 0;
            }
            var foundEof := FindEof(maxBufOut);
            if !foundEof {
              return 0;
            }
          case DECODE =>
            var num := Decode(bufOut, maxBufOut);
            if num >= 0 {
              return num;
            }
          case ERROR =>
            fifo.Flush();
            state := INIT;
            assert bufOut[..0] == [];
            return 0;
        }
      }
    }
  }

  /** How many states may still follow within a call without a byte being read. */
  function Rank(state: DeframerState): nat {
    match state
    case INIT => 4
    case FIND_SOF => 3
    case FIND_EOF => 2
    case DECODE => 1
    case ERROR => 0
  }

  lemma SettleNothing(workSize: nat, maxOut: nat, p: Phase)
    ensures var o := Scan(Receiver(workSize, maxOut), p, []);
            && Settle(CobsProtocol(workSize, maxOut), o) == Result(Link(p, []), Size(0), [])
            && !Malformed(workSize, maxOut, o)
  {}

  lemma SettleWorkOverflow(workSize: nat, maxOut: nat, body: seq<byte>, q: seq<byte>)
    requires |body| == workSize && q != []
    ensures var o := Scan(Receiver(workSize, maxOut), In(body), q);
            && Settle(CobsProtocol(workSize, maxOut), o) == Result(Link(CobsLink.Failed, q), Size(0), [])
            && !Malformed(workSize, maxOut, o)
  {}

  /** At the closing delimiter: undefined, a message, or an output overflow. */
  lemma SettleDecode(workSize: nat, maxOut: nat, body: seq<byte>, q: seq<byte>)
    requires |body| < workSize
    ensures var o := Scan(Receiver(workSize, maxOut), In(body), [FRAMING_BYTE] + q);
            && (Malformed(workSize, maxOut, o) <==> !Inside(body, maxOut))
            && Settle(CobsProtocol(workSize, maxOut), o)
               == if WellFormed(body) && |Decoded(body)| <= maxOut
                  then Result(Link(Hunt, q), Size(|Decoded(body)|), Decoded(body))
                  else Result(Link(Hunt, []), Size(0), [])
  {}

  /** A receive loop: one call per chunk, keeping what the calls of positive size return. */
  method ReceiveAll(d: Deframer, chunks: seq<seq<byte>>, bufOut: array<byte>)
    returns (rets: seq<int>, msgs: seq<seq<byte>>)
    requires d.Valid() && d.BetweenCalls() && bufOut != d.fifo.mem && bufOut != d.work
    requires AllDefined(d.fifo.depth, d.workSize, bufOut.Length, d.View(), chunks)
    modifies d, d.fifo, d.fifo.mem, d.work, bufOut
    ensures d.Valid() && d.BetweenCalls()
    ensures var results := Calls(CobsProtocol(d.workSize, bufOut.Length), d.fifo.depth, old(d.View()), chunks);
            && Returned(results, rets)
            && msgs == PickedUp(results) && d.View() == LastLink(old(d.View()), results)
    decreases |chunks|
  {
    hide Call, Defined;
    if chunks == [] {
      return [], [];
    }
    hide Calls, PickedUp, LastLink, Returned;
    ghost var l, p := d.View(), CobsProtocol(d.workSize, bufOut.Length);
    FirstCall(p, d.fifo.depth, l, chunks);
    ghost var first := Call(p, d.fifo.depth, l, chunks[0]);
    var ret := d.CobsDeframer(chunks[0], bufOut, bufOut.Length);
    msgs := if ret > 0 then [bufOut[..ret]] else [];
    var rets', msgs' := ReceiveAll(d, chunks[1..], bufOut);
    OneMoreReturned(first, ret, Calls(p, d.fifo.depth, first.link, chunks[1..]), rets');
    rets, msgs := [ret] + rets', msgs + msgs';
  }

  /** The C return values are those of the abstract calls. */
  ghost predicate Returned(results: seq<Result<Phase>>, rets: seq<int>) {
    |rets| == |results| && (forall i :: 0 <= i < |rets| ==> rets[i] >= 0 && results[i].ret == Size(rets[i]))
  }

  lemma OneMoreReturned(first: Result<Phase>, ret: int, results: seq<Result<Phase>>, rets: seq<int>)
    requires ret >= 0 && first.ret == Size(ret) && Returned(results, rets)
    ensures Returned([first] + results, [ret] + rets)
  {}

  /** Zeros, and then the length of m. */
  ghost predicate OnlyLastReturns(rets: seq<int>, m: seq<byte>) {
    rets != [] && rets[|rets| - 1] == |m| && (forall i :: 0 <= i < |rets| - 1 ==> rets[i] == 0)
  }

  lemma DeliveryReturns(p: Protocol<Phase>, results: seq<Result<Phase>>, rets: seq<int>, m: seq<byte>)
    requires DeliversAtEnd(p, results, m) && Returned(results, rets)
    ensures OnlyLastReturns(rets, m) && PickedUp(results) == Visible(m)
    ensures forall l :: LastLink(l, results) == Link(p.idle, [])
  {
    DeliveredIsPickedUp(p, results, m);
  }

  /** Frames with junk between them arrive in any pieces; the receive loop and n draining calls return all messages. */
  method ReceiveFrames(d: Deframer, chunks: seq<seq<byte>>, n: nat, bufOut: array<byte>, ghost items: seq<Item>)
    returns (msgs: seq<seq<byte>>)
    requires d.Valid() && d.BetweenCalls() && d.View() == Link(Hunt, [])
    requires bufOut != d.fifo.mem && bufOut != d.work
    requires Frames(d.workSize, bufOut.Length, items) && Concat(chunks) == Stream(items)
    requires Fits(Receiver(d.workSize, bufOut.Length), d.fifo.depth, Link(Hunt, []), chunks + Empties(n))
    requires n >= |Feed(Receiver(d.workSize, bufOut.Length), Link(Hunt, []), chunks).0.fifo|
    modifies d, d.fifo, d.fifo.mem, d.work, bufOut
    ensures d.Valid() && d.BetweenCalls() && d.View() == Link(Hunt, [])
    ensures msgs == Payloads(items)
  {
    hide Calls, Fits, Feed, Frames, Stream, Scan, AllDefined;
    FramesInChunks(d.fifo.depth, d.workSize, bufOut.Length, items, chunks, n);
    var _, received := ReceiveAll(d, chunks + Empties(n), bufOut);
    msgs := received;
  }

  /**
   A call meets an overflow of the FIFO or of the output buffer, in any state and on
   any bytes; the frame that arrives next, in any pieces, is received intact.
   */
  method ReceiveAfterFault(d: Deframer, bad: seq<byte>, chunks: seq<seq<byte>>, bufOut: array<byte>, ghost m: seq<byte>)
    returns (rets: seq<int>, msgs: seq<seq<byte>>)
    requires d.Valid() && d.BetweenCalls() && bufOut != d.fifo.mem && bufOut != d.work
    requires FaultsAtOnce(d.fifo.depth, d.workSize, bufOut.Length, d.View(), bad)
    requires Deliverable(d.workSize, bufOut.Length, m) && Chunks(chunks, d.fifo.depth, Frame(m))
    modifies d, d.fifo, d.fifo.mem, d.work, bufOut
    ensures d.Valid() && d.BetweenCalls() && d.View() == Link(Hunt, [])
    ensures OnlyLastReturns(rets, m) && msgs == Visible(m)
  {
    hide Calls, AllDefined, DeliversAtEnd, FaultsAtOnce, Deliverable, Chunks;
    ghost var p, l := CobsProtocol(d.workSize, bufOut.Length), d.View();
    Recovery(d.fifo.depth, d.workSize, bufOut.Length, l, bad, m, chunks);
    rets, msgs := ReceiveAll(d, [bad] + chunks, bufOut);
    DeliveryReturns(p, Calls(p, d.fifo.depth, l, [bad] + chunks), rets, m);
  }

  /** A call overflows the work buffer; what the next call brings is lost, and the frame after that is received. */
  method ReceiveAfterWorkOverflow(d: Deframer, bad: seq<byte>, lost: seq<byte>, chunks: seq<seq<byte>>,
                                  bufOut: array<byte>, ghost m: seq<byte>)
    returns (rets: seq<int>, msgs: seq<seq<byte>>)
    requires d.Valid() && d.BetweenCalls() && bufOut != d.fifo.mem && bufOut != d.work
    requires WorkOverflows(d.fifo.depth, d.workSize, bufOut.Length, d.View(), bad)
    requires Deliverable(d.workSize, bufOut.Length, m) && Chunks(chunks, d.fifo.depth, Frame(m))
    modifies d, d.fifo, d.fifo.mem, d.work, bufOut
    ensures d.Valid() && d.BetweenCalls() && d.View() == Link(Hunt, [])
    ensures OnlyLastReturns(rets, m) && msgs == Visible(m)
  {
    hide Calls, AllDefined, DeliversAtEnd, WorkOverflows, Deliverable, Chunks;
    ghost var p, l := CobsProtocol(d.workSize, bufOut.Length), d.View();
    RecoveryAfterWorkOverflow(d.fifo.depth, d.workSize, bufOut.Length, l, bad, lost, m, chunks);
    rets, msgs := ReceiveAll(d, [bad, lost] + chunks, bufOut);
    DeliveryReturns(p, Calls(p, d.fifo.depth, l, [bad, lost] + chunks), rets, m);
  }

  /** A frame is fed in pieces; only the last piece returns its message. */
  method FeedInPieces(d: Deframer, frame: seq<byte>, deframed: array<byte>, size: nat -> nat, ghost m: seq<byte>)
    returns (rets: seq<int>)
    requires d.Valid() && d.BetweenCalls() && deframed != d.fifo.mem && deframed != d.work
    requires frame != [] && Awaits(CobsProtocol(d.workSize, deframed.Length), d.View(), frame, m)
    requires forall i :: 1 <= size(i) <= d.fifo.depth
    modifies d, d.fifo, d.fifo.mem, d.work, deframed
    ensures d.Valid() && d.View() == Link(Hunt, []) && d.BetweenCalls()
    ensures |m| <= deframed.Length && deframed[..|m|] == m
    ensures OnlyLastReturns(rets, m)
  {
    hide Awaits, Call, Defined, StepsStayLive, Scan, OnlyLastReturns, AllZero;
    ghost var p := CobsProtocol(d.workSize, deframed.Length);
    CobsStaysLive(d.workSize, deframed.Length);
    var left := frame;
    rets := [];
    AllZeroAppend(rets);
    while left != []
      invariant d.Valid() && d.BetweenCalls()
      invariant if left != [] then Awaits(p, d.View(), left, m) && AllZero(rets)
                else d.View() == Link(Hunt, []) && |m| <= deframed.Length && deframed[..|m|] == m
                     && OnlyLastReturns(rets, m)
      decreases |left|
    {
      var chunkSize := Min(size(|rets|), |left|);
      var chunk, rest := left[..chunkSize], left[chunkSize..];
      assert left == chunk + rest;
      NextPiece(p, d.fifo.depth, d.View(), chunk, rest, m);
      NotHaltedIsDefined(d.fifo.depth, d.workSize, deframed.Length, d.View(), chunk);
      var ret := d.CobsDeframer(chunk, deframed, deframed.Length);
      AllZeroAppend(rets);
      left, rets := rest, rets + [ret];
    }
  }

  predicate AllZero(rets: seq<int>) { forall i :: 0 <= i < |rets| ==> rets[i] == 0 }

  lemma AllZeroAppend(rets: seq<int>)
    ensures AllZero([])
    ensures AllZero(rets) ==> AllZero(rets + [0]) && (forall m: seq<byte> :: OnlyLastReturns(rets + [|m|], m))
  {}

  lemma NotHaltedIsDefined(depth: nat, workSize: nat, maxOut: nat, l: State, chunk: seq<byte>)
    requires !Scan(Receiver(workSize, maxOut), l.s, l.fifo + chunk).Halted?
    ensures Defined(depth, workSize, maxOut, l, chunk)
  {}

  /**
   Both ends of the link: a message is framed and its frame arrives in pieces of
   any sizes that fit the FIFO; only the last piece returns it, and nothing is left behind.
   */
  method FrameAndDeframe(d: Deframer, m: seq<byte>, framed: array<byte>, deframed: array<byte>, size: nat -> nat)
    returns (rets: seq<int>)
    requires d.Valid() && d.View() == Link(Hunt, []) && d.BetweenCalls()
    requires Deliverable(d.workSize, deframed.Length, m) && |Encode(m)| + 3 <= framed.Length
    requires framed != deframed && framed != d.fifo.mem && framed != d.work
    requires deframed != d.fifo.mem && deframed != d.work
    requires forall i :: 1 <= size(i) <= d.fifo.depth
    modifies d, d.fifo, d.fifo.mem, d.work, framed, deframed
    ensures d.Valid() && d.View() == Link(Hunt, []) && d.BetweenCalls()
    ensures |m| <= deframed.Length && deframed[..|m|] == m
    ensures rets != [] && rets[|rets| - 1] == |m|
    ensures forall i :: 0 <= i < |rets| - 1 ==> rets[i] == 0
  {
    hide Awaits, Frame, Encode, Deliverable, IsDataSlot;
    FrameLength(m);
    RoomBounds(m, framed.Length);
    AwaitsFrame(d.workSize, deframed.Length, m);
    assert d.View() == Link(Hunt, []);
    var made := CobsFramer(m, framed, framed.Length);
    assert framed[..made] == Frame(m);
    rets := FeedInPieces(d, framed[..made], deframed, size, m);
  }

  lemma AwaitsFrame(workSize: nat, maxOut: nat, m: seq<byte>)
    requires Deliverable(workSize, maxOut, m)
    ensures |m| <= maxOut
    ensures Awaits(CobsProtocol(workSize, maxOut), Link(Hunt, []), Frame(m), m)
  {
    FrameDelivered(workSize, maxOut, m);
  }

  lemma FrameLength(m: seq<byte>)
    ensures |Frame(m)| == |Encode(m)| + 2 > 2
  {
    EncodedLength(m);
  }
}
