/** The C framer and deframer, on caller-supplied buffers. */
module Slip {
  import opened Bytes
  import opened ByteStream
  import opened Deframing
  import opened SlipCodec
  import opened SlipLink
  import opened SwFifo

  /** The escaping of some prefix of the message, with the opening END, is exactly `max` bytes long. */
  predicate Fills(m: seq<byte>, max: nat) {
    exists k :: 0 <= k < |m| && 1 + |Escape(m[..k])| == max
  }

  /** How much of its frame the framer writes. */
  function Written(m: seq<byte>, max: nat): (n: nat)
    ensures n <= |Frame(m)|
  {
    if Fills(m, max) then
      PrefixShorter(m);
      max
    else |Frame(m)|
  }

  /**
   The capacity is looked at once per input byte and not before the closing END,
   so the call fails exactly when some prefix of the message fills it to the byte.
   */
  method SlipFramer(bufIn: seq<byte>, bufOut: array<byte>, bufOutMax: nat) returns (ret: Ret)
    requires Written(bufIn, bufOutMax) <= bufOut.Length
    modifies bufOut
    ensures ret == if exists k :: 0 <= k < |bufIn| && 1 + |Escape(bufIn[..k])| == bufOutMax
                   then Overflow else Size(|Frame(bufIn)|)
    ensures ret.Size? ==> bufOut[..] == Frame(bufIn) + old(bufOut[..])[|Frame(bufIn)|..]
    ensures ret.Overflow? ==> bufOutMax <= |Frame(bufIn)|
                              && bufOut[..] == Frame(bufIn)[..bufOutMax] + old(bufOut[..])[bufOutMax..]
  {
    hide Wrote, Escape, EscapeByte;
    ghost var was := bufOut[..];
    Store(bufOut, 0, END);
    var idx := 1;
    EscapeNothing();
    WroteFirst(was, END);
    for k := 0 to |bufIn|
      invariant idx == 1 + |Escape(bufIn[..k])|
      invariant Wrote(bufOut[..], was, [END] + Escape(bufIn[..k]))
      invariant forall j :: 0 <= j < k ==> 1 + |Escape(bufIn[..j])| != bufOutMax
    {
      var c := bufIn[k];
      ghost var out := [END] + Escape(bufIn[..k]);
      EscapeOneMore(bufIn, k);
      if idx == bufOutMax {
        FramePrefix(bufIn, k);
        WroteFirstPart(bufOut[..], was, out);
        return Overflow;
      }
      RoomForOneMore(bufIn, k, bufOutMax);
      Reassociate([END], Escape(bufIn[..k]), EscapeByte(c));
      if c == END {
        EscapedPair(END, ESC_END);
        WroteTwo(bufOut[..], was, out, ESC, ESC_END);
        Store(bufOut, idx, ESC);
        Store(bufOut, idx + 1, ESC_END);
        idx := idx + 2;
      } else if c == ESC {
        EscapedPair(ESC, ESC_ESC);
        WroteTwo(bufOut[..], was, out, ESC, ESC_ESC);
        Store(bufOut, idx, ESC);
        Store(bufOut, idx + 1, ESC_ESC);
        idx := idx + 2;
      } else {
        EscapedPlain(c);
        WroteOne(bufOut[..], was, out, c);
        Store(bufOut, idx, c);
        idx := idx + 1;
      }
    }
    assert bufIn[..|bufIn|] == bufIn;
    WroteOne(bufOut[..], was, [END] + Escape(bufIn), END);
    Store(bufOut, idx, END);
    WroteFirstPart(bufOut[..], was, Frame(bufIn));
    return Size(idx + 1);
  }

  lemma EscapeNothing()
    ensures Escape([]) == []
  {}

  lemma EscapedPair(c: byte, code: byte)
    requires (c == END && code == ESC_END) || (c == ESC && code == ESC_ESC)
    ensures EscapeByte(c) == [ESC, code]
  {}

  lemma EscapedPlain(c: byte)
    requires c != END && c != ESC
    ensures EscapeByte(c) == [c]
  {}

  /** Escaping one more byte, and the room the whole frame leaves for it. */
  lemma EscapeOneMore(m: seq<byte>, k: nat)
    requires k < |m|
    ensures Escape(m[..k + 1]) == Escape(m[..k]) + EscapeByte(m[k])
    ensures |Escape(m[..k])| + |EscapeByte(m[k])| <= |Escape(m)|
  {
    assert m[..k + 1] == m[..k] + [m[k]];
    EscapeAppend(m[..k], [m[k]]);
    assert [m[k]][1..] == [];
    assert m == m[..k + 1] + m[k + 1..];
    EscapeAppend(m[..k + 1], m[k + 1..]);
  }

  lemma FramePrefix(m: seq<byte>, k: nat)
    requires k <= |m|
    ensures var out := [END] + Escape(m[..k]); |out| <= |Frame(m)| && Frame(m)[..|out|] == out
  {
    assert m == m[..k] + m[k..];
    EscapeAppend(m[..k], m[k..]);
  }

  lemma RoomForOneMore(m: seq<byte>, k: nat, max: nat)
    requires k < |m| && forall j :: 0 <= j <= k ==> 1 + |Escape(m[..j])| != max
    ensures 1 + |Escape(m[..k + 1])| <= Written(m, max)
    ensures !Fills(m, max) ==> 2 + |Escape(m[..k + 1])| <= Written(m, max)
  {
    EscapeOneMore(m, k);
    if Fills(m, max) {
      var k' :| 0 <= k' < |m| && 1 + |Escape(m[..k'])| == max;
      assert m[..k'] == m[..k + 1] + m[k + 1..k'];
      EscapeAppend(m[..k + 1], m[k + 1..k']);
    }
  }

  lemma WroteFirst(was: seq<byte>, x: byte)
    requires |was| > 0
    ensures Wrote(was[0 := x], was, [x] + [])
  {}

  lemma WroteTwo(mem: seq<byte>, was: seq<byte>, out: seq<byte>, x: byte, y: byte)
    requires Wrote(mem, was, out) && |out| + 1 < |was|
    ensures |mem| == |was| && Wrote(mem[|out| := x][|out| + 1 := y], was, out + [x, y])
  {}

  lemma WroteFirstPart(mem: seq<byte>, was: seq<byte>, out: seq<byte>)
    requires Wrote(mem, was, out)
    ensures |out| <= |was| && mem == out + was[|out|..]
  {}

  /** Without an END or an ESC the framer fails exactly when the limit ends inside the message. */
  lemma PlainFills(m: seq<byte>, max: nat)
    requires 0xC0 !in m && 0xDB !in m
    ensures Fills(m, max) <==> 1 <= max <= |m|
  {
    forall k | 0 <= k <= |m|
      ensures |Escape(m[..k])| == k
    {
      EscapePlain(m[..k]);
    }
    if 1 <= max <= |m| {
      assert 1 + |Escape(m[..max - 1])| == max;
    }
  }

  datatype DeframerState = INIT | FIND_SOF | FIND_EOF

  class Deframer {
    var state: DeframerState
    const fifo: Fifo
    var idx: uint16
    var getEscaped: bool

    ghost predicate Valid()
      reads this, fifo
    {
      fifo.Valid() && (state == FIND_SOF ==> idx == 0 && !getEscaped)
    }

    /** The abstract state; the output buffer belongs to it while a frame is being received. */
    ghost function View(bufOut: array<byte>): State
      reads this, fifo, fifo.mem, bufOut
      requires Valid() && (state == FIND_EOF ==> idx <= bufOut.Length)
    {
      Link(if state == FIND_EOF then In(Body(bufOut[..idx], getEscaped)) else Hunt, fifo.Contents())
    }

    constructor (mtu: uint16)
      ensures Valid() && fresh(fifo) && fresh(fifo.mem)
      ensures fifo.depth == 2 * mtu && fifo.Contents() == [] && state == INIT
    {
      state := INIT;
      fifo := new Fifo(2 * mtu);
      idx, getEscaped := 0, false;
    }

    /** FIND_SOF: drops bytes up to and including the next END. */
    method FindSof(ghost outMax: nat)
      requires Valid() && state == FIND_SOF && fifo.Contents() != []
      modifies this, fifo
      ensures Valid() && state != INIT && idx == 0 && !getEscaped
      ensures |fifo.Contents()| < |old(fifo.Contents())| && (state == FIND_SOF ==> fifo.Contents() == [])
      ensures Scan(Receiver(outMax), if state == FIND_EOF then In(Body([], false)) else Hunt, fifo.Contents())
           == Scan(Receiver(outMax), Hunt, old(fifo.Contents()))
    {
      hide Scan;
      var avail := fifo.Count();
      var cell := new byte[1];
      ghost var q := fifo.Contents();
      for i := 0 to avail
        invariant Valid() && state == FIND_SOF
        invariant |fifo.Contents()| == avail - i && |q| == avail
        invariant Scan(Receiver(outMax), Hunt, fifo.Contents()) == Scan(Receiver(outMax), Hunt, q)
      {
        fifo.ReadByte(cell, 0);
        ScanOne(Receiver(outMax), Hunt, cell[0], fifo.Contents());
        if cell[0] == END {
          state := FIND_EOF;
          break;
        }
      }
    }

    /** `buf_out[idx++] = x` */
    method Append(bufOut: array<byte>, x: byte)
      requires idx < bufOut.Length && idx < 0xFFFF
      modifies this`idx, bufOut
      ensures idx == old(idx) + 1 && bufOut[..idx] == old(bufOut[..idx]) + [x]
    {
      bufOut[idx] := x;
      idx := idx + 1;
    }

    /** The branches for a byte inside a frame; false for a byte that may not follow an ESC. */
    method Collect(b: byte, bufOut: array<byte>, bufOutMax: uint16) returns (ok: bool)
      requires Valid() && state == FIND_EOF && b != END
      requires bufOut != fifo.mem && idx < bufOutMax <= bufOut.Length
      modifies this`idx, this`getEscaped, bufOut
      ensures Valid() && idx <= bufOutMax
      ensures Step(bufOutMax, old(View(bufOut).s), b) == if ok then Next(View(bufOut).s) else Halt
    {
      if b == ESC {
        getEscaped := true;
      } else if b == ESC_ESC && getEscaped {
        getEscaped := false;
        Append(bufOut, ESC);
      } else if b == ESC_END && getEscaped {
        getEscaped := false;
        Append(bufOut, END);
      } else if getEscaped {
        return false;
      } else {
        Append(bufOut, b);
      }
      return true;
    }

    /** FIND_EOF: collects and unescapes bytes until the closing END, a fault, or an empty FIFO. */
    method FindEof(bufOut: array<byte>, bufOutMax: uint16) returns (ret: Ret)
      requires Valid() && state == FIND_EOF
      requires bufOut != fifo.mem && idx <= bufOutMax <= bufOut.Length
      modifies this, fifo, bufOut
      ensures Valid() && state != FIND_SOF && (state == FIND_EOF ==> idx <= bufOutMax)
      ensures var o := old(Scan(Receiver(bufOutMax), View(bufOut).s, fifo.Contents()));
              Matches(Settle(SlipProtocol(bufOutMax), o), bufOut, ret)
    {
      hide Scan, Settle, Fifo.Contents;
      var avail := fifo.Count();
      var cell := new byte[1];
      ghost var o := Scan(Receiver(bufOutMax), View(bufOut).s, fifo.Contents());
      for i := 0 to avail
        invariant Valid() && state == FIND_EOF && idx <= bufOutMax
        invariant |fifo.Contents()| == avail - i
        invariant Scan(Receiver(bufOutMax), View(bufOut).s, fifo.Contents()) == o
      {
        ghost var rest, body := fifo.Contents(), View(bufOut).s;
        if idx == bufOutMax {
          SettleHalt(bufOutMax, body, rest);
          state := INIT;
          fifo.Flush();
          return Overflow;
        }
        fifo.ReadByte(cell, 0);
        if cell[0] == END {
          SettleGot(bufOutMax, body, rest);
          state := INIT;
          return Size(idx);
        }
        var ok := Collect(cell[0], bufOut, bufOutMax);
        if !ok {
          SettleHalt(bufOutMax, body, rest);
          state := INIT;
          fifo.Flush();
          return Invalid;
        }
        ScanStop(Receiver(bufOutMax), body, rest);
      }
      SettleNothing(bufOutMax, View(bufOut).s);
      return Size(0);
    }

    /** The deframer, the output buffer and the return value agree with the abstract result. */
    ghost predicate Matches(r: Result<Phase>, bufOut: array<byte>, ret: Ret)
      reads this, fifo, fifo.mem, bufOut
      requires Valid() && (state == FIND_EOF ==> idx <= bufOut.Length)
    {
      && View(bufOut) == r.link && ret == r.ret
      && (ret.Size? ==> ret.n == |r.msg| <= bufOut.Length && bufOut[..ret.n] == r.msg)
    }

    method SlipDeframer(bufIn: seq<byte>, bufOut: array<byte>, bufOutMax: uint16) returns (ret: Ret)
      requires Valid() && bufOut != fifo.mem && bufOutMax <= bufOut.Length
      requires state == FIND_EOF ==> idx <= bufOutMax
      modifies this, fifo, fifo.mem, bufOut
      ensures Valid() && (state == FIND_EOF ==> idx <= bufOutMax)
      ensures Matches(Call(SlipProtocol(bufOutMax), fifo.depth, old(View(bufOut)), bufIn), bufOut, ret)
    {
      hide Scan, Settle, Fifo.Contents;
      var r := fifo.Write(bufIn);
      if r < 0 {
        fifo.Flush();
        state := INIT;
        return Size(0);
      }
      ghost var o := Scan(Receiver(bufOutMax), View(bufOut).s, fifo.Contents());
      while true
        invariant Valid() && (state == FIND_EOF ==> idx <= bufOutMax)
        invariant Scan(Receiver(bufOutMax), View(bufOut).s, fifo.Contents()) == o
        decreases |fifo.Contents()|, state == INIT
      {
        match state {
          case INIT =>
            idx := 0;
            getEscaped := false;
            state := FIND_SOF;
          case FIND_SOF =>
            if fifo.Count() == 0 {
              SettleNothing(bufOutMax, Hunt);
              return Size(0);
            }
            FindSof(bufOutMax);
            assert bufOut[..0] == [];
          case FIND_EOF =>
            if fifo.Count() == 0 {
              SettleNothing(bufOutMax, View(bufOut).s);
              return Size(0);
            }
            ret := FindEof(bufOut, bufOutMax);
            return;
        }
      }
    }
  }

  lemma SettleHalt(outMax: nat, p: Phase, q: seq<byte>)
    requires p.In? && q != [] && Step(outMax, p, q[0]).Halt?
    ensures Settle(SlipProtocol(outMax), Scan(Receiver(outMax), p, q))
         == Result(Link(Hunt, []), if |p.body.out| == outMax then Overflow else Invalid, [])
  {}

  lemma SettleGot(outMax: nat, p: Phase, q: seq<byte>)
    requires p.In? && q != [] && |p.body.out| != outMax && q[0] == END
    ensures Settle(SlipProtocol(outMax), Scan(Receiver(outMax), p, q))
         == Result(Link(Hunt, q[1..]), Size(|p.body.out|), p.body.out)
  {}

  lemma SettleNothing(outMax: nat, p: Phase)
    ensures Settle(SlipProtocol(outMax), Scan(Receiver(outMax), p, [])) == Result(Link(p, []), Size(0), [])
  {}

  /** A receive loop: one call per chunk, keeping what the calls of positive size return. */
  method ReceiveAll(d: Deframer, chunks: seq<seq<byte>>, bufOut: array<byte>, bufOutMax: uint16)
    returns (rets: seq<Ret>, msgs: seq<seq<byte>>)
    requires d.Valid() && bufOut != d.fifo.mem && bufOutMax <= bufOut.Length
    requires d.state == FIND_EOF ==> d.idx <= bufOutMax
    modifies d, d.fifo, d.fifo.mem, bufOut
    ensures d.Valid() && (d.state == FIND_EOF ==> d.idx <= bufOutMax)
    ensures var results := Calls(SlipProtocol(bufOutMax), d.fifo.depth, old(d.View(bufOut)), chunks);
            && Returned(results, rets)
            && msgs == PickedUp(results) && d.View(bufOut) == LastLink(old(d.View(bufOut)), results)
    decreases |chunks|
  {
    hide Call;
    if chunks == [] {
      return [], [];
    }
    hide Calls, PickedUp, LastLink, Returned;
    ghost var l, p := d.View(bufOut), SlipProtocol(bufOutMax);
    FirstCall(p, d.fifo.depth, l, chunks);
    ghost var first := Call(p, d.fifo.depth, l, chunks[0]);
    var ret := d.SlipDeframer(chunks[0], bufOut, bufOutMax);
    msgs := if ret.Size? && ret.n > 0 then [bufOut[..ret.n]] else [];
    var rets', msgs' := ReceiveAll(d, chunks[1..], bufOut, bufOutMax);
    OneMoreReturned(first, Calls(p, d.fifo.depth, first.link, chunks[1..]), rets');
    rets, msgs := [ret] + rets', msgs + msgs';
  }

  /** The C return values are those of the abstract calls. */
  ghost predicate Returned(results: seq<Result<Phase>>, rets: seq<Ret>) {
    |rets| == |results| && (forall i :: 0 <= i < |rets| ==> results[i].ret == rets[i])
  }

  lemma OneMoreReturned(first: Result<Phase>, results: seq<Result<Phase>>, rets: seq<Ret>)
    requires Returned(results, rets)
    ensures Returned([first] + results, [first.ret] + rets)
  {}

  /** Zeros, and then the length of m. */
  ghost predicate OnlyLastReturns(rets: seq<Ret>, m: seq<byte>) {
    rets != [] && rets[|rets| - 1] == Size(|m|) && (forall i :: 0 <= i < |rets| - 1 ==> rets[i] == Size(0))
  }

  /** Frames with junk between them arrive in any pieces; the receive loop and n draining calls return all messages. */
  method ReceiveFrames(d: Deframer, chunks: seq<seq<byte>>, n: nat, bufOut: array<byte>, bufOutMax: uint16,
                       ghost items: seq<Item>)
    returns (msgs: seq<seq<byte>>)
    requires d.Valid() && d.state != FIND_EOF && d.fifo.Contents() == []
    requires bufOut != d.fifo.mem && bufOutMax <= bufOut.Length
    requires Frames(bufOutMax, items) && Concat(chunks) == Stream(items)
    requires Fits(Receiver(bufOutMax), d.fifo.depth, Link(Hunt, []), chunks + Empties(n))
    requires n >= |Feed(Receiver(bufOutMax), Link(Hunt, []), chunks).0.fifo|
    modifies d, d.fifo, d.fifo.mem, bufOut
    ensures d.Valid() && d.state != FIND_EOF && d.fifo.Contents() == []
    ensures msgs == Payloads(items)
  {
    hide Calls, Fits, Feed, Frames, Stream, Scan;
    FramesInChunks(d.fifo.depth, bufOutMax, items, chunks, n);
    var _, received := ReceiveAll(d, chunks + Empties(n), bufOut, bufOutMax);
    msgs := received;
  }

  /**
   A call meets any fault, in any state and on any bytes; the frame that arrives
   next, in any pieces, is received intact.
   */
  method ReceiveAfterFault(d: Deframer, bad: seq<byte>, chunks: seq<seq<byte>>, bufOut: array<byte>, bufOutMax: uint16,
                           ghost m: seq<byte>)
    returns (rets: seq<Ret>, msgs: seq<seq<byte>>)
    requires d.Valid() && bufOut != d.fifo.mem && bufOutMax <= bufOut.Length
    requires d.state == FIND_EOF ==> d.idx <= bufOutMax
    requires Faults(d.fifo.depth, bufOutMax, d.View(bufOut), bad)
    requires |m| < bufOutMax && Chunks(chunks, d.fifo.depth, Frame(m))
    modifies d, d.fifo, d.fifo.mem, bufOut
    ensures d.Valid() && d.state != FIND_EOF && d.fifo.Contents() == []
    ensures rets != [] && OnlyLastReturns(rets[1..], m) && msgs == Visible(m)
  {
    hide Faults, Chunks, Calls, DeliversAtEnd, Returned, OnlyLastReturns, LastLink;
    ghost var p, l := SlipProtocol(bufOutMax), d.View(bufOut);
    Recovery(d.fifo.depth, bufOutMax, l, bad, m, chunks);
    rets, msgs := ReceiveAll(d, [bad] + chunks, bufOut, bufOutMax);
    DeliveryReturns(p, l, Calls(p, d.fifo.depth, l, [bad] + chunks), rets, m);
  }

  lemma DeliveryReturns(p: Protocol<Phase>, l: State, results: seq<Result<Phase>>, rets: seq<Ret>, m: seq<byte>)
    requires results != [] && DeliversAtEnd(p, results[1..], m) && Returned(results, rets)
    ensures rets != [] && OnlyLastReturns(rets[1..], m) && LastLink(l, results) == Link(p.idle, [])
  {
    var later, n := results[1..], |results| - 2;
    assert later[n] == results[|results| - 1] && rets[1..][n] == later[n].ret;
    forall i | 0 <= i < n
      ensures rets[1..][i] == Size(0)
    {
      assert later[i].ret == Size(0);
    }
  }

  /** A frame is fed in pieces; only the last piece returns its message. */
  method FeedInPieces(d: Deframer, frame: seq<byte>, deframed: array<byte>, size: nat -> nat, ghost m: seq<byte>)
    returns (rets: seq<Ret>)
    requires d.Valid() && d.state != FIND_EOF
    requires deframed.Length <= 0xFFFF && deframed != d.fifo.mem
    requires frame != [] && Awaits(SlipProtocol(deframed.Length), d.View(deframed), frame, m)
    requires forall i :: 1 <= size(i) <= d.fifo.depth
    modifies d, d.fifo, d.fifo.mem, deframed
    ensures d.Valid() && d.state != FIND_EOF && d.fifo.Contents() == []
    ensures |m| <= deframed.Length && deframed[..|m|] == m
    ensures OnlyLastReturns(rets, m)
  {
    hide Awaits, Call, Scan, StepsStayLive, OnlyLastReturns, AllZero;
    var outMax: uint16 := deframed.Length;
    ghost var p := SlipProtocol(outMax);
    SlipStaysLive(outMax);
    var left := frame;
    rets := [];
    AllZeroAppend(rets);
    while left != []
      invariant d.Valid() && (d.state == FIND_EOF ==> d.idx <= outMax)
      invariant if left != [] then Awaits(p, d.View(deframed), left, m) && AllZero(rets)
                else d.View(deframed) == Link(Hunt, []) && |m| <= outMax && deframed[..|m|] == m
                     && OnlyLastReturns(rets, m)
      decreases |left|
    {
      var chunkSize := Min(size(|rets|), |left|);
      var chunk, rest := left[..chunkSize], left[chunkSize..];
      assert left == chunk + rest;
      NextPiece(p, d.fifo.depth, d.View(deframed), chunk, rest, m);
      var ret := d.SlipDeframer(chunk, deframed, outMax);
      AllZeroAppend(rets);
      left, rets := rest, rets + [ret];
    }
  }

  predicate AllZero(rets: seq<Ret>) { forall i :: 0 <= i < |rets| ==> rets[i] == Size(0) }

  lemma AllZeroAppend(rets: seq<Ret>)
    ensures AllZero([])
    ensures AllZero(rets) ==> AllZero(rets + [Size(0)])
    ensures AllZero(rets) ==> forall m: seq<byte> :: OnlyLastReturns(rets + [Size(|m|)], m)
  {}

  /**
   The body of the deframer test, with the message and the random chunk sizes as
   parameters: the message is framed, the frame fed in pieces, and it comes back.
   */
  method FrameAndDeframe(d: Deframer, m: seq<byte>, framed: array<byte>, deframed: array<byte>, size: nat -> nat)
    returns (rets: seq<Ret>)
    requires d.Valid() && d.state != FIND_EOF && d.fifo.Contents() == []
    requires 2 * |m| + 2 <= framed.Length && |m| < deframed.Length <= 0xFFFF
    requires framed != deframed && framed != d.fifo.mem && deframed != d.fifo.mem
    requires forall i :: 1 <= size(i) <= d.fifo.depth
    modifies d, d.fifo, d.fifo.mem, framed, deframed
    ensures d.Valid() && d.state != FIND_EOF && d.fifo.Contents() == []
    ensures deframed[..|m|] == m
    ensures rets != [] && rets[|rets| - 1] == Size(|m|)
    ensures forall i :: 0 <= i < |rets| - 1 ==> rets[i] == Size(0)
  {
    hide Awaits, Frame, Escape;
    FrameFits(m, framed.Length);
    var made := SlipFramer(m, framed, framed.Length);
    assert framed[..made.n] == Frame(m);
    AwaitsFrame(deframed.Length, m);
    rets := FeedInPieces(d, framed[..made.n], deframed, size, m);
  }

  lemma AwaitsFrame(outMax: nat, m: seq<byte>)
    requires |m| < outMax
    ensures |Frame(m)| > 0 && Awaits(SlipProtocol(outMax), Link(Hunt, []), Frame(m), m)
  {
    FrameDelivered(outMax, m);
  }

  lemma FrameFits(m: seq<byte>, max: nat)
    requires 2 * |m| + 2 <= max
    ensures |Frame(m)| <= max && !Fills(m, max)
  {
    FrameGrammar(m);
    SpecialsBounded(m);
    PrefixShorter(m);
  }

  lemma SpecialsBounded(m: seq<byte>)
    ensures SpecialCount(m) <= |m|
  {}

  lemma PrefixShorter(m: seq<byte>)
    ensures forall k :: 0 <= k < |m| ==> |Escape(m[..k])| < |Escape(m)|
  {
    forall k | 0 <= k < |m|
      ensures |Escape(m[..k])| < |Escape(m)|
    {
      EscapeOneMore(m, k);
    }
  }
}
