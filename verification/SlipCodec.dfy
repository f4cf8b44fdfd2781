/** SLIP (RFC 1055) on values: the framing, and the receiver as a byte machine. */
module SlipCodec {
  import opened Bytes
  import opened ByteStream

  const END: byte := 0xC0
  const ESC: byte := 0xDB
  const ESC_END: byte := 0xDC
  const ESC_ESC: byte := 0xDD

  function EscapeByte(c: byte): seq<byte> {
    if c == END then [ESC, ESC_END] else if c == ESC then [ESC, ESC_ESC] else [c]
  }

  function Escape(m: seq<byte>): seq<byte> {
    if m == [] then [] else EscapeByte(m[0]) + Escape(m[1..])
  }

  function Frame(m: seq<byte>): seq<byte> { [END] + Escape(m) + [END] }

  lemma {:induction false} EscapeAppend(a: seq<byte>, b: seq<byte>)
    ensures Escape(a + b) == Escape(a) + Escape(b)
    decreases |a|
  {
    if a == [] {
      assert a + b == b;
    } else {
      assert (a + b)[1..] == a[1..] + b;
      EscapeAppend(a[1..], b);
    }
  }

  // ----- the bytes on the wire -------------------------------------------------------------------------

  /** A delimiter inside a message. */
  lemma EscapeEnd(a: seq<byte>, b: seq<byte>)
    ensures Escape(a + [0xC0] + b) == Escape(a) + [0xDB, 0xDC] + Escape(b)
  {
    EscapeAppend(a + [0xC0], b);
    EscapeAppend(a, [0xC0]);
    EscapeOne(0xC0);
  }

  /** An escape inside a message. */
  lemma EscapeEsc(a: seq<byte>, b: seq<byte>)
    ensures Escape(a + [0xDB] + b) == Escape(a) + [0xDB, 0xDD] + Escape(b)
  {
    EscapeAppend(a + [0xDB], b);
    EscapeAppend(a, [0xDB]);
    EscapeOne(0xDB);
  }

  lemma EscapeOne(c: byte)
    ensures Escape([c]) == EscapeByte(c)
  {
    assert [c][1..] == [];
    assert EscapeByte(c) + [] == EscapeByte(c);
  }

  lemma {:induction false} EscapePlain(m: seq<byte>)
    requires 0xC0 !in m && 0xDB !in m
    ensures Escape(m) == m
  {
    if m != [] {
      EscapePlain(m[1..]);
      assert m == [m[0]] + m[1..];
    }
  }

  /** Any other message goes out as it is, between two delimiters. */
  lemma FramePlain(m: seq<byte>)
    requires 0xC0 !in m && 0xDB !in m
    ensures Frame(m) == [0xC0] + m + [0xC0]
  {
    EscapePlain(m);
  }

  // ----- the grammar of frames -----------------------------------------------------------------------

  function SpecialCount(m: seq<byte>): nat {
    if m == [] then 0 else (if m[0] == END || m[0] == ESC then 1 else 0) + SpecialCount(m[1..])
  }

  /** No END inside, and each ESC is followed by one of its two codes. */
  predicate WellEscaped(e: seq<byte>) {
    && END !in e
    && (forall i :: 0 <= i < |e| && e[i] == ESC ==> i + 1 < |e| && (e[i + 1] == ESC_END || e[i + 1] == ESC_ESC))
  }

  lemma {:induction false} EscapeGrammar(m: seq<byte>)
    ensures WellEscaped(Escape(m)) && |Escape(m)| == |m| + SpecialCount(m)
  {
    if m != [] {
      EscapeGrammar(m[1..]);
      var head, tail := EscapeByte(m[0]), Escape(m[1..]);
      forall i | 0 <= i < |head + tail| && (head + tail)[i] == ESC
        ensures i + 1 < |head + tail| && ((head + tail)[i + 1] == ESC_END || (head + tail)[i + 1] == ESC_ESC)
      {
        assert i >= |head| ==> (head + tail)[i] == tail[i - |head|];
      }
    }
  }

  /** The frame's length, and the only two places of END. */
  lemma FrameGrammar(m: seq<byte>)
    ensures |Frame(m)| == |m| + 2 + SpecialCount(m)
    ensures forall i :: 0 <= i < |Frame(m)| ==> (Frame(m)[i] == END <==> i == 0 || i == |Frame(m)| - 1)
    ensures WellEscaped(Frame(m)[1..|Frame(m)| - 1])
  {
    EscapeGrammar(m);
    var e := Escape(m);
    var f := Frame(m);
    assert f[1..|f| - 1] == e;
    assert forall i :: 1 <= i <= |e| ==> f[i] == e[i - 1];
  }

  // ----- the meaning of escaped bytes -------------------------------------------------------------------

  /** The bytes so far and whether an ESC is pending; a second ESC in a row is swallowed. */
  datatype Body = Body(out: seq<byte>, esc: bool)

  /** `None` when an ESC is followed by a byte that is no code. */
  datatype Meaning = None | Some(body: Body)

  function Unescape(e: seq<byte>): Meaning {
    if e == [] then Some(Body([], false))
    else if e[0] != ESC then Prepend(e[0], Unescape(e[1..]))
    else if |e| == 1 then Some(Body([], true))
    else if e[1] == ESC_END then Prepend(END, Unescape(e[2..]))
    else if e[1] == ESC_ESC then Prepend(ESC, Unescape(e[2..]))
    else if e[1] == ESC then Unescape(e[1..])
    else None
  }

  function Prepend(b: byte, m: Meaning): Meaning {
    match m
    case None => None
    case Some(Body(out, esc)) => Some(Body([b] + out, esc))
  }

  lemma UnescapeByte(c: byte, e: seq<byte>)
    ensures Unescape(EscapeByte(c) + e) == Prepend(c, Unescape(e))
  {}

  lemma {:induction false} UnescapeEscape(m: seq<byte>)
    ensures Unescape(Escape(m)) == Some(Body(m, false))
  {
    if m != [] {
      UnescapeEscape(m[1..]);
      UnescapeByte(m[0], Escape(m[1..]));
      hide Unescape, EscapeByte;
      assert m == [m[0]] + m[1..];
      assert Escape(m) == EscapeByte(m[0]) + Escape(m[1..]);
    }
  }

  lemma FrameInjective(a: seq<byte>, b: seq<byte>)
    requires Frame(a) == Frame(b)
    ensures a == b
  {
    assert Escape(a) == Frame(a)[1..|Frame(a)| - 1] == Escape(b);
    UnescapeEscape(a);
    UnescapeEscape(b);
  }

  // ----- the receiver -----------------------------------------------------------------------------------------

  /** `Hunt` skips to an END; `In` collects the body. */
  datatype Phase = Hunt | In(body: Body)

  /** The output space is checked before each byte of a body, whatever the byte. */
  function Step(outMax: nat, p: Phase, b: byte): Reaction<Phase> {
    match p
    case Hunt => Next(if b == END then In(Body([], false)) else Hunt)
    case In(Body(out, esc)) =>
      if |out| == outMax then Halt
      else if b == END then Emit(Hunt, out)
      else if b == ESC then Next(In(Body(out, true)))
      else if b == ESC_ESC && esc then Next(In(Body(out + [ESC], false)))
      else if b == ESC_END && esc then Next(In(Body(out + [END], false)))
      else if esc then Halt
      else Next(In(Body(out + [b], false)))
  }

  function Receiver(outMax: nat): Machine<Phase> { (p, b) => Step(outMax, p, b) }

  /** One message byte goes through escaping and the receiver. */
  lemma ScanEscapedByte(outMax: nat, out: seq<byte>, c: byte, q: seq<byte>)
    requires |out| < outMax
    ensures Scan(Receiver(outMax), In(Body(out, false)), EscapeByte(c) + q)
         == Scan(Receiver(outMax), In(Body(out + [c], false)), q)
  {}

  lemma {:induction false} ScanEscaped(outMax: nat, out: seq<byte>, m: seq<byte>, tail: seq<byte>)
    requires |out| + |m| <= outMax
    ensures Scan(Receiver(outMax), In(Body(out, false)), Escape(m) + tail)
         == Scan(Receiver(outMax), In(Body(out + m, false)), tail)
    decreases |m|
  {
    hide Scan, Receiver, EscapeByte;
    if m == [] {
      assert Escape(m) + tail == tail && out + m == out;
    } else {
      Reassociate(EscapeByte(m[0]), Escape(m[1..]), tail);
      ScanEscapedByte(outMax, out, m[0], Escape(m[1..]) + tail);
      ScanEscaped(outMax, out + [m[0]], m[1..], tail);
      Reassociate(out, [m[0]], m[1..]);
      assert m == [m[0]] + m[1..];
    }
  }

  /** A frame up to the end of m's escaping. */
  lemma ScanOpen(outMax: nat, m: seq<byte>, q: seq<byte>)
    requires |m| <= outMax
    ensures Scan(Receiver(outMax), Hunt, [0xC0] + Escape(m) + q) == Scan(Receiver(outMax), In(Body(m, false)), q)
  {
    hide Scan;
    assert [0xC0] + Escape(m) + q == [END] + (Escape(m) + q);
    ScanOne(Receiver(outMax), Hunt, END, Escape(m) + q);
    ScanEscaped(outMax, [], m, q);
    assert [] + m == m;
  }

  /** An escape before a byte that is no code stops the receiver at that byte. */
  lemma BadEscape(outMax: nat, m: seq<byte>, c: byte, q: seq<byte>)
    requires |m| < outMax && c != 0xC0 && c != 0xDB && c != 0xDC && c != 0xDD
    ensures Scan(Receiver(outMax), Hunt, [0xC0] + Escape(m) + ([0xDB, c] + q)) == Halted(In(Body(m, true)), [c] + q)
  {
    hide Scan;
    ScanOpen(outMax, m, [0xDB, c] + q);
    AfterEsc(outMax, m, c, q);
    ScanStop(Receiver(outMax), In(Body(m, true)), [c] + q);
  }

  /** Escapes in a row are one escape. */
  lemma RepeatedEscape(outMax: nat, m: seq<byte>, q: seq<byte>)
    requires |m| < outMax
    ensures Scan(Receiver(outMax), Hunt, [0xC0] + Escape(m) + ([0xDB, 0xDB] + q))
         == Scan(Receiver(outMax), Hunt, [0xC0] + Escape(m) + ([0xDB] + q))
  {
    hide Scan;
    ScanOpen(outMax, m, [0xDB, 0xDB] + q);
    ScanOpen(outMax, m, [0xDB] + q);
    AfterEsc(outMax, m, 0xDB, q);
    ScanOne(Receiver(outMax), In(Body(m, true)), 0xDB, q);
    ScanOne(Receiver(outMax), In(Body(m, false)), 0xDB, q);
  }

  /** A frame that ends with an escape is received without it. */
  lemma EscapeBeforeEnd(outMax: nat, m: seq<byte>, q: seq<byte>)
    requires |m| < outMax
    ensures Scan(Receiver(outMax), Hunt, [0xC0] + Escape(m) + ([0xDB, 0xC0] + q)) == Got(Hunt, m, q)
  {
    hide Scan;
    ScanOpen(outMax, m, [0xDB, 0xC0] + q);
    AfterEsc(outMax, m, 0xC0, q);
    ScanStop(Receiver(outMax), In(Body(m, true)), [0xC0] + q);
    assert ([0xC0 as byte] + q)[1..] == q;
  }

  lemma AfterEsc(outMax: nat, m: seq<byte>, c: byte, q: seq<byte>)
    requires |m| < outMax
    ensures Scan(Receiver(outMax), In(Body(m, false)), [0xDB, c] + q)
         == Scan(Receiver(outMax), In(Body(m, true)), [c] + q)
  {
    assert [0xDB, c] + q == [ESC] + ([c] + q);
    ScanOne(Receiver(outMax), In(Body(m, false)), ESC, [c] + q);
  }

  /** A message that leaves no byte of output space stops the receiver when the output is full. */
  lemma FullOutput(outMax: nat, m: seq<byte>, q: seq<byte>)
    requires |m| >= outMax
    ensures var o := Scan(Receiver(outMax), Hunt, Frame(m) + q);
            o.Halted? && o.s == In(Body(m[..outMax], false))
  {
    hide Scan;
    var a, tail := m[..outMax], Escape(m[outMax..]) + ([END] + q);
    assert m == a + m[outMax..];
    EscapeAppend(a, m[outMax..]);
    assert Frame(m) + q == [0xC0] + Escape(a) + tail;
    ScanOpen(outMax, a, tail);
    ScanStop(Receiver(outMax), In(Body(a, false)), tail);
  }

  /** A frame is received as its message exactly when one byte of output space is left over. */
  lemma FrameDelivered(outMax: nat, m: seq<byte>)
    ensures Scan(Receiver(outMax), Hunt, Frame(m)) == Got(Hunt, m, []) <==> |m| < outMax
  {
    if |m| < outMax {
      ScanOpen(outMax, m, [END]);
    } else {
      LongFrameHalts(outMax, m);
    }
  }

  lemma LongFrameHalts(outMax: nat, m: seq<byte>)
    requires |m| >= outMax
    ensures Scan(Receiver(outMax), Hunt, Frame(m)).Halted?
  {
    FullOutput(outMax, m, []);
    assert Frame(m) + [] == Frame(m);
  }

  // ----- the state in terms of the bytes read --------------------------------------------------------

  function AfterLastEnd(h: seq<byte>): seq<byte> {
    if h == [] || h[|h| - 1] == END then [] else AfterLastEnd(h[..|h| - 1]) + [h[|h| - 1]]
  }

  function Extend(body: Body, b: byte): Meaning {
    if b == ESC then Some(Body(body.out, true))
    else if !body.esc then Some(Body(body.out + [b], false))
    else if b == ESC_END then Some(Body(body.out + [END], false))
    else if b == ESC_ESC then Some(Body(body.out + [ESC], false))
    else None
  }

  function Grow(m: Meaning, b: byte): Meaning {
    match m
    case None => None
    case Some(body) => Extend(body, b)
  }

  lemma GrowPrepend(c: byte, m: Meaning, b: byte)
    ensures Grow(Prepend(c, m), b) == Prepend(c, Grow(m, b))
  {}

  /** Unescaping can be carried on byte by byte. */
  lemma {:induction false} UnescapeSnoc(e: seq<byte>, b: byte)
    ensures Unescape(e + [b]) == Grow(Unescape(e), b)
    decreases |e|
  {
    if |e| <= 1 {
      UnescapeShort(e, b);
    } else {
      hide Grow, Prepend;
      assert (e + [b])[1..] == e[1..] + [b];
      assert (e + [b])[2..] == e[2..] + [b];
      UnescapeSnoc(e[1..], b);
      UnescapeSnoc(e[2..], b);
      GrowPrepend(e[0], Unescape(e[1..]), b);
      GrowPrepend(END, Unescape(e[2..]), b);
      GrowPrepend(ESC, Unescape(e[2..]), b);
      if e[0] == ESC && e[1] != ESC_END && e[1] != ESC_ESC && e[1] != ESC {
        assert Grow(None, b) == None by { GrowNone(b); }
      }
    }
  }

  lemma GrowNone(b: byte)
    ensures Grow(None, b) == None
  {}

  lemma UnescapeShort(e: seq<byte>, b: byte)
    requires |e| <= 1
    ensures Unescape(e + [b]) == Grow(Unescape(e), b)
  {
    hide Unescape, Grow;
    if e == [] {
      assert [] + [b] == [b];
      UnescapeOne(b);
    } else {
      assert e == [e[0]] && e + [b] == [e[0], b];
      UnescapeTwo(e[0], b);
    }
  }

  lemma UnescapeOne(b: byte)
    ensures Unescape([b]) == Grow(Unescape([]), b) == Some(if b == ESC then Body([], true) else Body([b], false))
  {
    assert [b][1..] == [];
  }

  lemma UnescapeTwo(a: byte, b: byte)
    ensures Unescape([a, b]) == Grow(Unescape([a]), b)
  {
    UnescapeOne(a);
    UnescapeOne(b);
    assert [a, b][1..] == [b] && [a, b][2..] == [];
    assert [a] + [b] == [a, b];
  }

  /** The state as the bytes read so far determine it. */
  ghost predicate Paired(p: Phase, h: seq<byte>) {
    && (p.In? <==> Count(END, h) % 2 == 1)
    && (p.In? ==> Unescape(AfterLastEnd(h)) == Some(p.body))
  }

  lemma {:induction false} StatePairing(outMax: nat, h: seq<byte>)
    requires FaultFree(Receiver(outMax), Hunt, h)
    ensures Paired(Final(Receiver(outMax), Hunt, h), h)
    decreases |h|
  {
    if h != [] {
      var step, h', b := Receiver(outMax), h[..|h| - 1], h[|h| - 1];
      assert h == h' + [b];
      FaultFreePrefix(step, Hunt, h', [b]);
      StatePairing(outMax, h');
      StreamConcat(step, Hunt, h', [b]);
      StepPairs(outMax, Final(step, Hunt, h'), h', b);
    }
  }

  lemma StepPairs(outMax: nat, p: Phase, h: seq<byte>, b: byte)
    requires Paired(p, h) && FaultFree(Receiver(outMax), p, [b])
    ensures Paired(Final(Receiver(outMax), p, [b]), h + [b])
  {
    var next := Step(outMax, p, b).s;
    assert FaultFree(Receiver(outMax), p, [b]) && Final(Receiver(outMax), p, [b]) == next;
    assert (h + [b])[..|h|] == h;
    assert Count(END, h + [b]) == Count(END, h) + if b == END then 1 else 0;
    if next.In? && p.In? {
      UnescapeSnoc(AfterLastEnd(h), b);
      hide Unescape;
      assert AfterLastEnd(h + [b]) == AfterLastEnd(h) + [b];
    }
  }

  // ----- a frame behind other bytes ------------------------------------------------------------------

  /** Behind q the frame is read as m and nothing else: no fault, one message, and idle again. */
  ghost predicate ReadsAs(outMax: nat, q: seq<byte>, frame: seq<byte>, m: seq<byte>)
    requires FaultFree(Receiver(outMax), Hunt, q)
  {
    && FaultFree(Receiver(outMax), Hunt, q + frame)
    && Final(Receiver(outMax), Hunt, q + frame) == Hunt
    && Messages(Receiver(outMax), Hunt, q + frame) == Messages(Receiver(outMax), Hunt, q) + Visible(m)
  }

  /**
   Delivery behind any bytes without a fault: a frame is read as its message if and
   only if the bytes before it hold an even number of ENDs and a byte of output space is left over.
   */
  lemma FrameAfter(outMax: nat, q: seq<byte>, m: seq<byte>)
    requires FaultFree(Receiver(outMax), Hunt, q)
    ensures ReadsAs(outMax, q, Frame(m), m) <==> Count(END, q) % 2 == 0 && |m| < outMax
  {
    hide FaultFree, Final, Messages, Scan, Receiver, Escape;
    var step := Receiver(outMax);
    EscapeGrammar(m);
    CountDelimited(END, Escape(m));
    CountAppend(END, q, Frame(m));
    StatePairing(outMax, q);
    StreamConcat(step, Hunt, q, Frame(m));
    if FaultFree(step, Hunt, q + Frame(m)) {
      StatePairing(outMax, q + Frame(m));
    }
    if Count(END, q) % 2 == 0 {
      FrameFromIdle(outMax, m);
    }
  }

  lemma FrameFromIdle(outMax: nat, m: seq<byte>)
    ensures FaultFree(Receiver(outMax), Hunt, Frame(m)) <==> |m| < outMax
    ensures |m| < outMax ==> Final(Receiver(outMax), Hunt, Frame(m)) == Hunt
                             && Messages(Receiver(outMax), Hunt, Frame(m)) == Visible(m)
  {
    hide FaultFree, Final, Messages, Scan, Receiver, Frame;
    FrameDelivered(outMax, m);
    if |m| < outMax {
      GotIsStream(Receiver(outMax), Hunt, Frame(m));
    } else {
      LongFrameHalts(outMax, m);
      if FaultFree(Receiver(outMax), Hunt, Frame(m)) {
        FaultFreeScan(Receiver(outMax), Hunt, Frame(m));
      }
    }
  }
}
