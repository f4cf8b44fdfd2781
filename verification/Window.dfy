/**
 What CircBuffer implements: a window on the log of everything written since the
 last flush. A write extends the log and pushes the window's start forward when
 it would be wider than `depth`; a read takes bytes from the start.
 */
module Window {
  import opened Bytes

  datatype Log = Log(depth: nat, written: seq<byte>, start: nat) {
    predicate Valid() { start <= |written| <= start + depth }

    function Contents(): seq<byte>
      requires Valid()
    {
      written[start..]
    }
  }

  datatype Op = Write(data: seq<byte>) | Read(num: nat) | Flush

  /** The last `depth` bytes. */
  function Newest(depth: nat, s: seq<byte>): seq<byte> { if |s| <= depth then s else s[|s| - depth..] }

  function Apply(l: Log, op: Op): (l': Log)
    requires l.Valid()
    ensures l'.Valid() && l'.depth == l.depth
  {
    match op
    case Write(data) =>
      var written := l.written + data;
      l.(written := written, start := Max(l.start, |written| - l.depth))
    case Read(num) => l.(start := l.start + Min(num, |l.Contents()|))
    case Flush => Log(l.depth, [], 0)
  }

  /** The bytes a read hands out. */
  function Out(l: Log, op: Op): seq<byte>
    requires l.Valid()
  {
    if op.Read? then l.Contents()[..Min(op.num, |l.Contents()|)] else []
  }

  function Run(l: Log, ops: seq<Op>): (l': Log)
    requires l.Valid()
    ensures l'.Valid() && l'.depth == l.depth
    decreases |ops|
  {
    if ops == [] then l else Run(Apply(l, ops[0]), ops[1..])
  }

  function Outs(l: Log, ops: seq<Op>): seq<seq<byte>>
    requires l.Valid()
    decreases |ops|
  {
    if ops == [] then [] else [Out(l, ops[0])] + Outs(Apply(l, ops[0]), ops[1..])
  }

  /** One write keeps exactly the newest bytes of the old contents followed by the data. */
  lemma WriteKeepsNewest(l: Log, data: seq<byte>)
    requires l.Valid()
    ensures Apply(l, Write(data)).Contents() == Newest(l.depth, l.Contents() + data)
  {}

  /** Without reads and flushes the contents are the newest bytes of everything written. */
  lemma {:induction false} WritesKeepNewest(l: Log, ops: seq<Op>)
    requires l.Valid() && l.start == Max(0, |l.written| - l.depth)
    requires forall i :: 0 <= i < |ops| ==> ops[i].Write?
    ensures Run(l, ops).Contents() == Newest(l.depth, Run(l, ops).written)
    decreases |ops|
  {
    if ops != [] {
      WritesKeepNewest(Apply(l, ops[0]), ops[1..]);
    }
  }

  // ----- item boundaries ---------------------------------------------------------------------------------

  function Writes(items: seq<seq<byte>>): seq<Op> { seq(|items|, i requires 0 <= i < |items| => Write(items[i])) }

  lemma {:induction false} WritesAreLogged(l: Log, items: seq<seq<byte>>)
    requires l.Valid()
    ensures Run(l, Writes(items)).written == l.written + Concat(items)
    decreases |items|
  {
    if items == [] {
      assert l.written + Concat(items) == l.written;
    } else {
      assert Writes(items)[1..] == Writes(items[1..]);
      WritesAreLogged(Apply(l, Write(items[0])), items[1..]);
      Reassociate(l.written, items[0], Concat(items[1..]));
    }
  }

  /** The newest items, from number k on, have exactly this many bytes. */
  ghost predicate WholeItems(items: seq<seq<byte>>, k: nat, size: nat) {
    k <= |items| && |Concat(items[k..])| == size
  }

  lemma {:induction false} ConcatTail(items: seq<seq<byte>>, k: nat)
    requires k <= |items|
    ensures |Concat(items[k..])| <= |Concat(items)|
    ensures Concat(items[k..]) == Concat(items)[|Concat(items)| - |Concat(items[k..])|..]
    decreases k
  {
    if k == 0 {
      assert items[0..] == items;
    } else {
      assert items[k..] == items[1..][k - 1..];
      ConcatTail(items[1..], k - 1);
    }
  }

  /**
   After any writes the contents are whole items, the newest ones, if and only if all
   of them fit or some of the newest fill the buffer to the byte.
   */
  lemma BoundariesKept(depth: nat, items: seq<seq<byte>>)
    ensures (exists k: nat :: k <= |items| && Run(Log(depth, [], 0), Writes(items)).Contents() == Concat(items[k..]))
            <==> |Concat(items)| <= depth || exists k :: WholeItems(items, k, depth)
  {
    var l, all := Log(depth, [], 0), Concat(items);
    WritesAreLogged(l, items);
    assert l.written + all == all;
    WritesKeepNewest(l, Writes(items));
    assert Run(l, Writes(items)).Contents() == Newest(depth, all);
    hide Run, Newest, Concat;
    if |all| <= depth {
      NewestAll(depth, all);
      assert items[0..] == items;
    } else {
      if k: nat :| k <= |items| && Newest(depth, all) == Concat(items[k..]) {
        NewestLength(depth, all);
        assert WholeItems(items, k, depth);
      }
      if k :| WholeItems(items, k, depth) {
        NewestWhole(depth, items, k);
      }
    }
  }

  lemma NewestAll(depth: nat, s: seq<byte>)
    requires |s| <= depth
    ensures Newest(depth, s) == s
  {}

  lemma NewestLength(depth: nat, s: seq<byte>)
    ensures |Newest(depth, s)| == Min(depth, |s|)
  {}

  lemma NewestWhole(depth: nat, items: seq<seq<byte>>, k: nat)
    requires WholeItems(items, k, depth)
    ensures k <= |items| && Newest(depth, Concat(items)) == Concat(items[k..])
  {
    hide Concat;
    ConcatTail(items, k);
    var all := Concat(items);
    assert |all| == depth ==> all[0..] == all;
  }

  /** An item of three bytes and one of two behind it in four bytes: one byte of the first is gone, two are kept. */
  lemma CutsAnItem(a: byte, b: byte, c: byte, d: byte, e: byte)
    ensures var items := [[a, b, c], [d, e]];
            var contents := Run(Log(4, [], 0), Writes(items)).Contents();
            contents == [b, c, d, e] && forall k: nat :: k <= |items| ==> contents != Concat(items[k..])
  {
    var l, items := Log(4, [], 0), [[a, b, c], [d, e]];
    WritesAreLogged(l, items);
    assert items[0..] == items && items[1..] == [[d, e]] && items[1..][1..] == [] && items[2..] == [];
    assert Concat(items[2..]) == [];
    assert Concat(items[1..]) == [d, e] + Concat(items[1..][1..]) == [d, e];
    assert Concat(items) == [a, b, c, d, e];
    WritesKeepNewest(l, Writes(items));
    assert [] + Concat(items) == Concat(items);
  }

  // ----- reads -------------------------------------------------------------------------------------------

  /** `parts` are slices of `log` that lie one after the other, from `from` up to `upTo`, perhaps with gaps. */
  ghost predicate InOrder(log: seq<byte>, from: nat, upTo: nat, parts: seq<seq<byte>>)
    decreases |parts|
  {
    if parts == [] then from <= upTo <= |log|
    else exists at: nat :: SliceAt(log, from, at, parts[0]) && InOrder(log, at + |parts[0]|, upTo, parts[1..])
  }

  ghost predicate SliceAt(log: seq<byte>, from: nat, at: nat, part: seq<byte>) {
    from <= at && at + |part| <= |log| && log[at..at + |part|] == part
  }

  lemma {:induction false} RunExtendsLog(l: Log, ops: seq<Op>)
    requires l.Valid() && forall i :: 0 <= i < |ops| ==> !ops[i].Flush?
    ensures l.written <= Run(l, ops).written && l.start <= Run(l, ops).start
    decreases |ops|
  {
    if ops != [] {
      RunExtendsLog(Apply(l, ops[0]), ops[1..]);
    }
  }

  /**
   Between flushes no byte is read twice or out of order: the reads of a run are
   successive slices of the log, and what is still stored lies behind all of them.
   */
  lemma {:induction false} ReadsInOrder(l: Log, ops: seq<Op>)
    requires l.Valid() && forall i :: 0 <= i < |ops| ==> !ops[i].Flush?
    ensures InOrder(Run(l, ops).written, l.start, Run(l, ops).start, Outs(l, ops))
    decreases |ops|
  {
    RunExtendsLog(l, ops);
    if ops != [] {
      var l1, log := Apply(l, ops[0]), Run(l, ops).written;
      ReadsInOrder(l1, ops[1..]);
      RunExtendsLog(l1, ops[1..]);
      var out := Out(l, ops[0]);
      assert Outs(l, ops)[1..] == Outs(l1, ops[1..]);
      OutIsSlice(l, ops[0], log);
      StartEarlier(log, l.start + |out|, l1.start, Run(l, ops).start, Outs(l1, ops[1..]));
      assert Outs(l, ops)[0] == out;
      assert SliceAt(log, l.start, l.start, Outs(l, ops)[0])
          && InOrder(log, l.start + |Outs(l, ops)[0]|, Run(l, ops).start, Outs(l, ops)[1..]);
    }
  }

  lemma OutIsSlice(l: Log, op: Op, log: seq<byte>)
    requires l.Valid() && l.written <= log
    ensures SliceAt(log, l.start, l.start, Out(l, op))
  {}

  lemma StartEarlier(log: seq<byte>, from: nat, from': nat, upTo: nat, parts: seq<seq<byte>>)
    requires InOrder(log, from', upTo, parts) && from <= from'
    ensures InOrder(log, from, upTo, parts)
  {
    if parts != [] {
      var at: nat :| SliceAt(log, from', at, parts[0]) && InOrder(log, at + |parts[0]|, upTo, parts[1..]);
      assert SliceAt(log, from, at, parts[0]);
    }
  }
}
