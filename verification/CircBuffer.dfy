/** The overwriting ring buffer, each call taken as atomic. */
module CircBuffer {
  import opened Bytes
  import Ring
  import Window

  class Buffer {
    const bufSize: uint32
    const buf: array<byte>
    var wrIdx: int32
    var rdIdx: int32

    /** With this depth limit no index sum below leaves 31 bits. */
    ghost predicate Valid()
      reads this
    {
      bufSize <= 0x3FFF_FFFF && buf.Length == bufSize + 1 && 0 <= wrIdx <= bufSize && 0 <= rdIdx <= bufSize
    }

    ghost function Contents(): (s: seq<byte>)
      reads this, buf
      requires Valid()
      ensures |s| <= bufSize
    {
      Ring.Stored(buf[..], rdIdx, wrIdx)
    }

    constructor (depth: uint32)
      requires depth <= 0x3FFF_FFFF
      ensures Valid() && fresh(buf) && bufSize == depth && Contents() == []
    {
      buf := new byte[depth + 1];
      bufSize := depth;
      wrIdx, rdIdx := 0, 0;
    }

    /** The `count` macro. */
    function Count(): (n: uint32)
      reads this, buf
      requires Valid()
      ensures n == |Contents()|
    {
      if wrIdx >= rdIdx then wrIdx - rdIdx else (bufSize - rdIdx) + wrIdx + 1
    }

    /** The `avail` macro. */
    function Avail(): (n: uint32)
      reads this, buf
      requires Valid()
      ensures n == bufSize - |Contents()|
    {
      bufSize - Count()
    }

    method Flush()
      requires Valid()
      modifies this
      ensures Valid() && Contents() == []
    {
      wrIdx := 0;
      rdIdx := 0;
    }

    method IncRdIdx(n: nat)
      requires Valid() && n <= |Contents()| + 1
      modifies this`rdIdx
      ensures Valid() && rdIdx == Ring.Advance(bufSize, old(rdIdx), n)
    {
      rdIdx := rdIdx + n;
      if rdIdx > bufSize {
        rdIdx := rdIdx - (bufSize + 1);
      }
    }

    method CircWrite(data: seq<byte>)
      requires Valid() && |data| <= bufSize + 1
      modifies buf
      ensures buf[..] == Ring.Put(old(buf[..]), wrIdx, data)
    {
      hide Copied, Ring.Put;
      if wrIdx + |data| > bufSize {
        var numToWrap := bufSize - wrIdx + 1;
        Ring.PutInTwo(buf[..], wrIdx, data);
        Memcpy(buf, wrIdx, data[..numToWrap]);
        if |data| - numToWrap > 0 {
          Memcpy(buf, 0, data[numToWrap..]);
        } else {
          assert data[numToWrap..] == [];
          CopiedNothing(buf[..], 0);
        }
      } else {
        Ring.PutInOne(buf[..], wrIdx, data);
        Memcpy(buf, wrIdx, data);
      }
    }

    method CircRead(dst: array<byte>, num: nat)
      requires Valid() && dst != buf && num <= bufSize && num <= dst.Length
      modifies dst
      ensures dst[..] == Copied(old(dst[..]), 0, Ring.Take(buf[..], rdIdx, num))
    {
      hide Copied;
      ghost var m := buf[..];
      if rdIdx + num > bufSize {
        var numToWrap := bufSize - rdIdx + 1;
        assert buf[rdIdx..] == m[rdIdx..] && buf[..num - numToWrap] == m[..num - numToWrap];
        CopiedTwice(dst[..], 0, buf[rdIdx..], buf[..num - numToWrap]);
        Memcpy(dst, 0, buf[rdIdx..]);
        Memcpy(dst, numToWrap, buf[..num - numToWrap]);
      } else {
        assert buf[rdIdx..rdIdx + num] == m[rdIdx..rdIdx + num];
        Memcpy(dst, 0, buf[rdIdx..rdIdx + num]);
      }
    }

    /**
     Keeps the newest bytes: what does not fit pushes out the oldest. One byte more
     than the depth still works; with two more an index can leave the ring.
     */
    method Write(data: seq<byte>) returns (ret: int)
      requires Valid() && |data| <= bufSize + 1
      modifies this, buf
      ensures Valid() && ret == 0
      ensures Contents() == Window.Newest(bufSize, old(Contents()) + data)
    {
      hide Ring.Put, Ring.Stored;
      ghost var mem, rd, wr, was := buf[..], rdIdx, wrIdx, Contents();
      var availSpace := Avail();
      if |data| > availSpace {
        IncRdIdx(|data| - availSpace);
      }
      MakesRoom(mem, rd, wr, data);
      CircWrite(data);
      wrIdx := wrIdx + |data|;
      if wrIdx > bufSize {
        wrIdx := wrIdx - (bufSize + 1);
      }
      return 0;
    }

    /** Takes min(reqSize, count) bytes from the oldest end. */
    method Read(dst: array<byte>, reqSize: uint32) returns (ret: int)
      requires Valid() && dst != buf && Min(reqSize, |Contents()|) <= dst.Length
      modifies dst, this`rdIdx
      ensures Valid()
      ensures ret == Min(reqSize, |old(Contents())|)
      ensures dst[..] == old(Contents())[..ret] + old(dst[..])[ret..]
      ensures Contents() == old(Contents())[ret..]
    {
      var count := Count();
      var numToRead := Min(reqSize, count);
      if count == 0 {
        assert dst[..] == Copied(dst[..], 0, []);
        return 0;
      }
      Ring.TakeIsPrefix(buf[..], rdIdx, wrIdx, numToRead);
      CircRead(dst, numToRead);
      Ring.AdvanceDrops(buf[..], rdIdx, wrIdx, numToRead);
      IncRdIdx(numToRead);
      return numToRead;
    }
  }

  /** Both index updates and the copy together, on values. */
  lemma MakesRoom(mem: seq<byte>, rd: nat, wr: nat, data: seq<byte>)
    requires Ring.Indices(mem, rd, wr) && |data| <= |mem|
    ensures var depth, was := |mem| - 1, Ring.Stored(mem, rd, wr);
            var rd' := if |data| > depth - |was| then Ring.Advance(depth, rd, |data| - (depth - |was|)) else rd;
            var wr' := Ring.Advance(depth, wr, |data|);
            && 0 <= rd' <= depth && 0 <= wr' <= depth
            && Ring.Stored(Ring.Put(mem, wr, data), rd', wr') == Window.Newest(depth, was + data)
  {
    var depth, was := |mem| - 1, Ring.Stored(mem, rd, wr);
    StoredFits(mem, rd, wr);
    hide Ring.Put, Ring.Stored, Ring.Advance, Window.Newest;
    if |data| == |mem| {
      Ring.PutFills(mem, rd, wr, data);
      NewestOverflow(depth, was, data);
    } else if |data| > depth - |was| {
      PushesOut(mem, rd, wr, data, |data| - (depth - |was|));
    } else {
      Ring.PutAppends(mem, rd, wr, data);
      Window.NewestAll(depth, was + data);
    }
  }

  /** The case in which n bytes are pushed out. */
  lemma PushesOut(mem: seq<byte>, rd: nat, wr: nat, data: seq<byte>, n: nat)
    requires Ring.Indices(mem, rd, wr) && |data| < |mem|
    requires |Ring.Stored(mem, rd, wr)| + |data| == |mem| - 1 + n
    ensures var rd', wr' := Ring.Advance(|mem| - 1, rd, n), Ring.Advance(|mem| - 1, wr, |data|);
            && 0 <= rd' < |mem| && 0 <= wr' < |mem|
            && Ring.Stored(Ring.Put(mem, wr, data), rd', wr')
               == Window.Newest(|mem| - 1, Ring.Stored(mem, rd, wr) + data)
  {
    hide Ring.Put, Ring.Stored, Ring.Advance, Window.Newest;
    var was := Ring.Stored(mem, rd, wr);
    Ring.AdvanceDrops(mem, rd, wr, n);
    assert |was[n..]| == |was| - n;
    Ring.PutAppends(mem, Ring.Advance(|mem| - 1, rd, n), wr, data);
    NewestDrops(|mem| - 1, was, data, n);
  }

  lemma NewestOverflow(depth: nat, a: seq<byte>, b: seq<byte>)
    requires |b| == depth + 1
    ensures Window.Newest(depth, a + b) == b[1..]
  {}

  lemma NewestDrops(depth: nat, a: seq<byte>, b: seq<byte>, n: nat)
    requires n <= |a| && |a| + |b| == depth + n
    ensures Window.Newest(depth, a + b) == a[n..] + b
  {}

  lemma StoredFits(mem: seq<byte>, rd: nat, wr: nat)
    requires Ring.Indices(mem, rd, wr)
    ensures |Ring.Stored(mem, rd, wr)| < |mem|
  {}

  /** Writes of at most depth + 1 bytes and reads of 32-bit sizes, as callers make them. */
  predicate Callable(depth: nat, op: Window.Op) {
    match op
    case Write(data) => |data| <= depth + 1
    case Read(num) => num < 0x1_0000_0000
    case Flush => true
  }

  /** Any run of calls keeps and hands out exactly what the window on the log holds. */
  method Replay(circ: Buffer, ops: seq<Window.Op>, ghost l: Window.Log) returns (outs: seq<seq<byte>>)
    requires circ.Valid() && l.Valid() && l.depth == circ.bufSize && circ.Contents() == l.Contents()
    requires forall i :: 0 <= i < |ops| ==> Callable(circ.bufSize, ops[i])
    modifies circ, circ.buf
    ensures circ.Valid()
    ensures circ.Contents() == Window.Run(l, ops).Contents()
    ensures outs == Window.Outs(l, ops)
    decreases |ops|
  {
    if ops == [] {
      return [];
    }
    var out := Perform(circ, ops[0], l);
    var rest := Replay(circ, ops[1..], Window.Apply(l, ops[0]));
    return [out] + rest;
  }

  method Perform(circ: Buffer, op: Window.Op, ghost l: Window.Log) returns (out: seq<byte>)
    requires circ.Valid() && l.Valid() && l.depth == circ.bufSize && circ.Contents() == l.Contents()
    requires Callable(circ.bufSize, op)
    modifies circ, circ.buf
    ensures circ.Valid()
    ensures circ.Contents() == Window.Apply(l, op).Contents()
    ensures out == Window.Out(l, op)
  {
    out := [];
    match op
    case Write(data) =>
      Window.WriteKeepsNewest(l, data);
      var ret := circ.Write(data);
    case Read(num) =>
      var dst := new byte[Min(num, circ.Count())];
      var n := circ.Read(dst, num);
      out := dst[..n];
    case Flush =>
      circ.Flush();
  }
}
