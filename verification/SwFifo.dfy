/** The software FIFO with items of one byte, as both deframers use it. */
module SwFifo {
  import opened Bytes
  import BoundedQueue
  import Ring

  class Fifo {
    const depth: uint32
    const mem: array<byte>
    var wrIdx: uint32
    var rdIdx: uint32

    /** With this depth limit no index sum below leaves 32 bits. */
    ghost predicate Valid()
      reads this
    {
      depth <= 0x7FFF_FFFF && mem.Length == depth + 1 && wrIdx <= depth && rdIdx <= depth
    }

    ghost function Contents(): (s: seq<byte>)
      reads this, mem
      requires Valid()
      ensures |s| <= depth
    {
      Ring.Stored(mem[..], rdIdx, wrIdx)
    }

    constructor (depth: uint32)
      requires depth <= 0x7FFF_FFFF
      ensures Valid() && fresh(mem) && this.depth == depth && Contents() == []
    {
      this.depth := depth;
      mem := new byte[depth + 1];
      wrIdx, rdIdx := 0, 0;
    }

    /** The `count` macro. */
    function Count(): (n: uint32)
      reads this, mem
      requires Valid()
      ensures n == |Contents()|
    {
      if wrIdx >= rdIdx then wrIdx - rdIdx else (depth - rdIdx) + wrIdx + 1
    }

    /** The `avail` macro. */
    function Avail(): (n: uint32)
      reads this, mem
      requires Valid()
      ensures n == depth - |Contents()|
    {
      depth - Count()
    }

    predicate IsEmpty()
      reads this, mem
      requires Valid()
      ensures IsEmpty() <==> Contents() == []
    {
      wrIdx == rdIdx
    }

    predicate IsFull()
      reads this, mem
      requires Valid()
      ensures IsFull() <==> |Contents()| == depth
    {
      Count() == depth
    }

    method Flush()
      requires Valid()
      modifies this
      ensures Valid() && Contents() == []
    {
      wrIdx := 0;
      rdIdx := 0;
    }

    method CircWrite(data: seq<byte>)
      requires Valid() && |data| <= depth
      modifies mem
      ensures Valid() && mem[..] == Ring.Put(old(mem[..]), wrIdx, data)
    {
      hide Copied, Ring.Put;
      if wrIdx + |data| > depth {
        var numToWrap := depth - wrIdx + 1;
        Ring.PutInTwo(mem[..], wrIdx, data);
        Memcpy(mem, wrIdx, data[..numToWrap]);
        Memcpy(mem, 0, data[numToWrap..]);
      } else {
        Ring.PutInOne(mem[..], wrIdx, data);
        Memcpy(mem, wrIdx, data);
      }
    }

    method CircRead(dst: array<byte>, at: nat, num: uint32)
      requires Valid() && dst != mem && num <= depth && at + num <= dst.Length
      modifies dst
      ensures dst[..] == Copied(old(dst[..]), at, Ring.Take(mem[..], rdIdx, num))
    {
      hide Copied;
      ghost var m := mem[..];
      if rdIdx + num > depth {
        var numToWrap := depth - rdIdx + 1;
        assert mem[rdIdx..] == m[rdIdx..] && mem[..num - numToWrap] == m[..num - numToWrap];
        CopiedTwice(dst[..], at, mem[rdIdx..], mem[..num - numToWrap]);
        Memcpy(dst, at, mem[rdIdx..]);
        Memcpy(dst, at + numToWrap, mem[..num - numToWrap]);
      } else {
        assert mem[rdIdx..rdIdx + num] == m[rdIdx..rdIdx + num];
        Memcpy(dst, at, mem[rdIdx..rdIdx + num]);
      }
    }

    /** All or nothing: 0 and the items appended, or -1 and nothing changed. */
    method Write(items: seq<byte>) returns (ret: int)
      requires Valid()
      modifies this`wrIdx, mem
      ensures Valid()
      ensures ret == if |old(Contents())| + |items| <= depth then 0 else -1
      ensures Contents() == if ret == 0 then old(Contents()) + items else old(Contents())
    {
      if Avail() < |items| {
        return -1;
      }
      Ring.PutAppends(mem[..], rdIdx, wrIdx, items);
      CircWrite(items);
      wrIdx := wrIdx + |items|;
      if wrIdx > depth {
        wrIdx := wrIdx - (depth + 1);
      }
      return 0;
    }

    /** Copies the oldest min(num, count) items out and leaves the FIFO as it was. */
    method Peek(dst: array<byte>, at: nat, num: uint32) returns (n: uint32)
      requires Valid() && dst != mem && at + Min(num, |Contents()|) <= dst.Length
      modifies dst
      ensures n == Min(num, |old(Contents())|) && Contents() == old(Contents())
      ensures dst[..] == old(dst[..])[..at] + Contents()[..n] + old(dst[..])[at + n..]
    {
      var numToRead := Min(num, Count());
      if IsEmpty() {
        assert dst[..] == Copied(dst[..], at, []);
        return 0;
      }
      Ring.TakeIsPrefix(mem[..], rdIdx, wrIdx, numToRead);
      CircRead(dst, at, numToRead);
      return numToRead;
    }

    /**
     Drops the oldest `num` items. The code does not compare `num` with the count:
     with more, up to the depth, the read index passes the write index and old bytes are back.
     */
    method Ack(num: uint32)
      requires Valid()
      modifies this`rdIdx
      ensures num <= |old(Contents())| ==> Valid() && Contents() == old(Contents())[num..]
      ensures |old(Contents())| < num <= depth ==> Valid() && |Contents()| == |old(Contents())| + depth + 1 - num
      ensures rdIdx == (var sum := Wrap32(old(rdIdx) + num); if sum > depth then sum - (depth + 1) else sum)
    {
      hide Ring.Stored, Wrap32;
      if num <= depth {
        Wrap32Same(rdIdx + num);
        if num <= |Ring.Stored(mem[..], rdIdx, wrIdx)| {
          Ring.AdvanceDrops(mem[..], rdIdx, wrIdx, num);
        } else {
          Ring.AdvancePassesWriter(mem[..], rdIdx, wrIdx, num);
        }
      }
      rdIdx := Wrap32(rdIdx + num);
      if rdIdx > depth {
        rdIdx := rdIdx - (depth + 1);
      }
    }

    method Read(dst: array<byte>, at: nat, num: uint32) returns (n: uint32)
      requires Valid() && dst != mem && at + Min(num, |Contents()|) <= dst.Length
      modifies dst, this`rdIdx
      ensures Valid()
      ensures n == Min(num, |old(Contents())|)
      ensures dst[..] == old(dst[..])[..at] + old(Contents())[..n] + old(dst[..])[at + n..]
      ensures Contents() == old(Contents())[n..]
    {
      n := Peek(dst, at, num);
      if n != 0 {
        Ack(n);
      }
    }

    /** The read of one byte, as both deframers use it. */
    method ReadByte(dst: array<byte>, at: nat)
      requires Valid() && dst != mem && at < dst.Length && Contents() != []
      modifies dst, this`rdIdx
      ensures Valid() && old(Contents()) == [dst[at]] + Contents()
      ensures dst[..at] == old(dst[..at])
    {
      var n := Read(dst, at, 1);
    }
  }

  /** Any run of operations on the FIFO is observed exactly as a run of the bounded queue. */
  method Replay(fifo: Fifo, ops: seq<BoundedQueue.Op>, ghost q: BoundedQueue.Queue)
    returns (replies: seq<BoundedQueue.Reply>)
    requires fifo.Valid() && q.depth == fifo.depth && q.items == fifo.Contents()
    requires BoundedQueue.LegalRun(q, ops)
    modifies fifo, fifo.mem
    ensures fifo.Valid()
    ensures fifo.Contents() == BoundedQueue.Run(q, ops).items
    ensures replies == BoundedQueue.Answers(q, ops)
    decreases |ops|
  {
    if ops == [] {
      return [];
    }
    var reply := Perform(fifo, ops[0], q);
    var rest := Replay(fifo, ops[1..], BoundedQueue.Apply(q, ops[0]));
    return [reply] + rest;
  }

  method Perform(fifo: Fifo, op: BoundedQueue.Op, ghost q: BoundedQueue.Queue)
    returns (reply: BoundedQueue.Reply)
    requires fifo.Valid() && q.depth == fifo.depth && q.items == fifo.Contents()
    requires BoundedQueue.Legal(q, op)
    modifies fifo, fifo.mem
    ensures fifo.Valid()
    ensures fifo.Contents() == BoundedQueue.Apply(q, op).items
    ensures reply == BoundedQueue.Answer(q, op)
  {
    match op
    case Write(items) =>
      var ret := fifo.Write(items);
      reply := BoundedQueue.Reply(ret, []);
    case Peek(num) =>
      var dst := new byte[Min(num, fifo.Count())];
      var n := fifo.Peek(dst, 0, num);
      reply := BoundedQueue.Reply(n, dst[..n]);
    case Ack(num) =>
      fifo.Ack(num);
      reply := BoundedQueue.Reply(0, []);
    case Read(num) =>
      var dst := new byte[Min(num, fifo.Count())];
      var n := fifo.Read(dst, 0, num);
      reply := BoundedQueue.Reply(n, dst[..n]);
    case Flush =>
      fifo.Flush();
      reply := BoundedQueue.Reply(0, []);
  }
}
