/**
 The index arithmetic that SwFifo and CircBuffer share: `depth` bytes are kept
 in `depth + 1` slots, so that equal indices mean empty.
 */
module Ring {
  import opened Bytes

  predicate Indices(mem: seq<byte>, rd: nat, wr: nat) {
    rd < |mem| && wr < |mem|
  }

  /** The bytes held, oldest first. */
  function Stored(mem: seq<byte>, rd: nat, wr: nat): seq<byte>
    requires Indices(mem, rd, wr)
  {
    if rd <= wr then mem[rd..wr] else mem[rd..] + mem[..wr]
  }

  /** The index macros: one conditional subtraction, not a modulo. */
  function Advance(depth: nat, i: nat, n: nat): int {
    if i + n > depth then i + n - (depth + 1) else i + n
  }

  /** The memory after `data` was copied in at `wr` in one or two pieces. */
  function Put(mem: seq<byte>, wr: nat, data: seq<byte>): (r: seq<byte>)
    requires wr < |mem| && |data| <= |mem|
    ensures |r| == |mem|
  {
    if wr + |data| >= |mem| then
      var n := |mem| - wr;
      data[n..] + mem[|data| - n..wr] + data[..n]
    else
      mem[..wr] + data + mem[wr + |data|..]
  }

  /** What one or two copies out of the memory at `rd` yield. */
  function Take(mem: seq<byte>, rd: nat, num: nat): seq<byte>
    requires rd < |mem| && num < |mem|
  {
    if rd + num >= |mem| then mem[rd..] + mem[..rd + num - |mem|] else mem[rd..rd + num]
  }

  lemma PutInOne(mem: seq<byte>, wr: nat, data: seq<byte>)
    requires wr + |data| < |mem|
    ensures Put(mem, wr, data) == Copied(mem, wr, data)
  {}

  lemma PutInTwo(mem: seq<byte>, wr: nat, data: seq<byte>)
    requires wr < |mem| && |data| <= |mem| && wr + |data| >= |mem|
    ensures var n := |mem| - wr;
            Put(mem, wr, data) == Copied(Copied(mem, wr, data[..n]), 0, data[n..])
  {}

  lemma StoredLength(mem: seq<byte>, rd: nat, wr: nat)
    requires Indices(mem, rd, wr)
    ensures |Stored(mem, rd, wr)| == if rd <= wr then wr - rd else wr + |mem| - rd
  {}

  /** Slot by slot: position k of the contents is slot `rd + k` modulo the ring size. */
  lemma StoredAt(mem: seq<byte>, rd: nat, wr: nat, k: nat)
    requires Indices(mem, rd, wr) && k < |Stored(mem, rd, wr)|
    ensures 0 <= Advance(|mem| - 1, rd, k) < |mem|
    ensures Stored(mem, rd, wr)[k] == mem[Advance(|mem| - 1, rd, k)]
  {}

  lemma PutAt(mem: seq<byte>, wr: nat, data: seq<byte>, i: nat)
    requires wr < |mem| && |data| <= |mem| && i < |mem|
    ensures var k := if wr <= i then i - wr else i + |mem| - wr;
            Put(mem, wr, data)[i] == if k < |data| then data[k] else mem[i]
  {}

  /** Writing into free space appends to the contents. */
  lemma PutAppends(mem: seq<byte>, rd: nat, wr: nat, data: seq<byte>)
    requires Indices(mem, rd, wr)
    requires |Stored(mem, rd, wr)| + |data| < |mem|
    ensures 0 <= Advance(|mem| - 1, wr, |data|) < |mem|
    ensures Stored(Put(mem, wr, data), rd, Advance(|mem| - 1, wr, |data|)) == Stored(mem, rd, wr) + data
  {
    hide Stored, Put;
    var wr' := Advance(|mem| - 1, wr, |data|);
    var after := Put(mem, wr, data);
    StoredLength(mem, rd, wr);
    StoredLength(after, rd, wr');
    forall k | 0 <= k < |Stored(after, rd, wr')|
      ensures Stored(after, rd, wr')[k] == (Stored(mem, rd, wr) + data)[k]
    {
      PutAppendsAt(mem, rd, wr, data, k);
    }
  }

  lemma PutAppendsAt(mem: seq<byte>, rd: nat, wr: nat, data: seq<byte>, k: nat)
    requires Indices(mem, rd, wr)
    requires |Stored(mem, rd, wr)| + |data| < |mem| && k < |Stored(mem, rd, wr)| + |data|
    ensures var wr' := Advance(|mem| - 1, wr, |data|);
            && 0 <= wr' < |mem| && k < |Stored(Put(mem, wr, data), rd, wr')|
            && Stored(Put(mem, wr, data), rd, wr')[k]
               == if k < |Stored(mem, rd, wr)| then Stored(mem, rd, wr)[k] else data[k - |Stored(mem, rd, wr)|]
  {
    hide Stored, Put;
    var wr' := Advance(|mem| - 1, wr, |data|);
    StoredLength(mem, rd, wr);
    StoredLength(Put(mem, wr, data), rd, wr');
    StoredAt(Put(mem, wr, data), rd, wr', k);
    PutAt(mem, wr, data, Advance(|mem| - 1, rd, k));
    if k < |Stored(mem, rd, wr)| {
      StoredAt(mem, rd, wr, k);
    }
  }

  /** As many bytes as there are slots: the first of them is lost, the others fill the ring. */
  lemma PutFills(mem: seq<byte>, rd: nat, wr: nat, data: seq<byte>)
    requires Indices(mem, rd, wr) && |data| == |mem|
    ensures var rd' := Advance(|mem| - 1, rd, |Stored(mem, rd, wr)| + 1);
            && Advance(|mem| - 1, wr, |data|) == wr && 0 <= rd' < |mem|
            && Stored(Put(mem, wr, data), rd', wr) == data[1..]
  {
    hide Stored, Put;
    PutWhole(mem, wr, data);
    FilledStored(data, wr, if wr + 1 < |mem| then wr + 1 else 0);
    OldestBehindNewest(mem, rd, wr);
  }

  lemma PutWhole(mem: seq<byte>, wr: nat, data: seq<byte>)
    requires wr < |mem| == |data|
    ensures Put(mem, wr, data) == data[|mem| - wr..] + data[..|mem| - wr]
  {
    assert mem[|data| - (|mem| - wr)..wr] == [];
  }

  /** In a ring that is to be filled the reader goes to the slot behind the writer. */
  lemma OldestBehindNewest(mem: seq<byte>, rd: nat, wr: nat)
    requires Indices(mem, rd, wr)
    ensures Advance(|mem| - 1, rd, |Stored(mem, rd, wr)| + 1) == if wr + 1 < |mem| then wr + 1 else 0
  {}

  lemma FilledStored(data: seq<byte>, wr: nat, rd: nat)
    requires wr < |data| && rd == if wr + 1 < |data| then wr + 1 else 0
    ensures var n := |data| - wr; Stored(data[n..] + data[..n], rd, wr) == data[1..]
  {
    var n := |data| - wr;
    var after := data[n..] + data[..n];
    if wr + 1 < |data| {
      assert after[wr + 1..] == data[1..n];
      assert after[..wr] == data[n..];
      assert data[1..n] + data[n..] == data[1..];
    } else {
      assert after[0..wr] == data[n..];
    }
  }

  /** One conditional subtraction brings every write index back into the ring for at most depth + 1 bytes, no more. */
  lemma AdvanceStaysInRing(depth: nat, n: nat)
    ensures (forall wr: nat :: wr <= depth ==> Advance(depth, wr, n) <= depth) <==> n <= depth + 1
  {
    if n > depth + 1 {
      assert Advance(depth, depth, n) > depth;
    }
  }

  /** Advancing the read index drops the oldest bytes. */
  lemma AdvanceDrops(mem: seq<byte>, rd: nat, wr: nat, num: nat)
    requires Indices(mem, rd, wr) && num <= |Stored(mem, rd, wr)|
    ensures 0 <= Advance(|mem| - 1, rd, num) < |mem|
    ensures Stored(mem, Advance(|mem| - 1, rd, num), wr) == Stored(mem, rd, wr)[num..]
  {}

  /** A read index advanced past the write index makes a ring of bytes, less the excess, look stored again. */
  lemma AdvancePassesWriter(mem: seq<byte>, rd: nat, wr: nat, num: nat)
    requires Indices(mem, rd, wr) && |Stored(mem, rd, wr)| < num < |mem|
    ensures 0 <= Advance(|mem| - 1, rd, num) < |mem|
    ensures |Stored(mem, Advance(|mem| - 1, rd, num), wr)| == |Stored(mem, rd, wr)| + |mem| - num
  {}

  /** A wrap-split copy out yields the oldest bytes. */
  lemma TakeIsPrefix(mem: seq<byte>, rd: nat, wr: nat, num: nat)
    requires Indices(mem, rd, wr) && num <= |Stored(mem, rd, wr)|
    ensures Take(mem, rd, num) == Stored(mem, rd, wr)[..num]
  {}
}
