/**
 Consistent Overhead Byte Stuffing on values. A message is cut into blocks of at
 most 254 bytes; on the wire each block is preceded by its code byte, one more
 than its length. Between two blocks stands one zero of the message, unless the
 first of them is full (code byte 255).
 */
module CobsBlocks {
  import opened Bytes

  const FULL := 254
  const ZERO: byte := 0x00

  type Block = b: seq<byte> | |b| <= FULL

  /** The message that a block list stands for. */
  function Join(blocks: seq<Block>): seq<byte> {
    if blocks == [] then []
    else if |blocks| == 1 then blocks[0]
    else blocks[0] + Gap(blocks[0]) + Join(blocks[1..])
  }

  function Gap(b: Block): seq<byte> { if |b| == FULL then [] else [ZERO] }

  function CodeByte(b: Block): byte { (|b| + 1) as byte }

  function Serialize(blocks: seq<Block>): seq<byte> {
    if blocks == [] then [] else [CodeByte(blocks[0])] + blocks[0] + Serialize(blocks[1..])
  }

  // ----- the cut made by this repository's encoders --------------------------------------------

  /** The open block ends before `b`: as the 255th count, or because `b` is a zero. */
  predicate Closes(cur: Block, b: byte) { |cur| == FULL || b == 0 }

  /** The open block after `b`: a byte that comes as the 255th count is data, even a zero. */
  function Next(cur: Block, b: byte): Block {
    if |cur| == FULL then [b] else if b == 0 then [] else cur + [b]
  }

  /** The cut of `cur + m` when `cur` is already in the open block. */
  function Split(cur: Block, m: seq<byte>): seq<Block>
    decreases |m|
  {
    if m == [] then [cur]
    else if Closes(cur, m[0]) then [cur] + Split(Next(cur, m[0]), m[1..])
    else Split(Next(cur, m[0]), m[1..])
  }

  function Encode(m: seq<byte>): seq<byte> { Serialize(Split([], m)) }

  // ----- the cut of the 1999 paper -----------------------------------------------------------------

  /** A full block is closed at once, so the zero after 254 other bytes is never data. */
  function TextbookSplit(cur: Block, m: seq<byte>): seq<Block>
    decreases |m|, |cur|
  {
    if |cur| == FULL then [cur] + TextbookSplit([], m)
    else if m == [] then [cur]
    else if m[0] == 0 then [cur] + TextbookSplit([], m[1..])
    else TextbookSplit(cur + [m[0]], m[1..])
  }

  function TextbookEncode(m: seq<byte>): seq<byte> { Serialize(TextbookSplit([], m)) }

  // ----- the chain of code bytes ---------------------------------------------------------------------

  /** A zero code byte is walked like a one. */
  function Stride(code: byte): nat { Max(code as int, 1) }

  /** The chain of code bytes lands exactly on the end. */
  predicate WellFormed(enc: seq<byte>) {
    enc != [] && var n := Stride(enc[0]); n <= |enc| && (n == |enc| || WellFormed(enc[n..]))
  }

  function Parse(enc: seq<byte>): (blocks: seq<Block>)
    requires WellFormed(enc)
    ensures blocks != []
  {
    var n := Stride(enc[0]);
    if n == |enc| then [enc[1..n]] else [enc[1..n]] + Parse(enc[n..])
  }

  function Decoded(enc: seq<byte>): seq<byte>
    requires WellFormed(enc)
  {
    Join(Parse(enc))
  }

  lemma JoinOne(b: Block)
    ensures Join([b]) == b
  {}

  lemma JoinCons(b: Block, rest: seq<Block>)
    requires rest != []
    ensures Join([b] + rest) == if |b| == FULL then b + Join(rest) else b + ([ZERO] + Join(rest))
  {}

  // ----- laws ------------------------------------------------------------------------------------------

  /** The chain walk recovers every block list, so any COBS encoder's output can be read. */
  lemma {:induction false} ParseInvertsSerialize(blocks: seq<Block>)
    requires blocks != []
    ensures WellFormed(Serialize(blocks)) && Parse(Serialize(blocks)) == blocks
  {
    var enc := Serialize(blocks);
    var rest := Serialize(blocks[1..]);
    var n := |blocks[0]| + 1;
    assert enc[n..] == rest && enc[1..n] == blocks[0];
    if |blocks| > 1 {
      ParseInvertsSerialize(blocks[1..]);
      assert rest != [];
    } else {
      assert blocks == [blocks[0]];
    }
  }

  lemma {:induction false} JoinSplit(cur: Block, m: seq<byte>)
    ensures Split(cur, m) != [] && Join(Split(cur, m)) == cur + m
    decreases |m|
  {
    if m != [] {
      assert m == [m[0]] + m[1..];
      var next := Next(cur, m[0]);
      JoinSplit(next, m[1..]);
      if Closes(cur, m[0]) {
        assert Split(cur, m)[1..] == Split(next, m[1..]);
      }
    }
  }

  lemma {:induction false} JoinTextbookSplit(cur: Block, m: seq<byte>)
    ensures TextbookSplit(cur, m) != [] && Join(TextbookSplit(cur, m)) == cur + m
    decreases |m|, |cur|
  {
    if |cur| == FULL {
      JoinTextbookSplit([], m);
      assert TextbookSplit(cur, m)[1..] == TextbookSplit([], m);
    } else if m != [] {
      assert m == [m[0]] + m[1..];
      var next: Block := if m[0] == 0 then [] else cur + [m[0]];
      JoinTextbookSplit(next, m[1..]);
      if m[0] == 0 {
        assert TextbookSplit(cur, m)[1..] == TextbookSplit(next, m[1..]);
      }
    }
  }

  /** Every byte string survives the round trip through this repository's encoder. */
  lemma RoundTrip(m: seq<byte>)
    ensures WellFormed(Encode(m)) && Decoded(Encode(m)) == m
  {
    JoinSplit([], m);
    ParseInvertsSerialize(Split([], m));
    assert [] + m == m;
  }

  /** The decoder reads the paper's encoder too, although the two cuts differ. */
  lemma TextbookRoundTrip(m: seq<byte>)
    ensures WellFormed(TextbookEncode(m)) && Decoded(TextbookEncode(m)) == m
  {
    JoinTextbookSplit([], m);
    ParseInvertsSerialize(TextbookSplit([], m));
    assert [] + m == m;
  }

  // ----- the bytes on the wire -------------------------------------------------------------------------

  lemma {:induction false} SplitRun(cur: Block, a: seq<byte>, rest: seq<byte>)
    requires 0 !in a && |cur| + |a| <= 254
    ensures Split(cur, a + rest) == Split(cur + a, rest)
    decreases |a|
  {
    if a == [] {
      assert a + rest == rest && cur + a == cur;
    } else {
      assert (a + rest)[1..] == a[1..] + rest;
      SplitRun(cur + [a[0]], a[1..], rest);
      assert cur + [a[0]] + a[1..] == cur + a;
    }
  }

  lemma SerializeCons(b: Block, rest: seq<Block>)
    ensures Serialize([b] + rest) == [(|b| + 1) as byte] + b + Serialize(rest)
  {
    assert ([b] + rest)[1..] == rest;
  }

  /** At most 254 bytes without a zero: one block. */
  lemma EncodeShort(m: seq<byte>)
    requires 0 !in m && |m| <= 254
    ensures Encode(m) == [(|m| + 1) as byte] + m
  {
    SplitRun([], m, []);
    assert [] + m == m && m + [] == m;
    SerializeCons(m, []);
    assert [m] + [] == [m];
  }

  /** A zero behind fewer than 254 other bytes: their block, and then the encoding of what follows the zero. */
  lemma EncodeToZero(a: seq<byte>, b: seq<byte>)
    requires 0 !in a && |a| < 254
    ensures Encode(a + [0] + b) == [(|a| + 1) as byte] + a + Encode(b)
  {
    assert a + [0] + b == a + ([0] + b) && [] + a == a;
    SplitRun([], a, [0] + b);
    assert ([0] + b)[1..] == b;
    SerializeCons(a, Split([], b));
  }

  lemma OpensWith(x: byte, b: seq<byte>)
    requires x != 0
    ensures Encode([x] + b) == Serialize(Split([x], b))
  {
    assert ([x] + b)[1..] == b && [] + [x] == [x];
  }

  lemma FullBlockFirst(a: seq<byte>, x: byte, b: seq<byte>)
    requires 0 !in a && |a| == 254
    ensures Encode(a + ([x] + b)) == [255] + a + Serialize(Split([x], b))
  {
    assert ([x] + b)[1..] == b && [] + a == a;
    SplitRun([], a, [x] + b);
    SerializeCons(a, Split([x], b));
  }

  /** 254 bytes without a zero and another one: a full block, and then the encoding of what follows it. */
  lemma EncodeFull(a: seq<byte>, b: seq<byte>)
    requires 0 !in a && |a| == 254 && b != [] && b[0] != 0
    ensures Encode(a + b) == [255] + a + Encode(b)
  {
    assert b == [b[0]] + b[1..];
    FullBlockFirst(a, b[0], b[1..]);
    OpensWith(b[0], b[1..]);
  }

  /**
   A zero behind 254 other bytes: a full block, and then what would follow for any other
   byte x in place of the zero, with a zero for x as the first byte of data.
   */
  lemma EncodeFullThenZero(a: seq<byte>, x: byte, b: seq<byte>)
    requires 0 !in a && |a| == 254 && x != 0
    ensures var e := Encode([x] + b); |e| > 1 && e[1] == x && Encode(a + [0] + b) == [255] + a + e[1 := 0]
  {
    hide Split, Serialize, Encode;
    Reassociate(a, [0], b);
    FullBlockFirst(a, 0, b);
    OpensWith(x, b);
    assert [0] + [] == [0] && [x] + [] == [x];
    var t, rest := SplitFirst(0, x, [], b);
    SerializeCons([0] + t, rest);
    SerializeCons([x] + t, rest);
    var n := [(|t| + 2) as byte];
    assert (n + ([x] + t) + Serialize(rest))[1 := 0] == n + ([0] + t) + Serialize(rest);
  }

  /** The first byte of the open block makes no difference to the cut. */
  lemma {:induction false} SplitFirst(x: byte, y: byte, c: seq<byte>, b: seq<byte>)
    returns (t: seq<byte>, rest: seq<Block>)
    requires |c| < 254
    ensures |t| < 254
    ensures Split([x] + c, b) == [[x] + t] + rest && Split([y] + c, b) == [[y] + t] + rest
    decreases |b|
  {
    if b == [] {
      t, rest := c, [];
    } else if |c| == 253 || b[0] == 0 {
      t, rest := c, Split(Next([x] + c, b[0]), b[1..]);
    } else {
      assert [x] + c + [b[0]] == [x] + (c + [b[0]]) && [y] + c + [b[0]] == [y] + (c + [b[0]]);
      t, rest := SplitFirst(x, y, c + [b[0]], b[1..]);
    }
  }

  /** One block, read to its end. */
  lemma DecodeBlock(c: byte, d: seq<byte>)
    requires |d| == if c == 0 then 0 else c as int - 1
    ensures WellFormed([c] + d) && Decoded([c] + d) == d
  {
    var enc := [c] + d;
    assert enc[1..|enc|] == d;
    JoinOne(d);
  }

  /** A block before others: its data, a zero unless its code byte is 255, and the meaning of the rest. */
  lemma DecodeBefore(c: byte, d: seq<byte>, rest: seq<byte>)
    requires |d| == (if c == 0 then 0 else c as int - 1) && rest != []
    ensures WellFormed([c] + d + rest) <==> WellFormed(rest)
    ensures WellFormed(rest) ==> Decoded([c] + d + rest) == d + (if c == 255 then [] else [0]) + Decoded(rest)
  {
    var enc := [c] + d + rest;
    var n := |d| + 1;
    assert enc[1..n] == d && enc[n..] == rest;
    if WellFormed(rest) {
      JoinCons(d, Parse(rest));
      assert d + [] == d;
      Reassociate(d, [0], Join(Parse(rest)));
    }
  }

  /** No code byte, or one that announces more than there is. */
  lemma DecodeCutOff(c: byte, d: seq<byte>)
    requires |d| < c as int - 1
    ensures !WellFormed([]) && !WellFormed([c] + d)
  {}

  // ----- where zeros can appear ----------------------------------------------------------------------

  /** At `i` stands a zero, and the zero-free run before it is `k` bytes long and a positive multiple of 254. */
  predicate FullRunBefore(m: seq<byte>, i: int, k: int) {
    && 0 < k <= i < |m| && k % FULL == 0 && m[i] == 0
    && (forall j :: i - k <= j < i ==> m[j] != 0)
    && (i == k || m[i - k - 1] == 0)
  }

  predicate HasFullRun(m: seq<byte>) {
    exists i, k | 0 <= i < |m| && 0 <= k <= |m| :: FullRunBefore(m, i, k)
  }

  ghost predicate HasZero(blocks: seq<Block>) {
    exists b :: b in blocks && ZERO in b
  }

  lemma HasZeroCons(b: Block, rest: seq<Block>)
    ensures HasZero([b] + rest) <==> ZERO in b || HasZero(rest)
  {}

  lemma {:induction false} ZeroInSerialized(blocks: seq<Block>)
    ensures ZERO in Serialize(blocks) <==> HasZero(blocks)
  {
    if blocks != [] {
      ZeroInSerialized(blocks[1..]);
      HasZeroCons(blocks[0], blocks[1..]);
      assert blocks == [blocks[0]] + blocks[1..];
    }
  }

  /** A zero that closes a short block leaves the question to the rest. */
  lemma FullRunAfterShortBlock(cur: Block, rest: seq<byte>)
    requires ZERO !in cur && |cur| < FULL
    ensures HasFullRun(cur + [0] + rest) <==> HasFullRun(rest)
  {
    var m := cur + [0] + rest;
    var d := |cur| + 1;
    assert rest == m[d..];
    if i, k :| 0 <= i < |m| && 0 <= k <= |m| && FullRunBefore(m, i, k) {
      assert m[|cur|] == 0;
      assert i >= d;
      assert i - k >= d;
      assert FullRunBefore(rest, i - d, k);
    }
    if i, k :| 0 <= i < |rest| && 0 <= k <= |rest| && FullRunBefore(rest, i, k) {
      assert m[|cur|] == 0;
      assert FullRunBefore(m, i + d, k);
    }
  }

  /** A full block followed by another non-zero byte shortens the run by 254. */
  lemma FullRunAfterFullBlock(cur: Block, rest: seq<byte>)
    requires ZERO !in cur && |cur| == FULL && rest != [] && rest[0] != 0
    ensures HasFullRun(cur + rest) <==> HasFullRun(rest)
  {
    var m := cur + rest;
    assert rest == m[FULL..];
    if i, k :| 0 <= i < |m| && 0 <= k <= |m| && FullRunBefore(m, i, k) {
      assert i > FULL;
      if i == k {
        assert FullRunBefore(rest, i - FULL, k - FULL);
      } else {
        assert i - k - 1 >= FULL;
        assert FullRunBefore(rest, i - FULL, k);
      }
    }
    if i, k :| 0 <= i < |rest| && 0 <= k <= |rest| && FullRunBefore(rest, i, k) {
      if i == k {
        assert FullRunBefore(m, i + FULL, k + FULL);
      } else {
        assert FullRunBefore(m, i + FULL, k);
      }
    }
  }

  /** A zero that arrives as the 255th count becomes data of the next block. */
  lemma ZeroAtCount255(cur: Block, m: seq<byte>)
    requires ZERO !in cur && |cur| == FULL && m != [] && m[0] == 0
    ensures HasZero(Split(cur, m)) && HasFullRun(cur + m)
  {
    assert FullRunBefore(cur + m, FULL, FULL);
    FirstBlockKeepsCur([m[0]], m[1..]);
    var b := Split([m[0]], m[1..])[0];
    assert b[0] == 0 && b in Split(cur, m);
  }

  lemma FullRunStep(cur: Block, m: seq<byte>)
    requires ZERO !in cur && m != [] && !(|cur| == FULL && m[0] == 0)
    ensures HasFullRun(cur + m) <==> HasFullRun(Next(cur, m[0]) + m[1..])
  {
    hide HasFullRun;
    assert m == [m[0]] + m[1..];
    if |cur| == FULL {
      FullRunAfterFullBlock(cur, m);
    } else if m[0] == 0 {
      assert [] + m[1..] == m[1..];
      assert cur + m == cur + [0] + m[1..];
      FullRunAfterShortBlock(cur, m[1..]);
    } else {
      assert cur + [m[0]] + m[1..] == cur + m;
    }
  }

  lemma {:induction false} ZeroBlock(cur: Block, m: seq<byte>)
    requires ZERO !in cur
    ensures HasZero(Split(cur, m)) <==> HasFullRun(cur + m)
    decreases |m|
  {
    if m == [] {
      assert cur + m == cur;
      assert Split(cur, m) == [cur];
    } else if |cur| == FULL && m[0] == 0 {
      ZeroAtCount255(cur, m);
    } else {
      hide HasZero, HasFullRun;
      FullRunStep(cur, m);
      ZeroBlock(Next(cur, m[0]), m[1..]);
      HasZeroCons(cur, Split(Next(cur, m[0]), m[1..]));
    }
  }

  lemma FirstBlockKeepsCur(cur: Block, m: seq<byte>)
    ensures Split(cur, m) != [] && cur <= Split(cur, m)[0]
    decreases |m|
  {}

  /** The encoding contains a zero exactly when some zero of the message ends a run of 254, 508, ... other bytes. */
  lemma ZeroFree(m: seq<byte>)
    ensures ZERO in Encode(m) <==> HasFullRun(m)
  {
    ZeroBlock([], m);
    ZeroInSerialized(Split([], m));
    assert [] + m == m;
  }

  lemma {:induction false} TextbookBlocksZeroFree(cur: Block, m: seq<byte>)
    requires ZERO !in cur
    ensures !HasZero(TextbookSplit(cur, m))
    decreases |m|, |cur|
  {
    if |cur| == FULL {
      TextbookBlocksZeroFree([], m);
    } else if m != [] {
      TextbookBlocksZeroFree(if m[0] == 0 then [] else cur + [m[0]], m[1..]);
    }
  }

  /** The paper's encoder never emits a zero; this is where the repository's encoder departs from it. */
  lemma TextbookZeroFree(m: seq<byte>)
    ensures ZERO !in TextbookEncode(m)
  {
    TextbookBlocksZeroFree([], m);
    ZeroInSerialized(TextbookSplit([], m));
  }

  // ----- lengths --------------------------------------------------------------------------------------------

  /** Full blocks that are followed by another block. */
  function FullSplits(blocks: seq<Block>): nat {
    if |blocks| <= 1 then 0 else (if |blocks[0]| == FULL then 1 else 0) + FullSplits(blocks[1..])
  }

  lemma {:induction false} SerializedLength(blocks: seq<Block>)
    requires blocks != []
    ensures |Serialize(blocks)| == |Join(blocks)| + 1 + FullSplits(blocks)
  {
    if |blocks| > 1 {
      SerializedLength(blocks[1..]);
    } else {
      assert Serialize(blocks[1..]) == [];
    }
  }

  /** A split happens only when a byte follows 254 others. */
  lemma {:induction false} SplitsAreRare(cur: Block, m: seq<byte>)
    ensures var n := FullSplits(Split(cur, m)); n > 0 ==> FULL * n < |cur| + |m|
    decreases |m|
  {
    if m != [] {
      var next := Next(cur, m[0]);
      SplitsAreRare(next, m[1..]);
      if Closes(cur, m[0]) {
        assert Split(cur, m)[1..] == Split(next, m[1..]);
        JoinSplit(next, m[1..]);
      }
    }
  }

  function CeilDiv(n: nat, d: nat): nat
    requires d > 0
  {
    (n + d - 1) / d
  }

  /** n + 1 + splits bytes, so the overhead is at most one byte in 254, and at least one byte. */
  lemma EncodedLength(m: seq<byte>)
    ensures |Encode(m)| == |m| + 1 + FullSplits(Split([], m))
    ensures |m| + 1 <= |Encode(m)| <= |m| + Max(1, CeilDiv(|m|, FULL))
  {
    JoinSplit([], m);
    SerializedLength(Split([], m));
    SplitsAreRare([], m);
  }
}
