/** The C encoder, decoder and framer, on caller-supplied buffers. */
module Cobs {
  import opened Bytes
  import opened CobsBlocks

  const FRAMING_BYTE: byte := 0x00

  function Frame(m: seq<byte>): seq<byte> { [FRAMING_BYTE] + Encode(m) + [FRAMING_BYTE] }

  /** At most 254 bytes without a zero, as they stand on the wire. */
  lemma FrameShort(m: seq<byte>)
    requires 0 !in m && |m| <= 254
    ensures Frame(m) == [0, (|m| + 1) as byte] + m + [0]
  {
    EncodeShort(m);
  }

  /** Slot k of the serialized blocks holds data, not a code byte. */
  predicate IsDataSlot(blocks: seq<Block>, k: int) {
    && blocks != []
    && (1 <= k <= |blocks[0]|
        || (|blocks[0]| < k && IsDataSlot(blocks[1..], k - |blocks[0]| - 1)))
  }

  /** The slots of data are those of the serialization that no code byte takes. */
  lemma {:induction false} DataSlots(blocks: seq<Block>, k: int)
    ensures IsDataSlot(blocks, k) <==>
              0 <= k < |Serialize(blocks)| && forall i :: 0 <= i < |blocks| ==> k != |Serialize(blocks[..i])|
  {
    if blocks != [] {
      var n := |blocks[0]| + 1;
      DataSlots(blocks[1..], k - n);
      assert |Serialize(blocks)| == n + |Serialize(blocks[1..])|;
      assert |Serialize(blocks[..0])| == 0;
      forall i | 0 < i < |blocks|
        ensures |Serialize(blocks[..i])| == n + |Serialize(blocks[1..][..i - 1])|
      {
        assert blocks[..i][1..] == blocks[1..][..i - 1];
      }
      if forall i :: 0 <= i < |blocks| ==> k != |Serialize(blocks[..i])| {
        forall i | 0 <= i < |blocks| - 1
          ensures k - n != |Serialize(blocks[1..][..i])|
        {
          assert k != |Serialize(blocks[..i + 1])|;
        }
      }
    }
  }

  lemma DataSlotInside(blocks: seq<Block>, k: int)
    requires IsDataSlot(blocks, k)
    ensures 0 < k < |Serialize(blocks)|
  {}

  /** The open block and its code byte still to come fit in the serialization. */
  lemma OpenBlockFits(cur: Block, m: seq<byte>)
    ensures |cur| + 1 <= |Serialize(Split(cur, m))|
    ensures forall k :: 1 <= k <= |cur| ==> IsDataSlot(Split(cur, m), k)
  {
    FirstBlockKeepsCur(cur, m);
  }

  /** The bytes that become final when `b` closes the open block. */
  function Closed(cur: Block, b: byte): seq<byte> {
    if Closes(cur, b) then [CodeByte(cur)] + cur else []
  }

  /** One turn of the encoder's loop. */
  lemma EncodeStep(cur: Block, rest: seq<byte>)
    requires rest != []
    ensures Serialize(Split(cur, rest)) == Closed(cur, rest[0]) + Serialize(Split(Next(cur, rest[0]), rest[1..]))
  {}

  /** A slot behind the bytes written so far is a data slot of the rest, and the byte just read has one. */
  lemma DataSlotStep(cur: Block, rest: seq<byte>, limit: int)
    requires rest != [] && !(0 < limit <= |cur|)
    ensures var limit' := limit - |Closed(cur, rest[0])|;
            var cur' := Next(cur, rest[0]);
            && (IsDataSlot(Split(cur, rest), limit) <==> IsDataSlot(Split(cur', rest[1..]), limit'))
            && !(0 < limit' < |cur'|)
            && (0 < limit' <= |cur'| ==> IsDataSlot(Split(cur', rest[1..]), limit'))
  {
    var tail := Split(Next(cur, rest[0]), rest[1..]);
    OpenBlockFits(Next(cur, rest[0]), rest[1..]);
    if Closes(cur, rest[0]) {
      assert Split(cur, rest) == [cur] + tail;
      assert ([cur] + tail)[1..] == tail;
    }
  }

  lemma EncodeEnd(cur: Block, limit: int)
    ensures Serialize(Split(cur, [])) == [CodeByte(cur)] + cur
    ensures IsDataSlot(Split(cur, []), limit) <==> 1 <= limit <= |cur|
  {}

  /**
   The body of the encoder's loop: one byte goes into the open block, which may
   close before it. `fits` is the capacity check, made only when the byte is stored.
   */
  method EncodeByte(encOut: array<byte>, off: nat, codeWordIdx: nat, count: nat, b: byte, maxEncLen: nat,
                    ghost was: seq<byte>, ghost done: seq<byte>, ghost cur: Block)
    returns (codeWordIdx': nat, count': nat, fits: bool)
    requires count == |cur| && codeWordIdx == |done|
    requires WithHole(encOut[..], was, off, done, cur)
    requires var end := |done + Closed(cur, b)| + |Next(cur, b)|;
             off + end < encOut.Length || (Next(cur, b) != [] && end == maxEncLen && off + end == encOut.Length)
    modifies encOut
    ensures codeWordIdx' == |done + Closed(cur, b)| && count' == |Next(cur, b)|
    ensures fits <==> Next(cur, b) == [] || codeWordIdx' + count' != maxEncLen
    ensures fits ==> WithHole(encOut[..], was, off, done + Closed(cur, b), Next(cur, b))
    ensures !fits ==> SameOutside(encOut[..], was, off, off + maxEncLen)
  {
    hide WithHole;
    codeWordIdx', count', fits := codeWordIdx, count + 1, true;
    if b == 0 || count' == 255 {
      HoleClose(encOut[..], was, off, done, cur);
      Store(encOut, off + codeWordIdx, count' as byte);
      codeWordIdx' := codeWordIdx + count';
      if count' == 255 {
        var wrIdx := codeWordIdx' + 1;
        count' := 1;
        if wrIdx == maxEncLen {
          HoleStaysInside(encOut[..], was, off, done + Closed(cur, b), []);
          fits := false;
          return;
        }
        HoleAppend(encOut[..], was, off, done + Closed(cur, b), [], b);
        Store(encOut, off + wrIdx, b);
        assert [] + [b] == Next(cur, b);
      } else {
        count' := 0;
      }
    } else {
      var wrIdx := codeWordIdx + count';
      if wrIdx == maxEncLen {
        HoleStaysInside(encOut[..], was, off, done, cur);
        fits := false;
        return;
      }
      HoleAppend(encOut[..], was, off, done, cur, b);
      Store(encOut, off + wrIdx, b);
      assert done + Closed(cur, b) == done;
    }
  }

  /** How much memory the encoder writes to: it stops at a data slot that has the index `maxEncLen`. */
  function Room(m: seq<byte>, maxEncLen: nat): nat {
    if IsDataSlot(Split([], m), maxEncLen) then maxEncLen else |Encode(m)|
  }

  lemma RoomBounds(m: seq<byte>, maxEncLen: nat)
    ensures 0 < Room(m, maxEncLen) <= |Encode(m)|
    ensures |Encode(m)| <= maxEncLen ==> !IsDataSlot(Split([], m), maxEncLen)
  {
    OpenBlockFits([], m);
    if IsDataSlot(Split([], m), maxEncLen) {
      DataSlotInside(Split([], m), maxEncLen);
    }
  }

  /**
   `enc_out + off` receives the encoding. While the loop runs, one slot of the
   open block, its code byte, stays unwritten. The capacity check looks at data
   slots only: the call fails exactly when `maxEncLen` is the index of one.
   */
  method CobsEncode(bufIn: seq<byte>, encOut: array<byte>, off: nat, maxEncLen: nat) returns (ret: int)
    requires off + Room(bufIn, maxEncLen) <= encOut.Length
    modifies encOut
    ensures ret == if IsDataSlot(Split([], bufIn), maxEncLen) then -1 else |Encode(bufIn)|
    ensures ret >= 0 ==> encOut[..] == old(encOut[..off]) + Encode(bufIn) + old(encOut[off + |Encode(bufIn)|..])
    ensures ret < 0 ==>
              forall i :: 0 <= i < encOut.Length && (i < off || off + maxEncLen <= i) ==> encOut[i] == old(encOut[i])
  {
    hide Split, Serialize, IsDataSlot, WithHole, Closed, Next, SameOutside;
    var count, codeWordIdx, rdIdx := 0, 0, 0;
    ghost var done: seq<byte>, cur: Block := [], [];
    ghost var was, rest := encOut[..], bufIn;
    RoomBounds(bufIn, maxEncLen);
    HoleStart(was, off);
    while rdIdx != |bufIn|
      invariant 0 <= rdIdx <= |bufIn| && rest == bufIn[rdIdx..]
      invariant count == |cur| && codeWordIdx == |done|
      invariant Encode(bufIn) == done + Serialize(Split(cur, rest))
      invariant WithHole(encOut[..], was, off, done, cur)
      invariant IsDataSlot(Split([], bufIn), maxEncLen) <==> IsDataSlot(Split(cur, rest), maxEncLen - codeWordIdx)
      invariant !(codeWordIdx < maxEncLen <= codeWordIdx + count)
      decreases |bufIn| - rdIdx
    {
      var b := bufIn[rdIdx];
      EncodeStep(cur, rest);
      DataSlotStep(cur, rest, maxEncLen - codeWordIdx);
      OpenBlockFits(Next(cur, b), rest[1..]);
      Reassociate(done, Closed(cur, b), Serialize(Split(Next(cur, b), rest[1..])));
      if IsDataSlot(Split([], bufIn), maxEncLen) {
        DataSlotInside(Split(Next(cur, b), rest[1..]), maxEncLen - |done + Closed(cur, b)|);
      }
      rdIdx := rdIdx + 1;
      var fits;
      codeWordIdx, count, fits := EncodeByte(encOut, off, codeWordIdx, count, b, maxEncLen, was, done, cur);
      if !fits {
        SameSlots(encOut[..], was, off, off + maxEncLen);
        return -1;
      }
      done, cur, rest := done + Closed(cur, b), Next(cur, b), rest[1..];
    }
    EncodeEnd(cur, maxEncLen - codeWordIdx);
    OpenBlockFits(cur, []);
    HoleFilled(encOut[..], was, off, done, cur);
    Reassociate(done, [CodeByte(cur)], cur);
    Store(encOut, off + codeWordIdx, (count + 1) as byte);
    codeWordIdx := codeWordIdx + count + 1;
    return codeWordIdx;
  }

  /** `mem` from `off` holds the finished bytes, one slot not yet filled, and the open block; the rest is untouched. */
  ghost predicate WithHole(mem: seq<byte>, was: seq<byte>, off: nat, done: seq<byte>, cur: seq<byte>) {
    var hole := off + |done|;
    && |mem| == |was| && hole + 1 + |cur| <= |mem|
    && (forall i :: 0 <= i < |mem| && i != hole ==>
          mem[i] == if i < off || i > hole + |cur| then was[i]
                    else if i < hole then done[i - off]
                    else cur[i - hole - 1])
  }

  /** Nothing before slot `from` or from slot `to` on has changed. */
  ghost predicate SameOutside(mem: seq<byte>, was: seq<byte>, from: nat, to: nat) {
    |mem| == |was| && forall i :: 0 <= i < |mem| && (i < from || to <= i) ==> mem[i] == was[i]
  }

  lemma SameSlots(mem: seq<byte>, was: seq<byte>, from: nat, to: nat)
    requires SameOutside(mem, was, from, to)
    ensures |mem| == |was| && forall i :: 0 <= i < |mem| && (i < from || to <= i) ==> mem[i] == was[i]
  {}

  lemma HoleStaysInside(mem: seq<byte>, was: seq<byte>, off: nat, done: seq<byte>, cur: Block)
    requires WithHole(mem, was, off, done, cur)
    ensures SameOutside(mem, was, off, off + |done| + 1 + |cur|)
  {}

  lemma HoleStart(mem: seq<byte>, off: nat)
    requires off < |mem|
    ensures WithHole(mem, mem, off, [], [])
  {}

  lemma HoleAppend(mem: seq<byte>, was: seq<byte>, off: nat, done: seq<byte>, cur: Block, b: byte)
    requires WithHole(mem, was, off, done, cur) && off + |done| + 1 + |cur| < |mem|
    ensures WithHole(mem[off + |done| + 1 + |cur| := b], was, off, done, cur + [b])
  {}

  lemma HoleClose(mem: seq<byte>, was: seq<byte>, off: nat, done: seq<byte>, cur: Block)
    requires WithHole(mem, was, off, done, cur) && off + |done| + 1 + |cur| < |mem|
    ensures WithHole(mem[off + |done| := CodeByte(cur)], was, off, done + ([CodeByte(cur)] + cur), [])
  {}

  lemma HoleFilled(mem: seq<byte>, was: seq<byte>, off: nat, done: seq<byte>, cur: Block)
    requires WithHole(mem, was, off, done, cur)
    ensures var enc := done + [CodeByte(cur)] + cur;
            mem[off + |done| := CodeByte(cur)] == was[..off] + enc + was[off + |enc|..]
  {}

  /** What follows the first block's data: a zero unless it is full, then the rest. */
  function Tail(enc: seq<byte>): seq<byte>
    requires WellFormed(enc)
  {
    var n := Stride(enc[0]);
    if n == |enc| then []
    else if n == 255 then Decoded(enc[n..])
    else [ZERO] + Decoded(enc[n..])
  }

  /** One turn of the decoder's loop. */
  lemma DecodedStep(enc: seq<byte>)
    requires WellFormed(enc)
    ensures enc != [] && Stride(enc[0]) <= |enc|
    ensures Stride(enc[0]) < |enc| ==> WellFormed(enc[Stride(enc[0])..])
    ensures Decoded(enc) == enc[1..Stride(enc[0])] + Tail(enc)
  {
    hide Join;
    var n := Stride(enc[0]);
    if n < |enc| {
      JoinCons(enc[1..n], Parse(enc[n..]));
    } else {
      JoinOne(enc[1..n]);
      assert enc[1..n] + [] == enc[1..n];
    }
  }

  /** The same with the output so far in front. */
  lemma DecodeTurn(out: seq<byte>, left: seq<byte>)
    requires WellFormed(left)
    ensures left != [] && Stride(left[0]) <= |left|
    ensures var n := Stride(left[0]);
            var m := out + Decoded(left);
            var out' := out + left[1..n];
            if n == |left| then m == out'
            else WellFormed(left[n..])
                 && m == (if n == 255 then out' else out' + [ZERO]) + Decoded(left[n..])
  {
    hide WellFormed, Decoded;
    DecodedStep(left);
    var n := Stride(left[0]);
    Reassociate(out, left[1..n], Tail(left));
    if n < |left| {
      Reassociate(out + left[1..n], [ZERO], Decoded(left[n..]));
    }
  }

  // ----- where the decoder reads -----------------------------------------------------------------------

  /** How decoding ends: with a size, with a full output, or with a read behind the end of the input. */
  datatype Ending = Done(n: nat) | Full | Behind

  /** The inner loop with k bytes to go, the next one at `data`. */
  function CopyEnd(enc: seq<byte>, data: nat, k: nat, num: nat, maxOut: nat): Ending
    decreases k
  {
    if k == 0 then Done(num)
    else if num == maxOut then Full
    else if data >= |enc| then Behind
    else CopyEnd(enc, data + 1, k - 1, num + 1, maxOut)
  }

  lemma {:induction false} CopyEnds(enc: seq<byte>, data: nat, k: nat, num: nat, maxOut: nat)
    requires num <= maxOut && data <= |enc|
    ensures CopyEnd(enc, data, k, num, maxOut)
         == if num + k <= maxOut && data + k <= |enc| then Done(num + k)
            else if maxOut - num <= |enc| - data then Full else Behind
    decreases k
  {
    if k > 0 && num < maxOut && data < |enc| {
      CopyEnds(enc, data + 1, k - 1, num + 1, maxOut);
    }
  }

  /** The outer loop, with the next code byte at `code`. */
  function DecodeEnd(enc: seq<byte>, code: nat, num: nat, maxOut: nat): Ending
    requires num <= maxOut
    decreases |enc| - code
  {
    if code >= |enc| then Behind
    else
      CopyEnds(enc, code + 1, Stride(enc[code]) - 1, num, maxOut);
      var copied := CopyEnd(enc, code + 1, Stride(enc[code]) - 1, num, maxOut);
      var next := code + Stride(enc[code]);
      if !copied.Done? || next == |enc| then copied
      else if Stride(enc[code]) == 255 then DecodeEnd(enc, next, copied.n, maxOut)
      else if copied.n == maxOut then Full
      else DecodeEnd(enc, next, copied.n + 1, maxOut)
  }

  /** What a chain of code bytes yields, up to the end of the input if it misses that. */
  function Emitted(enc: seq<byte>): seq<byte> {
    if enc == [] then []
    else
      var n := Stride(enc[0]);
      if n >= |enc| then enc[1..]
      else enc[1..n] + (if n == 255 then [] else [ZERO]) + Emitted(enc[n..])
  }

  lemma EmittedStep(enc: seq<byte>)
    requires enc != []
    ensures var n := Stride(enc[0]);
            if n >= |enc| then Emitted(enc) == enc[1..]
            else && Emitted(enc) == enc[1..n] + (if n == 255 then [] else [ZERO]) + Emitted(enc[n..])
                 && |Emitted(enc)| == (if n == 255 then n - 1 else n) + |Emitted(enc[n..])|
  {}

  /** A block of which the input holds too little yields what there is; one before others yields as in a whole chain. */
  lemma EmittedBlocks(c: byte, d: seq<byte>, rest: seq<byte>)
    ensures |d| < c as int - 1 ==> Emitted([c] + d) == d
    ensures |d| == (if c == 0 then 0 else c as int - 1) && rest != [] ==>
              Emitted([c] + d + rest) == d + (if c == 255 then [] else [0]) + Emitted(rest)
  {
    EmittedStep([c] + d);
    EmittedStep([c] + d + rest);
    assert ([c] + d)[1..] == d && ([c] + d + rest)[1..|d| + 1] == d && ([c] + d + rest)[|d| + 1..] == rest;
  }

  lemma {:induction false} EmittedIsDecoded(enc: seq<byte>)
    requires WellFormed(enc)
    ensures Emitted(enc) == Decoded(enc)
    decreases |enc|
  {
    DecodedStep(enc);
    EmittedStep(enc);
    ChainStep(enc);
    hide Decoded, Emitted, WellFormed;
    var n := Stride(enc[0]);
    if n < |enc| {
      EmittedIsDecoded(enc[n..]);
      Reassociate(enc[1..n], if n == 255 then [] else [ZERO], Decoded(enc[n..]));
      assert [] + Decoded(enc[n..]) == Decoded(enc[n..]);
    } else {
      assert enc[1..n] + [] == enc[1..n];
    }
  }

  /** The chain ends with the input, or the output is full before the input is used up. */
  predicate Inside(enc: seq<byte>, maxOut: nat) {
    WellFormed(enc) || (enc != [] && maxOut <= |Emitted(enc)|)
  }

  /** The same from the outcome: what is left of the chain, and how much it yields. */
  function EndOf(left: seq<byte>, num: nat, maxOut: nat): Ending {
    var whole, end := WellFormed(left), num + |Emitted(left)|;
    if whole && end <= maxOut then Done(end) else if left != [] && (whole || maxOut <= end) then Full else Behind
  }

  lemma DecodeEndStep(enc: seq<byte>, code: nat, num: nat, maxOut: nat)
    requires num <= maxOut && code < |enc|
    ensures var n := Stride(enc[code]);
            var end, copied := code + n, num + n - 1;
            DecodeEnd(enc, code, num, maxOut)
            == if copied > maxOut || end > |enc| then (if maxOut - num < |enc| - code then Full else Behind)
               else if end == |enc| then Done(copied)
               else if n == 255 then DecodeEnd(enc, end, copied, maxOut)
               else if copied == maxOut then Full
               else DecodeEnd(enc, end, copied + 1, maxOut)
  {
    CopyEnds(enc, code + 1, Stride(enc[code]) - 1, num, maxOut);
    hide CopyEnd;
  }

  lemma EndOfStep(left: seq<byte>, num: nat, maxOut: nat)
    requires num <= maxOut && left != []
    ensures var n := Stride(left[0]);
            var copied := num + n - 1;
            EndOf(left, num, maxOut)
            == if copied > maxOut || n > |left| then (if maxOut - num < |left| then Full else Behind)
               else if n == |left| then Done(copied)
               else if n == 255 then EndOf(left[n..], copied, maxOut)
               else if copied == maxOut then Full
               else EndOf(left[n..], copied + 1, maxOut)
  {
    ChainStep(left);
    EmittedStep(left);
    hide WellFormed, Emitted;
  }

  lemma {:induction false} DecodeEnds(enc: seq<byte>, code: nat, num: nat, maxOut: nat)
    requires num <= maxOut && code < |enc|
    ensures DecodeEnd(enc, code, num, maxOut) == EndOf(enc[code..], num, maxOut)
    decreases |enc| - code
  {
    hide DecodeEnd, EndOf;
    var left, n := enc[code..], Stride(enc[code]);
    DecodeEndStep(enc, code, num, maxOut);
    EndOfStep(left, num, maxOut);
    if code + n < |enc| && num + n - 1 <= maxOut {
      assert left[n..] == enc[code + n..];
      if n == 255 {
        DecodeEnds(enc, code + n, num + n - 1, maxOut);
      } else if num + n <= maxOut {
        DecodeEnds(enc, code + n, num + n, maxOut);
      }
    }
  }

  lemma ChainStep(enc: seq<byte>)
    ensures WellFormed(enc) <==>
              enc != [] && (var n := Stride(enc[0]); n == |enc| || (n < |enc| && WellFormed(enc[n..])))
  {}

  /** Byte by byte, decoding never reads behind the end of its input if and only if the input is `Inside`. */
  lemma StaysInside(enc: seq<byte>, maxOut: nat)
    ensures DecodeEnd(enc, 0, 0, maxOut) != Behind <==> Inside(enc, maxOut)
    ensures Inside(enc, maxOut) ==>
              DecodeEnd(enc, 0, 0, maxOut)
              == if WellFormed(enc) && |Decoded(enc)| <= maxOut then Done(|Decoded(enc)|) else Full
  {
    hide Decoded;
    if enc != [] {
      DecodeEnds(enc, 0, 0, maxOut);
      assert enc[0..] == enc;
      if WellFormed(enc) {
        EmittedIsDecoded(enc);
      }
    }
  }

  // ----- the decoder ---------------------------------------------------------------------------------------

  /** The data bytes of the block at `code`, as far as the input holds them. */
  function BlockAt(enc: seq<byte>, code: nat): seq<byte>
    requires code < |enc|
  {
    enc[code + 1..Min(code + Stride(enc[code]), |enc|)]
  }

  /** The inner loop: the block's data, as far as the capacity goes. */
  method CopyData(encIn: array<byte>, code: nat, numOut: nat, bufOut: array<byte>, maxBufOut: nat,
                  ghost enc: seq<byte>, ghost was: seq<byte>, ghost out: seq<byte>)
    returns (num: nat, count: nat)
    requires encIn != bufOut && maxBufOut <= bufOut.Length == |was|
    requires code < |enc| <= encIn.Length && enc == encIn[..|enc|]
    requires code + Stride(enc[code]) <= |enc| || maxBufOut <= |out| + |BlockAt(enc, code)|
    requires numOut == |out| <= maxBufOut && Wrote(bufOut[..], was, out)
    modifies bufOut
    ensures 1 <= count <= |BlockAt(enc, code)| + 1 && num == |out| + count - 1 <= maxBufOut
    ensures count == Stride(enc[code]) || (count < Stride(enc[code]) && num == maxBufOut)
    ensures Wrote(bufOut[..], was, out + BlockAt(enc, code)[..count - 1])
  {
    hide Wrote;
    ghost var block := BlockAt(enc, code);
    var data := code + 1;
    num, count := numOut, 1;
    assert out == out + block[..0];
    while count < encIn[code] as int
      invariant 1 <= count <= |block| + 1 && count <= Stride(enc[code]) && data == code + count
      invariant num == |out| + count - 1 <= maxBufOut
      invariant Wrote(bufOut[..], was, out + block[..count - 1])
    {
      if num == maxBufOut {
        break;
      }
      WroteOne(bufOut[..], was, out + block[..count - 1], encIn[data]);
      TakeOneMore(out, block, count - 1);
      Store(bufOut, num, encIn[data]);
      num, data, count := num + 1, data + 1, count + 1;
    }
  }

  /** As much of `m` as fits was written, the rest of the buffer is as it was, and `ret` tells if that is all. */
  ghost predicate Delivered(mem: seq<byte>, was: seq<byte>, m: seq<byte>, whole: bool, maxOut: nat, ret: int) {
    var n := Min(|m|, maxOut);
    && n <= |was| && mem == m[..n] + was[n..]
    && ret == if whole && |m| <= maxOut then |m| else -1
  }

  lemma WholeOrNot(mem: seq<byte>, was: seq<byte>, m: seq<byte>, whole: bool, maxOut: nat, ret: int)
    requires Delivered(mem, was, m, whole, maxOut, ret)
    ensures var n := Min(|m|, maxOut); n <= |was| && mem == m[..n] + was[n..]
    ensures ret == if whole && |m| <= maxOut then |m| else -1
  {}

  /** With `out` written and the next code byte at `code`, the rest of the chain yields the rest of m. */
  ghost predicate Decoding(enc: seq<byte>, code: nat, m: seq<byte>, whole: bool, out: seq<byte>, maxOut: nat) {
    && code < |enc| && m == out + Emitted(enc[code..])
    && (whole <==> WellFormed(enc[code..])) && (whole || maxOut <= |m|)
  }

  /** One turn of the outer loop. */
  lemma DecodingTurn(enc: seq<byte>, code: nat, m: seq<byte>, whole: bool, out: seq<byte>, maxOut: nat)
    requires Decoding(enc, code, m, whole, out, maxOut)
    ensures code < |enc|
    ensures var block, next := BlockAt(enc, code), code + Stride(enc[code]);
            && out + block <= m
            && (next >= |enc| ==> m == out + block && (whole <==> next == |enc|) && (whole || maxOut <= |m|))
            && (next < |enc| && next == code + 255 ==> Decoding(enc, next, m, whole, out + block, maxOut))
            && (next < |enc| && next != code + 255 ==>
                  |out + block| < |m| && Decoding(enc, next, m, whole, out + block + [ZERO], maxOut))
  {
    var left, n := enc[code..], Stride(enc[code]);
    ChainStep(left);
    EmittedStep(left);
    hide WellFormed, Emitted;
    assert left[1..Min(n, |left|)] == BlockAt(enc, code);
    if n < |left| {
      assert left[n..] == enc[code + n..];
      assert left[1..n] + [] == left[1..n];
      Reassociate(out, left[1..n], Emitted(left[n..]));
      Reassociate(out, left[1..n], [ZERO]);
      Reassociate(out, left[1..n] + [ZERO], Emitted(left[n..]));
    }
  }

  lemma StartsDecoding(enc: seq<byte>, maxOut: nat)
    requires Inside(enc, maxOut)
    ensures Decoding(enc, 0, Emitted(enc), WellFormed(enc), [], maxOut)
  {
    assert enc[0..] == enc;
    assert [] + Emitted(enc) == Emitted(enc);
  }

  /**
   Walks the chain of code bytes. Every output byte is checked against the capacity,
   so on a whole chain the call fails exactly when the message is longer.
   */
  method CobsDecode(encIn: array<byte>, encInLen: nat, bufOut: array<byte>, maxBufOut: nat) returns (ret: int)
    requires encIn != bufOut && encInLen <= encIn.Length && maxBufOut <= bufOut.Length
    requires Inside(encIn[..encInLen], maxBufOut)
    modifies bufOut
    ensures var enc := encIn[..encInLen];
            var n := Min(|Emitted(enc)|, maxBufOut);
            && ret == (if WellFormed(enc) && |Decoded(enc)| <= maxBufOut then |Decoded(enc)| else -1)
            && bufOut[..] == Emitted(enc)[..n] + old(bufOut[..])[n..]
            && (WellFormed(enc) ==> Emitted(enc) == Decoded(enc))
  {
    hide WellFormed, Decoded, Emitted, Wrote, Delivered, Decoding, Inside;
    ghost var enc, was, out := encIn[..encInLen], bufOut[..], [];
    ghost var m, whole := Emitted(enc), WellFormed(enc);
    if whole {
      EmittedIsDecoded(enc);
    }
    StartsDecoding(enc, maxBufOut);
    WroteNone(was);
    var code, num := 0, 0;
    while true
      invariant 0 <= code && 0 <= num <= maxBufOut && num == |out|
      invariant Decoding(enc, code, m, whole, out, maxBufOut) && Wrote(bufOut[..], was, out)
      decreases encInLen - code
    {
      DecodingTurn(enc, code, m, whole, out, maxBufOut);
      ghost var block := BlockAt(enc, code);
      var count;
      num, count := CopyData(encIn, code, num, bufOut, maxBufOut, enc, was, out);
      if count < encIn[code] as int {
        FullInBlock(bufOut[..], was, enc, code, m, whole, out, count - 1, maxBufOut);
        WholeOrNot(bufOut[..], was, m, whole, maxBufOut, -1);
        return -1;
      }
      assert block[..count - 1] == block;
      code := code + count;
      if code == encInLen {
        Complete(bufOut[..], was, m, maxBufOut);
        WholeOrNot(bufOut[..], was, m, whole, maxBufOut, num);
        break;
      }
      out := out + block;
      if count == 255 {
        continue;
      }
      if num == maxBufOut {
        CutShort(bufOut[..], was, out, m, whole, maxBufOut);
        WholeOrNot(bufOut[..], was, m, whole, maxBufOut, -1);
        return -1;
      }
      WroteOne(bufOut[..], was, out, ZERO);
      Store(bufOut, num, ZERO);
      out := out + [ZERO];
      num := num + 1;
    }
    return num;
  }

  /** The capacity ends inside the block, or behind what there is of it, after k of its bytes. */
  lemma FullInBlock(mem: seq<byte>, was: seq<byte>, enc: seq<byte>, code: nat, m: seq<byte>, whole: bool,
                    out: seq<byte>, k: nat, maxOut: nat)
    requires Decoding(enc, code, m, whole, out, maxOut) && code < |enc| && k < Stride(enc[code]) - 1
    requires k <= |BlockAt(enc, code)| && |out| + k == maxOut && Wrote(mem, was, out + BlockAt(enc, code)[..k])
    ensures Delivered(mem, was, m, whole, maxOut, -1)
  {
    DecodingTurn(enc, code, m, whole, out, maxOut);
    hide Decoding, Wrote, Delivered;
    var block := BlockAt(enc, code);
    assert out + block[..k] == (out + block)[..maxOut];
    CutShort(mem, was, out + block[..k], m, whole, maxOut);
  }

  lemma TakeOneMore(before: seq<byte>, block: seq<byte>, k: nat)
    requires k < |block|
    ensures before + block[..k] + [block[k]] == before + block[..k + 1]
  {}

  lemma WroteNone(was: seq<byte>)
    ensures Wrote(was, was, [])
  {}

  lemma CutShort(mem: seq<byte>, was: seq<byte>, out: seq<byte>, m: seq<byte>, whole: bool, maxOut: nat)
    requires Wrote(mem, was, out) && |out| == maxOut && out <= m && (|out| < |m| || !whole)
    ensures Delivered(mem, was, m, whole, maxOut, -1)
  {}

  lemma Complete(mem: seq<byte>, was: seq<byte>, out: seq<byte>, maxOut: nat)
    requires Wrote(mem, was, out) && |out| <= maxOut
    ensures Delivered(mem, was, out, true, maxOut, |out|)
  {}

  /** Fails exactly when fewer than three bytes of the capacity are left beside the encoding. */
  method CobsFramer(bufIn: seq<byte>, encOut: array<byte>, maxEncLen: nat) returns (ret: int)
    requires 1 + Room(bufIn, maxEncLen) <= encOut.Length && maxEncLen <= encOut.Length
    modifies encOut
    ensures ret == if |Encode(bufIn)| + 3 <= maxEncLen then |Frame(bufIn)| else -1
    ensures ret >= 0 ==> encOut[..] == Frame(bufIn) + old(encOut[|Frame(bufIn)|..])
    ensures ret < 0 && !IsDataSlot(Split([], bufIn), maxEncLen) ==>
              encOut[..] == [FRAMING_BYTE] + Encode(bufIn) + old(encOut[1 + |Encode(bufIn)|..])
    ensures ret < 0 && IsDataSlot(Split([], bufIn), maxEncLen) ==>
              forall i :: 0 <= i < encOut.Length && (i < 1 || 1 + maxEncLen <= i) ==> encOut[i] == old(encOut[i])
  {
    hide Split, Serialize, IsDataSlot;
    RoomBounds(bufIn, maxEncLen);
    var num := CobsEncode(bufIn, encOut, 1, maxEncLen);
    if num <= 0 {
      return -1;
    }
    encOut[0] := FRAMING_BYTE;
    if num + 2 >= maxEncLen {
      return -1;
    }
    encOut[1 + num] := FRAMING_BYTE;
    return num + 2;
  }

  predicate DelimitersOnly(frame: seq<byte>) {
    forall i :: 0 <= i < |frame| ==> (frame[i] == FRAMING_BYTE <==> i == 0 || i == |frame| - 1)
  }

  /** A frame has its two delimiters as its only zeros exactly for messages without a full run. */
  lemma FrameDelimiters(m: seq<byte>)
    ensures DelimitersOnly(Frame(m)) <==> !HasFullRun(m)
  {
    ZeroFree(m);
    var e := Encode(m);
    var f := Frame(m);
    assert forall i :: 0 <= i < |e| ==> f[i + 1] == e[i];
    assert forall i :: 1 <= i <= |e| ==> f[i] == e[i - 1];
  }
}
