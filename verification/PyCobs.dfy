/** The Python end of the link: the same codec on preallocated lists, with exceptions. */
module PyCobs {
  import opened Bytes
  import opened CobsBlocks
  import opened Cobs

  datatype Outcome = Value(bytes: seq<byte>) | IndexError

  /** Python's `round(num / den)`: ties go to the even neighbour. */
  function RoundHalfEven(num: nat, den: nat): nat
    requires den > 0
  {
    var q, r := num / den, num % den;
    if 2 * r < den || (2 * r == den && q % 2 == 0) then q else q + 1
  }

  /** `len(bytes_in) + round(len(bytes_in)/254 + 0.5)`, in exact arithmetic. */
  function Allocated(n: nat): nat { n + RoundHalfEven(n + 127, 254) }

  lemma RoundIsCeil(n: nat)
    ensures n > 0 ==> CeilDiv(n, FULL) <= RoundHalfEven(n + 127, 254)
    ensures n == 0 ==> RoundHalfEven(n + 127, 254) == 0
  {}

  /** The list is long enough for the encoding of every message but the empty one. */
  lemma AllocatedSuffices(m: seq<byte>)
    ensures |Encode(m)| <= Allocated(|m|) <==> m != []
  {
    EncodedLength(m);
    RoundIsCeil(|m|);
  }

  /** Encodes what the C encoder encodes; the empty message raises IndexError. */
  method PyEncode(bytesIn: seq<byte>) returns (r: Outcome)
    ensures r == if bytesIn == [] then IndexError else Value(Encode(bytesIn))
  {
    hide Split, Serialize, WithHole, Closed, Next, Encode, Allocated;
    AllocatedSuffices(bytesIn);
    var encOut := new byte[Allocated(|bytesIn|)](_ => 0);
    var count, codeWordIdx := 0, 0;
    ghost var done: seq<byte>, cur: Block := [], [];
    ghost var was, rest := encOut[..], bytesIn;
    EncodeUnfold(bytesIn);
    if bytesIn != [] {
      OpenBlockFits([], bytesIn);
      HoleStart(was, 0);
    }
    for i := 0 to |bytesIn|
      invariant rest == bytesIn[i..]
      invariant count == |cur| && codeWordIdx == |done|
      invariant Encode(bytesIn) == done + Serialize(Split(cur, rest))
      invariant if bytesIn == [] then codeWordIdx == 0 else WithHole(encOut[..], was, 0, done, cur)
    {
      var b := bytesIn[i];
      EncodeStep(cur, rest);
      OpenBlockFits(Next(cur, b), rest[1..]);
      Reassociate(done, Closed(cur, b), Serialize(Split(Next(cur, b), rest[1..])));
      codeWordIdx, count := PyEncodeByte(encOut, codeWordIdx, count, b, was, done, cur);
      done, cur, rest := done + Closed(cur, b), Next(cur, b), rest[1..];
    }
    AllocatedNothing();
    if bytesIn != [] {
      HoleIsInside(encOut[..], was, done, cur);
    }
    if codeWordIdx >= encOut.Length {
      return IndexError;
    }
    EncodeEnd(cur, 0);
    HoleFilled(encOut[..], was, 0, done, cur);
    Reassociate(done, [CodeByte(cur)], cur);
    Store(encOut, codeWordIdx, (count + 1) as byte);
    return Value(encOut[..codeWordIdx + count + 1]);
  }

  lemma EncodeUnfold(m: seq<byte>)
    ensures Encode(m) == [] + Serialize(Split([], m))
  {}

  lemma HoleIsInside(mem: seq<byte>, was: seq<byte>, done: seq<byte>, cur: Block)
    requires WithHole(mem, was, 0, done, cur)
    ensures |done| < |mem|
  {}

  lemma AllocatedNothing()
    ensures Allocated(0) == 0
  {}

  /** The body of the encoder's loop; every index it writes is inside the list. */
  method PyEncodeByte(encOut: array<byte>, codeWordIdx: nat, count: nat, b: byte,
                      ghost was: seq<byte>, ghost done: seq<byte>, ghost cur: Block)
    returns (codeWordIdx': nat, count': nat)
    requires count == |cur| && codeWordIdx == |done|
    requires WithHole(encOut[..], was, 0, done, cur)
    requires |done + Closed(cur, b)| + 1 + |Next(cur, b)| <= encOut.Length
    modifies encOut
    ensures codeWordIdx' == |done + Closed(cur, b)| && count' == |Next(cur, b)|
    ensures WithHole(encOut[..], was, 0, done + Closed(cur, b), Next(cur, b))
  {
    hide WithHole;
    codeWordIdx', count' := codeWordIdx, count + 1;
    if b == ZERO || count' == 255 {
      HoleClose(encOut[..], was, 0, done, cur);
      Store(encOut, codeWordIdx, count' as byte);
      codeWordIdx' := codeWordIdx + count';
      if count' == 255 {
        HoleAppend(encOut[..], was, 0, done + Closed(cur, b), [], b);
        Store(encOut, codeWordIdx' + 1, b);
        assert [] + [b] == Next(cur, b);
        count' := 1;
      } else {
        count' := 0;
      }
    } else {
      HoleAppend(encOut[..], was, 0, done, cur, b);
      Store(encOut, codeWordIdx + count', b);
      assert done + Closed(cur, b) == done;
    }
  }

  /** On every byte string: the message of a well-formed chain, and IndexError on every other input. */
  method PyDecode(enc: seq<byte>) returns (r: Outcome)
    ensures r == if WellFormed(enc) then Value(Decoded(enc)) else IndexError
  {
    hide WellFormed, Decoded;
    var decOut := new byte[|enc|](_ => 0);
    var codeIdx, num := 0, 0;
    ghost var out, left := [], enc;
    StartsEmpty(enc);
    while true
      invariant 0 <= codeIdx <= |enc| && num == |out| <= codeIdx
      invariant left == enc[codeIdx..] && decOut[..num] == out
      invariant WellFormed(enc) <==> WellFormed(left)
      invariant WellFormed(enc) ==> Decoded(enc) == out + Decoded(left)
      decreases |enc| - codeIdx
    {
      ChainStep(left);
      if codeIdx >= |enc| {
        return IndexError;
      }
      if WellFormed(left) {
        DecodeTurn(out, left);
      }
      var copied, count := PyCopyData(enc, codeIdx, decOut, num, out);
      if !copied {
        return IndexError;
      }
      assert left[1..count] == enc[codeIdx + 1..codeIdx + count];
      out, left := out + left[1..count], left[count..];
      num := num + count - 1;
      codeIdx := codeIdx + count;
      if codeIdx == |enc| {
        break;
      }
      if count == 255 {
        continue;
      }
      Store(decOut, num, ZERO);
      out := out + [ZERO];
      num := num + 1;
    }
    return Value(decOut[..num]);
  }

  lemma StartsEmpty(enc: seq<byte>)
    ensures WellFormed(enc) ==> Decoded(enc) == [] + Decoded(enc)
  {}

  /** The inner loop; false when the code byte points past the end. */
  method PyCopyData(enc: seq<byte>, codeIdx: nat, decOut: array<byte>, num: nat, ghost out: seq<byte>)
    returns (ok: bool, count: nat)
    requires codeIdx < |enc| == decOut.Length && num <= codeIdx && decOut[..num] == out
    modifies decOut
    ensures ok <==> codeIdx + Stride(enc[codeIdx]) <= |enc|
    ensures ok ==> count == Stride(enc[codeIdx])
    ensures ok ==> decOut[..num + count - 1] == out + enc[codeIdx + 1..codeIdx + count]
  {
    var dataIdx := codeIdx + 1;
    count := 1;
    while count < enc[codeIdx] as int
      invariant 1 <= count <= Stride(enc[codeIdx])
      invariant dataIdx == codeIdx + count <= |enc|
      invariant decOut[..num + count - 1] == out + enc[codeIdx + 1..dataIdx]
    {
      if dataIdx >= |enc| {
        return false, count;
      }
      ghost var before := decOut[..num + count - 1];
      decOut[num + count - 1] := enc[dataIdx];
      assert decOut[..num + count] == before + [enc[dataIdx]];
      dataIdx, count := dataIdx + 1, count + 1;
    }
    return true, count;
  }
}
