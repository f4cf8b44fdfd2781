/** Fixed-width integers of the C sources and the one libc routine the buffers rely on. */
module Bytes {
  newtype byte = x: int | 0 <= x < 0x100
  type int16 = x: int | -0x8000 <= x < 0x8000
  type uint16 = x: int | 0 <= x < 0x1_0000
  type int32 = x: int | -0x8000_0000 <= x < 0x8000_0000
  type uint32 = x: int | 0 <= x < 0x1_0000_0000

  function Min(a: int, b: int): int { if a < b then a else b }

  function Max(a: int, b: int): int { if a < b then b else a }

  function Wrap32(x: int): uint32 { x % 0x1_0000_0000 }

  lemma Wrap32Same(x: uint32)
    ensures Wrap32(x) == x
  {}

  /** `memcpy(dst + at, src, |src|)`: the bytes outside the target range stay. */
  method Memcpy(dst: array<byte>, at: nat, src: seq<byte>)
    requires at + |src| <= dst.Length
    modifies dst
    ensures dst[..] == Copied(old(dst[..]), at, src)
  {
    forall i | 0 <= i < |src| {
      dst[at + i] := src[i];
    }
  }

  /** What `memcpy` leaves in the target buffer. */
  function Copied(was: seq<byte>, at: nat, src: seq<byte>): (now: seq<byte>)
    requires at + |src| <= |was|
    ensures |now| == |was|
  {
    was[..at] + src + was[at + |src|..]
  }

  lemma CopiedNothing(was: seq<byte>, at: nat)
    requires at <= |was|
    ensures Copied(was, at, []) == was
  {}

  lemma Reassociate<T>(a: seq<T>, b: seq<T>, c: seq<T>)
    ensures a + (b + c) == a + b + c
  {}

  /** One store, described on the buffer as a whole. */
  method Store(dst: array<byte>, i: nat, x: byte)
    requires i < dst.Length
    modifies dst
    ensures dst[..] == old(dst[..])[i := x]
  {
    dst[i] := x;
  }

  /** Two copies side by side are one copy of the joined bytes. */
  lemma CopiedTwice(was: seq<byte>, at: nat, a: seq<byte>, b: seq<byte>)
    requires at + |a| + |b| <= |was|
    ensures Copied(Copied(was, at, a), at + |a|, b) == Copied(was, at, a + b)
  {}

  /** `mem` is `was` with `out` written over its first bytes. */
  ghost predicate Wrote(mem: seq<byte>, was: seq<byte>, out: seq<byte>) {
    |mem| == |was| && |out| <= |was| && mem == out + was[|out|..]
  }

  lemma WroteOne(mem: seq<byte>, was: seq<byte>, out: seq<byte>, x: byte)
    requires Wrote(mem, was, out) && |out| < |was|
    ensures Wrote(mem[|out| := x], was, out + [x])
  {}

  function Count<T(==)>(b: T, s: seq<T>): nat {
    if s == [] then 0 else Count(b, s[..|s| - 1]) + if s[|s| - 1] == b then 1 else 0
  }

  lemma {:induction false} CountAppend(b: byte, s: seq<byte>, t: seq<byte>)
    ensures Count(b, s + t) == Count(b, s) + Count(b, t)
    decreases |t|
  {
    if t == [] {
      assert s + t == s;
    } else {
      assert (s + t)[..|s + t| - 1] == s + t[..|t| - 1];
      CountAppend(b, s, t[..|t| - 1]);
    }
  }

  lemma {:induction false} CountNone(b: byte, s: seq<byte>)
    requires b !in s
    ensures Count(b, s) == 0
  {
    if s != [] {
      CountNone(b, s[..|s| - 1]);
    }
  }

  /** A body between two delimiters. */
  lemma CountDelimited(b: byte, body: seq<byte>)
    requires b !in body
    ensures Count(b, [b] + body + [b]) == 2
  {
    CountNone(b, body);
    CountAppend(b, [b], body);
    CountAppend(b, [b] + body, [b]);
    assert [b][..0] == [];
    assert Count(b, [b]) == 1;
  }

  /** All chunks joined end to end. */
  function Concat(chunks: seq<seq<byte>>): seq<byte> {
    if chunks == [] then [] else chunks[0] + Concat(chunks[1..])
  }
}
