/**
 Deframing without buffers: a machine reads one byte at a time and now and then
 emits a message. `Scan` is one call of a deframer on the bytes at hand, `Feed`
 a run of calls with the FIFO between them, and `Messages` reads a whole stream
 at once. The lemmas say how a stream is cut into calls does not matter.
 */
module ByteStream {
  import opened Bytes

  datatype Reaction<S> = Next(s: S) | Emit(s: S, msg: seq<byte>) | Halt

  /** `Quiet`: all bytes read. `Got`: stopped behind a message. `Halted`: stopped before a byte it cannot take. */
  datatype Outcome<S> = Quiet(s: S) | Got(s: S, msg: seq<byte>, rest: seq<byte>) | Halted(s: S, rest: seq<byte>)

  type Machine<!S> = (S, byte) -> Reaction<S>

  function Scan<S>(step: Machine<S>, s: S, q: seq<byte>): (o: Outcome<S>)
    ensures !o.Quiet? ==> |o.rest| <= |q|
    decreases |q|
  {
    if q == [] then Quiet(s)
    else match step(s, q[0])
      case Next(s') => Scan(step, s', q[1..])
      case Emit(s', msg) => Got(s', msg, q[1..])
      case Halt => Halted(s, q)
  }

  /** One byte that neither ends a message nor halts. */
  lemma ScanOne<S>(step: Machine<S>, s: S, b: byte, q: seq<byte>)
    requires step(s, b).Next?
    ensures Scan(step, s, [b] + q) == Scan(step, step(s, b).s, q)
  {}

  /** One byte in all three cases. */
  lemma ScanStop<S>(step: Machine<S>, s: S, q: seq<byte>)
    requires q != []
    ensures match step(s, q[0])
            case Next(s') => Scan(step, s, q) == Scan(step, s', q[1..])
            case Emit(s', msg) => Scan(step, s, q) == Got(s', msg, q[1..])
            case Halt => Scan(step, s, q) == Halted(s, q)
  {}

  /** No byte of the stream halts the machine. */
  predicate FaultFree<S>(step: Machine<S>, s: S, q: seq<byte>)
    decreases |q|
  {
    q == [] || match step(s, q[0])
               case Next(s') => FaultFree(step, s', q[1..])
               case Emit(s', _) => FaultFree(step, s', q[1..])
               case Halt => false
  }

  /** The state behind the stream. */
  function Final<S>(step: Machine<S>, s: S, q: seq<byte>): S
    requires FaultFree(step, s, q)
    decreases |q|
  {
    if q == [] then s else Final(step, step(s, q[0]).s, q[1..])
  }

  /** A caller sees sizes, so an empty message looks like no message. */
  function Visible(msg: seq<byte>): seq<seq<byte>> { if msg == [] then [] else [msg] }

  function Messages<S>(step: Machine<S>, s: S, q: seq<byte>): seq<seq<byte>>
    requires FaultFree(step, s, q)
    decreases |q|
  {
    if q == [] then []
    else match step(s, q[0])
      case Next(s') => Messages(step, s', q[1..])
      case Emit(s', msg) => Visible(msg) + Messages(step, s', q[1..])
  }

  /** Reading a stream in two parts is reading it. */
  lemma {:induction false} StreamConcat<S>(step: Machine<S>, s: S, a: seq<byte>, b: seq<byte>)
    requires FaultFree(step, s, a)
    ensures FaultFree(step, s, a + b) <==> FaultFree(step, Final(step, s, a), b)
    ensures FaultFree(step, s, a + b) ==>
              && Final(step, s, a + b) == Final(step, Final(step, s, a), b)
              && Messages(step, s, a + b) == Messages(step, s, a) + Messages(step, Final(step, s, a), b)
    decreases |a|
  {
    if a == [] {
      assert a + b == b;
    } else {
      assert (a + b)[1..] == a[1..] + b;
      StreamConcat(step, step(s, a[0]).s, a[1..], b);
    }
  }

  lemma {:induction false} FaultFreePrefix<S>(step: Machine<S>, s: S, a: seq<byte>, b: seq<byte>)
    requires FaultFree(step, s, a + b)
    ensures FaultFree(step, s, a)
    decreases |a|
  {
    if a != [] {
      assert (a + b)[1..] == a[1..] + b;
      FaultFreePrefix(step, step(s, a[0]).s, a[1..], b);
    }
  }

  /** A call whose bytes end behind a message was quiet on every shorter part of them, and can resume there. */
  lemma {:induction false} ScanResume<S>(step: Machine<S>, s: S, a: seq<byte>, b: seq<byte>)
    requires Scan(step, s, a + b).Got? && Scan(step, s, a + b).rest == [] && b != []
    ensures Scan(step, s, a).Quiet?
    ensures Scan(step, Scan(step, s, a).s, b) == Scan(step, s, a + b)
    decreases |a|
  {
    if a == [] {
      assert a + b == b;
    } else {
      assert (a + b)[1..] == a[1..] + b;
      ScanResume(step, step(s, a[0]).s, a[1..], b);
    }
  }

  lemma {:induction false} FaultFreeScan<S>(step: Machine<S>, s: S, q: seq<byte>)
    requires FaultFree(step, s, q)
    ensures !Scan(step, s, q).Halted?
    decreases |q|
  {
    if q != [] && step(s, q[0]).Next? {
      FaultFreeScan(step, step(s, q[0]).s, q[1..]);
    }
  }

  /** What a call leaves unread is a suffix, and what it read explains its state and its message. */
  lemma {:induction false} ScanReads<S>(step: Machine<S>, s: S, q: seq<byte>) returns (k: nat)
    requires !Scan(step, s, q).Halted?
    ensures k <= |q| && (q != [] ==> k > 0)
    ensures FaultFree(step, s, q[..k])
    ensures match Scan(step, s, q)
            case Quiet(s') => k == |q| && Final(step, s, q[..k]) == s' && Messages(step, s, q[..k]) == []
            case Got(s', msg, rest) =>
              q[k..] == rest && Final(step, s, q[..k]) == s' && Messages(step, s, q[..k]) == Visible(msg)
    decreases |q|
  {
    if q == [] {
      k := 0;
    } else {
      assert q[..1][1..] == [];
      match step(s, q[0])
      case Next(s') =>
        k := ScanReads(step, s', q[1..]);
        assert q[1..][..k] == q[..k + 1][1..];
        k := k + 1;
      case Emit(_, _) =>
        k := 1;
    }
  }

  // ----- runs of calls ------------------------------------------------------------------------------

  /** Between calls: the machine's state and the bytes in the FIFO. */
  datatype Link<S> = Link(s: S, fifo: seq<byte>)

  /** One call on a stream without faults. */
  function Turn<S>(step: Machine<S>, l: Link<S>, chunk: seq<byte>): (Link<S>, seq<seq<byte>>)
  {
    match Scan(step, l.s, l.fifo + chunk)
    case Quiet(s) => (Link(s, []), [])
    case Got(s, msg, rest) => (Link(s, rest), Visible(msg))
    case Halted(s, rest) => (Link(s, rest), [])
  }

  function Feed<S>(step: Machine<S>, l: Link<S>, chunks: seq<seq<byte>>): (Link<S>, seq<seq<byte>>)
    decreases |chunks|
  {
    if chunks == [] then (l, [])
    else
      var (l1, got1) := Turn(step, l, chunks[0]);
      var (l2, got2) := Feed(step, l1, chunks[1..]);
      (l2, got1 + got2)
  }

  /** Every chunk finds room behind what the calls before it left in the FIFO. */
  predicate Fits<S>(step: Machine<S>, depth: nat, l: Link<S>, chunks: seq<seq<byte>>)
    decreases |chunks|
  {
    chunks == [] || (|l.fifo| + |chunks[0]| <= depth && Fits(step, depth, Turn(step, l, chunks[0]).0, chunks[1..]))
  }

  /** The bytes fed are the bytes read, which fix the messages and the state, followed by the FIFO. */
  ghost predicate Accounts<S>(step: Machine<S>, s: S, all: seq<byte>, l: Link<S>, got: seq<seq<byte>>) {
    exists k: nat :: AccountsUpTo(step, s, all, k, l, got)
  }

  ghost predicate AccountsUpTo<S>(step: Machine<S>, s: S, all: seq<byte>, k: nat, l: Link<S>, got: seq<seq<byte>>) {
    && k <= |all| && all[k..] == l.fifo
    && FaultFree(step, s, all[..k])
    && Final(step, s, all[..k]) == l.s
    && Messages(step, s, all[..k]) == got
  }

  lemma TurnAccounts<S>(step: Machine<S>, l: Link<S>, chunk: seq<byte>)
    requires FaultFree(step, l.s, l.fifo + chunk)
    ensures var (l', got) := Turn(step, l, chunk);
            Accounts(step, l.s, l.fifo + chunk, l', got) && (l.fifo != [] && chunk == [] ==> |l'.fifo| < |l.fifo|)
  {
    var q := l.fifo + chunk;
    FaultFreeScan(step, l.s, q);
    var k := ScanReads(step, l.s, q);
    var (l', got) := Turn(step, l, chunk);
    assert AccountsUpTo(step, l.s, q, k, l', got);
  }

  lemma CutInTwo(a: seq<byte>, i: nat, b: seq<byte>, j: nat)
    requires i <= |a| && j <= |a[i..] + b|
    ensures i + j <= |a + b|
    ensures (a + b)[..i + j] == a[..i] + (a[i..] + b)[..j]
    ensures (a + b)[i + j..] == (a[i..] + b)[j..]
  {}

  lemma AccountsCompose<S>(step: Machine<S>, s: S, a: seq<byte>, l1: Link<S>, got1: seq<seq<byte>>,
                           b: seq<byte>, l2: Link<S>, got2: seq<seq<byte>>)
    requires Accounts(step, s, a, l1, got1) && Accounts(step, l1.s, l1.fifo + b, l2, got2)
    ensures Accounts(step, s, a + b, l2, got1 + got2)
  {
    hide FaultFree, Final, Messages;
    var k1: nat :| AccountsUpTo(step, s, a, k1, l1, got1);
    var k2: nat :| AccountsUpTo(step, l1.s, l1.fifo + b, k2, l2, got2);
    CutInTwo(a, k1, b, k2);
    StreamConcat(step, s, a[..k1], (l1.fifo + b)[..k2]);
    assert AccountsUpTo(step, s, a + b, k1 + k2, l2, got1 + got2);
  }

  lemma AccountsWhole<S>(step: Machine<S>, s: S, all: seq<byte>, l: Link<S>, got: seq<seq<byte>>)
    requires FaultFree(step, s, all) && Accounts(step, s, all, l, got)
    ensures FaultFree(step, l.s, l.fifo)
    ensures Messages(step, s, all) == got + Messages(step, l.s, l.fifo)
    ensures Final(step, s, all) == Final(step, l.s, l.fifo)
  {
    hide FaultFree, Final, Messages;
    var k: nat :| AccountsUpTo(step, s, all, k, l, got);
    assert all == all[..k] + all[k..];
    StreamConcat(step, s, all[..k], all[k..]);
  }

  /** The first of several calls leaves a stream without faults. */
  lemma TurnKeepsFaultFree<S>(step: Machine<S>, l: Link<S>, chunk: seq<byte>, later: seq<seq<byte>>)
    requires FaultFree(step, l.s, l.fifo + Concat([chunk] + later))
    ensures l.fifo + Concat([chunk] + later) == (l.fifo + chunk) + Concat(later)
    ensures FaultFree(step, l.s, l.fifo + chunk)
    ensures var l1 := Turn(step, l, chunk).0; FaultFree(step, l1.s, l1.fifo + Concat(later))
  {
    hide FaultFree, Final, Messages;
    var first, rest := l.fifo + chunk, Concat(later);
    assert ([chunk] + later)[1..] == later;
    Reassociate(l.fifo, chunk, rest);
    FaultFreePrefix(step, l.s, first, rest);
    TurnAccounts(step, l, chunk);
    var (l1, got1) := Turn(step, l, chunk);
    AccountsWhole(step, l.s, first, l1, got1);
    StreamConcat(step, l.s, first, rest);
    StreamConcat(step, l1.s, l1.fifo, rest);
  }

  /** Conservation over every run of calls: nothing fed is lost, read twice or reordered. */
  lemma {:induction false} FeedAccounts<S>(step: Machine<S>, l: Link<S>, chunks: seq<seq<byte>>)
    requires FaultFree(step, l.s, l.fifo + Concat(chunks))
    ensures var (l', got) := Feed(step, l, chunks);
            Accounts(step, l.s, l.fifo + Concat(chunks), l', got)
    decreases |chunks|
  {
    if chunks == [] {
      assert l.fifo + Concat(chunks) == l.fifo;
      assert AccountsUpTo(step, l.s, l.fifo, 0, l, []);
    } else {
      hide FaultFree, Final, Messages, Accounts;
      assert chunks == [chunks[0]] + chunks[1..];
      TurnKeepsFaultFree(step, l, chunks[0], chunks[1..]);
      TurnAccounts(step, l, chunks[0]);
      var (l1, got1) := Turn(step, l, chunks[0]);
      FeedAccounts(step, l1, chunks[1..]);
      var (l2, got2) := Feed(step, l1, chunks[1..]);
      AccountsCompose(step, l.s, l.fifo + chunks[0], l1, got1, Concat(chunks[1..]), l2, got2);
    }
  }

  function Empties(n: nat): seq<seq<byte>> { seq(n, _ => []) }

  /** Enough calls without new bytes empty the FIFO and hand out what it held. */
  lemma {:induction false} DrainEmpties<S>(step: Machine<S>, l: Link<S>, n: nat)
    requires FaultFree(step, l.s, l.fifo) && n >= |l.fifo|
    ensures Feed(step, l, Empties(n)) == (Link(Final(step, l.s, l.fifo), []), Messages(step, l.s, l.fifo))
    decreases n
  {
    if n > 0 {
      var (l1, got1) := Turn(step, l, []);
      assert Empties(n)[1..] == Empties(n - 1);
      assert l.fifo + [] == l.fifo;
      TurnAccounts(step, l, []);
      AccountsWhole(step, l.s, l.fifo, l1, got1);
      DrainEmpties(step, l1, n - 1);
    }
  }

  lemma {:induction false} FeedConcat<S>(step: Machine<S>, l: Link<S>, a: seq<seq<byte>>, b: seq<seq<byte>>)
    ensures var (l1, got1) := Feed(step, l, a);
            var (l2, got2) := Feed(step, l1, b);
            Feed(step, l, a + b) == (l2, got1 + got2)
    decreases |a|
  {
    if a == [] {
      assert a + b == b;
      assert [] + Feed(step, l, b).1 == Feed(step, l, b).1;
    } else {
      assert (a + b)[1..] == a[1..] + b;
      var (l1, got1) := Turn(step, l, a[0]);
      FeedConcat(step, l1, a[1..], b);
      var (l2, got2) := Feed(step, l1, a[1..]);
      Reassociate(got1, got2, Feed(step, l2, b).1);
    }
  }

  /**
   Chunk independence: whatever the chunks, the messages handed out by the calls
   and by draining afterwards are those of the stream, in order.
   */
  lemma ChunkingDoesNotMatter<S>(step: Machine<S>, l: Link<S>, chunks: seq<seq<byte>>, n: nat)
    requires FaultFree(step, l.s, l.fifo + Concat(chunks))
    requires n >= |Feed(step, l, chunks).0.fifo|
    ensures var all := l.fifo + Concat(chunks);
            Feed(step, l, chunks + Empties(n)) == (Link(Final(step, l.s, all), []), Messages(step, l.s, all))
  {
    var (l1, got1) := Feed(step, l, chunks);
    FeedAccounts(step, l, chunks);
    AccountsWhole(step, l.s, l.fifo + Concat(chunks), l1, got1);
    DrainEmpties(step, l1, n);
    FeedConcat(step, l, chunks, Empties(n));
  }

  /** The stream cut into chunks of at most `depth` bytes, the last one not empty. */
  ghost predicate Chunks(chunks: seq<seq<byte>>, depth: nat, stream: seq<byte>) {
    && chunks != [] && chunks[|chunks| - 1] != []
    && Concat(chunks) == stream
    && (forall c :: c in chunks ==> |c| <= depth)
  }

  lemma ConcatNotEmpty(chunks: seq<seq<byte>>)
    requires chunks != [] && chunks[|chunks| - 1] != []
    ensures Concat(chunks) != []
  {}

  lemma {:induction false} ConcatEmpties(chunks: seq<seq<byte>>, n: nat)
    ensures Concat(chunks + Empties(n)) == Concat(chunks)
    decreases |chunks|, n
  {
    if chunks != [] {
      assert (chunks + Empties(n))[1..] == chunks[1..] + Empties(n);
      ConcatEmpties(chunks[1..], n);
    } else if n > 0 {
      assert (chunks + Empties(n))[1..] == chunks + Empties(n - 1);
      ConcatEmpties(chunks, n - 1);
    }
  }

  // ----- streams of frames ---------------------------------------------------------------------------

  /** Junk, and the frame of a message behind it. */
  datatype Item = Item(junk: seq<byte>, msg: seq<byte>, frame: seq<byte>)

  function Stream(items: seq<Item>): seq<byte> {
    if items == [] then [] else items[0].junk + items[0].frame + Stream(items[1..])
  }

  function Payloads(items: seq<Item>): seq<seq<byte>> {
    if items == [] then [] else Visible(items[0].msg) + Payloads(items[1..])
  }

  ghost predicate Skipped<S>(step: Machine<S>, idle: S, junk: seq<byte>) {
    FaultFree(step, idle, junk) && Final(step, idle, junk) == idle && Messages(step, idle, junk) == []
  }

  /** The idle machine skips the junk, and from the frame alone gets the message. */
  ghost predicate IsItem<S>(step: Machine<S>, idle: S, x: Item) {
    Skipped(step, idle, x.junk) && Scan(step, idle, x.frame) == Got(idle, x.msg, [])
  }

  /** A scan that gets a message at the very end, seen as a stream. */
  lemma {:induction false} GotIsStream<S>(step: Machine<S>, s: S, q: seq<byte>)
    requires Scan(step, s, q).Got? && Scan(step, s, q).rest == []
    ensures FaultFree(step, s, q) && Final(step, s, q) == Scan(step, s, q).s
    ensures Messages(step, s, q) == Visible(Scan(step, s, q).msg)
    decreases |q|
  {
    if step(s, q[0]).Next? {
      GotIsStream(step, step(s, q[0]).s, q[1..]);
    }
  }

  lemma {:induction false} StreamMessages<S>(step: Machine<S>, idle: S, items: seq<Item>)
    requires forall x :: x in items ==> IsItem(step, idle, x)
    ensures FaultFree(step, idle, Stream(items)) && Final(step, idle, Stream(items)) == idle
    ensures Messages(step, idle, Stream(items)) == Payloads(items)
    decreases |items|
  {
    if items != [] {
      hide FaultFree, Final, Messages, Scan;
      var x, rest := items[0], Stream(items[1..]);
      assert IsItem(step, idle, x);
      GotIsStream(step, idle, x.frame);
      StreamConcat(step, idle, x.junk, x.frame);
      StreamMessages(step, idle, items[1..]);
      StreamConcat(step, idle, x.junk + x.frame, rest);
      assert [] + Visible(x.msg) == Visible(x.msg);
    }
  }

  /** Whatever the chunks, they and the draining calls hand out the payloads in order and end idle and empty. */
  lemma ItemsInChunks<S>(step: Machine<S>, idle: S, items: seq<Item>, chunks: seq<seq<byte>>, n: nat)
    requires forall x :: x in items ==> IsItem(step, idle, x)
    requires Concat(chunks) == Stream(items) && n >= |Feed(step, Link(idle, []), chunks).0.fifo|
    ensures [] + Concat(chunks + Empties(n)) == Stream(items)
    ensures FaultFree(step, idle, Stream(items))
    ensures Feed(step, Link(idle, []), chunks + Empties(n)) == (Link(idle, []), Payloads(items))
  {
    hide FaultFree, Final, Messages, Feed, Stream, IsItem;
    StreamMessages(step, idle, items);
    assert [] + Concat(chunks) == Stream(items);
    ChunkingDoesNotMatter(step, Link(idle, []), chunks, n);
    ConcatEmpties(chunks, n);
  }
}
