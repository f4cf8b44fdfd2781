/**
 The intrusive circular list. A ghost sequence names the nodes of one ring in
 `next` order, the list head first; the nodes behind the head are the elements.
 */
module CList {

  class Node {
    var next: Node
    var prev: Node

    /** `CLIST_INIT`: linked to itself. */
    constructor ()
      ensures next == this && prev == this
    {
      next := this;
      prev := this;
    }
  }

  function After(s: seq<Node>, i: nat): Node
    requires i < |s|
  {
    if i + 1 < |s| then s[i + 1] else s[0]
  }

  function Before(s: seq<Node>, i: nat): Node
    requires i < |s|
  {
    if i > 0 then s[i - 1] else s[|s| - 1]
  }

  ghost predicate Distinct(s: seq<Node>) {
    forall i, j :: 0 <= i < j < |s| ==> s[i] != s[j]
  }

  /** `next` and `prev` agree on b following a. */
  ghost predicate Linked(a: Node, b: Node)
    reads a, b
  {
    a.next == b && b.prev == a
  }

  /** One ring through all of s, closed behind the last node. */
  ghost predicate IsRing(s: seq<Node>)
    reads s
  {
    s != [] && Distinct(s) && forall i :: 0 <= i < |s| ==> Linked(s[i], After(s, i))
  }

  /** So `prev` is the inverse of `next` all the way round. */
  lemma PrevIsBefore(s: seq<Node>, i: nat)
    requires IsRing(s) && i < |s|
    ensures s[i].prev == Before(s, i) && s[i].next == After(s, i)
    ensures s[i].next.prev == s[i] && s[i].prev.next == s[i]
  {}

  ghost predicate SelfLinked(n: Node)
    reads n
  {
    n.next == n && n.prev == n
  }

  /** Linking in before node i; before the head means at the end of the list. */
  function InsertedBefore(s: seq<Node>, i: nat, n: Node): seq<Node>
    requires i < |s|
  {
    if i == 0 then s + [n] else s[..i] + [n] + s[i..]
  }

  function InsertedAfter(s: seq<Node>, i: nat, n: Node): seq<Node>
    requires i < |s|
  {
    s[..i + 1] + [n] + s[i + 1..]
  }

  function Removed(s: seq<Node>, i: nat): seq<Node>
    requires i < |s|
  {
    s[..i] + s[i + 1..]
  }

  method Init(list: Node) returns (r: Node)
    modifies list
    ensures SelfLinked(list) && r == list
    ensures IsRing([list])
  {
    list.next := list;
    list.prev := list;
    return list;
  }

  predicate IsEmpty(list: Node, ghost s: seq<Node>)
    reads list, s
    requires IsRing(s) && s[0] == list
    ensures IsEmpty(list, s) <==> s[1..] == []
  {
    list.next == list
  }

  /** Node by node: s with n put in at position `at`. */
  function InsertedAt(s: seq<Node>, at: nat, n: Node): (r: seq<Node>)
    requires at <= |s|
    ensures |r| == |s| + 1
    ensures forall k :: 0 <= k < |r| ==> r[k] == if k < at then s[k] else if k == at then n else s[k - 1]
  {
    s[..at] + [n] + s[at..]
  }

  lemma InsertedAtIs(s: seq<Node>, i: nat, n: Node)
    requires i < |s|
    ensures InsertedBefore(s, i, n) == InsertedAt(s, if i == 0 then |s| else i, n)
    ensures InsertedAfter(s, i, n) == InsertedAt(s, i + 1, n)
  {}

  /** No node occurs twice, neither in the sequence nor as the one that comes after. */
  lemma DistinctAfter(s: seq<Node>, j: nat, k: nat)
    requires Distinct(s) && j < |s| && k < |s| && j != k
    ensures s[j] != s[k] && After(s, j) != After(s, k)
  {}

  lemma AfterIsThere(s: seq<Node>, i: nat)
    requires i < |s|
    ensures After(s, i) in s
  {}

  lemma AfterBefore(s: seq<Node>, i: nat)
    requires i < |s|
    ensures var b := (if i == 0 then |s| else i) - 1; Before(s, i) == s[b] && After(s, b) == s[i]
  {}

  /** A ring opened behind node `at - 1`, with n linked to both ends, is the ring with n put in. */
  lemma ClosedWith(s: seq<Node>, at: nat, n: Node)
    requires 0 < at <= |s| && Distinct(s) && n !in s
    requires forall j :: 0 <= j < |s| && j != at - 1 ==> Linked(s[j], After(s, j))
    requires Linked(s[at - 1], n) && Linked(n, After(s, at - 1))
    ensures IsRing(InsertedAt(s, at, n))
  {
    var r := InsertedAt(s, at, n);
    hide InsertedAt;
    forall k | 0 <= k < |r|
      ensures Linked(r[k], After(r, k))
    {
      assert k < at - 1 ==> After(r, k) == After(s, k);
      assert k > at ==> After(r, k) == After(s, k - 1);
    }
  }

  /** Taking out node i changes only what comes after the node before it. */
  lemma RemovedAt(s: seq<Node>, i: nat, k: nat)
    requires Distinct(s) && i < |s| && k < |s| - 1
    ensures var r, j := Removed(s, i), if k < i then k else k + 1;
            && |r| == |s| - 1 && r[k] == s[j]
            && After(r, k) == (if After(s, j) == s[i] then After(s, i) else After(s, j))
            && (After(s, j) == s[i] ==> s[j] == Before(s, i))
  {
    var b := if i == 0 then |s| - 1 else i - 1;
    var j := if k < i then k else k + 1;
    if j != b {
      DistinctAfter(s, j, b);
    }
  }

  lemma RemovedIsDistinct(s: seq<Node>, i: nat)
    requires Distinct(s) && i < |s|
    ensures Distinct(Removed(s, i))
  {}

  /** A ring with the neighbours of node i linked to each other is the ring without it. */
  lemma ClosedWithout(s: seq<Node>, i: nat)
    requires i < |s| && |s| > 1 && Distinct(s)
    requires forall j :: 0 <= j < |s| && j != i && After(s, j) != s[i] ==> Linked(s[j], After(s, j))
    requires Linked(Before(s, i), After(s, i))
    ensures IsRing(Removed(s, i))
  {
    RemovedIsDistinct(s, i);
    RemovedAt(s, i, 0);
    hide Removed, After, Before, Distinct;
    forall k | 0 <= k < |s| - 1
      ensures Linked(Removed(s, i)[k], After(Removed(s, i), k))
    {
      RemovedAt(s, i, k);
    }
  }

  method InsertBefore(target: Node, n: Node, ghost s: seq<Node>, ghost i: nat)
    requires IsRing(s) && i < |s| && s[i] == target && n !in s
    modifies target, target.prev, n
    ensures IsRing(InsertedBefore(s, i, n))
  {
    hide InsertedAt, InsertedBefore, InsertedAfter, After, Before, Distinct;
    ghost var at := if i == 0 then |s| else i;
    PrevIsBefore(s, i);
    AfterBefore(s, i);
    InsertedAtIs(s, i, n);
    var prev := target.prev;
    prev.next := n;
    n.prev := prev;
    n.next := target;
    target.prev := n;
    forall j | 0 <= j < |s| && j != at - 1
      ensures Linked(s[j], After(s, j))
    {
      assert old(Linked(s[j], After(s, j)));
      AfterIsThere(s, j);
      DistinctAfter(s, j, at - 1);
    }
    ClosedWith(s, at, n);
  }

  method InsertAfter(target: Node, n: Node, ghost s: seq<Node>, ghost i: nat)
    requires IsRing(s) && i < |s| && s[i] == target && n !in s
    modifies target, target.next, n
    ensures IsRing(InsertedAfter(s, i, n))
  {
    hide InsertedAt, InsertedBefore, InsertedAfter, After, Before, Distinct;
    PrevIsBefore(s, i);
    AfterIsThere(s, i);
    InsertedAtIs(s, i, n);
    var next := target.next;
    target.next := n;
    n.prev := target;
    n.next := next;
    next.prev := n;
    forall j | 0 <= j < |s| && j != i
      ensures Linked(s[j], After(s, j))
    {
      assert old(Linked(s[j], After(s, j)));
      AfterIsThere(s, j);
      DistinctAfter(s, j, i);
    }
    ClosedWith(s, i + 1, n);
  }

  /** The ring closes behind the removed node, which keeps its own links. */
  method Remove(target: Node, ghost s: seq<Node>, ghost i: nat)
    requires IsRing(s) && i < |s| && s[i] == target
    modifies target.prev, target.next
    ensures |s| > 1 ==> IsRing(Removed(s, i))
    ensures target.next == old(target.next) && target.prev == old(target.prev)
  {
    hide Removed, After, Before, Distinct;
    PrevIsBefore(s, i);
    AfterBefore(s, i);
    ghost var b := if i == 0 then |s| - 1 else i - 1;
    var prev := target.prev;
    var next := target.next;
    prev.next := next;
    next.prev := prev;
    if |s| > 1 {
      forall j | 0 <= j < |s| && j != i && After(s, j) != s[i]
        ensures Linked(s[j], After(s, j))
      {
        assert old(Linked(s[j], After(s, j)));
        DistinctAfter(s, j, i);
        DistinctAfter(s, j, b);
      }
      ClosedWithout(s, i);
    }
  }

  method Prepend(list: Node, n: Node, ghost s: seq<Node>)
    requires IsRing(s) && s[0] == list && n !in s
    modifies list, list.next, n
    ensures IsRing([list, n] + s[1..])
  {
    InsertAfter(list, n, s, 0);
    assert InsertedAfter(s, 0, n) == [list, n] + s[1..];
  }

  method Append(list: Node, n: Node, ghost s: seq<Node>)
    requires IsRing(s) && s[0] == list && n !in s
    modifies list, list.prev, n
    ensures IsRing(s + [n])
  {
    InsertBefore(list, n, s, 0);
  }

  method Head(list: Node, ghost s: seq<Node>) returns (r: Node?)
    requires IsRing(s) && s[0] == list
    ensures r == if |s| == 1 then null else s[1]
  {
    r := if IsEmpty(list, s) then null else list.next;
  }

  method Tail(list: Node, ghost s: seq<Node>) returns (r: Node?)
    requires IsRing(s) && s[0] == list
    ensures r == if |s| == 1 then null else s[|s| - 1]
  {
    r := if IsEmpty(list, s) then null else list.prev;
  }

  lemma RemovedInserted(s: seq<Node>, i: nat, n: Node)
    requires i < |s|
    ensures var before, at := InsertedBefore(s, i, n), if i == 0 then |s| else i;
            && |before| == |s| + 1 && before[at] == n && Removed(before, at) == s
            && Before(before, at) == Before(s, i) && After(before, at) == s[i]
    ensures var after := InsertedAfter(s, i, n);
            && |after| == |s| + 1 && after[i + 1] == n && Removed(after, i + 1) == s
            && Before(after, i + 1) == s[i] && After(after, i + 1) == After(s, i)
  {}

  /** Linking a node in, on either side of any node of a ring, and removing it again gives the ring back. */
  method InsertRemove(target: Node, n: Node, after: bool, ghost s: seq<Node>, ghost i: nat)
    requires IsRing(s) && i < |s| && s[i] == target && n !in s
    modifies target, target.prev, target.next, n
    ensures IsRing(s)
  {
    hide InsertedBefore, InsertedAfter, Removed, After, Before;
    RemovedInserted(s, i, n);
    PrevIsBefore(s, i);
    ghost var ring, at := InsertedBefore(s, i, n), if i == 0 then |s| else i;
    if after {
      ring, at := InsertedAfter(s, i, n), i + 1;
      InsertAfter(target, n, s, i);
    } else {
      InsertBefore(target, n, s, i);
    }
    PrevIsBefore(ring, at);
    Remove(n, ring, at);
  }

  /** `CLIST_ITER`: visits the elements in order. */
  method Iter(list: Node, ghost s: seq<Node>) returns (visited: seq<Node>)
    requires IsRing(s) && s[0] == list
    ensures visited == s[1..]
  {
    visited := [];
    assert Linked(s[0], After(s, 0));
    var iter := list.next;
    ghost var i := 1;
    while iter != list
      invariant 1 <= i <= |s| && iter == After(s, i - 1)
      invariant visited == s[1..i]
      decreases |s| - i
    {
      visited := visited + [iter];
      assert i < |s| && Linked(s[i], After(s, i));
      iter := iter.next;
      i := i + 1;
    }
  }

  /** The nodes of s that are not in `drop`, in order. */
  function Keep(s: seq<Node>, drop: set<Node>): seq<Node> {
    if s == [] then []
    else Keep(s[..|s| - 1], drop) + if s[|s| - 1] in drop then [] else [s[|s| - 1]]
  }

  /** Node by node: those in `drop` go, the others stay, and all in their order. */
  lemma {:induction false} KeepAppend(a: seq<Node>, b: seq<Node>, n: Node, drop: set<Node>)
    ensures Keep(a + b, drop) == Keep(a, drop) + Keep(b, drop)
    ensures Keep([n], drop) == if n in drop then [] else [n]
    decreases |b|
  {
    assert [n][..0] == [];
    if b == [] {
      assert a + b == a;
    } else {
      assert (a + b)[..|a + b| - 1] == a + b[..|b| - 1];
      KeepAppend(a, b[..|b| - 1], n, drop);
    }
  }

  /**
   `CLIST_ITER_SAFE` with a body that removes the current node when it is in
   `drop`: each original element is visited once, in order, and the others stay linked.
   */
  method IterSafe(list: Node, drop: set<Node>, ghost s: seq<Node>) returns (visited: seq<Node>)
    requires IsRing(s) && s[0] == list && list !in drop
    modifies s
    ensures visited == s[1..]
    ensures IsRing(Keep(s, drop))
  {
    hide IsRing, Keep, Remaining, Removed;
    visited := [];
    ghost var ring, k := s, 1;
    RingNotEmpty(s);
    PrevIsBefore(s, 0);
    var iter := list.next;
    PrevIsBefore(s, if |s| > 1 then 1 else 0);
    var safe := iter.next;
    ghost var i := 1;
    KeepOne(s, drop);
    while iter != list
      invariant 1 <= i <= |s| && visited == s[1..i]
      invariant IsRing(ring) && Remaining(s, i, drop, ring, k) && 0 < k <= |ring| && ring[0] == list
      invariant forall n :: n in ring ==> n in s
      invariant iter == After(ring, k - 1) && (iter != list ==> safe == iter.next)
      decreases |s| - i
    {
      assert k < |ring|;
      KeepMore(s, i, drop, ring, k);
      PrevIsBefore(ring, k);
      RemovedAfter(ring, k);
      visited := visited + [iter];
      if iter in drop {
        assert Before(ring, k) in ring && After(ring, k) in ring;
        Remove(iter, ring, k);
        ring := Removed(ring, k);
      } else {
        k := k + 1;
      }
      RingNotEmpty(ring);
      iter := safe;
      assert iter == After(ring, k - 1);
      PrevIsBefore(ring, if k < |ring| then k else 0);
      safe := safe.next;
      i := i + 1;
    }
    RingNotEmpty(ring);
    KeepAll(s, i, drop, ring, k);
  }

  lemma RingNotEmpty(s: seq<Node>)
    requires IsRing(s)
    ensures s != [] && Distinct(s)
  {}

  lemma RemovedAfter(s: seq<Node>, k: nat)
    requires 0 < k < |s|
    ensures var r := Removed(s, k);
            && 0 < k <= |r| && r[0] == s[0] && After(r, k - 1) == After(s, k)
            && (forall n :: n in r ==> n in s)
  {}

  lemma KeepAll(s: seq<Node>, i: nat, drop: set<Node>, ring: seq<Node>, k: nat)
    requires Remaining(s, i, drop, ring, k) && Distinct(ring) && 0 < k <= |ring| && After(ring, k - 1) == ring[0]
    ensures i == |s| && ring == Keep(s, drop)
  {
    assert k == |ring|;
    assert s[..i] == s && ring[..k] == ring;
  }

  /** After i nodes of s the ring holds those kept of them, k in number, and then the rest of s. */
  ghost predicate Remaining(s: seq<Node>, i: nat, drop: set<Node>, ring: seq<Node>, k: nat) {
    && 0 < i <= |s| && 0 < k <= |ring| && |ring| - k == |s| - i
    && ring[0] == s[0]
    && ring[..k] == Keep(s[..i], drop) && ring[k..] == s[i..]
  }

  lemma KeepOne(s: seq<Node>, drop: set<Node>)
    requires s != [] && s[0] !in drop
    ensures Remaining(s, 1, drop, s, 1)
  {}

  lemma KeepMore(s: seq<Node>, i: nat, drop: set<Node>, ring: seq<Node>, k: nat)
    requires Remaining(s, i, drop, ring, k) && k < |ring|
    ensures i < |s| && ring[k] == s[i]
    ensures s[i] in drop ==> Remaining(s, i + 1, drop, Removed(ring, k), k)
    ensures s[i] !in drop ==> Remaining(s, i + 1, drop, ring, k + 1)
  {
    assert s[..i + 1][..i] == s[..i];
    assert ring[k] == ring[k..][0];
    assert s[i + 1..] == s[i..][1..];
    assert ring[k + 1..] == ring[k..][1..];
    if s[i] in drop {
      assert Removed(ring, k)[..k] == ring[..k];
      assert Removed(ring, k)[k..] == ring[k + 1..];
    } else {
      assert ring[..k + 1] == ring[..k] + [ring[k]];
    }
  }

  /** `CLIST_FLUSH`: unlinks while it walks, yet reaches every node and stops at the head. */
  method FlushAll(list: Node, ghost s: seq<Node>)
    requires IsRing(s) && s[0] == list
    modifies s
    ensures forall n :: n in s ==> n.next == n && n.prev == n
  {
    assert forall j :: 0 <= j < |s| ==> Linked(s[j], After(s, j));
    var iter := list.next;
    var safe := iter.next;
    ghost var i := 1;
    var r := Init(iter);
    while r != list
      invariant 1 <= i <= |s| && r == iter == After(s, i - 1)
      invariant forall j :: 1 <= j < i ==> SelfLinked(s[j])
      invariant SelfLinked(iter)
      invariant forall j :: i < j < |s| ==> s[j].next == After(s, j)
      invariant i < |s| ==> safe == After(s, i) && list.next == s[1]
      decreases |s| - i
    {
      assert i < |s|;
      iter := safe;
      assert iter == After(s, i) && (i + 1 < |s| ==> iter == s[i + 1]);
      safe := safe.next;
      i := i + 1;
      assert i < |s| ==> safe == After(s, i);
      r := Init(iter);
    }
    assert SelfLinked(s[0]);
  }
}
