/**
 * The list element `list_ele_t` of queue.c and the facts about chains of
 * elements linked through `next` that every queue operation relies on.
 * A chain is described by the ghost sequence of its nodes in link order.
 */
module Chains {

  /** One list element: an owned string and the link to its successor. */
  class Node {
    // the string is copied in when the node is created and never reassigned
    const value: seq<char>
    var next: Node?

    constructor (value: seq<char>, next: Node?)
      ensures this.value == value && this.next == next
    {
      this.value := value;
      this.next := next;
    }
  }

  /** The node `ns` starts with, or `t` when `ns` is empty. */
  function First(ns: seq<Node>, t: Node?): Node? {
    if ns == [] then t else ns[0]
  }

  /** The strings held by `ns`, in order. */
  function Values(ns: seq<Node>): seq<seq<char>> {
    seq(|ns|, i requires 0 <= i < |ns| => ns[i].value)
  }

  /** No node occurs twice in `ns`. */
  ghost predicate Distinct(ns: seq<Node>) {
    forall i, j :: 0 <= i < j < |ns| ==> ns[i] != ns[j]
  }

  /** Each node of `ns` links to the one after it, and the last one to `t`. */
  ghost predicate LinkedTo(ns: seq<Node>, t: Node?)
    reads ns
  {
    && (forall i :: 0 <= i < |ns| - 1 ==> ns[i].next == ns[i + 1])
    && (ns != [] ==> ns[|ns| - 1].next == t)
  }

  /**
   * Following `next` from `head` visits exactly the nodes of `ns`, each once,
   * and ends at NULL: the chain is acyclic and has length |ns|.
   */
  ghost predicate Chain(head: Node?, ns: seq<Node>)
    reads ns
  {
    head == First(ns, null) && LinkedTo(ns, null) && Distinct(ns)
  }

  /** Two linked segments join into one, and one splits into two. */
  lemma LinkedConcat(a: seq<Node>, b: seq<Node>, t: Node?)
    ensures LinkedTo(a + b, t) <==> LinkedTo(a, First(b, t)) && LinkedTo(b, t)
  {
    var ab := a + b;
    if LinkedTo(a, First(b, t)) && LinkedTo(b, t) {
      forall i | 0 <= i < |ab| - 1 ensures ab[i].next == ab[i + 1] {
        if i < |a| - 1 {
          assert ab[i] == a[i] && ab[i + 1] == a[i + 1];
        } else if i == |a| - 1 {
          assert ab[i] == a[i] && ab[i + 1] == b[0];
        } else {
          assert ab[i] == b[i - |a|] && ab[i + 1] == b[i - |a| + 1];
        }
      }
      if b == [] {
        assert ab == a;
      }
    }
    if LinkedTo(ab, t) {
      forall i | 0 <= i < |b| - 1 ensures b[i].next == b[i + 1] {
        assert b[i] == ab[|a| + i] && b[i + 1] == ab[|a| + i + 1];
      }
      forall i | 0 <= i < |a| - 1 ensures a[i].next == a[i + 1] {
        assert a[i] == ab[i] && a[i + 1] == ab[i + 1];
      }
      if a != [] && b != [] {
        assert a[|a| - 1] == ab[|a| - 1] && b[0] == ab[|a|];
      }
      if b == [] {
        assert ab == a;
      }
    }
  }

  /** A sequence without repeats splits into two without repeats and no common node. */
  lemma DistinctConcat(a: seq<Node>, b: seq<Node>)
    ensures Distinct(a + b) <==> Distinct(a) && Distinct(b) && forall x :: x in a ==> x !in b
  {
    if Distinct(a + b) {
      forall x | x in a ensures x !in b {
        var i :| 0 <= i < |a| && a[i] == x;
        forall j | 0 <= j < |b| ensures b[j] != x {
          assert (a + b)[i] == a[i] && (a + b)[|a| + j] == b[j];
        }
      }
      forall i, j | 0 <= i < j < |b| ensures b[i] != b[j] {
        assert b[i] == (a + b)[|a| + i] && b[j] == (a + b)[|a| + j];
      }
      forall i, j | 0 <= i < j < |a| ensures a[i] != a[j] {
        assert a[i] == (a + b)[i] && a[j] == (a + b)[j];
      }
    }
    if Distinct(a) && Distinct(b) && forall x :: x in a ==> x !in b {
      forall i, j | 0 <= i < j < |a + b| ensures (a + b)[i] != (a + b)[j] {
        if j < |a| {
        } else if i >= |a| {
          assert (a + b)[i] == b[i - |a|] && (a + b)[j] == b[j - |a|];
        } else {
          assert (a + b)[i] in a && (a + b)[j] in b;
        }
      }
    }
  }

  /** In a sequence without repeats, a node is in neither segment around it. */
  lemma DistinctAround(xs: seq<Node>, y: Node, zs: seq<Node>)
    requires Distinct(xs + [y] + zs)
    ensures y !in xs && y !in zs && Distinct(xs) && Distinct(zs)
    ensures forall x :: x in xs ==> x !in zs
  {
    DistinctConcat(xs + [y], zs);
    DistinctConcat(xs, [y]);
    forall x | x in xs ensures x !in zs {
      assert x in xs + [y];
    }
    assert y in xs + [y];
  }

  /** No repeats means every node is counted at most once. */
  lemma {:induction false} DistinctCount(s: seq<Node>)
    ensures Distinct(s) <==> forall x :: multiset(s)[x] <= 1
  {
    if s != [] {
      var t := s[1..];
      assert s == [s[0]] + t;
      DistinctCount(t);
      DistinctConcat([s[0]], t);
      assert multiset(s) == multiset{s[0]} + multiset(t);
      if forall x :: multiset(s)[x] <= 1 {
        assert forall x :: multiset(t)[x] <= multiset(s)[x];
        assert multiset(t)[s[0]] == multiset(s)[s[0]] - 1 == 0;
      }
    }
  }

  /** Sequences with the same multiset hold the same nodes. */
  lemma MultisetMembers(a: seq<Node>, b: seq<Node>)
    requires multiset(a) == multiset(b)
    ensures forall x :: x in a <==> x in b
  {
    forall x ensures x in a <==> x in b {
      assert x in a <==> x in multiset(a);
      assert x in b <==> x in multiset(b);
    }
  }

  /** Rearranging a sequence without repeats leaves it without repeats. */
  lemma DistinctPermutation(a: seq<Node>, b: seq<Node>)
    requires Distinct(a) && multiset(a) == multiset(b)
    ensures Distinct(b)
  {
    DistinctCount(a);
    DistinctCount(b);
  }

  /** Dropping the first node of `a` keeps `a` and `b` apart and without repeats. */
  lemma DistinctTail(a: seq<Node>, b: seq<Node>)
    requires Distinct(a) && Distinct(b) && a != [] && forall x :: x in a ==> x !in b
    ensures Distinct(a[1..]) && Distinct(a[1..] + b) && a[0] !in a[1..] && a[0] !in b
  {
    assert a == [a[0]] + a[1..];
    DistinctConcat([a[0]], a[1..]);
    DistinctConcat(a[1..], b);
  }

  /** A node followed by a segment is linked when it points at the segment. */
  lemma LinkedCons(x: Node, ns: seq<Node>, t: Node?)
    ensures LinkedTo([x] + ns, t) <==> x.next == First(ns, t) && LinkedTo(ns, t)
  {
    LinkedConcat([x], ns, t);
  }

  /** A segment followed by a node is linked when its last node points at that node. */
  lemma LinkedSnoc(ns: seq<Node>, x: Node, t: Node?)
    ensures LinkedTo(ns + [x], t) <==> LinkedTo(ns, x) && x.next == t
  {
    LinkedConcat(ns, [x], t);
  }

  /** Two segments joined through one node in between. */
  lemma LinkedJoin(xs: seq<Node>, y: Node, zs: seq<Node>, t: Node?)
    ensures LinkedTo(xs + [y] + zs, t) <==> LinkedTo(xs, y) && y.next == First(zs, t) && LinkedTo(zs, t)
  {
    LinkedConcat(xs + [y], zs, t);
    LinkedSnoc(xs, y, First(zs, t));
  }

  /** Cutting a linked segment at `m` gives two linked segments. */
  lemma LinkedSplit(ns: seq<Node>, m: int, t: Node?)
    requires 0 <= m <= |ns| && LinkedTo(ns, t)
    ensures LinkedTo(ns[..m], First(ns[m..], t)) && LinkedTo(ns[m..], t)
  {
    assert ns == ns[..m] + ns[m..];
    LinkedConcat(ns[..m], ns[m..], t);
  }

  /** In a linked segment, node `i` points at node `i + 1`, or past the end after the last. */
  lemma LinkedAt(ns: seq<Node>, t: Node?, i: int)
    requires LinkedTo(ns, t) && 0 <= i < |ns|
    ensures ns[i].next == First(ns[i + 1..], t)
  {
  }

  /** The chain from NULL is empty. */
  lemma ChainNull(ns: seq<Node>)
    requires Chain(null, ns)
    ensures ns == []
  {
  }

  /** The chain after the first node is the rest of the nodes, and the first node is not on it. */
  lemma ChainTail(head: Node?, ns: seq<Node>)
    requires Chain(head, ns) && ns != []
    ensures head == ns[0] && Chain(ns[0].next, ns[1..]) && ns[0] !in ns[1..]
  {
    assert ns == [ns[0]] + ns[1..];
    LinkedCons(ns[0], ns[1..], null);
    DistinctConcat([ns[0]], ns[1..]);
  }

  /** Prepending a node that links to a chain and is not on it gives a chain. */
  lemma ChainCons(x: Node, head: Node?, ns: seq<Node>)
    requires Chain(head, ns) && x.next == head && x !in ns
    ensures Chain(x, [x] + ns)
  {
    LinkedConcat([x], ns, null);
    DistinctConcat([x], ns);
  }

  /** The sequence in the opposite order. */
  function Reversed<T>(s: seq<T>): seq<T> {
    if s == [] then [] else [s[|s| - 1]] + Reversed(s[..|s| - 1])
  }

  /** Position k of the reversal holds position |s| - 1 - k of the original. */
  lemma {:induction false} ReversedAt<T>(s: seq<T>, k: int)
    requires 0 <= k < |s|
    ensures |Reversed(s)| == |s| && Reversed(s)[k] == s[|s| - 1 - k]
  {
    if k > 0 {
      ReversedAt(s[..|s| - 1], k - 1);
    } else if |s| > 1 {
      ReversedAt(s[..|s| - 1], 0);
    }
  }

  /** Reversing twice gives back the original. */
  lemma ReversedTwice<T>(s: seq<T>)
    ensures Reversed(Reversed(s)) == s
  {
    if s != [] {
      ReversedAt(s, 0);
      ReversedAt(Reversed(s), 0);
    }
    forall k | 0 <= k < |s| ensures |Reversed(Reversed(s))| == |s| && Reversed(Reversed(s))[k] == s[k] {
      ReversedAt(s, k);
      ReversedAt(s, |s| - 1 - k);
      ReversedAt(Reversed(s), k);
    }
  }

  /** The strings of the reversed nodes are the reversed strings. */
  lemma ValuesReversed(ns: seq<Node>)
    ensures Values(Reversed(ns)) == Reversed(Values(ns))
  {
    if ns != [] {
      ReversedAt(ns, 0);
      ReversedAt(Values(ns), 0);
    }
    forall k | 0 <= k < |ns|
      ensures |Reversed(ns)| == |ns| && |Reversed(Values(ns))| == |ns|
      ensures Values(Reversed(ns))[k] == Reversed(Values(ns))[k]
    {
      ReversedAt(ns, k);
      ReversedAt(Values(ns), k);
    }
  }

  /** Reversing keeps a sequence of nodes free of repeats and keeps its length. */
  lemma ReversedDistinct(ns: seq<Node>)
    requires Distinct(ns)
    ensures Distinct(Reversed(ns)) && |Reversed(ns)| == |ns|
  {
    if ns != [] {
      ReversedAt(ns, 0);
    }
    forall i, j | 0 <= i < j < |Reversed(ns)| ensures Reversed(ns)[i] != Reversed(ns)[j] {
      ReversedAt(ns, i);
      ReversedAt(ns, j);
    }
  }
  /** A sequence of at most one element is its own reversal. */
  lemma ReversedShort<T>(s: seq<T>)
    requires |s| <= 1
    ensures Reversed(s) == s
  {
    if |s| == 1 {
      assert s[..0] == [];
    }
  }

  /**
   * Nodes that each link back to the node before them, the first one to NULL,
   * form the chain of the reversed sequence, starting at the last node.
   */
  lemma LinkedBackward(ns: seq<Node>)
    requires Distinct(ns) && ns != []
    requires ns[0].next == null && forall i :: 1 <= i < |ns| ==> ns[i].next == ns[i - 1]
    ensures Chain(ns[|ns| - 1], Reversed(ns))
  {
    ReversedDistinct(ns);
    ReversedAt(ns, 0);
    ReversedAt(ns, |ns| - 1);
    forall i | 0 <= i < |ns| - 1 ensures Reversed(ns)[i].next == Reversed(ns)[i + 1] {
      ReversedAt(ns, i);
      ReversedAt(ns, i + 1);
    }
  }
}
