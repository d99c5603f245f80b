/**
 * The list sorts of queue.c working in place on chains of nodes: `merge`,
 * `insertion_sort_list` and `merge_sort_list`. Each method relinks the
 * `next` fields of the nodes it is given and nothing else, and returns the
 * new first node together with the ghost sequence of nodes in their new
 * order, which its contract ties to the functions of SortSpec.
 */
module Sorting {
  import opened Strings
  import opened Chains
  import opened SortSpec

  /**
   * `merge` (queue.c:199-213): relinks two chains into one, taking the head
   * of `l1` while its string is no larger than that of `l2`.
   */
  method Merge(l1: Node?, l2: Node?, ghost a: seq<Node>, ghost b: seq<Node>) returns (r: Node?, ghost rs: seq<Node>)
    requires Chain(l1, a) && Chain(l2, b) && Distinct(a + b)
    modifies a, b
    ensures rs == Merged(a, b) && Chain(r, rs)
    decreases |a| + |b|
  {
    if l2 == null {
      ChainNull(b);
      return l1, a;
    }
    if l1 == null {
      ChainNull(a);
      return l2, b;
    }
    DistinctConcat(a, b);
    if Strcmp(l1.value, l2.value) <= 0 {
      ChainTail(l1, a);
      DistinctTail(a, b);
      var m, ms := Merge(l1.next, l2, a[1..], b);
      MergedMembers(a[1..], b);
      l1.next := m;
      ChainCons(l1, m, ms);
      MergedTakesLeft(a, b);
      return l1, [l1] + ms;
    } else {
      ChainTail(l2, b);
      DistinctTail(b, a);
      DistinctConcat(a, b[1..]);
      var m, ms := Merge(l1, l2.next, a, b[1..]);
      MergedMembers(a, b[1..]);
      l2.next := m;
      ChainCons(l2, m, ms);
      MergedTakesRight(a, b);
      return l2, [l2] + ms;
    }
  }

  /**
   * The slow/fast walk of `merge_sort_list` (queue.c:221-226): `fast` moves
   * two steps for each step of `slow`, so `slow` stops on the last node of
   * the first ceil(n/2) nodes.
   */
  method Middle(head: Node, ghost s: seq<Node>) returns (slow: Node)
    requires Chain(head, s) && head.next != null
    ensures |s| >= 2 && slow == s[(|s| + 1) / 2 - 1]
  {
    LinkedAt(s, null, 0);
    var fast := head.next;
    slow := head;
    ghost var k := 0;
    while fast != null && fast.next != null
      invariant 0 <= k && 2 * k + 1 <= |s|
      invariant slow == s[k]
      invariant fast == First(s[2 * k + 1..], null)
      decreases |s| - 2 * k
    {
      LinkedAt(s, null, k);
      LinkedAt(s, null, 2 * k + 1);
      LinkedAt(s, null, 2 * k + 2);
      fast := fast.next.next;
      slow := slow.next;
      k := k + 1;
    }
    if fast != null {
      LinkedAt(s, null, 2 * k + 1);
    }
  }

  /**
   * The cut of queue.c:227-228: the node after `slow` is kept as the start
   * of the second half and `slow` is made the last node, so the chain ends
   * at its m-th node.
   */
  method CutAfter(slow: Node, ghost s: seq<Node>, ghost m: int) returns (fast: Node?)
    requires Chain(First(s, null), s) && 1 <= m < |s| && slow == s[m - 1]
    modifies slow
    ensures Chain(s[0], s[..m]) && Chain(fast, s[m..])
    ensures forall x :: x in s[..m] ==> x !in s[m..]
  {
    ghost var init := s[..m - 1];
    assert s[..m] == init + [slow];
    assert LinkedTo(init, slow) && LinkedTo(s[m..], null) && slow.next == First(s[m..], null) by {
      LinkedSplit(s, m - 1, null);
      LinkedSplit(s, m, null);
      LinkedAt(s, null, m - 1);
    }
    assert Distinct(s[..m]) && Distinct(s[m..]) && (forall x :: x in s[..m] ==> x !in s[m..]) by {
      assert s == s[..m] + s[m..];
      DistinctConcat(s[..m], s[m..]);
    }
    assert slow !in init && slow !in s[m..] by {
      DistinctConcat(init, [slow]);
    }
    fast := slow.next;
    slow.next := null;
    LinkedSnoc(init, slow, null);
  }

  /**
   * The counting loops of `merge_sort_list` (queue.c:230-236, 243-248): the
   * number of `next` steps from the first node to the last, one less than
   * the length.
   */
  method Steps(head: Node, ghost s: seq<Node>) returns (size: int)
    requires Chain(head, s)
    ensures size == |s| - 1
  {
    var tmp := head;
    size := 0;
    while tmp.next != null
      invariant 0 <= size < |s| && tmp == s[size]
      decreases |s| - size
    {
      LinkedAt(s, null, size);
      tmp := tmp.next;
      size := size + 1;
    }
    LinkedAt(s, null, size);
  }

  /**
   * `merge_sort_list` (queue.c:216-256): cuts a chain of two or more nodes
   * after its first ceil(n/2) nodes and hands both halves to SortHalves.
   */
  method MergeSortList(head: Node?, ghost s: seq<Node>) returns (r: Node?, ghost rs: seq<Node>)
    requires Chain(head, s)
    modifies s
    ensures rs == HybridSort(s) && Chain(r, rs)
    decreases |s|, 1
  {
    if head == null || head.next == null {
      if head != null {
        ChainTail(head, s);
        ChainNull(s[1..]);
        assert s == [head];
      }
      return head, s;
    }
    var slow := Middle(head, s);
    ghost var m := (|s| + 1) / 2;
    var fast := CutAfter(slow, s, m);
    assert forall x :: x in s[..m] || x in s[m..] ==> x in s by {
      assert s == s[..m] + s[m..];
    }
    r, rs := SortHalves(head, fast, s[..m], s[m..]);
  }

  /**
   * The rest of `merge_sort_list` (queue.c:230-255): sorts the two halves
   * one after the other with SortHalf and merges the results.
   */
  method SortHalves(head: Node, fast: Node, ghost left: seq<Node>, ghost right: seq<Node>) returns (r: Node?, ghost rs: seq<Node>)
    requires Chain(head, left) && Chain(fast, right)
    requires forall x :: x in left ==> x !in right
    modifies left, right
    ensures rs == Merged(HalfSort(left), HalfSort(right)) && Chain(r, rs)
    decreases |left| + |right|, 0
  {
    assert forall i :: 0 <= i < |right| ==> right[i] !in left;
    var l1, ls1 := SortHalf(head, left);
    MultisetMembers(ls1, left);
    forall i | 0 <= i < |ls1| ensures ls1[i] in left && ls1[i] !in right {
      assert ls1[i] in ls1;
    }
    var l2, ls2 := SortHalf(fast, right);
    MultisetMembers(ls2, right);
    forall i | 0 <= i < |ls2| ensures ls2[i] in right && ls2[i] !in ls1 {
      assert ls2[i] in ls2;
    }
    assert Distinct(ls1 + ls2) by {
      DistinctConcat(ls1, ls2);
    }
    r, rs := Merge(l1, l2, ls1, ls2);
  }

  /**
   * One half in `merge_sort_list` (queue.c:230-241 and 243-253): counts its
   * `next` steps, then sorts it recursively when there are more than
   * Threshold of them and by insertion sort otherwise.
   */
  method SortHalf(head: Node, ghost s: seq<Node>) returns (r: Node?, ghost rs: seq<Node>)
    requires Chain(head, s)
    modifies s
    ensures rs == HalfSort(s) && Chain(r, rs)
    decreases |s|, 2
  {
    var size := Steps(head, s);
    if size > Threshold {
      r, rs := MergeSortList(head, s);
    } else {
      r, rs := InsertionSortList(head, s);
    }
  }

  /**
   * `insertion_sort_list` (queue.c:258-298): counts the nodes, then for each
   * node after the sorted prefix finds its place with FindPlace and relinks
   * it there; the prefix after i rounds is the reference sort of the first
   * i nodes.
   */
  method InsertionSortList(head: Node?, ghost s: seq<Node>) returns (r: Node?, ghost rs: seq<Node>)
    requires Chain(head, s)
    modifies s
    ensures rs == StableSort(s) && Chain(r, rs)
  {
    if head == null {
      ChainNull(s);
      return null, [];
    }
    var size := Length(head, s);
    LinkedAt(s, null, 0);
    r := head;
    var curr := head.next;
    var tail: Node := head;
    ghost var sorted: seq<Node> := [head];
    assert s[..1] == [head] && sorted + s[1..] == s;
    StableSortShort(s[..1]);
    for i := 1 to size
      invariant sorted == StableSort(s[..i])
      invariant Chain(r, sorted + s[i..]) && tail == sorted[i - 1] && curr == First(s[i..], null)
    {
      PrefixStep(s, i);
      r, tail := InsertStep(r, tail, curr, i, sorted, s[i..], s);
      sorted := Insert(sorted, s[i]);
      LinkedAt(sorted + s[i + 1..], null, i);
      curr := tail.next;
    }
    assert s[..|s|] == s && sorted + s[|s|..] == sorted;
    return r, sorted;
  }

  /** Moving the first node after the sorted prefix to position j keeps the nodes apart. */
  lemma MoveDistinct(sorted: seq<Node>, rest: seq<Node>, j: int)
    requires Distinct(sorted + rest) && rest != [] && 0 <= j <= |sorted|
    ensures Distinct(sorted[..j] + [rest[0]] + sorted[j..] + rest[1..])
  {
    var moved := sorted[..j] + [rest[0]] + sorted[j..] + rest[1..];
    assert sorted + rest == sorted[..j] + sorted[j..] + ([rest[0]] + rest[1..]);
    assert multiset(moved) == multiset(sorted + rest);
    DistinctPermutation(sorted + rest, moved);
  }

  /** The facts about sequences that one round of InsertionSortList relies on. */
  lemma PrefixStep(s: seq<Node>, i: int)
    requires 0 <= i < |s|
    ensures |StableSort(s[..i])| == i
    ensures StableSort(s[..i + 1]) == Insert(StableSort(s[..i]), s[i])
    ensures multiset(StableSort(s[..i]) + s[i..]) == multiset(s)
    ensures s[i..] != [] && s[i..][0] == s[i] && s[i..][1..] == s[i + 1..]
    ensures (Insert(StableSort(s[..i]), s[i]) + s[i + 1..])[i + 1..] == s[i + 1..]
  {
    StableSortStep(s, i);
    assert s == s[..i] + s[i..];
  }

  /** The counting loop of `insertion_sort_list` (queue.c:262-268): the number of nodes. */
  method Length(head: Node?, ghost s: seq<Node>) returns (size: int)
    requires Chain(head, s)
    ensures size == |s|
  {
    var tmp := head;
    size := 0;
    while tmp != null
      invariant 0 <= size <= |s| && tmp == First(s[size..], null)
      decreases |s| - size
    {
      LinkedAt(s, null, size);
      size := size + 1;
      tmp := tmp.next;
    }
  }

  /**
   * One round of the outer loop of `insertion_sort_list` (queue.c:275-293):
   * `curr`, the node after the sorted prefix, is relinked where Insert puts
   * it; the last node of the prefix stays `tail` unless `curr` is placed
   * after it.
   */
  method InsertStep(head: Node, tail: Node, curr: Node, i: int, ghost sorted: seq<Node>, ghost rest: seq<Node>, ghost s: seq<Node>)
    returns (newHead: Node, newTail: Node)
    requires Chain(head, sorted + rest) && |sorted| == i > 0 && rest != []
    requires tail == sorted[i - 1] && curr == rest[0]
    requires multiset(sorted + rest) == multiset(s)
    modifies s
    ensures Chain(newHead, Insert(sorted, curr) + rest[1..]) && newTail == Insert(sorted, curr)[i]
  {
    var tmp, prev, j := FindPlace(head, curr, i, sorted, rest);
    assert tail in multiset(s) && curr in multiset(s) && prev in multiset(s) by {
      assert tail == (sorted + rest)[i - 1] && curr == (sorted + rest)[i];
      assert prev == (sorted + rest)[if j == 0 then 0 else j - 1];
    }
    newHead, newTail := head, tail;
    if tmp == head {
      newHead := InsertFront(head, tail, curr, sorted, rest);
      assert sorted[..0] + [curr] + sorted[0..] == [curr] + sorted;
    } else if tmp == curr {
      newTail := curr;
      assert sorted[..i] + [curr] + sorted[i..] + rest[1..] == sorted + rest;
    } else {
      InsertAfter(prev, tmp, tail, curr, sorted, rest, j);
    }
  }

  /**
   * The inner loop of `insertion_sort_list` (queue.c:275-282): walks the
   * sorted prefix from its first node while the strings are no larger than
   * that of `curr`, and stops at the j-th node, where Insert puts `curr`.
   */
  method FindPlace(head: Node, curr: Node, i: int, ghost sorted: seq<Node>, ghost rest: seq<Node>)
    returns (tmp: Node, prev: Node, ghost j: int)
    requires Chain(head, sorted + rest) && |sorted| == i > 0 && rest != [] && curr == rest[0]
    ensures 0 <= j <= i && Insert(sorted, curr) == sorted[..j] + [curr] + sorted[j..]
    ensures tmp == (sorted + rest)[j] && prev == sorted[if j == 0 then 0 else j - 1]
    ensures (tmp == head <==> j == 0) && (tmp == curr <==> j == i)
  {
    ghost var ns := sorted + rest;
    tmp := head;
    prev := head;
    var k := 0;
    while k < i && Strcmp(tmp.value, curr.value) <= 0
      invariant 0 <= k <= i && tmp == ns[k]
      invariant prev == sorted[if k == 0 then 0 else k - 1]
      invariant forall t :: 0 <= t < k ==> Le(sorted[t].value, curr.value)
    {
      LinkedAt(ns, null, k);
      tmp := tmp.next;
      if k != 0 {
        LinkedAt(ns, null, k - 1);
        prev := prev.next;
      }
      k := k + 1;
    }
    j := k;
    InsertAt(sorted, curr, j);
  }

  /**
   * `curr` is unlinked from after `tail` and becomes the first node, in
   * front of the whole sorted prefix (queue.c:283-286).
   */
  method InsertFront(head: Node, tail: Node, curr: Node, ghost sorted: seq<Node>, ghost rest: seq<Node>)
    returns (newHead: Node)
    requires Chain(head, sorted + rest) && sorted != [] && rest != []
    requires tail == sorted[|sorted| - 1] && curr == rest[0]
    modifies tail, curr
    ensures newHead == curr && Chain(curr, [curr] + sorted + rest[1..])
  {
    ghost var p, rr := sorted[..|sorted| - 1], rest[1..];
    assert sorted == p + [tail];
    assert LinkedTo(p, tail) && curr.next == First(rr, null) && LinkedTo(rr, null) by {
      assert sorted + rest == p + [tail] + ([curr] + rr);
      LinkedJoin(p, tail, [curr] + rr, null);
      LinkedCons(curr, rr, null);
    }
    assert tail !in p && curr !in p && tail !in rr && curr !in rr && tail != curr by {
      assert sorted + rest == p + [tail] + ([curr] + rr);
      DistinctAround(p, tail, [curr] + rr);
      assert [] + [curr] + rr == [curr] + rr;
      DistinctAround([], curr, rr);
    }
    assert Distinct([curr] + sorted + rr) by {
      MoveDistinct(sorted, rest, 0);
      assert sorted[..0] + [curr] + sorted[0..] + rr == [curr] + sorted + rr;
    }
    tail.next := curr.next;
    curr.next := head;
    newHead := curr;
    assert LinkedTo(p, tail) && LinkedTo(rr, null);
    assert LinkedTo([curr] + sorted + rr, null) by {
      LinkedJoin(p, tail, rr, null);
      LinkedCons(curr, p + [tail] + rr, null);
      assert [curr] + (p + [tail] + rr) == [curr] + sorted + rr;
    }
  }

  /** The pieces of a list around the nodes that InsertAfter relinks, before any link changes. */
  lemma SplitAround(a: seq<Node>, prev: Node, b: seq<Node>, tail: Node, curr: Node, rr: seq<Node>)
    requires LinkedTo(a + [prev] + (b + [tail] + ([curr] + rr)), null)
    requires Distinct(a + [prev] + (b + [tail] + ([curr] + rr)))
    ensures LinkedTo(a, prev) && LinkedTo(b, tail) && LinkedTo(rr, null) && curr.next == First(rr, null)
    ensures prev != tail && prev != curr && tail != curr
    ensures forall i :: 0 <= i < |a| ==> a[i] != prev && a[i] != tail && a[i] != curr
    ensures forall i :: 0 <= i < |b| ==> b[i] != prev && b[i] != tail && b[i] != curr
    ensures forall i :: 0 <= i < |rr| ==> rr[i] != prev && rr[i] != tail && rr[i] != curr
  {
    LinkedJoin(a, prev, b + [tail] + ([curr] + rr), null);
    LinkedJoin(b, tail, [curr] + rr, null);
    LinkedCons(curr, rr, null);
    DistinctAround(a, prev, b + [tail] + ([curr] + rr));
    DistinctAround(b, tail, [curr] + rr);
    assert [] + [curr] + rr == [curr] + rr;
    DistinctAround([], curr, rr);
    assert prev !in a && tail !in a && curr !in a && prev !in b && tail !in b && curr !in b;
    assert prev !in rr && tail !in rr && curr !in rr;
  }

  /** The links that InsertAfter leaves behind join the segments into one list. */
  lemma RelinkAfter(a: seq<Node>, prev: Node, curr: Node, b: seq<Node>, tail: Node, rr: seq<Node>)
    requires LinkedTo(a, prev) && prev.next == curr && curr.next == First(b + [tail], null)
    requires LinkedTo(b, tail) && tail.next == First(rr, null) && LinkedTo(rr, null)
    ensures LinkedTo(a + [prev] + ([curr] + (b + [tail] + rr)), null)
  {
    LinkedJoin(b, tail, rr, null);
    LinkedCons(curr, b + [tail] + rr, null);
    LinkedJoin(a, prev, [curr] + (b + [tail] + rr), null);
  }

  /**
   * `curr` is linked after `prev`, unlinked from after `tail`, and linked in
   * front of `tmp`, so it moves between the (j-1)-th and j-th nodes of the
   * sorted prefix (queue.c:289-292).
   */
  method InsertAfter(prev: Node, tmp: Node, tail: Node, curr: Node, ghost sorted: seq<Node>, ghost rest: seq<Node>, ghost j: int)
    requires Chain(First(sorted, null), sorted + rest) && 0 < j < |sorted| && rest != []
    requires prev == sorted[j - 1] && tmp == sorted[j] && tail == sorted[|sorted| - 1] && curr == rest[0]
    modifies prev, tail, curr
    ensures Chain(sorted[0], sorted[..j] + [curr] + sorted[j..] + rest[1..])
  {
    ghost var a, b, rr := sorted[..j - 1], sorted[j..|sorted| - 1], rest[1..];
    assert sorted[..j] == a + [prev] && sorted[j..] == b + [tail];
    assert sorted + rest == a + [prev] + (b + [tail] + ([curr] + rr));
    SplitAround(a, prev, b, tail, curr, rr);
    assert Distinct(sorted[..j] + [curr] + sorted[j..] + rr) by {
      MoveDistinct(sorted, rest, j);
    }
    prev.next := curr;
    assert LinkedTo(a, prev) && LinkedTo(b, tail) && LinkedTo(rr, null) && curr.next == First(rr, null);
    tail.next := curr.next;
    assert LinkedTo(a, prev) && LinkedTo(b, tail) && LinkedTo(rr, null);
    curr.next := tmp;
    assert LinkedTo(a, prev) && LinkedTo(b, tail) && LinkedTo(rr, null);
    assert LinkedTo(sorted[..j] + [curr] + sorted[j..] + rr, null) by {
      RelinkAfter(a, prev, curr, b, tail, rr);
      assert a + [prev] + ([curr] + (b + [tail] + rr)) == sorted[..j] + [curr] + sorted[j..] + rr;
    }
  }
}
