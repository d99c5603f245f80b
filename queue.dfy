/**
 * The queue handle `queue_t` of queue.c and its operations. A queue keeps the
 * first and last element of a chain of list elements and the number of
 * elements; the ghost sequence `nodes` lists the elements in chain order.
 * The C functions take a possibly NULL `queue_t *`, so they are methods on a
 * `Queue?` here, each with its NULL case.
 */
module Queues {
  import opened Strings
  import opened Chains
  import opened SortSpec
  import Sorting

  /** Every element holds a C string: no NUL among its characters. */
  ghost predicate AllNulFree(ns: seq<Node>) {
    forall i :: 0 <= i < |ns| ==> NulFree(ns[i].value)
  }

  class Queue {
    var head: Node?
    var tail: Node?
    var size: int
    ghost var nodes: seq<Node>

    /**
     * `head` starts an acyclic chain through exactly `nodes`, `size` counts
     * them, and while the queue is not empty `tail` is the last of them.
     * An empty queue says nothing about `tail`: removing the last element
     * leaves it pointing at the removed node.
     */
    ghost predicate Valid()
      reads this, nodes
    {
      && Chain(head, nodes)
      && size == |nodes|
      && (size > 0 ==> tail == nodes[size - 1])
      && AllNulFree(nodes)
    }

    /** The strings in the queue, from head to tail. */
    ghost function Contents(): seq<seq<char>>
      reads this
    {
      Values(nodes)
    }

    /** `q_new` (queue.c:12-22): an empty queue. */
    constructor ()
      ensures Valid() && Contents() == []
      ensures head == null && tail == null && size == 0
    {
      head := null;
      tail := null;
      size := 0;
      nodes := [];
    }
  }

  /**
   * The string a new element owns (queue.c:59-66): a buffer of `strlen(s) + 1`
   * characters, cleared with `memset` and filled with `strncpy` of `strlen(s)`
   * characters, holds a copy of `s`.
   */
  method NewValue(s: seq<char>) returns (v: seq<char>)
    requires NulFree(s)
    ensures v == s
  {
    var buffSize := |s| + 1;
    var buf := new char[buffSize];
    Memset(buf, '\0', buffSize);
    Strncpy(buf, s, buffSize - 1);
    assert buf[..] == Padded(s, |s|) + ['\0'] by {
      assert buf[..] == buf[..|s|] + buf[|s|..];
    }
    PaddedReadBack(s, |s|);
    v := CString(buf[..]);
  }

  /**
   * `q_insert_head` (queue.c:47-74): a new element holding a copy of `s`
   * becomes the head; it also becomes the tail of an empty queue.
   */
  method QInsertHead(q: Queue?, s: seq<char>) returns (ok: bool)
    requires q != null ==> q.Valid()
    requires NulFree(s)
    modifies q
    ensures ok <==> q != null
    ensures q != null ==> && q.Valid() && q.Contents() == [s] + old(q.Contents())
                          && q.size == old(q.size) + 1
                          && fresh(q.head) && q.nodes == [q.head] + old(q.nodes)
                          && q.tail == (if old(q.size) == 0 then q.head else old(q.tail))
  {
    if q == null {
      return false;
    }
    var v := NewValue(s);
    var newh := new Node(v, q.head);
    ChainCons(newh, q.head, q.nodes);
    q.head := newh;
    if q.size == 0 {
      q.tail := newh;
    }
    q.size := q.size + 1;
    q.nodes := [newh] + q.nodes;
    assert q.Contents() == [s] + old(q.Contents());
    return true;
  }

  /**
   * `q_insert_tail` (queue.c:83-111): a new element holding a copy of `s` is
   * linked after the tail, or becomes the head of an empty queue, and is the
   * new tail.
   */
  method QInsertTail(q: Queue?, s: seq<char>) returns (ok: bool)
    requires q != null ==> q.Valid()
    requires NulFree(s)
    modifies q, if q != null && q.size > 0 then {q.tail} else {}
    ensures ok <==> q != null
    ensures q != null ==> && q.Valid() && q.Contents() == old(q.Contents()) + [s]
                          && q.size == old(q.size) + 1
                          && fresh(q.tail) && q.nodes == old(q.nodes) + [q.tail] && q.tail.next == null
                          && q.head == (if old(q.size) == 0 then q.tail else old(q.head))
  {
    if q == null {
      return false;
    }
    var v := NewValue(s);
    var newh := new Node(v, null);
    ghost var ns := q.nodes;
    if q.size == 0 {
      ChainNull(ns) by {
        assert ns == [];
      }
      q.head := newh;
    } else {
      LinkLast(q.tail, newh, q.head, ns);
    }
    assert AllNulFree(ns + [newh]) && Values(ns + [newh]) == Values(ns) + [s];
    q.tail := newh;
    q.size := q.size + 1;
    q.nodes := ns + [newh];
    return true;
  }

  /** The link of queue.c:105: a node outside a chain is linked after its last node. */
  method LinkLast(last: Node, x: Node, ghost head: Node?, ghost ns: seq<Node>)
    requires Chain(head, ns) && ns != [] && last == ns[|ns| - 1] && x !in ns && x.next == null
    modifies last
    ensures Chain(head, ns + [x])
  {
    ghost var init := ns[..|ns| - 1];
    assert ns == init + [last];
    LinkedSnoc(init, last, null);
    DistinctConcat(init, [last]);
    assert last !in init && x != last;
    last.next := x;
    assert LinkedTo(init, last);
    LinkedSnoc(ns, x, null);
    DistinctConcat(ns, [x]);
  }

  /**
   * `q_remove_head` (queue.c:121-142): on a NULL or empty queue, false and no
   * change. Otherwise the head element is unlinked and released, `tail` is
   * left as it was, and the result says whether `sp` was given. With `sp`,
   * its first `bufsize` characters receive the removed string cut to
   * `bufsize - 1` characters and padded with NULs (`memset` then `strncpy`),
   * and nothing after them is written.
   */
  method QRemoveHead(q: Queue?, sp: array?<char>, bufsize: int) returns (ok: bool)
    requires q != null ==> q.Valid()
    requires sp != null ==> 1 <= bufsize <= sp.Length
    modifies q, sp
    ensures q == null || old(q.size) == 0 ==> !ok && (q != null ==> unchanged(q)) && (sp != null ==> unchanged(sp))
    ensures q != null && old(q.size) > 0 ==>
              && (ok <==> sp != null)
              && q.Valid() && q.Contents() == old(q.Contents())[1..]
              && q.nodes == old(q.nodes)[1..] && q.size == old(q.size) - 1 && q.tail == old(q.tail)
    ensures q != null && old(q.size) > 0 && sp != null ==>
              && sp[..bufsize] == Padded(old(q.nodes[0].value), bufsize - 1) + ['\0']
              && sp[bufsize..] == old(sp[bufsize..])
              && CString(sp[..bufsize]) == old(q.nodes[0].value)[..Min(|old(q.nodes[0].value)|, bufsize - 1)]
  {
    if q == null {
      return false;
    }
    if q.size == 0 {
      return false;
    }
    var tmp := q.head;
    ChainTail(q.head, q.nodes);
    q.head := q.head.next;
    q.size := q.size - 1;
    q.nodes := q.nodes[1..];
    assert q.Contents() == old(q.Contents())[1..];
    if sp != null {
      assert NulFree(tmp.value) by {
        assert tmp == old(q.nodes)[0];
      }
      Memset(sp, '\0', bufsize);
      Strncpy(sp, tmp.value, bufsize - 1);
      assert sp[..bufsize] == Padded(tmp.value, bufsize - 1) + ['\0'] by {
        assert sp[..bufsize] == sp[..bufsize - 1] + [sp[bufsize - 1]];
      }
      PaddedReadBack(tmp.value, bufsize - 1);
      return true;
    } else {
      return false;
    }
  }

  /** `q_size` (queue.c:148-154): the number of strings, and 0 for NULL. */
  method QSize(q: Queue?) returns (n: int)
    requires q != null ==> q.Valid()
    ensures n == (if q == null then 0 else |q.Contents()|)
  {
    if q != null {
      return q.size;
    } else {
      return 0;
    }
  }
  /**
   * `q_reverse` (queue.c:163-191): relinks the elements back to front and
   * swaps `head` and `tail`; no element is created or released. Queues of
   * fewer than two elements are left alone, two elements are relinked by
   * ReverseTwo and longer queues by ReverseLong.
   */
  method QReverse(q: Queue?)
    requires q != null ==> q.Valid()
    modifies q, if q == null then [] else q.nodes
    ensures q != null ==> && q.Valid() && q.nodes == Reversed(old(q.nodes))
                          && q.Contents() == Reversed(old(q.Contents()))
                          && q.size == old(q.size)
                          && (old(q.size) > 0 ==> q.head == old(q.tail) && q.tail == old(q.head))
                          && (old(q.size) <= 1 ==> q.head == old(q.head) && q.tail == old(q.tail))
  {
    if q == null {
      return;
    }
    ghost var ns := q.nodes;
    if q.size == 2 {
      var tmp := q.head;
      ReverseTwo(q.head, q.tail, ns);
      q.head := q.tail;
      q.tail := tmp;
    } else if q.size > 2 {
      ReverseLong(q.head, q.tail, ns);
      var tmp1 := q.head;
      q.head := q.tail;
      q.tail := tmp1;
    } else {
      ReversedShort(ns);
    }
    ReversedQueue(ns);
    q.nodes := Reversed(ns);
  }

  /** What reversing the elements does to the queue's strings and its invariant. */
  lemma ReversedQueue(ns: seq<Node>)
    requires AllNulFree(ns)
    ensures AllNulFree(Reversed(ns)) && Values(Reversed(ns)) == Reversed(Values(ns))
    ensures |Reversed(ns)| == |ns|
    ensures ns != [] ==> Reversed(ns)[0] == ns[|ns| - 1] && Reversed(ns)[|ns| - 1] == ns[0]
  {
    ValuesReversed(ns);
    forall i | 0 <= i < |ns| ensures NulFree(Reversed(ns)[i].value) {
      ReversedAt(ns, i);
    }
    if ns != [] {
      ReversedAt(ns, 0);
      ReversedAt(ns, |ns| - 1);
    }
  }

  /** The two-element case of `q_reverse` (queue.c:166-171): each node now links to the other way. */
  method ReverseTwo(first: Node, last: Node, ghost ns: seq<Node>)
    requires Chain(first, ns) && |ns| == 2 && last == ns[1]
    modifies ns
    ensures Chain(last, Reversed(ns))
  {
    last.next := first;
    first.next := null;
    LinkedBackward(ns);
  }

  /**
   * The walk of `q_reverse` for three or more elements (queue.c:172-185):
   * `tmp1`, `tmp2` and `tmp3` are consecutive nodes; the links before `tmp2`
   * already point backwards and those from `tmp2` on still point forwards.
   */
  method ReverseLong(first: Node, last: Node, ghost ns: seq<Node>)
    requires Chain(first, ns) && |ns| > 2 && last == ns[|ns| - 1]
    modifies ns
    ensures Chain(last, Reversed(ns))
  {
    ghost var n := |ns|;
    var tmp1, tmp2, tmp3;
    LinkedAt(ns, null, 0);
    LinkedAt(ns, null, 1);
    tmp1 := first;
    tmp2 := tmp1.next;
    tmp3 := tmp2.next;
    first.next := null;
    ghost var k := 1;
    while tmp3 != last
      invariant 1 <= k && k + 1 <= n - 1
      invariant tmp1 == ns[k - 1] && tmp2 == ns[k] && tmp3 == ns[k + 1]
      invariant ns[0].next == null && ns[n - 1].next == null
      invariant forall i :: 1 <= i < k ==> ns[i].next == ns[i - 1]
      invariant forall i :: k <= i < n - 1 ==> ns[i].next == ns[i + 1]
      decreases n - k
    {
      tmp2.next := tmp1;
      tmp1 := tmp2;
      tmp2 := tmp3;
      tmp3 := tmp3.next;
      k := k + 1;
    }
    tmp2.next := tmp1;
    tmp3.next := tmp2;
    LinkedBackward(ns);
  }

  /**
   * `q_sort` (queue.c:300-312): a queue of two or more elements is sorted
   * with `merge_sort_list` and its tail found by walking to the last element.
   * The elements end up in the stable ascending `strcmp` order of the old
   * ones, so a queue already in order is left as it was.
   */
  method QSort(q: Queue?)
    requires q != null ==> q.Valid()
    modifies q, if q == null then [] else q.nodes
    ensures q != null ==> q.Valid() && q.size == old(q.size) && q.nodes == StableSort(old(q.nodes))
    ensures q != null && old(q.size) <= 1 ==> q.head == old(q.head) && q.tail == old(q.tail)
  {
    if q == null {
      return;
    }
    ghost var ns := q.nodes;
    if q.size > 1 {
      var r, tmp, rs := SortChain(q.head, ns);
      assert AllNulFree(rs) && |rs| == |ns| by {
        SortedQueue(ns);
      }
      q.head := r;
      q.tail := tmp;
      q.nodes := rs;
    } else {
      StableSortShort(ns);
    }
  }

  /**
   * The body of `q_sort` for two or more elements (queue.c:304-308): sorts the
   * chain with `merge_sort_list`, then walks to its last element.
   */
  method SortChain(head: Node?, ghost ns: seq<Node>) returns (r: Node?, last: Node, ghost rs: seq<Node>)
    requires Chain(head, ns) && |ns| > 1
    modifies ns
    ensures rs == StableSort(ns) && Chain(r, rs) && last == rs[|rs| - 1]
  {
    r, rs := Sorting.MergeSortList(head, ns);
    assert rs == StableSort(ns) && |rs| == |ns| by {
      HybridSortIsStableSort(ns);
    }
    last := LastNode(r, rs);
  }

  /** The walk to the last element in `q_sort` (queue.c:305-309). */
  method LastNode(head: Node?, ghost ns: seq<Node>) returns (last: Node)
    requires Chain(head, ns) && ns != []
    ensures last == ns[|ns| - 1]
  {
    var tmp := head;
    ghost var k := 0;
    while tmp.next != null
      invariant 0 <= k < |ns| && tmp == ns[k]
      decreases |ns| - k
    {
      LinkedAt(ns, null, k);
      tmp := tmp.next;
      k := k + 1;
    }
    LinkedAt(ns, null, k);
    return tmp;
  }

  /**
   * What sorting the elements does to the queue: the result is ascending, a
   * stable permutation of the old elements holding the same strings, keeps the
   * queue's invariant, and is the old order when that was already ascending.
   */
  lemma SortedQueue(ns: seq<Node>)
    requires AllNulFree(ns)
    ensures var r := StableSort(ns);
      && Sorted(r) && StablePermutation(ns, r) && AllNulFree(r)
      && multiset(Values(r)) == multiset(Values(ns))
      && (forall i, j :: 0 <= i < j < |r| ==> Le(Values(r)[i], Values(r)[j]))
      && (Sorted(ns) ==> r == ns)
  {
    var r := StableSort(ns);
    StableSortCorrect(ns);
    StableValues(ns, r);
    SortedValues(r);
    forall i | 0 <= i < |r| ensures NulFree(r[i].value) {
      assert r[i] in multiset(r);
      assert r[i] in ns;
      var j :| 0 <= j < |ns| && ns[j] == r[i];
    }
    if Sorted(ns) {
      StableSortOfSorted(ns);
    }
  }

  /**
   * `q_free` (queue.c:25-38): walks the chain from the head and releases each
   * element in turn; `released` lists them in the order they are released.
   */
  method QFree(q: Queue?) returns (ghost released: seq<Node>)
    requires q != null ==> q.Valid()
    modifies q
    ensures q != null ==> q.head == null && released == old(q.nodes)
  {
    released := [];
    if q != null {
      ghost var ns := q.nodes;
      while q.head != null
        invariant |released| <= |ns| && released == ns[..|released|]
        invariant q.head == First(ns[|released|..], null) && q.nodes == ns
        decreases |ns| - |released|
      {
        var tmp := q.head;
        LinkedAt(ns, null, |released|);
        q.head := q.head.next;
        released := released + [tmp];
      }
    }
  }
}
