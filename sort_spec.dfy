/**
 * What `q_sort` computes, stated on the ghost sequence of nodes: the merge of
 * two chains (`merge`), insertion of one node into a sorted chain and the
 * stable insertion sort built from it (`insertion_sort_list`), and the hybrid
 * split-and-merge sort (`merge_sort_list`). Stability is stated with node
 * identity: for every string, the nodes holding it keep their relative order.
 */
module SortSpec {
  import opened Strings
  import opened Chains

  /** Halves with more than this many `next` steps are sorted by recursion. */
  const Threshold: int := 128

  /** Ascending in `strcmp` order. */
  ghost predicate Sorted(s: seq<Node>) {
    forall i, j :: 0 <= i < j < |s| ==> Le(s[i].value, s[j].value)
  }

  /** The nodes of `s` that hold the string `k`, in their order in `s`. */
  ghost function Filter(s: seq<Node>, k: seq<char>): seq<Node> {
    if s == [] then [] else Keep(s[0], k) + Filter(s[1..], k)
  }

  /** `x` alone when it holds `k`, otherwise nothing. */
  ghost function Keep(x: Node, k: seq<char>): seq<Node> {
    if x.value == k then [x] else []
  }

  /**
   * `r` rearranges the nodes of `s`, and nodes holding equal strings appear in
   * `r` in the same relative order as in `s`.
   */
  ghost predicate StablePermutation(s: seq<Node>, r: seq<Node>) {
    multiset(r) == multiset(s) && forall k :: Filter(r, k) == Filter(s, k)
  }

  // ---------------------------------------------------------------------------
  // Facts about Sorted and Filter

  /** A filter keeps exactly the nodes holding the key. */
  lemma {:induction false} FilterMembers(s: seq<Node>, k: seq<char>)
    ensures forall x :: x in Filter(s, k) <==> x in s && x.value == k
  {
    if s != [] {
      FilterMembers(s[1..], k);
      assert s == [s[0]] + s[1..];
    }
  }

  /** Concatenation is associative. */
  lemma AppendAssoc<T>(a: seq<T>, b: seq<T>, c: seq<T>)
    ensures a + (b + c) == (a + b) + c
  {
  }

  /** Filtering a sequence with a given first node. */
  lemma FilterCons(x: Node, m: seq<Node>, k: seq<char>)
    ensures Filter([x] + m, k) == Keep(x, k) + Filter(m, k)
  {
    var xm := [x] + m;
    assert xm[0] == x && xm[1..] == m;
  }

  /** Filtering distributes over concatenation. */
  lemma {:induction false} FilterConcat(a: seq<Node>, b: seq<Node>, k: seq<char>)
    ensures Filter(a + b, k) == Filter(a, k) + Filter(b, k)
  {
    if a == [] {
      assert a + b == b;
    } else {
      assert a + b == [a[0]] + (a[1..] + b);
      FilterCons(a[0], a[1..] + b, k);
      FilterConcat(a[1..], b, k);
      AppendAssoc(Keep(a[0], k), Filter(a[1..], k), Filter(b, k));
    }
  }

  /** Prepending a node no larger than every node of a sorted sequence keeps it sorted. */
  lemma SortedCons(x: Node, r: seq<Node>)
    requires Sorted(r) && forall y :: y in r ==> Le(x.value, y.value)
    ensures Sorted([x] + r)
  {
    forall i, j | 0 <= i < j < |[x] + r| ensures Le(([x] + r)[i].value, ([x] + r)[j].value) {
      if i == 0 {
        assert ([x] + r)[j] == r[j - 1];
      } else {
        assert ([x] + r)[i] == r[i - 1] && ([x] + r)[j] == r[j - 1];
      }
    }
  }

  /** The rest of a sorted sequence is sorted. */
  lemma SortedTail(s: seq<Node>)
    requires Sorted(s) && s != []
    ensures Sorted(s[1..])
  {
    forall i, j | 0 <= i < j < |s| - 1 ensures Le(s[1..][i].value, s[1..][j].value) {
      assert s[1..][i] == s[i + 1] && s[1..][j] == s[j + 1];
    }
  }

  /** The first node of a sorted sequence is no larger than any other. */
  lemma SortedHead(s: seq<Node>)
    requires Sorted(s) && s != []
    ensures forall y :: y in s ==> Le(s[0].value, y.value)
  {
    forall y | y in s ensures Le(s[0].value, y.value) {
      var j :| 0 <= j < |s| && s[j] == y;
      if j == 0 {
        assert Strcmp(y.value, y.value) == 0;
      }
    }
  }

  // ---------------------------------------------------------------------------
  // merge (queue.c:199-213)

  /**
   * Merging as `merge` does it: take the head of `a` while it is no larger
   * (strcmp <= 0) than the head of `b`, otherwise the head of `b`; an empty
   * side yields the other one whole.
   */
  ghost function Merged(a: seq<Node>, b: seq<Node>): (r: seq<Node>)
    ensures multiset(r) == multiset(a) + multiset(b)
    ensures |r| == |a| + |b|
    decreases |a| + |b|
  {
    if b == [] then a
    else if a == [] then b
    else if Le(a[0].value, b[0].value) then
      assert a == [a[0]] + a[1..];
      [a[0]] + Merged(a[1..], b)
    else
      assert b == [b[0]] + b[1..];
      [b[0]] + Merged(a, b[1..])
  }

  /** The merge starts with the head of `a` when it is no larger than that of `b`. */
  lemma MergedTakesLeft(a: seq<Node>, b: seq<Node>)
    requires a != [] && b != [] && Le(a[0].value, b[0].value)
    ensures Merged(a, b) == [a[0]] + Merged(a[1..], b)
  {
  }

  /** The merge starts with the head of `b` when the head of `a` is larger. */
  lemma MergedTakesRight(a: seq<Node>, b: seq<Node>)
    requires a != [] && b != [] && !Le(a[0].value, b[0].value)
    ensures Merged(a, b) == [b[0]] + Merged(a, b[1..])
  {
  }

  /** A lower bound of both inputs bounds their merge. */
  lemma MergedBound(a: seq<Node>, b: seq<Node>, x: seq<char>)
    requires forall y :: y in a ==> Le(x, y.value)
    requires forall y :: y in b ==> Le(x, y.value)
    ensures forall y :: y in Merged(a, b) ==> Le(x, y.value)
  {
    forall y | y in Merged(a, b) ensures Le(x, y.value) {
      assert y in multiset(Merged(a, b));
      assert y in multiset(a) || y in multiset(b);
    }
  }

  /** Merging two sorted sequences gives a sorted one. */
  lemma {:induction false} MergedSorted(a: seq<Node>, b: seq<Node>)
    requires Sorted(a) && Sorted(b)
    ensures Sorted(Merged(a, b))
    decreases |a| + |b|
  {
    if a != [] && b != [] {
      if Le(a[0].value, b[0].value) {
        SortedTail(a);
        MergedSorted(a[1..], b);
        MergedSortedLeft(a, b);
      } else {
        SortedTail(b);
        MergedSorted(a, b[1..]);
        MergedSortedRight(a, b);
      }
    }
  }

  /** The step of MergedSorted that takes the head of `a`. */
  lemma MergedSortedLeft(a: seq<Node>, b: seq<Node>)
    requires Sorted(a) && Sorted(b) && a != [] && b != [] && Le(a[0].value, b[0].value)
    requires Sorted(Merged(a[1..], b))
    ensures Sorted(Merged(a, b))
  {
    SortedHead(a);
    SortedHead(b);
    forall y | y in b ensures Le(a[0].value, y.value) {
      LeTransitive(a[0].value, b[0].value, y.value);
    }
    MergedBound(a[1..], b, a[0].value);
    SortedCons(a[0], Merged(a[1..], b));
  }

  /** The step of MergedSorted that takes the head of `b`. */
  lemma MergedSortedRight(a: seq<Node>, b: seq<Node>)
    requires Sorted(a) && Sorted(b) && a != [] && b != [] && !Le(a[0].value, b[0].value)
    requires Sorted(Merged(a, b[1..]))
    ensures Sorted(Merged(a, b))
  {
    SortedHead(a);
    SortedHead(b);
    LeTotal(a[0].value, b[0].value);
    forall y | y in a ensures Le(b[0].value, y.value) {
      LeTransitive(b[0].value, a[0].value, y.value);
    }
    MergedBound(a, b[1..], b[0].value);
    SortedCons(b[0], Merged(a, b[1..]));
  }

  /**
   * In the merge of two sorted sequences, the nodes holding any one string are
   * those of `a`, in order, then those of `b`: ties go to the left input.
   */
  lemma {:induction false} MergedFilter(a: seq<Node>, b: seq<Node>, k: seq<char>)
    requires Sorted(a) && Sorted(b)
    ensures Filter(Merged(a, b), k) == Filter(a, k) + Filter(b, k)
    decreases |a| + |b|
  {
    if b == [] {
      assert Filter(a, k) + [] == Filter(a, k);
    } else if a == [] {
    } else if Le(a[0].value, b[0].value) {
      SortedTail(a);
      MergedFilter(a[1..], b, k);
      MergedFilterLeft(a, b, k);
    } else {
      SortedTail(b);
      MergedFilter(a, b[1..], k);
      if b[0].value == k {
        AboveFilter(a, k);
      }
      MergedFilterRight(a, b, k);
    }
  }

  /** The step of MergedFilter that takes the head of `a`. */
  lemma MergedFilterLeft(a: seq<Node>, b: seq<Node>, k: seq<char>)
    requires a != [] && b != [] && Le(a[0].value, b[0].value)
    requires Filter(Merged(a[1..], b), k) == Filter(a[1..], k) + Filter(b, k)
    ensures Filter(Merged(a, b), k) == Filter(a, k) + Filter(b, k)
  {
    MergedTakesLeft(a, b);
    FilterCons(a[0], Merged(a[1..], b), k);
    AppendAssoc(Keep(a[0], k), Filter(a[1..], k), Filter(b, k));
  }

  /** The step of MergedFilter that takes the head of `b`. */
  lemma MergedFilterRight(a: seq<Node>, b: seq<Node>, k: seq<char>)
    requires a != [] && b != [] && !Le(a[0].value, b[0].value)
    requires b[0].value == k ==> Filter(a, k) == []
    requires Filter(Merged(a, b[1..]), k) == Filter(a, k) + Filter(b[1..], k)
    ensures Filter(Merged(a, b), k) == Filter(a, k) + Filter(b, k)
  {
    MergedTakesRight(a, b);
    FilterCons(b[0], Merged(a, b[1..]), k);
    if b[0].value == k {
      assert Filter(a, k) + Filter(b, k) == Filter(b, k);
      assert Filter(a, k) + Filter(b[1..], k) == Filter(b[1..], k);
    } else {
      assert Keep(b[0], k) == [];
      assert Filter(b, k) == Filter(b[1..], k);
      assert [] + (Filter(a, k) + Filter(b[1..], k)) == Filter(a, k) + Filter(b[1..], k);
    }
  }

  /** A sorted sequence whose first string is above `k` holds no node with `k`. */
  lemma AboveFilter(a: seq<Node>, k: seq<char>)
    requires Sorted(a) && a != [] && !Le(a[0].value, k)
    ensures Filter(a, k) == []
  {
    SortedHead(a);
    FilterNone(a, k);
  }

  /** A sequence none of whose nodes holds `k` filters to nothing. */
  lemma {:induction false} FilterNone(s: seq<Node>, k: seq<char>)
    requires forall y :: y in s ==> y.value != k
    ensures Filter(s, k) == []
  {
    if s != [] {
      FilterNone(s[1..], k);
    }
  }

  /** The nodes of `r` that belong to `keep`, in their order in `r`. */
  ghost function Restrict(r: seq<Node>, keep: seq<Node>): seq<Node> {
    if r == [] then []
    else (if r[0] in keep then [r[0]] else []) + Restrict(r[1..], keep)
  }

  /** The merge holds exactly the nodes of its inputs. */
  lemma MergedMembers(a: seq<Node>, b: seq<Node>)
    ensures forall x :: x in Merged(a, b) <==> x in a || x in b
  {
    forall x ensures x in Merged(a, b) <==> x in a || x in b {
      assert x in Merged(a, b) <==> x in multiset(Merged(a, b));
    }
  }

  /** Restricting a sequence with a given first node. */
  lemma RestrictCons(x: Node, m: seq<Node>, keep: seq<Node>)
    ensures Restrict([x] + m, keep) == (if x in keep then [x] else []) + Restrict(m, keep)
  {
    var xm := [x] + m;
    assert xm[0] == x && xm[1..] == m;
  }

  /**
   * The merge is an interleaving: restricted to the nodes of either input it
   * is that input, in its own order.
   */
  lemma {:induction false} MergedInterleaves(a: seq<Node>, b: seq<Node>)
    requires Distinct(a + b)
    ensures Restrict(Merged(a, b), a) == a
    ensures Restrict(Merged(a, b), b) == b
    decreases |a| + |b|
  {
    DistinctConcat(a, b);
    if b == [] {
      RestrictAll(a, a);
      RestrictNone(a, b);
    } else if a == [] {
      RestrictAll(b, b);
      RestrictNone(b, a);
    } else if Le(a[0].value, b[0].value) {
      DistinctTail(a, b);
      MergedInterleaves(a[1..], b);
      MergedInterleavesLeft(a, b);
    } else {
      DistinctTail(b, a);
      DistinctConcat(a, b[1..]);
      MergedInterleaves(a, b[1..]);
      MergedInterleavesRight(a, b);
    }
  }

  /** The step of MergedInterleaves that takes the head of `a`. */
  lemma MergedInterleavesLeft(a: seq<Node>, b: seq<Node>)
    requires a != [] && b != [] && Le(a[0].value, b[0].value)
    requires a[0] !in a[1..] && a[0] !in b
    requires Restrict(Merged(a[1..], b), a[1..]) == a[1..]
    requires Restrict(Merged(a[1..], b), b) == b
    ensures Restrict(Merged(a, b), a) == a
    ensures Restrict(Merged(a, b), b) == b
  {
    var m := Merged(a[1..], b);
    assert Merged(a, b) == [a[0]] + m by {
      MergedTakesLeft(a, b);
    }
    assert Restrict(m, a) == a[1..] by {
      MergedMembers(a[1..], b);
      RestrictSkip(m, a);
    }
    assert Restrict([a[0]] + m, a) == a by {
      assert a[0] in a;
      RestrictCons(a[0], m, a);
      assert a == [a[0]] + a[1..];
    }
    assert Restrict([a[0]] + m, b) == b by {
      RestrictCons(a[0], m, b);
    }
  }

  /** The step of MergedInterleaves that takes the head of `b`. */
  lemma MergedInterleavesRight(a: seq<Node>, b: seq<Node>)
    requires a != [] && b != [] && !Le(a[0].value, b[0].value)
    requires b[0] !in b[1..] && b[0] !in a
    requires Restrict(Merged(a, b[1..]), a) == a
    requires Restrict(Merged(a, b[1..]), b[1..]) == b[1..]
    ensures Restrict(Merged(a, b), a) == a
    ensures Restrict(Merged(a, b), b) == b
  {
    var m := Merged(a, b[1..]);
    assert Merged(a, b) == [b[0]] + m by {
      MergedTakesRight(a, b);
    }
    assert Restrict(m, b) == b[1..] by {
      MergedMembers(a, b[1..]);
      RestrictSkip(m, b);
    }
    assert Restrict([b[0]] + m, b) == b by {
      assert b[0] in b;
      RestrictCons(b[0], m, b);
      assert b == [b[0]] + b[1..];
    }
    assert Restrict([b[0]] + m, a) == a by {
      RestrictCons(b[0], m, a);
    }
  }

  /** Restricting to nodes that include every node of `r` keeps `r`. */
  lemma {:induction false} RestrictAll(r: seq<Node>, keep: seq<Node>)
    requires forall x :: x in r ==> x in keep
    ensures Restrict(r, keep) == r
  {
    if r != [] {
      RestrictAll(r[1..], keep);
      assert r == [r[0]] + r[1..];
    }
  }

  /** Restricting to nodes none of which is in `r` gives nothing. */
  lemma {:induction false} RestrictNone(r: seq<Node>, keep: seq<Node>)
    requires forall x :: x in r ==> x !in keep
    ensures Restrict(r, keep) == []
  {
    if r != [] {
      RestrictNone(r[1..], keep);
    }
  }

  /** A first node of `keep` that is not in `r` plays no part in restricting `r`. */
  lemma {:induction false} RestrictSkip(r: seq<Node>, keep: seq<Node>)
    requires keep != [] && keep[0] !in r
    ensures Restrict(r, keep) == Restrict(r, keep[1..])
  {
    if r != [] {
      assert r[0] in keep <==> r[0] in keep[1..] by {
        assert keep == [keep[0]] + keep[1..];
      }
      RestrictSkip(r[1..], keep);
    }
  }

  // ---------------------------------------------------------------------------
  // insertion_sort_list (queue.c:258-298)

  /**
   * One step of `insertion_sort_list`: `x` goes in front of the first node of
   * `s` that is larger than it, so after every node no larger than it.
   */
  ghost function Insert(s: seq<Node>, x: Node): (r: seq<Node>)
    ensures multiset(r) == multiset(s) + multiset{x}
    ensures |r| == |s| + 1
  {
    if s == [] then [x]
    else if Le(s[0].value, x.value) then
      assert s == [s[0]] + s[1..];
      [s[0]] + Insert(s[1..], x)
    else [x] + s
  }

  /** Insertion passes a first node no larger than `x`. */
  lemma InsertPasses(s: seq<Node>, x: Node)
    requires s != [] && Le(s[0].value, x.value)
    ensures Insert(s, x) == [s[0]] + Insert(s[1..], x)
  {
  }

  /** The insertion point is the first position whose node is larger than `x`. */
  lemma {:induction false} InsertAt(s: seq<Node>, x: Node, j: int)
    requires 0 <= j <= |s|
    requires forall i :: 0 <= i < j ==> Le(s[i].value, x.value)
    requires j < |s| ==> !Le(s[j].value, x.value)
    ensures Insert(s, x) == s[..j] + [x] + s[j..]
  {
    if j == 0 {
      assert s[..0] + [x] + s[0..] == [x] + s;
    } else {
      var t := s[1..];
      forall i | 0 <= i < j - 1 ensures Le(t[i].value, x.value) {
        assert t[i] == s[i + 1];
      }
      assert j - 1 < |t| ==> t[j - 1] == s[j];
      InsertAt(t, x, j - 1);
      InsertAtStep(s, x, j);
    }
  }

  /** The step of InsertAt: passing the first node keeps the insertion point. */
  lemma InsertAtStep(s: seq<Node>, x: Node, j: int)
    requires 0 < j <= |s| && Le(s[0].value, x.value)
    requires Insert(s[1..], x) == s[1..][..j - 1] + [x] + s[1..][j - 1..]
    ensures Insert(s, x) == s[..j] + [x] + s[j..]
  {
    var t := s[1..];
    var p, q := t[..j - 1], t[j - 1..];
    InsertPasses(s, x);
    assert s[..j] == [s[0]] + p by {
      assert s[..j] == [s[0]] + s[1..j];
    }
    assert s[j..] == q;
    Regroup(s[0], p, x, q);
  }

  /** Moving a first element into the prefix before `x`. */
  lemma Regroup<T>(a: T, p: seq<T>, x: T, q: seq<T>)
    ensures [a] + (p + [x] + q) == ([a] + p) + [x] + q
  {
    AppendAssoc([a], p, [x]);
    AppendAssoc([a], p + [x], q);
  }

  /** Inserting into a sorted sequence keeps it sorted. */
  lemma {:induction false} InsertSorted(s: seq<Node>, x: Node)
    requires Sorted(s)
    ensures Sorted(Insert(s, x))
  {
    if s != [] {
      SortedHead(s);
      if Le(s[0].value, x.value) {
        SortedTail(s);
        InsertSorted(s[1..], x);
        var m := Insert(s[1..], x);
        forall y | y in m ensures Le(s[0].value, y.value) {
          assert y in multiset(m);
        }
        SortedCons(s[0], m);
      } else {
        LeTotal(s[0].value, x.value);
        forall y | y in s ensures Le(x.value, y.value) {
          LeTransitive(x.value, s[0].value, y.value);
        }
        SortedCons(x, s);
      }
    }
  }

  /** Inserting into a sorted sequence puts `x` after the nodes holding its string. */
  lemma {:induction false} InsertFilter(s: seq<Node>, x: Node, k: seq<char>)
    requires Sorted(s)
    ensures Filter(Insert(s, x), k) == Filter(s, k) + Filter([x], k)
  {
    if s == [] {
      assert Filter([x], k) == [] + Filter([x], k);
    } else if Le(s[0].value, x.value) {
      SortedTail(s);
      InsertFilter(s[1..], x, k);
      InsertPasses(s, x);
      FilterCons(s[0], Insert(s[1..], x), k);
      AppendAssoc(Keep(s[0], k), Filter(s[1..], k), Filter([x], k));
    } else {
      FilterCons(x, s, k);
      FilterCons(x, [], k);
      if x.value == k {
        AboveFilter(s, k);
        assert Filter(s, k) + Filter([x], k) == Filter([x], k);
      } else {
        assert Filter([x], k) == [];
        assert Filter(s, k) + [] == Filter(s, k);
      }
    }
  }

  /**
   * The reference sort: the strings' stable insertion sort, inserting the
   * nodes in input order into a growing sorted prefix.
   */
  ghost function StableSort(s: seq<Node>): (r: seq<Node>)
    ensures multiset(r) == multiset(s)
    ensures |r| == |s|
  {
    if s == [] then []
    else
      assert s == s[..|s| - 1] + [s[|s| - 1]];
      Insert(StableSort(s[..|s| - 1]), s[|s| - 1])
  }

  /** Sorting one more node of `s` inserts it into the sorted prefix. */
  lemma StableSortStep(s: seq<Node>, i: int)
    requires 0 <= i < |s|
    ensures StableSort(s[..i + 1]) == Insert(StableSort(s[..i]), s[i])
  {
    assert s[..i + 1][..i] == s[..i];
  }

  /** The reference sort is ascending and a stable permutation of its input. */
  lemma {:induction false} StableSortCorrect(s: seq<Node>)
    ensures Sorted(StableSort(s)) && StablePermutation(s, StableSort(s))
  {
    if s != [] {
      var init, x := s[..|s| - 1], s[|s| - 1];
      StableSortCorrect(init);
      InsertSorted(StableSort(init), x);
      assert s == init + [x];
      forall k ensures Filter(StableSort(s), k) == Filter(s, k) {
        InsertFilter(StableSort(init), x, k);
        FilterConcat(init, [x], k);
      }
    }
  }

  /**
   * Two sorted stable permutations of each other are equal: each starts with
   * the first node holding the smallest string.
   */
  lemma {:induction false} SortedUnique(r1: seq<Node>, r2: seq<Node>)
    requires Sorted(r1) && Sorted(r2) && StablePermutation(r1, r2)
    ensures r1 == r2
    decreases |r1|
  {
    if r1 == [] {
      assert |r2| == |multiset(r2)| == 0;
    } else {
      assert |r2| == |multiset(r2)| == |r1|;
      SortedSameHead(r1, r2);
      SortedTail(r1);
      SortedTail(r2);
      StableTails(r1, r2);
      SortedUnique(r1[1..], r2[1..]);
      assert r1 == [r1[0]] + r1[1..] && r2 == [r2[0]] + r2[1..];
    }
  }

  /** Two nonempty sorted stable permutations of each other start with the same node. */
  lemma SortedSameHead(r1: seq<Node>, r2: seq<Node>)
    requires Sorted(r1) && Sorted(r2) && StablePermutation(r1, r2) && r1 != [] && r2 != []
    ensures r1[0] == r2[0]
  {
    var a, b := r1[0], r2[0];
    assert a in multiset(r2) && b in multiset(r1);
    SortedHead(r1);
    SortedHead(r2);
    LeAntisymmetric(a.value, b.value);
    var k := a.value;
    assert Filter(r1, k) == [a] + Filter(r1[1..], k);
    assert Filter(r2, k) == [b] + Filter(r2[1..], k);
    assert Filter(r1, k)[0] == a && Filter(r2, k)[0] == b;
  }

  /** Stable permutations of each other with the same first node have stably permuted tails. */
  lemma StableTails(r1: seq<Node>, r2: seq<Node>)
    requires StablePermutation(r1, r2) && r1 != [] && r2 != [] && r1[0] == r2[0]
    ensures StablePermutation(r1[1..], r2[1..])
  {
    var x := r1[0];
    assert multiset(r1[1..]) == multiset(r2[1..]) by {
      assert r1 == [x] + r1[1..] && r2 == [x] + r2[1..];
      assert multiset(r1[1..]) == multiset(r1) - multiset{x};
      assert multiset(r2[1..]) == multiset(r2) - multiset{x};
    }
    forall k ensures Filter(r1[1..], k) == Filter(r2[1..], k) {
      assert Filter(r1, k) == Keep(x, k) + Filter(r1[1..], k);
      assert Filter(r2, k) == Keep(x, k) + Filter(r2[1..], k);
      PrefixCancel(Keep(x, k), Filter(r1[1..], k), Filter(r2[1..], k));
    }
  }

  /** A common prefix cancels. */
  lemma PrefixCancel<T>(p: seq<T>, u: seq<T>, v: seq<T>)
    requires p + u == p + v
    ensures u == v
  {
    assert u == (p + u)[|p|..] && v == (p + v)[|p|..];
  }

  /**
   * A sequence is the reference sort of `s` exactly when it is sorted and a
   * stable permutation of `s`.
   */
  lemma StableSortCharacterized(s: seq<Node>, r: seq<Node>)
    ensures r == StableSort(s) <==> Sorted(r) && StablePermutation(s, r)
  {
    StableSortCorrect(s);
    if Sorted(r) && StablePermutation(s, r) {
      SortedUnique(r, StableSort(s));
    }
  }

  /** Sorting a sorted sequence leaves every node where it is. */
  lemma StableSortOfSorted(s: seq<Node>)
    requires Sorted(s)
    ensures StableSort(s) == s
  {
    StableSortCharacterized(s, s);
  }

  /** Sorting twice is sorting once. */
  lemma StableSortIdempotent(s: seq<Node>)
    ensures StableSort(StableSort(s)) == StableSort(s)
  {
    StableSortCorrect(s);
    StableSortOfSorted(StableSort(s));
  }

  /** Merging the sorted halves `a` and `b` of `s` sorts `s`. */
  lemma MergeOfSorted(a: seq<Node>, b: seq<Node>, s: seq<Node>)
    requires a + b == s
    ensures Merged(StableSort(a), StableSort(b)) == StableSort(s)
  {
    StableSortCorrect(a);
    StableSortCorrect(b);
    var m := Merged(StableSort(a), StableSort(b));
    MergedSorted(StableSort(a), StableSort(b));
    forall k ensures Filter(m, k) == Filter(s, k) {
      MergedFilter(StableSort(a), StableSort(b), k);
      FilterConcat(a, b, k);
    }
    StableSortCharacterized(s, m);
  }

  /** A sequence is its prefix followed by the rest. */
  lemma SplitJoin<T>(s: seq<T>, m: int)
    requires 0 <= m <= |s|
    ensures s[..m] + s[m..] == s
  {
  }

  // ---------------------------------------------------------------------------
  // merge_sort_list (queue.c:216-256)

  /**
   * `merge_sort_list`: a chain of at least two nodes is cut after its first
   * ceil(n/2) nodes, each half is sorted by HalfSort, and the halves are merged.
   */
  ghost function HybridSort(s: seq<Node>): (r: seq<Node>)
    ensures multiset(r) == multiset(s)
    decreases |s|, 0
  {
    if |s| <= 1 then s
    else
      var m := (|s| + 1) / 2;
      assert s == s[..m] + s[m..];
      Merged(HalfSort(s[..m]), HalfSort(s[m..]))
  }

  /**
   * How `merge_sort_list` sorts one half: recursively when it has more than
   * Threshold `next` steps, by insertion sort otherwise.
   */
  ghost function HalfSort(s: seq<Node>): (r: seq<Node>)
    ensures multiset(r) == multiset(s)
    decreases |s|, 1
  {
    if |s| - 1 > Threshold then HybridSort(s) else StableSort(s)
  }

  /** The hybrid sort computes the reference stable sort, whatever the threshold. */
  lemma {:induction false} HybridSortIsStableSort(s: seq<Node>)
    ensures HybridSort(s) == StableSort(s)
    decreases |s|
  {
    if |s| <= 1 {
      StableSortShort(s);
    } else {
      var m := (|s| + 1) / 2;
      var l, r := s[..m], s[m..];
      HybridSortIsStableSort(l);
      HybridSortIsStableSort(r);
      HybridSortSplit(s);
      assert l + r == s by {
        SplitJoin(s, m);
      }
      MergeOfSorted(l, r, s);
    }
  }

  /** Sequences of at most one node are already sorted. */
  lemma StableSortShort(s: seq<Node>)
    requires |s| <= 1
    ensures StableSort(s) == s
  {
    if |s| == 1 {
      assert s[..0] == [];
      assert StableSort(s) == Insert([], s[0]);
    }
  }

  /** One level of the hybrid sort, once each half is known to be sorted by the reference. */
  lemma HybridSortSplit(s: seq<Node>)
    requires |s| > 1
    requires HybridSort(s[..(|s| + 1) / 2]) == StableSort(s[..(|s| + 1) / 2])
    requires HybridSort(s[(|s| + 1) / 2..]) == StableSort(s[(|s| + 1) / 2..])
    ensures HybridSort(s) == Merged(StableSort(s[..(|s| + 1) / 2]), StableSort(s[(|s| + 1) / 2..]))
  {
  }

  /** The string `k` occurs in the strings of `s` once per node of `s` holding it. */
  lemma {:induction false} ValuesCount(s: seq<Node>, k: seq<char>)
    ensures multiset(Values(s))[k] == |Filter(s, k)|
  {
    if s != [] {
      ValuesCount(s[1..], k);
      assert Values(s) == [s[0].value] + Values(s[1..]);
    }
  }

  /** A stable permutation of the nodes permutes their strings. */
  lemma StableValues(s: seq<Node>, r: seq<Node>)
    requires StablePermutation(s, r)
    ensures multiset(Values(r)) == multiset(Values(s))
  {
    forall k ensures multiset(Values(r))[k] == multiset(Values(s))[k] {
      ValuesCount(r, k);
      ValuesCount(s, k);
    }
  }

  /** The strings of a sorted node sequence ascend in strcmp order. */
  lemma SortedValues(s: seq<Node>)
    requires Sorted(s)
    ensures forall i, j :: 0 <= i < j < |Values(s)| ==> Le(Values(s)[i], Values(s)[j])
  {
  }
}
