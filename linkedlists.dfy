/**
 * Singly linked lists of integers: a list object that appends at the tail
 * and lists its values, and three algorithms that work on a chain of nodes
 * by relinking the existing nodes in place (reversal, insertion sort and the
 * merge of two sorted chains).
 *
 * A chain is described by the ghost sequence of its nodes, head first:
 * `IsList(head, ns)` holds when `head` is the first node of `ns`, every node
 * points to the one after it, the last one points to null and no node occurs
 * twice.  A node's value is never reassigned by any of these operations, so
 * it is a constant field; only `next` is rewritten.
 */
module LinkedLists {

  class Node {
    const val: int
    var next: Node?

    constructor (v: int)
      ensures val == v && next == null
    {
      val := v;
      next := null;
    }
  }

  /** The node at position `i` of `ns`, or null past either end. */
  function At(ns: seq<Node>, i: int): Node?
  {
    if 0 <= i < |ns| then ns[i] else null
  }

  /** Positions `i` and `j` of `ns` hold different nodes. */
  ghost predicate Differ(ns: seq<Node>, i: int, j: int)
  {
    0 <= i < |ns| && 0 <= j < |ns| && ns[i] != ns[j]
  }

  /** No node occurs twice in `ns`. */
  ghost predicate Distinct(ns: seq<Node>)
  {
    forall i, j :: 0 <= i < j < |ns| ==> Differ(ns, i, j)
  }

  /** In a sequence without repetitions, other positions hold other nodes. */
  lemma DistinctAt(ns: seq<Node>, i: int)
    requires Distinct(ns) && 0 <= i < |ns|
    ensures forall k :: 0 <= k < |ns| && k != i ==> ns[k] != ns[i]
  {
    forall k | 0 <= k < |ns| && k != i
      ensures ns[k] != ns[i]
    {
      if k < i {
        assert Differ(ns, k, i);
      } else {
        assert Differ(ns, i, k);
      }
    }
  }

  lemma DistinctSnoc(ns: seq<Node>, x: Node)
    requires Distinct(ns) && x !in ns
    ensures Distinct(ns + [x])
  {
    var t := ns + [x];
    forall a, b | 0 <= a < b < |t|
      ensures Differ(t, a, b)
    {
      if b < |ns| {
        assert Differ(ns, a, b);
      }
    }
  }

  /** From position `lo` on, every node's successor is the next node of `ns`. */
  ghost predicate LinkedFrom(ns: seq<Node>, lo: int)
    reads ns
  {
    forall k {:trigger ns[k].next} :: 0 <= lo <= k < |ns| ==> ns[k].next == At(ns, k + 1)
  }

  /** `head` starts a null-terminated chain visiting exactly the nodes `ns`. */
  ghost predicate IsList(head: Node?, ns: seq<Node>)
    reads ns
  {
    head == At(ns, 0) && Distinct(ns) && LinkedFrom(ns, 0)
  }

  /** The values of a node sequence, in order. */
  function Values(ns: seq<Node>): seq<int>
  {
    seq(|ns|, i requires 0 <= i < |ns| => ns[i].val)
  }

  predicate Sorted(s: seq<int>)
  {
    forall i, j :: 0 <= i < j < |s| ==> s[i] <= s[j]
  }

  // ---------------------------------------------------------------------
  // The list object: append at the tail and list the values.
  // ---------------------------------------------------------------------

  class LinkedList {
    var head: Node?
    ghost var nodes: seq<Node>

    ghost predicate Valid()
      reads this, nodes
    {
      IsList(head, nodes)
    }

    /** The values stored in the list, from head to tail. */
    ghost function Contents(): seq<int>
      reads this
    {
      Values(nodes)
    }

    constructor ()
      ensures Valid() && nodes == []
    {
      head := null;
      nodes := [];
    }

    /** Links a new node holding `v` after the current last node. */
    method Append(v: int)
      requires Valid()
      modifies this, nodes
      ensures Valid()
      ensures |nodes| == |old(nodes)| + 1 && nodes[..|old(nodes)|] == old(nodes)
      ensures fresh(nodes[|old(nodes)|])
      ensures Contents() == old(Contents()) + [v]
    {
      var node := new Node(v);
      if head == null {
        head := node;
        nodes := [node];
        return;
      }
      var current := head;
      ghost var i := 0;
      while current.next != null
        invariant 0 <= i < |nodes| && current == nodes[i]
        decreases |nodes| - i
      {
        current := current.next;
        i := i + 1;
      }
      DistinctAt(nodes, i);
      DistinctSnoc(nodes, node);
      current.next := node;
      nodes := nodes + [node];
    }

    /** The values from head to tail; empty for an empty list. */
    method Display() returns (r: seq<int>)
      requires Valid()
      ensures r == Contents()
      ensures r == [] <==> head == null
    {
      r := [];
      var current := head;
      ghost var i := 0;
      while current != null
        invariant 0 <= i <= |nodes| && current == At(nodes, i)
        invariant r == Values(nodes[..i])
        decreases |nodes| - i
      {
        r := r + [current.val];
        current := current.next;
        i := i + 1;
      }
      assert nodes[..i] == nodes;
    }
  }

  // ---------------------------------------------------------------------
  // Reversal.
  // ---------------------------------------------------------------------

  function Reverse<T>(s: seq<T>): (r: seq<T>)
    ensures |r| == |s| && forall i :: 0 <= i < |s| ==> r[i] == s[|s| - 1 - i]
  {
    if |s| == 0 then [] else Reverse(s[1..]) + [s[0]]
  }

  lemma ReverseReverse<T>(s: seq<T>)
    ensures Reverse(Reverse(s)) == s
  {
  }

  lemma {:induction false} ReverseMultiset<T>(s: seq<T>)
    ensures multiset(Reverse(s)) == multiset(s)
  {
    if |s| > 0 {
      ReverseMultiset(s[1..]);
      assert s == [s[0]] + s[1..];
    }
  }

  lemma ValuesReverse(ns: seq<Node>)
    ensures Values(Reverse(ns)) == Reverse(Values(ns))
  {
  }

  /**
   * Turns every `next` link around and returns the former last node; the
   * nodes of the result are those of the input in reverse order.
   */
  method ReverseList(head: Node?, ghost ns: seq<Node>) returns (r: Node?, ghost rs: seq<Node>)
    requires IsList(head, ns)
    modifies set n | n in ns
    ensures rs == Reverse(ns) && IsList(r, rs)
    ensures Values(rs) == Reverse(Values(ns))
  {
    var prev: Node? := null;
    var current := head;
    ghost var i := 0;
    while current != null
      invariant 0 <= i <= |ns| && current == At(ns, i) && prev == At(ns, i - 1)
      invariant forall k {:trigger ns[k].next} :: 0 <= k < i ==> ns[k].next == At(ns, k - 1)
      invariant LinkedFrom(ns, i)
      decreases |ns| - i
    {
      DistinctAt(ns, i);
      var nextTemp := current.next;
      current.next := prev;
      prev := current;
      current := nextTemp;
      i := i + 1;
    }
    r, rs := prev, Reverse(ns);
    assert Distinct(rs) by {
      forall a, b | 0 <= a < b < |rs|
        ensures Differ(rs, a, b)
      {
        assert Differ(ns, |ns| - 1 - b, |ns| - 1 - a);
      }
    }
    assert LinkedFrom(rs, 0) by {
      forall k | 0 <= k < |rs|
        ensures rs[k].next == At(rs, k + 1)
      {
        assert rs[k] == ns[|ns| - 1 - k];
      }
    }
    ValuesReverse(ns);
  }

  // ---------------------------------------------------------------------
  // Insertion sort.
  // ---------------------------------------------------------------------

  /** How many leading nodes of `s` hold a value smaller than `x`'s. */
  function InsertPos(s: seq<Node>, x: Node): (j: nat)
    ensures j <= |s|
    ensures forall k :: 0 <= k < j ==> s[k].val < x.val
    ensures j < |s| ==> x.val <= s[j].val
  {
    if |s| == 0 || x.val <= s[0].val then 0 else 1 + InsertPos(s[1..], x)
  }

  /** `x` placed in front of the first node of `s` whose value is not smaller. */
  function InsertNode(s: seq<Node>, x: Node): seq<Node>
  {
    var j := InsertPos(s, x);
    s[..j] + [x] + s[j..]
  }

  /** The nodes of `ns` as inserted one by one, from the front, into a sorted chain. */
  function SortNodes(ns: seq<Node>): seq<Node>
  {
    if |ns| == 0 then [] else InsertNode(SortNodes(ns[..|ns| - 1]), ns[|ns| - 1])
  }

  lemma InsertNodeSorted(s: seq<Node>, x: Node)
    requires Sorted(Values(s))
    ensures Sorted(Values(InsertNode(s, x)))
  {
    var j := InsertPos(s, x);
    var t := InsertNode(s, x);
    forall a, b | 0 <= a < b < |t|
      ensures t[a].val <= t[b].val
    {
      assert t[a] == (if a < j then s[a] else if a == j then x else s[a - 1]);
      assert t[b] == (if b < j then s[b] else if b == j then x else s[b - 1]);
      if a == j && b > j {
        assert Values(s)[j] <= Values(s)[b - 1];
      } else if a < j && b > j {
        assert Values(s)[a] <= Values(s)[b - 1];
      } else if a > j {
        assert Values(s)[a - 1] <= Values(s)[b - 1];
      } else if b < j {
        assert Values(s)[a] <= Values(s)[b];
      }
    }
  }

  lemma InsertNodeMultiset(s: seq<Node>, x: Node)
    ensures multiset(InsertNode(s, x)) == multiset(s) + multiset{x}
    ensures multiset(Values(InsertNode(s, x))) == multiset(Values(s)) + multiset{x.val}
  {
    var j := InsertPos(s, x);
    assert s == s[..j] + s[j..];
    assert Values(InsertNode(s, x)) == Values(s[..j]) + [x.val] + Values(s[j..]);
    assert Values(s) == Values(s[..j]) + Values(s[j..]);
  }

  lemma {:induction false} SortNodesSorted(ns: seq<Node>)
    ensures Sorted(Values(SortNodes(ns)))
  {
    if |ns| > 0 {
      SortNodesSorted(ns[..|ns| - 1]);
      InsertNodeSorted(SortNodes(ns[..|ns| - 1]), ns[|ns| - 1]);
    }
  }

  /** Sorting neither loses nor duplicates nodes, nor values. */
  lemma {:induction false} SortNodesPermutes(ns: seq<Node>)
    ensures multiset(SortNodes(ns)) == multiset(ns)
    ensures multiset(Values(SortNodes(ns))) == multiset(Values(ns))
  {
    if |ns| > 0 {
      var init, x := ns[..|ns| - 1], ns[|ns| - 1];
      SortNodesPermutes(init);
      assert SortNodes(ns) == InsertNode(SortNodes(init), x);
      InsertNodeMultiset(SortNodes(init), x);
      SnocMultiset(ns);
    }
  }

  /** Splitting off the last node, for nodes and for values. */
  lemma SnocMultiset(ns: seq<Node>)
    requires |ns| > 0
    ensures multiset(ns) == multiset(ns[..|ns| - 1]) + multiset{ns[|ns| - 1]}
    ensures multiset(Values(ns)) == multiset(Values(ns[..|ns| - 1])) + multiset{ns[|ns| - 1].val}
  {
    var init := ns[..|ns| - 1];
    assert ns == init + [ns[|ns| - 1]];
    assert Values(ns) == Values(init) + [ns[|ns| - 1].val];
  }

  lemma SortNodesSnoc(ns: seq<Node>, i: int)
    requires 0 <= i < |ns|
    ensures SortNodes(ns[..i + 1]) == InsertNode(SortNodes(ns[..i]), ns[i])
  {
    assert ns[..i + 1][..i] == ns[..i];
  }

  /** A chain of at most one node is already sorted and is returned as it is. */
  lemma SortShortList(ns: seq<Node>)
    requires |ns| <= 1
    ensures SortNodes(ns) == ns
  {
    if |ns| == 1 {
      assert ns[..0] == [];
    }
  }

  /**
   * Insertion sort on the chain starting at `head`: each node in turn is
   * unlinked and inserted before the first node of the sorted chain whose
   * value is not smaller, so nodes with equal values end up in reverse
   * order of arrival.
   */
  method InsertionSort(head: Node?, ghost ns: seq<Node>) returns (r: Node?, ghost rs: seq<Node>)
    requires IsList(head, ns)
    modifies set n | n in ns
    ensures rs == SortNodes(ns) && IsList(r, rs)
    ensures |ns| <= 1 ==> r == head && unchanged(set n | n in ns)
  {
    if head == null || head.next == null {
      SortShortList(ns);
      return head, ns;
    }
    var dummy := new Node(0);
    var current := head;
    ghost var i := 0;
    ghost var sorted: seq<Node> := [];
    while current != null
      invariant Sorting(dummy, ns, i, sorted) && current == At(ns, i)
      decreases |ns| - i
    {
      var nextTemp := current.next;
      InsertNext(dummy, ns, i, sorted, current);
      sorted := InsertNode(sorted, current);
      current := nextTemp;
      i := i + 1;
    }
    assert ns[..i] == ns;
    r, rs := dummy.next, sorted;
  }

  /**
   * The state of the outer loop: the first `i` nodes of `ns` have been
   * inserted into the chain `sorted` behind `dummy`, and the rest of `ns` is
   * still linked as it was.
   */
  ghost predicate Sorting(dummy: Node, ns: seq<Node>, i: int, sorted: seq<Node>)
    reads dummy, ns, sorted
  {
    && 0 <= i <= |ns| && sorted == SortNodes(ns[..i])
    && IsList(dummy.next, sorted) && LinkedFrom(ns, i) && dummy !in ns
  }

  /** One iteration of the outer loop: inserts `x`, the node at position `i`, into the sorted chain. */
  method InsertNext(dummy: Node, ghost ns: seq<Node>, ghost i: int, ghost sorted: seq<Node>, x: Node)
    requires Distinct(ns) && Sorting(dummy, ns, i, sorted) && i < |ns| && x == ns[i]
    modifies dummy, set n | n in ns
    ensures Sorting(dummy, ns, i + 1, InsertNode(sorted, x))
  {
    ghost var j;
    var prev;
    prev, j := FindSlot(dummy, sorted, x);
    InsertStep(ns, i, sorted);
    DistinctAt(ns, i);
    Splice(dummy, sorted, j, prev, x);
    SortNodesSnoc(ns, i);
  }

  /**
   * Walks the sorted chain after `dummy` past every node whose value is
   * smaller than `x`'s and returns the last node passed (or `dummy`).
   */
  method FindSlot(dummy: Node, ghost sorted: seq<Node>, x: Node) returns (prev: Node, ghost j: nat)
    requires IsList(dummy.next, sorted)
    ensures j == InsertPos(sorted, x)
    ensures prev == (if j == 0 then dummy else sorted[j - 1])
  {
    prev := dummy;
    j := 0;
    while prev.next != null && prev.next.val < x.val
      invariant 0 <= j <= |sorted| && prev == (if j == 0 then dummy else sorted[j - 1])
      invariant prev.next == At(sorted, j)
      invariant forall k :: 0 <= k < j ==> sorted[k].val < x.val
      decreases |sorted| - j
    {
      prev := prev.next;
      j := j + 1;
    }
  }

  /** Links `x` in between `prev` and its successor. */
  method Splice(dummy: Node, ghost sorted: seq<Node>, ghost j: nat, prev: Node, x: Node)
    requires IsList(dummy.next, sorted) && dummy !in sorted && x !in sorted && x != dummy
    requires j == InsertPos(sorted, x) && prev == (if j == 0 then dummy else sorted[j - 1])
    modifies prev, x
    ensures IsList(dummy.next, InsertNode(sorted, x))
  {
    if j > 0 {
      DistinctAt(sorted, j - 1);
    }
    x.next := prev.next;
    prev.next := x;
    ghost var t := InsertNode(sorted, x);
    forall a, b | 0 <= a < b < |t|
      ensures Differ(t, a, b)
    {
      if b < j || a > j {
        assert Differ(sorted, if a < j then a else a - 1, if b < j then b else b - 1);
      } else if a < j && b > j {
        assert Differ(sorted, a, b - 1);
      }
    }
    forall k | 0 <= k < |t|
      ensures t[k].next == At(t, k + 1)
    {
      assert t[k] == (if k < j then sorted[k] else if k == j then x else sorted[k - 1]);
    }
  }

  /** The facts about node identities one insertion step relies on. */
  lemma InsertStep(ns: seq<Node>, i: int, sorted: seq<Node>)
    requires Distinct(ns) && 0 <= i < |ns|
    requires sorted == SortNodes(ns[..i])
    ensures ns[i] !in sorted
    ensures forall k :: i < k < |ns| ==> ns[k] !in sorted
    ensures forall n :: n in sorted ==> n in ns
  {
    SortNodesPermutes(ns[..i]);
    forall k | i <= k < |ns|
      ensures ns[k] !in sorted
    {
      DistinctAt(ns, k);
      assert forall m :: 0 <= m < i ==> ns[..i][m] != ns[k];
      assert ns[k] !in multiset(ns[..i]);
    }
    forall n | n in sorted
      ensures n in ns
    {
      assert n in multiset(ns[..i]);
    }
  }

  // ---------------------------------------------------------------------
  // Merge of two sorted chains.
  // ---------------------------------------------------------------------

  /** The order in which the merge takes nodes: from `a` when its head is not larger. */
  function MergeNodes(a: seq<Node>, b: seq<Node>): seq<Node>
    decreases |a| + |b|
  {
    if |a| == 0 then b
    else if |b| == 0 then a
    else if a[0].val <= b[0].val then [a[0]] + MergeNodes(a[1..], b)
    else [b[0]] + MergeNodes(a, b[1..])
  }

  /** The nodes of `s` that occur in `a`, in the order of `s`. */
  function Keep(s: seq<Node>, a: seq<Node>): seq<Node>
  {
    if |s| == 0 then [] else (if s[0] in a then [s[0]] else []) + Keep(s[1..], a)
  }

  ghost predicate Disjoint(a: seq<Node>, b: seq<Node>)
  {
    forall n :: n in a ==> n !in b
  }

  /** The merge takes every node of both inputs exactly once. */
  lemma {:induction false} MergeNodesMultiset(a: seq<Node>, b: seq<Node>)
    ensures multiset(MergeNodes(a, b)) == multiset(a) + multiset(b)
    ensures |MergeNodes(a, b)| == |a| + |b|
    decreases |a| + |b|
  {
    if |a| > 0 && |b| > 0 {
      if a[0].val <= b[0].val {
        MergeNodesMultiset(a[1..], b);
        ConsMultiset(a, MergeNodes(a[1..], b));
      } else {
        MergeNodesMultiset(a, b[1..]);
        ConsMultiset(b, MergeNodes(a, b[1..]));
      }
    }
  }

  /** Splitting off the first node. */
  lemma ConsMultiset(a: seq<Node>, m: seq<Node>)
    requires |a| > 0
    ensures multiset(a) == multiset{a[0]} + multiset(a[1..])
    ensures multiset([a[0]] + m) == multiset{a[0]} + multiset(m) && |[a[0]] + m| == 1 + |m|
  {
    assert a == [a[0]] + a[1..];
  }

  /** Hence the values of the merge are the multiset union of the inputs' values. */
  lemma {:induction false} MergeValuesMultiset(a: seq<Node>, b: seq<Node>)
    ensures multiset(Values(MergeNodes(a, b))) == multiset(Values(a)) + multiset(Values(b))
    decreases |a| + |b|
  {
    if |a| > 0 && |b| > 0 {
      if a[0].val <= b[0].val {
        MergeValuesMultiset(a[1..], b);
        ValuesCons(a);
        ValuesCons(MergeNodes(a, b));
      } else {
        MergeValuesMultiset(a, b[1..]);
        ValuesCons(b);
        ValuesCons(MergeNodes(a, b));
      }
    }
  }

  lemma ValuesCons(s: seq<Node>)
    requires |s| > 0
    ensures Values(s) == [s[0].val] + Values(s[1..])
  {
  }

  /** A value at most every value of both inputs is at most every value of the merge. */
  lemma MergeBelow(a: seq<Node>, b: seq<Node>, v: int)
    requires forall n :: n in a ==> v <= n.val
    requires forall n :: n in b ==> v <= n.val
    ensures forall n :: n in MergeNodes(a, b) ==> v <= n.val
  {
    MergeNodesMultiset(a, b);
    forall n | n in MergeNodes(a, b)
      ensures v <= n.val
    {
      assert n in multiset(MergeNodes(a, b));
    }
  }

  lemma SortedCons(x: Node, s: seq<Node>)
    requires Sorted(Values(s)) && forall n :: n in s ==> x.val <= n.val
    ensures Sorted(Values([x] + s))
  {
    var t := [x] + s;
    forall i, j | 0 <= i < j < |t|
      ensures t[i].val <= t[j].val
    {
      if i > 0 {
        assert Values(s)[i - 1] <= Values(s)[j - 1];
      } else {
        assert t[j] in s;
      }
    }
  }

  lemma SortedMin(s: seq<Node>)
    requires Sorted(Values(s)) && |s| > 0
    ensures forall n :: n in s ==> s[0].val <= n.val
  {
    forall n | n in s
      ensures s[0].val <= n.val
    {
      var k :| 0 <= k < |s| && s[k] == n;
      if k > 0 {
        assert Values(s)[0] <= Values(s)[k];
      }
    }
  }

  lemma SortedTail(s: seq<Node>)
    requires Sorted(Values(s)) && |s| > 0
    ensures Sorted(Values(s[1..]))
  {
    forall i, j | 0 <= i < j < |s| - 1
      ensures s[1..][i].val <= s[1..][j].val
    {
      assert Values(s)[i + 1] <= Values(s)[j + 1];
    }
  }

  /** Merging two non-decreasing chains gives a non-decreasing chain. */
  lemma {:induction false} MergeNodesSorted(a: seq<Node>, b: seq<Node>)
    requires Sorted(Values(a)) && Sorted(Values(b))
    ensures Sorted(Values(MergeNodes(a, b)))
    decreases |a| + |b|
  {
    if |a| > 0 && |b| > 0 {
      SortedMin(a);
      SortedMin(b);
      if a[0].val <= b[0].val {
        SortedTail(a);
        MergeNodesSorted(a[1..], b);
        assert forall n :: n in a[1..] ==> n in a;
        MergeBelow(a[1..], b, a[0].val);
        SortedCons(a[0], MergeNodes(a[1..], b));
      } else {
        SortedTail(b);
        MergeNodesSorted(a, b[1..]);
        assert forall n :: n in b[1..] ==> n in b;
        MergeBelow(a, b[1..], b[0].val);
        SortedCons(b[0], MergeNodes(a, b[1..]));
      }
    }
  }

  /** Whenever a node of `b` comes before a node of `a` in `m`, its value is strictly smaller. */
  ghost predicate TiesOrdered(m: seq<Node>, a: seq<Node>, b: seq<Node>)
  {
    forall i, j :: 0 <= i < j < |m| && m[i] in b && m[j] in a ==> m[i].val < m[j].val
  }

  /**
   * Ties go to the first list: in the merge, a node of `b` never precedes a
   * node of `a` holding the same value, so equal values keep `a` first.
   */
  lemma {:induction false} MergeNodesTies(a: seq<Node>, b: seq<Node>)
    requires Sorted(Values(a)) && Disjoint(a, b)
    ensures TiesOrdered(MergeNodes(a, b), a, b)
    decreases |a| + |b|
  {
    if |a| > 0 && |b| > 0 {
      if a[0].val <= b[0].val {
        SortedTail(a);
        MergeNodesTies(a[1..], b);
        TiesAfterFirst(a, b);
      } else {
        MergeNodesTies(a, b[1..]);
        TiesAfterSecond(a, b);
      }
    }
  }

  lemma TiesAfterFirst(a: seq<Node>, b: seq<Node>)
    requires |a| > 0 && |b| > 0 && a[0].val <= b[0].val && Disjoint(a, b)
    requires TiesOrdered(MergeNodes(a[1..], b), a[1..], b)
    ensures TiesOrdered(MergeNodes(a, b), a, b)
  {
    var m, rest := MergeNodes(a, b), MergeNodes(a[1..], b);
    forall i, j | 0 <= i < j < |m| && m[i] in b && m[j] in a
      ensures m[i].val < m[j].val
    {
      assert m[i] == rest[i - 1] && m[j] == rest[j - 1];
      MergeRest(a, b, rest[j - 1]);
    }
  }

  lemma TiesAfterSecond(a: seq<Node>, b: seq<Node>)
    requires |a| > 0 && |b| > 0 && b[0].val < a[0].val && Disjoint(a, b) && Sorted(Values(a))
    requires TiesOrdered(MergeNodes(a, b[1..]), a, b[1..])
    ensures TiesOrdered(MergeNodes(a, b), a, b)
  {
    var m, rest := MergeNodes(a, b), MergeNodes(a, b[1..]);
    SortedMin(a);
    forall i, j | 0 <= i < j < |m| && m[i] in b && m[j] in a
      ensures m[i].val < m[j].val
    {
      assert m[j] == rest[j - 1];
      if i > 0 {
        assert m[i] == rest[i - 1];
        MergeRest(a, b, rest[i - 1]);
      }
    }
  }

  lemma {:induction false} KeepSame(s: seq<Node>, a: seq<Node>, a': seq<Node>)
    requires forall n :: n in s ==> (n in a <==> n in a')
    ensures Keep(s, a) == Keep(s, a')
  {
    if |s| > 0 {
      KeepSame(s[1..], a, a');
    }
  }

  /** Keeping from `[x] + s` is keeping `x` or not, then keeping from `s`. */
  lemma KeepCons(x: Node, s: seq<Node>, a: seq<Node>)
    ensures Keep([x] + s, a) == (if x in a then [x] else []) + Keep(s, a)
  {
    assert ([x] + s)[1..] == s;
  }

  /** Every node after the merge's first one comes from the part of the inputs it did not take. */
  lemma MergeRest(a: seq<Node>, b: seq<Node>, n: Node)
    requires |a| > 0 && |b| > 0
    ensures a[0].val <= b[0].val && n in MergeNodes(a[1..], b) ==> n in a[1..] || n in b
    ensures b[0].val < a[0].val && n in MergeNodes(a, b[1..]) ==> n in a || n in b[1..]
  {
    MergeNodesMultiset(a[1..], b);
    MergeNodesMultiset(a, b[1..]);
    assert n in MergeNodes(a[1..], b) ==> n in multiset(MergeNodes(a[1..], b));
    assert n in MergeNodes(a, b[1..]) ==> n in multiset(MergeNodes(a, b[1..]));
  }

  /** The merge keeps the nodes of the first input in their original order. */
  lemma {:induction false} MergeKeepsFirst(a: seq<Node>, b: seq<Node>)
    requires Distinct(a) && Disjoint(a, b)
    ensures Keep(MergeNodes(a, b), a) == a
    decreases |a| + |b|
  {
    if |a| == 0 {
      KeepNone(b, a);
    } else if |b| == 0 {
      KeepAll(a);
    } else if a[0].val <= b[0].val {
      var rest := MergeNodes(a[1..], b);
      DistinctSuffix(a, 1);
      MergeKeepsFirst(a[1..], b);
      forall n | n in rest
        ensures n in a <==> n in a[1..]
      {
        MergeRest(a, b, n);
      }
      KeepSame(rest, a, a[1..]);
      KeepCons(a[0], rest, a);
      assert a == [a[0]] + a[1..];
    } else {
      MergeKeepsFirst(a, b[1..]);
      KeepCons(b[0], MergeNodes(a, b[1..]), a);
    }
  }

  /** The merge keeps the nodes of the second input in their original order. */
  lemma {:induction false} MergeKeepsSecond(a: seq<Node>, b: seq<Node>)
    requires Distinct(b) && Disjoint(a, b)
    ensures Keep(MergeNodes(a, b), b) == b
    decreases |a| + |b|
  {
    if |a| == 0 {
      KeepAll(b);
    } else if |b| == 0 {
      KeepNone(a, b);
    } else if a[0].val <= b[0].val {
      MergeKeepsSecond(a[1..], b);
      KeepCons(a[0], MergeNodes(a[1..], b), b);
    } else {
      var rest := MergeNodes(a, b[1..]);
      DistinctSuffix(b, 1);
      MergeKeepsSecond(a, b[1..]);
      forall n | n in rest
        ensures n in b <==> n in b[1..]
      {
        MergeRest(a, b, n);
      }
      KeepSame(rest, b, b[1..]);
      KeepCons(b[0], rest, b);
      assert b == [b[0]] + b[1..];
    }
  }

  lemma {:induction false} KeepAll(a: seq<Node>)
    ensures Keep(a, a) == a
  {
    KeepPrefix(a, a);
  }

  lemma {:induction false} KeepPrefix(s: seq<Node>, a: seq<Node>)
    requires forall n :: n in s ==> n in a
    ensures Keep(s, a) == s
  {
    if |s| > 0 {
      KeepPrefix(s[1..], a);
    }
  }

  lemma {:induction false} KeepNone(s: seq<Node>, a: seq<Node>)
    requires forall n :: n in s ==> n !in a
    ensures Keep(s, a) == []
  {
    if |s| > 0 {
      KeepNone(s[1..], a);
    }
  }

  /**
   * Merges the chains starting at `list1` and `list2` by relinking their
   * nodes behind a fresh dummy node, taking from `list1` while its head is
   * not larger, and appends whatever remains of either chain.
   */
  method MergeSortedLists(list1: Node?, ghost xs: seq<Node>, list2: Node?, ghost ys: seq<Node>)
    returns (r: Node?, ghost rs: seq<Node>)
    requires IsList(list1, xs) && IsList(list2, ys) && Disjoint(xs, ys)
    modifies set n | n in xs + ys
    ensures rs == MergeNodes(xs, ys) && IsList(r, rs)
  {
    var dummy := new Node(0);
    var current: Node := dummy;
    var l1, l2 := list1, list2;
    ghost var i, j := 0, 0;
    ghost var out: seq<Node> := [];
    assert xs[0..] == xs && ys[0..] == ys;
    while l1 != null && l2 != null
      invariant Merging(dummy, xs, ys, i, j, out, current)
      invariant l1 == At(xs, i) && l2 == At(ys, j)
      decreases |xs| - i + |ys| - j
    {
      l1, l2, current, i, j, out := MergeStep(dummy, xs, ys, i, j, out, current, l1, l2);
    }
    LinkRest(dummy, xs, ys, i, j, out, current, l1, l2);
    r, rs := dummy.next, MergeNodes(xs, ys);
  }

  /**
   * The state of the merge loop: `out` are the nodes taken so far, a prefix
   * of the merge, chained behind `dummy` and ending in `current`, whose
   * `next` still points into the input it came from; both inputs are intact
   * from positions `i` and `j` on.
   */
  ghost predicate Merging(dummy: Node, xs: seq<Node>, ys: seq<Node>, i: int, j: int, out: seq<Node>, current: Node)
    reads dummy, current, xs, ys, out
  {
    && 0 <= i <= |xs| && 0 <= j <= |ys|
    && out + MergeNodes(xs[i..], ys[j..]) == MergeNodes(xs, ys)
    && multiset(out) == multiset(xs[..i]) + multiset(ys[..j])
    && current == (if |out| == 0 then dummy else out[|out| - 1])
    && (current == dummy || current in xs + ys)
    && Chain(dummy, out)
    && (|out| > 0 ==> current.next == At(xs, i) || current.next == At(ys, j))
    && LinkedFrom(xs, i) && LinkedFrom(ys, j)
    && dummy !in xs + ys
  }

  /** The body of the merge loop: takes the smaller head, `list1`'s on a tie. */
  method MergeStep(dummy: Node, ghost xs: seq<Node>, ghost ys: seq<Node>, ghost i: int, ghost j: int,
                   ghost out: seq<Node>, current: Node, l1: Node, l2: Node)
    returns (l1': Node?, l2': Node?, current': Node, ghost i': int, ghost j': int, ghost out': seq<Node>)
    requires Distinct(xs) && Distinct(ys) && Disjoint(xs, ys)
    requires Merging(dummy, xs, ys, i, j, out, current)
    requires l1 == At(xs, i) && l2 == At(ys, j)
    modifies current
    ensures Merging(dummy, xs, ys, i', j', out', current')
    ensures l1' == At(xs, i') && l2' == At(ys, j')
    ensures (i', j') == (i + 1, j) || (i', j') == (i, j + 1)
  {
    if l1.val <= l2.val {
      TakeNode(dummy, xs, ys, i, j, out, current, l1, true);
      l1', l2' := l1.next, l2;
      out', i', j' := out + [xs[i]], i + 1, j;
    } else {
      TakeNode(dummy, xs, ys, i, j, out, current, l2, false);
      l1', l2' := l1, l2.next;
      out', i', j' := out + [ys[j]], i, j + 1;
    }
    current' := current.next;
  }

  /** One iteration of the merge loop: links `node`, the head of `xs[i..]` (or `ys[j..]`), behind `current`. */
  method TakeNode(dummy: Node, ghost xs: seq<Node>, ghost ys: seq<Node>, ghost i: int, ghost j: int,
                  ghost out: seq<Node>, current: Node, node: Node, ghost first: bool)
    requires Distinct(xs) && Distinct(ys) && Disjoint(xs, ys)
    requires Merging(dummy, xs, ys, i, j, out, current) && i < |xs| && j < |ys|
    requires first ==> node == xs[i] && xs[i].val <= ys[j].val
    requires !first ==> node == ys[j] && ys[j].val < xs[i].val
    modifies current
    ensures current.next == node
    ensures first ==> node.next == At(xs, i + 1) && Merging(dummy, xs, ys, i + 1, j, out + [node], node)
    ensures !first ==> node.next == At(ys, j + 1) && Merging(dummy, xs, ys, i, j + 1, out + [node], node)
  {
    TakenNodes(xs, ys, i, j, out);
    MergeProgress(xs, ys, i, j, out);
    Attach(dummy, out, current, node);
  }

  /** After the loop: links whichever input is not exhausted behind `current`. */
  method LinkRest(dummy: Node, ghost xs: seq<Node>, ghost ys: seq<Node>, ghost i: int, ghost j: int,
                  ghost out: seq<Node>, current: Node, l1: Node?, l2: Node?)
    requires Distinct(xs) && Distinct(ys) && Disjoint(xs, ys)
    requires Merging(dummy, xs, ys, i, j, out, current)
    requires l1 == At(xs, i) && l2 == At(ys, j) && (l1 == null || l2 == null)
    modifies current
    ensures IsList(dummy.next, MergeNodes(xs, ys))
  {
    TakenNodes(xs, ys, i, j, out);
    ghost var taken, rest := out, [];
    if l1 != null {
      Attach(dummy, out, current, l1);
      TakeRest(xs, i, out);
      taken, rest := out + [xs[i]], xs[i + 1..];
    } else if l2 != null {
      Attach(dummy, out, current, l2);
      TakeRest(ys, j, out);
      taken, rest := out + [ys[j]], ys[j + 1..];
    }
    JoinChains(dummy, taken, rest);
  }

  /** The rest of an input, from position `i` on, once `out` has been taken. */
  lemma TakeRest(ns: seq<Node>, i: int, out: seq<Node>)
    requires 0 <= i < |ns| && Distinct(ns) && LinkedFrom(ns, i)
    requires forall k :: i <= k < |ns| ==> ns[k] !in out
    ensures Distinct(ns[i + 1..]) && LinkedFrom(ns[i + 1..], 0)
    ensures Disjoint(out + [ns[i]], ns[i + 1..])
    ensures ns[i].next == At(ns[i + 1..], 0)
    ensures (out + [ns[i]]) + ns[i + 1..] == out + ns[i..]
  {
    LinkedSuffix(ns, i + 1);
    DistinctSuffix(ns, i + 1);
    forall n | n in ns[i + 1..]
      ensures n !in out + [ns[i]]
    {
      var k :| i + 1 <= k < |ns| && ns[k] == n;
      DistinctAt(ns, k);
    }
    assert ns[i..] == [ns[i]] + ns[i + 1..];
  }

  /** `dummy` heads a chain through `out` whose last link is not yet fixed. */
  ghost predicate Chain(dummy: Node, out: seq<Node>)
    reads dummy, out
  {
    && dummy.next == At(out, 0) && dummy !in out && Distinct(out)
    && forall k {:trigger out[k].next} :: 0 <= k < |out| - 1 ==> out[k].next == out[k + 1]
  }

  /** Links `node` behind the last node of the chain (`current`). */
  method Attach(dummy: Node, ghost out: seq<Node>, current: Node, node: Node)
    requires Chain(dummy, out) && current == (if |out| == 0 then dummy else out[|out| - 1])
    requires node !in out && node != dummy
    modifies current
    ensures Chain(dummy, out + [node]) && current.next == node
  {
    if |out| > 0 {
      DistinctAt(out, |out| - 1);
    }
    DistinctSnoc(out, node);
    current.next := node;
  }

  /** Which nodes the merge loop has already taken, and which it has not. */
  lemma TakenNodes(xs: seq<Node>, ys: seq<Node>, i: int, j: int, out: seq<Node>)
    requires Distinct(xs) && Distinct(ys) && Disjoint(xs, ys)
    requires 0 <= i <= |xs| && 0 <= j <= |ys|
    requires multiset(out) == multiset(xs[..i]) + multiset(ys[..j])
    ensures forall k :: i <= k < |xs| ==> xs[k] !in out
    ensures forall k :: j <= k < |ys| ==> ys[k] !in out
    ensures forall n :: n in out ==> n in xs + ys
  {
    forall k | i <= k < |xs|
      ensures xs[k] !in out
    {
      DistinctAt(xs, k);
      assert forall m :: 0 <= m < i ==> xs[..i][m] != xs[k];
      assert xs[k] !in multiset(xs[..i]);
      assert xs[k] !in ys;
      assert forall m :: 0 <= m < j ==> ys[..j][m] != xs[k];
      assert xs[k] !in multiset(ys[..j]);
      assert multiset(out)[xs[k]] == 0;
    }
    forall k | j <= k < |ys|
      ensures ys[k] !in out
    {
      DistinctAt(ys, k);
      assert forall m :: 0 <= m < j ==> ys[..j][m] != ys[k];
      assert ys[k] !in multiset(ys[..j]);
      assert ys[k] !in xs;
      assert forall m :: 0 <= m < i ==> xs[..i][m] != ys[k];
      assert ys[k] !in multiset(xs[..i]);
      assert multiset(out)[ys[k]] == 0;
    }
    forall n | n in out
      ensures n in xs + ys
    {
      assert n in multiset(out);
    }
  }

  /** One step of the merge loop keeps the taken nodes a prefix of the merge. */
  lemma MergeProgress(xs: seq<Node>, ys: seq<Node>, i: int, j: int, out: seq<Node>)
    requires 0 <= i < |xs| && 0 <= j < |ys|
    requires out + MergeNodes(xs[i..], ys[j..]) == MergeNodes(xs, ys)
    requires multiset(out) == multiset(xs[..i]) + multiset(ys[..j])
    ensures xs[i].val <= ys[j].val ==>
              && (out + [xs[i]]) + MergeNodes(xs[i + 1..], ys[j..]) == MergeNodes(xs, ys)
              && multiset(out + [xs[i]]) == multiset(xs[..i + 1]) + multiset(ys[..j])
    ensures ys[j].val < xs[i].val ==>
              && (out + [ys[j]]) + MergeNodes(xs[i..], ys[j + 1..]) == MergeNodes(xs, ys)
              && multiset(out + [ys[j]]) == multiset(xs[..i]) + multiset(ys[..j + 1])
  {
    if xs[i].val <= ys[j].val {
      TakeLeft(xs, ys, i, j, out);
    } else {
      TakeRight(xs, ys, i, j, out);
    }
  }

  /** Taking the head of `xs[i..]`. */
  lemma TakeLeft(xs: seq<Node>, ys: seq<Node>, i: int, j: int, out: seq<Node>)
    requires 0 <= i < |xs| && 0 <= j < |ys| && xs[i].val <= ys[j].val
    requires out + MergeNodes(xs[i..], ys[j..]) == MergeNodes(xs, ys)
    requires multiset(out) == multiset(xs[..i]) + multiset(ys[..j])
    ensures (out + [xs[i]]) + MergeNodes(xs[i + 1..], ys[j..]) == MergeNodes(xs, ys)
    ensures multiset(out + [xs[i]]) == multiset(xs[..i + 1]) + multiset(ys[..j])
  {
    assert xs[i..][1..] == xs[i + 1..];
    var m := MergeNodes(xs[i + 1..], ys[j..]);
    assert MergeNodes(xs[i..], ys[j..]) == [xs[i]] + m;
    SnocAssoc(out, xs[i], m);
    assert xs[..i + 1] == xs[..i] + [xs[i]];
  }

  /** Taking the head of `ys[j..]`. */
  lemma TakeRight(xs: seq<Node>, ys: seq<Node>, i: int, j: int, out: seq<Node>)
    requires 0 <= i < |xs| && 0 <= j < |ys| && ys[j].val < xs[i].val
    requires out + MergeNodes(xs[i..], ys[j..]) == MergeNodes(xs, ys)
    requires multiset(out) == multiset(xs[..i]) + multiset(ys[..j])
    ensures (out + [ys[j]]) + MergeNodes(xs[i..], ys[j + 1..]) == MergeNodes(xs, ys)
    ensures multiset(out + [ys[j]]) == multiset(xs[..i]) + multiset(ys[..j + 1])
  {
    assert ys[j..][1..] == ys[j + 1..];
    var m := MergeNodes(xs[i..], ys[j + 1..]);
    assert MergeNodes(xs[i..], ys[j..]) == [ys[j]] + m;
    SnocAssoc(out, ys[j], m);
    assert ys[..j + 1] == ys[..j] + [ys[j]];
  }

  lemma SnocAssoc<T>(a: seq<T>, x: T, b: seq<T>)
    ensures (a + [x]) + b == a + ([x] + b)
  {
  }

  lemma LinkedSuffix(ns: seq<Node>, i: int)
    requires 0 <= i <= |ns| && LinkedFrom(ns, i)
    ensures LinkedFrom(ns[i..], 0)
  {
    forall k | 0 <= k < |ns| - i
      ensures ns[i..][k].next == At(ns[i..], k + 1)
    {
      assert ns[i..][k] == ns[i + k];
    }
  }

  lemma DistinctSuffix(ns: seq<Node>, i: int)
    requires 0 <= i <= |ns| && Distinct(ns)
    ensures Distinct(ns[i..])
  {
    forall a, b | 0 <= a < b < |ns| - i
      ensures ns[i..][a] != ns[i..][b]
    {
      assert ns[i..][a] == ns[i + a] && ns[i..][b] == ns[i + b];
      assert Differ(ns, i + a, i + b);
    }
  }

  /** A chain `out` behind `dummy` whose last node points at the chain `rest`. */
  lemma JoinChains(dummy: Node, out: seq<Node>, rest: seq<Node>)
    requires Chain(dummy, out) && Distinct(rest) && Disjoint(out, rest)
    requires |out| > 0 ==> out[|out| - 1].next == At(rest, 0)
    requires |out| == 0 ==> dummy.next == At(rest, 0)
    requires LinkedFrom(rest, 0)
    ensures IsList(dummy.next, out + rest)
  {
    var t := out + rest;
    forall k | 0 <= k < |t|
      ensures t[k].next == At(t, k + 1)
    {
      if k >= |out| {
        assert t[k] == rest[k - |out|];
      }
    }
    forall a, b | 0 <= a < b < |t|
      ensures Differ(t, a, b)
    {
      if b < |out| {
        assert Differ(out, a, b);
      } else if a < |out| {
        assert t[a] in out;
      } else {
        assert Differ(rest, a - |out|, b - |out|);
      }
    }
  }
}
