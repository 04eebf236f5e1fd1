// Model of task_4.py: the array min-heap built by `heapify_min` / `sift_down`, and the
// binary tree of `Node` objects that `visualize_binary_heap` links over the heapified copy.
//
// The heap lives in the first `size` slots of an array; the children of slot i are slots
// 2i+1 and 2i+2.  The drawing itself (networkx / matplotlib) is not modelled.

module BinaryHeap {

  /** The colour a tree node gets when none is given. */
  const DefaultColor: string := "skyblue"

  /** A node of the drawn binary tree.  `val` is never reassigned after construction. */
  class Node {
    var left: Node?
    var right: Node?
    const val: int
    var color: string

    constructor (key: int, color: string)
      ensures val == key && this.color == color
      ensures left == null && right == null
    {
      left := null;
      right := null;
      val := key;
      this.color := color;
    }
  }

  // ---------------------------------------------------------------------------
  // The heap order on the implicit tree of an array
  // ---------------------------------------------------------------------------

  /** Slot k is no larger than each of its children that lies among the first `size` slots. */
  ghost predicate Local(s: seq<int>, k: int, size: int)
  {
    0 <= k && size <= |s| ==>
      (2 * k + 1 < size ==> s[k] <= s[2 * k + 1]) &&
      (2 * k + 2 < size ==> s[k] <= s[2 * k + 2])
  }

  /** Slot k lies in the subtree rooted at slot r (r itself included). */
  ghost predicate Below(r: int, k: int)
    decreases k
  {
    0 <= r <= k && (k == r || Below(r, (k - 1) / 2))
  }

  /** The subtree rooted at r, cut off at `size`, is a min-heap. */
  ghost predicate SubtreeHeap(s: seq<int>, r: int, size: int)
  {
    forall k :: Below(r, k) && k < size ==> Local(s, k, size)
  }

  /** The whole sequence is a min-heap: every slot is no larger than its children. */
  ghost predicate IsHeap(s: seq<int>)
  {
    forall k :: 0 <= k < |s| ==> Local(s, k, |s|)
  }

  /** A child c of slot k is in the subtree of r exactly when it is r or k is. */
  lemma ChildBelow(r: int, k: int, c: int)
    requires 0 <= r && 0 <= k && (c == 2 * k + 1 || c == 2 * k + 2)
    ensures Below(r, c) <==> c == r || Below(r, k)
  {
    assert (c - 1) / 2 == k;
  }

  /** A slot strictly below r is below one of r's children. */
  lemma {:induction false} BelowChild(r: int, k: int)
    requires Below(r, k) && k != r
    ensures Below(2 * r + 1, k) || Below(2 * r + 2, k)
    decreases k
  {
    var p := (k - 1) / 2;
    if p == r {
      assert k == 2 * r + 1 || k == 2 * r + 2;
    } else {
      BelowChild(r, p);
      if Below(2 * r + 1, p) {
        ChildBelow(2 * r + 1, p, k);
      } else {
        ChildBelow(2 * r + 2, p, k);
      }
    }
  }

  /** In a heap-ordered subtree, its root is no larger than any slot below it. */
  lemma {:induction false} SubtreeMin(s: seq<int>, r: int, k: int, size: int)
    requires size <= |s| && SubtreeHeap(s, r, size) && Below(r, k) && k < size
    ensures s[r] <= s[k]
    decreases k
  {
    if k != r {
      var p := (k - 1) / 2;
      SubtreeMin(s, r, p, size);
      assert Local(s, p, size);
      assert k == 2 * p + 1 || k == 2 * p + 2;
    }
  }

  /** Every slot is in the subtree of slot 0. */
  lemma {:induction false} BelowRoot(k: int)
    requires 0 <= k
    ensures Below(0, k)
    decreases k
  {
    if k != 0 {
      BelowRoot((k - 1) / 2);
    }
  }

  /** The first slot of a min-heap holds its minimum. */
  lemma HeapRootMin(s: seq<int>)
    requires IsHeap(s) && |s| > 0
    ensures forall k :: 0 <= k < |s| ==> s[0] <= s[k]
  {
    forall k | 0 <= k < |s|
      ensures s[0] <= s[k]
    {
      BelowRoot(k);
      SubtreeMin(s, 0, k, |s|);
    }
  }

  // ---------------------------------------------------------------------------
  // sift_down
  // ---------------------------------------------------------------------------

  /** Slot i's parent is no larger than i's children. */
  ghost predicate ParentBelow(s: seq<int>, i: int, size: int)
  {
    0 < i && size <= |s| ==>
      (2 * i + 1 < size ==> s[(i - 1) / 2] <= s[2 * i + 1]) &&
      (2 * i + 2 < size ==> s[(i - 1) / 2] <= s[2 * i + 2])
  }

  /** The state of `sift_down` whose walk started at r and has reached slot i: every slot of
      r's subtree except i is in order, and i's parent is no larger than i's children. */
  ghost predicate Sifting(s: seq<int>, r: int, i: int, size: int)
  {
    (forall k :: Below(r, k) && k < size && k != i ==> Local(s, k, size)) &&
    (i != r ==> ParentBelow(s, i, size))
  }

  /** With both child subtrees in heap order, the walk may start at their root. */
  lemma StartSifting(s: seq<int>, r: int, size: int)
    requires 0 <= r
    requires SubtreeHeap(s, 2 * r + 1, size) && SubtreeHeap(s, 2 * r + 2, size)
    ensures Sifting(s, r, r, size)
  {
    forall k | Below(r, k) && k < size && k != r
      ensures Local(s, k, size)
    {
      BelowChild(r, k);
    }
  }

  /** Once slot i is no larger than its children, the whole subtree is a heap. */
  lemma FinishSifting(s: seq<int>, r: int, i: int, size: int)
    requires Sifting(s, r, i, size) && Local(s, i, size)
    ensures SubtreeHeap(s, r, size)
  {
  }

  /** After swapping slot i with its smaller child m, slot i is in order. */
  lemma SwapHere(s: seq<int>, t: seq<int>, i: int, m: int, size: int)
    requires size <= |s| && 0 <= i && (m == 2 * i + 1 || m == 2 * i + 2) && m < size
    requires t == s[i := s[m]][m := s[i]]
    requires s[m] < s[i]
    requires 2 * i + 1 < size ==> s[m] <= s[2 * i + 1]
    requires 2 * i + 2 < size ==> s[m] <= s[2 * i + 2]
    ensures Local(t, i, size)
  {
  }

  /** After the swap, i's parent p is still in order: its old value was no larger than m's. */
  lemma SwapParent(s: seq<int>, t: seq<int>, i: int, m: int, size: int)
    requires size <= |s| && 0 < i && (m == 2 * i + 1 || m == 2 * i + 2) && m < size
    requires t == s[i := s[m]][m := s[i]]
    requires ParentBelow(s, i, size) && Local(s, (i - 1) / 2, size)
    ensures Local(t, (i - 1) / 2, size)
  {
    var p := (i - 1) / 2;
    assert 2 * p + 1 == i || 2 * p + 2 == i;
    assert p < i;
  }

  /** After the swap, m's new parent value (its old value) is no larger than m's children. */
  lemma SwapChild(s: seq<int>, t: seq<int>, i: int, m: int, size: int)
    requires size <= |s| && 0 <= i && (m == 2 * i + 1 || m == 2 * i + 2) && m < size
    requires t == s[i := s[m]][m := s[i]]
    requires Local(s, m, size)
    ensures ParentBelow(t, m, size)
  {
    assert (m - 1) / 2 == i;
  }

  /** A slot other than i, m and i's parent keeps itself and its children under the swap. */
  lemma SwapElsewhere(s: seq<int>, t: seq<int>, k: int, i: int, m: int, size: int)
    requires size <= |s| && 0 <= i && (m == 2 * i + 1 || m == 2 * i + 2) && m < size
    requires t == s[i := s[m]][m := s[i]]
    requires 0 <= k && k != i && k != m && (i == 0 || k != (i - 1) / 2)
    requires Local(s, k, size)
    ensures Local(t, k, size)
  {
    assert 2 * k + 1 != i && 2 * k + 2 != i;
  }

  /** Swapping slot i with its smaller child m, when m is smaller than i, moves the walk to m. */
  lemma SwapStep(s: seq<int>, r: int, i: int, m: int, size: int)
    requires size <= |s| && Below(r, i) && (m == 2 * i + 1 || m == 2 * i + 2) && m < size
    requires s[m] < s[i]
    requires 2 * i + 1 < size ==> s[m] <= s[2 * i + 1]
    requires 2 * i + 2 < size ==> s[m] <= s[2 * i + 2]
    requires Sifting(s, r, i, size)
    ensures Sifting(s[i := s[m]][m := s[i]], r, m, size)
  {
    var t := s[i := s[m]][m := s[i]];
    ChildBelow(r, i, m);
    SwapChild(s, t, i, m, size);
    forall k | Below(r, k) && k < size && k != m
      ensures Local(t, k, size)
    {
      if k == i {
        SwapHere(s, t, i, m, size);
      } else if i != r && k == (i - 1) / 2 {
        SwapParent(s, t, i, m, size);
      } else {
        SwapElsewhere(s, t, k, i, m, size);
      }
    }
  }

  /** Everything `sift_down` keeps while it walks from r down to i: the length, the multiset,
      the slots outside r's subtree (and past `size`), and, when r's child subtrees started in
      heap order (`heapsBelow`), the walk state `Sifting`. */
  ghost predicate SiftState(s: seq<int>, orig: seq<int>, r: int, i: int, size: int, heapsBelow: bool)
  {
    |s| == |orig| && size <= |s| && 0 <= r <= i && Below(r, i) && (i == r || i < size) &&
    multiset(s) == multiset(orig) &&
    (forall k :: 0 <= k < |s| && !(Below(r, k) && k < size) ==> s[k] == orig[k]) &&
    (heapsBelow ==> Sifting(s, r, i, size))
  }

  /** One swap of `sift_down` keeps its state. */
  lemma SiftNext(s: seq<int>, orig: seq<int>, r: int, i: int, m: int, size: int, heapsBelow: bool)
    requires SiftState(s, orig, r, i, size, heapsBelow)
    requires (m == 2 * i + 1 || m == 2 * i + 2) && m < size
    requires s[m] < s[i]
    requires 2 * i + 1 < size ==> s[m] <= s[2 * i + 1]
    requires 2 * i + 2 < size ==> s[m] <= s[2 * i + 2]
    ensures SiftState(s[i := s[m]][m := s[i]], orig, r, m, size, heapsBelow)
  {
    var t := s[i := s[m]][m := s[i]];
    ChildBelow(r, i, m);
    if heapsBelow {
      SwapStep(s, r, i, m, size);
    }
    SwapMultiset(s, i, m);
  }

  /** Swapping two slots keeps the multiset. */
  lemma SwapMultiset(s: seq<int>, i: int, m: int)
    requires 0 <= i < |s| && 0 <= m < |s|
    ensures multiset(s[i := s[m]][m := s[i]]) == multiset(s)
  {
  }

  /** Moves `array[index]` down the first `size` slots until it is no larger than its
      children, swapping it with the smaller child (the left one on a tie) each step. */
  method SiftDown(a: array<int>, index: int, size: int)
    requires 0 <= index && size <= a.Length
    modifies a
    ensures multiset(a[..]) == multiset(old(a[..]))
    ensures forall k :: 0 <= k < a.Length && !(Below(index, k) && k < size) ==> a[k] == old(a[k])
    ensures forall k :: 0 <= k < a.Length && size <= k ==> a[k] == old(a[k])
    ensures old(SubtreeHeap(a[..], 2 * index + 1, size) && SubtreeHeap(a[..], 2 * index + 2, size))
            ==> SubtreeHeap(a[..], index, size)
  {
    ghost var orig := a[..];
    ghost var heapsBelow := SubtreeHeap(a[..], 2 * index + 1, size) && SubtreeHeap(a[..], 2 * index + 2, size);
    if heapsBelow {
      StartSifting(a[..], index, size);
    }
    var i := index;
    while true
      invariant SiftState(a[..], orig, index, i, size, heapsBelow)
      decreases size - i
    {
      var smallest := Smallest(a, i, size);
      if smallest == i {
        SiftDone(a[..], orig, index, i, size, heapsBelow);
        break;
      }
      SwapDown(a, orig, index, i, smallest, size, heapsBelow);
      i := smallest;
    }
  }

  /** The slot among i and its children inside `size` that holds the least value; i itself
      unless a child is strictly smaller, and the left child when both children tie. */
  method Smallest(a: array<int>, i: int, size: int) returns (m: int)
    requires 0 <= i && size <= a.Length
    ensures m == i ==> Local(a[..], i, size)
    ensures m != i ==> (m == 2 * i + 1 || m == 2 * i + 2) && m < size && a[m] < a[i]
    ensures m != i && 2 * i + 1 < size ==> a[m] <= a[2 * i + 1]
    ensures m != i && 2 * i + 2 < size ==> a[m] <= a[2 * i + 2]
  {
    m := i;
    var left := 2 * i + 1;
    var right := 2 * i + 2;
    if left < size && a[left] < a[m] {
      m := left;
    }
    if right < size && a[right] < a[m] {
      m := right;
    }
  }

  /** `array[index], array[smallest] = array[smallest], array[index]`, one step of the walk. */
  method SwapDown(a: array<int>, ghost orig: seq<int>, r: int, i: int, m: int, size: int, ghost heapsBelow: bool)
    requires SiftState(a[..], orig, r, i, size, heapsBelow)
    requires (m == 2 * i + 1 || m == 2 * i + 2) && m < size
    requires a[m] < a[i]
    requires 2 * i + 1 < size ==> a[m] <= a[2 * i + 1]
    requires 2 * i + 2 < size ==> a[m] <= a[2 * i + 2]
    modifies a
    ensures SiftState(a[..], orig, r, m, size, heapsBelow)
  {
    ghost var s := a[..];
    SiftNext(s, orig, r, i, m, size, heapsBelow);
    a[i], a[m] := a[m], a[i];
    assert a[..] == s[i := s[m]][m := s[i]];
  }

  /** When slot i is no larger than its children the walk ends with the promised state. */
  lemma SiftDone(s: seq<int>, orig: seq<int>, r: int, i: int, size: int, heapsBelow: bool)
    requires SiftState(s, orig, r, i, size, heapsBelow) && Local(s, i, size)
    ensures |s| == |orig| && multiset(s) == multiset(orig)
    ensures forall k :: 0 <= k < |s| && !(Below(r, k) && k < size) ==> s[k] == orig[k]
    ensures heapsBelow ==> SubtreeHeap(s, r, size)
  {
    if heapsBelow {
      FinishSifting(s, r, i, size);
    }
  }

  // ---------------------------------------------------------------------------
  // heapify_min
  // ---------------------------------------------------------------------------

  /** The slots from size/2 on have no children inside `size`, so they are in order. */
  lemma LeavesInOrder(s: seq<int>, size: int)
    requires 0 <= size <= |s|
    ensures forall k :: size / 2 - 1 < k < size ==> Local(s, k, size)
  {
    forall k | size / 2 - 1 < k < size
      ensures Local(s, k, size)
    {
      assert 2 * k + 1 >= size;
    }
  }

  /** One round of `heapify_min`: sifting slot `index` down extends the ordered suffix by one. */
  lemma HeapifyStep(before: seq<int>, after: seq<int>, index: int, size: int)
    requires 0 <= index < size == |before| == |after|
    requires forall k :: index < k < size ==> Local(before, k, size)
    requires forall k :: 0 <= k < |after| && !(Below(index, k) && k < size) ==> after[k] == before[k]
    requires SubtreeHeap(after, index, size)
    ensures forall k :: index - 1 < k < size ==> Local(after, k, size)
  {
    forall k | index - 1 < k < size
      ensures Local(after, k, size)
    {
      if !Below(index, k) {
        assert Local(before, k, size);
        if 2 * k + 1 < size {
          ChildBelow(index, k, 2 * k + 1);
        }
        if 2 * k + 2 < size {
          ChildBelow(index, k, 2 * k + 2);
        }
      }
    }
  }

  /** A sequence of at most one element is fixed by its multiset. */
  lemma ShortUnchanged(s: seq<int>, t: seq<int>)
    requires |s| == |t| <= 1 && multiset(s) == multiset(t)
    ensures s == t
  {
    if |s| == 1 {
      assert t[0] in multiset(s);
      assert s == [s[0]];
    }
  }

  /** Turns the whole array into a min-heap in place (Floyd's bottom-up construction):
      sifts down every slot from len/2 - 1 to 0. */
  method HeapifyMin(a: array<int>)
    modifies a
    ensures IsHeap(a[..])
    ensures multiset(a[..]) == multiset(old(a[..]))
    ensures a.Length <= 1 ==> a[..] == old(a[..])
  {
    var size := a.Length;
    LeavesInOrder(a[..], size);
    var index := size / 2 - 1;
    while index >= 0
      invariant -1 <= index < size
      invariant forall k :: index < k < size ==> Local(a[..], k, size)
      invariant multiset(a[..]) == multiset(old(a[..]))
      decreases index
    {
      ghost var before := a[..];
      assert SubtreeHeap(a[..], 2 * index + 1, size) && SubtreeHeap(a[..], 2 * index + 2, size);
      SiftDown(a, index, size);
      HeapifyStep(before, a[..], index, size);
      index := index - 1;
    }
    if size <= 1 {
      ShortUnchanged(old(a[..]), a[..]);
    }
  }

  // ---------------------------------------------------------------------------
  // visualize_binary_heap: the linked tree over the heapified copy
  // ---------------------------------------------------------------------------

  /** The node at index i, or null past the end. */
  function At(ns: seq<Node>, i: int): (r: Node?)
    ensures 0 <= i < |ns| ==> r == ns[i]
    ensures !(0 <= i < |ns|) ==> r == null
  {
    if 0 <= i < |ns| then ns[i] else null
  }

  /** The values held by a sequence of nodes. */
  function Values(ns: seq<Node>): (vs: seq<int>)
    ensures |vs| == |ns| && forall i :: 0 <= i < |ns| ==> vs[i] == ns[i].val
  {
    seq(|ns|, i requires 0 <= i < |ns| => ns[i].val)
  }

  /** Node i's children are nodes 2i+1 and 2i+2, each present exactly when its index is
      inside the sequence. */
  ghost predicate HeapShaped(ns: seq<Node>)
    reads set n | n in ns
  {
    forall i :: 0 <= i < |ns| ==> ns[i].left == At(ns, 2 * i + 1) && ns[i].right == At(ns, 2 * i + 2)
  }

  /** No node occurs twice. */
  ghost predicate Distinct(ns: seq<Node>)
  {
    forall i, j :: 0 <= i < j < |ns| ==> ns[i] != ns[j]
  }

  /** `[Node(v) for v in heap_array]`: one fresh, unlinked, default-coloured node per slot. */
  method MakeNodes(vals: array<int>) returns (list: seq<Node>)
    ensures Values(list) == vals[..] && Distinct(list)
    ensures forall j :: 0 <= j < |list| ==> fresh(list[j]) && list[j].color == DefaultColor
    ensures forall j :: 0 <= j < |list| ==> list[j].left == null && list[j].right == null
  {
    list := [];
    var k := 0;
    while k < vals.Length
      invariant 0 <= k <= vals.Length && Values(list) == vals[..k] && Distinct(list)
      invariant forall j :: 0 <= j < k ==> fresh(list[j]) && list[j].color == DefaultColor
      invariant forall j :: 0 <= j < k ==> list[j].left == null && list[j].right == null
    {
      var n := new Node(vals[k], DefaultColor);
      list := list + [n];
      k := k + 1;
    }
  }

  /** The linking loop: node i's left child becomes node 2i+1 when 2i+1 < len, and its right
      child node 2i+2 when 2i+2 < len; nothing else changes. */
  method LinkChildren(list: seq<Node>)
    requires Distinct(list)
    requires forall j :: 0 <= j < |list| ==> list[j].left == null && list[j].right == null
    modifies set n | n in list
    ensures HeapShaped(list)
    ensures forall j :: 0 <= j < |list| ==> list[j].color == old(list[j].color)
  {
    var i := 0;
    while i < |list|
      invariant 0 <= i <= |list|
      invariant forall j :: 0 <= j < i ==> list[j].left == At(list, 2 * j + 1) && list[j].right == At(list, 2 * j + 2)
      invariant forall j :: i <= j < |list| ==> list[j].left == null && list[j].right == null
      invariant forall j :: 0 <= j < |list| ==> list[j].color == old(list[j].color)
    {
      if 2 * i + 1 < |list| {
        list[i].left := list[2 * i + 1];
      }
      if 2 * i + 2 < |list| {
        list[i].right := list[2 * i + 2];
      }
      i := i + 1;
    }
  }

  /** Copies `heap`, heapifies the copy, makes one node per slot and links node i to nodes
      2i+1 and 2i+2; returns the root (null for an empty input).  `heap` itself is not
      changed: the method has no licence to modify it. */
  method HeapToTree(heap: array<int>) returns (root: Node?, ghost nodes: seq<Node>)
    ensures |nodes| == heap.Length && root == At(nodes, 0)
    ensures IsHeap(Values(nodes)) && multiset(Values(nodes)) == multiset(heap[..])
    ensures Distinct(nodes) && HeapShaped(nodes)
    ensures forall i :: 0 <= i < |nodes| ==> fresh(nodes[i]) && nodes[i].color == DefaultColor
  {
    if heap.Length == 0 {
      return null, [];
    }
    var copy := new int[heap.Length];
    forall k | 0 <= k < heap.Length {
      copy[k] := heap[k];
    }
    assert copy[..] == heap[..];
    HeapifyMin(copy);
    var list := MakeNodes(copy);
    LinkChildren(list);
    root := list[0];
    nodes := list;
  }
}
