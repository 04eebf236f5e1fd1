// Model of task_5.py: depth-first and breadth-first traversal of a binary tree of
// `BinaryHeap.Node` objects, resetting every node's colour, and the colour gradient used to
// paint a traversal order.
//
// A tree in the object heap is described by a ghost `Tree` value whose `Bin` cells name the
// nodes; `Shape(t)` says the nodes' `left`/`right` fields spell out exactly that tree.  The
// traversals are proved against `Preorder` and `LevelOrder`, two definitions on `Tree`.

module Traversals {
  import opened BinaryHeap

  datatype Result<T> = Success(value: T) | Failure(error: string)

  // ---------------------------------------------------------------------------
  // Trees in the heap
  // ---------------------------------------------------------------------------

  datatype Tree = Nil | Bin(node: Node, left: Tree, right: Tree)

  /** The node at the top of t, or null for the empty tree. */
  function Root(t: Tree): Node?
  {
    if t.Nil? then null else t.node
  }

  /** The nodes of t. */
  ghost function Footprint(t: Tree): set<Node>
  {
    match t
    case Nil => {}
    case Bin(n, l, r) => {n} + Footprint(l) + Footprint(r)
  }

  /** The child links of t's nodes are exactly the edges of t. */
  ghost predicate Shape(t: Tree)
    reads Footprint(t)`left, Footprint(t)`right
  {
    match t
    case Nil => true
    case Bin(n, l, r) => n.left == Root(l) && n.right == Root(r) && Shape(l) && Shape(r)
  }

  /** The tree hanging from slot i of heap-linked nodes: children at 2i+1 and 2i+2. */
  ghost function HeapTree(ns: seq<Node>, i: nat): (t: Tree)
    ensures Root(t) == At(ns, i)
    decreases |ns| - i
  {
    if i < |ns| then Bin(ns[i], HeapTree(ns, 2 * i + 1), HeapTree(ns, 2 * i + 2)) else Nil
  }

  /** The links `visualize_binary_heap` sets up form a tree: the nodes returned by
      `BinaryHeap.HeapToTree` meet the `Shape` precondition of the traversals. */
  lemma {:induction false} HeapTreeShape(ns: seq<Node>, i: nat)
    requires HeapShaped(ns)
    ensures Shape(HeapTree(ns, i))
    decreases |ns| - i
  {
    if i < |ns| {
      var l, r := HeapTree(ns, 2 * i + 1), HeapTree(ns, 2 * i + 2);
      HeapTreeShape(ns, 2 * i + 1);
      HeapTreeShape(ns, 2 * i + 2);
    }
  }

  /** Every node of that tree is one of the listed nodes. */
  lemma {:induction false} HeapTreeNodes(ns: seq<Node>, i: nat)
    ensures forall n :: n in Footprint(HeapTree(ns, i)) ==> n in ns
    decreases |ns| - i
  {
    if i < |ns| {
      HeapTreeNodes(ns, 2 * i + 1);
      HeapTreeNodes(ns, 2 * i + 2);
    }
  }

  /** From the root slot: a tree whose root is the node `HeapToTree` returns. */
  lemma HeapIsTree(ns: seq<Node>) returns (t: Tree)
    requires HeapShaped(ns)
    ensures Shape(t) && Root(t) == At(ns, 0)
    ensures forall n :: n in Footprint(t) ==> n in ns
  {
    t := HeapTree(ns, 0);
    HeapTreeShape(ns, 0);
    HeapTreeNodes(ns, 0);
  }

  function Size(t: Tree): nat
  {
    match t
    case Nil => 0
    case Bin(_, l, r) => 1 + Size(l) + Size(r)
  }

  function Height(t: Tree): nat
  {
    match t
    case Nil => 0
    case Bin(_, l, r) => 1 + Max(Height(l), Height(r))
  }

  function Max(a: int, b: int): int
  {
    if a < b then b else a
  }

  /** The subtree as a pushed entry: nothing for the empty tree (None is never pushed). */
  function Push(t: Tree): (q: seq<Tree>)
    ensures |q| <= 1 && (t.Bin? <==> q == [t])
  {
    if t.Nil? then [] else [t]
  }

  /** Total size of a sequence of trees. */
  function SizeAll(ts: seq<Tree>): nat
  {
    if ts == [] then 0 else SizeAll(ts[..|ts| - 1]) + Size(ts[|ts| - 1])
  }

  lemma {:induction false} SizeAllConcat(a: seq<Tree>, b: seq<Tree>)
    ensures SizeAll(a + b) == SizeAll(a) + SizeAll(b)
    decreases |b|
  {
    if b != [] {
      assert (a + b)[..|a + b| - 1] == a + b[..|b| - 1];
      assert (a + b)[|a + b| - 1] == b[|b| - 1];
      SizeAllConcat(a, b[..|b| - 1]);
    } else {
      assert a + b == a;
    }
  }

  lemma {:induction false} SizeAllFront(ts: seq<Tree>)
    requires ts != []
    ensures SizeAll(ts) == Size(ts[0]) + SizeAll(ts[1..])
  {
    assert ts == [ts[0]] + ts[1..];
    SizeAllConcat([ts[0]], ts[1..]);
    assert [ts[0]][..0] == [];
  }

  // ---------------------------------------------------------------------------
  // The two orders
  // ---------------------------------------------------------------------------

  /** Root, then the left subtree's order, then the right subtree's. */
  function Preorder(t: Tree): (r: seq<Node>)
  {
    match t
    case Nil => []
    case Bin(n, l, r) => [n] + Preorder(l) + Preorder(r)
  }

  /** The nodes at depth d, left to right. */
  function Level(t: Tree, d: nat): seq<Node>
  {
    match t
    case Nil => []
    case Bin(n, l, r) => if d == 0 then [n] else Level(l, d - 1) + Level(r, d - 1)
  }

  /** Levels 0 .. h-1, one after the other. */
  function LevelsUpTo(t: Tree, h: nat): seq<Node>
  {
    if h == 0 then [] else LevelsUpTo(t, h - 1) + Level(t, h - 1)
  }

  /** Level order: the root level first, each level left to right. */
  function LevelOrder(t: Tree): seq<Node>
  {
    LevelsUpTo(t, Height(t))
  }

  /** Preorder lists every node of t, and exactly Size(t) entries. */
  lemma {:induction false} PreorderCovers(t: Tree)
    ensures |Preorder(t)| == Size(t)
    ensures forall n :: n in Preorder(t) <==> n in Footprint(t)
  {
    match t
    case Nil =>
    case Bin(n, l, r) =>
      PreorderCovers(l);
      PreorderCovers(r);
  }

  // ---------------------------------------------------------------------------
  // dfs_traversal
  // ---------------------------------------------------------------------------

  /** What the stack still has to emit: the top entry's preorder first. */
  function StackOrder(ts: seq<Tree>): seq<Node>
  {
    if ts == [] then [] else Preorder(ts[|ts| - 1]) + StackOrder(ts[..|ts| - 1])
  }

  /** The node stack holds the roots of the ghost trees ts. */
  ghost predicate Holds(stack: seq<Node>, ts: seq<Tree>)
  {
    |stack| == |ts| && forall i :: 0 <= i < |ts| ==> ts[i].Bin? && stack[i] == ts[i].node
  }

  /** Every ghost tree on the stack is shaped in the heap. */
  ghost predicate Shaped(ts: seq<Tree>)
    reads Pending(ts)`left, Pending(ts)`right
  {
    ts == [] || (Shaped(ts[..|ts| - 1]) && Shape(ts[|ts| - 1]))
  }

  /** The nodes of all trees on the stack. */
  ghost function Pending(ts: seq<Tree>): set<Node>
  {
    if ts == [] then {} else Pending(ts[..|ts| - 1]) + Footprint(ts[|ts| - 1])
  }

  /** Popping the top entry of a stack of shaped trees. */
  lemma {:induction false} PopEntry(stack: seq<Node>, ts: seq<Tree>)
    requires Holds(stack, ts) && Shaped(ts) && ts != []
    ensures Holds(stack[..|stack| - 1], ts[..|ts| - 1]) && Shaped(ts[..|ts| - 1])
    ensures ts[|ts| - 1].Bin? && Shape(ts[|ts| - 1]) && stack[|stack| - 1] == ts[|ts| - 1].node
    ensures Pending(ts) == Pending(ts[..|ts| - 1]) + Footprint(ts[|ts| - 1])
  {
  }

  /** Pushing a shaped non-empty tree. */
  lemma {:induction false} PushEntry(stack: seq<Node>, ts: seq<Tree>, t: Tree)
    requires Holds(stack, ts) && Shaped(ts) && t.Bin? && Shape(t)
    ensures Holds(stack + [t.node], ts + [t]) && Shaped(ts + [t])
    ensures Pending(ts + [t]) == Pending(ts) + Footprint(t)
  {
    assert (ts + [t])[..|ts|] == ts;
  }

  /** Depth-first order with an explicit stack: pop the top, emit it, push its right child and
      then its left child, so the left subtree is emitted first.  An empty tree gives []. */
  method DfsTraversal(root: Node?, ghost t: Tree) returns (visited: seq<Node>)
    requires Shape(t) && root == Root(t)
    ensures visited == Preorder(t)
  {
    if root == null {
      return [];
    }
    visited := [];
    var stack: seq<Node> := [root];
    ghost var ts := [t];
    assert StackOrder(ts) == Preorder(t) by {
      assert ts[..0] == [];
    }
    while |stack| > 0
      invariant Holds(stack, ts) && Shaped(ts)
      invariant visited + StackOrder(ts) == Preorder(t)
      decreases SizeAll(ts)
    {
      var current := stack[|stack| - 1];
      ghost var top := ts[|ts| - 1];
      ghost var rest := ts[..|ts| - 1];
      ghost var before := visited;
      PopEntry(stack, ts);
      PopTop(ts);
      stack := stack[..|stack| - 1];
      ts := rest;
      visited := visited + [current];
      stack, ts := PushChildren(stack, ts, current, top);
      DfsStep(rest, top, ts);
      AppendAssoc(before, current, StackOrder(ts));
    }
  }

  /** `if child: stack.append(child)`: the child is pushed exactly when it is not None. */
  method PushChild(stack: seq<Node>, ghost ts: seq<Tree>, child: Node?, ghost sub: Tree, ghost keep: Tree)
    returns (stack': seq<Node>, ghost ts': seq<Tree>)
    requires Holds(stack, ts) && Shaped(ts) && Shape(sub) && child == Root(sub) && Shape(keep)
    ensures Holds(stack', ts') && Shaped(ts') && ts' == ts + Push(sub)
    ensures Pending(ts') == Pending(ts) + Footprint(sub)
    ensures Shape(keep)
  {
    if child != null {
      PushEntry(stack, ts, sub);
      stack', ts' := stack + [child], ts + [sub];
    } else {
      assert ts + Push(sub) == ts;
      stack', ts' := stack, ts;
    }
  }

  /** `if current.right: stack.append(current.right)`, then the same for the left child. */
  method PushChildren(stack: seq<Node>, ghost ts: seq<Tree>, current: Node, ghost top: Tree)
    returns (stack': seq<Node>, ghost ts': seq<Tree>)
    requires Holds(stack, ts) && Shaped(ts) && top.Bin? && Shape(top) && current == top.node
    ensures Holds(stack', ts') && Shaped(ts') && ts' == ts + Push(top.right) + Push(top.left)
    ensures Pending(ts') == Pending(ts) + Footprint(top.right) + Footprint(top.left)
  {
    stack', ts' := PushChild(stack, ts, current.right, top.right, top.left);
    stack', ts' := PushChild(stack', ts', current.left, top.left, Nil);
  }

  /** `if current.left: queue.append(current.left)`, then the same for the right child. */
  method EnqueueChildren(queue: seq<Node>, ghost ts: seq<Tree>, current: Node, ghost front: Tree)
    returns (queue': seq<Node>, ghost ts': seq<Tree>)
    requires Holds(queue, ts) && Shaped(ts) && front.Bin? && Shape(front) && current == front.node
    ensures Holds(queue', ts') && Shaped(ts') && ts' == ts + Kids(front)
  {
    queue', ts' := PushChild(queue, ts, current.left, front.left, front.right);
    queue', ts' := PushChild(queue', ts', current.right, front.right, Nil);
    assert ts' == ts + Kids(front) by {
      ConcatAssoc(ts, Push(front.left), Push(front.right));
    }
  }

  /** Appending one element, then a sequence. */
  lemma {:induction false} AppendAssoc<T>(a: seq<T>, x: T, b: seq<T>)
    ensures (a + [x]) + b == a + ([x] + b)
  {
  }

  /** The stack without its top entry. */
  lemma {:induction false} PopTop(ts: seq<Tree>)
    requires ts != []
    ensures StackOrder(ts) == Preorder(ts[|ts| - 1]) + StackOrder(ts[..|ts| - 1])
    ensures SizeAll(ts) == SizeAll(ts[..|ts| - 1]) + Size(ts[|ts| - 1])
  {
  }

  /** Pushing a (possibly empty) subtree puts its preorder in front and adds its size. */
  lemma {:induction false} StackPush(ts: seq<Tree>, t: Tree)
    ensures StackOrder(ts + Push(t)) == Preorder(t) + StackOrder(ts)
    ensures SizeAll(ts + Push(t)) == SizeAll(ts) + Size(t)
  {
    if t.Bin? {
      assert (ts + [t])[..|ts|] == ts;
    } else {
      assert ts + [] == ts;
    }
  }

  /** Popping `top` and pushing its non-empty children (right, then left) keeps both the
      emission order and the size measure in step. */
  lemma {:induction false} DfsStep(rest: seq<Tree>, top: Tree, ts: seq<Tree>)
    requires top.Bin? && ts == rest + Push(top.right) + Push(top.left)
    ensures Preorder(top) + StackOrder(rest) == [top.node] + StackOrder(ts)
    ensures SizeAll(ts) < SizeAll(rest) + Size(top)
  {
    var mid := rest + Push(top.right);
    StackPush(rest, top.right);
    StackPush(mid, top.left);
    var n, l, r, a := [top.node], Preorder(top.left), Preorder(top.right), StackOrder(rest);
    assert Preorder(top) == n + l + r;
    assert StackOrder(ts) == l + (r + a);
    Assoc4(n, l, r, a);
  }

  lemma {:induction false} Assoc4<T>(a: seq<T>, b: seq<T>, c: seq<T>, d: seq<T>)
    ensures (a + b + c) + d == a + (b + (c + d))
  {
  }

  // ---------------------------------------------------------------------------
  // bfs_traversal
  // ---------------------------------------------------------------------------

  /** The two children of a node as queue entries, left first. */
  function Kids(t: Tree): seq<Tree>
  {
    if t.Nil? then [] else Push(t.left) + Push(t.right)
  }

  /** What a FIFO queue run emits: dequeue the front, emit it, enqueue its children. */
  ghost function Bfs(q: seq<Tree>): seq<Node>
    decreases SizeAll(q), |q|
  {
    if q == [] then []
    else
      SizeAllFront(q);
      SizeAllConcat(q[1..], Kids(q[0]));
      KidsSize(q[0]);
      if q[0].Nil? then Bfs(q[1..]) else [q[0].node] + Bfs(q[1..] + Kids(q[0]))
  }

  lemma {:induction false} KidsSize(t: Tree)
    ensures t.Bin? ==> SizeAll(Kids(t)) + 1 == Size(t)
    ensures t.Nil? ==> Kids(t) == []
  {
    if t.Bin? {
      SizeAllConcat(Push(t.left), Push(t.right));
      assert SizeAll(Push(t.left)) == Size(t.left) by {
        if t.left.Bin? {
          assert [t.left][..0] == [];
        }
      }
      assert SizeAll(Push(t.right)) == Size(t.right) by {
        if t.right.Bin? {
          assert [t.right][..0] == [];
        }
      }
    }
  }

  /** Shaped says each entry is shaped. */
  lemma {:induction false} ShapedAll(ts: seq<Tree>)
    ensures Shaped(ts) <==> forall i :: 0 <= i < |ts| ==> Shape(ts[i])
    decreases |ts|
  {
    if ts != [] {
      ShapedAll(ts[..|ts| - 1]);
    }
  }

  /** Dequeuing the front entry of a queue of shaped trees. */
  lemma FrontEntry(queue: seq<Node>, ts: seq<Tree>)
    requires Holds(queue, ts) && Shaped(ts) && ts != []
    ensures Holds(queue[1..], ts[1..]) && Shaped(ts[1..])
    ensures ts[0].Bin? && Shape(ts[0]) && queue[0] == ts[0].node
  {
    ShapedAll(ts);
    ShapedAll(ts[1..]);
  }

  /** One dequeue of the run: the front node is emitted, its children are enqueued. */
  lemma BfsStep(q: seq<Tree>, ts: seq<Tree>)
    requires q != [] && q[0].Bin? && ts == q[1..] + Kids(q[0])
    ensures Bfs(q) == [q[0].node] + Bfs(ts)
    ensures SizeAll(ts) < SizeAll(q)
  {
    SizeAllFront(q);
    SizeAllConcat(q[1..], Kids(q[0]));
    KidsSize(q[0]);
  }

  /** Breadth-first order with a queue: dequeue the front, emit it, enqueue its left child and
      then its right child.  An empty tree gives []. */
  method BfsTraversal(root: Node?, ghost t: Tree) returns (visited: seq<Node>)
    requires Shape(t) && root == Root(t)
    ensures visited == LevelOrder(t)
  {
    if root == null {
      return [];
    }
    visited := [];
    var queue: seq<Node> := [root];
    ghost var ts := [t];
    assert Shaped(ts) by {
      assert ts[..0] == [];
    }
    while |queue| > 0
      invariant Holds(queue, ts) && Shaped(ts)
      invariant visited + Bfs(ts) == Bfs([t])
      decreases SizeAll(ts)
    {
      var current := queue[0];
      ghost var front := ts[0];
      ghost var old_ts := ts;
      ghost var before := visited;
      FrontEntry(queue, ts);
      queue := queue[1..];
      ts := ts[1..];
      visited := visited + [current];
      queue, ts := EnqueueChildren(queue, ts, current, front);
      BfsStep(old_ts, ts);
      AppendAssoc(before, current, Bfs(ts));
    }
    BfsIsLevelOrder(t);
  }

  // ---------------------------------------------------------------------------
  // The queue run emits level order
  // ---------------------------------------------------------------------------

  /** Depth d of every tree of a forest, front to back. */
  function LevelAll(q: seq<Tree>, d: nat): seq<Node>
  {
    if q == [] then [] else Level(q[0], d) + LevelAll(q[1..], d)
  }

  /** The children of every tree of a forest, front to back. */
  function Children(q: seq<Tree>): seq<Tree>
  {
    if q == [] then [] else Kids(q[0]) + Children(q[1..])
  }

  function HeightAll(q: seq<Tree>): nat
  {
    if q == [] then 0 else Max(Height(q[0]), HeightAll(q[1..]))
  }

  /** Levels 0 .. h-1 of a forest. */
  function ForestOrder(q: seq<Tree>, h: nat): seq<Node>
  {
    if h == 0 then [] else ForestOrder(q, h - 1) + LevelAll(q, h - 1)
  }

  lemma {:induction false} LevelAllConcat(a: seq<Tree>, b: seq<Tree>, d: nat)
    ensures LevelAll(a + b, d) == LevelAll(a, d) + LevelAll(b, d)
    decreases |a|
  {
    if a != [] {
      assert (a + b)[0] == a[0];
      assert (a + b)[1..] == a[1..] + b;
      LevelAllConcat(a[1..], b, d);
    } else {
      assert a + b == b;
    }
  }

  lemma {:induction false} HeightAllConcat(a: seq<Tree>, b: seq<Tree>)
    ensures HeightAll(a + b) == Max(HeightAll(a), HeightAll(b))
    decreases |a|
  {
    if a != [] {
      assert (a + b)[0] == a[0];
      assert (a + b)[1..] == a[1..] + b;
      HeightAllConcat(a[1..], b);
    } else {
      assert a + b == b;
    }
  }

  /** Depth d of the children is depth d+1 of the forest. */
  lemma {:induction false} LevelChildren(q: seq<Tree>, d: nat)
    ensures LevelAll(Children(q), d) == LevelAll(q, d + 1)
    decreases |q|
  {
    if q != [] {
      LevelChildren(q[1..], d);
      LevelAllConcat(Kids(q[0]), Children(q[1..]), d);
      if q[0].Bin? {
        LevelAllConcat(Push(q[0].left), Push(q[0].right), d);
        assert LevelAll(Push(q[0].left), d) == Level(q[0].left, d);
        assert LevelAll(Push(q[0].right), d) == Level(q[0].right, d);
      }
    }
  }

  /** The children of a forest are one level shorter. */
  lemma {:induction false} HeightChildren(q: seq<Tree>)
    ensures HeightAll(Children(q)) == if HeightAll(q) == 0 then 0 else HeightAll(q) - 1
    decreases |q|
  {
    if q != [] {
      HeightChildren(q[1..]);
      HeightAllConcat(Kids(q[0]), Children(q[1..]));
      if q[0].Bin? {
        HeightAllConcat(Push(q[0].left), Push(q[0].right));
        assert HeightAll(Push(q[0].left)) == Height(q[0].left);
        assert HeightAll(Push(q[0].right)) == Height(q[0].right);
      }
    }
  }

  /** A forest of height 0 holds only empty trees. */
  lemma {:induction false} FlatForest(q: seq<Tree>)
    requires HeightAll(q) == 0
    ensures Children(q) == [] && LevelAll(q, 0) == []
    decreases |q|
  {
    if q != [] {
      FlatForest(q[1..]);
    }
  }

  /** Splitting off the first level of a forest. */
  lemma {:induction false} ForestStep(q: seq<Tree>, h: nat)
    ensures ForestOrder(q, h + 1) == LevelAll(q, 0) + ForestOrder(Children(q), h)
    decreases h
  {
    if h > 0 {
      ForestStep(q, h - 1);
      LevelChildren(q, h - 1);
    }
  }

  /** Running the queue over q and then `extra`: after the entries of q have been dequeued,
      q's first level has been emitted and the queue holds `extra` followed by q's children. */
  lemma {:induction false} BfsRound(q: seq<Tree>, extra: seq<Tree>)
    ensures Bfs(q + extra) == LevelAll(q, 0) + Bfs(extra + Children(q))
    decreases |q|
  {
    if q != [] {
      BfsRound(q[1..], extra + Kids(q[0]));
      if q[0].Nil? {
        BfsRoundSkip(q, extra);
      } else {
        BfsRoundFront(q, extra);
      }
    } else {
      assert [] + extra == extra;
      assert extra + [] == extra;
    }
  }

  /** Dequeuing an empty tree emits nothing. */
  lemma BfsSkip(q: seq<Tree>)
    requires q != [] && q[0].Nil?
    ensures Bfs(q) == Bfs(q[1..])
  {
  }

  /** The step of BfsRound for an empty front tree, given the round over the rest. */
  lemma {:induction false} BfsRoundSkip(q: seq<Tree>, extra: seq<Tree>)
    requires q != [] && q[0].Nil?
    requires Bfs(q[1..] + (extra + Kids(q[0]))) == LevelAll(q[1..], 0) + Bfs(extra + Kids(q[0]) + Children(q[1..]))
    ensures Bfs(q + extra) == LevelAll(q, 0) + Bfs(extra + Children(q))
  {
    TailConcat(q, extra);
    BfsSkip(q + extra);
    assert Kids(q[0]) == [];
    EmptyConcat(extra);
    EmptyConcat(Children(q[1..]));
    EmptyConcat(LevelAll(q[1..], 0));
  }

  /** The step of BfsRound for a non-empty front tree, given the round over the rest. */
  lemma {:induction false} BfsRoundFront(q: seq<Tree>, extra: seq<Tree>)
    requires q != [] && q[0].Bin?
    requires Bfs(q[1..] + (extra + Kids(q[0]))) == LevelAll(q[1..], 0) + Bfs(extra + Kids(q[0]) + Children(q[1..]))
    ensures Bfs(q + extra) == LevelAll(q, 0) + Bfs(extra + Children(q))
  {
    var rest := q[1..];
    var kids := Kids(q[0]);
    TailConcat(q, extra);
    ConcatAssoc(rest, extra, kids);
    ConcatAssoc(extra, kids, Children(rest));
    BfsStep(q + extra, rest + (extra + kids));
    ConcatAssoc([q[0].node], LevelAll(rest, 0), Bfs(extra + Children(q)));
  }

  lemma {:induction false} ConcatAssoc<T>(a: seq<T>, b: seq<T>, c: seq<T>)
    ensures a + b + c == a + (b + c)
  {
  }

  lemma {:induction false} TailConcat<T>(a: seq<T>, b: seq<T>)
    requires a != []
    ensures (a + b)[0] == a[0] && (a + b)[1..] == a[1..] + b
  {
  }

  lemma {:induction false} EmptyConcat<T>(a: seq<T>)
    ensures a + [] == a && [] + a == a
  {
  }

  /** The queue run over a forest emits the forest level by level. */
  lemma {:induction false} BfsForest(q: seq<Tree>)
    ensures Bfs(q) == ForestOrder(q, HeightAll(q))
    decreases HeightAll(q)
  {
    BfsRound(q, []);
    assert q + [] == q;
    assert [] + Children(q) == Children(q);
    if HeightAll(q) == 0 {
      FlatForest(q);
    } else {
      HeightChildren(q);
      BfsForest(Children(q));
      ForestStep(q, HeightAll(q) - 1);
    }
  }

  lemma {:induction false} ForestOfOne(t: Tree, h: nat)
    ensures ForestOrder([t], h) == LevelsUpTo(t, h)
    decreases h
  {
    if h > 0 {
      ForestOfOne(t, h - 1);
      assert [t][1..] == [];
      assert LevelAll([t], h - 1) == Level(t, h - 1) + [];
      assert Level(t, h - 1) + [] == Level(t, h - 1);
    }
  }

  /** The queue run from the root emits exactly level order. */
  lemma {:induction false} BfsIsLevelOrder(t: Tree)
    ensures Bfs([t]) == LevelOrder(t)
  {
    BfsForest([t]);
    assert [t][1..] == [];
    ForestOfOne(t, Height(t));
  }

  /** The nodes of a forest, with repetitions. */
  function NodesAll(q: seq<Tree>): multiset<Node>
  {
    if q == [] then multiset{} else multiset(Preorder(q[0])) + NodesAll(q[1..])
  }

  lemma {:induction false} NodesAllConcat(a: seq<Tree>, b: seq<Tree>)
    ensures NodesAll(a + b) == NodesAll(a) + NodesAll(b)
    decreases |a|
  {
    if a != [] {
      assert (a + b)[0] == a[0];
      assert (a + b)[1..] == a[1..] + b;
      NodesAllConcat(a[1..], b);
    } else {
      assert a + b == b;
    }
  }

  /** The queue run emits every node of the forest exactly as often as it occurs. */
  lemma {:induction false} BfsNodes(q: seq<Tree>)
    ensures multiset(Bfs(q)) == NodesAll(q)
    decreases SizeAll(q), |q|
  {
    if q != [] {
      if q[0].Nil? {
        SizeAllFront(q);
        BfsNodes(q[1..]);
      } else {
        var t := q[0];
        BfsStep(q, q[1..] + Kids(t));
        BfsNodes(q[1..] + Kids(t));
        NodesAllConcat(q[1..], Kids(t));
        NodesKids(t);
      }
    }
  }

  /** The children of a node hold all of its subtree but the node itself. */
  lemma {:induction false} NodesKids(t: Tree)
    requires t.Bin?
    ensures multiset{t.node} + NodesAll(Kids(t)) == multiset(Preorder(t))
  {
    NodesAllConcat(Push(t.left), Push(t.right));
    NodesPush(t.left);
    NodesPush(t.right);
    assert Preorder(t) == [t.node] + Preorder(t.left) + Preorder(t.right);
  }

  lemma {:induction false} NodesPush(t: Tree)
    ensures NodesAll(Push(t)) == multiset(Preorder(t))
  {
    if t.Bin? {
      assert Push(t)[1..] == [];
    }
  }

  /** Level order and preorder list the same nodes, each as often: BFS, like DFS, visits
      every node of the tree once, so it emits Size(t) nodes. */
  lemma {:induction false} LevelOrderNodes(t: Tree)
    ensures multiset(LevelOrder(t)) == multiset(Preorder(t))
    ensures |LevelOrder(t)| == Size(t)
  {
    BfsIsLevelOrder(t);
    BfsNodes([t]);
    assert [t][1..] == [];
    PreorderCovers(t);
    assert |multiset(LevelOrder(t))| == |multiset(Preorder(t))|;
  }

  // ---------------------------------------------------------------------------
  // reset_node_colors
  // ---------------------------------------------------------------------------

  lemma {:induction false} AllAllocated(t: Tree)
    ensures forall n :: n in Footprint(t) ==> allocated(n)
  {
    match t
    case Nil =>
    case Bin(_, l, r) =>
      AllAllocated(l);
      AllAllocated(r);
  }

  /** The state of `reset_node_colors` between two pops: the stack holds shaped subtrees of
      t, and every node of t not on the stack already has colour c. */
  ghost predicate Resetting(t: Tree, stack: seq<Node>, ts: seq<Tree>, c: string)
    reads Footprint(t)
  {
    Shape(t) && Pending(ts) <= Footprint(t) && Holds(stack, ts) && Shaped(ts) &&
    (forall n :: n in Footprint(t) ==> n.color == c || n in Pending(ts))
  }

  /** Sets the colour of every node of the tree to `defaultColor`, walking it with a stack;
      values and child links are untouched (only the `color` fields may change). */
  method ResetNodeColors(root: Node?, ghost t: Tree, defaultColor: string)
    requires Shape(t) && root == Root(t)
    modifies Footprint(t)`color
    ensures forall n :: n in Footprint(t) ==> n.color == defaultColor
    ensures Shape(t)
  {
    if root == null {
      return;
    }
    AllAllocated(t);
    var stack: seq<Node> := [root];
    ghost var ts := [t];
    assert Pending(ts) == Footprint(t) && Shaped(ts) by {
      assert ts[..0] == [];
    }
    while |stack| > 0
      invariant Resetting(t, stack, ts, defaultColor)
      invariant forall n :: n in Footprint(t) ==> allocated(n)
      decreases SizeAll(ts)
    {
      stack, ts := ResetStep(t, stack, ts, defaultColor);
    }
  }

  /** `reset_node_colors` called without a colour: every node gets the default node colour. */
  method ResetNodeColorsToDefault(root: Node?, ghost t: Tree)
    requires Shape(t) && root == Root(t)
    modifies Footprint(t)`color
    ensures forall n :: n in Footprint(t) ==> n.color == BinaryHeap.DefaultColor
    ensures Shape(t)
  {
    ResetNodeColors(root, t, BinaryHeap.DefaultColor);
  }

  /** One pass of the loop: pop a node, colour it, push its right and then its left child. */
  method ResetStep(ghost t: Tree, stack: seq<Node>, ghost ts: seq<Tree>, c: string)
    returns (stack': seq<Node>, ghost ts': seq<Tree>)
    requires Resetting(t, stack, ts, c) && stack != []
    requires forall n :: n in Footprint(t) ==> allocated(n)
    modifies Footprint(t)`color
    ensures Resetting(t, stack', ts', c) && SizeAll(ts') < SizeAll(ts)
  {
    var current := stack[|stack| - 1];
    ghost var top := ts[|ts| - 1];
    ghost var rest := ts[..|ts| - 1];
    PopEntry(stack, ts);
    PopTop(ts);
    assert Footprint(top) == {current} + Footprint(top.left) + Footprint(top.right);
    stack', ts' := PushChildren(stack[..|stack| - 1], rest, current, top);
    DfsStep(rest, top, ts');
    Paint(t, Pending(ts), Pending(ts'), current, c);
  }

  /** `current.color = default_color`: the popped node leaves the pending set, coloured. */
  method Paint(ghost t: Tree, ghost before: set<Node>, ghost after: set<Node>, current: Node, c: string)
    requires before <= after + {current}
    requires forall n :: n in Footprint(t) ==> n.color == c || n in before
    modifies current`color
    ensures current.color == c
    ensures forall n :: n in Footprint(t) ==> n.color == c || n in after
  {
    current.color := c;
  }

  // ---------------------------------------------------------------------------
  // generate_color_gradient
  // ---------------------------------------------------------------------------

  datatype Rgb = Rgb(r: int, g: int, b: int)

  predicate IsByte(v: int)
  {
    0 <= v < 256
  }

  predicate InRange(c: Rgb)
  {
    IsByte(c.r) && IsByte(c.g) && IsByte(c.b)
  }

  predicate IsHexDigit(c: char)
  {
    '0' <= c <= '9' || 'a' <= c <= 'f' || 'A' <= c <= 'F'
  }

  predicate IsUpperHexDigit(c: char)
  {
    '0' <= c <= '9' || 'A' <= c <= 'F'
  }

  function DigitValue(c: char): (v: int)
    requires IsHexDigit(c)
    ensures 0 <= v < 16
  {
    if c <= '9' then c as int - '0' as int
    else if c <= 'F' then c as int - 'A' as int + 10
    else c as int - 'a' as int + 10
  }

  /** The upper-case digit for 0 <= v < 16. */
  function HexDigit(v: int): (c: char)
    requires 0 <= v < 16
    ensures IsUpperHexDigit(c) && DigitValue(c) == v
  {
    if v < 10 then ('0' as int + v) as char else ('A' as int + v - 10) as char
  }

  function ToUpper(c: char): char
  {
    if 'a' <= c <= 'f' then (c as int - 'a' as int + 'A' as int) as char else c
  }

  /** The value of a string of hex digits, most significant first. */
  function HexValue(s: string): (v: nat)
    requires forall i :: 0 <= i < |s| ==> IsHexDigit(s[i])
  {
    if s == [] then 0 else HexValue(s[..|s| - 1]) * 16 + DigitValue(s[|s| - 1])
  }

  /** `int(seg, 16)`: the digits' value, or an error for an empty or non-hex segment. */
  function ParseHex(seg: string): (r: Result<int>)
    ensures r.Success? <==> |seg| > 0 && forall i :: 0 <= i < |seg| ==> IsHexDigit(seg[i])
  {
    if |seg| > 0 && forall i :: 0 <= i < |seg| ==> IsHexDigit(seg[i]) then Success(HexValue(seg))
    else Failure("invalid literal for int() with base 16")
  }

  /** `f"{v:02X}"` for a byte: exactly two upper-case digits. */
  function Hex2(v: int): (s: string)
    requires IsByte(v)
    ensures |s| == 2 && IsUpperHexDigit(s[0]) && IsUpperHexDigit(s[1])
  {
    [HexDigit(v / 16), HexDigit(v % 16)]
  }

  /** Formatting a byte and parsing it back gives the byte. */
  lemma {:induction false} Hex2RoundTrip(v: int)
    requires IsByte(v)
    ensures ParseHex(Hex2(v)) == Success(v)
  {
    var s := Hex2(v);
    HexTwo(s);
  }

  /** Parsing two hex digits and formatting the value gives the digits in upper case. */
  lemma {:induction false} ParseFormat(s: string)
    requires |s| == 2 && IsHexDigit(s[0]) && IsHexDigit(s[1])
    ensures ParseHex(s).Success? && IsByte(ParseHex(s).value)
    ensures Hex2(ParseHex(s).value) == [ToUpper(s[0]), ToUpper(s[1])]
  {
    HexTwo(s);
    var v := DigitValue(s[0]) * 16 + DigitValue(s[1]);
    assert v / 16 == DigitValue(s[0]) && v % 16 == DigitValue(s[1]);
    DigitUpper(s[0]);
    DigitUpper(s[1]);
  }

  /** The upper-case digit of a hex digit's value is the digit in upper case. */
  lemma {:induction false} DigitUpper(c: char)
    requires IsHexDigit(c)
    ensures HexDigit(DigitValue(c)) == ToUpper(c)
  {
  }

  /** `str.lstrip("#")`: drops every leading '#'. */
  function StripHashes(s: string): (r: string)
    ensures |r| <= |s| && r == s[|s| - |r|..]
    ensures forall i :: 0 <= i < |s| - |r| ==> s[i] == '#'
    ensures r == [] || r[0] != '#'
  {
    if |s| > 0 && s[0] == '#' then StripHashes(s[1..]) else s
  }

  function Min(a: int, b: int): int
  {
    if a < b then a else b
  }

  /** Python's `s[i:j]`: indices past the end are clamped. */
  function Slice(s: string, i: nat, j: nat): (r: string)
    requires i <= j
    ensures |r| <= j - i
  {
    s[Min(i, |s|)..Min(j, |s|)]
  }

  /** The three channels of a hex colour string such as "#0036A0". */
  function ParseRgb(hex: string): (r: Result<Rgb>)
    ensures r.Success? ==> InRange(r.value)
  {
    ParseChannels(StripHashes(hex))
  }

  /** Channels from the digits after the hashes: characters 0-1, 2-3 and 4-5. */
  function ParseChannels(s: string): (r: Result<Rgb>)
    ensures r.Success? ==> InRange(r.value)
  {
    var red := ParseHex(Slice(s, 0, 2));
    var green := ParseHex(Slice(s, 2, 4));
    var blue := ParseHex(Slice(s, 4, 6));
    if red.Failure? || green.Failure? || blue.Failure? then Failure("invalid literal for int() with base 16")
    else
      ShortHexIsByte(Slice(s, 0, 2));
      ShortHexIsByte(Slice(s, 2, 4));
      ShortHexIsByte(Slice(s, 4, 6));
      Success(Rgb(red.value, green.value, blue.value))
  }

  /** One or two hex digits make a byte. */
  lemma {:induction false} ShortHexIsByte(seg: string)
    requires ParseHex(seg).Success? && |seg| <= 2
    ensures IsByte(ParseHex(seg).value)
  {
    if |seg| == 2 {
      HexTwo(seg);
    } else {
      HexOne(seg);
    }
  }

  lemma {:induction false} HexOne(s: string)
    requires |s| == 1 && IsHexDigit(s[0])
    ensures HexValue(s) == DigitValue(s[0])
  {
    assert s[..0] == [];
  }

  lemma {:induction false} HexTwo(s: string)
    requires |s| == 2 && IsHexDigit(s[0]) && IsHexDigit(s[1])
    ensures HexValue(s) == DigitValue(s[0]) * 16 + DigitValue(s[1])
  {
    var p := s[..1];
    assert p[0] == s[0];
    HexOne(p);
  }

  /** `int(a + (b - a) * t)` with `t = i / d` taken as an exact fraction: for channel values
      the sum is non-negative, so truncation is the floor. */
  function Lerp(a: int, b: int, i: int, d: int): (v: int)
    requires 0 <= i <= d && 0 < d
    ensures Min(a, b) <= v <= Max(a, b)
    ensures i == 0 ==> v == a
    ensures i == d ==> v == b
  {
    LerpBetween(a, b, i, d);
    a + ((b - a) * i) / d
  }

  lemma {:induction false} LerpBetween(a: int, b: int, i: int, d: int)
    requires 0 <= i <= d && 0 < d
    ensures Min(a, b) <= a + ((b - a) * i) / d <= Max(a, b)
    ensures i == d ==> a + ((b - a) * i) / d == b
  {
    var x := (b - a) * i;
    if b >= a {
      MulMono(b - a, i, d);
      DivBounds(x, b - a, d);
    } else {
      MulMono(a - b, i, d);
      NegMul(a - b, i);
      NegMul(a - b, d);
      FloorNeg(x, a - b, d);
      DivNonPos(x, d);
    }
    if i == d {
      MulDivCancel(b - a, d);
    }
  }

  lemma {:induction false} MulMono(c: int, i: int, d: int)
    requires 0 <= c && 0 <= i <= d
    ensures 0 <= c * i <= c * d
  {
  }

  lemma {:induction false} NegMul(c: int, i: int)
    ensures (-c) * i == -(c * i)
  {
  }

  lemma {:induction false} DivBounds(x: int, c: int, d: int)
    requires 0 <= x <= c * d && 0 < d
    ensures 0 <= x / d <= c
  {
  }

  lemma {:induction false} DivNonPos(x: int, d: int)
    requires x <= 0 && 0 < d
    ensures x / d <= 0
  {
  }

  lemma {:induction false} PosFactor(u: int, d: int)
    requires d > 0 && u * d > 0
    ensures u > 0
  {
  }

  lemma {:induction false} SmallFactor(u: int, d: int)
    requires d > 0 && 0 <= u * d < d
    ensures u == 0
  {
  }

  /** For -c*d <= x <= 0, the floor of x / d is at least -c. */
  lemma {:induction false} FloorNeg(x: int, c: int, d: int)
    requires -(c * d) <= x <= 0 && 0 < d && 0 <= c
    ensures x / d >= -c
  {
    var q := x / d;
    assert q * d + x % d == x;
    assert (q + c + 1) * d == q * d + c * d + d;
    PosFactor(q + c + 1, d);
  }

  lemma {:induction false} MulDivCancel(c: int, d: int)
    requires 0 < d
    ensures (c * d) / d == c
  {
    var q := (c * d) / d;
    assert q * d + (c * d) % d == c * d;
    assert (c - q) * d == (c * d) % d;
    SmallFactor(c - q, d);
  }

  /** "#RRGGBB" with upper-case digits. */
  function Format(c: Rgb): (s: string)
    requires InRange(c)
    ensures |s| == 7 && s[0] == '#'
  {
    "#" + Hex2(c.r) + Hex2(c.g) + Hex2(c.b)
  }

  /** After the '#', a formatted colour is six upper-case hex digits. */
  lemma {:induction false} FormatDigits(c: Rgb)
    requires InRange(c)
    ensures forall j :: 1 <= j < 7 ==> IsUpperHexDigit(Format(c)[j])
  {
    var s := Format(c);
    assert s[1..3] == Hex2(c.r) && s[3..5] == Hex2(c.g) && s[5..7] == Hex2(c.b);
  }

  /** The i-th colour of a gradient with step denominator d. */
  function ColorAt(start: Rgb, end: Rgb, i: int, d: int): string
    requires InRange(start) && InRange(end) && 0 <= i <= d && 0 < d
  {
    Format(Rgb(Lerp(start.r, end.r, i, d), Lerp(start.g, end.g, i, d), Lerp(start.b, end.b, i, d)))
  }

  /** The colour for each step of a gradient with step denominator d. */
  function StepColors(start: Rgb, end: Rgb, d: int): (f: nat --> string)
    requires InRange(start) && InRange(end) && 0 < d
    ensures forall i: nat :: i <= d ==> f.requires(i) && f(i) == ColorAt(start, end, i, d)
  {
    (i: nat) requires i <= d => ColorAt(start, end, i, d)
  }

  /** The list a loop builds by appending f(0), f(1), ..., f(k-1). */
  function Tabulate<T>(f: nat --> T, k: nat): seq<T>
    requires forall i: nat :: i < k ==> f.requires(i)
  {
    if k == 0 then [] else Tabulate(f, k - 1) + [f(k - 1)]
  }

  /** Appending f(k) to the first k entries gives the first k + 1. */
  lemma {:induction false} TabulateNext<T>(f: nat --> T, k: nat, x: T)
    requires forall i: nat :: i <= k ==> f.requires(i)
    requires x == f(k)
    ensures Tabulate(f, k) + [x] == Tabulate(f, k + 1)
  {
  }

  /** The list has k entries, entry i being f(i). */
  lemma {:induction false} TabulateIndex<T>(f: nat --> T, k: nat)
    requires forall i: nat :: i < k ==> f.requires(i)
    ensures |Tabulate(f, k)| == k
    ensures forall i: nat :: i < k ==> Tabulate(f, k)[i] == f(i)
  {
    if k > 0 {
      TabulateIndex(f, k - 1);
    }
  }

  /** The whole gradient: [] for no nodes, otherwise one colour per node from start to end. */
  function Gradient(totalNodes: int, startHex: string, endHex: string): Result<seq<string>>
  {
    if totalNodes <= 0 then Success([])
    else
      var s := ParseRgb(startHex);
      var e := ParseRgb(endHex);
      if s.Failure? || e.Failure? then Failure("invalid literal for int() with base 16")
      else Success(Tabulate(StepColors(s.value, e.value, Max(totalNodes - 1, 1)), totalNodes))
  }

  /** `generate_color_gradient`: builds the gradient colour by colour. */
  method GenerateColorGradient(totalNodes: int, startHex: string, endHex: string) returns (r: Result<seq<string>>)
    ensures r == Gradient(totalNodes, startHex, endHex)
  {
    if totalNodes <= 0 {
      return Success([]);
    }
    var s := ParseRgb(startHex);
    var e := ParseRgb(endHex);
    if s.Failure? || e.Failure? {
      return Failure("invalid literal for int() with base 16");
    }
    var colors := BuildColors(StepColors(s.value, e.value, Max(totalNodes - 1, 1)), totalNodes);
    return Success(colors);
  }

  /** The colours `generate_color_gradient` uses when none are given: dark blue to light blue. */
  const DefaultStart: string := "#0036A0"
  const DefaultEnd: string := "#AADDFF"

  /** `generate_color_gradient` called with the node count only.  The default colours always
      parse, so the result is one colour per node, from the start colour to the end colour. */
  method GenerateDefaultGradient(totalNodes: int) returns (r: Result<seq<string>>)
    ensures r == Gradient(totalNodes, DefaultStart, DefaultEnd)
    ensures r.Success? && |r.value| == Max(totalNodes, 0)
    ensures totalNodes > 0 ==> r.value[0] == DefaultStart
    ensures totalNodes >= 2 ==> r.value[totalNodes - 1] == DefaultEnd
  {
    DefaultGradient(totalNodes);
    r := GenerateColorGradient(totalNodes, DefaultStart, DefaultEnd);
  }

  /** The loop of `generate_color_gradient`: the colour of each step, appended in order. */
  method BuildColors(step: nat --> string, n: nat) returns (colors: seq<string>)
    requires forall i: nat :: i < n ==> step.requires(i)
    ensures colors == Tabulate(step, n)
  {
    colors := [];
    var i := 0;
    while i < n
      invariant 0 <= i <= n
      invariant colors == Tabulate(step, i)
    {
      var c := step(i);
      TabulateNext(step, i, c);
      colors := colors + [c];
      i := i + 1;
    }
  }

  /** No nodes: an empty list, whatever the colour strings; otherwise one entry per node, or an
      error when either colour string does not parse. */
  lemma {:induction false} GradientLength(n: int, startHex: string, endHex: string)
    ensures n <= 0 ==> Gradient(n, startHex, endHex) == Success([])
    ensures n > 0 ==> (Gradient(n, startHex, endHex).Success? <==>
                       ParseRgb(startHex).Success? && ParseRgb(endHex).Success?)
    ensures Gradient(n, startHex, endHex).Success? ==> |Gradient(n, startHex, endHex).value| == Max(n, 0)
  {
    var s, e := ParseRgb(startHex), ParseRgb(endHex);
    if n > 0 && s.Success? && e.Success? {
      var f := StepColors(s.value, e.value, Max(n - 1, 1));
      TabulateIndex(f, n);
      assert Gradient(n, startHex, endHex) == Success(Tabulate(f, n));
    }
  }

  /** The first colour is the start colour and, with two or more nodes, the last colour is
      the end colour. */
  lemma {:induction false} GradientEnds(n: int, startHex: string, endHex: string)
    requires Gradient(n, startHex, endHex).Success? && n > 0
    ensures |Gradient(n, startHex, endHex).value| == n
    ensures Gradient(n, startHex, endHex).value[0] == Format(ParseRgb(startHex).value)
    ensures n >= 2 ==> Gradient(n, startHex, endHex).value[n - 1] == Format(ParseRgb(endHex).value)
  {
    TabulateIndex(StepColors(ParseRgb(startHex).value, ParseRgb(endHex).value, Max(n - 1, 1)), n);
  }

  /** With the default colours the gradient never fails, and its ends are exactly the two
      default colour strings (already upper case, so formatting gives them back unchanged). */
  lemma {:induction false} DefaultGradient(n: int)
    ensures Gradient(n, DefaultStart, DefaultEnd).Success?
    ensures |Gradient(n, DefaultStart, DefaultEnd).value| == Max(n, 0)
    ensures n > 0 ==> Gradient(n, DefaultStart, DefaultEnd).value[0] == DefaultStart
    ensures n >= 2 ==> Gradient(n, DefaultStart, DefaultEnd).value[n - 1] == DefaultEnd
  {
    DefaultsParse();
    GradientLength(n, DefaultStart, DefaultEnd);
    if n > 0 {
      GradientEnds(n, DefaultStart, DefaultEnd);
    }
  }

  /** Both default colours parse, and format back to themselves. */
  lemma DefaultsParse()
    ensures ParseRgb(DefaultStart).Success? && Format(ParseRgb(DefaultStart).value) == DefaultStart
    ensures ParseRgb(DefaultEnd).Success? && Format(ParseRgb(DefaultEnd).value) == DefaultEnd
  {
    UpperRoundTrip(DefaultStart);
    UpperRoundTrip(DefaultEnd);
  }

  /** A colour string of '#' and six upper-case hex digits parses, and formatting the parsed
      channels gives the string back. */
  lemma {:induction false} UpperRoundTrip(hex: string)
    requires |hex| == 7 && hex[0] == '#'
    requires forall j :: 1 <= j < 7 ==> IsUpperHexDigit(hex[j])
    ensures ParseRgb(hex).Success? && Format(ParseRgb(hex).value) == hex
  {
    var d := hex[1..];
    assert StripHashes(d) == d;
    assert StripHashes(hex) == d;
    ChannelsFormat(d);
    var f := Format(ParseChannels(d).value);
    assert forall j :: 1 <= j < 7 ==> f[j] == hex[j];
    assert f == hex;
  }

  /** Every entry is '#' followed by six upper-case hex digits. */
  lemma {:induction false} GradientWellFormed(n: int, startHex: string, endHex: string)
    requires Gradient(n, startHex, endHex).Success?
    ensures forall c :: c in Gradient(n, startHex, endHex).value ==>
              |c| == 7 && c[0] == '#' && forall j :: 1 <= j < 7 ==> IsUpperHexDigit(c[j])
  {
    if n > 0 {
      var st := ParseRgb(startHex).value;
      var en := ParseRgb(endHex).value;
      var d := Max(n - 1, 1);
      var g := Tabulate(StepColors(st, en, d), n);
      TabulateIndex(StepColors(st, en, d), n);
      forall c | c in g
        ensures |c| == 7 && c[0] == '#' && forall j :: 1 <= j < 7 ==> IsUpperHexDigit(c[j])
      {
        var i :| 0 <= i < n && g[i] == c;
        assert c == ColorAt(st, en, i, d);
        FormatDigits(Rgb(Lerp(st.r, en.r, i, d), Lerp(st.g, en.g, i, d), Lerp(st.b, en.b, i, d)));
      }
    }
  }

  /** A colour string of six hex digits (after its leading '#'s) formats back as '#' and the
      same digits in upper case. */
  lemma {:induction false} ParseRgbFormat(hex: string)
    requires |StripHashes(hex)| == 6 && forall i :: 0 <= i < 6 ==> IsHexDigit(StripHashes(hex)[i])
    ensures ParseRgb(hex).Success?
    ensures forall j :: 0 <= j < 6 ==> Format(ParseRgb(hex).value)[j + 1] == ToUpper(StripHashes(hex)[j])
  {
    ChannelsFormat(StripHashes(hex));
  }

  /** The same for the digits after the hashes. */
  lemma {:induction false} ChannelsFormat(s: string)
    requires |s| == 6 && forall i :: 0 <= i < 6 ==> IsHexDigit(s[i])
    ensures ParseChannels(s).Success?
    ensures forall j :: 0 <= j < 6 ==> Format(ParseChannels(s).value)[j + 1] == ToUpper(s[j])
  {
    ParseSix(s);
    var c := ParseChannels(s).value;
    FormatPair(s, 0);
    FormatPair(s, 2);
    FormatPair(s, 4);
    FormatChannels(c, s);
  }

  /** Two hex digits at k round-trip, in upper case, through parse and `:02X`. */
  lemma {:induction false} FormatPair(s: string, k: nat)
    requires k + 2 <= |s| && IsHexDigit(s[k]) && IsHexDigit(s[k + 1])
    ensures ParseHex(s[k..k + 2]).Success? && IsByte(ParseHex(s[k..k + 2]).value)
    ensures Hex2(ParseHex(s[k..k + 2]).value) == [ToUpper(s[k]), ToUpper(s[k + 1])]
  {
    var w := s[k..k + 2];
    assert w[0] == s[k] && w[1] == s[k + 1];
    ParseFormat(w);
  }

  /** Six hex digits parse as three two-digit channels. */
  lemma {:induction false} ParseSix(s: string)
    requires |s| == 6 && forall i :: 0 <= i < 6 ==> IsHexDigit(s[i])
    ensures ParseChannels(s).Success?
    ensures ParseChannels(s).value == Rgb(ParseHex(s[0..2]).value, ParseHex(s[2..4]).value, ParseHex(s[4..6]).value)
  {
    HexSegment(s, 0);
    HexSegment(s, 2);
    HexSegment(s, 4);
  }

  /** A two-digit window of hex digits slices and parses without error. */
  lemma {:induction false} HexSegment(s: string, k: nat)
    requires k + 2 <= |s| && IsHexDigit(s[k]) && IsHexDigit(s[k + 1])
    ensures Slice(s, k, k + 2) == s[k..k + 2]
    ensures ParseHex(s[k..k + 2]).Success?
  {
    var w := s[k..k + 2];
    assert w[0] == s[k] && w[1] == s[k + 1];
  }

  lemma {:induction false} FormatChannels(c: Rgb, s: string)
    requires InRange(c) && |s| == 6
    requires Hex2(c.r) == [ToUpper(s[0]), ToUpper(s[1])]
    requires Hex2(c.g) == [ToUpper(s[2]), ToUpper(s[3])]
    requires Hex2(c.b) == [ToUpper(s[4]), ToUpper(s[5])]
    ensures forall j :: 0 <= j < 6 ==> Format(c)[j + 1] == ToUpper(s[j])
  {
    var f := Format(c);
    assert f == "#" + Hex2(c.r) + Hex2(c.g) + Hex2(c.b);
    assert f[1] == ToUpper(s[0]) && f[2] == ToUpper(s[1]);
    assert f[3] == ToUpper(s[2]) && f[4] == ToUpper(s[3]);
    assert f[5] == ToUpper(s[4]) && f[6] == ToUpper(s[5]);
  }
}
