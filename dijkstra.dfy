/** Single-source shortest paths: Dijkstra's algorithm over an adjacency map,
    with a priority queue whose stale entries are skipped when popped
    (lazy deletion) instead of having their keys decreased. */
module Dijkstra {

  /** A tentative distance: finite, or the "infinity" sentinel every vertex
      other than the start begins with. */
  datatype Dist = Inf | Fin(n: int)

  /** `a < b`, with `Inf` above every finite value and not below itself. */
  predicate Less(a: Dist, b: Dist) {
    match (a, b)
    case (Fin(x), Fin(y)) => x < y
    case (Fin(_), Inf) => true
    case (Inf, _) => false
  }

  /** `a <= b` in the same order. */
  predicate AtMost(a: Dist, b: Dist) {
    !Less(b, a)
  }

  /** vertex -> (neighbour -> edge weight) */
  type Vertex = string
  type Graph = map<Vertex, map<Vertex, int>>

  datatype Error = VertexNotFound
  datatype Result<T> = Success(value: T) | Failure(error: Error)

  /** The graph has no negative edge weight. */
  ghost predicate NonNegative(g: Graph) {
    forall u, v {:trigger g[u][v]} :: u in g && v in g[u] ==> 0 <= g[u][v]
  }

  /** Every neighbour named in an adjacency map is itself a vertex. */
  ghost predicate Closed(g: Graph) {
    forall u, v :: u in g && v in g[u] ==> v in g
  }

  /** The weight of edge u -> v (0 where there is no such edge). */
  function EdgeWeight(g: Graph, u: Vertex, v: Vertex): int {
    if u in g && v in g[u] then g[u][v] else 0
  }

  /** `p[i] -> p[i + 1]` is an edge of the graph. */
  ghost predicate Hop(g: Graph, p: seq<Vertex>, i: int) {
    0 <= i < |p| - 1 && p[i] in g && p[i + 1] in g[p[i]]
  }

  /** `p` is a directed path of the graph from `s` to `t` (a single vertex
      is the empty path from a vertex to itself). */
  ghost predicate IsPath(g: Graph, p: seq<Vertex>, s: Vertex, t: Vertex) {
    && |p| >= 1 && p[0] == s && p[|p| - 1] == t
    && (forall i :: 0 <= i < |p| ==> p[i] in g)
    && (forall i :: 0 <= i < |p| - 1 ==> Hop(g, p, i))
  }

  /** Total weight of the edges along `p`. */
  function Weight(g: Graph, p: seq<Vertex>): int
    decreases |p|
  {
    if |p| <= 1 then 0 else Weight(g, p[..|p| - 1]) + EdgeWeight(g, p[|p| - 2], p[|p| - 1])
  }

  /** No path from `s` to `v` weighs less than `x`. */
  ghost predicate LowerBound(g: Graph, s: Vertex, v: Vertex, x: int) {
    forall p :: IsPath(g, p, s, v) ==> x <= Weight(g, p)
  }

  /** `x` is the minimum weight of a path from `s` to `v`. */
  ghost predicate IsShortest(g: Graph, s: Vertex, v: Vertex, x: int) {
    && (exists p :: IsPath(g, p, s, v) && Weight(g, p) == x)
    && LowerBound(g, s, v, x)
  }

  /** There is no path from `s` to `v`. */
  ghost predicate Unreachable(g: Graph, s: Vertex, v: Vertex) {
    forall p :: !IsPath(g, p, s, v)
  }

  /** `d` is the table of shortest distances from `s`: it covers exactly the
      vertices of the graph, a finite entry is the minimum path weight and an
      infinite entry marks a vertex no path reaches. */
  ghost predicate ShortestDistances(g: Graph, s: Vertex, d: map<Vertex, Dist>) {
    && d.Keys == g.Keys
    && forall v :: v in d ==>
         match d[v]
         case Inf => Unreachable(g, s, v)
         case Fin(x) => IsShortest(g, s, v, x)
  }

  // ---------------------------------------------------------------------
  // Path weights

  /** Extending a path by one edge adds that edge's weight. */
  lemma ExtendPath(g: Graph, p: seq<Vertex>, s: Vertex, t: Vertex, v: Vertex)
    requires IsPath(g, p, s, t) && v in g[t] && v in g
    ensures IsPath(g, p + [v], s, v)
    ensures Weight(g, p + [v]) == Weight(g, p) + g[t][v]
  {
    var q := p + [v];
    forall i | 0 <= i < |q| - 1
      ensures Hop(g, q, i)
    {
      if i < |p| - 1 {
        assert Hop(g, p, i);
      }
    }
    assert q[..|p|] == p;
  }

  /** Every non-empty prefix of a path is a path to its last vertex. */
  lemma PathPrefix(g: Graph, p: seq<Vertex>, s: Vertex, t: Vertex, k: int)
    requires IsPath(g, p, s, t) && 1 <= k <= |p|
    ensures IsPath(g, p[..k], s, p[k - 1])
  {
    forall i | 0 <= i < k - 1
      ensures Hop(g, p[..k], i)
    {
      assert Hop(g, p, i);
    }
  }

  lemma {:induction false} WeightNonNegative(g: Graph, p: seq<Vertex>)
    requires NonNegative(g)
    ensures 0 <= Weight(g, p)
    decreases |p|
  {
    if |p| > 1 {
      WeightNonNegative(g, p[..|p| - 1]);
    }
  }

  /** With non-negative weights a prefix of a path weighs no more than the path. */
  lemma {:induction false} WeightPrefix(g: Graph, p: seq<Vertex>, k: nat)
    requires NonNegative(g)
    requires 1 <= k <= |p|
    ensures Weight(g, p[..k]) <= Weight(g, p)
    decreases |p| - k
  {
    if k < |p| {
      var q := p[..|p| - 1];
      WeightPrefix(g, q, k);
      assert q[..k] == p[..k];
    } else {
      assert p[..k] == p;
    }
  }

  /** A path that starts inside `S` and ends outside it leaves `S` at some edge. */
  lemma FirstExit(p: seq<Vertex>, S: set<Vertex>) returns (k: nat)
    requires |p| >= 1 && p[0] in S && p[|p| - 1] !in S
    ensures 1 <= k < |p| && p[k - 1] in S && p[k] !in S
  {
    k := 1;
    while p[k] in S
      invariant 1 <= k < |p| && p[k - 1] in S
      decreases |p| - k
    {
      k := k + 1;
    }
  }

  // ---------------------------------------------------------------------
  // The potential-function certificate: an independent way to recognise a
  // table of shortest distances.

  /** Every edge out of a vertex with a finite entry satisfies the triangle
      inequality `d[v] <= d[u] + w(u, v)`. */
  ghost predicate Feasible(g: Graph, d: map<Vertex, Dist>) {
    && d.Keys == g.Keys
    && forall u, v :: u in g && v in g[u] && d[u].Fin? ==> v in d && AtMost(d[v], Fin(d[u].n + g[u][v]))
  }

  lemma {:induction false} FeasibleBoundsPaths(g: Graph, s: Vertex, d: map<Vertex, Dist>, p: seq<Vertex>, t: Vertex)
    requires Feasible(g, d) && s in d && d[s] == Fin(0)
    requires IsPath(g, p, s, t)
    ensures d[t].Fin? && d[t].n <= Weight(g, p)
    decreases |p|
  {
    if |p| > 1 {
      var q := p[..|p| - 1];
      var u := p[|p| - 2];
      PathPrefix(g, p, s, t, |p| - 1);
      assert Hop(g, p, |p| - 2);
      FeasibleBoundsPaths(g, s, d, q, u);
      assert Weight(g, p) == Weight(g, q) + g[u][t];
    }
  }

  /** A feasible table that is 0 at `s` and whose finite entries are all
      realised by witness paths is the table of shortest distances. */
  lemma CertificateIsShortest(g: Graph, s: Vertex, d: map<Vertex, Dist>, wit: map<Vertex, seq<Vertex>>)
    requires Feasible(g, d) && s in d && d[s] == Fin(0)
    requires Realised(g, s, d, wit)
    ensures ShortestDistances(g, s, d)
  {
    forall v | v in d
      ensures match d[v]
              case Inf => Unreachable(g, s, v)
              case Fin(x) => IsShortest(g, s, v, x)
    {
      forall p | IsPath(g, p, s, v)
        ensures d[v].Fin? && d[v].n <= Weight(g, p)
      {
        FeasibleBoundsPaths(g, s, d, p, v);
      }
      if d[v].Fin? {
        assert IsPath(g, wit[v], s, v) && Weight(g, wit[v]) == d[v].n;
      }
    }
  }

  /** The shortest-distance table is unique, so running the algorithm twice on
      the same input gives the same table. */
  lemma ShortestDistancesUnique(g: Graph, s: Vertex, d1: map<Vertex, Dist>, d2: map<Vertex, Dist>)
    requires ShortestDistances(g, s, d1) && ShortestDistances(g, s, d2)
    ensures d1 == d2
  {
    forall v | v in d1
      ensures d1[v] == d2[v]
    {
      if d1[v].Fin? {
        var p1 :| IsPath(g, p1, s, v) && Weight(g, p1) == d1[v].n;
        assert d2[v].Fin?;
        var p2 :| IsPath(g, p2, s, v) && Weight(g, p2) == d2[v].n;
        assert d1[v].n <= Weight(g, p2) && d2[v].n <= Weight(g, p1);
      } else {
        assert d2[v] == Inf;
      }
    }
  }

  // ---------------------------------------------------------------------
  // The algorithm

  /** One relaxation pass over the neighbours `nbrs` of a vertex popped at
      distance `d`: every neighbour outside `visited` whose distance `d + w`
      beats its tentative distance gets that distance, and `pushed` holds
      exactly the queue entries for the vertices that improved. */
  ghost predicate IsRelaxation(nbrs: map<Vertex, int>, d: int, visited: set<Vertex>,
                                  dist: map<Vertex, Dist>, dist': map<Vertex, Dist>, pushed: set<(int, Vertex)>)
  {
    && dist'.Keys == dist.Keys
    && (forall v :: v in dist ==>
          dist'[v] == if v in nbrs && v !in visited && Less(Fin(d + nbrs[v]), dist[v])
                      then Fin(d + nbrs[v]) else dist[v])
    && (forall e :: e in pushed <==> e.1 in dist && dist'[e.1] != dist[e.1] && dist'[e.1] == Fin(e.0))
  }

  /** The inner `for neighbor, weight in ...` loop. A distance only ever
      changes to a strictly smaller value, and the distance of a visited
      vertex does not change at all. */
  method Relax(nbrs: map<Vertex, int>, d: int, visited: set<Vertex>, dist: map<Vertex, Dist>)
    returns (dist': map<Vertex, Dist>, pushed: set<(int, Vertex)>)
    requires nbrs.Keys <= dist.Keys
    ensures IsRelaxation(nbrs, d, visited, dist, dist', pushed)
    ensures forall v :: v in dist && dist'[v] != dist[v] ==> Less(dist'[v], dist[v])
    ensures forall v :: v in visited && v in dist ==> dist'[v] == dist[v]
  {
    dist', pushed := dist, {};
    var todo := nbrs.Keys;
    while todo != {}
      invariant todo <= nbrs.Keys
      invariant dist'.Keys == dist.Keys
      invariant forall v :: v in dist ==>
                  dist'[v] == if v in nbrs && v !in todo && v !in visited && Less(Fin(d + nbrs[v]), dist[v])
                              then Fin(d + nbrs[v]) else dist[v]
      invariant forall e :: e in pushed <==> e.1 in dist && dist'[e.1] != dist[e.1] && dist'[e.1] == Fin(e.0)
      decreases |todo|
    {
      var v :| v in todo;
      todo := todo - {v};
      if v in visited {
        continue;
      }
      var candidate := d + nbrs[v];
      if Less(Fin(candidate), dist'[v]) {
        dist' := dist'[v := Fin(candidate)];
        pushed := pushed + {(candidate, v)};
      }
    }
  }

  /** Every non-empty queue has an entry of least distance. */
  lemma MinEntry(pq: multiset<(int, Vertex)>) returns (best: (int, Vertex))
    requires pq != multiset{}
    ensures best in pq && forall e :: e in pq ==> best.0 <= e.0
    decreases |pq|
  {
    var x :| x in pq;
    var rest := pq - multiset{x};
    best := x;
    if rest != multiset{} {
      DiscardShrinksQueue(pq, x);
      var m := MinEntry(rest);
      best := if x.0 <= m.0 then x else m;
    }
    forall e | e in pq
      ensures best.0 <= e.0
    {
      if e != x {
        OtherEntry(pq, x, e);
      }
    }
  }

  lemma OtherEntry(pq: multiset<(int, Vertex)>, x: (int, Vertex), e: (int, Vertex))
    requires e in pq && e != x
    ensures e in pq - multiset{x}
  {
    assert (pq - multiset{x})[e] == pq[e];
  }

  // The loop invariant of the main loop, one predicate per fact, over the
  // distance table, the visited set, the queue and (ghost) a witness path for
  // every finite distance.

  /** The tables range over the graph's vertices. */
  ghost predicate Covers(g: Graph, start: Vertex, dist: map<Vertex, Dist>, visited: set<Vertex>,
                         paths: map<Vertex, seq<Vertex>>)
  {
    Closed(g) && start in g && dist.Keys == g.Keys && paths.Keys == g.Keys && visited <= g.Keys
  }

  /** Every queue entry `(d, v)` is at or above v's tentative distance. */
  ghost predicate EntriesAbove(dist: map<Vertex, Dist>, pq: multiset<(int, Vertex)>) {
    forall e :: e in pq ==> e.1 in dist && 0 <= e.0 && dist[e.1].Fin? && dist[e.1].n <= e.0
  }

  /** Every finite tentative distance is the weight of an actual path. */
  ghost predicate Witnessed(g: Graph, start: Vertex, dist: map<Vertex, Dist>, paths: map<Vertex, seq<Vertex>>) {
    forall v :: v in dist && dist[v].Fin? ==>
      0 <= dist[v].n && v in paths && IsPath(g, paths[v], start, v) && Weight(g, paths[v]) == dist[v].n
  }

  /** Visited vertices carry their final, minimal distance. */
  ghost predicate Settled(g: Graph, start: Vertex, dist: map<Vertex, Dist>, visited: set<Vertex>) {
    forall v :: v in visited ==> v in dist && dist[v].Fin? && LowerBound(g, start, v, dist[v].n)
  }

  /** Every edge from a visited to an unvisited vertex has been relaxed. */
  ghost predicate Frontier(g: Graph, dist: map<Vertex, Dist>, visited: set<Vertex>) {
    forall u, v {:trigger g[u][v]} :: u in visited && u in g && v in g[u] && v !in visited && u in dist && dist[u].Fin? ==>
      v in dist && AtMost(dist[v], Fin(dist[u].n + g[u][v]))
  }

  /** Every unvisited vertex with a finite distance has a current entry. */
  ghost predicate Tracked(dist: map<Vertex, Dist>, visited: set<Vertex>, pq: multiset<(int, Vertex)>) {
    forall v :: v in dist && v !in visited && dist[v].Fin? ==> (dist[v].n, v) in pq
  }

  /** Before the first visit the queue holds only the seed entry; after it
      the start vertex is visited. */
  ghost predicate Started(start: Vertex, visited: set<Vertex>, pq: multiset<(int, Vertex)>) {
    && (visited != {} ==> start in visited)
    && (visited == {} ==> pq == multiset{(0, start)})
  }

  ghost predicate Inv(g: Graph, start: Vertex, dist: map<Vertex, Dist>, visited: set<Vertex>,
                      pq: multiset<(int, Vertex)>, paths: map<Vertex, seq<Vertex>>)
  {
    && Covers(g, start, dist, visited, paths)
    && EntriesAbove(dist, pq)
    && Witnessed(g, start, dist, paths)
    && Settled(g, start, dist, visited)
    && Frontier(g, dist, visited)
    && Tracked(dist, visited, pq)
    && Started(start, visited, pq)
  }

  /** A path from a visited vertex to an unvisited one leaves the visited
      set along a frontier edge `x -> y`; the tentative distance of `y` has a
      queue entry, so the prefix of the path ending at `y` weighs at least
      any bound `d` below every key of the queue. */
  lemma CrossingPrefix(g: Graph, start: Vertex, dist: map<Vertex, Dist>, visited: set<Vertex>,
                       pq: multiset<(int, Vertex)>, d: int, p: seq<Vertex>, u: Vertex) returns (k: nat)
    requires dist.Keys == g.Keys
    requires Settled(g, start, dist, visited) && Frontier(g, dist, visited) && Tracked(dist, visited, pq)
    requires forall e :: e in pq ==> d <= e.0
    requires IsPath(g, p, start, u) && start in visited && u !in visited
    ensures 1 <= k < |p| && d <= Weight(g, p[..k + 1])
  {
    k := FirstExit(p, visited);
    EdgeBound(g, start, dist, visited, pq, d, p, u, k);
  }

  /** A lower bound on a prefix's weight bounds the whole path's weight. */
  lemma PrefixBound(g: Graph, p: seq<Vertex>, k: nat, d: int)
    requires NonNegative(g) && 1 <= k <= |p| && d <= Weight(g, p[..k])
    ensures d <= Weight(g, p)
  {
    WeightPrefix(g, p, k);
  }

  /** The prefix of the path that ends with a step `p[k - 1] -> p[k]` out of
      the visited set weighs at least `d`. */
  lemma EdgeBound(g: Graph, start: Vertex, dist: map<Vertex, Dist>, visited: set<Vertex>,
                  pq: multiset<(int, Vertex)>, d: int, p: seq<Vertex>, u: Vertex, k: nat)
    requires dist.Keys == g.Keys
    requires Settled(g, start, dist, visited) && Frontier(g, dist, visited) && Tracked(dist, visited, pq)
    requires forall e :: e in pq ==> d <= e.0
    requires IsPath(g, p, start, u) && 1 <= k < |p| && p[k - 1] in visited && p[k] !in visited
    ensures d <= Weight(g, p[..k + 1])
  {
    var x, y := p[k - 1], p[k];
    assert Hop(g, p, k - 1);
    PathPrefix(g, p, start, u, k);
    SettledBound(g, start, dist, visited, p[..k], x);
    FrontierEdge(g, dist, visited, pq, d, x, y);
    PrefixStep(g, p, k);
  }

  /** A visited vertex's distance bounds every path to it from below. */
  lemma SettledBound(g: Graph, start: Vertex, dist: map<Vertex, Dist>, visited: set<Vertex>,
                     q: seq<Vertex>, x: Vertex)
    requires Settled(g, start, dist, visited) && x in visited && IsPath(g, q, start, x)
    ensures x in dist && dist[x].Fin? && dist[x].n <= Weight(g, q)
  {
  }

  /** The far end of a frontier edge out of `x` has a queue entry, so every
      key of the queue bounds `x`'s distance plus the edge weight. */
  lemma FrontierEdge(g: Graph, dist: map<Vertex, Dist>, visited: set<Vertex>,
                     pq: multiset<(int, Vertex)>, d: int, x: Vertex, y: Vertex)
    requires dist.Keys == g.Keys && Frontier(g, dist, visited) && Tracked(dist, visited, pq)
    requires forall e :: e in pq ==> d <= e.0
    requires x in visited && x in g && y in g[x] && y !in visited && x in dist && dist[x].Fin?
    ensures d <= dist[x].n + g[x][y]
  {
    assert AtMost(dist[y], Fin(dist[x].n + g[x][y]));
    assert (dist[y].n, y) in pq;
  }

  /** The prefix one edge longer weighs that edge more. */
  lemma PrefixStep(g: Graph, p: seq<Vertex>, k: int)
    requires 1 <= k < |p| && Hop(g, p, k - 1)
    ensures Weight(g, p[..k + 1]) == Weight(g, p[..k]) + g[p[k - 1]][p[k]]
  {
    assert p[..k + 1][..k] == p[..k];
  }

  /** An unvisited vertex popped with the least key is popped at its current
      distance, and no path to it is shorter: the first pop of a vertex
      finalises it. */
  lemma PopIsShortest(g: Graph, start: Vertex, dist: map<Vertex, Dist>, visited: set<Vertex>,
                      pq: multiset<(int, Vertex)>, paths: map<Vertex, seq<Vertex>>, d: int, u: Vertex)
    requires NonNegative(g)
    requires Inv(g, start, dist, visited, pq, paths)
    requires (d, u) in pq && u !in visited
    requires forall e :: e in pq ==> d <= e.0
    ensures dist[u] == Fin(d)
    ensures LowerBound(g, start, u, d)
  {
    assert (dist[u].n, u) in pq;
    forall p | IsPath(g, p, start, u)
      ensures d <= Weight(g, p)
    {
      if visited == {} {
        WeightNonNegative(g, p);
      } else {
        var k := CrossingPrefix(g, start, dist, visited, pq, d, p, u);
        PrefixBound(g, p, k + 1, d);
      }
    }
  }

  /** Discarding a stale entry (a vertex already visited) keeps the invariant. */
  lemma DiscardKeepsInv(g: Graph, start: Vertex, dist: map<Vertex, Dist>, visited: set<Vertex>,
                        pq: multiset<(int, Vertex)>, paths: map<Vertex, seq<Vertex>>, e: (int, Vertex))
    requires Inv(g, start, dist, visited, pq, paths)
    requires e in pq && e.1 in visited
    ensures Inv(g, start, dist, visited, pq - multiset{e}, paths)
  {
    var pq' := pq - multiset{e};
    forall v | v in dist && v !in visited && dist[v].Fin?
      ensures (dist[v].n, v) in pq'
    {
      assert (dist[v].n, v) in pq && (dist[v].n, v) != e;
    }
  }

  lemma VisitKeepsWitnessed(g: Graph, start: Vertex, dist: map<Vertex, Dist>, paths: map<Vertex, seq<Vertex>>,
                            d: int, u: Vertex, visited': set<Vertex>, dist': map<Vertex, Dist>,
                            pushed: set<(int, Vertex)>, paths': map<Vertex, seq<Vertex>>)
    requires NonNegative(g) && Closed(g) && u in g && dist.Keys == g.Keys && dist[u] == Fin(d)
    requires Witnessed(g, start, dist, paths) && paths.Keys == g.Keys
    requires IsRelaxation(g[u], d, visited', dist, dist', pushed)
    requires paths'.Keys == g.Keys
    requires forall v :: v in g ==> paths'[v] == if dist'[v] != dist[v] then paths[u] + [v] else paths[v]
    ensures Witnessed(g, start, dist', paths')
  {
    forall v | v in dist' && dist'[v].Fin?
      ensures 0 <= dist'[v].n && v in paths' && IsPath(g, paths'[v], start, v) && Weight(g, paths'[v]) == dist'[v].n
    {
      if dist'[v] != dist[v] {
        ExtendPath(g, paths[u], start, u, v);
      }
    }
  }

  lemma VisitKeepsQueue(dist: map<Vertex, Dist>, visited: set<Vertex>, pq: multiset<(int, Vertex)>,
                        d: int, u: Vertex, nbrs: map<Vertex, int>, dist': map<Vertex, Dist>,
                        pushed: set<(int, Vertex)>)
    requires EntriesAbove(dist, pq) && Tracked(dist, visited, pq)
    requires (d, u) in pq && 0 <= d
    requires forall v :: v in nbrs ==> 0 <= nbrs[v]
    requires IsRelaxation(nbrs, d, visited + {u}, dist, dist', pushed)
    ensures EntriesAbove(dist', pq - multiset{(d, u)} + multiset(pushed))
    ensures Tracked(dist', visited + {u}, pq - multiset{(d, u)} + multiset(pushed))
  {
    var pq' := pq - multiset{(d, u)} + multiset(pushed);
    forall e | e in pq'
      ensures e.1 in dist' && 0 <= e.0 && dist'[e.1].Fin? && dist'[e.1].n <= e.0
    {
      if e !in pushed {
        assert e in pq;
      }
    }
    forall v | v in dist' && v !in visited + {u} && dist'[v].Fin?
      ensures (dist'[v].n, v) in pq'
    {
      if dist'[v] == dist[v] {
        assert (dist[v].n, v) in pq;
        assert (dist[v].n, v) != (d, u);
      } else {
        assert (dist'[v].n, v) in pushed;
      }
    }
  }

  lemma VisitKeepsFrontier(g: Graph, start: Vertex, dist: map<Vertex, Dist>, visited: set<Vertex>,
                           d: int, u: Vertex, dist': map<Vertex, Dist>, pushed: set<(int, Vertex)>)
    requires Closed(g) && dist.Keys == g.Keys && u in g && dist[u] == Fin(d)
    requires Frontier(g, dist, visited) && Settled(g, start, dist, visited)
    requires LowerBound(g, start, u, d)
    requires IsRelaxation(g[u], d, visited + {u}, dist, dist', pushed)
    ensures Frontier(g, dist', visited + {u})
    ensures Settled(g, start, dist', visited + {u})
  {
  }

  /** Visiting the popped vertex and relaxing its edges keeps the invariant. */
  lemma VisitKeepsInv(g: Graph, start: Vertex, dist: map<Vertex, Dist>, visited: set<Vertex>,
                      pq: multiset<(int, Vertex)>, paths: map<Vertex, seq<Vertex>>, d: int, u: Vertex,
                      dist': map<Vertex, Dist>, pushed: set<(int, Vertex)>, paths': map<Vertex, seq<Vertex>>)
    requires NonNegative(g)
    requires Inv(g, start, dist, visited, pq, paths)
    requires (d, u) in pq && u !in visited
    requires dist[u] == Fin(d) && LowerBound(g, start, u, d)
    requires IsRelaxation(g[u], d, visited + {u}, dist, dist', pushed)
    requires paths'.Keys == g.Keys
    requires forall v :: v in g ==> paths'[v] == if dist'[v] != dist[v] then paths[u] + [v] else paths[v]
    ensures Inv(g, start, dist', visited + {u}, pq - multiset{(d, u)} + multiset(pushed), paths')
  {
    var visited', pq' := visited + {u}, pq - multiset{(d, u)} + multiset(pushed);
    VisitKeepsWitnessed(g, start, dist, paths, d, u, visited', dist', pushed, paths');
    VisitKeepsQueue(dist, visited, pq, d, u, g[u], dist', pushed);
    VisitKeepsFrontier(g, start, dist, visited, d, u, dist', pushed);
    assert visited == {} ==> u == start;
  }

  /** Termination: a visit makes the unvisited part of the graph smaller... */
  lemma VisitShrinksUnvisited(keys: set<Vertex>, visited: set<Vertex>, u: Vertex)
    requires u in keys && u !in visited
    ensures |keys - (visited + {u})| < |keys - visited|
  {
    assert u in keys - visited;
    assert keys - (visited + {u}) == (keys - visited) - {u};
  }

  /** ... and a discarded entry makes the queue smaller. */
  lemma DiscardShrinksQueue(pq: multiset<(int, Vertex)>, e: (int, Vertex))
    requires e in pq
    ensures |pq - multiset{e}| < |pq|
  {
    assert pq == (pq - multiset{e}) + multiset{e};
  }

  /** Once the queue is empty no edge leaves the visited set. */
  lemma NoEdgeLeaves(g: Graph, start: Vertex, dist: map<Vertex, Dist>, visited: set<Vertex>,
                     x: Vertex, y: Vertex)
    requires dist.Keys == g.Keys && Settled(g, start, dist, visited)
    requires Frontier(g, dist, visited) && Tracked(dist, visited, multiset{})
    requires x in visited && x in g && y in g[x]
    ensures y in visited
  {
    var w := g[x][y];
  }

  /** ... so every vertex a path from the start reaches has been visited. */
  lemma ReachedIsVisited(g: Graph, start: Vertex, dist: map<Vertex, Dist>, visited: set<Vertex>,
                         p: seq<Vertex>, v: Vertex)
    requires dist.Keys == g.Keys && Settled(g, start, dist, visited)
    requires Frontier(g, dist, visited) && Tracked(dist, visited, multiset{})
    requires start in visited && IsPath(g, p, start, v)
    ensures v in visited
  {
    var i := 0;
    while i < |p| - 1
      invariant 0 <= i < |p| && p[i] in visited
    {
      assert Hop(g, p, i);
      NoEdgeLeaves(g, start, dist, visited, p[i], p[i + 1]);
      i := i + 1;
    }
  }

  /** When the queue is empty the invariant yields the specification. */
  lemma DoneIsShortest(g: Graph, start: Vertex, dist: map<Vertex, Dist>, visited: set<Vertex>,
                       paths: map<Vertex, seq<Vertex>>)
    requires Inv(g, start, dist, visited, multiset{}, paths)
    ensures ShortestDistances(g, start, dist)
  {
    forall v | v in dist
      ensures match dist[v]
              case Inf => Unreachable(g, start, v)
              case Fin(x) => IsShortest(g, start, v, x)
    {
      if v in visited {
        assert IsPath(g, paths[v], start, v);
      } else {
        forall p
          ensures !IsPath(g, p, start, v)
        {
          if IsPath(g, p, start, v) {
            ReachedIsVisited(g, start, dist, visited, p, v);
            assert false;
          }
        }
      }
    }
  }

  /** The initial table: 0 at the start vertex and infinity elsewhere. */
  function InitialDistances(g: Graph, start: Vertex): (d: map<Vertex, Dist>)
    requires start in g
    ensures d.Keys == g.Keys && d[start] == Fin(0)
    ensures forall v :: v in d && v != start ==> d[v] == Inf
  {
    map v | v in g :: if v == start then Fin(0) else Inf
  }

  /** Before the loop every vertex gets the one-vertex path as a placeholder
      witness (only the start's entry is finite, and it is exact). */
  ghost function InitialPaths(g: Graph, start: Vertex): map<Vertex, seq<Vertex>> {
    map v | v in g :: [start]
  }

  lemma InitialInv(g: Graph, start: Vertex)
    requires Closed(g) && start in g
    ensures Inv(g, start, InitialDistances(g, start), {}, multiset{(0, start)}, InitialPaths(g, start))
  {
    assert IsPath(g, [start], start, start);
  }

  /** `heapq.heappop`: an entry of least distance. */
  method PopMin(pq: multiset<(int, Vertex)>) returns (e: (int, Vertex))
    requires pq != multiset{}
    ensures e in pq && forall e' :: e' in pq ==> e.0 <= e'.0
  {
    ghost var best := MinEntry(pq);
    e :| e in pq && forall e' :: e' in pq ==> e.0 <= e'.0;
  }

  /** The body of the main loop for a popped vertex `u` not yet visited: mark
      it visited and relax its outgoing edges, pushing the improved entries. */
  method Visit(g: Graph, start: Vertex, dist: map<Vertex, Dist>, visited: set<Vertex>,
               pq: multiset<(int, Vertex)>, ghost paths: map<Vertex, seq<Vertex>>, d: int, u: Vertex)
    returns (dist': map<Vertex, Dist>, pushed: set<(int, Vertex)>, pq': multiset<(int, Vertex)>,
             ghost paths': map<Vertex, seq<Vertex>>)
    requires NonNegative(g)
    requires Inv(g, start, dist, visited, pq, paths)
    requires (d, u) in pq && u !in visited
    requires forall e :: e in pq ==> d <= e.0
    ensures IsRelaxation(g[u], d, visited + {u}, dist, dist', pushed)
    ensures pq' == pq - multiset{(d, u)} + multiset(pushed)
    ensures Inv(g, start, dist', visited + {u}, pq', paths')
    ensures |g.Keys - (visited + {u})| < |g.Keys - visited|
  {
    PopIsShortest(g, start, dist, visited, pq, paths, d, u);
    dist', pushed := Relax(g[u], d, visited + {u}, dist);
    paths' := map v | v in g :: if dist'[v] != dist[v] then paths[u] + [v] else paths[v];
    VisitKeepsInv(g, start, dist, visited, pq, paths, d, u, dist', pushed, paths');
    VisitShrinksUnvisited(g.Keys, visited, u);
    pq' := pq - multiset{(d, u)} + multiset(pushed);
  }

  /** `dijkstra_with_heap`. A start vertex that is not a key of the graph is
      reported as an error (the source fails on the lookup of its adjacency).
      Otherwise the result is the table of shortest distances: it has exactly
      the graph's vertices as keys, 0 at the start vertex, the minimum path
      weight at every reachable vertex and the infinite sentinel at every
      unreachable one. */
  method ShortestPaths(g: Graph, start: Vertex) returns (r: Result<map<Vertex, Dist>>)
    requires Closed(g) && NonNegative(g)
    ensures r.Failure? <==> start !in g
    ensures r.Success? ==> ShortestDistances(g, start, r.value)
    ensures r.Success? ==> r.value[start] == Fin(0)
  {
    if start !in g {
      return Failure(VertexNotFound);
    }
    var dist := InitialDistances(g, start);
    var pq := multiset{(0, start)};
    var visited: set<Vertex> := {};
    ghost var paths := InitialPaths(g, start);
    InitialInv(g, start);
    while pq != multiset{}
      invariant Inv(g, start, dist, visited, pq, paths)
      decreases |g.Keys - visited|, |pq|
    {
      var e := PopMin(pq);
      if e.1 in visited {
        DiscardKeepsInv(g, start, dist, visited, pq, paths, e);
        DiscardShrinksQueue(pq, e);
        pq := pq - multiset{e};
      } else {
        var pushed;
        dist, pushed, pq, paths := Visit(g, start, dist, visited, pq, paths, e.0, e.1);
        visited := visited + {e.1};
      }
    }
    DoneIsShortest(g, start, dist, visited, paths);
    StartIsZero(g, start, dist, visited, paths);
    return Success(dist);
  }

  lemma StartIsZero(g: Graph, start: Vertex, dist: map<Vertex, Dist>, visited: set<Vertex>,
                    paths: map<Vertex, seq<Vertex>>)
    requires Inv(g, start, dist, visited, multiset{}, paths)
    ensures dist[start] == Fin(0)
  {
    assert start in visited;
    assert IsPath(g, [start], start, start);
  }

  // ---------------------------------------------------------------------
  // The sample graph of create_sample_graph and the two runs of test_dijkstra

  /** The graph of `create_sample_graph`, over five vertex names. */
  function Pentagon(a: Vertex, b: Vertex, c: Vertex, d: Vertex, e: Vertex): Graph {
    map[
      a := map[b := 5, c := 10],
      b := map[a := 5, d := 3],
      c := map[a := 10, d := 2],
      d := map[b := 3, c := 2, e := 4],
      e := map[d := 4]
    ]
  }

  ghost predicate Distinct5(a: Vertex, b: Vertex, c: Vertex, d: Vertex, e: Vertex) {
    a != b && a != c && a != d && a != e && b != c && b != d && b != e && c != d && c != e && d != e
  }

  function SampleGraph(): Graph {
    Pentagon("A", "B", "C", "D", "E")
  }

  function ExpectedFromA(): map<Vertex, Dist> {
    TableFromA("A", "B", "C", "D", "E")
  }

  function ExpectedFromE(): map<Vertex, Dist> {
    TableFromE("A", "B", "C", "D", "E")
  }

  lemma SampleNamesDistinct()
    ensures Distinct5("A", "B", "C", "D", "E")
  {
  }

  lemma PentagonIsWellFormed(a: Vertex, b: Vertex, c: Vertex, d: Vertex, e: Vertex)
    requires Distinct5(a, b, c, d, e)
    ensures Closed(Pentagon(a, b, c, d, e)) && NonNegative(Pentagon(a, b, c, d, e))
  {
  }

  lemma SampleIsWellFormed()
    ensures Closed(SampleGraph()) && NonNegative(SampleGraph())
  {
    SampleNamesDistinct();
    PentagonIsWellFormed("A", "B", "C", "D", "E");
  }

  /** The triangle inequality on the edges out of one vertex. */
  ghost predicate FeasibleAt(g: Graph, d: map<Vertex, Dist>, u: Vertex) {
    u in g && u in d && (d[u].Fin? ==> forall v :: v in g[u] ==> v in d && AtMost(d[v], Fin(d[u].n + g[u][v])))
  }

  lemma FeasibleFromVertices(g: Graph, d: map<Vertex, Dist>)
    requires d.Keys == g.Keys
    requires forall u :: u in g ==> FeasibleAt(g, d, u)
    ensures Feasible(g, d)
  {
    forall u, v | u in g && v in g[u] && d[u].Fin?
      ensures v in d && AtMost(d[v], Fin(d[u].n + g[u][v]))
    {
      assert FeasibleAt(g, d, u);
    }
  }

  function TableFromA(a: Vertex, b: Vertex, c: Vertex, d: Vertex, e: Vertex): map<Vertex, Dist> {
    map[a := Fin(0), b := Fin(5), c := Fin(10), d := Fin(8), e := Fin(12)]
  }

  function TableFromE(a: Vertex, b: Vertex, c: Vertex, d: Vertex, e: Vertex): map<Vertex, Dist> {
    map[a := Fin(12), b := Fin(7), c := Fin(6), d := Fin(4), e := Fin(0)]
  }

  /** A witness map is realised: every finite entry of `t` has a path of
      that weight from `s`. */
  ghost predicate Realised(g: Graph, s: Vertex, t: map<Vertex, Dist>, w: map<Vertex, seq<Vertex>>) {
    forall v :: v in t && t[v].Fin? ==> v in w && IsPath(g, w[v], s, v) && Weight(g, w[v]) == t[v].n
  }

  /** A five-entry table is realised by five paths. */
  lemma Realised5(g: Graph, s: Vertex, t: map<Vertex, Dist>, a: Vertex, b: Vertex, c: Vertex, d: Vertex, e: Vertex,
                  pa: seq<Vertex>, pb: seq<Vertex>, pc: seq<Vertex>, pd: seq<Vertex>, pe: seq<Vertex>)
    requires t.Keys == {a, b, c, d, e} && Distinct5(a, b, c, d, e)
    requires t[a].Fin? && IsPath(g, pa, s, a) && Weight(g, pa) == t[a].n
    requires t[b].Fin? && IsPath(g, pb, s, b) && Weight(g, pb) == t[b].n
    requires t[c].Fin? && IsPath(g, pc, s, c) && Weight(g, pc) == t[c].n
    requires t[d].Fin? && IsPath(g, pd, s, d) && Weight(g, pd) == t[d].n
    requires t[e].Fin? && IsPath(g, pe, s, e) && Weight(g, pe) == t[e].n
    ensures Realised(g, s, t, map[a := pa, b := pb, c := pc, d := pd, e := pe])
  {
  }

  /** Feasibility of a table over the five vertices follows from the
      triangle inequality at each of them. */
  lemma Feasible5(g: Graph, t: map<Vertex, Dist>, a: Vertex, b: Vertex, c: Vertex, d: Vertex, e: Vertex)
    requires g.Keys == {a, b, c, d, e} && t.Keys == g.Keys
    requires FeasibleAt(g, t, a) && FeasibleAt(g, t, b) && FeasibleAt(g, t, c)
    requires FeasibleAt(g, t, d) && FeasibleAt(g, t, e)
    ensures Feasible(g, t)
  {
    FeasibleFromVertices(g, t);
  }

  // The triangle inequality at each vertex of the sample graph, for both tables.

  lemma EdgesOutOfA(a: Vertex, b: Vertex, c: Vertex, d: Vertex, e: Vertex)
    requires Distinct5(a, b, c, d, e)
    ensures FeasibleAt(Pentagon(a, b, c, d, e), TableFromA(a, b, c, d, e), a)
    ensures FeasibleAt(Pentagon(a, b, c, d, e), TableFromE(a, b, c, d, e), a)
  {
  }

  lemma EdgesOutOfB(a: Vertex, b: Vertex, c: Vertex, d: Vertex, e: Vertex)
    requires Distinct5(a, b, c, d, e)
    ensures FeasibleAt(Pentagon(a, b, c, d, e), TableFromA(a, b, c, d, e), b)
    ensures FeasibleAt(Pentagon(a, b, c, d, e), TableFromE(a, b, c, d, e), b)
  {
  }

  lemma EdgesOutOfC(a: Vertex, b: Vertex, c: Vertex, d: Vertex, e: Vertex)
    requires Distinct5(a, b, c, d, e)
    ensures FeasibleAt(Pentagon(a, b, c, d, e), TableFromA(a, b, c, d, e), c)
    ensures FeasibleAt(Pentagon(a, b, c, d, e), TableFromE(a, b, c, d, e), c)
  {
  }

  lemma EdgesOutOfD(a: Vertex, b: Vertex, c: Vertex, d: Vertex, e: Vertex)
    requires Distinct5(a, b, c, d, e)
    ensures FeasibleAt(Pentagon(a, b, c, d, e), TableFromA(a, b, c, d, e), d)
    ensures FeasibleAt(Pentagon(a, b, c, d, e), TableFromE(a, b, c, d, e), d)
  {
  }

  lemma EdgesOutOfE(a: Vertex, b: Vertex, c: Vertex, d: Vertex, e: Vertex)
    requires Distinct5(a, b, c, d, e)
    ensures FeasibleAt(Pentagon(a, b, c, d, e), TableFromA(a, b, c, d, e), e)
    ensures FeasibleAt(Pentagon(a, b, c, d, e), TableFromE(a, b, c, d, e), e)
  {
  }

  lemma PentagonKeys(a: Vertex, b: Vertex, c: Vertex, d: Vertex, e: Vertex)
    ensures Pentagon(a, b, c, d, e).Keys == {a, b, c, d, e}
    ensures TableFromA(a, b, c, d, e).Keys == {a, b, c, d, e}
    ensures TableFromE(a, b, c, d, e).Keys == {a, b, c, d, e}
  {
  }

  lemma PentagonFeasibleFromA(a: Vertex, b: Vertex, c: Vertex, d: Vertex, e: Vertex)
    requires Distinct5(a, b, c, d, e)
    ensures Feasible(Pentagon(a, b, c, d, e), TableFromA(a, b, c, d, e))
  {
    EdgesOutOfA(a, b, c, d, e);
    EdgesOutOfB(a, b, c, d, e);
    EdgesOutOfC(a, b, c, d, e);
    EdgesOutOfD(a, b, c, d, e);
    EdgesOutOfE(a, b, c, d, e);
    PentagonKeys(a, b, c, d, e);
    Feasible5(Pentagon(a, b, c, d, e), TableFromA(a, b, c, d, e), a, b, c, d, e);
  }

  lemma PentagonFeasibleFromE(a: Vertex, b: Vertex, c: Vertex, d: Vertex, e: Vertex)
    requires Distinct5(a, b, c, d, e)
    ensures Feasible(Pentagon(a, b, c, d, e), TableFromE(a, b, c, d, e))
  {
    EdgesOutOfA(a, b, c, d, e);
    EdgesOutOfB(a, b, c, d, e);
    EdgesOutOfC(a, b, c, d, e);
    EdgesOutOfD(a, b, c, d, e);
    EdgesOutOfE(a, b, c, d, e);
    PentagonKeys(a, b, c, d, e);
    Feasible5(Pentagon(a, b, c, d, e), TableFromE(a, b, c, d, e), a, b, c, d, e);
  }

  lemma PentagonFromA(a: Vertex, b: Vertex, c: Vertex, d: Vertex, e: Vertex)
    requires Distinct5(a, b, c, d, e)
    ensures ShortestDistances(Pentagon(a, b, c, d, e), a, TableFromA(a, b, c, d, e))
  {
    var g, t := Pentagon(a, b, c, d, e), TableFromA(a, b, c, d, e);
    var pA := [a];
    assert IsPath(g, pA, a, a);
    var pB := pA + [b];
    ExtendPath(g, pA, a, a, b);
    var pC := pA + [c];
    ExtendPath(g, pA, a, a, c);
    var pD := pB + [d];
    ExtendPath(g, pB, a, b, d);
    var pE := pD + [e];
    ExtendPath(g, pD, a, d, e);
    Realised5(g, a, t, a, b, c, d, e, pA, pB, pC, pD, pE);
    PentagonFeasibleFromA(a, b, c, d, e);
    CertificateIsShortest(g, a, t, map[a := pA, b := pB, c := pC, d := pD, e := pE]);
  }

  lemma PentagonFromE(a: Vertex, b: Vertex, c: Vertex, d: Vertex, e: Vertex)
    requires Distinct5(a, b, c, d, e)
    ensures ShortestDistances(Pentagon(a, b, c, d, e), e, TableFromE(a, b, c, d, e))
  {
    var g, t := Pentagon(a, b, c, d, e), TableFromE(a, b, c, d, e);
    var pE := [e];
    assert IsPath(g, pE, e, e);
    var pD := pE + [d];
    ExtendPath(g, pE, e, e, d);
    var pC := pD + [c];
    ExtendPath(g, pD, e, d, c);
    var pB := pD + [b];
    ExtendPath(g, pD, e, d, b);
    var pA := pB + [a];
    ExtendPath(g, pB, e, b, a);
    Realised5(g, e, t, a, b, c, d, e, pA, pB, pC, pD, pE);
    PentagonFeasibleFromE(a, b, c, d, e);
    CertificateIsShortest(g, e, t, map[a := pA, b := pB, c := pC, d := pD, e := pE]);
  }

  /** The tables printed by the source's test driver are the shortest
      distances of the sample graph from A and from E. */
  lemma SampleFromA()
    ensures ShortestDistances(SampleGraph(), "A", ExpectedFromA())
  {
    SampleNamesDistinct();
    PentagonFromA("A", "B", "C", "D", "E");
  }

  lemma SampleFromE()
    ensures ShortestDistances(SampleGraph(), "E", ExpectedFromE())
  {
    SampleNamesDistinct();
    PentagonFromE("A", "B", "C", "D", "E");
  }

  /** The two runs of the source's test driver give the tables it prints. */
  method SampleRuns() returns (fromA: Result<map<Vertex, Dist>>, fromE: Result<map<Vertex, Dist>>)
    ensures fromA == Success(ExpectedFromA())
    ensures fromE == Success(ExpectedFromE())
  {
    SampleIsWellFormed();
    fromA := ShortestPaths(SampleGraph(), "A");
    SampleFromA();
    ShortestDistancesUnique(SampleGraph(), "A", fromA.value, ExpectedFromA());
    fromE := ShortestPaths(SampleGraph(), "E");
    SampleFromE();
    ShortestDistancesUnique(SampleGraph(), "E", fromE.value, ExpectedFromE());
  }
}
