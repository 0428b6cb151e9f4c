/** The goeBURST tree: every pair of profiles is a candidate edge, the
    candidates are sorted with the goeBURST comparator, and Kruskal's greedy
    scan keeps each edge that joins two different components, using the
    union-find structure to tell components apart. */
module SpanningTree {
  import opened Distance
  import opened Ranking
  import opened EdgeSort
  import Levels
  import UnionFind

  // ---------------------------------------------------------------------
  // Candidate edges

  /** The pairs [i, j] for j from j up to n - 1. */
  function Row(i: nat, j: nat, n: nat): seq<Edge>
    decreases n - j
  {
    if j >= n then [] else [Edge(i, j)] + Row(i, j + 1, n)
  }

  /** The pairs [i', j] with i <= i' < j < n, row by row. */
  function PairsFrom(i: nat, n: nat): seq<Edge>
    decreases n - i
  {
    if i >= n then [] else Row(i, i + 1, n) + PairsFrom(i + 1, n)
  }

  /** Every pair of distinct items, smaller index first, in the order the
      nested loops produce them. */
  function AllPairs(n: nat): (r: seq<Edge>)
    ensures Within(n, r)
  {
    PairsFromMembers(0, n);
    PairsFrom(0, n)
  }

  /** Builds the candidate edges with the two nested loops. */
  method GenerateEdges(n: nat) returns (edges: seq<Edge>)
    ensures edges == AllPairs(n)
  {
    edges := [];
    for i := 0 to n
      invariant edges + PairsFrom(i, n) == AllPairs(n)
    {
      ghost var before := edges;
      for j := i + 1 to n
        invariant edges + Row(i, j, n) == before + Row(i, i + 1, n)
      {
        AppendAssoc(edges, [Edge(i, j)], Row(i, j + 1, n));
        edges := edges + [Edge(i, j)];
      }
      AppendAssoc(before, Row(i, i + 1, n), PairsFrom(i + 1, n));
    }
  }

  lemma AppendAssoc(a: seq<Edge>, b: seq<Edge>, c: seq<Edge>)
    ensures (a + b) + c == a + (b + c)
  {
  }

  lemma {:induction false} RowMembers(i: nat, j: nat, n: nat)
    ensures forall k :: 0 <= k < |Row(i, j, n)| ==>
              Row(i, j, n)[k] == Edge(i, j + k) && j + k < n
    ensures forall e :: e in Row(i, j, n) <==> e.u == i && j <= e.v < n
    ensures |Row(i, j, n)| == if j <= n then n - j else 0
    decreases n - j
  {
    if j < n {
      RowMembers(i, j + 1, n);
      var r := Row(i, j, n);
      forall k | 0 <= k < |r|
        ensures r[k] == Edge(i, j + k)
      {
        if k > 0 {
          assert r[k] == Row(i, j + 1, n)[k - 1];
        }
      }
    }
  }

  /** The candidates are exactly the pairs u < v < n. */
  lemma {:induction false} PairsFromMembers(i: nat, n: nat)
    ensures forall e :: e in PairsFrom(i, n) <==> i <= e.u < e.v < n
    decreases n - i
  {
    if i < n {
      RowMembers(i, i + 1, n);
      PairsFromMembers(i + 1, n);
    }
  }

  /** Any two distinct items are joined by a candidate edge. */
  lemma PairOfCandidates(n: nat, x: nat, y: nat)
    ensures x < n && y < n && x != y ==> Edge(Min(x, y), Max(x, y)) in AllPairs(n)
  {
    PairsFromMembers(0, n);
  }

  /** e1 comes before e2 in the order the nested loops produce pairs. */
  predicate LexBefore(e1: Edge, e2: Edge)
  {
    e1.u < e2.u || (e1.u == e2.u && e1.v < e2.v)
  }

  lemma {:induction false} PairsFromIncreasing(i: nat, n: nat)
    ensures forall a, b :: 0 <= a < b < |PairsFrom(i, n)| ==>
              LexBefore(PairsFrom(i, n)[a], PairsFrom(i, n)[b])
    decreases n - i
  {
    if i < n {
      var row := Row(i, i + 1, n);
      var rest := PairsFrom(i + 1, n);
      RowMembers(i, i + 1, n);
      PairsFromIncreasing(i + 1, n);
      PairsFromMembers(i + 1, n);
      var s := row + rest;
      forall a, b | 0 <= a < b < |s|
        ensures LexBefore(s[a], s[b])
      {
        if b >= |row| && a < |row| {
          assert s[b] == rest[b - |row|];
          assert s[b] in rest;
        } else if a >= |row| {
          assert s[a] == rest[a - |row|] && s[b] == rest[b - |row|];
        }
      }
    }
  }

  /** No two candidates join the same two profiles. */
  lemma AllPairsDistinct(n: nat)
    ensures DistinctPairs(AllPairs(n))
  {
    var s := AllPairs(n);
    PairsFromIncreasing(0, n);
    PairsFromMembers(0, n);
    forall a, b | 0 <= a < b < |s|
      ensures !SamePair(s[a], s[b])
    {
      assert s[a] in s && s[b] in s;
    }
  }

  /** 0 + 1 + ... + (m - 1). */
  function Triangle(m: nat): nat
  {
    if m == 0 then 0 else (m - 1) + Triangle(m - 1)
  }

  lemma {:induction false} TriangleClosedForm(m: nat)
    ensures 2 * Triangle(m) == m * (m - 1)
  {
    if m > 0 {
      TriangleClosedForm(m - 1);
      var k := m - 1;
      assert m * (m - 1) == k * k + k;
      assert (m - 1) * (m - 2) == k * k - k;
    }
  }

  lemma {:induction false} PairsFromCount(i: nat, n: nat)
    requires i <= n
    ensures |PairsFrom(i, n)| == Triangle(n - i)
    decreases n - i
  {
    if i < n {
      RowMembers(i, i + 1, n);
      PairsFromCount(i + 1, n);
    }
  }

  /** There are n(n-1)/2 candidates. */
  lemma AllPairsCount(n: nat)
    ensures 2 * |AllPairs(n)| == n * (n - 1)
  {
    PairsFromCount(0, n);
    TriangleClosedForm(n);
  }

  // ---------------------------------------------------------------------
  // Components

  /** The component label of each of the items 0..n-1 once the edges of
      tree are added in turn: adding [u, v] gives v's whole component the
      label of u's. Two items are in one component when their labels agree. */
  ghost function Label(n: nat, tree: seq<Edge>): (lbl: seq<nat>)
    requires Within(n, tree)
    ensures |lbl| == n
  {
    if tree == [] then seq(n, x => x)
    else
      var lbl := Label(n, tree[..|tree| - 1]);
      var e := tree[|tree| - 1];
      UnionFind.Relabel(lbl, lbl[e.v], lbl[e.u])
  }

  /** x and y are in one component of the graph with the edges of tree. */
  ghost predicate Joined(n: nat, tree: seq<Edge>, x: nat, y: nat)
    requires Within(n, tree) && x < n && y < n
  {
    Label(n, tree)[x] == Label(n, tree)[y]
  }

  /** Every edge of tree joined two different components when it was added:
      the edges form a forest. */
  ghost predicate Acyclic(n: nat, tree: seq<Edge>)
    requires Within(n, tree)
  {
    forall k :: 0 <= k < |tree| ==> !Joined(n, tree[..k], tree[k].u, tree[k].v)
  }

  /** Adding edge e merges exactly the components of its two endpoints. */
  lemma AddEdgeMerges(n: nat, tree: seq<Edge>, e: Edge)
    requires Within(n, tree) && e.u < n && e.v < n
    ensures Within(n, tree + [e])
    ensures forall x, y :: 0 <= x < n && 0 <= y < n ==>
              (Joined(n, tree + [e], x, y) <==>
               UnionFind.MergedSame(Label(n, tree), Label(n, tree)[e.u], Label(n, tree)[e.v], x, y))
  {
    var t := tree + [e];
    assert t[..|t| - 1] == tree;
    var lbl := Label(n, tree);
    UnionFind.RelabelMerges(lbl, lbl[e.v], lbl[e.u]);
  }

  /** Kruskal's greedy choice over edges, with tree the edges kept so far:
      an edge is kept when it joins two components, and the scan stops once
      the tree has n - 1 edges. */
  ghost function Greedy(n: nat, edges: seq<Edge>, tree: seq<Edge>): seq<Edge>
    requires Within(n, edges) && Within(n, tree)
    decreases |edges|
  {
    if edges == [] || |tree| >= (n as int) - 1 then tree
    else
      var e := edges[0];
      if !Joined(n, tree, e.u, e.v) then Greedy(n, edges[1..], tree + [e])
      else Greedy(n, edges[1..], tree)
  }

  // ---------------------------------------------------------------------
  // Kruskal

  /** The union-find roots agree with the component labels of tree. */
  ghost predicate Tracks(n: nat, root: seq<nat>, tree: seq<Edge>)
    requires Within(n, tree) && |root| == n
  {
    forall x, y :: 0 <= x < n && 0 <= y < n ==> (root[x] == root[y] <==> Joined(n, tree, x, y))
  }

  /** Each of the first i edges has both endpoints in one set. */
  ghost predicate Scanned(n: nat, root: seq<nat>, edges: seq<Edge>, i: nat)
    requires Within(n, edges) && |root| == n && i <= |edges|
  {
    forall k :: 0 <= k < i ==> root[edges[k].u] == root[edges[k].v]
  }

  /** Union on the endpoints of a new tree edge keeps the roots in step
      with the labels, and keeps every scanned edge inside one set. */
  lemma TracksStep(n: nat, root: seq<nat>, root': seq<nat>, tree: seq<Edge>, edges: seq<Edge>, i: nat)
    requires Within(n, tree) && Within(n, edges) && i < |edges|
    requires |root| == n && |root'| == n
    requires Tracks(n, root, tree) && Scanned(n, root, edges, i)
    requires UnionFind.Merged(root, root', root[edges[i].u], root[edges[i].v])
    ensures Within(n, tree + [edges[i]]) && Tracks(n, root', tree + [edges[i]])
    ensures Scanned(n, root', edges, i + 1)
  {
    var e := edges[i];
    AddEdgeMerges(n, tree, e);
    UnionFind.MergedSameAgrees(root, Label(n, tree), e.u, e.v);
  }

  /** One step of the greedy scan, when the tree is still short. */
  lemma GreedyStep(n: nat, edges: seq<Edge>, i: nat, tree: seq<Edge>)
    requires Within(n, edges) && Within(n, tree) && i < |edges| && |tree| < n - 1
    ensures Within(n, tree + [edges[i]])
    ensures Greedy(n, edges[i..], tree) ==
              if Joined(n, tree, edges[i].u, edges[i].v) then Greedy(n, edges[i + 1..], tree)
              else Greedy(n, edges[i + 1..], tree + [edges[i]])
  {
    assert edges[i..][1..] == edges[i + 1..];
  }

  /** Adding an edge between two components keeps the forest acyclic. */
  lemma AcyclicStep(n: nat, tree: seq<Edge>, e: Edge)
    requires Within(n, tree) && e.u < n && e.v < n && Acyclic(n, tree)
    requires !Joined(n, tree, e.u, e.v)
    ensures Within(n, tree + [e]) && Acyclic(n, tree + [e])
  {
    var t := tree + [e];
    forall k | 0 <= k < |t|
      ensures !Joined(n, t[..k], t[k].u, t[k].v)
    {
      assert t[..k] == tree[..k];
    }
  }

  /** The tree goeBURST builds: the candidate edges sorted with the
      comparator, then scanned greedily. It has n - 1 edges, no cycle, and
      joins every profile to every other. */
  method Kruskal(ctx: Context) returns (tree: seq<Edge>)
    requires ctx.WellFormed()
    ensures var n := |ctx.profiles|;
            && Within(n, tree)
            && tree == Greedy(n, SortEdges(ctx, AllPairs(n)), [])
            && Acyclic(n, tree)
            && |tree| == (if n == 0 then 0 else n - 1)
            && (forall x, y :: 0 <= x < n && 0 <= y < n ==> Joined(n, tree, x, y))
  {
    var n := |ctx.profiles|;
    var candidates := GenerateEdges(n);
    var edges := SortEdges(ctx, candidates);
    forall e | e in AllPairs(n)
      ensures e in edges
    {
      assert e in multiset(edges);
    }
    tree := Scan(n, edges);
  }

  /** Kruskal's scan: keeps each edge whose endpoints the union-find
      structure finds in different sets, and merges those sets, until the
      tree has n - 1 edges. When every pair of items is among the edges,
      the result is a spanning tree. */
  method Scan(n: nat, edges: seq<Edge>) returns (tree: seq<Edge>)
    requires Within(n, edges)
    requires forall e :: e in AllPairs(n) ==> e in edges
    ensures Within(n, tree)
    ensures tree == Greedy(n, edges, [])
    ensures Acyclic(n, tree)
    ensures |tree| == (if n == 0 then 0 else n - 1)
    ensures forall x, y :: 0 <= x < n && 0 <= y < n ==> Joined(n, tree, x, y)
  {
    var uf := new UnionFind.UF(n);
    tree := [];
    var i := 0;
    ScanStart(n, edges, uf.root);
    while i < |edges| && |tree| < n - 1
      invariant i <= |edges| && uf.Valid() && |uf.id| == n
      invariant ScanState(n, edges, i, tree, uf.root, uf.count)
      decreases |edges| - i
    {
      var e := edges[i];
      ghost var root0, count0 := uf.root, uf.count;
      var apart := JoinIfApart(uf, e.u, e.v);
      ScanStep(n, edges, i, tree, root0, count0, uf.root, uf.count, apart);
      if apart {
        tree := tree + [e];
      }
      i := i + 1;
    }
    ScanComplete(n, uf, edges, i, tree);
  }

  /** What holds after the first i edges are scanned: the roots and the
      count of the union-find structure agree with the components of the
      tree, every scanned edge lies inside one component, the tree is the
      greedy choice so far and has no cycle. */
  ghost predicate ScanState(n: nat, edges: seq<Edge>, i: nat, tree: seq<Edge>, root: seq<nat>, count: nat)
  {
    && i <= |edges| && Within(n, edges) && Within(n, tree) && |root| == n
    && Tracks(n, root, tree) && Scanned(n, root, edges, i)
    && |tree| <= (if n == 0 then 0 else n - 1)
    && count == n - |tree|
    && Greedy(n, edges[i..], tree) == Greedy(n, edges, [])
    && Acyclic(n, tree)
  }

  /** Before the scan every item is a set of its own and the tree is empty. */
  lemma ScanStart(n: nat, edges: seq<Edge>, root: seq<nat>)
    requires Within(n, edges) && |root| == n
    requires forall x :: 0 <= x < n ==> root[x] == x
    ensures ScanState(n, edges, 0, [], root, n)
  {
    assert edges[0..] == edges;
  }

  /** Scanning edge i: it joins the tree exactly when its endpoints had
      different roots, and the scan state carries over. */
  lemma ScanStep(n: nat, edges: seq<Edge>, i: nat, tree: seq<Edge>,
                 root0: seq<nat>, count0: nat, root1: seq<nat>, count1: nat, apart: bool)
    requires ScanState(n, edges, i, tree, root0, count0)
    requires i < |edges| && |tree| < n - 1 && |root1| == n
    requires apart <==> root0[edges[i].u] != root0[edges[i].v]
    requires !apart ==> root1 == root0 && count1 == count0
    requires apart ==> count1 == count0 - 1
    requires apart ==> UnionFind.Merged(root0, root1, root0[edges[i].u], root0[edges[i].v])
    ensures ScanState(n, edges, i + 1, if apart then tree + [edges[i]] else tree, root1, count1)
  {
    var e := edges[i];
    GreedyStep(n, edges, i, tree);
    if apart {
      AcyclicStep(n, tree, e);
      TracksStep(n, root0, root1, tree, edges, i);
    }
  }

  /** The scan's step for one edge [u, v]: find the roots of u and v and,
      when they differ, merge their sets. */
  method JoinIfApart(uf: UnionFind.UF, u: nat, v: nat) returns (apart: bool)
    requires uf.Valid() && u < |uf.id| && v < |uf.id|
    modifies uf
    ensures uf.Valid() && |uf.id| == old(|uf.id|)
    ensures apart <==> old(uf.root[u]) != old(uf.root[v])
    ensures !apart ==> uf.root == old(uf.root) && uf.count == old(uf.count)
    ensures apart ==> uf.count == old(uf.count) - 1
    ensures apart ==> UnionFind.Merged(old(uf.root), uf.root, old(uf.root[u]), old(uf.root[v]))
  {
    var ru := uf.Find(u);
    var rv := uf.Find(v);
    apart := ru != rv;
    if apart {
      uf.Union(u, v);
    }
  }

  /** When the scan ends, the tree has n - 1 edges and joins everything:
      had it fewer, two profiles would still be apart, yet the candidate
      edge between them was scanned and found inside one component. */
  lemma ScanComplete(n: nat, uf: UnionFind.UF, edges: seq<Edge>, i: nat, tree: seq<Edge>)
    requires uf.Valid() && |uf.id| == n
    requires ScanState(n, edges, i, tree, uf.root, uf.count)
    requires forall e :: e in AllPairs(n) ==> e in edges
    requires i == |edges| || |tree| >= n - 1
    ensures Within(n, tree)
    ensures tree == Greedy(n, edges, [])
    ensures Acyclic(n, tree)
    ensures |tree| == (if n == 0 then 0 else n - 1)
    ensures forall x, y :: 0 <= x < n && 0 <= y < n ==> Joined(n, tree, x, y)
  {
    assert Greedy(n, edges[i..], tree) == tree;
    if |tree| < n - 1 {
      var x, y := uf.TwoSets();
      PairOfCandidates(n, x, y);
      assert false;
    }
    if n > 0 {
      uf.OneSet();
    }
  }

  /** Every edge the greedy scan keeps comes from the scanned list or was
      kept before. */
  lemma {:induction false} GreedyKeepsGiven(n: nat, edges: seq<Edge>, tree: seq<Edge>)
    requires Within(n, edges) && Within(n, tree)
    ensures forall e :: e in Greedy(n, edges, tree) ==> e in tree || e in edges
    decreases |edges|
  {
    if edges != [] && |tree| < n - 1 {
      var e := edges[0];
      if !Joined(n, tree, e.u, e.v) {
        GreedyKeepsGiven(n, edges[1..], tree + [e]);
      } else {
        GreedyKeepsGiven(n, edges[1..], tree);
      }
    }
  }

  /** Scanning a sorted list after a sorted tree whose edges all sort before
      it keeps the tree sorted. */
  lemma {:induction false} GreedySorted(ctx: Context, edges: seq<Edge>, tree: seq<Edge>)
    requires ctx.WellFormed() && Within(|ctx.profiles|, edges) && Within(|ctx.profiles|, tree)
    requires Sorted(ctx, edges) && Sorted(ctx, tree)
    requires forall a, b :: 0 <= a < |tree| && 0 <= b < |edges| ==> Less(ctx, tree[a], edges[b])
    ensures var n := |ctx.profiles|;
            && Within(|ctx.profiles|, Greedy(n, edges, tree))
            && Sorted(ctx, Greedy(n, edges, tree))
    decreases |edges|
  {
    var n := |ctx.profiles|;
    if edges != [] && |tree| < n - 1 {
      var e := edges[0];
      SortedTail(ctx, edges);
      if !Joined(n, tree, e.u, e.v) {
        var t := tree + [e];
        forall a, b | 0 <= a < b < |t|
          ensures Less(ctx, t[a], t[b])
        {
          if b == |tree| {
            assert Less(ctx, tree[a], edges[0]);
          } else {
            assert Less(ctx, tree[a], tree[b]);
          }
        }
        forall a, b | 0 <= a < |t| && 0 <= b < |edges| - 1
          ensures Less(ctx, t[a], edges[1..][b])
        {
          assert edges[1..][b] == edges[b + 1];
          if a == |tree| {
            assert Less(ctx, edges[0], edges[b + 1]);
          } else {
            assert Less(ctx, tree[a], edges[b + 1]);
          }
        }
        GreedySorted(ctx, edges[1..], t);
      } else {
        forall a, b | 0 <= a < |tree| && 0 <= b < |edges| - 1
          ensures Less(ctx, tree[a], edges[1..][b])
        {
          assert edges[1..][b] == edges[b + 1];
        }
        GreedySorted(ctx, edges[1..], tree);
      }
    }
  }

  /** The goeBURST tree takes only candidate edges, and with at least one
      level it lists them in comparator order. */
  lemma KruskalTreeOrder(ctx: Context)
    requires ctx.WellFormed()
    ensures var n := |ctx.profiles|;
            var tree := Greedy(n, SortEdges(ctx, AllPairs(n)), []);
            && (forall e :: e in tree ==> e in AllPairs(n))
            && (ctx.maxlen >= 1 ==> Within(|ctx.profiles|, tree) && Sorted(ctx, tree))
  {
    var n := |ctx.profiles|;
    var edges := SortEdges(ctx, AllPairs(n));
    GreedyKeepsGiven(n, edges, []);
    forall e | e in Greedy(n, edges, [])
      ensures e in AllPairs(n)
    {
      assert e in multiset(edges);
    }
    if ctx.maxlen >= 1 {
      AllPairsDistinct(n);
      SortEdgesSorted(ctx, AllPairs(n));
      GreedySorted(ctx, edges, []);
    }
  }

  /** The whole pipeline: the level histogram, then the tree, which is the
      greedy choice over the candidates sorted with the comparator built on
      that histogram. */
  method GoeBurst(profiles: seq<Profile>) returns (tree: seq<Edge>)
    requires |profiles| >= 2 && Levels.BucketsInRange(profiles, |profiles[1]|)
    ensures var n := |profiles|;
            var maxlen := |profiles[1]|;
            var ctx := Context(profiles, Levels.Histogram(profiles, maxlen), maxlen);
            && ctx.WellFormed()
            && tree == Greedy(n, SortEdges(ctx, AllPairs(n)), [])
            && Within(n, tree) && Acyclic(n, tree) && |tree| == n - 1
            && (forall x, y :: 0 <= x < n && 0 <= y < n ==> Joined(n, tree, x, y))
  {
    var lvs, maxlen := Levels.CalcLVs(profiles);
    tree := Kruskal(Context(profiles, lvs, maxlen));
  }
}
