/** Union-find over the items 0..N-1 (class UF): weighted quick union by
    rank, with path halving in find, and a count of the sets. */
module UnionFind {

  /** The roots of a parent array: the items that are their own parent. */
  ghost function RootsOf(id: seq<nat>): set<nat>
  {
    set x: nat | x < |id| && id[x] == x
  }

  /** When every item is its own parent, every item is a root. */
  lemma {:induction false} AllRoots(id: seq<nat>)
    requires forall x :: 0 <= x < |id| ==> id[x] == x
    ensures |RootsOf(id)| == |id|
  {
    if id != [] {
      var n := |id| - 1;
      var shorter := id[..n];
      AllRoots(shorter);
      assert RootsOf(id) == RootsOf(shorter) + {n};
    }
  }

  /** root[x] is the root reached from x by following parents: roots are
      fixed points, a parent has the same root as its child, and rank grows
      strictly from a child to its parent, so following parents from x ends
      at root[x]. */
  ghost predicate Forest(id: seq<nat>, rank: seq<nat>, root: seq<nat>)
  {
    && |rank| == |id| && |root| == |id|
    && (forall x :: 0 <= x < |id| ==> id[x] < |id| && root[x] < |id|)
    && (forall x {:trigger root[x]} :: 0 <= x < |id| ==> id[root[x]] == root[x])
    && (forall x {:trigger id[x]} :: 0 <= x < |id| && id[x] == x ==> root[x] == x)
    && (forall x {:trigger root[id[x]]} :: 0 <= x < |id| ==> root[id[x]] == root[x])
    && (forall x {:trigger id[x]} :: 0 <= x < |id| && id[x] != x ==> rank[x] < rank[id[x]])
    && (forall x {:trigger root[x]} :: 0 <= x < |id| ==> rank[x] <= rank[root[x]])
  }

  /** The item reached from x by following parents until one is its own
      parent (the rank grows at every step, which bounds the walk). */
  ghost function Chase(id: seq<nat>, rank: seq<nat>, root: seq<nat>, x: nat): nat
    requires Forest(id, rank, root) && x < |id|
    decreases rank[root[x]] - rank[x]
  {
    if id[x] == x then x else Chase(id, rank, root, id[x])
  }

  /** The ghost root of x is the item that following parents from x reaches. */
  lemma {:induction false} ChaseReachesRoot(id: seq<nat>, rank: seq<nat>, root: seq<nat>, x: nat)
    requires Forest(id, rank, root) && x < |id|
    ensures Chase(id, rank, root, x) == root[x]
    decreases rank[root[x]] - rank[x]
  {
    if id[x] != x {
      ChaseReachesRoot(id, rank, root, id[x]);
    }
  }

  /** One step of path halving: the parent of a non-root r becomes its
      grandparent. Roots and the root of every item stay as they were. */
  lemma HalveKeepsForest(id: seq<nat>, rank: seq<nat>, root: seq<nat>, r: nat)
    requires Forest(id, rank, root) && r < |id| && id[r] != r
    ensures var g := id[id[r]];
            && Forest(id[r := g], rank, root)
            && RootsOf(id[r := g]) == RootsOf(id)
            && rank[r] < rank[g] && root[g] == root[r]
  {
    var g := id[id[r]];
    assert rank[r] < rank[id[r]] <= rank[g];
    var id' := id[r := g];
    assert RootsOf(id') == RootsOf(id);
  }

  /** The roots after the set of root `loser` is hung under root `winner`. */
  ghost function Relabel(root: seq<nat>, loser: nat, winner: nat): (r: seq<nat>)
    ensures |r| == |root|
    ensures forall x :: 0 <= x < |root| ==> r[x] == if root[x] == loser then winner else root[x]
  {
    seq(|root|, x requires 0 <= x < |root| => if root[x] == loser then winner else root[x])
  }

  /** The ranks after the rank of `winner` grows by `bump`. */
  function Bumped(rank: seq<nat>, winner: nat, bump: nat): (r: seq<nat>)
    requires winner < |rank|
    ensures |r| == |rank| && r[winner] == rank[winner] + bump
    ensures forall x :: 0 <= x < |rank| && x != winner ==> r[x] == rank[x]
  {
    rank[winner := rank[winner] + bump]
  }

  lemma BumpedByZero(rank: seq<nat>, winner: nat)
    requires winner < |rank|
    ensures Bumped(rank, winner, 0) == rank
  {
  }

  /** x and y share a set once the sets with roots a and b are merged. */
  predicate MergedSame(root: seq<nat>, a: nat, b: nat, x: nat, y: nat)
    requires x < |root| && y < |root|
  {
    || root[x] == root[y]
    || ((root[x] == a || root[x] == b) && (root[y] == a || root[y] == b))
  }

  /** root1 groups the items as root0 does, except that the sets with roots
      a and b become one. */
  ghost predicate Merged(root0: seq<nat>, root1: seq<nat>, a: nat, b: nat)
  {
    && |root1| == |root0|
    && forall x, y :: 0 <= x < |root0| && 0 <= y < |root0| ==>
         (root1[x] == root1[y] <==> MergedSame(root0, a, b, x, y))
  }

  /** Relabelling the root `loser` as `winner` merges exactly the sets with
      those roots. */
  lemma RelabelMerges(root: seq<nat>, loser: nat, winner: nat)
    ensures Merged(root, Relabel(root, loser, winner), loser, winner)
    ensures Merged(root, Relabel(root, loser, winner), winner, loser)
  {
  }

  /** Merging the sets of p and q in two labellings that agree on which
      items share a set gives labellings that still agree. */
  lemma MergedSameAgrees(r1: seq<nat>, r2: seq<nat>, p: nat, q: nat)
    requires |r1| == |r2| && p < |r1| && q < |r1|
    requires forall x, y :: 0 <= x < |r1| && 0 <= y < |r1| ==> (r1[x] == r1[y] <==> r2[x] == r2[y])
    ensures forall x, y :: 0 <= x < |r1| && 0 <= y < |r1| ==>
              (MergedSame(r1, r1[p], r1[q], x, y) <==> MergedSame(r2, r2[p], r2[q], x, y))
  {
  }

  /** Hanging root `loser` under root `winner` (with `winner`'s rank grown
      by `bump`) keeps the forest and removes `loser` from the roots. */
  lemma LinkKeepsForest(id: seq<nat>, rank: seq<nat>, root: seq<nat>, loser: nat, winner: nat, bump: nat)
    requires Forest(id, rank, root) && loser < |id| && winner < |id| && loser != winner
    requires id[loser] == loser && id[winner] == winner
    requires bump <= 1
    requires rank[loser] < rank[winner] + bump
    ensures Forest(id[loser := winner], Bumped(rank, winner, bump), Relabel(root, loser, winner))
            && RootsOf(id[loser := winner]) == RootsOf(id) - {loser}
            && |RootsOf(id)| >= 1
            && |RootsOf(id[loser := winner])| == |RootsOf(id)| - 1
  {
    var root' := Relabel(root, loser, winner);
    var id' := id[loser := winner];
    var rank' := Bumped(rank, winner, bump);
    forall x | 0 <= x < |id| && id'[x] != x
      ensures rank'[x] < rank'[id'[x]]
    {
      if x != loser {
        assert root[x] != x;
      }
    }
    forall x | 0 <= x < |id|
      ensures rank'[x] <= rank'[root'[x]]
    {
      if root[x] == loser {
        assert rank[x] <= rank[loser];
      }
    }
    assert RootsOf(id') == RootsOf(id) - {loser};
    assert loser in RootsOf(id);
  }

  lemma {:induction false} SubsetSize<T>(a: set<T>, b: set<T>)
    requires a <= b
    ensures |a| <= |b|
    decreases |a|
  {
    if a != {} {
      var x :| x in a;
      SubsetSize(a - {x}, b - {x});
    }
  }

  class UF {
    /** Parent of each item; an item that is its own parent is a root. */
    var id: seq<nat>
    /** Rank of each item, used to keep the trees shallow. */
    var rank: seq<nat>
    /** Number of sets. */
    var count: nat
    /** The root that following parents from each item reaches. */
    ghost var root: seq<nat>

    ghost function Roots(): set<nat>
      reads this
    {
      RootsOf(id)
    }

    /** The forest invariant, and the count is the number of roots. */
    ghost predicate Valid()
      reads this
    {
      Forest(id, rank, root) && count == |RootsOf(id)|
    }

    /** N items, each in a set of its own, all of rank 0. */
    constructor (n: nat)
      ensures Valid()
      ensures |id| == n && count == n
      ensures forall x :: 0 <= x < n ==> id[x] == x && rank[x] == 0 && root[x] == x
    {
      id := seq(n, x => x);
      count := n;
      rank := seq(n, _ => 0);
      root := seq(n, x => x);
      new;
      AllRoots(id);
    }

    /** The root of p's set. Each visited item is re-linked to its
        grandparent; which root any item reaches does not change. */
    method Find(p: nat) returns (r: nat)
      requires Valid() && p < |id|
      modifies this
      ensures Valid()
      ensures |id| == |old(id)|
      ensures root == old(root) && rank == old(rank) && count == old(count)
      ensures r == root[p] && id[r] == r
      ensures forall x :: 0 <= x < |id| ==> id[x] == old(id[x]) || id[x] == old(id[id[x]])
    {
      r := p;
      while r != id[r]
        invariant |id| == |old(id)|
        invariant Valid() && r < |id| && root[r] == root[p]
        invariant root == old(root) && rank == old(rank) && count == old(count)
        invariant forall x :: 0 <= x < |id| ==>
                    id[x] == old(id[x]) || (rank[x] < rank[r] && id[x] == old(id[id[x]]))
        decreases rank[root[r]] - rank[r]
      {
        HalveKeepsForest(id, rank, root, r);
        var g := id[id[r]];
        id := id[r := g];
        r := g;
      }
    }

    /** Whether p and q are in the same set. */
    method Connected(p: nat, q: nat) returns (b: bool)
      requires Valid() && p < |id| && q < |id|
      modifies this
      ensures Valid()
      ensures |id| == |old(id)|
      ensures root == old(root) && rank == old(rank) && count == old(count)
      ensures b <==> root[p] == root[q]
    {
      var rp := Find(p);
      var rq := Find(q);
      b := rp == rq;
    }

    /** Merges the sets of p and q. Nothing happens when they are already one
        set; otherwise the root of lower rank is hung under the other (on
        equal ranks q's root goes under p's, whose rank grows by one), and
        the count drops by one. */
    method Union(p: nat, q: nat)
      requires Valid() && p < |id| && q < |id|
      modifies this
      ensures Valid()
      ensures |id| == |old(id)|
      ensures root[p] == root[q]
      ensures old(root[p]) == old(root[q]) ==>
                count == old(count) && root == old(root) && rank == old(rank)
      ensures old(root[p]) != old(root[q]) ==>
                Linked(old(root[p]), old(root[q]), old(rank), old(root), old(count))
      ensures Merged(old(root), root, old(root[p]), old(root[q]))
    {
      var i := Find(p);
      var j := Find(q);
      if i != j {
        Link(i, j);
      }
    }

    /** The state after two distinct roots i and j are linked, compared with
        the ranks, roots and count before. */
    ghost predicate Linked(i: nat, j: nat, rank0: seq<nat>, root0: seq<nat>, count0: nat)
      reads this
      requires i < |rank0| && j < |rank0| && i < |id| && j < |id|
    {
      && count == count0 - 1
      && (rank0[i] < rank0[j] ==> id[i] == j && root == Relabel(root0, i, j) && rank == rank0)
      && (rank0[i] > rank0[j] ==> id[j] == i && root == Relabel(root0, j, i) && rank == rank0)
      && (rank0[i] == rank0[j] ==>
            id[j] == i && root == Relabel(root0, j, i) && rank == Bumped(rank0, i, 1))
    }

    /** Links the trees of two distinct roots (the body of union once both
        roots are found). */
    method Link(i: nat, j: nat)
      requires Valid() && i < |id| && j < |id| && i != j && id[i] == i && id[j] == j
      modifies this
      ensures Valid()
      ensures |id| == |old(id)| && root[i] == root[j]
      ensures Linked(i, j, old(rank), old(root), old(count))
      ensures Merged(old(root), root, i, j)
    {
      if rank[i] < rank[j] {
        RelabelMerges(root, i, j);
        Hang(i, j, 0);
        BumpedByZero(old(rank), j);
      } else if rank[i] > rank[j] {
        RelabelMerges(root, j, i);
        Hang(j, i, 0);
        BumpedByZero(old(rank), i);
      } else {
        RelabelMerges(root, j, i);
        Hang(j, i, 1);
      }
    }

    /** Hangs root `loser` under root `winner` and grows `winner`'s rank by
        `bump`. */
    method Hang(loser: nat, winner: nat, bump: nat)
      requires Valid() && loser < |id| && winner < |id| && loser != winner
      requires id[loser] == loser && id[winner] == winner
      requires bump <= 1 && rank[loser] < rank[winner] + bump
      modifies this
      ensures Valid()
      ensures |id| == |old(id)|
      ensures id == old(id)[loser := winner]
      ensures rank == Bumped(old(rank), winner, bump)
      ensures root == Relabel(old(root), loser, winner)
      ensures count == old(count) - 1
    {
      LinkKeepsForest(id, rank, root, loser, winner, bump);
      id := id[loser := winner];
      rank := Bumped(rank, winner, bump);
      root := Relabel(root, loser, winner);
      count := count - 1;
    }

    /** The number of sets. */
    method Count() returns (c: nat)
      requires Valid()
      ensures c == |RootsOf(id)|
    {
      c := count;
    }

    /** With a single set every item has the same root. */
    lemma OneSet()
      requires Valid() && count == 1
      ensures forall x, y :: 0 <= x < |id| && 0 <= y < |id| ==> root[x] == root[y]
    {
      forall x, y | 0 <= x < |id| && 0 <= y < |id|
        ensures root[x] == root[y]
      {
        assert root[x] in RootsOf(id) && root[y] in RootsOf(id);
        if root[x] != root[y] {
          assert {root[x], root[y]} <= RootsOf(id);
          assert |{root[x], root[y]}| == 2;
          SubsetSize({root[x], root[y]}, RootsOf(id));
          assert false;
        }
      }
    }

    /** With two sets or more some two items have different roots. */
    lemma TwoSets() returns (x: nat, y: nat)
      requires Valid() && count >= 2
      ensures x < |id| && y < |id| && root[x] != root[y]
    {
      var roots := RootsOf(id);
      x :| x in roots;
      assert |roots - {x}| >= 1;
      y :| y in roots - {x};
    }

    /** A non-empty structure has at least one set. */
    lemma CountPositive()
      requires Valid() && |id| > 0
      ensures count >= 1
    {
      assert root[0] in RootsOf(id);
    }
  }
}
