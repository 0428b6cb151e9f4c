/** Sorting the candidate edges with the goeBURST comparator. The source
    hands EdgeComp to the library sort; here the sort is an insertion sort,
    and SortedUnique shows that every sort that returns a permutation ordered
    by the comparator returns this same list. */
module EdgeSort {
  import opened Ranking

  /** Every edge of s joins two of the items 0..n-1. */
  predicate Within(n: nat, s: seq<Edge>)
  {
    forall k :: 0 <= k < |s| ==> s[k].u < n && s[k].v < n
  }

  /** No two edges of s join the same two profiles. */
  predicate DistinctPairs(s: seq<Edge>)
  {
    forall i, j :: 0 <= i < j < |s| ==> !SamePair(s[i], s[j])
  }

  /** Each edge of s sorts strictly before every later one. */
  predicate Sorted(ctx: Context, s: seq<Edge>)
    requires ctx.WellFormed() && Within(|ctx.profiles|, s)
  {
    forall i, j :: 0 <= i < j < |s| ==> Less(ctx, s[i], s[j])
  }

  /** Puts e in front of the first edge of s that does not sort before it. */
  function Insert(ctx: Context, e: Edge, s: seq<Edge>): (r: seq<Edge>)
    requires ctx.WellFormed() && ctx.HasEdge(e) && Within(|ctx.profiles|, s)
    ensures multiset(r) == multiset(s) + multiset{e}
    ensures Within(|ctx.profiles|, r)
  {
    if s == [] then [e]
    else
      assert s == [s[0]] + s[1..];
      if Less(ctx, s[0], e) then [s[0]] + Insert(ctx, e, s[1..])
      else [e] + s
  }

  function SortEdges(ctx: Context, s: seq<Edge>): (r: seq<Edge>)
    requires ctx.WellFormed() && Within(|ctx.profiles|, s)
    ensures multiset(r) == multiset(s)
    ensures Within(|ctx.profiles|, r)
  {
    if s == [] then []
    else
      assert s == [s[0]] + s[1..];
      Insert(ctx, s[0], SortEdges(ctx, s[1..]))
  }

  /** An edge that sorts before every edge of s and before e also sorts
      before every edge of the list after inserting e. */
  lemma {:induction false} InsertBelow(ctx: Context, b: Edge, e: Edge, s: seq<Edge>)
    requires ctx.WellFormed() && ctx.HasEdge(b) && ctx.HasEdge(e) && Within(|ctx.profiles|, s)
    requires Less(ctx, b, e)
    requires forall j :: 0 <= j < |s| ==> Less(ctx, b, s[j])
    ensures forall j :: 0 <= j < |Insert(ctx, e, s)| ==> Less(ctx, b, Insert(ctx, e, s)[j])
  {
    if s != [] && Less(ctx, s[0], e) {
      InsertBelow(ctx, b, e, s[1..]);
      var r := Insert(ctx, e, s);
      forall j | 0 <= j < |r|
        ensures Less(ctx, b, r[j])
      {
        if j > 0 {
          assert r[j] == Insert(ctx, e, s[1..])[j - 1];
        }
      }
    }
  }

  /** Putting in front of a sorted list an edge that sorts before all of
      it keeps the list sorted. */
  lemma PrependSorted(ctx: Context, b: Edge, s: seq<Edge>)
    requires ctx.WellFormed() && ctx.HasEdge(b) && Within(|ctx.profiles|, s) && Sorted(ctx, s)
    requires forall j :: 0 <= j < |s| ==> Less(ctx, b, s[j])
    ensures Within(|ctx.profiles|, [b] + s) && Sorted(ctx, [b] + s)
  {
    var r := [b] + s;
    forall i, j | 0 <= i < j < |r|
      ensures Less(ctx, r[i], r[j])
    {
      assert r[j] == s[j - 1];
      if i > 0 {
        assert r[i] == s[i - 1];
      }
    }
  }

  /** Inserting an edge of a pair not yet in a sorted list keeps it sorted. */
  lemma {:induction false} InsertSorted(ctx: Context, e: Edge, s: seq<Edge>)
    requires ctx.WellFormed() && ctx.HasEdge(e) && Within(|ctx.profiles|, s) && ctx.maxlen >= 1
    requires Sorted(ctx, s)
    requires forall i :: 0 <= i < |s| ==> !SamePair(e, s[i])
    ensures Sorted(ctx, Insert(ctx, e, s))
  {
    if s == [] {
    } else if Less(ctx, s[0], e) {
      SortedTail(ctx, s);
      InsertSorted(ctx, e, s[1..]);
      forall j | 0 <= j < |s[1..]|
        ensures Less(ctx, s[0], s[1..][j])
      {
        assert s[1..][j] == s[j + 1];
      }
      InsertBelow(ctx, s[0], e, s[1..]);
      PrependSorted(ctx, s[0], Insert(ctx, e, s[1..]));
    } else {
      LessTotal(ctx, e, s[0]);
      forall j | 0 <= j < |s|
        ensures Less(ctx, e, s[j])
      {
        if j > 0 {
          LessTransitive(ctx, e, s[0], s[j]);
        }
      }
      PrependSorted(ctx, e, s);
    }
  }

  /** Sorting edges of pairwise different pairs yields a strictly ordered list. */
  lemma {:induction false} SortEdgesSorted(ctx: Context, s: seq<Edge>)
    requires ctx.WellFormed() && Within(|ctx.profiles|, s) && ctx.maxlen >= 1
    requires DistinctPairs(s)
    ensures Sorted(ctx, SortEdges(ctx, s))
  {
    if s != [] {
      var rest := SortEdges(ctx, s[1..]);
      SortEdgesSorted(ctx, s[1..]);
      forall i | 0 <= i < |rest|
        ensures !SamePair(s[0], rest[i])
      {
        assert rest[i] in multiset(rest);
        var m := PositionOf(rest[i], s[1..]);
        assert s[m + 1] == rest[i];
      }
      InsertSorted(ctx, s[0], rest);
    }
  }

  /** In a sorted list no edge is heavier than a later one. */
  lemma SortedByWeight(ctx: Context, s: seq<Edge>, i: nat, j: nat)
    requires ctx.WellFormed() && Within(|ctx.profiles|, s) && Sorted(ctx, s)
    requires i < j < |s|
    ensures Weight(ctx, s[i]) <= Weight(ctx, s[j])
  {
    assert Less(ctx, s[i], s[j]);
  }

  lemma SortedTail(ctx: Context, s: seq<Edge>)
    requires ctx.WellFormed() && Within(|ctx.profiles|, s) && s != []
    requires Sorted(ctx, s)
    ensures Within(|ctx.profiles|, s[1..]) && Sorted(ctx, s[1..])
  {
    forall i, j | 0 <= i < j < |s| - 1
      ensures Less(ctx, s[1..][i], s[1..][j])
    {
      assert s[1..][i] == s[i + 1] && s[1..][j] == s[j + 1];
    }
  }

  /** An edge counted in the multiset of s occurs at some position of s. */
  lemma PositionOf(x: Edge, s: seq<Edge>) returns (k: nat)
    requires x in multiset(s)
    ensures k < |s| && s[k] == x
  {
    k :| 0 <= k < |s| && s[k] == x;
  }

  /** Two sorted lists with the same edges start with the same edge. */
  lemma SortedHeadsAgree(ctx: Context, s1: seq<Edge>, s2: seq<Edge>)
    requires ctx.WellFormed() && Within(|ctx.profiles|, s1) && Within(|ctx.profiles|, s2)
    requires Sorted(ctx, s1) && Sorted(ctx, s2)
    requires multiset(s1) == multiset(s2) && s1 != []
    ensures s2 != [] && s1[0] == s2[0]
  {
    assert s1[0] in multiset(s1);
    var k := PositionOf(s1[0], s2);
    assert s2[0] in multiset(s2);
    var m := PositionOf(s2[0], s1);
    if s1[0] != s2[0] {
      assert Less(ctx, s2[0], s2[k]) && Less(ctx, s1[0], s1[m]);
      LessAsymmetric(ctx, s2[0], s1[0]);
      assert false;
    }
  }

  /** A strictly sorted permutation is unique: any sort ordered by the
      comparator yields the list SortEdges yields. */
  lemma {:induction false} SortedUnique(ctx: Context, s1: seq<Edge>, s2: seq<Edge>)
    requires ctx.WellFormed() && Within(|ctx.profiles|, s1) && Within(|ctx.profiles|, s2)
    requires Sorted(ctx, s1) && Sorted(ctx, s2)
    requires multiset(s1) == multiset(s2)
    ensures s1 == s2
  {
    if s1 == [] {
      assert |s2| == |multiset(s2)| == 0;
    } else {
      SortedHeadsAgree(ctx, s1, s2);
      assert s1 == [s1[0]] + s1[1..] && s2 == [s2[0]] + s2[1..];
      assert multiset(s1[1..]) == multiset(s1) - multiset{s1[0]};
      assert multiset(s2[1..]) == multiset(s2) - multiset{s2[0]};
      SortedTail(ctx, s1);
      SortedTail(ctx, s2);
      SortedUnique(ctx, s1[1..], s2[1..]);
    }
  }
}
