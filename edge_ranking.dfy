/** The goeBURST edge comparator (EdgeComp) and the strict order it induces. */
module Ranking {
  import opened Distance

  datatype Option<T> = None | Some(value: T)

  /** A candidate tree edge: the pair [u, v] of profile indices. */
  datatype Edge = Edge(u: nat, v: nat)

  /** What the comparator reads: the profiles, the level histogram and its
      row length. */
  datatype Context = Context(profiles: seq<Profile>, lvs: seq<seq<nat>>, maxlen: nat)
  {
    /** One histogram row of length maxlen per profile. */
    predicate WellFormed()
    {
      && |lvs| == |profiles|
      && forall a :: 0 <= a < |lvs| ==> |lvs[a]| == maxlen
    }

    /** Both endpoints name profiles. */
    predicate HasEdge(e: Edge)
    {
      e.u < |profiles| && e.v < |profiles|
    }
  }

  function Max(a: nat, b: nat): nat
  {
    if a < b then b else a
  }

  function Min(a: nat, b: nat): nat
  {
    if a < b then a else b
  }

  /** The distance between the endpoints of an edge: the edge's weight. */
  function Weight(ctx: Context, e: Edge): nat
    requires ctx.HasEdge(e)
  {
    HammVect(ctx.profiles[e.u], ctx.profiles[e.v])
  }

  /** Two edges join the same two profiles. */
  predicate SamePair(e1: Edge, e2: Edge)
  {
    Max(e1.u, e1.v) == Max(e2.u, e2.v) && Min(e1.u, e1.v) == Min(e2.u, e2.v)
  }

  /** Three-way comparison of two edges: negative when e1 sorts first,
      positive when e2 does, None when no criterion separates them. The
      lighter edge sorts first; on equal weights the levels k are tried in
      turn. */
  function EdgeComp(ctx: Context, e1: Edge, e2: Edge): (r: Option<int>)
    requires ctx.WellFormed() && ctx.HasEdge(e1) && ctx.HasEdge(e2)
    ensures r.Some? ==> r.value != 0
    ensures Weight(ctx, e1) < Weight(ctx, e2) ==> r.Some? && r.value < 0
    ensures Weight(ctx, e1) > Weight(ctx, e2) ==> r.Some? && r.value > 0
  {
    var leveluv := HammVect(ctx.profiles[e1.u], ctx.profiles[e1.v]);
    var levelxy := HammVect(ctx.profiles[e2.u], ctx.profiles[e2.v]);
    if leveluv != levelxy then Some(leveluv - levelxy)
    else LevelComp(ctx, e1, e2, 0)
  }

  /** The tie-break from level k on: at each level the larger maximum count
      of the endpoints sorts first, then the larger minimum count, then the
      larger maximum endpoint index, then the larger minimum endpoint index. */
  function LevelComp(ctx: Context, e1: Edge, e2: Edge, k: nat): (r: Option<int>)
    requires ctx.WellFormed() && ctx.HasEdge(e1) && ctx.HasEdge(e2)
    requires k <= ctx.maxlen
    ensures r.Some? ==> r.value != 0
    decreases ctx.maxlen - k
  {
    if k == ctx.maxlen then None
    else
      var lvs := ctx.lvs;
      var (u, v, x, y) := (e1.u, e1.v, e2.u, e2.v);
      var maxuv := Max(lvs[u][k], lvs[v][k]);
      var maxxy := Max(lvs[x][k], lvs[y][k]);
      if maxuv != maxxy then Some(maxxy - maxuv)
      else
        var minuv := Min(lvs[u][k], lvs[v][k]);
        var minxy := Min(lvs[x][k], lvs[y][k]);
        if minuv != minxy then Some(minxy - minuv)
        else if Max(u, v) != Max(x, y) then Some(Max(x, y) - Max(u, v))
        else if Min(u, v) != Min(x, y) then Some(Min(x, y) - Min(u, v))
        else LevelComp(ctx, e1, e2, k + 1)
  }

  function Negate(r: Option<int>): Option<int>
  {
    if r.Some? then Some(-r.value) else None
  }

  lemma {:induction false} LevelCompAntisymmetric(ctx: Context, e1: Edge, e2: Edge, k: nat)
    requires ctx.WellFormed() && ctx.HasEdge(e1) && ctx.HasEdge(e2)
    requires k <= ctx.maxlen
    ensures LevelComp(ctx, e2, e1, k) == Negate(LevelComp(ctx, e1, e2, k))
    decreases ctx.maxlen - k
  {
    if k < ctx.maxlen {
      LevelCompAntisymmetric(ctx, e1, e2, k + 1);
    }
  }

  /** Swapping the arguments negates the comparison. */
  lemma EdgeCompAntisymmetric(ctx: Context, e1: Edge, e2: Edge)
    requires ctx.WellFormed() && ctx.HasEdge(e1) && ctx.HasEdge(e2)
    ensures EdgeComp(ctx, e2, e1) == Negate(EdgeComp(ctx, e1, e2))
  {
    LevelCompAntisymmetric(ctx, e1, e2, 0);
  }

  lemma {:induction false} LevelCompSamePair(ctx: Context, e1: Edge, e2: Edge, k: nat)
    requires ctx.WellFormed() && ctx.HasEdge(e1) && ctx.HasEdge(e2)
    requires k <= ctx.maxlen
    requires SamePair(e1, e2)
    ensures LevelComp(ctx, e1, e2, k) == None
    decreases ctx.maxlen - k
  {
    if k < ctx.maxlen {
      LevelCompSamePair(ctx, e1, e2, k + 1);
    }
  }

  /** What decides the comparison of two edges of different pairs: the
      weight, then the level-0 counts and the endpoint indices. */
  datatype Rank = Rank(weight: nat, maxLevel: nat, minLevel: nat, maxEnd: nat, minEnd: nat)

  function RankOf(ctx: Context, e: Edge): Rank
    requires ctx.WellFormed() && ctx.HasEdge(e) && ctx.maxlen >= 1
  {
    var lvs := ctx.lvs;
    Rank(Weight(ctx, e), Max(lvs[e.u][0], lvs[e.v][0]), Min(lvs[e.u][0], lvs[e.v][0]),
         Max(e.u, e.v), Min(e.u, e.v))
  }

  /** Lexicographic order on ranks: smaller weight first, then larger
      maximum count, larger minimum count, larger maximum endpoint, larger
      minimum endpoint. */
  predicate Precedes(r1: Rank, r2: Rank)
  {
    || r1.weight < r2.weight
    || (r1.weight == r2.weight && r1.maxLevel > r2.maxLevel)
    || (r1.weight == r2.weight && r1.maxLevel == r2.maxLevel && r1.minLevel > r2.minLevel)
    || (r1.weight == r2.weight && r1.maxLevel == r2.maxLevel && r1.minLevel == r2.minLevel
        && r1.maxEnd > r2.maxEnd)
    || (r1.weight == r2.weight && r1.maxLevel == r2.maxLevel && r1.minLevel == r2.minLevel
        && r1.maxEnd == r2.maxEnd && r1.minEnd > r2.minEnd)
  }

  lemma PrecedesIsStrictTotalOrder(r1: Rank, r2: Rank, r3: Rank)
    ensures !Precedes(r1, r1)
    ensures Precedes(r1, r2) && Precedes(r2, r3) ==> Precedes(r1, r3)
    ensures r1 != r2 ==> Precedes(r1, r2) || Precedes(r2, r1)
  {
  }

  /** With at least one level, two edges of different pairs are always
      separated at level 0, in the order of their ranks; only edges of the
      same pair run out of levels. */
  lemma EdgeCompDecidedAtLevelZero(ctx: Context, e1: Edge, e2: Edge)
    requires ctx.WellFormed() && ctx.HasEdge(e1) && ctx.HasEdge(e2) && ctx.maxlen >= 1
    ensures EdgeComp(ctx, e1, e2).None? <==> SamePair(e1, e2)
    ensures (EdgeComp(ctx, e1, e2).Some? && EdgeComp(ctx, e1, e2).value < 0)
            <==> Precedes(RankOf(ctx, e1), RankOf(ctx, e2))
  {
    if SamePair(e1, e2) {
      HammVectSymmetric(ctx.profiles[e1.u], ctx.profiles[e1.v]);
      LevelCompSamePair(ctx, e1, e2, 0);
    }
  }

  /** e1 sorts strictly before e2. */
  predicate Less(ctx: Context, e1: Edge, e2: Edge)
    requires ctx.WellFormed() && ctx.HasEdge(e1) && ctx.HasEdge(e2)
  {
    var r := EdgeComp(ctx, e1, e2);
    r.Some? && r.value < 0
  }

  lemma LessIrreflexive(ctx: Context, e: Edge)
    requires ctx.WellFormed() && ctx.HasEdge(e)
    ensures !Less(ctx, e, e)
  {
    LevelCompSamePair(ctx, e, e, 0);
  }

  lemma LessAsymmetric(ctx: Context, e1: Edge, e2: Edge)
    requires ctx.WellFormed() && ctx.HasEdge(e1) && ctx.HasEdge(e2)
    ensures Less(ctx, e1, e2) ==> !Less(ctx, e2, e1)
  {
    EdgeCompAntisymmetric(ctx, e1, e2);
  }

  lemma LessTransitive(ctx: Context, e1: Edge, e2: Edge, e3: Edge)
    requires ctx.WellFormed() && ctx.HasEdge(e1) && ctx.HasEdge(e2) && ctx.HasEdge(e3)
    requires Less(ctx, e1, e2) && Less(ctx, e2, e3)
    ensures Less(ctx, e1, e3)
  {
    if ctx.maxlen == 0 {
      // Without levels only the weight separates edges.
      assert Weight(ctx, e1) < Weight(ctx, e2) < Weight(ctx, e3);
    } else {
      EdgeCompDecidedAtLevelZero(ctx, e1, e2);
      EdgeCompDecidedAtLevelZero(ctx, e2, e3);
      EdgeCompDecidedAtLevelZero(ctx, e1, e3);
      PrecedesIsStrictTotalOrder(RankOf(ctx, e1), RankOf(ctx, e2), RankOf(ctx, e3));
    }
  }

  /** With at least one level, any two edges of different pairs are ordered
      one way or the other. */
  lemma LessTotal(ctx: Context, e1: Edge, e2: Edge)
    requires ctx.WellFormed() && ctx.HasEdge(e1) && ctx.HasEdge(e2) && ctx.maxlen >= 1
    requires !SamePair(e1, e2)
    ensures Less(ctx, e1, e2) || Less(ctx, e2, e1)
  {
    EdgeCompDecidedAtLevelZero(ctx, e1, e2);
    EdgeCompAntisymmetric(ctx, e1, e2);
  }
}
