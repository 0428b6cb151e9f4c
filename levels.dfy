/** The per-profile level histogram (CalcLVs): for every profile, how many
    other profiles lie at each distance level. */
module Levels {
  import opened Distance

  /** A Python list index x is valid for a list of length len when it lies
      in [-len, len); a negative index counts from the end. */
  predicate PyIndexOk(x: int, len: nat)
  {
    -(len as int) <= x < len
  }

  /** The list position that a valid Python index x designates. */
  function PyIndex(x: int, len: nat): (r: nat)
    requires PyIndexOk(x, len)
    ensures r < len
    ensures x >= 0 ==> r == x
    ensures x < 0 ==> r == x + len
  {
    if x < 0 then x + len else x
  }

  /** Every pair i < j has a distance whose `diff - 1` is a valid index into
      a row of length maxlen (otherwise the histogram update raises
      IndexError). A distance of 0 passes as index -1, the last bucket. */
  predicate BucketsInRange(profiles: seq<Profile>, maxlen: nat)
  {
    forall i, j {:trigger HammVect(profiles[i], profiles[j])} :: 0 <= i < j < |profiles| ==> PyIndexOk(HammVect(profiles[i], profiles[j]) - 1, maxlen)
  }

  /** The bucket that the pair {a, b} increments in both endpoint rows; the
      distance is computed with the smaller index first, as the loop does. */
  function PairBucket(profiles: seq<Profile>, maxlen: nat, a: nat, b: nat): (k: nat)
    requires a < |profiles| && b < |profiles| && a != b
    requires BucketsInRange(profiles, maxlen)
    ensures k < maxlen
  {
    var i, j := if a < b then a else b, if a < b then b else a;
    PyIndex(HammVect(profiles[i], profiles[j]) - 1, maxlen)
  }

  /** Number of profiles b < n other than a whose pair with a falls in bucket k. */
  function LevelCount(profiles: seq<Profile>, maxlen: nat, a: nat, k: nat, n: nat): nat
    requires a < |profiles| && n <= |profiles|
    requires BucketsInRange(profiles, maxlen)
  {
    if n == 0 then 0
    else LevelCount(profiles, maxlen, a, k, n - 1)
         + (if n - 1 != a && PairBucket(profiles, maxlen, a, n - 1) == k then 1 else 0)
  }

  /** Row a of the histogram after the partners below n have been counted. */
  function LevelRow(profiles: seq<Profile>, maxlen: nat, a: nat, n: nat): (row: seq<nat>)
    requires a < |profiles| && n <= |profiles|
    requires BucketsInRange(profiles, maxlen)
    ensures |row| == maxlen
  {
    seq(maxlen, k requires 0 <= k < maxlen => LevelCount(profiles, maxlen, a, k, n))
  }

  function Sum(s: seq<nat>): nat
  {
    if s == [] then 0 else s[0] + Sum(s[1..])
  }

  lemma {:induction false} SumIncrement(s: seq<nat>, b: nat)
    requires b < |s|
    ensures Sum(s[b := s[b] + 1]) == Sum(s) + 1
  {
    if b > 0 {
      assert s[b := s[b] + 1][1..] == s[1..][b - 1 := s[1..][b - 1] + 1];
      SumIncrement(s[1..], b - 1);
    } else {
      assert s[b := s[b] + 1][1..] == s[1..];
    }
  }

  /** Each partner counted so far adds exactly one to the row. */
  lemma {:induction false} LevelRowSumUpTo(profiles: seq<Profile>, maxlen: nat, a: nat, n: nat)
    requires a < |profiles| && n <= |profiles|
    requires BucketsInRange(profiles, maxlen)
    ensures Sum(LevelRow(profiles, maxlen, a, n)) == if a < n then n - 1 else n
  {
    if n == 0 {
      if maxlen > 0 {
        ZeroRowSum(LevelRow(profiles, maxlen, a, 0));
      }
    } else {
      LevelRowSumUpTo(profiles, maxlen, a, n - 1);
      var prev := LevelRow(profiles, maxlen, a, n - 1);
      if n - 1 != a {
        var b := PairBucket(profiles, maxlen, a, n - 1);
        assert LevelRow(profiles, maxlen, a, n) == prev[b := prev[b] + 1];
        SumIncrement(prev, b);
      } else {
        assert LevelRow(profiles, maxlen, a, n) == prev;
      }
    }
  }

  lemma {:induction false} ZeroRowSum(s: seq<nat>)
    requires forall k :: 0 <= k < |s| ==> s[k] == 0
    ensures Sum(s) == 0
  {
    if s != [] {
      ZeroRowSum(s[1..]);
    }
  }

  /** Every row of the finished histogram sums to the number of other profiles. */
  lemma LevelRowSum(profiles: seq<Profile>, maxlen: nat, a: nat)
    requires a < |profiles|
    requires BucketsInRange(profiles, maxlen)
    ensures Sum(LevelRow(profiles, maxlen, a, |profiles|)) == |profiles| - 1
  {
    LevelRowSumUpTo(profiles, maxlen, a, |profiles|);
  }

  /** The bucket of a pair is its distance minus one, except that a distance
      of 0 lands in the last bucket (Python index -1). */
  lemma PairBucketIsDistanceLevel(profiles: seq<Profile>, maxlen: nat, a: nat, b: nat)
    requires a < |profiles| && b < |profiles| && a != b
    requires BucketsInRange(profiles, maxlen)
    ensures var d := HammVect(profiles[a], profiles[b]);
            PairBucket(profiles, maxlen, a, b) == if d == 0 then maxlen - 1 else d - 1
  {
    HammVectSymmetric(profiles[a], profiles[b]);
  }

  /** The profiles other than a, below n, at distance d from a. */
  ghost function AtDistance(profiles: seq<Profile>, a: nat, d: nat, n: nat): set<nat>
    requires a < |profiles| && n <= |profiles|
  {
    set b | 0 <= b < n && b != a && HammVect(profiles[a], profiles[b]) == d
  }

  /** Number of profiles b < n other than a at distance d from a, counted one by one. */
  ghost function DistanceCount(profiles: seq<Profile>, a: nat, d: nat, n: nat): nat
    requires a < |profiles| && n <= |profiles|
  {
    if n == 0 then 0
    else DistanceCount(profiles, a, d, n - 1)
         + (if n - 1 != a && HammVect(profiles[a], profiles[n - 1]) == d then 1 else 0)
  }

  /** Extending the range by profile n - 1 adds it to the set exactly when
      it is not a and lies at distance d. */
  lemma AtDistanceStep(profiles: seq<Profile>, a: nat, d: nat, n: nat)
    requires a < |profiles| && 0 < n <= |profiles|
    ensures |AtDistance(profiles, a, d, n)| ==
              |AtDistance(profiles, a, d, n - 1)|
              + (if n - 1 != a && HammVect(profiles[a], profiles[n - 1]) == d then 1 else 0)
  {
    var b := n - 1;
    if b != a && HammVect(profiles[a], profiles[b]) == d {
      assert AtDistance(profiles, a, d, n) == AtDistance(profiles, a, d, n - 1) + {b};
    } else {
      assert AtDistance(profiles, a, d, n) == AtDistance(profiles, a, d, n - 1);
    }
  }

  lemma {:induction false} DistanceCountIsSize(profiles: seq<Profile>, a: nat, d: nat, n: nat)
    requires a < |profiles| && n <= |profiles|
    ensures DistanceCount(profiles, a, d, n) == |AtDistance(profiles, a, d, n)|
  {
    if n == 0 {
      assert AtDistance(profiles, a, d, n) == {};
    } else {
      DistanceCountIsSize(profiles, a, d, n - 1);
      AtDistanceStep(profiles, a, d, n);
    }
  }

  lemma PairBucketIsLevel(profiles: seq<Profile>, maxlen: nat, a: nat, b: nat)
    requires a < |profiles| && b < |profiles| && a != b
    requires BucketsInRange(profiles, maxlen)
    requires forall i, j {:trigger HammVect(profiles[i], profiles[j])} :: 0 <= i < j < |profiles| ==> HammVect(profiles[i], profiles[j]) >= 1
    ensures var d := HammVect(profiles[a], profiles[b]);
            d >= 1 && PairBucket(profiles, maxlen, a, b) == d - 1
  {
    HammVectSymmetric(profiles[a], profiles[b]);
  }

  lemma {:induction false} LevelCountIsDistanceCount(profiles: seq<Profile>, maxlen: nat, a: nat, k: nat, n: nat)
    requires a < |profiles| && n <= |profiles| && k < maxlen
    requires BucketsInRange(profiles, maxlen)
    requires forall i, j {:trigger HammVect(profiles[i], profiles[j])} :: 0 <= i < j < |profiles| ==> HammVect(profiles[i], profiles[j]) >= 1
    ensures LevelCount(profiles, maxlen, a, k, n) == DistanceCount(profiles, a, k + 1, n)
  {
    if n > 0 {
      LevelCountIsDistanceCount(profiles, maxlen, a, k, n - 1);
      var b := n - 1;
      if b != a {
        PairBucketIsLevel(profiles, maxlen, a, b);
        assert (PairBucket(profiles, maxlen, a, b) == k) == (HammVect(profiles[a], profiles[b]) == k + 1);
      }
      assert LevelCount(profiles, maxlen, a, k, n) == LevelCount(profiles, maxlen, a, k, b)
         + (if b != a && PairBucket(profiles, maxlen, a, b) == k then 1 else 0);
      assert DistanceCount(profiles, a, k + 1, n) == DistanceCount(profiles, a, k + 1, b)
         + (if b != a && HammVect(profiles[a], profiles[b]) == k + 1 then 1 else 0);
    }
  }

  /** When no two profiles are at distance 0, entry k of row a counts the
      other profiles at distance exactly k + 1 from profile a. */
  lemma LevelCountsProfilesAtDistance(profiles: seq<Profile>, maxlen: nat, a: nat, k: nat)
    requires a < |profiles| && k < maxlen
    requires BucketsInRange(profiles, maxlen)
    requires forall i, j {:trigger HammVect(profiles[i], profiles[j])} :: 0 <= i < j < |profiles| ==> HammVect(profiles[i], profiles[j]) >= 1
    ensures LevelCount(profiles, maxlen, a, k, |profiles|) == |AtDistance(profiles, a, k + 1, |profiles|)|
  {
    LevelCountIsDistanceCount(profiles, maxlen, a, k, |profiles|);
    DistanceCountIsSize(profiles, a, k + 1, |profiles|);
  }

  /** How many leading partners of profile a the loop over pairs (i, j) has
      counted when it is about to process pair (i, j). */
  function Counted(a: nat, i: nat, j: nat, nprof: nat): nat
  {
    if a < i then nprof
    else if a == i then j
    else if a < j then i + 1
    else i
  }

  /** The histogram holds, in every row a, the partners counted so far. */
  ghost predicate HoldsCounts(profiles: seq<Profile>, maxlen: nat, lvs: seq<seq<nat>>, i: nat, j: nat)
    requires BucketsInRange(profiles, maxlen)
    requires i < |profiles| && j <= |profiles|
  {
    && |lvs| == |profiles|
    && (forall a :: 0 <= a < |lvs| ==> |lvs[a]| == maxlen)
    && (forall a :: 0 <= a < |lvs| ==> Counted(a, i, j, |profiles|) <= |profiles|)
    && (forall a, k :: 0 <= a < |lvs| && 0 <= k < maxlen ==>
          lvs[a][k] == LevelCount(profiles, maxlen, a, k, Counted(a, i, j, |profiles|)))
  }

  /** Adds one to bucket b of row a, as `lvs[a][b] += 1` does. */
  function Bump(lvs: seq<seq<nat>>, a: nat, b: nat): seq<seq<nat>>
    requires a < |lvs| && b < |lvs[a]|
  {
    lvs[a := lvs[a][b := lvs[a][b] + 1]]
  }

  /** Processing pair (i, j) adds one to bucket b of rows i and j, and that
      counts partner j of i and partner i of j. */
  lemma PairStep(profiles: seq<Profile>, maxlen: nat, lvs: seq<seq<nat>>, i: nat, j: nat, b: nat)
    requires BucketsInRange(profiles, maxlen)
    requires i < j < |profiles|
    requires HoldsCounts(profiles, maxlen, lvs, i, j)
    requires b == PyIndex(HammVect(profiles[i], profiles[j]) - 1, maxlen)
    ensures HoldsCounts(profiles, maxlen, Bump(Bump(lvs, i, b), j, b), i, j + 1)
  {
    var lvs' := Bump(Bump(lvs, i, b), j, b);
    forall a, k | 0 <= a < |lvs'| && 0 <= k < maxlen
      ensures lvs'[a][k] == LevelCount(profiles, maxlen, a, k, Counted(a, i, j + 1, |profiles|))
    {
      if a == i {
        assert PairBucket(profiles, maxlen, i, j) == b;
      } else if a == j {
        assert PairBucket(profiles, maxlen, j, i) == b;
        assert Counted(a, i, j + 1, |profiles|) == i + 1;
      } else {
        assert lvs'[a] == lvs[a];
        assert Counted(a, i, j + 1, |profiles|) == Counted(a, i, j, |profiles|);
      }
    }
  }

  /** Before row i is processed, rows below i are complete and every other
      row has counted its partners below i. */
  ghost predicate RowsDone(profiles: seq<Profile>, maxlen: nat, lvs: seq<seq<nat>>, i: nat)
    requires BucketsInRange(profiles, maxlen)
    requires i <= |profiles|
  {
    && |lvs| == |profiles|
    && (forall a :: 0 <= a < |lvs| ==> |lvs[a]| == maxlen)
    && (forall a, k :: 0 <= a < |lvs| && 0 <= k < maxlen ==>
          lvs[a][k] == LevelCount(profiles, maxlen, a, k, if a < i then |profiles| else i))
  }

  lemma StartRow(profiles: seq<Profile>, maxlen: nat, lvs: seq<seq<nat>>, i: nat)
    requires BucketsInRange(profiles, maxlen)
    requires i < |profiles|
    requires RowsDone(profiles, maxlen, lvs, i)
    ensures HoldsCounts(profiles, maxlen, lvs, i, i + 1)
  {
    forall k | 0 <= k < maxlen
      ensures LevelCount(profiles, maxlen, i, k, i + 1) == LevelCount(profiles, maxlen, i, k, i)
    {
    }
  }

  lemma FinishRow(profiles: seq<Profile>, maxlen: nat, lvs: seq<seq<nat>>, i: nat)
    requires BucketsInRange(profiles, maxlen)
    requires i < |profiles|
    requires HoldsCounts(profiles, maxlen, lvs, i, |profiles|)
    ensures RowsDone(profiles, maxlen, lvs, i + 1)
  {
    forall a | 0 <= a < |profiles|
      ensures (if a < i + 1 then |profiles| else i + 1) == Counted(a, i, |profiles|, |profiles|)
    {
    }
  }

  /** The finished histogram: row a holds, per bucket, the number of
      partners of profile a counted in that bucket. */
  function Histogram(profiles: seq<Profile>, maxlen: nat): (lvs: seq<seq<nat>>)
    requires BucketsInRange(profiles, maxlen)
    ensures |lvs| == |profiles|
  {
    seq(|profiles|, a requires 0 <= a < |profiles| => LevelRow(profiles, maxlen, a, |profiles|))
  }

  /** The all-zero histogram of n rows of length maxlen. */
  function Zeros(n: nat, maxlen: nat): (lvs: seq<seq<nat>>)
    ensures |lvs| == n && forall a :: 0 <= a < n ==> |lvs[a]| == maxlen
  {
    seq(n, _ => seq(maxlen, _ => 0))
  }

  lemma NothingCounted(profiles: seq<Profile>, maxlen: nat)
    requires BucketsInRange(profiles, maxlen)
    ensures RowsDone(profiles, maxlen, Zeros(|profiles|, maxlen), 0)
  {
  }

  /** Once every row is processed, each row is the full row of counts and
      sums to the number of other profiles. */
  lemma AllRowsDone(profiles: seq<Profile>, maxlen: nat, lvs: seq<seq<nat>>)
    requires BucketsInRange(profiles, maxlen)
    requires RowsDone(profiles, maxlen, lvs, |profiles|)
    ensures forall a :: 0 <= a < |lvs| ==> lvs[a] == LevelRow(profiles, maxlen, a, |profiles|)
    ensures forall a :: 0 <= a < |lvs| ==> Sum(lvs[a]) == |profiles| - 1
    ensures lvs == Histogram(profiles, maxlen)
  {
    forall a | 0 <= a < |lvs|
      ensures lvs[a] == LevelRow(profiles, maxlen, a, |profiles|)
      ensures Sum(lvs[a]) == |profiles| - 1
    {
      LevelRowSum(profiles, maxlen, a);
    }
  }

  /** One pass of the outer loop of CalcLVs: adds every pair (i, j) with
      j > i to the histogram, which completes row i. */
  method CountPartners(profiles: seq<Profile>, maxlen: nat, lvs0: seq<seq<nat>>, i: nat)
    returns (lvs: seq<seq<nat>>)
    requires BucketsInRange(profiles, maxlen)
    requires i < |profiles|
    requires RowsDone(profiles, maxlen, lvs0, i)
    ensures RowsDone(profiles, maxlen, lvs, i + 1)
  {
    lvs := lvs0;
    var nprof := |profiles|;
    StartRow(profiles, maxlen, lvs, i);
    for j := i + 1 to nprof
      invariant HoldsCounts(profiles, maxlen, lvs, i, j)
    {
      var diff: int := HammVect(profiles[i], profiles[j]);
      var b := PyIndex(diff - 1, maxlen);
      PairStep(profiles, maxlen, lvs, i, j, b);
      lvs := Bump(lvs, i, b);
      lvs := Bump(lvs, j, b);
    }
    FinishRow(profiles, maxlen, lvs, i);
  }

  /** Builds the nprof x maxlen histogram, maxlen being the length of the
      second profile: for every pair i < j, one is added to the pair's bucket
      in row i and in row j. */
  method CalcLVs(profiles: seq<Profile>) returns (lvs: seq<seq<nat>>, maxlen: nat)
    requires |profiles| >= 2
    requires BucketsInRange(profiles, |profiles[1]|)
    ensures maxlen == |profiles[1]|
    ensures |lvs| == |profiles|
    ensures forall a :: 0 <= a < |lvs| ==> lvs[a] == LevelRow(profiles, maxlen, a, |profiles|)
    ensures forall a :: 0 <= a < |lvs| ==> Sum(lvs[a]) == |profiles| - 1
    ensures lvs == Histogram(profiles, maxlen)
  {
    maxlen := |profiles[1]|;
    var nprof := |profiles|;
    lvs := Zeros(nprof, maxlen);
    NothingCounted(profiles, maxlen);
    for i := 0 to nprof
      invariant RowsDone(profiles, maxlen, lvs, i)
    {
      lvs := CountPartners(profiles, maxlen, lvs, i);
    }
    AllRowsDone(profiles, maxlen, lvs);
  }
}
