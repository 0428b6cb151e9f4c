/** Distance between two allelic profiles (HammVect). */
module Distance {

  /** One allele value as read from the input table. */
  type Allele = string

  /** An allelic profile: one allele per locus. */
  type Profile = seq<Allele>

  /** Length of the shorter of two profiles: the number of loci `zip` pairs up. */
  function Shorter<T>(v1: seq<T>, v2: seq<T>): nat
  {
    if |v1| <= |v2| then |v1| else |v2|
  }

  /** Number of loci at which the two profiles differ (for alleles of any
      type with equality; goeBURST applies it to Profile). The loci are paired
      position by position and the comparison stops at the end of the shorter
      profile; no allele value is treated as missing. */
  function HammVect<T(==)>(v1: seq<T>, v2: seq<T>): (d: nat)
    ensures d <= Shorter(v1, v2)
  {
    if v1 == [] || v2 == [] then 0
    else (if v1[0] != v2[0] then 1 else 0) + HammVect(v1[1..], v2[1..])
  }

  /** The loci below n at which the two profiles differ. */
  ghost function Mismatches<T>(v1: seq<T>, v2: seq<T>, n: nat): set<nat>
    requires n <= Shorter(v1, v2)
  {
    set i | 0 <= i < n && v1[i] != v2[i]
  }

  lemma {:induction false} HammVectSymmetric<T>(v1: seq<T>, v2: seq<T>)
    ensures HammVect(v1, v2) == HammVect(v2, v1)
  {
    if v1 != [] && v2 != [] {
      HammVectSymmetric(v1[1..], v2[1..]);
    }
  }

  lemma {:induction false} HammVectSelf<T>(v: seq<T>)
    ensures HammVect(v, v) == 0
  {
    if v != [] {
      HammVectSelf(v[1..]);
    }
  }

  /** The distance is zero exactly when the profiles agree on every locus
      they share. */
  lemma {:induction false} HammVectZeroIff<T>(v1: seq<T>, v2: seq<T>)
    ensures HammVect(v1, v2) == 0 <==> v1[..Shorter(v1, v2)] == v2[..Shorter(v1, v2)]
  {
    if v1 != [] && v2 != [] {
      var m := Shorter(v1, v2);
      HammVectZeroIff(v1[1..], v2[1..]);
      assert Shorter(v1[1..], v2[1..]) == m - 1;
      assert v1[..m] == [v1[0]] + v1[1..][..m - 1];
      assert v2[..m] == [v2[0]] + v2[1..][..m - 1];
      if v1[..m] == v2[..m] {
        assert v1[0] == v1[..m][0] == v2[..m][0] == v2[0];
        assert v1[1..][..m - 1] == v1[..m][1..] == v2[..m][1..] == v2[1..][..m - 1];
      }
    }
  }

  /** Appending one locus to two profiles of equal length adds one to the
      distance exactly when the appended alleles differ. */
  lemma {:induction false} HammVectSnoc<T>(a: seq<T>, b: seq<T>, x: T, y: T)
    requires |a| == |b|
    ensures HammVect(a + [x], b + [y]) == HammVect(a, b) + (if x != y then 1 else 0)
  {
    if a != [] {
      assert (a + [x])[1..] == a[1..] + [x];
      assert (b + [y])[1..] == b[1..] + [y];
      HammVectSnoc(a[1..], b[1..], x, y);
    }
  }

  /** Only the loci `zip` pairs up contribute to the distance. */
  lemma {:induction false} HammVectTruncate<T>(v1: seq<T>, v2: seq<T>)
    ensures HammVect(v1, v2) == HammVect(v1[..Shorter(v1, v2)], v2[..Shorter(v1, v2)])
  {
    var m := Shorter(v1, v2);
    if v1 != [] && v2 != [] {
      HammVectTruncate(v1[1..], v2[1..]);
      assert v1[..m][1..] == v1[1..][..m - 1];
      assert v2[..m][1..] == v2[1..][..m - 1];
    } else {
      assert v1[..m] == [] && v2[..m] == [];
    }
  }

  /** Extending the prefix by one locus adds that locus to the mismatches
      exactly when its alleles differ. */
  lemma MismatchesStep<T>(v1: seq<T>, v2: seq<T>, n: nat)
    requires 0 < n <= Shorter(v1, v2)
    ensures |Mismatches(v1, v2, n)| ==
              |Mismatches(v1, v2, n - 1)| + (if v1[n - 1] != v2[n - 1] then 1 else 0)
  {
    if v1[n - 1] != v2[n - 1] {
      assert Mismatches(v1, v2, n) == Mismatches(v1, v2, n - 1) + {n - 1};
    } else {
      assert Mismatches(v1, v2, n) == Mismatches(v1, v2, n - 1);
    }
  }

  lemma {:induction false} PrefixDistanceCountsMismatches<T>(v1: seq<T>, v2: seq<T>, n: nat)
    requires n <= Shorter(v1, v2)
    ensures HammVect(v1[..n], v2[..n]) == |Mismatches(v1, v2, n)|
  {
    if n == 0 {
      assert Mismatches(v1, v2, 0) == {};
    } else {
      PrefixDistanceCountsMismatches(v1, v2, n - 1);
      assert v1[..n] == v1[..n - 1] + [v1[n - 1]];
      assert v2[..n] == v2[..n - 1] + [v2[n - 1]];
      HammVectSnoc(v1[..n - 1], v2[..n - 1], v1[n - 1], v2[n - 1]);
      MismatchesStep(v1, v2, n);
    }
  }

  /** HammVect counts exactly the paired loci whose alleles differ. */
  lemma HammVectCountsMismatches<T>(v1: seq<T>, v2: seq<T>)
    ensures HammVect(v1, v2) == |Mismatches(v1, v2, Shorter(v1, v2))|
  {
    HammVectTruncate(v1, v2);
    PrefixDistanceCountsMismatches(v1, v2, Shorter(v1, v2));
  }

  /** On profiles of equal length the distance obeys the triangle inequality. */
  lemma {:induction false} HammVectTriangle<T>(a: seq<T>, b: seq<T>, c: seq<T>)
    requires |a| == |b| == |c|
    ensures HammVect(a, c) <= HammVect(a, b) + HammVect(b, c)
  {
    if a != [] {
      HammVectTriangle(a[1..], b[1..], c[1..]);
    }
  }
}
