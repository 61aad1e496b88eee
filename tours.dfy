/** Costs, distance matrices, partial paths and tours. */
module Tours {
  import opened Bitmask

  /** A table cost: np.inf, or a finite sum of distances. */
  datatype Ext = Inf | Fin(c: int)

  /** `cost + d`, where inf + d stays inf. */
  function Add(a: Ext, d: int): (r: Ext)
    ensures r.Fin? <==> a.Fin?
  {
    match a
    case Inf => Inf
    case Fin(c) => Fin(c + d)
  }

  /** `a < b` on costs: inf is smaller than nothing, every finite cost is smaller than inf. */
  predicate Less(a: Ext, b: Ext)
    ensures Less(a, b) ==> a.Fin? && a != b
    ensures a.Fin? && b.Inf? ==> Less(a, b)
  {
    match a
    case Inf => false
    case Fin(x) => b.Inf? || x < b.c
  }

  /** D is an n x n matrix; D[i][j] is the distance from city i to city j. */
  predicate IsMatrix(D: seq<seq<int>>)
  {
    forall i :: 0 <= i < |D| ==> |D[i]| == |D|
  }

  /** Every entry of p names one of the n cities. */
  ghost predicate InRange(n: nat, p: seq<int>)
  {
    forall i :: 0 <= i < |p| ==> 0 <= p[i] < n
  }

  /** No city occurs twice in p. */
  ghost predicate Distinct(p: seq<int>)
  {
    forall i, j :: 0 <= i < j < |p| ==> p[i] != p[j]
  }

  /** The sum of D[p[i]][p[i+1]] over consecutive entries of p. */
  ghost function PathCost(D: seq<seq<int>>, p: seq<int>): int
    requires IsMatrix(D) && InRange(|D|, p)
  {
    if |p| <= 1 then 0 else PathCost(D, p[..|p| - 1]) + D[p[|p| - 2]][p[|p| - 1]]
  }

  /** p starts at city 0, ends at city u, and visits each city of mask S
      exactly once and no other city. */
  ghost predicate IsPath(n: nat, p: seq<int>, S: nat, u: int)
  {
    && |p| >= 1
    && p[0] == 0
    && p[|p| - 1] == u
    && InRange(n, p)
    && Distinct(p)
    && S < Pow2(n)
    && forall c: nat :: c < n ==> (Bit(S, c) <==> c in p)
  }

  /** The one-city path [0] is a path over the seed mask 1. */
  lemma SeedIsPath(n: nat)
    requires n >= 1
    ensures IsPath(n, [0], 1, 0) && Count(1, n) == 1
  {
    forall c: nat | c < n
      ensures Bit(1, c) <==> c in [0]
    {
      OneBits(c);
    }
    CountOne(n);
  }

  /** Appending a city u of S to a path over S ^ (1 << u) gives a path over S. */
  lemma PathExtend(n: nat, q: seq<int>, S: nat, u: nat, w: int)
    requires u < n && S < Pow2(n) && Bit(S, u) && IsPath(n, q, FlipBit(S, u), w)
    ensures IsPath(n, q + [u], S, u)
  {
    var p := q + [u];
    FlipBitBits(S, u, u);
    forall c: nat | c < n
      ensures Bit(S, c) <==> c in p
    {
      FlipBitBits(S, u, c);
    }
    forall i, j | 0 <= i < j < |p|
      ensures p[i] != p[j]
    {
      if j == |q| {
        assert p[i] in q;
      }
    }
  }

  /** Dropping the last city u of a path over S leaves a path over
      S ^ (1 << u); u is not city 0. */
  lemma PathTruncate(n: nat, p: seq<int>, S: nat, u: nat)
    requires IsPath(n, p, S, u) && |p| >= 2
    ensures u != 0 && Bit(S, u) && IsPath(n, p[..|p| - 1], FlipBit(S, u), p[|p| - 2])
  {
    var q := p[..|p| - 1];
    assert p == q + [u];
    assert p[0] != p[|p| - 1];
    assert u in p;
    assert u !in q;
    FlipBitSmaller(S, u);
    forall c: nat | c < n
      ensures Bit(FlipBit(S, u), c) <==> c in q
    {
      FlipBitBits(S, u, c);
    }
  }

  /** The cost of a path grows by one edge when a city is appended. */
  lemma PathCostSnoc(D: seq<seq<int>>, q: seq<int>, u: int)
    requires IsMatrix(D) && InRange(|D|, q) && |q| >= 1 && 0 <= u < |D|
    ensures InRange(|D|, q + [u])
    ensures PathCost(D, q + [u]) == PathCost(D, q) + D[q[|q| - 1]][u]
  {
    var p := q + [u];
    forall i | 0 <= i < |p|
      ensures 0 <= p[i] < |D|
    {
      if i < |q| {
        assert p[i] == q[i];
      }
    }
    assert p[..|p| - 1] == q;
  }

  /** Appending u to a path over S ^ (1 << u) ending at w gives a path over S
      that costs one edge D[w][u] more. */
  lemma PathStep(D: seq<seq<int>>, q: seq<int>, S: nat, u: nat, w: int)
    requires IsMatrix(D) && u < |D| && S < Pow2(|D|) && Bit(S, u)
    requires IsPath(|D|, q, FlipBit(S, u), w)
    ensures 0 <= w < |D|
    ensures IsPath(|D|, q + [u], S, u)
    ensures PathCost(D, q + [u]) == PathCost(D, q) + D[w][u]
  {
    PathExtend(|D|, q, S, u, w);
    PathCostSnoc(D, q, u);
  }

  /** t starts and ends at city 0 and visits every one of the n cities
      exactly once in between. */
  ghost predicate IsTour(n: nat, t: seq<int>)
  {
    && |t| == n + 1
    && t[0] == 0
    && t[n] == 0
    && InRange(n, t)
    && Distinct(t[..n])
    && forall c: nat :: c < n ==> c in t[..n]
  }

  /** Between its two 0s a tour lists each of the cities 1 .. n-1 exactly
      once: t[1..n] is a permutation of 1 .. n-1. */
  lemma TourInterior(n: nat, t: seq<int>)
    requires n >= 1 && IsTour(n, t)
    ensures |t[1..n]| == n - 1 && Distinct(t[1..n])
    ensures forall i :: 1 <= i < n ==> 1 <= t[i] < n
    ensures forall c :: 1 <= c < n ==> c in t[1..n]
  {
    forall i | 1 <= i < n
      ensures 1 <= t[i]
    {
      assert t[..n][0] != t[..n][i];
    }
    forall c | 1 <= c < n
      ensures c in t[1..n]
    {
      assert c in t[..n];
      var k :| 0 <= k < n && t[k] == c;
      assert t[1..n][k - 1] == c;
    }
    forall i, j | 0 <= i < j < n - 1
      ensures t[1..n][i] != t[1..n][j]
    {
      assert t[..n][i + 1] != t[..n][j + 1];
    }
  }

  /** Dropping the closing 0 of a tour leaves a path over all cities. */
  lemma TourIsPath(n: nat, t: seq<int>)
    requires n >= 1 && IsTour(n, t)
    ensures IsPath(n, t[..n], FullMask(n), t[n - 1])
  {
    forall c: nat | c < n
      ensures Bit(FullMask(n), c)
    {
      FullMaskBits(n, c);
    }
  }

  /** A tour's cost is that of its path plus the edge back to city 0. */
  lemma TourCost(D: seq<seq<int>>, t: seq<int>)
    requires IsMatrix(D) && |D| >= 1 && IsTour(|D|, t)
    ensures PathCost(D, t) == PathCost(D, t[..|D|]) + D[t[|D| - 1]][0]
  {
    assert t[..|t| - 1] == t[..|D|];
  }

  /** A path over all n cities, closed with the edge back to 0, is a tour. */
  lemma PathCloses(D: seq<seq<int>>, p: seq<int>, u: int)
    requires IsMatrix(D) && |D| >= 1 && IsPath(|D|, p, FullMask(|D|), u) && |p| == |D|
    ensures IsTour(|D|, p + [0])
  {
    var n := |D|;
    var t := p + [0];
    assert t[..n] == p;
    PathCostSnoc(D, p, 0);
    forall c: nat | c < n
      ensures c in t[..n]
    {
      FullMaskBits(n, c);
    }
  }

  /** A path of cost c, closed with the edge back to 0, costs c + D[u][0]. */
  lemma ClosedCost(D: seq<seq<int>>, p: seq<int>, u: int, c: Ext)
    requires IsMatrix(D) && InRange(|D|, p) && |p| >= 1 && p[|p| - 1] == u && |D| >= 1
    requires c == Fin(PathCost(D, p))
    ensures InRange(|D|, p + [0])
    ensures Add(c, D[u][0]) == Fin(PathCost(D, p + [0]))
  {
    PathCostSnoc(D, p, 0);
  }

  /** With two cities the only tour is [0, 1, 0], of cost D[0][1] + D[1][0]. */
  lemma TwoCityTour(D: seq<seq<int>>, t: seq<int>)
    requires IsMatrix(D) && |D| == 2 && IsTour(2, t)
    ensures t == [0, 1, 0] && PathCost(D, t) == D[0][1] + D[1][0]
  {
    assert 1 in t[..2];
    assert t[..2] == [t[0], t[1]];
    assert t == [0, 1, 0];
    assert PathCost(D, [0, 1]) == D[0][1] by {
      assert [0, 1][..1] == [0];
    }
    assert t[..2] == [0, 1];
  }
}
