/** The Held-Karp recurrence that tsp_dynamic's tables compute, as functions,
    and what it means: a finite entry DP[S][u] is the cost of a cheapest path
    from city 0 through exactly the cities of S to city u, and following the
    parent entries back from (S, u) retraces such a path. */
module HeldKarp {
  import opened Bitmask
  import opened Tours

  /** One cell of the two tables: DP[S][u] and parent[S][u]. */
  datatype Cell = Cell(cost: Ext, parent: int)

  /** A cell no relaxation has reached: (inf, -1). */
  const Unreached := Cell(Inf, -1)

  /** Cell (T, x) once the candidate predecessors 0 .. k-1 of x have been
      relaxed into it. Predecessors come from the one mask T ^ (1 << x); the
      seed DP[1][0] = 0 is never overwritten. */
  ghost function Entry(D: seq<seq<int>>, T: nat, x: nat, k: nat): Cell
    requires IsMatrix(D) && x < |D| && k <= |D|
    decreases T, 0, 0
  {
    if T == 1 && x == 0 then Cell(Fin(0), -1)
    else if Bit(T, x) then FlipBitSmaller(T, x); Relax(D, FlipBit(T, x), x, k)
    else Unreached
  }

  /** Relaxing DP[S | 1 << v][v] from DP[S][u] for u = 0 .. k-1 in increasing
      order, keeping a candidate only when it is strictly cheaper. */
  ghost function Relax(D: seq<seq<int>>, S: nat, v: nat, k: nat): Cell
    requires IsMatrix(D) && v < |D| && k <= |D|
    decreases S, 1, k
  {
    if k == 0 then Unreached
    else
      var best := Relax(D, S, v, k - 1);
      var cand := Cand(D, S, k - 1, v);
      if Less(cand, best.cost) then Cell(cand, k - 1) else best
  }

  /** new_cost = DP[S][u] + D[u][v] */
  ghost function Cand(D: seq<seq<int>>, S: nat, u: nat, v: nat): Ext
    requires IsMatrix(D) && u < |D| && v < |D|
    decreases S, 0, 2
  {
    Add(Final(D, S, u).cost, D[u][v])
  }

  /** The settled cell (T, x): all n candidate predecessors relaxed. */
  ghost function Final(D: seq<seq<int>>, T: nat, x: nat): Cell
    requires IsMatrix(D) && x < |D|
    decreases T, 0, 1
  {
    Entry(D, T, x, |D|)
  }

  /** The cost of the tour whose last city before returning to 0 is u:
      DP[all_visited][u] + D[u][0]. */
  ghost function Closing(D: seq<seq<int>>, u: nat): Ext
    requires IsMatrix(D) && u < |D|
  {
    Add(Final(D, FullMask(|D|), u).cost, D[u][0])
  }

  /** The path obtained by following parent entries back from (S, u),
      clearing the bit of each city as it is left. */
  ghost function Walk(D: seq<seq<int>>, S: nat, u: nat): (p: seq<int>)
    requires IsMatrix(D) && u < |D|
    ensures |p| >= 1 && p[|p| - 1] == u
    decreases S
  {
    var w := Final(D, S, u).parent;
    if 0 <= w < |D| && Bit(S, u) then
      FlipBitSmaller(S, u);
      Walk(D, FlipBit(S, u), w) + [u]
    else
      [u]
  }

  /** The relaxation keeps the first cheapest candidate: its cost is no
      greater than any candidate's, strictly smaller than that of every
      earlier one, and it is (inf, -1) exactly when every candidate is inf. */
  lemma {:induction false} RelaxArgmin(D: seq<seq<int>>, S: nat, v: nat, k: nat)
    requires IsMatrix(D) && v < |D| && k <= |D|
    ensures var r := Relax(D, S, v, k);
      && (r.parent == -1 <==> r.cost == Inf)
      && (r.parent == -1 ==> forall w :: 0 <= w < k ==> Cand(D, S, w, v) == Inf)
      && (r.parent != -1 ==> 0 <= r.parent < k && r.cost == Cand(D, S, r.parent, v))
      && (forall w :: 0 <= w < k ==> !Less(Cand(D, S, w, v), r.cost))
      && (forall w :: 0 <= w < r.parent ==> Less(r.cost, Cand(D, S, w, v)))
  {
    if k > 0 {
      RelaxArgmin(D, S, v, k - 1);
    }
  }

  /** The table invariant. An unreached cell has parent -1. A finite cell
      (S, u) has bits 0 and u set in S; unless S is the seed mask 1, its
      parent is a city of S other than u whose cell in S ^ (1 << u) is finite
      and supplies the cell's cost. */
  lemma {:induction false} FinalTable(D: seq<seq<int>>, S: nat, u: nat)
    requires IsMatrix(D) && u < |D|
    ensures Final(D, S, u).cost.Inf? ==> Final(D, S, u).parent == -1
    ensures Final(D, S, u).cost.Fin? ==> Bit(S, 0) && Bit(S, u)
    ensures Final(D, S, u).cost.Fin? && S != 1 ==>
      var w := Final(D, S, u).parent;
      && 0 <= w < |D| && w != u && Bit(S, w)
      && Final(D, FlipBit(S, u), w).cost.Fin?
      && Final(D, S, u).cost == Cand(D, FlipBit(S, u), w, u)
    decreases S
  {
    var r := Final(D, S, u);
    if S == 1 && u == 0 {
      OneBits(0);
    } else if Bit(S, u) {
      var S' := FlipBit(S, u);
      RelaxArgmin(D, S', u, |D|);
      if r.cost.Fin? {
        var w := r.parent;
        FlipBitSmaller(S, u);
        FinalTable(D, S', w);
        FlipBitBits(S, u, w);
        FlipBitBits(S, u, 0);
        FlipBitBits(S, u, u);
      }
    }
  }

  /** The seed cell (1, 0) costs 0, has no parent and its walk is [0]. */
  lemma SeedCell(D: seq<seq<int>>)
    requires IsMatrix(D) && |D| >= 1
    ensures Final(D, 1, 0) == Cell(Fin(0), -1)
    ensures Walk(D, 1, 0) == [0] && PathCost(D, [0]) == 0
  {
  }

  /** In the seed mask 1 only the cell of city 0 is reached. */
  lemma SeedOnly(D: seq<seq<int>>, u: nat)
    requires IsMatrix(D) && u < |D| && Final(D, 1, u).cost.Fin?
    ensures u == 0
  {
    OneBits(u);
  }

  /** City 0 is only ever the start: no cell (S, 0) other than the seed is
      reached, since its parent's cell would have to include city 0 twice. */
  lemma ZeroColumn(D: seq<seq<int>>, S: nat)
    requires IsMatrix(D) && |D| >= 1 && S != 1
    ensures Final(D, S, 0) == Unreached
  {
    FinalTable(D, S, 0);
    if Final(D, S, 0).cost.Fin? {
      var w := Final(D, S, 0).parent;
      FinalTable(D, FlipBit(S, 0), w);
      FlipBitBits(S, 0, 0);
      assert false;
    }
  }

  /** Soundness: following the parents from a finite cell (S, u) gives a path
      from 0 through exactly the cities of S to u, whose cost is DP[S][u]. */
  lemma {:induction false} WalkIsPath(D: seq<seq<int>>, S: nat, u: nat)
    requires IsMatrix(D) && u < |D| && S < Pow2(|D|) && Final(D, S, u).cost.Fin?
    ensures IsPath(|D|, Walk(D, S, u), S, u)
    ensures Final(D, S, u).cost == Fin(PathCost(D, Walk(D, S, u)))
    ensures |Walk(D, S, u)| == Count(S, |D|)
    decreases S
  {
    var n := |D|;
    if S == 1 {
      SeedOnly(D, u);
      SeedCell(D);
      SeedIsPath(n);
    } else {
      var w := Final(D, S, u).parent;
      var S' := FlipBit(S, u);
      WalkUnfold(D, S, u);
      WalkIsPath(D, S', w);
      var q := Walk(D, S', w);
      PathStep(D, q, S, u, w);
      assert Walk(D, S, u) == q + [u];
      assert Final(D, S, u).cost == Fin(PathCost(D, q) + D[w][u]);
      CountFlipBit(S, u, n);
      assert |q| + 1 == Count(S, n);
    }
  }

  /** A finite cell (S ^ (1 << u), w) bounds the settled cell (S, u) by its
      cost plus D[w][u]. */
  lemma RelaxBound(D: seq<seq<int>>, S: nat, u: nat, w: nat)
    requires IsMatrix(D) && u < |D| && w < |D| && u != 0 && Bit(S, u)
    requires Final(D, FlipBit(S, u), w).cost.Fin?
    ensures Final(D, S, u).cost.Fin?
    ensures Final(D, S, u).cost.c <= Final(D, FlipBit(S, u), w).cost.c + D[w][u]
  {
    var S' := FlipBit(S, u);
    assert Final(D, S, u) == Relax(D, S', u, |D|);
    RelaxArgmin(D, S', u, |D|);
    assert !Less(Cand(D, S', w, u), Final(D, S, u).cost);
  }

  /** Optimality: every path from 0 through exactly the cities of S to u
      costs at least DP[S][u], which is therefore finite. */
  lemma {:induction false} FinalOptimal(D: seq<seq<int>>, p: seq<int>, S: nat, u: nat)
    requires IsMatrix(D) && u < |D| && IsPath(|D|, p, S, u)
    ensures Final(D, S, u).cost.Fin? && Final(D, S, u).cost.c <= PathCost(D, p)
    decreases |p|
  {
    var n := |D|;
    if |p| == 1 {
      forall c: nat | c < n
        ensures Bit(S, c) <==> Bit(1, c)
      {
        OneBits(c);
      }
      MaskExt(S, 1, n);
      SeedCell(D);
    } else {
      var q := p[..|p| - 1];
      var w := q[|q| - 1];
      var S' := FlipBit(S, u);
      PathTruncate(n, p, S, u);
      assert p == q + [u];
      PathCostSnoc(D, q, u);
      FinalOptimal(D, q, S', w);
      RelaxBound(D, S, u, w);
    }
  }

  /** DP[S][u] is the least cost of a path from 0 through exactly the cities of
      S to u: it is finite exactly when such a path exists, no such path is
      cheaper, and the parent walk is one that attains it. */
  lemma FinalIsOptimum(D: seq<seq<int>>, S: nat, u: nat)
    requires IsMatrix(D) && u < |D| && S < Pow2(|D|)
    ensures Final(D, S, u).cost.Fin? <==> exists p :: IsPath(|D|, p, S, u)
    ensures forall p :: IsPath(|D|, p, S, u) ==>
      Final(D, S, u).cost.Fin? && Final(D, S, u).cost.c <= PathCost(D, p)
    ensures Final(D, S, u).cost.Fin? ==>
      IsPath(|D|, Walk(D, S, u), S, u) && Final(D, S, u).cost == Fin(PathCost(D, Walk(D, S, u)))
  {
    forall p | IsPath(|D|, p, S, u)
      ensures Final(D, S, u).cost.Fin? && Final(D, S, u).cost.c <= PathCost(D, p)
    {
      FinalOptimal(D, p, S, u);
    }
    if Final(D, S, u).cost.Fin? {
      WalkIsPath(D, S, u);
    }
  }

  /** A finite cell whose parent walk has a single city is the seed: the
      reconstruction stops at mask 1 and city 0. */
  lemma WalkSeed(D: seq<seq<int>>, S: nat, u: nat)
    requires IsMatrix(D) && u < |D| && Final(D, S, u).cost.Fin? && |Walk(D, S, u)| == 1
    ensures S == 1 && u == 0
  {
    FinalTable(D, S, u);
    OneBits(u);
  }

  /** A finite cell other than the seed is reached from its parent: the
      parent's cell in S ^ (1 << u) is finite, supplies the cost, and its walk
      followed by u is the walk of (S, u). */
  lemma WalkUnfold(D: seq<seq<int>>, S: nat, u: nat)
    requires IsMatrix(D) && u < |D| && Final(D, S, u).cost.Fin? && S != 1
    ensures Bit(S, u) && FlipBit(S, u) < S
    ensures 0 <= Final(D, S, u).parent < |D|
    ensures Final(D, FlipBit(S, u), Final(D, S, u).parent).cost.Fin?
    ensures Final(D, S, u).cost ==
      Add(Final(D, FlipBit(S, u), Final(D, S, u).parent).cost, D[Final(D, S, u).parent][u])
    ensures Walk(D, S, u) == Walk(D, FlipBit(S, u), Final(D, S, u).parent) + [u]
  {
    FinalTable(D, S, u);
    FlipBitSmaller(S, u);
  }

  /** One step of the reconstruction: a finite cell whose parent walk has
      more than one city is not the seed. */
  lemma WalkStep(D: seq<seq<int>>, S: nat, u: nat)
    requires IsMatrix(D) && u < |D| && Final(D, S, u).cost.Fin? && |Walk(D, S, u)| >= 2
    ensures Bit(S, u) && FlipBit(S, u) < S
    ensures 0 <= Final(D, S, u).parent < |D|
    ensures Final(D, FlipBit(S, u), Final(D, S, u).parent).cost.Fin?
    ensures Walk(D, S, u) == Walk(D, FlipBit(S, u), Final(D, S, u).parent) + [u]
  {
    if S == 1 {
      SeedOnly(D, u);
      SeedCell(D);
    } else {
      WalkUnfold(D, S, u);
    }
  }

  /** On an n x n matrix every cell (all_visited, u) with u != 0 is finite:
      the path 0, 1, .., u-1, u+1, .., n-1, u reaches it. */
  lemma FullRowFinite(D: seq<seq<int>>, u: nat)
    requires IsMatrix(D) && 1 <= u < |D|
    ensures Final(D, FullMask(|D|), u).cost.Fin?
    ensures Closing(D, u).Fin?
  {
    var n := |D|;
    var p := seq(n, i requires 0 <= i < n => if i < u then i else if i < n - 1 then i + 1 else u);
    forall c: nat | c < n
      ensures Bit(FullMask(n), c) <==> c in p
    {
      FullMaskBits(n, c);
      if c < u {
        assert p[c] == c;
      } else if c == u {
        assert p[n - 1] == u;
      } else {
        assert p[c - 1] == c;
      }
    }
    assert IsPath(n, p, FullMask(n), u);
    FinalOptimal(D, p, FullMask(n), u);
  }

  /** Closing(u) is a lower bound on every tour whose last city before the
      return to 0 is u. */
  lemma ClosingLowerBound(D: seq<seq<int>>, t: seq<int>)
    requires IsMatrix(D) && |D| >= 2 && IsTour(|D|, t)
    ensures 1 <= t[|D| - 1] < |D|
    ensures Closing(D, t[|D| - 1]).Fin? && Closing(D, t[|D| - 1]).c <= PathCost(D, t)
  {
    var n := |D|;
    assert t[0] != t[n - 1];
    TourIsPath(n, t);
    FinalOptimal(D, t[..n], FullMask(n), t[n - 1]);
    TourCost(D, t);
  }

  /** The parent walk from a finite cell (all_visited, u), closed with 0, is a
      tour whose cost is Closing(u). */
  lemma WalkTour(D: seq<seq<int>>, u: nat)
    requires IsMatrix(D) && |D| >= 2 && 1 <= u < |D| && Final(D, FullMask(|D|), u).cost.Fin?
    ensures IsTour(|D|, Walk(D, FullMask(|D|), u) + [0])
    ensures Closing(D, u) == Fin(PathCost(D, Walk(D, FullMask(|D|), u) + [0]))
  {
    WalkIsPath(D, FullMask(|D|), u);
    CountFullMask(|D|, |D|);
    PathCloses(D, Walk(D, FullMask(|D|), u), u);
    ClosedCost(D, Walk(D, FullMask(|D|), u), u, Final(D, FullMask(|D|), u).cost);
  }
}
