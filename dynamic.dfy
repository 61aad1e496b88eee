/** tsp_dynamic: the Held-Karp table fill, the closing of the tour and the
    reconstruction of the path from the parent table. */
module Dynamic {
  import opened Bitmask
  import opened Tours
  import opened HeldKarp

  /** How many candidate predecessors of x have been relaxed into cell (T, x)
      when the fill loops stand at mask S, city u and city v: all of them once
      the outer loop has passed the predecessors' mask T ^ (1 << x), none
      before it reaches that mask, and u or u + 1 while it is there. */
  ghost function Progress(n: nat, T: nat, x: nat, S: nat, u: nat, v: nat): nat
  {
    var src := FlipBit(T, x);
    if src < S then n else if src > S then 0 else if x < v then u + 1 else u
  }

  /** The expected content of cell (T, x) at that point of the fill. */
  ghost function Partial(D: seq<seq<int>>, T: nat, x: nat, S: nat, u: nat, v: nat): Cell
    requires IsMatrix(D) && x < |D| && u <= |D| && (v > 0 ==> u < |D|)
  {
    Entry(D, T, x, Progress(|D|, T, x, S, u, v))
  }

  /** Both tables hold the expected cells at loop position (S, u, v). */
  ghost predicate Table(D: seq<seq<int>>, dp: array2<Ext>, parent: array2<int>, S: nat, u: nat, v: nat)
    reads dp, parent
    requires IsMatrix(D) && u <= |D| && (v > 0 ==> u < |D|)
  {
    && dp.Length0 == Pow2(|D|) && dp.Length1 == |D|
    && parent.Length0 == Pow2(|D|) && parent.Length1 == |D|
    && forall T, x :: 0 <= T < dp.Length0 && 0 <= x < |D| ==>
         dp[T, x] == Partial(D, T, x, S, u, v).cost && parent[T, x] == Partial(D, T, x, S, u, v).parent
  }

  /** Before the first iteration only the seed is reached. */
  lemma PartialInit(D: seq<seq<int>>, T: nat, x: nat)
    requires IsMatrix(D) && x < |D|
    ensures Partial(D, T, x, 0, 0, 0) == if T == 1 && x == 0 then Cell(Fin(0), -1) else Unreached
  {
    assert Progress(|D|, T, x, 0, 0, 0) == 0;
    if !(T == 1 && x == 0) && Bit(T, x) {
      assert Entry(D, T, x, 0) == Relax(D, FlipBit(T, x), x, 0);
    }
  }

  /** Row S is settled when the outer loop reaches it: its cells only have
      predecessors in smaller masks. */
  lemma RowSettled(D: seq<seq<int>>, S: nat, w: nat, u: nat, v: nat)
    requires IsMatrix(D) && w < |D| && u <= |D| && (v > 0 ==> u < |D|)
    ensures Partial(D, S, w, S, u, v) == Final(D, S, w)
  {
    FlipBitSmaller(S, w);
  }

  /** Only cell (S | 1 << v, v) changes between inner positions v and v + 1. */
  lemma PartialNextV(D: seq<seq<int>>, T: nat, x: nat, S: nat, u: nat, v: nat)
    requires IsMatrix(D) && x < |D| && u < |D| && v < |D|
    requires !(x == v && T == S + Pow2(v) && !Bit(S, v))
    ensures Partial(D, T, x, S, u, v + 1) == Partial(D, T, x, S, u, v)
  {
    if x == v && Bit(T, x) && FlipBit(T, x) == S {
      BitBelow(T, x);
    }
  }

  /** Cell (S | 1 << v, v) goes from u to u + 1 relaxed predecessors. */
  lemma PartialTarget(D: seq<seq<int>>, S: nat, u: nat, v: nat)
    requires IsMatrix(D) && u < |D| && v < |D| && !Bit(S, v) && Final(D, S, u).cost.Fin?
    ensures Partial(D, S + Pow2(v), v, S, u, v) == Relax(D, S, v, u)
    ensures Partial(D, S + Pow2(v), v, S, u, v + 1) == Relax(D, S, v, u + 1)
  {
    AddBit(S, v, v);
    BitOfZero(u);
    assert FlipBit(S + Pow2(v), v) == S;
  }

  /** A source cell that is inf relaxes nothing. */
  lemma PartialSkipU(D: seq<seq<int>>, T: nat, x: nat, S: nat, u: nat)
    requires IsMatrix(D) && x < |D| && u < |D| && Final(D, S, u).cost == Inf
    ensures Partial(D, T, x, S, u + 1, 0) == Partial(D, T, x, S, u, 0)
  {
    if !(T == 1 && x == 0) && Bit(T, x) && FlipBit(T, x) == S {
      assert Cand(D, S, u, x) == Inf;
      assert Relax(D, S, x, u + 1) == Relax(D, S, x, u);
    }
  }

  lemma TableNextU(D: seq<seq<int>>, dp: array2<Ext>, parent: array2<int>, S: nat, u: nat)
    requires IsMatrix(D) && u < |D| && Table(D, dp, parent, S, u, |D|)
    ensures Table(D, dp, parent, S, u + 1, 0)
  {
    forall T, x | 0 <= T < dp.Length0 && 0 <= x < |D|
      ensures Partial(D, T, x, S, u + 1, 0) == Partial(D, T, x, S, u, |D|)
    {
    }
  }

  lemma TableSkipU(D: seq<seq<int>>, dp: array2<Ext>, parent: array2<int>, S: nat, u: nat)
    requires IsMatrix(D) && u < |D| && Table(D, dp, parent, S, u, 0) && Final(D, S, u).cost == Inf
    ensures Table(D, dp, parent, S, u + 1, 0)
  {
    forall T, x | 0 <= T < dp.Length0 && 0 <= x < |D|
      ensures Partial(D, T, x, S, u + 1, 0) == Partial(D, T, x, S, u, 0)
    {
      PartialSkipU(D, T, x, S, u);
    }
  }

  lemma TableNextS(D: seq<seq<int>>, dp: array2<Ext>, parent: array2<int>, S: nat)
    requires IsMatrix(D) && Table(D, dp, parent, S, |D|, 0)
    ensures Table(D, dp, parent, S + 1, 0, 0)
  {
    forall T, x | 0 <= T < dp.Length0 && 0 <= x < |D|
      ensures Partial(D, T, x, S + 1, 0, 0) == Partial(D, T, x, S, |D|, 0)
    {
    }
  }

  lemma TableDone(D: seq<seq<int>>, dp: array2<Ext>, parent: array2<int>)
    requires IsMatrix(D) && Table(D, dp, parent, Pow2(|D|), 0, 0)
    ensures forall T, x :: 0 <= T < Pow2(|D|) && 0 <= x < |D| ==>
      dp[T, x] == Final(D, T, x).cost && parent[T, x] == Final(D, T, x).parent
  {
    forall T, x | 0 <= T < Pow2(|D|) && 0 <= x < |D|
      ensures Partial(D, T, x, Pow2(|D|), 0, 0) == Final(D, T, x)
    {
      FlipBitSmaller(T, x);
    }
  }

  /** Lines 16-22: relax the finite cell (S, u) into DP[S | 1 << v][v] for
      every city v outside S, keeping strictly cheaper candidates and
      recording u as their parent. */
  method RelaxFrom(D: seq<seq<int>>, dp: array2<Ext>, parent: array2<int>, S: nat, u: nat)
    requires IsMatrix(D) && u < |D| && S < Pow2(|D|)
    requires Table(D, dp, parent, S, u, 0)
    requires dp[S, u] != Inf
    modifies dp, parent
    ensures Table(D, dp, parent, S, u, |D|)
  {
    var n := |D|;
    var v := 0;
    while v < n
      invariant 0 <= v <= n
      invariant Table(D, dp, parent, S, u, v)
    {
      RowSettled(D, S, u, u, v);
      if !Bit(S, v) {
        var next := SetBit(S, v);
        FlipBitBound(S, v, n);
        var newCost := Add(dp[S, u], D[u][v]);
        PartialTarget(D, S, u, v);
        if Less(newCost, dp[next, v]) {
          dp[next, v] := newCost;
          parent[next, v] := u;
        }
      }
      forall T, x | 0 <= T < dp.Length0 && 0 <= x < n
        ensures dp[T, x] == Partial(D, T, x, S, u, v + 1).cost
        ensures parent[T, x] == Partial(D, T, x, S, u, v + 1).parent
      {
        if !(x == v && T == S + Pow2(v) && !Bit(S, v)) {
          PartialNextV(D, T, x, S, u, v);
        }
      }
      v := v + 1;
    }
  }

  /** Lines 13-22: relax every finite cell (S, u) of row S, for u in
      increasing order; afterwards every cell whose predecessors lie in row S
      has seen all of them. */
  method RelaxMask(D: seq<seq<int>>, dp: array2<Ext>, parent: array2<int>, S: nat)
    requires IsMatrix(D) && S < Pow2(|D|)
    requires Table(D, dp, parent, S, 0, 0)
    modifies dp, parent
    ensures Table(D, dp, parent, S + 1, 0, 0)
  {
    var n := |D|;
    var u := 0;
    while u < n
      invariant 0 <= u <= n
      invariant Table(D, dp, parent, S, u, 0)
    {
      RowSettled(D, S, u, u, 0);
      if dp[S, u] != Inf {
        RelaxFrom(D, dp, parent, S, u);
        TableNextU(D, dp, parent, S, u);
      } else {
        TableSkipU(D, dp, parent, S, u);
      }
      u := u + 1;
    }
    TableNextS(D, dp, parent, S);
  }

  /** Lines 7-22: allocate DP (inf) and parent (-1), seed DP[1][0] = 0 and
      relax every finite (S, u) into every city v outside S, for S in
      increasing order. Afterwards every cell holds the settled Held-Karp
      value. */
  method FillTable(D: seq<seq<int>>) returns (dp: array2<Ext>, parent: array2<int>)
    requires IsMatrix(D) && |D| >= 1
    ensures fresh(dp) && fresh(parent)
    ensures dp.Length0 == Pow2(|D|) && dp.Length1 == |D|
    ensures parent.Length0 == Pow2(|D|) && parent.Length1 == |D|
    ensures forall T, x :: 0 <= T < Pow2(|D|) && 0 <= x < |D| ==>
      dp[T, x] == Final(D, T, x).cost && parent[T, x] == Final(D, T, x).parent
  {
    var n := |D|;
    dp := new Ext[Pow2(n), n]((T, x) => Inf);
    parent := new int[Pow2(n), n]((T, x) => -1);
    dp[1, 0] := Fin(0);
    forall T, x | 0 <= T < dp.Length0 && 0 <= x < n
      ensures dp[T, x] == Partial(D, T, x, 0, 0, 0).cost && parent[T, x] == Partial(D, T, x, 0, 0, 0).parent
    {
      PartialInit(D, T, x);
    }
    var S := 0;
    while S < Pow2(n)
      invariant 0 <= S <= Pow2(n)
      invariant Table(D, dp, parent, S, 0, 0)
    {
      RelaxMask(D, dp, parent, S);
      S := S + 1;
    }
    TableDone(D, dp, parent);
  }

  /** Lines 25-33: scan u = 1 .. n-1 for the cheapest DP[all_visited][u] + D[u][0],
      replacing the best only on a strictly smaller cost. The result is the
      smallest u attaining the minimum, or (inf, -1) when none is finite. */
  method CloseTour(D: seq<seq<int>>, dp: array2<Ext>) returns (minCost: Ext, lastCity: int)
    requires IsMatrix(D) && |D| >= 1
    requires dp.Length0 == Pow2(|D|) && dp.Length1 == |D|
    requires forall x :: 0 <= x < |D| ==> dp[FullMask(|D|), x] == Final(D, FullMask(|D|), x).cost
    ensures lastCity == -1 ==> minCost == Inf && forall u :: 1 <= u < |D| ==> Closing(D, u) == Inf
    ensures lastCity != -1 ==> 1 <= lastCity < |D| && minCost.Fin? && minCost == Closing(D, lastCity)
    ensures forall u :: 1 <= u < |D| ==> !Less(Closing(D, u), minCost)
    ensures forall u :: 1 <= u < lastCity ==> Less(minCost, Closing(D, u))
  {
    var n := |D|;
    var allVisited := Pow2(n) - 1;
    minCost := Inf;
    lastCity := -1;
    var u := 1;
    while u < n
      invariant 1 <= u <= n
      invariant lastCity == -1 ==> minCost == Inf && forall w :: 1 <= w < u ==> Closing(D, w) == Inf
      invariant lastCity != -1 ==> 1 <= lastCity < u && minCost.Fin? && minCost == Closing(D, lastCity)
      invariant forall w :: 1 <= w < u ==> !Less(Closing(D, w), minCost)
      invariant forall w :: 1 <= w < lastCity ==> Less(minCost, Closing(D, w))
    {
      var cost := Add(dp[allVisited, u], D[u][0]);
      if Less(cost, minCost) {
        minCost := cost;
        lastCity := u;
      }
      u := u + 1;
    }
  }

  /** The reconstruction loop's invariant for n >= 2: at index i the loop
      stands at a finite cell (mask, current) whose parent walk, of i + 1
      cities, followed by path[i+1..], is the whole walk from the last city. */
  ghost predicate Retracing(D: seq<seq<int>>, walk: seq<int>, mask: nat, current: int, path: seq<int>, i: nat)
    requires IsMatrix(D)
  {
    && 0 <= current < |D| && mask < Pow2(|D|) && i < |path|
    && Final(D, mask, current).cost.Fin?
    && |Walk(D, mask, current)| == i + 1
    && walk == Walk(D, mask, current) + path[i + 1..]
  }

  /** One iteration of the reconstruction loop keeps Retracing. */
  lemma RetraceStep(D: seq<seq<int>>, walk: seq<int>, mask: nat, current: int, path: seq<int>, i: nat)
    requires IsMatrix(D) && 0 < i && Retracing(D, walk, mask, current, path, i)
    ensures Retracing(D, walk, FlipBit(mask, current), Final(D, mask, current).parent, path[i := current], i - 1)
  {
    WalkStep(D, mask, current);
    assert path[i := current][i..] == [current] + path[i + 1..];
  }

  /** The loop starts at (all_visited, last_city) with index n - 1. */
  lemma RetraceStart(D: seq<seq<int>>, lastCity: int, path: seq<int>)
    requires IsMatrix(D) && |D| >= 2 && |path| == |D|
    requires 1 <= lastCity < |D| && Final(D, FullMask(|D|), lastCity).cost.Fin?
    ensures Retracing(D, Walk(D, FullMask(|D|), lastCity), FullMask(|D|), lastCity, path, |D| - 1)
  {
    assert |Walk(D, FullMask(|D|), lastCity)| == Count(FullMask(|D|), |D|) by {
      WalkIsPath(D, FullMask(|D|), lastCity);
    }
    CountFullMask(|D|, |D|);
    assert path[|D|..] == [];
  }

  /** The loop ends at index 0 on the seed (1, 0), whose walk is [0]: the
      path written so far, with path[0] = 0, is the whole walk. */
  lemma RetraceDone(D: seq<seq<int>>, walk: seq<int>, mask: nat, current: int, path: seq<int>)
    requires IsMatrix(D) && Retracing(D, walk, mask, current, path, 0) && path[0] == 0
    ensures mask == 1 && current == 0
    ensures walk == path
  {
    WalkSeed(D, mask, current);
    SeedCell(D);
    assert path == [0] + path[1..];
  }

  /** Lines 36-48: write path[n-1] .. path[1] by following parent back from
      (all_visited, last_city), clearing one bit per step, then set path[0]
      and append the closing 0. The result is the parent walk plus 0. */
  method Reconstruct(D: seq<seq<int>>, parent: array2<int>, lastCity: int) returns (path: seq<int>)
    requires IsMatrix(D) && |D| >= 1
    requires parent.Length0 == Pow2(|D|) && parent.Length1 == |D|
    requires forall T, x :: 0 <= T < Pow2(|D|) && 0 <= x < |D| ==> parent[T, x] == Final(D, T, x).parent
    requires |D| >= 2 ==> 1 <= lastCity < |D| && Final(D, FullMask(|D|), lastCity).cost.Fin?
    ensures |D| == 1 ==> path == [0, 0]
    ensures |D| >= 2 ==> path == Walk(D, FullMask(|D|), lastCity) + [0]
  {
    var n := |D|;
    path := seq(n, _ => 0);
    var mask: nat := FullMask(n);
    var current := lastCity;
    ghost var walk := [0];
    if n >= 2 {
      walk := Walk(D, mask, current);
      RetraceStart(D, lastCity, path);
    }
    var i := n - 1;
    while i > 0
      invariant 0 <= i < n && |path| == n && path[0] == 0
      invariant n >= 2 ==> Retracing(D, walk, mask, current, path, i)
    {
      if n >= 2 {
        RetraceStep(D, walk, mask, current, path, i);
      }
      path := path[i := current];
      var prev := parent[mask, current];
      mask := FlipBit(mask, current);
      current := prev;
      i := i - 1;
    }
    if n >= 2 {
      RetraceDone(D, walk, mask, current, path);
      assert mask == 1 && current == 0;
    }
    path := path[0 := 0];
    path := path + [0];
  }

  /** tsp_dynamic (lines 5-50). For n >= 2 the result is a tour through all
      cities whose cost is min_cost, no tour is cheaper, its last city is the
      smallest u with the cheapest closing cost, and the path is the parent
      walk from that city. For n = 1 the closing scan is empty and the result
      is (inf, [0, 0]). */
  method TspDynamic(D: seq<seq<int>>) returns (minCost: Ext, path: seq<int>)
    requires IsMatrix(D) && |D| >= 1
    ensures |path| == |D| + 1 && path[0] == 0 && path[|D|] == 0
    ensures |D| == 1 ==> minCost == Inf && path == [0, 0]
    ensures |D| >= 2 ==> IsTour(|D|, path) && minCost == Fin(PathCost(D, path))
    ensures |D| >= 2 ==> minCost.Fin? && forall t :: IsTour(|D|, t) ==> minCost.c <= PathCost(D, t)
    ensures |D| >= 2 ==> path == Walk(D, FullMask(|D|), path[|D| - 1]) + [0]
    ensures |D| >= 2 ==> minCost == Closing(D, path[|D| - 1])
    ensures |D| >= 2 ==> forall u :: 1 <= u < |D| ==> !Less(Closing(D, u), minCost)
    ensures |D| >= 2 ==> forall u :: 1 <= u < path[|D| - 1] ==> Less(minCost, Closing(D, u))
  {
    var n := |D|;
    var dp, parent := FillTable(D);
    var lastCity;
    minCost, lastCity := CloseTour(D, dp);
    if n >= 2 {
      FullRowFinite(D, n - 1);
    }
    path := Reconstruct(D, parent, lastCity);
    if n >= 2 {
      WalkTour(D, lastCity);
      forall t | IsTour(n, t)
        ensures minCost.c <= PathCost(D, t)
      {
        ClosingLowerBound(D, t);
      }
    }
  }
}
