/** Subset masks over cities: bit k of a natural number stands for city k.
    The solver tests a bit with `S & (1 << v)`, adds one with `S | (1 << v)`
    and removes one with `mask ^ (1 << current)`; these are Bit, SetBit and
    FlipBit below, and Cities gives the set of cities a mask stands for. */
module Bitmask {

  /** 1 << k */
  function Pow2(k: nat): (r: nat)
    ensures r >= 1
  {
    if k == 0 then 1 else 2 * Pow2(k - 1)
  }

  /** (S >> k) & 1 == 1 */
  predicate Bit(S: nat, k: nat)
  {
    if k == 0 then S % 2 == 1 else Bit(S / 2, k - 1)
  }

  /** S | (1 << k) */
  function SetBit(S: nat, k: nat): (r: nat)
    ensures r >= S && (r == S <==> Bit(S, k))
  {
    if Bit(S, k) then S else S + Pow2(k)
  }

  /** S ^ (1 << k) */
  function FlipBit(S: nat, k: nat): (r: nat)
    ensures r < S <==> Bit(S, k)
  {
    if Bit(S, k) then BitBelow(S, k); S - Pow2(k) else S + Pow2(k)
  }

  /** (1 << n) - 1, the mask of all n cities. */
  function FullMask(n: nat): nat
  {
    Pow2(n) - 1
  }

  /** The cities below n whose bits are set in S. */
  function Cities(S: nat, n: nat): set<nat>
  {
    set c: nat | c < n && Bit(S, c)
  }

  /** The number of cities below n whose bits are set in S. */
  function Count(S: nat, n: nat): nat
  {
    if n == 0 then 0 else Count(S, n - 1) + (if Bit(S, n - 1) then 1 else 0)
  }

  lemma {:induction false} BitOfZero(k: nat)
    ensures !Bit(0, k)
  {
    if k > 0 {
      BitOfZero(k - 1);
    }
  }

  /** A set bit k accounts for 2^k of the mask, and clearing it leaves bit k clear. */
  lemma {:induction false} BitBelow(S: nat, k: nat)
    requires Bit(S, k)
    ensures Pow2(k) <= S && !Bit(S - Pow2(k), k)
  {
    if k > 0 {
      BitBelow(S / 2, k - 1);
      var p := Pow2(k - 1);
      assert (S - 2 * p) / 2 == S / 2 - p;
    }
  }

  /** Adding 2^k to a mask whose bit k is clear sets bit k and no other bit. */
  lemma {:induction false} AddBit(S: nat, k: nat, d: nat)
    requires !Bit(S, k)
    ensures Bit(S + Pow2(k), d) <==> d == k || Bit(S, d)
  {
    if k == 0 {
      assert (S + 1) % 2 == 1 && (S + 1) / 2 == S / 2;
    } else {
      var p := Pow2(k - 1);
      assert (S + 2 * p) % 2 == S % 2 && (S + 2 * p) / 2 == S / 2 + p;
      if d > 0 {
        AddBit(S / 2, k - 1, d - 1);
      }
    }
  }

  /** `S | (1 << k)` sets bit k and keeps every other bit. */
  lemma SetBitBits(S: nat, k: nat, d: nat)
    ensures Bit(SetBit(S, k), d) <==> d == k || Bit(S, d)
  {
    if !Bit(S, k) {
      AddBit(S, k, d);
    }
  }

  /** `S ^ (1 << k)` toggles bit k and keeps every other bit. */
  lemma FlipBitBits(S: nat, k: nat, d: nat)
    ensures Bit(FlipBit(S, k), d) <==> if d == k then !Bit(S, k) else Bit(S, d)
  {
    if Bit(S, k) {
      BitBelow(S, k);
      AddBit(S - Pow2(k), k, d);
    } else {
      AddBit(S, k, d);
    }
  }

  /** Clearing a set bit makes the mask strictly smaller; the source's
      increasing-mask order relies on the converse for setting a bit. */
  lemma FlipBitSmaller(S: nat, k: nat)
    ensures Bit(S, k) ==> FlipBit(S, k) < S
    ensures !Bit(S, k) ==> FlipBit(S, k) > S && SetBit(S, k) == FlipBit(S, k)
  {
  }

  /** Setting a clear bit below n keeps a mask below 2^n. */
  lemma {:induction false} AddBitBound(S: nat, k: nat, n: nat)
    requires S < Pow2(n) && k < n && !Bit(S, k)
    ensures S + Pow2(k) < Pow2(n)
  {
    var h := Pow2(n - 1);
    assert Pow2(n) == 2 * h;
    if k == 0 {
      assert S % 2 == 0;
    } else {
      assert S / 2 < h;
      AddBitBound(S / 2, k - 1, n - 1);
      assert S <= 2 * (S / 2) + 1;
    }
  }

  /** Toggling a bit below n keeps a mask below 2^n. */
  lemma FlipBitBound(S: nat, k: nat, n: nat)
    requires S < Pow2(n) && k < n
    ensures FlipBit(S, k) < Pow2(n) && SetBit(S, k) < Pow2(n)
  {
    if !Bit(S, k) {
      AddBitBound(S, k, n);
    }
  }

  /** all_visited = FullMask(n) has exactly the bits 0 .. n-1. */
  lemma {:induction false} FullMaskBits(n: nat, d: nat)
    ensures Bit(FullMask(n), d) <==> d < n
  {
    if n == 0 {
      BitOfZero(d);
    } else if d > 0 {
      assert FullMask(n) / 2 == FullMask(n - 1);
      FullMaskBits(n - 1, d - 1);
    }
  }

  /** The seed mask 1 has bit 0 and no other. */
  lemma OneBits(d: nat)
    ensures Bit(1, d) <==> d == 0
  {
    if d > 0 {
      BitOfZero(d - 1);
    }
  }

  /** Two masks below 2^n with the same bits below n are equal. */
  lemma {:induction false} MaskExt(S: nat, T: nat, n: nat)
    requires S < Pow2(n) && T < Pow2(n)
    requires forall d: nat :: d < n ==> (Bit(S, d) <==> Bit(T, d))
    ensures S == T
  {
    if n > 0 {
      forall d: nat | d < n - 1
        ensures Bit(S / 2, d) <==> Bit(T / 2, d)
      {
        assert Bit(S, d + 1) <==> Bit(T, d + 1);
      }
      MaskExt(S / 2, T / 2, n - 1);
      assert Bit(S, 0) <==> Bit(T, 0);
    }
  }

  lemma CitiesSetBit(S: nat, k: nat, n: nat)
    requires k < n
    ensures Cities(SetBit(S, k), n) == Cities(S, n) + {k}
  {
    forall c: nat | c < n
      ensures c in Cities(SetBit(S, k), n) <==> c in Cities(S, n) + {k}
    {
      SetBitBits(S, k, c);
    }
  }

  lemma CitiesFlipBit(S: nat, k: nat, n: nat)
    requires k < n && Bit(S, k)
    ensures Cities(FlipBit(S, k), n) == Cities(S, n) - {k}
  {
    forall c: nat | c < n
      ensures c in Cities(FlipBit(S, k), n) <==> c in Cities(S, n) - {k}
    {
      FlipBitBits(S, k, c);
    }
  }

  lemma CitiesFullMask(n: nat)
    ensures forall c: nat :: c in Cities(FullMask(n), n) <==> c < n
  {
    forall c: nat | c < n
      ensures c in Cities(FullMask(n), n)
    {
      FullMaskBits(n, c);
    }
  }

  lemma CitiesOne(n: nat)
    requires n >= 1
    ensures Cities(1, n) == {0}
  {
    forall c: nat | c < n
      ensures Bit(1, c) <==> c == 0
    {
      OneBits(c);
    }
  }

  /** A mask below 2^n is determined by the set of cities it stands for. */
  lemma CitiesDetermineMask(S: nat, T: nat, n: nat)
    requires S < Pow2(n) && T < Pow2(n) && Cities(S, n) == Cities(T, n)
    ensures S == T
  {
    forall d: nat | d < n
      ensures Bit(S, d) <==> Bit(T, d)
    {
      assert d in Cities(S, n) <==> d in Cities(T, n);
    }
    MaskExt(S, T, n);
  }

  /** Count is the size of the set a mask stands for. */
  lemma {:induction false} CitiesCount(S: nat, n: nat)
    ensures |Cities(S, n)| == Count(S, n)
  {
    if n == 0 {
      assert Cities(S, n) == {};
    } else {
      var m := n - 1;
      CitiesCount(S, m);
      assert m !in Cities(S, m);
      if Bit(S, m) {
        assert Cities(S, n) == Cities(S, m) + {m};
        assert |Cities(S, n)| == |Cities(S, m)| + 1;
      } else {
        assert Cities(S, n) == Cities(S, m);
      }
    }
  }

  /** Clearing a set bit below n lowers the count by one. */
  lemma {:induction false} CountFlipBit(S: nat, k: nat, n: nat)
    requires Bit(S, k)
    ensures Count(FlipBit(S, k), n) == Count(S, n) - (if k < n then 1 else 0)
  {
    if n > 0 {
      CountFlipBit(S, k, n - 1);
      FlipBitBits(S, k, n - 1);
    }
  }

  lemma {:induction false} CountOne(n: nat)
    requires n >= 1
    ensures Count(1, n) == 1
  {
    OneBits(n - 1);
    if n > 1 {
      CountOne(n - 1);
    }
  }

  lemma {:induction false} CountFullMask(m: nat, n: nat)
    requires m <= n
    ensures Count(FullMask(n), m) == m
  {
    if m > 0 {
      FullMaskBits(n, m - 1);
      CountFullMask(m - 1, n);
    }
  }
}
