// Counters that only grow, mapped onto the slots of a power-of-two array.
module Slots {
  import Bits

  // count & (2^order - 1)
  function Index(count: nat, order: nat): (i: nat)
    ensures i < Bits.Pow2(order)
  {
    Bits.LowMask(count, order);
    Bits.And(count, Bits.Pow2(order) - 1)
  }

  lemma IndexIsResidue(count: nat, order: nat)
    ensures Index(count, order) == count % Bits.Pow2(order)
  {
    Bits.LowMask(count, order);
  }

  // Less than a lap apart, different counts use different slots.
  lemma IndexApart(t: nat, u: nat, order: nat)
    requires t < u < t + Bits.Pow2(order)
    ensures Index(t, order) != Index(u, order)
  {
    IndexIsResidue(t, order);
    IndexIsResidue(u, order);
    Bits.ModApart(t, u, Bits.Pow2(order));
  }

  // count & (n - 1), for any size n
  function Masked(count: nat, n: nat): nat
    requires n >= 1
  {
    Bits.And(count, n - 1)
  }

  // No other size does: masking with n - 1 separates all counts less than n
  // apart if and only if n is a power of two.
  lemma MaskSeparatesExactly(n: nat)
    requires n >= 1
    ensures Bits.IsPow2(n) <==> forall t: nat, u: nat :: t < u < t + n ==> Masked(t, n) != Masked(u, n)
  {
    if Bits.IsPow2(n) {
      var order: nat :| n == Bits.Pow2(order);
      forall t: nat, u: nat | t < u < t + n
        ensures Masked(t, n) != Masked(u, n)
      {
        IndexApart(t, u, order);
        assert Masked(t, n) == Index(t, order) && Masked(u, n) == Index(u, order);
      }
    } else {
      assert Bits.Pow2(0) == 1;
      var k := Bits.ClearBit(n - 1);
      assert Masked(0, n) == Masked(Bits.Pow2(k), n);
    }
  }

  // A full lap apart, they use the same one.
  lemma IndexALapApart(t: nat, order: nat)
    ensures Index(t + Bits.Pow2(order), order) == Index(t, order)
  {
    IndexIsResidue(t, order);
    IndexIsResidue(t + Bits.Pow2(order), order);
    Bits.ModShift(t, 1, Bits.Pow2(order));
  }

  // Counting modulo 2^bits selects the same slot as counting without bound.
  lemma IndexOfWrapped(count: nat, order: nat, bits: nat)
    requires order <= bits
    ensures Index(count % Bits.Pow2(bits), order) == Index(count, order)
  {
    var c := Bits.Pow2(bits - order);
    Bits.Pow2Split(order, bits);
    Bits.ModMod(count, c, Bits.Pow2(order));
    IndexIsResidue(count % Bits.Pow2(bits), order);
    IndexIsResidue(count, order);
  }

  // The values stored under counts r to w - 1.
  function Window<T>(slots: seq<T>, r: nat, w: nat, order: nat): (c: seq<T>)
    requires |slots| == Bits.Pow2(order) && r <= w
    ensures |c| == w - r
    ensures forall i :: 0 <= i < |c| ==> c[i] == slots[Index(r + i, order)]
  {
    seq(w - r, i requires 0 <= i => slots[Index(r + i, order)])
  }

  // A write under the next count adds that value at the end and disturbs nothing.
  lemma WindowPush<T>(slots: seq<T>, r: nat, w: nat, order: nat, v: T)
    requires |slots| == Bits.Pow2(order) && r <= w < r + |slots|
    ensures Window(slots[Index(w, order) := v], r, w + 1, order) == Window(slots, r, w, order) + [v]
  {
    forall t | r <= t < w
      ensures Index(t, order) != Index(w, order)
    {
      IndexApart(t, w, order);
    }
  }

  // A write under a later count, less than a lap ahead, leaves the window alone.
  lemma WindowUntouched<T>(slots: seq<T>, r: nat, w: nat, order: nat, x: nat, v: T)
    requires |slots| == Bits.Pow2(order) && r <= w <= x < r + |slots|
    ensures Window(slots[Index(x, order) := v], r, w, order) == Window(slots, r, w, order)
  {
    forall t | r <= t < w
      ensures Index(t, order) != Index(x, order)
    {
      IndexApart(t, x, order);
    }
  }

  lemma WindowSplit<T>(slots: seq<T>, r: nat, m: nat, w: nat, order: nat)
    requires |slots| == Bits.Pow2(order) && r <= m <= w
    ensures Window(slots, r, w, order) == Window(slots, r, m, order) + Window(slots, m, w, order)
  {
  }

  lemma WindowPop<T>(slots: seq<T>, r: nat, w: nat, order: nat)
    requires |slots| == Bits.Pow2(order) && r < w
    ensures Window(slots, r, w, order) == [slots[Index(r, order)]] + Window(slots, r + 1, w, order)
  {
  }

  lemma WindowDrop<T>(slots: seq<T>, r: nat, k: nat, w: nat, order: nat)
    requires |slots| == Bits.Pow2(order) && r + k <= w
    ensures Window(slots, r + k, w, order) == Window(slots, r, w, order)[k..]
  {
  }
}
