/** Powers of two, and the two bit tricks the heap allocators use to recognise and to reach them. */
module Powers {

  function Pow2(k: nat): (p: nat)
    ensures p >= 1
  {
    if k == 0 then 1 else 2 * Pow2(k - 1)
  }

  lemma Pow2Monotonic(i: nat, j: nat)
    requires i <= j
    ensures Pow2(i) <= Pow2(j)
    ensures i < j ==> Pow2(i) < Pow2(j)
    decreases j
  {
    if i < j {
      Pow2Monotonic(i, j - 1);
    }
  }

  /** Pow2 is strictly increasing, so comparing powers is comparing exponents. */
  lemma Pow2Order(i: nat, j: nat)
    ensures i <= j <==> Pow2(i) <= Pow2(j)
    ensures i == j <==> Pow2(i) == Pow2(j)
  {
    if i < j {
      Pow2Monotonic(i, j);
    } else {
      Pow2Monotonic(j, i);
    }
  }

  lemma Pow2Add(i: nat, j: nat)
    ensures Pow2(i + j) == Pow2(i) * Pow2(j)
    decreases j
  {
    if j == 0 {
    } else {
      Pow2Add(i, j - 1);
      assert Pow2(i + j) == 2 * (Pow2(i) * Pow2(j - 1));
    }
  }

  lemma Pow2Values()
    ensures Pow2(0) == 1 && Pow2(1) == 2 && Pow2(2) == 4 && Pow2(3) == 8 && Pow2(4) == 0x10
    ensures Pow2(5) == 0x20 && Pow2(6) == 0x40 && Pow2(7) == 0x80 && Pow2(8) == 0x100 && Pow2(9) == 0x200
    ensures Pow2(10) == 0x400 && Pow2(11) == 0x800 && Pow2(12) == 0x1000 && Pow2(13) == 0x2000
    ensures Pow2(14) == 0x4000 && Pow2(15) == 0x8000 && Pow2(16) == 0x1_0000 && Pow2(17) == 0x2_0000
    ensures Pow2(18) == 0x4_0000 && Pow2(19) == 0x8_0000 && Pow2(20) == 0x10_0000 && Pow2(21) == 0x20_0000
    ensures Pow2(22) == 0x40_0000 && Pow2(23) == 0x80_0000 && Pow2(24) == 0x100_0000 && Pow2(25) == 0x200_0000
    ensures Pow2(26) == 0x400_0000 && Pow2(27) == 0x800_0000 && Pow2(28) == 0x1000_0000
    ensures Pow2(29) == 0x2000_0000 && Pow2(30) == 0x4000_0000 && Pow2(31) == 0x8000_0000
  {
  }

  /** The exponent of the least power of two that is at least `n`. */
  ghost function CeilExp(n: nat): (k: nat)
    ensures n <= Pow2(k)
    ensures forall j: nat :: n <= Pow2(j) ==> k <= j
  {
    CeilExists(n);
    LeastAbove(n, n)
  }

  lemma CeilExists(n: nat)
    ensures n <= Pow2(n)
  {
  }

  /** Searches down from an exponent that is known to be large enough. */
  ghost function LeastAbove(n: nat, k: nat): (r: nat)
    requires n <= Pow2(k)
    ensures n <= Pow2(r)
    ensures forall j: nat :: n <= Pow2(j) ==> r <= j
    decreases k
  {
    if k > 0 && n <= Pow2(k - 1) then LeastAbove(n, k - 1)
    else
      assert forall j: nat :: n <= Pow2(j) ==> k <= j by {
        forall j: nat | n <= Pow2(j)
          ensures k <= j
        {
          if j < k { Pow2Monotonic(j, k - 1); }
        }
      }
      k
  }

  lemma CeilExpOfPower(k: nat)
    ensures CeilExp(Pow2(k)) == k
  {
    Pow2Order(k, CeilExp(Pow2(k)));
  }

  ghost predicate IsPow2(n: int) {
    exists k: nat :: n == Pow2(k)
  }

}

/** Bitwise operators on non-negative machine integers, and the two bit tricks of the heap allocators. */
module Bits {
  import opened Powers

  /** Bit `i` of `n`. */
  predicate Bit(n: nat, i: nat) {
    if i == 0 then n % 2 == 1 else Bit(n / 2, i - 1)
  }

  function Or(a: nat, b: nat): (r: nat) {
    if a == 0 then b
    else if b == 0 then a
    else 2 * Or(a / 2, b / 2) + (if a % 2 == 1 || b % 2 == 1 then 1 else 0)
  }

  function And(a: nat, b: nat): (r: nat) {
    if a == 0 || b == 0 then 0
    else 2 * And(a / 2, b / 2) + (if a % 2 == 1 && b % 2 == 1 then 1 else 0)
  }

  function ShiftRight(n: nat, s: nat): (r: nat) {
    if s == 0 then n else ShiftRight(n / 2, s - 1)
  }

  lemma ZeroHasNoBits(i: nat)
    ensures !Bit(0, i)
  {
    if i > 0 { ZeroHasNoBits(i - 1); }
  }

  lemma {:induction false} BitOfOr(a: nat, b: nat, i: nat)
    ensures Bit(Or(a, b), i) <==> Bit(a, i) || Bit(b, i)
    decreases i
  {
    ZeroHasNoBits(i);
    if a != 0 && b != 0 && i > 0 {
      assert Or(a, b) / 2 == Or(a / 2, b / 2);
      BitOfOr(a / 2, b / 2, i - 1);
    }
  }

  lemma {:induction false} BitOfShift(n: nat, s: nat, i: nat)
    ensures Bit(ShiftRight(n, s), i) <==> Bit(n, i + s)
    decreases s
  {
    if s > 0 {
      BitOfShift(n / 2, s - 1, i);
    }
  }

  /** Some bit of `n` among the `w` positions from `i` upward is set. */
  ghost predicate Spread(n: nat, w: nat, i: nat) {
    exists p: nat :: i <= p < i + w && Bit(n, p)
  }

  /** One or-shift round doubles the distance over which bits have spread. */
  lemma RoundDoubles(n: nat, x: nat, w: nat, i: nat)
    requires forall j: nat :: Bit(x, j) <==> Spread(n, w, j)
    ensures Bit(Or(x, ShiftRight(x, w)), i) <==> Spread(n, 2 * w, i)
  {
    BitOfOr(x, ShiftRight(x, w), i);
    BitOfShift(x, w, i);
    if Spread(n, 2 * w, i) {
      var p: nat :| i <= p < i + 2 * w && Bit(n, p);
      assert if p < i + w then Spread(n, w, i) else Spread(n, w, i + w);
    }
  }

  lemma AllRoundsDouble(n: nat, x: nat, w: nat)
    requires forall j: nat :: Bit(x, j) <==> Spread(n, w, j)
    ensures forall j: nat :: Bit(Or(x, ShiftRight(x, w)), j) <==> Spread(n, 2 * w, j)
  {
    forall j: nat {
      RoundDoubles(n, x, w, j);
    }
  }

  /** Below Pow2(k) there is no bit at or above k. */
  lemma {:induction false} NoBitAbove(n: nat, k: nat, i: nat)
    requires n < Pow2(k) && k <= i
    ensures !Bit(n, i)
    decreases k
  {
    if k == 0 {
      ZeroHasNoBits(i);
    } else {
      NoBitAbove(n / 2, k - 1, i - 1);
    }
  }

  lemma {:induction false} TopBit(n: nat, k: nat)
    requires Pow2(k) <= n < Pow2(k + 1)
    ensures Bit(n, k)
    decreases k
  {
    if k > 0 { TopBit(n / 2, k - 1); }
  }

  /** A number is determined by its bits; here, all ones below k and none above. */
  lemma {:induction false} AllOnes(x: nat, k: nat)
    requires forall i: nat :: Bit(x, i) <==> i < k
    ensures x == Pow2(k) - 1
    decreases x
  {
    if x == 0 {
      assert k == 0 by { ZeroHasNoBits(0); }
    } else {
      assert k > 0 by {
        if k == 0 { SomeBit(x); }
      }
      assert Bit(x, 0);
      forall i: nat
        ensures Bit(x / 2, i) <==> i < k - 1
      {
        assert Bit(x, i + 1) <==> Bit(x / 2, i);
      }
      AllOnes(x / 2, k - 1);
    }
  }

  lemma {:induction false} SomeBit(x: nat)
    requires x > 0
    ensures exists i: nat :: Bit(x, i)
    decreases x
  {
    if x % 2 == 1 {
      assert Bit(x, 0);
    } else {
      SomeBit(x / 2);
      var i: nat :| Bit(x / 2, i);
      assert Bit(x, i + 1);
    }
  }

  /** The five or-shift rounds of fixSize. */
  function Smear(n: nat): (r: nat) {
    var x1 := Or(n, ShiftRight(n, 1));
    var x2 := Or(x1, ShiftRight(x1, 2));
    var x3 := Or(x2, ShiftRight(x2, 4));
    var x4 := Or(x3, ShiftRight(x3, 8));
    Or(x4, ShiftRight(x4, 16))
  }

  lemma {:induction false} ShiftOfZero(s: nat)
    ensures ShiftRight(0, s) == 0
  {
    if s > 0 { ShiftOfZero(s - 1); }
  }

  lemma SmearOfZero()
    ensures Smear(0) == 0
  {
    ShiftOfZero(1);
    ShiftOfZero(2);
    ShiftOfZero(4);
    ShiftOfZero(8);
    ShiftOfZero(16);
  }

  lemma SmearSpreads(n: nat)
    ensures forall i: nat :: Bit(Smear(n), i) <==> Spread(n, 32, i)
  {
    assert forall j: nat :: Bit(n, j) <==> Spread(n, 1, j);
    var x1 := Or(n, ShiftRight(n, 1));
    AllRoundsDouble(n, n, 1);
    var x2 := Or(x1, ShiftRight(x1, 2));
    AllRoundsDouble(n, x1, 2);
    var x3 := Or(x2, ShiftRight(x2, 4));
    AllRoundsDouble(n, x2, 4);
    var x4 := Or(x3, ShiftRight(x3, 8));
    AllRoundsDouble(n, x3, 8);
    AllRoundsDouble(n, x4, 16);
  }

  /** Smearing a number whose top bit is k (below the word size) fills every position up to k. */
  lemma SmearFills(n: nat, k: nat)
    requires Pow2(k) <= n < Pow2(k + 1) && k < 32
    ensures Smear(n) == Pow2(k + 1) - 1
  {
    SmearSpreads(n);
    TopBit(n, k);
    forall i: nat
      ensures Bit(Smear(n), i) <==> i < k + 1
    {
      if i <= k {
        assert i <= k < i + 32 && Bit(n, k);
      } else if Spread(n, 32, i) {
        var p: nat :| i <= p < i + 32 && Bit(n, p);
        NoBitAbove(n, k + 1, p);
      }
    }
    AllOnes(Smear(n), k + 1);
  }

  /** `n & (n - 1)` clears exactly the lowest set bit, so it is zero exactly for powers of two. */
  lemma {:induction false} ClearLowestBit(n: nat)
    requires n > 0
    ensures And(n, n - 1) == 0 <==> IsPow2(n)
    decreases n
  {
    if n == 1 {
      assert n == Pow2(0);
    } else if n % 2 == 1 {
      AndSelf(n / 2);
      assert And(n, n - 1) / 2 == And(n / 2, n / 2);
    } else {
      ClearLowestBit(n / 2);
      assert And(n, n - 1) == 2 * And(n / 2, n / 2 - 1);
      if IsPow2(n) {
        var k: nat :| n == Pow2(k);
        assert n / 2 == Pow2(k - 1);
      }
      if IsPow2(n / 2) {
        var k: nat :| n / 2 == Pow2(k);
        assert n == Pow2(k + 1);
      }
    }
  }

  lemma {:induction false} AndSelf(n: nat)
    ensures And(n, n) == n
  {
    if n > 0 { AndSelf(n / 2); }
  }
}
