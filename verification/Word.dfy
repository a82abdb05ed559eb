/** Go's `uint32` values and the bit operations the address code applies to them. */
module Word {

  const WORD: nat := 0x1_0000_0000

  type uint32 = x: int | 0 <= x < WORD

  function Pow2(n: nat): (p: nat)
    ensures p >= 1
  {
    if n == 0 then 1 else 2 * Pow2(n - 1)
  }

  /** Bit `n` of `x`, bit 0 the least significant. */
  predicate TestBit(x: nat, n: nat) {
    if n == 0 then x % 2 == 1 else TestBit(x / 2, n - 1)
  }

  /** Bitwise `x & y`. */
  function And(x: nat, y: nat): (r: nat)
    ensures r <= x && r <= y
  {
    if x == 0 || y == 0 then 0
    else 2 * And(x / 2, y / 2) + (x % 2) * (y % 2)
  }

  /** Bitwise `x | y`. */
  function Or(x: nat, y: nat): (r: nat)
    decreases x + y
  {
    if x == 0 then y else if y == 0 then x
    else 2 * Or(x / 2, y / 2) + (if x % 2 == 1 || y % 2 == 1 then 1 else 0)
  }

  /** Bitwise `x ^ y`. */
  function Xor(x: nat, y: nat): (r: nat)
    decreases x + y
  {
    if x == 0 then y else if y == 0 then x
    else 2 * Xor(x / 2, y / 2) + (if x % 2 != y % 2 then 1 else 0)
  }

  lemma {:induction false} ZeroHasNoBit(n: nat)
    ensures !TestBit(0, n)
  {
    if n > 0 {
      ZeroHasNoBit(n - 1);
    }
  }

  lemma {:induction false} TestBitAnd(x: nat, y: nat, n: nat)
    ensures TestBit(And(x, y), n) <==> TestBit(x, n) && TestBit(y, n)
  {
    if x == 0 || y == 0 {
      ZeroHasNoBit(n);
    } else if n > 0 {
      TestBitAnd(x / 2, y / 2, n - 1);
      assert And(x, y) / 2 == And(x / 2, y / 2);
    } else {
      assert And(x, y) % 2 == (x % 2) * (y % 2);
    }
  }

  /** Testing against a power of two tests one bit. */
  lemma {:induction false} AndPow2(x: nat, n: nat)
    ensures And(x, Pow2(n)) != 0 <==> TestBit(x, n)
  {
    if x == 0 {
      ZeroHasNoBit(n);
    } else if n > 0 {
      AndPow2(x / 2, n - 1);
    } else {
      assert And(x / 2, 0) == 0;
    }
  }

  lemma {:induction false} DifferSomewhere(x: nat, y: nat) returns (n: nat)
    requires x != y
    ensures TestBit(x, n) != TestBit(y, n)
    decreases x + y
  {
    if x % 2 != y % 2 {
      n := 0;
    } else {
      var m := DifferSomewhere(x / 2, y / 2);
      n := m + 1;
    }
  }

  /** `2^w - 2^k` is the ones in positions `k` to `w - 1`. */
  lemma {:induction false} OnesBlock(w: nat, k: nat, n: nat)
    requires k <= w
    ensures Pow2(w) >= Pow2(k)
    ensures TestBit(Pow2(w) - Pow2(k), n) <==> k <= n < w
  {
    if w == 0 {
      ZeroHasNoBit(n);
    } else if k == 0 {
      if n > 0 {
        OnesBlock(w - 1, 0, n - 1);
        assert (Pow2(w) - 1) / 2 == Pow2(w - 1) - 1;
      }
    } else {
      OnesBlock(w - 1, k - 1, if n > 0 then n - 1 else 0);
      assert (Pow2(w) - Pow2(k)) / 2 == Pow2(w - 1) - Pow2(k - 1);
    }
  }

  /** Flipping every bit of a `w`-bit word. */
  lemma {:induction false} XorAllOnes(x: nat, w: nat)
    requires x < Pow2(w)
    ensures Xor(x, Pow2(w) - 1) == Pow2(w) - 1 - x
  {
    if x > 0 && w > 0 {
      XorAllOnes(x / 2, w - 1);
      assert (Pow2(w) - 1) / 2 == Pow2(w - 1) - 1;
    }
  }

  /** Joining disjoint fields with `|` adds them. */
  lemma {:induction false} OrDisjoint(high: nat, low: nat, k: nat)
    requires low < Pow2(k)
    ensures Or(high * Pow2(k), low) == high * Pow2(k) + low
  {
    hide Or, Pow2;
    OrNothing(high * Pow2(k), low);
    if low > 0 && high > 0 {
      Halved(high, low, k);
      OrDisjoint(high, low / 2, k - 1);
      OrTwice(high * Pow2(k - 1), low);
    }
  }

  lemma OrNothing(x: nat, y: nat)
    ensures Or(0, y) == y && Or(x, 0) == x
  {
  }

  lemma OrTwice(h: nat, low: nat)
    requires h > 0 && low > 0 && Or(h, low / 2) == h + low / 2
    ensures Or(2 * h, low) == 2 * h + low
  {
  }

  lemma Halved(high: nat, low: nat, k: nat)
    requires 0 < low < Pow2(k) && high > 0
    ensures k > 0 && low / 2 < Pow2(k - 1) && high * Pow2(k) == 2 * (high * Pow2(k - 1)) > 0
  {
  }

  lemma Pow2Values()
    ensures Pow2(8) == 0x100 && Pow2(16) == 0x1_0000 && Pow2(24) == 0x100_0000
    ensures Pow2(31) == 0x8000_0000 && Pow2(32) == WORD
  {
    assert Pow2(4) == 16;
    assert Pow2(12) == 0x1000;
    assert Pow2(20) == 0x10_0000;
    assert Pow2(28) == 0x1000_0000;
  }
}
