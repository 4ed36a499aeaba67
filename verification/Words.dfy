/** Unsigned machine words of any width, as naturals with their binary digits.
    Bit 0 is the least significant. The bitwise operators are defined digit by digit, and
    the lemmas below say which digits they produce. */
module Words {

  function Pow2(n: nat): (r: nat)
    ensures r >= 1
  {
    if n == 0 then 1 else 2 * Pow2(n - 1)
  }

  predicate Bit(a: nat, k: nat) {
    if k == 0 then a % 2 == 1 else Bit(a / 2, k - 1)
  }

  function And(a: nat, b: nat): nat {
    if a == 0 || b == 0 then 0
    else (if a % 2 == 1 && b % 2 == 1 then 1 else 0) + 2 * And(a / 2, b / 2)
  }

  function Or(a: nat, b: nat): nat
    decreases a + b
  {
    if a == 0 then b
    else if b == 0 then a
    else (if a % 2 == 1 || b % 2 == 1 then 1 else 0) + 2 * Or(a / 2, b / 2)
  }

  lemma {:induction false} ZeroBits(k: nat)
    ensures !Bit(0, k)
  {
    if k > 0 { ZeroBits(k - 1); }
  }

  lemma {:induction false} AndBits(a: nat, b: nat, k: nat)
    ensures Bit(And(a, b), k) == (Bit(a, k) && Bit(b, k))
  {
    ZeroBits(k);
    if a != 0 && b != 0 && k > 0 {
      AndBits(a / 2, b / 2, k - 1);
    }
  }

  lemma {:induction false} OrBits(a: nat, b: nat, k: nat)
    ensures Bit(Or(a, b), k) == (Bit(a, k) || Bit(b, k))
  {
    ZeroBits(k);
    if a != 0 && b != 0 && k > 0 {
      OrBits(a / 2, b / 2, k - 1);
    }
  }

  /** A power of two has exactly one digit. */
  lemma {:induction false} PowerBits(j: nat, k: nat)
    ensures Bit(Pow2(j), k) == (j == k)
  {
    if j == 0 {
      if k > 0 { ZeroBits(k - 1); }
    } else if k > 0 {
      PowerBits(j - 1, k - 1);
    }
  }

  /** One less than a power of two has exactly the digits below it. */
  lemma {:induction false} MaskBits(j: nat, k: nat)
    ensures Bit(Pow2(j) - 1, k) == (k < j)
  {
    if j == 0 {
      ZeroBits(k);
    } else if k > 0 {
      assert (Pow2(j) - 1) / 2 == Pow2(j - 1) - 1;
      MaskBits(j - 1, k - 1);
    }
  }

  lemma {:induction false} HighBits(a: nat, w: nat, k: nat)
    requires a < Pow2(w) && w <= k
    ensures !Bit(a, k)
  {
    if w == 0 {
      ZeroBits(k);
    } else {
      HighBits(a / 2, w - 1, k - 1);
    }
  }

  /** A word whose digits all lie below w is less than 2^w. */
  lemma {:induction false} BitsBound(a: nat, w: nat)
    requires forall k: nat :: w <= k ==> !Bit(a, k)
    ensures a < Pow2(w)
    decreases a, w
  {
    if w == 0 {
      if a != 0 {
        assert !Bit(a, 0);
        forall k: nat ensures !Bit(a / 2, k) { assert Bit(a / 2, k) == Bit(a, k + 1); }
        BitsBound(a / 2, 0);
      }
    } else if a != 0 {
      forall k: nat | w - 1 <= k ensures !Bit(a / 2, k) { assert Bit(a / 2, k) == Bit(a, k + 1); }
      BitsBound(a / 2, w - 1);
    }
  }

  /** A word is determined by its digits. */
  lemma {:induction false} BitsDetermine(a: nat, b: nat)
    requires forall k: nat :: Bit(a, k) == Bit(b, k)
    ensures a == b
    decreases a + b
  {
    if a + b > 0 {
      assert Bit(a, 0) == Bit(b, 0);
      forall k: nat ensures Bit(a / 2, k) == Bit(b / 2, k) {
        assert Bit(a / 2, k) == Bit(a, k + 1) && Bit(b / 2, k) == Bit(b, k + 1);
      }
      BitsDetermine(a / 2, b / 2);
    }
  }
}
