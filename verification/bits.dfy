/** Bitwise operations on unsigned machine words, as natural numbers. */
module Bits {

  function Pow2(n: nat): (p: nat)
    ensures p > 0
  {
    if n == 0 then 1 else 2 * Pow2(n - 1)
  }

  /** Bit i of x, counted from the least significant one. */
  predicate Bit(x: nat, i: nat) {
    if i == 0 then x % 2 == 1 else Bit(x / 2, i - 1)
  }

  function Digit(b: bool): nat { if b then 1 else 0 }

  function Or(x: nat, y: nat): nat
    decreases x + y
  {
    if x == 0 then y else if y == 0 then x
    else 2 * Or(x / 2, y / 2) + Digit(x % 2 == 1 || y % 2 == 1)
  }

  /** x &^ y: the bits of x that y does not have. */
  function AndNot(x: nat, y: nat): nat
    decreases x
  {
    if x == 0 || y == 0 then x
    else 2 * AndNot(x / 2, y / 2) + Digit(x % 2 == 1 && y % 2 == 0)
  }

  /** ^x on n-bit words. */
  function Complement(x: nat, n: nat): nat
    requires x < Pow2(n)
  {
    Pow2(n) - 1 - x
  }

  lemma {:induction false} ZeroHasNoBits(i: nat)
    ensures !Bit(0, i)
  {
    if i > 0 { ZeroHasNoBits(i - 1); }
  }

  lemma {:induction false} OrBits(x: nat, y: nat, i: nat)
    ensures Bit(Or(x, y), i) <==> Bit(x, i) || Bit(y, i)
    decreases i
  {
    if x == 0 || y == 0 {
      ZeroHasNoBits(i);
    } else {
      var rest, low := Or(x / 2, y / 2), Digit(x % 2 == 1 || y % 2 == 1);
      assert Or(x, y) == 2 * rest + low;
      if i > 0 {
        OrBits(x / 2, y / 2, i - 1);
        assert (2 * rest + low) / 2 == rest;
      }
    }
  }

  lemma {:induction false} AndNotBits(x: nat, y: nat, i: nat)
    ensures Bit(AndNot(x, y), i) <==> Bit(x, i) && !Bit(y, i)
    decreases i
  {
    if x == 0 || y == 0 {
      ZeroHasNoBits(i);
    } else {
      var rest, low := AndNot(x / 2, y / 2), Digit(x % 2 == 1 && y % 2 == 0);
      assert AndNot(x, y) == 2 * rest + low;
      if i > 0 {
        AndNotBits(x / 2, y / 2, i - 1);
        assert (2 * rest + low) / 2 == rest;
      }
    }
  }

  lemma {:induction false} PowerBits(i: nat, j: nat)
    ensures Bit(Pow2(i), j) <==> i == j
  {
    if j > 0 {
      if i > 0 {
        PowerBits(i - 1, j - 1);
      } else {
        ZeroHasNoBits(j - 1);
      }
    }
  }

  lemma {:induction false} ComplementBits(x: nat, n: nat, i: nat)
    requires x < Pow2(n) && i < n
    ensures Bit(Complement(x, n), i) <==> !Bit(x, i)
  {
    if i > 0 {
      ComplementBits(x / 2, n - 1, i - 1);
      assert Complement(x, n) / 2 == Complement(x / 2, n - 1);
    }
  }

  lemma {:induction false} OrInRange(x: nat, y: nat, n: nat)
    requires x < Pow2(n) && y < Pow2(n)
    ensures Or(x, y) < Pow2(n)
    decreases n
  {
    if x != 0 && y != 0 {
      OrInRange(x / 2, y / 2, n - 1);
    }
  }

  lemma {:induction false} AndNotInRange(x: nat, y: nat)
    ensures AndNot(x, y) <= x
    decreases x
  {
    if x != 0 && y != 0 { AndNotInRange(x / 2, y / 2); }
  }

  lemma {:induction false} PowerGrows(m: nat, n: nat)
    requires m < n
    ensures Pow2(m) < Pow2(n)
  {
    if m + 1 < n { PowerGrows(m, n - 1); }
  }

  lemma DoubleProduct(a: nat, p: nat)
    ensures a * (2 * p) == 2 * (a * p)
  {
  }

  lemma OrOfDouble(h: nat, b: nat)
    ensures Or(2 * h, b) == 2 * Or(h, b / 2) + b % 2
  {
    assert 2 * h / 2 == h && 2 * h % 2 == 0;
    if h == 0 {
      assert Or(0, b) == b && Or(0, b / 2) == b / 2;
    } else if b == 0 {
      assert Or(2 * h, 0) == 2 * h && Or(h, 0) == h;
    }
  }

  /** `a << n | b` for b below 2^n. */
  lemma {:induction false} OrOfShifted(a: nat, n: nat, b: nat)
    requires b < Pow2(n)
    ensures Or(a * Pow2(n), b) == a * Pow2(n) + b
    decreases n
  {
    if n > 0 {
      var half := a * Pow2(n - 1);
      assert a * Pow2(n) == 2 * half by { DoubleProduct(a, Pow2(n - 1)); }
      assert Or(half, b / 2) == half + b / 2 by { OrOfShifted(a, n - 1, b / 2); }
      OrOfDouble(half, b);
    }
  }

  lemma {:induction false} PowerAdds(m: nat, n: nat)
    ensures Pow2(m + n) == Pow2(m) * Pow2(n)
  {
    if m > 0 {
      PowerAdds(m - 1, n);
      assert Pow2(m + n) == 2 * (Pow2(m - 1) * Pow2(n));
    }
  }

  lemma Powers()
    ensures Pow2(8) == 0x100 && Pow2(24) == 0x100_0000 && Pow2(32) == 0x1_0000_0000
  {
    assert Pow2(4) == 2 * Pow2(3) && Pow2(2) == 4;
    PowerAdds(4, 4);
    PowerAdds(8, 8);
    PowerAdds(16, 8);
    PowerAdds(24, 8);
  }
}
