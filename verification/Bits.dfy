/**
  Powers of two and bitwise operators on natural numbers.
 */
module Bits {

  function Pow2(n: nat): (p: nat)
    ensures p > 0
  {
    if n == 0 then 1 else 2 * Pow2(n - 1)
  }

  function And(a: nat, b: nat): nat {
    if a == 0 || b == 0 then 0
    else 2 * And(a / 2, b / 2) + (if a % 2 == 1 && b % 2 == 1 then 1 else 0)
  }

  /** The complement of `a` in a word of `w` bits. */
  function Not(w: nat, a: nat): nat
    requires a < Pow2(w)
  {
    Pow2(w) - 1 - a
  }

  lemma {:induction false} AndOnes(v: nat, w: nat)
    requires v < Pow2(w)
    ensures And(v, Pow2(w) - 1) == v
  {
    if v == 0 {
    } else {
      assert (Pow2(w) - 1) / 2 == Pow2(w - 1) - 1 && (Pow2(w) - 1) % 2 == 1;
      AndOnes(v / 2, w - 1);
    }
  }

  lemma {:induction false} Pow2Monotone(a: nat, b: nat)
    requires a <= b
    ensures Pow2(a) <= Pow2(b)
  {
    if a == b {
    } else {
      Pow2Monotone(a, b - 1);
    }
  }

  lemma DoubleMod(v: nat, m: nat)
    requires m > 0
    ensures v - v % (2 * m) == 2 * (v / 2 - v / 2 % m)
  {
    var h := v / 2;
    var q, r := h / m, h % m;
    assert h == m * q + r;
    var s := 2 * r + v % 2;
    assert v == (2 * m) * q + s;
    assert 0 <= s < 2 * m;
    ModUnique(v, 2 * m, q, s);
  }

  lemma ModUnique(v: int, m: nat, q: int, r: int)
    requires m > 0 && v == m * q + r && 0 <= r < m
    ensures v % m == r && v / m == q
  {
    var d := v / m - q;
    assert m * d == r - v % m by {
      assert v == m * (v / m) + v % m;
      assert m * (v / m - q) == m * (v / m) - m * q;
    }
    SmallMultiple(m, d);
  }

  lemma SmallMultiple(m: int, d: int)
    requires m > 0 && -m < m * d < m
    ensures d == 0
  {
  }

  lemma SameOrMore(m: nat, a: nat, b: nat)
    requires a <= b
    ensures m * a <= m * b && m * (b - a) == m * b - m * a
  {
  }

  lemma AndEven(v: nat, c: nat)
    ensures And(v, 2 * c) == 2 * And(v / 2, c)
  {
    assert 2 * c / 2 == c && 2 * c % 2 == 0;
  }

  lemma AndNotLowStep(v: nat, p: nat, q: nat)
    requires 0 < p <= q && And(v / 2, q - p) == v / 2 - v / 2 % p
    ensures And(v, 2 * (q - p)) == v - v % (2 * p)
  {
    hide And;
    AndEven(v, q - p);
    DoubleMod(v, p);
  }

  /** Clearing the low `k` bits rounds down to a multiple of `Pow2(k)`. */
  lemma {:induction false} AndNotLow(v: nat, w: nat, k: nat)
    requires v < Pow2(w) && k <= w
    ensures Pow2(k) <= Pow2(w)
    ensures And(v, Not(w, Pow2(k) - 1)) == v - v % Pow2(k)
  {
    Pow2Monotone(k, w);
    if k == 0 {
      AndOnes(v, w);
    } else {
      var p, q := Pow2(k - 1), Pow2(w - 1);
      assert Pow2(k) == 2 * p && Pow2(w) == 2 * q;
      AndNotLow(v / 2, w - 1, k - 1);
      assert Not(w - 1, p - 1) == q - p && Not(w, 2 * p - 1) == 2 * (q - p);
      hide And, Pow2, Not;
      AndNotLowStep(v, p, q);
    }
  }

  lemma {:induction false} Pow2Add(a: nat, b: nat)
    ensures Pow2(a + b) == Pow2(a) * Pow2(b)
  {
    if b == 0 {
    } else {
      Pow2Add(a, b - 1);
      TwoOut(Pow2(a), Pow2(b - 1));
    }
  }

  lemma TwoOut(p: int, q: int)
    ensures p * (2 * q) == 2 * (p * q)
  {
  }

  lemma Pow2Square(a: nat, v: nat)
    requires Pow2(a) == v
    ensures Pow2(2 * a) == v * v
  {
    Pow2Add(a, a);
  }

  lemma Pow2Words()
    ensures Pow2(1) == 2
    ensures Pow2(8) == 0x100
    ensures Pow2(32) == 0x1_0000_0000
    ensures Pow2(64) == 0x1_0000_0000_0000_0000
    ensures Pow2(128) == 0x1_0000_0000_0000_0000_0000_0000_0000_0000
  {
    assert Pow2(1) == 2 * Pow2(0);
    hide Pow2;
    Pow2Square(1, 2);
    Pow2Square(2, 4);
    Pow2Square(4, 16);
    Pow2Square(8, 0x100);
    Pow2Square(16, 0x1_0000);
    Pow2Square(32, 0x1_0000_0000);
    Pow2Square(64, 0x1_0000_0000_0000_0000);
  }

  function Or(a: nat, b: nat): nat {
    if a == 0 then b else if b == 0 then a
    else 2 * Or(a / 2, b / 2) + (if a % 2 == 1 || b % 2 == 1 then 1 else 0)
  }

  /** A bit set above nothing but zeros below it: or-ing is adding. */
  lemma {:induction false} OrBit(a: nat, k: nat)
    requires a % Pow2(k + 1) == 0
    ensures Or(a, Pow2(k)) == a + Pow2(k)
  {
    assert Pow2(k + 1) == 2 * Pow2(k);
    var q := a / Pow2(k + 1);
    assert a == Pow2(k + 1) * q;
    assert a == 2 * (Pow2(k) * q);
    if a != 0 && k > 0 {
      assert a / 2 == Pow2(k) * q;
      ModUnique(a / 2, Pow2(k), q, 0);
      OrBit(a / 2, k - 1);
    } else if a != 0 {
      assert Or(a / 2, 0) == a / 2;
    }
  }

  lemma {:induction false} OrBound(a: nat, b: nat, w: nat)
    requires a < Pow2(w) && b < Pow2(w)
    ensures Or(a, b) < Pow2(w)
  {
    if a != 0 && b != 0 {
      OrBound(a / 2, b / 2, w - 1);
    }
  }

  lemma MultipleOf(v: int, m: nat) returns (q: int)
    requires m > 0 && v % m == 0
    ensures v == m * q
  {
    q := v / m;
  }
}
