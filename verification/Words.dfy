/**
  64-bit words as natural numbers, seen through their bits.
 */
module Words {
  import opened Bits

  const WORD := 0x1_0000_0000_0000_0000

  type Word = w: nat | w < 0x1_0000_0000_0000_0000

  predicate Bit(v: nat, i: nat)
    decreases i
  {
    if i == 0 then v % 2 == 1 else Bit(v / 2, i - 1)
  }

  function Xor(a: nat, b: nat): nat {
    if a == 0 then b else if b == 0 then a
    else 2 * Xor(a / 2, b / 2) + (a % 2 + b % 2) % 2
  }

  /** Words wrap around. */
  function Wrap(v: int): Word {
    v % WORD
  }

  lemma WrapNear(v: int)
    requires -WORD <= v < 2 * WORD
    ensures Wrap(v) == if v < 0 then v + WORD else if v < WORD then v else v - WORD
  {
    ModUnique(v, WORD, if v < 0 then -1 else if v < WORD then 0 else 1, 
              if v < 0 then v + WORD else if v < WORD then v else v - WORD);
  }

  function Shl64(w: Word, s: nat): Word {
    Wrap(w * Pow2(s))
  }

  function Shr64(w: Word, s: nat): Word {
    Quotient(w, Pow2(s))
  }

  function Complement(w: Word): Word {
    WORD - 1 - w
  }

  function Quotient(v: nat, p: nat): (q: nat)
    requires p > 0
    ensures q <= v
  {
    var q := v / p;
    assert v == p * q + v % p;
    AtLeast(p, q, v);
    q
  }

  lemma AtLeast(p: int, q: int, v: int)
    requires p >= 1 && v >= 0 && p * q <= v < p * q + p
    ensures 0 <= q <= v
  {
    if q >= 0 {
      Product(p - 1, q);
      assert (p - 1) * q == p * q - q;
    }
  }

  lemma Product(a: nat, b: nat)
    ensures a * b >= 0
  {
  }

  /** The number of one-bits below position `n`; `__builtin_popcountll` is `Ones(w, 64)`. */
  function Ones(w: nat, n: nat): nat {
    if n == 0 then 0 else Ones(w, n - 1) + (if Bit(w, n - 1) then 1 else 0)
  }

  /** `__builtin_ctzll`: the lowest one-bit. */
  function Lowest(v: nat): (i: nat)
    requires v > 0
    ensures Bit(v, i) && forall j :: 0 <= j < i ==> !Bit(v, j)
  {
    if v % 2 == 1 then 0
    else
      var i := 1 + Lowest(v / 2);
      assert forall j :: 0 < j < i ==> Bit(v, j) == Bit(v / 2, j - 1);
      i
  }

  /** `63 - __builtin_clzll`: the highest one-bit. */
  function Highest(v: nat): (i: nat)
    requires v > 0
    ensures Bit(v, i)
  {
    if v == 1 then 0 else 1 + Highest(v / 2)
  }

  lemma {:induction false} HighestIsTop(v: nat, j: nat)
    requires v > 0 && j > Highest(v)
    ensures !Bit(v, j)
    decreases v
  {
    if v == 1 {
      ZeroBits(j - 1);
    } else {
      HighestIsTop(v / 2, j - 1);
    }
  }

  lemma {:induction false} ZeroBits(i: nat)
    ensures !Bit(0, i)
  {
    if i == 0 {
    } else {
      ZeroBits(i - 1);
    }
  }

  /** Nothing stands above the width. */
  lemma {:induction false} BitBelow(v: nat, n: nat, i: nat)
    requires v < Pow2(n) && Bit(v, i)
    ensures i < n
    decreases n
  {
    if n == 0 {
      ZeroBits(i);
    } else if i > 0 {
      BitBelow(v / 2, n - 1, i - 1);
    }
  }

  lemma WordBit(w: Word, i: nat)
    requires Bit(w, i)
    ensures i < 64
  {
    Pow2Words();
    BitBelow(w, 64, i);
  }

  lemma {:induction false} AndBits(a: nat, b: nat, i: nat)
    ensures Bit(And(a, b), i) == (Bit(a, i) && Bit(b, i))
    decreases i
  {
    if a == 0 || b == 0 {
      ZeroBits(i);
    } else if i > 0 {
      AndBits(a / 2, b / 2, i - 1);
    }
  }

  lemma {:induction false} OrBits(a: nat, b: nat, i: nat)
    ensures Bit(Or(a, b), i) == (Bit(a, i) || Bit(b, i))
    decreases i
  {
    if a == 0 || b == 0 {
      ZeroBits(i);
    } else if i > 0 {
      OrBits(a / 2, b / 2, i - 1);
    }
  }

  lemma {:induction false} XorBits(a: nat, b: nat, i: nat)
    ensures Bit(Xor(a, b), i) == (Bit(a, i) != Bit(b, i))
    decreases i
  {
    if a == 0 || b == 0 {
      ZeroBits(i);
    } else if i > 0 {
      XorBits(a / 2, b / 2, i - 1);
    }
  }

  lemma {:induction false} NotBits(v: nat, n: nat, i: nat)
    requires v < Pow2(n) && i < n
    ensures Bit(Pow2(n) - 1 - v, i) == !Bit(v, i)
    decreases n
  {
    var p := Pow2(n - 1);
    assert Pow2(n) == 2 * p;
    assert (2 * p - 1 - v) / 2 == p - 1 - v / 2;
    if i == 0 {
    } else {
      NotBits(v / 2, n - 1, i - 1);
    }
  }

  lemma {:induction false} TimesBits(v: nat, s: nat, i: nat)
    ensures Bit(v * Pow2(s), i) == (i >= s && Bit(v, i - s))
    decreases s
  {
    if s > 0 {
      assert v * Pow2(s) == 2 * (v * Pow2(s - 1));
      if i > 0 {
        TimesBits(v, s - 1, i - 1);
      }
    } else {
      assert v * Pow2(0) == v;
    }
  }

  lemma {:induction false} ModBits(v: nat, n: nat, i: nat)
    ensures Bit(v % Pow2(n), i) == (i < n && Bit(v, i))
    decreases n
  {
    if n == 0 {
      assert v % Pow2(0) == 0;
      ZeroBits(i);
    } else {
      var p := Pow2(n - 1);
      assert Pow2(n) == 2 * p;
      var h := v / 2;
      HalfMod(v, p);
      if i > 0 {
        ModBits(h, n - 1, i - 1);
      }
    }
  }

  lemma HalfMod(v: nat, p: nat)
    requires p > 0
    ensures v % (2 * p) / 2 == v / 2 % p && v % (2 * p) % 2 == v % 2
  {
    var h := v / 2;
    var q, r := h / p, h % p;
    assert h == p * q + r;
    assert v == (2 * p) * q + (2 * r + v % 2);
    ModUnique(v, 2 * p, q, 2 * r + v % 2);
  }

  lemma {:induction false} DivBits(v: nat, s: nat, i: nat)
    ensures Bit(Quotient(v, Pow2(s)), i) == Bit(v, i + s)
    decreases s
  {
    if s == 0 {
      assert v / Pow2(0) == v;
    } else {
      HalfDiv(v, Pow2(s - 1));
      DivBits(v / 2, s - 1, i);
    }
  }

  lemma HalfDiv(v: nat, p: nat)
    requires p > 0
    ensures v / (2 * p) == v / 2 / p
  {
    var h := v / 2;
    var q, r := h / p, h % p;
    assert h == p * q + r;
    assert v == (2 * p) * q + (2 * r + v % 2);
    ModUnique(v, 2 * p, q, 2 * r + v % 2);
  }

  lemma ShlBits(w: Word, s: nat, i: nat)
    ensures Bit(Shl64(w, s), i) == (s <= i < 64 && Bit(w, i - s))
  {
    hide Bit, Pow2;
    Pow2Words();
    ModBits(w * Pow2(s), 64, i);
    TimesBits(w, s, i);
  }

  lemma ShrBits(w: Word, s: nat, i: nat)
    ensures Bit(Shr64(w, s), i) == Bit(w, i + s)
  {
    hide Bit, Pow2;
    DivBits(w, s, i);
  }

  lemma ComplementBits(w: Word, i: nat)
    requires i < 64
    ensures Bit(Complement(w), i) == !Bit(w, i)
  {
    hide Bit, Pow2;
    Pow2Words();
    NotBits(w, 64, i);
  }
}
