/**
  128-bit unsigned integers as two 64-bit words (`uint128_t`).
 */
module UInt128 {
  import opened Options
  import opened Bits
  import opened Words

  const HALF: nat := 0x1_0000_0000
  const RANGE: nat := 0x1_0000_0000_0000_0000_0000_0000_0000_0000

  datatype UInt128 = UInt128(upper: Word, lower: Word)

  const ZERO := UInt128(0, 0)
  const ONE := UInt128(0, 1)

  function Value(x: UInt128): (v: nat)
    ensures v < RANGE
  {
    x.upper * WORD + x.lower
  }

  function Of(w: Word): UInt128 {
    UInt128(0, w)
  }

  lemma MulAtLeast(m: nat, q: nat)
    requires m > 0
    ensures m * q >= q
  {
    var d := m - 1;
    assert m * q == d * q + q;
  }

  // ---- Comparison

  predicate Greater(x: UInt128, y: UInt128) {
    if x.upper == y.upper then x.lower > y.lower else x.upper > y.upper
  }

  predicate Less(x: UInt128, y: UInt128) {
    if x.upper == y.upper then x.lower < y.lower else x.upper < y.upper
  }

  predicate GreaterEqual(x: UInt128, y: UInt128) {
    Greater(x, y) || x == y
  }

  predicate LessEqual(x: UInt128, y: UInt128) {
    Less(x, y) || x == y
  }

  predicate NotEqual(x: UInt128, y: UInt128) {
    x.upper != y.upper || x.lower != y.lower
  }

  lemma Compare(x: UInt128, y: UInt128)
    ensures Greater(x, y) <==> Value(x) > Value(y)
    ensures Less(x, y) <==> Value(x) < Value(y)
    ensures GreaterEqual(x, y) <==> Value(x) >= Value(y)
    ensures LessEqual(x, y) <==> Value(x) <= Value(y)
    ensures x == y <==> Value(x) == Value(y)
    ensures NotEqual(x, y) <==> Value(x) != Value(y)
  {
  }

  // ---- Addition and subtraction

  lemma AddWords(x: UInt128, y: UInt128)
    ensures var carry := if Wrap(x.lower + y.lower) < x.lower then 1 else 0;
            Wrap(x.upper + y.upper + carry) * WORD + Wrap(x.lower + y.lower) == (Value(x) + Value(y)) % RANGE
  {
    hide Wrap;
    var d := x.lower + y.lower;
    WrapNear(d);
    var e := x.upper + y.upper + (if d < WORD then 0 else 1);
    WrapNear(e);
    ModUnique(Value(x) + Value(y), RANGE, if e < WORD then 0 else 1, Wrap(e) * WORD + Wrap(d));
  }

  function Add(x: UInt128, y: UInt128): (r: UInt128)
    ensures Value(r) == (Value(x) + Value(y)) % RANGE
  {
    AddWords(x, y);
    var carry := if Wrap(x.lower + y.lower) < x.lower then 1 else 0;
    UInt128(Wrap(x.upper + y.upper + carry), Wrap(x.lower + y.lower))
  }

  lemma SubWords(x: UInt128, y: UInt128)
    ensures var borrow := if Wrap(x.lower - y.lower) > x.lower then 1 else 0;
            Wrap(x.upper - y.upper - borrow) * WORD + Wrap(x.lower - y.lower) == (Value(x) - Value(y)) % RANGE
  {
    hide Wrap;
    var d := x.lower - y.lower;
    WrapNear(d);
    var e := x.upper - y.upper - (if d < 0 then 1 else 0);
    WrapNear(e);
    ModUnique(Value(x) - Value(y), RANGE, if e < 0 then -1 else 0, Wrap(e) * WORD + Wrap(d));
  }

  function Sub(x: UInt128, y: UInt128): (r: UInt128)
    ensures Value(r) == (Value(x) - Value(y)) % RANGE
  {
    SubWords(x, y);
    var borrow := if Wrap(x.lower - y.lower) > x.lower then 1 else 0;
    UInt128(Wrap(x.upper - y.upper - borrow), Wrap(x.lower - y.lower))
  }

  // ---- Multiplication

  function Low(p: nat): (l: nat) ensures l < HALF { p % HALF }
  function High(p: nat): nat { p / HALF }

  /** Four 32-bit limbs, most significant first. */
  function Limbs(x: UInt128): (t: seq<nat>)
    ensures |t| == 4
    ensures forall i :: 0 <= i < 4 ==> t[i] < HALF
    ensures Value(x) == ((t[0] * HALF + t[1]) * HALF + t[2]) * HALF + t[3]
  {
    [x.upper / HALF, x.upper % HALF, x.lower / HALF, x.lower % HALF]
  }

  lemma LimbProduct(a: nat, b: nat)
    requires a < HALF && b < HALF
    ensures a * b < WORD
  {
    ProductBound(a, b, HALF - 1);
  }

  lemma ProductBound(a: nat, b: nat, m: nat)
    requires a <= m && b <= m
    ensures a * b <= m * m
  {
    assert m * m - a * b == m * (m - b) + (m - a) * b;
    assert m * (m - b) >= 0 && (m - a) * b >= 0;
  }

  function LimbMul(a: nat, b: nat): (p: Word)
    requires a < HALF && b < HALF
    ensures p == a * b
  {
    LimbProduct(a, b);
    Wrap(a * b)
  }

  lemma HighBound(p: Word)
    ensures High(p) < HALF
  {
  }

  /** Word addition; exact while the sum fits. */
  function Plus(a: nat, b: nat): (c: Word)
    ensures a + b < WORD ==> c == a + b
  {
    Wrap(a + b)
  }

  /** Column sums of the partial products; no carry is lost in a 64-bit word. */
  function Third(p02: Word, p03: Word, p13: Word): (c: Word)
    ensures c == Low(p02) + High(p03) + Low(p13)
  {
    HighBound(p03);
    Plus(Plus(Low(p02), High(p03)), Low(p13))
  }

  function Second(p01: Word, p02: Word, p12: Word, p13: Word, p23: Word): (c: Word)
    ensures c == Low(p01) + High(p02) + Low(p12) + High(p13) + Low(p23)
  {
    HighBound(p02); HighBound(p13);
    Plus(Plus(Plus(Low(p01), High(p02)), Plus(Low(p12), High(p13))), Low(p23))
  }

  function First(p00: Word, p01: Word, p11: Word, p12: Word, p22: Word, p23: Word, p33: Word): (c: Word)
    ensures c == Low(p00) + High(p01) + Low(p11) + High(p12) + Low(p22) + High(p23) + Low(p33)
  {
    HighBound(p01); HighBound(p12); HighBound(p23);
    Plus(Plus(Plus(Plus(Low(p00), High(p01)), Plus(Low(p11), High(p12))), Plus(Low(p22), High(p23))), Low(p33))
  }

  lemma ModAdd(a: int, b: int, m: nat)
    requires m > 0
    ensures (a % m + b) % m == (a + b) % m
  {
    var q := a / m;
    assert a == m * q + a % m;
    var s := a % m + b;
    var k := s / m;
    assert s == m * k + s % m;
    assert a + b == m * (q + k) + s % m;
    ModUnique(a + b, m, q + k, s % m);
  }

  function Assemble(first: Word, second: Word, third: Word, fourth: Word): UInt128 {
    Add(Add(Add(UInt128(Wrap(first * HALF), 0), UInt128(third / HALF, Wrap(third * HALF))), UInt128(second, 0)),
        Of(fourth))
  }

  lemma AssembleValue(first: Word, second: Word, third: Word, fourth: Word)
    ensures Value(Assemble(first, second, third, fourth))
         == (first * (HALF * WORD) + second * WORD + third * HALF + fourth) % RANGE
  {
    var a, b, c, d := UInt128(Wrap(first * HALF), 0), UInt128(third / HALF, Wrap(third * HALF)), UInt128(second, 0), Of(fourth);
    var q := first * HALF / WORD;
    assert Value(a) == first * (HALF * WORD) - RANGE * q;
    assert Value(b) == third * HALF;
    assert Value(c) == second * WORD && Value(d) == fourth;
    AddFour(a, b, c, d);
    hide Value;
    ModShift(Value(a) + Value(b) + Value(c) + Value(d), RANGE, q);
  }

  lemma AddFour(a: UInt128, b: UInt128, c: UInt128, d: UInt128)
    ensures Value(Add(Add(Add(a, b), c), d)) == (Value(a) + Value(b) + Value(c) + Value(d)) % RANGE
  {
    hide Value;
    ModAdd(Value(a) + Value(b), Value(c), RANGE);
    ModAdd(Value(a) + Value(b) + Value(c), Value(d), RANGE);
  }

  lemma ModShift(a: int, m: nat, k: int)
    requires m > 0
    ensures (a + m * k) % m == a % m
  {
    var q := a / m;
    assert a + m * k == m * (q + k) + a % m;
    ModUnique(a + m * k, m, q + k, a % m);
  }

  function Mul(x: UInt128, y: UInt128): UInt128 {
    var t, b := Limbs(x), Limbs(y);
    var p00, p01, p02, p03 := LimbMul(t[3], b[0]), LimbMul(t[3], b[1]), LimbMul(t[3], b[2]), LimbMul(t[3], b[3]);
    var p11, p12, p13 := LimbMul(t[2], b[1]), LimbMul(t[2], b[2]), LimbMul(t[2], b[3]);
    var p22, p23 := LimbMul(t[1], b[2]), LimbMul(t[1], b[3]);
    var p33 := LimbMul(t[0], b[3]);
    Assemble(First(p00, p01, p11, p12, p22, p23, p33), Second(p01, p02, p12, p13, p23), Third(p02, p03, p13), Low(p03))
  }

  lemma Distribute(y: int, a: int, h: int, b: int)
    ensures y * (a * h + b) == (y * a) * h + y * b
  {
    assert y * (a * h) == (y * a) * h;
  }

  /** A number times a number of four limbs, limb by limb. */
  lemma TimesLimbs(y: int, t0: int, t1: int, t2: int, t3: int, h: int)
    ensures y * (((t0 * h + t1) * h + t2) * h + t3) == (((y * t0) * h + y * t1) * h + y * t2) * h + y * t3
  {
    Distribute(y, t0, h, t1);
    Distribute(y, t0 * h + t1, h, t2);
    Distribute(y, (t0 * h + t1) * h + t2, h, t3);
  }

  /** A number in the Horner form of its limbs. */
  function Horner(a: int, b: int, c: int, d: int): int {
    ((a * HALF + b) * HALF + c) * HALF + d
  }

  /** The sixteen partial products add up to the four columns and a multiple of 2^128. */
  lemma ColumnsSum(q00: nat, q01: nat, q02: nat, q03: nat, q10: nat, q11: nat, q12: nat, q13: nat,
                   q20: nat, q21: nat, q22: nat, q23: nat, q30: nat, q31: nat, q32: nat, q33: nat)
    ensures var fourth := Low(q33);
            var third := Low(q32) + High(q33) + Low(q23);
            var second := Low(q31) + High(q32) + Low(q22) + High(q23) + Low(q13);
            var first := Low(q30) + High(q31) + Low(q21) + High(q22) + Low(q12) + High(q13) + Low(q03);
            var over := High(q30) + High(q21) + High(q12) + High(q03) + q20 + q11 + q02
                        + HALF * (q10 + q01) + WORD * q00;
            first * (HALF * WORD) + second * WORD + third * HALF + fourth + RANGE * over
            == Horner(Horner(q00, q10, q20, q30), Horner(q01, q11, q21, q31), Horner(q02, q12, q22, q32),
                      Horner(q03, q13, q23, q33))
  {
  }

  function Row(t: seq<nat>, b: nat): int
    requires |t| == 4
  {
    Horner(t[0] * b, t[1] * b, t[2] * b, t[3] * b)
  }

  lemma RowValue(x: UInt128, b: nat)
    ensures Row(Limbs(x), b) == Value(x) * b
  {
    var t := Limbs(x);
    TimesLimbs(b, t[0], t[1], t[2], t[3], HALF);
  }

  lemma ValueProduct(x: UInt128, y: UInt128)
    ensures var t, b := Limbs(x), Limbs(y);
            Value(x) * Value(y) == Horner(Row(t, b[0]), Row(t, b[1]), Row(t, b[2]), Row(t, b[3]))
  {
    var b := Limbs(y);
    hide Row;
    TimesLimbs(Value(x), b[0], b[1], b[2], b[3], HALF);
    RowValue(x, b[0]);
    RowValue(x, b[1]);
    RowValue(x, b[2]);
    RowValue(x, b[3]);
  }

  lemma FromProducts(q00: nat, q01: nat, q02: nat, q03: Word, q10: nat, q11: nat, q12: Word, q13: Word,
                     q20: nat, q21: Word, q22: Word, q23: Word, q30: Word, q31: Word, q32: Word, q33: Word)
    ensures Value(Assemble(First(q30, q31, q21, q22, q12, q13, q03), Second(q31, q32, q22, q23, q13),
                           Third(q32, q33, q23), Low(q33)))
         == Horner(Horner(q00, q10, q20, q30), Horner(q01, q11, q21, q31), Horner(q02, q12, q22, q32),
                   Horner(q03, q13, q23, q33)) % RANGE
  {
    hide Horner, Value, Assemble;
    var first, second, third := First(q30, q31, q21, q22, q12, q13, q03), Second(q31, q32, q22, q23, q13), Third(q32, q33, q23);
    ColumnsSum(q00, q01, q02, q03, q10, q11, q12, q13, q20, q21, q22, q23, q30, q31, q32, q33);
    AssembleValue(first, second, third, Low(q33));
    var over := High(q30) + High(q21) + High(q12) + High(q03) + q20 + q11 + q02 + HALF * (q10 + q01) + WORD * q00;
    ModShift(first * (HALF * WORD) + second * WORD + third * HALF + Low(q33), RANGE, over);
  }

  /** `operator*` is multiplication modulo 2^128. */
  lemma MulValue(x: UInt128, y: UInt128)
    ensures Value(Mul(x, y)) == Value(x) * Value(y) % RANGE
  {
    var t, b := Limbs(x), Limbs(y);
    ValueProduct(x, y);
    hide Low, High, Horner, Value, Assemble, First, Second, Third;
    FromProducts(t[0] * b[0], t[0] * b[1], t[0] * b[2], LimbMul(t[0], b[3]),
                 t[1] * b[0], t[1] * b[1], LimbMul(t[1], b[2]), LimbMul(t[1], b[3]),
                 t[2] * b[0], LimbMul(t[2], b[1]), LimbMul(t[2], b[2]), LimbMul(t[2], b[3]),
                 LimbMul(t[3], b[0]), LimbMul(t[3], b[1]), LimbMul(t[3], b[2]), LimbMul(t[3], b[3]));
  }

  // ---- Shifts

  function Shl(x: UInt128, y: UInt128): UInt128 {
    var shift := y.lower;
    if y.upper != 0 || shift >= 128 then ZERO
    else if shift == 64 then UInt128(x.lower, 0)
    else if shift == 0 then x
    else if shift < 64 then
      UInt128(Wrap(Shl64(x.upper, shift) + Shr64(x.lower, 64 - shift)), Shl64(x.lower, shift))
    else UInt128(Shl64(x.lower, shift - 64), 0)
  }

  function Shr(x: UInt128, y: UInt128): UInt128 {
    var shift := y.lower;
    if y.upper != 0 || shift >= 128 then ZERO
    else if shift == 64 then UInt128(0, x.upper)
    else if shift == 0 then x
    else if shift < 64 then
      UInt128(Shr64(x.upper, shift), Wrap(Shl64(x.upper, 64 - shift) + Shr64(x.lower, shift)))
    else UInt128(0, Shr64(x.upper, shift - 64))
  }

  // Identities of shifted numbers, free of constants.

  lemma SplitProduct(v: nat, m: nat, p: nat)
    requires m > 0 && p > 0
    ensures v * p == (m * p) * (v / m) + (v % m) * p
    ensures 0 <= (v % m) * p < m * p
  {
    var q, r := v / m, v % m;
    assert v == m * q + r;
    assert (m * q + r) * p == (m * q) * p + r * p;
    assert (m * q) * p == (m * p) * q;
    BelowProduct(r, m, p);
  }

  lemma BelowProduct(r: nat, m: nat, p: nat)
    requires r < m && p > 0
    ensures r * p < m * p
  {
    var d := m - r;
    assert m * p == r * p + d * p;
    MulAtLeast(d, p);
  }

  lemma HighIdentity(u: int, l: int, p: int, q: int, r: int, w: int)
    requires l * p == w * q + r
    ensures (u * w + l) * (w * p) == (w * w) * (u * p + q) + r * w
  {
    assert (u * w + l) * (w * p) == (u * w) * (w * p) + l * (w * p);
    assert (u * w) * (w * p) == (w * w) * (u * p);
    assert l * (w * p) == (l * p) * w;
    assert (w * q + r) * w == (w * w) * q + r * w;
    assert (w * w) * (u * p + q) == (w * w) * (u * p) + (w * w) * q;
  }

  lemma LowIdentity(u: int, l: int, p: int, k: int, a: int, q: int, r: int, w: int)
    requires u * p == w * k + a && l * p == w * q + r
    ensures (u * w + l) * p == (w * w) * k + (a + q) * w + r
  {
    assert (u * w + l) * p == (u * w) * p + l * p;
    assert (u * w) * p == (u * p) * w;
    assert (w * k + a) * w == (w * w) * k + a * w;
    assert (a + q) * w == a * w + q * w;
  }

  /** Moving a word up by `s` bits: what leaves it and what stays. */
  lemma ShlWord(w: Word, s: nat)
    requires s <= 64
    ensures w * Pow2(s) == WORD * Shr64(w, 64 - s) + Shl64(w, s)
  {
    var m, p := Pow2(64 - s), Pow2(s);
    assert m * p == WORD by {
      Pow2Words();
      Pow2Add(64 - s, s);
    }
    SplitProduct(w, m, p);
    ModUnique(w * p, WORD, w / m, (w % m) * p);
  }

  lemma ShlHigh(x: UInt128, s: nat)
    requires 64 <= s < 128
    ensures Shl64(x.lower, s - 64) * WORD == Value(x) * Pow2(s) % RANGE
  {
    hide Shl64, Shr64;
    var p := Pow2(s - 64);
    assert Pow2(s) == WORD * p by {
      Pow2Words();
      Pow2Add(64, s - 64);
    }
    ShlWord(x.lower, s - 64);
    var q := Shr64(x.lower, 64 - (s - 64));
    HighIdentity(x.upper, x.lower, p, q, Shl64(x.lower, s - 64), WORD);
    ModUnique(Value(x) * Pow2(s), RANGE, x.upper * p + q, Shl64(x.lower, s - 64) * WORD);
  }

  lemma ShlLow(x: UInt128, s: nat)
    requires s < 64
    ensures Wrap(Shl64(x.upper, s) + Shr64(x.lower, 64 - s)) * WORD + Shl64(x.lower, s) == Value(x) * Pow2(s) % RANGE
  {
    hide Shl64, Shr64;
    var p := Pow2(s);
    ShlWord(x.lower, s);
    ShlWord(x.upper, s);
    var k := Shr64(x.upper, 64 - s);
    var u := Shl64(x.upper, s) + Shr64(x.lower, 64 - s);
    LowIdentity(x.upper, x.lower, p, k, Shl64(x.upper, s), Shr64(x.lower, 64 - s), Shl64(x.lower, s), WORD);
    var c := u / WORD;
    assert u == WORD * c + Wrap(u);
    ModUnique(Value(x) * p, RANGE, k + c, Wrap(u) * WORD + Shl64(x.lower, s));
  }

  /** `operator<<` multiplies by a power of two modulo 2^128, for every shift amount. */
  lemma ShlValue(x: UInt128, y: UInt128)
    ensures Value(Shl(x, y)) == if Value(y) >= 128 then 0 else Value(x) * Pow2(Value(y)) % RANGE
  {
    var s := y.lower;
    if y.upper == 0 && s < 128 {
      assert Value(y) == s;
      hide Shl64, Shr64;
      if s >= 64 {
        ShlHigh(x, s);
        ShlZero(x.lower);
      } else {
        ShlLow(x, s);
        ShlZero(x.lower);
        ShlZero(x.upper);
      }
    }
  }

  lemma ShlZero(w: Word)
    ensures Shl64(w, 0) == w && Shr64(w, 0) == w && Shr64(w, 64) == 0
  {
    Pow2Words();
  }

  lemma ShrIdentity(u: int, l: int, p: int, m: int, w: int, q: int, r: int, c: int, d: int)
    requires w == p * m && u == p * q + r && l == p * c + d
    ensures u * w + l == p * (q * w + (r * m + c)) + d
  {
    assert u * w == (p * q) * w + r * w;
    assert (p * q) * w == p * (q * w);
    assert r * (p * m) == p * (r * m);
    assert p * (q * w + (r * m + c)) == p * (q * w) + p * (r * m) + p * c;
  }

  lemma QuotientBelow(l: nat, p: nat, m: nat)
    requires p > 0 && l < p * m
    ensures l / p < m
  {
    var c := l / p;
    assert l == p * c + l % p;
    if c >= m {
      MulMonotone(p, m, c);
    }
  }

  lemma MulMonotone(p: nat, m: nat, c: nat)
    requires m <= c
    ensures p * m <= p * c
  {
    var d := c - m;
    assert p * c == p * m + p * d;
  }

  lemma AtMostProduct(r: nat, p: nat, m: nat)
    requires r < p
    ensures r * m + m <= p * m
  {
    var d := p - 1 - r;
    assert p * m == r * m + m + d * m;
  }

  lemma ShrLowArith(u: nat, l: nat, p: nat, m: nat, w: nat)
    requires p > 0 && w == p * m && l < w
    ensures (u * w + l) / p == (u / p) * w + ((u % p) * m + l / p)
    ensures (u % p) * m + l / p < w
  {
    var q, r, c, d := u / p, u % p, l / p, l % p;
    QuotientBelow(l, p, m);
    AtMostProduct(r, p, m);
    ShrIdentity(u, l, p, m, w, q, r, c, d);
    ModUnique(u * w + l, p, q * w + (r * m + c), d);
  }

  lemma ShrHighArith(u: nat, l: nat, p: nat, w: nat)
    requires p > 0 && l < w
    ensures w * p > 0 && (u * w + l) / (w * p) == u / p
  {
    var q, r := u / p, u % p;
    assert u == p * q + r;
    assert (p * q + r) * w == (w * p) * q + r * w by {
      assert (p * q) * w == (w * p) * q;
    }
    AtMostProduct(r, p, w);
    MulAtLeast(p, w);
    ModUnique(u * w + l, w * p, q, r * w + l);
  }

  lemma ShrLow(x: UInt128, s: nat)
    requires s < 64
    ensures Shr64(x.upper, s) * WORD + Wrap(Shl64(x.upper, 64 - s) + Shr64(x.lower, s)) == Value(x) / Pow2(s)
  {
    assert Pow2(s) * Pow2(64 - s) == WORD by {
      Pow2Words();
      Pow2Add(s, 64 - s);
    }
    ShlRemainder(x.upper, Pow2(s), Pow2(64 - s));
    hide Pow2, Wrap;
    ShrLowWords(x.upper, x.lower, Pow2(s), Pow2(64 - s), Shl64(x.upper, 64 - s));
  }

  lemma ShrLowWords(u: Word, l: Word, p: nat, m: nat, a: nat)
    requires p > 0 && p * m == WORD && a == (u % p) * m
    ensures u / p * WORD + Wrap(a + l / p) == (u * WORD + l) / p
  {
    hide Wrap;
    ShrLowArith(u, l, p, m, WORD);
    WrapSmall(a + l / p);
  }

  lemma WrapSmall(v: nat)
    requires v < WORD
    ensures Wrap(v) == v
  {
  }

  lemma ShlRemainder(u: Word, p: nat, m: nat)
    requires p > 0 && m > 0 && p * m == WORD
    ensures Wrap(u * m) == (u % p) * m
  {
    SplitProduct(u, p, m);
    ModUnique(u * m, WORD, u / p, (u % p) * m);
  }

  lemma ShrHigh(x: UInt128, s: nat)
    requires 64 <= s < 128
    ensures Shr64(x.upper, s - 64) == Value(x) / Pow2(s)
  {
    assert Pow2(s) == WORD * Pow2(s - 64) by {
      Pow2Words();
      Pow2Add(64, s - 64);
    }
    ShrHighArith(x.upper, x.lower, Pow2(s - 64), WORD);
  }

  /** `operator>>` divides by a power of two, for every shift amount. */
  lemma ShrValue(x: UInt128, y: UInt128)
    ensures Value(Shr(x, y)) == if Value(y) >= 128 then 0 else Value(x) / Pow2(Value(y))
  {
    var s := y.lower;
    if y.upper == 0 && s < 128 {
      assert Value(y) == s;
      assert s == 0 ==> Pow2(s) == 1;
      hide Shl64, Shr64, Pow2, Wrap;
      if s == 0 {
        assert Value(x) / 1 == Value(x);
      } else if s >= 64 {
        ShrHigh(x, s);
        ShlZero(x.upper);
      } else {
        ShrLow(x, s);
      }
    }
  }

  // ---- Bit length

  ghost predicate IsBitLength(v: nat, b: nat) {
    v < Pow2(b) && (b > 0 ==> Pow2(b - 1) <= v)
  }

  method WordBits(w: Word) returns (b: nat)
    ensures IsBitLength(w, b) && b <= 64
  {
    var left: nat := w;
    b := 0;
    while left != 0
      invariant left == w / Pow2(b)
      invariant b > 0 ==> Pow2(b - 1) <= w
      decreases left
    {
      HalveAgain(w, Pow2(b));
      AtLeastDivisor(w, Pow2(b));
      left := left / 2;
      b := b + 1;
    }
    ZeroQuotient(w, Pow2(b));
    BitLengthBound(w, b);
  }

  lemma BitLengthBound(w: Word, b: nat)
    requires IsBitLength(w, b)
    ensures b <= 64
  {
    Pow2Words();
    if b > 64 {
      Pow2Monotone(64, b - 1);
    }
  }

  lemma HalveAgain(v: nat, m: nat)
    requires m > 0
    ensures v / m / 2 == v / (2 * m)
  {
    var q := v / m;
    assert v == m * q + v % m;
    assert m * q == (2 * m) * (q / 2) + m * (q % 2);
    ModUnique(v, 2 * m, q / 2, m * (q % 2) + v % m);
  }

  lemma AtLeastDivisor(v: nat, m: nat)
    requires m > 0 && v / m > 0
    ensures m <= v
  {
    MulAtLeast(v / m, m);
    assert v == m * (v / m) + v % m;
  }

  lemma ZeroQuotient(v: nat, m: nat)
    requires m > 0 && v / m == 0
    ensures v < m
  {
  }

  /** `bits`: the position of the highest one-bit, counted from 1. */
  method BitLength(x: UInt128) returns (b: nat)
    ensures IsBitLength(Value(x), b) && b <= 128
  {
    if x.upper != 0 {
      b := WordBits(x.upper);
      UpperBits(x, b);
      b := b + 64;
    } else {
      b := WordBits(x.lower);
    }
  }

  lemma UpperBits(x: UInt128, b: nat)
    requires IsBitLength(x.upper, b) && x.upper != 0
    ensures b > 0 && IsBitLength(Value(x), b + 64)
  {
    Pow2Words();
    Pow2Add(b, 64);
    if b > 0 {
      Pow2Add(b - 1, 64);
      AtMostProduct(x.upper, Pow2(b), WORD);
      assert Pow2(b - 1) * WORD <= x.upper * WORD;
    }
  }

  // ---- Division

  function BitOr(x: UInt128, y: UInt128): UInt128 {
    Pow2Words();
    OrBound(x.upper, y.upper, 64);
    OrBound(x.lower, y.lower, 64);
    UInt128(Or(x.upper, y.upper), Or(x.lower, y.lower))
  }

  lemma SplitPower(x: UInt128, k: nat)
    requires k < 128 && Value(x) == Pow2(k)
    ensures k < 64 ==> x.upper == 0 && x.lower == Pow2(k)
    ensures k >= 64 ==> x.upper == Pow2(k - 64) && x.lower == 0
  {
    Pow2Words();
    if k < 64 {
      Pow2Monotone(k, 63);
      assert Pow2(64) == 2 * Pow2(63);
    } else {
      Pow2Add(64, k - 64);
    }
  }

  lemma LowMultiple(u: nat, l: nat, m: nat, f: nat, w: nat)
    requires m > 0 && w == m * f && (u * w + l) % m == 0
    ensures l % m == 0
  {
    var q := MultipleOf(u * w + l, m);
    assert u * w == m * (f * u);
    assert l == m * (q - f * u) by {
      assert m * (q - f * u) == m * q - m * (f * u);
    }
    ModUnique(l, m, q - f * u, 0);
  }

  lemma HighMultiple(u: nat, l: nat, m: nat, w: nat)
    requires m > 0 && l < w && (u * w + l) % (w * m) == 0
    ensures l == 0 && u % m == 0
  {
    var q := MultipleOf(u * w + l, w * m);
    assert (w * m) * q == w * (m * q);
    ModUnique(w * (m * q), w, m * q, 0);
    ModUnique(w * u + l, w, u, l);
    ModUnique(u, m, q, 0);
  }

  /** Or-ing in a power of two below which the quotient has no bits adds it. */
  lemma OrPower(q: UInt128, adder: UInt128, k: nat)
    requires k < 128 && Value(adder) == Pow2(k) && Value(q) % Pow2(k + 1) == 0
    ensures Value(BitOr(q, adder)) == Value(q) + Pow2(k)
  {
    SplitPower(adder, k);
    if k < 64 {
      LowerMultiple(q, k);
      OrBit(q.lower, k);
    } else {
      UpperMultiple(q, k);
      OrBit(q.upper, k - 64);
      assert Pow2(k) == WORD * Pow2(k - 64) by { PowerAbove(k); }
    }
  }

  lemma PowerAbove(k: nat)
    requires k >= 64
    ensures Pow2(k) == WORD * Pow2(k - 64)
  {
    hide Pow2;
    Pow2Words();
    Pow2Add(64, k - 64);
  }

  lemma LowerMultiple(q: UInt128, k: nat)
    requires k < 64 && Value(q) % Pow2(k + 1) == 0
    ensures q.lower % Pow2(k + 1) == 0
  {
    hide Pow2;
    Pow2Words();
    Pow2Add(k + 1, 63 - k);
    LowMultiple(q.upper, q.lower, Pow2(k + 1), Pow2(63 - k), WORD);
  }

  lemma UpperMultiple(q: UInt128, k: nat)
    requires 64 <= k < 128 && Value(q) % Pow2(k + 1) == 0
    ensures q.upper % Pow2(k - 63) == 0 && q.lower == 0
  {
    hide Pow2;
    PowerAbove(k + 1);
    HighMultiple(q.upper, q.lower, Pow2(k - 63), WORD);
  }

  lemma Halved(x: UInt128)
    ensures Value(Shr(x, ONE)) == Value(x) / 2
  {
    ShrValue(x, ONE);
    Pow2Words();
  }

  /** The divisor moved up to the bit length of the dividend: no bit is lost, and twice it exceeds the dividend. */
  lemma Aligned(lhs: nat, rhs: nat, bl: nat, br: nat)
    requires 0 < rhs < lhs && IsBitLength(lhs, bl) && IsBitLength(rhs, br) && bl <= 128
    ensures br <= bl
    ensures rhs * Pow2(bl - br) < Pow2(bl) <= Pow2(128)
    ensures lhs < 2 * (rhs * Pow2(bl - br))
  {
    if br > bl {
      Pow2Monotone(bl, br - 1);
    }
    Pow2Monotone(bl, 128);
    Pow2Add(br, bl - br);
    BitLengthPositive(rhs, br);
    hide Pow2;
    AlignedArith(lhs, rhs, Pow2(br - 1), Pow2(bl - br));
  }

  lemma BitLengthPositive(v: nat, b: nat)
    requires IsBitLength(v, b) && v > 0
    ensures b > 0 && Pow2(b) == 2 * Pow2(b - 1)
  {
  }

  lemma AlignedArith(lhs: nat, rhs: nat, a: nat, b: nat)
    requires a <= rhs < 2 * a && lhs < (2 * a) * b && b > 0
    ensures rhs * b < (2 * a) * b && lhs < 2 * (rhs * b)
  {
    BelowProduct(rhs, 2 * a, b);
    MulMonotone(b, a, rhs);
    assert (2 * a) * b == 2 * (b * a);
  }

  /** The state of the division loop: `copyd` is the divisor times `adder`, a power of two. */
  ghost predicate Dividing(lhs: nat, rhs: nat, q: nat, r: nat, copyd: nat, adder: nat, k: int) {
    && lhs == q * rhs + r && rhs > 0
    && k >= -1
    && (k == -1 ==> r < rhs)
    && (k >= 0 ==> adder == Pow2(k) && copyd == rhs * adder && r < 2 * copyd && q % Pow2(k + 1) == 0)
  }

  lemma HalveCopy(rhs: nat, k: nat)
    ensures k > 0 ==> (rhs * Pow2(k)) / 2 == rhs * Pow2(k - 1) && Pow2(k) / 2 == Pow2(k - 1)
  {
    if k > 0 {
      assert rhs * (2 * Pow2(k - 1)) == 2 * (rhs * Pow2(k - 1));
    }
  }

  lemma StillMultiple(q: nat, k: nat)
    requires q % Pow2(k + 1) == 0
    ensures q % Pow2(k) == 0 && (q + Pow2(k)) % Pow2(k) == 0
  {
    var c := MultipleOf(q, Pow2(k + 1));
    var p := Pow2(k);
    assert q == p * (2 * c);
    ModUnique(q, p, 2 * c, 0);
    assert q + p == p * (2 * c + 1);
    ModUnique(q + p, p, 2 * c + 1, 0);
  }

  lemma DividingStep(lhs: nat, rhs: nat, q: nat, r: nat, copyd: nat, adder: nat, k: int)
    requires Dividing(lhs, rhs, q, r, copyd, adder, k) && r >= rhs
    ensures k >= 0
    ensures r >= copyd ==> Dividing(lhs, rhs, q + adder, r - copyd, copyd / 2, adder / 2, k - 1)
    ensures r < copyd ==> Dividing(lhs, rhs, q, r, copyd / 2, adder / 2, k - 1)
  {
    HalveCopy(rhs, k);
    StillMultiple(q, k);
    assert (q + adder) * rhs == q * rhs + rhs * adder;
    assert k == 0 ==> adder == 1;
  }

  /** Move the divisor up as far as it still fits under the dividend. */
  method StartDivision(lhs: UInt128, rhs: UInt128, bl: nat, br: nat) returns (copyd: UInt128, adder: UInt128, ghost k: int)
    requires 0 < Value(rhs) < Value(lhs) && IsBitLength(Value(lhs), bl) && IsBitLength(Value(rhs), br) && br <= bl <= 128
    ensures 0 <= k < 128 && Dividing(Value(lhs), Value(rhs), 0, Value(lhs), Value(copyd), Value(adder), k)
  {
    Aligned(Value(lhs), Value(rhs), bl, br);
    AlignedStart(lhs, rhs, bl, br);
    copyd := Shl(rhs, Of(bl - br));
    adder := Shl(ONE, Of(bl - br));
    k := bl - br;
    Compare(copyd, lhs);
    Halved(copyd);
    Halved(adder);
    hide Value, Shl, Shr, Dividing;
    DividingStart(Value(lhs), Value(rhs), Value(copyd), k);
    if Greater(copyd, lhs) {
      copyd := Shr(copyd, ONE);
      adder := Shr(adder, ONE);
      k := k - 1;
    }
  }

  lemma DividingStart(lhs: nat, rhs: nat, copyd: nat, k: nat)
    requires 0 < rhs < lhs < 2 * copyd && copyd == rhs * Pow2(k)
    ensures copyd <= lhs ==> Dividing(lhs, rhs, 0, lhs, copyd, Pow2(k), k)
    ensures copyd > lhs ==> k > 0 && Dividing(lhs, rhs, 0, lhs, copyd / 2, Pow2(k) / 2, k - 1)
  {
    HalveCopy(rhs, k);
    assert k == 0 ==> Pow2(k) == 1;
  }

  lemma AlignedStart(lhs: UInt128, rhs: UInt128, bl: nat, br: nat)
    requires 0 < Value(rhs) < Value(lhs) && IsBitLength(Value(lhs), bl) && IsBitLength(Value(rhs), br) && br <= bl <= 128
    requires Value(rhs) * Pow2(bl - br) < Pow2(128)
    ensures bl - br < 128
    ensures Value(Shl(rhs, Of(bl - br))) == Value(rhs) * Pow2(bl - br)
    ensures Value(Shl(ONE, Of(bl - br))) == Pow2(bl - br)
  {
    BitLengthPositive(Value(rhs), br);
    hide Shl, Value, IsBitLength;
    Pow2Words();
    ShlExact(rhs, bl - br);
    PowerFits(bl - br);
    ShlExact(ONE, bl - br);
    assert Value(ONE) == 1 by { OneValue(); }
    assert 1 * Pow2(bl - br) == Pow2(bl - br);
  }

  lemma OneValue()
    ensures Value(ONE) == 1
  {
  }

  lemma PowerFits(d: nat)
    requires d < 128
    ensures Pow2(d) < RANGE
  {
    Pow2Words();
    Pow2Monotone(d, 127);
    assert Pow2(128) == 2 * Pow2(127);
  }

  lemma ShlExact(x: UInt128, d: nat)
    requires d < 128 && Value(x) * Pow2(d) < RANGE
    ensures Value(Shl(x, Of(d))) == Value(x) * Pow2(d)
  {
    assert Value(Of(d)) == d;
    ShlValue(x, Of(d));
    hide Shl, Value, Pow2;
    SmallProduct(Value(x), Pow2(d), RANGE);
  }

  lemma SmallProduct(a: nat, b: nat, m: nat)
    requires a * b < m
    ensures a * b % m == a * b
  {
    var v := a * b;
    Product(a, b);
    SmallMod(v, m);
  }

  lemma SmallMod(v: nat, m: nat)
    requires v < m
    ensures v % m == v
  {
  }

  /** One round of the division loop. */
  method DivisionStep(lhs: UInt128, rhs: UInt128, q: UInt128, rem: UInt128, copyd: UInt128, adder: UInt128, ghost k: int)
    returns (q': UInt128, rem': UInt128, copyd': UInt128, adder': UInt128)
    requires Dividing(Value(lhs), Value(rhs), Value(q), Value(rem), Value(copyd), Value(adder), k)
    requires GreaterEqual(rem, rhs) && k < 128
    ensures k >= 0
    ensures Dividing(Value(lhs), Value(rhs), Value(q'), Value(rem'), Value(copyd'), Value(adder'), k - 1)
  {
    Compare(rem, rhs);
    Compare(rem, copyd);
    SubValue(rem, copyd);
    hide Value, Shl, Shr, BitOr, Sub, GreaterEqual;
    DividingStep(Value(lhs), Value(rhs), Value(q), Value(rem), Value(copyd), Value(adder), k);
    q', rem' := q, rem;
    if GreaterEqual(rem, copyd) {
      OrPower(q, adder, k);
      rem' := Sub(rem, copyd);
      q' := BitOr(q, adder);
    }
    Halved(copyd);
    Halved(adder);
    copyd' := Shr(copyd, ONE);
    adder' := Shr(adder, ONE);
  }

  lemma SubValue(x: UInt128, y: UInt128)
    ensures Value(x) >= Value(y) ==> Value(Sub(x, y)) == Value(x) - Value(y)
  {
  }

  /** `divmod`: shift-and-subtract division; nothing only for a zero divisor. */
  method DivMod(lhs: UInt128, rhs: UInt128) returns (r: Option<(UInt128, UInt128)>)
    ensures r.None? <==> Value(rhs) == 0
    ensures r.Some? ==> Value(lhs) == Value(r.value.0) * Value(rhs) + Value(r.value.1) && Value(r.value.1) < Value(rhs)
  {
    if rhs == ZERO {
      return None;
    } else if rhs == ONE {
      return Some((lhs, ZERO));
    } else if lhs == rhs {
      return Some((ONE, ZERO));
    } else if lhs == ZERO || Less(lhs, rhs) {
      Compare(lhs, rhs);
      return Some((ZERO, lhs));
    }
    Compare(lhs, rhs);
    hide Value, Shl, Shr, BitOr, Add, Sub;
    NonZero(rhs);
    var bl := BitLength(lhs);
    var br := BitLength(rhs);
    Aligned(Value(lhs), Value(rhs), bl, br);
    var copyd, adder;
    ghost var k;
    copyd, adder, k := StartDivision(lhs, rhs, bl, br);
    var q, rem := ZERO, lhs;
    while GreaterEqual(rem, rhs)
      invariant k < 128 && Dividing(Value(lhs), Value(rhs), Value(q), Value(rem), Value(copyd), Value(adder), k)
      decreases k
    {
      q, rem, copyd, adder := DivisionStep(lhs, rhs, q, rem, copyd, adder, k);
      k := k - 1;
    }
    Compare(rem, rhs);
    return Some((q, rem));
  }

  lemma NonZero(x: UInt128)
    requires x != ZERO
    ensures Value(x) > 0
  {
  }

  /** `operator%`, through the quotient and a wrapping product. */
  method Mod(lhs: UInt128, rhs: UInt128) returns (r: Option<UInt128>)
    ensures r.None? <==> Value(rhs) == 0
    ensures r.Some? ==> Value(r.value) == Value(lhs) % Value(rhs)
  {
    var qr := DivMod(lhs, rhs);
    if qr.None? {
      return None;
    }
    var q := qr.value.0;
    hide Value, Mul, Sub;
    RemainderValue(lhs, rhs, q, Value(qr.value.1));
    return Some(Sub(lhs, Mul(rhs, q)));
  }

  lemma RemainderValue(lhs: UInt128, rhs: UInt128, q: UInt128, r: nat)
    requires Value(lhs) == Value(q) * Value(rhs) + r && r < Value(rhs)
    ensures Value(Sub(lhs, Mul(rhs, q))) == r == Value(lhs) % Value(rhs)
  {
    hide Value, Mul, Sub;
    var p := Value(rhs) * Value(q);
    assert p == Value(q) * Value(rhs);
    ModUnique(Value(lhs), Value(rhs), Value(q), r);
    MulValue(rhs, q);
    SmallMod(p, RANGE);
    SubValue(lhs, Mul(rhs, q));
  }

  // ---- Digits

  function Digit(d: nat): char
    requires d < 16
  {
    "0123456789abcdef"[d]
  }

  function DigitValue(c: char): nat {
    if '0' <= c <= '9' then (c - '0') as nat else if 'a' <= c <= 'f' then (c - 'a') as nat + 10 else 16
  }

  lemma DigitRoundTrip(d: nat)
    requires d < 16
    ensures DigitValue(Digit(d)) == d
  {
  }

  function Power(base: nat, n: nat): nat {
    if n == 0 then 1 else base * Power(base, n - 1)
  }

  /** The number a string of digits denotes. */
  function Eval(base: nat, s: string): nat {
    if s == "" then 0 else DigitValue(s[0]) * Power(base, |s| - 1) + Eval(base, s[1..])
  }

  ghost predicate AllDigits(base: nat, s: string) {
    forall i :: 0 <= i < |s| ==> DigitValue(s[i]) < base
  }

  lemma PrependDigit(base: nat, c: char, s: string, q: nat, q': nat)
    requires q == q' * base + DigitValue(c)
    ensures q * Power(base, |s|) + Eval(base, s) == q' * Power(base, |s| + 1) + Eval(base, [c] + s)
  {
    hide DigitValue;
    var p := Power(base, |s|);
    assert ([c] + s)[1..] == s;
    assert Power(base, |s| + 1) == base * p;
    assert Eval(base, [c] + s) == DigitValue(c) * p + Eval(base, s);
    hide Power, Eval;
    MovedUp(q', base, DigitValue(c), p);
  }

  lemma MovedUp(q: nat, base: nat, d: nat, p: nat)
    ensures (q * base + d) * p == q * (base * p) + d * p
  {
    assert (q * base) * p == q * (base * p);
  }

  lemma {:induction false} PadZeros(base: nat, n: nat, s: string)
    ensures Eval(base, seq(n, _ => '0') + s) == Eval(base, s)
  {
    var z := seq(n, _ => '0');
    if n == 0 {
      assert z + s == s;
    } else {
      assert (z + s)[1..] == seq(n - 1, _ => '0') + s;
      PadZeros(base, n - 1, s);
    }
  }

  /** `str`: digits that denote the value, padded with zeros to the asked length and no further. */
  method Str(x: UInt128, base: nat, len: nat) returns (r: Option<string>)
    ensures r.Some? <==> 2 <= base <= 16
    ensures r.Some? ==> Eval(base, r.value) == Value(x) && AllDigits(base, r.value)
    ensures r.Some? ==> |r.value| >= len && |r.value| >= 1
    ensures r.Some? && |r.value| > len && |r.value| > 1 ==> r.value[0] != '0'
  {
    if base < 2 || base > 16 {
      return None;
    }
    var out: string := "";
    if x == ZERO {
      out := "0";
      assert Power(base, 0) == 1;
    } else {
      out := Digits(x, base);
    }
    if |out| < len {
      PadZeros(base, len - |out|, out);
      out := seq(len - |out|, _ => '0') + out;
    }
    return Some(out);
  }

  method Digits(x: UInt128, base: nat) returns (out: string)
    requires 2 <= base <= 16 && x != ZERO
    ensures Eval(base, out) == Value(x) && AllDigits(base, out)
    ensures out != "" && out[0] != '0'
  {
    NonZero(x);
    OfValue(base);
    hide Value, Digit, DigitValue;
    out := "";
    var q := x;
    NoDigits(base, Value(x));
    while true
      invariant Value(q) * Power(base, |out|) + Eval(base, out) == Value(x)
      invariant AllDigits(base, out) && Value(q) > 0
      decreases Value(q)
    {
      var qr := DivMod(q, Of(base));
      ghost var before := Value(q);
      var d := qr.value.1.lower;
      SmallRemainder(qr.value.1, base);
      DigitRoundTrip(d);
      PrependDigit(base, Digit(d), out, Value(q), Value(qr.value.0));
      QuotientShrinks(Value(q), Value(qr.value.0), base, d);
      out := [Digit(d)] + out;
      q := qr.value.0;
      if q == ZERO {
        ZeroValue();
        LeadingDigit(d);
        return;
      }
      NonZero(q);
    }
  }

  lemma OfValue(base: nat)
    requires base < WORD
    ensures Value(Of(base)) == base
  {
  }

  lemma ZeroValue()
    ensures Value(ZERO) == 0
  {
  }

  lemma NoDigits(base: nat, v: nat)
    ensures v * Power(base, 0) + Eval(base, "") == v
  {
  }

  lemma SmallRemainder(x: UInt128, base: nat)
    requires Value(x) < base <= 16
    ensures x.lower == Value(x)
  {
  }

  lemma QuotientShrinks(q: nat, q': nat, base: nat, d: nat)
    requires q == q' * base + d && base >= 2 && q > 0
    ensures q' < q && (q' == 0 ==> d == q)
  {
    MulMonotone(q', 2, base);
  }

  lemma LeadingDigit(d: nat)
    requires 0 < d < 16
    ensures Digit(d) != '0'
  {
  }

  /** The digits are `0` to `9` and the small letters `a` to `f`. */
  lemma DigitLetters(d: nat)
    requires d < 16
    ensures Digit(d) == ['0', '1', '2', '3', '4', '5', '6', '7', '8', '9', 'a', 'b', 'c', 'd', 'e', 'f'][d]
    ensures Eval(16, "beef") == 0xbeef && Eval(10, "907") == 907
  {
    assert "beef"[1..] == "eef" && "eef"[1..] == "ef" && "ef"[1..] == "f" && "f"[1..] == "";
    assert "907"[1..] == "07" && "07"[1..] == "7" && "7"[1..] == "";
    assert Power(16, 1) == 16 && Power(16, 2) == 0x100 && Power(16, 3) == 0x1000;
    assert Power(10, 1) == 10 && Power(10, 2) == 100;
  }

  lemma DigitInjective(c: char, c': char)
    requires DigitValue(c) == DigitValue(c') < 16
    ensures c == c'
  {
  }

  lemma {:induction false} EvalBound(base: nat, s: string)
    requires AllDigits(base, s)
    ensures Eval(base, s) < Power(base, |s|)
  {
    if s == "" {
    } else {
      hide DigitValue;
      EvalBound(base, s[1..]);
      DigitBound(DigitValue(s[0]), base, Power(base, |s| - 1));
    }
  }

  lemma DigitBound(d: nat, base: nat, p: nat)
    requires d < base
    ensures d * p + p <= base * p
  {
    MulMonotone(p, d + 1, base);
  }

  lemma SamePlaces(p: nat, d: nat, e: nat, d': nat, e': nat)
    requires d * p + e == d' * p + e' && e < p && e' < p
    ensures d == d' && e == e'
  {
    ModUnique(d * p + e, p, d, e);
    ModUnique(d' * p + e', p, d', e');
  }

  /** No other text of that length denotes the value. */
  lemma {:induction false} TextUnique(base: nat, s: string, s': string)
    requires base <= 16 && |s| == |s'| && AllDigits(base, s) && AllDigits(base, s')
    requires Eval(base, s) == Eval(base, s')
    ensures s == s'
  {
    if s == "" {
    } else {
      FirstPlaces(base, s, s');
      hide DigitValue, Power, Eval;
      DigitInjective(s[0], s'[0]);
      TextUnique(base, s[1..], s'[1..]);
      assert s == [s[0]] + s[1..] && s' == [s'[0]] + s'[1..];
    }
  }

  lemma FirstPlaces(base: nat, s: string, s': string)
    requires s != "" && |s| == |s'| && AllDigits(base, s) && AllDigits(base, s')
    requires Eval(base, s) == Eval(base, s')
    ensures DigitValue(s[0]) == DigitValue(s'[0]) < base && Eval(base, s[1..]) == Eval(base, s'[1..])
  {
    hide DigitValue, Power;
    EvalBound(base, s[1..]);
    EvalBound(base, s'[1..]);
    SamePlaces(Power(base, |s| - 1), DigitValue(s[0]), Eval(base, s[1..]), DigitValue(s'[0]), Eval(base, s'[1..]));
  }
}
