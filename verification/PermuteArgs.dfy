/**
  Exchanging two neighbouring blocks of an argument vector in place, by
  following the cycles of the permutation (`permute_args`).
 */
module PermuteArgs {
  import opened Bits

  // ---- Greatest common divisors

  function Gcd(a: nat, b: nat): nat
    decreases b
  {
    if b == 0 then a else Gcd(b, a % b)
  }

  method ComputeGcd(a: nat, b: nat) returns (g: nat)
    requires b > 0
    ensures g == Gcd(a, b) && g > 0
  {
    var x, y := a, b;
    var c := x % y;
    while c != 0
      invariant y > 0 && c == x % y && Gcd(x, y) == Gcd(a, b)
      decreases c
    {
      x := y;
      y := c;
      c := x % y;
    }
    assert Gcd(x, y) == Gcd(y, 0);
    return y;
  }

  /** The gcd divides both numbers and is an integer combination of them. */
  lemma {:induction false} Bezout(a: nat, b: nat) returns (p: nat, q: nat, x: int, y: int)
    requires b > 0
    ensures var g := Gcd(a, b); g > 0 && a == g * p && b == g * q && a * x + b * y == g
    decreases b
  {
    var g := Gcd(a, b);
    var d, c := a / b, a % b;
    assert a == b * d + c;
    if c == 0 {
      assert Gcd(b, c) == b;
      p, q, x, y := d, 1, 0, 1;
    } else {
      var p', q', x', y' := Bezout(b, c);
      BezoutStep(g, a, b, c, d, p', q', x', y');
      p, q, x, y := p' * d + q', p', y', x' - d * y';
    }
  }

  lemma BezoutStep(g: int, a: int, b: int, c: int, d: int, p: int, q: int, x: int, y: int)
    requires a == b * d + c && b == g * p && c == g * q && b * x + c * y == g
    ensures a == g * (p * d + q)
    ensures a * y + b * (x - d * y) == g
  {
    assert b * d == g * (p * d) by {
      assert (g * p) * d == g * (p * d);
    }
    assert g * (p * d + q) == g * (p * d) + g * q;
    assert b * (x - d * y) == b * x - (b * d) * y by {
      assert b * (d * y) == (b * d) * y;
    }
    assert a * y == (b * d) * y + c * y;
  }

  // ---- The orbit of a step of o in a circle of m + o places

  function Orbit(m: nat, o: nat, t: nat): (r: nat)
    requires m + o > 0
    ensures r < m + o
  {
    (m + t * o) % (m + o)
  }

  lemma OrbitStep(m: nat, o: nat, t: nat)
    requires o > 0
    ensures Orbit(m, o, t + 1) == if Orbit(m, o, t) >= m then Orbit(m, o, t) - m else Orbit(m, o, t) + o
  {
    var n, v := m + o, m + t * o;
    var q, r := v / n, v % n;
    assert v == n * q + r;
    assert m + (t + 1) * o == v + o;
    if r >= m {
      assert v + o == n * (q + 1) + (r - m);
      ModUnique(v + o, n, q + 1, r - m);
    } else {
      ModUnique(v + o, n, q, r + o);
    }
  }

  lemma OrbitStart(m: nat, o: nat)
    requires o > 0
    ensures Orbit(m, o, 0) == m && Orbit(m, o, m + o) == m
  {
    var n := m + o;
    ModUnique(m, n, 0, m);
    assert m + n * o == n * o + m;
    ModUnique(m + n * o, n, o, m);
  }

  /** Steps that are coprime to the circle meet no place twice in one round ... */
  lemma OrbitInjective(m: nat, o: nat, u: int, x: int, t: nat, t': nat)
    requires o > 0 && o * u + (m + o) * x == 1
    requires t < m + o && t' < m + o && Orbit(m, o, t) == Orbit(m, o, t')
    ensures t == t'
  {
    var n := m + o;
    var d := t - t';
    var k := (m + t * o) / n - (m + t' * o) / n;
    assert d * o == n * k by {
      assert m + t * o == n * ((m + t * o) / n) + Orbit(m, o, t);
      assert m + t' * o == n * ((m + t' * o) / n) + Orbit(m, o, t');
    }
    Invert(n, o, u, x, d, k);
    SmallMultiple(n, k * u + d * x);
  }

  lemma Invert(n: int, o: int, u: int, x: int, d: int, k: int)
    requires o * u + n * x == 1 && d * o == n * k
    ensures d == n * (k * u + d * x)
  {
    calc {
      d;
      d * (o * u + n * x);
      (d * o) * u + n * (d * x);
      n * (k * u) + n * (d * x);
    }
  }

  /** ... and so meet every place. */
  lemma OrbitSurjective(m: nat, o: nat, u: int, x: int, p: nat) returns (t: nat)
    requires o > 0 && o * u + (m + o) * x == 1 && p < m + o
    ensures t < m + o && Orbit(m, o, t) == p
  {
    var n := m + o;
    var d := p - m;
    var w := (d * u) / n;
    t := (d * u) % n;
    assert d * u == n * w + t;
    calc {
      m + t * o;
      m + (d * u - n * w) * o;
      m + (d * u) * o - (n * w) * o;
      m + d * (o * u) - n * (w * o);
      m + d * (1 - n * x) - n * (w * o);
      m + d - d * (n * x) - n * (w * o);
      p - n * (d * x) - n * (w * o);
      n * (-(d * x) - w * o) + p;
    }
    ModUnique(m + t * o, n, -(d * x) - w * o, p);
  }

  // ---- Places of the two blocks

  /** The place in row `q` and column `r` when the range from `start` is laid out in rows of `g`. */
  function Place(start: nat, g: nat, q: nat, r: nat): (p: nat)
    ensures p >= start
  {
    start + g * q + r
  }

  lemma PlaceBound(start: nat, g: nat, q: nat, r: nat, n: nat)
    requires q < n && r < g
    ensures Place(start, g, q, r) < start + g * n
  {
    assert g * (q + 1) <= g * n;
  }

  lemma PlaceInjective(start: nat, g: nat, q: nat, r: nat, q': nat, r': nat)
    requires r < g && r' < g && Place(start, g, q, r) == Place(start, g, q', r')
    ensures q == q' && r == r'
  {
    ModUnique(g * q + r, g, q, r);
    ModUnique(g * q + r, g, q', r');
  }

  /** Where the entry that ends up in row `q` comes from. */
  function Back(m: nat, o: nat, q: nat): nat {
    if q < o then q + m else q - o
  }

  lemma BackStep(m: nat, o: nat, t: nat)
    requires o > 0
    ensures Back(m, o, Orbit(m, o, t + 1)) == Orbit(m, o, t)
  {
    OrbitStep(m, o, t);
  }

  /** The arithmetic of the blocks: `m` and `o` rows of `g` places, `o` invertible in the circle of `m + o`. */
  ghost predicate Blocks(start: nat, mid: nat, end: nat, g: nat, m: nat, o: nat, u: int, x: int) {
    && g > 0 && o > 0
    && mid == start + g * m && end == start + g * (m + o)
    && o * u + (m + o) * x == 1
  }

  lemma BlocksOf(start: nat, mid: nat, end: nat) returns (m: nat, o: nat, u: int, x: int)
    requires start <= mid < end
    ensures Blocks(start, mid, end, Gcd(mid - start, end - mid), m, o, u, x)
  {
    var y;
    var g := Gcd(mid - start, end - mid);
    m, o, x, y := Bezout(mid - start, end - mid);
    u := y - x;
    hide Gcd;
    RowStep(g, m, o, 0, 0);
    Cancelled(g, m, o, x, y);
    Shifted(m, o, x, y);
  }

  lemma Cancelled(g: nat, m: int, o: int, x: int, y: int)
    requires g > 0 && (g * m) * x + (g * o) * y == g
    ensures m * x + o * y == 1
  {
    var v := m * x + o * y;
    assert g * v == g by {
      assert (g * m) * x == g * (m * x) && (g * o) * y == g * (o * y);
    }
    ModUnique(g, g, v, 0);
    ModUnique(g, g, 1, 0);
  }

  lemma Shifted(m: int, o: int, x: int, y: int)
    ensures o * (y - x) + (m + o) * x == m * x + o * y
  {
  }

  // ---- One cycle

  /** The place a cycle through column `i` visits after `t` steps. */
  function At(start: nat, g: nat, m: nat, o: nat, i: nat, t: nat): (p: nat)
    requires m + o > 0
  {
    Place(start, g, Orbit(m, o, t), i)
  }

  ghost predicate InColumn(start: nat, end: nat, g: nat, i: nat, p: nat)
    requires g > 0
  {
    start <= p < end && (p - start) % g == i
  }

  lemma AtInColumn(start: nat, mid: nat, end: nat, g: nat, m: nat, o: nat, u: int, x: int, i: nat, t: nat)
    requires Blocks(start, mid, end, g, m, o, u, x) && i < g
    ensures InColumn(start, end, g, i, At(start, g, m, o, i, t))
  {
    PlaceBound(start, g, Orbit(m, o, t), i, m + o);
    ModUnique(g * Orbit(m, o, t) + i, g, Orbit(m, o, t), i);
  }

  lemma AtDistinct(start: nat, mid: nat, end: nat, g: nat, m: nat, o: nat, u: int, x: int, i: nat, t: nat, t': nat)
    requires Blocks(start, mid, end, g, m, o, u, x) && i < g && t < m + o && t' < m + o && t != t'
    ensures At(start, g, m, o, i, t) != At(start, g, m, o, i, t')
  {
    if At(start, g, m, o, i, t) == At(start, g, m, o, i, t') {
      PlaceInjective(start, g, Orbit(m, o, t), i, Orbit(m, o, t'), i);
      OrbitInjective(m, o, u, x, t, t');
    }
  }

  /** The step the loop takes is the next place of the cycle. */
  lemma AtStep(start: nat, mid: nat, end: nat, g: nat, m: nat, o: nat, u: int, x: int, i: nat, t: nat)
    requires Blocks(start, mid, end, g, m, o, u, x) && i < g
    ensures At(start, g, m, o, i, t + 1)
         == if At(start, g, m, o, i, t) >= mid then At(start, g, m, o, i, t) - (mid - start)
            else At(start, g, m, o, i, t) + (end - mid)
  {
    hide Orbit;
    OrbitStep(m, o, t);
    RowStep(g, m, o, Orbit(m, o, t), i);
  }

  lemma RowStep(g: nat, m: nat, o: nat, r: nat, i: nat)
    requires i < g
    ensures g * (m + o) == g * m + g * o
    ensures r >= m ==> g * (r - m) == g * r - g * m && g * r + i >= g * m
    ensures r < m ==> g * (r + o) == g * r + g * o && g * r + i < g * m
  {
    if r >= m {
      SameOrMore(g, m, r);
    } else {
      SameOrMore(g, r + 1, m);
      assert g * (r + 1) == g * r + g;
    }
  }

  /** The places of one whole cycle, in the order they are visited. */
  function Cycle(start: nat, g: nat, m: nat, o: nat, i: nat): (at: seq<nat>)
    requires m + o > 0
    ensures |at| == m + o
    ensures forall t :: 0 <= t < |at| ==> at[t] == At(start, g, m, o, i, t)
  {
    seq(m + o, t requires 0 <= t => At(start, g, m, o, i, t))
  }

  ghost predicate Distinct(at: seq<nat>) {
    forall t, t' :: 0 <= t < t' < |at| ==> at[t] != at[t']
  }

  /** The vector after `j` steps of a cycle: places 1 to `j` are final and place 0 carries the entry in hand. */
  ghost predicate Midway<T>(s: seq<T>, b: seq<T>, at: seq<nat>, j: nat) {
    && |s| == |b| && at != []
    && (forall t :: 0 <= t < |at| ==> at[t] < |s|)
    && (forall t :: 1 <= t < |at| ==> s[at[t]] == b[at[if t <= j then t - 1 else t]])
    && s[at[0]] == b[at[if j < |at| then j else |at| - 1]]
    && (forall p :: 0 <= p < |s| && p !in at ==> s[p] == b[p])
  }

  lemma MidwayStep<T>(s: seq<T>, b: seq<T>, at: seq<nat>, j: nat)
    requires Midway(s, b, at, j) && Distinct(at) && j < |at|
    ensures var c, pos := at[0], at[if j + 1 < |at| then j + 1 else 0];
            Midway(s[pos := s[c]][c := s[pos]], b, at, j + 1)
  {
    if j + 1 == |at| {
      assert s[at[0] := s[at[0]]][at[0] := s[at[0]]] == s;
    }
  }

  /** Every entry of column `i` in its place in the exchanged blocks, and nothing else touched. */
  ghost predicate Moved<T>(s: seq<T>, b: seq<T>, start: nat, end: nat, g: nat, m: nat, o: nat, i: nat)
    requires g > 0 && o > 0
  {
    && |s| == |b|
    && (forall q :: 0 <= q < m + o ==>
          Place(start, g, q, i) < |s| && Place(start, g, Back(m, o, q), i) < |s|
          && s[Place(start, g, q, i)] == b[Place(start, g, Back(m, o, q), i)])
    && (forall p :: 0 <= p < |s| && !InColumn(start, end, g, i, p) ==> s[p] == b[p])
  }

  lemma MidwayEnd<T>(s: seq<T>, b: seq<T>, start: nat, mid: nat, end: nat, g: nat, m: nat, o: nat, u: int, x: int, i: nat)
    requires Blocks(start, mid, end, g, m, o, u, x) && i < g
    requires Midway(s, b, Cycle(start, g, m, o, i), m + o)
    ensures Moved(s, b, start, end, g, m, o, i)
  {
    var at := Cycle(start, g, m, o, i);
    forall q | 0 <= q < m + o
      ensures Place(start, g, q, i) < |s| && Place(start, g, Back(m, o, q), i) < |s|
      ensures s[Place(start, g, q, i)] == b[Place(start, g, Back(m, o, q), i)]
    {
      var t := OrbitSurjective(m, o, u, x, q);
      assert at[t] == Place(start, g, q, i);
      if t > 0 {
        BackStep(m, o, t - 1);
        assert at[t - 1] == Place(start, g, Back(m, o, q), i);
      } else {
        BackStep(m, o, m + o - 1);
        OrbitStart(m, o);
        assert at[m + o - 1] == Place(start, g, Back(m, o, q), i);
      }
    }
    forall t | 0 <= t < |at| ensures InColumn(start, end, g, i, at[t]) {
      AtInColumn(start, mid, end, g, m, o, u, x, i, t);
    }
  }

  lemma CycleStart(start: nat, mid: nat, end: nat, g: nat, m: nat, o: nat, u: int, x: int, i: nat)
    requires Blocks(start, mid, end, g, m, o, u, x) && i < g
    ensures g > 0 && o > 0 && start <= mid < end
    ensures var at := Cycle(start, g, m, o, i);
            at[0] == mid + i && Distinct(at) && forall t :: 0 <= t < |at| ==> at[t] < end
  {
    var at := Cycle(start, g, m, o, i);
    OrbitStart(m, o);
    assert g * (m + o) == g * m + g * o;
    forall t | 0 <= t < |at| ensures at[t] < end {
      AtInColumn(start, mid, end, g, m, o, u, x, i, t);
    }
    forall t, t' | 0 <= t < t' < |at| ensures at[t] != at[t'] {
      AtDistinct(start, mid, end, g, m, o, u, x, i, t, t');
    }
  }

  /** The place the loop steps to from place `t`; the last step leads back to the first place. */
  lemma CycleStep(start: nat, mid: nat, end: nat, g: nat, m: nat, o: nat, u: int, x: int, i: nat, t: nat)
    requires Blocks(start, mid, end, g, m, o, u, x) && i < g && t < m + o
    ensures var at := Cycle(start, g, m, o, i);
            at[if t + 1 < m + o then t + 1 else 0] == if at[t] >= mid then at[t] - (mid - start) else at[t] + (end - mid)
  {
    AtStep(start, mid, end, g, m, o, u, x, i, t);
    OrbitStart(m, o);
  }

  method RotateCycle<T>(a: array<T>, start: nat, mid: nat, end: nat, cstart: nat, cyclelen: nat,
                        ghost g: nat, ghost i: nat, ghost m: nat, ghost o: nat, ghost u: int, ghost x: int)
    requires Blocks(start, mid, end, g, m, o, u, x) && end <= a.Length
    requires i < g && cstart == mid + i && cyclelen == m + o
    modifies a
    ensures Moved(a[..], old(a[..]), start, end, g, m, o, i)
  {
    ghost var b := a[..];
    ghost var at := Cycle(start, g, m, o, i);
    var pos := cstart;
    CycleStart(start, mid, end, g, m, o, u, x, i);
    hide Blocks, Moved, At;
    for j := 0 to cyclelen
      invariant pos == at[if j < cyclelen then j else 0]
      invariant Midway(a[..], b, at, j)
    {
      ghost var s := a[..];
      CycleStep(start, mid, end, g, m, o, u, x, i, j);
      MidwayStep(s, b, at, j);
      if pos >= mid {
        pos := pos - (mid - start);
      } else {
        pos := pos + (end - mid);
      }
      var swap := a[pos];
      a[pos] := a[cstart];
      a[cstart] := swap;
      assert a[..] == s[pos := s[cstart]][cstart := s[pos]];
    }
    MidwayEnd(a[..], b, start, mid, end, g, m, o, u, x, i);
  }

  // ---- All cycles

  /** Columns below `i` are in their final places, the others untouched. */
  ghost predicate Columns<T>(s: seq<T>, b: seq<T>, start: nat, end: nat, g: nat, m: nat, o: nat, i: nat)
    requires g > 0 && o > 0
  {
    && |s| == |b| && end <= |s|
    && (forall q, r :: 0 <= q < m + o && 0 <= r < g ==>
          Place(start, g, q, r) < |s| && Place(start, g, Back(m, o, q), r) < |s|
          && s[Place(start, g, q, r)] == b[Place(start, g, if r < i then Back(m, o, q) else q, r)])
    && (forall p :: 0 <= p < |s| && !(start <= p < end) ==> s[p] == b[p])
  }

  lemma ColumnsStep<T>(s: seq<T>, s': seq<T>, b: seq<T>, start: nat, mid: nat, end: nat, g: nat, m: nat, o: nat,
                       u: int, x: int, i: nat)
    requires Blocks(start, mid, end, g, m, o, u, x) && i < g
    requires Columns(s, b, start, end, g, m, o, i) && Moved(s', s, start, end, g, m, o, i)
    ensures Columns(s', b, start, end, g, m, o, i + 1)
  {
    hide Place, InColumn;
    forall p | 0 <= p < |s| && !(start <= p < end)
      ensures s'[p] == b[p]
    {
      OutsideColumns(start, end, g, i, p);
    }
    forall q, r | 0 <= q < m + o && 0 <= r < g
      ensures s'[Place(start, g, q, r)] == b[Place(start, g, if r < i + 1 then Back(m, o, q) else q, r)]
    {
      if r == i {
        assert s'[Place(start, g, q, i)] == s[Place(start, g, Back(m, o, q), i)];
      } else {
        OtherColumn(start, end, g, q, r, i);
      }
    }
  }

  lemma OutsideColumns(start: nat, end: nat, g: nat, i: nat, p: nat)
    requires g > 0 && !(start <= p < end)
    ensures !InColumn(start, end, g, i, p)
  {
  }

  lemma OtherColumn(start: nat, end: nat, g: nat, q: nat, r: nat, i: nat)
    requires r < g && r != i
    ensures !InColumn(start, end, g, i, Place(start, g, q, r))
  {
    ModUnique(g * q + r, g, q, r);
  }

  /** Where the entry that ends up at `p` comes from. */
  lemma SourceOf(start: nat, mid: nat, end: nat, g: nat, m: nat, o: nat, u: int, x: int, p: nat) returns (q: nat, r: nat)
    requires Blocks(start, mid, end, g, m, o, u, x) && start <= p < end
    ensures q < m + o && r < g && p == Place(start, g, q, r) && start <= mid < end
    ensures Place(start, g, Back(m, o, q), r) == if p < start + (end - mid) then p + (mid - start) else p - (end - mid)
  {
    hide Place, Back;
    q, r := RowOf(start, g, p);
    RowBound(start, g, q, r, m + o);
    RowSource(start, g, m, o, q, r);
  }

  lemma RowOf(start: nat, g: nat, p: nat) returns (q: nat, r: nat)
    requires g > 0 && start <= p
    ensures r < g && p == Place(start, g, q, r)
  {
    q, r := (p - start) / g, (p - start) % g;
  }

  lemma RowSource(start: nat, g: nat, m: nat, o: nat, q: nat, r: nat)
    requires q < m + o && r < g
    ensures g * (m + o) == g * m + g * o
    ensures q < o ==>
              && Place(start, g, q, r) < start + g * o
              && Place(start, g, Back(m, o, q), r) == Place(start, g, q, r) + g * m
    ensures q >= o ==>
              && Place(start, g, q, r) >= start + g * o
              && Place(start, g, Back(m, o, q), r) == Place(start, g, q, r) - g * o
  {
    Distribute(g, m, o);
    if q < o {
      Distribute(g, q, m);
      Distribute(g, q, 1);
      MulMonotone(g, q + 1, o);
    } else {
      Distribute(g, q - o, o);
      MulMonotone(g, o, q);
    }
  }

  lemma Distribute(g: nat, a: nat, b: nat)
    ensures g * (a + b) == g * a + g * b
  {
  }

  lemma MulMonotone(g: nat, a: nat, b: nat)
    requires a <= b
    ensures g * a <= g * b
  {
  }

  lemma RowBound(start: nat, g: nat, q: nat, r: nat, n: nat)
    requires g > 0 && Place(start, g, q, r) < start + g * n
    ensures q < n
  {
    if q >= n {
      MulMonotone(g, n, q);
    }
  }

  lemma ColumnsEnd<T>(s: seq<T>, b: seq<T>, start: nat, mid: nat, end: nat, g: nat, m: nat, o: nat, u: int, x: int)
    requires Blocks(start, mid, end, g, m, o, u, x) && Columns(s, b, start, end, g, m, o, g)
    ensures start <= mid < end
    ensures s == b[..start] + b[mid..end] + b[start..mid] + b[end..]
  {
    assert g * (m + o) == g * m + g * o;
    hide Place, Back;
    var expected := b[..start] + b[mid..end] + b[start..mid] + b[end..];
    forall p | 0 <= p < |s| ensures s[p] == expected[p] {
      if start <= p < end {
        var q, r := SourceOf(start, mid, end, g, m, o, u, x, p);
        assert s[Place(start, g, q, r)] == b[Place(start, g, Back(m, o, q), r)];
      }
    }
  }

  /** The two blocks change places; inside each block the order stays. */
  method PermuteArgs<T>(panonoptStart: nat, panonoptEnd: nat, optEnd: nat, nargv: array<T>)
    requires panonoptStart <= panonoptEnd < optEnd <= nargv.Length
    modifies nargv
    ensures nargv[..] == old(nargv[..panonoptStart] + nargv[panonoptEnd..optEnd]
                             + nargv[panonoptStart..panonoptEnd] + nargv[optEnd..])
  {
    var nnonopts := panonoptEnd - panonoptStart;
    var nopts := optEnd - panonoptEnd;
    var ncycle := ComputeGcd(nnonopts, nopts);
    var cyclelen := (optEnd - panonoptStart) / ncycle;
    ghost var m, o, u, x := BlocksOf(panonoptStart, panonoptEnd, optEnd);
    ghost var b := nargv[..];
    RowsOf(panonoptStart, panonoptEnd, optEnd, ncycle, m, o, u, x);
    ColumnsStart(b, panonoptStart, panonoptEnd, optEnd, ncycle, m, o, u, x);
    hide Blocks, Columns, Moved;
    for i := 0 to ncycle
      invariant Columns(nargv[..], b, panonoptStart, optEnd, ncycle, m, o, i)
    {
      ghost var s := nargv[..];
      RotateCycle(nargv, panonoptStart, panonoptEnd, optEnd, panonoptEnd + i, cyclelen, ncycle, i, m, o, u, x);
      ColumnsStep(s, nargv[..], b, panonoptStart, panonoptEnd, optEnd, ncycle, m, o, u, x, i);
    }
    ColumnsEnd(nargv[..], b, panonoptStart, panonoptEnd, optEnd, ncycle, m, o, u, x);
  }

  lemma RowsOf(start: nat, mid: nat, end: nat, g: nat, m: nat, o: nat, u: int, x: int)
    requires Blocks(start, mid, end, g, m, o, u, x)
    ensures g > 0 && o > 0 && end >= start && (end - start) / g == m + o
  {
    assert g * (m + o) >= 0;
    ModUnique(end - start, g, m + o, 0);
  }

  lemma ColumnsStart<T>(b: seq<T>, start: nat, mid: nat, end: nat, g: nat, m: nat, o: nat, u: int, x: int)
    requires Blocks(start, mid, end, g, m, o, u, x) && end <= |b|
    ensures g > 0 && o > 0 && Columns(b, b, start, end, g, m, o, 0)
  {
    forall q, r | 0 <= q < m + o && 0 <= r < g
      ensures Place(start, g, q, r) < |b| && Place(start, g, Back(m, o, q), r) < |b|
    {
      PlaceBound(start, g, q, r, m + o);
      PlaceBound(start, g, Back(m, o, q), r, m + o);
    }
  }
}
