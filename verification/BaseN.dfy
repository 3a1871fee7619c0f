/**
  Base 16, 32 and 64 text encodings (`basen.h`): regrouping a stream of bits
  from bytes into groups of 4, 5 or 6 and back.
 */
module BaseN {
  import opened Options
  import opened Bits

  // ---- Shifts and masks, bit by bit

  function Shr(v: nat, k: nat): nat {
    if k == 0 then v else Shr(v / 2, k - 1)
  }

  function Shl(v: nat, k: nat): nat {
    if k == 0 then v else 2 * Shl(v, k - 1)
  }

  /** The low `k` bits: what a cast to `k` bits, or masking out the others, keeps. */
  function Low(v: nat, k: nat): (r: nat)
    ensures r < Pow2(k)
  {
    if k == 0 then 0 else 2 * Low(v / 2, k - 1) + v % 2
  }

  // ---- Numbers as bits, most significant first

  function BitsOf(v: nat, w: nat): (b: seq<bool>)
    ensures |b| == w
  {
    if w == 0 then [] else BitsOf(v / 2, w - 1) + [v % 2 == 1]
  }

  function OrBits(a: seq<bool>, b: seq<bool>): (r: seq<bool>)
    requires |a| == |b|
    ensures |r| == |a| && forall i :: 0 <= i < |r| ==> r[i] == (a[i] || b[i])
  {
    seq(|a|, i requires 0 <= i < |a| => a[i] || b[i])
  }

  lemma {:induction false} BitsShr(v: nat, w: nat, k: nat)
    ensures BitsOf(v, w + k) == BitsOf(Shr(v, k), w) + BitsOf(v, k)
  {
    if k == 0 {
      assert BitsOf(v, w) + [] == BitsOf(v, w);
    } else {
      BitsShr(v / 2, w, k - 1);
      assert BitsOf(v, w + k) == (BitsOf(Shr(v / 2, k - 1), w) + BitsOf(v / 2, k - 1)) + [v % 2 == 1];
    }
  }

  lemma {:induction false} BitsShl(v: nat, w: nat, k: nat)
    ensures BitsOf(Shl(v, k), w + k) == BitsOf(v, w) + Zeros(k)
  {
    if k == 0 {
      assert BitsOf(v, w) + Zeros(0) == BitsOf(v, w);
    } else {
      BitsShl(v, w, k - 1);
      assert Shl(v, k) / 2 == Shl(v, k - 1) && Shl(v, k) % 2 == 0;
      assert Zeros(k) == Zeros(k - 1) + [false];
    }
  }

  lemma {:induction false} BitsLow(v: nat, k: nat, w: nat)
    requires w <= k
    ensures BitsOf(Low(v, k), w) == BitsOf(v, w)
  {
    if w == 0 {
    } else {
      assert Low(v, k) / 2 == Low(v / 2, k - 1) && Low(v, k) % 2 == v % 2;
      BitsLow(v / 2, k - 1, w - 1);
    }
  }

  lemma {:induction false} BitsOr(a: nat, b: nat, w: nat)
    ensures BitsOf(Or(a, b), w) == OrBits(BitsOf(a, w), BitsOf(b, w))
  {
    if w == 0 {
    } else {
      BitsOr(a / 2, b / 2, w - 1);
      OrHalf(a, b);
    }
  }

  lemma OrHalf(a: nat, b: nat)
    ensures Or(a, b) / 2 == Or(a / 2, b / 2)
    ensures Or(a, b) % 2 == if a % 2 == 1 || b % 2 == 1 then 1 else 0
  {
  }

  lemma {:induction false} BitsAbove(v: nat, w: nat, k: nat)
    requires v < Pow2(k)
    ensures BitsOf(v, w + k) == Zeros(w) + BitsOf(v, k)
  {
    if k == 0 {
      BitsZero(w);
    } else {
      BitsAbove(v / 2, w, k - 1);
      assert Zeros(w) + (BitsOf(v / 2, k - 1) + [v % 2 == 1]) == (Zeros(w) + BitsOf(v / 2, k - 1)) + [v % 2 == 1];
    }
  }

  lemma {:induction false} BitsInjective(a: nat, b: nat, w: nat)
    requires a < Pow2(w) && b < Pow2(w) && BitsOf(a, w) == BitsOf(b, w)
    ensures a == b
  {
    if w == 0 {
    } else {
      var x, y := BitsOf(a, w), BitsOf(b, w);
      assert x[..w - 1] == BitsOf(a / 2, w - 1) && y[..w - 1] == BitsOf(b / 2, w - 1);
      assert x[w - 1] == y[w - 1];
      BitsInjective(a / 2, b / 2, w - 1);
    }
  }

  lemma {:induction false} BitsZero(w: nat)
    ensures BitsOf(0, w) == Zeros(w)
  {
    if w == 0 {
    } else {
      BitsZero(w - 1);
    }
  }

  function Zeros(k: nat): (z: seq<bool>)
    ensures |z| == k && forall i :: 0 <= i < k ==> !z[i]
  {
    seq(k, _ => false)
  }

  /** The bits of a list of `w`-bit numbers. */
  function Flat(w: nat, s: seq<nat>): (b: seq<bool>)
    ensures |b| == w * |s|
  {
    if s == [] then []
    else
      var front := Flat(w, s[..|s| - 1]);
      assert w * |s| == w * (|s| - 1) + w;
      front + BitsOf(s[|s| - 1], w)
  }

  ghost predicate Below(s: seq<nat>, m: nat) {
    forall i :: 0 <= i < |s| ==> s[i] < m
  }

  lemma FlatPush(w: nat, s: seq<nat>, v: nat)
    ensures Flat(w, s + [v]) == Flat(w, s) + BitsOf(v, w)
  {
    assert (s + [v])[..|s|] == s;
  }

  lemma {:induction false} FlatInjective(w: nat, a: seq<nat>, b: seq<nat>)
    requires w > 0 && |a| == |b| && Below(a, Pow2(w)) && Below(b, Pow2(w)) && Flat(w, a) == Flat(w, b)
    ensures a == b
  {
    if a == [] {
    } else {
      var n := |a| - 1;
      var x, y := Flat(w, a), Flat(w, b);
      assert x[..w * n] == Flat(w, a[..n]) && y[..w * n] == Flat(w, b[..n]);
      assert x[w * n..] == BitsOf(a[n], w) && y[w * n..] == BitsOf(b[n], w);
      FlatInjective(w, a[..n], b[..n]);
      BitsInjective(a[n], b[n], w);
      assert a == a[..n] + [a[n]] && b == b[..n] + [b[n]];
    }
  }

  // ---- Extracting a group

  /** `extract_partial_bits`: a group inside one byte. */
  function ExtractPartial(value: nat, start: nat, count: nat): nat
    requires start + count < 8
  {
    Low(Shr(value, 8 - count - start), count)
  }

  lemma ExtractPartialBits(value: nat, start: nat, count: nat)
    requires start + count < 8
    ensures BitsOf(ExtractPartial(value, start, count), count) == BitsOf(value, 8)[start..start + count]
  {
    var e := 8 - count - start;
    var t := Shr(value, e);
    BitsShr(value, start + count, e);
    BitsShr(t, start, count);
    BitsLow(t, count, count);
  }

  /** `extract_overlapping_bits`: a group that ends in the next byte. */
  function ExtractOverlapping(previous: nat, next: nat, start: nat, count: nat): nat
    requires start < 8 && 8 <= start + count < 16 && count <= 8
  {
    var inNext := count - (8 - start);
    var t1 := Low(Shl(previous, inNext), 8);
    var t2 := Low(Shr(next, 8 - inNext), inNext);
    Low(Or(t1, t2), count)
  }

  lemma ExtractOverlappingBits(previous: nat, next: nat, start: nat, count: nat)
    requires start < 8 && 8 <= start + count < 16 && count <= 8
    ensures BitsOf(ExtractOverlapping(previous, next, start, count), count)
         == (BitsOf(previous, 8) + BitsOf(next, 8))[start..start + count]
  {
    hide BitsOf, Low, Shl, Shr, Or, OrBits, Zeros, Pow2;
    var k := count - (8 - start);
    var t1, t2 := Shl(previous, k), Low(Shr(next, 8 - k), k);
    BitsShl(previous, count - k, k);
    BitsShr(previous, start, 8 - start);
    assert BitsOf(t1, count) == BitsOf(previous, 8)[start..] + Zeros(k);
    BitsAbove(t2, count - k, k);
    BitsLow(Shr(next, 8 - k), k, k);
    BitsShr(next, k, 8 - k);
    assert BitsOf(t2, count) == Zeros(8 - start) + BitsOf(next, 8)[..k];
    BitsLow(t1, 8, count);
    BitsOr(Low(t1, 8), t2, count);
    BitsLow(Or(Low(t1, 8), t2), count, count);
    var p, v := BitsOf(previous, 8)[start..], BitsOf(next, 8)[..k];
    OrJoin(p, v, 0);
    NoZeros(Zeros(|p|) + v);
    NoZeros(p + v);
    assert (BitsOf(previous, 8) + BitsOf(next, 8))[start..start + count] == p + v;
  }

  // ---- Alphabets

  /** `n` consecutive characters, as in "ABCDEF". */
  function Run(first: char, n: nat): (s: string)
    requires first as int + n <= 0x80
    ensures |s| == n && forall i :: 0 <= i < n ==> s[i] as int == first as int + i
  {
    seq(n, i requires 0 <= i < n => (first as int + i) as char)
  }

  /** The three conversion traits. */
  datatype Base = Base16 | Base32 | Base64 {
    function GroupLength(): nat {
      match this
      case Base16 => 4
      case Base32 => 5
      case Base64 => 6
    }

    function Dictionary(): (d: string)
      ensures |d| == Pow2(GroupLength())
    {
      assert Pow2(4) == 2 * Pow2(3) == 4 * Pow2(2) == 8 * Pow2(1) == 16;
      assert Pow2(6) == 2 * Pow2(5) == 4 * Pow2(4);
      match this
      case Base16 => Run('0', 10) + Run('A', 6)
      case Base32 => Run('A', 26) + Run('2', 6)
      case Base64 => Run('A', 26) + Run('a', 26) + Run('0', 10) + "+/"
    }

    function Encode(v: nat): char
      requires v < Pow2(GroupLength())
    {
      Dictionary()[v]
    }

    /** `None` stands for `Error`. */
    function Decode(c: char): Option<nat> {
      match this
      case Base16 =>
        if '0' <= c <= '9' then Some((c - '0') as nat)
        else if 'A' <= c <= 'F' then Some((c - 'A') as nat + 10)
        else None
      case Base32 =>
        if 'A' <= c <= 'Z' then Some((c - 'A') as nat)
        else if '2' <= c <= '7' then Some((c - '2') as nat + 26)
        else None
      case Base64 =>
        if 'A' <= c <= 'Z' then Some((c - 'A') as nat)
        else if 'a' <= c <= 'z' then Some((c - 'a') as nat + 26)
        else if '0' <= c <= '9' then Some((c - '0') as nat + 52)
        else if c == '+' then Some(62)
        else if c == '/' then Some(63)
        else None
    }
  }

  lemma GroupRange(base: Base)
    ensures Pow2(base.GroupLength()) == match base { case Base16 => 16 case Base32 => 32 case Base64 => 64 }
  {
    assert Pow2(4) == 2 * Pow2(3) == 4 * Pow2(2) == 8 * Pow2(1) == 16;
    assert Pow2(6) == 2 * Pow2(5) == 4 * Pow2(4);
  }

  /** Decoding a character undoes encoding it, and accepts nothing else. */
  lemma AlphabetRoundTrip(base: Base, v: nat)
    requires v < Pow2(base.GroupLength())
    ensures base.Decode(base.Encode(v)) == Some(v) && !IsSpace(base.Encode(v))
  {
    GroupRange(base);
  }

  lemma DecodedInRange(base: Base, c: char)
    ensures base.Decode(c).Some? ==> base.Decode(c).value < Pow2(base.GroupLength())
    ensures base.Decode(c).Some? ==> base.Encode(base.Decode(c).value) == c
    ensures base.Decode('=').None?
  {
    GroupRange(base);
  }

  predicate IsSpace(c: char) {
    c == ' ' || '\U{9}' <= c <= '\U{D}'
  }

  /** The values of the characters that are neither white space nor outside the alphabet. */
  function Values(base: Base, s: string): (vals: seq<nat>)
  {
    if s == "" then []
    else
      var front := Values(base, s[..|s| - 1]);
      var c := s[|s| - 1];
      if !IsSpace(c) && base.Decode(c).Some? then front + [base.Decode(c).value] else front
  }

  // ---- Decoding

  /** The bits of the groups, cut to whole bytes. */
  ghost predicate Decodes(g: nat, vals: seq<nat>, out: seq<nat>) {
    && Below(out, 0x100)
    && 8 * |out| <= g * |vals| < 8 * |out| + 8
    && Flat(8, out) == Flat(g, vals)[..8 * |out|]
  }

  /** A byte under construction: `cur` bits are in, the rest are zero. */
  ghost predicate Partly(buffer: nat, cur: nat, pending: seq<bool>) {
    && buffer < 0x100 && cur == |pending| && cur <= 8
    && BitsOf(buffer, 8) == pending + Zeros(8 - cur)
  }

  lemma FillFits(buffer: nat, cur: nat, pending: seq<bool>, value: nat, g: nat)
    requires Partly(buffer, cur, pending) && value < Pow2(g) && cur + g <= 8
    ensures Partly(Low(Or(buffer, Shl(value, 8 - cur - g)), 8), cur + g, pending + BitsOf(value, g))
  {
    Pow2Words();
    hide BitsOf, Low, Shl, Or, OrBits, Pow2, Zeros;
    var e := 8 - cur - g;
    BitsShl(value, cur + g, e);
    BitsAbove(value, cur, g);
    BitsOr(buffer, Shl(value, e), 8);
    BitsLow(Or(buffer, Shl(value, e)), 8, 8);
    OrJoin(pending, BitsOf(value, g), e);
  }

  /** Or-ing bits into the zeros behind others puts them there. */
  lemma OrJoin(p: seq<bool>, v: seq<bool>, e: nat)
    ensures |p + Zeros(|v| + e)| == |(Zeros(|p|) + v) + Zeros(e)|
    ensures OrBits(p + Zeros(|v| + e), (Zeros(|p|) + v) + Zeros(e)) == (p + v) + Zeros(e)
  {
  }

  lemma {:induction false} ShrBound(value: nat, a: nat, b: nat)
    requires value < Pow2(a + b)
    ensures Shr(value, b) < Pow2(a)
  {
    if b == 0 {
    } else {
      ShrBound(value / 2, a, b - 1);
    }
  }

  /** A group that does not fit fills the byte and starts the next one. */
  lemma FillSpans(buffer: nat, cur: nat, pending: seq<bool>, value: nat, g: nat)
    requires Partly(buffer, cur, pending) && value < Pow2(g) && cur < 8 < cur + g && g <= 8
    ensures var inNext := g - (8 - cur);
            && BitsOf(Low(Or(buffer, Shr(value, inNext)), 8), 8) == pending + BitsOf(value, g)[..8 - cur]
            && Partly(Low(Shl(value, 8 - inNext), 8), inNext, BitsOf(value, g)[8 - cur..])
  {
    Pow2Words();
    hide BitsOf, Low, Shl, Shr, Or, OrBits, Pow2, Zeros;
    var k := g - (8 - cur);
    BitsShr(value, 8 - cur, k);
    ShrBound(value, 8 - cur, k);
    var high := BitsOf(Shr(value, k), 8 - cur);
    assert high == BitsOf(value, g)[..8 - cur] && BitsOf(value, k) == BitsOf(value, g)[8 - cur..];
    BitsAbove(Shr(value, k), cur, 8 - cur);
    BitsOr(buffer, Shr(value, k), 8);
    BitsLow(Or(buffer, Shr(value, k)), 8, 8);
    OrJoin(pending, high, 0);
    NoZeros(Zeros(cur) + high);
    NoZeros(pending + high);
    BitsShl(value, k, 8 - k);
    BitsLow(Shl(value, 8 - k), 8, 8);
  }

  lemma NoZeros(s: seq<bool>)
    ensures s + Zeros(0) == s
  {
  }

  /** Take one group into the byte under construction. */
  method TakeGroup(g: nat, value: nat, out: seq<nat>, cur: nat, buffer: nat, ghost pending: seq<bool>)
    returns (out': seq<nat>, cur': nat, buffer': nat, ghost pending': seq<bool>)
    requires 0 < g <= 8 && value < Pow2(g) && cur < 8 && Partly(buffer, cur, pending) && Below(out, 0x100)
    ensures cur' < 8 && Partly(buffer', cur', pending') && Below(out', 0x100)
    ensures Flat(8, out') + pending' == (Flat(8, out) + pending) + BitsOf(value, g)
  {
    hide BitsOf, Low, Shl, Shr, Or, Flat, Pow2, Partly, Below;
    PartlyEmpty();
    var inCurrent := (if cur + g < 8 then cur + g else 8) - cur;
    if inCurrent == g {
      Fits(g, value, out, cur, buffer, pending);
      buffer' := Low(Or(buffer, Shl(value, 8 - cur - g)), 8);
      cur' := cur + g;
      pending' := pending + BitsOf(value, g);
      out' := out;
      if cur' == 8 {
        out' := out + [buffer'];
        buffer', cur', pending' := 0, 0, [];
      }
    } else {
      var inNext := g - inCurrent;
      Spans(g, value, out, cur, buffer, pending);
      buffer' := Low(Or(buffer, Shr(value, inNext)), 8);
      out' := out + [buffer'];
      buffer' := Low(Shl(value, 8 - inNext), 8);
      pending' := BitsOf(value, g)[inCurrent..];
      cur' := inNext;
    }
  }

  lemma Fits(g: nat, value: nat, out: seq<nat>, cur: nat, buffer: nat, pending: seq<bool>)
    requires value < Pow2(g) && cur + g <= 8 && Partly(buffer, cur, pending) && Below(out, 0x100)
    ensures var filled, pending' := Low(Or(buffer, Shl(value, 8 - cur - g)), 8), pending + BitsOf(value, g);
            && Partly(filled, cur + g, pending')
            && Flat(8, out) + pending' == (Flat(8, out) + pending) + BitsOf(value, g)
            && (cur + g == 8 ==>
                  && Below(out + [filled], 0x100)
                  && Flat(8, out + [filled]) + [] == (Flat(8, out) + pending) + BitsOf(value, g))
  {
    hide BitsOf, Low, Shl, Or, Flat, Pow2, Partly;
    FillFits(buffer, cur, pending, value, g);
    Joined(Flat(8, out), pending, BitsOf(value, g));
    if cur + g == 8 {
      var filled := Low(Or(buffer, Shl(value, 8 - cur - g)), 8);
      PartlyFull(filled, pending + BitsOf(value, g));
      BelowPush(out, filled, 0x100);
      FlatPush(8, out, filled);
    }
  }

  lemma Spans(g: nat, value: nat, out: seq<nat>, cur: nat, buffer: nat, pending: seq<bool>)
    requires value < Pow2(g) && cur < 8 < cur + g && g <= 8 && Partly(buffer, cur, pending) && Below(out, 0x100)
    ensures var inCurrent := 8 - cur;
            var filled := Low(Or(buffer, Shr(value, g - inCurrent)), 8);
            var pending' := BitsOf(value, g)[inCurrent..];
            && Below(out + [filled], 0x100)
            && Partly(Low(Shl(value, 8 - (g - inCurrent)), 8), g - inCurrent, pending')
            && Flat(8, out + [filled]) + pending' == (Flat(8, out) + pending) + BitsOf(value, g)
  {
    Pow2Words();
    hide BitsOf, Low, Shl, Shr, Or, Flat, Pow2, Partly;
    FillSpans(buffer, cur, pending, value, g);
    var filled := Low(Or(buffer, Shr(value, g - (8 - cur))), 8);
    BelowPush(out, filled, 0x100);
    FlatPush(8, out, filled);
    Regroup(Flat(8, out), pending, BitsOf(value, g), 8 - cur);
  }

  lemma Joined(f: seq<bool>, p: seq<bool>, v: seq<bool>)
    ensures f + (p + v) == (f + p) + v && (f + (p + v)) + [] == f + (p + v)
  {
  }

  lemma BelowPush(s: seq<nat>, v: nat, m: nat)
    requires Below(s, m) && v < m
    ensures Below(s + [v], m)
  {
  }

  lemma Regroup(f: seq<bool>, p: seq<bool>, v: seq<bool>, k: nat)
    requires k <= |v|
    ensures (f + (p + v[..k])) + v[k..] == (f + p) + v
  {
    assert v == v[..k] + v[k..];
  }

  lemma PartlyFull(buffer: nat, pending: seq<bool>)
    requires Partly(buffer, 8, pending)
    ensures buffer < 0x100 && BitsOf(buffer, 8) == pending
  {
    assert pending + Zeros(0) == pending;
  }

  method Decode(base: Base, s: string) returns (out: seq<nat>)
    ensures Decodes(base.GroupLength(), Values(base, s), out)
  {
    var g := base.GroupLength();
    out := [];
    var cur, buffer := 0, 0;
    ghost var pending: seq<bool> := [];
    assert s[..0] == "";
    PartlyEmpty();
    NothingDecoded(base);
    hide BitsOf, Pow2, Partly, Flat, Values, Base.Decode, IsSpace, Below;
    for i := 0 to |s|
      invariant cur == |pending| < 8 && Partly(buffer, cur, pending)
      invariant Below(out, 0x100)
      invariant Flat(g, Values(base, s[..i])) == Flat(8, out) + pending
    {
      ValuesNext(base, s, i);
      if IsSpace(s[i]) {
        continue;
      }
      var decoded := base.Decode(s[i]);
      if decoded.None? {
        continue;
      }
      DecodedInRange(base, s[i]);
      FlatPush(g, Values(base, s[..i]), decoded.value);
      out, cur, buffer, pending := TakeGroup(g, decoded.value, out, cur, buffer, pending);
      PartlyLength(buffer, cur, pending);
    }
    assert s[..|s|] == s;
  }

  lemma NothingDecoded(base: Base)
    ensures Flat(base.GroupLength(), Values(base, "")) == Flat(8, []) + [] && Below([], 0x100)
  {
  }

  lemma ValuesNext(base: Base, s: string, i: nat)
    requires i < |s|
    ensures Values(base, s[..i + 1])
         == if !IsSpace(s[i]) && base.Decode(s[i]).Some? then Values(base, s[..i]) + [base.Decode(s[i]).value]
            else Values(base, s[..i])
  {
    hide Base.Decode, IsSpace;
    assert s[..i + 1][..i] == s[..i];
  }

  lemma PartlyEmpty()
    ensures Partly(0, 0, [])
  {
    BitsZero(8);
    assert [] + Zeros(8) == Zeros(8);
  }

  lemma PartlyLength(buffer: nat, cur: nat, pending: seq<bool>)
    requires Partly(buffer, cur, pending)
    ensures cur == |pending|
  {
  }

  // ---- Encoding

  /** The bits of the bytes, filled up with zeros to whole groups. */
  ghost predicate Encodes(g: nat, bytes: seq<nat>, vals: seq<nat>) {
    && Below(vals, Pow2(g))
    && 8 * |bytes| <= g * |vals| < 8 * |bytes| + g
    && Flat(g, vals) == Flat(8, bytes) + Zeros(g * |vals| - 8 * |bytes|)
  }

  function Chars(base: Base, vals: seq<nat>): (s: string)
    requires Below(vals, Pow2(base.GroupLength()))
    ensures |s| == |vals| && forall i :: 0 <= i < |s| ==> s[i] == base.Encode(vals[i])
  {
    seq(|vals|, i requires 0 <= i < |vals| => base.Encode(vals[i]))
  }

  function Pads(n: nat): (s: string)
    ensures |s| == n && forall i :: 0 <= i < n ==> s[i] == '='
  {
    seq(n, _ => '=')
  }

  /** How many '=' make the group count end on a byte boundary. */
  function PadCount(base: Base, start: nat): nat
    requires start < 8
  {
    match base
    case Base16 => start / 4
    case Base32 => 3 * start % 8
    case Base64 => start / 2
  }

  /** The text of the bytes: their groups, and then the fewest '=' that end on a byte boundary. */
  ghost predicate IsEncoding(base: Base, bytes: seq<nat>, text: string) {
    exists vals, pads: nat :: EncodesTo(base, bytes, text, vals, pads)
  }

  ghost predicate EncodesTo(base: Base, bytes: seq<nat>, text: string, vals: seq<nat>, pads: nat) {
    var g := base.GroupLength();
    && Encodes(g, bytes, vals)
    && text == Chars(base, vals) + Pads(pads)
    && OnByte(|text|, g)
    && forall n :: |vals| <= n < |text| ==> !OnByte(n, g)
  }

  /** `n` groups of `g` bits end on a byte boundary. */
  predicate OnByte(n: nat, g: nat) {
    (n * g) % 8 == 0
  }

  lemma {:induction false} FlatWindow(w: nat, s: seq<nat>, i: nat)
    requires i < |s|
    ensures w * i + w <= |Flat(w, s)|
    ensures Flat(w, s)[w * i..w * i + w] == BitsOf(s[i], w)
  {
    var n := |s| - 1;
    assert w * (n + 1) == w * n + w;
    if i == n {
      assert Flat(w, s)[w * n..] == BitsOf(s[n], w);
    } else {
      FlatWindow(w, s[..n], i);
      assert Flat(w, s)[..w * n] == Flat(w, s[..n]);
    }
  }

  /** Two neighbouring bytes, the last one followed by zeros. */
  lemma FlatTwo(bytes: seq<nat>, i: nat)
    requires i < |bytes|
    ensures 8 * i + 16 <= |Flat(8, bytes + [0])|
    ensures Flat(8, bytes + [0])[8 * i..8 * i + 16] == BitsOf(bytes[i], 8) + BitsOf((bytes + [0])[i + 1], 8)
  {
    var padded := bytes + [0];
    FlatWindow(8, padded, i);
    FlatWindow(8, padded, i + 1);
    var f := Flat(8, padded);
    assert f[8 * i..8 * i + 16] == f[8 * i..8 * i + 8] + f[8 * (i + 1)..8 * (i + 1) + 8];
  }

  /** The groups so far are the first bits of the stream. */
  ghost predicate Grouped(g: nat, bytes: seq<nat>, vals: seq<nat>) {
    && Below(vals, Pow2(g))
    && g * |vals| <= 8 * (|bytes| + 1)
    && Flat(g, vals) == Flat(8, bytes + [0])[..g * |vals|]
  }

  lemma GroupedPush(g: nat, bytes: seq<nat>, vals: seq<nat>, v: nat)
    requires Grouped(g, bytes, vals) && v < Pow2(g) && g * |vals| + g <= 8 * (|bytes| + 1)
    requires BitsOf(v, g) == Flat(8, bytes + [0])[g * |vals|..g * |vals| + g]
    ensures Grouped(g, bytes, vals + [v])
  {
    hide BitsOf, Flat, Pow2;
    FlatPush(g, vals, v);
    OneMoreGroup(g, |vals|);
    Cut(Flat(8, bytes + [0]), g * |vals|, g);
  }

  lemma OneMoreGroup(g: nat, n: nat)
    ensures g * (n + 1) == g * n + g
  {
  }

  lemma Cut(f: seq<bool>, c: nat, g: nat)
    requires c + g <= |f|
    ensures f[..c] + f[c..c + g] == f[..c + g]
  {
  }

  lemma GroupedEnd(g: nat, bytes: seq<nat>, vals: seq<nat>)
    requires Grouped(g, bytes, vals) && 8 * |bytes| <= g * |vals| < 8 * |bytes| + g && g <= 8
    ensures Encodes(g, bytes, vals)
  {
    FlatPush(8, bytes, 0);
    BitsZero(8);
  }

  lemma CharsPush(base: Base, vals: seq<nat>, v: nat)
    requires Below(vals + [v], Pow2(base.GroupLength()))
    ensures Below(vals, Pow2(base.GroupLength())) && v < Pow2(base.GroupLength())
    ensures Chars(base, vals + [v]) == Chars(base, vals) + [base.Encode(v)]
  {
    var all := vals + [v];
    assert all[|vals|] == v && forall i :: 0 <= i < |vals| ==> all[i] == vals[i];
  }

  /** Where the encoder stands: `startBit` bits into byte `iter`, or into the byte before it when that is held back. */
  ghost predicate Position(g: nat, n: nat, groups: nat, iter: int, startBit: int, hasBacklog: bool) {
    && 0 <= iter <= n && 0 <= startBit < 8
    && (!hasBacklog ==> g * groups == 8 * iter + startBit && (iter == n ==> startBit < g))
    && (hasBacklog ==> iter > 0 && g * groups == 8 * (iter - 1) + startBit && startBit + g >= 8)
  }

  lemma PositionStep(g: nat, n: nat, groups: nat, iter: int, startBit: int, hasBacklog: bool)
    requires Position(g, n, groups, iter, startBit, hasBacklog) && 4 <= g <= 6
    ensures !hasBacklog && iter < n && startBit + g < 8 ==> Position(g, n, groups + 1, iter, startBit + g, false)
    ensures !hasBacklog && iter < n && startBit + g >= 8 ==> Position(g, n, groups, iter + 1, startBit, true)
    ensures hasBacklog ==> Position(g, n, groups + 1, iter, (startBit + g) % 8, false)
  {
    assert g * (groups + 1) == g * groups + g;
  }

  /** What the encoder has done when it stands at a position. */
  ghost predicate Encoder(base: Base, bytes: seq<nat>, vals: seq<nat>, out: string, iter: int, startBit: int,
                          hasBacklog: bool, backlog: nat) {
    var g := base.GroupLength();
    && Grouped(g, bytes, vals)
    && out == Chars(base, vals)
    && Position(g, |bytes|, |vals|, iter, startBit, hasBacklog)
    && (hasBacklog ==> backlog == bytes[iter - 1])
  }

  lemma EncoderStart(base: Base, bytes: seq<nat>)
    ensures Encoder(base, bytes, [], "", 0, 0, false, 0)
  {
    GroupedStart(base.GroupLength(), bytes);
  }

  lemma EncoderBounds(base: Base, bytes: seq<nat>, vals: seq<nat>, out: string, iter: int, startBit: int,
                      hasBacklog: bool, backlog: nat)
    requires Encoder(base, bytes, vals, out, iter, startBit, hasBacklog, backlog)
    ensures 0 <= iter <= |bytes| && 0 <= startBit < 8
    ensures hasBacklog ==> iter > 0 && startBit + base.GroupLength() >= 8
  {
  }

  lemma EncoderHold(base: Base, bytes: seq<nat>, vals: seq<nat>, out: string, iter: int, startBit: int, backlog: nat)
    requires Encoder(base, bytes, vals, out, iter, startBit, false, backlog) && iter < |bytes|
    requires startBit + base.GroupLength() >= 8
    ensures Encoder(base, bytes, vals, out, iter + 1, startBit, true, bytes[iter])
  {
    hide Grouped, Position;
    PositionStep(base.GroupLength(), |bytes|, |vals|, iter, startBit, false);
  }

  lemma EncoderPartial(base: Base, bytes: seq<nat>, vals: seq<nat>, out: string, iter: int, startBit: int, backlog: nat)
    requires Encoder(base, bytes, vals, out, iter, startBit, false, backlog) && 0 <= iter < |bytes| && startBit >= 0
    requires startBit + base.GroupLength() < 8
    ensures var v := ExtractPartial(bytes[iter], startBit, base.GroupLength());
            && v < Pow2(base.GroupLength())
            && Encoder(base, bytes, vals + [v], out + [base.Encode(v)], iter, startBit + base.GroupLength(), false, backlog)
  {
    var g := base.GroupLength();
    GroupedBelow(g, bytes, vals);
    hide Pow2, Grouped, Position, Chars, ExtractPartial;
    PositionFacts(g, |bytes|, |vals|, iter, startBit, false);
    PositionStep(g, |bytes|, |vals|, iter, startBit, false);
    PartialGroup(g, bytes, vals, iter, startBit);
    var v := ExtractPartial(bytes[iter], startBit, g);
    GroupedBelow(g, bytes, vals + [v]);
    CharsPush(base, vals, v);
  }

  lemma EncoderOverlapping(base: Base, bytes: seq<nat>, vals: seq<nat>, out: string, iter: int, startBit: int, backlog: nat)
    requires Encoder(base, bytes, vals, out, iter, startBit, true, backlog) && 0 < iter <= |bytes| &&
             0 <= startBit < 8 <= startBit + base.GroupLength()
    ensures var next := if iter == |bytes| then 0 else bytes[iter];
            var v := ExtractOverlapping(backlog, next, startBit, base.GroupLength());
            && v < Pow2(base.GroupLength())
            && Encoder(base, bytes, vals + [v], out + [base.Encode(v)], iter, (startBit + base.GroupLength()) % 8, false, backlog)
  {
    var g := base.GroupLength();
    GroupedBelow(g, bytes, vals);
    hide Pow2, Grouped, Position, Chars, ExtractOverlapping;
    PositionFacts(g, |bytes|, |vals|, iter, startBit, true);
    PositionStep(g, |bytes|, |vals|, iter, startBit, true);
    OverlappingGroup(g, bytes, vals, iter, startBit);
    var next := if iter == |bytes| then 0 else bytes[iter];
    var v := ExtractOverlapping(backlog, next, startBit, g);
    GroupedBelow(g, bytes, vals + [v]);
    CharsPush(base, vals, v);
  }

  lemma GroupedBelow(g: nat, bytes: seq<nat>, vals: seq<nat>)
    requires Grouped(g, bytes, vals)
    ensures Below(vals, Pow2(g))
  {
  }

  lemma EncoderEnd(base: Base, bytes: seq<nat>, vals: seq<nat>, out: string, startBit: int, backlog: nat)
    requires Encoder(base, bytes, vals, out, |bytes|, startBit, false, backlog)
    ensures Encodes(base.GroupLength(), bytes, vals) && out == Chars(base, vals)
    ensures base.GroupLength() * |vals| == 8 * |bytes| + startBit
  {
    hide Pow2, Grouped, Encodes, Chars;
    GroupedEnd(base.GroupLength(), bytes, vals);
  }

  /** The main loop: one character for every group of bits. */
  method EncodeGroups(base: Base, bytes: seq<nat>) returns (out: string, startBit: nat, ghost vals: seq<nat>)
    requires Below(bytes, 0x100)
    ensures Encodes(base.GroupLength(), bytes, vals) && out == Chars(base, vals)
    ensures startBit < 8 && base.GroupLength() * |vals| == 8 * |bytes| + startBit
  {
    var g := base.GroupLength();
    var iter, hasBacklog, backlog := 0, false, 0;
    startBit, vals, out := 0, [], "";
    EncoderStart(base, bytes);
    hide Pow2, Encodes, Encoder, Chars, ExtractPartial, ExtractOverlapping, Base.Encode;
    while hasBacklog || iter < |bytes|
      invariant Encoder(base, bytes, vals, out, iter, startBit, hasBacklog, backlog)
      invariant 0 <= iter <= |bytes| && 0 <= startBit < 8
      decreases |bytes| - iter, hasBacklog, 8 - startBit
    {
      EncoderBounds(base, bytes, vals, out, iter, startBit, hasBacklog, backlog);
      if !hasBacklog {
        if startBit + g < 8 {
          EncoderPartial(base, bytes, vals, out, iter, startBit, backlog);
          var v := ExtractPartial(bytes[iter], startBit, g);
          out := out + [base.Encode(v)];
          vals := vals + [v];
          startBit := startBit + g;
        } else {
          EncoderHold(base, bytes, vals, out, iter, startBit, backlog);
          backlog := bytes[iter];
          iter := iter + 1;
          hasBacklog := true;
        }
      } else {
        EncoderOverlapping(base, bytes, vals, out, iter, startBit, backlog);
        var next := if iter == |bytes| then 0 else bytes[iter];
        var v := ExtractOverlapping(backlog, next, startBit, g);
        out := out + [base.Encode(v)];
        vals := vals + [v];
        hasBacklog := false;
        startBit := (startBit + g) % 8;
      }
    }
    EncoderEnd(base, bytes, vals, out, startBit, backlog);
  }

  lemma PositionFacts(g: nat, n: nat, groups: nat, iter: int, startBit: int, hasBacklog: bool)
    requires Position(g, n, groups, iter, startBit, hasBacklog)
    ensures !hasBacklog ==> g * groups == 8 * iter + startBit && (iter == n ==> startBit < g)
    ensures hasBacklog ==> iter > 0 && g * groups == 8 * (iter - 1) + startBit && startBit + g >= 8
  {
  }

  method Encode(base: Base, bytes: seq<nat>) returns (out: string)
    requires Below(bytes, 0x100)
    ensures IsEncoding(base, bytes, out)
  {
    var chars, startBit;
    ghost var vals;
    chars, startBit, vals := EncodeGroups(base, bytes);
    hide Encodes, OnByte;
    StartBit(base, |vals|, |bytes|, startBit);
    out := PadOut(base, chars, startBit);
    assert EncodesTo(base, bytes, out, vals, |out| - |vals|);
  }

  lemma StartBit(base: Base, groups: nat, n: nat, startBit: nat)
    requires base.GroupLength() * groups == 8 * n + startBit && startBit < 8
    ensures startBit == (groups * base.GroupLength()) % 8
  {
    var g := base.GroupLength();
    assert groups * g == g * groups;
    ModUnique(groups * g, 8, n, startBit);
  }

  lemma PadStep(base: Base, n: nat, start: nat)
    requires start == (n * base.GroupLength()) % 8
    ensures start == 0 <==> OnByte(n, base.GroupLength())
    ensures (start + base.GroupLength()) % 8 == ((n + 1) * base.GroupLength()) % 8
    ensures start != 0 ==> PadCount(base, (start + base.GroupLength()) % 8) < PadCount(base, start)
  {
    match base
    case Base16 => PadStep16(n, start);
    case Base32 => PadStep32(n, start);
    case Base64 => PadStep64(n, start);
  }

  lemma PadStep16(n: nat, start: nat)
    requires start == (n * 4) % 8
    ensures (start + 4) % 8 == ((n + 1) * 4) % 8 && (start != 0 ==> PadCount(Base16, (start + 4) % 8) < PadCount(Base16, start))
  {
    ModStep(n * 4, 4);
    assert start == 4 * (n - 2 * (n * 4 / 8));
  }

  lemma PadStep32(n: nat, start: nat)
    requires start == (n * 5) % 8
    ensures (start + 5) % 8 == ((n + 1) * 5) % 8 && (start != 0 ==> PadCount(Base32, (start + 5) % 8) < PadCount(Base32, start))
  {
    ModStep(n * 5, 5);
    ThirdsDown(start);
  }

  lemma PadStep64(n: nat, start: nat)
    requires start == (n * 6) % 8
    ensures (start + 6) % 8 == ((n + 1) * 6) % 8 && (start != 0 ==> PadCount(Base64, (start + 6) % 8) < PadCount(Base64, start))
  {
    ModStep(n * 6, 6);
    assert start == 2 * (3 * n - 4 * (n * 6 / 8));
  }

  lemma ModStep(v: nat, g: nat)
    ensures (v % 8 + g) % 8 == (v + g) % 8
  {
  }

  lemma ThirdsDown(start: nat)
    requires 0 <= start < 8
    ensures start != 0 ==> 3 * ((start + 5) % 8) % 8 < 3 * start % 8
  {
  }

  /** The closing loop: '=' until the groups end on a byte boundary. */
  method PadOut(base: Base, chars: string, start: nat) returns (out: string)
    requires start == (|chars| * base.GroupLength()) % 8
    ensures |out| >= |chars| && out == chars + Pads(|out| - |chars|)
    ensures OnByte(|out|, base.GroupLength())
    ensures forall m :: |chars| <= m < |out| ==> !OnByte(m, base.GroupLength())
  {
    var g := base.GroupLength();
    var startBit := start;
    out := chars;
    hide OnByte, PadCount;
    while startBit != 0
      invariant 0 <= startBit < 8 && |out| >= |chars| && out == chars + Pads(|out| - |chars|)
      invariant startBit == (|out| * g) % 8
      invariant forall m :: |chars| <= m < |out| ==> !OnByte(m, g)
      decreases PadCount(base, startBit)
    {
      PadStep(base, |out|, startBit);
      out := out + "=";
      startBit := (startBit + g) % 8;
    }
    PadStep(base, |out|, startBit);
  }

  lemma GroupedStart(g: nat, bytes: seq<nat>)
    ensures Grouped(g, bytes, [])
  {
  }

  lemma Window(f: seq<bool>, b: nat, n: nat, start: nat, g: nat)
    requires b + n <= |f| && start + g <= n
    ensures f[b + start..b + start + g] == f[b..b + n][start..start + g]
  {
    var w, x := f[b..b + n], f[b + start..b + start + g];
    forall i | 0 <= i < g
      ensures x[i] == w[start..start + g][i]
    {
      assert x[i] == f[b + start + i] == w[start + i];
    }
  }

  lemma FrontPart(x: seq<bool>, y: seq<bool>, i: nat, j: nat)
    requires i <= j <= |x|
    ensures (x + y)[i..j] == x[i..j]
  {
  }

  lemma PartialGroup(g: nat, bytes: seq<nat>, vals: seq<nat>, i: nat, start: nat)
    requires Grouped(g, bytes, vals) && i < |bytes| && g * |vals| == 8 * i + start && start + g < 8
    ensures ExtractPartial(bytes[i], start, g) < Pow2(g)
    ensures Grouped(g, bytes, vals + [ExtractPartial(bytes[i], start, g)])
  {
    hide BitsOf, Flat, Pow2, Low, Shr;
    FlatTwo(bytes, i);
    ExtractPartialBits(bytes[i], start, g);
    var f := Flat(8, bytes + [0]);
    Window(f, 8 * i, 16, start, g);
    FrontPart(BitsOf(bytes[i], 8), BitsOf((bytes + [0])[i + 1], 8), start, start + g);
    GroupedPush(g, bytes, vals, ExtractPartial(bytes[i], start, g));
  }

  lemma OverlappingGroup(g: nat, bytes: seq<nat>, vals: seq<nat>, iter: nat, start: nat)
    requires Grouped(g, bytes, vals) && 0 < iter <= |bytes| && g * |vals| == 8 * (iter - 1) + start
    requires start < 8 <= start + g < 16 && g <= 8
    ensures var next := if iter == |bytes| then 0 else bytes[iter];
            var v := ExtractOverlapping(bytes[iter - 1], next, start, g);
            v < Pow2(g) && Grouped(g, bytes, vals + [v])
  {
    hide BitsOf, Flat, Pow2, Low, Shr, Shl, Or;
    FlatTwo(bytes, iter - 1);
    var next := if iter == |bytes| then 0 else bytes[iter];
    assert next == (bytes + [0])[iter];
    ExtractOverlappingBits(bytes[iter - 1], next, start, g);
    var f := Flat(8, bytes + [0]);
    var b := 8 * (iter - 1);
    Window(f, b, 16, start, g);
    GroupedPush(g, bytes, vals, ExtractOverlapping(bytes[iter - 1], next, start, g));
  }

  // ---- Round trip

  lemma {:induction false} ValuesConcat(base: Base, a: string, b: string)
    ensures Values(base, a + b) == Values(base, a) + Values(base, b)
  {
    if b == "" {
      assert a + b == a;
    } else {
      assert (a + b)[..|a + b| - 1] == a + b[..|b| - 1];
      ValuesConcat(base, a, b[..|b| - 1]);
    }
  }

  lemma {:induction false} ValuesOfChars(base: Base, vals: seq<nat>)
    requires Below(vals, Pow2(base.GroupLength()))
    ensures Values(base, Chars(base, vals)) == vals
  {
    if vals == [] {
    } else {
      var n := |vals| - 1;
      var v := vals[n];
      assert vals == vals[..n] + [v];
      ValuesOfChars(base, vals[..n]);
      hide Base.Decode, Base.Encode, Base.GroupLength, IsSpace, Values, Chars, Pow2;
      CharsPush(base, vals[..n], v);
      AlphabetRoundTrip(base, v);
      ValuesPush(base, Chars(base, vals[..n]), base.Encode(v), v);
    }
  }

  lemma ValuesPush(base: Base, s: string, c: char, v: nat)
    requires !IsSpace(c) && base.Decode(c) == Some(v)
    ensures Values(base, s + [c]) == Values(base, s) + [v]
  {
    hide Base.Decode, IsSpace;
    assert (s + [c])[..|s|] == s;
  }

  lemma {:induction false} ValuesOfPads(base: Base, n: nat)
    ensures Values(base, Pads(n)) == []
  {
    if n == 0 {
    } else {
      assert Pads(n)[..n - 1] == Pads(n - 1);
      ValuesOfPads(base, n - 1);
      DecodedInRange(base, '=');
    }
  }

  /** Decoding the encoding of any bytes gives them back. */
  lemma RoundTrip(base: Base, bytes: seq<nat>, text: string, out: seq<nat>)
    requires Below(bytes, 0x100) && IsEncoding(base, bytes, text)
    requires Decodes(base.GroupLength(), Values(base, text), out)
    ensures out == bytes
  {
    var vals, pads: nat :| EncodesTo(base, bytes, text, vals, pads);
    ValuesConcat(base, Chars(base, vals), Pads(pads));
    ValuesOfChars(base, vals);
    ValuesOfPads(base, pads);
    assert Values(base, text) == vals;
    var g := base.GroupLength();
    assert |out| == |bytes|;
    assert Flat(8, out) == Flat(8, bytes);
    Pow2Words();
    FlatInjective(8, out, bytes);
  }

  /** What the decoder returns is determined by the groups it reads. */
  lemma DecodesUnique(g: nat, vals: seq<nat>, a: seq<nat>, b: seq<nat>)
    requires Decodes(g, vals, a) && Decodes(g, vals, b)
    ensures a == b
  {
    assert |a| == |b|;
    Pow2Words();
    FlatInjective(8, a, b);
  }

  /** White space and characters outside the alphabet may be inserted anywhere without effect. */
  lemma JunkIgnored(base: Base, a: string, junk: string, b: string)
    requires forall i :: 0 <= i < |junk| ==> IsSpace(junk[i]) || base.Decode(junk[i]).None?
    ensures Values(base, a + junk + b) == Values(base, a + b)
  {
    JunkHasNoValues(base, junk);
    ValuesConcat(base, a, junk);
    ValuesConcat(base, a + junk, b);
    ValuesConcat(base, a, b);
  }

  lemma {:induction false} JunkHasNoValues(base: Base, junk: string)
    requires forall i :: 0 <= i < |junk| ==> IsSpace(junk[i]) || base.Decode(junk[i]).None?
    ensures Values(base, junk) == []
  {
    if junk == "" {
    } else {
      JunkHasNoValues(base, junk[..|junk| - 1]);
    }
  }

  /** Characters per whole number of bytes: sections 4, 6 and 8 of RFC 4648. */
  function Unit(base: Base): nat {
    match base
    case Base16 => 2
    case Base32 => 8
    case Base64 => 4
  }

  /** Every encoding fills whole units, with less than one unit of padding after ceil(8n / g) characters. */
  lemma EncodedLength(base: Base, bytes: seq<nat>, text: string)
    requires IsEncoding(base, bytes, text)
    ensures var g := base.GroupLength();
            var chars := (8 * |bytes| + g - 1) / g;
            |text| % Unit(base) == 0 && chars <= |text| < chars + Unit(base)
  {
    var vals, pads: nat :| EncodesTo(base, bytes, text, vals, pads);
    match base
    case Base16 => UnitPadding(base, |vals|, |text|);
    case Base32 => UnitPadding(base, |vals|, |text|);
    case Base64 => UnitPadding(base, |vals|, |text|);
  }

  lemma UnitPadding(base: Base, n: nat, m: nat)
    requires n <= m && OnByte(m, base.GroupLength()) && forall k :: n <= k < m ==> !OnByte(k, base.GroupLength())
    ensures m % Unit(base) == 0 && m < n + Unit(base)
  {
    var u := Unit(base);
    UnitOnByte(base, m);
    if m >= n + u {
      UnitOnByte(base, m - u);
      hide OnByte, Unit;
      ModUnique(m - u, u, m / u - 1, 0);
    }
  }

  lemma UnitOnByte(base: Base, n: nat)
    ensures OnByte(n, base.GroupLength()) <==> n % Unit(base) == 0
  {
    match base
    case Base16 => OnByte16(n);
    case Base32 => OnByte32(n);
    case Base64 => OnByte64(n);
  }

  lemma OnByte16(n: nat)
    ensures OnByte(n, 4) <==> n % 2 == 0
  {
    assert n * 4 == 8 * (n / 2) + 4 * (n % 2);
  }

  lemma OnByte32(n: nat)
    ensures OnByte(n, 5) <==> n % 8 == 0
  {
    var q, r := n / 8, n % 8;
    assert n * 5 == 8 * (5 * q) + 5 * r;
  }

  lemma OnByte64(n: nat)
    ensures OnByte(n, 6) <==> n % 4 == 0
  {
    var q, r := n / 4, n % 4;
    assert n * 6 == 8 * (3 * q) + 6 * r;
  }

  // ---- The alphabets and some vectors of RFC 4648

  lemma UpperCase()
    ensures Run('A', 26) == "ABCDEFGHIJKLMNOPQRSTUVWXYZ"
  {
  }

  lemma LowerCase()
    ensures Run('a', 26) == "abcdefghijklmnopqrstuvwxyz"
  {
  }

  lemma Figures()
    ensures Run('0', 10) == "0123456789" && Run('A', 6) == "ABCDEF" && Run('2', 6) == "234567"
  {
  }

  /** Sections 8, 6 and 4 of RFC 4648. */
  lemma Alphabets()
    ensures Base16.Dictionary() == "0123456789ABCDEF"
    ensures Base32.Dictionary() == "ABCDEFGHIJKLMNOPQRSTUVWXYZ" + "234567"
    ensures Base64.Dictionary() == "ABCDEFGHIJKLMNOPQRSTUVWXYZ" + "abcdefghijklmnopqrstuvwxyz" + "0123456789" + "+/"
  {
    hide Run;
    UpperCase();
    LowerCase();
    Figures();
  }

  /** A byte string has one encoding in each base. */
  lemma EncodingUnique(base: Base, bytes: seq<nat>, a: string, b: string)
    requires IsEncoding(base, bytes, a) && IsEncoding(base, bytes, b)
    ensures a == b
  {
    hide OnByte, Flat, Base.Dictionary;
    var g := base.GroupLength();
    var v, p: nat :| EncodesTo(base, bytes, a, v, p);
    var w, q: nat :| EncodesTo(base, bytes, b, w, q);
    SameCount(g, 8 * |bytes|, |v|, |w|);
    FlatInjective(g, v, w);
    assert OnByte(|a|, g) && OnByte(|b|, g);
  }

  lemma SameCount(g: nat, n: nat, v: nat, w: nat)
    requires n <= g * v < n + g && n <= g * w < n + g
    ensures v == w
  {
    if v < w {
      NextMultiple(g, v, w);
    } else if w < v {
      NextMultiple(g, w, v);
    }
  }

  lemma NextMultiple(g: nat, v: nat, w: nat)
    requires v < w
    ensures g * v + g <= g * w
  {
    var d := w - v - 1;
    assert g * w == g * v + g + g * d;
  }

  // Bits are written highest first.

  lemma Bits4(v: nat)
    ensures BitsOf(v, 4) == [v / 8 % 2 == 1, v / 4 % 2 == 1, v / 2 % 2 == 1, v % 2 == 1]
  {
    hide BitsOf;
    LastFour(v, 0);
  }

  lemma Bits5(v: nat)
    ensures BitsOf(v, 5) == [v / 16 % 2 == 1] + BitsOf(v, 4)
  {
    hide BitsOf;
    Bits4(v);
    LastFour(v, 1);
    OneOrTwo(v / 16);
  }

  lemma Bits6(v: nat)
    ensures BitsOf(v, 6) == [v / 32 % 2 == 1, v / 16 % 2 == 1] + BitsOf(v, 4)
  {
    hide BitsOf;
    Bits4(v);
    LastFour(v, 2);
    OneOrTwo(v / 16);
  }

  lemma Bits8(v: nat)
    ensures BitsOf(v, 8) == BitsOf(v / 16, 4) + BitsOf(v, 4)
  {
    hide BitsOf;
    Bits4(v);
    LastFour(v, 4);
  }

  lemma OneOrTwo(v: nat)
    ensures BitsOf(v, 1) == [v % 2 == 1] && BitsOf(v, 2) == [v / 2 % 2 == 1, v % 2 == 1]
  {
    assert BitsOf(v, 0) == [];
  }

  lemma LastFour(v: nat, w: nat)
    ensures BitsOf(v, w + 4) == BitsOf(v / 16, w) + [v / 8 % 2 == 1, v / 4 % 2 == 1, v / 2 % 2 == 1, v % 2 == 1]
  {
    assert BitsOf(v, w + 4) == BitsOf(v / 2, w + 3) + [v % 2 == 1];
    assert BitsOf(v / 2, w + 3) == BitsOf(v / 4, w + 2) + [v / 2 % 2 == 1];
    assert BitsOf(v / 4, w + 2) == BitsOf(v / 8, w + 1) + [v / 4 % 2 == 1];
    assert BitsOf(v / 8, w + 1) == BitsOf(v / 16, w) + [v / 8 % 2 == 1];
  }

  lemma FlatNone(w: nat)
    ensures Flat(w, []) == []
  {
  }

  lemma OnBytes(g: nat)
    ensures g == 4 ==> OnByte(2, 4) && !OnByte(1, 4)
    ensures g == 5 ==> OnByte(8, 5) && !OnByte(2, 5) && !OnByte(3, 5) && !OnByte(4, 5)
    ensures g == 5 ==> !OnByte(5, 5) && !OnByte(6, 5) && !OnByte(7, 5)
    ensures g == 6 ==> OnByte(4, 6) && !OnByte(3, 6)
  {
  }

  lemma Base16VectorBytes()
    ensures Flat(8, [0xAB])
         == [true, false, true, false, true, false, true, true]
  {
    hide Flat, BitsOf;
    Bits8(171);
    Bits4(171);
    Bits4(10);
    var s: seq<nat> := [0xAB];
    FlatNone(8);
    FlatPush(8, s[..0], 171);
    assert s[..0] + [171] == s[..1];
    assert s[..1] == s;
  }

  lemma Base16VectorGroups()
    ensures Flat(4, [10, 11])
         == [true, false, true, false] + [true, false, true, true]
  {
    hide Flat, BitsOf;
    Bits4(10);
    Bits4(11);
    var s: seq<nat> := [10, 11];
    FlatNone(4);
    FlatPush(4, s[..0], 10);
    assert s[..0] + [10] == s[..1];
    FlatPush(4, s[..1], 11);
    assert s[..1] + [11] == s[..2];
    assert s[..2] == s;
  }

  lemma Base16Vector()
    ensures IsEncoding(Base16, [0xAB], "AB")
  {
    hide OnByte, Flat, Base.Dictionary, BitsOf;
    Alphabets();
    GroupRange(Base16);
    var bytes, vals: seq<nat> := [0xAB], [10, 11];
    Base16VectorBytes();
    Base16VectorGroups();
    assert Flat(4, vals) == Flat(8, bytes) + Zeros(0);
    assert "AB" == Chars(Base16, vals) + Pads(0);
    OnBytes(4);
    assert EncodesTo(Base16, bytes, "AB", vals, 0);
  }

  lemma Base32VectorBytes()
    ensures Flat(8, [0x66])
         == [false, true, true, false, false, true, true, false]
  {
    hide Flat, BitsOf;
    Bits8(102);
    Bits4(102);
    Bits4(6);
    var s: seq<nat> := [0x66];
    FlatNone(8);
    FlatPush(8, s[..0], 102);
    assert s[..0] + [102] == s[..1];
    assert s[..1] == s;
  }

  lemma Base32VectorGroups()
    ensures Flat(5, [12, 24])
         == [false, true, true, false, false] + [true, true, false, false, false]
  {
    hide Flat, BitsOf;
    Bits5(12);
    Bits4(12);
    Bits5(24);
    Bits4(24);
    var s: seq<nat> := [12, 24];
    FlatNone(5);
    FlatPush(5, s[..0], 12);
    assert s[..0] + [12] == s[..1];
    FlatPush(5, s[..1], 24);
    assert s[..1] + [24] == s[..2];
    assert s[..2] == s;
  }

  lemma Base32Vector()
    ensures IsEncoding(Base32, [0x66], "MY======")
  {
    hide OnByte, Flat, Base.Dictionary, BitsOf;
    Alphabets();
    GroupRange(Base32);
    var bytes, vals: seq<nat> := [0x66], [12, 24];
    Base32VectorBytes();
    Base32VectorGroups();
    assert Flat(5, vals) == Flat(8, bytes) + Zeros(2);
    assert "MY======" == Chars(Base32, vals) + Pads(6);
    OnBytes(5);
    assert EncodesTo(Base32, bytes, "MY======", vals, 6);
  }

  lemma Base64VectorBytes()
    ensures Flat(8, [0xFB, 0xFF])
         == [true, true, true, true, true, false, true, true] + [true, true, true, true, true, true, true, true]
  {
    hide Flat, BitsOf;
    Bits8(251);
    Bits4(251);
    Bits4(15);
    Bits8(255);
    Bits4(255);
    Bits4(15);
    var s: seq<nat> := [0xFB, 0xFF];
    FlatNone(8);
    FlatPush(8, s[..0], 251);
    assert s[..0] + [251] == s[..1];
    FlatPush(8, s[..1], 255);
    assert s[..1] + [255] == s[..2];
    assert s[..2] == s;
  }

  lemma Base64VectorGroups()
    ensures Flat(6, [62, 63, 60])
         == [true, true, true, true, true, false] + [true, true, true, true, true, true]
          + [true, true, true, true, false, false]
  {
    hide Flat, BitsOf;
    Bits6(60);
    Bits4(60);
    Bits6(62);
    Bits4(62);
    Bits6(63);
    Bits4(63);
    var s: seq<nat> := [62, 63, 60];
    FlatNone(6);
    FlatPush(6, s[..0], 62);
    assert s[..0] + [62] == s[..1];
    FlatPush(6, s[..1], 63);
    assert s[..1] + [63] == s[..2];
    FlatPush(6, s[..2], 60);
    assert s[..2] + [60] == s[..3];
    assert s[..3] == s;
  }

  lemma Base64Vector()
    ensures IsEncoding(Base64, [0xFB, 0xFF], "+/8=")
  {
    hide OnByte, Flat, Base.Dictionary, BitsOf;
    Alphabets();
    GroupRange(Base64);
    var bytes, vals: seq<nat> := [0xFB, 0xFF], [62, 63, 60];
    Base64VectorBytes();
    Base64VectorGroups();
    assert Flat(6, vals) == Flat(8, bytes) + Zeros(2);
    assert "+/8=" == Chars(Base64, vals) + Pads(1);
    OnBytes(6);
    assert EncodesTo(Base64, bytes, "+/8=", vals, 1);
  }
}
