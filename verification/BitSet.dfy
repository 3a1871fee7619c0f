/**
  The growable bit set: an array of 64-bit words read as a finite set of numbers.
 */
module BitSet {
  import opened Bits
  import opened Words

  // ---- The set a sequence of words stands for

  /** Word `k`, zero outside the sequence. */
  function At(words: seq<Word>, k: int): Word {
    if 0 <= k < |words| then words[k] else 0
  }

  predicate Member(words: seq<Word>, i: nat) {
    Bit(At(words, i / 64), i % 64)
  }

  ghost function Members(words: seq<Word>): (m: set<nat>)
    ensures forall i: nat :: i in m <==> Member(words, i)
  {
    forall i: nat | Member(words, i)
      ensures i < 64 * |words|
    {
      ZeroBits(i % 64);
    }
    set i: nat | i < 64 * |words| && Member(words, i)
  }

  lemma SameMembers(a: seq<Word>, b: seq<Word>)
    requires forall k :: At(a, k) == At(b, k)
    ensures Members(a) == Members(b)
  {
  }

  lemma NoMembers(words: seq<Word>)
    requires forall k :: At(words, k) == 0
    ensures Members(words) == {}
  {
    forall i: nat
      ensures !Member(words, i)
    {
      ZeroBits(i % 64);
    }
  }

  // ---- Set operations, word by word

  function Larger(a: nat, b: nat): nat { if a < b then b else a }
  function Smaller(a: nat, b: nat): nat { if a < b then a else b }

  function OrWord(a: Word, b: Word): Word {
    Pow2Words();
    OrBound(a, b, 64);
    Or(a, b)
  }

  function AndWord(a: Word, b: Word): (r: Word)
    ensures r <= a
  {
    AndBelow(a, b);
    And(a, b)
  }

  function XorWord(a: Word, b: Word): Word {
    Pow2Words();
    XorBound(a, b, 64);
    Xor(a, b)
  }

  lemma {:induction false} AndBelow(a: nat, b: nat)
    ensures And(a, b) <= a
  {
    if a != 0 && b != 0 {
      AndBelow(a / 2, b / 2);
    }
  }

  lemma {:induction false} XorBound(a: nat, b: nat, w: nat)
    requires a < Pow2(w) && b < Pow2(w)
    ensures Xor(a, b) < Pow2(w)
  {
    if a != 0 && b != 0 {
      XorBound(a / 2, b / 2, w - 1);
    }
  }

  function Union(a: seq<Word>, b: seq<Word>): seq<Word> {
    seq(Larger(|a|, |b|), k => OrWord(At(a, k), At(b, k)))
  }

  function Intersection(a: seq<Word>, b: seq<Word>): seq<Word> {
    seq(|a|, k => AndWord(At(a, k), At(b, k)))
  }

  function Difference(a: seq<Word>, b: seq<Word>): seq<Word> {
    seq(|a|, k => AndWord(At(a, k), Complement(At(b, k))))
  }

  function SymmetricDifference(a: seq<Word>, b: seq<Word>): seq<Word> {
    seq(Larger(|a|, |b|), k => XorWord(At(a, k), At(b, k)))
  }

  lemma UnionMembers(a: seq<Word>, b: seq<Word>)
    ensures Members(Union(a, b)) == Members(a) + Members(b)
  {
    forall i: nat
      ensures Member(Union(a, b), i) == (Member(a, i) || Member(b, i))
    {
      hide Bit;
      OrBits(At(a, i / 64), At(b, i / 64), i % 64);
      ZeroBits(i % 64);
    }
  }

  lemma IntersectionMembers(a: seq<Word>, b: seq<Word>)
    ensures Members(Intersection(a, b)) == Members(a) * Members(b)
  {
    forall i: nat
      ensures Member(Intersection(a, b), i) == (Member(a, i) && Member(b, i))
    {
      hide Bit;
      AndBits(At(a, i / 64), At(b, i / 64), i % 64);
      ZeroBits(i % 64);
    }
  }

  lemma DifferenceMembers(a: seq<Word>, b: seq<Word>)
    ensures Members(Difference(a, b)) == Members(a) - Members(b)
  {
    forall i: nat
      ensures Member(Difference(a, b), i) == (Member(a, i) && !Member(b, i))
    {
      hide Bit;
      ComplementBits(At(b, i / 64), i % 64);
      AndBits(At(a, i / 64), Complement(At(b, i / 64)), i % 64);
      ZeroBits(i % 64);
    }
  }

  /** What is in exactly one of two sets. */
  ghost function InOne(a: set<nat>, b: set<nat>): set<nat> {
    (a - b) + (b - a)
  }

  lemma SymmetricDifferenceMembers(a: seq<Word>, b: seq<Word>)
    ensures Members(SymmetricDifference(a, b)) == InOne(Members(a), Members(b))
  {
    forall i: nat
      ensures Member(SymmetricDifference(a, b), i) == (Member(a, i) != Member(b, i))
    {
      hide Bit;
      XorBits(At(a, i / 64), At(b, i / 64), i % 64);
      ZeroBits(i % 64);
    }
  }

  // ---- Counting

  function PopCount(w: Word): nat {
    Ones(w, 64)
  }

  function Count(words: seq<Word>): nat {
    if words == [] then 0 else Count(words[..|words| - 1]) + PopCount(words[|words| - 1])
  }

  lemma CountStep(words: seq<Word>, k: nat)
    requires k < |words|
    ensures Count(words[..k + 1]) == Count(words[..k]) + PopCount(words[k])
  {
    assert words[..k + 1][..k] == words[..k];
  }

  ghost function MembersBelow(words: seq<Word>, n: nat): set<nat> {
    set i: nat | i < n && Member(words, i)
  }

  lemma OneMore(words: seq<Word>, i: nat)
    ensures |MembersBelow(words, i + 1)| == |MembersBelow(words, i)| + (if Member(words, i) then 1 else 0)
  {
    hide Bit;
    assert MembersBelow(words, i + 1) == MembersBelow(words, i) + (if Member(words, i) then {i} else {});
  }

  lemma {:induction false} OnesCount(words: seq<Word>, k: nat, n: nat)
    requires n <= 64
    ensures |MembersBelow(words, 64 * k + n)| == |MembersBelow(words, 64 * k)| + Ones(At(words, k), n)
  {
    if n == 0 {
    } else {
      hide Bit, MembersBelow;
      OnesCount(words, k, n - 1);
      var i := 64 * k + (n - 1);
      assert i / 64 == k && i % 64 == n - 1;
      OneMore(words, i);
    }
  }

  lemma {:induction false} CountBelow(words: seq<Word>, k: nat)
    requires k <= |words|
    ensures |MembersBelow(words, 64 * k)| == Count(words[..k])
  {
    if k == 0 {
      assert MembersBelow(words, 0) == {};
    } else {
      CountBelow(words, k - 1);
      OnesCount(words, k - 1, 64);
      CountStep(words, k - 1);
    }
  }

  /** The sum of the popcounts is the size of the set. */
  lemma CountMembers(words: seq<Word>)
    ensures Count(words) == |Members(words)|
  {
    CountBelow(words, |words|);
    assert words[..|words|] == words;
    forall i: nat | Member(words, i)
      ensures i < 64 * |words|
    {
      ZeroBits(i % 64);
    }
    assert MembersBelow(words, 64 * |words|) == Members(words);
  }

  // ---- Shifts

  ghost function Raised(m: set<nat>, d: nat): set<nat> {
    set i | i in m :: i + d
  }

  /** What would go below zero is dropped. */
  ghost function Lowered(m: set<nat>, d: nat): set<nat> {
    set i | i in m && i >= d :: i - d
  }

  /** The words of a set moved up by `64 * e + s`. */
  function ShiftedLeft(a: seq<Word>, e: nat, s: nat, n: nat): seq<Word>
    requires s < 64
  {
    seq(n, j => LeftWord(a, e, s, j))
  }

  function LeftWord(a: seq<Word>, e: nat, s: nat, j: int): Word
    requires s < 64
  {
    OrWord(Shl64(At(a, j - e), s), Shr64(At(a, j - e - 1), 64 - s))
  }

  /** The words of a set moved down by `64 * e + s`. */
  function RightWord(a: seq<Word>, e: nat, s: nat, j: int): Word
    requires s < 64
  {
    OrWord(Shr64(At(a, j + e), s), Shl64(At(a, j + e + 1), 64 - s))
  }

  function ShiftedRight(a: seq<Word>, e: nat, s: nat, n: nat): seq<Word>
    requires s < 64
  {
    seq(n, j => RightWord(a, e, s, j))
  }

  ghost predicate HasAt(words: seq<Word>, i: int) {
    i >= 0 && Member(words, i)
  }

  lemma LeftBits(a: seq<Word>, e: nat, s: nat, j: nat, r: nat)
    requires s < 64 && r < 64
    ensures Bit(LeftWord(a, e, s, j), r) == HasAt(a, 64 * (j - e) + r - s)
  {
    hide Bit, Shl64, Shr64, Or;
    var x, y := At(a, j - e), At(a, j - e - 1);
    OrBits(Shl64(x, s), Shr64(y, 64 - s), r);
    ShlBits(x, s, r);
    ShrBits(y, 64 - s, r);
    var i := 64 * (j - e) + r - s;
    if r >= s {
      assert i == 64 * (j - e) + (r - s);
      if Bit(y, r + (64 - s)) { WordBit(y, r + (64 - s)); }
      if j >= e { assert i / 64 == j - e && i % 64 == r - s; } else { ZeroBits(r - s); }
    } else {
      assert i == 64 * (j - e - 1) + (64 + r - s);
      if j > e { assert i / 64 == j - e - 1 && i % 64 == 64 + r - s; } else { ZeroBits(64 + r - s); }
    }
  }

  lemma RightBits(a: seq<Word>, e: nat, s: nat, j: nat, r: nat)
    requires s < 64 && r < 64
    ensures Bit(RightWord(a, e, s, j), r) == HasAt(a, 64 * (j + e) + r + s)
  {
    hide Bit, Shl64, Shr64, Or;
    var x, y := At(a, j + e), At(a, j + e + 1);
    OrBits(Shr64(x, s), Shl64(y, 64 - s), r);
    ShrBits(x, s, r);
    ShlBits(y, 64 - s, r);
    var i := 64 * (j + e) + r + s;
    if r + s < 64 {
      assert i / 64 == j + e && i % 64 == r + s;
    } else {
      if Bit(x, r + s) { WordBit(x, r + s); }
      assert i / 64 == j + e + 1 && i % 64 == r + s - 64;
    }
  }

  lemma BeyondEnd(a: seq<Word>, i: int)
    requires i >= 64 * |a|
    ensures !HasAt(a, i)
  {
    ZeroBits(i % 64);
  }

  lemma ShiftedLeftAt(a: seq<Word>, e: nat, s: nat, n: nat, i: nat)
    requires s < 64 && n >= |a| + e + (if s == 0 then 0 else 1)
    ensures Member(ShiftedLeft(a, e, s, n), i) == HasAt(a, i - (64 * e + s))
  {
    hide Bit, LeftWord, HasAt;
    LeftBits(a, e, s, i / 64, i % 64);
    assert 64 * (i / 64 - e) + i % 64 - s == i - (64 * e + s);
    if i / 64 >= n {
      BeyondEnd(a, i - (64 * e + s));
      ZeroBits(i % 64);
    }
  }

  lemma ShiftedRightAt(a: seq<Word>, e: nat, s: nat, i: nat)
    requires s < 64 && e <= |a|
    ensures Member(ShiftedRight(a, e, s, |a| - e), i) == HasAt(a, i + (64 * e + s))
  {
    hide Bit, RightWord, HasAt;
    RightBits(a, e, s, i / 64, i % 64);
    assert 64 * (i / 64 + e) + i % 64 + s == i + (64 * e + s);
    if i / 64 >= |a| - e {
      BeyondEnd(a, i + (64 * e + s));
      ZeroBits(i % 64);
    }
  }

  lemma ShiftedLeftMembers(a: seq<Word>, e: nat, s: nat, n: nat)
    requires s < 64 && n >= |a| + e + (if s == 0 then 0 else 1)
    ensures Members(ShiftedLeft(a, e, s, n)) == Raised(Members(a), 64 * e + s)
  {
    hide ShiftedLeft, HasAt, Raised;
    forall i: nat
      ensures Member(ShiftedLeft(a, e, s, n), i) == HasAt(a, i - (64 * e + s))
    {
      ShiftedLeftAt(a, e, s, n, i);
    }
    MovedUp(ShiftedLeft(a, e, s, n), a, 64 * e + s);
  }

  lemma ShiftedRightMembers(a: seq<Word>, e: nat, s: nat)
    requires s < 64 && e <= |a|
    ensures Members(ShiftedRight(a, e, s, |a| - e)) == Lowered(Members(a), 64 * e + s)
  {
    hide ShiftedRight, HasAt, Lowered;
    var w := ShiftedRight(a, e, s, |a| - e);
    forall i: nat
      ensures Member(w, i) == HasAt(a, i + (64 * e + s))
    {
      ShiftedRightAt(a, e, s, i);
    }
    MovedDown(w, a, 64 * e + s);
  }

  lemma MovedUp(w: seq<Word>, a: seq<Word>, d: nat)
    requires forall i: nat :: Member(w, i) == HasAt(a, i - d)
    ensures Members(w) == Raised(Members(a), d)
  {
    hide Member;
    forall i: nat | i in Members(a)
      ensures i + d in Members(w)
    {
      assert HasAt(a, i + d - d);
    }
    forall i: nat | i in Members(w)
      ensures i - d in Members(a)
    {
    }
  }

  lemma MovedDown(w: seq<Word>, a: seq<Word>, d: nat)
    requires forall i: nat :: Member(w, i) == HasAt(a, i + d)
    ensures Members(w) == Lowered(Members(a), d)
  {
    hide Member;
    forall i: nat | i in Members(a) && i >= d
      ensures i - d in Members(w)
    {
      assert HasAt(a, i - d + d);
    }
    forall i: nat | i in Members(w)
      ensures i + d in Members(a) && i == i + d - d
    {
    }
  }

  // ---- Single bits

  lemma SingleBit(s: nat, j: nat)
    requires s < 64
    ensures Bit(Shl64(1, s), j) == (j == s)
  {
    ShlBits(1, s, j);
    if j > s {
      ZeroBits(j - s - 1);
    }
  }

  lemma TestBit(w: Word, s: nat)
    requires s < 64
    ensures (AndWord(w, Shl64(1, s)) != 0) == Bit(w, s)
  {
    hide Bit, Shl64;
    var t := AndWord(w, Shl64(1, s));
    if t != 0 {
      var j := Lowest(t);
      AndBits(w, Shl64(1, s), j);
      SingleBit(s, j);
    } else {
      AndBits(w, Shl64(1, s), s);
      SingleBit(s, s);
      ZeroBits(s);
    }
  }

  lemma SetMembers(a: seq<Word>, b: seq<Word>, i: nat)
    requires forall k :: At(b, k) == if k == i / 64 then OrWord(At(a, k), Shl64(1, i % 64)) else At(a, k)
    ensures Members(b) == Members(a) + {i}
  {
    forall j: nat
      ensures Member(b, j) == (Member(a, j) || j == i)
    {
      hide Bit, Shl64;
      OrBits(At(a, j / 64), Shl64(1, i % 64), j % 64);
      SingleBit(i % 64, j % 64);
    }
  }

  lemma UnsetMembers(a: seq<Word>, b: seq<Word>, i: nat)
    requires forall k :: At(b, k) == if k == i / 64 then AndWord(At(a, k), Complement(Shl64(1, i % 64))) else At(a, k)
    ensures Members(b) == Members(a) - {i}
  {
    forall j: nat
      ensures Member(b, j) == (Member(a, j) && j != i)
    {
      hide Bit, Shl64;
      AndBits(At(a, j / 64), Complement(Shl64(1, i % 64)), j % 64);
      ComplementBits(Shl64(1, i % 64), j % 64);
      SingleBit(i % 64, j % 64);
    }
  }

  // ---- The mutable bit set

  class BitSet {
    var words: array<Word>
    var arraysize: nat
    var capacity: nat

    ghost predicate Valid()
      reads this
    {
      arraysize <= capacity == words.Length
    }

    function Content(): (c: seq<Word>)
      requires Valid()
      reads this, words
    {
      words[..arraysize]
    }

    constructor ()
      ensures Valid() && fresh(words) && Content() == []
    {
      words := new Word[0];
      arraysize, capacity := 0, 0;
    }

    constructor WithCapacity(size: nat)
      ensures Valid() && fresh(words) && 64 * arraysize >= size && Members(Content()) == {}
    {
      var n := (size + 63) / 64;
      words := new Word[n](_ => 0);
      arraysize, capacity := n, n;
      new;
      NoMembers(Content());
    }

    constructor Copy(that: BitSet)
      requires that.Valid()
      ensures Valid() && fresh(words) && Content() == that.Content()
    {
      var n, c := that.arraysize, that.Content();
      words := new Word[n](k requires 0 <= k < |c| => c[k]);
      arraysize, capacity := n, n;
    }

    method Clear()
      requires Valid()
      modifies words
      ensures Members(Content()) == {}
    {
      for k := 0 to arraysize
        invariant forall j :: 0 <= j < k ==> words[j] == 0
      {
        words[k] := 0;
      }
      NoMembers(Content());
    }

    /** `realloc`: the common prefix stays, anything else is arbitrary. */
    method Reallocate(n: nat)
      modifies this`words
      ensures fresh(words) && words.Length == n
      ensures forall k :: 0 <= k < n && k < old(words.Length) ==> words[k] == old(words[k])
    {
      var source, moved := words, new Word[n];
      for k := 0 to Smaller(n, source.Length)
        invariant forall j :: 0 <= j < k ==> moved[j] == source[j]
        invariant forall j :: 0 <= j < source.Length ==> source[j] == old(words[j])
      {
        moved[k] := source[k];
      }
      words := moved;
    }

    method Grow(n: nat)
      requires Valid() && n >= arraysize
      modifies this, words
      ensures Valid() && (words == old(words) || fresh(words))
      ensures Content() == old(Content()) + seq(n - old(arraysize), _ => 0)
    {
      if capacity < n {
        capacity := n * 2;
        Reallocate(capacity);
      }
      for k := arraysize to n
        invariant Valid() && (words == old(words) || fresh(words)) && n <= words.Length && arraysize == old(arraysize)
        invariant forall j :: 0 <= j < arraysize ==> words[j] == old(words[j])
        invariant forall j :: arraysize <= j < k ==> words[j] == 0
      {
        words[k] := 0;
      }
      arraysize := n;
    }

    method Resize(n: nat, pad: bool)
      requires Valid()
      modifies this, words
      ensures Valid() && arraysize == n && (words == old(words) || fresh(words))
      ensures forall k :: 0 <= k < n && k < old(arraysize) ==> words[k] == old(words[k])
      ensures pad ==> forall k :: old(arraysize) <= k < n ==> words[k] == 0
    {
      var smallest := Smaller(n, arraysize);
      if capacity < n {
        capacity := n * 2;
        Reallocate(capacity);
      }
      if pad && n > smallest {
        for k := smallest to n
          invariant Valid() && (words == old(words) || fresh(words)) && n <= words.Length && arraysize == old(arraysize)
          invariant forall j :: 0 <= j < smallest ==> words[j] == old(words[j])
          invariant forall j :: smallest <= j < k ==> words[j] == 0
        {
          words[k] := 0;
        }
      }
      arraysize := n;
    }

    method Set(i: nat)
      requires Valid()
      modifies this, words
      ensures Valid() && (words == old(words) || fresh(words))
      ensures Members(Content()) == old(Members(Content())) + {i}
    {
      ghost var before := Content();
      var k := i / 64;
      if k >= arraysize {
        Grow(k + 1);
      }
      words[k] := OrWord(words[k], Shl64(1, i % 64));
      SetMembers(before, Content(), i);
    }

    method Unset(i: nat)
      requires Valid()
      modifies words
      ensures Members(Content()) == old(Members(Content())) - {i}
    {
      ghost var before := Content();
      var k := i / 64;
      if k >= arraysize {
        BeyondEnd(before, i);
        return;
      }
      words[k] := AndWord(words[k], Complement(Shl64(1, i % 64)));
      UnsetMembers(before, Content(), i);
    }

    method Get(i: nat) returns (b: bool)
      requires Valid()
      ensures b == (i in Members(Content()))
    {
      var k := i / 64;
      if k >= arraysize {
        BeyondEnd(Content(), i);
        return false;
      }
      TestBit(words[k], i % 64);
      b := AndWord(words[k], Shl64(1, i % 64)) != 0;
    }

    // ---- Set operations in place

    method UnionWith(that: BitSet)
      requires Valid() && that.Valid() && (this == that || words != that.words)
      modifies this, words
      ensures Valid() && (words == old(words) || fresh(words))
      ensures Members(Content()) == old(Members(Content())) + old(Members(that.Content()))
    {
      ghost var a, b := Content(), that.Content();
      var minlength := Smaller(arraysize, that.arraysize);
      for k := 0 to minlength
        modifies words
        invariant forall j :: 0 <= j < k ==> words[j] == OrWord(a[j], b[j])
        invariant forall j :: k <= j < arraysize ==> words[j] == a[j]
        invariant forall j :: k <= j < that.arraysize ==> that.words[j] == b[j]
      {
        words[k] := OrWord(words[k], that.words[k]);
      }
      if that.arraysize > arraysize {
        var oldsize := arraysize;
        Resize(that.arraysize, false);
        CopyFrom(that, oldsize);
      }
      OrZero();
      assert Content() == Union(a, b);
      UnionMembers(a, b);
    }

    /** The `memcpy` of the words from `start` on. */
    method CopyFrom(that: BitSet, start: nat)
      requires Valid() && that.Valid() && words != that.words && start <= arraysize == that.arraysize
      modifies words
      ensures words[..start] == old(words[..start])
      ensures forall j :: start <= j < arraysize ==> words[j] == that.words[j]
    {
      for k := start to arraysize
        invariant words[..start] == old(words[..start])
        invariant forall j :: start <= j < k ==> words[j] == that.words[j]
      {
        words[k] := that.words[k];
      }
    }

    method IntersectWith(that: BitSet)
      requires Valid() && that.Valid() && (this == that || words != that.words)
      modifies words
      ensures Members(Content()) == old(Members(Content())) * old(Members(that.Content()))
    {
      ghost var a, b := Content(), that.Content();
      var minlength := Smaller(arraysize, that.arraysize);
      for k := 0 to minlength
        invariant forall j :: 0 <= j < k ==> words[j] == AndWord(a[j], b[j])
        invariant forall j :: k <= j < arraysize ==> words[j] == a[j]
        invariant forall j :: k <= j < that.arraysize ==> that.words[j] == b[j]
      {
        words[k] := AndWord(words[k], that.words[k]);
      }
      for k := minlength to arraysize
        invariant forall j :: 0 <= j < minlength ==> words[j] == AndWord(a[j], b[j])
        invariant forall j :: minlength <= j < k ==> words[j] == 0
      {
        words[k] := 0;
      }
      AndZero();
      assert Content() == Intersection(a, b);
      IntersectionMembers(a, b);
    }

    method Subtract(that: BitSet)
      requires Valid() && that.Valid() && (this == that || words != that.words)
      modifies words
      ensures Members(Content()) == old(Members(Content())) - old(Members(that.Content()))
    {
      ghost var a, b := Content(), that.Content();
      var minlength := Smaller(arraysize, that.arraysize);
      for k := 0 to minlength
        invariant forall j :: 0 <= j < k ==> words[j] == AndWord(a[j], Complement(b[j]))
        invariant forall j :: k <= j < arraysize ==> words[j] == a[j]
        invariant forall j :: k <= j < that.arraysize ==> that.words[j] == b[j]
      {
        words[k] := AndWord(words[k], Complement(that.words[k]));
      }
      AndAll();
      assert Content() == Difference(a, b);
      DifferenceMembers(a, b);
    }

    method SymmetricDifferenceWith(that: BitSet)
      requires Valid() && that.Valid() && (this == that || words != that.words)
      modifies this, words
      ensures Valid() && (words == old(words) || fresh(words))
      ensures Members(Content()) == InOne(old(Members(Content())), old(Members(that.Content())))
    {
      ghost var a, b := Content(), that.Content();
      var minlength := Smaller(arraysize, that.arraysize);
      for k := 0 to minlength
        modifies words
        invariant forall j :: 0 <= j < k ==> words[j] == XorWord(a[j], b[j])
        invariant forall j :: k <= j < arraysize ==> words[j] == a[j]
        invariant forall j :: k <= j < that.arraysize ==> that.words[j] == b[j]
      {
        words[k] := XorWord(words[k], that.words[k]);
      }
      if that.arraysize > arraysize {
        var oldsize := arraysize;
        Resize(that.arraysize, false);
        CopyFrom(that, oldsize);
      }
      assert Content() == SymmetricDifference(a, b);
      SymmetricDifferenceMembers(a, b);
    }

    // ---- Shifts in place

    /** Every member moves up by `s`. An empty array has no last word to shift by part of a word. */
    method ShiftLeft(s: nat)
      requires Valid() && (s % 64 == 0 || arraysize > 0)
      modifies this, words
      ensures Valid() && (words == old(words) || fresh(words))
      ensures Members(Content()) == Raised(old(Members(Content())), s)
    {
      hide Members, Raised, Lowered, LeftWord, RightWord;
      ghost var a := Content();
      var extra, inword, as' := s / 64, s % 64, arraysize;
      if inword == 0 {
        Resize(as' + extra, false);
        MoveWordsUp(extra, as', a);
      } else {
        Resize(as' + extra + 1, true);
        ShiftWordsUp(extra, inword, as', a);
      }
      for k := 0 to extra
        modifies words
        invariant forall j :: 0 <= j < k ==> words[j] == 0
        invariant forall j :: extra <= j < arraysize ==> words[j] == LeftWord(a, extra, inword, j)
      {
        words[k] := 0;
      }
      LeftWordsBelow(a, extra, inword);
      assert Content() == ShiftedLeft(a, extra, inword, arraysize);
      ShiftedLeftMembers(a, extra, inword, arraysize);
    }

    /** Whole words move, last one first. */
    method MoveWordsUp(extra: nat, as': nat, ghost a: seq<Word>)
      requires Valid() && arraysize == as' + extra && |a| == as' && words[..as'] == a
      modifies words
      ensures forall j :: extra <= j < arraysize ==> words[j] == LeftWord(a, extra, 0, j)
    {
      hide LeftWord;
      var i := as' + extra;
      while i > extra
        invariant extra <= i <= arraysize
        invariant forall j :: i <= j < arraysize ==> words[j] == LeftWord(a, extra, 0, j)
        invariant forall j :: 0 <= j < as' && j < i ==> words[j] == a[j]
      {
        WholeLeftWord(a, extra, i - 1);
        words[i - 1] := words[i - 1 - extra];
        i := i - 1;
      }
    }

    /** Each word is put together from two, last one first. */
    method ShiftWordsUp(extra: nat, inword: nat, as': nat, ghost a: seq<Word>)
      requires Valid() && arraysize == as' + extra + 1 && as' > 0 && 0 < inword < 64 && |a| == as' && words[..as'] == a
      modifies words
      ensures forall j :: extra <= j < arraysize ==> words[j] == LeftWord(a, extra, inword, j)
    {
      hide Shl64, Shr64, OrWord;
      OrZero();
      ShiftedZero(inword);
      ShiftedZero(64 - inword);
      words[as' + extra] := Shr64(words[as' - 1], 64 - inword);
      var i := as' + extra;
      while i >= extra + 2
        invariant extra + 1 <= i < arraysize
        invariant forall j :: i <= j < arraysize ==> words[j] == LeftWord(a, extra, inword, j)
        invariant forall j :: 0 <= j < as' && j < i ==> words[j] == a[j]
      {
        words[i - 1] := OrWord(Shl64(words[i - 1 - extra], inword), Shr64(words[i - 2 - extra], 64 - inword));
        i := i - 1;
      }
      words[extra] := Shl64(words[0], inword);
    }

    /** Every member from `s` on moves down by `s`; smaller ones are dropped. */
    method ShiftRight(s: nat)
      requires Valid() && (s / 64 < arraysize || (s % 64 == 0 && s / 64 == arraysize))
      modifies this, words
      ensures Valid() && (words == old(words) || fresh(words))
      ensures Members(Content()) == Lowered(old(Members(Content())), s)
    {
      hide Members, Raised, Lowered, LeftWord, RightWord;
      ghost var a := Content();
      var extra, inword, as' := s / 64, s % 64, arraysize;
      if inword == 0 {
        MoveWordsDown(extra, as', a);
      } else {
        ShiftWordsDown(extra, inword, as', a);
      }
      Resize(as' - extra, false);
      assert Content() == ShiftedRight(a, extra, inword, as' - extra);
      ShiftedRightMembers(a, extra, inword);
    }

    method MoveWordsDown(extra: nat, as': nat, ghost a: seq<Word>)
      requires Valid() && arraysize == as' >= extra && Content() == a
      modifies words
      ensures forall j :: 0 <= j < as' - extra ==> words[j] == RightWord(a, extra, 0, j)
    {
      hide RightWord;
      for i := 0 to as' - extra
        invariant forall j :: 0 <= j < i ==> words[j] == RightWord(a, extra, 0, j)
        invariant forall j :: i <= j < as' ==> words[j] == a[j]
      {
        WholeRightWord(a, extra, i);
        words[i] := words[i + extra];
      }
    }

    method ShiftWordsDown(extra: nat, inword: nat, as': nat, ghost a: seq<Word>)
      requires Valid() && arraysize == as' > extra && 0 < inword < 64 && Content() == a
      modifies words
      ensures forall j :: 0 <= j < as' - extra ==> words[j] == RightWord(a, extra, inword, j)
    {
      hide Shl64, Shr64, OrWord;
      OrZero();
      ShiftedZero(64 - inword);
      var i := 0;
      while i + extra + 1 < as'
        invariant 0 <= i < as' - extra
        invariant forall j :: 0 <= j < i ==> words[j] == RightWord(a, extra, inword, j)
        invariant forall j :: i <= j < as' ==> words[j] == a[j]
      {
        words[i] := OrWord(Shr64(words[i + extra], inword), Shl64(words[i + extra + 1], 64 - inword));
        i := i + 1;
      }
      words[as' - extra - 1] := Shr64(words[as' - 1], inword);
    }

    // ---- Giving memory back

    /** Trailing zero words go and the set stays; the last word left is not zero. */
    method Trim()
      requires Valid()
      modifies this
      ensures Valid() && (words == old(words) || fresh(words)) && capacity == arraysize <= old(arraysize)
      ensures Members(Content()) == old(Members(Content()))
      ensures arraysize > 0 ==> words[arraysize - 1] != 0
    {
      ghost var a := Content();
      var newsize := arraysize;
      while newsize > 0 && words[newsize - 1] == 0
        invariant 0 <= newsize <= arraysize
        invariant forall j :: newsize <= j < arraysize ==> words[j] == 0
      {
        newsize := newsize - 1;
      }
      if capacity != newsize {
        capacity := newsize;
        arraysize := newsize;
        Reallocate(capacity);
      }
      SameMembers(Content(), a);
    }
  }

  // ---- Facts about whole words

  lemma ShiftedZero(s: nat)
    ensures Shl64(0, s) == 0 && Shr64(0, s) == 0
  {
  }

  lemma NoShift(w: Word)
    ensures Shl64(w, 0) == w && Shr64(w, 0) == w && Shr64(w, 64) == 0 && Shl64(w, 64) == 0
  {
    Pow2Words();
  }

  lemma WholeLeftWord(a: seq<Word>, e: nat, j: nat)
    ensures LeftWord(a, e, 0, j) == At(a, j - e)
  {
    hide Shl64, Shr64, OrWord;
    OrZero();
    NoShift(At(a, j - e));
    NoShift(At(a, j - e - 1));
  }

  lemma WholeRightWord(a: seq<Word>, e: nat, j: nat)
    ensures RightWord(a, e, 0, j) == At(a, j + e)
  {
    hide Shl64, Shr64, OrWord;
    OrZero();
    NoShift(At(a, j + e));
    NoShift(At(a, j + e + 1));
  }

  lemma LeftWordsBelow(a: seq<Word>, e: nat, s: nat)
    requires s < 64
    ensures forall j :: 0 <= j < e ==> LeftWord(a, e, s, j) == 0
  {
    hide Shl64, Shr64, OrWord;
    OrZero();
    ShiftedZero(s);
    ShiftedZero(64 - s);
  }

  lemma OrZero()
    ensures forall w: Word :: OrWord(w, 0) == w && OrWord(0, w) == w
  {
  }

  lemma AndZero()
    ensures forall w: Word :: AndWord(w, 0) == 0
  {
  }

  lemma AndAll()
    ensures forall w: Word :: AndWord(w, Complement(0)) == w
  {
    Pow2Words();
    forall w: Word
      ensures AndWord(w, Complement(0)) == w
    {
      AndOnes(w, 64);
    }
  }
}
