/**
  What can be asked of bit sets: sizes, extremes and iteration.
 */
module BitSetQueries {
  import opened Bits
  import opened Words
  import opened BitSet

  // ---- Sizes

  lemma {:induction false} NoOnes(n: nat)
    ensures Ones(0, n) == 0
  {
    if n == 0 {
    } else {
      NoOnes(n - 1);
      ZeroBits(n - 1);
    }
  }

  lemma {:induction false} CountZeros(words: seq<Word>, k: nat)
    requires k <= |words| && forall j :: k <= j < |words| ==> words[j] == 0
    ensures Count(words) == Count(words[..k])
    decreases |words| - k
  {
    if k == |words| {
      assert words[..k] == words;
    } else {
      CountZeros(words, k + 1);
      CountStep(words, k);
      NoOnes(64);
    }
  }

  lemma CountStep4(words: seq<Word>, k: nat)
    requires k + 4 <= |words|
    ensures Count(words[..k + 4])
         == Count(words[..k]) + PopCount(words[k]) + PopCount(words[k + 1]) + PopCount(words[k + 2]) + PopCount(words[k + 3])
  {
    hide Count, PopCount;
    CountStep(words, k);
    CountStep(words, k + 1);
    CountStep(words, k + 2);
    CountStep(words, k + 3);
  }

  method CountOf(b: BitSet) returns (card: nat)
    requires b.Valid()
    ensures card == |Members(b.Content())|
  {
    hide Count, PopCount, Members;
    ghost var c := b.Content();
    CountMembers(c);
    var k := 0;
    card := 0;
    assert Count(c[..0]) == 0 by { EmptyCount(); }
    while k + 7 < b.arraysize
      invariant k <= b.arraysize && card == Count(c[..k])
    {
      CountStep4(c, k);
      CountStep4(c, k + 4);
      card := card + PopCount(b.words[k]);
      card := card + PopCount(b.words[k + 1]);
      card := card + PopCount(b.words[k + 2]);
      card := card + PopCount(b.words[k + 3]);
      card := card + PopCount(b.words[k + 4]);
      card := card + PopCount(b.words[k + 5]);
      card := card + PopCount(b.words[k + 6]);
      card := card + PopCount(b.words[k + 7]);
      k := k + 8;
    }
    while k + 3 < b.arraysize
      invariant k <= b.arraysize && card == Count(c[..k])
    {
      CountStep4(c, k);
      card := card + PopCount(b.words[k]);
      card := card + PopCount(b.words[k + 1]);
      card := card + PopCount(b.words[k + 2]);
      card := card + PopCount(b.words[k + 3]);
      k := k + 4;
    }
    while k < b.arraysize
      invariant k <= b.arraysize && card == Count(c[..k])
    {
      CountStep(c, k);
      card := card + PopCount(b.words[k]);
      k := k + 1;
    }
    assert c[..k] == c;
  }

  lemma EmptyCount()
    ensures Count([]) == 0
  {
  }

  /** The words beyond the shorter set, four at a time. */
  method CountRest(b: BitSet, start: nat, answer0: nat, ghost c: seq<Word>) returns (answer: nat)
    requires b.Valid() && start <= b.arraysize == |c| && answer0 == Count(c[..start])
    requires forall j :: start <= j < |c| ==> c[j] == b.words[j]
    ensures answer == Count(c)
  {
    hide Count, PopCount;
    answer := answer0;
    var k := start;
    while k + 3 < b.arraysize
      invariant k <= b.arraysize && answer == Count(c[..k]) && k >= start
    {
      CountStep4(c, k);
      answer := answer + PopCount(b.words[k]);
      answer := answer + PopCount(b.words[k + 1]);
      answer := answer + PopCount(b.words[k + 2]);
      answer := answer + PopCount(b.words[k + 3]);
      k := k + 4;
    }
    while k < b.arraysize
      invariant k <= b.arraysize && answer == Count(c[..k]) && k >= start
    {
      CountStep(c, k);
      answer := answer + PopCount(b.words[k]);
      k := k + 1;
    }
    assert c[..k] == c;
  }

  method UnionCount(b1: BitSet, b2: BitSet) returns (answer: nat)
    requires b1.Valid() && b2.Valid()
    ensures answer == |Members(b1.Content()) + Members(b2.Content())|
  {
    hide Count, PopCount, Members, OrWord;
    ghost var c := Union(b1.Content(), b2.Content());
    UnionMembers(b1.Content(), b2.Content());
    CountMembers(c);
    OrZero();
    EmptyCount();
    var minlength := Smaller(b1.arraysize, b2.arraysize);
    var k := 0;
    answer := 0;
    assert c[..0] == [];
    while k + 3 < minlength
      invariant k <= minlength && answer == Count(c[..k])
    {
      CountStep4(c, k);
      answer := answer + PopCount(OrWord(b1.words[k], b2.words[k]));
      answer := answer + PopCount(OrWord(b1.words[k + 1], b2.words[k + 1]));
      answer := answer + PopCount(OrWord(b1.words[k + 2], b2.words[k + 2]));
      answer := answer + PopCount(OrWord(b1.words[k + 3], b2.words[k + 3]));
      k := k + 4;
    }
    while k < minlength
      invariant k <= minlength && answer == Count(c[..k])
    {
      CountStep(c, k);
      answer := answer + PopCount(OrWord(b1.words[k], b2.words[k]));
      k := k + 1;
    }
    if b2.arraysize > b1.arraysize {
      answer := CountRest(b2, k, answer, c);
    } else {
      answer := CountRest(b1, k, answer, c);
    }
  }

  method IntersectionCount(b1: BitSet, b2: BitSet) returns (answer: nat)
    requires b1.Valid() && b2.Valid()
    ensures answer == |Members(b1.Content()) * Members(b2.Content())|
  {
    hide Count, PopCount, Members, AndWord;
    ghost var c := Intersection(b1.Content(), b2.Content());
    IntersectionMembers(b1.Content(), b2.Content());
    CountMembers(c);
    AndZero();
    EmptyCount();
    var minlength := Smaller(b1.arraysize, b2.arraysize);
    answer := 0;
    assert c[..0] == [];
    for k := 0 to minlength
      invariant answer == Count(c[..k])
    {
      CountStep(c, k);
      answer := answer + PopCount(AndWord(b1.words[k], b2.words[k]));
    }
    CountZeros(c, minlength);
  }

  method DifferenceCount(b1: BitSet, b2: BitSet) returns (answer: nat)
    requires b1.Valid() && b2.Valid()
    ensures answer == |Members(b1.Content()) - Members(b2.Content())|
  {
    hide Count, PopCount, Members, AndWord, Complement;
    ghost var c := Difference(b1.Content(), b2.Content());
    DifferenceMembers(b1.Content(), b2.Content());
    CountMembers(c);
    AndAll();
    EmptyCount();
    var minlength := Smaller(b1.arraysize, b2.arraysize);
    answer := 0;
    assert c[..0] == [];
    for k := 0 to minlength
      invariant answer == Count(c[..k])
    {
      CountStep(c, k);
      answer := answer + PopCount(AndWord(b1.words[k], Complement(b2.words[k])));
    }
    answer := CountTail(b1, minlength, answer, c);
  }

  method SymmetricDifferenceCount(b1: BitSet, b2: BitSet) returns (answer: nat)
    requires b1.Valid() && b2.Valid()
    ensures answer == |InOne(Members(b1.Content()), Members(b2.Content()))|
  {
    hide Count, PopCount, Members, XorWord, InOne;
    ghost var c := SymmetricDifference(b1.Content(), b2.Content());
    SymmetricDifferenceMembers(b1.Content(), b2.Content());
    CountMembers(c);
    XorZero();
    EmptyCount();
    var minlength := Smaller(b1.arraysize, b2.arraysize);
    answer := 0;
    assert c[..0] == [];
    for k := 0 to minlength
      invariant answer == Count(c[..k])
    {
      CountStep(c, k);
      answer := answer + PopCount(XorWord(b1.words[k], b2.words[k]));
    }
    if b2.arraysize > b1.arraysize {
      answer := CountTail(b2, minlength, answer, c);
    } else {
      answer := CountTail(b1, minlength, answer, c);
    }
  }

  method CountTail(b: BitSet, start: nat, answer0: nat, ghost c: seq<Word>) returns (answer: nat)
    requires b.Valid() && start <= b.arraysize == |c| && answer0 == Count(c[..start])
    requires forall j :: start <= j < |c| ==> c[j] == b.words[j]
    ensures answer == Count(c)
  {
    hide Count, PopCount;
    answer := answer0;
    for k := start to b.arraysize
      invariant answer == Count(c[..k])
    {
      CountStep(c, k);
      answer := answer + PopCount(b.words[k]);
    }
    assert c[..b.arraysize] == c;
  }

  lemma XorZero()
    ensures forall w: Word :: XorWord(w, 0) == w && XorWord(0, w) == w
  {
  }

  // ---- Extremes

  method Minimum(b: BitSet) returns (m: nat)
    requires b.Valid()
    ensures Members(b.Content()) == {} ==> m == 0
    ensures Members(b.Content()) != {} ==> m in Members(b.Content()) && forall i :: i in Members(b.Content()) ==> m <= i
  {
    ghost var c := b.Content();
    for k := 0 to b.arraysize
      invariant forall j :: 0 <= j < k ==> c[j] == 0
    {
      var w := b.words[k];
      if w != 0 {
        m := Lowest(w) + k * 64;
        WordBit(w, Lowest(w));
        LowestMember(c, k);
        return;
      }
    }
    NoMembers(c);
    m := 0;
  }

  /** The lowest bit of the first word that is not zero is the least member. */
  lemma LowestMember(c: seq<Word>, k: nat)
    requires k < |c| && c[k] != 0 && forall j :: 0 <= j < k ==> c[j] == 0
    ensures Member(c, Lowest(c[k]) + k * 64)
    ensures forall i: nat :: Member(c, i) ==> Lowest(c[k]) + k * 64 <= i
  {
    var low := Lowest(c[k]);
    WordBit(c[k], low);
    assert (low + k * 64) / 64 == k && (low + k * 64) % 64 == low;
    hide Bit, Lowest;
    forall i: nat | Member(c, i)
      ensures low + k * 64 <= i
    {
      ZeroBits(i % 64);
    }
  }

  method Maximum(b: BitSet) returns (m: nat)
    requires b.Valid()
    ensures Members(b.Content()) == {} ==> m == 0
    ensures Members(b.Content()) != {} ==> m in Members(b.Content()) && forall i :: i in Members(b.Content()) ==> i <= m
  {
    hide Bit, Highest;
    ghost var c := b.Content();
    var k := b.arraysize;
    while k > 0
      invariant 0 <= k <= b.arraysize && forall j :: k <= j < b.arraysize ==> c[j] == 0
    {
      var w := b.words[k - 1];
      if w != 0 {
        m := Highest(w) + (k - 1) * 64;
        HighestMember(c, k - 1);
        return;
      }
      k := k - 1;
    }
    NoMembers(c);
    m := 0;
  }

  lemma HighestMember(c: seq<Word>, k: nat)
    requires k < |c| && c[k] != 0 && forall j :: k < j < |c| ==> c[j] == 0
    ensures Member(c, Highest(c[k]) + k * 64)
    ensures forall i: nat :: Member(c, i) ==> i <= Highest(c[k]) + k * 64
  {
    WordBit(c[k], Highest(c[k]));
    forall i: nat | Member(c, i)
      ensures i <= Highest(c[k]) + k * 64
    {
      ZeroBits(i % 64);
      if i / 64 == k && i % 64 > Highest(c[k]) {
        HighestIsTop(c[k], i % 64);
      }
    }
  }

  // ---- Iteration

  /** The least member from `start` on, if there is one; else `start` stays as it was. */
  method NextSetBit(b: BitSet, start: nat) returns (found: bool, i: nat)
    requires b.Valid()
    ensures found ==> start <= i && i in Members(b.Content()) && forall j: nat :: start <= j < i ==> j !in Members(b.Content())
    ensures !found ==> i == start && forall j: nat :: start <= j ==> j !in Members(b.Content())
  {
    ghost var c := b.Content();
    i := start;
    var x := i / 64;
    if x >= b.arraysize {
      NoneFrom(c, start, x);
      return false, i;
    }
    var w := Shr64(b.words[x], i % 64);
    if w != 0 {
      FoundInWord(c, start);
      i := i + Lowest(w);
      return true, i;
    }
    NoneInWord(c, start);
    x := x + 1;
    while x < b.arraysize
      invariant x <= b.arraysize && 64 * x > start && forall j: nat :: start <= j < 64 * x ==> !Member(c, j)
    {
      w := b.words[x];
      if w != 0 {
        FoundAtWord(c, start, x);
        i := x * 64 + Lowest(w);
        return true, i;
      }
      ZeroWord(c, start, x);
      x := x + 1;
    }
    NoneFrom(c, start, x);
    found := false;
  }

  lemma NoneFrom(c: seq<Word>, start: nat, x: nat)
    requires x >= |c| && start <= 64 * x + 63
    requires forall j: nat :: start <= j < 64 * x ==> !Member(c, j)
    ensures forall j: nat :: start <= j ==> !Member(c, j)
  {
    forall j: nat | start <= j
      ensures !Member(c, j)
    {
      ZeroBits(j % 64);
    }
  }

  lemma FoundInWord(c: seq<Word>, start: nat)
    requires start / 64 < |c| && Shr64(c[start / 64], start % 64) != 0
    ensures Member(c, start + Lowest(Shr64(c[start / 64], start % 64)))
    ensures forall j: nat :: start <= j < start + Lowest(Shr64(c[start / 64], start % 64)) ==> !Member(c, j)
  {
    hide Bit, Shr64;
    var x, s := start / 64, start % 64;
    var low := Lowest(Shr64(c[x], s));
    ShrBits(c[x], s, low);
    WordBit(c[x], low + s);
    assert (start + low) / 64 == x && (start + low) % 64 == low + s;
    forall j: nat | start <= j < start + low
      ensures !Member(c, j)
    {
      ShrBits(c[x], s, j - start);
      assert j / 64 == x && j % 64 == j - start + s;
    }
  }

  lemma NoneInWord(c: seq<Word>, start: nat)
    requires start / 64 < |c| && Shr64(c[start / 64], start % 64) == 0
    ensures forall j: nat :: start <= j < 64 * (start / 64 + 1) ==> !Member(c, j)
  {
    hide Bit, Shr64;
    var x, s := start / 64, start % 64;
    forall j: nat | start <= j < 64 * (x + 1)
      ensures !Member(c, j)
    {
      ShrBits(c[x], s, j - start);
      ZeroBits(j - start);
      assert j / 64 == x && j % 64 == j - start + s;
    }
  }

  lemma FoundAtWord(c: seq<Word>, start: nat, x: nat)
    requires x < |c| && c[x] != 0 && forall j: nat :: start <= j < 64 * x ==> !Member(c, j)
    ensures Member(c, x * 64 + Lowest(c[x]))
    ensures forall j: nat :: start <= j < x * 64 + Lowest(c[x]) ==> !Member(c, j)
  {
    var low := Lowest(c[x]);
    WordBit(c[x], low);
    assert (x * 64 + low) / 64 == x && (x * 64 + low) % 64 == low;
    forall j: nat | start <= j < x * 64 + low && 64 * x <= j
      ensures !Member(c, j)
    {
      assert j / 64 == x && j % 64 < low;
    }
  }

  lemma ZeroWord(c: seq<Word>, start: nat, x: nat)
    requires x < |c| && c[x] == 0 && forall j: nat :: start <= j < 64 * x ==> !Member(c, j)
    ensures forall j: nat :: start <= j < 64 * (x + 1) ==> !Member(c, j)
  {
    forall j: nat | start <= j < 64 * (x + 1) && 64 * x <= j
      ensures !Member(c, j)
    {
      ZeroBits(j % 64);
    }
  }

  ghost predicate Ascending(s: seq<nat>) {
    forall i, j :: 0 <= i < j < |s| ==> s[i] < s[j]
  }

  /** The loop `for (i = 0; nextSetBit(b, &i); i++)` lists the set in order, each member once. */
  method List(b: BitSet) returns (listed: seq<nat>)
    requires b.Valid()
    ensures Ascending(listed) && (set i | i in listed) == Members(b.Content())
  {
    ghost var m := Members(b.Content());
    listed := [];
    var found, i := NextSetBit(b, 0);
    while found
      invariant Ascending(listed) && forall j :: j in listed ==> j < i && j in m
      invariant forall j: nat :: j in m && j < i ==> j in listed
      invariant found ==> i in m
      invariant !found ==> forall j: nat :: j in m ==> j in listed
      decreases found, 64 * b.arraysize - i
    {
      EndOf(b.Content(), i);
      AscendingPush(listed, i);
      listed := listed + [i];
      found, i := NextSetBit(b, i + 1);
    }
  }

  lemma AscendingPush(s: seq<nat>, x: nat)
    requires Ascending(s) && forall y :: y in s ==> y < x
    ensures Ascending(s + [x])
  {
    forall i, j | 0 <= i < j < |s + [x]|
      ensures (s + [x])[i] < (s + [x])[j]
    {
      assert (s + [x])[i] == s[i] && s[i] in s;
    }
  }

  lemma EndOf(c: seq<Word>, i: nat)
    requires Member(c, i)
    ensures i < 64 * |c|
  {
    ZeroBits(i % 64);
  }

  // ---- Iteration with a callback

  lemma {:induction false} AndComplement(v: nat, n: nat)
    requires v < Pow2(n)
    ensures And(v, Pow2(n) - 1 - v) == 0
  {
    if v == 0 {
    } else {
      var p := Pow2(n - 1);
      assert Pow2(n) == 2 * p;
      assert (2 * p - 1 - v) / 2 == p - 1 - v / 2;
      AndComplement(v / 2, n - 1);
    }
  }

  /** `w & (~w + 1)` is the lowest one-bit of `w` by itself. */
  lemma {:induction false} AndNegated(w: nat, n: nat)
    requires 0 < w < Pow2(n)
    ensures And(w, Pow2(n) - w) == Pow2(Lowest(w))
  {
    var p := Pow2(n - 1);
    assert Pow2(n) == 2 * p;
    if w % 2 == 0 {
      assert (2 * p - w) / 2 == p - w / 2;
      AndNegated(w / 2, n - 1);
    } else {
      assert (2 * p - w) / 2 == p - 1 - w / 2;
      AndComplement(w / 2, n - 1);
      assert Lowest(w) == 0;
    }
  }

  /** The word without its lowest one-bit. */
  function DropLowest(w: Word): Word
    requires w > 0
  {
    XorWord(w, AndWord(w, (Complement(w) + 1) % WORD))
  }

  lemma DropLowestBits(w: Word, j: nat)
    requires w > 0
    ensures Bit(DropLowest(w), j) == (Bit(w, j) && j != Lowest(w))
  {
    hide Bit, And, Xor, Lowest;
    Pow2Words();
    AndNegated(w, 64);
    var l := Lowest(w);
    assert AndWord(w, (Complement(w) + 1) % WORD) == Pow2(l);
    XorBits(w, Pow2(l), j);
    TimesBits(1, l, j);
    assert 1 * Pow2(l) == Pow2(l);
    OneBit(j - l);
  }

  lemma OneBit(i: int)
    ensures i >= 0 ==> Bit(1, i) == (i == 0)
  {
    if i > 0 {
      ZeroBits(i - 1);
    }
  }

  /** Visited are the members of the words before `k` and those of word `k` no longer in `w`. */
  ghost predicate Visited(c: seq<Word>, k: nat, w: Word, visited: seq<nat>)
    requires k < |c|
  {
    && Ascending(visited)
    && (forall j: nat :: j in visited <==> Member(c, j) && (j / 64 < k || (j / 64 == k && !Bit(w, j % 64))))
    && (forall r: nat :: Bit(w, r) ==> Bit(c[k], r))
    && (forall j: nat, r: nat :: j in visited && Bit(w, r) ==> j < 64 * k + r)
  }

  lemma VisitNext(c: seq<Word>, k: nat, w: Word, visited: seq<nat>)
    requires k < |c| && w != 0 && Visited(c, k, w, visited)
    ensures Visited(c, k, DropLowest(w), visited + [64 * k + Lowest(w)])
    ensures Member(c, 64 * k + Lowest(w))
    ensures DropLowest(w) != 0 ==> Lowest(w) < Lowest(DropLowest(w)) < 64
  {
    hide Bit, DropLowest, Lowest;
    var l, w' := Lowest(w), DropLowest(w);
    var i := 64 * k + l;
    WordBit(w, l);
    assert i / 64 == k && i % 64 == l;
    forall r: nat
      ensures Bit(w', r) == (Bit(w, r) && r != l) && (Bit(w', r) ==> l < r)
    {
      DropLowestBits(w, r);
    }
    AscendingPush(visited, i);
    if w' != 0 {
      WordBit(w', Lowest(w'));
    }
    var visited' := visited + [i];
    forall j: nat
      ensures j in visited' <==> Member(c, j) && (j / 64 < k || (j / 64 == k && !Bit(w', j % 64)))
    {
      assert j in visited' <==> j in visited || j == i;
    }
  }

  ghost predicate VisitedBefore(c: seq<Word>, k: nat, visited: seq<nat>) {
    Ascending(visited) && forall j: nat :: j in visited <==> Member(c, j) && j / 64 < k
  }

  lemma VisitWord(c: seq<Word>, k: nat, visited: seq<nat>)
    requires k < |c| && VisitedBefore(c, k, visited)
    ensures Visited(c, k, c[k], visited)
  {
  }

  lemma WordDone(c: seq<Word>, k: nat, visited: seq<nat>)
    requires k < |c| && Visited(c, k, 0, visited)
    ensures VisitedBefore(c, k + 1, visited)
  {
    forall j: nat
      ensures j in visited <==> Member(c, j) && j / 64 < k + 1
    {
      ZeroBits(j % 64);
    }
  }

  lemma AllVisited(c: seq<Word>, visited: seq<nat>)
    requires VisitedBefore(c, |c|, visited)
    ensures Ascending(visited) && forall i: nat :: i in visited <==> i in Members(c)
  {
    forall j: nat | Member(c, j)
      ensures j / 64 < |c|
    {
      ZeroBits(j % 64);
    }
  }

  /**
    Every member is handed to the callback in ascending order until it refuses one;
    the result tells whether it never did.
   */
  method ForEach(b: BitSet, refuses: nat -> bool) returns (visited: seq<nat>, uninterrupted: bool)
    requires b.Valid()
    ensures Ascending(visited)
    ensures uninterrupted <==> forall i :: i in Members(b.Content()) ==> !refuses(i)
    ensures uninterrupted ==> forall i: nat :: i in visited <==> i in Members(b.Content())
    ensures !uninterrupted ==> RefusedLast(Members(b.Content()), refuses, visited)
  {
    ghost var c := b.Content();
    visited := [];
    assert VisitedBefore(c, 0, visited) && Accepted(refuses, visited);
    hide VisitedBefore, Members, Member, Ascending, Accepted, RefusedLast;
    var base := 0;
    uninterrupted := true;
    for k := 0 to b.arraysize
      invariant base == 64 * k && VisitedBefore(c, k, visited) && Accepted(refuses, visited)
    {
      visited, uninterrupted := VisitBits(b.words[k], base, refuses, visited, c, k);
      if !uninterrupted {
        SomeRefused(Members(c), refuses, visited);
        return;
      }
      base := base + 64;
    }
    AllVisited(c, visited);
    AllAccepted(c, visited, refuses);
    uninterrupted := true;
  }

  /** The bits of one word, lowest first. */
  method VisitBits(word: Word, base: nat, refuses: nat -> bool, visited0: seq<nat>, ghost c: seq<Word>, ghost k: nat)
    returns (visited: seq<nat>, uninterrupted: bool)
    requires k < |c| && word == c[k] && base == 64 * k && VisitedBefore(c, k, visited0) && Accepted(refuses, visited0)
    ensures uninterrupted ==> VisitedBefore(c, k + 1, visited) && Accepted(refuses, visited)
    ensures !uninterrupted ==> Ascending(visited) && RefusedLast(Members(c), refuses, visited)
  {
    hide Visited, VisitedBefore, Bit, Lowest, DropLowest, RefusedLast, Ascending, Member, Members;
    visited := visited0;
    var w := word;
    VisitWord(c, k, visited);
    while w != 0
      invariant Visited(c, k, w, visited) && Accepted(refuses, visited)
      decreases if w == 0 then 0 else 1, if w == 0 then 0 else 64 - Lowest(w)
    {
      VisitNext(c, k, w, visited);
      var r := Lowest(w);
      if refuses(r + base) {
        StopHere(c, k, w, visited, refuses);
        return visited + [r + base], false;
      }
      visited := visited + [r + base];
      w := DropLowest(w);
    }
    WordDone(c, k, visited);
    uninterrupted := true;
  }

  ghost predicate Accepted(refuses: nat -> bool, visited: seq<nat>) {
    forall j :: j in visited ==> !refuses(j)
  }

  lemma AllAccepted(c: seq<Word>, visited: seq<nat>, refuses: nat -> bool)
    requires VisitedBefore(c, |c|, visited) && Accepted(refuses, visited)
    ensures forall i :: i in Members(c) ==> !refuses(i)
  {
    AllVisited(c, visited);
  }

  lemma SomeRefused(m: set<nat>, refuses: nat -> bool, visited: seq<nat>)
    requires RefusedLast(m, refuses, visited)
    ensures exists i :: i in m && refuses(i)
  {
    assert visited[|visited| - 1] in visited;
  }

  ghost predicate RefusedLast(m: set<nat>, refuses: nat -> bool, visited: seq<nat>) {
    && visited != []
    && refuses(visited[|visited| - 1])
    && (forall k :: 0 <= k < |visited| - 1 ==> !refuses(visited[k]))
    && (forall i: nat :: i in visited <==> i in m && i <= visited[|visited| - 1])
  }

  lemma StopHere(c: seq<Word>, k: nat, w: Word, visited: seq<nat>, refuses: nat -> bool)
    requires k < |c| && w != 0 && Visited(c, k, w, visited)
    requires refuses(64 * k + Lowest(w)) && Accepted(refuses, visited)
    ensures RefusedLast(Members(c), refuses, visited + [64 * k + Lowest(w)])
    ensures Ascending(visited + [64 * k + Lowest(w)])
  {
    VisitNext(c, k, w, visited);
    hide Bit, Lowest;
    var l := Lowest(w);
    var i := 64 * k + l;
    var visited' := visited + [i];
    WordBit(w, l);
    assert i / 64 == k && i % 64 == l;
    forall j: nat
      ensures j in visited' <==> j in Members(c) && j <= i
    {
      assert j in visited' <==> j in visited || j == i;
    }
    assert forall k :: 0 <= k < |visited| ==> visited'[k] == visited[k] && visited[k] in visited;
  }
}
