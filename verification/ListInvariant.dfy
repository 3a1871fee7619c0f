/**
  A list of buckets, oldest first: what a reader sees of it, the invariant
  that makes annihilation safe, and what one merge inside the list does to both.
 */
module ListInvariant {
  import opened Options
  import opened Entries
  import opened Merge
  import opened MergeTheorems

  type Buckets = seq<seq<Entry>>

  ghost predicate AllSorted(list: Buckets) {
    forall i :: 0 <= i < |list| ==> Sorted(list[i])
  }

  /** The newest entry of a key. */
  function Newest(list: Buckets, k: Key): Option<Entry> {
    if list == [] then None
    else
      var e := Find(list[|list| - 1], k);
      if e.Some? then e else Newest(list[..|list| - 1], k)
  }

  function ApplyAll(db: Store, list: Buckets): Store {
    if list == [] then db else Apply(ApplyAll(db, list[..|list| - 1]), list[|list| - 1])
  }

  lemma {:induction false} NewestConcat(a: Buckets, b: Buckets, k: Key)
    ensures Newest(a + b, k) == if Newest(b, k).Some? then Newest(b, k) else Newest(a, k)
  {
    if b == [] {
      assert a + b == a;
    } else {
      assert (a + b)[..|a + b| - 1] == a + b[..|b| - 1];
      NewestConcat(a, b[..|b| - 1], k);
    }
  }

  /** A reader that applies the whole list sees the newest entry of every key. */
  lemma {:induction false} ReaderSeesNewest(list: Buckets, k: Key)
    requires AllSorted(list)
    ensures Get(ApplyAll(map[], list), k) == Effect(None, Newest(list, k))
  {
    if list == [] {
    } else {
      var front := list[..|list| - 1];
      ReaderSeesNewest(front, k);
      ApplyAt(ApplyAll(map[], front), list[|list| - 1], k);
    }
  }

  /** Absent or tombstoned. */
  predicate Gone(e: Option<Entry>) {
    e.Some? ==> e.value.Dead?
  }

  predicate IsInit(e: Option<Entry>) {
    e.Some? && e.value.Init?
  }

  /** Every INIT of key `k` has a DEAD, or nothing, as its next-older entry. */
  ghost predicate InitOkAt(list: Buckets, k: Key) {
    list != [] ==>
      && InitOkAt(list[..|list| - 1], k)
      && (IsInit(Find(list[|list| - 1], k)) ==> Gone(Newest(list[..|list| - 1], k)))
  }

  ghost predicate InitInvariant(list: Buckets) {
    forall k :: InitOkAt(list, k)
  }

  lemma {:induction false} InitOkPrefix(a: Buckets, b: Buckets, k: Key)
    requires InitOkAt(a + b, k)
    ensures InitOkAt(a, k)
  {
    if b == [] {
      assert a + b == a;
    } else {
      assert (a + b)[..|a + b| - 1] == a + b[..|b| - 1];
      InitOkPrefix(a, b[..|b| - 1], k);
    }
  }

  /** The older part of a list may be replaced by one that keeps a gone key gone. */
  lemma {:induction false} InitOkReplace(a: Buckets, a': Buckets, b: Buckets, k: Key)
    requires InitOkAt(a + b, k) && InitOkAt(a', k)
    requires Gone(Newest(a, k)) ==> Gone(Newest(a', k))
    ensures InitOkAt(a' + b, k)
  {
    if b == [] {
      assert a' + b == a';
    } else {
      var front := b[..|b| - 1];
      assert (a + b)[..|a + b| - 1] == a + front && (a' + b)[..|a' + b| - 1] == a' + front;
      InitOkReplace(a, a', front, k);
      NewestConcat(a, front, k);
      NewestConcat(a', front, k);
    }
  }

  // ---- One merge inside a list

  /** The list with buckets `i` and `i + 1` replaced by `z`. */
  function Replaced(list: Buckets, i: nat, z: seq<Entry>): Buckets
    requires i + 1 < |list|
  {
    list[..i] + [z] + list[i + 2..]
  }

  /** Every shadow is a bucket newer than the two being merged. */
  ghost predicate NewerShadows(list: Buckets, i: nat, shadows: seq<seq<Entry>>) {
    forall s :: s in shadows ==> exists j :: i + 2 <= j < |list| && list[j] == s
  }

  lemma ShadowedIsNewer(list: Buckets, i: nat, shadows: seq<seq<Entry>>, k: Key)
    requires i + 2 <= |list| && NewerShadows(list, i, shadows) && Shadowed(shadows, k)
    ensures Newest(list[i + 2..], k).Some?
  {
    var m :| 0 <= m < |shadows| && HasKey(shadows[m], k);
    assert shadows[m] in shadows;
    var j :| i + 2 <= j < |list| && list[j] == shadows[m];
    NewestSome(list[i + 2..], j - i - 2, k);
  }

  lemma {:induction false} NewestSome(list: Buckets, j: nat, k: Key)
    requires j < |list| && HasKey(list[j], k)
    ensures Newest(list, k).Some?
  {
    if j < |list| - 1 {
      NewestSome(list[..|list| - 1], j, k);
    }
  }

  /** Appending one or two buckets, as the merge's inputs and output are. */
  lemma NewestPush(a: Buckets, s: seq<Entry>, k: Key)
    ensures Newest(a + [s], k) == if Find(s, k).Some? then Find(s, k) else Newest(a, k)
    ensures InitOkAt(a + [s], k) <==> InitOkAt(a, k) && (IsInit(Find(s, k)) ==> Gone(Newest(a, k)))
  {
    assert (a + [s])[..|a + [s]| - 1] == a;
  }

  /** Under the invariant an equal-key pair is never malformed. */
  lemma NeverMalformed(list: Buckets, i: nat, r: Rules, shadows: seq<seq<Entry>>)
    requires AllSorted(list) && InitInvariant(list) && i + 1 < |list|
    requires r.version >= FIRST_PROTOCOL_SUPPORTING_INITENTRY_AND_METAENTRY
    ensures MergeEntries(r, shadows, list[i], list[i + 1]).Success?
  {
    forall k ensures !Bad(r.version, Find(list[i], k), Find(list[i + 1], k)) {
      var a := list[..i];
      assert list == (a + [list[i]] + [list[i + 1]]) + list[i + 2..];
      assert InitOkAt(list, k);
      InitOkPrefix(a + [list[i]] + [list[i + 1]], list[i + 2..], k);
      NewestPush(a + [list[i]], list[i + 1], k);
      NewestPush(a, list[i], k);
    }
    MergeFails(r, shadows, list[i], list[i + 1]);
  }

  /** The reader's view survives a merge of neighbours, with either shadowing rule. */
  lemma MergeKeepsView(list: Buckets, i: nat, r: Rules, shadows: seq<seq<Entry>>)
    requires AllSorted(list) && InitInvariant(list) && i + 1 < |list|
    requires NewerShadows(list, i, shadows) && (r.keepDead || i == 0)
    requires MergeEntries(r, shadows, list[i], list[i + 1]).Success?
    ensures AllSorted(Replaced(list, i, MergeEntries(r, shadows, list[i], list[i + 1]).value))
    ensures ApplyAll(map[], Replaced(list, i, MergeEntries(r, shadows, list[i], list[i + 1]).value))
         == ApplyAll(map[], list)
  {
    var z := MergeEntries(r, shadows, list[i], list[i + 1]).value;
    var list' := Replaced(list, i, z);
    MergeSorted(r, shadows, list[i], list[i + 1]);
    forall k ensures Get(ApplyAll(map[], list'), k) == Get(ApplyAll(map[], list), k) {
      ReaderSeesNewest(list, k);
      ReaderSeesNewest(list', k);
      ViewAt(list, i, r, shadows, z, k);
    }
    StoreExtensionality(ApplyAll(map[], list'), ApplyAll(map[], list));
  }

  lemma ViewAt(list: Buckets, i: nat, r: Rules, shadows: seq<seq<Entry>>, z: seq<Entry>, k: Key)
    requires AllSorted(list) && InitInvariant(list) && i + 1 < |list|
    requires NewerShadows(list, i, shadows) && (r.keepDead || i == 0)
    requires MergeEntries(r, shadows, list[i], list[i + 1]) == Success(z)
    ensures Effect(None, Newest(Replaced(list, i, z), k)) == Effect(None, Newest(list, k))
  {
    var a, o, n, b := list[..i], list[i], list[i + 1], list[i + 2..];
    assert list == (a + [o] + [n]) + b;
    assert InitOkAt(list, k);
    if Shadowed(shadows, k) {
      ShadowedIsNewer(list, i, shadows, k);
    }
    MergeAt(r, shadows, o, n, k);
    SameView(a, o, n, z, b, r, shadows, k);
  }

  lemma SameView(a: Buckets, o: seq<Entry>, n: seq<Entry>, z: seq<Entry>, b: Buckets, r: Rules, shadows: seq<seq<Entry>>,
                 k: Key)
    requires InitOkAt((a + [o] + [n]) + b, k) && (r.keepDead || a == [])
    requires Shadowed(shadows, k) ==> Newest(b, k).Some?
    requires Find(z, k) == Survivor(r, shadows, Combined(Find(o, k), Find(n, k)))
    ensures Effect(None, Newest(a + [z] + b, k)) == Effect(None, Newest((a + [o] + [n]) + b, k))
  {
    hide Newest, InitOkAt, Find;
    NewestConcat(a + [o] + [n], b, k);
    NewestConcat(a + [z], b, k);
    InitOkPrefix(a + [o] + [n], b, k);
    NewestPush(a + [o], n, k);
    NewestPush(a, o, k);
    NewestPush(a, z, k);
    NewestNone(k);
  }

  lemma NewestNone(k: Key)
    ensures Newest([], k) == None
  {
  }

  /** The invariant survives too, when shadowed tombstones and creations are kept. */
  lemma MergeKeepsInvariant(list: Buckets, i: nat, r: Rules, shadows: seq<seq<Entry>>)
    requires AllSorted(list) && InitInvariant(list) && i + 1 < |list|
    requires NewerShadows(list, i, shadows) && (r.keepDead || i == 0) && r.keepLifecycle
    requires MergeEntries(r, shadows, list[i], list[i + 1]).Success?
    ensures InitInvariant(Replaced(list, i, MergeEntries(r, shadows, list[i], list[i + 1]).value))
  {
    var a, o, n, b := list[..i], list[i], list[i + 1], list[i + 2..];
    var z := MergeEntries(r, shadows, o, n).value;
    assert list == (a + [o] + [n]) + b;
    MergeSorted(r, shadows, o, n);
    forall k ensures InitOkAt(Replaced(list, i, z), k) {
      assert InitOkAt(list, k);
      MergeAt(r, shadows, o, n, k);
      InvariantAt(a, o, n, z, b, r, shadows, k);
    }
  }

  lemma InvariantAt(a: Buckets, o: seq<Entry>, n: seq<Entry>, z: seq<Entry>, b: Buckets, r: Rules,
                    shadows: seq<seq<Entry>>, k: Key)
    requires InitOkAt((a + [o] + [n]) + b, k) && r.keepLifecycle && (r.keepDead || a == [])
    requires Find(z, k) == Survivor(r, shadows, Combined(Find(o, k), Find(n, k)))
    ensures InitOkAt(a + [z] + b, k)
  {
    InitOkPrefix(a + [o] + [n], b, k);
    NewestPush(a + [o], n, k);
    NewestPush(a, o, k);
    NewestPush(a, z, k);
    hide Newest, InitOkAt, Find;
    InitOkReplace(a + [o] + [n], a + [z], b, k);
  }

  /** Why the rule is needed: dropping a shadowed tombstone leaves an INIT above a live entry. */
  lemma ShadowedTombstoneIsNeeded(k: Key, v: Value, w: Value)
    ensures var list := [[Live(k, v)], [], [Dead(k)], [Init(k, w)]];
            var r := Rules(11, false, true);
            && InitInvariant(list)
            && MergeEntries(r, [list[3]], list[1], list[2]) == Success([])
            && !InitInvariant(Replaced(list, 1, []))
  {
    var a: seq<Entry>, c: seq<Entry>, d: seq<Entry> := [Live(k, v)], [Dead(k)], [Init(k, w)];
    var none: seq<Entry> := [];
    var list := [a, none, c, d];
    forall h ensures InitOkAt(list, h) {
      NewestPush([], a, h);
      NewestPush([] + [a], none, h);
      NewestPush([] + [a] + [none], c, h);
      NewestPush([] + [a] + [none] + [c], d, h);
      assert list == [] + [a] + [none] + [c] + [d];
    }
    var r := Rules(11, false, true);
    assert HasKey([d][0], k);
    assert Emit(r, [d], c[0]) == [];
    assert MergeEntries(r, [d], none, c[1..]) == Success([]);
    assert MergeEntries(r, [d], none, c) == Prepend([], Success([]));
    assert none + none == none;
    var after := Replaced(list, 1, none);
    assert after == [] + [a] + [none] + [d];
    NewestPush([], a, k);
    NewestPush([] + [a], none, k);
    NewestPush([] + [a] + [none], d, k);
    assert !InitOkAt(after, k);
  }
}
