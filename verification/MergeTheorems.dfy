/**
  What a merge means: key by key, to a reader, and to a list of buckets.
 */
module MergeTheorems {
  import opened Options
  import opened Entries
  import opened Merge

  // ---- Key by key

  /** The lifecycle table: what the entries of one key in an older and a newer bucket become. */
  function Combined(o: Option<Entry>, n: Option<Entry>): Option<Entry> {
    match (o, n)
    case (None, _) => n
    case (_, None) => o
    case (Some(Dead(_)), Some(Init(k, v))) => Some(Live(k, v))
    case (Some(Init(_, _)), Some(Live(k, v))) => Some(Init(k, v))
    case (Some(Init(_, _)), Some(Dead(_))) => None
    case (_, Some(e)) => Some(e)
  }

  function Survivor(r: Rules, shadows: seq<seq<Entry>>, e: Option<Entry>): Option<Entry> {
    if e.Some? && Kept(r, shadows, e.value) then e else None
  }

  /** A key at which the merge throws. */
  predicate Bad(version: nat, o: Option<Entry>, n: Option<Entry>) {
    || (o.Some? && !Legal(version, o.value))
    || (n.Some? && !Legal(version, n.value))
    || (o.Some? && n.Some? && n.value.Init? && !o.value.Dead?)
  }

  predicate AtKey(e: Option<Entry>, k: Key) {
    e.Some? ==> e.value.key == k
  }

  lemma FindPrepend(s: seq<Entry>, t: seq<Entry>, k: Key)
    requires |s| <= 1
    ensures Find(s + t, k) == if s != [] && s[0].key == k then Some(s[0]) else Find(t, k)
  {
    if s == [] {
      assert s + t == t;
    } else {
      assert (s + t)[1..] == t;
    }
  }

  lemma {:induction false} MergeSorted(r: Rules, shadows: seq<seq<Entry>>, o: seq<Entry>, n: seq<Entry>)
    requires Sorted(o) && Sorted(n) && MergeEntries(r, shadows, o, n).Success?
    ensures Sorted(MergeEntries(r, shadows, o, n).value)
    ensures forall k :: Above(o, k) && Above(n, k) ==> Above(MergeEntries(r, shadows, o, n).value, k)
    decreases |o| + |n|
  {
    if o == [] && n == [] {
    } else if n == [] || (o != [] && o[0].key < n[0].key) {
      MergeSorted(r, shadows, o[1..], n);
      assert Above(o[1..], o[0].key) && Above(n, o[0].key);
      EmitSorted(r, shadows, Some(o[0]), o[0].key, MergeEntries(r, shadows, o[1..], n).value);
    } else if o == [] || n[0].key < o[0].key {
      MergeSorted(r, shadows, o, n[1..]);
      assert Above(o, n[0].key) && Above(n[1..], n[0].key);
      EmitSorted(r, shadows, Some(n[0]), n[0].key, MergeEntries(r, shadows, o, n[1..]).value);
    } else {
      MergeSorted(r, shadows, o[1..], n[1..]);
      assert Above(o[1..], n[0].key) && Above(n[1..], n[0].key);
      EmitSorted(r, shadows, CombineEqual(o[0], n[0]).value, n[0].key, MergeEntries(r, shadows, o[1..], n[1..]).value);
    }
  }

  lemma EmitSorted(r: Rules, shadows: seq<seq<Entry>>, c: Option<Entry>, head: Key, rest: seq<Entry>)
    requires AtKey(c, head) && Sorted(rest) && Above(rest, head)
    ensures Sorted(EmitOption(r, shadows, c) + rest)
    ensures forall k :: k < head && Above(rest, k) ==> Above(EmitOption(r, shadows, c) + rest, k)
  {
  }

  /** The single pass meets each key exactly once and treats it by the table. */
  lemma {:induction false} MergeAt(r: Rules, shadows: seq<seq<Entry>>, o: seq<Entry>, n: seq<Entry>, k: Key)
    requires Sorted(o) && Sorted(n) && MergeEntries(r, shadows, o, n).Success?
    ensures !Bad(r.version, Find(o, k), Find(n, k))
    ensures Find(MergeEntries(r, shadows, o, n).value, k) == Survivor(r, shadows, Combined(Find(o, k), Find(n, k)))
    decreases |o| + |n|
  {
    if o == [] && n == [] {
    } else if n == [] || (o != [] && o[0].key < n[0].key) {
      MergeAt(r, shadows, o[1..], n, k);
      FindAbove(o[1..], o[0].key);
      FindAbove(n, o[0].key);
      StepAt(r, shadows, o[0].key, Some(o[0]), MergeEntries(r, shadows, o[1..], n).value, k,
             Find(o, k), Find(n, k), Find(o[1..], k), Find(n, k));
    } else if o == [] || n[0].key < o[0].key {
      MergeAt(r, shadows, o, n[1..], k);
      FindAbove(o, n[0].key);
      FindAbove(n[1..], n[0].key);
      StepAt(r, shadows, n[0].key, Some(n[0]), MergeEntries(r, shadows, o, n[1..]).value, k,
             Find(o, k), Find(n, k), Find(o, k), Find(n[1..], k));
    } else {
      MergeAt(r, shadows, o[1..], n[1..], k);
      FindAbove(o[1..], n[0].key);
      FindAbove(n[1..], n[0].key);
      StepAt(r, shadows, n[0].key, CombineEqual(o[0], n[0]).value, MergeEntries(r, shadows, o[1..], n[1..]).value, k,
             Find(o, k), Find(n, k), Find(o[1..], k), Find(n[1..], k));
    }
  }

  /** One step writes what the table says of the smallest key; the rest of the pass settles the others. */
  lemma StepAt(r: Rules, shadows: seq<seq<Entry>>, head: Key, c: Option<Entry>, rest: seq<Entry>, k: Key,
               o: Option<Entry>, n: Option<Entry>, o': Option<Entry>, n': Option<Entry>)
    requires AtKey(c, head)
    requires k == head ==> c == Combined(o, n) && o'.None? && n'.None?
    requires k != head ==> o == o' && n == n'
    requires Find(rest, k) == Survivor(r, shadows, Combined(o', n'))
    ensures Find(EmitOption(r, shadows, c) + rest, k) == Survivor(r, shadows, Combined(o, n))
  {
    FindPrepend(EmitOption(r, shadows, c), rest, k);
  }

  /** A merge throws exactly when some key is bad, whichever entry it meets first. */
  lemma {:induction false} MergeFails(r: Rules, shadows: seq<seq<Entry>>, o: seq<Entry>, n: seq<Entry>)
    requires Sorted(o) && Sorted(n)
    ensures MergeEntries(r, shadows, o, n).Failure? <==> exists k :: Bad(r.version, Find(o, k), Find(n, k))
    decreases |o| + |n|
  {
    if MergeEntries(r, shadows, o, n).Success? {
      forall k ensures !Bad(r.version, Find(o, k), Find(n, k)) {
        MergeAt(r, shadows, o, n, k);
      }
    } else {
      var k := FirstBad(r, shadows, o, n);
      assert Bad(r.version, Find(o, k), Find(n, k));
    }
  }

  lemma {:induction false} FirstBad(r: Rules, shadows: seq<seq<Entry>>, o: seq<Entry>, n: seq<Entry>) returns (k: Key)
    requires Sorted(o) && Sorted(n) && MergeEntries(r, shadows, o, n).Failure?
    ensures Bad(r.version, Find(o, k), Find(n, k))
    ensures HasKey(o, k) || HasKey(n, k)
    decreases |o| + |n|
  {
    if n == [] || (o != [] && o[0].key < n[0].key) {
      if !Legal(r.version, o[0]) {
        return o[0].key;
      }
      k := FirstBad(r, shadows, o[1..], n);
      FindAbove(o[1..], o[0].key);
      FindAbove(n, o[0].key);
    } else if o == [] || n[0].key < o[0].key {
      if !Legal(r.version, n[0]) {
        return n[0].key;
      }
      k := FirstBad(r, shadows, o, n[1..]);
      FindAbove(o, n[0].key);
      FindAbove(n[1..], n[0].key);
    } else {
      if !Legal(r.version, o[0]) || !Legal(r.version, n[0]) || CombineEqual(o[0], n[0]).Failure? {
        return n[0].key;
      }
      k := FirstBad(r, shadows, o[1..], n[1..]);
      FindAbove(o[1..], n[0].key);
      FindAbove(n[1..], n[0].key);
    }
  }

  // ---- The reader's view of one merge

  /** The newest entry of the key is a tombstone and the merge writes nothing for it. */
  predicate Forgotten(keepDead: bool, o: Option<Entry>, n: Option<Entry>) {
    || (n.Some? && n.value.Dead? && (!keepDead || (o.Some? && o.value.Init?)))
    || (n.None? && o.Some? && o.value.Dead? && !keepDead)
  }

  /**
    Applying the merged bucket is applying the old bucket and then the new one,
    exactly when the older state has none of the keys the merge forgets.
   */
  lemma MergeReader(r: Rules, o: seq<Entry>, n: seq<Entry>, db: Store)
    requires Sorted(o) && Sorted(n) && MergeEntries(r, [], o, n).Success?
    ensures Apply(db, MergeEntries(r, [], o, n).value) == Apply(Apply(db, o), n)
       <==> forall k :: Forgotten(r.keepDead, Find(o, k), Find(n, k)) ==> k !in db
  {
    var z := MergeEntries(r, [], o, n).value;
    MergeSorted(r, [], o, n);
    forall k
      ensures Get(Apply(db, z), k) == Get(Apply(Apply(db, o), n), k)
         <==> (Forgotten(r.keepDead, Find(o, k), Find(n, k)) ==> k !in db)
    {
      MergeAt(r, [], o, n, k);
      ApplyAt(db, z, k);
      ApplyAt(db, o, k);
      ApplyAt(Apply(db, o), n, k);
    }
    if forall k :: Forgotten(r.keepDead, Find(o, k), Find(n, k)) ==> k !in db {
      StoreExtensionality(Apply(db, z), Apply(Apply(db, o), n));
    }
  }

  // ---- Merge order

  /** The one pattern on which the order of merging shows in the result. */
  predicate OrderShows(x: Option<Entry>, y: Option<Entry>, z: Option<Entry>) {
    && x.Some? && x.value.Init?
    && y.Some? && y.value.Dead?
    && z.Some? && !z.value.Init?
  }

  ghost predicate OrderMatters(x: seq<Entry>, y: seq<Entry>, z: seq<Entry>) {
    exists k :: OrderShows(Find(x, k), Find(y, k), Find(z, k))
  }

  lemma CombinedOrder(v: nat, x: Option<Entry>, y: Option<Entry>, z: Option<Entry>, k: Key)
    requires AtKey(x, k) && AtKey(y, k) && AtKey(z, k)
    requires !Bad(v, x, y) && !Bad(v, Combined(x, y), z)
    requires !Bad(v, y, z) && !Bad(v, x, Combined(y, z))
    ensures Combined(Combined(x, y), z) == Combined(x, Combined(y, z)) <==> !OrderShows(x, y, z)
  {
  }

  /** `z` is the table's answer at every key. */
  ghost predicate Table(v: nat, o: seq<Entry>, n: seq<Entry>, z: seq<Entry>) {
    && Sorted(z)
    && forall k :: !Bad(v, Find(o, k), Find(n, k)) && Find(z, k) == Combined(Find(o, k), Find(n, k))
  }

  /** With tombstones kept and no shadows, a merge is the table at every key. */
  lemma MergeIsTable(r: Rules, o: seq<Entry>, n: seq<Entry>)
    requires Sorted(o) && Sorted(n) && MergeEntries(r, [], o, n).Success? && r.keepDead
    ensures Table(r.version, o, n, MergeEntries(r, [], o, n).value)
  {
    MergeSorted(r, [], o, n);
    var z := MergeEntries(r, [], o, n).value;
    forall k ensures !Bad(r.version, Find(o, k), Find(n, k)) && Find(z, k) == Combined(Find(o, k), Find(n, k)) {
      MergeAt(r, [], o, n, k);
    }
  }

  /** Three buckets merge to the same entries in either order, exactly when the pattern does not occur. */
  lemma TableOrder(v: nat, x: seq<Entry>, y: seq<Entry>, z: seq<Entry>,
                   xy: seq<Entry>, yz: seq<Entry>, left: seq<Entry>, right: seq<Entry>)
    requires Table(v, x, y, xy) && Table(v, xy, z, left)
    requires Table(v, y, z, yz) && Table(v, x, yz, right)
    ensures left == right <==> !OrderMatters(x, y, z)
  {
    forall k
      ensures Find(left, k) == Find(right, k) <==> !OrderShows(Find(x, k), Find(y, k), Find(z, k))
    {
      assert Find(xy, k) == Combined(Find(x, k), Find(y, k)) && Find(yz, k) == Combined(Find(y, k), Find(z, k));
      assert Find(left, k) == Combined(Find(xy, k), Find(z, k)) && Find(right, k) == Combined(Find(x, k), Find(yz, k));
      CombinedOrder(v, Find(x, k), Find(y, k), Find(z, k), k);
    }
    if OrderMatters(x, y, z) {
      var k :| OrderShows(Find(x, k), Find(y, k), Find(z, k));
      assert Find(left, k) != Find(right, k);
    } else {
      SortedExtensionality(left, right);
    }
  }

  ghost predicate Merges(r: Rules, o: seq<Entry>, n: seq<Entry>, result: seq<Entry>) {
    MergeEntries(r, [], o, n) == Success(result)
  }

  lemma MergeOrder(r: Rules, x: seq<Entry>, y: seq<Entry>, z: seq<Entry>,
                   xy: seq<Entry>, yz: seq<Entry>, left: seq<Entry>, right: seq<Entry>)
    requires Sorted(x) && Sorted(y) && Sorted(z) && r.keepDead
    requires Merges(r, x, y, xy) && Merges(r, xy, z, left)
    requires Merges(r, y, z, yz) && Merges(r, x, yz, right)
    ensures left == right <==> !OrderMatters(x, y, z)
  {
    MergeIsTable(r, x, y);
    MergeIsTable(r, y, z);
    MergeIsTable(r, xy, z);
    MergeIsTable(r, x, yz);
    TableOrder(r.version, x, y, z, xy, yz, left, right);
  }

  /** Creates only absent keys; updates and deletes only present ones. */
  predicate FitsAt(present: bool, e: Option<Entry>) {
    e.Some? ==> (e.value.Init? <==> !present)
  }

  ghost predicate Fits(db: Store, s: seq<Entry>) {
    forall k :: FitsAt(k in db, Find(s, k))
  }

  /** Merging a bucket that fits the state with one that fits its outcome cannot throw, and fits the state. */
  lemma MergeFits(r: Rules, x: seq<Entry>, y: seq<Entry>, db: Store)
    requires Sorted(x) && Sorted(y) && Fits(db, x) && Fits(Apply(db, x), y)
    requires r.keepDead && r.version >= FIRST_PROTOCOL_SUPPORTING_INITENTRY_AND_METAENTRY
    ensures MergeEntries(r, [], x, y).Success?
    ensures Sorted(MergeEntries(r, [], x, y).value)
    ensures Fits(db, MergeEntries(r, [], x, y).value)
    ensures Apply(db, MergeEntries(r, [], x, y).value) == Apply(Apply(db, x), y)
  {
    var mid := Apply(db, x);
    forall k
      ensures !Bad(r.version, Find(x, k), Find(y, k))
      ensures Forgotten(r.keepDead, Find(x, k), Find(y, k)) ==> k !in db
      ensures FitsAt(k in db, Combined(Find(x, k), Find(y, k)))
    {
      ApplyAt(db, x, k);
      assert k in mid <==> Get(mid, k).Some?;
      assert FitsAt(k in db, Find(x, k)) && FitsAt(k in mid, Find(y, k));
    }
    MergeFails(r, [], x, y);
    var z := MergeEntries(r, [], x, y).value;
    MergeSorted(r, [], x, y);
    MergeReader(r, x, y, db);
    forall k ensures FitsAt(k in db, Find(z, k)) {
      MergeAt(r, [], x, y, k);
    }
  }

  /** On a legal create/update/delete history merging is associative, entry for entry. */
  lemma MergeAssociative(r: Rules, x: seq<Entry>, y: seq<Entry>, z: seq<Entry>, db: Store)
    requires Sorted(x) && Sorted(y) && Sorted(z)
    requires r.keepDead && r.version >= FIRST_PROTOCOL_SUPPORTING_INITENTRY_AND_METAENTRY
    requires Fits(db, x) && Fits(Apply(db, x), y) && Fits(Apply(Apply(db, x), y), z)
    ensures MergeEntries(r, [], x, y).Success? && MergeEntries(r, [], y, z).Success?
    ensures MergeEntries(r, [], MergeEntries(r, [], x, y).value, z).Success?
    ensures MergeEntries(r, [], MergeEntries(r, [], x, y).value, z)
         == MergeEntries(r, [], x, MergeEntries(r, [], y, z).value)
  {
    hide MergeEntries, Apply, Fits, Sorted, OrderMatters;
    MergeFits(r, x, y, db);
    MergeFits(r, y, z, Apply(db, x));
    var xy, yz := MergeEntries(r, [], x, y).value, MergeEntries(r, [], y, z).value;
    MergeFits(r, xy, z, db);
    MergeFits(r, x, yz, db);
    FitsInOrder(x, y, z, db);
    MergeOrder(r, x, y, z, xy, yz, MergeEntries(r, [], xy, z).value, MergeEntries(r, [], x, yz).value);
  }

  lemma FitsInOrder(x: seq<Entry>, y: seq<Entry>, z: seq<Entry>, db: Store)
    requires Sorted(x) && Sorted(y)
    requires Fits(db, x) && Fits(Apply(db, x), y) && Fits(Apply(Apply(db, x), y), z)
    ensures !OrderMatters(x, y, z)
  {
    hide Apply, Find;
    forall k ensures !OrderShows(Find(x, k), Find(y, k), Find(z, k)) {
      ApplyAt(db, x, k);
      ApplyAt(Apply(db, x), y, k);
      var after := Apply(Apply(db, x), y);
      assert k in after <==> Get(after, k).Some?;
      assert FitsAt(k in after, Find(z, k));
    }
  }

  // ---- What a merge writes, in the words of its inputs

  /** A merge throws before it starts exactly when its version is above the limit, or has no shadows and is given some. */
  lemma MergeRefused(maxVersion: nat, o: Bucket, n: Bucket, shadows: seq<Bucket>, keepDead: bool)
    ensures var v, r := MergeVersion(o.Version(), n.Version(), shadows), MergeBuckets(maxVersion, o, n, shadows, keepDead);
            && (v > maxVersion <==> r == Failure(VersionTooNew))
            && (v <= maxVersion && v >= 12 && shadows != [] <==> r == Failure(ShadowsNotSupported))
  {
    hide MergeEntries, MergeVersion;
    var v := MergeVersion(o.Version(), n.Version(), shadows);
    EntryErrors(Rules(v, v >= FIRST_PROTOCOL_SUPPORTING_INITENTRY_AND_METAENTRY, keepDead), EntriesOf(shadows),
                o.entries, n.entries);
  }

  lemma {:induction false} EntryErrors(r: Rules, shadows: seq<seq<Entry>>, o: seq<Entry>, n: seq<Entry>)
    ensures var m := MergeEntries(r, shadows, o, n);
            m.Failure? ==> m.error == UnsupportedEntry || m.error == NonDeadThenInit
    decreases |o| + |n|
  {
    if o == [] && n == [] {
    } else if n == [] || (o != [] && o[0].key < n[0].key) {
      EntryErrors(r, shadows, o[1..], n);
    } else if o == [] || n[0].key < o[0].key {
      EntryErrors(r, shadows, o, n[1..]);
    } else {
      EntryErrors(r, shadows, o[1..], n[1..]);
    }
  }

  /** With tombstones filtered out none is written. */
  lemma {:induction false} NoTombstones(r: Rules, shadows: seq<seq<Entry>>, o: seq<Entry>, n: seq<Entry>)
    requires !r.keepDead && MergeEntries(r, shadows, o, n).Success?
    ensures forall e :: e in MergeEntries(r, shadows, o, n).value ==> !e.Dead?
    decreases |o| + |n|
  {
    hide Shadowed;
    if o == [] && n == [] {
    } else if n == [] || (o != [] && o[0].key < n[0].key) {
      NoTombstones(r, shadows, o[1..], n);
    } else if o == [] || n[0].key < o[0].key {
      NoTombstones(r, shadows, o, n[1..]);
    } else {
      NoTombstones(r, shadows, o[1..], n[1..]);
    }
  }

  /**
    Which entry of a key a merge writes: a LIVE exactly when no shadow has the key; an INIT always,
    since there is none before protocol 11; a DEAD unless this is the last level, or a shadow has
    the key and the merge is of a protocol before 11.
   */
  lemma WrittenEntry(maxVersion: nat, o: Bucket, n: Bucket, shadows: seq<Bucket>, keepDead: bool, k: Key)
    requires Sorted(o.entries) && Sorted(n.entries) && MergeBuckets(maxVersion, o, n, shadows, keepDead).Success?
    ensures var z := MergeBuckets(maxVersion, o, n, shadows, keepDead).value.entries;
            var e := Combined(Find(o.entries, k), Find(n.entries, k));
            var early := MergeVersion(o.Version(), n.Version(), shadows) < 11;
            var hidden := exists j :: 0 <= j < |shadows| && HasKey(shadows[j].entries, k);
            match e
            case None => Find(z, k) == None
            case Some(Live(_, _)) => Find(z, k) == if hidden then None else e
            case Some(Init(_, _)) => !early && Find(z, k) == e
            case Some(Dead(_)) => Find(z, k) == if !keepDead || (hidden && early) then None else e
  {
    hide MergeEntries, MergeVersion, HasKey, Sorted, Find;
    var v := MergeVersion(o.Version(), n.Version(), shadows);
    var rules := Rules(v, v >= FIRST_PROTOCOL_SUPPORTING_INITENTRY_AND_METAENTRY, keepDead);
    MergeAt(rules, EntriesOf(shadows), o.entries, n.entries, k);
    MergeFails(rules, EntriesOf(shadows), o.entries, n.entries);
    assert !Bad(v, Find(o.entries, k), Find(n.entries, k));
    assert Shadowed(EntriesOf(shadows), k) <==> exists j :: 0 <= j < |shadows| && HasKey(shadows[j].entries, k) by {
      assert forall j :: 0 <= j < |shadows| ==> EntriesOf(shadows)[j] == shadows[j].entries;
    }
  }
}
