/**
  Under a strict create/update/delete history the content of a bucket is a
  function of the ledgers it covers: the schedule that merged it leaves no trace.
 */
module Canonical {
  import opened Options
  import opened Entries
  import opened Merge
  import opened MergeTheorems
  import opened Schedule
  import opened Machine
  import opened History

  const KEEP := Rules(FIRST_PROTOCOL_SUPPORTING_INITENTRY_AND_METAENTRY, true, true)

  /** Shadow-free protocols; creations are of absent keys, updates and deletions of present ones. */
  ghost predicate StrictHistory(h: seq<Batch>) {
    && (forall i :: 0 <= i < |h| ==> h[i].protocol >= FIRST_PROTOCOL_SHADOWS_REMOVED && Sorted(h[i].entries))
    && (forall i, j :: 0 <= i < j < |h| ==> h[i].protocol <= h[j].protocol)
    && (forall i :: 0 <= i < |h| ==> Fits(StateAt(h, i), h[i].entries))
  }

  /** The batches of ledgers `a + 1` to `b` merged one after the other. */
  function SpanEntries(h: seq<Batch>, a: nat, b: nat): seq<Entry>
    requires a <= b <= |h|
  {
    if a == b then []
    else
      var r := MergeEntries(KEEP, [], SpanEntries(h, a, b - 1), h[b - 1].entries);
      if r.Success? then r.value else []
  }

  function SpanBucket(h: seq<Batch>, a: nat, b: nat): Bucket
    requires a <= b <= |h|
  {
    if a == b then EMPTY else Bucket(Some(h[b - 1].protocol), SpanEntries(h, a, b))
  }

  // ---- What a span does to the database

  ghost predicate SpanOk(h: seq<Batch>, a: nat, b: nat, s: seq<Entry>)
    requires a <= b <= |h|
  {
    Sorted(s) && Fits(StateAt(h, a), s) && Apply(StateAt(h, a), s) == StateAt(h, b)
  }

  lemma {:induction false} SpanFits(h: seq<Batch>, a: nat, b: nat)
    requires StrictHistory(h) && a <= b <= |h|
    ensures SpanOk(h, a, b, SpanEntries(h, a, b))
  {
    hide StrictHistory, MergeEntries, Fits, Sorted, Apply, StateAt;
    if a == b {
      EmptyFits(StateAt(h, a));
    } else {
      SpanFits(h, a, b - 1);
      BatchFits(h, b - 1);
      SpanPush(h, a, b, SpanEntries(h, a, b - 1));
    }
  }

  lemma EmptyFits(db: Store)
    ensures Sorted([]) && Fits(db, []) && Apply(db, []) == db
  {
  }

  lemma BatchFits(h: seq<Batch>, i: nat)
    requires StrictHistory(h) && i < |h|
    ensures Sorted(h[i].entries) && Fits(StateAt(h, i), h[i].entries)
  {
    hide Fits, Sorted, StateAt;
  }

  lemma SpanPush(h: seq<Batch>, a: nat, b: nat, s: seq<Entry>)
    requires a < b <= |h| && SpanOk(h, a, b - 1, s)
    requires Sorted(h[b - 1].entries) && Fits(StateAt(h, b - 1), h[b - 1].entries)
    ensures MergeEntries(KEEP, [], s, h[b - 1].entries).Success?
    ensures SpanOk(h, a, b, MergeEntries(KEEP, [], s, h[b - 1].entries).value)
  {
    assert StateAt(h, b) == Apply(StateAt(h, b - 1), h[b - 1].entries);
    hide StateAt, Apply, Fits, Sorted, MergeEntries;
    MergeFits(KEEP, s, h[b - 1].entries, StateAt(h, a));
  }

  lemma {:induction false} MergeWithNothing(r: Rules, s: seq<Entry>)
    requires r.keepDead && r.version >= FIRST_PROTOCOL_SUPPORTING_INITENTRY_AND_METAENTRY
    ensures MergeEntries(r, [], s, []) == Success(s)
  {
    if s == [] {
    } else {
      MergeWithNothing(r, s[1..]);
      assert [s[0]] + s[1..] == s;
    }
  }

  /** Spans of adjacent intervals merge to the span of both. */
  lemma {:induction false} SpanJoin(h: seq<Batch>, a: nat, b: nat, c: nat)
    requires StrictHistory(h) && a <= b <= c <= |h|
    ensures MergeEntries(KEEP, [], SpanEntries(h, a, b), SpanEntries(h, b, c)) == Success(SpanEntries(h, a, c))
  {
    hide MergeEntries, Fits, Sorted, StrictHistory, Apply, StateAt;
    if b == c {
      MergeWithNothing(KEEP, SpanEntries(h, a, b));
    } else {
      var x, y, z := SpanEntries(h, a, b), SpanEntries(h, b, c - 1), h[c - 1].entries;
      SpanFits(h, a, b);
      SpanFits(h, b, c - 1);
      BatchFits(h, c - 1);
      SpanJoin(h, a, b, c - 1);
      MergeAssociative(KEEP, x, y, z, StateAt(h, a));
    }
  }

  /** Nothing is deleted from, or updated in, the empty database. */
  lemma SpanFromStart(h: seq<Batch>, b: nat, k: Key)
    requires StrictHistory(h) && b <= |h|
    ensures Find(SpanEntries(h, 0, b), k).Some? ==> Find(SpanEntries(h, 0, b), k).value.Init?
  {
    SpanFits(h, 0, b);
    assert FitsAt(k in StateAt(h, 0), Find(SpanEntries(h, 0, b), k));
  }

  /** The rules of any shadow-free merge give the same join, at the last level too. */
  lemma SpanJoinRules(h: seq<Batch>, a: nat, b: nat, c: nat, r: Rules)
    requires StrictHistory(h) && a <= b <= c <= |h|
    requires r.version >= FIRST_PROTOCOL_SUPPORTING_INITENTRY_AND_METAENTRY && (r.keepDead || a == 0)
    ensures MergeEntries(r, [], SpanEntries(h, a, b), SpanEntries(h, b, c)) == Success(SpanEntries(h, a, c))
  {
    var x, y, z := SpanEntries(h, a, b), SpanEntries(h, b, c), SpanEntries(h, a, c);
    hide MergeEntries, SpanEntries, StrictHistory;
    SpanFits(h, a, b);
    SpanFits(h, b, c);
    SpanFits(h, a, c);
    SpanJoin(h, a, b, c);
    MergeFails(KEEP, [], x, y);
    MergeFails(r, [], x, y);
    forall k ensures Bad(r.version, Find(x, k), Find(y, k)) == Bad(KEEP.version, Find(x, k), Find(y, k)) {
    }
    MergeSorted(r, [], x, y);
    var z' := MergeEntries(r, [], x, y).value;
    forall k ensures Find(z', k) == Find(z, k) {
      MergeAt(r, [], x, y, k);
      MergeAt(KEEP, [], x, y, k);
      if a == 0 {
        SpanFromStart(h, c, k);
      }
    }
    SortedExtensionality(z', z);
  }

  // ---- Runs

  ghost predicate IsSpan(h: seq<Batch>, a: nat, b: nat, x: Bucket) {
    if a == b then x == EMPTY else a < b <= |h| && x == SpanBucket(h, a, b)
  }

  ghost function Spanning(h: seq<Batch>): (nat, nat, nat, nat, Bucket) -> bool {
    (i: nat, l: nat, a: nat, b: nat, x: Bucket) => IsSpan(h, a, b, x)
  }

  lemma SpanVersion(h: seq<Batch>, a: nat, b: nat, c: nat, x: Bucket, y: Bucket)
    requires StrictHistory(h) && IsSpan(h, a, b, x) && IsSpan(h, b, c, y) && b < c
    ensures y.Version() == MergeVersion(x.Version(), y.Version(), []) == h[c - 1].protocol >= FIRST_PROTOCOL_SHADOWS_REMOVED
  {
    hide SpanEntries, Fits, StateAt, Sorted;
  }

  lemma SpanMerge(h: seq<Batch>, keepDead: bool, a: nat, b: nat, c: nat, x: Bucket, y: Bucket)
    requires StrictHistory(h) && IsSpan(h, a, b, x) && IsSpan(h, b, c, y) && b < c && (keepDead || a == 0)
    ensures IsSpan(h, a, c, Merged(keepDead, x, y, []))
  {
    SpanVersion(h, a, b, c, x, y);
    hide MergeEntries, StrictHistory, MergeVersion;
    assert x.entries == SpanEntries(h, a, b) && y.entries == SpanEntries(h, b, c);
    SpanJoinRules(h, a, b, c, Rules(h[c - 1].protocol, true, keepDead));
    assert EntriesOf([]) == [];
  }

  lemma SpanMergeable(h: seq<Batch>, n: nat, i: nat, l: nat, a: nat, b: nat, c: nat, x: Bucket, y: Bucket, shadows: seq<Bucket>)
    requires StrictHistory(h) && Mergeable(BucketAlgebra(), Spanning(h), n, i, l, a, b, c, x, y, shadows)
    ensures IsSpan(h, a, c, Merged(KeepDeadEntries(n, i), x, y, shadows))
  {
    hide StrictHistory, Sheltered, Merged, IsSpan;
    SpanVersion(h, a, b, c, x, y);
    assert shadows == [];
    SpanMerge(h, KeepDeadEntries(n, i), a, b, c, x, y);
  }

  lemma SpanningLaws(h: seq<Batch>, n: nat)
    requires StrictHistory(h)
    ensures Laws(BucketAlgebra(), Spanning(h), n)
  {
    var alg, good := BucketAlgebra(), Spanning(h);
    hide StrictHistory, Merged, Mergeable;
    forall i, l, a, b, c, x, y, shadows | Mergeable(alg, good, n, i, l, a, b, c, x, y, shadows)
      ensures good(i, l, a, c, alg.merge(KeepDeadEntries(n, i), x, y, shadows))
    {
      SpanMergeable(h, n, i, l, a, b, c, x, y, shadows);
    }
  }

  lemma BatchIsSpan(h: seq<Batch>, i: nat)
    requires StrictHistory(h) && i < |h|
    ensures IsSpan(h, i, i + 1, BatchBucket(h[i]))
  {
    var s := h[i].entries;
    MergeFits(KEEP, [], s, StateAt(h, i)) by {
      assert Fits(StateAt(h, i), s);
    }
    var z := MergeEntries(KEEP, [], [], s).value;
    forall k ensures Find(z, k) == Find(s, k) {
      MergeAt(KEEP, [], [], s, k);
    }
    SortedExtensionality(z, s);
    assert SpanEntries(h, i, i) == [];
  }

  /** At every reachable ledger every bucket is the merge of exactly the batches of its interval. */
  lemma BucketsAreSpans(h: seq<Batch>, n: nat, events: seq<Event<Bucket>>, i: nat)
    requires StrictHistory(h) && n >= 2 && Closing(h, events) && i < n
    ensures var s := Run(BucketAlgebra(), n, events);
            && s.ledger == |Closes(events)| && |s.levels| == n
            && CurrTop(n, s.ledger, i + 1) <= SnapTop(n, s.ledger, i) <= CurrTop(n, s.ledger, i) <= |h|
            && s.levels[i].curr == SpanBucket(h, SnapTop(n, s.ledger, i), CurrTop(n, s.ledger, i))
            && s.levels[i].snap == SpanBucket(h, CurrTop(n, s.ledger, i + 1), SnapTop(n, s.ledger, i))
  {
    var s := Run(BucketAlgebra(), n, events);
    hide StrictHistory, Laws, BatchBucket, SpanBucket, Run, NextOk, SnapTop, CurrTop;
    SpanningLaws(h, n);
    forall j | 0 <= j < |Closes(events)| ensures GoodBatch(Spanning(h), Closes(events)[j], j) {
      hide IsSpan;
      BatchIsSpan(h, j);
    }
    RunInv(BucketAlgebra(), Spanning(h), n, events);
    assert LevelCovered(Spanning(h), s.levels[i], n, s.ledger, i);
    Descending(n, s.ledger, i);
    TopsDescend(n, s.ledger, i, i);
    EmptySpan(h, SnapTop(n, s.ledger, i));
    EmptySpan(h, CurrTop(n, s.ledger, i));
  }

  lemma EmptySpan(h: seq<Batch>, a: nat)
    requires a <= |h|
    ensures SpanBucket(h, a, a) == EMPTY
  {
  }
}
