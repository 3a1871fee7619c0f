/**
  Runs of the bucket list over real buckets.

  A `Regime` is a family of buckets, one for every interval of ledgers of a
  history, that merging stays in.  Whatever a regime promises of a bucket then
  holds of every bucket of every run, and no merge of any run throws.
 */
module History {
  import opened Entries
  import opened Merge
  import opened MergeTheorems
  import opened Schedule
  import opened Machine

  // ---- Buckets as an algebra

  predicate Succeeds(keepDead: bool, o: Bucket, n: Bucket, shadows: seq<Bucket>) {
    MergeBuckets(MergeVersion(o.Version(), n.Version(), shadows), o, n, shadows, keepDead).Success?
  }

  /** The bucket a merge produces; on a merge that throws, an arbitrary one of the right version. */
  function Merged(keepDead: bool, o: Bucket, n: Bucket, shadows: seq<Bucket>): Bucket {
    var v := MergeVersion(o.Version(), n.Version(), shadows);
    var r := MergeBuckets(v, o, n, shadows, keepDead);
    if r.Success? then r.value else Finish(v, [])
  }

  function BucketAlgebra(): Algebra<Bucket> {
    Algebra(EMPTY, Merged, (b: Bucket) => b.Version(), (b: Bucket) => b.Version() >= FIRST_PROTOCOL_SHADOWS_REMOVED)
  }

  lemma MergedUnder(maxVersion: nat, keepDead: bool, o: Bucket, n: Bucket, shadows: seq<Bucket>)
    requires Succeeds(keepDead, o, n, shadows) && MergeVersion(o.Version(), n.Version(), shadows) <= maxVersion
    ensures MergeBuckets(maxVersion, o, n, shadows, keepDead) == Success(Merged(keepDead, o, n, shadows))
  {
    hide MergeEntries, MergeVersion;
  }

  // ---- Histories

  /** The entries a ledger close hands over, sorted, and the protocol it runs under. */
  datatype Batch = Batch(protocol: nat, entries: seq<Entry>)

  function BatchBucket(b: Batch): Bucket {
    Finish(b.protocol, b.entries)
  }

  /** The database after the first `ledger` batches. */
  function StateAt(h: seq<Batch>, ledger: nat): Store
    requires ledger <= |h|
  {
    if ledger == 0 then map[] else Apply(StateAt(h, ledger - 1), h[ledger - 1].entries)
  }

  /** The ledgers the run closes are the first ones of the history. */
  ghost predicate Closing(h: seq<Batch>, events: seq<Event<Bucket>>) {
    && |Closes(events)| <= |h|
    && forall i :: 0 <= i < |Closes(events)| ==> Closes(events)[i] == Close(h[i].protocol, BatchBucket(h[i]))
  }

  // ---- Regimes

  /** No merge the list starts throws. */
  ghost predicate Works(good: (nat, nat, nat, nat, Bucket) -> bool, n: nat) {
    forall i, l, a, b, c, x, y, shadows | Mergeable(BucketAlgebra(), good, n, i, l, a, b, c, x, y, shadows) ::
      Succeeds(KeepDeadEntries(n, i), x, y, shadows)
  }

  ghost predicate VersionAt(h: seq<Batch>, m: nat, x: Bucket)
    requires m < |h|
  {
    x.Version() <= h[m].protocol
  }

  /** Versions do not run ahead of the protocol, nor, where merges are restarted, of a newer neighbour. */
  ghost predicate Versioned(h: seq<Batch>, good: (nat, nat, nat, nat, Bucket) -> bool) {
    && (forall i, l: nat, a, b: nat, x, m: nat | good(i, l, a, b, x) && m < |h| && b <= l <= m + 1 :: VersionAt(h, m, x))
    && (forall i, j, l, a, b, c, x, y | good(i, l, a, b, x) && good(j, l, b, c, y) && b < c :: Ascends(x, y))
  }

  predicate Ascends(x: Bucket, y: Bucket) {
    y.Version() >= FIRST_PROTOCOL_SHADOWS_REMOVED ==> x.Version() <= y.Version()
  }

  ghost predicate Batched(h: seq<Batch>, good: (nat, nat, nat, nat, Bucket) -> bool) {
    forall i :: 0 <= i < |h| ==> GoodBatch(good, Close(h[i].protocol, BatchBucket(h[i])), i)
  }

  ghost predicate Regime(h: seq<Batch>, good: (nat, nat, nat, nat, Bucket) -> bool, n: nat) {
    && Laws(BucketAlgebra(), good, n)
    && Works(good, n)
    && Versioned(h, good)
    && Batched(h, good)
  }

  /** In every reachable state every bucket, and every pending merge, is of the regime. */
  lemma RunCovered(h: seq<Batch>, good: (nat, nat, nat, nat, Bucket) -> bool, n: nat, events: seq<Event<Bucket>>)
    requires Regime(h, good, n) && n >= 2 && Closing(h, events)
    ensures Inv(BucketAlgebra(), good, Run(BucketAlgebra(), n, events))
    ensures Run(BucketAlgebra(), n, events).ledger == |Closes(events)|
    ensures |Run(BucketAlgebra(), n, events).levels| == n
  {
    hide Inv, Laws, Works, Versioned, Run, BucketAlgebra, GoodBatch;
    var closes := Closes(events);
    forall i | 0 <= i < |closes| ensures GoodBatch(good, closes[i], i) {
      assert closes[i] == Close(h[i].protocol, BatchBucket(h[i]));
    }
    RunInv(BucketAlgebra(), good, n, events);
  }

  // ---- No merge throws

  /** The protocol recorded with a pending merge is no older than the merge's version. */
  ghost predicate Allowed(next: Next<Bucket>) {
    next.Merging? ==> MergeVersion(next.curr.Version(), next.snap.Version(), next.shadows) <= next.maxVersion
  }

  ghost predicate AllAllowed(levels: Levels<Bucket>) {
    forall i :: 0 <= i < |levels| ==> Allowed(levels[i].next)
  }

  predicate Counted(s: Bucket) {
    s.Version() < FIRST_PROTOCOL_SHADOWS_REMOVED
  }

  /** A merge's version is the greatest of its inputs' and its counted shadows'. */
  lemma {:induction false} VersionMeans(o: nat, n: nat, shadows: seq<Bucket>)
    ensures var v := MergeVersion(o, n, shadows);
            && o <= v && n <= v
            && (forall i :: 0 <= i < |shadows| && Counted(shadows[i]) ==> shadows[i].Version() <= v)
            && (v == o || v == n || exists i :: 0 <= i < |shadows| && Counted(shadows[i]) && shadows[i].Version() == v)
  {
    if shadows == [] {
    } else {
      var front := shadows[..|shadows| - 1];
      VersionMeans(o, n, front);
      var v, w := MergeVersion(o, n, shadows), MergeVersion(o, n, front);
      hide MergeVersion;
      if v == w && v != o && v != n {
        var i :| 0 <= i < |front| && Counted(front[i]) && front[i].Version() == w;
        assert Counted(shadows[i]) && shadows[i].Version() == v;
      } else if v != w {
        assert Counted(shadows[|shadows| - 1]);
      }
    }
  }

  lemma VersionWithin(o: nat, n: nat, shadows: seq<Bucket>, p: nat)
    requires o <= p && n <= p && forall i :: 0 <= i < |shadows| ==> shadows[i].Version() <= p
    ensures MergeVersion(o, n, shadows) <= p
  {
    hide MergeVersion;
    VersionMeans(o, n, shadows);
  }

  lemma VersionBound(h: seq<Batch>, good: (nat, nat, nat, nat, Bucket) -> bool, n: nat, i: nat, l: nat, a: nat, b: nat,
                     x: Bucket, m: nat)
    requires Regime(h, good, n) && good(i, l, a, b, x) && m < |h| && b <= l <= m + 1
    ensures x.Version() <= h[m].protocol
  {
    hide Laws, Works, Batched;
    assert VersionAt(h, m, x);
  }

  /** At a close every bucket of the list is within the protocol. */
  lemma LevelVersions(h: seq<Batch>, good: (nat, nat, nat, nat, Bucket) -> bool, s: State<Bucket>, i: nat)
    requires Regime(h, good, |s.levels|) && s.ledger < |h| && i < |s.levels| && Inv(BucketAlgebra(), good, s)
    ensures s.levels[i].curr.Version() <= h[s.ledger].protocol && s.levels[i].snap.Version() <= h[s.ledger].protocol
  {
    hide Regime, Pending, PendingCovered, CurrTop, SnapTop;
    var n := |s.levels|;
    assert LevelCovered(good, s.levels[i], n, s.ledger, i);
    TopsDescend(n, s.ledger, i, i);
    Descending(n, s.ledger, i);
    VersionBound(h, good, n, i, s.ledger, SnapTop(n, s.ledger, i), CurrTop(n, s.ledger, i), s.levels[i].curr, s.ledger);
    VersionBound(h, good, n, i, s.ledger, CurrTop(n, s.ledger, i + 1), SnapTop(n, s.ledger, i), s.levels[i].snap, s.ledger);
  }

  lemma ShadowVersions(h: seq<Batch>, good: (nat, nat, nat, nat, Bucket) -> bool, s: State<Bucket>, i: nat, snap: Bucket)
    requires Regime(h, good, |s.levels|) && s.ledger < |h| && 0 < i < |s.levels| && Inv(BucketAlgebra(), good, s)
    ensures var shadows := ShadowsFor(BucketAlgebra(), s.levels, i, snap);
            forall m :: 0 <= m < |shadows| ==> shadows[m].Version() <= h[s.ledger].protocol
  {
    hide Regime, Inv;
    var shadows := Younger(s.levels, i - 1);
    forall m | 0 <= m < |shadows| ensures shadows[m].Version() <= h[s.ledger].protocol {
      LevelVersions(h, good, s, m / 2);
      assert shadows[2 * (m / 2)] == s.levels[m / 2].curr && shadows[2 * (m / 2) + 1] == s.levels[m / 2].snap;
    }
  }

  lemma CloseAllowed(h: seq<Batch>, good: (nat, nat, nat, nat, Bucket) -> bool, s: State<Bucket>, i: nat)
    requires Regime(h, good, |s.levels|) && s.ledger < |h| && i < |s.levels|
    requires Inv(BucketAlgebra(), good, s) && Allowed(s.levels[i].next)
    ensures Allowed(StepLevel(BucketAlgebra(), s.levels, s.ledger + 1, h[s.ledger].protocol,
                              BatchBucket(h[s.ledger]), i).next)
  {
    hide Regime, Inv, Laws, Merged, SnapTop, CurrTop, LevelShouldSpill, ShouldMergeWithEmptyCurr;
    hide ShadowsFor, MergeVersion, Finish, Resolved;
    var alg, n, p, batch := BucketAlgebra(), |s.levels|, h[s.ledger].protocol, BatchBucket(h[s.ledger]);
    var now := s.ledger + 1;
    if i > 0 && LevelShouldSpill(n, now, i - 1) {
      RegimeParts(h, good, n, s.ledger);
      assert s == State(s.ledger, s.levels);
      CurrStepCovered(alg, good, s.levels, s.ledger, p, batch, i);
      var level := StepLevel(alg, s.levels, now, p, batch, i);
      TopsDescend(n, now, i, i);
      VersionBound(h, good, n, i, now, SnapTop(n, now, i), CurrTop(n, now, i), level.curr, s.ledger);
      LevelVersions(h, good, s, i - 1);
      ShadowVersions(h, good, s, i, s.levels[i - 1].curr);
      VersionWithin(level.next.curr.Version(), level.next.snap.Version(), level.next.shadows, p);
    }
  }

  lemma RegimeParts(h: seq<Batch>, good: (nat, nat, nat, nat, Bucket) -> bool, n: nat, i: nat)
    requires Regime(h, good, n) && i < |h|
    ensures Laws(BucketAlgebra(), good, n) && good(0, i + 1, i, i + 1, BatchBucket(h[i]))
  {
    hide Laws, Works, Versioned, BatchBucket;
    assert GoodBatch(good, Close(h[i].protocol, BatchBucket(h[i])), i);
  }

  lemma RestartAllowed(h: seq<Batch>, good: (nat, nat, nat, nat, Bucket) -> bool, s: State<Bucket>, stored: set<nat>, i: nat)
    requires Regime(h, good, |s.levels|) && 0 < i < |s.levels|
    requires Inv(BucketAlgebra(), good, s) && Allowed(s.levels[i].next)
    ensures Allowed(Recovered(BucketAlgebra(), s, stored)[i].next)
  {
    var alg, n, ledger := BucketAlgebra(), |s.levels|, s.ledger;
    hide Laws, Works, Batched, Recovered, Pending, PendingCovered, CurrTop, SnapTop;
    hide ShouldMergeWithEmptyCurr, LevelHalf, Merged;
    RestartRecovers(alg, good, s, stored, i);
    if Recovered(alg, s, stored)[i].next != s.levels[i].next {
      ClearOnlyBefore(alg, good, s, i);
      PendingBounds(n, ledger, i);
      assert LevelCovered(good, s.levels[i], n, ledger, i) && LevelCovered(good, s.levels[i - 1], n, ledger, i - 1);
      assert Ascends(s.levels[i].curr, s.levels[i - 1].snap);
      var snap := s.levels[i - 1].snap;
      VersionWithin(PendingCurr(alg, s.levels, ledger, i).Version(), snap.Version(), [], snap.Version());
    }
  }

  lemma StepAllowed(h: seq<Batch>, good: (nat, nat, nat, nat, Bucket) -> bool, s: State<Bucket>, e: Event<Bucket>)
    requires Regime(h, good, |s.levels|) && s.ledger <= |h| && Inv(BucketAlgebra(), good, s) && AllAllowed(s.levels)
    requires e.Close? ==> s.ledger < |h| && e == Close(h[s.ledger].protocol, BatchBucket(h[s.ledger]))
    ensures AllAllowed(Step(BucketAlgebra(), s, e).levels)
  {
    hide Inv, Regime, StepLevel, Allowed, Recovered, BucketAlgebra;
    var levels := Step(BucketAlgebra(), s, e).levels;
    forall i | 0 <= i < |levels| ensures Allowed(levels[i].next) {
      match e {
        case Close(protocol, batch) =>
          CloseAllowed(h, good, s, i);
        case Complete(ready) =>
          AllowedOutput(levels[i].next);
        case Restart(stored) =>
          if i > 0 {
            RestartAllowed(h, good, s, stored, i);
          } else {
            RestartLevelZero(h, good, s, stored);
          }
      }
    }
  }

  lemma AllowedOutput(next: Next<Bucket>)
    ensures next.Output? || next.Clear? ==> Allowed(next)
  {
  }

  lemma RestartLevelZero(h: seq<Batch>, good: (nat, nat, nat, nat, Bucket) -> bool, s: State<Bucket>, stored: set<nat>)
    requires Regime(h, good, |s.levels|) && Inv(BucketAlgebra(), good, s)
    ensures Allowed(Recovered(BucketAlgebra(), s, stored)[0].next)
  {
    hide Laws, Works, Versioned, Batched, Covered, PendingCovered, NextOk, Recovered;
    RestartRecovers(BucketAlgebra(), good, s, stored, 0);
  }

  lemma ClosingFront(h: seq<Batch>, events: seq<Event<Bucket>>)
    requires events != [] && Closing(h, events)
    ensures var front, last := events[..|events| - 1], events[|events| - 1];
            && Closing(h, front)
            && (last.Close? ==>
                  && |Closes(front)| < |h|
                  && last == Close(h[|Closes(front)|].protocol, BatchBucket(h[|Closes(front)|])))
  {
    var front, last := Closes(events[..|events| - 1]), events[|events| - 1];
    var all := Closes(events);
    assert all == if last.Close? then front + [last] else front;
    hide Closes;
    forall i | 0 <= i < |front| ensures front[i] == Close(h[i].protocol, BatchBucket(h[i])) {
      assert all[i] == front[i];
    }
    if last.Close? {
      assert all[|front|] == last;
    }
  }

  lemma {:induction false} RunAllowed(h: seq<Batch>, good: (nat, nat, nat, nat, Bucket) -> bool, n: nat,
                                      events: seq<Event<Bucket>>)
    requires Regime(h, good, n) && n >= 2 && Closing(h, events)
    ensures AllAllowed(Run(BucketAlgebra(), n, events).levels)
  {
    if events == [] {
    } else {
      var front, last := events[..|events| - 1], events[|events| - 1];
      ClosingFront(h, events);
      assert Run(BucketAlgebra(), n, events) == Step(BucketAlgebra(), Run(BucketAlgebra(), n, front), last);
      hide Regime, AllAllowed, Inv, Step, Run, Closes, BucketAlgebra;
      RunCovered(h, good, n, front);
      RunAllowed(h, good, n, front);
      StepAllowed(h, good, Run(BucketAlgebra(), n, front), last);
    }
  }

  /** In every reachable state every pending merge, whenever it runs, succeeds. */
  lemma PendingMergesSucceed(h: seq<Batch>, good: (nat, nat, nat, nat, Bucket) -> bool, n: nat,
                             events: seq<Event<Bucket>>, i: nat)
    requires Regime(h, good, n) && n >= 2 && Closing(h, events) && 0 < i < n
    ensures |Run(BucketAlgebra(), n, events).levels| == n
    ensures var next := Run(BucketAlgebra(), n, events).levels[i].next;
            next.Merging? ==>
              MergeBuckets(next.maxVersion, next.curr, next.snap, next.shadows, KeepDeadEntries(n, i))
              == Success(Resolved(BucketAlgebra(), n, i, next))
  {
    RunCovered(h, good, n, events);
    RunAllowed(h, good, n, events);
    hide Run;
    var s := Run(BucketAlgebra(), n, events);
    assert Allowed(s.levels[i].next);
    PendingSucceeds(h, good, s, i);
  }

  lemma PendingSucceeds(h: seq<Batch>, good: (nat, nat, nat, nat, Bucket) -> bool, s: State<Bucket>, i: nat)
    requires Regime(h, good, |s.levels|) && 0 < i < |s.levels|
    requires Inv(BucketAlgebra(), good, s) && Allowed(s.levels[i].next)
    ensures var next := s.levels[i].next;
            next.Merging? ==>
              MergeBuckets(next.maxVersion, next.curr, next.snap, next.shadows, KeepDeadEntries(|s.levels|, i))
              == Success(Resolved(BucketAlgebra(), |s.levels|, i, next))
  {
    hide Laws, Versioned, Batched, Pending, Covered, MergeBuckets, MergeVersion, Mergeable, Succeeds, Merged, CurrTop, SnapTop;
    var n, next := |s.levels|, s.levels[i].next;
    assert NextCovered(BucketAlgebra(), good, s.levels[i], n, s.ledger, i);
    if next.Merging? {
      assert Succeeds(KeepDeadEntries(n, i), next.curr, next.snap, next.shadows);
      MergedUnder(next.maxVersion, KeepDeadEntries(n, i), next.curr, next.snap, next.shadows);
    }
  }

  // ---- Crashes, whatever the history

  /** Nothing but that the bucket of no ledgers is the empty one. */
  predicate Anything(i: nat, l: nat, a: nat, b: nat, x: Bucket) {
    a == b ==> x == EMPTY
  }

  lemma AnythingLaws(n: nat)
    ensures Laws(BucketAlgebra(), Anything, n)
  {
    hide Merged;
  }

  lemma {:induction false} ClosesClose(events: seq<Event<Bucket>>)
    ensures GoodBatches(Anything, Closes(events))
  {
    if events == [] {
    } else {
      ClosesClose(events[..|events| - 1]);
    }
  }

  /** The list is the one of a run with the same closes and no completions or crashes at all. */
  lemma CrashesDoNotShow(n: nat, events: seq<Event<Bucket>>)
    requires n >= 2
    ensures Run(BucketAlgebra(), n, events).ledger == Run(BucketAlgebra(), n, Closes(events)).ledger
    ensures Alike(BucketAlgebra(), Run(BucketAlgebra(), n, events).levels, Run(BucketAlgebra(), n, Closes(events)).levels)
  {
    hide Laws, GoodBatches, Run, Alike, BucketAlgebra;
    AnythingLaws(n);
    ClosesClose(events);
    OnlyClosesMatter(BucketAlgebra(), Anything, n, events);
  }

  /** After a crash, whichever merges were stored, a level without a merge is untouched or of a snap without shadows. */
  lemma CrashedLevels(n: nat, events: seq<Event<Bucket>>, stored: set<nat>, i: nat)
    requires n >= 2 && 0 < i < n
    ensures |Run(BucketAlgebra(), n, events).levels| == n
    ensures var c := Crashed(BucketAlgebra(), Run(BucketAlgebra(), n, events).levels, stored);
            c[i].next.Clear? && c[i - 1].snap != EMPTY ==> c[i - 1].snap.Version() >= FIRST_PROTOCOL_SHADOWS_REMOVED
  {
    hide Laws, GoodBatches, Run, Inv, Merged;
    AnythingLaws(n);
    ClosesClose(events);
    RunInv(BucketAlgebra(), Anything, n, events);
    ClearedShadowless(BucketAlgebra(), Anything, Run(BucketAlgebra(), n, events), stored, i);
  }

  /** A crash loses exactly the merges that are not stored and whose snap is from protocol 12 on. */
  lemma CrashLoses(levels: Levels<Bucket>, stored: set<nat>, i: nat)
    requires 0 < i < |levels| && !levels[i].next.Clear?
    ensures var c := Crashed(BucketAlgebra(), levels, stored)[i];
            && (c.next.Clear? <==> i !in stored && levels[i - 1].snap.Version() >= 12)
            && (!c.next.Clear? ==> c.next == levels[i].next)
            && c.curr == levels[i].curr && c.snap == levels[i].snap
  {
    hide Merged;
  }

  // ---- The last level holds no tombstones

  ghost predicate Undead(s: seq<Entry>) {
    forall e :: e in s ==> !e.Dead?
  }

  ghost predicate BottomUndead(n: nat, i: nat, l: nat, a: nat, b: nat, x: Bucket) {
    if a == b then x == EMPTY else i + 1 == n ==> Undead(x.entries)
  }

  ghost function UndeadAt(n: nat): (nat, nat, nat, nat, Bucket) -> bool {
    (i: nat, l: nat, a: nat, b: nat, x: Bucket) => BottomUndead(n, i, l, a, b, x)
  }

  lemma MergedUndead(o: Bucket, n: Bucket, shadows: seq<Bucket>)
    ensures Undead(Merged(false, o, n, shadows).entries)
  {
    hide MergeEntries, MergeVersion;
    var v := MergeVersion(o.Version(), n.Version(), shadows);
    var rules := Rules(v, v >= FIRST_PROTOCOL_SUPPORTING_INITENTRY_AND_METAENTRY, false);
    if MergeEntries(rules, EntriesOf(shadows), o.entries, n.entries).Success? {
      NoTombstones(rules, EntriesOf(shadows), o.entries, n.entries);
    }
  }

  lemma UndeadLaws(n: nat)
    ensures Laws(BucketAlgebra(), UndeadAt(n), n)
  {
    var alg, good := BucketAlgebra(), UndeadAt(n);
    hide Merged, Sheltered, Undead;
    forall i, l, a, b, c, x, y, shadows | Mergeable(alg, good, n, i, l, a, b, c, x, y, shadows)
      ensures good(i, l, a, c, alg.merge(KeepDeadEntries(n, i), x, y, shadows))
    {
      MergedUndead(x, y, shadows);
    }
    hide Mergeable;
  }

  /** In every run, whatever its batches, the last level is free of tombstones, and so is what is merged for it. */
  lemma BottomHasNoTombstones(n: nat, events: seq<Event<Bucket>>)
    requires n >= 2
    ensures var s := Run(BucketAlgebra(), n, events);
            && |s.levels| == n
            && Undead(s.levels[n - 1].curr.entries) && s.levels[n - 1].snap == EMPTY
            && (s.levels[n - 1].next.Output? ==> Undead(s.levels[n - 1].next.bucket.entries))
  {
    hide Laws, Run, Merged, Closes, CurrTop, SnapTop, Undead, Mergeable, Pending;
    UndeadLaws(n);
    forall i | 0 <= i < |Closes(events)| ensures GoodBatch(UndeadAt(n), Closes(events)[i], i) {
      ClosesClose(events);
      assert GoodBatch(Anything, Closes(events)[i], i);
    }
    RunInv(BucketAlgebra(), UndeadAt(n), n, events);
    var s := Run(BucketAlgebra(), n, events);
    assert LevelCovered(UndeadAt(n), s.levels[n - 1], n, s.ledger, n - 1);
    assert NextCovered(BucketAlgebra(), UndeadAt(n), s.levels[n - 1], n, s.ledger, n - 1);
    LastTopsZero(n, s.ledger);
    EmptyUndead();
  }

  lemma LastTopsZero(n: nat, ledger: nat)
    requires n >= 1
    ensures SnapTop(n, ledger, n - 1) == 0 && CurrTop(n, ledger, n) == 0
  {
  }

  lemma EmptyUndead()
    ensures Undead(EMPTY.entries)
  {
  }

  // ---- The version limit of a pending merge

  ghost predicate Limited(levels: Levels<Bucket>, protocol: nat) {
    forall i :: 0 <= i < |levels| && levels[i].next.Merging? ==> levels[i].next.maxVersion <= protocol
  }

  lemma RestartLimited(h: seq<Batch>, good: (nat, nat, nat, nat, Bucket) -> bool, s: State<Bucket>, stored: set<nat>)
    requires Regime(h, good, |s.levels|) && 0 < s.ledger <= |h| && Inv(BucketAlgebra(), good, s)
    requires Limited(s.levels, h[s.ledger - 1].protocol)
    ensures Limited(Recovered(BucketAlgebra(), s, stored), h[s.ledger - 1].protocol)
  {
    hide Regime, Inv, Recovered, Laws, Merged, CurrTop, SnapTop;
    var alg, n, r := BucketAlgebra(), |s.levels|, Recovered(BucketAlgebra(), s, stored);
    RegimeParts(h, good, n, 0);
    forall i | 0 <= i < |r| && r[i].next.Merging? ensures r[i].next.maxVersion <= h[s.ledger - 1].protocol {
      RestartRecovers(alg, good, s, stored, i);
      if i == 0 {
        LevelZeroIdle(good, s);
      } else if r[i].next != s.levels[i].next {
        SnapVersion(h, good, s, i - 1);
      }
    }
  }

  lemma LevelZeroIdle(good: (nat, nat, nat, nat, Bucket) -> bool, s: State<Bucket>)
    requires Inv(BucketAlgebra(), good, s)
    ensures |s.levels| >= 2 && s.levels[0].next.Clear?
  {
    hide Covered, PendingCovered, NextOk;
  }

  lemma SnapVersion(h: seq<Batch>, good: (nat, nat, nat, nat, Bucket) -> bool, s: State<Bucket>, i: nat)
    requires Regime(h, good, |s.levels|) && 0 < s.ledger <= |h| && i < |s.levels| && Inv(BucketAlgebra(), good, s)
    ensures s.levels[i].snap.Version() <= h[s.ledger - 1].protocol
  {
    hide Regime, Pending, PendingCovered, CurrTop, SnapTop;
    var n := |s.levels|;
    assert LevelCovered(good, s.levels[i], n, s.ledger, i);
    TopsDescend(n, s.ledger, i, i);
    Descending(n, s.ledger, i);
    VersionBound(h, good, n, i, s.ledger, CurrTop(n, s.ledger, i + 1), SnapTop(n, s.ledger, i), s.levels[i].snap, s.ledger - 1);
  }

  lemma CloseLimited(levels: Levels<Bucket>, ledger: nat, before: nat, protocol: nat, batch: Bucket)
    requires Limited(levels, before) && before <= protocol
    ensures Limited(AddBatch(BucketAlgebra(), levels, ledger, protocol, batch), protocol)
  {
    hide LevelShouldSpill, ShouldMergeWithEmptyCurr, Merged, Younger;
  }

  ghost predicate LimitedAt(h: seq<Batch>, s: State<Bucket>)
    requires s.ledger <= |h|
  {
    Limited(s.levels, if s.ledger == 0 then 0 else h[s.ledger - 1].protocol)
  }

  lemma StepLimited(h: seq<Batch>, good: (nat, nat, nat, nat, Bucket) -> bool, s: State<Bucket>, e: Event<Bucket>)
    requires Regime(h, good, |s.levels|) && s.ledger <= |h| && Inv(BucketAlgebra(), good, s) && LimitedAt(h, s)
    requires forall i, j :: 0 <= i < j < |h| ==> h[i].protocol <= h[j].protocol
    requires e.Close? ==> s.ledger < |h| && e == Close(h[s.ledger].protocol, BatchBucket(h[s.ledger]))
    ensures Step(BucketAlgebra(), s, e).ledger <= |h| && LimitedAt(h, Step(BucketAlgebra(), s, e))
  {
    hide Regime, Inv, BucketAlgebra, Limited, Recovered;
    var limit := if s.ledger == 0 then 0 else h[s.ledger - 1].protocol;
    match e {
      case Close(protocol, batch) =>
        CloseLimited(s.levels, s.ledger + 1, limit, protocol, batch);
      case Complete(ready) =>
        ResolveLimited(s.levels, ready, limit);
      case Restart(stored) =>
        if s.ledger == 0 {
          RegimeLaws(h, good, |s.levels|);
          NothingPending(good, s, stored);
        } else {
          RestartLimited(h, good, s, stored);
        }
    }
  }

  lemma RegimeLaws(h: seq<Batch>, good: (nat, nat, nat, nat, Bucket) -> bool, n: nat)
    requires Regime(h, good, n)
    ensures Laws(BucketAlgebra(), good, n)
  {
    hide Laws, Works, Versioned, Batched;
  }

  /** No merge is pending under a limit above the protocol of the last closed ledger. */
  lemma {:induction false} RunLimited(h: seq<Batch>, good: (nat, nat, nat, nat, Bucket) -> bool, n: nat,
                                      events: seq<Event<Bucket>>)
    requires Regime(h, good, n) && n >= 2 && Closing(h, events)
    requires forall i, j :: 0 <= i < j < |h| ==> h[i].protocol <= h[j].protocol
    ensures Run(BucketAlgebra(), n, events).ledger <= |h| && LimitedAt(h, Run(BucketAlgebra(), n, events))
  {
    if events == [] {
    } else {
      var front, last := events[..|events| - 1], events[|events| - 1];
      ClosingFront(h, events);
      assert Run(BucketAlgebra(), n, events) == Step(BucketAlgebra(), Run(BucketAlgebra(), n, front), last);
      hide Regime, Inv, LimitedAt, Step, Run, Closes, BucketAlgebra;
      RunCovered(h, good, n, front);
      RunLimited(h, good, n, front);
      StepLimited(h, good, Run(BucketAlgebra(), n, front), last);
    }
  }

  lemma ResolveLimited(levels: Levels<Bucket>, ready: set<nat>, protocol: nat)
    requires Limited(levels, protocol)
    ensures Limited(Resolve(BucketAlgebra(), levels, ready), protocol)
  {
    hide Merged;
  }

  lemma NothingPending(good: (nat, nat, nat, nat, Bucket) -> bool, s: State<Bucket>, stored: set<nat>)
    requires Laws(BucketAlgebra(), good, |s.levels|) && Inv(BucketAlgebra(), good, s) && s.ledger == 0
    ensures Limited(Recovered(BucketAlgebra(), s, stored), 0)
  {
    hide Inv, Recovered, Laws, Merged, LevelHalf;
    var r := Recovered(BucketAlgebra(), s, stored);
    LevelZeroIdle(good, s);
    forall i | 0 <= i < |r| ensures r[i].next.Clear? {
      RestartRecovers(BucketAlgebra(), good, s, stored, i);
      if i > 0 {
        ClearOnlyBefore(BucketAlgebra(), good, s, i);
      }
    }
  }
}
