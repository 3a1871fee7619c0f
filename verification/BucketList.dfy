/**
  `BucketLevel` and `BucketList` as objects that update their fields in place,
  proved against the state machine.
 */
module BucketList {
  import opened Entries
  import opened Merge
  import opened MergeTheorems
  import opened Schedule
  import opened Machine
  import opened History
  import opened Database

  ghost predicate SortedBuckets(s: seq<Bucket>) {
    forall j :: 0 <= j < |s| ==> Sorted(s[j].entries)
  }

  ghost predicate SortedNext(next: Next<Bucket>) {
    match next
    case Clear => true
    case Merging(curr, snap, shadows, _) => Sorted(curr.entries) && Sorted(snap.entries) && SortedBuckets(shadows)
    case Output(bucket) => Sorted(bucket.entries)
  }

  ghost predicate SortedLevel(level: Level<Bucket>) {
    Sorted(level.curr.entries) && Sorted(level.snap.entries) && SortedNext(level.next)
  }

  /** Whether the merge of level `i`, if one is pending, would succeed. */
  ghost predicate Completes(n: nat, i: nat, next: Next<Bucket>) {
    next.Merging? ==> MergeBuckets(next.maxVersion, next.curr, next.snap, next.shadows, KeepDeadEntries(n, i)).Success?
  }

  lemma MergedValue(maxVersion: nat, o: Bucket, n: Bucket, shadows: seq<Bucket>, keepDead: bool)
    requires MergeBuckets(maxVersion, o, n, shadows, keepDead).Success?
    requires Sorted(o.entries) && Sorted(n.entries)
    ensures MergeBuckets(maxVersion, o, n, shadows, keepDead).value == Merged(keepDead, o, n, shadows)
    ensures Sorted(Merged(keepDead, o, n, shadows).entries)
  {
    hide MergeEntries, MergeVersion;
    var v := MergeVersion(o.Version(), n.Version(), shadows);
    MergeSorted(Rules(v, v >= FIRST_PROTOCOL_SUPPORTING_INITENTRY_AND_METAENTRY, keepDead), EntriesOf(shadows),
                o.entries, n.entries);
  }

  /** Merges of a snap from protocol 12 on take no shadows. */
  function ShadowsBasedOnProtocol(snap: Bucket, shadows: seq<Bucket>): seq<Bucket> {
    if snap.Version() >= FIRST_PROTOCOL_SHADOWS_REMOVED then [] else shadows
  }

  class BucketLevel {
    const level: nat
    var curr: Bucket
    var snap: Bucket
    var next: Next<Bucket>

    constructor (level: nat)
      ensures this.level == level && Value() == Level(EMPTY, EMPTY, Clear)
    {
      this.level := level;
      curr, snap, next := EMPTY, EMPTY, Clear;
    }

    ghost function Value(): Level<Bucket>
      reads this
    {
      Level(curr, snap, next)
    }

    ghost predicate Valid()
      reads this
    {
      SortedLevel(Value())
    }

    /** `FutureBucket::resolve`: wait for the merge, which runs when it likes but on recorded inputs. */
    method ResolveNext(n: nat) returns (r: Result<Bucket>)
      requires Valid() && !next.Clear?
      modifies `next
      ensures r.Success? <==> Completes(n, level, old(next))
      ensures r.Success? ==> r.value == Resolved(BucketAlgebra(), n, level, old(next))
      ensures r.Success? ==> Valid() && next == Output(r.value)
    {
      if next.Output? {
        return Success(next.bucket);
      }
      r := MergeFiles(next.maxVersion, next.curr, next.snap, next.shadows, KeepDeadEntries(n, level));
      if r.Success? {
        MergedValue(next.maxVersion, next.curr, next.snap, next.shadows, KeepDeadEntries(n, level));
        next := Output(r.value);
      }
    }

    /** Promote the pending merge, if there is one, to curr. */
    method Commit(n: nat) returns (r: Result<bool>)
      requires Valid()
      modifies `curr, `next
      ensures r.Success? <==> Completes(n, level, old(next))
      ensures r.Success? ==> Valid() && next == Clear
      ensures r.Success? ==> curr == if old(next).Clear? then old(curr) else Resolved(BucketAlgebra(), n, level, old(next))
    {
      if !next.Clear? {
        var output :- ResolveNext(n);
        next := Clear;
        curr := output;
      }
      return Success(true);
    }

    /** Start the merge for the next state of this level. */
    method Prepare(n: nat, ledger: nat, protocol: nat, newSnap: Bucket, shadows: seq<Bucket>)
      requires Valid() && Sorted(newSnap.entries) && SortedBuckets(shadows) && !next.Merging?
      modifies `next
      ensures Valid()
      ensures next == Merging(if ShouldMergeWithEmptyCurr(n, ledger, level) then EMPTY else curr, newSnap,
                              ShadowsBasedOnProtocol(newSnap, shadows), protocol)
    {
      var input := if ShouldMergeWithEmptyCurr(n, ledger, level) then EMPTY else curr;
      next := Merging(input, newSnap, ShadowsBasedOnProtocol(newSnap, shadows), protocol);
    }

    /** Turn curr into snap; the old snap has been merged into the next level by now. */
    method Snap() returns (b: Bucket)
      requires Valid()
      modifies `curr, `snap
      ensures Valid()
      ensures curr == EMPTY && snap == old(curr) && b == snap
    {
      snap := curr;
      curr := EMPTY;
      return snap;
    }
  }

  class BucketList {
    const levels: seq<BucketLevel>

    ghost predicate Valid()
      reads this, levels
    {
      && |levels| >= 2
      && (forall i :: 0 <= i < |levels| ==> levels[i].level == i && levels[i].Valid())
    }

    ghost function Value(): (v: Levels<Bucket>)
      reads levels
      ensures |v| == |levels|
      ensures forall i :: 0 <= i < |v| ==> v[i] == levels[i].Value()
    {
      seq(|levels|, i requires 0 <= i < |levels| reads levels => levels[i].Value())
    }

    constructor (n: nat)
      requires n >= 2
      ensures Valid() && fresh(levels) && Value() == Initial(BucketAlgebra(), n)
    {
      var s: seq<BucketLevel> := [];
      while |s| < n
        invariant |s| <= n
        invariant forall i :: 0 <= i < |s| ==>
                    fresh(s[i]) && allocated(s[i]) && s[i].level == i && s[i].Value() == Level(EMPTY, EMPTY, Clear)
      {
        var l := new BucketLevel(|s|);
        s := s + [l];
      }
      levels := s;
    }

    /** The curr and snap of every level, youngest first. */
    method AllBuckets() returns (s: seq<Bucket>)
      requires Valid()
      ensures s == Younger(Value(), |levels|) && SortedBuckets(s)
    {
      s := [];
      for i := 0 to |levels|
        invariant s == Younger(Value(), i) && SortedBuckets(s)
      {
        s := s + [levels[i].curr, levels[i].snap];
      }
    }

    /** One round of the loop in `addBatch`: level `i - 1` spills into level `i`. */
    method SpillInto(i: nat, ledger: nat, protocol: nat, shadows: seq<Bucket>) returns (r: Result<bool>)
      requires Valid() && 0 < i < |levels| && SortedBuckets(shadows)
      modifies levels[i - 1], levels[i]
      ensures r.Success? <==> Completes(|levels|, i, old(levels[i].next))
      ensures r.Success? ==> Valid() && Value() == SpillAt(old(Value()), i, ledger, protocol, shadows)
    {
      hide SpillAt, SortedLevel, SortedBuckets, Sorted, Completes, ShouldMergeWithEmptyCurr, Merged;
      ghost var was := Value();
      var newSnap := levels[i - 1].Snap();
      SortedSnap(levels[i - 1].Value());
      var _ :- levels[i].Commit(|levels|);
      levels[i].Prepare(|levels|, ledger, protocol, newSnap, shadows);
      SpillAtIs(was, Value(), i, ledger, protocol, shadows);
      return Success(true);
    }

    /** The loop of `addBatch`, from the oldest level down; every round takes two buckets off the shadows. */
    method SpillLevels(ledger: nat, protocol: nat, allShadows: seq<Bucket>, ghost batch: Bucket) returns (r: Result<bool>)
      requires Valid() && allShadows == Younger(Value(), |levels| - 1) && SortedBuckets(allShadows)
      modifies levels
      ensures r.Success? <==> AllDueComplete(old(Value()), ledger, 0)
      ensures r.Success? ==> Valid() && Value() == Downto(old(Value()), ledger, protocol, batch, 0)
    {
      hide Completes, LevelShouldSpill, SortedLevel, Younger, SortedBuckets, Downto, SpillAt, DueCompletes;
      hide AllDueComplete, BucketAlgebra;
      ghost var was := Value();
      var n := |levels|;
      var i := n - 1;
      var shadows := allShadows;
      DowntoStart(was, ledger, protocol, batch);
      NoneAbove(was, ledger);
      while i != 0
        invariant 0 <= i < n && Valid() && Value() == Downto(was, ledger, protocol, batch, i)
        invariant shadows == Younger(was, i) && SortedBuckets(shadows)
        invariant AllDueComplete(was, ledger, i)
      {
        YoungerPop(was, i);
        ShadowsPop(shadows);
        shadows := shadows[..|shadows| - 2];
        DowntoSteps(was, ledger, protocol, batch, i);
        if LevelShouldSpill(n, ledger, i - 1) {
          r := SpillInto(i, ledger, protocol, shadows);
          if r.Failure? {
            OneFails(was, ledger, i);
            return;
          }
        }
        OneMoreCompletes(was, ledger, i);
        i := i - 1;
      }
      return Success(true);
    }

    method AddBatch(ledger: nat, protocol: nat, batch: Bucket) returns (r: Result<bool>)
      requires Valid() && Sorted(batch.entries) && ledger > 0 && !levels[0].next.Merging?
      modifies levels
      ensures r.Success? <==> MergesComplete(old(Value()), ledger, protocol, batch)
      ensures r.Success? ==> Valid() && Value() == Machine.AddBatch(BucketAlgebra(), old(Value()), ledger, protocol, batch)
    {
      hide LevelShouldSpill, SortedLevel, MergeBuckets, Merged, Younger;
      ghost var was := Value();
      var shadows := AllBuckets();
      YoungerPop(was, |levels|);
      shadows := shadows[..|shadows| - 2];
      var _ :- SpillLevels(ledger, protocol, shadows, batch);
      levels[0].Prepare(|levels|, ledger, protocol, batch, []);
      r := levels[0].Commit(|levels|);
    }

    /** Resolve the merges of the levels in `ready`, which have finished in the background; one that threw throws here. */
    method ResolveAnyReadyFutures(ready: set<nat>) returns (r: Result<bool>)
      requires Valid()
      modifies levels
      ensures r.Success? <==> forall i :: 0 <= i < |levels| && i in ready ==> Completes(|levels|, i, old(Value())[i].next)
      ensures r.Success? ==> Valid() && Value() == Resolve(BucketAlgebra(), old(Value()), ready)
    {
      hide SortedLevel, MergeBuckets, Merged, Completes, Sorted, BucketAlgebra;
      ghost var was := Value();
      ghost var goal := Resolve(BucketAlgebra(), was, ready);
      for i := 0 to |levels|
        invariant Valid()
        invariant forall j :: 0 <= j < i ==> levels[j].Value() == goal[j]
        invariant forall j :: 0 <= j < i && j in ready ==> Completes(|levels|, j, was[j].next)
        invariant forall j :: i <= j < |levels| ==> levels[j].Value() == was[j]
      {
        if levels[i].next.Merging? && i in ready {
          var output := levels[i].ResolveNext(|levels|);
          if output.Failure? {
            assert !Completes(|levels|, i, was[i].next);
            return Failure(output.error);
          }
        } else {
          IdleCompletes(|levels|, i, was[i].next);
        }
      }
      return Success(true);
    }

    /** `restartMerges`: stored merges run on as recorded, lost ones start again; fails on a snap of a protocol with shadows. */
    method RestartMerges(ledger: nat) returns (ok: bool)
      requires Valid()
      modifies levels
      ensures Valid()
      ensures ok ==> Value() == RestartFrom(BucketAlgebra(), old(Value()), ledger, 0)
      ensures ok <==> !Clogged(old(Value()))
    {
      hide ShouldMergeWithEmptyCurr, LevelHalf, Sorted, SortedLevel, SortedBuckets, RestartFrom, BucketAlgebra, Merged, Mask;
      hide Clogged, NeverReached, Unrecoverable;
      ghost var was := Value();
      ghost var alg := BucketAlgebra();
      ghost var goal := RestartFrom(alg, was, ledger, 0);
      for i := 0 to |levels|
        invariant Valid()
        invariant forall j :: 0 <= j < |levels| ==> levels[j].snap == was[j].snap
        invariant forall j :: i <= j < |levels| ==> levels[j].next == was[j].next
        invariant RestartFrom(alg, Value(), ledger, i) == goal
        invariant forall j :: 0 < j < i ==> !Unrecoverable(was, j) && !NeverReached(was, j)
        invariant i > 0 ==> levels[i - 1].snap == was[i - 1].snap
      {
        RestartUnfolds(Value(), ledger, i);
        if levels[i].next.Clear? && i > 0 {
          var newSnap := levels[i - 1].snap;
          if newSnap == EMPTY {
            EarlyReturn(was, i);
            return true;
          }
          var version := newSnap.Version();
          if version < FIRST_PROTOCOL_SHADOWS_REMOVED {
            Blocked(was, i);
            return false;
          }
          var mergeStartLedger := Mask(ledger, LevelHalf(i - 1));
          ghost var before := Value();
          SortedSnap(levels[i - 1].Value());
          NoShadowsSorted();
          levels[i].Prepare(|levels|, mergeStartLedger, version, newSnap, []);
          assert Value() == before[i := levels[i].Value()];
        }
        PastLevel(was, i);
      }
      RestartUnfolds(Value(), ledger, |levels|);
      NeverClogged(was);
      return true;
    }
  }

  /** Touched, but written under a protocol that still had shadows. */
  predicate OldSnap(b: Bucket) {
    b != EMPTY && b.Version() < FIRST_PROTOCOL_SHADOWS_REMOVED
  }

  /** Where `restartMerges` stops: nothing has reached this level yet. */
  predicate NeverReached(levels: Levels<Bucket>, i: nat)
    requires 0 < i < |levels|
  {
    levels[i].next.Clear? && levels[i - 1].snap == EMPTY
  }

  /** The merge of level `i` is lost, and cannot be started again without its shadows. */
  predicate Unrecoverable(levels: Levels<Bucket>, i: nat)
    requires 0 < i < |levels|
  {
    levels[i].next.Clear? && OldSnap(levels[i - 1].snap)
  }

  /** `restartMerges` comes to such a level before it stops. */
  predicate Clogged(levels: Levels<Bucket>) {
    exists i :: 0 < i < |levels| && Unrecoverable(levels, i) && forall j :: 0 < j < i ==> !NeverReached(levels, j)
  }

  lemma EarlyReturn(levels: Levels<Bucket>, i: nat)
    requires 0 < i < |levels| && levels[i].next.Clear? && levels[i - 1].snap == EMPTY
    requires forall j :: 0 < j < i ==> !Unrecoverable(levels, j)
    ensures !Clogged(levels)
  {
    assert NeverReached(levels, i) && !Unrecoverable(levels, i);
  }

  lemma Blocked(levels: Levels<Bucket>, i: nat)
    requires 0 < i < |levels| && levels[i].next.Clear? && OldSnap(levels[i - 1].snap)
    requires forall j :: 0 < j < i ==> !NeverReached(levels, j)
    ensures Clogged(levels)
  {
    assert Unrecoverable(levels, i);
  }

  lemma PastLevel(levels: Levels<Bucket>, i: nat)
    requires i < |levels|
    ensures i > 0 && (levels[i].next.Clear? ==> levels[i - 1].snap != EMPTY && !OldSnap(levels[i - 1].snap)) ==>
              !Unrecoverable(levels, i) && !NeverReached(levels, i)
  {
  }

  lemma NeverClogged(levels: Levels<Bucket>)
    requires forall j :: 0 < j < |levels| ==> !Unrecoverable(levels, j)
    ensures !Clogged(levels)
  {
  }

  lemma ShadowsPop(s: seq<Bucket>)
    requires SortedBuckets(s) && |s| >= 2
    ensures SortedBuckets(s[..|s| - 2])
  {
    hide Sorted;
  }

  lemma YoungerPop(levels: Levels<Bucket>, j: nat)
    requires 0 < j <= |levels|
    ensures Younger(levels, j)[..2 * j - 2] == Younger(levels, j - 1)
  {
  }

  lemma RestartUnfolds(levels: Levels<Bucket>, ledger: nat, i: nat)
    ensures var r := RestartFrom(BucketAlgebra(), levels, ledger, i);
            if i >= |levels| then r == levels
            else if levels[i].next.Clear? && i > 0 then
              var snap := levels[i - 1].snap;
              if snap == EMPTY then r == levels
              else
                var mergeStartLedger := Mask(ledger, LevelHalf(i - 1));
                var curr := if ShouldMergeWithEmptyCurr(|levels|, mergeStartLedger, i) then EMPTY else levels[i].curr;
                r == RestartFrom(BucketAlgebra(), levels[i := levels[i].(next := Merging(curr, snap, [], snap.Version()))],
                                 ledger, i + 1)
            else r == RestartFrom(BucketAlgebra(), levels, ledger, i + 1)
  {
    hide ShouldMergeWithEmptyCurr, LevelHalf, Merged;
  }

  lemma IdleCompletes(n: nat, i: nat, next: Next<Bucket>)
    ensures !next.Merging? ==> Completes(n, i, next)
  {
  }

  lemma LastNeverSpills(n: nat, ledger: nat)
    requires n > 0
    ensures !LevelShouldSpill(n, ledger, n - 1)
  {
  }

  /** One round: level `i - 1` gives up its curr, and level `i` takes it in. */
  function SpillAt(levels: Levels<Bucket>, i: nat, ledger: nat, protocol: nat, shadows: seq<Bucket>): Levels<Bucket>
    requires 0 < i < |levels|
  {
    var from := levels[i - 1];
    levels[i - 1 := from.(curr := EMPTY, snap := from.curr)]
          [i := CommittedAndPrepared(|levels|, i, ledger, protocol, levels[i], from.curr, shadows)]
  }

  lemma SpillAtIs(was: Levels<Bucket>, now: Levels<Bucket>, i: nat, ledger: nat, protocol: nat, shadows: seq<Bucket>)
    requires 0 < i < |was| == |now| && now[i - 1] == was[i - 1].(curr := EMPTY, snap := was[i - 1].curr)
    requires now[i] == CommittedAndPrepared(|was|, i, ledger, protocol, was[i], was[i - 1].curr, shadows)
    requires forall j :: 0 <= j < |was| && j != i && j != i - 1 ==> now[j] == was[j]
    ensures now == SpillAt(was, i, ledger, protocol, shadows)
  {
    hide CommittedAndPrepared;
  }

  lemma NoShadowsSorted()
    ensures SortedBuckets([])
  {
  }

  lemma SortedSnap(level: Level<Bucket>)
    requires SortedLevel(level)
    ensures Sorted(level.snap.entries)
  {
  }

  /** The loop of `addBatch` when it has come down to level `i`. */
  function Downto(was: Levels<Bucket>, ledger: nat, protocol: nat, batch: Bucket, i: nat): (r: Levels<Bucket>)
    requires i < |was|
    ensures |r| == |was|
    ensures forall j :: 0 <= j < i ==> r[j] == was[j]
    ensures r[i] == Spilled(was, ledger, i)
    ensures forall j :: i < j < |was| ==> r[j] == StepLevel(BucketAlgebra(), was, ledger, protocol, batch, j)
  {
    was[..i] + [Spilled(was, ledger, i)] + Machine.AddBatch(BucketAlgebra(), was, ledger, protocol, batch)[i + 1..]
  }

  lemma DowntoStart(was: Levels<Bucket>, ledger: nat, protocol: nat, batch: Bucket)
    requires was != []
    ensures Downto(was, ledger, protocol, batch, |was| - 1) == was
  {
    hide LevelShouldSpill, Downto;
    LastNeverSpills(|was|, ledger);
  }

  /** A round of the loop is one spill, if the level below spills, and nothing otherwise. */
  lemma DowntoSteps(was: Levels<Bucket>, ledger: nat, protocol: nat, batch: Bucket, i: nat)
    requires 0 < i < |was|
    ensures var now, next := Downto(was, ledger, protocol, batch, i), Downto(was, ledger, protocol, batch, i - 1);
            && (LevelShouldSpill(|was|, ledger, i - 1) ==> next == SpillAt(now, i, ledger, protocol, Younger(was, i - 1)))
            && (!LevelShouldSpill(|was|, ledger, i - 1) ==> next == now)
            && (DueCompletes(was, ledger, i) <==>
                  LevelShouldSpill(|was|, ledger, i - 1) ==> Completes(|was|, i, now[i].next))
  {
    hide LevelShouldSpill, StepLevel, Downto, CommittedAndPrepared, Completes;
    StepIsSpill(was, ledger, protocol, batch, i);
  }

  lemma StepIsSpill(was: Levels<Bucket>, ledger: nat, protocol: nat, batch: Bucket, i: nat)
    requires 0 < i < |was|
    ensures StepLevel(BucketAlgebra(), was, ledger, protocol, batch, i)
         == if LevelShouldSpill(|was|, ledger, i - 1)
            then CommittedAndPrepared(|was|, i, ledger, protocol, Spilled(was, ledger, i), was[i - 1].curr, Younger(was, i - 1))
            else Spilled(was, ledger, i)
  {
    hide LevelShouldSpill, ShouldMergeWithEmptyCurr, Younger;
  }

  /** Level `i` after its own spill, if this ledger is one. */
  function Spilled(levels: Levels<Bucket>, ledger: nat, i: nat): Level<Bucket>
    requires i < |levels|
  {
    if LevelShouldSpill(|levels|, ledger, i) then levels[i].(curr := EMPTY, snap := levels[i].curr) else levels[i]
  }

  function CommittedAndPrepared(n: nat, i: nat, ledger: nat, protocol: nat, level: Level<Bucket>, snap: Bucket,
                                shadows: seq<Bucket>): Level<Bucket> {
    var committed := if level.next.Clear? then level.curr else Resolved(BucketAlgebra(), n, i, level.next);
    var input := if ShouldMergeWithEmptyCurr(n, ledger, i) then EMPTY else committed;
    Level(committed, level.snap, Merging(input, snap, ShadowsBasedOnProtocol(snap, shadows), protocol))
  }

  ghost predicate DueCompletes(levels: Levels<Bucket>, ledger: nat, i: nat)
    requires 0 < i < |levels|
  {
    LevelShouldSpill(|levels|, ledger, i - 1) ==> Completes(|levels|, i, levels[i].next)
  }

  /** Every merge above level `i` that is due in this ledger succeeds. */
  ghost predicate AllDueComplete(levels: Levels<Bucket>, ledger: nat, i: nat) {
    forall j :: i < j < |levels| ==> DueCompletes(levels, ledger, j)
  }

  lemma NoneAbove(levels: Levels<Bucket>, ledger: nat)
    requires levels != []
    ensures AllDueComplete(levels, ledger, |levels| - 1)
  {
  }

  lemma OneMoreCompletes(levels: Levels<Bucket>, ledger: nat, i: nat)
    requires 0 < i < |levels| && AllDueComplete(levels, ledger, i) && DueCompletes(levels, ledger, i)
    ensures AllDueComplete(levels, ledger, i - 1)
  {
    hide DueCompletes;
  }

  lemma OneFails(levels: Levels<Bucket>, ledger: nat, i: nat)
    requires 0 < i < |levels| && !DueCompletes(levels, ledger, i)
    ensures !AllDueComplete(levels, ledger, 0)
  {
    hide DueCompletes;
  }

  /** Every merge that closing this ledger waits for succeeds. */
  ghost predicate MergesComplete(levels: Levels<Bucket>, ledger: nat, protocol: nat, batch: Bucket) {
    && |levels| >= 2
    && AllDueComplete(levels, ledger, 0)
    && MergeBuckets(protocol, Spilled(levels, ledger, 0).curr, batch, [], KeepDeadEntries(|levels|, 0)).Success?
  }

  lemma LevelZeroCompletes(h: seq<Batch>, good: (nat, nat, nat, nat, Bucket) -> bool, s: State<Bucket>)
    requires Regime(h, good, |s.levels|) && s.ledger < |h| && Inv(BucketAlgebra(), good, s)
    ensures MergeBuckets(h[s.ledger].protocol, Spilled(s.levels, s.ledger + 1, 0).curr, BatchBucket(h[s.ledger]), [],
                         KeepDeadEntries(|s.levels|, 0)).Success?
  {
    var n := |s.levels|;
    hide Regime, Inv, MergeBuckets, SnapTop, CurrTop, BatchBucket, Laws, LevelShouldSpill, Covered, BucketAlgebra;
    InvParts(good, s);
    RegimeParts(h, good, n, s.ledger);
    AfterSpillCovered(BucketAlgebra(), good, s.levels, s.ledger, 0);
    LevelZeroBounds(n, s.ledger);
    BatchMerges(h, good, n, SnapTop(n, s.ledger + 1, 0), s.ledger, AfterSpill(BucketAlgebra(), s.levels, s.ledger + 1, 0));
    SpilledCurr(s.levels, s.ledger + 1);
  }

  lemma InvParts(good: (nat, nat, nat, nat, Bucket) -> bool, s: State<Bucket>)
    requires Inv(BucketAlgebra(), good, s)
    ensures |s.levels| >= 2 && Covered(good, s.levels, s.ledger)
  {
    hide Covered, PendingCovered, NextOk;
  }

  lemma SpilledCurr(levels: Levels<Bucket>, ledger: nat)
    requires |levels| >= 2
    ensures Spilled(levels, ledger, 0).curr == AfterSpill(BucketAlgebra(), levels, ledger, 0)
  {
    hide LevelShouldSpill;
  }

  lemma BatchMerges(h: seq<Batch>, good: (nat, nat, nat, nat, Bucket) -> bool, n: nat, a: nat, ledger: nat, curr: Bucket)
    requires n >= 2 && Regime(h, good, n) && a <= ledger < |h| && good(0, ledger + 1, a, ledger, curr)
    requires good(0, ledger + 1, ledger, ledger + 1, BatchBucket(h[ledger]))
    ensures MergeBuckets(h[ledger].protocol, curr, BatchBucket(h[ledger]), [], true).Success?
  {
    hide Regime, MergeBuckets, BatchBucket, Merged, Succeeds, MergeVersion;
    var now, batch := ledger + 1, BatchBucket(h[ledger]);
    VersionBound(h, good, n, 0, now, a, ledger, curr, ledger);
    VersionBound(h, good, n, 0, now, ledger, now, batch, ledger);
    VersionWithin(curr.Version(), batch.Version(), [], h[ledger].protocol);
    LevelZeroSucceeds(h, good, n, now, a, ledger, now, curr, batch);
    MergedUnder(h[ledger].protocol, true, curr, batch, []);
  }

  lemma LevelZeroSucceeds(h: seq<Batch>, good: (nat, nat, nat, nat, Bucket) -> bool, n: nat, l: nat,
                          a: nat, b: nat, c: nat, x: Bucket, y: Bucket)
    requires n >= 2 && Regime(h, good, n) && good(0, l, a, b, x) && good(0, l, b, c, y) && a <= b < c <= l
    ensures Succeeds(true, x, y, [])
  {
    hide Laws, Versioned, Batched, Succeeds;
    assert Mergeable(BucketAlgebra(), good, n, 0, l, a, b, c, x, y, []);
  }

  /** Along a legal history, under any protocols, closing the next ledger never meets a merge that throws. */
  lemma ClosingNeverFails(h: seq<Batch>, n: nat, events: seq<Event<Bucket>>)
    requires n >= 2 && LegalHistory(h, n) && Closing(h, events) && |Closes(events)| < |h|
    ensures var s := Run(BucketAlgebra(), n, events);
            && s.ledger == |Closes(events)|
            && MergesComplete(s.levels, s.ledger + 1, h[s.ledger].protocol, BatchBucket(h[s.ledger]))
  {
    var s, good := Run(BucketAlgebra(), n, events), StandingAt(h, n);
    hide LegalHistory, Regime, Inv, MergeBuckets, LevelShouldSpill, Run, BatchBucket, Spilled;
    StandingRegime(h, n);
    RunCovered(h, good, n, events);
    LevelZeroCompletes(h, good, s);
    var now := s.ledger + 1;
    forall i | 0 < i < n ensures DueCompletes(s.levels, now, i) {
      PendingMergesSucceed(h, good, n, events, i);
    }
  }

  /** After a crash in any run, whichever merges were stored, a restart meets no merge it cannot start again. */
  lemma RestartNeverFails(n: nat, events: seq<Event<Bucket>>, stored: set<nat>, i: nat)
    requires n >= 2 && 0 < i < n
    ensures |Run(BucketAlgebra(), n, events).levels| == n
    ensures !Unrecoverable(Crashed(BucketAlgebra(), Run(BucketAlgebra(), n, events).levels, stored), i)
  {
    hide Run;
    CrashedLevels(n, events, stored, i);
  }
}
