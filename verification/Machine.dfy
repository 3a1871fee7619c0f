/**
  The bucket list as a state machine, for buckets of any kind.

  The schedule of `BucketList::addBatch` never looks inside a bucket: it only
  uses the empty bucket, merges, and (on restart) a bucket's version.  The
  machine is therefore written over an `Algebra` of buckets, and what it keeps
  is proved once for all of them.
 */
module Machine {
  import Bits
  import opened Schedule

  /**
    `shadowless(x)`: merges of the snap `x` take no shadows, and are not stored
    across a crash, because they can be started again from the list itself.
   */
  datatype Algebra<!B> = Algebra(empty: B, merge: (bool, B, B, seq<B>) -> B, version: B -> nat, shadowless: B -> bool)

  /** `FutureBucket`: clear, merging recorded inputs, or resolved to an output. */
  datatype Next<B> =
    | Clear
    | Merging(curr: B, snap: B, shadows: seq<B>, maxVersion: nat)
    | Output(bucket: B)

  datatype Level<B> = Level(curr: B, snap: B, next: Next<B>)

  type Levels<B> = seq<Level<B>>

  function Resolved<B>(alg: Algebra<B>, n: nat, i: nat, next: Next<B>): B {
    match next
    case Clear => alg.empty
    case Merging(curr, snap, shadows, _) => alg.merge(KeepDeadEntries(n, i), curr, snap, shadows)
    case Output(bucket) => bucket
  }

  function Initial<B>(alg: Algebra<B>, n: nat): Levels<B> {
    seq(n, _ => Level(alg.empty, alg.empty, Clear))
  }

  // ---- `addBatch`

  /** The curr and snap of the first `j` levels, youngest first. */
  function Younger<B>(levels: Levels<B>, j: nat): (s: seq<B>)
    requires j <= |levels|
    ensures |s| == 2 * j
    ensures forall m :: 0 <= m < j ==> s[2 * m] == levels[m].curr && s[2 * m + 1] == levels[m].snap
  {
    if j == 0 then [] else Younger(levels, j - 1) + [levels[j - 1].curr, levels[j - 1].snap]
  }

  /** Level `i` is merged under the shadow of the levels from `i - 2` up. */
  function ShadowsFor<B>(alg: Algebra<B>, levels: Levels<B>, i: nat, snap: B): seq<B>
    requires 0 < i < |levels|
  {
    if alg.shadowless(snap) then [] else Younger(levels, i - 1)
  }

  /** What `addBatch` leaves in level `i`. */
  function StepLevel<B>(alg: Algebra<B>, levels: Levels<B>, ledger: nat, protocol: nat, batch: B, i: nat): Level<B>
    requires i < |levels|
  {
    var n := |levels|;
    var was := levels[i];
    var spills := LevelShouldSpill(n, ledger, i);
    var curr := if spills then alg.empty else was.curr;
    var snap := if spills then was.curr else was.snap;
    if i == 0 then
      Level(alg.merge(KeepDeadEntries(n, 0), curr, batch, []), snap, Clear)
    else if LevelShouldSpill(n, ledger, i - 1) then
      var committed := if was.next.Clear? then curr else Resolved(alg, n, i, was.next);
      var input := if ShouldMergeWithEmptyCurr(n, ledger, i) then alg.empty else committed;
      var newSnap := levels[i - 1].curr;
      Level(committed, snap, Merging(input, newSnap, ShadowsFor(alg, levels, i, newSnap), protocol))
    else
      Level(curr, snap, was.next)
  }

  function AddBatch<B>(alg: Algebra<B>, levels: Levels<B>, ledger: nat, protocol: nat, batch: B): (r: Levels<B>)
    ensures |r| == |levels|
    ensures forall i :: 0 <= i < |r| ==> r[i] == StepLevel(alg, levels, ledger, protocol, batch, i)
  {
    seq(|levels|, i requires 0 <= i < |levels| => StepLevel(alg, levels, ledger, protocol, batch, i))
  }

  // ---- Background completion

  /** `resolveAnyReadyFutures`, when the merges of the levels in `ready` have completed. */
  function Resolve<B>(alg: Algebra<B>, levels: Levels<B>, ready: set<nat>): (r: Levels<B>)
    ensures |r| == |levels|
    ensures forall i :: 0 <= i < |r| ==> r[i].curr == levels[i].curr && r[i].snap == levels[i].snap
    ensures forall i :: 0 <= i < |r| ==>
              && (r[i].next.Clear? <==> levels[i].next.Clear?)
              && Resolved(alg, |r|, i, r[i].next) == Resolved(alg, |r|, i, levels[i].next)
              && (r[i].next == levels[i].next ||
                    (levels[i].next.Merging? && r[i].next == Output(Resolved(alg, |r|, i, levels[i].next))))
    ensures forall i :: 0 <= i < |r| ==> (r[i].next.Merging? <==> levels[i].next.Merging? && i !in ready)
  {
    seq(|levels|, i requires 0 <= i < |levels| =>
      if i in ready && levels[i].next.Merging? then
        levels[i].(next := Output(Resolved(alg, |levels|, i, levels[i].next)))
      else levels[i])
  }

  // ---- Crash and restart

  /** A crash loses merges without shadows unless they are stored; others are always stored. */
  predicate Lost<B>(alg: Algebra<B>, levels: Levels<B>, stored: set<nat>, i: nat)
    requires i < |levels|
  {
    i !in stored && (i > 0 ==> alg.shadowless(levels[i - 1].snap))
  }

  /** What survives a crash: the buckets, and the inputs or outputs of stored merges. */
  function Crashed<B>(alg: Algebra<B>, levels: Levels<B>, stored: set<nat>): (r: Levels<B>)
    ensures |r| == |levels|
    ensures forall i :: 0 <= i < |r| ==> r[i] == if Lost(alg, levels, stored, i) then levels[i].(next := Clear) else levels[i]
  {
    seq(|levels|, i requires 0 <= i < |levels| =>
      if Lost(alg, levels, stored, i) then levels[i].(next := Clear) else levels[i])
  }

  /** `restartMerges` from level `i` on; an untouched snap ends it. */
  function RestartFrom<B(==)>(alg: Algebra<B>, levels: Levels<B>, ledger: nat, i: nat): (r: Levels<B>)
    ensures |r| == |levels|
    decreases |levels| - i
  {
    if i >= |levels| then levels
    else if levels[i].next.Clear? && i > 0 then
      var snap := levels[i - 1].snap;
      if snap == alg.empty then levels
      else
        var mergeStartLedger := Mask(ledger, LevelHalf(i - 1));
        var curr := if ShouldMergeWithEmptyCurr(|levels|, mergeStartLedger, i) then alg.empty else levels[i].curr;
        RestartFrom(alg, levels[i := levels[i].(next := Merging(curr, snap, [], alg.version(snap)))], ledger, i + 1)
    else RestartFrom(alg, levels, ledger, i + 1)
  }

  function Recovered<B(==)>(alg: Algebra<B>, s: State<B>, stored: set<nat>): (r: Levels<B>)
    ensures |r| == |s.levels|
  {
    RestartFrom(alg, Crashed(alg, s.levels, stored), s.ledger, 0)
  }

  // ---- Runs

  datatype Event<B> =
    | Close(protocol: nat, batch: B)
    | Complete(ready: set<nat>)
    | Restart(stored: set<nat>)

  datatype State<B> = State(ledger: nat, levels: Levels<B>)

  function Step<B(==)>(alg: Algebra<B>, s: State<B>, e: Event<B>): State<B> {
    match e
    case Close(protocol, batch) =>
      State(s.ledger + 1, AddBatch(alg, s.levels, s.ledger + 1, protocol, batch))
    case Complete(ready) =>
      s.(levels := Resolve(alg, s.levels, ready))
    case Restart(stored) =>
      s.(levels := Recovered(alg, s, stored))
  }

  function Run<B(==)>(alg: Algebra<B>, n: nat, events: seq<Event<B>>): State<B> {
    if events == [] then State(0, Initial(alg, n))
    else Step(alg, Run(alg, n, events[..|events| - 1]), events[|events| - 1])
  }

  // ---- The invariant

  /** The curr that the merge pending at level `i` was, or would be, started with. */
  function PendingCurr<B>(alg: Algebra<B>, levels: Levels<B>, ledger: nat, i: nat): B
    requires 0 < i < |levels|
  {
    if ShouldMergeWithEmptyCurr(|levels|, ledger, i) then alg.empty else levels[i].curr
  }

  /** Inputs of the pending merge do not change until the level below spills. */
  ghost predicate NextOk<B>(alg: Algebra<B>, levels: Levels<B>, ledger: nat, i: nat)
    requires 0 < i < |levels|
  {
    var n, next := |levels|, levels[i].next;
    var curr, snap := PendingCurr(alg, levels, ledger, i), levels[i - 1].snap;
    && (next.Clear? <==> ledger < LevelHalf(i - 1))
    && (next.Merging? ==> next.curr == curr && next.snap == snap)
    && (!next.Clear? && alg.shadowless(snap) ==>
          Resolved(alg, n, i, next) == alg.merge(KeepDeadEntries(n, i), curr, snap, []))
  }

  ghost predicate Pending<B>(alg: Algebra<B>, levels: Levels<B>, ledger: nat) {
    && |levels| >= 2
    && levels[0].next.Clear?
    && forall i :: 0 < i < |levels| ==> NextOk(alg, levels, ledger, i)
  }

  /** `good(i, l, a, b, x)`: at ledger `l` bucket `x` of level `i` may stand for ledgers `a + 1` to `b`. */
  ghost predicate Covered<B>(good: (nat, nat, nat, nat, B) -> bool, levels: Levels<B>, ledger: nat) {
    forall i :: 0 <= i < |levels| ==> LevelCovered(good, levels[i], |levels|, ledger, i)
  }

  ghost predicate LevelCovered<B>(good: (nat, nat, nat, nat, B) -> bool, level: Level<B>, n: nat, ledger: nat, i: nat) {
    && good(i, ledger, SnapTop(n, ledger, i), CurrTop(n, ledger, i), level.curr)
    && good(i, ledger, CurrTop(n, ledger, i + 1), SnapTop(n, ledger, i), level.snap)
  }

  /** Where the interval of the merge pending at level `i` begins; it ends with the snap of the level below. */
  function PendingFrom(n: nat, ledger: nat, i: nat): nat {
    if ShouldMergeWithEmptyCurr(n, ledger, i) then CurrTop(n, ledger, i) else SnapTop(n, ledger, i)
  }

  /** The pending merge is of neighbours, or its output already stands for the ledgers of both. */
  ghost predicate NextCovered<B>(alg: Algebra<B>, good: (nat, nat, nat, nat, B) -> bool, level: Level<B>, n: nat,
                                 ledger: nat, i: nat)
    requires 0 < i
  {
    var from, mid, to := PendingFrom(n, ledger, i), CurrTop(n, ledger, i), SnapTop(n, ledger, i - 1);
    match level.next
    case Clear => true
    case Merging(curr, snap, shadows, _) =>
      Mergeable(alg, good, n, i, ledger, from, mid, to, curr, snap, shadows)
    case Output(bucket) => good(i, ledger, from, to, bucket) && to <= ledger
  }

  ghost predicate PendingCovered<B>(alg: Algebra<B>, good: (nat, nat, nat, nat, B) -> bool, levels: Levels<B>, ledger: nat) {
    forall i :: 0 < i < |levels| ==> NextCovered(alg, good, levels[i], |levels|, ledger, i)
  }

  /** Curr and snap of level `j` when a level above it spills into the next at ledger `t`. */
  ghost predicate ShelterAt<B>(good: (nat, nat, nat, nat, B) -> bool, l: nat, t: nat, j: nat, curr: B, snap: B) {
    && Skew(j + 1) <= t
    && good(j, l, t - LevelHalf(j) - Skew(j), t - Skew(j), curr)
    && good(j, l, t - Skew(j + 1), t - LevelHalf(j) - Skew(j), snap)
  }

  /** The shadows of a merge at level `i` of buckets up to ledger `c`: they tile the ledgers after `c`. */
  ghost predicate Sheltered<B>(good: (nat, nat, nat, nat, B) -> bool, i: nat, l: nat, c: nat, shadows: seq<B>)
    requires i > 0
  {
    && |shadows| == 2 * (i - 1)
    && forall j :: 0 <= j < i - 1 ==> ShelterAt(good, l, c + Skew(i - 1), j, shadows[2 * j], shadows[2 * j + 1])
  }

  /** What `good` must satisfy for a list of `n` levels to keep it. */
  ghost predicate Laws<B(!new)>(alg: Algebra<B>, good: (nat, nat, nat, nat, B) -> bool, n: nat) {
    && !alg.shadowless(alg.empty)
    && (forall i, l, a, x :: good(i, l, a, a, x) <==> x == alg.empty)
    && (forall i, l, a, b, x {:trigger Later(good, i, l, a, b, x)} ::
          good(i, l, a, b, x) && b <= l ==> Later(good, i, l, a, b, x))
    && (forall i, l, a, b, c, x, y, shadows | Mergeable(alg, good, n, i, l, a, b, c, x, y, shadows) ::
          good(i, l, a, c, alg.merge(KeepDeadEntries(n, i), x, y, shadows)))
  }

  ghost predicate Later<B>(good: (nat, nat, nat, nat, B) -> bool, i: nat, l: nat, a: nat, b: nat, x: B) {
    good(i, l + 1, a, b, x)
  }

  /**
    A merge of neighbours as level `i` starts it: a whole snap of the level below, unless it is the
    first one, on top of what the level has; tombstones go only at the very start.
   */
  ghost predicate Mergeable<B>(alg: Algebra<B>, good: (nat, nat, nat, nat, B) -> bool, n: nat, i: nat, l: nat,
                               a: nat, b: nat, c: nat, x: B, y: B, shadows: seq<B>) {
    && i < n
    && good(i, l, a, b, x) && good(if i == 0 then 0 else i - 1, l, b, c, y)
    && a <= b < c <= l
    && (KeepDeadEntries(n, i) || a == 0)
    && (i > 0 ==> c + Skew(i - 1) <= l && (b == 0 || c - b == LevelHalf(i - 1)))
    && (if i == 0 || alg.shadowless(y) then shadows == [] else Sheltered(good, i, l, c, shadows))
  }

  ghost predicate Inv<B>(alg: Algebra<B>, good: (nat, nat, nat, nat, B) -> bool, s: State<B>) {
    && Pending(alg, s.levels, s.ledger)
    && Covered(good, s.levels, s.ledger)
    && PendingCovered(alg, good, s.levels, s.ledger)
  }

  // ---- Arithmetic of one step

  /** Boundaries of a level that does not take part in a ledger's spills stay where they are. */
  lemma BoundariesStay(n: nat, ledger: nat, i: nat)
    requires i + 1 < n && (ledger + 1) % LevelHalf(i) != 0
    ensures SnapTop(n, ledger + 1, i) == SnapTop(n, ledger, i)
    ensures CurrTop(n, ledger + 1, i + 1) == CurrTop(n, ledger, i + 1)
    ensures ShouldMergeWithEmptyCurr(n, ledger + 1, i + 1) == ShouldMergeWithEmptyCurr(n, ledger, i + 1)
    ensures !LevelShouldSpill(n, ledger + 1, i) && !LevelShouldSpill(n, ledger + 1, i + 1)
    ensures ledger < LevelHalf(i) <==> ledger + 1 < LevelHalf(i)
  {
    hide Mask, LevelHalf, LevelSize, LevelShouldSpill, Skew;
    var h := LevelHalf(i);
    MaskNext(ledger, h);
    SpillIffMultiple(n, ledger + 1, i);
    SpillIffMultiple(n, ledger + 1, i + 1);
    HalfQuadruples(i);
    MaskCoarser(ledger + 1, h, 4);
    if ledger + 1 == h {
      Bits.ModUnique(h, h, 1, 0);
    }
  }

  /** When level `i` spills: its snap takes over its curr, and level `i + 1` takes in its old snap. */
  lemma BoundariesMove(n: nat, ledger: nat, i: nat)
    requires i + 1 < n && (ledger + 1) % LevelHalf(i) == 0
    ensures LevelShouldSpill(n, ledger + 1, i)
    ensures SnapTop(n, ledger + 1, i) == CurrTop(n, ledger, i)
    ensures CurrTop(n, ledger + 1, i + 1) == SnapTop(n, ledger, i)
    ensures ShouldMergeWithEmptyCurr(n, ledger, i + 1) == LevelShouldSpill(n, ledger + 1, i + 1)
    ensures LevelHalf(i) <= ledger + 1
    ensures ledger < LevelHalf(i) ==> SnapTop(n, ledger, i) == 0
  {
    hide Mask, LevelHalf, LevelSize, LevelShouldSpill;
    var h := LevelHalf(i);
    MaskNext(ledger, h);
    SpillIffMultiple(n, ledger + 1, i);
    if i > 0 {
      HalfQuadruples(i - 1);
      MaskCoarser(ledger + 1, LevelHalf(i - 1), 4);
      MaskNext(ledger, LevelHalf(i - 1));
    } else {
      HalfQuadruples(0);
    }
    SkewBelowHalf(i);
  }

  // ---- Intervals

  lemma {:induction false} TopsDescend(n: nat, ledger: nat, i: nat, j: nat)
    requires i <= j <= n
    ensures CurrTop(n, ledger, j) <= CurrTop(n, ledger, i) <= ledger
    decreases j
  {
    if i < j {
      TopsDescend(n, ledger, i, j - 1);
      Descending(n, ledger, j - 1);
    } else if 0 < i {
      if i < n {
        MaskBounds(ledger, LevelHalf(i - 1));
      }
    }
  }

  /** A spilling level hands on a snap of at least one ledger. */
  lemma SpillNonEmpty(n: nat, ledger: nat, i: nat)
    requires i + 1 < n && (ledger + 1) % LevelHalf(i) == 0
    ensures SnapTop(n, ledger, i) < CurrTop(n, ledger, i) <= ledger
  {
    hide Mask, LevelHalf, LevelSize;
    BoundariesMove(n, ledger, i);
    MaskNext(ledger, LevelHalf(i));
    SkewBelowHalf(i);
    TopsDescend(n, ledger, i, i);
    assert SnapTop(n, ledger + 1, i) == Clamp(ledger + 1 - Skew(i));
    assert SnapTop(n, ledger, i) == Clamp(ledger + 1 - LevelHalf(i) - Skew(i));
  }

  /** The last level drops tombstones, but it reaches back to the first ledger. */
  lemma LastFromStart(n: nat, ledger: nat, i: nat)
    requires 0 < i < n && !KeepDeadEntries(n, i)
    ensures PendingFrom(n, ledger, i) == 0 && SnapTop(n, ledger, i) == 0
  {
  }

  // ---- Every step keeps the invariant

  lemma LaterGood<B(!new)>(alg: Algebra<B>, good: (nat, nat, nat, nat, B) -> bool, n: nat, i: nat, l: nat, a: nat, b: nat, x: B)
    requires Laws(alg, good, n) && good(i, l, a, b, x) && b <= l
    ensures good(i, l + 1, a, b, x)
  {
    assert Later(good, i, l, a, b, x);
  }

  lemma MergeGood<B(!new)>(alg: Algebra<B>, good: (nat, nat, nat, nat, B) -> bool, n: nat, i: nat, l: nat,
                           a: nat, b: nat, c: nat, x: B, y: B, shadows: seq<B>)
    requires Laws(alg, good, n) && Mergeable(alg, good, n, i, l, a, b, c, x, y, shadows)
    ensures good(i, l, a, c, alg.merge(KeepDeadEntries(n, i), x, y, shadows))
  {
    hide Mergeable;
  }

  lemma ShelterLater<B(!new)>(alg: Algebra<B>, good: (nat, nat, nat, nat, B) -> bool, n: nat, i: nat, l: nat, c: nat,
                              shadows: seq<B>)
    requires Laws(alg, good, n) && i > 0 && Sheltered(good, i, l, c, shadows) && c + Skew(i - 1) <= l
    ensures Sheltered(good, i, l + 1, c, shadows)
  {
    hide Laws, LevelHalf;
    var now, t := l + 1, c + Skew(i - 1);
    forall j | 0 <= j < i - 1 ensures ShelterAt(good, now, t, j, shadows[2 * j], shadows[2 * j + 1]) {
      assert Skew(j + 1) == Skew(j) + 2 * LevelHalf(j);
      assert ShelterAt(good, l, t, j, shadows[2 * j], shadows[2 * j + 1]);
      LaterGood(alg, good, n, j, l, t - LevelHalf(j) - Skew(j), t - Skew(j), shadows[2 * j]);
      LaterGood(alg, good, n, j, l, t - Skew(j + 1), t - LevelHalf(j) - Skew(j), shadows[2 * j + 1]);
    }
  }

  lemma MergeableLater<B(!new)>(alg: Algebra<B>, good: (nat, nat, nat, nat, B) -> bool, n: nat, i: nat, l: nat,
                                a: nat, b: nat, c: nat, x: B, y: B, shadows: seq<B>)
    requires Laws(alg, good, n) && Mergeable(alg, good, n, i, l, a, b, c, x, y, shadows)
    ensures Mergeable(alg, good, n, i, l + 1, a, b, c, x, y, shadows)
  {
    hide Laws, Sheltered;
    LaterGood(alg, good, n, i, l, a, b, x);
    LaterGood(alg, good, n, if i == 0 then 0 else i - 1, l, b, c, y);
    if i > 0 && !alg.shadowless(y) {
      ShelterLater(alg, good, n, i, l, c, shadows);
    }
  }

  /** Whenever the pending merge is resolved, its output stands for the ledgers of its inputs. */
  lemma ResolvedGood<B(!new)>(alg: Algebra<B>, good: (nat, nat, nat, nat, B) -> bool, level: Level<B>, n: nat,
                              ledger: nat, i: nat)
    requires Laws(alg, good, n) && 0 < i && NextCovered(alg, good, level, n, ledger, i) && !level.next.Clear?
    ensures good(i, ledger, PendingFrom(n, ledger, i), SnapTop(n, ledger, i - 1), Resolved(alg, n, i, level.next))
    ensures SnapTop(n, ledger, i - 1) <= ledger
  {
    hide Laws, PendingFrom, SnapTop, CurrTop;
    if level.next.Merging? {
      var Merging(curr, snap, shadows, _) := level.next;
      MergeGood(alg, good, n, i, ledger, PendingFrom(n, ledger, i), CurrTop(n, ledger, i),
                SnapTop(n, ledger, i - 1), curr, snap, shadows);
    }
  }

  lemma LevelLater<B(!new)>(alg: Algebra<B>, good: (nat, nat, nat, nat, B) -> bool, levels: Levels<B>, ledger: nat, i: nat)
    requires Laws(alg, good, |levels|) && Covered(good, levels, ledger) && i < |levels|
    ensures good(i, ledger + 1, SnapTop(|levels|, ledger, i), CurrTop(|levels|, ledger, i), levels[i].curr)
    ensures good(i, ledger + 1, CurrTop(|levels|, ledger, i + 1), SnapTop(|levels|, ledger, i), levels[i].snap)
  {
    hide Laws;
    var n := |levels|;
    assert LevelCovered(good, levels[i], n, ledger, i);
    TopsDescend(n, ledger, i, i);
    Descending(n, ledger, i);
    LaterGood(alg, good, n, i, ledger, SnapTop(n, ledger, i), CurrTop(n, ledger, i), levels[i].curr);
    LaterGood(alg, good, n, i, ledger, CurrTop(n, ledger, i + 1), SnapTop(n, ledger, i), levels[i].snap);
  }

  lemma SnapStepCovered<B(!new)>(alg: Algebra<B>, good: (nat, nat, nat, nat, B) -> bool, levels: Levels<B>, ledger: nat,
                                 protocol: nat, batch: B, i: nat)
    requires Laws(alg, good, |levels|) && Covered(good, levels, ledger) && i < |levels|
    ensures var n := |levels|;
            good(i, ledger + 1, CurrTop(n, ledger + 1, i + 1), SnapTop(n, ledger + 1, i),
                 StepLevel(alg, levels, ledger + 1, protocol, batch, i).snap)
  {
    hide Laws;
    var n := |levels|;
    LevelLater(alg, good, levels, ledger, i);
    if i + 1 < n {
      if (ledger + 1) % LevelHalf(i) == 0 {
        BoundariesMove(n, ledger, i);
      } else {
        BoundariesStay(n, ledger, i);
      }
    }
  }

  /** The curr of a level after its own spill, before anything is merged into it. */
  function AfterSpill<B>(alg: Algebra<B>, levels: Levels<B>, ledger: nat, i: nat): B
    requires i < |levels|
  {
    if LevelShouldSpill(|levels|, ledger, i) then alg.empty else levels[i].curr
  }

  lemma AfterSpillCovered<B(!new)>(alg: Algebra<B>, good: (nat, nat, nat, nat, B) -> bool, levels: Levels<B>,
                                   ledger: nat, i: nat)
    requires Laws(alg, good, |levels|) && Covered(good, levels, ledger) && i < |levels|
    ensures good(i, ledger + 1, SnapTop(|levels|, ledger + 1, i), CurrTop(|levels|, ledger, i),
                 AfterSpill(alg, levels, ledger + 1, i))
  {
    var n := |levels|;
    LevelLater(alg, good, levels, ledger, i);
    if i + 1 < n {
      SpillIffMultiple(n, ledger + 1, i);
      if (ledger + 1) % LevelHalf(i) == 0 {
        BoundariesMove(n, ledger, i);
      } else {
        BoundariesStay(n, ledger, i);
      }
    }
  }

  /** The interval of a pending merge is the one its output takes over when it is committed. */
  lemma CommitBounds(n: nat, ledger: nat, i: nat)
    requires 0 < i < n && (ledger + 1) % LevelHalf(i - 1) == 0
    ensures SnapTop(n, ledger + 1, i) == PendingFrom(n, ledger, i)
    ensures CurrTop(n, ledger + 1, i) == SnapTop(n, ledger, i - 1)
  {
    hide Mask, Skew, LevelHalf, LevelSize;
    BoundariesMove(n, ledger, i - 1);
    if i + 1 < n {
      SpillIffMultiple(n, ledger + 1, i);
      if (ledger + 1) % LevelHalf(i) == 0 {
        BoundariesMove(n, ledger, i);
      } else {
        BoundariesStay(n, ledger, i);
      }
    } else {
      LastFromStart(n, ledger, i);
    }
  }

  lemma CommitCovered<B(!new)>(alg: Algebra<B>, good: (nat, nat, nat, nat, B) -> bool, levels: Levels<B>, ledger: nat, i: nat)
    requires Laws(alg, good, |levels|) && Inv(alg, good, State(ledger, levels)) && 0 < i < |levels|
    requires (ledger + 1) % LevelHalf(i - 1) == 0
    ensures var n, next := |levels|, levels[i].next;
            good(i, ledger + 1, SnapTop(n, ledger + 1, i), CurrTop(n, ledger + 1, i),
                 if next.Clear? then AfterSpill(alg, levels, ledger + 1, i) else Resolved(alg, n, i, next))
  {
    hide Laws;
    var n := |levels|;
    CommitBounds(n, ledger, i);
    assert NextOk(alg, levels, ledger, i);
    if levels[i].next.Clear? {
      AfterSpillCovered(alg, good, levels, ledger, i);
      BoundariesMove(n, ledger, i - 1);
      Descending(n, ledger, i - 1);
    } else {
      assert NextCovered(alg, good, levels[i], n, ledger, i);
      ResolvedGood(alg, good, levels[i], n, ledger, i);
      LaterGood(alg, good, n, i, ledger, PendingFrom(n, ledger, i), SnapTop(n, ledger, i - 1),
                Resolved(alg, n, i, levels[i].next));
    }
  }

  lemma LevelZeroBounds(n: nat, ledger: nat)
    requires n >= 2
    ensures SnapTop(n, ledger + 1, 0) <= CurrTop(n, ledger, 0) == ledger
  {
    hide Mask, LevelHalf, LevelSize;
    MaskBounds(ledger + 1, LevelHalf(0));
  }

  lemma LevelZeroCovered<B(!new)>(alg: Algebra<B>, good: (nat, nat, nat, nat, B) -> bool, levels: Levels<B>, ledger: nat,
                                  batch: B)
    requires Laws(alg, good, |levels|) && Covered(good, levels, ledger) && |levels| >= 2
    requires good(0, ledger + 1, ledger, ledger + 1, batch)
    ensures good(0, ledger + 1, SnapTop(|levels|, ledger + 1, 0), ledger + 1,
                 alg.merge(KeepDeadEntries(|levels|, 0), AfterSpill(alg, levels, ledger + 1, 0), batch, []))
  {
    hide Laws, AfterSpill, CurrTop;
    var n := |levels|;
    var now := ledger + 1;
    AfterSpillCovered(alg, good, levels, ledger, 0);
    LevelZeroBounds(n, ledger);
    hide SnapTop;
    MergeGood(alg, good, n, 0, now, SnapTop(n, now, 0), ledger, now,
              AfterSpill(alg, levels, now, 0), batch, []);
  }

  lemma CurrStepCovered<B(!new)>(alg: Algebra<B>, good: (nat, nat, nat, nat, B) -> bool, levels: Levels<B>, ledger: nat,
                                 protocol: nat, batch: B, i: nat)
    requires Laws(alg, good, |levels|) && Inv(alg, good, State(ledger, levels)) && i < |levels|
    requires good(0, ledger + 1, ledger, ledger + 1, batch)
    ensures var n := |levels|;
            good(i, ledger + 1, SnapTop(n, ledger + 1, i), CurrTop(n, ledger + 1, i),
                 StepLevel(alg, levels, ledger + 1, protocol, batch, i).curr)
  {
    hide Laws, NextOk, NextCovered;
    var n := |levels|;
    if i == 0 {
      LevelZeroCovered(alg, good, levels, ledger, batch);
    } else {
      SpillIffMultiple(n, ledger + 1, i - 1);
      if (ledger + 1) % LevelHalf(i - 1) == 0 {
        CommitCovered(alg, good, levels, ledger, i);
      } else {
        AfterSpillCovered(alg, good, levels, ledger, i);
        BoundariesStay(n, ledger, i - 1);
      }
    }
  }

  lemma {:induction false} SkewGrows(i: nat, j: nat)
    requires i <= j
    ensures Skew(i) <= Skew(j)
  {
    if i == j {
    } else {
      SkewGrows(i, j - 1);
    }
  }

  /** When a level spills, the boundaries of every level up to it are where they lag behind the ledger by their skew. */
  lemma {:induction false} SpillTops(n: nat, ledger: nat, i: nat, j: nat)
    requires j <= i && i + 1 < n && (ledger + 1) % LevelHalf(i) == 0
    ensures LevelHalf(i) <= ledger + 1 && (ledger + 1) % LevelHalf(j) == 0
    ensures CurrTop(n, ledger, j) == ledger + 1 - Skew(j)
    ensures SnapTop(n, ledger, j) == Clamp(ledger + 1 - LevelHalf(j) - Skew(j))
    ensures j < i ==> LevelHalf(j) + Skew(j) < ledger + 1
    decreases i - j
  {
    hide LevelHalf, Mask, Skew;
    if j < i {
      SpillTops(n, ledger, i, j + 1);
      HalfQuadruples(j);
      MaskCoarser(ledger + 1, LevelHalf(j), 4);
      HalfMonotone(j + 1, i);
    }
    BoundariesMove(n, ledger, j);
    MaskNext(ledger, LevelHalf(j));
    MaskNext(ledger + 1, LevelHalf(j));
    SkewBelowHalf(j);
  }

  lemma SkewPositive(j: nat)
    ensures Skew(j) >= 1
  {
    SkewGrows(0, j);
  }

  /** The level that one of the shadows is of, and the ledgers it stands for. */
  lemma ShadowSpan<B>(good: (nat, nat, nat, nat, B) -> bool, i: nat, l: nat, c: nat, shadows: seq<B>, m: nat)
    returns (j: nat, a: nat, b: nat)
    requires i > 0 && Sheltered(good, i, l, c, shadows) && m < |shadows|
    ensures j == m / 2 < i - 1 && c <= a < b && good(j, l, a, b, shadows[m])
    ensures b == c + Skew(i - 1) - (if m % 2 == 0 then Skew(j) else LevelHalf(j) + Skew(j)) && b - a == LevelHalf(j)
  {
    hide LevelHalf;
    var t := c + Skew(i - 1);
    j := m / 2;
    assert ShelterAt(good, l, t, j, shadows[2 * j], shadows[2 * j + 1]);
    assert Skew(j + 1) == Skew(j) + 2 * LevelHalf(j);
    SkewGrows(j + 1, i - 1);
    hide Skew;
    b := t - (if m % 2 == 0 then Skew(j) else LevelHalf(j) + Skew(j));
    a := b - LevelHalf(j);
  }

  lemma LevelShelters<B(!new)>(alg: Algebra<B>, good: (nat, nat, nat, nat, B) -> bool, levels: Levels<B>, ledger: nat,
                               i: nat, j: nat)
    requires Laws(alg, good, |levels|) && Covered(good, levels, ledger) && j < i && i + 1 < |levels|
    requires (ledger + 1) % LevelHalf(i) == 0
    ensures ShelterAt(good, ledger + 1, ledger + 1, j, levels[j].curr, levels[j].snap)
  {
    hide Laws, LevelHalf, CurrTop, SnapTop, Covered;
    var n := |levels|;
    LevelLater(alg, good, levels, ledger, j);
    SpillTops(n, ledger, i, j);
    SpillTops(n, ledger, i, j + 1);
    assert Skew(j + 1) == Skew(j) + 2 * LevelHalf(j);
  }

  /** The shadows a merge is started with tile the ledgers after its inputs. */
  lemma ShadowsTile<B(!new)>(alg: Algebra<B>, good: (nat, nat, nat, nat, B) -> bool, levels: Levels<B>, ledger: nat, i: nat)
    requires Laws(alg, good, |levels|) && Covered(good, levels, ledger) && 0 < i < |levels|
    requires (ledger + 1) % LevelHalf(i - 1) == 0
    ensures CurrTop(|levels|, ledger, i - 1) + Skew(i - 1) == ledger + 1
    ensures Sheltered(good, i, ledger + 1, CurrTop(|levels|, ledger, i - 1), Younger(levels, i - 1))
  {
    hide Laws, LevelHalf, Skew, CurrTop, SnapTop, Covered, ShelterAt;
    var n, now := |levels|, ledger + 1;
    SpillTops(n, ledger, i - 1, i - 1);
    var shadows := Younger(levels, i - 1);
    forall j | 0 <= j < i - 1 ensures ShelterAt(good, now, now, j, shadows[2 * j], shadows[2 * j + 1]) {
      LevelShelters(alg, good, levels, ledger, i - 1, j);
    }
  }

  lemma PreparedCovered<B(!new)>(alg: Algebra<B>, good: (nat, nat, nat, nat, B) -> bool, levels: Levels<B>, ledger: nat,
                                 protocol: nat, batch: B, i: nat)
    requires Laws(alg, good, |levels|) && Inv(alg, good, State(ledger, levels)) && 0 < i < |levels|
    requires good(0, ledger + 1, ledger, ledger + 1, batch) && (ledger + 1) % LevelHalf(i - 1) == 0
    ensures NextCovered(alg, good, StepLevel(alg, levels, ledger + 1, protocol, batch, i), |levels|, ledger + 1, i)
  {
    hide Laws, Inv, NextCovered, Sheltered, Younger, Skew, CurrTop, SnapTop, LevelHalf, Mask, ShouldMergeWithEmptyCurr;
    var n, now := |levels|, ledger + 1;
    SpillIffMultiple(n, now, i - 1);
    CurrStepCovered(alg, good, levels, ledger, protocol, batch, i);
    InvCovered(alg, good, levels, ledger);
    ShadowsTile(alg, good, levels, ledger, i);
    LevelLater(alg, good, levels, ledger, i - 1);
    SpillNonEmpty(n, ledger, i - 1);
    SpillTops(n, ledger, i - 1, i - 1);
    BoundariesMove(n, ledger, i - 1);
    Descending(n, now, i);
    hide LevelShouldSpill;
    PreparedGood(alg, good, levels, ledger, StepLevel(alg, levels, now, protocol, batch, i), i);
  }

  lemma InvCovered<B>(alg: Algebra<B>, good: (nat, nat, nat, nat, B) -> bool, levels: Levels<B>, ledger: nat)
    requires Inv(alg, good, State(ledger, levels))
    ensures Covered(good, levels, ledger)
  {
  }

  lemma PreparedGood<B(!new)>(alg: Algebra<B>, good: (nat, nat, nat, nat, B) -> bool, levels: Levels<B>, ledger: nat,
                              level: Level<B>, i: nat)
    requires Laws(alg, good, |levels|) && 0 < i < |levels| && level.next.Merging?
    requires var n, now, snap := |levels|, ledger + 1, levels[i - 1].curr;
             && good(i, now, SnapTop(n, now, i), CurrTop(n, now, i), level.curr)
             && good(i - 1, now, CurrTop(n, now, i), SnapTop(n, now, i - 1), snap)
             && SnapTop(n, now, i) <= CurrTop(n, now, i) < SnapTop(n, now, i - 1)
             && SnapTop(n, now, i - 1) + Skew(i - 1) == now
             && CurrTop(n, now, i) == Clamp(now - LevelHalf(i - 1) - Skew(i - 1))
             && Sheltered(good, i, now, SnapTop(n, now, i - 1), Younger(levels, i - 1))
             && level.next.curr == (if ShouldMergeWithEmptyCurr(n, now, i) then alg.empty else level.curr)
             && level.next.snap == snap && level.next.shadows == ShadowsFor(alg, levels, i, snap)
    ensures NextCovered(alg, good, level, |levels|, ledger + 1, i)
  {
    var n, now := |levels|, ledger + 1;
    hide Laws, Sheltered, ShouldMergeWithEmptyCurr, CurrTop, SnapTop, LevelHalf, Skew, Younger;
    if !KeepDeadEntries(n, i) {
      LastFromStart(n, now, i);
    }
    EmptyGood(alg, good, n, i, now, CurrTop(n, now, i));
  }

  /** Between two spills of the level below the intervals of the pending merge stay. */
  lemma PendingStays(n: nat, ledger: nat, i: nat)
    requires 0 < i < n && (ledger + 1) % LevelHalf(i - 1) != 0
    ensures PendingFrom(n, ledger + 1, i) == PendingFrom(n, ledger, i)
    ensures CurrTop(n, ledger + 1, i) == CurrTop(n, ledger, i)
    ensures SnapTop(n, ledger + 1, i - 1) == SnapTop(n, ledger, i - 1)
  {
    hide Mask, LevelHalf, LevelSize, LevelShouldSpill, Skew, ShouldMergeWithEmptyCurr;
    BoundariesStay(n, ledger, i - 1);
    if i + 1 < n {
      HalfQuadruples(i - 1);
      MaskCoarser(ledger + 1, LevelHalf(i - 1), 4);
      BoundariesStay(n, ledger, i);
    }
  }

  lemma NextStepCovered<B(!new)>(alg: Algebra<B>, good: (nat, nat, nat, nat, B) -> bool, levels: Levels<B>, ledger: nat,
                                 protocol: nat, batch: B, i: nat)
    requires Laws(alg, good, |levels|) && Inv(alg, good, State(ledger, levels)) && 0 < i < |levels|
    requires good(0, ledger + 1, ledger, ledger + 1, batch)
    ensures NextCovered(alg, good, StepLevel(alg, levels, ledger + 1, protocol, batch, i), |levels|, ledger + 1, i)
  {
    hide Laws, NextOk, Covered;
    var n := |levels|;
    if (ledger + 1) % LevelHalf(i - 1) == 0 {
      PreparedCovered(alg, good, levels, ledger, protocol, batch, i);
    } else {
      assert NextCovered(alg, good, levels[i], n, ledger, i);
      PendingStays(n, ledger, i);
      SpillIffMultiple(n, ledger + 1, i - 1);
      NextLater(alg, good, levels[i], StepLevel(alg, levels, ledger + 1, protocol, batch, i), n, ledger, i);
    }
  }

  lemma NextLater<B(!new)>(alg: Algebra<B>, good: (nat, nat, nat, nat, B) -> bool, level: Level<B>, level': Level<B>,
                           n: nat, ledger: nat, i: nat)
    requires Laws(alg, good, n) && 0 < i && NextCovered(alg, good, level, n, ledger, i) && level'.next == level.next
    requires PendingFrom(n, ledger + 1, i) == PendingFrom(n, ledger, i)
    requires CurrTop(n, ledger + 1, i) == CurrTop(n, ledger, i)
    requires SnapTop(n, ledger + 1, i - 1) == SnapTop(n, ledger, i - 1)
    ensures NextCovered(alg, good, level', n, ledger + 1, i)
  {
    hide Laws, PendingFrom, SnapTop, CurrTop;
    var from, mid, to := PendingFrom(n, ledger, i), CurrTop(n, ledger, i), SnapTop(n, ledger, i - 1);
    match level.next {
      case Clear =>
      case Merging(curr, snap, shadows, _) =>
        MergeableLater(alg, good, n, i, ledger, from, mid, to, curr, snap, shadows);
      case Output(bucket) =>
        LaterGood(alg, good, n, i, ledger, from, to, bucket);
    }
  }

  lemma NextStepOk<B>(alg: Algebra<B>, levels: Levels<B>, ledger: nat, protocol: nat, batch: B, i: nat)
    requires Pending(alg, levels, ledger) && 0 < i < |levels|
    ensures NextOk(alg, AddBatch(alg, levels, ledger + 1, protocol, batch), ledger + 1, i)
  {
    assert NextOk(alg, levels, ledger, i);
    if (ledger + 1) % LevelHalf(i - 1) == 0 {
      BoundariesMove(|levels|, ledger, i - 1);
    } else {
      BoundariesStay(|levels|, ledger, i - 1);
    }
  }

  lemma AddBatchPending<B>(alg: Algebra<B>, levels: Levels<B>, ledger: nat, protocol: nat, batch: B)
    requires Pending(alg, levels, ledger)
    ensures Pending(alg, AddBatch(alg, levels, ledger + 1, protocol, batch), ledger + 1)
  {
    hide NextOk;
    var now := ledger + 1;
    var r := AddBatch(alg, levels, now, protocol, batch);
    forall i | 0 < i < |r| ensures NextOk(alg, r, now, i) {
      NextStepOk(alg, levels, ledger, protocol, batch, i);
    }
  }

  lemma AddBatchCovered<B(!new)>(alg: Algebra<B>, good: (nat, nat, nat, nat, B) -> bool, levels: Levels<B>, ledger: nat,
                                 protocol: nat, batch: B)
    requires Laws(alg, good, |levels|) && Inv(alg, good, State(ledger, levels))
    requires good(0, ledger + 1, ledger, ledger + 1, batch)
    ensures Covered(good, AddBatch(alg, levels, ledger + 1, protocol, batch), ledger + 1)
    ensures PendingCovered(alg, good, AddBatch(alg, levels, ledger + 1, protocol, batch), ledger + 1)
  {
    hide Laws, Pending, PendingCovered, NextCovered, StepLevel;
    var now := ledger + 1;
    var r := AddBatch(alg, levels, now, protocol, batch);
    forall i | 0 <= i < |r| ensures LevelCovered(good, r[i], |r|, now, i) {
      SnapStepCovered(alg, good, levels, ledger, protocol, batch, i);
      CurrStepCovered(alg, good, levels, ledger, protocol, batch, i);
    }
    assert PendingCovered(alg, good, r, now) by {
      AddBatchNextCovered(alg, good, levels, ledger, protocol, batch);
    }
  }

  lemma AddBatchNextCovered<B(!new)>(alg: Algebra<B>, good: (nat, nat, nat, nat, B) -> bool, levels: Levels<B>, ledger: nat,
                                     protocol: nat, batch: B)
    requires Laws(alg, good, |levels|) && Inv(alg, good, State(ledger, levels))
    requires good(0, ledger + 1, ledger, ledger + 1, batch)
    ensures PendingCovered(alg, good, AddBatch(alg, levels, ledger + 1, protocol, batch), ledger + 1)
  {
    hide Laws, Inv, NextCovered, StepLevel;
    var now := ledger + 1;
    var r := AddBatch(alg, levels, now, protocol, batch);
    forall i | 0 < i < |r| ensures NextCovered(alg, good, r[i], |r|, now, i) {
      NextStepCovered(alg, good, levels, ledger, protocol, batch, i);
    }
  }

  /** The same buckets, and pending merges with the same outcome. */
  ghost predicate Alike<B>(alg: Algebra<B>, a: Levels<B>, b: Levels<B>) {
    |a| == |b| && forall i :: 0 <= i < |a| ==> AlikeLevel(alg, |a|, i, a[i], b[i])
  }

  ghost predicate AlikeLevel<B>(alg: Algebra<B>, n: nat, i: nat, a: Level<B>, b: Level<B>) {
    && a.curr == b.curr && a.snap == b.snap
    && (a.next.Clear? <==> b.next.Clear?)
    && Resolved(alg, n, i, a.next) == Resolved(alg, n, i, b.next)
  }

  /** A merge still running has the inputs the list prescribes. */
  ghost predicate Recorded<B>(alg: Algebra<B>, s: State<B>, next: Next<B>, i: nat)
    requires 0 < i < |s.levels|
  {
    next.Merging? ==> next.curr == PendingCurr(alg, s.levels, s.ledger, i) && next.snap == s.levels[i - 1].snap
  }

  /** Whatever resolves or restarts merges with the inputs and outcomes they had keeps the invariant. */
  lemma AlikeKeeps<B(!new)>(alg: Algebra<B>, good: (nat, nat, nat, nat, B) -> bool, s: State<B>, levels: Levels<B>)
    requires Inv(alg, good, s) && Alike(alg, s.levels, levels)
    requires forall i :: 0 < i < |levels| ==> Recorded(alg, s, levels[i].next, i)
    requires PendingCovered(alg, good, levels, s.ledger)
    ensures Inv(alg, good, s.(levels := levels))
  {
    var was := s.levels;
    forall i | 0 <= i < |levels| ensures LevelCovered(good, levels[i], |levels|, s.ledger, i) {
      assert LevelCovered(good, was[i], |was|, s.ledger, i) && AlikeLevel(alg, |was|, i, was[i], levels[i]);
    }
    hide LevelCovered, PendingCovered, LevelHalf, ShouldMergeWithEmptyCurr;
    assert AlikeLevel(alg, |was|, 0, was[0], levels[0]);
    forall i | 0 < i < |levels| ensures NextOk(alg, levels, s.ledger, i) {
      assert NextOk(alg, was, s.ledger, i) && Recorded(alg, s, levels[i].next, i);
      assert AlikeLevel(alg, |was|, i, was[i], levels[i]) && AlikeLevel(alg, |was|, i - 1, was[i - 1], levels[i - 1]);
    }
  }

  lemma ResolveAlike<B>(alg: Algebra<B>, levels: Levels<B>, ready: set<nat>)
    ensures Alike(alg, levels, Resolve(alg, levels, ready))
  {
  }

  lemma ResolveKeeps<B(!new)>(alg: Algebra<B>, good: (nat, nat, nat, nat, B) -> bool, s: State<B>, ready: set<nat>)
    requires Laws(alg, good, |s.levels|) && Inv(alg, good, s)
    ensures Inv(alg, good, s.(levels := Resolve(alg, s.levels, ready)))
  {
    hide Laws, Covered, NextCovered, Alike;
    ResolveAlike(alg, s.levels, ready);
    var r := Resolve(alg, s.levels, ready);
    forall i | 0 < i < |r| ensures Recorded(alg, s, r[i].next, i) {
      assert NextOk(alg, s.levels, s.ledger, i);
    }
    forall i | 0 < i < |r| ensures NextCovered(alg, good, r[i], |r|, s.ledger, i) {
      assert NextCovered(alg, good, s.levels[i], |r|, s.ledger, i);
      ResolvedCovered(alg, good, s.levels[i], r[i], |r|, s.ledger, i);
    }
    hide NextOk, Recorded;
    AlikeKeeps(alg, good, s, r);
  }

  lemma ResolvedCovered<B(!new)>(alg: Algebra<B>, good: (nat, nat, nat, nat, B) -> bool, level: Level<B>,
                                 level': Level<B>, n: nat, ledger: nat, i: nat)
    requires Laws(alg, good, n) && 0 < i && NextCovered(alg, good, level, n, ledger, i)
    requires level'.next == level.next || (level.next.Merging? && level'.next == Output(Resolved(alg, n, i, level.next)))
    ensures NextCovered(alg, good, level', n, ledger, i)
  {
    hide Laws, PendingFrom, SnapTop, CurrTop;
    if level'.next != level.next {
      ResolvedGood(alg, good, level, n, ledger, i);
    }
  }

  // ---- Restart

  lemma {:induction false} HalfMonotone(i: nat, j: nat)
    requires i <= j
    ensures LevelHalf(i) <= LevelHalf(j)
  {
    if i == j {
    } else {
      HalfQuadruples(j - 1);
      HalfMonotone(i, j - 1);
    }
  }

  /** From level `i` on: a level not yet prepared has an empty snap below it, and one whose merge was lost has not. */
  ghost predicate Startable<B>(alg: Algebra<B>, levels: Levels<B>, ledger: nat, i: nat) {
    forall m :: i <= m < |levels| && 0 < m ==> StartableAt(alg, levels, ledger, m)
  }

  ghost predicate StartableAt<B>(alg: Algebra<B>, levels: Levels<B>, ledger: nat, m: nat)
    requires 0 < m < |levels|
  {
    if ledger < LevelHalf(m - 1) then levels[m].next.Clear? && levels[m - 1].snap == alg.empty
    else levels[m].next.Clear? ==> levels[m - 1].snap != alg.empty
  }

  /** The merge that `restartMerges` leaves at level `j`. */
  function Restarted<B>(alg: Algebra<B>, levels: Levels<B>, ledger: nat, j: nat): Next<B>
    requires 0 < j < |levels|
  {
    if !levels[j].next.Clear? then levels[j].next
    else if ledger < LevelHalf(j - 1) then Clear
    else Merging(PendingCurr(alg, levels, ledger, j), levels[j - 1].snap, [], alg.version(levels[j - 1].snap))
  }

  lemma {:induction false} RestartMeans<B>(alg: Algebra<B>, levels: Levels<B>, ledger: nat, i: nat, j: nat)
    requires Startable(alg, levels, ledger, i) && j < |levels|
    ensures var r := RestartFrom(alg, levels, ledger, i);
            && r[j].curr == levels[j].curr && r[j].snap == levels[j].snap
            && r[j].next == if j < i || j == 0 then levels[j].next else Restarted(alg, levels, ledger, j)
    decreases |levels| - i
  {
    hide Mask, LevelHalf, LevelSize, LevelShouldSpill;
    if i >= |levels| {
    } else if i == 0 || !levels[i].next.Clear? {
      RestartMeans(alg, levels, ledger, i + 1, j);
    } else {
      assert StartableAt(alg, levels, ledger, i);
      var snap := levels[i - 1].snap;
      if snap == alg.empty {
        if j >= i {
          HalfMonotone(i - 1, j - 1);
          assert StartableAt(alg, levels, ledger, j);
        }
      } else {
        var start := Mask(ledger, LevelHalf(i - 1));
        MaskBounds(ledger, LevelHalf(i - 1));
        MaskBounds(start, LevelHalf(i - 1));
        var curr := if ShouldMergeWithEmptyCurr(|levels|, start, i) then alg.empty else levels[i].curr;
        assert curr == PendingCurr(alg, levels, ledger, i);
        var levels' := levels[i := levels[i].(next := Merging(curr, snap, [], alg.version(snap)))];
        StartableOn(alg, levels, levels', ledger, i);
        RestartMeans(alg, levels', ledger, i + 1, j);
      }
    }
  }

  lemma StartableOn<B>(alg: Algebra<B>, levels: Levels<B>, levels': Levels<B>, ledger: nat, i: nat)
    requires i < |levels| && Startable(alg, levels, ledger, i)
    requires |levels'| == |levels| && levels' == levels[i := levels'[i]] && levels'[i].snap == levels[i].snap
    ensures Startable(alg, levels', ledger, i + 1)
  {
    forall m | i + 1 <= m < |levels| && 0 < m ensures StartableAt(alg, levels', ledger, m) {
      assert StartableAt(alg, levels, ledger, m);
    }
  }

  lemma CrashedStartable<B(!new)>(alg: Algebra<B>, good: (nat, nat, nat, nat, B) -> bool, s: State<B>, stored: set<nat>)
    requires Laws(alg, good, |s.levels|) && Inv(alg, good, s)
    ensures Startable(alg, Crashed(alg, s.levels, stored), s.ledger, 0)
  {
    hide Laws, Inv, StartableAt;
    var c := Crashed(alg, s.levels, stored);
    forall m | 0 < m < |c| ensures StartableAt(alg, c, s.ledger, m) {
      CrashedStartableAt(alg, good, s, stored, m);
    }
  }

  lemma CrashedStartableAt<B(!new)>(alg: Algebra<B>, good: (nat, nat, nat, nat, B) -> bool, s: State<B>,
                                    stored: set<nat>, m: nat)
    requires Laws(alg, good, |s.levels|) && Inv(alg, good, s) && 0 < m < |s.levels|
    ensures StartableAt(alg, Crashed(alg, s.levels, stored), s.ledger, m)
  {
    hide Laws, Inv, NextOk, LevelHalf;
    ClearOnlyBefore(alg, good, s, m);
    EmptyHasShadows(alg, good, |s.levels|);
    if s.ledger < LevelHalf(m - 1) {
      UntouchedEmpty(alg, good, s, m - 1);
    }
  }

  lemma ClearOnlyBefore<B(!new)>(alg: Algebra<B>, good: (nat, nat, nat, nat, B) -> bool, s: State<B>, m: nat)
    requires Inv(alg, good, s) && 0 < m < |s.levels|
    ensures s.levels[m].next.Clear? <==> s.ledger < LevelHalf(m - 1)
  {
    hide Covered, PendingCovered, LevelHalf, PendingCurr;
    assert NextOk(alg, s.levels, s.ledger, m);
  }

  lemma EmptyHasShadows<B(!new)>(alg: Algebra<B>, good: (nat, nat, nat, nat, B) -> bool, n: nat)
    requires Laws(alg, good, n)
    ensures !alg.shadowless(alg.empty)
  {
  }

  /** After a crash a level without a merge is untouched, or its merge can be started again without shadows. */
  lemma ClearedShadowless<B(!new)>(alg: Algebra<B>, good: (nat, nat, nat, nat, B) -> bool, s: State<B>, stored: set<nat>,
                                   m: nat)
    requires Laws(alg, good, |s.levels|) && Inv(alg, good, s) && 0 < m < |s.levels|
    ensures var c := Crashed(alg, s.levels, stored);
            c[m].next.Clear? && c[m - 1].snap != alg.empty ==> alg.shadowless(c[m - 1].snap)
  {
    hide Laws, Inv, LevelHalf;
    ClearOnlyBefore(alg, good, s, m);
    if s.ledger < LevelHalf(m - 1) {
      UntouchedEmpty(alg, good, s, m - 1);
    }
  }

  /** Below the first spill of a level its snap is the empty bucket. */
  lemma UntouchedEmpty<B(!new)>(alg: Algebra<B>, good: (nat, nat, nat, nat, B) -> bool, s: State<B>, i: nat)
    requires Laws(alg, good, |s.levels|) && Inv(alg, good, s) && i + 1 < |s.levels| && s.ledger < LevelHalf(i)
    ensures s.levels[i].snap == alg.empty
  {
    hide Pending, PendingCovered;
    var n := |s.levels|;
    assert LevelCovered(good, s.levels[i], n, s.ledger, i);
    MaskBounds(s.ledger, LevelHalf(i));
    Descending(n, s.ledger, i);
    assert SnapTop(n, s.ledger, i) == 0 && CurrTop(n, s.ledger, i + 1) == 0;
  }

  /** A restart starts exactly the merges that were lost, with the inputs they had. */
  lemma RestartRecovers<B(!new)>(alg: Algebra<B>, good: (nat, nat, nat, nat, B) -> bool, s: State<B>, stored: set<nat>, i: nat)
    requires Laws(alg, good, |s.levels|) && Inv(alg, good, s) && i < |s.levels|
    ensures var before, after := s.levels[i], Recovered(alg, s, stored)[i];
            && AlikeLevel(alg, |s.levels|, i, before, after)
            && (i > 0 ==> Recorded(alg, s, after.next, i))
            && (i > 0 && before.next.Merging? && Lost(alg, s.levels, stored, i) ==>
                  after.next.Merging? && after.next.curr == before.next.curr && after.next.snap == before.next.snap)
            && (i > 0 && after.next != before.next ==>
                  var snap := s.levels[i - 1].snap;
                  && alg.shadowless(snap)
                  && after.next == Merging(PendingCurr(alg, s.levels, s.ledger, i), snap, [], alg.version(snap)))
  {
    hide Covered, PendingCovered, ShouldMergeWithEmptyCurr, LevelHalf, Laws, RestartFrom;
    CrashedStartable(alg, good, s, stored);
    RestartMeans(alg, Crashed(alg, s.levels, stored), s.ledger, 0, i);
    if i > 0 {
      assert NextOk(alg, s.levels, s.ledger, i);
    }
  }

  lemma RestartNextCovered<B(!new)>(alg: Algebra<B>, good: (nat, nat, nat, nat, B) -> bool, s: State<B>,
                                    stored: set<nat>, i: nat)
    requires Laws(alg, good, |s.levels|) && Inv(alg, good, s) && 0 < i < |s.levels|
    ensures NextCovered(alg, good, Recovered(alg, s, stored)[i], |s.levels|, s.ledger, i)
  {
    hide Laws, Recovered, Pending, RestartFrom;
    var n, ledger := |s.levels|, s.ledger;
    var before, after := s.levels[i], Recovered(alg, s, stored)[i];
    RestartRecovers(alg, good, s, stored, i);
    assert NextCovered(alg, good, before, n, ledger, i);
    if after.next != before.next {
      ClearOnlyBefore(alg, good, s, i);
      assert LevelCovered(good, s.levels[i], n, ledger, i) && LevelCovered(good, s.levels[i - 1], n, ledger, i - 1);
      PendingBounds(n, ledger, i);
      EmptyGood(alg, good, n, i, ledger, CurrTop(n, ledger, i));
      hide Covered, PendingCovered, CurrTop, SnapTop, ShouldMergeWithEmptyCurr, LevelHalf;
      if !KeepDeadEntries(n, i) {
        LastFromStart(n, ledger, i);
      }
    }
  }

  /** Once a level has been prepared, its pending merge is of a non-empty interval on top of curr. */
  lemma PendingBounds(n: nat, ledger: nat, i: nat)
    requires 0 < i < n && ledger >= LevelHalf(i - 1)
    ensures SnapTop(n, ledger, i) <= CurrTop(n, ledger, i) < SnapTop(n, ledger, i - 1)
    ensures SnapTop(n, ledger, i - 1) + Skew(i - 1) <= ledger
    ensures CurrTop(n, ledger, i) == 0 || SnapTop(n, ledger, i - 1) - CurrTop(n, ledger, i) == LevelHalf(i - 1)
  {
    hide Mask, LevelHalf, LevelSize;
    MaskBounds(ledger, LevelHalf(i - 1));
    SkewBelowHalf(i - 1);
    Descending(n, ledger, i);
  }

  /** Restarting after a crash puts back, at every level, the merge that was lost. */
  lemma RestartKeeps<B(!new)>(alg: Algebra<B>, good: (nat, nat, nat, nat, B) -> bool, s: State<B>, stored: set<nat>)
    requires Laws(alg, good, |s.levels|) && Inv(alg, good, s)
    ensures Alike(alg, s.levels, Recovered(alg, s, stored))
    ensures Inv(alg, good, s.(levels := Recovered(alg, s, stored)))
  {
    hide Inv, AlikeLevel, Recorded, Laws, NextCovered;
    var r := Recovered(alg, s, stored);
    forall i | 0 <= i < |r| ensures AlikeLevel(alg, |r|, i, s.levels[i], r[i]) {
      RestartRecovers(alg, good, s, stored, i);
    }
    forall i | 0 < i < |r| ensures Recorded(alg, s, r[i].next, i) {
      RestartRecovers(alg, good, s, stored, i);
    }
    forall i | 0 < i < |r| ensures NextCovered(alg, good, r[i], |r|, s.ledger, i) {
      RestartNextCovered(alg, good, s, stored, i);
    }
    hide NextCovered;
    AlikeKeeps(alg, good, s, r);
  }

  lemma InitialInv<B(!new)>(alg: Algebra<B>, good: (nat, nat, nat, nat, B) -> bool, n: nat)
    requires Laws(alg, good, n) && n >= 2
    ensures Inv(alg, good, State(0, Initial(alg, n)))
  {
    var levels := Initial(alg, n);
    hide Laws, CurrTop, SnapTop;
    forall i | 0 <= i < n ensures LevelCovered(good, levels[i], n, 0, i) {
      EmptyGood(alg, good, n, i, 0, 0);
      TopsAtZero(n, i);
      TopsAtZero(n, i + 1);
    }
    forall i | 0 < i < n ensures NextOk(alg, levels, 0, i) {
    }
  }

  lemma TopsAtZero(n: nat, i: nat)
    ensures CurrTop(n, 0, i) == 0 && SnapTop(n, 0, i) == 0
  {
    hide LevelHalf;
    MaskAtZero(LevelHalf(i));
    if i > 0 {
      MaskAtZero(LevelHalf(i - 1));
    }
  }

  lemma MaskAtZero(m: nat)
    requires m > 0
    ensures Mask(0, m) == 0
  {
    MaskBounds(0, m);
  }

  lemma EmptyGood<B(!new)>(alg: Algebra<B>, good: (nat, nat, nat, nat, B) -> bool, n: nat, i: nat, l: nat, a: nat)
    requires Laws(alg, good, n)
    ensures good(i, l, a, a, alg.empty)
  {
  }

  // ---- Runs

  function Closes<B>(events: seq<Event<B>>): seq<Event<B>> {
    if events == [] then []
    else
      var front := Closes(events[..|events| - 1]);
      var last := events[|events| - 1];
      if last.Close? then front + [last] else front
  }

  /** Every batch closed in the run is good for its own ledger. */
  ghost predicate GoodBatches<B>(good: (nat, nat, nat, nat, B) -> bool, closes: seq<Event<B>>) {
    forall i :: 0 <= i < |closes| ==> GoodBatch(good, closes[i], i)
  }

  ghost predicate GoodBatch<B>(good: (nat, nat, nat, nat, B) -> bool, e: Event<B>, i: nat) {
    e.Close? && good(0, i + 1, i, i + 1, e.batch)
  }

  lemma StepKeeps<B(!new)>(alg: Algebra<B>, good: (nat, nat, nat, nat, B) -> bool, s: State<B>, e: Event<B>)
    requires Laws(alg, good, |s.levels|) && Inv(alg, good, s)
    requires e.Close? ==> good(0, s.ledger + 1, s.ledger, s.ledger + 1, e.batch)
    ensures Inv(alg, good, Step(alg, s, e)) && |Step(alg, s, e).levels| == |s.levels|
  {
    hide Covered, PendingCovered, Pending, StepLevel, RestartFrom, Laws;
    match e {
      case Close(protocol, batch) =>
        AddBatchPending(alg, s.levels, s.ledger, protocol, batch);
        AddBatchCovered(alg, good, s.levels, s.ledger, protocol, batch);
      case Complete(ready) =>
        ResolveKeeps(alg, good, s, ready);
      case Restart(stored) =>
        RestartKeeps(alg, good, s, stored);
    }
  }

  /** The invariant holds after any interleaving of ledger closes, merge completions and restarts. */
  lemma {:induction false} RunInv<B(!new)>(alg: Algebra<B>, good: (nat, nat, nat, nat, B) -> bool, n: nat,
                                           events: seq<Event<B>>)
    requires Laws(alg, good, n) && n >= 2 && GoodBatches(good, Closes(events))
    ensures Inv(alg, good, Run(alg, n, events))
    ensures |Run(alg, n, events).levels| == n && Run(alg, n, events).ledger == |Closes(events)|
  {
    if events == [] {
      InitialInv(alg, good, n);
    } else {
      var front, last := events[..|events| - 1], events[|events| - 1];
      var s := Run(alg, n, front);
      assert Run(alg, n, events) == Step(alg, s, last);
      hide Laws, Inv, Closes, GoodBatches, Run;
      GoodFront(good, events);
      RunInv(alg, good, n, front);
      LedgerSteps(alg, s, last);
      hide Step;
      StepKeeps(alg, good, s, last);
    }
  }

  lemma GoodFront<B>(good: (nat, nat, nat, nat, B) -> bool, events: seq<Event<B>>)
    requires events != [] && GoodBatches(good, Closes(events))
    ensures var closes, last := Closes(events[..|events| - 1]), events[|events| - 1];
            && GoodBatches(good, closes)
            && Closes(events) == (if last.Close? then closes + [last] else closes)
            && (last.Close? ==> good(0, |closes| + 1, |closes|, |closes| + 1, last.batch))
  {
    var closes, last := Closes(events[..|events| - 1]), events[|events| - 1];
    var all := Closes(events);
    assert all == if last.Close? then closes + [last] else closes;
    hide Closes;
    forall i | 0 <= i < |closes| ensures GoodBatch(good, closes[i], i) {
      assert GoodBatch(good, all[i], i) && all[i] == closes[i];
    }
    if last.Close? {
      assert GoodBatch(good, all[|closes|], |closes|);
    }
  }

  // ---- Merge timing and crashes do not show

  lemma AddBatchAlike<B>(alg: Algebra<B>, a: Levels<B>, b: Levels<B>, ledger: nat, protocol: nat, batch: B)
    requires Alike(alg, a, b)
    ensures Alike(alg, AddBatch(alg, a, ledger, protocol, batch), AddBatch(alg, b, ledger, protocol, batch))
  {
    hide AlikeLevel, StepLevel;
    var a', b' := AddBatch(alg, a, ledger, protocol, batch), AddBatch(alg, b, ledger, protocol, batch);
    forall i | 0 <= i < |a| ensures AlikeLevel(alg, |a|, i, a'[i], b'[i]) {
      StepLevelAlike(alg, a, b, ledger, protocol, batch, i);
    }
  }

  lemma StepLevelAlike<B>(alg: Algebra<B>, a: Levels<B>, b: Levels<B>, ledger: nat, protocol: nat, batch: B, i: nat)
    requires Alike(alg, a, b) && i < |a|
    ensures AlikeLevel(alg, |a|, i, StepLevel(alg, a, ledger, protocol, batch, i),
                       StepLevel(alg, b, ledger, protocol, batch, i))
  {
    assert AlikeLevel(alg, |a|, i, a[i], b[i]);
    if i > 0 {
      assert AlikeLevel(alg, |a|, i - 1, a[i - 1], b[i - 1]);
      YoungerAlike(alg, a, b, i - 1);
    }
    hide Alike, Younger, LevelShouldSpill, ShouldMergeWithEmptyCurr;
  }

  lemma {:induction false} YoungerAlike<B>(alg: Algebra<B>, a: Levels<B>, b: Levels<B>, j: nat)
    requires Alike(alg, a, b) && j <= |a|
    ensures Younger(a, j) == Younger(b, j)
  {
    if j == 0 {
    } else {
      YoungerAlike(alg, a, b, j - 1);
      assert AlikeLevel(alg, |a|, j - 1, a[j - 1], b[j - 1]);
    }
  }

  lemma AlikeTransitive<B>(alg: Algebra<B>, a: Levels<B>, b: Levels<B>, c: Levels<B>)
    requires Alike(alg, a, b) && Alike(alg, a, c)
    ensures Alike(alg, c, b)
  {
    forall i | 0 <= i < |a| ensures AlikeLevel(alg, |a|, i, c[i], b[i]) {
      assert AlikeLevel(alg, |a|, i, a[i], b[i]) && AlikeLevel(alg, |a|, i, a[i], c[i]);
    }
  }

  lemma StepAlike<B(!new)>(alg: Algebra<B>, good: (nat, nat, nat, nat, B) -> bool, s: State<B>, s': State<B>, e: Event<B>)
    requires Laws(alg, good, |s.levels|) && Inv(alg, good, s)
    requires s.ledger == s'.ledger && Alike(alg, s.levels, s'.levels)
    ensures e.Close? ==> Alike(alg, Step(alg, s, e).levels, Step(alg, s', e).levels)
    ensures !e.Close? ==> Alike(alg, Step(alg, s, e).levels, s'.levels)
  {
    hide Inv, Alike, Laws, RestartFrom;
    match e {
      case Close(protocol, batch) =>
        AddBatchAlike(alg, s.levels, s'.levels, s.ledger + 1, protocol, batch);
      case Complete(ready) =>
        ResolveAlike(alg, s.levels, ready);
        AlikeTransitive(alg, s.levels, s'.levels, Resolve(alg, s.levels, ready));
      case Restart(stored) =>
        RestartKeeps(alg, good, s, stored);
        AlikeTransitive(alg, s.levels, s'.levels, Recovered(alg, s, stored));
    }
  }

  /**
    Every bucket, and the outcome of every pending merge, is the one of a run that only closes
    ledgers: neither when merges complete nor crashes matter.
   */
  lemma {:induction false} OnlyClosesMatter<B(!new)>(alg: Algebra<B>, good: (nat, nat, nat, nat, B) -> bool, n: nat,
                                                     events: seq<Event<B>>)
    requires Laws(alg, good, n) && n >= 2 && GoodBatches(good, Closes(events))
    ensures Run(alg, n, events).ledger == Run(alg, n, Closes(events)).ledger
    ensures Alike(alg, Run(alg, n, events).levels, Run(alg, n, Closes(events)).levels)
  {
    if events == [] {
      assert Closes(events) == events;
      AlikeItself(alg, Run(alg, n, events).levels);
    } else {
      var front, last := events[..|events| - 1], events[|events| - 1];
      var closes := Closes(front);
      assert Run(alg, n, events) == Step(alg, Run(alg, n, front), last);
      hide Laws, Inv, Alike, Step, Closes, GoodBatches, Run;
      GoodFront(good, events);
      OnlyClosesMatter(alg, good, n, front);
      RunInv(alg, good, n, front);
      StepAlike(alg, good, Run(alg, n, front), Run(alg, n, closes), last);
      if last.Close? {
        RunPush(alg, n, closes, last);
      }
      LedgerSteps(alg, Run(alg, n, front), last);
      LedgerSteps(alg, Run(alg, n, closes), last);
    }
  }

  lemma AlikeItself<B>(alg: Algebra<B>, levels: Levels<B>)
    ensures Alike(alg, levels, levels)
  {
  }

  lemma RunPush<B>(alg: Algebra<B>, n: nat, events: seq<Event<B>>, e: Event<B>)
    ensures Run(alg, n, events + [e]) == Step(alg, Run(alg, n, events), e)
  {
    assert (events + [e])[..|events|] == events;
  }

  lemma LedgerSteps<B>(alg: Algebra<B>, s: State<B>, e: Event<B>)
    ensures Step(alg, s, e).ledger == if e.Close? then s.ledger + 1 else s.ledger
  {
  }
}
