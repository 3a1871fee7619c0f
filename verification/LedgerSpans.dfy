/**
  Which ledgers are in which bucket.

  The machine is run over buckets that only remember the ledgers they were
  made from; the closed forms `SizeOfCurr` and `SizeOfSnap` predict the outcome.
 */
module LedgerSpans {
  import opened Schedule
  import opened Machine

  /** A bucket as the list of ledgers merged into it, oldest first. */
  type Span = seq<nat>

  function SpanAlgebra(): Algebra<Span> {
    Algebra([], (_, x: Span, y: Span, _) => x + y, _ => 12, (x: Span) => x != [])
  }

  /** Ledgers `a + 1` to `b`. */
  function Range(a: nat, b: nat): (r: Span)
    requires a <= b
    ensures |r| == b - a
    ensures forall i :: 0 <= i < |r| ==> r[i] == a + 1 + i
  {
    seq(b - a, i => a + 1 + i)
  }

  ghost predicate IsRange(i: nat, l: nat, a: nat, b: nat, x: Span) {
    a <= b && x == Range(a, b)
  }

  lemma SpanLaws(n: nat)
    ensures Laws(SpanAlgebra(), IsRange, n)
  {
    var alg := SpanAlgebra();
    forall i: nat, l, a, b, c, x, y, shadows | Mergeable(alg, IsRange, n, i, l, a, b, c, x, y, shadows)
      ensures IsRange(i, l, a, c, alg.merge(KeepDeadEntries(n, i), x, y, shadows))
    {
      hide Sheltered, KeepDeadEntries;
      RangesJoin(i, if i == 0 then 0 else i - 1, l, a, b, c, x, y);
    }
    EmptyRange();
    hide IsRange, Mergeable;
  }

  lemma RangesJoin(i: nat, j: nat, l: nat, a: nat, b: nat, c: nat, x: Span, y: Span)
    requires IsRange(i, l, a, b, x) && IsRange(j, l, b, c, y)
    ensures IsRange(i, l, a, c, x + y)
  {
  }

  lemma EmptyRange()
    ensures forall i, l, a, x :: IsRange(i, l, a, a, x) <==> x == []
    ensures forall i, l, a, b, x :: IsRange(i, l, a, b, x) ==> Later(IsRange, i, l, a, b, x)
  {
  }

  /** The run closes ledger after ledger, each with its own number as batch. */
  ghost predicate Numbered(closes: seq<Event<Span>>) {
    forall i :: 0 <= i < |closes| ==> closes[i].Close? && closes[i].batch == [i + 1]
  }

  /** In every reachable state each bucket holds exactly the ledgers the closed form says. */
  lemma BucketSpans(n: nat, events: seq<Event<Span>>, level: nat)
    requires n >= 2 && level < n && Numbered(Closes(events))
    ensures var s := Run(SpanAlgebra(), n, events);
            && s.ledger == |Closes(events)| && |s.levels| == n
            && CurrTop(n, s.ledger, level) >= SnapTop(n, s.ledger, level) >= CurrTop(n, s.ledger, level + 1)
            && s.levels[level].curr == Range(SnapTop(n, s.ledger, level), CurrTop(n, s.ledger, level))
            && s.levels[level].snap == Range(CurrTop(n, s.ledger, level + 1), SnapTop(n, s.ledger, level))
  {
    var alg := SpanAlgebra();
    SpanLaws(n);
    hide Laws;
    forall i | 0 <= i < |Closes(events)| ensures GoodBatch(IsRange, Closes(events)[i], i) {
      assert Closes(events)[i].batch == [i + 1] == Range(i, i + 1);
    }
    RunInv(alg, IsRange, n, events);
    hide Pending, PendingCovered;
    var s := Run(alg, n, events);
    assert LevelCovered(IsRange, s.levels[level], n, s.ledger, level);
    Descending(n, s.ledger, level);
  }

  /** `sizeOfCurr` and `sizeOfSnap` count the batches in the buckets, at every ledger and level. */
  lemma SizesCount(n: nat, events: seq<Event<Span>>, level: nat)
    requires n >= 2 && level < n && Numbered(Closes(events)) && |Closes(events)| >= 1
    ensures var s := Run(SpanAlgebra(), n, events);
            && |s.levels| == n && s.ledger == |Closes(events)|
            && |s.levels[level].curr| == SizeOfCurr(n, s.ledger, level)
            && |s.levels[level].snap| == SizeOfSnap(n, s.ledger, level)
  {
    BucketSpans(n, events, level);
  }

  // ---- Tiling

  /** The buckets of a list in the order they are applied. */
  function OldestFirst<B>(levels: Levels<B>): seq<B> {
    if levels == [] then [] else OldestFirst(levels[1..]) + [levels[0].snap, levels[0].curr]
  }

  function Concat(spans: seq<Span>): Span {
    if spans == [] then [] else Concat(spans[..|spans| - 1]) + spans[|spans| - 1]
  }

  lemma ConcatPush(spans: seq<Span>, x: Span, y: Span)
    ensures Concat(spans + [x, y]) == Concat(spans) + x + y
  {
    var one := spans + [x];
    assert (spans + [x, y])[..|one|] == one && one[..|spans|] == spans;
  }

  lemma JoinRanges(a: nat, b: nat, c: nat)
    requires a <= b <= c
    ensures Range(0, a) + Range(a, b) + Range(b, c) == Range(0, c)
  {
  }

  lemma {:induction false} LevelsTile(n: nat, levels: Levels<Span>, ledger: nat, from: nat)
    requires |levels| == n && from <= n
    requires forall i :: from <= i < n ==> LevelCovered(IsRange, levels[i], n, ledger, i)
    ensures Concat(OldestFirst(levels[from..])) == Range(0, CurrTop(n, ledger, from))
    decreases n - from
  {
    if from == n {
    } else {
      LevelsTile(n, levels, ledger, from + 1);
      assert levels[from..][1..] == levels[from + 1..];
      assert LevelCovered(IsRange, levels[from], n, ledger, from);
      ConcatPush(OldestFirst(levels[from + 1..]), levels[from].snap, levels[from].curr);
      JoinRanges(CurrTop(n, ledger, from + 1), SnapTop(n, ledger, from), CurrTop(n, ledger, from));
    }
  }

  /** The buckets, oldest first, hold every ledger from 1 to the current one exactly once and in order. */
  lemma BucketsTile(n: nat, events: seq<Event<Span>>)
    requires n >= 2 && Numbered(Closes(events))
    ensures Concat(OldestFirst(Run(SpanAlgebra(), n, events).levels)) == Range(0, |Closes(events)|)
  {
    var s := Run(SpanAlgebra(), n, events);
    forall i | 0 <= i < n ensures |s.levels| == n && s.ledger == |Closes(events)|
      && LevelCovered(IsRange, s.levels[i], n, s.ledger, i)
    {
      BucketSpans(n, events, i);
    }
    BucketSpans(n, events, 0);
    LevelsTile(n, s.levels, s.ledger, 0);
    assert s.levels[0..] == s.levels;
  }

  // ---- `oldestLedgerInCurr` and `oldestLedgerInSnap`

  const UINT32_MAX: nat := 0xFFFF_FFFF

  method OldestLedgerInCurr(n: nat, ledger: nat, level: nat) returns (oldest: nat)
    requires n >= 2 && ledger != 0 && level < n
    ensures oldest == if SizeOfCurr(n, ledger, level) == 0 then 0xFFFF_FFFF else SnapTop(n, ledger, level) + 1
  {
    if SizeOfCurr(n, ledger, level) == 0 {
      return UINT32_MAX;
    }
    var count := ledger;
    for l := 0 to level
      invariant count == CurrTop(n, ledger, l)
    {
      count := count - SizeOfCurr(n, ledger, l);
      count := count - SizeOfSnap(n, ledger, l);
    }
    count := count - SizeOfCurr(n, ledger, level);
    return count + 1;
  }

  method OldestLedgerInSnap(n: nat, ledger: nat, level: nat) returns (oldest: nat)
    requires n >= 2 && ledger != 0 && level < n
    ensures oldest == if SizeOfSnap(n, ledger, level) == 0 then 0xFFFF_FFFF else CurrTop(n, ledger, level + 1) + 1
  {
    if SizeOfSnap(n, ledger, level) == 0 {
      return UINT32_MAX;
    }
    var count := ledger;
    for l := 0 to level + 1
      invariant count == CurrTop(n, ledger, l)
    {
      count := count - SizeOfCurr(n, ledger, l);
      count := count - SizeOfSnap(n, ledger, l);
    }
    return count + 1;
  }

  /** The oldest ledger of a non-empty bucket is the one those functions return. */
  lemma OldestLedgers(n: nat, events: seq<Event<Span>>, level: nat)
    requires n >= 2 && level < n && Numbered(Closes(events))
    ensures var s := Run(SpanAlgebra(), n, events);
            && |s.levels| == n
            && (s.levels[level].curr != [] ==> s.levels[level].curr[0] == SnapTop(n, s.ledger, level) + 1)
            && (s.levels[level].snap != [] ==> s.levels[level].snap[0] == CurrTop(n, s.ledger, level + 1) + 1)
  {
    BucketSpans(n, events, level);
  }
}
