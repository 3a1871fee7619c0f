/**
  Why upgrades must be gradual: how far apart the last ledger of protocol 10 and
  the first of protocol 12 have to be for the bucket list to hold the database.

  For every distance up to `WorstGap` there is a run that brings a deleted key
  back.  A tombstone of protocol 10 is merged, by the rules of protocol 10, under
  the shadow of an INIT of protocol 12, and dropped.  That INIT and a later DEAD
  then annihilate each other, which uncovers the value written in ledger 1.
  The ledgers of protocol 11 all fall into one bucket that ends in protocol 12.
 */
module UpgradeJump {
  import opened Options
  import opened Entries
  import opened Merge
  import opened MergeTheorems
  import opened ListInvariant
  import opened Schedule
  import opened Machine
  import opened LedgerSpans
  import opened History
  import opened Database

  const K: Key := 0

  /** The tombstone is lost when `level` merges it, in a list of two levels more. */
  datatype Plan = Plan(level: nat, gap: nat) {
    predicate Valid() {
      level >= 2 && 1 <= gap <= LevelGap(level - 2)
    }

    /** How often the level below spills into the level. */
    function Period(): nat
      requires level >= 2
    {
      LevelHalf(level - 1)
    }

    function Removal(): nat
      requires level >= 2
    {
      2 * Period()
    }

    /** The key is removed again one ledger after it is created again. */
    function Again(): int
      requires level >= 2
    {
      3 * Period() - 1
    }

    function FirstShadowless(): int
      requires level >= 2
    {
      3 * Period() - Skew(level - 2)
    }

    function LastOld(): int
      requires level >= 2
    {
      FirstShadowless() - gap
    }

    function Length(): nat
      requires level >= 2
    {
      4 * Period()
    }

    /** The tombstone's bucket covers the ledgers after this one. */
    function Bottom(): int
      requires level >= 2
    {
      2 * Period() - Skew(level - 1)
    }
  }

  /** The places of the plan, in order. */
  lemma Facts(p: Plan)
    requires p.Valid()
    ensures var h, s := LevelHalf(p.level - 2), Skew(p.level - 2);
            && p.Period() == 4 * h && p.Length() == LevelHalf(p.level) && 1 <= s < h && h >= 2
            && Skew(p.level - 1) == s + 2 * h && Skew(p.level) == s + 10 * h
            && 0 < p.Bottom() < p.Removal() < p.Bottom() + p.Period()
            && p.Bottom() + p.Period() == p.FirstShadowless() - 2 * h
            && p.FirstShadowless() - h <= p.LastOld() < p.FirstShadowless() <= p.Again()
            && (p.level > 2 ==> p.FirstShadowless() - h + Skew(p.level - 3) - 1 <= p.LastOld())
  {
    hide LevelHalf;
    HalfQuadruples(p.level - 2);
    HalfQuadruples(p.level - 1);
    SkewBelowHalf(p.level - 2);
    SkewPositive(p.level - 2);
    if p.level > 2 {
      SkewPositive(p.level - 3);
    }
  }

  // ---- The history

  function EntryAt(p: Plan, t: nat): Option<Entry>
    requires p.level >= 2
  {
    if t == 1 then Some(Live(K, 1))
    else if t == p.Again() then Some(Init(K, 2))
    else if t == p.Removal() || t == p.Again() + 1 then Some(Dead(K))
    else None
  }

  function Single(e: Option<Entry>): seq<Entry> {
    if e.Some? then [e.value] else []
  }

  function ProtocolAt(p: Plan, t: nat): nat
    requires p.level >= 2
  {
    if t <= p.LastOld() then 10 else if t < p.FirstShadowless() then 11 else 12
  }

  function BatchAt(p: Plan, t: nat): Batch
    requires p.level >= 2
  {
    Batch(ProtocolAt(p, t), Single(EntryAt(p, t)))
  }

  function Jump(p: Plan): (h: seq<Batch>)
    requires p.level >= 2
    ensures |h| == p.Length() && forall i :: 0 <= i < |h| ==> h[i] == BatchAt(p, i + 1)
  {
    seq(p.Length(), (i: nat) => BatchAt(p, i + 1))
  }

  function Closings(p: Plan, m: nat): seq<Event<Bucket>>
    requires p.level >= 2
  {
    if m == 0 then []
    else Closings(p, m - 1) + [Close(BatchAt(p, m).protocol, BatchBucket(BatchAt(p, m)))]
  }

  lemma {:induction false} ClosingsAre(p: Plan, m: nat)
    requires p.level >= 2
    ensures Closes(Closings(p, m)) == Closings(p, m) && |Closings(p, m)| == m
    ensures forall i :: 0 <= i < m ==> Closings(p, m)[i] == Close(BatchAt(p, i + 1).protocol, BatchBucket(BatchAt(p, i + 1)))
  {
    hide BatchAt, BatchBucket;
    if m == 0 {
    } else {
      ClosingsAre(p, m - 1);
      assert Closings(p, m)[..m - 1] == Closings(p, m - 1);
    }
  }

  lemma FindSingle(e: Option<Entry>)
    requires AtKey(e, K)
    ensures Find(Single(e), K) == e && Sorted(Single(e))
  {
  }

  function ValueAt(p: Plan, t: nat): Option<Value>
    requires p.level >= 2
  {
    if 1 <= t < p.Removal() then Some(1) else if t == p.Again() then Some(2) else None
  }

  lemma ValueSteps(p: Plan, t: nat)
    requires p.Valid() && t > 0
    ensures ValueAt(p, t) == Effect(ValueAt(p, t - 1), EntryAt(p, t)) && AtKey(EntryAt(p, t), K)
  {
    hide LevelHalf, Skew, LevelGap;
    Facts(p);
  }

  lemma {:induction false} KeyAt(p: Plan, t: nat)
    requires p.Valid() && t <= p.Length()
    ensures Get(StateAt(Jump(p), t), K) == ValueAt(p, t)
  {
    hide LevelHalf, Skew, LevelGap, Find, Apply, Sorted, Get, Jump, ValueAt, EntryAt, Effect;
    if t == 0 {
      NothingAtStart(Jump(p));
      ValueAtStart(p);
    } else {
      KeyAt(p, t - 1);
      ValueSteps(p, t);
      FindSingle(EntryAt(p, t));
      ApplyAt(StateAt(Jump(p), t - 1), Jump(p)[t - 1].entries, K);
    }
  }

  lemma ValueAtStart(p: Plan)
    requires p.Valid()
    ensures ValueAt(p, 0) == None && ValueAt(p, p.Length()) == None
  {
    hide LevelHalf, Skew, LevelGap;
    Facts(p);
  }

  lemma NothingAtStart(h: seq<Batch>)
    ensures Get(StateAt(h, 0), K) == None
  {
  }

  lemma BatchLegal(p: Plan, i: nat)
    requires p.Valid() && i < p.Length()
    ensures Sorted(Jump(p)[i].entries) && LegalBatch(Jump(p), i)
  {
    hide LevelHalf, Skew, StateAt;
    Facts(p);
    KeyAt(p, i);
  }

  /** A legal history whose protocols are exactly `gap` apart. */
  lemma JumpIsLegal(p: Plan)
    requires p.Valid()
    ensures LegalBatches(Jump(p)) && Apart(Jump(p), p.gap) && Closing(Jump(p), Closings(p, p.Length()))
    ensures p.LastOld() > 0 && OldAt(Jump(p), p.LastOld()) && ShadowlessAt(Jump(p), p.LastOld() + p.gap)
  {
    hide LevelHalf, Skew, LegalBatch, Sorted, BatchBucket, EntryAt;
    Facts(p);
    forall i | 0 <= i < p.Length() ensures Sorted(Jump(p)[i].entries) && LegalBatch(Jump(p), i) {
      BatchLegal(p, i);
    }
    ClosingsAre(p, p.Length());
  }

  // ---- What the buckets of the run hold

  /** How many ledgers after its newest one a bucket of level `i` is merged. */
  function Lag(i: nat): nat {
    if i == 0 then 1 else Skew(i - 1)
  }

  /** The bucket that should hold the tombstone, after it has been merged into the level. */
  predicate Bare(p: Plan, i: nat, a: nat, b: nat)
    requires p.level >= 2
  {
    i == p.level && a == p.Bottom() && b == p.Bottom() + p.Period()
  }

  /** The buckets whose content no shadow can change, and the bare one. */
  predicate Tracked(p: Plan, i: nat, a: nat, b: nat)
    requires p.level >= 2
  {
    b + Lag(i) <= p.Removal() || (a >= 1 && b + Lag(i) <= p.Again()) || a >= p.Removal() || Bare(p, i, a, b)
  }

  /** The entry that the batches of ledgers `a + 1` to `b` merge to. */
  function PlainEntry(p: Plan, a: nat, b: nat): Option<Entry>
    requires p.level >= 2
  {
    if a < p.Removal() then
      if a == 0 && b > 0 then Some(Live(K, 1)) else if a > 0 && b >= p.Removal() then Some(Dead(K)) else None
    else if a < p.Again() == b then Some(Init(K, 2))
    else if p.Again() == a < b then Some(Dead(K))
    else None
  }

  function SpanEntry(p: Plan, i: nat, a: nat, b: nat): Option<Entry>
    requires p.level >= 2
  {
    if Bare(p, i, a, b) then None else PlainEntry(p, a, b)
  }

  predicate MetaOk(p: Plan, i: nat, b: nat, meta: Option<nat>)
    requires p.level >= 2
  {
    if b >= p.FirstShadowless() then meta == Some(12)
    else if b > p.LastOld() then meta == Some(11)
    else meta == None || (meta == Some(11) && b + Lag(i) - 1 > p.LastOld())
  }

  predicate Spanned(p: Plan, i: nat, a: nat, b: nat, x: Bucket)
    requires p.level >= 2
  {
    if a == b then x == EMPTY
    else MetaOk(p, i, b, x.meta) && (Tracked(p, i, a, b) ==> x.entries == Single(SpanEntry(p, i, a, b)))
  }

  ghost function SpannedAt(p: Plan): (nat, nat, nat, nat, Bucket) -> bool
    requires p.level >= 2
  {
    (i: nat, l: nat, a: nat, b: nat, x: Bucket) => Spanned(p, i, a, b, x)
  }

  lemma SingleMerge(r: Rules, shadows: seq<seq<Entry>>, o: Option<Entry>, n: Option<Entry>)
    requires AtKey(o, K) && AtKey(n, K) && !Bad(r.version, o, n)
    ensures MergeEntries(r, shadows, Single(o), Single(n)) == Success(Single(Survivor(r, shadows, Combined(o, n))))
  {
    var none := MergeEntries(r, shadows, [], []);
    forall s: seq<Entry> ensures Prepend(s, none) == Success(s) {
      assert s + [] == s;
    }
    if o.Some? {
      assert Single(o)[1..] == [];
    }
    if n.Some? {
      assert Single(n)[1..] == [];
    }
  }

  // ---- Versions

  lemma MetaMerge(p: Plan, n: nat, i: nat, l: nat, a: nat, b: nat, c: nat, x: Bucket, y: Bucket, shadows: seq<Bucket>)
    requires p.Valid() && Mergeable(BucketAlgebra(), SpannedAt(p), n, i, l, a, b, c, x, y, shadows)
    ensures var v := MergeVersion(x.Version(), y.Version(), shadows);
            && MetaOk(p, i, c, Finish(v, []).meta)
            && (v >= 12 ==> shadows == [])
  {
    hide MergeVersion, LevelHalf, Sheltered, Tracked, SpanEntry, Skew;
    Facts(p);
    VersionMeans(x.Version(), y.Version(), shadows);
    LagGrows(i);
    if i > 0 && y.Version() < 12 {
      forall m | 0 <= m < |shadows|
        ensures shadows[m].Version() in {0, 11, 12} && (c + Lag(i) - 1 <= p.LastOld() ==> shadows[m].Version() == 0)
      {
        var j, a', b' := ShadowSpan(SpannedAt(p), i, l, c, shadows, m);
        LagBelowSkew(j);
      }
    }
  }

  lemma LagGrows(i: nat)
    ensures i > 0 ==> Lag(i - 1) <= Lag(i)
  {
    if i > 1 {
      SkewGrows(i - 2, i - 1);
    }
  }

  lemma LagPositive(i: nat)
    ensures Lag(i) >= 1
  {
    if i > 0 {
      SkewPositive(i - 1);
    }
  }

  lemma LagBelowSkew(i: nat)
    ensures 1 <= Lag(i) <= Skew(i)
  {
    SkewPositive(i);
    if i > 0 {
      SkewGrows(i - 1, i);
      SkewPositive(i - 1);
    }
  }

  // ---- Contents

  lemma PlainJoin(p: Plan, a: nat, b: nat, c: nat)
    requires p.Valid() && a <= b < c && (a == 0 ==> c < p.Removal()) && (1 <= a < p.Removal() ==> c < p.Again())
    ensures var o, e := if a == b then None else PlainEntry(p, a, b), PlainEntry(p, b, c);
            && Combined(o, e) == PlainEntry(p, a, c)
            && !Bad(if c >= p.FirstShadowless() then 12 else 0, o, e)
  {
    hide LevelHalf, Skew, LevelGap;
    Facts(p);
  }

  /** A tracked bucket is made of tracked ones, and the bare one is not among them. */
  lemma TrackedParts(p: Plan, i: nat, j: nat, a: nat, b: nat, c: nat)
    requires p.Valid() && a <= b < c && Tracked(p, i, a, c) && !Bare(p, i, a, c) && j == if i == 0 then 0 else i - 1
    ensures a < b ==> Tracked(p, i, a, b) && !Bare(p, i, a, b)
    ensures Tracked(p, j, b, c) && !Bare(p, j, b, c)
    ensures (a == 0 ==> c < p.Removal()) && (1 <= a < p.Removal() ==> c < p.Again())
  {
    Facts(p);
    LagGrows(i);
    LagPositive(i);
    assert Lag(p.level) == Skew(p.level - 1) && Lag(p.level + 1) == Skew(p.level);
    hide LevelHalf, Skew, LevelGap, Lag;
  }

  /** What two neighbours hold combines to what their joint interval holds. */
  lemma EntriesJoin(p: Plan, i: nat, j: nat, a: nat, b: nat, c: nat, version: nat)
    requires p.Valid() && a <= b < c && Tracked(p, i, a, c) && !Bare(p, i, a, c) && j == if i == 0 then 0 else i - 1
    requires c >= p.FirstShadowless() ==> version == 12
    ensures var o, e := if a == b then None else SpanEntry(p, i, a, b), SpanEntry(p, j, b, c);
            && (a < b ==> Tracked(p, i, a, b)) && Tracked(p, j, b, c)
            && Combined(o, e) == SpanEntry(p, i, a, c) && !Bad(version, o, e)
  {
    hide Tracked, Bare, PlainEntry, Combined, LevelHalf, Skew, LevelGap;
    TrackedParts(p, i, j, a, b, c);
    PlainJoin(p, a, b, c);
  }

  /** A shadow that has the key is newer than all of it that the merge has. */
  lemma ShadowsSpare(p: Plan, n: nat, i: nat, l: nat, a: nat, b: nat, c: nat, x: Bucket, y: Bucket, shadows: seq<Bucket>)
    requires p.Valid() && Mergeable(BucketAlgebra(), SpannedAt(p), n, i, l, a, b, c, x, y, shadows)
    requires Tracked(p, i, a, c) && !Bare(p, i, a, c) && Shadowed(EntriesOf(shadows), K)
    ensures SpanEntry(p, i, a, c) == None
  {
    hide LevelHalf, Sheltered, Skew;
    Facts(p);
    var m :| 0 <= m < |shadows| && HasKey(EntriesOf(shadows)[m], K);
    var j, a', b' := ShadowSpan(SpannedAt(p), i, l, c, shadows, m);
    LagBelowSkew(j);
    assert Spanned(p, j, a', b', shadows[m]);
    assert c >= 1 && b' + Lag(j) <= c + Lag(i);
  }

  lemma MergedEntries(keepDead: bool, x: Bucket, y: Bucket, shadows: seq<Bucket>, o: Option<Entry>, e: Option<Entry>)
    requires x.entries == Single(o) && y.entries == Single(e) && AtKey(o, K) && AtKey(e, K)
    requires var v := MergeVersion(x.Version(), y.Version(), shadows); !Bad(v, o, e) && (v >= 12 ==> shadows == [])
    ensures var v := MergeVersion(x.Version(), y.Version(), shadows);
            Merged(keepDead, x, y, shadows).entries
            == Single(Survivor(Rules(v, v >= FIRST_PROTOCOL_SUPPORTING_INITENTRY_AND_METAENTRY, keepDead),
                               EntriesOf(shadows), Combined(o, e)))
  {
    hide MergeVersion, MergeEntries, Combined, Survivor, Single, Bad;
    var v := MergeVersion(x.Version(), y.Version(), shadows);
    SingleMerge(Rules(v, v >= FIRST_PROTOCOL_SUPPORTING_INITENTRY_AND_METAENTRY, keepDead), EntriesOf(shadows), o, e);
  }

  lemma ContentMerge(p: Plan, n: nat, i: nat, l: nat, a: nat, b: nat, c: nat, x: Bucket, y: Bucket, shadows: seq<Bucket>)
    requires p.Valid() && Mergeable(BucketAlgebra(), SpannedAt(p), n, i, l, a, b, c, x, y, shadows)
    requires Tracked(p, i, a, c) && !Bare(p, i, a, c)
    ensures Merged(KeepDeadEntries(n, i), x, y, shadows).entries == Single(SpanEntry(p, i, a, c))
  {
    hide MergeVersion, Merged, LevelHalf, Skew, LevelGap, Sheltered, Tracked, MetaOk, Bare, Shadowed, SpanEntry, Combined, Bad;
    var j := if i == 0 then 0 else i - 1;
    var o, e := if a == b then None else SpanEntry(p, i, a, b), SpanEntry(p, j, b, c);
    var v := MergeVersion(x.Version(), y.Version(), shadows);
    MetaMerge(p, n, i, l, a, b, c, x, y, shadows);
    MetaVersion(p, i, c, v);
    EntriesJoin(p, i, j, a, b, c, v);
    EntryKinds(p, i, a, b);
    EntryKinds(p, j, b, c);
    EntryKinds(p, i, a, c);
    assert x.entries == Single(o) && y.entries == Single(e);
    MergedEntries(KeepDeadEntries(n, i), x, y, shadows, o, e);
    if Shadowed(EntriesOf(shadows), K) {
      ShadowsSpare(p, n, i, l, a, b, c, x, y, shadows);
    }
  }

  lemma MetaVersion(p: Plan, i: nat, c: nat, v: nat)
    requires p.Valid() && MetaOk(p, i, c, Finish(v, []).meta)
    ensures c >= p.FirstShadowless() ==> v == 12
  {
  }

  /** Where nothing lies below, there is no tombstone. */
  lemma EntryKinds(p: Plan, i: nat, a: nat, b: nat)
    requires p.Valid()
    ensures a == 0 ==> SpanEntry(p, i, a, b) != Some(Dead(K))
    ensures AtKey(SpanEntry(p, i, a, b), K)
  {
    hide LevelHalf;
  }

  /** The shadows of the tombstone: one old bucket, and else buckets that end in protocol 12. */
  lemma BareShadows(p: Plan, l: nat, shadows: seq<Bucket>, m: nat)
    requires p.Valid() && p.Bottom() >= 0 && m < |shadows|
    requires Sheltered(SpannedAt(p), p.level, l, p.Bottom() + p.Period(), shadows)
    ensures shadows[m].Version() == 0 || shadows[m].Version() == 12
  {
    hide Sheltered, LevelHalf, Skew, LevelGap, Tracked, SpanEntry;
    Facts(p);
    var j, a, b := ShadowSpan(SpannedAt(p), p.level, l, p.Bottom() + p.Period(), shadows, m);
    TopsOfShadows(p.level, j);
    assert Spanned(p, j, a, b, shadows[m]);
  }

  lemma NewestShadow(p: Plan)
    requires p.Valid()
    ensures var b := p.Bottom() + p.Period() + Skew(p.level - 1) - Skew(0);
            && LevelHalf(0) == 2 && b >= 2 && p.Bottom() >= 0
            && Tracked(p, 0, b - 2, b) && SpanEntry(p, 0, b - 2, b) == Some(Init(K, 2))
  {
    Facts(p);
    TopsOfShadows(p.level, 0);
    HalfQuadruples(0);
    hide LevelHalf, Skew, LevelGap;
  }

  /** The newest of them has the key. */
  lemma BareShadowed(p: Plan, l: nat, shadows: seq<Bucket>)
    requires p.Valid() && p.Bottom() >= 0
    requires Sheltered(SpannedAt(p), p.level, l, p.Bottom() + p.Period(), shadows)
    ensures Shadowed(EntriesOf(shadows), K)
  {
    hide Sheltered, LevelHalf, Skew, LevelGap, MetaOk, Tracked, SpanEntry;
    ShadowsThere(p, l, p.Bottom() + p.Period(), shadows);
    var j, a, b := ShadowSpan(SpannedAt(p), p.level, l, p.Bottom() + p.Period(), shadows, 0);
    NewestShadow(p);
    assert Spanned(p, 0, a, b, shadows[0]);
    assert HasKey(EntriesOf(shadows)[0], K);
  }

  lemma TopsOfShadows(level: nat, j: nat)
    requires level >= 2 && j <= level - 2
    ensures j < level - 2 ==> Skew(j) + LevelHalf(j) <= Skew(level - 2)
    ensures Skew(0) == 1
  {
    hide LevelHalf;
    if j < level - 2 {
      assert Skew(j + 1) == Skew(j) + 2 * LevelHalf(j);
      SkewGrows(j + 1, level - 2);
    }
  }

  /** The tombstone is dropped. */
  lemma BareMerge(p: Plan, n: nat, l: nat, b: nat, x: Bucket, y: Bucket, shadows: seq<Bucket>)
    requires p.Valid() && n == p.level + 2
    requires p.Bottom() >= 0
    requires Mergeable(BucketAlgebra(), SpannedAt(p), n, p.level, l, p.Bottom(), b, p.Bottom() + p.Period(), x, y, shadows)
    ensures Merged(KeepDeadEntries(n, p.level), x, y, shadows).entries == []
  {
    hide MergeVersion, MergeEntries, LevelHalf, Skew, Sheltered, Shadowed;
    Facts(p);
    assert b == p.Bottom() && x == EMPTY;
    LagBelowSkew(p.level - 1);
    TombstoneWhole(p);
    assert y == Bucket(None, [Dead(K)]);
    forall m | 0 <= m < |shadows| ensures shadows[m].Version() == 0 || shadows[m].Version() == 12 {
      BareShadows(p, l, shadows, m);
    }
    BareShadowed(p, l, shadows);
    VersionMeans(0, 0, shadows);
    SingleMerge(Rules(0, false, true), EntriesOf(shadows), None, Some(Dead(K)));
  }

  lemma ShadowsThere(p: Plan, l: nat, c: nat, shadows: seq<Bucket>)
    requires p.level >= 2 && Sheltered(SpannedAt(p), p.level, l, c, shadows)
    ensures |shadows| >= 2
  {
  }

  /** Before it is merged into the level, the tombstone is in a bucket of the old version. */
  lemma TombstoneWhole(p: Plan)
    requires p.Valid()
    ensures p.Bottom() > 0
    ensures var a, b, i := p.Bottom(), p.Bottom() + p.Period(), p.level - 1;
            && Tracked(p, i, a, b) && SpanEntry(p, i, a, b) == Some(Dead(K))
            && (forall meta | MetaOk(p, i, b, meta) :: meta == None)
  {
    Facts(p);
    assert Lag(p.level - 1) == Skew(p.level - 2);
    hide LevelHalf, Skew, Lag;
  }

  lemma SpannedMerge(p: Plan, n: nat, i: nat, l: nat, a: nat, b: nat, c: nat, x: Bucket, y: Bucket, shadows: seq<Bucket>)
    requires p.Valid() && n == p.level + 2
    requires Mergeable(BucketAlgebra(), SpannedAt(p), n, i, l, a, b, c, x, y, shadows)
    ensures Spanned(p, i, a, c, Merged(KeepDeadEntries(n, i), x, y, shadows))
  {
    hide MergeVersion, MergeEntries, LevelHalf, Skew, Sheltered, MetaOk, LevelGap, Mergeable, Merged;
    MetaMerge(p, n, i, l, a, b, c, x, y, shadows);
    MergedMeta(KeepDeadEntries(n, i), x, y, shadows);
    NotEmptySpan(p, n, i, l, a, b, c, x, y, shadows);
    if Bare(p, i, a, c) {
      BareMerge(p, n, l, b, x, y, shadows);
    } else if Tracked(p, i, a, c) {
      hide Tracked, SpanEntry, Bare;
      ContentMerge(p, n, i, l, a, b, c, x, y, shadows);
    }
  }

  lemma MergedMeta(keepDead: bool, x: Bucket, y: Bucket, shadows: seq<Bucket>)
    ensures Merged(keepDead, x, y, shadows).meta == Finish(MergeVersion(x.Version(), y.Version(), shadows), []).meta
  {
    hide MergeEntries, MergeVersion;
  }

  lemma NotEmptySpan(p: Plan, n: nat, i: nat, l: nat, a: nat, b: nat, c: nat, x: Bucket, y: Bucket, shadows: seq<Bucket>)
    requires p.Valid() && Mergeable(BucketAlgebra(), SpannedAt(p), n, i, l, a, b, c, x, y, shadows)
    ensures a < c
  {
    hide Sheltered, Spanned;
  }

  lemma SpannedLaws(p: Plan, n: nat)
    requires p.Valid() && n == p.level + 2
    ensures Laws(BucketAlgebra(), SpannedAt(p), n)
  {
    var alg, good := BucketAlgebra(), SpannedAt(p);
    hide Merged, Mergeable, Tracked, MetaOk, SpanEntry;
    forall i, l, a, b, c, x, y, shadows | Mergeable(alg, good, n, i, l, a, b, c, x, y, shadows)
      ensures good(i, l, a, c, alg.merge(KeepDeadEntries(n, i), x, y, shadows))
    {
      SpannedMerge(p, n, i, l, a, b, c, x, y, shadows);
    }
  }

  // ---- The run

  function End(p: Plan): State<Bucket>
    requires p.level >= 2
  {
    Run(BucketAlgebra(), p.level + 2, Closings(p, p.Length()))
  }

  lemma BatchSpanned(p: Plan, t: nat)
    requires p.Valid()
    ensures Spanned(p, 0, t, t + 1, BatchBucket(BatchAt(p, t + 1)))
  {
    Facts(p);
    hide LevelHalf, Skew;
  }

  lemma GoodClosings(p: Plan, m: nat)
    requires p.Valid()
    ensures GoodBatches(SpannedAt(p), Closes(Closings(p, m)))
  {
    hide BucketAlgebra, Spanned, BatchAt, BatchBucket, Closings, Closes, LevelHalf, Skew, LevelGap;
    ClosingsAre(p, m);
    forall i | 0 <= i < m ensures GoodBatch(SpannedAt(p), Closings(p, m)[i], i) {
      BatchSpanned(p, i);
    }
  }

  lemma Reached(p: Plan)
    requires p.Valid()
    ensures var s := End(p);
            s.ledger == p.Length() && |s.levels| == p.level + 2 && Covered(SpannedAt(p), s.levels, s.ledger)
  {
    hide Laws, BucketAlgebra, Run, SpannedAt, GoodBatches, Closings, Closes, Pending, PendingCovered;
    hide Covered, LevelHalf, LevelGap;
    var n, m := p.level + 2, p.Length();
    SpannedLaws(p, n);
    ClosingsAre(p, m);
    GoodClosings(p, m);
    RunInv(BucketAlgebra(), SpannedAt(p), n, Closings(p, m));
  }

  /** At the end the value is in the snap of the level, and nothing is left of the key above it or below. */
  lemma AtEnd(p: Plan, i: nat)
    requires p.Valid() && i < p.level + 2
    ensures |End(p).levels| == p.level + 2
    ensures End(p).levels[i].snap.entries == if i == p.level then [Live(K, 1)] else []
    ensures End(p).levels[i].curr.entries == []
  {
    hide End, CurrTop, SnapTop, LevelHalf, Skew, Spanned;
    Reached(p);
    Facts(p);
    var n, t, level := p.level + 2, p.Length(), End(p).levels[i];
    assert LevelCovered(SpannedAt(p), level, n, t, i);
    EndTops(p, i);
    EndEntries(p, i, SnapTop(n, t, i), CurrTop(n, t, i), level.curr);
    EndEntries(p, i, CurrTop(n, t, i + 1), SnapTop(n, t, i), level.snap);
  }

  lemma EndEntries(p: Plan, i: nat, a: nat, b: nat, x: Bucket)
    requires p.Valid() && Spanned(p, i, a, b, x)
    requires || a == b || a > p.Again() || p.Removal() <= a < p.Again() < b || Bare(p, i, a, b)
             || (i == p.level && a == 0 && b == p.Bottom())
    ensures x.entries == if a != b && i == p.level && a == 0 then [Live(K, 1)] else []
  {
    Facts(p);
    assert Lag(p.level) == Skew(p.level - 1);
    hide LevelHalf, Skew;
  }

  /** The boundaries at the end. */
  lemma EndTops(p: Plan, i: nat)
    requires p.Valid() && i < p.level + 2
    ensures var n, t := p.level + 2, p.Length();
            && (i > p.level ==> CurrTop(n, t, i) == SnapTop(n, t, i) == CurrTop(n, t, i + 1) == 0)
            && (i == p.level ==> CurrTop(n, t, i + 1) == 0 && SnapTop(n, t, i) == p.Bottom())
            && (i == p.level ==> CurrTop(n, t, i) == p.Bottom() + p.Period())
            && (i < p.level ==> SnapTop(n, t, i) > p.Again())
            && (i < p.level ==> CurrTop(n, t, i + 1) > p.Again() || p.Removal() <= CurrTop(n, t, i + 1) < p.Again())
  {
    hide LevelHalf, Skew, CurrTop, SnapTop, LevelGap;
    Facts(p);
    var n, t := p.level + 2, p.Length();
    EndTopsAt(n, t, p.level, p.level);
    if i > p.level {
      LastTops(n, t);
    } else if i == p.level {
      EndTopsAt(n, t, p.level, i - 1);
    } else {
      EndTopsAt(n, t, p.level, i);
      SkewGrows(i, p.level - 1);
      if i < p.level - 1 {
        HalfMonotone(i, p.level - 2);
        SkewGrows(i, p.level - 2);
      }
    }
  }

  lemma EndTopsAt(n: nat, t: nat, level: nat, i: nat)
    requires i <= level && level + 1 < n && t == LevelHalf(level)
    ensures SnapTop(n, t, i) == t - Skew(i) && CurrTop(n, t, i + 1) == Clamp(t - LevelHalf(i) - Skew(i))
  {
    hide LevelHalf, Skew, CurrTop, SnapTop;
    MultipleOfItself(t);
    SpillTops(n, t - 1, level, i);
    BoundariesMove(n, t - 1, i);
  }

  lemma MultipleOfItself(t: nat)
    requires t > 0
    ensures t % t == 0
  {
  }

  lemma LastTops(n: nat, t: nat)
    requires n >= 1
    ensures SnapTop(n, t, n - 1) == 0 && CurrTop(n, t, n) == 0
  {
  }

  // ---- The reader

  lemma PushLevel(older: Buckets, s: seq<Entry>, c: seq<Entry>, live: bool)
    requires AllSorted(older) && c == [] && s == if live then [Live(K, 1)] else []
    ensures AllSorted(older + [s] + [c])
    ensures Newest(older + [s] + [c], K) == if live then Some(Live(K, 1)) else Newest(older, K)
  {
    hide AllSorted, Newest;
    NewestPush(older, s, K);
    NewestPush(older + [s], c, K);
    SortedPush(older, s);
    SortedPush(older + [s], c);
  }

  lemma SortedPush(list: Buckets, s: seq<Entry>)
    requires AllSorted(list) && |s| <= 1
    ensures AllSorted(list + [s])
  {
  }

  lemma NoLevels(levels: Levels<Bucket>)
    requires levels == []
    ensures AllSorted(EntriesOf(OldestFirst(levels))) && Newest(EntriesOf(OldestFirst(levels)), K) == None
  {
  }

  lemma {:induction false} NewestOfLevels(p: Plan, from: nat)
    requires p.Valid() && from <= p.level + 2
    ensures |End(p).levels| == p.level + 2
    ensures var list := EntriesOf(OldestFirst(End(p).levels[from..]));
            AllSorted(list) && Newest(list, K) == if from <= p.level then Some(Live(K, 1)) else None
    decreases p.level + 2 - from
  {
    hide End, Newest, AllSorted, LevelHalf, LevelGap, Covered;
    Reached(p);
    var levels := End(p).levels;
    if from == p.level + 2 {
      NoLevels(levels[from..]);
    } else {
      NewestOfLevels(p, from + 1);
      AtEnd(p, from);
      assert levels[from..][1..] == levels[from + 1..];
      var older := EntriesOf(OldestFirst(levels[from + 1..]));
      var s, c := levels[from].snap.entries, levels[from].curr.entries;
      assert EntriesOf(OldestFirst(levels[from..])) == older + [s] + [c];
      PushLevel(older, s, c, from == p.level);
    }
  }

  /** The history is legal and its protocols `gap` apart, and after it the list has a key the database has not. */
  lemma JumpBringsKeyBack(p: Plan)
    requires p.Valid()
    ensures var h, events := Jump(p), Closings(p, p.Length());
            && LegalBatches(h) && Apart(h, p.gap) && Closing(h, events) && |Closes(events)| == |h|
            && K !in StateAt(h, |h|)
            && K in ApplyAll(map[], EntriesOf(OldestFirst(Run(BucketAlgebra(), p.level + 2, events).levels)))
  {
    hide LegalBatches, Apart, Run, Closings, Closes, StateAt, Newest, AllSorted, LevelHalf, LevelGap, Skew, Jump;
    JumpIsLegal(p);
    ClosingsAre(p, p.Length());
    KeyAt(p, p.Length());
    ValueAtStart(p);
    NewestOfLevels(p, 0);
    var levels := End(p).levels;
    assert levels[0..] == levels;
    ReaderSeesNewest(EntriesOf(OldestFirst(levels)), K);
  }

  // ---- The exact distance

  /** A list of `n` levels holds the database along every legal history whose upgrades are this far apart. */
  ghost predicate Safe(n: nat, gap: int) {
    forall h, events | LegalBatches(h) && Apart(h, gap) && Closing(h, events) :: HoldsDatabase(h, n, events)
  }

  lemma OldComesFirst(h: seq<Batch>)
    requires LegalBatches(h)
    ensures Apart(h, 1)
  {
    hide LegalBatches;
    forall i: nat, j: nat | OldAt(h, i) && ShadowlessAt(h, j) ensures j - i >= 1 {
      if j <= i {
        ProtocolsAscend(h, j, i);
      }
    }
  }

  lemma JumpIsUnsafe(n: nat, gap: nat)
    requires n >= 4 && 1 <= gap <= WorstGap(n)
    ensures !Safe(n, gap)
  {
    hide LegalBatches, Apart, Closing, Jump, Run, Closings, StateAt;
    var p := Plan(n - 2, gap);
    JumpBringsKeyBack(p);
    assert !HoldsDatabase(Jump(p), n, Closings(p, p.Length()));
  }

  /**
    The distance that upgrades need is exactly one more than `WorstGap`: with it every legal history
    is safe, and with less some legal history is not.  Lists of two or three levels need none.
   */
  lemma UpgradeThreshold(n: nat, gap: nat)
    requires n >= 2
    ensures Safe(n, gap) <==> n < 4 || gap > WorstGap(n)
  {
    hide LegalBatches, HoldsDatabase, Closes;
    if n < 4 || gap > WorstGap(n) {
      forall h, events | LegalBatches(h) && Apart(h, gap) && Closing(h, events) ensures HoldsDatabase(h, n, events) {
        OldComesFirst(h);
        RunHoldsDatabase(h, n, events);
      }
    } else {
      GapGrows(0, n - 4);
      HalfQuadruples(0);
      JumpIsUnsafe(n, if gap == 0 then 1 else gap);
      if gap == 0 && Safe(n, 0) {
        SafeSooner(n);
      }
    }
  }

  lemma SafeSooner(n: nat)
    requires Safe(n, 0)
    ensures Safe(n, 1)
  {
    hide LegalBatches, HoldsDatabase, Closes;
  }
}
