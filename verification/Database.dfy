/**
  The bucket list holds the database, under every protocol and across upgrades.

  Before protocol 12 a merge drops entries that newer buckets shadow.  It looks
  at the shadows of the ledger it was started in, and its output is used many
  ledgers later.  What makes this sound is said key by key, through the last
  ledger that touched the key: a bucket owes the reader the key's value only
  while no later ledger has touched it.  Tombstones are owed longer, because a
  later INIT and DEAD may annihilate each other and uncover what lies below.
 */
module Database {
  import opened Options
  import opened Entries
  import opened Merge
  import opened MergeTheorems
  import opened ListInvariant
  import opened Schedule
  import opened Machine
  import opened LedgerSpans
  import opened History

  // ---- Histories

  /** Ledger `b` closed under a protocol without INIT. */
  predicate OldAt(h: seq<Batch>, b: nat) {
    0 < b <= |h| && h[b - 1].protocol < FIRST_PROTOCOL_SUPPORTING_INITENTRY_AND_METAENTRY
  }

  predicate ShadowlessAt(h: seq<Batch>, b: nat) {
    0 < b <= |h| && h[b - 1].protocol >= FIRST_PROTOCOL_SHADOWS_REMOVED
  }

  /** A creation is an INIT only from protocol 11 on, and only of a key the database does not have. */
  ghost predicate LegalBatch(h: seq<Batch>, i: nat)
    requires i < |h|
  {
    forall k :: IsInit(Find(h[i].entries, k)) ==> !OldAt(h, i + 1) && k !in StateAt(h, i)
  }

  /** The first ledger without shadows comes at least `gap` ledgers after the last one without INIT. */
  ghost predicate Apart(h: seq<Batch>, gap: int) {
    forall i: nat, j: nat :: OldAt(h, i) && ShadowlessAt(h, j) ==> j - i >= gap
  }

  /**
    How far apart they can be while shadows at level `m + 2` still have no bucket of protocol 11: a
    bucket of level `m` covers `LevelHalf(m)` ledgers, and the one before it was itself merged
    under the shadow of the first of them.
   */
  function LevelGap(m: nat): int {
    if m == 0 then LevelHalf(0) else LevelHalf(m) - Skew(m - 1) + 1
  }

  /** The greatest distance at which a list of `n` levels can lose a tombstone: 2 for 4 levels, 27308 for 11. */
  function WorstGap(n: nat): int {
    if n < 4 then 0 else LevelGap(n - 4)
  }

  /** Sorted batches that create only absent keys, under protocols that do not go down. */
  ghost predicate LegalBatches(h: seq<Batch>) {
    && (forall i :: 0 <= i < |h| ==> Sorted(h[i].entries) && LegalBatch(h, i))
    && (forall i, j :: 0 <= i < j < |h| ==> h[i].protocol <= h[j].protocol)
  }

  ghost predicate LegalHistory(h: seq<Batch>, n: nat) {
    LegalBatches(h) && Apart(h, WorstGap(n) + 1)
  }

  lemma BatchSorted(h: seq<Batch>, i: nat)
    requires LegalBatches(h) && i < |h|
    ensures Sorted(h[i].entries)
  {
    hide Sorted, LegalBatch;
  }

  lemma ProtocolsAscend(h: seq<Batch>, b: nat, c: nat)
    requires LegalBatches(h) && 0 < b <= c <= |h|
    ensures h[b - 1].protocol <= h[c - 1].protocol
  {
    hide Sorted, LegalBatch;
  }

  // ---- The last ledger that touched a key

  predicate Touches(h: seq<Batch>, l: nat, onlyOld: bool, k: Key) {
    0 < l <= |h| && HasKey(h[l - 1].entries, k) && (onlyOld ==> OldAt(h, l))
  }

  /** The newest of the first `l` ledgers, or of the old ones among them, whose batch has `k`; 0 if there is none. */
  function Latest(h: seq<Batch>, l: nat, onlyOld: bool, k: Key): (t: nat)
    ensures t <= l && (t > 0 ==> Touches(h, t, onlyOld, k))
  {
    if l == 0 || Touches(h, l, onlyOld, k) then l else Latest(h, l - 1, onlyOld, k)
  }

  lemma {:induction false} LatestGrows(h: seq<Batch>, b: nat, l: nat, onlyOld: bool, k: Key)
    requires b <= l
    ensures Latest(h, b, onlyOld, k) <= Latest(h, l, onlyOld, k)
    ensures Latest(h, l, onlyOld, k) <= b ==> Latest(h, l, onlyOld, k) == Latest(h, b, onlyOld, k)
  {
    hide Touches;
    if b == l {
    } else {
      LatestGrows(h, b, l - 1, onlyOld, k);
    }
  }

  lemma {:induction false} OldIsEarlier(h: seq<Batch>, l: nat, k: Key)
    ensures Latest(h, l, true, k) <= Latest(h, l, false, k)
  {
    if l == 0 {
    } else {
      OldIsEarlier(h, l - 1, k);
    }
  }

  /** Up to an old ledger all ledgers are old. */
  lemma {:induction false} AllOldBefore(h: seq<Batch>, b: nat, k: Key)
    requires LegalBatches(h) && OldAt(h, b)
    ensures Latest(h, b, true, k) == Latest(h, b, false, k)
  {
    hide LegalBatches, HasKey;
    if b > 1 && !Touches(h, b, true, k) {
      ProtocolsAscend(h, b - 1, b);
      AllOldBefore(h, b - 1, k);
    }
  }

  /** A key that no ledger between touches keeps its value. */
  lemma {:induction false} Untouched(h: seq<Batch>, b: nat, c: nat, k: Key)
    requires LegalBatches(h) && b <= c <= |h| && Latest(h, c, false, k) <= b
    ensures Get(StateAt(h, c), k) == Get(StateAt(h, b), k)
  {
    hide LegalBatches;
    if b == c {
    } else {
      Untouched(h, b, c - 1, k);
      BatchSorted(h, c - 1);
      ApplyAt(StateAt(h, c - 1), h[c - 1].entries, k);
    }
  }

  // ---- What a bucket owes at one key

  /** The database does not have the key at `a`, and no old ledger since has touched it. */
  ghost predicate Absent(h: seq<Batch>, l: nat, a: nat, k: Key)
    requires a <= |h|
  {
    Latest(h, l, true, k) <= a && Get(StateAt(h, a), k) == None
  }

  predicate IsDead(e: Option<Entry>) {
    e.Some? && e.value.Dead?
  }

  /** At ledger `l` the entry, or its absence, may stand for ledgers `a + 1` to `b`. */
  ghost predicate Stands(h: seq<Batch>, l: nat, a: nat, b: nat, e: Option<Entry>, k: Key)
    requires a <= |h| && b <= |h|
  {
    && (e.Some? ==> Latest(h, b, false, k) > a)
    && (IsInit(e) ==> !OldAt(h, b) && (a == 0 || Absent(h, l, a, k)))
    && (a < Latest(h, l, false, k) <= b && Get(StateAt(h, b), k).Some? ==> Effect(None, e) == Get(StateAt(h, b), k))
    && (Absent(h, l, b, k) ==> IsDead(e) || (e == None && (a == 0 || Absent(h, l, a, k))))
  }

  lemma StandsLater(h: seq<Batch>, l: nat, a: nat, b: nat, e: Option<Entry>, k: Key)
    requires LegalBatches(h) && a < b <= |h| && b <= l && Stands(h, l, a, b, e, k)
    ensures Stands(h, l + 1, a, b, e, k)
  {
    hide LegalBatches, StateAt, Get, Effect, IsInit, HasKey;
    if IsInit(e) && OldAt(h, l + 1) {
      ProtocolsAscend(h, b, l + 1);
    }
  }

  /** Two neighbours never meet as a malformed pair. */
  lemma StandsNeverBad(h: seq<Batch>, l: nat, a: nat, b: nat, c: nat, o: Option<Entry>, n: Option<Entry>, k: Key, version: nat)
    requires a <= b <= c <= |h| && Stands(h, l, a, b, o, k) && Stands(h, l, b, c, n, k)
    requires b == 0 ==> o == None
    requires !OldAt(h, c) ==> version >= FIRST_PROTOCOL_SUPPORTING_INITENTRY_AND_METAENTRY
    requires OldAt(h, c) ==> OldAt(h, b) || o == None
    ensures !Bad(version, o, n)
  {
    hide Latest, StateAt, Get, Effect;
  }

  lemma StandsJoin(h: seq<Batch>, l: nat, a: nat, b: nat, c: nat, o: Option<Entry>, e: Option<Entry>, k: Key)
    requires LegalBatches(h) && a <= b < c <= |h| && c <= l
    requires Stands(h, l, a, b, o, k) && Stands(h, l, b, c, e, k) && (a == b ==> o == None)
    ensures Stands(h, l, a, c, Combined(o, e), k)
  {
    LatestGrows(h, b, c, false, k);
    LatestGrows(h, c, l, false, k);
    if Latest(h, c, false, k) <= b {
      Untouched(h, b, c, k);
    }
    if IsInit(o) && OldAt(h, c) {
      ProtocolsAscend(h, b, c);
    }
    hide LegalBatches, Latest, StateAt, Get;
  }

  /**
    What a merge may drop: a value that a later ledger has touched, a tombstone that an
    old ledger has, and a tombstone when nothing lies below.
   */
  lemma StandsDropped(h: seq<Batch>, l: nat, a: nat, c: nat, e: Entry, k: Key)
    requires a <= c <= |h| && Stands(h, l, a, c, Some(e), k)
    requires || (e.Live? && Latest(h, l, false, k) > c)
             || (Latest(h, l, true, k) > c)
             || (e.Dead? && a == 0)
    ensures Stands(h, l, a, c, None, k)
  {
    OldIsEarlier(h, l, k);
    hide Latest, StateAt, Get;
  }

  // ---- Buckets

  /**
    A bucket carries the version of its newest ledger.  An old one may have been merged under shadows of
    protocol 11; if it was not, the ledgers its shadows covered were old as well.
   */
  predicate VersionOk(h: seq<Batch>, n: nat, i: nat, l: nat, b: nat, x: Bucket) {
    0 < b <= |h| &&
    if OldAt(h, b) then
      || (x.meta == None && (0 < i < n - 1 ==> OldAt(h, b + Skew(i - 1) - 1)))
      || (x.meta == Some(FIRST_PROTOCOL_SUPPORTING_INITENTRY_AND_METAENTRY) && l > 0 && !OldAt(h, l))
    else x.meta == Some(h[b - 1].protocol)
  }

  ghost predicate Standing(h: seq<Batch>, n: nat, i: nat, l: nat, a: nat, b: nat, x: Bucket) {
    if a == b then x == EMPTY
    else
      && a < b <= |h|
      && VersionOk(h, n, i, l, b, x)
      && Sorted(x.entries)
      && forall k :: Stands(h, l, a, b, Find(x.entries, k), k)
  }

  ghost function StandingAt(h: seq<Batch>, n: nat): (nat, nat, nat, nat, Bucket) -> bool {
    (i: nat, l: nat, a: nat, b: nat, x: Bucket) => Standing(h, n, i, l, a, b, x)
  }

  lemma EmptyStands(h: seq<Batch>, l: nat, a: nat, k: Key)
    requires a <= |h|
    ensures Stands(h, l, a, a, None, k)
  {
  }

  lemma StandingAtKey(h: seq<Batch>, n: nat, i: nat, l: nat, a: nat, b: nat, x: Bucket, k: Key)
    requires Standing(h, n, i, l, a, b, x) && b <= |h|
    ensures a <= b && Sorted(x.entries) && Stands(h, l, a, b, Find(x.entries, k), k)
    ensures a == b ==> Find(x.entries, k) == None
  {
    hide Stands;
    if a == b {
      EmptyStands(h, l, a, k);
    }
  }

  // ---- Versions

  lemma StandingVersion(h: seq<Batch>, n: nat, i: nat, l: nat, a: nat, b: nat, x: Bucket)
    requires Standing(h, n, i, l, a, b, x)
    ensures a != b ==> a < b <= |h| && VersionOk(h, n, i, l, b, x)
    ensures a == b ==> x == EMPTY
  {
  }

  lemma {:induction false} GapGrows(m: nat, k: nat)
    requires m <= k
    ensures LevelGap(m) <= LevelGap(k)
    ensures LevelHalf(m) - Skew(m) + 1 <= LevelGap(k)
    ensures m < k ==> LevelHalf(m) <= LevelGap(k)
    decreases k
  {
    hide LevelHalf;
    HalfQuadruples(m);
    SkewBelowHalf(m);
    if m < k {
      GapGrows(m, k - 1);
      HalfQuadruples(k - 1);
      SkewBelowHalf(k - 1);
      HalfMonotone(m, k - 1);
      if k > 1 {
        HalfQuadruples(k - 2);
        SkewBelowHalf(k - 2);
      }
    } else if m > 0 {
      SkewGrows(m - 1, m);
    }
  }

  /** For four, five and six levels, and for the eleven of the source. */
  lemma WorstGaps()
    ensures WorstGap(4) == 2 && WorstGap(5) == 8 && WorstGap(6) == 28 && WorstGap(11) == 27308
  {
    hide LevelHalf;
    HalfQuadruples(0);
    HalfQuadruples(1);
    HalfQuadruples(2);
    HalfQuadruples(3);
    HalfQuadruples(4);
    HalfQuadruples(5);
    HalfQuadruples(6);
    assert Skew(1) == 5 && Skew(2) == 21 && Skew(3) == 85;
    assert Skew(4) == 341 && Skew(5) == 1365 && Skew(6) == 5461;
  }

  /** A shadow that makes the merge keep tombstones: one of protocol 11, neither older nor newer. */
  predicate Careful(s: Bucket) {
    FIRST_PROTOCOL_SUPPORTING_INITENTRY_AND_METAENTRY <= s.Version() < FIRST_PROTOCOL_SHADOWS_REMOVED
  }

  /** Neither of protocol 11 nor so far from an old ledger that it can be newer: old. */
  lemma TopOld(h: seq<Batch>, n: nat, i: nat, l: nat, a: nat, b: nat, x: Bucket, before: nat)
    requires LegalHistory(h, n) && a < b && Standing(h, n, i, l, a, b, x) && OldAt(h, before) && b - before <= WorstGap(n)
    requires !Careful(x)
    ensures OldAt(h, b) && x.meta == None && (0 < i < n - 1 ==> OldAt(h, b + Skew(i - 1) - 1))
  {
    hide Standing, WorstGap, LegalBatches;
    StandingVersion(h, n, i, l, a, b, x);
    VersionSmall(h, n, i, l, a, b, x);
    assert !ShadowlessAt(h, b);
  }

  /** No shadow is of protocol 11, as far as the merge's version tells. */
  ghost predicate Unwarned(shadows: seq<Bucket>) {
    forall m :: 0 <= m < |shadows| ==> !Careful(shadows[m])
  }

  /** One level of shadows, from an old ledger near enough below it. */
  lemma LevelOld(h: seq<Batch>, n: nat, j: nat, l: nat, t: nat, curr: Bucket, snap: Bucket, before: nat)
    requires LegalHistory(h, n) && j + 4 <= n && ShelterAt(StandingAt(h, n), l, t, j, curr, snap)
    requires !Careful(curr) && !Careful(snap)
    requires OldAt(h, before) && t - LevelHalf(j) - Skew(j) - before <= WorstGap(n)
    ensures Skew(j + 1) <= t && OldAt(h, t - LevelHalf(j) - Skew(j)) && OldAt(h, t - Skew(j))
  {
    hide Standing, LevelHalf, LegalHistory, Careful;
    assert Skew(j + 1) == Skew(j) + 2 * LevelHalf(j);
    GapGrows(j, n - 4);
    var top := t - LevelHalf(j) - Skew(j);
    TopOld(h, n, j, l, t - Skew(j + 1), top, snap, before);
    TopOld(h, n, j, l, top, t - Skew(j), curr, if j == 0 then top else top + Skew(j - 1) - 1);
  }

  /**
    A merge of old buckets that no shadow of protocol 11 warns is under old shadows only: walking
    from its newest ledger up through the shadows, no step is far enough to reach protocol 12.
   */
  lemma {:induction false} ShadowsOld(h: seq<Batch>, n: nat, i: nat, l: nat, c: nat, shadows: seq<Bucket>, j: nat)
    requires LegalHistory(h, n) && 2 <= i < n - 1 && j <= i - 2
    requires OldAt(h, c) && OldAt(h, c + Skew(i - 2) - 1)
    requires Sheltered(StandingAt(h, n), i, l, c, shadows) && Unwarned(shadows)
    ensures var t := c + Skew(i - 1); Skew(j + 1) <= t && OldAt(h, t - LevelHalf(j) - Skew(j)) && OldAt(h, t - Skew(j))
    decreases i - j
  {
    hide Standing, LevelHalf, LegalHistory, Careful, ShelterAt;
    var t := c + Skew(i - 1);
    assert ShelterAt(StandingAt(h, n), l, t, j, shadows[2 * j], shadows[2 * j + 1]);
    assert !Careful(shadows[2 * j]) && !Careful(shadows[2 * j + 1]);
    assert Skew(j + 1) == Skew(j) + 2 * LevelHalf(j);
    GapGrows(j, n - 4);
    if j == i - 2 {
      LevelOld(h, n, j, l, t, shadows[2 * j], shadows[2 * j + 1], c + Skew(j) - 1);
    } else {
      ShadowsOld(h, n, i, l, c, shadows, j + 1);
      LevelOld(h, n, j, l, t, shadows[2 * j], shadows[2 * j + 1], t - Skew(j + 1));
    }
  }

  /** No version lies between 0 and 11. */
  lemma VersionSmall(h: seq<Batch>, n: nat, i: nat, l: nat, a: nat, b: nat, x: Bucket)
    requires Standing(h, n, i, l, a, b, x)
    ensures x.Version() == 0 || x.Version() >= FIRST_PROTOCOL_SUPPORTING_INITENTRY_AND_METAENTRY
  {
    hide Stands, Sorted;
  }

  /** A shadow of protocol 11 shows that the ledgers have left the old protocols. */
  lemma CarefulLater(h: seq<Batch>, n: nat, i: nat, l: nat, c: nat, shadows: seq<Bucket>, m: nat)
    requires LegalBatches(h) && i > 0 && Sheltered(StandingAt(h, n), i, l, c, shadows) && c + Skew(i - 1) <= l
    requires m < |shadows| && Careful(shadows[m])
    ensures l > 0 && !OldAt(h, l)
  {
    hide LegalBatches, Standing, Sheltered, Skew;
    var j, a, b := ShadowSpan(StandingAt(h, n), i, l, c, shadows, m);
    StandingVersion(h, n, j, l, a, b, shadows[m]);
    if l <= |h| {
      ProtocolsAscend(h, b, l);
    }
  }

  /** Below the last level a merge by the old rules has old shadows only. */
  lemma UnwarnedOld(h: seq<Batch>, n: nat, i: nat, l: nat, c: nat, shadows: seq<Bucket>, m: nat)
    requires LegalHistory(h, n) && 2 <= i < n - 1
    requires OldAt(h, c) && OldAt(h, c + Skew(i - 2) - 1)
    requires Sheltered(StandingAt(h, n), i, l, c, shadows) && Unwarned(shadows) && m < |shadows|
    ensures shadows[m].Version() == 0
  {
    hide LegalHistory, Standing, Sheltered, Skew, LevelHalf;
    var j, a, b := ShadowSpan(StandingAt(h, n), i, l, c, shadows, m);
    ShadowsOld(h, n, i, l, c, shadows, j);
    StandingVersion(h, n, j, l, a, b, shadows[m]);
    assert !Careful(shadows[m]);
  }

  /** The version of a merge as level `i` starts it. */
  lemma MergeVersionOk(h: seq<Batch>, n: nat, i: nat, l: nat, a: nat, b: nat, c: nat, x: Bucket, y: Bucket,
                       shadows: seq<Bucket>)
    requires LegalHistory(h, n) && Mergeable(BucketAlgebra(), StandingAt(h, n), n, i, l, a, b, c, x, y, shadows)
    ensures var v := MergeVersion(x.Version(), y.Version(), shadows);
            && VersionOk(h, n, i, l, c, Finish(v, []))
            && (v >= FIRST_PROTOCOL_SHADOWS_REMOVED ==> shadows == [])
            && (v < FIRST_PROTOCOL_SUPPORTING_INITENTRY_AND_METAENTRY ==>
                  OldAt(h, c) && (i < n - 1 ==> forall m :: 0 <= m < |shadows| ==> shadows[m].Version() == 0))
  {
    hide LegalBatches, Apart, MergeVersion, Standing, Skew, Sheltered;
    var v := MergeVersion(x.Version(), y.Version(), shadows);
    VersionMeans(x.Version(), y.Version(), shadows);
    StandingVersion(h, n, i, l, a, b, x);
    StandingVersion(h, n, if i == 0 then 0 else i - 1, l, b, c, y);
    if a != b {
      ProtocolsAscend(h, b, c);
    }
    if OldAt(h, c) {
      OldMergeVersion(h, n, i, l, a, b, c, x, y, shadows);
    }
  }

  lemma OldMergeVersion(h: seq<Batch>, n: nat, i: nat, l: nat, a: nat, b: nat, c: nat, x: Bucket, y: Bucket,
                        shadows: seq<Bucket>)
    requires LegalHistory(h, n) && Mergeable(BucketAlgebra(), StandingAt(h, n), n, i, l, a, b, c, x, y, shadows) && OldAt(h, c)
    ensures var v := MergeVersion(x.Version(), y.Version(), shadows);
            && VersionOk(h, n, i, l, c, Finish(v, []))
            && v < FIRST_PROTOCOL_SHADOWS_REMOVED
            && (v < FIRST_PROTOCOL_SUPPORTING_INITENTRY_AND_METAENTRY && i < n - 1 ==>
                  forall m :: 0 <= m < |shadows| ==> shadows[m].Version() == 0)
  {
    hide LegalBatches, Apart, MergeVersion, Standing, Sheltered;
    var v := MergeVersion(x.Version(), y.Version(), shadows);
    VersionMeans(x.Version(), y.Version(), shadows);
    StandingVersion(h, n, i, l, a, b, x);
    StandingVersion(h, n, if i == 0 then 0 else i - 1, l, b, c, y);
    if a != b {
      ProtocolsAscend(h, b, c);
    }
    forall m | 0 <= m < |shadows| && Careful(shadows[m]) ensures l > 0 && !OldAt(h, l) {
      CarefulLater(h, n, i, l, c, shadows, m);
    }
    forall m | 0 <= m < |shadows| && !Careful(shadows[m])
      ensures shadows[m].Version() == 0 || !Counted(shadows[m])
    {
      var j, a', b' := ShadowSpan(StandingAt(h, n), i, l, c, shadows, m);
      VersionSmall(h, n, j, l, a', b', shadows[m]);
    }
    if v < FIRST_PROTOCOL_SUPPORTING_INITENTRY_AND_METAENTRY && 0 < i < n - 1 {
      forall m | 0 <= m < |shadows| ensures !Careful(shadows[m]) {
        assert Counted(shadows[m]) ==> shadows[m].Version() <= v;
      }
      assert Sheltered(StandingAt(h, n), i, l, c, shadows);
      if i == 1 {
        NoShadowsAtOne(h, n, l, c, shadows);
      } else {
        forall m | 0 <= m < |shadows| ensures shadows[m].Version() == 0 {
          UnwarnedOld(h, n, i, l, c, shadows, m);
        }
        ShadowsOld(h, n, i, l, c, shadows, 0);
      }
    }
  }

  lemma NoShadowsAtOne(h: seq<Batch>, n: nat, l: nat, c: nat, shadows: seq<Bucket>)
    requires Sheltered(StandingAt(h, n), 1, l, c, shadows)
    ensures shadows == []
  {
  }

  // ---- Shadows

  lemma ShadowTouches(h: seq<Batch>, n: nat, j: nat, l: nat, a: nat, b: nat, c: nat, s: Bucket, k: Key)
    requires LegalBatches(h) && c <= a < b <= l && Standing(h, n, j, l, a, b, s) && HasKey(s.entries, k)
    ensures Latest(h, l, false, k) > c
    ensures s.Version() == 0 ==> Latest(h, l, true, k) > c
  {
    hide LegalBatches, Latest, Skew;
    assert Stands(h, l, a, b, Find(s.entries, k), k);
    LatestGrows(h, b, l, false, k);
    LatestGrows(h, b, l, true, k);
    if OldAt(h, b) {
      AllOldBefore(h, b, k);
    }
  }

  /** A key in the shadows has been touched since, and under old shadows by an old ledger. */
  lemma ShadowedTouched(h: seq<Batch>, n: nat, i: nat, l: nat, c: nat, shadows: seq<Bucket>, k: Key)
    requires LegalBatches(h) && i > 0 && Sheltered(StandingAt(h, n), i, l, c, shadows) && c + Skew(i - 1) <= l
    requires Shadowed(EntriesOf(shadows), k)
    ensures Latest(h, l, false, k) > c
    ensures (forall m :: 0 <= m < |shadows| ==> shadows[m].Version() == 0) ==> Latest(h, l, true, k) > c
  {
    hide LegalBatches, Latest, Sheltered, Standing, Skew;
    var m :| 0 <= m < |shadows| && HasKey(EntriesOf(shadows)[m], k);
    var j, a, b := ShadowSpan(StandingAt(h, n), i, l, c, shadows, m);
    ShadowTouches(h, n, j, l, a, b, c, shadows[m], k);
  }

  /** The shadows a merge at level `i` may have. */
  ghost predicate Shelters(h: seq<Batch>, n: nat, i: nat, l: nat, c: nat, shadows: seq<Bucket>) {
    shadows == [] || (i > 0 && Sheltered(StandingAt(h, n), i, l, c, shadows) && c + Skew(i - 1) <= l)
  }

  /** One key of a merge under shadows; when nothing lies below, the old rules are safe under any. */
  lemma MergedStands(h: seq<Batch>, n: nat, i: nat, rules: Rules, l: nat, a: nat, b: nat, c: nat,
                     o: Option<Entry>, e: Option<Entry>, shadows: seq<Bucket>, k: Key)
    requires LegalBatches(h) && a <= b < c <= |h| && c <= l && (rules.keepDead || a == 0)
    requires Shelters(h, n, i, l, c, shadows) && AtKey(o, k) && AtKey(e, k)
    requires !rules.keepLifecycle ==>
               OldAt(h, c) && (a == 0 || forall m :: 0 <= m < |shadows| ==> shadows[m].Version() == 0)
    requires Stands(h, l, a, b, o, k) && Stands(h, l, b, c, e, k) && (a == b ==> o == None)
    ensures Stands(h, l, a, c, Survivor(rules, EntriesOf(shadows), Combined(o, e)), k)
  {
    hide LegalBatches, Sheltered, Latest, StateAt, Get, Absent, Skew;
    var r := Combined(o, e);
    StandsJoin(h, l, a, b, c, o, e, k);
    assert IsInit(r) ==> !OldAt(h, c);
    hide Stands;
    if r.Some? && !Kept(rules, EntriesOf(shadows), r.value) {
      if Shadowed(EntriesOf(shadows), k) {
        ShadowedTouched(h, n, i, l, c, shadows, k);
      }
      StandsDropped(h, l, a, c, r.value, k);
    }
  }

  lemma MergeNeverBad(h: seq<Batch>, n: nat, i: nat, j: nat, l: nat, a: nat, b: nat, c: nat, x: Bucket, y: Bucket,
                      version: nat, k: Key)
    requires LegalBatches(h) && a <= b < c <= |h| && Standing(h, n, i, l, a, b, x) && Standing(h, n, j, l, b, c, y)
    requires version < FIRST_PROTOCOL_SUPPORTING_INITENTRY_AND_METAENTRY ==> OldAt(h, c)
    ensures !Bad(version, Find(x.entries, k), Find(y.entries, k))
  {
    hide LegalBatches, Standing, Stands;
    StandingAtKey(h, n, i, l, a, b, x, k);
    StandingAtKey(h, n, j, l, b, c, y, k);
    if b > 0 {
      ProtocolsAscend(h, b, c);
    }
    StandsNeverBad(h, l, a, b, c, Find(x.entries, k), Find(y.entries, k), k, version);
  }

  lemma MergeableParts(h: seq<Batch>, n: nat, i: nat, l: nat, a: nat, b: nat, c: nat, x: Bucket, y: Bucket,
                       shadows: seq<Bucket>)
    requires Mergeable(BucketAlgebra(), StandingAt(h, n), n, i, l, a, b, c, x, y, shadows)
    ensures Standing(h, n, i, l, a, b, x) && Standing(h, n, if i == 0 then 0 else i - 1, l, b, c, y)
    ensures i < n && a <= b < c <= l && c <= |h| && (KeepDeadEntries(n, i) || a == 0) && Shelters(h, n, i, l, c, shadows)
  {
    hide Sheltered, Stands, VersionOk, Sorted;
  }

  /** Merging neighbours, under whatever shadows the list gives it, cannot throw, and its output stands for both. */
  lemma StandingMerge(h: seq<Batch>, n: nat, i: nat, l: nat, a: nat, b: nat, c: nat, x: Bucket, y: Bucket, shadows: seq<Bucket>)
    requires LegalHistory(h, n)
    requires Mergeable(BucketAlgebra(), StandingAt(h, n), n, i, l, a, b, c, x, y, shadows)
    ensures Succeeds(KeepDeadEntries(n, i), x, y, shadows)
    ensures Standing(h, n, i, l, a, c, Merged(KeepDeadEntries(n, i), x, y, shadows))
  {
    var v := MergeVersion(x.Version(), y.Version(), shadows);
    var rules := Rules(v, v >= FIRST_PROTOCOL_SUPPORTING_INITENTRY_AND_METAENTRY, KeepDeadEntries(n, i));
    var j := if i == 0 then 0 else i - 1;
    MergeVersionOk(h, n, i, l, a, b, c, x, y, shadows);
    MergeableParts(h, n, i, l, a, b, c, x, y, shadows);
    hide LegalBatches, Apart, Stands, Mergeable, Shelters, MergeEntries, MergeVersion, VersionOk;
    forall k ensures !Bad(v, Find(x.entries, k), Find(y.entries, k)) {
      hide Standing;
      MergeNeverBad(h, n, i, j, l, a, b, c, x, y, v, k);
    }
    StandingAtKey(h, n, i, l, a, b, x, 0);
    MergeFails(rules, EntriesOf(shadows), x.entries, y.entries);
    MergeSorted(rules, EntriesOf(shadows), x.entries, y.entries);
    var z := MergeEntries(rules, EntriesOf(shadows), x.entries, y.entries).value;
    forall k ensures Stands(h, l, a, c, Find(z, k), k) {
      StandingAtKey(h, n, i, l, a, b, x, k);
      StandingAtKey(h, n, j, l, b, c, y, k);
      hide Standing;
      MergeAt(rules, EntriesOf(shadows), x.entries, y.entries, k);
      MergedStands(h, n, i, rules, l, a, b, c, Find(x.entries, k), Find(y.entries, k), shadows, k);
    }
    VersionOfFinish(h, n, i, l, c, v, z);
  }

  lemma VersionOfFinish(h: seq<Batch>, n: nat, i: nat, l: nat, c: nat, v: nat, z: seq<Entry>)
    requires VersionOk(h, n, i, l, c, Finish(v, []))
    ensures VersionOk(h, n, i, l, c, Finish(v, z))
  {
  }

  lemma VersionLater(h: seq<Batch>, n: nat, i: nat, l: nat, b: nat, x: Bucket)
    requires LegalBatches(h) && VersionOk(h, n, i, l, b, x)
    ensures VersionOk(h, n, i, l + 1, b, x)
  {
    hide LegalBatches;
    if 0 < l < |h| {
      ProtocolsAscend(h, l, l + 1);
    }
  }

  lemma StandingLater(h: seq<Batch>, n: nat, i: nat, l: nat, a: nat, b: nat, x: Bucket)
    requires LegalBatches(h) && Standing(h, n, i, l, a, b, x) && b <= l
    ensures Standing(h, n, i, l + 1, a, b, x)
  {
    hide LegalBatches, Stands, VersionOk;
    if a != b {
      var later := l + 1;
      VersionLater(h, n, i, l, b, x);
      forall k ensures Stands(h, later, a, b, Find(x.entries, k), k) {
        StandsLater(h, l, a, b, Find(x.entries, k), k);
      }
    }
  }

  lemma BatchStandsAt(h: seq<Batch>, i: nat, k: Key)
    requires LegalBatches(h) && i < |h|
    ensures Stands(h, i + 1, i, i + 1, Find(h[i].entries, k), k)
  {
    var l, before, s := i + 1, StateAt(h, i), h[i].entries;
    assert IsInit(Find(s, k)) ==> !OldAt(h, l) && k !in before by {
      hide Sorted;
      assert LegalBatch(h, i);
    }
    BatchSorted(h, i);
    ApplyAt(before, s, k);
    assert StateAt(h, l) == Apply(before, s);
    hide LegalBatches, StateAt, Find, Apply;
    assert Latest(h, l, false, k) == if HasKey(s, k) then l else Latest(h, i, false, k);
    assert Latest(h, l, true, k) == if HasKey(s, k) && OldAt(h, l) then l else Latest(h, i, true, k);
    hide Latest;
  }

  lemma BatchStands(h: seq<Batch>, n: nat, i: nat)
    requires LegalBatches(h) && i < |h|
    ensures Standing(h, n, 0, i + 1, i, i + 1, BatchBucket(h[i]))
  {
    hide LegalBatches, Stands;
    var l, s := i + 1, h[i].entries;
    BatchSorted(h, i);
    forall k ensures Stands(h, l, i, l, Find(s, k), k) {
      BatchStandsAt(h, i, k);
    }
  }

  lemma StandingVersioned(h: seq<Batch>, n: nat)
    requires LegalBatches(h)
    ensures Versioned(h, StandingAt(h, n))
  {
    hide LegalBatches, Standing;
    var good := StandingAt(h, n);
    forall i, l: nat, a, b: nat, x, m: nat | good(i, l, a, b, x) && m < |h| && b <= l <= m + 1 ensures VersionAt(h, m, x) {
      StandingVersion(h, n, i, l, a, b, x);
      if a != b {
        ProtocolsAscend(h, b, m + 1);
        ProtocolsAscend(h, l, m + 1);
      }
    }
    forall i, j, l, a, b, c, x, y | good(i, l, a, b, x) && good(j, l, b, c, y) && b < c ensures Ascends(x, y) {
      StandingVersion(h, n, i, l, a, b, x);
      StandingVersion(h, n, j, l, b, c, y);
      if a != b {
        ProtocolsAscend(h, b, c);
      }
    }
  }

  /** The buckets that stand for their ledgers are a regime. */
  lemma StandingRegime(h: seq<Batch>, n: nat)
    requires LegalHistory(h, n)
    ensures Regime(h, StandingAt(h, n), n)
  {
    var alg, good := BucketAlgebra(), StandingAt(h, n);
    hide LegalBatches, Apart, Merged, Succeeds, Stands, Versioned, Mergeable;
    StandingVersioned(h, n);
    forall i, l, a, b, c, x, y, shadows | Mergeable(alg, good, n, i, l, a, b, c, x, y, shadows)
      ensures good(i, l, a, c, alg.merge(KeepDeadEntries(n, i), x, y, shadows))
      ensures Succeeds(KeepDeadEntries(n, i), x, y, shadows)
    {
      StandingMerge(h, n, i, l, a, b, c, x, y, shadows);
    }
    forall i, l, a, b: nat, x | good(i, l, a, b, x) && b <= l ensures Later(good, i, l, a, b, x) {
      StandingLater(h, n, i, l, a, b, x);
    }
    forall i | 0 <= i < |h| ensures GoodBatch(good, Close(h[i].protocol, BatchBucket(h[i])), i) {
      BatchStands(h, n, i);
    }
  }

  // ---- The database

  /** The newest entry of the buckets up to ledger `b` shows the key's value, unless a later ledger has touched it. */
  ghost predicate Shows(h: seq<Batch>, l: nat, b: nat, e: Option<Entry>, k: Key)
    requires b <= |h|
  {
    && (b == 0 ==> e == None)
    && (Latest(h, l, false, k) <= b ==> Effect(None, e) == Get(StateAt(h, b), k))
    && (Absent(h, l, b, k) ==> Effect(None, e) == None)
  }

  lemma ShowsPush(h: seq<Batch>, l: nat, b: nat, c: nat, o: Option<Entry>, e: Option<Entry>, k: Key)
    requires LegalBatches(h) && b <= c <= |h| && c <= l && (b == c ==> e == None)
    requires Shows(h, l, b, o, k) && Stands(h, l, b, c, e, k)
    ensures Shows(h, l, c, if e.Some? then e else o, k)
    ensures IsInit(e) ==> Gone(o)
  {
    LatestGrows(h, c, l, false, k);
    OldIsEarlier(h, l, k);
    if Latest(h, l, false, k) <= b {
      Untouched(h, b, c, k);
    }
    hide LegalBatches, StateAt, Latest, Get;
  }

  /** Buckets, oldest first, that show every key and keep the INIT rule. */
  ghost predicate ShowsAll(h: seq<Batch>, l: nat, list: Buckets, b: nat)
    requires b <= |h|
  {
    && AllSorted(list)
    && forall k :: InitOkAt(list, k) && Shows(h, l, b, Newest(list, k), k)
  }

  lemma ShowsAllPush(h: seq<Batch>, n: nat, i: nat, l: nat, list: Buckets, b: nat, c: nat, x: Bucket)
    requires LegalBatches(h) && b <= c <= |h| && c <= l
    requires ShowsAll(h, l, list, b) && Standing(h, n, i, l, b, c, x)
    ensures ShowsAll(h, l, list + [x.entries], c)
  {
    hide LegalBatches, Stands, Shows;
    var longer := list + [x.entries];
    StandingAtKey(h, n, i, l, b, c, x, 0);
    forall k ensures InitOkAt(longer, k) && Shows(h, l, c, Newest(longer, k), k) {
      assert InitOkAt(list, k) && Shows(h, l, b, Newest(list, k), k);
      StandingAtKey(h, n, i, l, b, c, x, k);
      NewestPush(list, x.entries, k);
      ShowsPush(h, l, b, c, Newest(list, k), Find(x.entries, k), k);
    }
  }

  lemma NothingShows(h: seq<Batch>, l: nat)
    ensures ShowsAll(h, l, [], 0)
  {
  }

  lemma TopOfNone(n: nat, ledger: nat)
    ensures CurrTop(n, ledger, n) == 0
  {
  }

  lemma {:induction false} LevelsShow(h: seq<Batch>, levels: Levels<Bucket>, ledger: nat, from: nat)
    requires LegalBatches(h) && from <= |levels| && ledger <= |h|
    requires Covered(StandingAt(h, |levels|), levels, ledger)
    ensures CurrTop(|levels|, ledger, from) <= |h|
    ensures ShowsAll(h, ledger, EntriesOf(OldestFirst(levels[from..])), CurrTop(|levels|, ledger, from))
    decreases |levels| - from
  {
    hide LegalBatches, ShowsAll, Standing, CurrTop, SnapTop;
    var n := |levels|;
    TopsDescend(n, ledger, from, n);
    if from == n {
      assert EntriesOf(OldestFirst(levels[from..])) == [];
      NothingShows(h, ledger);
      TopOfNone(n, ledger);
    } else {
      LevelsShow(h, levels, ledger, from + 1);
      assert levels[from..][1..] == levels[from + 1..];
      assert LevelCovered(StandingAt(h, |levels|), levels[from], n, ledger, from);
      Descending(n, ledger, from);
      var older := EntriesOf(OldestFirst(levels[from + 1..]));
      ShowsAllPush(h, n, from, ledger, older, CurrTop(n, ledger, from + 1), SnapTop(n, ledger, from), levels[from].snap);
      ShowsAllPush(h, n, from, ledger, older + [levels[from].snap.entries], SnapTop(n, ledger, from), CurrTop(n, ledger, from),
                   levels[from].curr);
      assert EntriesOf(OldestFirst(levels[from..]))
          == older + [levels[from].snap.entries] + [levels[from].curr.entries];
    }
  }

  /** Applying the buckets of the list oldest to newest gives the database the batches give. */
  ghost predicate HoldsDatabase(h: seq<Batch>, n: nat, events: seq<Event<Bucket>>)
    requires |Closes(events)| <= |h|
  {
    var list := EntriesOf(OldestFirst(Run(BucketAlgebra(), n, events).levels));
    ApplyAll(map[], list) == StateAt(h, |Closes(events)|)
  }

  /**
    After any interleaving of ledger closes, merge completions and restarts, under any
    protocols and across their upgrades, the list holds the database, its buckets are
    sorted, and every INIT in it lies above a DEAD or nothing.
   */
  lemma RunHoldsDatabase(h: seq<Batch>, n: nat, events: seq<Event<Bucket>>)
    requires n >= 2 && LegalHistory(h, n) && Closing(h, events)
    ensures HoldsDatabase(h, n, events)
    ensures var list := EntriesOf(OldestFirst(Run(BucketAlgebra(), n, events).levels));
            AllSorted(list) && InitInvariant(list)
  {
    hide LegalBatches, Apart, Regime, Run, Pending, PendingCovered, Covered;
    var good, now := StandingAt(h, n), |Closes(events)|;
    StandingRegime(h, n);
    RunCovered(h, good, n, events);
    var levels := Run(BucketAlgebra(), n, events).levels;
    LevelsShow(h, levels, now, 0);
    assert levels[0..] == levels;
    var list := EntriesOf(OldestFirst(levels));
    forall k ensures Get(ApplyAll(map[], list), k) == Get(StateAt(h, now), k) {
      assert Shows(h, now, now, Newest(list, k), k);
      ReaderSeesNewest(list, k);
    }
    StoreExtensionality(ApplyAll(map[], list), StateAt(h, now));
  }

  // ---- Tombstones

  /** Exactly when a merge of old buckets keeps a tombstone: a newer shadow does not help, only one of protocol 11 does. */
  lemma TombstoneKept(maxVersion: nat, o: Bucket, n: Bucket, shadows: seq<Bucket>, k: Key)
    requires Sorted(o.entries) && Sorted(n.entries) && o.meta == None && n.meta == None
    requires !IsInit(Find(o.entries, k)) && IsDead(Find(n.entries, k))
    requires MergeBuckets(maxVersion, o, n, shadows, true).Success?
    ensures var z := MergeBuckets(maxVersion, o, n, shadows, true).value;
            HasKey(z.entries, k) <==>
            !Shadowed(EntriesOf(shadows), k) || exists i :: 0 <= i < |shadows| && Careful(shadows[i])
  {
    var v := MergeVersion(0, 0, shadows);
    VersionMeans(0, 0, shadows);
    hide MergeVersion, MergeEntries;
    var rules := Rules(v, v >= FIRST_PROTOCOL_SUPPORTING_INITENTRY_AND_METAENTRY, true);
    MergeAt(rules, EntriesOf(shadows), o.entries, n.entries, k);
    if v >= FIRST_PROTOCOL_SUPPORTING_INITENTRY_AND_METAENTRY {
      var i :| 0 <= i < |shadows| && Counted(shadows[i]) && shadows[i].Version() == v;
      assert Careful(shadows[i]);
    }
  }
}
