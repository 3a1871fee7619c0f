/**
  Merging two buckets (`Bucket::merge`): the value a merge computes, and the
  single pass over sorted inputs that computes it.
 */
module Merge {
  import opened Options
  import opened Entries

  const FIRST_PROTOCOL_SUPPORTING_INITENTRY_AND_METAENTRY: nat := 11
  const FIRST_PROTOCOL_SHADOWS_REMOVED: nat := 12

  /** A bucket file: its META record, if it has one, and its other records. */
  datatype Bucket = Bucket(meta: Option<nat>, entries: seq<Entry>) {
    /** `getBucketVersion`: version 0 when there is no META record. */
    function Version(): nat {
      if meta.Some? then meta.value else 0
    }
  }

  /** The bucket made by the default constructor; the only one whose hash is zero. */
  const EMPTY := Bucket(None, [])

  datatype MergeError =
    | VersionTooNew
    | ShadowsNotSupported
    | UnsupportedEntry
    | NonDeadThenInit

  datatype Result<+T> = Success(value: T) | Failure(error: MergeError) {
    predicate IsFailure() { Failure? }
    function PropagateFailure<U>(): Result<U> requires Failure? { Failure(error) }
    function Extract(): T requires Success? { value }
  }

  /** The version of the output and the two switches that decide what is written. */
  datatype Rules = Rules(version: nat, keepLifecycle: bool, keepDead: bool)

  // ---- What one key contributes

  predicate Legal(version: nat, e: Entry) {
    e.Init? ==> version >= FIRST_PROTOCOL_SUPPORTING_INITENTRY_AND_METAENTRY
  }

  /** Two entries of one key, the old one first; `None` when they annihilate. */
  function CombineEqual(o: Entry, n: Entry): Result<Option<Entry>> {
    if n.Init? then
      if o.Dead? then Success(Some(Live(n.key, n.value))) else Failure(NonDeadThenInit)
    else if o.Init? then
      if n.Live? then Success(Some(Init(n.key, n.value))) else Success(None)
    else Success(Some(n))
  }

  predicate Shadowed(shadows: seq<seq<Entry>>, k: Key) {
    exists j :: 0 <= j < |shadows| && HasKey(shadows[j], k)
  }

  /** Whether `maybePut` and then the output iterator let an entry through. */
  predicate Kept(r: Rules, shadows: seq<seq<Entry>>, e: Entry) {
    && ((r.keepLifecycle && !e.Live?) || !Shadowed(shadows, e.key))
    && (r.keepDead || !e.Dead?)
  }

  function Emit(r: Rules, shadows: seq<seq<Entry>>, e: Entry): seq<Entry> {
    if Kept(r, shadows, e) then [e] else []
  }

  function EmitOption(r: Rules, shadows: seq<seq<Entry>>, e: Option<Entry>): seq<Entry> {
    if e.Some? then Emit(r, shadows, e.value) else []
  }

  // ---- The two-pointer merge

  function Prepend(s: seq<Entry>, r: Result<seq<Entry>>): Result<seq<Entry>> {
    if r.Success? then Success(s + r.value) else r
  }

  lemma PrependTwice(s: seq<Entry>, t: seq<Entry>, r: Result<seq<Entry>>)
    ensures Prepend(s, Prepend(t, r)) == Prepend(s + t, r)
  {
    if r.Success? {
      assert s + (t + r.value) == (s + t) + r.value;
    }
  }

  function MergeEntries(r: Rules, shadows: seq<seq<Entry>>, o: seq<Entry>, n: seq<Entry>): Result<seq<Entry>>
    decreases |o| + |n|
  {
    if o == [] && n == [] then
      Success([])
    else if n == [] || (o != [] && o[0].key < n[0].key) then
      if !Legal(r.version, o[0]) then Failure(UnsupportedEntry) else
      Prepend(Emit(r, shadows, o[0]), MergeEntries(r, shadows, o[1..], n))
    else if o == [] || n[0].key < o[0].key then
      if !Legal(r.version, n[0]) then Failure(UnsupportedEntry) else
      Prepend(Emit(r, shadows, n[0]), MergeEntries(r, shadows, o, n[1..]))
    else
      if !Legal(r.version, o[0]) || !Legal(r.version, n[0]) then Failure(UnsupportedEntry) else
      var c :- CombineEqual(o[0], n[0]);
      Prepend(EmitOption(r, shadows, c), MergeEntries(r, shadows, o[1..], n[1..]))
  }

  function Max(a: nat, b: nat): nat {
    if a < b then b else a
  }

  /** Shadows of the shadow-free protocols do not raise the merge's version. */
  function MergeVersion(o: nat, n: nat, shadows: seq<Bucket>): nat {
    if shadows == [] then Max(o, n)
    else
      var rest := MergeVersion(o, n, shadows[..|shadows| - 1]);
      var v := shadows[|shadows| - 1].Version();
      if v < FIRST_PROTOCOL_SHADOWS_REMOVED then Max(v, rest) else rest
  }

  function EntriesOf(buckets: seq<Bucket>): (r: seq<seq<Entry>>)
    ensures |r| == |buckets|
    ensures forall i :: 0 <= i < |r| ==> r[i] == buckets[i].entries
  {
    seq(|buckets|, i requires 0 <= i < |buckets| => buckets[i].entries)
  }

  /** `BucketOutputIterator::getBucket`. */
  function Finish(version: nat, entries: seq<Entry>): Bucket {
    Bucket(if version >= FIRST_PROTOCOL_SUPPORTING_INITENTRY_AND_METAENTRY then Some(version) else None, entries)
  }

  function MergeBuckets(maxVersion: nat, o: Bucket, n: Bucket, shadows: seq<Bucket>, keepDead: bool): Result<Bucket> {
    var v := MergeVersion(o.Version(), n.Version(), shadows);
    if v > maxVersion then Failure(VersionTooNew)
    else if v >= FIRST_PROTOCOL_SHADOWS_REMOVED && shadows != [] then Failure(ShadowsNotSupported)
    else
      var rules := Rules(v, v >= FIRST_PROTOCOL_SUPPORTING_INITENTRY_AND_METAENTRY, keepDead);
      var entries :- MergeEntries(rules, EntriesOf(shadows), o.entries, n.entries);
      Success(Finish(v, entries))
  }

  // ---- The loop

  /** `BucketOutputIterator`: holds one entry back so that a later one of the same identity replaces it. */
  class OutputIterator {
    const keepDead: bool
    const version: nat
    var buf: Option<Entry>
    var written: seq<Entry>

    constructor (keepDead: bool, version: nat)
      ensures this.keepDead == keepDead && this.version == version
      ensures Contents() == []
    {
      this.keepDead := keepDead;
      this.version := version;
      buf := None;
      written := [];
    }

    ghost function Contents(): seq<Entry>
      reads this
    {
      if buf.Some? then written + [buf.value] else written
    }

    /** Nothing buffered or written reaches `k` yet. */
    ghost predicate Below(k: Key)
      reads this
    {
      forall i :: 0 <= i < |Contents()| ==> Contents()[i].key < k
    }

    /** Throws, as `ok` tells, on an entry that the version does not support. */
    method Put(e: Entry) returns (ok: bool)
      requires buf.Some? ==> buf.value.key <= e.key
      modifies this
      ensures ok <==> Legal(version, e)
      ensures !ok || (!keepDead && e.Dead?) ==> Contents() == old(Contents())
      ensures ok && (keepDead || !e.Dead?) && (old(buf).None? || old(buf).value.key < e.key) ==>
                Contents() == old(Contents()) + [e]
      ensures ok && (keepDead || !e.Dead?) && old(buf).Some? && old(buf).value.key == e.key ==>
                Contents() == old(written) + [e]
    {
      ok := Legal(version, e);
      if !ok || (!keepDead && e.Dead?) {
        return;
      }
      if buf.Some? && buf.value.key < e.key {
        written := written + [buf.value];
      }
      buf := Some(e);
    }

    method GetBucket() returns (b: Bucket)
      modifies this
      ensures b == Finish(version, old(Contents()))
    {
      if buf.Some? {
        written := written + [buf.value];
        buf := None;
      }
      b := Finish(version, written);
    }
  }

  /** Shadow cursors are in range and have only passed keys below `k`. */
  ghost predicate Passed(shadows: seq<seq<Entry>>, cursors: seq<nat>, k: Key) {
    && |cursors| == |shadows|
    && forall j :: 0 <= j < |shadows| ==> PassedOne(shadows[j], cursors[j], k)
  }

  ghost predicate PassedOne(s: seq<Entry>, c: nat, k: Key) {
    c <= |s| && forall x :: 0 <= x < c ==> s[x].key < k
  }

  /** Step a shadow iterator up to `k` and say whether it stops there. */
  method Scan(s: seq<Entry>, from: nat, k: Key) returns (c: nat, hit: bool)
    requires Sorted(s) && PassedOne(s, from, k)
    ensures PassedOne(s, c, k)
    ensures hit <==> HasKey(s, k)
  {
    c := from;
    while c < |s| && s[c].key < k
      invariant PassedOne(s, c, k)
    {
      c := c + 1;
    }
    hit := c < |s| && !(k < s[c].key);
    if hit {
      FindMember(s, s[c]);
    }
  }

  /** Output and shadow cursors have not reached key `k`. */
  ghost predicate Ready(shadows: seq<seq<Entry>>, cursors: seq<nat>, out: OutputIterator, k: Key)
    reads out
  {
    Passed(shadows, cursors, k) && out.Below(k)
  }

  ghost predicate ReadyAfter(shadows: seq<seq<Entry>>, cursors: seq<nat>, out: OutputIterator, k: Key)
    reads out
  {
    forall k' :: k < k' ==> Ready(shadows, cursors, out, k')
  }

  method MaybePut(out: OutputIterator, e: Entry, shadows: seq<seq<Entry>>, cursors: array<nat>, r: Rules)
    requires forall j :: 0 <= j < |shadows| ==> Sorted(shadows[j])
    requires Ready(shadows, cursors[..], out, e.key) && out.keepDead == r.keepDead
    requires out.version == r.version && Legal(r.version, e)
    modifies out, cursors
    ensures ReadyAfter(shadows, cursors[..], out, e.key)
    ensures out.Contents() == old(out.Contents()) + Emit(r, shadows, e)
  {
    ghost var before := out.Contents();
    assert out.buf.Some? ==> out.buf.value == before[|before| - 1];
    if r.keepLifecycle && (e.Init? || e.Dead?) {
      var ok := out.Put(e);
      assert ok;
      return;
    }
    var hit := ScanShadows(shadows, cursors, e.key);
    if !hit {
      var ok := out.Put(e);
      assert ok;
    }
  }

  /** Step the shadow iterators up to `k` until one of them stops there. */
  method ScanShadows(shadows: seq<seq<Entry>>, cursors: array<nat>, k: Key) returns (hit: bool)
    requires forall j :: 0 <= j < |shadows| ==> Sorted(shadows[j])
    requires Passed(shadows, cursors[..], k)
    modifies cursors
    ensures Passed(shadows, cursors[..], k)
    ensures hit <==> Shadowed(shadows, k)
  {
    hide Sorted, HasKey, PassedOne;
    hit := false;
    for j := 0 to |shadows|
      invariant Passed(shadows, cursors[..], k)
      invariant forall i :: 0 <= i < j ==> !HasKey(shadows[i], k)
    {
      cursors[j], hit := Scan(shadows[j], cursors[j], k);
      if hit {
        return;
      }
    }
  }

  /** `Bucket::merge`: one forward pass over both inputs and every shadow. */
  method MergeFiles(maxVersion: nat, oldBucket: Bucket, newBucket: Bucket, shadows: seq<Bucket>, keepDead: bool)
    returns (r: Result<Bucket>)
    requires Sorted(oldBucket.entries) && Sorted(newBucket.entries)
    requires forall j :: 0 <= j < |shadows| ==> Sorted(shadows[j].entries)
    ensures r == MergeBuckets(maxVersion, oldBucket, newBucket, shadows, keepDead)
  {
    var version := Max(oldBucket.Version(), newBucket.Version());
    for j := 0 to |shadows|
      invariant version == MergeVersion(oldBucket.Version(), newBucket.Version(), shadows[..j])
    {
      assert shadows[..j + 1][..j] == shadows[..j];
      if shadows[j].Version() < FIRST_PROTOCOL_SHADOWS_REMOVED {
        version := Max(shadows[j].Version(), version);
      }
    }
    assert shadows[..|shadows|] == shadows;
    if version > maxVersion {
      return Failure(VersionTooNew);
    }
    if version >= FIRST_PROTOCOL_SHADOWS_REMOVED && |shadows| != 0 {
      return Failure(ShadowsNotSupported);
    }
    var rules := Rules(version, version >= FIRST_PROTOCOL_SUPPORTING_INITENTRY_AND_METAENTRY, keepDead);
    var out := new OutputIterator(keepDead, version);
    var error := MergePass(rules, EntriesOf(shadows), oldBucket.entries, newBucket.entries, out);
    if error.Some? {
      return Failure(error.value);
    }
    var b := out.GetBucket();
    return Success(b);
  }

  /** Entries of equal keys: `mergeCasesWithEqualKeys`. */
  method PutEqual(out: OutputIterator, o: Entry, n: Entry, shadows: seq<seq<Entry>>, cursors: array<nat>, rules: Rules)
    returns (error: Option<MergeError>)
    requires o.key == n.key
    requires forall j :: 0 <= j < |shadows| ==> Sorted(shadows[j])
    requires Ready(shadows, cursors[..], out, n.key) && out.keepDead == rules.keepDead && out.version == rules.version
    modifies out, cursors
    ensures !Legal(rules.version, o) || !Legal(rules.version, n) ==> error == Some(UnsupportedEntry)
    ensures Legal(rules.version, o) && Legal(rules.version, n) && CombineEqual(o, n).Failure? ==>
              error == Some(CombineEqual(o, n).error)
    ensures Legal(rules.version, o) && Legal(rules.version, n) && CombineEqual(o, n).Success? ==>
              && error.None?
              && ReadyAfter(shadows, cursors[..], out, n.key)
              && out.Contents() == old(out.Contents()) + EmitOption(rules, shadows, CombineEqual(o, n).value)
  {
    if !Legal(rules.version, o) || !Legal(rules.version, n) {
      return Some(UnsupportedEntry);
    }
    if n.Init? {
      if !o.Dead? {
        return Some(NonDeadThenInit);
      }
      MaybePut(out, Live(n.key, n.value), shadows, cursors, rules);
    } else if o.Init? {
      if n.Live? {
        MaybePut(out, Init(n.key, n.value), shadows, cursors, rules);
      }
    } else {
      MaybePut(out, n, shadows, cursors, rules);
    }
    return None;
  }

  method MergePass(rules: Rules, shadows: seq<seq<Entry>>, o: seq<Entry>, n: seq<Entry>, out: OutputIterator)
    returns (error: Option<MergeError>)
    requires Sorted(o) && Sorted(n)
    requires forall j :: 0 <= j < |shadows| ==> Sorted(shadows[j])
    requires out.Contents() == [] && out.keepDead == rules.keepDead && out.version == rules.version
    modifies out
    ensures error.Some? ==> MergeEntries(rules, shadows, o, n) == Failure(error.value)
    ensures error.None? ==> MergeEntries(rules, shadows, o, n) == Success(out.Contents())
  {
    var cursors := new nat[|shadows|](_ => 0);
    var oi, ni := 0, 0;
    ghost var goal := MergeEntries(rules, shadows, o, n);
    assert o[oi..] == o && n[ni..] == n;
    assert goal.Success? ==> [] + goal.value == goal.value;
    while oi < |o| || ni < |n|
      invariant 0 <= oi <= |o| && 0 <= ni <= |n|
      invariant goal == Prepend(out.Contents(), MergeEntries(rules, shadows, o[oi..], n[ni..]))
      invariant oi < |o| ==> Ready(shadows, cursors[..], out, o[oi].key)
      invariant ni < |n| ==> Ready(shadows, cursors[..], out, n[ni].key)
      decreases |o| - oi + |n| - ni
    {
      ghost var before := out.Contents();
      assert oi < |o| ==> o[oi..][0] == o[oi] && o[oi..][1..] == o[oi + 1..];
      assert ni < |n| ==> n[ni..][0] == n[ni] && n[ni..][1..] == n[ni + 1..];
      if ni == |n| || (oi < |o| && o[oi].key < n[ni].key) {
        if !Legal(rules.version, o[oi]) {
          return Some(UnsupportedEntry);
        }
        PrependTwice(before, Emit(rules, shadows, o[oi]), MergeEntries(rules, shadows, o[oi + 1..], n[ni..]));
        MaybePut(out, o[oi], shadows, cursors, rules);
        oi := oi + 1;
      } else if oi == |o| || n[ni].key < o[oi].key {
        if !Legal(rules.version, n[ni]) {
          return Some(UnsupportedEntry);
        }
        PrependTwice(before, Emit(rules, shadows, n[ni]), MergeEntries(rules, shadows, o[oi..], n[ni + 1..]));
        MaybePut(out, n[ni], shadows, cursors, rules);
        ni := ni + 1;
      } else {
        ghost var c := CombineEqual(o[oi], n[ni]);
        error := PutEqual(out, o[oi], n[ni], shadows, cursors, rules);
        if error.Some? {
          return;
        }
        PrependTwice(before, EmitOption(rules, shadows, c.value), MergeEntries(rules, shadows, o[oi + 1..], n[ni + 1..]));
        oi, ni := oi + 1, ni + 1;
      }
    }
    assert out.Contents() + [] == out.Contents();
    return None;
  }
}
