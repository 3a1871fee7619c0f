/**
  Bucket files: making the records of a fresh bucket, and reading records back
  through `BucketInputIterator`.
 */
module BucketFile {
  import opened Options
  import opened Entries
  import opened Merge

  // ---- Reading

  datatype Record = Meta(version: nat) | Data(entry: Entry)

  function Records(b: Bucket): seq<Record> {
    (if b.meta.Some? then [Meta(b.meta.value)] else []) + DataRecords(b.entries)
  }

  function DataRecords(s: seq<Entry>): (r: seq<Record>)
    ensures |r| == |s|
    ensures forall i :: 0 <= i < |r| ==> r[i] == Data(s[i])
  {
    seq(|s|, i requires 0 <= i < |s| => Data(s[i]))
  }

  /** One META at most, in front, and then only entries its version supports. */
  ghost predicate WellFormed(records: seq<Record>) {
    && (forall i :: 0 < i < |records| ==> records[i].Data?)
    && (records != [] && records[0].Meta? ==>
          forall i :: 0 < i < |records| ==> Legal(records[0].version, records[i].entry))
  }

  function EntriesIn(records: seq<Record>): (s: seq<Entry>)
    requires forall i :: 0 <= i < |records| ==> records[i].Data?
    ensures |s| == |records| && forall i :: 0 <= i < |s| ==> records[i] == Data(s[i])
  {
    seq(|records|, i requires 0 <= i < |records| => records[i].entry)
  }

  /** The bucket a file stands for, if it is well-formed. */
  ghost function BucketOf(records: seq<Record>): Option<Bucket> {
    if !WellFormed(records) then None
    else if records != [] && records[0].Meta? then Some(Bucket(Some(records[0].version), EntriesIn(records[1..])))
    else Some(Bucket(None, EntriesIn(records)))
  }

  class InputIterator {
    const records: seq<Record>
    var at: nat
    var current: Option<Entry>
    var seenMetadata: bool
    var seenOtherEntries: bool
    var version: nat

    constructor (records: seq<Record>)
      ensures this.records == records && at == 0 && current == None
      ensures !seenMetadata && !seenOtherEntries && version == 0
    {
      this.records := records;
      at, current := 0, None;
      seenMetadata, seenOtherEntries, version := false, false, 0;
    }

    /** The flags tell what has been read so far. */
    ghost predicate Valid()
      reads this
    {
      && at <= |records|
      && (seenMetadata <==> at > 0 && records[0].Meta?)
      && version == (if seenMetadata then records[0].version else 0)
      && (seenOtherEntries <==> exists i :: 0 <= i < at && records[i].Data?)
      && WellFormed(records[..at])
    }

    /** `loadEntry`: the next entry that is not META; fails on a malformed file. */
    method LoadEntry() returns (ok: bool)
      requires Valid()
      modifies this
      ensures ok ==> Valid() && old(at) <= at
      ensures ok ==> (current.None? <==> old(at) == |records| || (old(at) == 0 && |records| == 1 && records[0].Meta?))
      ensures ok && current.Some? ==>
                && at > 0 && records[at - 1] == Data(current.value)
                && (at - 1 == old(at) || (old(at) == 0 && at == 2 && records[0].Meta?))
      ensures ok && current.None? ==> at == |records|
      ensures !ok ==> !WellFormed(records)
      decreases |records| - at
    {
      if at == |records| {
        current := None;
        return true;
      }
      var e := records[at];
      assert records[..at + 1] == records[..at] + [e];
      if e.Meta? {
        if seenMetadata || seenOtherEntries {
          return false;
        }
        assert at == 0;
        version, seenMetadata, at := e.version, true, at + 1;
        ok := LoadEntry();
      } else {
        seenOtherEntries := true;
        if seenMetadata && !Legal(version, e.entry) {
          return false;
        }
        current, at := Some(e.entry), at + 1;
        assert records[at - 1].Data?;
        return true;
      }
    }
  }

  /** Reading a file to its end yields the bucket that it stands for, or finds it malformed. */
  method ReadBucket(records: seq<Record>) returns (r: Option<Bucket>)
    ensures r == BucketOf(records)
    ensures r.Some? ==> Records(r.value) == records
  {
    hide WellFormed, DataRecords, Legal, BucketOf, HasRead;
    Malformed(records);
    EmptyWellFormed();
    var it := new InputIterator(records);
    var ok := it.LoadEntry();
    if !ok {
      return None;
    }
    var entries: seq<Entry> := [];
    StartRead(records, it.seenMetadata, it.version, it.at, it.current);
    while it.current.Some?
      invariant it.Valid() && it.records == records
      invariant HasRead(records, Prefix(it.seenMetadata, it.version), entries, it.at, it.current)
      decreases |records| - it.at, it.current.Some?
    {
      var e := it.current.value;
      ghost var at, prefix := it.at, Prefix(it.seenMetadata, it.version);
      AtEntry(records, prefix, entries, at, e);
      ok := it.LoadEntry();
      if !ok {
        return None;
      }
      KeepRead(records, prefix, entries, at, e, it.at, it.current);
      entries := entries + [e];
    }
    AllRead(records, Prefix(it.seenMetadata, it.version), entries, it.at);
    r := Some(Bucket(if it.seenMetadata then Some(it.version) else None, entries));
    ReadsBack(r.value);
  }

  /** All records have been read, or all but the current one. */
  ghost predicate HasRead(records: seq<Record>, prefix: seq<Record>, entries: seq<Entry>, at: nat, current: Option<Entry>) {
    if current.None? then at == |records| && prefix + DataRecords(entries) == records
    else
      && 0 < at <= |records|
      && records[at - 1] == Data(current.value)
      && prefix + DataRecords(entries) == records[..at - 1]
  }

  lemma StartRead(records: seq<Record>, seen: bool, version: nat, at: nat, current: Option<Entry>)
    requires at <= |records| && (seen <==> at > 0 && records[0].Meta?) && (seen ==> version == records[0].version)
    requires current.None? ==> at == |records| && (records == [] || (|records| == 1 && records[0].Meta?))
    requires current.Some? ==> at > 0 && records[at - 1] == Data(current.value) && at == if records[0].Meta? then 2 else 1
    ensures HasRead(records, Prefix(seen, version), [], at, current)
  {
    assert DataRecords([]) == [];
    assert Prefix(seen, version) + [] == Prefix(seen, version);
  }

  lemma AtEntry(records: seq<Record>, prefix: seq<Record>, entries: seq<Entry>, at: nat, e: Entry)
    requires HasRead(records, prefix, entries, at, Some(e))
    ensures 0 < at <= |records| && records[at - 1] == Data(e)
  {
  }

  lemma KeepRead(records: seq<Record>, prefix: seq<Record>, entries: seq<Entry>, at: nat, e: Entry, at': nat,
                 current: Option<Entry>)
    requires HasRead(records, prefix, entries, at, Some(e))
    requires current.None? ==> at' == at == |records|
    requires current.Some? ==> at' == at + 1 <= |records| && records[at] == Data(current.value)
    ensures HasRead(records, prefix, entries + [e], at', current)
  {
    PushRecord(prefix, entries, e, records, at);
    assert records[..|records|] == records;
  }

  lemma AllRead(records: seq<Record>, prefix: seq<Record>, entries: seq<Entry>, at: nat)
    requires HasRead(records, prefix, entries, at, None)
    ensures at == |records| && records[..at] == records && prefix + DataRecords(entries) == records
  {
  }

  lemma Malformed(records: seq<Record>)
    ensures !WellFormed(records) ==> BucketOf(records) == None
  {
  }

  lemma EmptyWellFormed()
    ensures WellFormed([])
  {
  }

  lemma PushRecord(prefix: seq<Record>, entries: seq<Entry>, e: Entry, records: seq<Record>, at: nat)
    requires 0 < at <= |records| && records[at - 1] == Data(e) && prefix + DataRecords(entries) == records[..at - 1]
    ensures prefix + DataRecords(entries + [e]) == records[..at]
  {
    assert DataRecords(entries + [e]) == DataRecords(entries) + [Data(e)];
    assert records[..at] == records[..at - 1] + [records[at - 1]];
  }

  function Prefix(seen: bool, version: nat): seq<Record> {
    if seen then [Meta(version)] else []
  }

  /** A well-formed file of a bucket stands for that bucket and no other. */
  lemma ReadsBack(b: Bucket)
    requires WellFormed(Records(b))
    ensures BucketOf(Records(b)) == Some(b)
  {
    var records := Records(b);
    var r := BucketOf(records).value;
    assert DataRecords(r.entries) == if r.meta.Some? then records[1..] else records;
    assert Records(r) == records;
    RecordsInjective(r, b);
  }

  ghost predicate AllLegal(version: nat, s: seq<Entry>) {
    forall i :: 0 <= i < |s| ==> Legal(version, s[i])
  }

  lemma LegalIsWellFormed(version: nat, s: seq<Entry>)
    requires AllLegal(version, s)
    ensures WellFormed(Records(Finish(version, s)))
  {
  }

  lemma {:induction false} MergedLegal(r: Rules, shadows: seq<seq<Entry>>, o: seq<Entry>, n: seq<Entry>)
    requires MergeEntries(r, shadows, o, n).Success?
    ensures AllLegal(r.version, MergeEntries(r, shadows, o, n).value)
    decreases |o| + |n|
  {
    hide Kept;
    if o == [] && n == [] {
    } else if n == [] || (o != [] && o[0].key < n[0].key) {
      MergedLegal(r, shadows, o[1..], n);
    } else if o == [] || n[0].key < o[0].key {
      MergedLegal(r, shadows, o, n[1..]);
    } else {
      MergedLegal(r, shadows, o[1..], n[1..]);
    }
  }

  /** Every bucket a merge writes reads back as itself. */
  lemma MergedReadsBack(maxVersion: nat, o: Bucket, n: Bucket, shadows: seq<Bucket>, keepDead: bool)
    requires MergeBuckets(maxVersion, o, n, shadows, keepDead).Success?
    ensures var b := MergeBuckets(maxVersion, o, n, shadows, keepDead).value;
            WellFormed(Records(b)) && BucketOf(Records(b)) == Some(b)
  {
    hide MergeEntries, MergeVersion, WellFormed, BucketOf, AllLegal;
    var v := MergeVersion(o.Version(), n.Version(), shadows);
    var rules := Rules(v, v >= FIRST_PROTOCOL_SUPPORTING_INITENTRY_AND_METAENTRY, keepDead);
    MergedLegal(rules, EntriesOf(shadows), o.entries, n.entries);
    LegalIsWellFormed(v, MergeEntries(rules, EntriesOf(shadows), o.entries, n.entries).value);
    ReadsBack(MergeBuckets(maxVersion, o, n, shadows, keepDead).value);
  }

  lemma RecordsInjective(a: Bucket, b: Bucket)
    requires Records(a) == Records(b)
    ensures a == b
  {
    var r := Records(a);
    assert r != [] && a.meta.Some? ==> r[0] == Meta(a.meta.value);
    assert r != [] && b.meta.Some? ==> r[0] == Meta(b.meta.value);
    assert r != [] && a.meta.None? ==> r[0] == Data(a.entries[0]);
    assert r != [] && b.meta.None? ==> r[0] == Data(b.entries[0]);
    assert a.meta == b.meta;
    var k := if a.meta.Some? then 1 else 0;
    assert |a.entries| == |b.entries|;
    forall i | 0 <= i < |a.entries| ensures a.entries[i] == b.entries[i] {
      assert r[k + i] == Data(a.entries[i]) && r[k + i] == Data(b.entries[i]);
    }
  }

  lemma RecordAt(b: Bucket, j: nat)
    requires b.meta.Some? && j <= |b.entries|
    ensures |Records(b)| == 1 + |b.entries|
    ensures Records(b)[j] == if j == 0 then Meta(b.meta.value) else Data(b.entries[j - 1])
  {
  }

  lemma RecordsWellFormed(b: Bucket)
    ensures WellFormed(Records(b)) <==> (b.meta.Some? ==> AllLegal(b.meta.value, b.entries))
  {
    hide Legal;
    if b.meta.Some? {
      hide Records;
      var records := Records(b);
      RecordAt(b, 0);
      forall j | 0 < j < |records| ensures records[j] == Data(b.entries[j - 1]) {
        RecordAt(b, j);
      }
      if WellFormed(records) {
        forall i | 0 <= i < |b.entries| ensures Legal(b.meta.value, b.entries[i]) {
          assert records[i + 1] == Data(b.entries[i]);
        }
      }
    }
  }

  /** The file of a bucket is read back unless META is from before protocol 11 and there is an INIT. */
  lemma FilesRead(b: Bucket)
    ensures BucketOf(Records(b)) == Some(b)
       <==> (b.meta.Some? && b.meta.value < 11 ==> forall i :: 0 <= i < |b.entries| ==> !b.entries[i].Init?)
  {
    hide WellFormed, Records;
    RecordsWellFormed(b);
    if WellFormed(Records(b)) {
      ReadsBack(b);
    }
  }

  // ---- Fresh buckets

  /** The entries of a ledger close, in the order they are handed over. */
  function Handed(useInit: bool, inits: seq<(Key, Value)>, lives: seq<(Key, Value)>, deads: seq<Key>): seq<Entry> {
    seq(|inits|, i requires 0 <= i < |inits| =>
      if useInit then Init(inits[i].0, inits[i].1) else Live(inits[i].0, inits[i].1))
    + seq(|lives|, i requires 0 <= i < |lives| => Live(lives[i].0, lives[i].1))
    + seq(|deads|, i requires 0 <= i < |deads| => Dead(deads[i]))
  }

  /** Creations come out as INIT or, where there is none, as LIVE; updates as LIVE; deletions as DEAD; and nothing else. */
  ghost predicate Carries(s: seq<Entry>, useInit: bool, inits: seq<(Key, Value)>, lives: seq<(Key, Value)>, deads: seq<Key>) {
    && (forall i :: 0 <= i < |inits| ==>
          Find(s, inits[i].0) == Some(if useInit then Init(inits[i].0, inits[i].1) else Live(inits[i].0, inits[i].1)))
    && (forall i :: 0 <= i < |lives| ==> Find(s, lives[i].0) == Some(Live(lives[i].0, lives[i].1)))
    && (forall i :: 0 <= i < |deads| ==> Find(s, deads[i]) == Some(Dead(deads[i])))
    && (forall k :: HasKey(s, k) ==> Handles(inits, lives, deads, k))
  }

  ghost predicate Handles(inits: seq<(Key, Value)>, lives: seq<(Key, Value)>, deads: seq<Key>, k: Key) {
    || (exists i :: 0 <= i < |inits| && inits[i].0 == k)
    || (exists i :: 0 <= i < |lives| && lives[i].0 == k)
    || k in deads
  }

  lemma HandedFound(s: seq<Entry>, handed: seq<Entry>, i: nat)
    requires Sorted(s) && multiset(s) == multiset(handed) && i < |handed|
    ensures Find(s, handed[i].key) == Some(handed[i])
  {
    assert handed[i] in multiset(s);
    assert handed[i] in s;
    FindMember(s, handed[i]);
  }

  lemma HandedCarried(s: seq<Entry>, useInit: bool, inits: seq<(Key, Value)>, lives: seq<(Key, Value)>, deads: seq<Key>)
    requires Sorted(s) && multiset(s) == multiset(Handed(useInit, inits, lives, deads))
    ensures Carries(s, useInit, inits, lives, deads)
  {
    var handed := Handed(useInit, inits, lives, deads);
    hide Sorted, Find;
    forall i | 0 <= i < |inits|
      ensures Find(s, inits[i].0) == Some(if useInit then Init(inits[i].0, inits[i].1) else Live(inits[i].0, inits[i].1))
    {
      HandedFound(s, handed, i);
    }
    forall i | 0 <= i < |lives| ensures Find(s, lives[i].0) == Some(Live(lives[i].0, lives[i].1)) {
      HandedFound(s, handed, |inits| + i);
    }
    forall i | 0 <= i < |deads| ensures Find(s, deads[i]) == Some(Dead(deads[i])) {
      HandedFound(s, handed, |inits| + |lives| + i);
    }
    forall k | HasKey(s, k) ensures Handles(inits, lives, deads, k) {
      var e := Find(s, k).value;
      assert e in multiset(s);
      var j :| 0 <= j < |handed| && handed[j] == e;
      if j >= |inits| + |lives| {
        assert deads[j - |inits| - |lives|] == k;
      }
    }
  }

  /** Applying what a ledger close hands over sets what it creates and updates, erases what it deletes, and leaves the rest. */
  lemma CarriedApplies(s: seq<Entry>, useInit: bool, inits: seq<(Key, Value)>, lives: seq<(Key, Value)>, deads: seq<Key>,
                       db: Store)
    requires Sorted(s) && Carries(s, useInit, inits, lives, deads)
    ensures forall i :: 0 <= i < |inits| ==> Get(Apply(db, s), inits[i].0) == Some(inits[i].1)
    ensures forall i :: 0 <= i < |lives| ==> Get(Apply(db, s), lives[i].0) == Some(lives[i].1)
    ensures forall i :: 0 <= i < |deads| ==> Get(Apply(db, s), deads[i]) == None
    ensures forall k :: !Handles(inits, lives, deads, k) ==> Get(Apply(db, s), k) == Get(db, k)
  {
    forall k ensures Get(Apply(db, s), k) == Effect(Get(db, k), Find(s, k)) {
      ApplyAt(db, s, k);
    }
  }

  ghost predicate DistinctKeys(s: seq<Entry>) {
    forall i, j :: 0 <= i < j < |s| ==> s[i].key != s[j].key
  }

  ghost predicate Ordered(s: seq<Entry>) {
    forall i, j :: 0 <= i < j < |s| ==> s[i].key <= s[j].key
  }

  /** Where an entry of key `k` belongs: after every smaller or equal key. */
  function Position(s: seq<Entry>, k: Key): (p: nat)
    requires Ordered(s)
    ensures p <= |s|
    ensures forall i :: 0 <= i < p ==> s[i].key <= k
    ensures forall i :: p <= i < |s| ==> s[i].key > k
  {
    if s == [] || s[|s| - 1].key <= k then |s| else Position(s[..|s| - 1], k)
  }

  /** One insertion, standing for one step of `std::sort`. */
  function Insert(s: seq<Entry>, e: Entry): (r: seq<Entry>)
    requires Ordered(s)
    ensures Ordered(r) && multiset(r) == multiset(s) + multiset{e}
  {
    var p := Position(s, e.key);
    assert s == s[..p] + s[p..];
    s[..p] + [e] + s[p..]
  }

  lemma DistinctPermutation(s: seq<Entry>, t: seq<Entry>)
    requires multiset(s) == multiset(t) && DistinctKeys(s)
    ensures DistinctKeys(t)
  {
    forall i, j | 0 <= i < j < |t| ensures t[i].key != t[j].key {
      if t[i] == t[j] {
        assert t == t[..i] + [t[i]] + t[i + 1..];
        assert t[j] in t[i + 1..];
        assert multiset(t)[t[i]] >= 2;
        Multiplicity(s, t[i]);
      } else {
        assert t[i] in multiset(s) && t[j] in multiset(s);
        assert t[i] in s && t[j] in s;
      }
    }
  }

  lemma {:induction false} Multiplicity(s: seq<Entry>, e: Entry)
    requires DistinctKeys(s)
    ensures multiset(s)[e] <= 1
  {
    if s == [] {
    } else {
      var front := s[..|s| - 1];
      assert s == front + [s[|s| - 1]];
      Multiplicity(front, e);
      if e == s[|s| - 1] {
        assert e !in front;
        assert e !in multiset(front);
      }
    }
  }

  /** `convertToBucketEntry`: sorted entries, or a failed assertion when a key is handed over twice. */
  method ConvertToBucketEntry(useInit: bool, inits: seq<(Key, Value)>, lives: seq<(Key, Value)>, deads: seq<Key>)
    returns (r: Option<seq<Entry>>)
    ensures r.Some? <==> DistinctKeys(Handed(useInit, inits, lives, deads))
    ensures r.Some? ==> Sorted(r.value) && multiset(r.value) == multiset(Handed(useInit, inits, lives, deads))
    ensures r.Some? ==> Carries(r.value, useInit, inits, lives, deads)
  {
    hide Handed, Carries, Sorted, Insert;
    var handed := Handed(useInit, inits, lives, deads);
    var bucket: seq<Entry> := [];
    for i := 0 to |handed|
      invariant Ordered(bucket) && multiset(bucket) == multiset(handed[..i])
    {
      bucket := Insert(bucket, handed[i]);
      assert handed[..i + 1] == handed[..i] + [handed[i]];
    }
    assert handed[..|handed|] == handed;
    var i := 1;
    while i < |bucket|
      invariant 1 <= i
      invariant forall j :: 0 < j < i && j < |bucket| ==> bucket[j - 1].key < bucket[j].key
    {
      if !(bucket[i - 1].key < bucket[i].key) {
        assert !DistinctKeys(bucket);
        if DistinctKeys(handed) {
          DistinctPermutation(handed, bucket);
        }
        return None;
      }
      i := i + 1;
    }
    AdjacentSorted(bucket);
    DistinctPermutation(bucket, handed);
    HandedCarried(bucket, useInit, inits, lives, deads);
    return Some(bucket);
  }

  lemma AdjacentSorted(s: seq<Entry>)
    requires Ordered(s) && forall j :: 0 < j < |s| ==> s[j - 1].key < s[j].key
    ensures Sorted(s) && DistinctKeys(s)
  {
    forall i, j | 0 <= i < j < |s| ensures s[i].key < s[j].key {
      assert s[i].key <= s[j - 1].key < s[j].key;
    }
  }

  lemma HandedLegal(protocol: nat, inits: seq<(Key, Value)>, lives: seq<(Key, Value)>, deads: seq<Key>)
    ensures AllLegal(protocol, Handed(protocol >= FIRST_PROTOCOL_SUPPORTING_INITENTRY_AND_METAENTRY, inits, lives, deads))
  {
  }

  lemma PermutedLegal(version: nat, s: seq<Entry>, t: seq<Entry>)
    requires AllLegal(version, s) && multiset(s) == multiset(t)
    ensures AllLegal(version, t)
  {
    forall i | 0 <= i < |t| ensures Legal(version, t[i]) {
      assert t[i] in multiset(s);
      assert t[i] in s;
    }
  }

  /** `Bucket::fresh`: the bucket of a ledger close; its file reads back as it. */
  method Fresh(protocol: nat, inits: seq<(Key, Value)>, lives: seq<(Key, Value)>, deads: seq<Key>)
    returns (r: Option<Bucket>)
    ensures var handed := Handed(protocol >= FIRST_PROTOCOL_SUPPORTING_INITENTRY_AND_METAENTRY, inits, lives, deads);
            && (r.Some? <==> DistinctKeys(handed))
            && (r.Some? ==> Sorted(r.value.entries) && multiset(r.value.entries) == multiset(handed))
            && (r.Some? ==> r.value.meta == (if protocol >= 11 then Some(protocol) else None))
            && (r.Some? ==> BucketOf(Records(r.value)) == r)
            && (r.Some? ==> Carries(r.value.entries, protocol >= 11, inits, lives, deads))
  {
    hide WellFormed, BucketOf, Handed, AllLegal, DistinctKeys, Carries;
    var useInit := protocol >= FIRST_PROTOCOL_SUPPORTING_INITENTRY_AND_METAENTRY;
    var converted := ConvertToBucketEntry(useInit, inits, lives, deads);
    if converted.None? {
      return None;
    }
    var entries := converted.value;
    HandedLegal(protocol, inits, lives, deads);
    PermutedLegal(protocol, Handed(useInit, inits, lives, deads), entries);
    var b := WriteAll(protocol, entries);
    LegalIsWellFormed(protocol, entries);
    ReadsBack(b);
    return Some(b);
  }

  /** Putting sorted entries that the version supports writes them all. */
  method WriteAll(version: nat, entries: seq<Entry>) returns (b: Bucket)
    requires Sorted(entries) && AllLegal(version, entries)
    ensures b == Finish(version, entries)
  {
    var out := new OutputIterator(true, version);
    for i := 0 to |entries|
      invariant out.keepDead && out.version == version && out.Contents() == entries[..i]
      invariant out.buf.Some? ==> i > 0 && out.buf.value == entries[i - 1]
    {
      assert entries[..i + 1] == entries[..i] + [entries[i]];
      var ok := out.Put(entries[i]);
      assert out.Contents()[i] == entries[i];
    }
    assert entries[..|entries|] == entries;
    b := out.GetBucket();
  }
}
