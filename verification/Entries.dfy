/**
  Bucket entries and what a reader sees of them.

  A ledger key is an integer: its rank in the strict total order of
  `BucketEntryIdCmp`.  The database a bucket is applied to is a map from keys
  to values.
 */
module Entries {
  import opened Options

  type Key = int
  type Value = int
  type Store = map<Key, Value>

  /** INITENTRY, LIVEENTRY and DEADENTRY. */
  datatype Entry =
    | Init(key: Key, value: Value)
    | Live(key: Key, value: Value)
    | Dead(key: Key)

  ghost predicate Sorted(s: seq<Entry>) {
    forall i, j :: 0 <= i < j < |s| ==> s[i].key < s[j].key
  }

  function Find(s: seq<Entry>, k: Key): (r: Option<Entry>)
    ensures r.Some? ==> r.value.key == k && r.value in s
    ensures r.None? ==> forall i :: 0 <= i < |s| ==> s[i].key != k
  {
    if s == [] then None
    else if s[0].key == k then Some(s[0])
    else
      assert s[0] in s && forall x :: x in s[1..] ==> x in s;
      Find(s[1..], k)
  }

  predicate HasKey(s: seq<Entry>, k: Key) {
    Find(s, k).Some?
  }

  /** All keys of `s` are above `k`. */
  ghost predicate Above(s: seq<Entry>, k: Key) {
    forall i :: 0 <= i < |s| ==> k < s[i].key
  }

  // ---- Applying entries to the database

  function ApplyEntry(db: Store, e: Entry): Store {
    if e.Dead? then db - {e.key} else db[e.key := e.value]
  }

  /** One pass over the bucket, first entry first. */
  function Apply(db: Store, s: seq<Entry>): Store
    decreases |s|
  {
    if s == [] then db else Apply(ApplyEntry(db, s[0]), s[1..])
  }

  function Get(db: Store, k: Key): Option<Value> {
    if k in db then Some(db[k]) else None
  }

  /** What an entry, or its absence, does to one key's value. */
  function Effect(before: Option<Value>, e: Option<Entry>): Option<Value> {
    match e
    case None => before
    case Some(Dead(_)) => None
    case Some(x) => Some(x.value)
  }

  lemma StoreExtensionality(a: Store, b: Store)
    requires forall k :: Get(a, k) == Get(b, k)
    ensures a == b
  {
    forall k ensures k in a <==> k in b {
      assert Get(a, k) == Get(b, k);
    }
    forall k | k in a ensures a[k] == b[k] {
      assert Get(a, k) == Get(b, k);
    }
    assert a.Keys == b.Keys;
  }

  lemma {:induction false} ApplyAt(db: Store, s: seq<Entry>, k: Key)
    requires Sorted(s)
    ensures Get(Apply(db, s), k) == Effect(Get(db, k), Find(s, k))
    decreases |s|
  {
    if s == [] {
    } else {
      ApplyAt(ApplyEntry(db, s[0]), s[1..], k);
      if s[0].key == k {
        assert Find(s[1..], k).None?;
      }
    }
  }

  lemma {:induction false} ApplyConcat(db: Store, s: seq<Entry>, t: seq<Entry>)
    ensures Apply(db, s + t) == Apply(Apply(db, s), t)
    decreases |s|
  {
    if s == [] {
      assert s + t == t;
    } else {
      assert (s + t)[0] == s[0] && (s + t)[1..] == s[1..] + t;
      ApplyConcat(ApplyEntry(db, s[0]), s[1..], t);
    }
  }

  // ---- Sorted sequences are finite maps

  lemma FindAbove(s: seq<Entry>, k: Key)
    requires Above(s, k)
    ensures Find(s, k) == None
  {
  }

  lemma FindMember(s: seq<Entry>, e: Entry)
    requires Sorted(s) && e in s
    ensures Find(s, e.key) == Some(e)
  {
    var i :| 0 <= i < |s| && s[i] == e;
    var r := Find(s, e.key);
    assert r.Some?;
    var j :| 0 <= j < |s| && s[j] == r.value;
  }

  lemma SameFirst(s: seq<Entry>, t: seq<Entry>)
    requires Sorted(s) && Sorted(t) && s != [] && t != []
    requires Find(s, t[0].key) == Some(t[0]) && Find(t, s[0].key) == Some(s[0])
    ensures s[0] == t[0]
  {
    var i :| 0 <= i < |t| && t[i] == s[0];
    var j :| 0 <= j < |s| && s[j] == t[0];
  }

  lemma SameRest(s: seq<Entry>, t: seq<Entry>, k: Key)
    requires Sorted(s) && Sorted(t) && s != [] && t != [] && s[0] == t[0] && Find(s, k) == Find(t, k)
    ensures Find(s[1..], k) == Find(t[1..], k)
  {
    if k == s[0].key {
      FindAbove(s[1..], k);
      FindAbove(t[1..], k);
    }
  }

  /** A sorted sequence is determined by what `Find` returns. */
  lemma {:induction false} SortedExtensionality(s: seq<Entry>, t: seq<Entry>)
    requires Sorted(s) && Sorted(t)
    requires forall k :: Find(s, k) == Find(t, k)
    ensures s == t
  {
    hide Find, Sorted;
    FirstFound(s);
    FirstFound(t);
    if s != [] {
      assert Find(t, s[0].key) == Find(s, s[0].key);
    }
    if t != [] {
      assert Find(s, t[0].key) == Find(t, t[0].key);
    }
    if s != [] && t != [] {
      SameFirst(s, t);
      forall k ensures Find(s[1..], k) == Find(t[1..], k) {
        SameRest(s, t, k);
      }
      SortedExtensionality(s[1..], t[1..]);
      assert s == [s[0]] + s[1..] && t == [t[0]] + t[1..];
    }
  }

  lemma FirstFound(s: seq<Entry>)
    requires Sorted(s)
    ensures if s == [] then forall k :: Find(s, k) == None else Sorted(s[1..]) && Find(s, s[0].key) == Some(s[0])
  {
  }
}
