/**
  Applying a bucket to the database in batches (`BucketApplicator`).
 */
module Applicator {
  import opened Entries
  import opened Merge

  /** Applying an entry twice is applying it once. */
  lemma ApplyEntryTwice(db: Store, e: Entry)
    ensures ApplyEntry(ApplyEntry(db, e), e) == ApplyEntry(db, e)
  {
  }

  lemma ApplyUpTo(db: Store, s: seq<Entry>, p: nat)
    requires p < |s|
    ensures Apply(db, s[..p + 1]) == ApplyEntry(Apply(db, s[..p]), s[p])
  {
    assert s[..p + 1] == s[..p] + [s[p]];
    ApplyConcat(db, s[..p], [s[p]]);
  }

  /** Going on from an entry that has already been applied loses and adds nothing. */
  lemma ApplyOverlapping(db: Store, s: seq<Entry>, p: nat, q: nat)
    requires p < q <= |s|
    ensures Apply(Apply(db, s[..p + 1]), s[p..q]) == Apply(db, s[..q])
  {
    ApplyUpTo(db, s, p);
    ApplyEntryTwice(Apply(db, s[..p]), s[p]);
    assert s[p..q][0] == s[p];
    assert s[..q] == s[..p] + s[p..q];
    ApplyConcat(db, s[..p], s[p..q]);
  }

  class BucketApplicator {
    const entries: seq<Entry>
    const maxVersion: nat
    /** LEDGER_ENTRY_BATCH_COMMIT_SIZE */
    const batchSize: nat
    var pos: nat
    var count: nat
    var db: Store

    constructor (bucket: Bucket, maxVersion: nat, batchSize: nat, db: Store)
      requires bucket.Version() <= maxVersion
      ensures entries == bucket.entries && this.maxVersion == maxVersion && this.batchSize == batchSize
      ensures pos == 0 && count == 0 && this.db == db
    {
      entries, this.maxVersion, this.batchSize := bucket.entries, maxVersion, batchSize;
      pos, count, this.db := 0, 0, db;
    }

    ghost predicate Valid()
      reads this
    {
      pos <= |entries|
    }

    /** Up to `batchSize + 1` entries in one transaction; a full batch leaves the iterator on its last entry. */
    method Advance() returns (ok: bool)
      requires Valid()
      modifies `pos, `count, `db
      ensures Valid()
      ensures var n := if |entries| - old(pos) <= batchSize then |entries| - old(pos) else batchSize + 1;
              && (ok <==> forall i :: old(pos) <= i < old(pos) + n ==> Legal(maxVersion, entries[i]))
              && (ok ==> db == Apply(old(db), entries[old(pos)..old(pos) + n]) && count == old(count) + n)
              && (ok ==> pos == if n <= batchSize then |entries| else old(pos) + batchSize)
      ensures !ok ==> db == old(db) && count == old(count)
    {
      var ltx := db;
      var applied := 0;
      ghost var start := pos;
      while pos < |entries|
        invariant start <= pos <= |entries| && applied == pos - start <= batchSize
        invariant forall i :: start <= i < pos ==> Legal(maxVersion, entries[i])
        invariant ltx == Apply(old(db), entries[start..pos])
        invariant db == old(db) && count == old(count)
        decreases |entries| - pos
      {
        var e := entries[pos];
        if !Legal(maxVersion, e) {
          return false;
        }
        ltx := ApplyEntry(ltx, e);
        assert entries[start..][..pos - start] == entries[start..pos] && entries[start..][pos - start] == e;
        ApplyUpTo(old(db), entries[start..], pos - start);
        assert entries[start..][..pos - start + 1] == entries[start..pos + 1];
        applied := applied + 1;
        if applied > batchSize {
          break;
        }
        pos := pos + 1;
      }
      db := ltx;
      count := count + applied;
      return true;
    }

    /** `Bucket::apply`: advance until the iterator is exhausted. */
    method Run() returns (ok: bool)
      requires Valid() && pos == 0 && count == 0 && batchSize >= 1
      modifies `pos, `count, `db
      ensures ok <==> forall i :: 0 <= i < |entries| ==> Legal(maxVersion, entries[i])
      ensures ok ==> db == Apply(old(db), entries)
      ensures ok ==> count == if entries == [] then 0 else |entries| + (|entries| - 1) / batchSize
    {
      hide Halfway, Apply, Legal;
      ghost var breaks := 0;
      RunStart(db, entries, batchSize);
      while pos < |entries|
        invariant Valid() && Halfway(old(db), entries, batchSize, pos, db, count, breaks)
        invariant forall i :: 0 <= i < pos ==> Legal(maxVersion, entries[i])
        decreases |entries| - pos
      {
        ghost var p, before, counted := pos, db, count;
        ok := Advance();
        if !ok {
          return;
        }
        RunStep(old(db), entries, batchSize, p, before, counted, breaks);
        breaks := breaks + 1;
      }
      RunEnd(old(db), entries, batchSize, db, count, breaks);
      return true;
    }
  }

  /** The state between two calls: the entry at each break has been applied already. */
  ghost predicate Halfway(db0: Store, entries: seq<Entry>, batchSize: nat, pos: nat, db: Store, count: nat, breaks: nat)
    requires batchSize >= 1 && pos <= |entries|
  {
    if pos < |entries| then
      && pos == breaks * batchSize && count == breaks * (batchSize + 1)
      && db == if pos == 0 then db0 else Apply(db0, entries[..pos + 1])
    else
      db == Apply(db0, entries) && count == Total(|entries|, batchSize)
  }

  lemma RunStart(db: Store, entries: seq<Entry>, batchSize: nat)
    requires batchSize >= 1
    ensures Halfway(db, entries, batchSize, 0, db, 0, 0)
  {
  }

  lemma RunEnd(db0: Store, entries: seq<Entry>, batchSize: nat, db: Store, count: nat, breaks: nat)
    requires batchSize >= 1 && Halfway(db0, entries, batchSize, |entries|, db, count, breaks)
    ensures db == Apply(db0, entries)
    ensures count == if entries == [] then 0 else |entries| + (|entries| - 1) / batchSize
  {
  }

  lemma RunStep(db0: Store, entries: seq<Entry>, batchSize: nat, p: nat, db: Store, count: nat, breaks: nat)
    requires batchSize >= 1 && p < |entries| && Halfway(db0, entries, batchSize, p, db, count, breaks)
    ensures var n := if |entries| - p <= batchSize then |entries| - p else batchSize + 1;
            Halfway(db0, entries, batchSize, if n <= batchSize then |entries| else p + batchSize,
                    Apply(db, entries[p..p + n]), count + n, breaks + 1)
  {
    hide Apply, Total;
    var n := if |entries| - p <= batchSize then |entries| - p else batchSize + 1;
    if p > 0 {
      ApplyOverlapping(db0, entries, p, p + n);
    } else {
      assert entries[0..n] == entries[..n];
    }
    assert entries[..|entries|] == entries;
    if n <= batchSize {
      TotalAtEnd(|entries|, batchSize, breaks);
    } else {
      OneMoreBreak(breaks, batchSize);
    }
  }

  lemma OneMoreBreak(breaks: nat, batchSize: nat)
    ensures (breaks + 1) * batchSize == breaks * batchSize + batchSize
    ensures (breaks + 1) * (batchSize + 1) == breaks * (batchSize + 1) + batchSize + 1
  {
  }

  /** Entries applied in all: one more for every batch that was cut off. */
  function Total(n: nat, batchSize: nat): nat
    requires batchSize >= 1
  {
    if n == 0 then 0 else n + (n - 1) / batchSize
  }

  lemma TotalAtEnd(n: nat, batchSize: nat, breaks: nat)
    requires batchSize >= 1 && breaks * batchSize < n <= breaks * batchSize + batchSize
    ensures Total(n, batchSize) == breaks * (batchSize + 1) + (n - breaks * batchSize)
  {
    var r := n - 1 - breaks * batchSize;
    assert n - 1 == batchSize * breaks + r;
    assert (n - 1) / batchSize == breaks by {
      var d := (n - 1) / batchSize - breaks;
      assert batchSize * d == r - (n - 1) % batchSize;
    }
  }
}
