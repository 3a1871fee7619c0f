# Verification of the bucket list and its neighbours

A Dafny model of the parts of this node where a wrong step loses data, and proofs about them.

* **The bucket list** (`Entries`, `Merge`, `MergeTheorems`, `ListInvariant`, `Schedule`, `Machine`,
  `LedgerSpans`, `History`, `Database`, `UpgradeJump`, `Canonical`, `BucketList`, `Applicator`, `BucketFile`).
  Buckets are sorted sequences of INIT, LIVE and DEAD entries. `Merge` has the single-pass merge as the source
  runs it and a recursive specification of it; `MergeTheorems` says what a merge means to a reader, when it
  throws, and when order matters. `Machine` is the list as a state machine over any kind of bucket, with ledger
  closes, background completions and crashes followed by a restart as its events; pending merges carry the
  shadows they were started with. `History` runs it on real buckets. Three kinds of bucket are put into it:
  intervals of ledger numbers (`LedgerSpans`), buckets that owe the reader what `Database` says, under every
  protocol, and buckets that are the plain merge of their batches (`Canonical`). `BucketList` is the mutable
  list, proved to take the machine's steps.

  The main result, `Database.RunHoldsDatabase`, is that the list always holds the database. It has one condition
  on upgrades: the first ledger of protocol 12 or later comes more than `WorstGap(n)` ledgers after the last one of
  a protocol before 11. That is 27308 for the 11 levels of the source; nothing is asked when only one of the two
  kinds occurs, or of a list of fewer than 4 levels. `UpgradeJump.UpgradeThreshold` shows that the condition is
  exact: at every smaller distance some legal history brings a deleted key back. The rule that keeps shadowed
  tombstones is switched on by shadows of protocol 11 but not by newer ones, and all ledgers of protocol 11 may
  lie in one bucket that ends in protocol 12.
* **`permute_args`** (`PermuteArgs`): the in-place exchange of two blocks by cycles.
* **`uint128_t`** (`UInt128`): arithmetic on two words against the numbers they stand for.
* **Base 16, 32 and 64** (`BaseN`): regrouping bits, the alphabets of RFC 4648, and the round trip.
* **Bit sets** (`BitSet`, `BitSetQueries`): word arrays as finite sets.
* **SipHash-2-4** (`SipHash`, `SipHashVector`): the streaming hasher against the hash of the whole input, and the
  published test vector.
* **JSON** (`Json`, `JsonGrammar`, `JsonReader`, `JsonWriter`, `JsonRoundTrip`, `JsonLayout`, `JsonAccepted`): the fast
  writer, the reader, the round trip asked for by sections 6 and 7 of RFC 8259, and an independent description of the
  documents the reader accepts and of what they mean, proved in both directions.

`Options`, `Bits` and `Words` hold what the others share. Integers are unbounded; where the source's width
matters it is written out (64-bit words in `Words`, modulo 2^128 in `UInt128`, bit vectors in `SipHash`).

Where code and documentation disagree, the code is modelled:

* The comment on `maybePut` says that from protocol 11 on a shadowed tombstone is kept; a merge started from protocol 12 on
  of two buckets from before 11 drops it, because shadows of protocol 12 do not raise the merge's version.
* `BucketApplicator::advance` stops on the last entry it applied when a batch is full, so the next call applies that entry again.
* `bitset_shift_left` is documented for any bit set, but by part of a word it reads the last word of the array,
  so it needs a non-empty one; `bitset_shift_right` needs the shift to stay within the array.
* The JSON reader ignores whatever follows the first value, reads a lone `-` as 0, takes any token for the
  separator after a comment inside an object, and takes a closing brace after a comma when the last name was empty.

## Model

| member | source | states |
|---|---|---|
| `Entries.ApplyAt` | src/bucket/BucketApplicator.cpp:56-79 | What a database holds at a key after a whole sorted bucket is applied depends on that one key's entry alone: INIT and LIVE set it, DEAD erases it, no entry leaves it |
| `Entries.SortedExtensionality` | src/bucket/Bucket.cpp:128-135 | A sorted bucket is determined, order included, by the entry it has for each key |
| `Merge.OutputIterator.Put` | src/bucket/BucketOutputIterator.cpp:66-110 | A put refuses exactly the entries its version does not support, and else appends the entry, or replaces the buffered one of the same identity, or drops a tombstone at the last level; the contents are what is written plus what is buffered |
| `Merge.OutputIterator.GetBucket` | src/bucket/BucketOutputIterator.cpp:112-139 | The buffered entry is flushed and META is there exactly from protocol 11 on, so an empty pre-11 output is the empty bucket |
| `Merge.Scan` | src/bucket/Bucket.cpp:259-273 | Stepping one shadow iterator forward stops on the key exactly when the shadow holds it, and never skips a key still to come |
| `Merge.ScanShadows` | src/bucket/Bucket.cpp:257-274 | The scan over all shadows hits exactly when some shadow holds the key, though cursors only ever move forward |
| `Merge.MaybePut` | src/bucket/Bucket.cpp:205-277 | Output grows by the entry unless it is shadowed (and, from protocol 11 on, only LIVE entries can be), every cursor is still good for all larger keys, and the output iterator's own check never fires |
| `Merge.PutEqual` | src/bucket/Bucket.cpp:462-588 | For equal keys the output grows by the table's result, and an error is raised exactly for an entry the protocol does not support or a non-DEAD entry under an INIT |
| `Merge.MergePass` | src/bucket/Bucket.cpp:627-651 | The single forward pass over both inputs and all shadows writes the recursive merge of the two sequences, or reports the error that merge meets first |
| `Merge.MergeFiles` | src/bucket/Bucket.cpp:590-658 | The whole operation, version rules and META included, equals the specification merge for all sorted inputs, any number of shadows and every protocol |
| `MergeTheorems.MergeSorted` | src/bucket/Bucket.cpp:620-658 | Merging sorted buckets gives a strictly sorted bucket, with any shadows and either tombstone rule |
| `MergeTheorems.MergeAt` | src/bucket/Bucket.cpp:469-479 | Key by key the output is the lifecycle table applied to the two inputs' entries, minus what shadows and the tombstone filter remove |
| `MergeTheorems.MergeFails` | src/bucket/Bucket.cpp:534-577 | A merge throws if and only if some key has an entry its protocol does not support or an INIT over a non-DEAD entry |
| `MergeTheorems.MergeRefused` | src/bucket/Bucket.cpp:379-413 | A merge throws before it starts if and only if its version is above the limit, or is 12 or later and there are shadows; each error for its own reason |
| `MergeTheorems.WrittenEntry` | src/bucket/Bucket.cpp:205-277 | Of the entry the table gives for a key, a LIVE is written exactly when no shadow has the key, an INIT always, and a DEAD unless tombstones are filtered or a shadow has the key before protocol 11 |
| `MergeTheorems.NoTombstones` | src/bucket/BucketOutputIterator.cpp:78-83 | A merge for the last level writes no tombstone |
| `MergeTheorems.MergeReader` | src/bucket/Bucket.cpp:483-490 | A reader that applies the merged bucket sees what applying old then new gives, if and only if every key the merge forgets (INIT with DEAD, or a dropped tombstone) is absent from the database before |
| `MergeTheorems.MergeOrder` | src/bucket/Bucket.cpp:469-479 | Merging three buckets left-first or right-first agrees entry for entry if and only if one pattern of three lifecycle entries at one key does not occur |
| `MergeTheorems.MergeFits` | src/bucket/Bucket.cpp:501-530 | On buckets that create only absent keys and touch only present ones a merge cannot throw, fits the state before the older bucket, and has the effect of both |
| `MergeTheorems.MergeAssociative` | src/bucket/Bucket.cpp:420-588 | On such a create/update/delete history merging is associative, entry for entry, with tombstones kept |
| `ListInvariant.ReaderSeesNewest` | src/bucket/Bucket.cpp:501-505 | Applying a whole list oldest to newest leaves at every key the effect of the newest entry for it |
| `ListInvariant.NeverMalformed` | src/bucket/Bucket.cpp:507-511 | While every INIT in the list has DEAD or nothing below it, merging any two neighbours reaches none of the malformed-bucket errors |
| `ListInvariant.MergeKeepsView` | src/bucket/Bucket.cpp:483-490 | Replacing two neighbouring buckets by their merge, with shadows taken from newer buckets under either shadowing rule, leaves the database the list stands for unchanged |
| `ListInvariant.MergeKeepsInvariant` | src/bucket/Bucket.cpp:492-530 | The same replacement keeps "the next older entry of an INIT is DEAD or absent" for the whole list when shadowed INIT and DEAD entries are kept |
| `ListInvariant.ShadowedTombstoneIsNeeded` | src/bucket/Bucket.cpp:213-240 | A concrete list in which dropping a shadowed tombstone leaves an INIT over a live entry, the scenario the protocol-11 rule exists to prevent |
| `Schedule.MaskBitwise` | src/bucket/BucketList.cpp:248-252 | On 32-bit words `v & ~(m - 1)` for a power of two m is rounding down to a multiple of m |
| `Schedule.SpillIffMultiple` | src/bucket/BucketList.cpp:397-408 | A level other than the last spills exactly at the multiples of its half size; the test against the full size adds nothing |
| `Schedule.SizeOfCurr` | src/bucket/BucketList.cpp:254-299 | The recursion terminates, asks only for nonzero ledgers, never underflows, and gives the distance of two closed-form boundaries |
| `Schedule.SizeOfSnap` | src/bucket/BucketList.cpp:301-325 | Likewise for the snapshot: the subtraction of the younger levels never underflows and gives the closed form |
| `Schedule.CurrSizeSteps` | src/bucket/BucketList.cpp:268-287 | The closed-form size of curr obeys the stepwise rule: it restarts at a spill of its own and grows by one spill of the level below |
| `Schedule.Descending` | src/bucket/BucketList.cpp:327-364 | At every ledger and level the boundaries descend from curr to snap to the next level, so no interval is negative |
| `Machine.AddBatchPending` | src/bucket/BucketList.cpp:518-586 | Closing a ledger leaves at every level a merge with exactly the inputs the schedule prescribes, pending or resolved |
| `Machine.AddBatchCovered` | src/bucket/BucketList.cpp:518-586 | Closing a ledger moves every curr and snap to the interval of ledgers the closed form prescribes for the new ledger, for any bucket algebra that joins adjacent intervals |
| `Machine.ResolveKeeps` | src/bucket/BucketList.cpp:428-439 | Resolving any set of finished merges at any time changes neither what buckets cover nor what is pending |
| `Machine.ShadowsTile` | src/bucket/BucketList.cpp:481-522 | The shadows a merge is started with tile the ledgers after its inputs, two buckets of half a level each for every younger level, and do so until the ledger of the merge |
| `Machine.ClearedShadowless` | src/history/HistoryArchive.cpp:326-344 | After a crash at any ledger, which keeps the merges of snaps from before protocol 12 and may lose the others, a level without a merge was never prepared or has a snap whose merges take no shadows |
| `Machine.RestartKeeps` | src/bucket/BucketList.cpp:602-672 | A crash that loses any set of merges without shadows, followed by a restart, re-establishes the whole invariant at any ledger and changes no outcome |
| `Machine.RestartRecovers` | src/bucket/BucketList.cpp:620-671 | At each level the restart starts a merge exactly where one was lost, with the same inputs and the same outcome; the early return skips only levels never prepared |
| `Machine.RunInv` | src/bucket/BucketList.cpp:471-672 | The invariant holds after every finite interleaving of ledger closes, background completions and crashes with restart |
| `Machine.OnlyClosesMatter` | src/bucket/BucketList.cpp:602-672 | Every curr, every snap and the outcome of every pending merge is the one of the run with the same closes and no completions or crashes at all |
| `LedgerSpans.BucketSpans` | src/bucket/BucketList.cpp:471-600 | In every reachable state each bucket holds exactly the consecutive ledgers between its two boundaries |
| `LedgerSpans.SizesCount` | src/bucket/BucketList.cpp:254-325 | After any run, the recursive size functions count the batches in each level's curr and snap, at every ledger from 1 and every level |
| `LedgerSpans.BucketsTile` | src/bucket/BucketList.cpp:327-364 | Read oldest first, the buckets hold every ledger from 1 to the current one exactly once and in order |
| `LedgerSpans.OldestLedgerInCurr` | src/bucket/BucketList.cpp:327-345 | The counting loop never underflows and returns the ledger after the older boundary, or the maximum for an empty bucket |
| `LedgerSpans.OldestLedgerInSnap` | src/bucket/BucketList.cpp:347-364 | The same for the snapshot of a level |
| `LedgerSpans.OldestLedgers` | src/bucket/BucketList.cpp:327-364 | That ledger is the first one actually in the bucket, in every reachable state |
| `History.VersionMeans` | src/bucket/Bucket.cpp:359-374 | The version of a merge is the greatest of its inputs' and of those shadows that are older than protocol 12 |
| `History.RunCovered` | src/bucket/BucketList.cpp:471-672 | Whatever family of buckets merging stays in, every bucket and every pending merge of every reachable state is of that family |
| `History.PendingMergesSucceed` | src/bucket/Bucket.cpp:379-412 | No pending merge of a reachable state can throw: not for its version, not for shadows, not as malformed |
| `History.CrashesDoNotShow` | src/bucket/BucketList.cpp:602-672 | For real buckets and any closes at all, every curr, every snap and the outcome of every pending merge is the one of the run with the same closes and no completions or crashes |
| `History.CrashedLevels` | src/history/HistoryArchive.cpp:326-344 | After a crash in any run of real buckets, whichever merges were stored, a level has a merge, or an untouched snap below it, or a snap from protocol 12 on |
| `History.CrashLoses` | src/history/HistoryArchive.cpp:326-344 | A crash loses exactly the merges that are not stored and whose snap is from protocol 12 on, and leaves everything else |
| `History.BottomHasNoTombstones` | src/bucket/BucketList.cpp:410-414 | In every run, whatever its batches, the last level is free of tombstones, and its snap is never used |
| `History.RunLimited` | src/bucket/Bucket.cpp:379-384 | In every reachable state no merge is pending under a version limit above the protocol of the last closed ledger |
| `Database.AllOldBefore` | src/bucket/Bucket.cpp:391-400 | Up to a ledger of a protocol before 11 the last touch of a key and its last touch under such a protocol are the same |
| `Database.StandsJoin` | src/bucket/Bucket.cpp:469-479 | What two neighbouring buckets owe at a key, their entries combined owe for both intervals, whatever has been dropped from either |
| `Database.StandsDropped` | src/bucket/Bucket.cpp:213-277 | A merge may drop a value that a later ledger has touched, any entry that a later ledger of a protocol before 11 has, or a tombstone with nothing below |
| `Database.MergeVersionOk` | src/bucket/Bucket.cpp:359-413 | A merge has the version of its newest ledger, or 11 for an old one under shadows of protocol 11; below the last level it works by the old rules only if all its shadows are old |
| `Database.ShadowsOld` | src/bucket/Bucket.cpp:362-374 | A merge of old buckets that no shadow of protocol 11 warns is under old shadows only, when upgrades are more than WorstGap apart: no step from bucket to bucket through the shadows can reach protocol 12 |
| `Database.GapGrows` | src/bucket/Bucket.cpp:362-374 | The distance that shadows of a level can hide grows with the level, and exceeds what any bucket of a younger level covers |
| `Database.ShadowedTouched` | src/bucket/Bucket.cpp:241-277 | A key found in the shadows has been touched by a later ledger, though the shadows were recorded many ledgers ago |
| `Database.StandingMerge` | src/bucket/Bucket.cpp:590-658 | Merging neighbours under whatever shadows the list gives them cannot throw, and what comes out owes the reader nothing that is missing |
| `Database.StandingRegime` | src/bucket/BucketList.cpp:481-600 | Over a legal history of any protocols the buckets that meet what they owe are closed under every merge the list starts, at every later ledger |
| `Database.RunHoldsDatabase` | src/bucket/BucketList.cpp:471-672 | After any interleaving of closes, completions and crashes, over a legal history of any protocols whose upgrades are more than WorstGap apart, applying the list oldest to newest gives exactly the database after the closed ledgers, and the list is sorted and satisfies the INIT invariant, although merges before protocol 12 drop what shadows cover |
| `Database.TombstoneKept` | src/bucket/Bucket.cpp:359-400 | A merge of two buckets from before protocol 11 keeps a tombstone if and only if no shadow has its key or some shadow is of protocol 11; a newer shadow does not count |
| `UpgradeJump.JumpBringsKeyBack` | src/bucket/Bucket.cpp:362-374 | For every level from 2 up and every distance up to the level's gap there is a history, legal and of exactly that distance, after which the list holds a key that the database has deleted |
| `UpgradeJump.BareMerge` | src/bucket/Bucket.cpp:362-400 | In that run the level merges a tombstone from before protocol 11 under the shadow of an INIT of protocol 12, and drops it |
| `UpgradeJump.UpgradeThreshold` | src/bucket/Bucket.cpp:362-400 | A list of n levels holds the database along all legal histories whose upgrades are a given distance apart if and only if n is less than 4 or the distance is more than WorstGap(n) |
| `Database.WorstGaps` | src/bucket/BucketList.cpp:674-674 | The distances for four, five and six levels and for the eleven of the source |
| `Canonical.SpanJoin` | src/bucket/Bucket.cpp:420-588 | Merging the batches of two adjacent intervals, each merged one ledger at a time, gives the one-ledger-at-a-time merge of both |
| `Canonical.BucketsAreSpans` | src/bucket/BucketList.cpp:471-600 | Along every run over a strict history each bucket equals, entry for entry and in version, the plain merge of the batches of its ledgers: its content depends on the interval and not on the schedule |
| `BucketList.BucketLevel.Commit` | src/bucket/BucketList.cpp:108-118 | Commit makes the outcome of the pending merge the new curr and clears it, or fails exactly when that merge throws |
| `BucketList.BucketLevel.Prepare` | src/bucket/BucketList.cpp:154-175 | Prepare records a merge of the snap with curr, or with the empty bucket one step before the level spills, and with the shadows unless the snap is of protocol 12 or later |
| `BucketList.BucketLevel.Snap` | src/bucket/BucketList.cpp:177-187 | Snap moves curr into snap and leaves an empty curr |
| `BucketList.BucketList.constructor` | src/bucket/BucketList.cpp:674-682 | A new list is the initial state of the machine |
| `BucketList.BucketList.SpillLevels` | src/bucket/BucketList.cpp:518-571 | The downward loop, working in place and popping two shadows a round, leaves at every level what the machine's simultaneous step prescribes from the levels before it, and fails exactly when a merge that is due throws |
| `BucketList.BucketList.AddBatch` | src/bucket/BucketList.cpp:471-600 | The mutable list refines the machine's close step, shadows included, and succeeds exactly when every merge it waits for does |
| `BucketList.BucketList.ResolveAnyReadyFutures` | src/bucket/BucketList.cpp:428-439 | Refines the machine's resolve step for the finished merges, and fails exactly when one of them threw |
| `BucketList.BucketList.RestartMerges` | src/bucket/BucketList.cpp:602-672 | Refines the machine's restart, early return included; it reports the invalid state exactly when it comes to a level without a merge over a snap of a protocol with shadows |
| `BucketList.ClosingNeverFails` | src/bucket/BucketList.cpp:471-600 | Along a legal history of any protocols, in every reachable state, closing the next ledger waits for no merge that throws |
| `BucketList.RestartNeverFails` | src/bucket/BucketList.cpp:638-662 | After a crash in any run, whatever its batches and whichever merges were stored, the invalid state the restart guards against does not occur |
| `Applicator.ApplyOverlapping` | src/bucket/BucketApplicator.cpp:75-79 | Applying the entry at a batch break a second time changes nothing |
| `Applicator.BucketApplicator.Advance` | src/bucket/BucketApplicator.cpp:49-84 | One call applies up to one more entry than the batch size in one transaction, leaves the iterator on the last of them when cut off, and changes nothing when it throws |
| `Applicator.BucketApplicator.Run` | src/bucket/Bucket.cpp:85-97 | For every batch size from 1 the loop ends with the database of one pass, succeeds exactly on supported entries, and counts one entry extra per break |
| `BucketFile.InputIterator.LoadEntry` | src/bucket/BucketInputIterator.cpp:15-53 | The next entry that is not META, with the flags telling what has been seen; it fails only on a malformed file |
| `BucketFile.ReadBucket` | src/bucket/BucketInputIterator.cpp:89-124 | Iterating over a file yields the bucket it stands for, exactly when META comes first, once, and supports every entry |
| `BucketFile.ReadsBack` | src/bucket/BucketInputIterator.cpp:15-53 | A well-formed file of a bucket stands for that bucket and no other |
| `BucketFile.FilesRead` | src/bucket/BucketInputIterator.cpp:40-47 | The file of any bucket is read back if and only if it has no INIT under a META of a protocol before 11 |
| `BucketFile.MergedReadsBack` | src/bucket/Bucket.cpp:590-658 | Whatever a merge writes, under any protocols and shadows, is well-formed and reads back as itself |
| `BucketFile.Fresh` | src/bucket/Bucket.cpp:138-171 | The bucket of a ledger close holds each created key as INIT from protocol 11 on and as LIVE before, each updated key as LIVE, each deleted key as DEAD and no other, with META exactly from protocol 11 on; it reads back as itself, and is refused exactly when a key is handed over twice |
| `BucketFile.ConvertToBucketEntry` | src/bucket/Bucket.cpp:99-136 | The entries handed over come out as a sorted permutation, each under the kind it was handed over as, or the assertion fails exactly when a key is handed over twice |
| `BucketFile.CarriedApplies` | src/bucket/Bucket.cpp:99-136 | Applying what a ledger close hands over sets exactly what it creates and updates, erases exactly what it deletes, and leaves every other key |
| `PermuteArgs.ComputeGcd` | lib/util/getopt_long.c:104-120 | The remainder loop returns what Euclid's recursion does, also for an empty first block |
| `PermuteArgs.Bezout` | lib/util/getopt_long.c:104-120 | What Euclid computes divides both lengths and is an integer combination of them, so it is their greatest common divisor |
| `PermuteArgs.OrbitInjective` | lib/util/getopt_long.c:140-155 | The positions a cycle visits repeat only after its full length |
| `PermuteArgs.OrbitSurjective` | lib/util/getopt_long.c:140-155 | Every row of the range is visited by the cycle of its column |
| `PermuteArgs.RotateCycle` | lib/util/getopt_long.c:143-155 | One inner loop of swaps through a fixed place puts every entry of one residue class where the exchange of the blocks wants it and touches nothing else |
| `PermuteArgs.PermuteArgs` | lib/util/getopt_long.c:122-157 | In place, the two blocks change places, each keeps its own order, and the rest of the vector stays |
| `UInt128.Compare` | lib/util/uint128_t.cpp:152-180 | The comparisons on two words are those of the numbers |
| `UInt128.Add` | lib/util/uint128_t.cpp:182-184 | Addition modulo 2^128, the carry found by wrap-around |
| `UInt128.Sub` | lib/util/uint128_t.cpp:192-194 | Subtraction modulo 2^128, the borrow found by wrap-around |
| `UInt128.First` | lib/util/uint128_t.cpp:214-229 | The most significant column of 32-bit partial products is summed without losing a carry in a 64-bit word |
| `UInt128.MulValue` | lib/util/uint128_t.cpp:201-233 | The schoolbook product of four limbs is multiplication modulo 2^128 |
| `UInt128.ShlValue` | lib/util/uint128_t.cpp:86-106 | Left shift multiplies by the power of two modulo 2^128, and is zero from 128 on, for every 128-bit shift amount |
| `UInt128.ShrValue` | lib/util/uint128_t.cpp:108-128 | Right shift divides by the power of two, and is zero from 128 on |
| `UInt128.BitLength` | lib/util/uint128_t.cpp:321-339 | The result is the position of the highest one-bit, zero for zero |
| `UInt128.OrPower` | lib/util/uint128_t.cpp:265-265 | Or-ing the adder into the quotient adds it, because no lower quotient bit is set yet |
| `UInt128.DivMod` | lib/util/uint128_t.cpp:240-271 | Shift-and-subtract division returns the Euclidean quotient and remainder, and fails exactly for a zero divisor |
| `UInt128.Mod` | lib/util/uint128_t.cpp:282-284 | The remainder by way of a wrapping product and difference is the Euclidean one |
| `UInt128.Str` | lib/util/uint128_t.cpp:341-360 | The digits denote the number in the base, are padded with zeros to the asked length and no further, and bases outside 2 to 16 are refused |
| `UInt128.TextUnique` | lib/util/uint128_t.cpp:341-360 | No other digits of that length denote the number, so the text is determined |
| `UInt128.DigitLetters` | lib/util/uint128_t.cpp:352-352 | The digits are 0 to 9 and the small letters a to f, the most significant first |
| `BaseN.ExtractPartialBits` | lib/util/basen.h:61-69 | A group inside one byte is the stretch of its bits asked for |
| `BaseN.ExtractOverlappingBits` | lib/util/basen.h:71-79 | A group across two bytes is the stretch of their joined bits, though the shift loses bits of the first |
| `BaseN.AlphabetRoundTrip` | lib/util/basen.h:83-163 | Each alphabet's decode undoes its encode, and no digit is white space |
| `BaseN.DecodedInRange` | lib/util/basen.h:83-163 | Decode accepts only characters of the alphabet, gives values of one group, and refuses the padding sign |
| `BaseN.Decode` | lib/util/basen.h:165-208 | The bytes are the bits of the accepted characters cut to whole bytes; everything else is skipped |
| `BaseN.Encode` | lib/util/basen.h:210-253 | The text is the bits of the bytes in groups, zero-filled, then the fewest padding signs that end on a byte boundary |
| `BaseN.RoundTrip` | lib/util/basen.h:165-253 | For all three bases and all byte strings, decoding an encoding gives the bytes back |
| `BaseN.DecodesUnique` | lib/util/basen.h:165-208 | The accepted characters determine the decoded bytes |
| `BaseN.JunkIgnored` | lib/util/basen.h:172-182 | White space and foreign characters inserted anywhere do not change what is decoded |
| `BaseN.EncodedLength` | lib/util/basen.h:218-252 | Every encoding is a whole number of units (2, 8 or 4 characters), with less than one unit of padding |
| `BaseN.Alphabets` | lib/util/basen.h:83-163 | The dictionaries are the alphabets of sections 8, 6 and 4 of RFC 4648, character by character |
| `BaseN.EncodingUnique` | lib/util/basen.h:210-253 | No other text of groups and the fewest padding signs stands for the bytes |
| `BaseN.Base16Vector` | lib/util/basen.h:210-253 | The byte 0xAB is encoded as AB |
| `BaseN.Base32Vector` | lib/util/basen.h:210-253 | The first test vector of section 10 of RFC 4648: f is MY====== |
| `BaseN.Base64Vector` | lib/util/basen.h:210-253 | The bytes 0xFB 0xFF are encoded with the last two signs of the alphabet as +/8= |
| `BitSet.CountMembers` | lib/util/cbitset.c:182-211 | The sum of the words' popcounts is the size of the set of one-bit positions |
| `BitSet.BitSet.Grow` | lib/util/cbitset.h:72-91 | Growing appends zero words, reallocated or not |
| `BitSet.BitSet.Resize` | lib/util/cbitset.c:158-180 | Resizing keeps the common words and zeroes new ones only when asked |
| `BitSet.BitSet.Set` | lib/util/cbitset.h:107-119 | The set gains the one member, growing the array as far as needed |
| `BitSet.BitSet.Unset` | lib/util/cbitset.h:124-133 | The set loses the one member, in or beyond the array |
| `BitSet.BitSet.Get` | lib/util/cbitset.h:136-145 | True exactly for members, also beyond the array |
| `BitSet.BitSet.UnionWith` | lib/util/cbitset.c:213-231 | In-place union for arrays of any two sizes, and of a set with itself |
| `BitSet.BitSet.IntersectWith` | lib/util/cbitset.c:312-326 | In-place intersection for arrays of any two sizes |
| `BitSet.BitSet.Subtract` | lib/util/cbitset.c:328-338 | In-place difference for arrays of any two sizes |
| `BitSet.BitSet.SymmetricDifferenceWith` | lib/util/cbitset.c:358-377 | In-place symmetric difference for arrays of any two sizes |
| `BitSet.BitSet.ShiftLeft` | lib/util/cbitset.c:86-118 | Every member moves up by the shift, whole words or parts of words, overwriting in place from the top |
| `BitSet.BitSet.ShiftRight` | lib/util/cbitset.c:120-147 | Every member from the shift on moves down by it and smaller ones are dropped, overwriting in place from the bottom |
| `BitSet.BitSet.Trim` | lib/util/cbitset.c:435-459 | The set stays and no zero word is left at the end |
| `BitSetQueries.CountOf` | lib/util/cbitset.c:182-211 | The loop unrolled by eight and by four counts the members |
| `BitSetQueries.UnionCount` | lib/util/cbitset.c:261-310 | Counts the union without building it, for arrays of any two sizes |
| `BitSetQueries.IntersectionCount` | lib/util/cbitset.h:168-178 | Counts the intersection over the common words alone |
| `BitSetQueries.DifferenceCount` | lib/util/cbitset.c:340-356 | Counts the difference for arrays of any two sizes |
| `BitSetQueries.SymmetricDifferenceCount` | lib/util/cbitset.c:379-405 | Counts the symmetric difference for arrays of any two sizes |
| `BitSetQueries.Minimum` | lib/util/cbitset.c:233-245 | The least member, or 0 for the empty set |
| `BitSetQueries.Maximum` | lib/util/cbitset.c:247-259 | The greatest member, or 0 for the empty set |
| `BitSetQueries.NextSetBit` | lib/util/cbitset.h:207-234 | The least member from the start on, or nothing with the position left alone |
| `BitSetQueries.List` | lib/util/cbitset.h:201-206 | The documented loop lists every member once, in ascending order |
| `BitSetQueries.AndNegated` | lib/util/cbitset.h:299-299 | `w & (~w + 1)` is the lowest one-bit of w by itself |
| `BitSetQueries.ForEach` | lib/util/cbitset.h:289-308 | The callback gets the members in ascending order up to the first it refuses, and the result is true exactly when it refuses none |
| `SipHash.LoadIsWord` | lib/util/siphash.h:25-34 | The eight-byte load is the little-endian word built byte by byte |
| `SipHash.HighBytesClear` | lib/util/siphash.cpp:37-46 | The bytes of the pending word above the ones filled in are zero |
| `SipHash.SipHash24.constructor` | lib/util/siphash.cpp:5-18 | A new hasher holds the empty input under its key |
| `SipHash.SipHash24.Update` | lib/util/siphash.h:70-97 | Word path, byte path or both, the hasher then holds the old input followed by the new bytes, so how the input is split cannot matter |
| `SipHash.SipHash24.Digest` | lib/util/siphash.cpp:24-60 | The digest is the fold over the whole little-endian words and the last word with the length byte, and its assertions on unused bytes hold |
| `SipHashVector.Rotation13` | lib/util/siphash.h:19-23 | Rotating by 13 takes bit i to bit i + 13 modulo 64 |
| `SipHashVector.Rotation16` | lib/util/siphash.h:19-23 | Rotating by 16 takes bit i to bit i + 16 modulo 64 |
| `SipHashVector.Rotation17` | lib/util/siphash.h:19-23 | Rotating by 17 takes bit i to bit i + 17 modulo 64 |
| `SipHashVector.Rotation21` | lib/util/siphash.h:19-23 | Rotating by 21 takes bit i to bit i + 21 modulo 64 |
| `SipHashVector.Rotation32` | lib/util/siphash.h:19-23 | Rotating by 32 takes bit i to bit i + 32 modulo 64 |
| `SipHashVector.Vector` | lib/util/siphash.cpp:24-60 | The test vector published with SipHash-2-4: key bytes 0 to 15 and message bytes 0 to 14 give 0xa129ca6149be45e5 |
| `JsonWriter.UIntToString` | lib/json/jsoncpp.cpp:145-151 | The digits, produced from the end, denote the number without leading zeros |
| `JsonWriter.ValueToQuotedString` | lib/json/jsoncpp.cpp:3075-3135 | Shortcut or character loop, the result is the C string with its escapes between quotes |
| `JsonWriter.FastWriter.WriteValue` | lib/json/jsoncpp.cpp:3162-3208 | The document grows by the text of the tree |
| `JsonWriter.FastWriter.Write` | lib/json/jsoncpp.cpp:3154-3160 | The text of the tree, in either colon layout, with or without the line feed |
| `JsonReader.AccumulateDigits` | lib/json/jsoncpp.cpp:704-727 | The threshold test gives up exactly when the whole number is above the bound, and the accumulator never passes it |
| `JsonReader.DecodeNumber` | lib/json/jsoncpp.cpp:689-735 | A number token is an integer exactly when it has no double mark and its digits fit the bound for its sign, and is left to the double conversion otherwise; the not-a-number error for integers is unreachable |
| `JsonReader.DecodeUnicodeCodePoint` | lib/json/jsoncpp.cpp:846-873 | Four hexadecimal digits, or a surrogate pair of them, or nothing |
| `JsonReader.DecodeString` | lib/json/jsoncpp.cpp:793-844 | The loop undoes all escapes of the string, or fails exactly where one is malformed |
| `JsonReader.Reader.ReadToken` | lib/json/jsoncpp.cpp:422-491 | The cursor skips spaces and takes the token at the front, its kind, text and end, from any document |
| `JsonReader.Reader.ReadValue` | lib/json/jsoncpp.cpp:332-403 | Reads the value the grammar finds at the cursor and stops behind it, or fails exactly when there is none |
| `JsonReader.Reader.ReadObject` | lib/json/jsoncpp.cpp:587-640 | The member loop, with its treatment of comments and of empty names, and with names cut at a NUL, reads what the grammar of members finds |
| `JsonReader.Reader.ReadArray` | lib/json/jsoncpp.cpp:642-677 | The item loop reads what the grammar of items finds |
| `JsonReader.Reader.Parse` | lib/json/jsoncpp.cpp:291-330 | A document is accepted exactly when it begins with a value; what follows is ignored |
| `JsonGrammar.Utf8Decodes` | lib/json/jsoncpp.cpp:100-126 | Each code point's bytes decode back to it, so no two share an encoding |
| `JsonGrammar.ParsedOrdered` | lib/json/jsoncpp.cpp:618-621 | Whatever document is read, every object built has its names in strict order, so a repeated name leaves one member |
| `Json.PutMembers` | lib/json/jsoncpp.cpp:618-618 | Assigning a name changes that member and no other |
| `Json.LessMeans` | lib/json/jsoncpp.cpp:618-618 | Names are in the order of their first difference, a name before its continuations |
| `Json.CStringLaws` | lib/json/jsoncpp.cpp:618-618 | A C string is the longest front without a NUL |
| `Json.EscapeTable` | lib/json/jsoncpp.cpp:3089-3133 | Seven characters get their short escape, the other control characters a six-character escape with capital digits, and all others stand for themselves |
| `Json.CompactArray` | lib/json/jsoncpp.cpp:3162-3208 | Arrays are written with commas and nothing else between the items |
| `Json.CompactObject` | lib/json/jsoncpp.cpp:3162-3208 | Objects are written with the colon handed over and commas, and nothing else between names and values |
| `Json.Decimal` | lib/json/jsoncpp.cpp:145-151 | Digits are 0 to 9, the most significant first, in base ten |
| `JsonLayout.GapBefore` | lib/json/jsoncpp.cpp:493-573 | Any run of blanks, tabs, line ends and comments of either kind before a value, an item or a member changes nothing |
| `JsonLayout.GapAfter` | lib/json/jsoncpp.cpp:622-635 | The separator of a member is found behind any run of blanks and comments |
| `JsonLayout.PieceDecodes` | lib/json/jsoncpp.cpp:801-842 | Each character, short escape, four-digit escape and surrogate pair of a string means the bytes it should |
| `JsonLayout.FourDigits` | lib/json/jsoncpp.cpp:875-901 | Four hexadecimal digits, of either case, count for 4096, 256, 16 and 1; anything else is refused |
| `JsonLayout.NumberMeaning` | lib/json/jsoncpp.cpp:689-735 | Integers run from -2^63 to 2^64 - 1 and are unsigned from 2^31 on; a token with a point, an exponent or an inner sign, or beyond those bounds, is a double |
| `JsonLayout.Utf8Shortest` | lib/json/jsoncpp.cpp:100-126 | A code point takes one byte below 0x80, two below 0x800, three below 0x10000 and four up to 0x10FFFF |
| `JsonLayout.LayoutRead` | lib/json/jsoncpp.cpp:332-403 | Every layout of a tree, with any gaps, escapes, number texts, repeated names and nesting, is read as what it means, and exactly its text is consumed |
| `JsonAccepted.Accepted` | lib/json/jsoncpp.cpp:332-403 | Conversely every text a value is read from is such a layout of that value, except that after a comment inside an object any token does for the comma |
| `JsonRoundTrip.QuoteToken` | lib/json/jsoncpp.cpp:575-585 | A written string is scanned as one token, its closing quote never found inside an escape, and decodes to the string |
| `JsonRoundTrip.NumberDecodes` | lib/json/jsoncpp.cpp:700-733 | Every written integer but the most negative decodes to its value, tagged by size |
| `JsonRoundTrip.ValueReads` | lib/json/jsoncpp.cpp:332-403 | Any written tree is read back from the front of any text that does not go on with a number character, and exactly its text is consumed |
| `JsonRoundTrip.WrittenIsRead` | lib/json/jsoncpp.cpp:3154-3208 | Reading what the fast writer wrote succeeds and gives the same tree, names, strings and order included, up to the int or unsigned tag of equal numbers |
| `JsonRoundTrip.StringComesBack` | lib/json/jsoncpp.cpp:3090-3090 | A string comes back whole if and only if it holds no NUL |

## Left out

- Database.RunHoldsDatabase: takes from the ledger that batches are sorted, that an INIT comes only from protocol 11 on and only for a key the database does not have, and that protocols do not go down. The distance between upgrades is exact over all histories; a single history closer than that fails only where the schedule and its keys meet.
- BucketList.BucketList.RestartMerges: a merge restored from stored hashes (`makeLive`) runs on under the version limit it was started with, where the source passes the newest supported version; a merge allowed under the one is allowed under the other.
- Canonical.BucketsAreSpans: holds for protocols from 12 on only; before that a bucket's content does depend on the shadows of the ledger in which it was merged.
- BucketFile.ConvertToBucketEntry: `std::sort` is modelled as insertion in order; which of two equal keys comes first is unspecified in the source, where the assertion then fails.
- Entries.ApplyAt: ledger keys are their ranks in the identity order and values are opaque, so the comparison of ledger keys field by field is not modelled.
- JsonReader.DecodeNumber: a token that is not an integer keeps its text, because the conversion is done by `sscanf`; `-9223372036854775808` is given its mathematical value where the source negates with overflow.
- JsonReader.Reader.Parse: every number token that is not an integer is accepted as a double, where the source reports an error for the few that `sscanf` reads nothing from, such as `-e`; the same holds for `ReadValue`, `ReadObject` and `ReadArray`.
- JsonWriter.FastWriter.WriteValue: a double's text is the text it was read from, because the conversion is done by `snprintf`; dropping null placeholders is not modelled.
- JsonReader.Reader.ReadValue: values are returned instead of written through the node stack; offsets, attached comments, error messages and error recovery are not kept. A failed read is a failed read.
- BitSetQueries.ForEach: the callback's own effects are not modelled, only which values it gets and refuses.
- Ledger numbers do not wrap at 2^32, and a failed allocation does not occur.
- SHA-256, XDR, file streams, temporary files, bucket names and garbage collection: foreign code and I/O. Buckets are compared by content.
- Threads, futures and the bucket manager: a pending merge is its inputs, and completion is an event.
- The shutdown exception inside a merge, merge counters, timers, logging and apply-rate counters.
- `nextSetBits`, `bitset_equal` and `bitset_subseteq`: their results depend on word alignment or on the common words only.
- The mixed-type operators of `uint128_t.h` and the compound assignments: variants of the modelled operators.
- The rest of `getopt_long.c`, of jsoncpp (styled writers, paths, strict mode) and of the node.
