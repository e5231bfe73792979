# mock-tikv, verified

A Dafny model of the server side of mock-tikv: a Percolator-style transactional store over a
sorted byte map (`server/mvcc_leveldb.go`), the key codec that makes range scans work
(`server/codec.go`), the in-memory per-key machine (`server/mvcc.go`), the region map under splits
(`server/cluster.go`, `server/store.go`, `server/region.go`) and the timestamp oracle
(`server/server.go`).

The model has three layers. At the bottom are bytes: LevelDB is a finite map from byte strings to
byte strings, an iterator is its sorted content with a position, and the operations are methods
with loops that decode, collect a batch and write it (`Cursors`, `StoreSteps`, `MvccLevelDb`,
`ReverseScanning`). Above it a store is a map from keys to entries, an entry being an optional lock
and versions by commit timestamp, and a request is a function on it (`Entries`, `MvccStore`).
`Codec`, `Records` and `Layout` prove that the bytes represent the store, and `WireFormat` pins them
position by position. At the top are runs
(`Protocol`): any number of clients and lock resolvers send requests in any order, repeat and delay
them and lose answers. The clients keep to the rules of section 2.2 of the Percolator paper (OSDI
2010): the commit timestamp is fetched after all prewrites were seen to succeed, secondaries are
committed with or after the primary, and a resolver takes its verdict from `Cleanup` on the primary
before it resolves. `EntryInvariant`, `ProtocolInvariant`, `ProtocolTheorems` and `Snapshots` prove
what holds in every reachable state, `SnapshotScans` extends it to reads of many keys and
`StatusVerdicts` says what a status check is worth; `Serving` ties the runs back to the bytes,
`OracleRuns` to the oracle and `MachineRuns` to the in-memory machine. `RepeatedKeys`, `LockSlot`
and the last part of `Regions` deal with what falls outside the rules: requests that repeat a key,
timestamps and sizes at the edge of the encoding, and splits that race.

What the runs assume is written out in `Protocol.Enabled`: timestamps come from one increasing
oracle, so start and commit timestamps are all distinct, positive and below MaxUint64; each
transaction has one commit timestamp and one fixed mutation per key; the primary is a put or a
delete. Requests are atomic, as the store's mutex makes them.

Where the code and its comments differ the model follows the code. The layout comment at
`server/mvcc_leveldb.go:33-51` lists a version `verMax` beside the lock, but the lock is stored at
version MaxUint64, so the two share a slot; `Layout.CommitAtLockVersionLosesRecord` says what that
means. `mvccEntry.Get` returns a delete's value where `getValue` returns nothing, which is why
`ReverseScan` mirrors `Scan` only under the condition in `ReverseScanning.ReverseScanMirrorsScan`.

`dafny verify dfyconfig.toml` checks everything.

## Model

| member | source | states |
|---|---|---|
| `Codec.EncodeBytes` | server/codec.go:46-69 | The loop appends to `b` exactly the memcomparable encoding of the data, group by group, always ending in a padded group. |
| `Codec.DecodeBytes` | server/codec.go:71-125 | The loop consumes exactly one encoding from the front or fails; its result is the specification `Decode`, which `DecodeExactly` characterises. |
| `Codec.DecodeExactly` | server/codec.go:71-118 | Decoding `b` yields (rest, x) if and only if `b` is the encoding of `x` followed by `rest`: the two codecs are inverse, and nothing else is accepted. |
| `Codec.EncodedOrder` | server/codec.go:46-69 | For different keys the encodings compare as the keys do, whatever bytes follow each of them: order preserving and prefix free. |
| `Codec.DecodeUintDescExactly` | server/codec.go:176-193 | A version is decoded exactly from its own eight bytes followed by the rest. |
| `Codec.UintDescOrder` | server/codec.go:176-180 | Larger versions have smaller encodings. |
| `Codec.MvccDecodeExactly` | server/mvcc_leveldb.go:73-94 | `mvccDecode` yields (key, version) exactly for that slot's encoding, or, for version 0, also for the bare encoded key. |
| `Codec.MvccEncodeInjective` | server/mvcc_leveldb.go:65-69 | No two slots share an encoding. |
| `Codec.MvccEncodeOrder` | server/mvcc_leveldb.go:59-69 | `mvccEncode` is an order embedding of (key ascending, version descending) for all keys and versions. |
| `Codec.EncodedKeyBounds` | server/mvcc_leveldb.go:142-164 | An encoded key as a byte bound cuts the slots exactly where the raw key cuts the keys. |
| `WireFormat.EncodedBytes` | server/codec.go:46-69 | The length of an encoded key and every byte of it by position: data, zero padding, and the marker of each group. |
| `WireFormat.UintDescBytes` | server/codec.go:176-180 | Every byte of an encoded version by position: most significant first, inverted. |
| `MvccKeys.RawOfNew` | server/mvcc.go:472-489 | `Raw` undoes `NewMvccKey` for every key, the empty one included. |
| `MvccKeys.NewMvccKeyOrder` | server/mvcc.go:472-477 | `NewMvccKey` keeps the order of all keys and confuses none. |
| `MvccKeys.KeyInRegionIsRaw` | server/store.go:55-57 | For encoded bounds `checkKeyInRegion` decides as comparing the raw key with the raw bounds. |
| `MvccKeys.StartIsRawExactly` | server/store.go:55-57 | For every start bound that `Raw` can decode, `checkKeyInRegion` agrees with comparing raw keys on all keys if and only if `NewMvccKey` produces that bound. |
| `MvccKeys.EndIsRawExactly` | server/store.go:55-57 | The same for end bounds. |
| `MvccKeys.EncodedEmptyBoundDiffers` | server/store.go:55-57 | An instance: with the encoding of the empty key as a start bound the two differ. |
| `Records.SliceRoundTrip` | server/mvcc.go:114-181 | A slice read back through its uvarint length prefix is the slice if it is at most 10 MiB long, and a failure otherwise. |
| `Records.LockRoundTrip` | server/mvcc.go:59-82 | Unmarshalling a marshalled lock, followed by anything, returns its five serialised fields exactly when both slices are at most 10 MiB; `minCommitTS` comes back as 0. |
| `Records.ValueRoundTrip` | server/mvcc.go:85-108 | The same for values, through the signed type number. |
| `Records.MarshalHelper.WriteNumber` | server/mvcc.go:129-137 | Appends the little-endian number unless an error is pending. |
| `Records.MarshalHelper.WriteSlice` | server/mvcc.go:114-127 | Appends the length-prefixed slice unless an error is pending. |
| `Records.MarshalHelper.ReadNumber` | server/mvcc.go:151-159 | Consumes a number or leaves the sticky error set. |
| `Records.MarshalHelper.ReadSlice` | server/mvcc.go:161-181 | Consumes a length-prefixed slice of at most 10 MiB or leaves the sticky error set. |
| `Records.MarshalLock` | server/mvcc.go:59-70 | Produces the lock's wire form. |
| `Records.UnmarshalLock` | server/mvcc.go:73-82 | Reads the wire form, or reports failure. |
| `Records.MarshalValue` | server/mvcc.go:85-95 | Produces the value's wire form. |
| `Records.UnmarshalValue` | server/mvcc.go:98-108 | Reads the wire form, or reports failure. |
| `WireFormat.UvarintBytes` | server/mvcc.go:114-127 | Every byte of a stored length by position: seven bits each, least significant first, a continuation bit on all but the last. |
| `WireFormat.UvarintLength` | server/mvcc.go:114-127 | A length takes as few bytes as possible. |
| `WireFormat.LockSlices` | server/mvcc.go:59-70 | Where in a stored lock the lengths, the primary and the value lie, and how long the lock is. |
| `WireFormat.LockNumbers` | server/mvcc.go:59-70 | Where in a stored lock the start timestamp, the kind and the time to live lie, byte by byte. |
| `WireFormat.ValueBytes` | server/mvcc.go:85-95 | The same for a stored version. |
| `Entries.VisibleIsNewest` | server/mvcc_leveldb.go:311-343 | The newest-first search of `getValue` finds `x` if and only if `x` is the put or delete of largest commit timestamp not above the read timestamp. |
| `Entries.ReadCommittedExactly` | server/mvcc_leveldb.go:311-343 | For every entry with any lock a read-committed read is answered, with the value of the newest put or delete up to its timestamp. |
| `Entries.SnapshotReadExactly` | server/mvcc.go:191-210 | For every entry a snapshot read is refused, with the lock's primary, start and time to live, exactly by a lock that puts or deletes and began by its timestamp, except at MaxUint64 by the key's own primary lock, below which it then reads; otherwise it returns the newest value up to its timestamp. |
| `Entries.ExtractPhysical` | server/mvcc_leveldb.go:793-795 | The physical part p of a timestamp is the number with p·2^18 <= ts < (p+1)·2^18. |
| `Entries.PushedExactly` | server/mvcc_leveldb.go:829-843 | The push raises `minCommitTS` to the current timestamp and, if it was set, above the caller's, and no further. |
| `Entries.FindTxnBelow` | server/mvcc_leveldb.go:727-742 | The search by start timestamp finds a record of that transaction exactly when there is one. |
| `Entries.NewestBelow` | server/mvcc_leveldb.go:519-566 | The first version decoded, on which the write-conflict test rests, is the newest one. |
| `Entries.ApplyCommitLock` | server/mvcc_leveldb.go:617-640 | The writes of `commitLock` drop the lock and, unless it is a mere lock, add exactly its record. |
| `Entries.ApplyRollbackLock` | server/mvcc_leveldb.go:711-725 | The writes of `rollbackLock` drop the lock and add exactly the tombstone. |
| `MvccStore.ExecuteEffect` | server/mvcc_leveldb.go:495-517 | A successful request over distinct keys changes each of its keys by that key's own step and no other key; a failed one changes nothing. |
| `MvccStore.DeferredEqualsOneByOne` | server/mvcc_leveldb.go:495-655 | `Prewrite`, `Commit` and `Rollback` on distinct keys are all or nothing: the deferred batch equals running the keys one after the other, and an error is the first failing key's, with the store unchanged. |
| `RepeatedKeys.PrewriteAgreesExactly` | server/mvcc_leveldb.go:495-517 | With repeated keys allowed: a prewrite agrees with running it key by key, in success, error and resulting store, if and only if it fails or, on every key the transaction has not locked yet, the first and last mutation have the same kind and value. |
| `RepeatedKeys.CommitAgreesExactly` | server/mvcc_leveldb.go:569-581 | A commit agrees if and only if it fails or no repeated key is committed without leaving a record, that is, from a mere lock or at MaxUint64. |
| `RepeatedKeys.RollbackAgrees` | server/mvcc_leveldb.go:643-655 | A rollback always agrees. |
| `RepeatedKeys.OwnersAheadInRuns` | server/mvcc_leveldb.go:569-655 | What the two statements above need holds in every reachable state: a lock's owner has no record on the key. |
| `RepeatedKeys.RepeatedPutDiffers` | server/mvcc_leveldb.go:495-517 | An instance: of two different puts of a free key the batch keeps the last and key by key the first. |
| `RepeatedKeys.RepeatedLockCommitDiffers` | server/mvcc_leveldb.go:583-640 | An instance: committing a mere lock twice succeeds as a batch and fails key by key. |
| `MvccStore.ResolveEffect` | server/mvcc_leveldb.go:877-954 | Within the range every lock of a listed transaction is resolved; every other key stays as it was. |
| `MvccStore.ResolveLeavesNoListedLock` | server/mvcc_leveldb.go:877-954 | Each such lock becomes exactly its commit record or its tombstone. |
| `MvccStore.BatchResolveIsFold` | server/mvcc_leveldb.go:916-954 | `BatchResolveLock` equals folding `ResolveLock` over the listed transactions in any order. |
| `Layout.WriteRefines` | server/mvcc_leveldb.go:551-565 | Putting or deleting the encoded bytes of one write on a byte map that represents a store gives one that represents the store after that write. |
| `Layout.BatchRefines` | server/mvcc_leveldb.go:495-517 | The same for a whole encoded batch. |
| `Layout.CommitAtLockVersionLosesRecord` | server/mvcc_leveldb.go:617-640 | A committed record survives in the bytes if and only if its commit timestamp is not MaxUint64, the version that names the lock slot. |
| `LockSlot.CommitAtMaxDropsLock` | server/mvcc_leveldb.go:617-640 | A commit at MaxUint64 leaves bytes that represent the store with the lock dropped and no record. |
| `LockSlot.CommitSound` | server/mvcc_leveldb.go:569-581 | After a commit at any timestamp the bytes represent some store. |
| `LockSlot.ResolveSound` | server/mvcc_leveldb.go:877-954 | So they do after resolving locks at any timestamps. |
| `LockSlot.StatusSound` | server/mvcc_leveldb.go:797-874 | And after any status check. |
| `LockSlot.RollbackSoundExactly` | server/mvcc_leveldb.go:657-725 | After a rollback the bytes represent some store if and only if the start timestamp is below MaxUint64, the request fails, or no key gets a tombstone without giving up a lock; otherwise the tombstone lies in the lock slot and no lock can be decoded from it. |
| `LockSlot.CleanupAtMaxBricksKey` | server/mvcc_leveldb.go:745-755 | An instance: cleaning up the unknown transaction MaxUint64 on an empty database leaves an unreadable lock slot. |
| `LockSlot.PrewriteSoundExactly` | server/mvcc_leveldb.go:551-565 | After writing a lock the bytes represent some store if and only if its primary and value are at most 10 MiB. |
| `Layout.IterationOrder` | server/mvcc_leveldb.go:136-140 | Sorted iteration over the bytes yields the records of a store by key, lock first, then versions descending. |
| `Layout.IterationOfRange` | server/mvcc_leveldb.go:142-164 | The iterator of a scan yields exactly the records of the keys in the range. |
| `Layout.DeleteRangeRefines` | server/mvcc_leveldb.go:1078-1093 | Removing the bytes between two encoded keys removes exactly the locks and versions of the keys between them. |
| `Cursors.Iterator.CurrentSlot` | server/mvcc_leveldb.go:73-94 | The bytes under the iterator decode to the record's key and version. |
| `Cursors.DecodeLock` | server/mvcc_leveldb.go:179-204 | Takes the lock of the expected key if the iterator stands on it, and moves only then. |
| `Cursors.DecodeValue` | server/mvcc_leveldb.go:212-236 | Takes a version of the expected key if the iterator stands on one, and moves only then. |
| `Cursors.Skip` | server/mvcc_leveldb.go:243-259 | Skips exactly the records of the current key and tells the next key, if any. |
| `Cursors.GetTxnCommitInfo` | server/mvcc_leveldb.go:727-742 | Scanning the versions finds the first record of the transaction. |
| `Cursors.GetValue` | server/mvcc_leveldb.go:311-343 | The iterator-based read is the point read of the entry under the iterator. |
| `MvccEntryMachine.MvccEntry.Get` | server/mvcc.go:239-253 | Returns the first visible record's value, a delete's too. |
| `MvccEntryMachine.MvccEntry.GetTxnCommitInfo` | server/mvcc.go:277-284 | Finds the first record of the transaction. |
| `MvccEntryMachine.MvccEntry.Prewrite` | server/mvcc.go:255-275 | Changes the lock as the list form of the step says, and nothing else. |
| `MvccEntryMachine.MvccEntry.Commit` | server/mvcc.go:286-309 | Replaces the lock by the record inserted in commit order, or reports why not. |
| `MvccEntryMachine.MvccEntry.Rollback` | server/mvcc.go:311-340 | Replaces the lock by the tombstone inserted in commit order, or reports why not. |
| `MvccEntryMachine.MvccEntry.AddValue` | server/mvcc.go:342-350 | The binary search and in-place shift insert the version so that the list stays in descending commit order. |
| `MvccEntryMachine.MvccEntry.ContainsStartTS` | server/mvcc.go:352-365 | For every entry: true exactly if the transaction holds the lock or has a version before which no version is older than the transaction. |
| `MvccEntryMachine.EarlyStopMissesNothing` | server/mvcc.go:352-365 | In a descending list where no commit precedes its start, that is any version of the transaction. |
| `MvccEntryMachine.VersionsInsert` | server/mvcc.go:342-350 | A new version of the database lands where the machine's list inserts it. |
| `MvccEntryMachine.PrewriteRefines` | server/mvcc_leveldb.go:519-566 | The database's prewrite leaves what the machine leaves, and succeeds alike except, exactly, for a retry by the lock's owner under a newer version; when both fail the errors are the same except, exactly, for another's lock under a newer version. |
| `MvccEntryMachine.CommitRefines` | server/mvcc_leveldb.go:583-640 | The database's commit ends as the machine's does, and leaves the same lock and versions if and only if it writes neither at a version that exists nor into the lock slot. |
| `MvccEntryMachine.RollbackRefines` | server/mvcc_leveldb.go:657-725 | The same for rollback and its tombstone. |
| `MachineRuns.NoVersionReused` | server/mvcc_leveldb.go:583-725 | In no reachable state does a commit or rollback of a transaction write at a version that exists. |
| `MachineRuns.StaysInStep` | server/mvcc_leveldb.go:519-725 | So in every reachable state every prewrite, commit and rollback step leaves the machine with the same lock and versions as the database. |
| `StoreSteps.PrewriteMutation` | server/mvcc_leveldb.go:519-566 | The iterator-based step decides and writes as the abstract step on the key's entry. |
| `StoreSteps.CommitLockOps` | server/mvcc_leveldb.go:617-640 | The byte operations are those of committing the lock. |
| `StoreSteps.RollbackLockOps` | server/mvcc_leveldb.go:711-725 | The byte operations are those of rolling the lock back. |
| `StoreSteps.CommitOneKey` | server/mvcc_leveldb.go:583-615 | The iterator-based commit of a key is the abstract step. |
| `StoreSteps.RollbackOneKey` | server/mvcc_leveldb.go:657-709 | The iterator-based rollback of a key is the abstract step. |
| `StoreSteps.OpenScan` | server/mvcc_leveldb.go:142-164 | The scan iterator starts before the records of the live keys of the range, and the current key is the first of them or has no records. |
| `StoreSteps.ReadKey` | server/mvcc_leveldb.go:366-403 | One round of the shared pass reads the current key as a point read would and moves to the next. |
| `StoreSteps.ReadLock` | server/mvcc_leveldb.go:758-791 | One round of a lock scan takes the current key's lock and moves on, though it may advance only the current key. |
| `MvccLevelDb.MVCCLevelDB.Get` | server/mvcc_leveldb.go:294-309 | The read of the bytes is the point read of the abstract entry. |
| `MvccLevelDb.MVCCLevelDB.BatchGet` | server/mvcc_leveldb.go:346-363 | The point reads of the keys in order, absent values dropped, errors kept. |
| `MvccLevelDb.MVCCLevelDB.Scan` | server/mvcc_leveldb.go:366-403 | One shared iterator pass gives the first `limit` results of independent point reads over the distinct keys of the range in ascending order. |
| `MvccLevelDb.ReadCommittedPairs` | server/mvcc_leveldb.go:346-403 | At read-committed level `BatchGet` and `Scan` hold exactly the newest put of each key up to the timestamp, and no lock is in the way. |
| `MvccLevelDb.ReadPairsAscend` | server/mvcc_leveldb.go:366-403 | The pairs of a scan are in strictly ascending key order. |
| `MvccLevelDb.MVCCLevelDB.Prewrite` | server/mvcc_leveldb.go:495-517 | For every input each mutation's error is reported and the bytes change by the whole encoded batch or not at all; if the request fails or its slices fit, they represent the request's abstract result. |
| `MvccLevelDb.MVCCLevelDB.Commit` | server/mvcc_leveldb.go:569-581 | For every input: succeeds exactly when every key's step does, else reports the first failing key's error and changes nothing; the bytes change by the encoded batch, and below MaxUint64 they represent the abstract result. |
| `MvccLevelDb.MVCCLevelDB.Rollback` | server/mvcc_leveldb.go:643-655 | The same for rollback. |
| `MvccLevelDb.MVCCLevelDB.Cleanup` | server/mvcc_leveldb.go:745-755 | The rollback of one key, for every start timestamp; its error names the commit timestamp. |
| `MvccLevelDb.MVCCLevelDB.ScanLock` | server/mvcc_leveldb.go:758-791 | Terminates with the locks of the range up to the timestamp, in key order. |
| `MvccLevelDb.LocksUpToExactly` | server/mvcc_leveldb.go:758-791 | That list holds a lock if and only if it is on a key of the range with a start timestamp up to the bound. |
| `MvccLevelDb.LocksAscend` | server/mvcc_leveldb.go:758-791 | In strictly ascending key order. |
| `SnapshotScans.ScanLockReports` | server/mvcc_leveldb.go:758-791 | In every reachable state: exactly the locks of the range whose transactions began by the bound, each with its transaction's own primary. |
| `MvccLevelDb.MVCCLevelDB.CheckTxnStatus` | server/mvcc_leveldb.go:797-874 | For every input answers and writes as the abstract status check, on every path. |
| `MvccLevelDb.MVCCLevelDB.ResolveLock` | server/mvcc_leveldb.go:877-913 | For every input the bytes change by the batch that resolves the transaction's locks in the range; below MaxUint64 they represent the abstract result. |
| `MvccLevelDb.MVCCLevelDB.BatchResolveLock` | server/mvcc_leveldb.go:916-954 | The same for all listed transactions at once. |
| `MvccLevelDb.MVCCLevelDB.DeleteRange` | server/mvcc_leveldb.go:957-959 | Removes exactly the keys from the start to before the end, with all their locks and versions. |
| `ReverseScanning.ReverseInPlace` | server/mvcc_leveldb.go:485-492 | Swapping from both ends reverses the array. |
| `ReverseScanning.ReverseScanHelper.FinishEntry` | server/mvcc_leveldb.go:471-483 | The pending entry contributes its pair and is cleared. |
| `ReverseScanning.ReverseScan` | server/mvcc_leveldb.go:406-461 | The backward pass over single records gives the first `limit` pairs of the live keys from last to first. |
| `ReverseScanning.ReverseReadCommitted` | server/mvcc_leveldb.go:406-492 | At read-committed level `ReverseScan` holds exactly the non-empty values of the keys' newest records, deletes included, and no lock is in the way. |
| `ReverseScanning.ReverseScanMirrorsScan` | server/mvcc_leveldb.go:406-492 | For all limits the answer is the reversed tail of the unlimited `Scan` if and only if, on every key of the range, the visible record is a delete exactly when its value is empty. |
| `ReverseScanning.ReverseScanOfPlainValues` | server/mvcc_leveldb.go:406-492 | So it is, for every limit and timestamp, when puts carry values and deletes carry none. |
| `ReverseScanning.EmptyPutReadsDifferently` | server/mvcc.go:239-253 | The condition can fail in a run: there is a reachable state with a committed put of the empty value, which `Scan` returns and `ReverseScan` does not. |
| `EntryInvariant.PrewriteStep` | server/mvcc_leveldb.go:519-566 | On a key that keeps the invariant a prewrite succeeds exactly when the transaction holds the lock or the key is free of locks and newer versions, and then only sets the lock, whose fields are spelled out; else it fails with the lock in its way or, without one, with a write conflict. |
| `EntryInvariant.CommitStep` | server/mvcc_leveldb.go:583-640 | A commit succeeds exactly when the transaction holds the lock or is committed, and then turns the lock into its record or changes nothing; else it answers that the transaction is not found. |
| `EntryInvariant.RollbackStep` | server/mvcc_leveldb.go:657-725 | A rollback fails exactly on a committed transaction, naming its commit timestamp; else it leaves the tombstone. |
| `EntryInvariant.CommitRetryExactly` | server/mvcc_leveldb.go:597-640 | After a commit, committing again succeeds, and rolling back is refused, if and only if the lock was not a mere lock: an `Op_Lock` lock leaves no record, so it cannot serve as a primary. |
| `EntryInvariant.StatusStep` | server/mvcc_leveldb.go:797-874 | A status check rolls an expired lock back and writes a live one back unchanged. |
| `ProtocolInvariant.StepKeeps` | server/mvcc_leveldb.go:495-954 | Every action of clients and resolvers keeps the store invariant: records at their commit timestamps, one per transaction and key, disjoint intervals, no record of a lock's owner, puts and deletes of a locked key committed before the owner began; and every lock, record, tombstone and verdict is the one its transaction accounts for. |
| `ProtocolInvariant.ReachableInv` | server/mvcc_leveldb.go:495-954 | The invariant holds in every reachable state. |
| `ProtocolTheorems.LockFields` | server/mvcc_leveldb.go:551-559 | In every reachable state every lock, mere locks included, has its transaction's primary and time to live and the kind and value of the key's mutation. |
| `ProtocolTheorems.RecordFields` | server/mvcc_leveldb.go:617-725 | In every reachable state every record has its transaction's timestamps and the kind and value of the mutation; a tombstone has its start timestamp twice and no value. |
| `ProtocolTheorems.PrewriteMeetsLock` | server/mvcc_leveldb.go:533-539 | In every reachable state a prewrite of a key that another transaction holds, if only by a mere lock, fails whole and names that transaction's primary, start and time to live. |
| `ProtocolTheorems.NoLostUpdate` | server/mvcc_leveldb.go:533-640 | In every reachable state two puts or deletes of a key by different transactions have disjoint [startTS, commitTS] intervals. |
| `ProtocolTheorems.Atomicity` | server/mvcc_leveldb.go:519-755 | In no reachable state is a transaction committed on one key and rolled back on another, or committed at two timestamps. |
| `ProtocolTheorems.AtomicityOverRuns` | server/mvcc_leveldb.go:519-954 | A transaction committed anywhere is never rolled back anywhere in any later state, and the other way round. |
| `ProtocolTheorems.AllOrNothing` | server/mvcc_leveldb.go:569-640 | Once the primary is committed, every key the transaction writes is still locked by it with the right lock or holds exactly its write at the same commit timestamp. |
| `ProtocolTheorems.RecordsPersist` | server/mvcc_leveldb.go:617-725 | No version record ever disappears or changes. |
| `ProtocolTheorems.CommitIsFinal` | server/mvcc_leveldb.go:597-615 | After puts or deletes of a transaction are committed, in every later state committing any of these keys again, singly or together, succeeds without change. |
| `ProtocolTheorems.CommittedRefusesRollback` | server/mvcc_leveldb.go:664-694 | In every later state a rollback of any keys among which one is committed is refused whole with the commit timestamp. |
| `ProtocolTheorems.CommittedStatus` | server/mvcc_leveldb.go:856-869 | In every later state a status check answers the commit timestamp and changes nothing. |
| `ProtocolTheorems.RollbackIsFinal` | server/mvcc_leveldb.go:519-615 | After a rollback every later prewrite or commit of that transaction that touches the key fails whole, in every later state. |
| `ProtocolTheorems.ExpiredExactly` | server/mvcc_leveldb.go:814-830 | The wrapping expiry test says "expired" exactly when the lock has expired or the sum of start time and time to live overflowed and wrapped below the current time. |
| `ProtocolTheorems.ExpiryRollsBack` | server/mvcc_leveldb.go:814-830 | A status check after the time to live leaves the tombstone on the primary. |
| `ProtocolTheorems.PushIsLost` | server/mvcc_leveldb.go:831-850 | A status check of a live lock leaves the store as it was: the pushed `minCommitTS` is not stored. |
| `StatusVerdicts.ZeroStatusExactly` | server/mvcc_leveldb.go:797-874 | The answer is (0, 0) if and only if the primary lock is held and expired or has no time to live, or is not held and the transaction is not committed there. |
| `StatusVerdicts.ZeroStatusIsVerdictExactly` | server/mvcc_leveldb.go:797-874 | After an answer of (0, 0) the transaction is rolled back on its primary if and only if it was before or its lock had expired, and then no later run commits it anywhere. |
| `StatusVerdicts.StatusLeavesNoTrace` | server/mvcc_leveldb.go:856-873 | A status check that finds neither lock nor record answers (0, 0) and leaves nothing behind. |
| `StatusVerdicts.LiveLockCommitsLater` | server/mvcc_leveldb.go:833-858 | From every reachable state in which a live primary lock without time to live is held by a client with a commit timestamp, the answer is (0, 0) and the client can still commit. |
| `StatusVerdicts.UnseenTxnCommitsLater` | server/mvcc_leveldb.go:871-873 | A run in which the check finds nothing, answers (0, 0), and the transaction commits afterwards. |
| `StatusVerdicts.LiveTxnCommitsLater` | server/mvcc_leveldb.go:854-858 | A run in which the check finds a live lock without time to live, answers (0, 0), and the transaction commits afterwards. |
| `ProtocolTheorems.ResolverCompletes` | server/mvcc_leveldb.go:745-913 | From any reachable state a cleanup and a resolve remove every lock of the transaction, which then has its write on every key it writes or never has one. |
| `ProtocolTheorems.ResolverCompletesPerRegion` | server/store.go:475-492 | Sending the resolve to each region of a cluster, after any run of splits, leaves the same store as one resolve of all keys, without a lock of the transaction. |
| `Snapshots.ReadsAreSnapshots` | server/mvcc_leveldb.go:311-343 | Every snapshot-isolation read at an issued timestamp that is answered returns the last write among the transactions whose primaries are committed by then, whichever of their other keys are still locked. |
| `Snapshots.RepeatableRead` | server/mvcc_leveldb.go:311-343 | Once such a read is answered, every later read of the key at that timestamp gives the same answer or a lock error. |
| `Snapshots.ReadsShareOneSnapshot` | server/mvcc_leveldb.go:311-343 | Reads of a key at one timestamp in different states all return its value in one snapshot, that of the last state. |
| `Snapshots.ReadRefusedExactly` | server/mvcc.go:191-210 | A read at an issued timestamp is refused if and only if a transaction that began by then holds a lock to put or delete the key, and the error names that transaction's primary, start and time to live. |
| `Snapshots.ReadAtMaxExactly` | server/mvcc.go:200-210 | In every reachable state a snapshot read at MaxUint64 is refused, with that lock, if and only if a transaction holds a lock to put or delete the key and the key is not its primary; otherwise it returns the newest value there is. |
| `Snapshots.ResolverUnblocksReader` | server/mvcc_leveldb.go:745-913 | From any reachable state a cleanup of that transaction's primary and a resolve make the key readable at that timestamp. |
| `Snapshots.ReadAtMaxSkipsOwnPrimary` | server/mvcc.go:200-210 | A read at MaxUint64 of a key locked as its own primary returns the newest committed value: `startTS - 1` hides no put or delete. |
| `SnapshotScans.BatchGetIsSnapshot` | server/mvcc_leveldb.go:346-363 | A read of many keys at an issued timestamp is the snapshot of these keys in order, with the lock error of each blocked key in its place. |
| `SnapshotScans.ScanIsSnapshot` | server/mvcc_leveldb.go:366-403 | A scan at an issued timestamp holds, in strictly ascending key order, exactly the snapshot value of every key of the range that has one and is not blocked, and the lock error of every key that is. |
| `SnapshotScans.BatchSharesSnapshot` | server/mvcc_leveldb.go:346-363 | A read of many keys that meets no lock returns their values in the snapshot of that state and of every later one. |
| `Serving.Serve` | server/mvcc_leveldb.go:495-954 | The byte-level store serves any action of any run: afterwards its bytes represent the next state, and what clients and resolvers learn in the next state is computed from its answers. |
| `Serving.KvCleanup` | server/store.go:374-395 | The answer is the commit timestamp or 0, and never a key error. |
| `Serving.ReadSnapshot` | server/mvcc_leveldb.go:294-343 | A read of the bytes at an issued timestamp meets a lock or returns the snapshot. |
| `Serving.BatchGetSnapshot` | server/mvcc_leveldb.go:346-363 | `BatchGet` of the bytes is the snapshot of its keys. |
| `Serving.ScanSnapshot` | server/mvcc_leveldb.go:366-403 | A scan of the bytes returns only pairs of the snapshot, in key order, and all of them when it stays below its limit. |
| `Oracle.TimestampOracle.GetTS` | server/server.go:85-97 | The timestamp is later than the last one and not behind the clock. |
| `Oracle.IssuedAscend` | server/server.go:85-97 | For any clock readings, also backward jumps, the timestamps strictly increase lexicographically. |
| `Oracle.IssuedExactly` | server/server.go:85-97 | The physical part of each timestamp is the latest of the start and the readings so far, and the logical part restarts exactly when the clock passes all earlier readings and counts up otherwise. |
| `Oracle.LatestExactly` | server/server.go:85-97 | The latest reading is the start or one of the readings, and none is later. |
| `Oracle.ComposeOrder` | server/mvcc_leveldb.go:793-795 | As numbers `physical << 18 + logical` they keep the order with every later timestamp if and only if the logical part is below 2^18. |
| `Oracle.ComposedAscend` | server/server.go:85-97 | So the numbers of a run strictly increase while no logical part reaches 2^18. |
| `OracleRuns.IssuedAreEnabled` | server/server.go:85-97 | For any clock readings, timestamps with at most 18 logical bits and numbers below MaxUint64 are enabled one after the other in a run: what the protocol asks of timestamps is what the oracle delivers. |
| `OracleRuns.OracleDrivesRuns` | server/server.go:85-97 | From the oracle's and the run's initial states. |
| `OracleRuns.PhysicalOfNumber` | server/mvcc_leveldb.go:793-795 | The physical part of a number is that of the timestamp it was made of. |
| `OracleRuns.ExpiresOnTheClock` | server/mvcc_leveldb.go:814-858 | In every reachable state a status check at timestamp b of a primary lock begun at timestamp a leaves the tombstone if and only if `a.physical + ttl < b.physical`; else it reports the time to live and changes nothing. The sum does not overflow. |
| `Oracle.IDAllocator.AllocID` | server/server.go:81-83 | The next id. |
| `Oracle.IDAllocator.AllocIDs` | server/cluster.go:192-198 | That many successive new ids. |
| `Regions.AcceptedCovers` | server/cluster.go:55-90 | Every accepted list of regions but the empty one covers every key. |
| `Regions.AcceptedDisjointExactly` | server/cluster.go:66-79 | Its regions are disjoint if and only if only the last one has an empty end. |
| `Regions.AcceptedPartitionExactly` | server/cluster.go:55-90 | The accepted lists that are unbounded only at the end are exactly the partitions into inhabited regions listed by ascending start. |
| `Regions.AcceptedInParts` | server/cluster.go:66-79 | An unbounded region inside a list restarts the chain: the list is accepted if and only if both parts are. |
| `Regions.RoutedUniquely` | server/cluster.go:200-209 | In a partition the region a key is routed to is the only one that contains it. |
| `Regions.HalvesPartition` | server/cluster.go:307-328 | The two halves of a split contain together what the region contained, and nothing twice. |
| `Regions.SplitKeepsGood` | server/store.go:705-724 | A split keeps each key in exactly one region, ids apart, every leader a peer, and bounds encoded. |
| `Regions.SplitHappens` | server/store.go:714-724 | After a split the region of the key starts there. If it did before, nothing changes; otherwise there is exactly one more region, with the origin's end, its stores in order under new ids, the first of them leading, and the next version; the origin ends at the key under the next version, and the others stay. |
| `Regions.RunKeepsGood` | server/store.go:705-724 | So does every run of splits, and along it a region keeps its id, start and peers and changes only with a larger version. |
| `Regions.EpochFences` | server/cluster.go:307-328 | A region id with the epoch it once had is still the very same region in every later state; if the region differs, its version is larger. |
| `Regions.SplitPartitionExactly` | server/cluster.go:307-328 | Splitting any region of a partition at any key keeps a partition if and only if the key is not empty and lies between the region's bounds. |
| `Regions.StaleSplitExactly` | server/store.go:714-719 | When other splits come between the lookup and the split of a request, the result is a partition if and only if none of them cut the region below the key. |
| `Regions.ConcurrentSplitsOverlap` | server/store.go:714-719 | An instance: two requests look up the only region, and splitting at the smaller key first makes the regions overlap. |
| `Regions.ResolvePerRegionIsWhole` | server/store.go:475-492 | Resolving region by region, with the bounds decoded, equals resolving the whole key space. |
| `ClusterInstances.ValidateRegion` | server/cluster.go:55-90 | Accepts exactly the chained lists and changes no range: an absent end key means the same as an empty one, and the first region's becomes the empty one. |
| `ClusterInstances.RegionInstance.Init` | server/region.go:36-50 | Three new ids make the epoch and a single peer on the store, which leads; id and range stay. |
| `ClusterInstances.RegionInstance.LeaderPeer` | server/region.go:52-59 | Finds the leader among the peers. |
| `ClusterInstances.FindPeerExactly` | server/region.go:52-59 | A leader is found if and only if it is one of the peers, and is that peer. |
| `ClusterInstances.AssignIDs` | server/server.go:143-148 | Regions get successive ids, and the index by id agrees with the list. |
| `ClusterInstances.InitRegions` | server/cluster.go:125-133 | Regions get epochs and peers on the stores in turn. |
| `ClusterInstances.CreatedExactly` | server/server.go:143-153 | The i-th region of a new cluster has the i-th id and range and one peer, its leader, on the store whose turn it is, with ids apart from those of the other regions. |
| `ClusterInstances.CreatedIsGood` | server/server.go:129-169 | A cluster made of an accepted list covers every key, and is a partition with distinct ids and leaders if and only if only its last region is unbounded. |
| `ClusterInstances.CreateCluster` | server/server.go:129-169 | A cluster is made exactly of an accepted list, with its ranges, on the given number of stores taken in turn; the empty list gives one unbounded region, and no stores give one. It covers every key and is good exactly when only its last region is unbounded. |
| `ClusterInstances.ClusterInstance.GetRegionByKey` | server/cluster.go:200-209 | The first region that contains the key, with its leader. |
| `ClusterInstances.ClusterInstance.GetRegionByID` | server/cluster.go:211-220 | The search of the list finds exactly what the index by id holds. |
| `ClusterInstances.ClusterInstance.SplitRaw` | server/cluster.go:307-328 | The origin is changed in place to its left half, the right half is appended and indexed, and list, index and objects still agree. |
| `ClusterInstances.ClusterInstance.SplitRegion` | server/store.go:705-724 | As one step the split keeps the invariant and does what the value-level split says; it returns no halves if and only if the region of the key already starts there, and otherwise the two halves. |
| `ClusterInstances.ClusterInstance.CheckRequestContext` | server/store.go:168-245 | Each answer has its exact case: wrong store; no region with that id and a peer here; a peer here that does not lead, answered with the leader; a leading peer and another epoch, answered with the region as it is and the one that holds its end key; and admission to the region's range otherwise. "No leader" is never answered. |
| `ClusterInstances.LastOnExactly` | server/store.go:188-196 | The peer on a store is the last one there, if there is any. |
| `ClusterInstances.AdmittedMeansUnchanged` | server/store.go:168-245 | A request issued for a region as it once was is admitted, after any run of splits, only if that region is still the same. |

## Left out

- Codec.DecodeBytes: the `reverse` form of decoding and the word-wise byte reversal are not modelled; no caller reaches them.
- Records.SliceRoundTrip: slices of 2^64 bytes and more, which no Go slice can be.
- MvccLevelDb.MVCCLevelDB.Prewrite: with slices above 10 MiB only the bytes are promised, since such a lock cannot be read back (`LockSlot.PrewriteSoundExactly`); the service refuses requests of 8 MiB and more before they reach the store.
- MvccLevelDb.MVCCLevelDB.Commit: at MaxUint64, the version of the lock slot, only the bytes are promised; `Layout.CommitAtLockVersionLosesRecord` and `LockSlot.CommitAtMaxDropsLock` say what they then represent. `LockSlot.ResolveSound` and `LockSlot.StatusSound` do the same for the resolving and status requests.
- MvccLevelDb.MVCCLevelDB.Rollback: at MaxUint64 only the bytes are promised; where the transaction holds no lock and has no record, the tombstone makes the lock slot unreadable, exactly as `LockSlot.RollbackSoundExactly` states. The same holds for `Cleanup`.
- MvccEntryMachine.CommitRefines: requires versions to sit at their commit timestamps, which the store invariant gives. So does `RollbackRefines`.
- RepeatedKeys.CommitAgreesExactly: requires that the owner of a lock has no record on its key, which the store invariant gives. So does `RollbackAgrees`.
- ClusterInstances.ClusterInstance.SplitRegion: the lookup and the split are one atomic step, while the source takes the lock twice; `Regions.StaleSplitExactly` states when two steps still give a partition. The request's own admission is `CheckRequestContext`.
- ClusterInstances.CreateCluster: listeners and the metadata service are left out, and the given region objects are distinct; ids and epoch versions do not wrap around.
- Oracle.TimestampOracle.GetTS: the clock reading is a parameter; the requested count is ignored, as in the source, so nothing is claimed about batches of timestamps.
- Serving.Serve: needs the transactions' slices to fit in a stored lock, as `Prewrite` does.
- LevelDB itself, its write errors and corrupted content: the byte map is atomic and writes succeed, and requests start from bytes that represent a store, so the decoders' error paths on other bytes do not arise above `Codec` and `Records`.
- RawKV operations and `DeleteRange` within transactional runs: they write to the same bytes without regard to locks; `DeleteRange` is modelled on its own.
- The pushed `minCommitTS` across calls: it is not serialised, see `ProtocolTheorems.PushIsLost`.
- `KvScan`'s clamping of the end key to the region: it mixes an encoded with a raw key.
- Fairness and termination of clients: only safety, and that a resolver can always finish.
- HTTP, gRPC, failpoints, logging, configuration, conversions to protocol buffers, and handlers that do nothing.
