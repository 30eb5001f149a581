# Verified model of the WhatsApp bridge core

A Dafny model of the parts of the bridge whose correctness does not show from reading one
function: application-state synchronisation, the recovery protocol, the JavaScript object slab
and string marshalling, MD5, the token dictionary, the Noise session, the SFrame varint
decoders and the storage caches. `dafny verify dfyconfig.toml` checks everything.

The main results, by component:

- **Application state.** A collection's stored ltHash is the lane-wise sum of its stored value
  MACs, over every run of patch lists, snapshots and recoveries. The law is *not* unconditional:
  outside index mode a REMOVE beside a SET, or a repeated REMOVE, subtracts the previous value too
  often, and in index mode a repeated SET beside a REMOVE leaves an orphan in the hash. The exact
  error of every patch that decodes is proved, and with it exactly when the law survives, over one
  store, over all, and for each patch over every call that can accept it, with validation and
  without. Every store write can fail: a snapshot or recovery stopped at any write can
  simply be repeated, while a patch, whose version is written first, is lost, and exactly when the
  law then still holds is proved for every cut. Exactly which records, patches, snapshots and
  recoveries are accepted is stated over their own fields and the primitives, with the rows, the
  hash and the mutations that result. Paging a list changes nothing; versions never fall; the
  caches, the batched look-up and the prefetch answer as plain store reads do.
- **Recovery requests.** Over every timed run: an ask is refused exactly while the last one
  stands, an id is claimed at most once, and a claimed request stays takeable.
- **Object slab and strings.** Over every run of adds and drops the free list is an acyclic
  chain through exactly the free slots, handles never alias, and the heap is as long as the
  largest number of handles live at once. A string reaches WebAssembly as the UTF-8 encoding of
  the text its UTF-16 units encode, U+FFFD standing for each lone surrogate.
- **MD5.** The 64-step loop is the four rounds of section 3.4 of RFC 1321, any way of feeding a
  message gives the digest of the padded message, and that of the empty message is the RFC's.
- **Token dictionary.** A table is built exactly when the token lists are well formed and some
  size and multiplier place every key; the look-up then stops and inverts the decode arrays on
  every byte string.
- **Noise.** The initiator follows the XX pattern of the framework, message by message, and
  initiator and responder end in one state with crossed keys; transport delivers exactly what was
  sent unless a frame was refused before another, and then fails. Over every run of calls the
  intro header is on the first encoded frame or lost.
- **Varints.** Four decoders, down to a parallel bit extraction, fall into two classes that
  differ on exactly one family of inputs; all invert the encoder.
- **Storage caches.** Every run the store serves answers as an adapter without caches would, with
  the exact condition on the address memo and after a failed write.

Machine integers are naturals with the wrap-around written out. HMAC, HKDF, AES, X25519, AEAD,
protobuf and record codecs, blob downloads and the clock are parameters; laws about them
(inverse, injective, commuting) are stated where a result needs them, and `Transport.LawsHold`
gives functions that satisfy those assumed of the AEAD. Store calls are atomic steps that can
fail; the JavaScript heap and the linear-memory blocks are mutable objects.

Where the code and its documentation differ, the code is modelled. The differences that matter
are stated as results: the values subtracted too often (`PatchBalance.HarmlessExactly`, with an
accepted patch in `Counterexamples.DoubledWitness`, and `Acceptance.SafeExactly`), the default `commit_patch` writing the
version first (`Retry.VersionFirstStrands`, `Counterexamples.CutWitness`), the builder that reads
the store where the receiver reads its overlay (`Outgoing.BuilderAgreesExactly`,
`Counterexamples.BuilderWitness`), the handle dropped twice
(`HandleSlab.DropSafeExactlyWhenLive`, `HandleSlab.DroppedTwiceAliases`), the refused frame that has already used a
counter value and the intro header (`Transport.TransportDelivers`, `IntroHeader.IntroOnce`), the
decoders said to share one contract (`Varint.DifferExactly`), the empty SFrame payload
(`Sframe.FrameRoundTrip`), the cached key rewritten in the backend (`KeyCache.RewrittenKeyShows`) and
the memo keyed by name alone (`StorageCache.MemoExact`), the sender-key ids two keys can share
(`StorageCache.SenderKeyIdSharedExactly`, `StorageCache.SenderKeyIdsShared`) and the first Noise
payload left out of the hash (`NoiseFramework.FirstPayloadOmitted`).

## Model

| member | source | states |
|---|---|---|
| `Bitwise.CombinedSplit` | internal/wacore/appstate/src/lthash.rs:88-92 | a bitwise and, or and exclusive or of two words is the operation on their two parts, wherever they are cut |
| `Swar.WordOpIsLanewise` | internal/wacore/appstate/src/lthash.rs:61-121 | the 64-bit expression with its masks, its one addition or subtraction and its exclusive or is four independent 16-bit wrapping operations |
| `LtHash.PerformPointwise` | internal/wacore/appstate/src/lthash.rs:61-121 | every lane of the buffer, whole words and remainder, is the wrapping sum or difference of the old lanes |
| `LtHash.WordAtByte` | internal/wacore/appstate/src/lthash.rs:78-100 | the word read at a byte offset of the stored hash, low-order byte first, is four consecutive lanes, so the word operations act on the bytes the store holds |
| `LtHash.BytesOfLanes` | internal/wacore/src/appstate_sync.rs:486-496 | reading 128 bytes as lanes and writing the lanes back gives the bytes |
| `LtHash.MultipleOp` | internal/wacore/appstate/src/lthash.rs:47-57 | folding a list of operands adds or subtracts the sum of their expansions in every lane |
| `LtHash.SubtractThenAddInPlace` | internal/wacore/appstate/src/lthash.rs:37-45 | the new hash is the old one less the removed values plus the added ones, lane by lane |
| `LtHash.AddThenSubtract` | internal/wacore/appstate/src/lthash.rs:26-45 | adding values and then subtracting the same values gives the hash back |
| `LtHash.FoldedConcat` | internal/wacore/appstate/src/lthash.rs:26-45 | folding two batches is folding their concatenation |
| `SyncWire.ValueMacStart` | internal/wacore/appstate/src/hash.rs:151-159 | the MAC tail has 32 bytes for a value of at least 32, is the whole of a value of at most 16, and has 32 - n bytes for a length n between |
| `SyncWire.DecodeRecord` | internal/wacore/appstate/src/decode.rs:47-135 | a record that decodes has an index and at least 48 value bytes, hands on exactly that index and the MAC tail the hash folds, and under validation its index has 32 bytes |
| `Authenticity.RecordDecodesExactly` | internal/wacore/appstate/src/decode.rs:47-135 | a record decodes exactly when its fields are whole, its key is known, under validation its content MAC and index MAC are the expected ones, and its ciphertext opens; the result is its operation with the plaintext opened under that key |
| `PatchBalance.ScanBalance` | internal/wacore/appstate/src/hash.rs:162-263 | for every patch whose records are whole, old rows plus what the scan adds less what it removes is, per lane, the committed rows plus the orphaned SETs less the stored values subtracted too often |
| `PatchBalance.HashAfterIs` | internal/wacore/appstate/src/hash.rs:162-263 | the exact error of every patch that decodes, repeated SETs and REMOVEs included: the new hash is the sum of the committed rows plus the orphans less the values subtracted too often |
| `PatchBalance.PatchKeepsSum` | internal/wacore/appstate/src/hash.rs:162-263 | a patch that orphans nothing and subtracts no index too often, modulo 2^16, keeps hash equal to the sum of the rows over any store |
| `PatchBalance.HarmlessExactly` | internal/wacore/appstate/src/hash.rs:162-263 | the law survives a patch over every store and key derivation if and only if it is such a patch; the condition reads the patch alone |
| `PatchBalance.ValidatedExactly` | internal/wacore/appstate/src/hash.rs:162-263 | for a patch without repeats that is: if and only if no index is both SET and REMOVEd outside index mode |
| `PatchBalance.AgreesExactlyWhenBalanced` | internal/wacore/appstate/src/hash.rs:190-263 | over one store the law survives a patch for every key derivation if and only if every value MAC is off by a multiple of 2^16 |
| `PatchBalance.AgreesExactlyWhenNothingDoubled` | internal/wacore/appstate/src/hash.rs:190-263 | over one store, for a patch without repeats and below 2^16 doubled rows, if and only if no doubled index is stored |
| `PatchBalance.FitsExactly` | internal/wacore/appstate/src/hash.rs:162-263 | the new hash is the sum of any given rows, for every key derivation, if and only if for every value MAC what the scan added less what it removed matches the change in the rows, modulo 2^16 |
| `Counterexamples.RecordlessKeepsMac` | internal/wacore/appstate/src/hash.rs:392-415 | appending a mutation without a record to any patch keeps its patch MAC and takes it out of index mode |
| `Counterexamples.PairBreaksLaw` | internal/wacore/appstate/src/hash.rs:190-263 | SET and REMOVE of a stored index and a mutation without a record: the law survives if and only if HKDF derives zero from the stored value |
| `Counterexamples.DoubledWitness` | internal/wacore/appstate/src/processor.rs:283-464 | a concrete patch of that shape which validation accepts and which leaves a collection whose hash is not the sum of its rows |
| `PatchHash.CommitSnoc` | internal/wacore/src/store/traits.rs:815-834 | deleting all removed rows and then putting all added ones has, mutation by mutation, the effect of applying them in order, except that a SET beats a REMOVE |
| `PatchEffect.PatchEffectIs` | internal/wacore/appstate/src/hash.rs:162-263 | read off the records: after an accepted patch every SET value is in the hash; out of it is, for each mutation with an index, the stored value, or for a SET the last earlier SET of that index if there is one, except that a SET leaves it to a REMOVE of the same index when every mutation has an index; each row is its last SET, else gone if removed, else as before |
| `PatchEffect.ScanTakes` | internal/wacore/appstate/src/hash.rs:190-250 | the scan subtracts and adds exactly those values in order, and reports a REMOVE without a stored value exactly when there is one |
| `PatchEffect.WinnersAre` | internal/wacore/appstate/src/hash.rs:307-379 | the rows of a snapshot are, for each index, the value MAC of its last record |
| `SnapshotHash.ScanWinners` | internal/wacore/appstate/src/hash.rs:307-379 | the scan adds the last value of each index, each exactly once |
| `SnapshotHash.SortWinners` | internal/wacore/appstate/src/hash.rs:307-379 | the sort-and-run form does the same |
| `SnapshotHash.UpdateHashFromRecords` | internal/wacore/appstate/src/hash.rs:307-379 | the snapshot hash is the sum over the last value of every index, whichever branch ran, and the report counts winners and valueless records |
| `SnapshotHash.LastRecordPerIndex` | internal/wacore/appstate/src/processor.rs:637-662 | the records kept are, in order, those no later record of the same index overrides |
| `SnapshotHash.KeptDescribeWinners` | internal/wacore/appstate/src/processor.rs:637-662 | storing the kept records gives exactly the winners the hash was folded over, one record each |
| `Processor.DecodedMacs` | internal/wacore/appstate/src/processor.rs:369-440 | a patch that decodes has whole records and hands the store exactly the MACs its hash was folded over, and a validated one has only well-formed indexes |
| `Processor.SnapshotSum` | internal/wacore/appstate/src/processor.rs:75-266 | the rows and hash of an accepted snapshot satisfy the sum law |
| `Processor.ProcessSnapshot` | internal/wacore/appstate/src/processor.rs:75-266 | the loop accepts or refuses, with the same error, as the specification, and returns its state, rows and mutations |
| `Authenticity.SnapshotAcceptedExactly` | internal/wacore/appstate/src/processor.rs:75-266 | a snapshot is accepted exactly when no record lacks its value, under validation its MAC is the expected one of the sum of the last values, the version and the name, and every kept record decodes; the state, rows and mutations that result |
| `Processor.AcceptedPatch` | internal/wacore/appstate/src/processor.rs:283-464 | an accepted patch has whole records, moves the version by one unless it seeds, stores what its hash folded, and under validation names no index twice per operation |
| `Processor.CollectUniqueIndexMacs` | internal/wacore/src/appstate_sync.rs:49-67 | both branches return, without repeats, exactly the 32-byte index MACs of the patch |
| `Processor.Dedup` | internal/wacore/src/appstate_sync.rs:60-66 | dropping equal neighbours of a sorted list keeps its elements and leaves no repeat |
| `Processor.GetMutationMacs` | internal/wacore/src/store/traits.rs:789-802 | the batched read returns the stored row of every index asked for and nothing else |
| `Processor.BatchedScan` | internal/wacore/src/appstate_sync.rs:954-975 | a patch scanned against the batched rows is scanned as against the store itself, malformed MACs being misses |
| `Processor.ScanMutations` | internal/wacore/appstate/src/hash.rs:190-250 | the loop over the mutations computes the scan the balance theorem is about |
| `Processor.UpdateHash` | internal/wacore/appstate/src/hash.rs:162-263 | the new hash folds exactly the values the scan removed and added, and reports a REMOVE without a previous row |
| `Processor.DetectDuplicateIndex` | internal/wacore/appstate/src/processor.rs:473-499 | refuses exactly the patches that name an index twice under one operation |
| `Processor.ProcessPatch` | internal/wacore/appstate/src/processor.rs:283-464 | the imperative pass equals the specification on every patch: version test, unknown operations, hash, MAC verdict, duplicates, decoding |
| `Authenticity.PatchAcceptedExactly` | internal/wacore/appstate/src/processor.rs:283-464 | a patch is accepted exactly when it comes next, names known operations, under validation repeats no index per operation and, if it names a key, has that key known and a right patch MAC (one that seeds carries both MACs, unless the collection is marked diverged), and its records decode; the new state is marked diverged exactly when it was or its snapshot MAC is not that of the new hash, and the mutations are the opened records in order |
| `Authenticity.PatchDecodesExactly` | internal/wacore/appstate/src/processor.rs:369-440 | all records of a patch decode exactly when each does, and the mutations are theirs in order |
| `Authenticity.TailsAppend` | internal/wacore/appstate/src/hash.rs:392-415 | the value MACs under the patch MAC are those of any first part of the mutations, then those of the rest |
| `Authenticity.TailsOfOne` | internal/wacore/appstate/src/hash.rs:392-415 | one mutation adds the last 32 bytes of its value, whatever its operation, and nothing without a value |
| `Acceptance.AcceptedIsAcceptable` | internal/wacore/appstate/src/processor.rs:283-464 | an accepted patch has readable records with key ids, and under validation 32-byte indexes, none repeated per operation, one per ciphertext |
| `Acceptance.AcceptableIsAccepted` | internal/wacore/appstate/src/processor.rs:283-464 | every such patch is accepted under some primitives and keys, whatever HKDF derives and whatever is stored |
| `Acceptance.SafeExactly` | internal/wacore/appstate/src/processor.rs:283-464 | with validation or without, every acceptance of some mutations keeps the sum law if and only if they can never be accepted or do no harm |
| `Acceptance.ValidatedSafe` | internal/wacore/appstate/src/processor.rs:283-464 | with validation that is: never accepted, in index mode, or SETs and REMOVEs name different indexes |
| `Collection.ListKeepsSound` | internal/wacore/src/appstate_sync.rs:815-1043 | a whole call whose patches are safe in that sense keeps the sum law, whether it succeeds, asks for a refetch or stops at a refused patch |
| `Collection.UnsafeListBreaks` | internal/wacore/src/appstate_sync.rs:815-1043 | for every patch that is not safe there are a sound collection and a call whose one patch it is that leaves the collection unsound |
| `Collection.ListNeverLowersVersion` | internal/wacore/src/appstate_sync.rs:835-907 | no call lowers the stored version, and a snapshot applied over a positive version is strictly newer |
| `Freshness.SnapshotTaken` | internal/wacore/src/appstate_sync.rs:835-907 | an accepted snapshot alone in its list replaces the collection, by its version and the last value of every index, if nothing or version 0 is held or it is newer |
| `Freshness.SnapshotThenPatches` | internal/wacore/src/appstate_sync.rs:835-1043 | followed by patches it leaves, and answers, what those patches make of the collection it describes |
| `Freshness.SnapshotRefused` | internal/wacore/src/appstate_sync.rs:835-907 | a newer snapshot that is refused changes nothing |
| `Freshness.SnapshotIgnored` | internal/wacore/src/appstate_sync.rs:835-907 | one that is not newer changes no row and hands nothing on; with patches the call is the call without it |
| `Freshness.NothingSent` | internal/wacore/src/appstate_sync.rs:1012-1040 | an empty list records the empty collection exactly when it ends a first bootstrap without error or announced snapshot |
| `Freshness.FirstPatchAwaited` | internal/wacore/src/appstate_sync.rs:909-945 | over a blank collection any list that does not start with patch 1 asks for a refetch and changes nothing |
| `Freshness.PatchTaken` | internal/wacore/src/appstate_sync.rs:908-1010 | in every other case a patch is committed exactly when it is accepted: patch 1 over no rows, a later one over the stored rows |
| `Paging.FlagUnread` | internal/wacore/src/appstate_sync.rs:976-1010 | patch processing never reads the terminal-page flag |
| `Paging.PhaseSplits` | internal/wacore/src/appstate_sync.rs:916-1010 | the loop over a joined list is the loop over the first part followed by the loop over the rest |
| `Paging.PagingInvariance` | internal/wacore/src/appstate_sync.rs:916-1010 | delivered whole or as two pages, a list is applied or not alike and leaves the same record, rows and mutations |
| `StoreWrites.ListApplied` | internal/wacore/src/appstate_sync.rs:815-1043 | the writes of a call, in the order the code issues them, lead from the old collection to the specified one |
| `StoreWrites.RecoveryApplied` | internal/wacore/src/appstate_sync.rs:661-683 | the same for the writes of a recovery |
| `Retry.ReplaceCut` | internal/wacore/src/appstate_sync.rs:884-907 | clear, put row by row and set the version, stopped after any write: the old record over some rows, or all of the new collection |
| `Retry.SnapshotRetries` | internal/wacore/src/appstate_sync.rs:835-907 | any number of calls each stopped at any write of its snapshot, then one that finishes, leave the collection one uninterrupted call would |
| `Retry.RecoveryRetries` | internal/wacore/src/appstate_sync.rs:661-683 | the same for recoveries, stopped at any write whatever |
| `Retry.VersionFirstStrands` | internal/wacore/src/store/traits.rs:815-834 | stopped after any write of `commit_patch` the patch is refused from then on, and the law holds over what is there, for every key derivation, if and only if every value MAC the scan added less those it removed matches the change in the rows, modulo 2^16 |
| `Retry.VersionOnly` | internal/wacore/src/store/traits.rs:815-834 | after the version write alone that is: if and only if every value MAC was added as often as it was removed, modulo 2^16 |
| `Counterexamples.CutWitness` | internal/wacore/src/store/traits.rs:815-834 | a concrete accepted patch whose version is written and whose row is not: the law is gone and the patch is refused when it comes again |
| `Recovery.ComputeWinners` | internal/wacore/src/appstate_sync.rs:542-565 | the reverse scan marks exactly the last record of every (index, key id) |
| `Recovery.IncompleteRefuses` | internal/wacore/src/appstate_sync.rs:500-510 | a record without value, index or key id always refuses the whole recovery |
| `Recovery.DedupIsLastWrite` | internal/wacore/src/appstate_sync.rs:567-649 | the stored rows equal the last-write-wins fold of all records, for every index MAC function |
| `Recovery.WinnersUseEveryKey` | internal/wacore/src/appstate_sync.rs:542-565 | the winners use every key id the records use, so the key look-up cannot fail |
| `Recovery.RecoveredCollection` | internal/wacore/src/appstate_sync.rs:440-686 | an applied recovery is newer than any positive version held, stores last-write-wins rows and exactly the 128 bytes of the primary's hash, and is sound exactly when those bytes are the sum of the rows |
| `Freshness.RecoveryStale` | internal/wacore/src/appstate_sync.rs:473-484 | a recovery answers "stale" exactly when it is for this collection and not newer than the positive version held |
| `Freshness.RecoveryTakenExactly` | internal/wacore/src/appstate_sync.rs:440-686 | it replaces the collection exactly when it is for it, newer, still wanted, has a 128-byte hash, an available key in every record and a usable last record of every index and key; otherwise nothing changes |
| `KeyCache.HoldsNewest` | internal/wacore/src/appstate_sync.rs:206-234 | after any insertions the order is free of repeats, equals the key set, has at most 32 ids and holds the newest |
| `KeyCache.FaithfulGrows` | internal/wacore/src/store/traits.rs:749 | after the backend is given a key the cache is still right if and only if it does not hold that id with other keys |
| `KeyCache.RewrittenKeyShows` | internal/wacore/src/appstate_sync.rs:393-411 | after a cached id is rewritten a look-up answers with the old keys, and agrees with the backend if and only if both expand alike |
| `KeyCache.KeyStore.SetSyncKey` | internal/wacore/src/store/traits.rs:749 | the same of the store object: only a rewritten, cached key can make a look-up wrong |
| `KeyCache.KeyStore.Insert` | internal/wacore/src/appstate_sync.rs:220-229 | the cache takes the specified step and stays well formed |
| `KeyCache.KeyStore.GetAppStateKey` | internal/wacore/src/appstate_sync.rs:393-411 | the cached answer or the backend's; while the cache is right, always the backend's |
| `KeyCache.KeyStore.PrefetchKeys` | internal/wacore/src/appstate_sync.rs:718-734 | every available key of the list is returned, even beyond the capacity of the cache |
| `KeyIds.CollectKeyIds` | internal/wacore/appstate/src/decode.rs:151-185 | exactly the key ids a list refers to, without repeats |
| `KeyIds.PrefetchSuffices` | internal/wacore/src/appstate_sync.rs:815-834 | a call with only those keys does what it would with all keys |
| `SyncRun.AppStateProcessor.CommitPatch` | internal/wacore/src/store/traits.rs:815-834 | issues the version, the deletions and the insertions in that order, as many as the store takes, and touches no other collection |
| `SyncRun.AppStateProcessor.ReplaceCollection` | internal/wacore/src/appstate_sync.rs:884-907 | issues the clear, the rows one by one and the version last, as many as the store takes, and reports whether all were taken |
| `SyncRun.AppStateProcessor.ApplyPatch` | internal/wacore/src/appstate_sync.rs:954-1010 | one turn of the loop: the specified patch and the writes of its commit, or the store's failure |
| `SyncRun.AppStateProcessor.ApplyPatches` | internal/wacore/src/appstate_sync.rs:916-1010 | the patch loop over the store issues the writes of the specified phase, each patch reading what those before it committed, and fails exactly when the store stops it |
| `SyncRun.AppStateProcessor.ApplySnapshot` | internal/wacore/src/appstate_sync.rs:835-907 | the snapshot step computes the specified phase, stale snapshots included, and issues its writes until the store stops it |
| `SyncRun.AppStateProcessor.ProcessPatchList` | internal/wacore/src/appstate_sync.rs:815-1043 | the whole call over the store and the key cache issues the writes of the specification until the store stops it, returns its answer or the failure, and changes no other collection |
| `SyncRun.AppStateProcessor.ProcessAgain` | internal/wacore/src/appstate_sync.rs:835-907 | a call the store stops within its snapshot, and the same call again once the store has recovered, leave the collection of one uninterrupted call |
| `SyncRun.AppStateProcessor.ApplySnapshotRecovery` | internal/wacore/src/appstate_sync.rs:440-686 | the recovery over the store and the key cache is the specified one, its writes issued until the store stops it |
| `SyncRun.AppStateProcessor.DeleteVersion` | internal/wacore/src/store/traits.rs:765 | forgets one version record and nothing else |
| `SyncRun.AppStateProcessor.Perform` | internal/wacore/src/appstate_sync.rs:440-1043 | any call on the object is the step the runs below are made of, unless the store stops it |
| `SyncRun.AppStateProcessor.PerformAll` | internal/wacore/src/appstate_sync.rs:440-1043 | after any calls on an empty store that serves them the store is what the run says, and if they are trusted every collection in it satisfies the sum law |
| `SyncRun.RunKeepsSound` | internal/wacore/src/appstate_sync.rs:815-1043 | over every run from an empty store, of lists of safe patches and of recoveries whose hash is the sum of their rows, every collection is unseeded or its hash is the sum of its rows |
| `SyncRun.ValidatedRunKeepsSound` | internal/wacore/src/appstate_sync.rs:815-1043 | a validated run keeps the law if no patch without repeats SETs and REMOVEs one index outside index mode, whatever its other patches do |
| `SyncRun.VersionsOnlyGrow` | internal/wacore/src/appstate_sync.rs:1156-1158 | no action but forgetting a collection lowers its version or loses it |
| `Outgoing.BuildPatch` | internal/wacore/src/appstate_sync.rs:1058-1122 | refuses exactly unknown operations; the patch carries the snapshot MAC of the hash the builder computes, for all mutations, and the patch MAC, both under the next version |
| `Outgoing.BuilderAgreesExactly` | internal/wacore/src/appstate_sync.rs:1084-1096 | builder and receiver compute one hash, for every key derivation and base, if and only if repeated SETs trade stored for earlier values evenly, modulo 2^16 |
| `Outgoing.OverlayIdle` | internal/wacore/src/appstate_sync.rs:1084-1096 | without repeated SETs there is nothing to trade, whatever else repeats |
| `Counterexamples.BuilderWitness` | internal/wacore/src/appstate_sync.rs:1084-1096 | two SETs of one index: the built snapshot MAC is not the one a peer in the builder's state computes; a validating peer refuses the patch and another one ends with a different hash |
| `Outgoing.PeerAccepts` | internal/wacore/src/appstate_sync.rs:1058-1122 | for such patches a peer in the builder's state finds both aggregate MACs right, accepts if and only if no index repeats per operation and the records decode, and ends with the builder's hash |
| `ExternalBlobs.DownloadExternalBlobs` | internal/wacore/src/appstate_sync.rs:94-126 | succeeds exactly when every referenced blob decodes, and inlines each in place |
| `ExternalBlobs.InlineOnce` | internal/wacore/src/appstate_sync.rs:94-126 | a second pass downloads nothing and changes nothing |
| `ExternalBlobs.ProbeFirst` | internal/wacore/src/appstate_sync.rs:778-812 | inlining before the call cannot change its result |
| `ExternalBlobs.ProcessedOneExactly` | internal/wacore/src/appstate_sync.rs:778-812 | a list is processed with every blob in its place exactly when it reports no error and every blob can be had; otherwise nothing changes and it is handed back with an error |
| `RecoveryRequests.MarksApart` | internal/wacore/src/appstate_sync.rs:290-311 | two accepted asks with no take between are 120 s apart, and 900 s after a claim |
| `RecoveryRequests.MarkRefusedExactly` | internal/wacore/src/appstate_sync.rs:290-311 | over every run an ask is refused exactly within 120 s of the last unanswered ask, or 900 s of its claim, with nothing taken since |
| `RecoveryRequests.ClaimedOnce` | internal/wacore/src/appstate_sync.rs:342-356 | an id is claimed successfully at most once, ever |
| `RecoveryRequests.NotedAnswers` | internal/wacore/src/appstate_sync.rs:342-372 | the last id noted for an outstanding collection gets that collection: by a claim exactly if nothing has claimed it, by a take in any case |
| `RecoveryRequests.UnknownIdGetsNothing` | internal/wacore/src/appstate_sync.rs:342-372 | an id that was never noted gets nothing and changes nothing |
| `RecoveryRequests.TakeableAfterClaim` | internal/wacore/src/appstate_sync.rs:364-372 | for 900 s after a claim the request can be taken by its id |
| `RecoveryRequests.RequestTable.MarkRequested` | internal/wacore/src/appstate_sync.rs:290-311 | is a step of the protocol the results above are about |
| `RecoveryRequests.RequestTable.NoteId` | internal/wacore/src/appstate_sync.rs:324-328 | is a step of that protocol |
| `RecoveryRequests.RequestTable.ClaimById` | internal/wacore/src/appstate_sync.rs:342-356 | is a step of that protocol |
| `RecoveryRequests.RequestTable.TakeRequestById` | internal/wacore/src/appstate_sync.rs:364-372 | is a step of that protocol |
| `RecoveryRequests.RequestTable.TakeRequest` | internal/wacore/src/appstate_sync.rs:385-391 | is a step of that protocol |
| `HandleSlab.AddKeeps` | pkg/whatsapp_rust_bridge.js:3929-3936 | an add returns a handle that aliases no live one and keeps the free chain |
| `HandleSlab.DropKeeps` | pkg/whatsapp_rust_bridge.js:4013-4017 | dropping a live handle puts it first on the free chain and keeps every other object |
| `HandleSlab.DropSafeExactlyWhenLive` | pkg/whatsapp_rust_bridge.js:4013-4017 | after dropping any index that is not reserved, past the end included, a free list still exists if and only if it was live |
| `HandleSlab.DroppedTwiceAliases` | pkg/whatsapp_rust_bridge.js:3929-3936 | from any consistent slab: add, drop twice, and the next two adds both return the dropped handle, so the second value replaces the first |
| `HandleSlab.SlabOverRuns` | pkg/whatsapp_rust_bridge.js:3929-3936 | over every run of adds and drops of live handles the chain is acyclic, visits exactly the free slots, live handles read their own objects, the first 1028 slots never change, and the heap is as long as the most handles live at once |
| `HandleSlab.HandleTable.constructor` | pkg/whatsapp_rust_bridge.js:4088-4091 | the initial heap: 1028 reserved slots and an empty free list |
| `HandleSlab.HandleTable.AddHeapObject` | pkg/whatsapp_rust_bridge.js:3929-3936 | the mutable heap takes the specified step and the handle reads the object |
| `HandleSlab.HandleTable.GetObject` | pkg/whatsapp_rust_bridge.js:4078 | any index reads its slot, past the end undefined; a live handle reads its own object, and slots 1025 to 1027 read null, true and false |
| `HandleSlab.HandleTable.DropObject` | pkg/whatsapp_rust_bridge.js:4013-4017 | the specified step for any index: reserved slots are untouched, a live handle keeps the table valid, and any other leaves no free list |
| `HandleSlab.HandleTable.TakeObject` | pkg/whatsapp_rust_bridge.js:4193-4197 | returns what the slot reads and drops the index, whatever it is |
| `Utf.EncodeRoundTrip` | pkg/whatsapp_rust_bridge.js:4156-4191 | the encoding used as specification decodes, under section 3 of RFC 3629, to the scalars encoded |
| `Utf.ScalarsInvert` | pkg/whatsapp_rust_bridge.js:4156-4191 | the text read from the UTF-16 encoding, section 2.1 of RFC 2781, of any scalars is those scalars |
| `Utf.LoneReplaced` | pkg/whatsapp_rust_bridge.js:4156-4191 | any string is read as itself with U+FFFD in the place of each lone surrogate and of nothing else |
| `Utf.Utf8Fits` | pkg/whatsapp_rust_bridge.js:4181 | three bytes per UTF-16 unit are always enough |
| `Utf.AsciiPrefix` | pkg/whatsapp_rust_bridge.js:4172-4176 | a run of ASCII units encodes to itself, splits no character, and the rest encodes on its own |
| `Utf.EncodeInto` | pkg/whatsapp_rust_bridge.js:4182-4183 | writes the encoding of a prefix that splits no character, and stops before the end only where the next character does not fit |
| `Utf.PassStringToWasm` | pkg/whatsapp_rust_bridge.js:4156-4191 | the block holds exactly the UTF-8 encoding of the string and the recorded length is its length, with or without a reallocator |
| `Md5.IndexColumn` | internal/wacore/src/crypto.rs:185-218 | the computed message index is the k column of the RFC's tables in all 64 steps |
| `Md5.ShiftColumn` | internal/wacore/src/crypto.rs:185-218 | the computed shift is the s column |
| `Md5.LoopFIsAuxiliary` | internal/wacore/src/crypto.rs:185-218 | the select and majority forms used are the RFC's F, G, H and I |
| `Md5.LoopInvariant` | internal/wacore/src/crypto.rs:185-218 | one turn of the register-rotating loop is one [abcd k s i] operation, up to the rotation of roles |
| `Md5.ProcessBlock` | internal/wacore/src/crypto.rs:185-218 | for every state and block the loop computes the four rounds of section 3.4 and the final addition |
| `Md5.WordOfIs` | internal/wacore/src/crypto.rs:185-190 | a message word is the sum of its four bytes, low-order byte first, as an integer |
| `Md5.BytesOfWord` | internal/wacore/src/crypto.rs:178-183 | writing out a word read from four bytes gives the four bytes |
| `Md5Stream.Hasher.Consume` | internal/wacore/src/crypto.rs:139-162 | the buffered state after a call is that of the concatenated message |
| `Md5Stream.Hasher.Finalize` | internal/wacore/src/crypto.rs:165-183 | the result is the compression of the padded message, in the one-block and the two-block case |
| `Md5Stream.Md5Digest` | internal/wacore/src/crypto.rs:20-24 | the digest of sections 3.1 to 3.5 of RFC 1321, for every message |
| `Md5Stream.LengthBytesAre` | internal/wacore/src/crypto.rs:165-177 | the eight bytes after the padding are the length in bits modulo 2^64, low-order byte first |
| `Md5Vector.EmptyDigest` | internal/wacore/src/crypto.rs:20-24 | the digest of the empty message is the value printed in appendix A.5 of RFC 1321 |
| `Md5Stream.Md5Pieces` | internal/wacore/src/crypto.rs:139-183 | every way of cutting a message into `consume` calls gives its one-shot digest |
| `Md5Stream.ContactNotificationHash` | internal/wacore/src/crypto.rs:32-38 | the three-byte prefix of MD5 of the user followed by the suffix |
| `Md5Stream.SuffixSpells` | internal/wacore/src/crypto.rs:32-38 | the suffix spells WA_ADD_NOTIF |
| `TokenTable.FindSlot` | internal/wacore/binary/build.rs:46-54 | the probe finds the first slot after the home that is not taken, at most eight away, or there is none |
| `TokenTable.HomeIs` | internal/wacore/binary/build.rs:46-48 | the home of a key is the top bits of its product with the multiplier modulo 2^32 |
| `TokenTable.FirstSizeLeast` | internal/wacore/binary/build.rs:36 | the first table tried is the smallest under three quarters full |
| `TokenTable.MultipliersAre` | internal/wacore/binary/build.rs:39-63 | the first four multipliers tried |
| `TokenTable.TryPlace` | internal/wacore/binary/build.rs:39-60 | one attempt succeeds if and only if giving every key in turn the first free slot after its home stays within eight of it |
| `TokenTable.Insertion` | internal/wacore/binary/build.rs:55-57 | filling the first empty slot of a probe path keeps every earlier placement |
| `TokenTable.EmptySlot` | internal/wacore/binary/build.rs:35-38 | fewer entries than slots leave an empty slot, so every probe stops |
| `TokenTable.BuildTable` | internal/wacore/binary/build.rs:35-65 | a table is returned if and only if some size up to 2^32 and one of the 256 multipliers place all keys; it is the smallest and its first multiplier, under three quarters full, every entry in a slot of its own within eight of its home with no empty slot between |
| `Tokens.CollectValues` | internal/wacore/binary/build.rs:77-109 | succeeds exactly when no token repeats and none lies past position 255, and lists every nonempty token with its packed kind |
| `Tokens.KindsDecode` | internal/wacore/binary/src/token.rs:44-50 | a packed kind decodes to a position exactly when the token stands there |
| `Tokens.RotatedIs` | internal/wacore/binary/build.rs:17-30 | the rotation by 11 moves the top eleven bits below the others |
| `Tokens.LongKeyIs` | internal/wacore/binary/build.rs:17-30 | the key of a token of more than four bytes, over its bytes: the first four rotated, the last four and its length times 0x9E3779B1, combined by exclusive or |
| `Tokens.PackEntries` | internal/wacore/binary/build.rs:111-144 | succeeds exactly when every token is acceptable and its blob offset fits, and describes every token by key, tag and length-prefixed bytes |
| `Tokens.ConfirmsExactly` | internal/wacore/binary/src/token.rs:79-110 | the tag and byte test on a slot passes exactly for the slot's own token |
| `Tokens.LookupBytes` | internal/wacore/binary/src/token.rs:53-113 | the probe stops for every byte string and finds exactly the listed tokens |
| `Tokens.Compile` | internal/wacore/binary/build.rs:67-146 | a table is compiled if and only if no token repeats or lies out of range, each can be packed, and their keys can be placed; it serves every token of the lists |
| `Tokens.IndexOfToken` | internal/wacore/binary/src/token.rs:39-41 | for every byte string a kind is returned if and only if the decode arrays map that kind back to the string |
| `Framing.FrameDecoder.DecodeFrame` | internal/wacore/noise/src/framing.rs:228-272 | takes the next whole frame off the stream, or nothing |
| `Framing.ChunksAgree` | internal/wacore/noise/src/framing.rs:181-272 | the frames of a stream do not depend on where its chunks end |
| `Framing.WireDecodes` | internal/wacore/noise/src/framing.rs:49-109 | decoding inverts framing for every sequence of payloads below 2^24 bytes |
| `Framing.PrefixIs` | internal/wacore/noise/src/framing.rs:49-109 | the three bytes before a payload are its length, high-order byte first |
| `Framing.HeaderReads` | internal/wacore/noise/src/edge_routing.rs:15-52 | behind "ED", 0, 1 the routing information can be read back from the connection header, whatever follows; without it the header is "WA", 6, 3 |
| `Noise.IvInjective` | internal/wacore/noise/src/state.rs:16-20 | different counters give different nonces |
| `Noise.IvIs` | internal/wacore/noise/src/state.rs:16-20 | a nonce is eight zero bytes and the counter, high-order byte first |
| `NoiseFramework.MessagesFollowFramework` | internal/wacore/noise/src/state.rs:164-215 | each message of a handshake is sealed or opened with the hash as associated data and the counter as nonce, and hashed on; a refused one leaves the hash alone but uses a counter value; the last counter value is never used |
| `NoiseFramework.XxFollowsFramework` | src/noise_session.rs:133-295 | whatever the server sends, the initiator finishes exactly when the XX pattern of the Noise Protocol Framework, written out over the primitives without a payload in the first message, does, with the same messages, hash and chaining key, and writes with the first key of the framework's Split and reads with the second |
| `NoiseFramework.FirstPayloadOmitted` | src/noise_session.rs:30-53 | the empty first payload of section 5.3 of the framework is not mixed in: the opening hash is the framework's if and only if SHA-256 maps it to itself |
| `Noise.Lockstep` | internal/wacore/noise/src/state.rs:164-192 | two sides in one state are in one state after a message, and the plaintext arrives, unless the counter is exhausted |
| `Sessions.HelloAgrees` | src/noise_session.rs:237-270 | reading the responder's e, ee, s, es leaves both in one state and yields the payload |
| `Sessions.FinishAgrees` | src/noise_session.rs:273-295 | the responder reading s, se and the payload ends in the initiator's state |
| `Sessions.XxAgrees` | src/noise_session.rs:133-149 | the whole handshake: both payloads arrive, both sides end in one handshake state, hash and chaining key included, and the initiator transports with the keys split from it |
| `Transport.EndToEnd` | src/noise_session.rs:30-295 | from the hello frame, which carries the connection header if it fits, through XX to transport: for all keys, payloads and runs in step in both directions, each side gets exactly what the other framed |
| `Transport.RunIs` | src/noise_session.rs:157-171 | attempt i of a run is sealed under the i-th counter value, and the counters advance for refused attempts too |
| `Transport.NoncesDistinct` | src/noise_session.rs:63-81 | the nonces of a run are pairwise distinct if and only if it has at most 2^32 messages |
| `IntroHeader.IntroOnce` | src/noise_session.rs:157-171 | over every run of calls, before, during and after the handshake: the first encode carries the intro header exactly when its payload fits, no other frame or state differs from those of a session without it, and after it the header is gone |
| `Transport.LawsHold` | src/noise_session.rs:63-81 | some sealing functions open what they seal and let a ciphertext open under no other nonce, so the two laws can be assumed together |
| `Transport.TransportDelivers` | src/noise_session.rs:157-212 | for runs of any length: the receiver gets exactly the framed messages, in order, when before each of them a multiple of 2^32 attempts was refused, and otherwise an error |
| `Transport.InOrderIsInStep` | src/noise_session.rs:63-81 | up to 2^32 attempts that condition is that no refused attempt precedes a framed one |
| `Transport.OversizeDesyncs` | src/noise_session.rs:157-171 | a family of failing runs: one oversize frame, then a small one |
| `Transport.OversizeWitness` | src/noise_session.rs:157-171 | one such run in full: sessions, frames and the failure of the receiver |
| `Transport.ChunkedDrain` | src/noise_session.rs:195-212 | delivery does not depend on where chunks end as long as no call failed |
| `SessionObject.NoiseSession.constructor` | src/noise_session.rs:30-53 | the opening state of an initiator |
| `SessionObject.NoiseSession.FromCiphers` | src/noise_session.rs:408-427 | a session that starts in transport mode |
| `SessionObject.NoiseSession.Authenticate` | src/noise_session.rs:56-60 | during the handshake the data is hashed onto the hash, afterwards nothing happens |
| `SessionObject.NoiseSession.MixIntoKey` | src/noise_session.rs:121-130 | during the handshake the two outputs of HKDF become chaining key and key and the counter restarts; afterwards it fails |
| `SessionObject.NoiseSession.EncryptVec` | src/noise_session.rs:63-81 | handshake or transport encryption as specified; a coherent session never lacks its cipher |
| `SessionObject.NoiseSession.DecryptVec` | src/noise_session.rs:84-104 | handshake or transport decryption as specified, a failed one having used its counter value |
| `SessionObject.NoiseSession.FinishInit` | src/noise_session.rs:133-149 | switches to transport once, resetting both counters; a second call fails and changes nothing |
| `SessionObject.NoiseSession.EncodeFrameRaw` | src/noise_session.rs:157-171 | one attempt of the runs above |
| `SessionObject.NoiseSession.DecodeFrame` | src/noise_session.rs:195-212 | the loop delivers as specified, and on an error keeps the frames behind it buffered |
| `SessionObject.NoiseSession.ProcessHandshakeInit` | src/noise_session.rs:237-270 | the initiator's step as specified, with the state each failure leaves |
| `SessionObject.NoiseSession.ProcessHandshakeFinish` | src/noise_session.rs:273-295 | the initiator's last step as specified, with the state each failure leaves |
| `Bitwise.OrIsSum` | internal/wacore/benches/sframe_varint_benchmark.rs:66 | or-ing a group in at its shift is adding it |
| `Varint.DecodeLoop` | internal/wacore/benches/sframe_varint_benchmark.rs:59-76 | up to ten bytes, the seven-bit groups modulo 2^64, for every buffer and offset |
| `Varint.DecodeFastpath` | internal/wacore/benches/sframe_varint_benchmark.rs:80-101 | the same function as the loop, on all inputs |
| `Varint.UnrolledCore` | internal/wacore/benches/sframe_varint_benchmark.rs:113-166 | the strict function: a tenth byte may only carry the top bit |
| `Varint.DecodeUnrolled` | internal/wacore/benches/sframe_varint_benchmark.rs:106-110 | the strict function from any offset |
| `Pext.PackedGroups` | internal/wacore/benches/sframe_varint_benchmark.rs:202-207 | the parallel extraction of the masked word gathers exactly the groups of the kept bytes |
| `Pext.FirstTerminator` | internal/wacore/benches/sframe_varint_benchmark.rs:197-201 | the lowest marking bit belongs to the byte that ends the run |
| `Pext.PextBmi2` | internal/wacore/benches/sframe_varint_benchmark.rs:191-209 | the strict function on every buffer of at least eight bytes |
| `Pext.DecodePext` | internal/wacore/benches/sframe_varint_benchmark.rs:171-187 | equal to the unrolled decoder on all inputs, with or without the instruction |
| `Varint.DifferExactly` | internal/wacore/benches/sframe_varint_benchmark.rs:20-25 | at any offset of any buffer the looping and the other decoders differ exactly on nine continuation bytes followed by a byte from 2 to 127, where only the loops return a value |
| `Varint.EncodingInverts` | internal/wacore/benches/sframe_varint_benchmark.rs:216-222 | every 64-bit value comes back from its encoding, in either class, whatever follows |
| `Sframe.EncodeVarintInto` | internal/wacore/src/voip/sframe.rs:91-101 | writes the encoding at its place and nothing before it |
| `Sframe.BuildSframeHeader` | internal/wacore/src/voip/sframe.rs:105-110 | 21 bytes hold the header of any two 64-bit values |
| `Sframe.ParseInvertsBuild` | internal/wacore/benches/sframe_varint_benchmark.rs:224-249 | parsing inverts building for every counter and key id, with any decoder that inverts the encoder |
| `Sframe.DecodersInvert` | internal/wacore/benches/sframe_varint_benchmark.rs:59-187 | both classes of decoders are such decoders |
| `Sframe.IvsDiffer` | internal/wacore/src/voip/sframe.rs:77-81 | different counters give different nonces |
| `Sframe.IvIs` | internal/wacore/src/voip/sframe.rs:77-81 | a nonce is eight zero bytes and the counter, low-order byte first |
| `Sframe.FrameRoundTrip` | internal/wacore/src/voip/sframe.rs:202-242 | a frame comes back decrypted exactly when its payload is not empty; an empty one is taken for plain |
| `Sframe.NewSession` | internal/wacore/src/voip/sframe.rs:183-199 | a session exists exactly for 32-byte call keys, with one key per direction |
| `Sframe.SframeSession.Encrypt` | internal/wacore/src/voip/sframe.rs:202-209 | ciphertext, tag and header under the next counter |
| `Sframe.SframeSession.Decrypt` | internal/wacore/src/voip/sframe.rs:217-242 | every branch of the reading from the back |
| `Sframe.Exchange` | internal/wacore/src/voip/sframe.rs:183-242 | two sessions with the participants swapped deliver every nonempty frame |
| `StorageCache.MemoExact` | src/storage_adapter.rs:153-168 | the memoised address strings equal fresh formatting if and only if no name switches device between two consecutive requests |
| `StorageCache.AddressReads` | src/storage_adapter.rs:153-168 | an address string is the name, a dot and the device in decimal |
| `StorageCache.AddressInjective` | src/storage_adapter.rs:153-168 | no two addresses have one string, whatever their names hold |
| `StorageCache.SenderKeyIdSharedExactly` | src/storage_adapter.rs:171-191 | another sender key has the same id if and only if the id holds two colons in a second place |
| `StorageCache.StepRefines` | src/storage_adapter.rs:749-829 | one call answers as the uncached adapter and keeps the caches sound |
| `StorageCache.RunRefines` | src/storage_adapter.rs:749-1094 | every run the store serves and whose names keep their device gives the answers and the store of an uncached adapter, older formats included |
| `StorageCache.SwitchReadsOther` | src/storage_adapter.rs:153-168 | a concrete failing run: a stored session that is not found |
| `StorageCache.FailedWriteShows` | src/storage_adapter.rs:801-829 | after a session write that did not serialize or was refused the next load agrees with the store exactly when the store already held that record |
| `StorageCache.FailedSenderKeyShows` | src/storage_adapter.rs:1071-1094 | the same for sender keys |
| `StorageCache.WriteAnswers` | src/storage_adapter.rs:801-829 | a write is acknowledged, with caches or without, exactly when the record serializes and the store takes it, and only then is it stored |
| `StorageCache.JsStorageAdapter.constructor` | src/storage_adapter.rs:126-139 | the caches and memos start empty and sound |
| `StorageCache.JsStorageAdapter.GetAddressString` | src/storage_adapter.rs:153-168 | the memo of the results above |
| `StorageCache.JsStorageAdapter.GetSenderKeyId` | src/storage_adapter.rs:171-191 | always the fresh string: this memo is keyed by both parts |
| `StorageCache.JsStorageAdapter.LoadSession` | src/storage_adapter.rs:749-791 | the specified step: cached, missing, bytes, older session objects, other values and a store that throws; only a record found is cached |
| `StorageCache.JsStorageAdapter.StoreSession` | src/storage_adapter.rs:801-829 | the specified step; the cache is written before the record is serialized and the store is asked |
| `StorageCache.JsStorageAdapter.LoadSenderKey` | src/storage_adapter.rs:1022-1069 | the specified step for sender keys; bytes that do not parse are tried as the older format |
| `StorageCache.JsStorageAdapter.StoreSenderKey` | src/storage_adapter.rs:1071-1094 | the specified step for sender keys, cache first as well |

## Left out

- The bytes of HMAC, HKDF, AES, SHA-256, X25519 and protobuf: parameters of the model.
- Async scheduling, locks, logging, tracing and network transport: store calls are atomic and succeed or fail, the clock is a monotone number.
- SyncRun.RunKeepsSound: asks that every patch is safe for the call it comes in. Validation does not ensure it (`Counterexamples.DoubledWitness`), and `Acceptance.SafeExactly` proves that no weaker condition on the mutations will do.
- Transport.TransportDelivers: the error half assumes that a ciphertext opens under no other 12-byte nonce.
- Sessions.XxAgrees: the responder is the mirror of the initiator as built here, which mixes no empty first payload into the hash.
- TokenTable.BuildTable: past 32 bits the source shifts by a negative amount; the model returns nothing there.
- StorageCache.RunRefines: one adapter at a time; writes to the JavaScript store from outside and `has_session`, which only looks at the cache, are not modelled.
- Md5Stream.Hasher.Consume: the hasher is generic in its compression function, which `Md5.ProcessBlock` proves to be the loop of the source.
- The IK and XXfallback handshakes and certificate checks: they compose the same steps.
- Node encoding and decoding: the payload parser is a parameter.
- Buffer capacity management of the frame decoder: it does not change which frames come out.
- What legacy migrations compute, identity caching, pre-keys and the rest of the storage adapter: parameters, JavaScript value probing or easy members.
- The read-only index-to-value map of the processor and its reports: derived from what is modelled.
- Media, audio, stickers, VoIP engine, registration tables and generated wasm-bindgen glue: plumbing or floating point.
