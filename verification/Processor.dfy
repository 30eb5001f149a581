/** `process_snapshot` and `process_patch`: what each accepts, what state it produces and
    which MACs it hands to the store. The functions say what must be computed; the methods
    are the source's loops, proved against them. */
module Processor {
  import opened Common
  import opened LtHash
  import opened SyncWire
  import opened PatchHash
  import opened Sorting
  import opened SnapshotHash

  const MAC_DEDUP_SCAN_LIMIT := 64

  datatype PatchResult = PatchResult(state: HashState, mutations: seq<Decoded>, added: seq<MacPair>,
                                     removed: seq<Bytes>)
  datatype SnapshotResult = SnapshotResult(state: HashState, mutations: seq<Decoded>, macs: seq<MacPair>)

  // ---------------------------------------------------------------- decoding

  function KeysFor(keyId: Option<Bytes>, keys: KeyMap): Result<Keys, SyncError> {
    if keyId.None? then Err(MissingKeyId)
    else if keyId.value !in keys then Err(KeyNotFound)
    else Ok(keys[keyId.value])
  }

  function DecodeWith(p: Primitives, op: Op, r: Record, keys: KeyMap, validate: bool)
    : Result<(Decoded, MacPair), SyncError>
  {
    var k := KeysFor(r.keyId, keys);
    if k.Err? then Err(k.error) else DecodeRecord(p, op, r, k.value, r.keyId.value, validate)
  }

  datatype DecodedPatch = DecodedPatch(mutations: seq<Decoded>, added: seq<MacPair>, removed: seq<Bytes>)

  function DecodeStep(p: Primitives, acc: DecodedPatch, m: Mutation, keys: KeyMap, validate: bool)
    : Result<DecodedPatch, SyncError>
    requires !m.operation.Unknown?
  {
    if m.record.None? then Ok(acc)
    else
      var d := DecodeWith(p, OpOf(m), m.record.value, keys, validate);
      if d.Err? then Err(d.error)
      else Ok(DecodedPatch(
        acc.mutations + [d.value.0],
        if OpOf(m).Set? then acc.added + [d.value.1] else acc.added,
        if OpOf(m).Remove? then acc.removed + [d.value.1.index] else acc.removed))
  }

  /** The single decoding pass over a patch; the first failure is the answer. */
  function DecodeAll(p: Primitives, ms: seq<Mutation>, keys: KeyMap, validate: bool): Result<DecodedPatch, SyncError>
    requires AllKnown(ms)
  {
    if ms == [] then Ok(DecodedPatch([], [], []))
    else
      var rest := DecodeAll(p, ms[..|ms| - 1], keys, validate);
      if rest.Err? then rest else DecodeStep(p, rest.value, ms[|ms| - 1], keys, validate)
  }

  /** A patch that decodes hands the store exactly the MACs the hash was folded over, and a
      validated one names only well-formed indexes. */
  lemma {:induction false} DecodedMacs(p: Primitives, ms: seq<Mutation>, keys: KeyMap, validate: bool)
    requires AllKnown(ms) && DecodeAll(p, ms, keys, validate).Ok?
    ensures DecodeAll(p, ms, keys, validate).value.added == Added(ms)
    ensures DecodeAll(p, ms, keys, validate).value.removed == Removed(ms)
    ensures Complete(ms) && (validate ==> WellIndexed(ms))
  {
    if ms != [] {
      var rest, m := ms[..|ms| - 1], ms[|ms| - 1];
      DecodedMacs(p, rest, keys, validate);
      DecodedMac(p, DecodeAll(p, rest, keys, validate).value, m, keys, validate);
    }
  }

  /** One decoded mutation adds to each list what the hash folds for it. */
  lemma DecodedMac(p: Primitives, acc: DecodedPatch, m: Mutation, keys: KeyMap, validate: bool)
    requires !m.operation.Unknown? && DecodeStep(p, acc, m, keys, validate).Ok?
    ensures var next := DecodeStep(p, acc, m, keys, validate).value;
      && next.added == acc.added +
         (if OpOf(m).Set? && IndexOf(m).Some? && ValueOf(m).Some?
          then [MacPair(IndexOf(m).value, ValueMacTail(ValueOf(m).value))]
          else [])
      && next.removed == acc.removed + (if OpOf(m).Remove? && IndexOf(m).Some? then [IndexOf(m).value] else [])
    ensures CompleteOne(m) && (validate && IndexOf(m).Some? ==> |IndexOf(m).value| == 32)
  {
  }

  // ---------------------------------------------------------------- process_snapshot

  function DecodeRecords(p: Primitives, rs: seq<Record>, keys: KeyMap, validate: bool)
    : Result<(seq<Decoded>, seq<MacPair>), SyncError>
  {
    if rs == [] then Ok(([], []))
    else
      var rest := DecodeRecords(p, rs[..|rs| - 1], keys, validate);
      if rest.Err? then rest
      else
        var d := DecodeWith(p, Set, rs[|rs| - 1], keys, validate);
        if d.Err? then Err(d.error) else Ok((rest.value.0 + [d.value.0], rest.value.1 + [d.value.1]))
  }

  ghost function SnapshotMacVerdict(p: Primitives, snap: Snapshot, hash: Hash, keys: KeyMap, name: string)
    : Option<SyncError>
  {
    if snap.mac.None? || snap.keyId.None? then Some(SnapshotMacMissing)
    else if snap.keyId.value !in keys then Some(KeyNotFound)
    else if GenerateSnapshotMac(p, hash, snap.version, name, keys[snap.keyId.value]) != snap.mac.value
    then Some(SnapshotMacMismatch)
    else None
  }

  ghost function ProcessedSnapshot(p: Primitives, snap: Snapshot, keys: KeyMap, validate: bool, name: string)
    : Result<SnapshotResult, SyncError>
  {
    var hash := SumHash(p.derive, Winners(snap.records));
    if Valueless(snap.records) > 0 then Err(MissingValueBlob)
    else
      var verdict := if validate then SnapshotMacVerdict(p, snap, hash, keys, name) else None;
      if verdict.Some? then Err(verdict.value)
      else
        var d := DecodeRecords(p, KeptFrom(snap.records, 0), keys, validate);
        if d.Err? then Err(d.error)
        else Ok(SnapshotResult(HashState(snap.version, hash, false, false), d.value.0, d.value.1))
  }

  lemma {:induction false} DecodedEntries(p: Primitives, rs: seq<Record>, keys: KeyMap, validate: bool)
    requires DecodeRecords(p, rs, keys, validate).Ok?
    ensures PutAll(map[], DecodeRecords(p, rs, keys, validate).value.1) == Winners(rs)
  {
    if rs != [] {
      var rest, last := rs[..|rs| - 1], rs[|rs| - 1];
      DecodedEntries(p, rest, keys, validate);
      var before, all := DecodeRecords(p, rest, keys, validate).value.1, DecodeRecords(p, rs, keys, validate).value.1;
      assert all[..|all| - 1] == before;
      LastMapSnoc(Entries(rest), EntryOf(last));
    }
  }

  /** An accepted snapshot stores exactly the rows its hash is the sum of. */
  lemma SnapshotSum(p: Primitives, snap: Snapshot, keys: KeyMap, validate: bool, name: string)
    requires ProcessedSnapshot(p, snap, keys, validate, name).Ok?
    ensures var r := ProcessedSnapshot(p, snap, keys, validate, name).value;
      && PutAll(map[], r.macs) == Winners(snap.records)
      && IsSumOf(p.derive, r.state.hash, PutAll(map[], r.macs))
      && r.state.version == snap.version
  {
    DecodedEntries(p, KeptFrom(snap.records, 0), keys, validate);
    KeptDescribeWinners(snap.records, 0);
    assert snap.records[0..] == snap.records;
    SumHashIsSum(p.derive, Winners(snap.records), SumHash(p.derive, Winners(snap.records)));
  }

  method ProcessSnapshot(p: Primitives, snap: Snapshot, keys: KeyMap, validate: bool, name: string)
    returns (r: Result<SnapshotResult, SyncError>)
    ensures r == ProcessedSnapshot(p, snap, keys, validate, name)
  {
    var hash, folded, valueless := UpdateHashFromRecords(p.derive, snap.records);
    if valueless > 0 {
      return Err(MissingValueBlob);
    }
    if validate {
      if snap.mac.None? || snap.keyId.None? {
        return Err(SnapshotMacMissing);
      }
      if snap.keyId.value !in keys {
        return Err(KeyNotFound);
      }
      if GenerateSnapshotMac(p, hash, snap.version, name, keys[snap.keyId.value]) != snap.mac.value {
        return Err(SnapshotMacMismatch);
      }
    }
    var winners := LastRecordPerIndex(snap.records);
    var decoded := DecodeWinners(p, winners, keys, validate);
    if decoded.Err? {
      return Err(decoded.error);
    }
    r := Ok(SnapshotResult(HashState(snap.version, hash, false, false), decoded.value.0, decoded.value.1));
  }

  /** The decoding loop of `process_snapshot`, which stops at the first error. */
  method DecodeWinners(p: Primitives, winners: seq<Record>, keys: KeyMap, validate: bool)
    returns (r: Result<(seq<Decoded>, seq<MacPair>), SyncError>)
    ensures r == DecodeRecords(p, winners, keys, validate)
  {
    var mutations: seq<Decoded>, macs: seq<MacPair> := [], [];
    for i := 0 to |winners|
      invariant DecodeRecords(p, winners[..i], keys, validate) == Ok((mutations, macs))
    {
      assert winners[..i + 1][..i] == winners[..i];
      var d := DecodeWith(p, Set, winners[i], keys, validate);
      if d.Err? {
        DecodeRecordsStops(p, winners, i + 1, keys, validate);
        return Err(d.error);
      }
      mutations, macs := mutations + [d.value.0], macs + [d.value.1];
    }
    assert winners[..|winners|] == winners;
    return Ok((mutations, macs));
  }

  lemma {:induction false} DecodeRecordsStops(p: Primitives, rs: seq<Record>, i: nat, keys: KeyMap, validate: bool)
    requires i <= |rs| && DecodeRecords(p, rs[..i], keys, validate).Err?
    ensures DecodeRecords(p, rs, keys, validate) == DecodeRecords(p, rs[..i], keys, validate)
  {
    if i == |rs| {
      assert rs[..i] == rs;
    } else {
      assert rs[..|rs| - 1][..i] == rs[..i];
      DecodeRecordsStops(p, rs[..|rs| - 1], i, keys, validate);
    }
  }

  // ---------------------------------------------------------------- process_patch

  /** The first operation code this side does not know. */
  function UnknownOp(ms: seq<Mutation>): Option<int> {
    if ms == [] then None
    else
      var rest := UnknownOp(ms[..|ms| - 1]);
      if rest.Some? then rest
      else if ms[|ms| - 1].operation.Unknown? then Some(ms[|ms| - 1].operation.code) else None
  }

  lemma {:induction false} UnknownOpIff(ms: seq<Mutation>)
    ensures UnknownOp(ms).None? <==> AllKnown(ms)
  {
    if ms != [] {
      UnknownOpIff(ms[..|ms| - 1]);
      assert AllKnown(ms) <==> AllKnown(ms[..|ms| - 1]) && !ms[|ms| - 1].operation.Unknown? by {
        if AllKnown(ms[..|ms| - 1]) && !ms[|ms| - 1].operation.Unknown? {
          forall i | 0 <= i < |ms| ensures !ms[i].operation.Unknown? {
            if i < |ms| - 1 { assert ms[..|ms| - 1][i] == ms[i]; }
          }
        }
      }
    }
  }

  /** `validate_patch_macs`: an error, or whether the aggregate hash has diverged. */
  function ValidatedMacs(p: Primitives, patch: Patch, state: HashState, keys: Keys, name: string, hadNoPrior: bool)
    : Result<bool, SyncError>
  {
    if patch.patchMac.Some? && GeneratePatchMac(p, patch, patch.version, name, keys) != patch.patchMac.value
    then Err(PatchMacMismatch)
    else if patch.patchMac.None? && hadNoPrior then Err(PatchMacMismatch)
    else if state.macMismatchFatal then Ok(false)
    else if patch.snapshotMac.Some? then
      Ok(GenerateSnapshotMac(p, state.hash, state.version, name, keys) != patch.snapshotMac.value)
    else if hadNoPrior then Err(PatchSnapshotMacMismatch)
    else Ok(false)
  }

  function NextVersion(v: nat): nat {
    if v < 0xFFFF_FFFF_FFFF_FFFF then v + 1 else v
  }

  /** State after the two aggregate MACs have been looked at. */
  function Judged(p: Primitives, patch: Patch, state: HashState, keys: KeyMap, validate: bool, name: string,
                  hadNoPrior: bool)
    : Result<HashState, SyncError>
  {
    if !validate || patch.keyId.None? then Ok(state)
    else if patch.keyId.value !in keys then Err(KeyNotFound)
    else
      var v := ValidatedMacs(p, patch, state, keys[patch.keyId.value], name, hadNoPrior);
      if v.Err? then Err(v.error)
      else Ok(if v.value then state.(macMismatchFatal := true) else state)
  }

  ghost function ProcessedPatch(p: Primitives, patch: Patch, state: HashState, store: Macs, keys: KeyMap,
                                validate: bool, name: string)
    : Result<PatchResult, SyncError>
  {
    var ms := patch.mutations;
    if !state.Unseeded() && patch.version != NextVersion(state.version) then Err(PatchVersionMismatch)
    else if UnknownOp(ms).Some? then Err(UnsupportedOperation(UnknownOp(ms).value))
    else
      UnknownOpIff(ms);
      var hashed := state.(version := patch.version, hash := HashAfter(p.derive, state.hash, ms, store));
      Decided(p, ms, Judged(p, patch, hashed, keys, validate, name, state.Unseeded()), keys, validate)
  }

  /** What is left once the MACs have been judged: duplicates, then the decoding pass. */
  ghost function Decided(p: Primitives, ms: seq<Mutation>, judged: Result<HashState, SyncError>, keys: KeyMap,
                         validate: bool)
    : Result<PatchResult, SyncError>
    requires AllKnown(ms)
  {
    if judged.Err? then Err(judged.error)
    else if validate && !DistinctPerOperation(ms) then Err(DuplicateIndexInPatch)
    else
      var d := DecodeAll(p, ms, keys, validate);
      if d.Err? then Err(d.error)
      else Ok(PatchResult(judged.value, d.value.mutations, d.value.added, d.value.removed))
  }

  /** An accepted patch carries whole records and moves the version by exactly one unless it
      seeds the collection; a validated one also names each index at most once per operation. */
  lemma AcceptedPatch(p: Primitives, patch: Patch, state: HashState, store: Macs, keys: KeyMap, validate: bool,
                      name: string)
    requires ProcessedPatch(p, patch, state, store, keys, validate, name).Ok?
    ensures var r := ProcessedPatch(p, patch, state, store, keys, validate, name).value;
      && Complete(patch.mutations)
      && (validate ==> Regular(patch.mutations))
      && r.added == Added(patch.mutations) && r.removed == Removed(patch.mutations)
      && r.state.hash == HashAfter(p.derive, state.hash, patch.mutations, store)
      && r.state.version == patch.version && r.state.bootstrapped == state.bootstrapped
      && (!state.Unseeded() ==> r.state.version == NextVersion(state.version))
      && (state.macMismatchFatal ==> r.state.macMismatchFatal)
  {
    UnknownOpIff(patch.mutations);
    DecodedMacs(p, patch.mutations, keys, validate);
  }

  // ---------------------------------------------------------------- batched lookup

  /** The well-formed index MACs a patch mentions, whatever the operation. */
  function IndexMacs(ms: seq<Mutation>): set<Bytes> {
    set i | 0 <= i < |ms| && IndexOf(ms[i]).Some? && |IndexOf(ms[i]).value| == 32 :: IndexOf(ms[i]).value
  }

  lemma IndexMacsSnoc(ms: seq<Mutation>, m: Mutation)
    ensures IndexMacs(ms + [m]) == IndexMacs(ms)
         + (if IndexOf(m).Some? && |IndexOf(m).value| == 32 then {IndexOf(m).value} else {})
  {
    var all := ms + [m];
    forall x | x in IndexMacs(ms) ensures x in IndexMacs(all) {
      var i :| 0 <= i < |ms| && IndexOf(ms[i]) == Some(x) && |x| == 32;
      assert all[i] == ms[i];
    }
    assert all[|ms|] == m;
  }

  function Itself(mac: Bytes): Bytes { mac }

  /** `collect_unique_index_macs`: linear scan for small patches, sort and dedup above. */
  method CollectUniqueIndexMacs(ms: seq<Mutation>) returns (out: seq<Bytes>)
    ensures NoDuplicates(out)
    ensures Elements(out) == IndexMacs(ms)
  {
    if |ms| <= MAC_DEDUP_SCAN_LIMIT {
      out := [];
      for i := 0 to |ms|
        invariant NoDuplicates(out) && Elements(out) == IndexMacs(ms[..i])
      {
        assert ms[..i + 1] == ms[..i] + [ms[i]];
        IndexMacsSnoc(ms[..i], ms[i]);
        if IndexOf(ms[i]).Some? && |IndexOf(ms[i]).value| == 32 {
          var mac := IndexOf(ms[i]).value;
          assert mac in out <==> mac in Elements(out);
          if mac !in out {
            ElementsOfSnoc(out, mac);
            out := out + [mac];
          }
        }
      }
      assert ms[..|ms|] == ms;
    } else {
      var macs := [];
      for i := 0 to |ms|
        invariant Elements(macs) == IndexMacs(ms[..i])
      {
        assert ms[..i + 1] == ms[..i] + [ms[i]];
        IndexMacsSnoc(ms[..i], ms[i]);
        if IndexOf(ms[i]).Some? && |IndexOf(ms[i]).value| == 32 {
          ElementsOfSnoc(macs, IndexOf(ms[i]).value);
          macs := macs + [IndexOf(ms[i]).value];
        }
      }
      assert ms[..|ms|] == ms;
      StableSortSorts(macs, Itself);
      out := Dedup(StableSort(macs, Itself));
    }
  }

  /** `Vec::dedup` removes only neighbours; sortedness makes that all duplicates. */
  method Dedup(sorted: seq<Bytes>) returns (out: seq<Bytes>)
    requires Sorted(sorted, Itself)
    ensures NoDuplicates(out)
    ensures Elements(out) == Elements(sorted)
  {
    out := [];
    for i := 0 to |sorted|
      invariant Elements(out) == Elements(sorted[..i]) && NoDuplicates(out)
      invariant i > 0 ==> out != [] && out[|out| - 1] == sorted[i - 1]
    {
      assert sorted[..i + 1] == sorted[..i] + [sorted[i]];
      ElementsOfSnoc(sorted[..i], sorted[i]);
      if i == 0 || out[|out| - 1] != sorted[i] {
        if sorted[i] in out {
          RepeatIsNeighbour(sorted, i);
          assert false;
        }
        ElementsOfSnoc(out, sorted[i]);
        out := out + [sorted[i]];
      }
    }
    assert sorted[..|sorted|] == sorted;
  }

  lemma RepeatIsNeighbour(sorted: seq<Bytes>, i: nat)
    requires Sorted(sorted, Itself) && i < |sorted| && sorted[i] in Elements(sorted[..i])
    ensures i > 0 && sorted[i - 1] == sorted[i]
  {
    var n :| 0 <= n < i && sorted[n] == sorted[i];
    if n < i - 1 {
      assert LexLeq(Itself(sorted[n]), Itself(sorted[i - 1])) && LexLeq(Itself(sorted[i - 1]), Itself(sorted[i]));
      LexTotal(sorted[i - 1], sorted[i]);
    }
  }

  function Batch(store: Macs, macs: seq<Bytes>): Macs {
    map k | k in macs && k in store :: store[k]
  }

  /** `get_mutation_macs`: one lookup per requested index. */
  method GetMutationMacs(store: Macs, macs: seq<Bytes>) returns (out: Macs)
    ensures out == Batch(store, macs)
  {
    out := map[];
    for i := 0 to |macs|
      invariant out == Batch(store, macs[..i])
    {
      assert macs[..i + 1] == macs[..i] + [macs[i]];
      if macs[i] in store {
        out := out[macs[i] := store[macs[i]]];
      }
    }
    assert macs[..|macs|] == macs;
  }

  /** The closure handed to the hash answers every mutation as a direct read would; a
      malformed MAC is a miss in both. */
  lemma {:induction false} BatchedScan(ms: seq<Mutation>, suppressed: set<Bytes>, store: Macs, macs: seq<Bytes>,
                                       useOverlay: bool)
    requires AllKnown(ms) && IndexMacs(ms) <= Elements(macs)
    ensures forall i :: 0 <= i < |ms| && IndexOf(ms[i]).Some? ==>
      Lookup(Batch(store, macs), IndexOf(ms[i]).value) == Lookup(store, IndexOf(ms[i]).value)
    ensures ScanOf(ms, suppressed, Batch(store, macs), useOverlay) == ScanOf(ms, suppressed, store, useOverlay)
  {
    if ms != [] {
      var rest, m := ms[..|ms| - 1], ms[|ms| - 1];
      assert ms == rest + [m];
      IndexMacsSnoc(rest, m);
      BatchedScan(rest, suppressed, store, macs, useOverlay);
      if IndexOf(m).Some? && |IndexOf(m).value| == 32 {
        assert IndexOf(m).value in Elements(macs);
      }
    }
  }

  // ---------------------------------------------------------------- the loops

  /** The indexes a patch in index mode removes: its SETs of them subtract nothing. */
  method SuppressedIndexes(ms: seq<Mutation>) returns (r: seq<Bytes>)
    requires AllKnown(ms)
    ensures Elements(r) == Suppressed(ms)
  {
    r := [];
    if IndexMode(ms) {
      for i := 0 to |ms|
        invariant Elements(r) == Indexes(ms[..i], Remove)
      {
        assert ms[..i + 1] == ms[..i] + [ms[i]];
        IndexesSnoc(ms[..i], ms[i], Remove);
        if OpOf(ms[i]).Remove? {
          ElementsOfSnoc(r, IndexOf(ms[i]).value);
          r := r + [IndexOf(ms[i]).value];
        }
      }
      assert ms[..|ms|] == ms;
    }
  }

  /** The scan inside `update_hash`, answering previous values from `db`. */
  method ScanMutations(ms: seq<Mutation>, db: Macs, useOverlay: bool) returns (s: Scan)
    requires AllKnown(ms)
    ensures s == ScanOf(ms, Suppressed(ms), db, useOverlay)
  {
    var removedInPatch := SuppressedIndexes(ms);
    s := Scan([], [], map[], false);
    for i := 0 to |ms|
      invariant s == ScanOf(ms[..i], Elements(removedInPatch), db, useOverlay)
    {
      assert ms[..i + 1][..i] == ms[..i];
      var m := ms[i];
      var overlay := s.overlay;
      if OpOf(m).Set? && ValueOf(m).Some? {
        s := s.(added := s.added + [ValueMacTail(ValueOf(m).value)]);
      }
      if IndexOf(m).Some? {
        var index := IndexOf(m).value;
        assert index in removedInPatch <==> index in Elements(removedInPatch);
        if !(OpOf(m).Set? && index in removedInPatch) {
          var prev := if useOverlay && OpOf(m).Set? && index in overlay then Some(overlay[index])
                      else Lookup(db, index);
          if OpOf(m).Set? && ValueOf(m).Some? {
            s := s.(overlay := overlay[index := ValueMacTail(ValueOf(m).value)]);
          }
          if prev.Some? {
            s := s.(removed := s.removed + [prev.value]);
          } else if OpOf(m).Remove? {
            s := s.(missingRemove := true);
          }
        }
      }
    }
    assert ms[..|ms|] == ms;
  }

  /** `update_hash`. */
  method UpdateHash(derive: Bytes -> Hash, hash: Hash, ms: seq<Mutation>, db: Macs, useOverlay: bool)
    returns (r: Hash, missingRemove: bool)
    requires AllKnown(ms)
    ensures var s := ScanOf(ms, Suppressed(ms), db, useOverlay);
      r == Folded(derive, hash, s.removed, s.added) && missingRemove == s.missingRemove
  {
    var s := ScanMutations(ms, db, useOverlay);
    var base := new Lane[64](i requires 0 <= i < 64 => hash[i]);
    assert base[..] == hash;
    SubtractThenAddInPlace(derive, base, s.removed, s.added);
    r, missingRemove := base[..], s.missingRemove;
  }

  /** `detect_duplicate_index_in_patch`: one seen-list per operation. */
  method DetectDuplicateIndex(ms: seq<Mutation>) returns (duplicate: bool)
    requires AllKnown(ms)
    ensures duplicate <==> !DistinctPerOperation(ms)
  {
    var seenSet: seq<Bytes>, seenRemove: seq<Bytes> := [], [];
    for i := 0 to |ms|
      invariant DistinctPerOperation(ms[..i])
      invariant Elements(seenSet) == Indexes(ms[..i], Set)
      invariant Elements(seenRemove) == Indexes(ms[..i], Remove)
    {
      var m := ms[i];
      assert ms[..i + 1] == ms[..i] + [m];
      IndexesSnoc(ms[..i], m, Set);
      IndexesSnoc(ms[..i], m, Remove);
      if IndexOf(m).Some? {
        var index := IndexOf(m).value;
        var seen := if OpOf(m).Set? then seenSet else seenRemove;
        assert index in seen <==> index in Elements(seen);
        if index in seen {
          var n :| 0 <= n < i && OpOf(ms[..i][n]) == OpOf(m)
                && IndexOf(ms[..i][n]).Some? && IndexOf(ms[..i][n]).value == index;
          assert SameOperation(ms[n], ms[i]);
          return true;
        }
        ElementsOfSnoc(seen, index);
        if OpOf(m).Set? { seenSet := seenSet + [index]; } else { seenRemove := seenRemove + [index]; }
      }
      DistinctGrows(ms[..i], m);
    }
    assert ms[..|ms|] == ms;
    duplicate := false;
  }

  lemma DistinctGrows(ms: seq<Mutation>, m: Mutation)
    requires AllKnown(ms) && !m.operation.Unknown? && DistinctPerOperation(ms)
    requires IndexOf(m).Some? ==> IndexOf(m).value !in Indexes(ms, OpOf(m))
    ensures DistinctPerOperation(ms + [m])
  {
    var all := ms + [m];
    forall i, j | 0 <= i < j < |all| && SameOperation(all[i], all[j]) && IndexOf(all[i]).Some?
      ensures IndexOf(all[i]) != IndexOf(all[j])
    {
      if j < |ms| {
        assert all[i] == ms[i] && all[j] == ms[j];
      } else {
        assert all[i] == ms[i] && all[j] == m;
      }
    }
  }

  /** `process_patch`, reading previous values through the batched map. */
  method ProcessPatch(p: Primitives, patch: Patch, state: HashState, ghost store: Macs, db: Macs,
                      ghost macs: seq<Bytes>, keys: KeyMap, validate: bool, name: string)
    returns (r: Result<PatchResult, SyncError>)
    requires db == Batch(store, macs) && IndexMacs(patch.mutations) <= Elements(macs)
    ensures r == ProcessedPatch(p, patch, state, store, keys, validate, name)
  {
    var ms := patch.mutations;
    var hadNoPrior := state.Unseeded();
    if !hadNoPrior && patch.version != NextVersion(state.version) {
      return Err(PatchVersionMismatch);
    }
    var unknown := UnknownOp(ms);
    if unknown.Some? {
      return Err(UnsupportedOperation(unknown.value));
    }
    UnknownOpIff(ms);
    var hash, missingRemove := UpdateHash(p.derive, state.hash, ms, db, true);
    BatchedScan(ms, Suppressed(ms), store, macs, true);
    var hashed := state.(version := patch.version, hash := hash);
    var judged := Judged(p, patch, hashed, keys, validate, name, hadNoPrior);
    if judged.Err? {
      return Err(judged.error);
    }
    if validate {
      var duplicate := DetectDuplicateIndex(ms);
      if duplicate {
        return Err(DuplicateIndexInPatch);
      }
    }
    var d := DecodeLoop(p, ms, keys, validate);
    if d.Err? {
      return Err(d.error);
    }
    r := Ok(PatchResult(judged.value, d.value.mutations, d.value.added, d.value.removed));
  }

  method DecodeLoop(p: Primitives, ms: seq<Mutation>, keys: KeyMap, validate: bool)
    returns (r: Result<DecodedPatch, SyncError>)
    requires AllKnown(ms)
    ensures r == DecodeAll(p, ms, keys, validate)
  {
    var acc := DecodedPatch([], [], []);
    for i := 0 to |ms|
      invariant DecodeAll(p, ms[..i], keys, validate) == Ok(acc)
    {
      assert ms[..i + 1][..i] == ms[..i];
      var step := DecodeStep(p, acc, ms[i], keys, validate);
      if step.Err? {
        DecodeAllStops(p, ms, i + 1, keys, validate);
        return step;
      }
      acc := step.value;
    }
    assert ms[..|ms|] == ms;
    r := Ok(acc);
  }

  lemma {:induction false} DecodeAllStops(p: Primitives, ms: seq<Mutation>, i: nat, keys: KeyMap, validate: bool)
    requires AllKnown(ms) && i <= |ms| && DecodeAll(p, ms[..i], keys, validate).Err?
    ensures DecodeAll(p, ms, keys, validate) == DecodeAll(p, ms[..i], keys, validate)
  {
    if i == |ms| {
      assert ms[..i] == ms;
    } else {
      assert ms[..|ms| - 1][..i] == ms[..i];
      DecodeAllStops(p, ms[..|ms| - 1], i, keys, validate);
    }
  }
}
