/** What is accepted, over the primitives alone: exactly the records, patches and snapshots whose
    MACs are right, and what comes out of them. */
module Authenticity {
  import opened Common
  import opened LtHash
  import opened SyncWire
  import opened PatchHash
  import opened SnapshotHash
  import opened Processor

  // ---------------------------------------------------------------- one record

  /** A record with a known key, an index, and a value of a ciphertext and a 32-byte MAC. */
  predicate Whole(r: Record, keys: KeyMap) {
    && r.keyId.Some? && r.keyId.value in keys
    && r.index.Some? && r.value.Some? && |r.value.value| >= 48
  }

  /** What its ciphertext opens to. */
  function Plaintext(p: Primitives, r: Record, keys: KeyMap): Option<ActionData>
    requires Whole(r, keys)
  {
    p.open(r.value.value[..|r.value.value| - 32], keys[r.keyId.value])
  }

  /** Its value MAC is that of its ciphertext, operation and key id, and its index MAC that of the
      index inside. */
  predicate Genuine(p: Primitives, op: Op, r: Record, keys: KeyMap)
    requires Whole(r, keys) && Plaintext(p, r, keys).Some?
  {
    var blob, id, plain := r.value.value, r.keyId.value, Plaintext(p, r, keys).value;
    && blob[|blob| - 32..] == p.contentMac(op, blob[..|blob| - 32], id, keys[id])
    && r.index.value == p.indexMac(if plain.index == None then [] else plain.index.value, keys[id])
  }

  predicate Good(p: Primitives, op: Op, r: Record, keys: KeyMap, validate: bool) {
    Whole(r, keys) && Plaintext(p, r, keys).Some? && (validate ==> Genuine(p, op, r, keys))
  }

  /** A record decodes exactly when it is good, to its operation and plaintext. */
  lemma RecordDecodesExactly(p: Primitives, op: Op, r: Record, keys: KeyMap, validate: bool)
    ensures DecodeWith(p, op, r, keys, validate).Ok? <==> Good(p, op, r, keys, validate)
    ensures Good(p, op, r, keys, validate) ==>
      && DecodeWith(p, op, r, keys, validate).value.0 == Decoded(op, Plaintext(p, r, keys).value)
      && DecodeWith(p, op, r, keys, validate).value.1.index == r.index.value
      && DecodeWith(p, op, r, keys, validate).value.1.value == r.value.value[|r.value.value| - 32..]
  {
  }

  // ---------------------------------------------------------------- the records of a patch

  /** The records of a patch in order, each with its operation; one without an operation is a SET. */
  function Carried(ms: seq<Mutation>): seq<(Op, Record)> {
    if ms == [] then []
    else
      var op := if ms[0].operation == Known(Remove) then Remove else Set;
      (if ms[0].record == None then [] else [(op, ms[0].record.value)]) + Carried(ms[1..])
  }

  lemma {:induction false} CarriedSnoc(ms: seq<Mutation>, m: Mutation)
    ensures Carried(ms + [m]) == Carried(ms) + Carried([m])
  {
    if ms == [] {
      assert ms + [m] == [m];
    } else {
      CarriedSnoc(ms[1..], m);
      var all := ms + [m];
      assert all[1..] == ms[1..] + [m] && all[0] == ms[0];
    }
  }

  ghost predicate AllGood(p: Primitives, rs: seq<(Op, Record)>, keys: KeyMap, validate: bool) {
    forall i :: 0 <= i < |rs| ==> Good(p, rs[i].0, rs[i].1, keys, validate)
  }

  /** The operation and the opened plaintext of each record. */
  ghost function Opened(p: Primitives, rs: seq<(Op, Record)>, keys: KeyMap, validate: bool): seq<Decoded>
    requires AllGood(p, rs, keys, validate)
  {
    seq(|rs|, i requires 0 <= i < |rs| && Good(p, rs[i].0, rs[i].1, keys, validate) =>
      Decoded(rs[i].0, Plaintext(p, rs[i].1, keys).value))
  }

  /** A patch decodes exactly when all its records are good, to their plaintexts in order. */
  lemma {:induction false} PatchDecodesExactly(p: Primitives, ms: seq<Mutation>, keys: KeyMap, validate: bool)
    requires AllKnown(ms)
    ensures DecodeAll(p, ms, keys, validate).Ok? <==> AllGood(p, Carried(ms), keys, validate)
    ensures AllGood(p, Carried(ms), keys, validate) ==>
      DecodeAll(p, ms, keys, validate).value.mutations == Opened(p, Carried(ms), keys, validate)
  {
    if ms != [] {
      var rest, m := ms[..|ms| - 1], ms[|ms| - 1];
      assert ms == rest + [m];
      PatchDecodesExactly(p, rest, keys, validate);
      CarriedSnoc(rest, m);
      LastCarried(m);
      if m.record.Some? {
        RecordDecodesExactly(p, OpOf(m), m.record.value, keys, validate);
        GoodSnoc(p, Carried(rest), (OpOf(m), m.record.value), keys, validate);
      } else {
        assert Carried(rest) + [] == Carried(rest);
      }
    }
  }

  lemma LastCarried(m: Mutation)
    requires !m.operation.Unknown?
    ensures Carried([m]) == if m.record.Some? then [(OpOf(m), m.record.value)] else []
  {
    assert [m][1..] == [] && Carried([]) == [];
    assert m.operation.Known? ==> m.operation.op == Set || m.operation.op == Remove;
  }

  lemma GoodSnoc(p: Primitives, rs: seq<(Op, Record)>, r: (Op, Record), keys: KeyMap, validate: bool)
    ensures AllGood(p, rs + [r], keys, validate)
      <==> AllGood(p, rs, keys, validate) && Good(p, r.0, r.1, keys, validate)
    ensures AllGood(p, rs + [r], keys, validate) ==>
      Opened(p, rs + [r], keys, validate)
      == Opened(p, rs, keys, validate) + [Decoded(r.0, Plaintext(p, r.1, keys).value)]
  {
    var all := rs + [r];
    assert all[|rs|] == r && forall i :: 0 <= i < |rs| ==> all[i] == rs[i];
  }

  // ---------------------------------------------------------------- a whole patch

  /** Nothing the hash could be anchored to. */
  predicate Empty(state: HashState) { state.version == 0 && state.hash == EmptyHash() }

  /** The patch comes next, names known operations only, and its patch MAC is right; over an empty
      collection it carries both MACs, unless the collection is marked diverged. */
  ghost predicate PatchFits(p: Primitives, patch: Patch, state: HashState, keys: KeyMap, validate: bool, name: string) {
    && (Empty(state)
        || patch.version == if state.version < 0xFFFF_FFFF_FFFF_FFFF then state.version + 1 else state.version)
    && (forall i :: 0 <= i < |patch.mutations| ==> !patch.mutations[i].operation.Unknown?)
    && (validate && patch.keyId.Some? ==> patch.keyId.value in keys && PatchSigned(p, patch, state, keys, name))
  }

  ghost predicate PatchSigned(p: Primitives, patch: Patch, state: HashState, keys: KeyMap, name: string)
    requires patch.keyId.Some? && patch.keyId.value in keys
  {
    && (patch.patchMac.Some? ==>
          patch.patchMac.value == p.patchMac(patch.snapshotMac, Tails(patch.mutations),
                                             patch.version % 0x1_0000_0000, name, keys[patch.keyId.value]))
    && (Empty(state) ==> patch.patchMac.Some? && (patch.snapshotMac.Some? || state.macMismatchFatal))
  }

  /** The snapshot MAC is there and is not that of the new hash. */
  ghost predicate Diverges(p: Primitives, patch: Patch, hash: Hash, keys: KeyMap, name: string)
    requires patch.keyId.Some? ==> patch.keyId.value in keys
  {
    && patch.keyId.Some? && patch.snapshotMac.Some?
    && patch.snapshotMac.value != p.snapshotMac(hash, patch.version % 0x1_0000_0000, name, keys[patch.keyId.value])
  }

  /** `process_patch` accepts exactly the patches that fit, that repeat no index if they are
      validated, and whose records are good. The outcome is the next version, the new hash, the
      divergence mark and the opened records; a diverged collection stays marked. */
  lemma PatchAcceptedExactly(p: Primitives, patch: Patch, state: HashState, store: Macs, keys: KeyMap, validate: bool,
                             name: string)
    ensures ProcessedPatch(p, patch, state, store, keys, validate, name).Ok? <==>
      && PatchFits(p, patch, state, keys, validate, name)
      && (validate ==> DistinctPerOperation(patch.mutations))
      && AllGood(p, Carried(patch.mutations), keys, validate)
    ensures ProcessedPatch(p, patch, state, store, keys, validate, name).Ok? ==>
      var r := ProcessedPatch(p, patch, state, store, keys, validate, name).value;
      && AllKnown(patch.mutations)
      && r.state.version == patch.version
      && r.state.hash == HashAfter(p.derive, state.hash, patch.mutations, store)
      && r.state.bootstrapped == state.bootstrapped
      && (r.state.macMismatchFatal <==>
            state.macMismatchFatal || (validate && Diverges(p, patch, r.state.hash, keys, name)))
      && r.mutations == Opened(p, Carried(patch.mutations), keys, validate)
  {
    UnknownOpIff(patch.mutations);
    if AllKnown(patch.mutations) {
      PatchDecodesExactly(p, patch.mutations, keys, validate);
      JudgedExactly(p, patch, state, HashAfter(p.derive, state.hash, patch.mutations, store), keys, validate, name);
    }
  }

  lemma JudgedExactly(p: Primitives, patch: Patch, state: HashState, hash: Hash, keys: KeyMap, validate: bool,
                      name: string)
    ensures var after := state.(version := patch.version, hash := hash);
      var r := Judged(p, patch, after, keys, validate, name, Empty(state));
      && (r.Ok? <==> (validate && patch.keyId.Some? ==>
            patch.keyId.value in keys && PatchSigned(p, patch, state, keys, name)))
      && (r.Ok? ==>
            && (validate && patch.keyId.Some? ==> patch.keyId.value in keys)
            && r.value == after.(macMismatchFatal := state.macMismatchFatal
                                 || (validate && Diverges(p, patch, hash, keys, name))))
  {
  }

  // ---------------------------------------------------------------- the tails under the patch MAC

  /** The patch MAC is over the value tails of all mutations in order, whatever their operation. */
  lemma {:induction false} TailsAppend(a: seq<Mutation>, b: seq<Mutation>)
    ensures Tails(a + b) == Tails(a) + Tails(b)
    decreases |b|
  {
    if b == [] {
      assert a + b == a;
    } else {
      TailsAppend(a, b[..|b| - 1]);
      assert (a + b)[..|a + b| - 1] == a + b[..|b| - 1] && (a + b)[|a + b| - 1] == b[|b| - 1];
    }
  }

  lemma TailsOfOne(m: Mutation)
    ensures m.record.None? || m.record.value.value.None? ==> Tails([m]) == []
    ensures m.record.Some? && m.record.value.value.Some? && |m.record.value.value.value| >= 32 ==>
      Tails([m]) == [m.record.value.value.value[|m.record.value.value.value| - 32..]]
  {
    assert [m][..0] == [];
  }

  // ---------------------------------------------------------------- a whole snapshot

  ghost predicate SnapshotSigned(p: Primitives, snap: Snapshot, keys: KeyMap, name: string) {
    && snap.mac.Some? && snap.keyId.Some? && snap.keyId.value in keys
    && snap.mac.value == p.snapshotMac(SumHash(p.derive, Winners(snap.records)), snap.version % 0x1_0000_0000, name,
                                       keys[snap.keyId.value])
  }

  ghost function AsSets(rs: seq<Record>): seq<(Op, Record)> {
    seq(|rs|, i requires 0 <= i < |rs| => (Set, rs[i]))
  }

  /** The records that count, all of them SETs. */
  ghost function Counting(snap: Snapshot): seq<(Op, Record)> { AsSets(KeptFrom(snap.records, 0)) }

  /** `process_snapshot` accepts exactly the snapshots all of whose records have values, whose MAC
      is right if it is validated, and whose counting records are good. */
  lemma SnapshotAcceptedExactly(p: Primitives, snap: Snapshot, keys: KeyMap, validate: bool, name: string)
    ensures ProcessedSnapshot(p, snap, keys, validate, name).Ok? <==>
      && (forall i :: 0 <= i < |snap.records| ==> snap.records[i].value.Some?)
      && (validate ==> SnapshotSigned(p, snap, keys, name))
      && AllGood(p, Counting(snap), keys, validate)
    ensures ProcessedSnapshot(p, snap, keys, validate, name).Ok? ==>
      var r := ProcessedSnapshot(p, snap, keys, validate, name).value;
      && r.state == HashState(snap.version, SumHash(p.derive, Winners(snap.records)), false, false)
      && r.mutations == Opened(p, Counting(snap), keys, validate)
      && PutAll(map[], r.macs) == Winners(snap.records)
  {
    ValuelessIff(snap.records);
    RecordsDecodeExactly(p, KeptFrom(snap.records, 0), keys, validate);
    if ProcessedSnapshot(p, snap, keys, validate, name).Ok? {
      SnapshotSum(p, snap, keys, validate, name);
    }
  }

  lemma {:induction false} ValuelessIff(rs: seq<Record>)
    ensures Valueless(rs) == 0 <==> forall i :: 0 <= i < |rs| ==> rs[i].value.Some?
  {
    if rs != [] {
      ValuelessIff(rs[..|rs| - 1]);
    }
  }

  lemma {:induction false} RecordsDecodeExactly(p: Primitives, rs: seq<Record>, keys: KeyMap, validate: bool)
    ensures DecodeRecords(p, rs, keys, validate).Ok? <==> AllGood(p, AsSets(rs), keys, validate)
    ensures AllGood(p, AsSets(rs), keys, validate) ==>
      DecodeRecords(p, rs, keys, validate).value.0 == Opened(p, AsSets(rs), keys, validate)
  {
    if rs != [] {
      var rest, r := rs[..|rs| - 1], rs[|rs| - 1];
      RecordsDecodeExactly(p, rest, keys, validate);
      RecordDecodesExactly(p, Set, r, keys, validate);
      assert AsSets(rs) == AsSets(rest) + [(Set, r)];
      GoodSnoc(p, AsSets(rest), (Set, r), keys, validate);
    }
  }
}
