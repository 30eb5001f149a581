/** Which keys a patch list needs, and that processing asks for no others. */
module KeyIds {
  import opened Common
  import opened SyncWire
  import opened PatchHash
  import opened SnapshotHash
  import opened Processor
  import opened Collection

  function IdSet(id: Option<Bytes>): set<Bytes> {
    if id.Some? then {id.value} else {}
  }

  function RecordIds(rs: seq<Record>): set<Bytes> {
    if rs == [] then {} else RecordIds(rs[..|rs| - 1]) + IdSet(rs[|rs| - 1].keyId)
  }

  function MutationIds(ms: seq<Mutation>): set<Bytes> {
    if ms == [] then {}
    else
      var rest, last := ms[..|ms| - 1], ms[|ms| - 1].record;
      MutationIds(rest) + if last.Some? then IdSet(last.value.keyId) else {}
  }

  function PatchIds(ps: seq<Patch>): set<Bytes> {
    if ps == [] then {}
    else PatchIds(ps[..|ps| - 1]) + IdSet(ps[|ps| - 1].keyId) + MutationIds(ps[|ps| - 1].mutations)
  }

  function ListIds(snapshot: Option<Snapshot>, ps: seq<Patch>): set<Bytes> {
    (if snapshot.Some? then IdSet(snapshot.value.keyId) + RecordIds(snapshot.value.records) else {}) + PatchIds(ps)
  }

  method PushUnique(ids: seq<Bytes>, id: Option<Bytes>) returns (out: seq<Bytes>)
    requires NoDuplicates(ids)
    ensures NoDuplicates(out) && Elements(out) == Elements(ids) + IdSet(id)
  {
    out := ids;
    if id.Some? {
      assert id.value in ids <==> id.value in Elements(ids);
      if id.value !in ids {
        ElementsOfSnoc(ids, id.value);
        out := ids + [id.value];
      }
    }
  }

  method PushRecords(ids: seq<Bytes>, rs: seq<Record>) returns (out: seq<Bytes>)
    requires NoDuplicates(ids)
    ensures NoDuplicates(out) && Elements(out) == Elements(ids) + RecordIds(rs)
  {
    out := ids;
    for i := 0 to |rs|
      invariant NoDuplicates(out) && Elements(out) == Elements(ids) + RecordIds(rs[..i])
    {
      assert rs[..i + 1][..i] == rs[..i];
      out := PushUnique(out, rs[i].keyId);
    }
    assert rs[..|rs|] == rs;
  }

  method PushMutations(ids: seq<Bytes>, ms: seq<Mutation>) returns (out: seq<Bytes>)
    requires NoDuplicates(ids)
    ensures NoDuplicates(out) && Elements(out) == Elements(ids) + MutationIds(ms)
  {
    out := ids;
    for i := 0 to |ms|
      invariant NoDuplicates(out) && Elements(out) == Elements(ids) + MutationIds(ms[..i])
    {
      assert ms[..i + 1][..i] == ms[..i];
      if ms[i].record.Some? {
        out := PushUnique(out, ms[i].record.value.keyId);
      }
    }
    assert ms[..|ms|] == ms;
  }

  /** `collect_key_id_refs_from_patch_list`. */
  method CollectKeyIds(snapshot: Option<Snapshot>, ps: seq<Patch>) returns (out: seq<Bytes>)
    ensures NoDuplicates(out) && Elements(out) == ListIds(snapshot, ps)
  {
    out := [];
    if snapshot.Some? {
      out := PushUnique(out, snapshot.value.keyId);
      out := PushRecords(out, snapshot.value.records);
    }
    ghost var base := Elements(out);
    for i := 0 to |ps|
      invariant NoDuplicates(out) && Elements(out) == base + PatchIds(ps[..i])
    {
      assert ps[..i + 1][..i] == ps[..i];
      out := PushUnique(out, ps[i].keyId);
      out := PushMutations(out, ps[i].mutations);
    }
    assert ps[..|ps|] == ps;
  }

  // ---------------------------------------------------------------- nothing else is asked

  ghost predicate AgreeOn(k1: KeyMap, k2: KeyMap, ids: set<Bytes>) {
    forall id :: id in ids ==> (id in k1 <==> id in k2) && (id in k1 ==> k1[id] == k2[id])
  }

  lemma AgreeOnPart(k1: KeyMap, k2: KeyMap, ids: set<Bytes>, part: set<Bytes>)
    requires AgreeOn(k1, k2, ids) && part <= ids
    ensures AgreeOn(k1, k2, part)
  {
  }

  lemma {:induction false} RecordIdIn(rs: seq<Record>, r: Record)
    requires r in rs && r.keyId.Some?
    ensures r.keyId.value in RecordIds(rs)
  {
    if r != rs[|rs| - 1] {
      RecordIdIn(rs[..|rs| - 1], r);
    }
  }

  lemma {:induction false} KeptIn(records: seq<Record>, i: nat, r: Record)
    requires i <= |records| && r in KeptFrom(records, i)
    ensures r in records
    decreases |records| - i
  {
    if r != records[i] {
      KeptIn(records, i + 1, r);
    }
  }

  lemma {:induction false} DecodeRecordsAgree(p: Primitives, rs: seq<Record>, k1: KeyMap, k2: KeyMap, ids: set<Bytes>,
                                              validate: bool)
    requires AgreeOn(k1, k2, ids)
    requires forall r :: r in rs && r.keyId.Some? ==> r.keyId.value in ids
    ensures DecodeRecords(p, rs, k1, validate) == DecodeRecords(p, rs, k2, validate)
  {
    if rs != [] {
      DecodeRecordsAgree(p, rs[..|rs| - 1], k1, k2, ids, validate);
      assert rs[|rs| - 1] in rs;
    }
  }

  lemma SnapshotAgree(p: Primitives, snap: Snapshot, k1: KeyMap, k2: KeyMap, validate: bool, name: string)
    requires AgreeOn(k1, k2, IdSet(snap.keyId) + RecordIds(snap.records))
    ensures ProcessedSnapshot(p, snap, k1, validate, name) == ProcessedSnapshot(p, snap, k2, validate, name)
  {
    var ids := IdSet(snap.keyId) + RecordIds(snap.records);
    forall r | r in KeptFrom(snap.records, 0) && r.keyId.Some? ensures r.keyId.value in ids {
      KeptIn(snap.records, 0, r);
      RecordIdIn(snap.records, r);
    }
    DecodeRecordsAgree(p, KeptFrom(snap.records, 0), k1, k2, ids, validate);
    if snap.keyId.Some? { assert snap.keyId.value in ids; }
  }

  lemma {:induction false} DecodeAllAgree(p: Primitives, ms: seq<Mutation>, k1: KeyMap, k2: KeyMap, validate: bool)
    requires AllKnown(ms) && AgreeOn(k1, k2, MutationIds(ms))
    ensures DecodeAll(p, ms, k1, validate) == DecodeAll(p, ms, k2, validate)
  {
    if ms != [] {
      DecodeAllAgree(p, ms[..|ms| - 1], k1, k2, validate);
    }
  }

  lemma PatchAgree(p: Primitives, patch: Patch, state: HashState, store: Macs, k1: KeyMap, k2: KeyMap, validate: bool,
                   name: string)
    requires AgreeOn(k1, k2, IdSet(patch.keyId) + MutationIds(patch.mutations))
    ensures ProcessedPatch(p, patch, state, store, k1, validate, name)
       == ProcessedPatch(p, patch, state, store, k2, validate, name)
  {
    UnknownOpIff(patch.mutations);
    if AllKnown(patch.mutations) {
      var after := state.(version := patch.version, hash := HashAfter(p.derive, state.hash, patch.mutations, store));
      JudgedAgree(p, patch, after, k1, k2, validate, name, state.Unseeded());
      DecodeAllAgree(p, patch.mutations, k1, k2, validate);
    }
  }

  lemma JudgedAgree(p: Primitives, patch: Patch, state: HashState, k1: KeyMap, k2: KeyMap, validate: bool, name: string,
                    hadNoPrior: bool)
    requires AgreeOn(k1, k2, IdSet(patch.keyId))
    ensures Judged(p, patch, state, k1, validate, name, hadNoPrior)
         == Judged(p, patch, state, k2, validate, name, hadNoPrior)
  {
    if patch.keyId.Some? {
      assert patch.keyId.value in IdSet(patch.keyId);
    }
  }

  lemma {:induction false} PatchIdsCons(ps: seq<Patch>)
    requires ps != []
    ensures PatchIds(ps) == IdSet(ps[0].keyId) + MutationIds(ps[0].mutations) + PatchIds(ps[1..])
  {
    if |ps| == 1 {
      assert ps[..0] == [] && ps[1..] == [];
    } else {
      PatchIdsCons(ps[..|ps| - 1]);
      assert ps[..|ps| - 1][1..] == ps[1..][..|ps| - 2];
    }
  }

  lemma {:induction false} PhaseAgree(p: Primitives, c: Coll, state: HashState, ps: seq<Patch>, h: bool, k1: KeyMap,
                                      k2: KeyMap, validate: bool, name: string)
    requires AgreeOn(k1, k2, PatchIds(ps))
    ensures PatchPhase(p, c, state, ps, h, k1, validate, name) == PatchPhase(p, c, state, ps, h, k2, validate, name)
    decreases |ps|
  {
    if ps != [] {
      PatchIdsCons(ps);
      AgreeOnPart(k1, k2, PatchIds(ps), IdSet(ps[0].keyId) + MutationIds(ps[0].mutations));
      AgreeOnPart(k1, k2, PatchIds(ps), PatchIds(ps[1..]));
      PatchAgree(p, ps[0], state, c.macs, k1, k2, validate, name);
      var r := ProcessedPatch(p, ps[0], state, c.macs, k1, validate, name);
      if r.Ok? {
        var next := r.value.state.(bootstrapped := state.bootstrapped || !h);
        PhaseAgree(p, Committed(c, r.value, next), next, ps[1..], h, k1, k2, validate, name);
      }
    }
  }

  lemma SnapshotPhaseAgree(p: Primitives, c: Coll, pl: PatchList, k1: KeyMap, k2: KeyMap, validate: bool)
    requires AgreeOn(k1, k2, ListIds(pl.snapshot, pl.patches))
    ensures SnapshotPhase(p, c, pl, k1, validate) == SnapshotPhase(p, c, pl, k2, validate)
  {
    if pl.snapshot.Some? {
      SnapshotAgree(p, pl.snapshot.value, k1, k2, validate, pl.name);
    }
  }

  /** The prefetched keys of a list serve it exactly as all the backend's keys would. */
  lemma PrefetchSuffices(p: Primitives, c: Coll, pl: PatchList, k1: KeyMap, k2: KeyMap, validate: bool)
    requires AgreeOn(k1, k2, ListIds(pl.snapshot, pl.patches))
    ensures SnapshotPhase(p, c, pl, k1, validate) == SnapshotPhase(p, c, pl, k2, validate)
    ensures ProcessedList(p, c, pl, k1, validate) == ProcessedList(p, c, pl, k2, validate)
  {
    SnapshotPhaseAgree(p, c, pl, k1, k2, validate);
    var s := SnapshotPhase(p, c, pl, k1, validate);
    if s.Ok? {
      PhaseAgree(p, Cleared(s.value), s.value.state, pl.patches, pl.hasMore, k1, k2, validate, pl.name);
    }
  }
}
