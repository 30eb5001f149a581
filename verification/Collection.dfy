/** One collection under `process_patch_list`: the rows and the state it persists, and what
    every call keeps. */
module Collection {
  import opened Common
  import opened LtHash
  import opened SyncWire
  import opened PatchHash
  import opened PatchBalance
  import opened Processor
  import opened Acceptance

  datatype ListError = Conflict(hasMore: bool) | Fatal(code: nat, text: string) | Retry(code: nat, text: string)

  datatype PatchList = PatchList(
    name: string, hasMore: bool, patches: seq<Patch>,
    snapshot: Option<Snapshot>, snapshotRef: Option<Bytes>, error: Option<ListError>)

  /** What the store keeps for a collection: its version record, if any, and its rows. */
  datatype Coll = Coll(state: Option<HashState>, macs: Macs)

  function Held(c: Coll): HashState {
    if c.state.Some? then c.state.value else DefaultState()
  }

  /** The stored hash is the sum of the stored rows, unless there is nothing to anchor to. */
  ghost predicate Sound(p: Primitives, c: Coll) {
    Held(c).Unseeded() || IsSumOf(p.derive, Held(c).hash, c.macs)
  }

  predicate SnapshotIsStale(persisted: nat, incoming: nat) {
    persisted > 0 && incoming <= persisted
  }

  datatype Step = Step(coll: Coll, state: HashState, mutations: seq<Decoded>)
  datatype Outcome = Outcome(mutations: seq<Decoded>, state: HashState, retry: bool)

  predicate SnapshotApplies(c: Coll, pl: PatchList) {
    pl.snapshot.Some? && !SnapshotIsStale(Held(c).version, pl.snapshot.value.version)
  }

  ghost function SnapshotPhase(p: Primitives, c: Coll, pl: PatchList, keys: KeyMap, validate: bool)
    : Result<Step, SyncError>
  {
    if !SnapshotApplies(c, pl) then Ok(Step(c, Held(c), []))
    else
      var r := ProcessedSnapshot(p, pl.snapshot.value, keys, validate, pl.name);
      if r.Err? then Err(r.error)
      else
        var state := r.value.state.(bootstrapped := !pl.hasMore);
        Ok(Step(Coll(Some(state), PutAll(map[], r.value.macs)), state, r.value.mutations))
  }

  /** The rows and record after one accepted patch. */
  function Committed(c: Coll, r: PatchResult, state: HashState): Coll {
    Coll(Some(state), PutAll(DeleteAll(c.macs, r.removed), r.added))
  }

  /** What a run of patches ends with: the collection, and the state and mutations or the refusal. */
  type PhaseResult = (Coll, Result<(HashState, seq<Decoded>), SyncError>)

  ghost function Prepend(ms: seq<Decoded>, r: PhaseResult): PhaseResult {
    if r.1.Err? then r else (r.0, Ok((r.1.value.0, ms + r.1.value.1)))
  }

  /** The patch loop. A refused patch ends the call; what earlier patches committed stays. */
  ghost function PatchPhase(p: Primitives, c: Coll, state: HashState, patches: seq<Patch>, hasMore: bool, keys: KeyMap,
                            validate: bool, name: string)
    : PhaseResult
    decreases |patches|
  {
    if patches == [] then (c, Ok((state, [])))
    else
      var r := ProcessedPatch(p, patches[0], state, c.macs, keys, validate, name);
      if r.Err? then (c, Err(r.error))
      else
        var next := r.value.state.(bootstrapped := state.bootstrapped || !hasMore);
        Prepend(r.value.mutations,
                PatchPhase(p, Committed(c, r.value, next), next, patches[1..], hasMore, keys, validate, name))
  }

  /** A list without patches records its state when it brought a snapshot or ends a bootstrap. */
  predicate CloseRecords(before: Coll, pl: PatchList) {
    var hadBaseline := before.state.Some? && before.state.value.HasBaseline();
    pl.patches == [] && (pl.snapshot.Some? || (!pl.hasMore && pl.snapshotRef.None? && !hadBaseline && pl.error.None?))
  }

  function Closed(pl: PatchList, state: HashState): HashState {
    state.(bootstrapped := state.bootstrapped || !pl.hasMore)
  }

  function Closing(c: Coll, before: Coll, pl: PatchList, state: HashState): (Coll, HashState) {
    if CloseRecords(before, pl) then (c.(state := Some(Closed(pl, state))), Closed(pl, state)) else (c, state)
  }

  predicate NeedsRefetch(state: HashState, patches: seq<Patch>) {
    state.Unseeded() && patches != [] && patches[0].version != 1
  }

  /** Rows left over from before a reset are wiped before the genesis patch. */
  function Cleared(s: Step): Coll {
    if s.state.Unseeded() then s.coll.(macs := map[]) else s.coll
  }

  ghost function ProcessedList(p: Primitives, c: Coll, pl: PatchList, keys: KeyMap, validate: bool)
    : (Coll, Result<Outcome, SyncError>)
  {
    var s := SnapshotPhase(p, c, pl, keys, validate);
    if s.Err? then (c, Err(s.error))
    else if NeedsRefetch(s.value.state, pl.patches) then
      (s.value.coll, Ok(Outcome(s.value.mutations, s.value.state, true)))
    else
      var r := PatchPhase(p, Cleared(s.value), s.value.state, pl.patches, pl.hasMore, keys, validate, pl.name);
      if r.1.Err? then (r.0, Err(r.1.error))
      else
        var end := Closing(r.0, c, pl, r.1.value.0);
        (end.0, Ok(Outcome(s.value.mutations + r.1.value.1, end.1, false)))
  }

  // ---------------------------------------------------------------- the sum law over a call

  /** Every patch is refused in any case or harmless: the exact condition of
      `Acceptance.SafeExactly`. */
  ghost predicate AllSafe(patches: seq<Patch>, validate: bool) {
    forall i :: 0 <= i < |patches| ==> Safe(patches[i].mutations, validate)
  }

  lemma {:induction false} PatchPhaseKeepsSum(p: Primitives, c: Coll, state: HashState, patches: seq<Patch>,
                                              hasMore: bool, keys: KeyMap, validate: bool, name: string)
    requires IsSumOf(p.derive, state.hash, c.macs) && AllSafe(patches, validate)
    requires c.state == Some(state) || Sound(p, c)
    ensures var r := PatchPhase(p, c, state, patches, hasMore, keys, validate, name);
      Sound(p, r.0) && (r.1.Ok? ==> IsSumOf(p.derive, r.1.value.0.hash, r.0.macs))
    decreases |patches|
  {
    if patches != [] {
      var r := ProcessedPatch(p, patches[0], state, c.macs, keys, validate, name);
      if r.Ok? {
        SafeKeeps(p, patches[0], state, c.macs, keys, validate, name);
        var next := r.value.state.(bootstrapped := state.bootstrapped || !hasMore);
        assert forall i :: 0 <= i < |patches[1..]| ==> patches[1..][i] == patches[i + 1];
        PatchPhaseKeepsSum(p, Committed(c, r.value, next), next, patches[1..], hasMore, keys, validate, name);
      }
    }
  }

  lemma EmptySum(derive: Bytes -> Hash)
    ensures IsSumOf(derive, EmptyHash(), map[])
  {
  }

  /** Every call leaves the law standing, whether it succeeds, asks for a refetch or stops
      at a patch it refuses. */
  lemma ListKeepsSound(p: Primitives, c: Coll, pl: PatchList, keys: KeyMap, validate: bool)
    requires Sound(p, c) && AllSafe(pl.patches, validate)
    ensures Sound(p, ProcessedList(p, c, pl, keys, validate).0)
  {
    var s := SnapshotPhase(p, c, pl, keys, validate);
    if s.Ok? {
      if SnapshotApplies(c, pl) {
        SnapshotSum(p, pl.snapshot.value, keys, validate, pl.name);
      }
      var st, c1 := s.value.state, s.value.coll;
      EmptySum(p.derive);
      if !NeedsRefetch(st, pl.patches) {
        assert Held(c1) == st;
        PatchPhaseKeepsSum(p, Cleared(s.value), st, pl.patches, pl.hasMore, keys, validate, pl.name);
      }
    }
  }

  /** A list of one patch over a collection at version 1. */
  function OnePatchList(ms: seq<Mutation>): PatchList { PatchList("", false, [PatchOf(ms)], None, None, None) }

  lemma PhaseOfOne(p: Primitives, c: Coll, state: HashState, patch: Patch, hasMore: bool, keys: KeyMap, validate: bool,
                   name: string)
    requires ProcessedPatch(p, patch, state, c.macs, keys, validate, name).Ok?
    ensures var r := ProcessedPatch(p, patch, state, c.macs, keys, validate, name).value;
      var next := r.state.(bootstrapped := state.bootstrapped || !hasMore);
      var phase := PatchPhase(p, c, state, [patch], hasMore, keys, validate, name);
      phase.0 == Committed(c, r, next) && phase.1.Ok? && phase.1.value.0 == next
  {
    var r := ProcessedPatch(p, patch, state, c.macs, keys, validate, name).value;
    var next := r.state.(bootstrapped := state.bootstrapped || !hasMore);
    assert [patch][0] == patch && [patch][1..] == [];
    assert PatchPhase(p, Committed(c, r, next), next, [], hasMore, keys, validate, name)
        == (Committed(c, r, next), Ok((next, [])));
  }

  lemma OnePatchRuns(p: Primitives, hash: Hash, store: Macs, ms: seq<Mutation>, keys: KeyMap, validate: bool)
    requires ProcessedPatch(p, PatchOf(ms), AtOne(hash), store, keys, validate, "").Ok?
    ensures var r := ProcessedPatch(p, PatchOf(ms), AtOne(hash), store, keys, validate, "").value;
      var after := ProcessedList(p, Coll(Some(AtOne(hash)), store), OnePatchList(ms), keys, validate).0;
      after.macs == PutAll(DeleteAll(store, r.removed), r.added) && Held(after).hash == r.state.hash
      && Held(after).version == 2
  {
    var c, pl := Coll(Some(AtOne(hash)), store), OnePatchList(ms);
    AcceptedPatch(p, PatchOf(ms), AtOne(hash), store, keys, validate, "");
    assert SnapshotPhase(p, c, pl, keys, validate) == Ok(Step(c, AtOne(hash), []));
    PhaseOfOne(p, c, AtOne(hash), PatchOf(ms), false, keys, validate, "");
    assert pl.patches == [PatchOf(ms)];
  }

  /** Nothing weaker will do: any patch that is not safe breaks the law of some sound collection,
      in a call that accepts it. */
  lemma UnsafeListBreaks(ms: seq<Mutation>, validate: bool) returns (p: Primitives, c: Coll, keys: KeyMap)
    requires !Safe(ms, validate)
    ensures Sound(p, c) && !Held(c).Unseeded()
    ensures !Sound(p, ProcessedList(p, c, OnePatchList(ms), keys, validate).0)
  {
    HarmlessExactly(ms);
    var store :| !AlwaysAgrees(ms, store);
    var derive: Bytes -> Hash, hash: Hash :| IsSumOf(derive, hash, store) &&
      !IsSumOf(derive, HashAfter(derive, hash, ms, store), Commit(store, ms));
    p, c, keys := Accepting(ms, derive), Coll(Some(AtOne(hash)), store), AllKeys(ms);
    AcceptableIsAccepted(ms, validate, derive, hash, store);
    AcceptedPatch(p, PatchOf(ms), AtOne(hash), store, keys, validate, "");
    OnePatchRuns(p, hash, store, ms, keys, validate);
  }

  // ---------------------------------------------------------------- versions only grow

  lemma {:induction false} PatchPhaseVersion(p: Primitives, c: Coll, state: HashState, patches: seq<Patch>,
                                             hasMore: bool, keys: KeyMap, validate: bool, name: string)
    requires Held(c) == state
    ensures var r := PatchPhase(p, c, state, patches, hasMore, keys, validate, name);
      && Held(r.0).version >= state.version
      && (r.1.Ok? ==> Held(r.0) == r.1.value.0)
      && (r.1.Ok? && patches != [] && !NeedsRefetch(state, patches) ==> Held(r.0).version >= 1)
    decreases |patches|
  {
    if patches != [] {
      var r := ProcessedPatch(p, patches[0], state, c.macs, keys, validate, name);
      if r.Ok? {
        AcceptedPatch(p, patches[0], state, c.macs, keys, validate, name);
        var next := r.value.state.(bootstrapped := state.bootstrapped || !hasMore);
        PatchPhaseVersion(p, Committed(c, r.value, next), next, patches[1..], hasMore, keys, validate, name);
      }
    }
  }

  /** No call lowers the stored version; a snapshot is applied over a positive version only
      if it is strictly newer. */
  lemma ListNeverLowersVersion(p: Primitives, c: Coll, pl: PatchList, keys: KeyMap, validate: bool)
    ensures Held(ProcessedList(p, c, pl, keys, validate).0).version >= Held(c).version
    ensures SnapshotApplies(c, pl) && SnapshotPhase(p, c, pl, keys, validate).Ok? && Held(c).version > 0 ==>
      Held(ProcessedList(p, c, pl, keys, validate).0).version > Held(c).version
  {
    var s := SnapshotPhase(p, c, pl, keys, validate);
    if s.Ok? {
      if SnapshotApplies(c, pl) {
        SnapshotSum(p, pl.snapshot.value, keys, validate, pl.name);
      }
      PatchPhaseVersion(p, Cleared(s.value), s.value.state, pl.patches, pl.hasMore, keys, validate, pl.name);
    }
  }
}
