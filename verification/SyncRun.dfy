/** The processor as an object over its store, and the law over whole runs. */
module SyncRun {
  import opened Common
  import opened LtHash
  import opened SyncWire
  import opened Processor
  import opened Collection
  import opened Acceptance
  import opened Recovery
  import opened StoreWrites
  import opened Retry
  import opened KeyCache
  import opened KeyIds

  lemma PrependTwice(a: seq<Decoded>, b: seq<Decoded>, r: PhaseResult)
    ensures Prepend(a, Prepend(b, r)) == Prepend(a + b, r)
  {
    if r.1.Ok? {
      assert a + (b + r.1.value.1) == a + b + r.1.value.1;
    }
  }

  lemma PrependNothing(r: PhaseResult)
    ensures Prepend([], r) == r
  {
    if r.1.Ok? {
      assert [] + r.1.value.1 == r.1.value.1;
    }
  }

  // ---------------------------------------------------------------- the patch loop

  /** Part way through the patch loop: what has been returned and written, and what is to come. */
  ghost predicate LeftToDo(p: Primitives, c: Coll, state: HashState, pl: PatchList, i: nat, keys: KeyMap,
                           validate: bool,
                           mutations: seq<Decoded>, done: seq<Write>, whole: PhaseResult, all: seq<Write>)
  {
    && i <= |pl.patches|
    && whole == Prepend(mutations, PatchPhase(p, c, state, pl.patches[i..], pl.hasMore, keys, validate, pl.name))
    && all == done + PatchWrites(p, c, state, pl.patches[i..], pl.hasMore, keys, validate, pl.name)
  }

  lemma Refused(p: Primitives, c: Coll, state: HashState, pl: PatchList, i: nat, keys: KeyMap, validate: bool,
                mutations: seq<Decoded>, done: seq<Write>, whole: PhaseResult, all: seq<Write>)
    requires LeftToDo(p, c, state, pl, i, keys, validate, mutations, done, whole, all) && i < |pl.patches|
    requires ProcessedPatch(p, pl.patches[i], state, c.macs, keys, validate, pl.name).Err?
    ensures all == done
    ensures whole.1 == Err(ProcessedPatch(p, pl.patches[i], state, c.macs, keys, validate, pl.name).error)
  {
    assert pl.patches[i..][0] == pl.patches[i];
  }

  lemma OnePatch(p: Primitives, c: Coll, state: HashState, pl: PatchList, i: nat, keys: KeyMap, validate: bool,
                 mutations: seq<Decoded>, done: seq<Write>, whole: PhaseResult, all: seq<Write>)
    returns (rest: seq<Write>)
    requires LeftToDo(p, c, state, pl, i, keys, validate, mutations, done, whole, all) && i < |pl.patches|
    requires ProcessedPatch(p, pl.patches[i], state, c.macs, keys, validate, pl.name).Ok?
    ensures var r := ProcessedPatch(p, pl.patches[i], state, c.macs, keys, validate, pl.name).value;
      var next := r.state.(bootstrapped := state.bootstrapped || !pl.hasMore);
      var writes := CommitWrites(next, r.removed, r.added);
      all == done + writes + rest
      && LeftToDo(p, Committed(c, r, next), next, pl, i + 1, keys, validate, mutations + r.mutations,
                  done + writes, whole, all)
  {
    var r := ProcessedPatch(p, pl.patches[i], state, c.macs, keys, validate, pl.name).value;
    var next := r.state.(bootstrapped := state.bootstrapped || !pl.hasMore);
    var writes, c1 := CommitWrites(next, r.removed, r.added), Committed(c, r, next);
    assert pl.patches[i..][0] == pl.patches[i] && pl.patches[i..][1..] == pl.patches[i + 1..];
    rest := PatchWrites(p, c1, next, pl.patches[i + 1..], pl.hasMore, keys, validate, pl.name);
    assert done + (writes + rest) == done + writes + rest;
    PrependTwice(mutations, r.mutations,
                 PatchPhase(p, c1, next, pl.patches[i + 1..], pl.hasMore, keys, validate, pl.name));
  }

  /** What one turn of the loop does to a collection and a budget. */
  ghost predicate Turned(p: Primitives, c: Coll, state: HashState, pl: PatchList, i: nat, keys: KeyMap, validate: bool,
                         budget: nat, after: Coll, left: nat, r: Result<(HashState, seq<Decoded>), SyncError>)
    requires i < |pl.patches|
  {
    var pr := ProcessedPatch(p, pl.patches[i], state, c.macs, keys, validate, pl.name);
    if pr.Err? then r == Err(pr.error) && Ran(c, [], budget, after, left)
    else
      var next := pr.value.state.(bootstrapped := state.bootstrapped || !pl.hasMore);
      var writes := CommitWrites(next, pr.value.removed, pr.value.added);
      && Ran(c, writes, budget, after, left)
      && r == if |writes| <= budget then Ok((next, pr.value.mutations)) else Err(StoreFailed)
  }

  lemma Stopped(p: Primitives, c: Coll, state: HashState, pl: PatchList, i: nat, keys: KeyMap, validate: bool,
                mutations: seq<Decoded>, done: seq<Write>, whole: PhaseResult, all: seq<Write>,
                c0: Coll, b0: nat, b: nat, after: Coll, left: nat, r: Result<(HashState, seq<Decoded>), SyncError>)
    requires LeftToDo(p, c, state, pl, i, keys, validate, mutations, done, whole, all) && i < |pl.patches|
    requires Ran(c0, done, b0, c, b) && |done| <= b0
    requires Turned(p, c, state, pl, i, keys, validate, b, after, left, r) && r.Err?
    ensures Ran(c0, all, b0, after, left) && Err(r.error) == if |all| <= b0 then whole.1 else Err(StoreFailed)
  {
    var pr := ProcessedPatch(p, pl.patches[i], state, c.macs, keys, validate, pl.name);
    if pr.Err? {
      Refused(p, c, state, pl, i, keys, validate, mutations, done, whole, all);
      RanThen(c0, done, [], b0, c, b, after, left);
      assert done + [] == done;
    } else {
      var rest := OnePatch(p, c, state, pl, i, keys, validate, mutations, done, whole, all);
      var next := pr.value.state.(bootstrapped := state.bootstrapped || !pl.hasMore);
      var writes := CommitWrites(next, pr.value.removed, pr.value.added);
      RanThen(c0, done, writes, b0, c, b, after, left);
      RanShort(c0, done + writes, rest, b0, after, left);
    }
  }

  lemma Advanced(p: Primitives, c: Coll, state: HashState, pl: PatchList, i: nat, keys: KeyMap, validate: bool,
                 mutations: seq<Decoded>, done: seq<Write>, whole: PhaseResult, all: seq<Write>,
                 c0: Coll, b0: nat, b: nat, after: Coll, left: nat, r: Result<(HashState, seq<Decoded>), SyncError>)
    returns (more: seq<Write>)
    requires LeftToDo(p, c, state, pl, i, keys, validate, mutations, done, whole, all) && i < |pl.patches|
    requires Ran(c0, done, b0, c, b) && |done| <= b0
    requires Turned(p, c, state, pl, i, keys, validate, b, after, left, r) && r.Ok?
    ensures Ran(c0, more, b0, after, left) && |more| <= b0
    ensures LeftToDo(p, after, r.value.0, pl, i + 1, keys, validate, mutations + r.value.1, more, whole, all)
  {
    var pr := ProcessedPatch(p, pl.patches[i], state, c.macs, keys, validate, pl.name);
    var next := pr.value.state.(bootstrapped := state.bootstrapped || !pl.hasMore);
    var writes := CommitWrites(next, pr.value.removed, pr.value.added);
    var rest := OnePatch(p, c, state, pl, i, keys, validate, mutations, done, whole, all);
    more := done + writes;
    CommitApplies(c, next, pr.value.removed, pr.value.added);
    RanThen(c0, done, writes, b0, c, b, after, left);
  }

  lemma NothingLeft(p: Primitives, c: Coll, state: HashState, pl: PatchList, keys: KeyMap, validate: bool,
                    mutations: seq<Decoded>, done: seq<Write>, whole: PhaseResult, all: seq<Write>)
    requires LeftToDo(p, c, state, pl, |pl.patches|, keys, validate, mutations, done, whole, all)
    ensures all == done && whole.1 == Ok((state, mutations))
  {
    assert pl.patches[|pl.patches|..] == [] && mutations + [] == mutations && done + [] == done;
  }

  // ---------------------------------------------------------------- after the snapshot

  ghost function RestResult(p: Primitives, before: Coll, s: Step, pl: PatchList, keys: KeyMap, validate: bool)
    : Result<Outcome, SyncError>
  {
    if NeedsRefetch(s.state, pl.patches) then Ok(Outcome(s.mutations, s.state, true))
    else TailResult(p, before, Cleared(s), s.state, s.mutations, pl, keys, validate)
  }

  ghost function TailResult(p: Primitives, before: Coll, c: Coll, state: HashState, mutations: seq<Decoded>,
                            pl: PatchList, keys: KeyMap, validate: bool): Result<Outcome, SyncError>
  {
    var r := PatchPhase(p, c, state, pl.patches, pl.hasMore, keys, validate, pl.name);
    if r.1.Err? then Err(r.1.error)
    else Ok(Outcome(mutations + r.1.value.1, Closing(r.0, before, pl, r.1.value.0).1, false))
  }

  lemma RestIsResult(p: Primitives, c: Coll, pl: PatchList, keys: KeyMap, validate: bool)
    requires SnapshotPhase(p, c, pl, keys, validate).Ok?
    ensures ProcessedList(p, c, pl, keys, validate).1
      == RestResult(p, c, SnapshotPhase(p, c, pl, keys, validate).value, pl, keys, validate)
  {
  }

  // ---------------------------------------------------------------- prefetched keys

  lemma {:induction false} SamePatchWrites(p: Primitives, c: Coll, state: HashState, patches: seq<Patch>, hasMore: bool,
                                           k1: KeyMap, k2: KeyMap, validate: bool, name: string)
    requires AgreeOn(k1, k2, PatchIds(patches))
    ensures PatchWrites(p, c, state, patches, hasMore, k1, validate, name)
      == PatchWrites(p, c, state, patches, hasMore, k2, validate, name)
    decreases |patches|
  {
    if patches != [] {
      PatchIdsCons(patches);
      PatchAgree(p, patches[0], state, c.macs, k1, k2, validate, name);
      var r := ProcessedPatch(p, patches[0], state, c.macs, k1, validate, name);
      if r.Ok? {
        var next := r.value.state.(bootstrapped := state.bootstrapped || !hasMore);
        SamePatchWrites(p, Committed(c, r.value, next), next, patches[1..], hasMore, k1, k2, validate, name);
      }
    }
  }

  lemma SameTail(p: Primitives, before: Coll, c: Coll, state: HashState, pl: PatchList, k1: KeyMap, k2: KeyMap,
                 validate: bool)
    requires AgreeOn(k1, k2, PatchIds(pl.patches))
    ensures TailWrites(p, before, c, state, pl, k1, validate) == TailWrites(p, before, c, state, pl, k2, validate)
  {
    PhaseAgree(p, c, state, pl.patches, pl.hasMore, k1, k2, validate, pl.name);
    SamePatchWrites(p, c, state, pl.patches, pl.hasMore, k1, k2, validate, pl.name);
  }

  lemma SameSnapshot(p: Primitives, c: Coll, pl: PatchList, k1: KeyMap, k2: KeyMap, validate: bool)
    requires AgreeOn(k1, k2, ListIds(pl.snapshot, pl.patches))
    ensures SnapshotWrites(p, c, pl, k1, validate) == SnapshotWrites(p, c, pl, k2, validate)
  {
    if pl.snapshot.Some? {
      SnapshotAgree(p, pl.snapshot.value, k1, k2, validate, pl.name);
    }
  }

  /** With the prefetched keys a call makes the writes it would make with all keys. */
  lemma SameWrites(p: Primitives, c: Coll, pl: PatchList, k1: KeyMap, k2: KeyMap, validate: bool)
    requires AgreeOn(k1, k2, ListIds(pl.snapshot, pl.patches))
    requires SnapshotPhase(p, c, pl, k1, validate) == SnapshotPhase(p, c, pl, k2, validate)
    ensures ListWrites(p, c, pl, k1, validate) == ListWrites(p, c, pl, k2, validate)
  {
    SameSnapshot(p, c, pl, k1, k2, validate);
    var s := SnapshotPhase(p, c, pl, k1, validate);
    if s.Ok? {
      SameTail(p, c, Cleared(s.value), s.value.state, pl, k1, k2, validate);
    }
  }

  class AppStateProcessor {
    const keyStore: KeyStore
    var versions: map<string, HashState>
    var rows: map<string, Macs>
    /** How many more writes the store takes before it fails. */
    var writesLeft: nat

    constructor(keyStore: KeyStore, writesLeft: nat)
      ensures this.keyStore == keyStore && versions == map[] && rows == map[] && this.writesLeft == writesLeft
    {
      this.keyStore, versions, rows, this.writesLeft := keyStore, map[], map[], writesLeft;
    }

    function CollOf(name: string): Coll
      reads this
    {
      Coll(if name in versions then Some(versions[name]) else None, if name in rows then rows[name] else map[])
    }

    /** Since the old state, `ws` was attempted on one collection and nothing else was touched. */
    twostate predicate Attempted(name: string, ws: seq<Write>)
      reads this
    {
      && Ran(old(CollOf(name)), ws, old(writesLeft), CollOf(name), writesLeft)
      && forall n :: n != name ==> CollOf(n) == old(CollOf(n))
    }

    // ------------------------------------------------------------ store calls

    method SetVersion(name: string, state: HashState) returns (ok: bool)
      modifies this`versions, this`writesLeft
      ensures Attempted(name, [PutVersion(state)]) && (ok <==> 1 <= old(writesLeft))
    {
      OneWrite(CollOf(name), PutVersion(state));
      if writesLeft == 0 {
        return false;
      }
      versions, writesLeft := versions[name := state], writesLeft - 1;
      ok := true;
    }

    method ClearMutationMacs(name: string) returns (ok: bool)
      modifies this`rows, this`writesLeft
      ensures Attempted(name, [ClearRows]) && (ok <==> 1 <= old(writesLeft))
    {
      OneWrite(CollOf(name), ClearRows);
      if writesLeft == 0 {
        return false;
      }
      rows, writesLeft := rows[name := map[]], writesLeft - 1;
      ok := true;
    }

    method PutMutationMacs(name: string, macs: seq<MacPair>) returns (ok: bool)
      modifies this`rows, this`writesLeft
      ensures Attempted(name, PutWrites(macs)) && (ok <==> |macs| <= old(writesLeft))
    {
      for i := 0 to |macs|
        invariant i <= old(writesLeft) && writesLeft == old(writesLeft) - i
        invariant CollOf(name) == Applied(old(CollOf(name)), PutWrites(macs)[..i])
        invariant forall n :: n != name ==> CollOf(n) == old(CollOf(n))
      {
        if writesLeft == 0 {
          return false;
        }
        assert PutWrites(macs)[..i + 1][..i] == PutWrites(macs)[..i];
        var table := if name in rows then rows[name] else map[];
        rows, writesLeft := rows[name := table[macs[i].index := macs[i].value]], writesLeft - 1;
      }
      assert PutWrites(macs)[..|macs|] == PutWrites(macs);
      ok := true;
    }

    method DeleteMutationMacs(name: string, indexes: seq<Bytes>) returns (ok: bool)
      modifies this`rows, this`writesLeft
      ensures Attempted(name, DeleteWrites(indexes)) && (ok <==> |indexes| <= old(writesLeft))
    {
      for i := 0 to |indexes|
        invariant i <= old(writesLeft) && writesLeft == old(writesLeft) - i
        invariant CollOf(name) == Applied(old(CollOf(name)), DeleteWrites(indexes)[..i])
        invariant forall n :: n != name ==> CollOf(n) == old(CollOf(n))
      {
        if writesLeft == 0 {
          return false;
        }
        assert DeleteWrites(indexes)[..i + 1][..i] == DeleteWrites(indexes)[..i];
        var table := if name in rows then rows[name] else map[];
        rows, writesLeft := rows[name := table - {indexes[i]}], writesLeft - 1;
      }
      assert DeleteWrites(indexes)[..|indexes|] == DeleteWrites(indexes);
      ok := true;
    }

    /** The default `commit_patch`. */
    method CommitPatch(name: string, state: HashState, removed: seq<Bytes>, added: seq<MacPair>) returns (ok: bool)
      modifies this`versions, this`rows, this`writesLeft
      ensures Attempted(name, CommitWrites(state, removed, added))
      ensures ok <==> |CommitWrites(state, removed, added)| <= old(writesLeft)
    {
      ghost var c0, b0 := CollOf(name), writesLeft;
      ghost var first, deletes, puts := [PutVersion(state)], DeleteWrites(removed), PutWrites(added);
      ok := SetVersion(name, state);
      if !ok {
        RanShort(c0, first, deletes, b0, CollOf(name), writesLeft);
        RanShort(c0, first + deletes, puts, b0, CollOf(name), writesLeft);
        return;
      }
      ghost var c1, b1 := CollOf(name), writesLeft;
      if removed != [] {
        ok := DeleteMutationMacs(name, removed);
      }
      RanThen(c0, first, deletes, b0, c1, b1, CollOf(name), writesLeft);
      if !ok {
        RanShort(c0, first + deletes, puts, b0, CollOf(name), writesLeft);
        return;
      }
      ghost var c2, b2 := CollOf(name), writesLeft;
      if added != [] {
        ok := PutMutationMacs(name, added);
      }
      RanThen(c0, first + deletes, puts, b0, c2, b2, CollOf(name), writesLeft);
    }

    /** Clear, put, version last: how a snapshot or a recovery replaces a collection. */
    method ReplaceCollection(name: string, macs: seq<MacPair>, state: HashState) returns (ok: bool)
      modifies this`versions, this`rows, this`writesLeft
      ensures Attempted(name, ReplaceWrites(macs, state))
      ensures ok <==> |ReplaceWrites(macs, state)| <= old(writesLeft)
    {
      ghost var c0, b0 := CollOf(name), writesLeft;
      ghost var first, puts, last := [ClearRows], PutWrites(macs), [PutVersion(state)];
      ok := ClearMutationMacs(name);
      if !ok {
        RanShort(c0, first, puts, b0, CollOf(name), writesLeft);
        RanShort(c0, first + puts, last, b0, CollOf(name), writesLeft);
        return;
      }
      ghost var c1, b1 := CollOf(name), writesLeft;
      if macs != [] {
        ok := PutMutationMacs(name, macs);
      }
      RanThen(c0, first, puts, b0, c1, b1, CollOf(name), writesLeft);
      if !ok {
        RanShort(c0, first + puts, last, b0, CollOf(name), writesLeft);
        return;
      }
      ghost var c2, b2 := CollOf(name), writesLeft;
      ok := SetVersion(name, state);
      RanThen(c0, first + puts, last, b0, c2, b2, CollOf(name), writesLeft);
    }

    // ------------------------------------------------------------ process_patch_list

    /** One turn of the patch loop: look up, process, commit. */
    method ApplyPatch(p: Primitives, patch: Patch, state: HashState, hasMore: bool, keys: KeyMap, validate: bool,
                      name: string)
      returns (r: Result<(HashState, seq<Decoded>), SyncError>)
      modifies this`versions, this`rows, this`writesLeft
      ensures var pr := ProcessedPatch(p, patch, state, old(CollOf(name)).macs, keys, validate, name);
        if pr.Err? then r == Err(pr.error) && Attempted(name, [])
        else
          var next := pr.value.state.(bootstrapped := state.bootstrapped || !hasMore);
          var writes := CommitWrites(next, pr.value.removed, pr.value.added);
          Attempted(name, writes)
          && r == if |writes| <= old(writesLeft) then Ok((next, pr.value.mutations)) else Err(StoreFailed)
    {
      var needed := CollectUniqueIndexMacs(patch.mutations);
      var table := CollOf(name).macs;
      var db := GetMutationMacs(table, needed);
      var result := ProcessPatch(p, patch, state, table, db, needed, keys, validate, name);
      if result.Err? {
        return Err(result.error);
      }
      var next := result.value.state.(bootstrapped := state.bootstrapped || !hasMore);
      var ok := CommitPatch(name, next, result.value.removed, result.value.added);
      r := if ok then Ok((next, result.value.mutations)) else Err(StoreFailed);
    }

    /** The patch loop of `process_patch_list`. */
    method ApplyPatches(p: Primitives, start: HashState, pl: PatchList, keys: KeyMap, validate: bool)
      returns (r: Result<(HashState, seq<Decoded>), SyncError>)
      modifies this`versions, this`rows, this`writesLeft
      ensures var c := old(CollOf(pl.name));
        var ws := PatchWrites(p, c, start, pl.patches, pl.hasMore, keys, validate, pl.name);
        Attempted(pl.name, ws)
        && r == if |ws| <= old(writesLeft)
                then PatchPhase(p, c, start, pl.patches, pl.hasMore, keys, validate, pl.name).1
                else Err(StoreFailed)
    {
      var state, mutations: seq<Decoded> := start, [];
      ghost var c0, b0 := CollOf(pl.name), writesLeft;
      ghost var whole := PatchPhase(p, c0, start, pl.patches, pl.hasMore, keys, validate, pl.name);
      ghost var all := PatchWrites(p, c0, start, pl.patches, pl.hasMore, keys, validate, pl.name);
      ghost var done: seq<Write> := [];
      PrependNothing(whole);
      assert pl.patches[0..] == pl.patches && [] + all == all;
      for i := 0 to |pl.patches|
        invariant Ran(c0, done, b0, CollOf(pl.name), writesLeft) && |done| <= b0
        invariant LeftToDo(p, CollOf(pl.name), state, pl, i, keys, validate, mutations, done, whole, all)
        invariant forall n :: n != pl.name ==> CollOf(n) == old(CollOf(n))
      {
        ghost var c1, b1 := CollOf(pl.name), writesLeft;
        var result := ApplyPatch(p, pl.patches[i], state, pl.hasMore, keys, validate, pl.name);
        if result.Err? {
          Stopped(p, c1, state, pl, i, keys, validate, mutations, done, whole, all,
                  c0, b0, b1, CollOf(pl.name), writesLeft, result);
          return Err(result.error);
        }
        done := Advanced(p, c1, state, pl, i, keys, validate, mutations, done, whole, all,
                         c0, b0, b1, CollOf(pl.name), writesLeft, result);
        state, mutations := result.value.0, mutations + result.value.1;
      }
      NothingLeft(p, CollOf(pl.name), state, pl, keys, validate, mutations, done, whole, all);
      r := Ok((state, mutations));
    }

    /** The snapshot branch of `process_patch_list`. */
    method ApplySnapshot(p: Primitives, pl: PatchList, keys: KeyMap, validate: bool)
      returns (r: Result<(HashState, seq<Decoded>), SyncError>)
      modifies this`versions, this`rows, this`writesLeft
      ensures Attempted(pl.name, SnapshotWrites(p, old(CollOf(pl.name)), pl, keys, validate))
      ensures var s := SnapshotPhase(p, old(CollOf(pl.name)), pl, keys, validate);
        r == if s.Err? then Err(s.error)
             else if |SnapshotWrites(p, old(CollOf(pl.name)), pl, keys, validate)| <= old(writesLeft)
             then Ok((s.value.state, s.value.mutations))
             else Err(StoreFailed)
    {
      var state := if pl.name in versions then versions[pl.name] else DefaultState();
      if pl.snapshot.None? || SnapshotIsStale(state.version, pl.snapshot.value.version) {
        return Ok((state, []));
      }
      var snap := ProcessSnapshot(p, pl.snapshot.value, keys, validate, pl.name);
      if snap.Err? {
        return Err(snap.error);
      }
      state := snap.value.state.(bootstrapped := !pl.hasMore);
      var ok := ReplaceCollection(pl.name, snap.value.macs, state);
      r := if ok then Ok((state, snap.value.mutations)) else Err(StoreFailed);
    }

    /** The record written for a list without patches. */
    method CloseList(pl: PatchList, state: HashState, hadBaseline: bool, ghost before: Coll)
      returns (closed: Result<HashState, SyncError>)
      requires hadBaseline == (before.state.Some? && before.state.value.HasBaseline())
      modifies this`versions, this`writesLeft
      ensures Attempted(pl.name, ClosingWrites(before, pl, state))
      ensures closed == if |ClosingWrites(before, pl, state)| <= old(writesLeft)
                        then Ok(Closing(old(CollOf(pl.name)), before, pl, state).1) else Err(StoreFailed)
    {
      closed := Ok(state);
      if pl.patches == []
         && (pl.snapshot.Some? || (!pl.hasMore && pl.snapshotRef.None? && !hadBaseline && pl.error.None?)) {
        var ok := SetVersion(pl.name, state.(bootstrapped := state.bootstrapped || !pl.hasMore));
        closed := if ok then Ok(state.(bootstrapped := state.bootstrapped || !pl.hasMore)) else Err(StoreFailed);
      }
    }

    method WipeIfUnseeded(name: string, state: HashState) returns (ok: bool)
      modifies this`rows, this`writesLeft
      ensures Attempted(name, WipeWrites(state)) && (ok <==> |WipeWrites(state)| <= old(writesLeft))
    {
      ok := true;
      if state.Unseeded() {
        ok := ClearMutationMacs(name);
      }
    }

    /** The patches and the closing record. */
    method ProcessTail(p: Primitives, pl: PatchList, state: HashState, mutations: seq<Decoded>, hadBaseline: bool,
                       ghost before: Coll, keys: KeyMap, validate: bool)
      returns (r: Result<Outcome, SyncError>)
      requires hadBaseline == (before.state.Some? && before.state.value.HasBaseline())
      modifies this`versions, this`rows, this`writesLeft
      ensures var c := old(CollOf(pl.name));
        var ws := TailWrites(p, before, c, state, pl, keys, validate);
        Attempted(pl.name, ws)
        && r == if |ws| <= old(writesLeft) then TailResult(p, before, c, state, mutations, pl, keys, validate)
                else Err(StoreFailed)
    {
      ghost var c0, b0 := CollOf(pl.name), writesLeft;
      ghost var phase := PatchPhase(p, c0, state, pl.patches, pl.hasMore, keys, validate, pl.name);
      ghost var patches := PatchWrites(p, c0, state, pl.patches, pl.hasMore, keys, validate, pl.name);
      ghost var close := if phase.1.Ok? then ClosingWrites(before, pl, phase.1.value.0) else [];
      var done := ApplyPatches(p, state, pl, keys, validate);
      if done.Err? {
        if |patches| > b0 {
          RanShort(c0, patches, close, b0, CollOf(pl.name), writesLeft);
        } else {
          assert patches + [] == patches;
        }
        return Err(done.error);
      }
      ghost var c1, b1 := CollOf(pl.name), writesLeft;
      var closed := CloseList(pl, done.value.0, hadBaseline, before);
      RanThen(c0, patches, close, b0, c1, b1, CollOf(pl.name), writesLeft);
      r := if closed.Ok? then Ok(Outcome(mutations + done.value.1, closed.value, false)) else Err(StoreFailed);
    }

    /** What follows the snapshot. */
    method ProcessRest(p: Primitives, pl: PatchList, state: HashState, mutations: seq<Decoded>, hadBaseline: bool,
                       ghost before: Coll, keys: KeyMap, validate: bool)
      returns (r: Result<Outcome, SyncError>)
      requires hadBaseline == (before.state.Some? && before.state.value.HasBaseline())
      modifies this`versions, this`rows, this`writesLeft
      ensures var s := Step(old(CollOf(pl.name)), state, mutations);
        var ws := RestWrites(p, before, s, pl, keys, validate);
        Attempted(pl.name, ws)
        && r == if |ws| <= old(writesLeft) then RestResult(p, before, s, pl, keys, validate) else Err(StoreFailed)
    {
      if NeedsRefetch(state, pl.patches) {
        return Ok(Outcome(mutations, state, true));
      }
      ghost var s, b0 := Step(CollOf(pl.name), state, mutations), writesLeft;
      ghost var tail := TailWrites(p, before, Cleared(s), state, pl, keys, validate);
      var ok := WipeIfUnseeded(pl.name, state);
      OneWrite(s.coll, ClearRows);
      if !ok {
        RanShort(s.coll, WipeWrites(state), tail, b0, CollOf(pl.name), writesLeft);
        return Err(StoreFailed);
      }
      ghost var b1 := writesLeft;
      assert CollOf(pl.name) == Cleared(s);
      r := ProcessTail(p, pl, state, mutations, hadBaseline, before, keys, validate);
      RanThen(s.coll, WipeWrites(state), tail, b0, Cleared(s), b1, CollOf(pl.name), writesLeft);
    }

    /** `process_patch_list` once its keys are at hand. */
    method ProcessWithKeys(p: Primitives, pl: PatchList, keys: KeyMap, validate: bool)
      returns (r: Result<Outcome, SyncError>)
      modifies this`versions, this`rows, this`writesLeft
      ensures var c := old(CollOf(pl.name));
        Attempted(pl.name, ListWrites(p, c, pl, keys, validate))
        && r == if |ListWrites(p, c, pl, keys, validate)| <= old(writesLeft)
                then ProcessedList(p, c, pl, keys, validate).1
                else Err(StoreFailed)
    {
      ghost var c0, b0 := CollOf(pl.name), writesLeft;
      ghost var first := SnapshotWrites(p, c0, pl, keys, validate);
      var hadBaseline := pl.name in versions && versions[pl.name].HasBaseline();
      var snap := ApplySnapshot(p, pl, keys, validate);
      ghost var s := SnapshotPhase(p, c0, pl, keys, validate);
      if snap.Err? {
        if s.Ok? {
          RanShort(c0, first, RestWrites(p, c0, s.value, pl, keys, validate), b0, CollOf(pl.name), writesLeft);
        }
        return Err(snap.error);
      }
      SnapshotApplied(p, c0, pl, keys, validate);
      ghost var c1, b1 := CollOf(pl.name), writesLeft;
      r := ProcessRest(p, pl, snap.value.0, snap.value.1, hadBaseline, c0, keys, validate);
      RanThen(c0, first, RestWrites(p, c0, s.value, pl, keys, validate), b0, c1, b1, CollOf(pl.name), writesLeft);
      RestIsResult(p, c0, pl, keys, validate);
    }

    /** `process_patch_list`: with only the prefetched keys, what all keys would give; and when the
        store fails, exactly the writes before the failure. */
    method ProcessPatchList(p: Primitives, pl: PatchList, validate: bool) returns (r: Result<Outcome, SyncError>)
      requires keyStore.Valid(p.expand)
      modifies this`versions, this`rows, this`writesLeft, keyStore`cache
      ensures keyStore.Valid(p.expand)
      ensures var c, avail := old(CollOf(pl.name)), Available(p.expand, keyStore.stored);
        var ws := ListWrites(p, c, pl, avail, validate);
        Attempted(pl.name, ws)
        && (|ws| <= old(writesLeft) ==> (CollOf(pl.name), r) == ProcessedList(p, c, pl, avail, validate))
        && (|ws| > old(writesLeft) ==> r == Err(StoreFailed))
    {
      ghost var avail := Available(p.expand, keyStore.stored);
      var ids := CollectKeyIds(pl.snapshot, pl.patches);
      var keys := keyStore.PrefetchKeys(p.expand, ids);
      assert AgreeOn(keys, avail, ListIds(pl.snapshot, pl.patches)) by {
        forall id | id in ListIds(pl.snapshot, pl.patches)
          ensures (id in keys <==> id in avail) && (id in keys ==> keys[id] == avail[id])
        {
          assert id in Elements(ids);
        }
      }
      PrefetchSuffices(p, CollOf(pl.name), pl, keys, avail, validate);
      SameWrites(p, CollOf(pl.name), pl, keys, avail, validate);
      ListApplied(p, CollOf(pl.name), pl, avail, validate);
      r := ProcessWithKeys(p, pl, keys, validate);
    }

    /** A call the store stops somewhere in its snapshot, and the same call again once the store
        has recovered: the collection ends as if the first call had gone through. */
    method ProcessAgain(p: Primitives, pl: PatchList, validate: bool, recovered: nat)
      returns (r: Result<Outcome, SyncError>)
      requires keyStore.Valid(p.expand)
      requires var c, avail := CollOf(pl.name), Available(p.expand, keyStore.stored);
        && SnapshotPhase(p, c, pl, avail, validate).Ok?
        && writesLeft <= |SnapshotWrites(p, c, pl, avail, validate)|
        && |ListWrites(p, Applied(c, Taken(ListWrites(p, c, pl, avail, validate), writesLeft)), pl, avail, validate)|
           <= recovered
      modifies this`versions, this`rows, this`writesLeft, keyStore`cache
      ensures keyStore.Valid(p.expand)
      ensures CollOf(pl.name)
         == ProcessedList(p, old(CollOf(pl.name)), pl, Available(p.expand, keyStore.stored), validate).0
      ensures forall n :: n != pl.name ==> CollOf(n) == old(CollOf(n))
    {
      ghost var c, avail := CollOf(pl.name), Available(p.expand, keyStore.stored);
      ghost var left := Applied(c, Taken(ListWrites(p, c, pl, avail, validate), writesLeft));
      CallRetry(p, c, pl, avail, validate, writesLeft);
      r := ProcessPatchList(p, pl, validate);
      assert CollOf(pl.name) == left;
      writesLeft := recovered;
      r := ProcessPatchList(p, pl, validate);
    }

    // ------------------------------------------------------------ apply_snapshot_recovery

    /** The key pass: every record's key, fetched once. */
    method FetchKeys(p: Primitives, rs: seq<RecoveryRecord>) returns (keys: KeyMap, refused: Option<RecoveryError>)
      requires keyStore.Valid(p.expand)
      modifies keyStore`cache
      ensures keyStore.Valid(p.expand)
      ensures refused == KeyPass(rs, Available(p.expand, keyStore.stored))
      ensures var avail := Available(p.expand, keyStore.stored);
        forall id :: id in keys ==> id in avail && keys[id] == avail[id]
      ensures refused.None? ==> forall i :: 0 <= i < |rs| ==> rs[i].keyId.Some? && rs[i].keyId.value in keys
    {
      ghost var avail := Available(p.expand, keyStore.stored);
      keys := map[];
      for i := 0 to |rs|
        invariant keyStore.Valid(p.expand) && keyStore.stored == old(keyStore.stored)
        invariant KeyPass(rs[..i], avail).None?
        invariant forall id :: id in keys ==> id in avail && keys[id] == avail[id]
        invariant forall n :: 0 <= n < i ==> rs[n].keyId.Some? && rs[n].keyId.value in keys
      {
        assert rs[..i + 1][..i] == rs[..i];
        if rs[i].keyId.None? {
          KeyPassStops(rs, i + 1, avail);
          return keys, Some(NoKeyId(i));
        }
        if rs[i].keyId.value !in keys {
          var k := keyStore.GetAppStateKey(p.expand, rs[i].keyId.value);
          if k.None? {
            KeyPassStops(rs, i + 1, avail);
            return keys, Some(KeyUnavailable);
          }
          keys := keys[rs[i].keyId.value := k.value];
        }
      }
      assert rs[..|rs|] == rs;
      refused := None;
    }

    /** The record pass. `keys[..]` is the lookup the source expects never to fail. */
    method BuildRows(p: Primitives, parse: IndexParser, rs: seq<RecoveryRecord>, keys: KeyMap, ghost avail: KeyMap)
      returns (r: Result<Rows, RecoveryError>)
      requires forall id :: id in keys ==> id in avail && keys[id] == avail[id]
      requires forall i :: 0 <= i < |rs| ==> rs[i].keyId.Some? && rs[i].keyId.value in keys
      ensures r == RowsTo(p, parse, rs, |rs|, avail)
    {
      var winners := ComputeWinners(rs);
      var out := Rows([], []);
      for i := 0 to |rs|
        invariant RowsTo(p, parse, rs, i, avail) == Ok(out)
      {
        if winners[i] {
          var row := RowOf(p, parse, rs[i], i, keys);
          SameRow(p, parse, rs[i], i, keys, avail);
          if row.Err? {
            RowsStop(p, parse, rs, i + 1, avail);
            return Err(row.error);
          }
          out := Rows(out.macs + [row.value.0], out.mutations + [row.value.1]);
        }
      }
      r := Ok(out);
    }

    method ApplySnapshotRecovery(p: Primitives, parse: IndexParser, rec: SnapshotRecovery, expected: string,
                                 current: bool)
      returns (r: Result<RecoveryOutcome, RecoveryError>)
      requires keyStore.Valid(p.expand)
      modifies this`versions, this`rows, this`writesLeft, keyStore`cache
      ensures keyStore.Valid(p.expand)
      ensures var c, avail := old(CollOf(expected)), Available(p.expand, keyStore.stored);
        var ws := RecoveryWrites(p, parse, c, rec, expected, current, avail);
        Attempted(expected, ws)
        && (|ws| <= old(writesLeft) ==> (CollOf(expected), r) == Recover(p, parse, c, rec, expected, current, avail))
        && (|ws| > old(writesLeft) ==> r == Err(WriteFailed))
    {
      RecoveryApplied(p, parse, CollOf(expected), rec, expected, current, Available(p.expand, keyStore.stored));
      if rec.name.None? {
        return Err(NamesNoCollection);
      }
      if rec.name.value != expected {
        return Err(WrongCollection);
      }
      if rec.version.None? {
        return Err(NoVersion);
      }
      var held := if expected in versions then versions[expected].version else 0;
      if SnapshotIsStale(held, rec.version.value) {
        return Ok(Stale(held, rec.version.value));
      }
      if rec.ltHash.None? {
        return Err(NoLtHash);
      }
      if |rec.ltHash.value| != 128 {
        return Err(LtHashLength);
      }
      var keys, refused := FetchKeys(p, rec.records);
      if refused.Some? {
        return Err(refused.value);
      }
      var built := BuildRows(p, parse, rec.records, keys, Available(p.expand, keyStore.stored));
      if built.Err? {
        return Err(built.error);
      }
      if !current {
        return Ok(Retired);
      }
      var ok := ReplaceCollection(expected, built.value.macs,
                                  HashState(rec.version.value, LanesOf(rec.ltHash.value), false, true));
      r := if ok then Ok(Recovered(built.value.mutations)) else Err(WriteFailed);
    }

    /** Forgetting a collection's version, so that the next sync asks for everything. */
    method DeleteVersion(name: string)
      modifies this`versions
      ensures forall n :: CollOf(n) == if n == name then old(CollOf(n)).(state := None) else old(CollOf(n))
    {
      versions := versions - {name};
    }

    // ------------------------------------------------------------ whole runs

    /** The store holds exactly the collections of `st`. */
    ghost predicate Holds(st: Store)
      reads this
    {
      forall n :: CollOf(n) == if n in st then st[n] else Coll(None, map[])
    }

    /** The call reads the keys the backend holds. */
    ghost predicate ReadsStored(p: Primitives, a: Action)
      reads keyStore
    {
      a.DeleteVersion? || a.keys == Available(p.expand, keyStore.stored)
    }

    /** One call. It is served unless the store stops it. */
    method Perform(p: Primitives, parse: IndexParser, a: Action, ghost st: Store) returns (served: bool)
      requires keyStore.Valid(p.expand) && Holds(st) && ReadsStored(p, a)
      modifies this`versions, this`rows, this`writesLeft, keyStore`cache
      ensures keyStore.Valid(p.expand)
      ensures served ==> Holds(After(p, parse, st, a))
    {
      match a
      case ProcessList(pl, keys, validate) =>
        var r := ProcessPatchList(p, pl, validate);
        served := !(r.Err? && r.error.StoreFailed?);
      case ApplyRecovery(rec, expected, current, keys) =>
        var r := ApplySnapshotRecovery(p, parse, rec, expected, current);
        served := !(r.Err? && r.error.WriteFailed?);
      case DeleteVersion(name) =>
        DeleteVersion(name);
        served := true;
    }

    /** Any calls, one after the other, on an empty store that serves them: the store ends as the run
        says, and sound if the calls are trusted. */
    method PerformAll(p: Primitives, parse: IndexParser, actions: seq<Action>) returns (served: bool)
      requires keyStore.Valid(p.expand) && versions == map[] && rows == map[]
      requires forall i :: 0 <= i < |actions| ==> ReadsStored(p, actions[i])
      modifies this`versions, this`rows, this`writesLeft, keyStore`cache
      ensures served ==> Holds(Run(p, parse, actions))
      ensures served && (forall i :: 0 <= i < |actions| ==> Trusted(p, actions[i])) ==> forall n :: Sound(p, CollOf(n))
    {
      for i := 0 to |actions|
        invariant keyStore.Valid(p.expand) && Holds(Run(p, parse, actions[..i]))
      {
        assert actions[..i + 1][..i] == actions[..i];
        served := Perform(p, parse, actions[i], Run(p, parse, actions[..i]));
        if !served {
          return;
        }
      }
      assert actions[..|actions|] == actions;
      served := true;
      if forall i :: 0 <= i < |actions| ==> Trusted(p, actions[i]) {
        RunKeepsSound(p, parse, actions);
      }
    }
  }

  lemma {:induction false} KeyPassStops(rs: seq<RecoveryRecord>, i: nat, keys: KeyMap)
    requires i <= |rs| && KeyPass(rs[..i], keys).Some?
    ensures KeyPass(rs, keys) == KeyPass(rs[..i], keys)
  {
    if i == |rs| {
      assert rs[..i] == rs;
    } else {
      assert rs[..|rs| - 1][..i] == rs[..i];
      KeyPassStops(rs[..|rs| - 1], i, keys);
    }
  }

  lemma {:induction false} RowsStop(p: Primitives, parse: IndexParser, rs: seq<RecoveryRecord>, i: nat, keys: KeyMap)
    requires i <= |rs| && RowsTo(p, parse, rs, i, keys).Err?
    ensures RowsTo(p, parse, rs, |rs|, keys) == RowsTo(p, parse, rs, i, keys)
    decreases |rs| - i
  {
    if i < |rs| {
      RowsStop(p, parse, rs, i + 1, keys);
    }
  }

  // ---------------------------------------------------------------- whole runs

  /** One call, with the keys the backend holds at that moment. */
  datatype Action =
    | ProcessList(pl: PatchList, keys: KeyMap, validate: bool)
    | ApplyRecovery(rec: SnapshotRecovery, expected: string, current: bool, keys: KeyMap)
    | DeleteVersion(name: string)

  type Store = map<string, Coll>

  function At(st: Store, name: string): Coll {
    if name in st then st[name] else Coll(None, map[])
  }

  ghost function After(p: Primitives, parse: IndexParser, st: Store, a: Action): Store {
    match a
    case ProcessList(pl, keys, validate) => st[pl.name := ProcessedList(p, At(st, pl.name), pl, keys, validate).0]
    case ApplyRecovery(rec, expected, current, keys) =>
      st[expected := Recover(p, parse, At(st, expected), rec, expected, current, keys).0]
    case DeleteVersion(name) => st[name := At(st, name).(state := None)]
  }

  ghost function Run(p: Primitives, parse: IndexParser, actions: seq<Action>): Store {
    if actions == [] then map[] else After(p, parse, Run(p, parse, actions[..|actions| - 1]), actions[|actions| - 1])
  }

  /** What the caller can check before the call: patches that are safe with or without validation,
      as the call has it, and a primary whose hash is the sum of the rows it sent. */
  ghost predicate Trusted(p: Primitives, a: Action) {
    match a
    case ProcessList(pl, keys, validate) => AllSafe(pl.patches, validate)
    case ApplyRecovery(rec, expected, current, keys) =>
      AllComplete(rec.records, keys) && rec.ltHash.Some? && |rec.ltHash.value| == 128 ==>
        rec.ltHash.value == HashBytes(SumHash(p.derive, LastWrite(p, rec.records, |rec.records|, keys)))
    case DeleteVersion(name) => true
  }

  lemma RecoveryKeepsSound(p: Primitives, parse: IndexParser, c: Coll, rec: SnapshotRecovery, expected: string,
                           current: bool, keys: KeyMap)
    requires Trusted(p, ApplyRecovery(rec, expected, current, keys)) && Sound(p, c)
    ensures Sound(p, Recover(p, parse, c, rec, expected, current, keys).0)
  {
    var r := Recover(p, parse, c, rec, expected, current, keys);
    if r.1.Ok? && r.1.value.Recovered? {
      RecoveredCollection(p, parse, c, rec, expected, current, keys);
    } else {
      assert r.0 == c;
    }
  }

  ghost predicate AllSound(p: Primitives, st: Store) {
    forall n :: n in st ==> Sound(p, st[n])
  }

  lemma SoundAt(p: Primitives, st: Store, name: string)
    requires AllSound(p, st)
    ensures Sound(p, At(st, name))
  {
    assert name !in st ==> Held(At(st, name)).Unseeded();
  }

  lemma ActionKeepsSound(p: Primitives, parse: IndexParser, st: Store, a: Action)
    requires Trusted(p, a) && AllSound(p, st)
    ensures AllSound(p, After(p, parse, st, a))
  {
    match a
    case ProcessList(pl, keys, validate) =>
      SoundAt(p, st, pl.name);
      ListKeepsSound(p, At(st, pl.name), pl, keys, validate);
    case ApplyRecovery(rec, expected, current, keys) =>
      SoundAt(p, st, expected);
      RecoveryKeepsSound(p, parse, At(st, expected), rec, expected, current, keys);
    case DeleteVersion(name) =>
  }

  /** Over every run from an empty store, every collection's stored hash is the sum of its
      stored rows or the collection is unseeded. */
  lemma {:induction false} RunKeepsSound(p: Primitives, parse: IndexParser, actions: seq<Action>)
    requires forall i :: 0 <= i < |actions| ==> Trusted(p, actions[i])
    ensures AllSound(p, Run(p, parse, actions))
  {
    if actions != [] {
      var rest := actions[..|actions| - 1];
      assert forall i :: 0 <= i < |rest| ==> rest[i] == actions[i];
      RunKeepsSound(p, parse, rest);
      ActionKeepsSound(p, parse, Run(p, parse, rest), actions[|actions| - 1]);
    }
  }

  /** A validated call none of whose patches, if it names no index twice per operation, SETs and
      REMOVEs one index outside index mode; or a trusted recovery. */
  ghost predicate Validated(p: Primitives, a: Action) {
    match a
    case ProcessList(pl, keys, validate) =>
      validate && forall i :: 0 <= i < |pl.patches| ==> Undoubled(pl.patches[i].mutations)
    case ApplyRecovery(rec, expected, current, keys) => Trusted(p, a)
    case DeleteVersion(name) => true
  }

  /** The law over every validated run. */
  lemma ValidatedRunKeepsSound(p: Primitives, parse: IndexParser, actions: seq<Action>)
    requires forall i :: 0 <= i < |actions| ==> Validated(p, actions[i])
    ensures AllSound(p, Run(p, parse, actions))
  {
    forall i | 0 <= i < |actions| ensures Trusted(p, actions[i]) {
      assert Validated(p, actions[i]);
      if actions[i].ProcessList? {
        var patches := actions[i].pl.patches;
        forall k | 0 <= k < |patches| ensures Safe(patches[k].mutations, true) {
          assert Undoubled(patches[k].mutations);
          ValidatedSafe(patches[k].mutations);
        }
      }
    }
    RunKeepsSound(p, parse, actions);
  }

  /** Only forgetting a collection can lower its version. */
  lemma VersionsOnlyGrow(p: Primitives, parse: IndexParser, st: Store, a: Action, n: string)
    requires a != DeleteVersion(n) && n in st
    ensures var after := After(p, parse, st, a);
      n in after && Held(after[n]).version >= Held(st[n]).version
  {
    match a
    case ProcessList(pl, keys, validate) =>
      ListNeverLowersVersion(p, At(st, pl.name), pl, keys, validate);
    case ApplyRecovery(rec, expected, current, keys) =>
      RecoveryNeverLowersVersion(p, parse, At(st, expected), rec, expected, current, keys);
    case DeleteVersion(name) =>
  }

  lemma RecoveryNeverLowersVersion(p: Primitives, parse: IndexParser, c: Coll, rec: SnapshotRecovery, expected: string,
                                   current: bool, keys: KeyMap)
    ensures Held(Recover(p, parse, c, rec, expected, current, keys).0).version >= Held(c).version
  {
  }
}
