/** Store errors. While a collection is being replaced the rows are cleared and rewritten first and
    the version goes last, so an interrupted attempt can be repeated; the default `commit_patch`
    writes the version first, and an interrupted patch cannot. */
module Retry {
  import opened Common
  import opened SyncWire
  import opened PatchHash
  import opened PatchBalance
  import opened Processor
  import opened Collection
  import opened Recovery
  import opened StoreWrites

  // ---------------------------------------------------------------- replacing a collection

  /** What replacing `c` by `target` can leave: the old version record over some rows, or the target. */
  ghost predicate Interrupted(c: Coll, target: Coll, left: Coll) {
    left.state == c.state || left == target
  }

  /** Until the last write the version record is the old one. */
  lemma {:induction false} RowsOnly(c: Coll, ws: seq<Write>)
    requires forall i :: 0 <= i < |ws| ==> !ws[i].PutVersion?
    ensures Applied(c, ws).state == c.state
  {
    if ws != [] {
      RowsOnly(c, ws[..|ws| - 1]);
    }
  }

  /** Wherever the store stops taking writes, replacing a collection leaves it interrupted. */
  lemma ReplaceCut(c: Coll, macs: seq<MacPair>, state: HashState, budget: nat)
    ensures var ws := ReplaceWrites(macs, state);
      Interrupted(c, Applied(c, ws), Applied(c, Taken(ws, budget)))
  {
    var ws := ReplaceWrites(macs, state);
    if budget < |ws| {
      assert forall i :: 0 <= i < |ws| - 1 ==> !ws[i].PutVersion?;
      RowsOnly(c, ws[..budget]);
    }
  }

  /** An interrupted snapshot, repeated, ends where it would have. */
  lemma SnapshotRetry(p: Primitives, c: Coll, pl: PatchList, keys: KeyMap, validate: bool, budget: nat)
    requires SnapshotPhase(p, c, pl, keys, validate).Ok?
    ensures var left := Applied(c, Taken(SnapshotWrites(p, c, pl, keys, validate), budget));
      && SnapshotPhase(p, left, pl, keys, validate).Ok?
      && ProcessedList(p, left, pl, keys, validate).0 == ProcessedList(p, c, pl, keys, validate).0
      && (SnapshotApplies(c, pl) && budget < |SnapshotWrites(p, c, pl, keys, validate)| ==>
            SnapshotApplies(left, pl)
            && ProcessedList(p, left, pl, keys, validate) == ProcessedList(p, c, pl, keys, validate))
  {
    if SnapshotApplies(c, pl) {
      var r := ProcessedSnapshot(p, pl.snapshot.value, keys, validate, pl.name).value;
      var state := r.state.(bootstrapped := !pl.hasMore);
      ReplaceCut(c, r.macs, state, budget);
      ReplaceApplies(c, r.macs, state);
      Repeatable(p, c, pl, keys, validate, Applied(c, Taken(ReplaceWrites(r.macs, state), budget)));
      if budget < |ReplaceWrites(r.macs, state)| {
        VersionKept(c, r.macs, state, budget);
      }
    }
  }

  lemma VersionKept(c: Coll, macs: seq<MacPair>, state: HashState, budget: nat)
    requires budget < |ReplaceWrites(macs, state)|
    ensures Applied(c, Taken(ReplaceWrites(macs, state), budget)).state == c.state
  {
    var ws := ReplaceWrites(macs, state);
    assert forall i :: 0 <= i < |ws| - 1 ==> !ws[i].PutVersion?;
    RowsOnly(c, ws[..budget]);
  }

  lemma Repeatable(p: Primitives, c: Coll, pl: PatchList, keys: KeyMap, validate: bool, left: Coll)
    requires SnapshotApplies(c, pl) && SnapshotPhase(p, c, pl, keys, validate).Ok?
    requires Interrupted(c, SnapshotPhase(p, c, pl, keys, validate).value.coll, left)
    ensures SnapshotPhase(p, left, pl, keys, validate).Ok?
    ensures ProcessedList(p, left, pl, keys, validate).0 == ProcessedList(p, c, pl, keys, validate).0
    ensures left.state == c.state ==>
      SnapshotApplies(left, pl) && ProcessedList(p, left, pl, keys, validate) == ProcessedList(p, c, pl, keys, validate)
  {
    var s := SnapshotPhase(p, c, pl, keys, validate).value;
    if left.state != c.state {
      var again := SnapshotPhase(p, left, pl, keys, validate);
      assert again.Ok? && again.value.coll == s.coll && again.value.state == s.state;
    }
  }

  /** The collection after calls that the store stopped, each within its snapshot's writes. */
  ghost function Crashed(p: Primitives, c: Coll, pl: PatchList, keys: KeyMap, validate: bool, budgets: seq<nat>): Coll {
    if budgets == [] then c
    else
      var before := Crashed(p, c, pl, keys, validate, budgets[..|budgets| - 1]);
      Applied(before, Taken(ListWrites(p, before, pl, keys, validate), budgets[|budgets| - 1]))
  }

  ghost predicate WithinSnapshot(p: Primitives, c: Coll, pl: PatchList, keys: KeyMap, validate: bool,
                                 budgets: seq<nat>)
  {
    forall i :: 0 <= i < |budgets| ==> StopsWithin(p, c, pl, keys, validate, budgets[..i], budgets[i])
  }

  ghost predicate StopsWithin(p: Primitives, c: Coll, pl: PatchList, keys: KeyMap, validate: bool, before: seq<nat>,
                              budget: nat)
  {
    budget <= |SnapshotWrites(p, Crashed(p, c, pl, keys, validate, before), pl, keys, validate)|
  }

  lemma WithinPrefix(p: Primitives, c: Coll, pl: PatchList, keys: KeyMap, validate: bool, budgets: seq<nat>)
    requires budgets != [] && WithinSnapshot(p, c, pl, keys, validate, budgets)
    ensures var rest := budgets[..|budgets| - 1];
      WithinSnapshot(p, c, pl, keys, validate, rest)
      && StopsWithin(p, c, pl, keys, validate, rest, budgets[|budgets| - 1])
  {
    var rest := budgets[..|budgets| - 1];
    forall i | 0 <= i < |rest| ensures StopsWithin(p, c, pl, keys, validate, rest[..i], rest[i]) {
      assert rest[..i] == budgets[..i] && rest[i] == budgets[i];
      assert StopsWithin(p, c, pl, keys, validate, budgets[..i], budgets[i]);
    }
  }

  /** One call stopped within its snapshot's writes. */
  lemma CallRetry(p: Primitives, c: Coll, pl: PatchList, keys: KeyMap, validate: bool, budget: nat)
    requires SnapshotPhase(p, c, pl, keys, validate).Ok? && budget <= |SnapshotWrites(p, c, pl, keys, validate)|
    ensures var left := Applied(c, Taken(ListWrites(p, c, pl, keys, validate), budget));
      SnapshotPhase(p, left, pl, keys, validate).Ok?
      && ProcessedList(p, left, pl, keys, validate).0 == ProcessedList(p, c, pl, keys, validate).0
  {
    TakenFirst(p, c, pl, keys, validate, budget);
    SnapshotRetry(p, c, pl, keys, validate, budget);
  }

  /** Any number of calls stopped at any write of the snapshot, then one that is let finish, end
      where a single uninterrupted call would have. */
  lemma {:induction false} SnapshotRetries(p: Primitives, c: Coll, pl: PatchList, keys: KeyMap, validate: bool,
                                           budgets: seq<nat>)
    requires SnapshotPhase(p, c, pl, keys, validate).Ok? && WithinSnapshot(p, c, pl, keys, validate, budgets)
    ensures var left := Crashed(p, c, pl, keys, validate, budgets);
      SnapshotPhase(p, left, pl, keys, validate).Ok?
      && ProcessedList(p, left, pl, keys, validate).0 == ProcessedList(p, c, pl, keys, validate).0
    decreases |budgets|
  {
    if budgets != [] {
      var rest := budgets[..|budgets| - 1];
      WithinPrefix(p, c, pl, keys, validate, budgets);
      SnapshotRetries(p, c, pl, keys, validate, rest);
      CallRetry(p, Crashed(p, c, pl, keys, validate, rest), pl, keys, validate, budgets[|budgets| - 1]);
    }
  }

  lemma TakenFirst(p: Primitives, c: Coll, pl: PatchList, keys: KeyMap, validate: bool, budget: nat)
    requires SnapshotPhase(p, c, pl, keys, validate).Ok? && budget <= |SnapshotWrites(p, c, pl, keys, validate)|
    ensures Taken(ListWrites(p, c, pl, keys, validate), budget)
       == Taken(SnapshotWrites(p, c, pl, keys, validate), budget)
  {
  }

  /** The same for recoveries, stopped anywhere at all. */
  lemma RecoveryRetry(p: Primitives, parse: IndexParser, c: Coll, rec: SnapshotRecovery, expected: string,
                      keys: KeyMap, budget: nat)
    ensures var left := Applied(c, Taken(RecoveryWrites(p, parse, c, rec, expected, true, keys), budget));
      Recover(p, parse, left, rec, expected, true, keys).0 == Recover(p, parse, c, rec, expected, true, keys).0
  {
    var r := Recover(p, parse, c, rec, expected, true, keys);
    if r.1.Ok? && r.1.value.Recovered? {
      var macs := RowsTo(p, parse, rec.records, |rec.records|, keys).value.macs;
      ReplaceCut(c, macs, r.0.state.value, budget);
      ReplaceApplies(c, macs, r.0.state.value);
    }
  }

  ghost function CrashedRecovery(p: Primitives, parse: IndexParser, c: Coll, rec: SnapshotRecovery, expected: string,
                                 keys: KeyMap, budgets: seq<nat>): Coll
  {
    if budgets == [] then c
    else
      var before := CrashedRecovery(p, parse, c, rec, expected, keys, budgets[..|budgets| - 1]);
      Applied(before, Taken(RecoveryWrites(p, parse, before, rec, expected, true, keys), budgets[|budgets| - 1]))
  }

  lemma {:induction false} RecoveryRetries(p: Primitives, parse: IndexParser, c: Coll, rec: SnapshotRecovery,
                                           expected: string, keys: KeyMap, budgets: seq<nat>)
    ensures Recover(p, parse, CrashedRecovery(p, parse, c, rec, expected, keys, budgets), rec, expected, true, keys).0
      == Recover(p, parse, c, rec, expected, true, keys).0
    decreases |budgets|
  {
    if budgets != [] {
      var rest := budgets[..|budgets| - 1];
      RecoveryRetries(p, parse, c, rec, expected, keys, rest);
      RecoveryRetry(p, parse, CrashedRecovery(p, parse, c, rec, expected, keys, rest), rec, expected, keys,
                    budgets[|budgets| - 1]);
    }
  }

  // ---------------------------------------------------------------- committing a patch

  /** The rows when the store stops after `n` of the writes of `commit_patch`. */
  function CutRows(store: Macs, ms: seq<Mutation>, n: nat): Macs
    requires AllKnown(ms)
  {
    var d := |Removed(ms)|;
    if n <= 1 then store
    else if n - 1 <= d then DeleteAll(store, Removed(ms)[..n - 1])
    else if n - 1 - d <= |Added(ms)| then PutAll(DeleteAll(store, Removed(ms)), Added(ms)[..n - 1 - d])
    else Commit(store, ms)
  }

  lemma CutDeletes(c: Coll, state: HashState, r: seq<Bytes>)
    ensures Applied(c, [PutVersion(state)] + DeleteWrites(r)) == Coll(Some(state), DeleteAll(c.macs, r))
  {
    OneWrite(c, PutVersion(state));
    AppliedConcat(c, [PutVersion(state)], DeleteWrites(r));
    DeletesApply(c.(state := Some(state)), r);
  }

  lemma CutPuts(c: Coll, state: HashState, r: seq<Bytes>, a: seq<MacPair>)
    ensures Applied(c, [PutVersion(state)] + DeleteWrites(r) + PutWrites(a))
         == Coll(Some(state), PutAll(DeleteAll(c.macs, r), a))
  {
    CutDeletes(c, state, r);
    AppliedConcat(c, [PutVersion(state)] + DeleteWrites(r), PutWrites(a));
    PutsApply(Coll(Some(state), DeleteAll(c.macs, r)), a);
  }

  lemma CommitCut(c: Coll, state: HashState, ms: seq<Mutation>, n: nat)
    requires AllKnown(ms) && 0 < n <= |CommitWrites(state, Removed(ms), Added(ms))|
    ensures Applied(c, CommitWrites(state, Removed(ms), Added(ms))[..n]) == Coll(Some(state), CutRows(c.macs, ms, n))
  {
    var r, a := Removed(ms), Added(ms);
    if n - 1 <= |r| {
      assert CommitWrites(state, r, a)[..n] == [PutVersion(state)] + DeleteWrites(r[..n - 1]);
      CutDeletes(c, state, r[..n - 1]);
      assert n == 1 ==> DeleteAll(c.macs, []) == c.macs;
    } else {
      var q := n - 1 - |r|;
      assert CommitWrites(state, r, a)[..n] == [PutVersion(state)] + DeleteWrites(r) + PutWrites(a[..q]);
      CutPuts(c, state, r, a[..q]);
    }
  }

  /** Version first. Once the store has taken any of the writes of `commit_patch`, the patch is
      refused for ever after, whether or not the others follow; and the law holds over what is
      there, whatever HKDF computes, exactly when every value MAC the scan added less those it
      removed matches the change in the rows, modulo 2^16. */
  lemma VersionFirstStrands(p: Primitives, c: Coll, patch: Patch, state: HashState, keys: KeyMap, validate: bool,
                            name: string, more: KeyMap, n: nat)
    requires ProcessedPatch(p, patch, state, c.macs, keys, validate, name).Ok?
    requires 0 < patch.version < 0xFFFF_FFFF_FFFF_FFFF
    requires var r := ProcessedPatch(p, patch, state, c.macs, keys, validate, name).value;
      0 < n <= |CommitWrites(r.state, r.removed, r.added)|
    ensures var r := ProcessedPatch(p, patch, state, c.macs, keys, validate, name).value;
      var left := Applied(c, CommitWrites(r.state, r.removed, r.added)[..n]);
      var ms := patch.mutations;
      && Complete(ms) && left == Coll(Some(r.state), CutRows(c.macs, ms, n))
      && ProcessedPatch(p, patch, r.state, left.macs, more, validate, name) == Err(PatchVersionMismatch)
      && (AlwaysFits(ms, c.macs, left.macs) <==> forall v :: OffCount(ms, c.macs, left.macs, v) % 0x1_0000 == 0)
  {
    AcceptedPatch(p, patch, state, c.macs, keys, validate, name);
    var r := ProcessedPatch(p, patch, state, c.macs, keys, validate, name).value;
    CommitCut(c, r.state, patch.mutations, n);
    FitsExactly(patch.mutations, c.macs, CutRows(c.macs, patch.mutations, n));
  }

  /** The scan added each value MAC as often as it removed it, modulo 2^16. */
  ghost predicate Even(s: Scan) {
    forall v :: Surplus(s, v) % 0x1_0000 == 0
  }

  lemma NoRowsChanged(ms: seq<Mutation>, store: Macs, v: Bytes)
    requires AllKnown(ms)
    ensures OffCount(ms, store, store, v) == Surplus(ScanOf(ms, Suppressed(ms), store, true), v)
  {
  }

  /** Right after the version the law holds exactly when the scan was even. */
  lemma VersionOnly(ms: seq<Mutation>, store: Macs)
    requires AllKnown(ms)
    ensures AlwaysFits(ms, store, store) <==> Even(ScanOf(ms, Suppressed(ms), store, true))
  {
    FitsExactly(ms, store, store);
    forall v ensures OffCount(ms, store, store, v) == Surplus(ScanOf(ms, Suppressed(ms), store, true), v) {
      NoRowsChanged(ms, store, v);
    }
    if Even(ScanOf(ms, Suppressed(ms), store, true)) {
      assert forall v :: OffCount(ms, store, store, v) % 0x1_0000 == 0;
    }
  }
}
