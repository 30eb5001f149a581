/** The writes a call makes to the store, in order, down to single rows. A store that fails part
    of the way leaves exactly the writes before the failure. */
module StoreWrites {
  import opened Common
  import opened SyncWire
  import opened PatchHash
  import opened Processor
  import opened Collection
  import opened Recovery

  datatype Write = PutVersion(state: HashState) | ClearRows | PutRow(pair: MacPair) | DeleteRow(index: Bytes)

  function Wrote(c: Coll, w: Write): Coll {
    match w
    case PutVersion(state) => c.(state := Some(state))
    case ClearRows => c.(macs := map[])
    case PutRow(pair) => c.(macs := c.macs[pair.index := pair.value])
    case DeleteRow(index) => c.(macs := c.macs - {index})
  }

  function Applied(c: Coll, ws: seq<Write>): Coll {
    if ws == [] then c else Wrote(Applied(c, ws[..|ws| - 1]), ws[|ws| - 1])
  }

  lemma {:induction false} AppliedConcat(c: Coll, a: seq<Write>, b: seq<Write>)
    ensures Applied(c, a + b) == Applied(Applied(c, a), b)
  {
    if b == [] {
      assert a + b == a;
    } else {
      AppliedConcat(c, a, b[..|b| - 1]);
      assert (a + b)[..|a + b| - 1] == a + b[..|b| - 1];
    }
  }

  function PutWrites(macs: seq<MacPair>): (ws: seq<Write>)
    ensures |ws| == |macs|
  {
    seq(|macs|, i requires 0 <= i < |macs| => PutRow(macs[i]))
  }

  function DeleteWrites(indexes: seq<Bytes>): (ws: seq<Write>)
    ensures |ws| == |indexes|
  {
    seq(|indexes|, i requires 0 <= i < |indexes| => DeleteRow(indexes[i]))
  }

  lemma {:induction false} PutsApply(c: Coll, macs: seq<MacPair>)
    ensures Applied(c, PutWrites(macs)) == c.(macs := PutAll(c.macs, macs))
  {
    if macs != [] {
      var rest := macs[..|macs| - 1];
      PutsApply(c, rest);
      assert PutWrites(macs)[..|macs| - 1] == PutWrites(rest);
    }
  }

  lemma {:induction false} DeletesApply(c: Coll, indexes: seq<Bytes>)
    ensures Applied(c, DeleteWrites(indexes)) == c.(macs := DeleteAll(c.macs, indexes))
  {
    if indexes == [] {
      assert DeleteAll(c.macs, indexes) == c.macs;
    } else {
      var rest := indexes[..|indexes| - 1];
      DeletesApply(c, rest);
      assert DeleteWrites(indexes)[..|indexes| - 1] == DeleteWrites(rest);
      assert indexes == rest + [indexes[|indexes| - 1]];
      ElementsOfSnoc(rest, indexes[|indexes| - 1]);
    }
  }

  /** How a snapshot or a recovery replaces a collection: the version last. */
  function ReplaceWrites(macs: seq<MacPair>, state: HashState): seq<Write> {
    [ClearRows] + PutWrites(macs) + [PutVersion(state)]
  }

  /** The default `commit_patch`: the version first. */
  function CommitWrites(state: HashState, removed: seq<Bytes>, added: seq<MacPair>): seq<Write> {
    [PutVersion(state)] + DeleteWrites(removed) + PutWrites(added)
  }

  lemma ReplaceApplies(c: Coll, macs: seq<MacPair>, state: HashState)
    ensures Applied(c, ReplaceWrites(macs, state)) == Coll(Some(state), PutAll(map[], macs))
  {
    var ws := ReplaceWrites(macs, state);
    assert ws[..|ws| - 1] == [ClearRows] + PutWrites(macs);
    AppliedConcat(c, [ClearRows], PutWrites(macs));
    assert Applied(c, [ClearRows]) == c.(macs := map[]) by { assert [ClearRows][..0] == []; }
    PutsApply(c.(macs := map[]), macs);
  }

  lemma CommitApplies(c: Coll, state: HashState, removed: seq<Bytes>, added: seq<MacPair>)
    ensures Applied(c, CommitWrites(state, removed, added))
         == Coll(Some(state), PutAll(DeleteAll(c.macs, removed), added))
  {
    AppliedConcat(c, [PutVersion(state)] + DeleteWrites(removed), PutWrites(added));
    AppliedConcat(c, [PutVersion(state)], DeleteWrites(removed));
    var c1 := c.(state := Some(state));
    assert Applied(c, [PutVersion(state)]) == c1 by { assert [PutVersion(state)][..0] == []; }
    DeletesApply(c1, removed);
    PutsApply(c1.(macs := DeleteAll(c.macs, removed)), added);
  }

  // ---------------------------------------------------------------- a store that fails

  /** Of the writes `ws`, a store that takes `budget` more has taken these. */
  function Taken(ws: seq<Write>, budget: nat): seq<Write> {
    if budget < |ws| then ws[..budget] else ws
  }

  /** `ws` was attempted on `c` with `budget` writes left: what is there and what is left after. */
  ghost predicate Ran(c: Coll, ws: seq<Write>, budget: nat, after: Coll, left: nat) {
    after == Applied(c, Taken(ws, budget)) && left == budget - |Taken(ws, budget)|
  }

  /** A first part that went through, then a second. */
  lemma RanThen(c: Coll, a: seq<Write>, b: seq<Write>, budget: nat, mid: Coll, left: nat, after: Coll, rest: nat)
    requires Ran(c, a, budget, mid, left) && |a| <= budget && Ran(mid, b, left, after, rest)
    ensures Ran(c, a + b, budget, after, rest)
  {
    assert Taken(a + b, budget) == a + Taken(b, left);
    AppliedConcat(c, a, Taken(b, left));
  }

  /** A first part that did not go through is all there is. */
  lemma RanShort(c: Coll, a: seq<Write>, b: seq<Write>, budget: nat, after: Coll, left: nat)
    requires Ran(c, a, budget, after, left) && budget < |a|
    ensures Ran(c, a + b, budget, after, left) && budget < |a + b|
  {
    assert Taken(a + b, budget) == Taken(a, budget);
  }

  // ---------------------------------------------------------------- the writes of a call

  ghost function SnapshotWrites(p: Primitives, c: Coll, pl: PatchList, keys: KeyMap, validate: bool): seq<Write> {
    if !SnapshotApplies(c, pl) then []
    else
      var r := ProcessedSnapshot(p, pl.snapshot.value, keys, validate, pl.name);
      if r.Err? then [] else ReplaceWrites(r.value.macs, r.value.state.(bootstrapped := !pl.hasMore))
  }

  ghost function PatchWrites(p: Primitives, c: Coll, state: HashState, patches: seq<Patch>, hasMore: bool, keys: KeyMap,
                             validate: bool, name: string): seq<Write>
    decreases |patches|
  {
    if patches == [] then []
    else
      var r := ProcessedPatch(p, patches[0], state, c.macs, keys, validate, name);
      if r.Err? then []
      else
        var next := r.value.state.(bootstrapped := state.bootstrapped || !hasMore);
        CommitWrites(next, r.value.removed, r.value.added)
        + PatchWrites(p, Committed(c, r.value, next), next, patches[1..], hasMore, keys, validate, name)
  }

  function WipeWrites(state: HashState): seq<Write> {
    if state.Unseeded() then [ClearRows] else []
  }

  function ClosingWrites(before: Coll, pl: PatchList, state: HashState): seq<Write> {
    if CloseRecords(before, pl) then [PutVersion(Closed(pl, state))] else []
  }

  /** The patches from `state` over `c`, and the closing record. */
  ghost function TailWrites(p: Primitives, before: Coll, c: Coll, state: HashState, pl: PatchList, keys: KeyMap,
                            validate: bool): seq<Write>
  {
    var r := PatchPhase(p, c, state, pl.patches, pl.hasMore, keys, validate, pl.name);
    PatchWrites(p, c, state, pl.patches, pl.hasMore, keys, validate, pl.name)
    + if r.1.Ok? then ClosingWrites(before, pl, r.1.value.0) else []
  }

  /** The writes after the snapshot has been dealt with. */
  ghost function RestWrites(p: Primitives, before: Coll, s: Step, pl: PatchList, keys: KeyMap, validate: bool)
    : seq<Write>
  {
    if NeedsRefetch(s.state, pl.patches) then []
    else WipeWrites(s.state) + TailWrites(p, before, Cleared(s), s.state, pl, keys, validate)
  }

  /** Every write of `process_patch_list`, in order. */
  ghost function ListWrites(p: Primitives, c: Coll, pl: PatchList, keys: KeyMap, validate: bool): seq<Write> {
    var s := SnapshotPhase(p, c, pl, keys, validate);
    if s.Err? then [] else SnapshotWrites(p, c, pl, keys, validate) + RestWrites(p, c, s.value, pl, keys, validate)
  }

  lemma SnapshotApplied(p: Primitives, c: Coll, pl: PatchList, keys: KeyMap, validate: bool)
    requires SnapshotPhase(p, c, pl, keys, validate).Ok?
    ensures Applied(c, SnapshotWrites(p, c, pl, keys, validate)) == SnapshotPhase(p, c, pl, keys, validate).value.coll
  {
    if SnapshotApplies(c, pl) {
      var r := ProcessedSnapshot(p, pl.snapshot.value, keys, validate, pl.name);
      ReplaceApplies(c, r.value.macs, r.value.state.(bootstrapped := !pl.hasMore));
    }
  }

  lemma {:induction false} PatchesApplied(p: Primitives, c: Coll, state: HashState, patches: seq<Patch>, hasMore: bool,
                                          keys: KeyMap, validate: bool, name: string)
    ensures Applied(c, PatchWrites(p, c, state, patches, hasMore, keys, validate, name))
      == PatchPhase(p, c, state, patches, hasMore, keys, validate, name).0
    decreases |patches|
  {
    if patches != [] {
      var r := ProcessedPatch(p, patches[0], state, c.macs, keys, validate, name);
      if r.Ok? {
        var next := r.value.state.(bootstrapped := state.bootstrapped || !hasMore);
        var c1 := Committed(c, r.value, next);
        CommitApplies(c, next, r.value.removed, r.value.added);
        PatchesApplied(p, c1, next, patches[1..], hasMore, keys, validate, name);
        AppliedConcat(c, CommitWrites(next, r.value.removed, r.value.added),
                      PatchWrites(p, c1, next, patches[1..], hasMore, keys, validate, name));
      }
    }
  }

  lemma OneWrite(c: Coll, w: Write)
    ensures Applied(c, [w]) == Wrote(c, w)
  {
    assert [w][..0] == [];
  }

  lemma TailApplied(p: Primitives, before: Coll, c: Coll, state: HashState, pl: PatchList, keys: KeyMap, validate: bool)
    ensures var r := PatchPhase(p, c, state, pl.patches, pl.hasMore, keys, validate, pl.name);
      Applied(c, TailWrites(p, before, c, state, pl, keys, validate))
      == if r.1.Ok? then Closing(r.0, before, pl, r.1.value.0).0 else r.0
  {
    var r := PatchPhase(p, c, state, pl.patches, pl.hasMore, keys, validate, pl.name);
    var patches := PatchWrites(p, c, state, pl.patches, pl.hasMore, keys, validate, pl.name);
    var close := if r.1.Ok? then ClosingWrites(before, pl, r.1.value.0) else [];
    AppliedConcat(c, patches, close);
    PatchesApplied(p, c, state, pl.patches, pl.hasMore, keys, validate, pl.name);
    if close != [] {
      OneWrite(r.0, close[0]);
    }
  }

  lemma RestApplied(p: Primitives, before: Coll, s: Step, pl: PatchList, keys: KeyMap, validate: bool)
    requires !NeedsRefetch(s.state, pl.patches)
    ensures var r := PatchPhase(p, Cleared(s), s.state, pl.patches, pl.hasMore, keys, validate, pl.name);
      Applied(s.coll, RestWrites(p, before, s, pl, keys, validate))
      == if r.1.Ok? then Closing(r.0, before, pl, r.1.value.0).0 else r.0
  {
    AppliedConcat(s.coll, WipeWrites(s.state), TailWrites(p, before, Cleared(s), s.state, pl, keys, validate));
    OneWrite(s.coll, ClearRows);
    TailApplied(p, before, Cleared(s), s.state, pl, keys, validate);
  }

  /** Taken together, the writes leave exactly what the call is specified to leave. */
  lemma ListApplied(p: Primitives, c: Coll, pl: PatchList, keys: KeyMap, validate: bool)
    ensures Applied(c, ListWrites(p, c, pl, keys, validate)) == ProcessedList(p, c, pl, keys, validate).0
  {
    var s := SnapshotPhase(p, c, pl, keys, validate);
    if s.Ok? {
      SnapshotApplied(p, c, pl, keys, validate);
      AppliedConcat(c, SnapshotWrites(p, c, pl, keys, validate), RestWrites(p, c, s.value, pl, keys, validate));
      if !NeedsRefetch(s.value.state, pl.patches) {
        RestApplied(p, c, s.value, pl, keys, validate);
      }
    }
  }

  ghost function RecoveryWrites(p: Primitives, parse: IndexParser, c: Coll, rec: SnapshotRecovery, expected: string,
                                current: bool, keys: KeyMap): seq<Write>
  {
    var r := Recover(p, parse, c, rec, expected, current, keys);
    if r.1.Ok? && r.1.value.Recovered? then
      ReplaceWrites(RowsTo(p, parse, rec.records, |rec.records|, keys).value.macs, r.0.state.value)
    else []
  }

  lemma RecoveryApplied(p: Primitives, parse: IndexParser, c: Coll, rec: SnapshotRecovery, expected: string,
                        current: bool, keys: KeyMap)
    ensures Applied(c, RecoveryWrites(p, parse, c, rec, expected, current, keys))
      == Recover(p, parse, c, rec, expected, current, keys).0
  {
    var r := Recover(p, parse, c, rec, expected, current, keys);
    if r.1.Ok? && r.1.value.Recovered? {
      ReplaceApplies(c, RowsTo(p, parse, rec.records, |rec.records|, keys).value.macs, r.0.state.value);
    }
  }
}
