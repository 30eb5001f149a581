/** Which part of a call takes effect: when a snapshot or a recovery replaces the collection, when
    the first patch is taken, and when nothing is. Stated over the stored record alone. */
module Freshness {
  import opened Common
  import opened LtHash
  import opened SyncWire
  import opened PatchHash
  import opened SnapshotHash
  import opened Processor
  import opened Collection
  import opened Recovery

  /** Nothing is stored under a positive version at least as new. */
  predicate Newer(c: Coll, version: nat) {
    c.state.None? || c.state.value.version == 0 || version > c.state.value.version
  }

  /** No record, or one that no patch but the first can follow. */
  predicate Blank(c: Coll) {
    c.state.None? || (c.state.value.version == 0 && c.state.value.hash == EmptyHash())
  }

  /** The record, or that of a collection never synced. */
  function Record(c: Coll): HashState {
    if c.state == None then HashState(0, EmptyHash(), false, false) else c.state.value
  }

  // ---------------------------------------------------------------- snapshots

  /** The collection an accepted snapshot describes. */
  ghost function Described(p: Primitives, snap: Snapshot, hasMore: bool): Coll {
    var rows := Winners(snap.records);
    Coll(Some(HashState(snap.version, SumHash(p.derive, rows), false, !hasMore)), rows)
  }

  lemma DescribedIs(p: Primitives, pl: PatchList, keys: KeyMap, validate: bool)
    requires pl.snapshot.Some? && ProcessedSnapshot(p, pl.snapshot.value, keys, validate, pl.name).Ok?
    ensures var r := ProcessedSnapshot(p, pl.snapshot.value, keys, validate, pl.name).value;
      Coll(Some(r.state.(bootstrapped := !pl.hasMore)), PutAll(map[], r.macs))
      == Described(p, pl.snapshot.value, pl.hasMore)
  {
    SnapshotSum(p, pl.snapshot.value, keys, validate, pl.name);
  }

  /** A newer snapshot that is refused refuses the call, and nothing changes. */
  lemma SnapshotRefused(p: Primitives, c: Coll, pl: PatchList, keys: KeyMap, validate: bool)
    requires pl.snapshot.Some? && Newer(c, pl.snapshot.value.version)
    requires ProcessedSnapshot(p, pl.snapshot.value, keys, validate, pl.name).Err?
    ensures ProcessedList(p, c, pl, keys, validate)
         == (c, Err(ProcessedSnapshot(p, pl.snapshot.value, keys, validate, pl.name).error))
  {
  }

  lemma PhaseOfSnapshot(p: Primitives, c: Coll, pl: PatchList, keys: KeyMap, validate: bool)
    requires pl.snapshot.Some? && Newer(c, pl.snapshot.value.version)
    requires ProcessedSnapshot(p, pl.snapshot.value, keys, validate, pl.name).Ok?
    ensures var ms := ProcessedSnapshot(p, pl.snapshot.value, keys, validate, pl.name).value.mutations;
      var now := Described(p, pl.snapshot.value, pl.hasMore);
      SnapshotPhase(p, c, pl, keys, validate) == Ok(Step(now, now.state.value, ms))
  {
    DescribedIs(p, pl, keys, validate);
  }

  /** A newer snapshot that is accepted, alone in its list, replaces the collection by what it
      describes. */
  lemma SnapshotTaken(p: Primitives, c: Coll, pl: PatchList, keys: KeyMap, validate: bool)
    requires pl.snapshot.Some? && Newer(c, pl.snapshot.value.version) && pl.patches == []
    requires ProcessedSnapshot(p, pl.snapshot.value, keys, validate, pl.name).Ok?
    ensures var ms := ProcessedSnapshot(p, pl.snapshot.value, keys, validate, pl.name).value.mutations;
      var now := Described(p, pl.snapshot.value, pl.hasMore);
      ProcessedList(p, c, pl, keys, validate)
      == (if Blank(now) then now.(macs := map[]) else now, Ok(Outcome(ms, now.state.value, false)))
  {
    PhaseOfSnapshot(p, c, pl, keys, validate);
    var ms := ProcessedSnapshot(p, pl.snapshot.value, keys, validate, pl.name).value.mutations;
    assert ms + [] == ms;
  }

  /** What a call does after the snapshot does not depend on what the snapshot handed on. */
  lemma SameRest(p: Primitives, c: Coll, pl: PatchList, d: Coll, s: Step, keys: KeyMap, validate: bool)
    requires pl.patches != [] && SnapshotPhase(p, c, pl, keys, validate) == Ok(s)
    requires SnapshotPhase(p, d, pl.(snapshot := None), keys, validate) == Ok(s.(mutations := []))
    ensures var r, rest := ProcessedList(p, c, pl, keys, validate),
                           ProcessedList(p, d, pl.(snapshot := None), keys, validate);
      && r.0 == rest.0
      && r.1 == if rest.1.Err? then rest.1 else Ok(rest.1.value.(mutations := s.mutations + rest.1.value.mutations))
  {
    if NeedsRefetch(s.state, pl.patches) {
      assert s.mutations + [] == s.mutations;
    } else {
      assert Cleared(s) == Cleared(s.(mutations := []));
      var r := PatchPhase(p, Cleared(s), s.state, pl.patches, pl.hasMore, keys, validate, pl.name);
      if r.1.Ok? {
        assert Closing(r.0, c, pl, r.1.value.0) == Closing(r.0, d, pl.(snapshot := None), r.1.value.0);
        assert [] + r.1.value.1 == r.1.value.1;
      }
    }
  }

  /** Followed by patches, it leaves what those patches make of the collection it describes. */
  lemma SnapshotThenPatches(p: Primitives, c: Coll, pl: PatchList, keys: KeyMap, validate: bool)
    requires pl.snapshot.Some? && Newer(c, pl.snapshot.value.version) && pl.patches != []
    requires ProcessedSnapshot(p, pl.snapshot.value, keys, validate, pl.name).Ok?
    ensures var ms := ProcessedSnapshot(p, pl.snapshot.value, keys, validate, pl.name).value.mutations;
      var r := ProcessedList(p, c, pl, keys, validate);
      var rest := ProcessedList(p, Described(p, pl.snapshot.value, pl.hasMore), pl.(snapshot := None), keys, validate);
      && r.0 == rest.0
      && r.1 == if rest.1.Err? then rest.1 else Ok(rest.1.value.(mutations := ms + rest.1.value.mutations))
  {
    PhaseOfSnapshot(p, c, pl, keys, validate);
    var now := Described(p, pl.snapshot.value, pl.hasMore);
    var ms := ProcessedSnapshot(p, pl.snapshot.value, keys, validate, pl.name).value.mutations;
    assert SnapshotPhase(p, now, pl.(snapshot := None), keys, validate) == Ok(Step(now, now.state.value, []));
    SameRest(p, c, pl, now, Step(now, now.state.value, ms), keys, validate);
  }

  /** One that is not newer changes no row: the rows are those a list without it leaves, and with
      patches so is everything else. */
  lemma SnapshotIgnored(p: Primitives, c: Coll, pl: PatchList, keys: KeyMap, validate: bool)
    requires pl.snapshot.Some? && !Newer(c, pl.snapshot.value.version)
    ensures var r, without := ProcessedList(p, c, pl, keys, validate),
                              ProcessedList(p, c, pl.(snapshot := None), keys, validate);
      && r.0.macs == without.0.macs
      && (pl.patches != [] ==> r == without)
      && (pl.patches == [] ==>
            r == (Coll(Some(Record(c).(bootstrapped := Record(c).bootstrapped || !pl.hasMore)), c.macs),
                  Ok(Outcome([], Record(c).(bootstrapped := Record(c).bootstrapped || !pl.hasMore), false))))
  {
    var none: seq<Decoded> := [];
    assert none + none == none;
  }

  // ---------------------------------------------------------------- patches

  /** A list with neither snapshot nor patches records an empty collection once, at the end of a
      bootstrap that has nothing more to come; leftover rows of a blank one go. */
  lemma NothingSent(p: Primitives, c: Coll, pl: PatchList, keys: KeyMap, validate: bool)
    requires pl.snapshot.None? && pl.patches == []
    ensures var ends := !pl.hasMore && pl.snapshotRef.None? && pl.error.None?
                        && (c.state.None? || (c.state.value.version == 0 && !c.state.value.bootstrapped));
      ProcessedList(p, c, pl, keys, validate)
      == (Coll(if ends then Some(Record(c).(bootstrapped := true)) else c.state, if Blank(c) then map[] else c.macs),
          Ok(Outcome([], if ends then Record(c).(bootstrapped := true) else Record(c), false)))
  {
    var none: seq<Decoded> := [];
    assert none + none == none;
  }

  /** Over a blank collection a list that starts with any patch but the first asks for a refetch
      and changes nothing. */
  lemma FirstPatchAwaited(p: Primitives, c: Coll, pl: PatchList, keys: KeyMap, validate: bool)
    requires pl.snapshot.None? && pl.patches != [] && Blank(c) && pl.patches[0].version != 1
    ensures ProcessedList(p, c, pl, keys, validate) == (c, Ok(Outcome([], Record(c), true)))
  {
  }

  /** In every other case a patch is committed exactly when it is accepted: the first one over no
      rows at all, a later one over the stored rows. */
  lemma PatchTaken(p: Primitives, c: Coll, pl: PatchList, patch: Patch, keys: KeyMap, validate: bool)
    requires pl.snapshot.None? && pl.patches == [patch] && (Blank(c) ==> patch.version == 1)
    ensures var rows := if Blank(c) then map[] else c.macs;
      var r := ProcessedPatch(p, patch, Record(c), rows, keys, validate, pl.name);
      && (r.Err? ==> ProcessedList(p, c, pl, keys, validate) == (c.(macs := rows), Err(r.error)))
      && (r.Ok? ==>
            var next := r.value.state.(bootstrapped := Record(c).bootstrapped || !pl.hasMore);
            ProcessedList(p, c, pl, keys, validate)
            == (Coll(Some(next), PutAll(DeleteAll(rows, r.value.removed), r.value.added)),
                Ok(Outcome(r.value.mutations, next, false))))
  {
    var rows := if Blank(c) then map[] else c.macs;
    var r := ProcessedPatch(p, patch, Record(c), rows, keys, validate, pl.name);
    assert SnapshotPhase(p, c, pl, keys, validate) == Ok(Step(c, Record(c), []));
    assert Cleared(Step(c, Record(c), [])) == c.(macs := rows);
    if r.Ok? {
      PhaseOfOne(p, c.(macs := rows), Record(c), patch, pl.hasMore, keys, validate, pl.name);
      PhaseMutations(p, c.(macs := rows), Record(c), patch, pl.hasMore, keys, validate, pl.name);
      assert [] + r.value.mutations == r.value.mutations;
    } else {
      assert [patch][0] == patch;
    }
  }

  lemma PhaseMutations(p: Primitives, c: Coll, state: HashState, patch: Patch, hasMore: bool, keys: KeyMap,
                       validate: bool, name: string)
    requires ProcessedPatch(p, patch, state, c.macs, keys, validate, name).Ok?
    ensures var phase := PatchPhase(p, c, state, [patch], hasMore, keys, validate, name);
      phase.1.Ok? && phase.1.value.1 == ProcessedPatch(p, patch, state, c.macs, keys, validate, name).value.mutations
  {
    var r := ProcessedPatch(p, patch, state, c.macs, keys, validate, name).value;
    var next := r.state.(bootstrapped := state.bootstrapped || !hasMore);
    assert [patch][0] == patch && [patch][1..] == [];
    assert PatchPhase(p, Committed(c, r, next), next, [], hasMore, keys, validate, name)
        == (Committed(c, r, next), Ok((next, [])));
    assert r.mutations + [] == r.mutations;
  }

  // ---------------------------------------------------------------- recoveries

  /** A recovery answers "stale" exactly when it is for this collection and not newer. */
  lemma RecoveryStale(p: Primitives, parse: IndexParser, c: Coll, rec: SnapshotRecovery, expected: string,
                      current: bool, keys: KeyMap, held: nat, offered: nat)
    ensures Recover(p, parse, c, rec, expected, current, keys) == (c, Ok(Stale(held, offered))) <==>
      && rec.name == Some(expected) && rec.version == Some(offered)
      && c.state.Some? && held == c.state.value.version && !Newer(c, offered)
  {
  }

  /** What a record needs in order to be stored and handed on. */
  ghost predicate Usable(parse: IndexParser, r: RecoveryRecord) {
    && r.value.Some? && r.value.value.value.Some? && r.value.value.index.Some? && r.mac.Some? && |r.mac.value| == 32
    && parse(r.value.value.index.value).Some? && parse(r.value.value.index.value).value != []
  }

  /** It replaces the collection exactly when it is for it, newer, still wanted, carries a 128-byte
      hash, names an available key in every record, and the last record of every index and key is
      usable; otherwise nothing changes. */
  lemma RecoveryTakenExactly(p: Primitives, parse: IndexParser, c: Coll, rec: SnapshotRecovery, expected: string,
                             current: bool, keys: KeyMap)
    ensures var r := Recover(p, parse, c, rec, expected, current, keys);
      && (r.1.Ok? && r.1.value.Recovered? <==>
            && rec.name == Some(expected) && rec.version.Some? && Newer(c, rec.version.value) && current
            && rec.ltHash.Some? && |rec.ltHash.value| == 128
            && (forall i :: 0 <= i < |rec.records| ==>
                  rec.records[i].keyId.Some? && rec.records[i].keyId.value in keys)
            && (forall i :: 0 <= i < |rec.records| && Wins(rec.records, i) ==> Usable(parse, rec.records[i])))
      && (r.1.Ok? && r.1.value.Recovered? ==>
            && r.0.state.Some? && r.0.state.value.version == rec.version.value
            && HashBytes(r.0.state.value.hash) == rec.ltHash.value
            && r.0.state.value.bootstrapped && !r.0.state.value.macMismatchFatal
            && r.1.value.mutations == Handed(rec.records, |rec.records|))
      && (!(r.1.Ok? && r.1.value.Recovered?) ==> r.0 == c)
  {
    KeyPassIff(rec.records, keys);
    if KeyPass(rec.records, keys).None? {
      RowsExactly(p, parse, rec.records, |rec.records|, keys);
    }
    if rec.ltHash.Some? && |rec.ltHash.value| == 128 {
      BytesOfLanes(rec.ltHash.value);
    }
  }

  /** The actions of the winners among the first `n` records, in order, all of them SETs. */
  ghost function Handed(rs: seq<RecoveryRecord>, n: nat): seq<Decoded>
    requires n <= |rs|
  {
    if n == 0 then []
    else Handed(rs, n - 1) +
         if Wins(rs, n - 1) && rs[n - 1].value.Some? then [Decoded(Set, rs[n - 1].value.value)] else []
  }

  lemma {:induction false} RowsExactly(p: Primitives, parse: IndexParser, rs: seq<RecoveryRecord>, n: nat, keys: KeyMap)
    requires n <= |rs| && forall i :: 0 <= i < |rs| ==> rs[i].keyId.Some? && rs[i].keyId.value in keys
    ensures RowsTo(p, parse, rs, n, keys).Ok? <==> forall i :: 0 <= i < n && Wins(rs, i) ==> Usable(parse, rs[i])
    ensures RowsTo(p, parse, rs, n, keys).Ok? ==> RowsTo(p, parse, rs, n, keys).value.mutations == Handed(rs, n)
  {
    if n > 0 {
      RowsExactly(p, parse, rs, n - 1, keys);
      assert RowOf(p, parse, rs[n - 1], n - 1, keys).Ok? <==> Usable(parse, rs[n - 1]);
    }
  }
}
