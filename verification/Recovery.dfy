/** `apply_snapshot_recovery`: a collection rebuilt from what the primary device sent. */
module Recovery {
  import opened Common
  import opened LtHash
  import opened SyncWire
  import opened PatchHash
  import opened Collection

  datatype RecoveryRecord = RecoveryRecord(keyId: Option<Bytes>, value: Option<ActionData>, mac: Option<Bytes>)

  datatype SnapshotRecovery = SnapshotRecovery(
    name: Option<string>, version: Option<nat>, ltHash: Option<Bytes>, records: seq<RecoveryRecord>)

  datatype RecoveryError =
    | NamesNoCollection | WrongCollection | NoVersion | NoLtHash | LtHashLength
    | NoKeyId(i: nat) | KeyUnavailable
    | NoValue(i: nat) | NoActionValue(i: nat) | NoMac(i: nat) | MacLength(i: nat) | NoIndex(i: nat)
    | UnreadableIndex(i: nat) | EmptyIndex(i: nat) | WriteFailed

  datatype RecoveryOutcome = Recovered(mutations: seq<Decoded>) | Stale(held: nat, offered: nat) | Retired

  /** The JSON parser of index components. */
  type IndexParser = Bytes -> Option<seq<string>>

  // ---------------------------------------------------------------- one winner per row

  /** The pair a stored index MAC is derived from. */
  function PairOf(r: RecoveryRecord): Option<(Bytes, Bytes)> {
    if r.value.Some? && r.value.value.index.Some? && r.keyId.Some?
    then Some((r.value.value.index.value, r.keyId.value)) else None
  }

  /** Nothing later names the same index under the same key. */
  ghost predicate Wins(rs: seq<RecoveryRecord>, i: nat)
    requires i < |rs|
  {
    PairOf(rs[i]).Some? ==> forall n :: i < n < |rs| ==> PairOf(rs[n]) != PairOf(rs[i])
  }

  method ComputeWinners(rs: seq<RecoveryRecord>) returns (winners: seq<bool>)
    ensures |winners| == |rs|
    ensures forall i :: 0 <= i < |rs| ==> (winners[i] <==> Wins(rs, i))
  {
    winners := seq(|rs|, _ => true);
    var seen: set<(Bytes, Bytes)> := {};
    var i := |rs|;
    while i > 0
      invariant 0 <= i <= |rs| == |winners|
      invariant forall n :: 0 <= n < i ==> winners[n]
      invariant forall n :: i <= n < |rs| ==> (winners[n] <==> Wins(rs, n))
      invariant forall q :: q in seen <==> exists n :: i <= n < |rs| && PairOf(rs[n]) == Some(q)
    {
      i := i - 1;
      var pair := PairOf(rs[i]);
      if pair.Some? {
        if pair.value in seen {
          winners := winners[i := false];
        }
        seen := seen + {pair.value};
      }
    }
  }

  // ---------------------------------------------------------------- checking and folding

  /** What one record contributes: its row and its mutation, or the reason it refuses the
      whole recovery. */
  function RowOf(p: Primitives, parse: IndexParser, r: RecoveryRecord, i: nat, keys: KeyMap)
    : Result<(MacPair, Decoded), RecoveryError>
  {
    if r.value.None? then Err(NoValue(i))
    else if r.value.value.value.None? then Err(NoActionValue(i))
    else if r.keyId.None? then Err(NoKeyId(i))
    else if r.mac.None? then Err(NoMac(i))
    else if |r.mac.value| != 32 then Err(MacLength(i))
    else if r.value.value.index.None? then Err(NoIndex(i))
    else if r.keyId.value !in keys then Err(KeyUnavailable)
    else
      var index := r.value.value.index.value;
      var parsed := parse(index);
      if parsed.None? then Err(UnreadableIndex(i))
      else if parsed.value == [] then Err(EmptyIndex(i))
      else Ok((MacPair(p.indexMac(index, keys[r.keyId.value]), r.mac.value), Decoded(Set, r.value.value)))
  }

  lemma SameRow(p: Primitives, parse: IndexParser, r: RecoveryRecord, i: nat, keys: KeyMap, more: KeyMap)
    requires r.keyId.Some? && r.keyId.value in keys && r.keyId.value in more
    requires keys[r.keyId.value] == more[r.keyId.value]
    ensures RowOf(p, parse, r, i, keys) == RowOf(p, parse, r, i, more)
  {
  }

  datatype Rows = Rows(macs: seq<MacPair>, mutations: seq<Decoded>)

  /** The winners among the first `n` records. */
  ghost function RowsTo(p: Primitives, parse: IndexParser, rs: seq<RecoveryRecord>, n: nat, keys: KeyMap)
    : Result<Rows, RecoveryError>
    requires n <= |rs|
  {
    if n == 0 then Ok(Rows([], []))
    else
      var before := RowsTo(p, parse, rs, n - 1, keys);
      if before.Err? || !Wins(rs, n - 1) then before
      else
        var row := RowOf(p, parse, rs[n - 1], n - 1, keys);
        if row.Err? then Err(row.error)
        else Ok(Rows(before.value.macs + [row.value.0], before.value.mutations + [row.value.1]))
  }

  /** The key pass that runs before any record is looked at. */
  function KeyPass(rs: seq<RecoveryRecord>, keys: KeyMap): Option<RecoveryError> {
    if rs == [] then None
    else
      var before := KeyPass(rs[..|rs| - 1], keys);
      if before.Some? then before
      else if rs[|rs| - 1].keyId.None? then Some(NoKeyId(|rs| - 1))
      else if rs[|rs| - 1].keyId.value !in keys then Some(KeyUnavailable)
      else None
  }

  lemma {:induction false} KeyPassIff(rs: seq<RecoveryRecord>, keys: KeyMap)
    ensures KeyPass(rs, keys).None? <==> forall i :: 0 <= i < |rs| ==> rs[i].keyId.Some? && rs[i].keyId.value in keys
  {
    if rs != [] {
      var rest := rs[..|rs| - 1];
      KeyPassIff(rest, keys);
      assert forall i :: 0 <= i < |rest| ==> rest[i] == rs[i];
      if KeyPass(rs, keys).None? {
        forall i | 0 <= i < |rs| ensures rs[i].keyId.Some? && rs[i].keyId.value in keys {
          if i < |rest| { assert rest[i].keyId.Some? && rest[i].keyId.value in keys; }
        }
      }
    }
  }

  ghost function Recover(p: Primitives, parse: IndexParser, c: Coll, rec: SnapshotRecovery, expected: string,
                         current: bool, keys: KeyMap)
    : (Coll, Result<RecoveryOutcome, RecoveryError>)
  {
    if rec.name.None? then (c, Err(NamesNoCollection))
    else if rec.name.value != expected then (c, Err(WrongCollection))
    else if rec.version.None? then (c, Err(NoVersion))
    else if SnapshotIsStale(Held(c).version, rec.version.value) then (c, Ok(Stale(Held(c).version, rec.version.value)))
    else if rec.ltHash.None? then (c, Err(NoLtHash))
    else if |rec.ltHash.value| != 128 then (c, Err(LtHashLength))
    else if KeyPass(rec.records, keys).Some? then (c, Err(KeyPass(rec.records, keys).value))
    else
      var rows := RowsTo(p, parse, rec.records, |rec.records|, keys);
      if rows.Err? then (c, Err(rows.error))
      else if !current then (c, Ok(Retired))
      else
        (Coll(Some(HashState(rec.version.value, LanesOf(rec.ltHash.value), false, true)),
              PutAll(map[], rows.value.macs)),
         Ok(Recovered(rows.value.mutations)))
  }

  // ---------------------------------------------------------------- what it guarantees

  /** Every record, not only the winners, was complete. */
  ghost predicate AllComplete(rs: seq<RecoveryRecord>, keys: KeyMap) {
    forall i :: 0 <= i < |rs| ==> PairOf(rs[i]).Some? && rs[i].keyId.value in keys
  }

  lemma {:induction false} WinnersWereRows(p: Primitives, parse: IndexParser, rs: seq<RecoveryRecord>, n: nat,
                                           keys: KeyMap)
    requires n <= |rs| && RowsTo(p, parse, rs, n, keys).Ok?
    ensures forall i :: 0 <= i < n && Wins(rs, i) ==> RowOf(p, parse, rs[i], i, keys).Ok?
  {
    if n > 0 {
      WinnersWereRows(p, parse, rs, n - 1, keys);
    }
  }

  /** A record lacking its value, index or key id refuses the whole recovery. */
  lemma IncompleteRefuses(p: Primitives, parse: IndexParser, c: Coll, rec: SnapshotRecovery, expected: string,
                          current: bool, keys: KeyMap)
    requires Recover(p, parse, c, rec, expected, current, keys).1.Ok?
    requires !Recover(p, parse, c, rec, expected, current, keys).1.value.Stale?
    ensures AllComplete(rec.records, keys)
  {
    var rs := rec.records;
    KeyPassIff(rs, keys);
    WinnersWereRows(p, parse, rs, |rs|, keys);
    forall i | 0 <= i < |rs| ensures PairOf(rs[i]).Some? {
      if PairOf(rs[i]).None? {
        assert Wins(rs, i);
        assert false;
      }
    }
  }

  /** The row a complete record stands for. */
  function Row(p: Primitives, r: RecoveryRecord, keys: KeyMap): MacPair
    requires PairOf(r).Some? && r.keyId.value in keys
  {
    MacPair(p.indexMac(r.value.value.index.value, keys[r.keyId.value]), if r.mac.Some? then r.mac.value else [])
  }

  /** Plain last-write-wins over every record, losers included. */
  ghost function LastWrite(p: Primitives, rs: seq<RecoveryRecord>, n: nat, keys: KeyMap): Macs
    requires n <= |rs| && AllComplete(rs, keys)
  {
    if n == 0 then map[]
    else
      var row := Row(p, rs[n - 1], keys);
      LastWrite(p, rs, n - 1, keys)[row.index := row.value]
  }

  /** Rows still to be overwritten by a later record of the same pair. */
  ghost predicate Overwritten(p: Primitives, rs: seq<RecoveryRecord>, n: nat, keys: KeyMap, k: Bytes)
    requires n <= |rs| && AllComplete(rs, keys)
  {
    exists i :: n <= i < |rs| && Row(p, rs[i], keys).index == k
  }

  ghost predicate AgreeAt(kept: Macs, all: Macs, k: Bytes) {
    (k in kept <==> k in all) && (k in kept ==> kept[k] == all[k])
  }

  ghost function Kept(p: Primitives, parse: IndexParser, rs: seq<RecoveryRecord>, n: nat, keys: KeyMap): Macs
    requires n <= |rs| && RowsTo(p, parse, rs, n, keys).Ok?
  {
    PutAll(map[], RowsTo(p, parse, rs, n, keys).value.macs)
  }

  lemma KeptStep(p: Primitives, parse: IndexParser, rs: seq<RecoveryRecord>, n: nat, keys: KeyMap)
    requires 0 < n <= |rs| && AllComplete(rs, keys) && RowsTo(p, parse, rs, n, keys).Ok?
    ensures RowsTo(p, parse, rs, n - 1, keys).Ok?
    ensures var row := Row(p, rs[n - 1], keys);
      Kept(p, parse, rs, n, keys) ==
        if Wins(rs, n - 1) then Kept(p, parse, rs, n - 1, keys)[row.index := row.value]
        else Kept(p, parse, rs, n - 1, keys)
  {
    if Wins(rs, n - 1) {
      PutAllSnoc(map[], RowsTo(p, parse, rs, n - 1, keys).value.macs, Row(p, rs[n - 1], keys));
    }
  }

  lemma LoserIsOverwritten(p: Primitives, rs: seq<RecoveryRecord>, n: nat, keys: KeyMap)
    requires 0 < n <= |rs| && AllComplete(rs, keys) && !Wins(rs, n - 1)
    ensures Overwritten(p, rs, n, keys, Row(p, rs[n - 1], keys).index)
  {
    var i :| n - 1 < i < |rs| && PairOf(rs[i]) == PairOf(rs[n - 1]);
    assert Row(p, rs[i], keys).index == Row(p, rs[n - 1], keys).index;
  }

  lemma {:induction false} DedupAgreesSoFar(p: Primitives, parse: IndexParser, rs: seq<RecoveryRecord>, n: nat,
                                            keys: KeyMap, k: Bytes)
    requires n <= |rs| && AllComplete(rs, keys) && RowsTo(p, parse, rs, n, keys).Ok? && !Overwritten(p, rs, n, keys, k)
    ensures AgreeAt(Kept(p, parse, rs, n, keys), LastWrite(p, rs, n, keys), k)
  {
    if n > 0 {
      KeptStep(p, parse, rs, n, keys);
      if Row(p, rs[n - 1], keys).index != k {
        EarlierAlike(p, rs, n, keys, k);
        DedupAgreesSoFar(p, parse, rs, n - 1, keys, k);
      } else if !Wins(rs, n - 1) {
        LoserIsOverwritten(p, rs, n, keys);
      }
    }
  }

  lemma EarlierAlike(p: Primitives, rs: seq<RecoveryRecord>, n: nat, keys: KeyMap, k: Bytes)
    requires 0 < n <= |rs| && AllComplete(rs, keys) && !Overwritten(p, rs, n, keys, k)
    requires Row(p, rs[n - 1], keys).index != k
    ensures !Overwritten(p, rs, n - 1, keys, k)
  {
  }

  /** Keeping one winner per (index, key id) stores exactly what writing every record in
      order would. */
  lemma DedupIsLastWrite(p: Primitives, parse: IndexParser, rs: seq<RecoveryRecord>, keys: KeyMap)
    requires AllComplete(rs, keys) && RowsTo(p, parse, rs, |rs|, keys).Ok?
    ensures PutAll(map[], RowsTo(p, parse, rs, |rs|, keys).value.macs) == LastWrite(p, rs, |rs|, keys)
  {
    var kept, all := Kept(p, parse, rs, |rs|, keys), LastWrite(p, rs, |rs|, keys);
    forall k ensures AgreeAt(kept, all, k) {
      DedupAgreesSoFar(p, parse, rs, |rs|, keys, k);
    }
    assert forall k :: k in kept <==> AgreeAt(kept, all, k) && k in all;
  }

  /** Winners use every key id the records use: a loser shares its winner's. */
  lemma WinnersUseEveryKey(rs: seq<RecoveryRecord>, i: nat)
    requires i < |rs|
    ensures exists n :: i <= n < |rs| && Wins(rs, n) && rs[n].keyId == rs[i].keyId
    decreases |rs| - i
  {
    if !Wins(rs, i) {
      var n :| i < n < |rs| && PairOf(rs[n]) == PairOf(rs[i]);
      WinnersUseEveryKey(rs, n);
    }
  }

  /** An applied recovery: newer than any positive version held, its rows last-write-wins,
      and sound exactly when the primary's hash is the sum of those rows. */
  lemma RecoveredCollection(p: Primitives, parse: IndexParser, c: Coll, rec: SnapshotRecovery, expected: string,
                            current: bool, keys: KeyMap)
    requires var r := Recover(p, parse, c, rec, expected, current, keys); r.1.Ok? && r.1.value.Recovered?
    ensures var after := Recover(p, parse, c, rec, expected, current, keys).0;
      && AllComplete(rec.records, keys)
      && after.macs == LastWrite(p, rec.records, |rec.records|, keys)
      && (Held(c).version > 0 ==> Held(after).version > Held(c).version)
      && Held(after).HasBaseline()
      && rec.ltHash.Some? && rec.ltHash.value == HashBytes(Held(after).hash)
      && (IsSumOf(p.derive, Held(after).hash, after.macs)
          <==> rec.ltHash.value == HashBytes(SumHash(p.derive, LastWrite(p, rec.records, |rec.records|, keys))))
  {
    IncompleteRefuses(p, parse, c, rec, expected, current, keys);
    DedupIsLastWrite(p, parse, rec.records, keys);
    SumHashIsSum(p.derive, LastWrite(p, rec.records, |rec.records|, keys), LanesOf(rec.ltHash.value));
    BytesOfLanes(rec.ltHash.value);
    LanesOfBytes(SumHash(p.derive, LastWrite(p, rec.records, |rec.records|, keys)));
  }
}
