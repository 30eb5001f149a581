/** What an accepted patch or snapshot does to the rows and the ltHash, read off the records
    themselves: which values leave the hash, which enter it, and which row each index ends with. */
module PatchEffect {
  import opened Common
  import opened LtHash
  import opened SyncWire
  import opened PatchHash
  import opened SnapshotHash
  import opened Processor

  // ---------------------------------------------------------------- one mutation

  /** A mutation sets unless it says otherwise. */
  predicate Sets(m: Mutation) { m.operation != Known(Remove) }

  predicate Names(m: Mutation, k: Bytes) { m.record.Some? && m.record.value.index == Some(k) }

  predicate Carries(m: Mutation) { m.record.Some? && m.record.value.value.Some? }

  predicate Writes(m: Mutation, k: Bytes) { Sets(m) && Names(m, k) && Carries(m) }

  function TailOf(m: Mutation): Bytes
    requires Carries(m)
  {
    ValueMacTail(m.record.value.value.value)
  }

  // ---------------------------------------------------------------- what enters and leaves the hash

  /** Every SET with a value adds its value MAC. */
  ghost function News(ms: seq<Mutation>, n: nat): seq<Bytes>
    requires n <= |ms|
  {
    if n == 0 then []
    else News(ms, n - 1) + if Sets(ms[n - 1]) && Carries(ms[n - 1]) then [TailOf(ms[n - 1])] else []
  }

  /** If all mutations have an index, a SET of an index the patch also removes leaves the
      subtraction to the REMOVE. */
  ghost predicate LeavesIt(ms: seq<Mutation>, k: Bytes) {
    && (forall n :: 0 <= n < |ms| ==> ms[n].record.Some? && ms[n].record.value.index.Some?)
    && (exists n :: 0 <= n < |ms| && !Sets(ms[n]) && Names(ms[n], k))
  }

  /** The value MAC of the last SET of `k` among the first `n` mutations. */
  ghost function LastSet(ms: seq<Mutation>, k: Bytes, n: nat): Option<Bytes>
    requires n <= |ms|
  {
    if n == 0 then None else if Writes(ms[n - 1], k) then Some(TailOf(ms[n - 1])) else LastSet(ms, k, n - 1)
  }

  /** What mutation `i` subtracts: nothing without an index or if it leaves it to a REMOVE; the
      patch's own last SET, if this is a SET and there is one; else the stored value of a 32-byte
      index, if any. */
  ghost function Old(ms: seq<Mutation>, store: Macs, i: nat): Option<Bytes>
    requires i < |ms|
  {
    if ms[i].record.None? || ms[i].record.value.index.None? then None
    else
      var k := ms[i].record.value.index.value;
      if Sets(ms[i]) && LeavesIt(ms, k) then None
      else if Sets(ms[i]) && LastSet(ms, k, i).Some? then LastSet(ms, k, i)
      else if |k| == 32 && k in store then Some(store[k]) else None
  }

  ghost function Olds(ms: seq<Mutation>, store: Macs, n: nat): seq<Bytes>
    requires n <= |ms|
  {
    if n == 0 then []
    else Olds(ms, store, n - 1) + if Old(ms, store, n - 1).Some? then [Old(ms, store, n - 1).value] else []
  }

  // ---------------------------------------------------------------- the scan computes them

  lemma Fields(m: Mutation)
    requires !m.operation.Unknown?
    ensures OpOf(m).Set? <==> Sets(m)
    ensures forall k :: IndexOf(m) == Some(k) <==> Names(m, k)
    ensures ValueOf(m).Some? <==> Carries(m)
    ensures Carries(m) ==> ValueMacTail(ValueOf(m).value) == TailOf(m)
  {
  }

  lemma SuppressedIff(ms: seq<Mutation>, k: Bytes)
    requires AllKnown(ms)
    ensures k in Suppressed(ms) <==> LeavesIt(ms, k)
  {
    forall n | 0 <= n < |ms|
      ensures IndexOf(ms[n]).Some? <==> ms[n].record.Some? && ms[n].record.value.index.Some?
      ensures OpOf(ms[n]) == Remove && IndexOf(ms[n]) == Some(k) <==> !Sets(ms[n]) && Names(ms[n], k)
    {
      Fields(ms[n]);
    }
    if k in Suppressed(ms) {
      var n :| 0 <= n < |ms| && OpOf(ms[n]) == Remove && IndexOf(ms[n]) == Some(k);
      assert !Sets(ms[n]) && Names(ms[n], k);
    }
  }

  ghost function ScanAt(ms: seq<Mutation>, store: Macs, n: nat): Scan
    requires AllKnown(ms) && n <= |ms|
  {
    ScanOf(ms[..n], Suppressed(ms), store, true)
  }

  lemma ScanNext(ms: seq<Mutation>, store: Macs, n: nat)
    requires AllKnown(ms) && n < |ms|
    ensures ScanAt(ms, store, n + 1) == ScanStep(ScanAt(ms, store, n), ms[n], Suppressed(ms), store, true)
  {
    assert ms[..n + 1][..n] == ms[..n] && ms[..n + 1][n] == ms[n];
  }

  ghost function Looked(overlay: Macs, k: Bytes): Option<Bytes> { if k in overlay then Some(overlay[k]) else None }

  /** The overlay holds the patch's own last SET of every index that subtracts at all. */
  lemma {:induction false} OverlayRecalls(ms: seq<Mutation>, store: Macs, k: Bytes, n: nat)
    requires AllKnown(ms) && n <= |ms| && k !in Suppressed(ms)
    ensures Looked(ScanAt(ms, store, n).overlay, k) == LastSet(ms, k, n)
  {
    if n > 0 {
      OverlayRecalls(ms, store, k, n - 1);
      ScanNext(ms, store, n - 1);
      Fields(ms[n - 1]);
    }
  }

  lemma StepTakes(ms: seq<Mutation>, store: Macs, n: nat)
    requires AllKnown(ms) && n < |ms|
    ensures var taken := Old(ms, store, n);
      var before, after := ScanAt(ms, store, n), ScanAt(ms, store, n + 1);
      && after.removed == before.removed + (if taken.Some? then [taken.value] else [])
      && after.added == before.added + (if Sets(ms[n]) && Carries(ms[n]) then [TailOf(ms[n])] else [])
      && (after.missingRemove <==> before.missingRemove || StrayRemove(ms[n], store))
  {
    ScanNext(ms, store, n);
    Fields(ms[n]);
    if IndexOf(ms[n]).Some? {
      SuppressedIff(ms, IndexOf(ms[n]).value);
      if IndexOf(ms[n]).value !in Suppressed(ms) {
        OverlayRecalls(ms, store, IndexOf(ms[n]).value, n);
      }
    }
  }

  /** A REMOVE with no stored value to subtract. */
  predicate StrayRemove(m: Mutation, store: Macs) {
    && !Sets(m) && m.record.Some? && m.record.value.index.Some?
    && !(|m.record.value.index.value| == 32 && m.record.value.index.value in store)
  }

  lemma {:induction false} ScanTakes(ms: seq<Mutation>, store: Macs, n: nat)
    requires AllKnown(ms) && n <= |ms|
    ensures ScanAt(ms, store, n).removed == Olds(ms, store, n) && ScanAt(ms, store, n).added == News(ms, n)
    ensures ScanAt(ms, store, n).missingRemove <==> exists i :: 0 <= i < n && StrayRemove(ms[i], store)
  {
    if n > 0 {
      ScanTakes(ms, store, n - 1);
      StepTakes(ms, store, n - 1);
    }
  }

  /** The hash of a patch: what each mutation takes leaves it, every SET's value enters. */
  lemma HashIs(derive: Bytes -> Hash, base: Hash, ms: seq<Mutation>, store: Macs)
    requires AllKnown(ms)
    ensures HashAfter(derive, base, ms, store) == Folded(derive, base, Olds(ms, store, |ms|), News(ms, |ms|))
  {
    assert ms[..|ms|] == ms;
    ScanTakes(ms, store, |ms|);
  }

  // ---------------------------------------------------------------- the rows

  lemma {:induction false} AddedRow(ms: seq<Mutation>, rows: Macs, k: Bytes, n: nat)
    requires AllKnown(ms) && n <= |ms|
    ensures Looked(PutAll(rows, Added(ms[..n])), k)
      == if LastSet(ms, k, n).Some? then LastSet(ms, k, n) else Looked(rows, k)
  {
    if n > 0 {
      AddedRow(ms, rows, k, n - 1);
      var front, m := ms[..n - 1], ms[n - 1];
      assert ms[..n][..n - 1] == front && ms[..n][n - 1] == m;
      Fields(m);
      if Sets(m) && Carries(m) && IndexOf(m).Some? {
        PutAllSnoc(rows, Added(front), MacPair(IndexOf(m).value, TailOf(m)));
      } else {
        assert Added(ms[..n]) == Added(front);
      }
    }
  }

  lemma {:induction false} RemovedIff(ms: seq<Mutation>, k: Bytes, n: nat)
    requires AllKnown(ms) && n <= |ms|
    ensures k in Elements(Removed(ms[..n])) <==> exists i :: 0 <= i < n && !Sets(ms[i]) && Names(ms[i], k)
  {
    if n > 0 {
      RemovedIff(ms, k, n - 1);
      var front, m := ms[..n - 1], ms[n - 1];
      assert ms[..n][..n - 1] == front && ms[..n][n - 1] == m;
      Fields(m);
      if IndexOf(m).Some? && !Sets(m) {
        ElementsOfSnoc(Removed(front), IndexOf(m).value);
      } else {
        assert Removed(ms[..n]) == Removed(front);
      }
    }
  }

  /** The row of `k` after a patch: its last SET, else nothing if it is removed, else as before. */
  lemma RowIs(ms: seq<Mutation>, store: Macs, k: Bytes)
    requires AllKnown(ms)
    ensures Looked(Commit(store, ms), k) ==
      if LastSet(ms, k, |ms|).Some? then LastSet(ms, k, |ms|)
      else if exists i :: 0 <= i < |ms| && !Sets(ms[i]) && Names(ms[i], k) then None
      else Looked(store, k)
  {
    assert ms[..|ms|] == ms;
    AddedRow(ms, DeleteAll(store, Removed(ms)), k, |ms|);
    RemovedIff(ms, k, |ms|);
  }

  /** An accepted patch: its hash, whatever HKDF computes, and every row. */
  lemma PatchEffectIs(p: Primitives, patch: Patch, state: HashState, store: Macs, keys: KeyMap, validate: bool,
                      name: string, k: Bytes)
    requires ProcessedPatch(p, patch, state, store, keys, validate, name).Ok?
    ensures var r, ms := ProcessedPatch(p, patch, state, store, keys, validate, name).value, patch.mutations;
      && r.state.hash == Folded(p.derive, state.hash, Olds(ms, store, |ms|), News(ms, |ms|))
      && Looked(PutAll(DeleteAll(store, r.removed), r.added), k) ==
           if LastSet(ms, k, |ms|).Some? then LastSet(ms, k, |ms|)
           else if exists i :: 0 <= i < |ms| && !Sets(ms[i]) && Names(ms[i], k) then None
           else Looked(store, k)
  {
    AcceptedPatch(p, patch, state, store, keys, validate, name);
    HashIs(p.derive, state.hash, patch.mutations, store);
    RowIs(patch.mutations, store, k);
  }

  // ---------------------------------------------------------------- snapshots

  /** A record of `k` with a value; a record without an index is one of the empty index. */
  predicate Describes(r: Record, k: Bytes) {
    r.value.Some? && k == if r.index.Some? then r.index.value else []
  }

  ghost function LastRecord(rs: seq<Record>, k: Bytes, n: nat): Option<Bytes>
    requires n <= |rs|
  {
    if n == 0 then None
    else if Describes(rs[n - 1], k) then Some(ValueMacTail(rs[n - 1].value.value))
    else LastRecord(rs, k, n - 1)
  }

  /** The rows of a snapshot: the last record of every index. */
  lemma {:induction false} WinnersAre(rs: seq<Record>, k: Bytes, n: nat)
    requires n <= |rs|
    ensures Looked(Winners(rs[..n]), k) == LastRecord(rs, k, n)
  {
    if n > 0 {
      WinnersAre(rs, k, n - 1);
      assert rs[..n][..n - 1] == rs[..n - 1] && rs[..n][n - 1] == rs[n - 1];
      if rs[n - 1].value.Some? {
        LastMapSnoc(Entries(rs[..n - 1]), EntryOf(rs[n - 1]));
      } else {
        assert Entries(rs[..n]) == Entries(rs[..n - 1]);
      }
    }
  }
}
