/** What one patch does to the ltHash and to the MAC store, and when the two agree. */
module PatchHash {
  import opened Common
  import opened LtHash
  import opened SyncWire

  ghost predicate AllKnown(ms: seq<Mutation>) {
    forall i :: 0 <= i < |ms| ==> !ms[i].operation.Unknown?
  }

  /** Every mutation carries an index, the gate of the SET-suppression rule. */
  predicate IndexMode(ms: seq<Mutation>) {
    forall i :: 0 <= i < |ms| ==> IndexOf(ms[i]).Some?
  }

  /** The index MACs a run of mutations names under one operation. */
  function Indexes(ms: seq<Mutation>, op: Op): set<Bytes>
    requires AllKnown(ms)
  {
    set i | 0 <= i < |ms| && OpOf(ms[i]) == op && IndexOf(ms[i]).Some? :: IndexOf(ms[i]).value
  }

  function Suppressed(ms: seq<Mutation>): set<Bytes>
    requires AllKnown(ms)
  {
    if IndexMode(ms) then Indexes(ms, Remove) else {}
  }

  /** A stored row is only ever found through a 32-byte index MAC. */
  function Lookup(store: Macs, index: Bytes): Option<Bytes> {
    if |index| == 32 && index in store then Some(store[index]) else None
  }

  // ---------------------------------------------------------------- the scan

  datatype Scan = Scan(added: seq<Bytes>, removed: seq<Bytes>, overlay: Macs, missingRemove: bool)

  /** One turn of the loop in `update_hash`, with the lookup closure of `process_patch`:
      a SET is answered by the patch's own earlier SET before the store is asked. */
  function ScanStep(s: Scan, m: Mutation, suppressed: set<Bytes>, store: Macs, useOverlay: bool): Scan
    requires !m.operation.Unknown?
  {
    var isSet := OpOf(m).Set?;
    var s1 := if isSet && ValueOf(m).Some? then s.(added := s.added + [ValueMacTail(ValueOf(m).value)]) else s;
    if IndexOf(m).None? || (isSet && IndexOf(m).value in suppressed) then s1
    else
      var index := IndexOf(m).value;
      var prev := if useOverlay && isSet && index in s.overlay then Some(s.overlay[index]) else Lookup(store, index);
      s1.(removed := if prev.Some? then s.removed + [prev.value] else s.removed,
          missingRemove := s.missingRemove || (prev.None? && !isSet),
          overlay := if isSet && ValueOf(m).Some? then s.overlay[index := ValueMacTail(ValueOf(m).value)]
                     else s.overlay)
  }

  function ScanOf(ms: seq<Mutation>, suppressed: set<Bytes>, store: Macs, useOverlay: bool): Scan
    requires AllKnown(ms)
  {
    if ms == [] then Scan([], [], map[], false)
    else ScanStep(ScanOf(ms[..|ms| - 1], suppressed, store, useOverlay), ms[|ms| - 1], suppressed, store, useOverlay)
  }

  /** The hash after a patch, with the in-patch overlay of incoming processing or without. */
  ghost function HashWith(derive: Bytes -> Hash, base: Hash, ms: seq<Mutation>, store: Macs, useOverlay: bool): Hash
    requires AllKnown(ms)
  {
    var s := ScanOf(ms, Suppressed(ms), store, useOverlay);
    Folded(derive, base, s.removed, s.added)
  }

  ghost function HashAfter(derive: Bytes -> Hash, base: Hash, ms: seq<Mutation>, store: Macs): Hash
    requires AllKnown(ms)
  {
    HashWith(derive, base, ms, store, true)
  }

  // ---------------------------------------------------------------- the store

  function Removed(ms: seq<Mutation>): seq<Bytes>
    requires AllKnown(ms)
  {
    if ms == [] then []
    else
      var m := ms[|ms| - 1];
      Removed(ms[..|ms| - 1]) + (if OpOf(m).Remove? && IndexOf(m).Some? then [IndexOf(m).value] else [])
  }

  function Added(ms: seq<Mutation>): seq<MacPair>
    requires AllKnown(ms)
  {
    if ms == [] then []
    else
      var m := ms[|ms| - 1];
      Added(ms[..|ms| - 1]) +
      (if OpOf(m).Set? && IndexOf(m).Some? && ValueOf(m).Some?
       then [MacPair(IndexOf(m).value, ValueMacTail(ValueOf(m).value))]
       else [])
  }

  function PutAll(store: Macs, pairs: seq<MacPair>): Macs {
    if pairs == [] then store
    else PutAll(store, pairs[..|pairs| - 1])[pairs[|pairs| - 1].index := pairs[|pairs| - 1].value]
  }

  lemma PutAllSnoc(store: Macs, pairs: seq<MacPair>, x: MacPair)
    ensures PutAll(store, pairs + [x]) == PutAll(store, pairs)[x.index := x.value]
  {
    assert (pairs + [x])[..|pairs + [x]| - 1] == pairs;
  }

  function DeleteAll(store: Macs, indexes: seq<Bytes>): Macs {
    store - Elements(indexes)
  }

  /** The rows after `commit_patch`: deletions first, then insertions. */
  function Commit(store: Macs, ms: seq<Mutation>): Macs
    requires AllKnown(ms)
  {
    PutAll(DeleteAll(store, Removed(ms)), Added(ms))
  }

  // ---------------------------------------------------------------- whole patches

  /** What a decoded mutation looks like: a record has an index and a value. */
  ghost predicate CompleteOne(m: Mutation) {
    && !m.operation.Unknown?
    && (m.record.Some? ==> IndexOf(m).Some? && ValueOf(m).Some?)
  }

  ghost predicate Complete(ms: seq<Mutation>)
    ensures Complete(ms) ==> AllKnown(ms)
  {
    forall i :: 0 <= i < |ms| ==> CompleteOne(ms[i])
  }

  predicate SameOperation(a: Mutation, b: Mutation) {
    !a.operation.Unknown? && !b.operation.Unknown? && OpOf(a) == OpOf(b)
  }

  /** No index twice under one operation, the rule `detect_duplicate_index_in_patch` enforces. */
  ghost predicate DistinctPerOperation(ms: seq<Mutation>) {
    forall i, j :: 0 <= i < j < |ms| && SameOperation(ms[i], ms[j]) && IndexOf(ms[i]).Some? ==>
      IndexOf(ms[i]) != IndexOf(ms[j])
  }

  ghost predicate WellIndexed(ms: seq<Mutation>) {
    forall i :: 0 <= i < |ms| && IndexOf(ms[i]).Some? ==> |IndexOf(ms[i]).value| == 32
  }

  /** What validation lets through. */
  ghost predicate Regular(ms: seq<Mutation>) {
    Complete(ms) && WellIndexed(ms) && DistinctPerOperation(ms)
  }

  lemma IndexesSnoc(ms: seq<Mutation>, m: Mutation, op: Op)
    requires AllKnown(ms) && !m.operation.Unknown?
    ensures AllKnown(ms + [m])
    ensures Indexes(ms + [m], op) == Indexes(ms, op)
         + (if OpOf(m) == op && IndexOf(m).Some? then {IndexOf(m).value} else {})
  {
    var all := ms + [m];
    forall x | x in Indexes(ms, op) ensures x in Indexes(all, op) {
      var i :| 0 <= i < |ms| && OpOf(ms[i]) == op && IndexOf(ms[i]) == Some(x);
      assert all[i] == ms[i];
    }
    if OpOf(m) == op && IndexOf(m).Some? {
      assert all[|ms|] == m;
    }
  }

  ghost predicate Puts(pairs: seq<MacPair>, k: Bytes) {
    exists i :: 0 <= i < |pairs| && pairs[i].index == k
  }

  /** Deleting a row before a run of insertions only shows if nothing re-inserts it. */
  lemma {:induction false} PutAllAfterDelete(store: Macs, pairs: seq<MacPair>, k: Bytes)
    ensures PutAll(store - {k}, pairs) == if Puts(pairs, k) then PutAll(store, pairs) else PutAll(store, pairs) - {k}
  {
    if pairs != [] {
      var rest, last := pairs[..|pairs| - 1], pairs[|pairs| - 1];
      PutAllAfterDelete(store, rest, k);
      assert Puts(pairs, k) <==> Puts(rest, k) || last.index == k by {
        if Puts(rest, k) {
          var i :| 0 <= i < |rest| && rest[i].index == k;
          assert pairs[i].index == k;
        }
      }
    }
  }

  lemma {:induction false} AddedIndexes(ms: seq<Mutation>, k: Bytes)
    requires Complete(ms)
    ensures Puts(Added(ms), k) <==> k in Indexes(ms, Set)
  {
    if ms != [] {
      var rest, m := ms[..|ms| - 1], ms[|ms| - 1];
      AddedIndexes(rest, k);
      IndexesSnoc(rest, m, Set);
      assert ms == rest + [m];
      var tail := if OpOf(m).Set? && IndexOf(m).Some? then [MacPair(IndexOf(m).value, ValueMacTail(ValueOf(m).value))]
                  else [];
      assert Added(ms) == Added(rest) + tail;
      if Puts(Added(rest), k) {
        var i :| 0 <= i < |Added(rest)| && Added(rest)[i].index == k;
        assert Added(ms)[i].index == k;
      }
      if tail != [] {
        assert Added(ms)[|Added(rest)|] == tail[0];
      }
    }
  }

  lemma CommitSnoc(store: Macs, ms: seq<Mutation>, m: Mutation)
    requires Complete(ms) && CompleteOne(m)
    ensures AllKnown(ms + [m])
    ensures IndexOf(m).None? ==> Commit(store, ms + [m]) == Commit(store, ms)
    ensures OpOf(m).Set? && IndexOf(m).Some? ==>
      Commit(store, ms + [m]) == Commit(store, ms)[IndexOf(m).value := ValueMacTail(ValueOf(m).value)]
    ensures OpOf(m).Remove? && IndexOf(m).Some? ==>
      Commit(store, ms + [m]) ==
        if IndexOf(m).value in Indexes(ms, Set) then Commit(store, ms) else Commit(store, ms) - {IndexOf(m).value}
  {
    var all := ms + [m];
    assert all[..|all| - 1] == ms && all[|all| - 1] == m;
    if IndexOf(m).None? {
      assert Removed(all) == Removed(ms) && Added(all) == Added(ms);
    } else if OpOf(m).Set? {
      assert Removed(all) == Removed(ms);
      var pair := MacPair(IndexOf(m).value, ValueMacTail(ValueOf(m).value));
      assert Added(all) == Added(ms) + [pair];
      assert Added(all)[..|Added(all)| - 1] == Added(ms);
    } else {
      var k := IndexOf(m).value;
      assert Removed(all) == Removed(ms) + [k] && Added(all) == Added(ms);
      ElementsOfSnoc(Removed(ms), k);
      assert DeleteAll(store, Removed(all)) == DeleteAll(store, Removed(ms)) - {k};
      PutAllAfterDelete(DeleteAll(store, Removed(ms)), Added(ms), k);
      AddedIndexes(ms, k);
    }
  }
}
