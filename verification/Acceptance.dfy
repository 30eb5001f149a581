/** Which patches the processor can accept at all, and the exact condition on a patch under which
    every acceptance of it keeps the sum law. */
module Acceptance {
  import opened Common
  import opened LtHash
  import opened SyncWire
  import opened PatchHash
  import opened PatchBalance
  import opened Processor

  // ---------------------------------------------------------------- what can be accepted

  /** Long enough to hold a MAC and a ciphertext, and naming its key. */
  ghost predicate Readable(m: Mutation) {
    && CompleteOne(m)
    && (m.record.Some? ==> |ValueOf(m).value| >= 48 && m.record.value.keyId.Some?)
  }

  /** The key id and the ciphertext of a record: all that decryption depends on. */
  function Sealing(r: Record): (Option<Bytes>, Option<Bytes>) {
    (r.keyId, if r.value.Some? && |r.value.value| >= 32 then Some(r.value.value[..|r.value.value| - 32]) else None)
  }

  predicate SealedAs(m: Mutation, s: (Option<Bytes>, Option<Bytes>)) {
    m.record.Some? && Sealing(m.record.value) == s
  }

  /** A ciphertext decrypts to one index, so under validation it comes with one index MAC. */
  ghost predicate OneIndexPerSealing(ms: seq<Mutation>) {
    forall i, j | 0 <= i < |ms| && 0 <= j < |ms| && ms[i].record.Some? ::
      SealedAs(ms[j], Sealing(ms[i].record.value)) ==> IndexOf(ms[i]) == IndexOf(ms[j])
  }

  /** The mutations themselves give no reason to refuse them. */
  ghost predicate Acceptable(ms: seq<Mutation>, validate: bool)
    ensures Acceptable(ms, validate) ==> Complete(ms)
  {
    && (forall i :: 0 <= i < |ms| ==> Readable(ms[i]))
    && (validate ==> Regular(ms) && OneIndexPerSealing(ms))
  }

  /** The index MAC validation expects of a ciphertext. */
  function ExpectedIndex(p: Primitives, keys: KeyMap, s: (Option<Bytes>, Option<Bytes>)): Bytes {
    if s.0.None? || s.1.None? || s.0.value !in keys then []
    else
      var plain := p.open(s.1.value, keys[s.0.value]);
      if plain.None? then [] else p.indexMac(IndexBytes(plain.value), keys[s.0.value])
  }

  lemma DecodedOne(p: Primitives, m: Mutation, keys: KeyMap, validate: bool)
    requires !m.operation.Unknown? && m.record.Some?
    requires DecodeWith(p, OpOf(m), m.record.value, keys, validate).Ok?
    ensures Readable(m)
    ensures validate ==> IndexOf(m) == Some(ExpectedIndex(p, keys, Sealing(m.record.value)))
  {
  }

  lemma {:induction false} DecodedAll(p: Primitives, ms: seq<Mutation>, keys: KeyMap, validate: bool)
    requires AllKnown(ms) && DecodeAll(p, ms, keys, validate).Ok?
    ensures forall i :: 0 <= i < |ms| ==> Readable(ms[i])
    ensures validate ==> forall i :: 0 <= i < |ms| && ms[i].record.Some? ==>
      IndexOf(ms[i]) == Some(ExpectedIndex(p, keys, Sealing(ms[i].record.value)))
  {
    if ms != [] {
      var rest, m := ms[..|ms| - 1], ms[|ms| - 1];
      DecodedAll(p, rest, keys, validate);
      assert forall i :: 0 <= i < |rest| ==> ms[i] == rest[i];
      if m.record.Some? {
        DecodedOne(p, m, keys, validate);
      }
    }
  }

  /** Nothing else is ever accepted. */
  lemma AcceptedIsAcceptable(p: Primitives, patch: Patch, state: HashState, store: Macs, keys: KeyMap, validate: bool,
                             name: string)
    requires ProcessedPatch(p, patch, state, store, keys, validate, name).Ok?
    ensures Acceptable(patch.mutations, validate)
  {
    AcceptedPatch(p, patch, state, store, keys, validate, name);
    UnknownOpIff(patch.mutations);
    DecodedAll(p, patch.mutations, keys, validate);
  }

  // ---------------------------------------------------------------- primitives that accept

  predicate Indexed(ms: seq<Mutation>, i: nat, s: (Option<Bytes>, Option<Bytes>))
    requires i < |ms|
  {
    SealedAs(ms[i], s) && IndexOf(ms[i]).Some?
  }

  /** The index MAC that comes with a ciphertext. */
  ghost function IndexAt(ms: seq<Mutation>, s: (Option<Bytes>, Option<Bytes>)): Bytes {
    if exists i :: 0 <= i < |ms| && Indexed(ms, i, s) then
      var i :| 0 <= i < |ms| && Indexed(ms, i, s);
      IndexOf(ms[i]).value
    else []
  }

  predicate Tagged(ms: seq<Mutation>, i: nat, op: Op, s: (Option<Bytes>, Option<Bytes>))
    requires i < |ms|
  {
    SealedAs(ms[i], s) && !ms[i].operation.Unknown? && OpOf(ms[i]) == op && ValueOf(ms[i]).Some?
    && |ValueOf(ms[i]).value| >= 32
  }

  /** The value MAC that comes with a ciphertext under one operation. */
  ghost function TailAt(ms: seq<Mutation>, op: Op, s: (Option<Bytes>, Option<Bytes>)): Mac {
    if exists i :: 0 <= i < |ms| && Tagged(ms, i, op, s) then
      var i :| 0 <= i < |ms| && Tagged(ms, i, op, s);
      ValueMacTail(ValueOf(ms[i]).value)
    else seq(32, _ => 0)
  }

  /** Primitives for which every MAC on these mutations is right and every ciphertext opens. */
  ghost function Accepting(ms: seq<Mutation>, derive: Bytes -> Hash): Primitives {
    Primitives(derive, b => Keys(b), (_, _, _, _) => [], (_, _, _, _, _) => [],
               (op, text, keyId, _) => TailAt(ms, op, (Some(keyId), Some(text))),
               (text, k: Keys) => Some(ActionData(Some(IndexAt(ms, (Some(k.material), Some(text)))), None)),
               (index, _) => if |index| == 32 then index else seq(32, _ => 0))
  }

  ghost function AllKeys(ms: seq<Mutation>): KeyMap {
    var ids := set i | 0 <= i < |ms| && ms[i].record.Some? && ms[i].record.value.keyId.Some? ::
      ms[i].record.value.keyId.value;
    map id | id in ids + {[]} :: Keys(id)
  }

  lemma IndexFound(ms: seq<Mutation>, i: nat)
    requires Acceptable(ms, true) && i < |ms| && ms[i].record.Some?
    ensures Some(IndexAt(ms, Sealing(ms[i].record.value))) == IndexOf(ms[i])
  {
    var s := Sealing(ms[i].record.value);
    assert Readable(ms[i]);
    assert Indexed(ms, i, s);
    var j :| 0 <= j < |ms| && Indexed(ms, j, s) && IndexAt(ms, s) == IndexOf(ms[j]).value;
    assert Indexed(ms, j, s) && SealedAs(ms[j], s);
  }

  lemma TailFound(ms: seq<Mutation>, i: nat)
    requires Acceptable(ms, true) && i < |ms| && ms[i].record.Some?
    ensures TailAt(ms, OpOf(ms[i]), Sealing(ms[i].record.value)) == ValueMacTail(ValueOf(ms[i]).value)
  {
    var s, op := Sealing(ms[i].record.value), OpOf(ms[i]);
    assert Readable(ms[i]);
    assert Tagged(ms, i, op, s);
    var j :| 0 <= j < |ms| && Tagged(ms, j, op, s) && TailAt(ms, op, s) == ValueMacTail(ValueOf(ms[j]).value);
    assert Tagged(ms, j, op, s) && SealedAs(ms[j], s) && IndexOf(ms[i]) == IndexOf(ms[j]);
    if i < j {
      assert SameOperation(ms[i], ms[j]);
      assert false;
    } else if j < i {
      assert SameOperation(ms[j], ms[i]);
      assert false;
    }
  }

  lemma OneDecodes(ms: seq<Mutation>, derive: Bytes -> Hash, i: nat, validate: bool)
    requires Acceptable(ms, validate) && i < |ms| && ms[i].record.Some?
    ensures DecodeWith(Accepting(ms, derive), OpOf(ms[i]), ms[i].record.value, AllKeys(ms), validate).Ok?
  {
    var r := ms[i].record.value;
    assert Readable(ms[i]);
    assert r.keyId.value in AllKeys(ms) && AllKeys(ms)[r.keyId.value] == Keys(r.keyId.value);
    if validate {
      IndexFound(ms, i);
      TailFound(ms, i);
    }
  }

  lemma {:induction false} PrefixDecodes(ms: seq<Mutation>, derive: Bytes -> Hash, n: nat, validate: bool)
    requires Acceptable(ms, validate) && n <= |ms|
    ensures DecodeAll(Accepting(ms, derive), ms[..n], AllKeys(ms), validate).Ok?
  {
    if n > 0 {
      PrefixDecodes(ms, derive, n - 1, validate);
      assert ms[..n][..n - 1] == ms[..n - 1] && ms[..n][n - 1] == ms[n - 1];
      if ms[n - 1].record.Some? {
        OneDecodes(ms, derive, n - 1, validate);
      }
    }
  }

  /** A signed patch with these mutations, for a collection at version 1. */
  function PatchOf(ms: seq<Mutation>): Patch { Patch(2, Some([]), Some([]), Some([]), ms, None) }

  function AtOne(hash: Hash): HashState { HashState(1, hash, false, true) }

  /** Everything acceptable is accepted by someone, whatever HKDF computes and whatever is stored. */
  lemma AcceptableIsAccepted(ms: seq<Mutation>, validate: bool, derive: Bytes -> Hash, hash: Hash, store: Macs)
    requires Acceptable(ms, validate)
    ensures ProcessedPatch(Accepting(ms, derive), PatchOf(ms), AtOne(hash), store, AllKeys(ms), validate, "").Ok?
  {
    UnknownOpIff(ms);
    PrefixDecodes(ms, derive, |ms|, validate);
    assert ms[..|ms|] == ms;
    assert [] in AllKeys(ms);
  }

  // ---------------------------------------------------------------- the exact condition

  /** However and wherever these mutations are accepted, the hash stays the sum of the rows. */
  ghost predicate KeepsLaw(ms: seq<Mutation>, validate: bool) {
    forall p: Primitives, patch: Patch, state: HashState, store: Macs, keys: KeyMap, name: string ::
      patch.mutations == ms && IsSumOf(p.derive, state.hash, store)
      && ProcessedPatch(p, patch, state, store, keys, validate, name).Ok? ==>
        LawAfter(p, ProcessedPatch(p, patch, state, store, keys, validate, name).value, store)
  }

  ghost predicate LawAfter(p: Primitives, r: PatchResult, store: Macs) {
    IsSumOf(p.derive, r.state.hash, PutAll(DeleteAll(store, r.removed), r.added))
  }

  /** A patch that is refused in any case, or that does no harm. */
  ghost predicate Safe(ms: seq<Mutation>, validate: bool) {
    Acceptable(ms, validate) ==> Harmless(ms)
  }

  lemma SafeKeeps(p: Primitives, patch: Patch, state: HashState, store: Macs, keys: KeyMap, validate: bool,
                  name: string)
    requires IsSumOf(p.derive, state.hash, store) && Safe(patch.mutations, validate)
    requires ProcessedPatch(p, patch, state, store, keys, validate, name).Ok?
    ensures LawAfter(p, ProcessedPatch(p, patch, state, store, keys, validate, name).value, store)
  {
    AcceptedPatch(p, patch, state, store, keys, validate, name);
    AcceptedIsAcceptable(p, patch, state, store, keys, validate, name);
    PatchKeepsSum(p.derive, state.hash, patch.mutations, store);
  }

  lemma KeptAgrees(ms: seq<Mutation>, validate: bool, store: Macs)
    requires KeepsLaw(ms, validate) && Acceptable(ms, validate)
    ensures AlwaysAgrees(ms, store)
  {
    forall derive: Bytes -> Hash, hash: Hash | IsSumOf(derive, hash, store)
      ensures IsSumOf(derive, HashAfter(derive, hash, ms, store), Commit(store, ms))
    {
      var p := Accepting(ms, derive);
      AcceptableIsAccepted(ms, validate, derive, hash, store);
      AcceptedPatch(p, PatchOf(ms), AtOne(hash), store, AllKeys(ms), validate, "");
      assert LawAfter(p, ProcessedPatch(p, PatchOf(ms), AtOne(hash), store, AllKeys(ms), validate, "").value, store);
    }
  }

  /** Validated or not, the law survives every acceptance of some mutations exactly when they are
      safe. The condition reads nothing but the mutations. */
  lemma SafeExactly(ms: seq<Mutation>, validate: bool)
    ensures KeepsLaw(ms, validate) <==> Safe(ms, validate)
  {
    if Safe(ms, validate) {
      forall p: Primitives, patch: Patch, state: HashState, store: Macs, keys: KeyMap, name: string |
        patch.mutations == ms && IsSumOf(p.derive, state.hash, store)
        && ProcessedPatch(p, patch, state, store, keys, validate, name).Ok?
        ensures LawAfter(p, ProcessedPatch(p, patch, state, store, keys, validate, name).value, store)
      {
        SafeKeeps(p, patch, state, store, keys, validate, name);
      }
    }
    if KeepsLaw(ms, validate) && Acceptable(ms, validate) {
      forall store ensures AlwaysAgrees(ms, store) {
        KeptAgrees(ms, validate, store);
      }
      HarmlessExactly(ms);
    }
  }

  /** No index is SET and REMOVEd outside index mode, unless an index repeats or is not a MAC. */
  ghost predicate Undoubled(ms: seq<Mutation>) {
    Regular(ms) ==> Doubled(ms) == {}
  }

  /** Under validation, safe is: refused in any case, or in index mode, or SETs and REMOVEs name
      different indexes. */
  lemma ValidatedSafe(ms: seq<Mutation>)
    ensures Safe(ms, true) <==> (Acceptable(ms, true) ==> Doubled(ms) == {})
    ensures Undoubled(ms) ==> Safe(ms, true)
  {
    if Acceptable(ms, true) {
      RegularHarmless(ms);
    }
  }
}
