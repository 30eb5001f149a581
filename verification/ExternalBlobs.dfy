/** Inlining of external snapshot and mutation blobs, and the call that guards on it. */
module ExternalBlobs {
  import opened Common
  import opened SyncWire
  import opened Collection

  /** Download and decoding, either of which may fail. */
  datatype Blobs = Blobs(snapshot: Bytes -> Option<Snapshot>, mutations: Bytes -> Option<seq<Mutation>>)

  function InlinedSnapshot(pl: PatchList, b: Blobs): Option<Option<Snapshot>> {
    if pl.snapshot.Some? || pl.snapshotRef.None? then Some(pl.snapshot)
    else
      var s := b.snapshot(pl.snapshotRef.value);
      if s.None? then None else Some(s)
  }

  /** A consumed reference is removed, so a second pass fetches nothing. */
  function InlinedPatch(patch: Patch, b: Blobs): Option<Patch> {
    if patch.external.None? then Some(patch)
    else
      var ms := b.mutations(patch.external.value);
      if ms.None? then None else Some(patch.(mutations := ms.value, external := None))
  }

  function InlinedPatches(ps: seq<Patch>, b: Blobs): Option<seq<Patch>> {
    if ps == [] then Some([])
    else
      var rest, last := InlinedPatches(ps[..|ps| - 1], b), InlinedPatch(ps[|ps| - 1], b);
      if rest.None? || last.None? then None else Some(rest.value + [last.value])
  }

  function Inlined(pl: PatchList, b: Blobs): Option<PatchList> {
    var s, ps := InlinedSnapshot(pl, b), InlinedPatches(pl.patches, b);
    if s.None? || ps.None? then None else Some(pl.(snapshot := s.value, patches := ps.value))
  }

  /** The first `i` patches have been inlined in place. */
  ghost predicate InlinedTo(ps: seq<Patch>, b: Blobs, now: seq<Patch>, i: nat) {
    && i <= |ps| == |now|
    && InlinedPatches(ps[..i], b) == Some(now[..i])
    && now[i..] == ps[i..]
  }

  lemma InlineStep(ps: seq<Patch>, b: Blobs, now: seq<Patch>, i: nat)
    requires InlinedTo(ps, b, now, i) && i < |ps|
    ensures now[i] == ps[i]
    ensures InlinedPatch(ps[i], b).Some? ==> InlinedTo(ps, b, now[i := InlinedPatch(ps[i], b).value], i + 1)
    ensures InlinedPatch(ps[i], b).None? ==> InlinedPatches(ps, b).None?
  {
    assert now[i..][0] == ps[i..][0];
    assert ps[..i + 1][..i] == ps[..i];
    if InlinedPatch(ps[i], b).Some? {
      var next := now[i := InlinedPatch(ps[i], b).value];
      assert next[..i + 1] == now[..i] + [next[i]];
      assert next[i + 1..] == now[i..][1..] && ps[i + 1..] == ps[i..][1..];
    } else {
      InlineFails(ps, i + 1, b);
    }
  }

  /** `download_external_blobs`. On failure the list is left partly inlined. */
  method DownloadExternalBlobs(pl: PatchList, b: Blobs) returns (out: PatchList, ok: bool)
    ensures ok <==> Inlined(pl, b).Some?
    ensures ok ==> out == Inlined(pl, b).value
  {
    out := pl;
    if pl.snapshot.None? && pl.snapshotRef.Some? {
      var s := b.snapshot(pl.snapshotRef.value);
      if s.None? {
        return out, false;
      }
      out := out.(snapshot := s);
    }
    for i := 0 to |pl.patches|
      invariant InlinedSnapshot(pl, b).Some?
      invariant out == pl.(snapshot := InlinedSnapshot(pl, b).value, patches := out.patches)
      invariant InlinedTo(pl.patches, b, out.patches, i)
    {
      InlineStep(pl.patches, b, out.patches, i);
      var patch := out.patches[i];
      if patch.external.Some? {
        var ms := b.mutations(patch.external.value);
        if ms.None? {
          return out, false;
        }
        patch := patch.(mutations := ms.value, external := None);
      }
      out := out.(patches := out.patches[i := patch]);
    }
    assert pl.patches[..|pl.patches|] == pl.patches && out.patches[..|pl.patches|] == out.patches;
    ok := true;
  }

  lemma {:induction false} InlineFails(ps: seq<Patch>, i: nat, b: Blobs)
    requires i <= |ps| && InlinedPatches(ps[..i], b).None?
    ensures InlinedPatches(ps, b).None?
  {
    if i == |ps| {
      assert ps[..i] == ps;
    } else {
      assert ps[..|ps| - 1][..i] == ps[..i];
      InlineFails(ps[..|ps| - 1], i, b);
    }
  }

  lemma SnocInlined(ps: seq<Patch>, last: Patch, b: Blobs)
    requires InlinedPatches(ps, b) == Some(ps) && last.external.None?
    ensures InlinedPatches(ps + [last], b) == Some(ps + [last])
  {
    assert (ps + [last])[..|ps + [last]| - 1] == ps;
  }

  lemma {:induction false} InlinedPatchesAgain(ps: seq<Patch>, b: Blobs, again: Blobs)
    requires InlinedPatches(ps, b).Some?
    ensures InlinedPatches(InlinedPatches(ps, b).value, again) == InlinedPatches(ps, b)
  {
    if ps != [] {
      var rest, last := ps[..|ps| - 1], InlinedPatch(ps[|ps| - 1], b).value;
      InlinedPatchesAgain(rest, b, again);
      SnocInlined(InlinedPatches(rest, b).value, last, again);
    }
  }

  /** Whatever the second pass could download, it downloads nothing and changes nothing. */
  lemma InlineOnce(pl: PatchList, b: Blobs, again: Blobs)
    requires Inlined(pl, b).Some?
    ensures Inlined(Inlined(pl, b).value, again) == Inlined(pl, b)
  {
    InlinedPatchesAgain(pl.patches, b, again);
  }

  /** `process_one_patch_list`: a reported error or a failed fetch leaves the collection
      exactly as it was, to be fetched again. */
  ghost function ProcessedOne(p: Primitives, c: Coll, pl: PatchList, b: Blobs, keys: KeyMap, validate: bool)
    : (Coll, Result<Outcome, SyncError>)
  {
    if pl.error.Some? || Inlined(pl, b).None? then (c, Ok(Outcome([], Held(c), true)))
    else ProcessedList(p, c, Inlined(pl, b).value, keys, validate)
  }

  /** Every blob the list refers to can be had. */
  ghost predicate Fetched(pl: PatchList, b: Blobs) {
    && (pl.snapshot.None? && pl.snapshotRef.Some? ==> b.snapshot(pl.snapshotRef.value).Some?)
    && (forall i :: 0 <= i < |pl.patches| && pl.patches[i].external.Some? ==>
          b.mutations(pl.patches[i].external.value).Some?)
  }

  /** The list with each blob in its place. */
  ghost function Filled(pl: PatchList, b: Blobs): PatchList
    requires Fetched(pl, b)
  {
    pl.(snapshot := if pl.snapshot.None? && pl.snapshotRef.Some? then b.snapshot(pl.snapshotRef.value) else pl.snapshot,
        patches := seq(|pl.patches|, i requires 0 <= i < |pl.patches| =>
          var x := pl.patches[i];
          if x.external.None? then x else x.(mutations := b.mutations(x.external.value).value, external := None)))
  }

  lemma {:induction false} PatchesFilled(ps: seq<Patch>, b: Blobs)
    ensures InlinedPatches(ps, b).Some? <==>
      forall i :: 0 <= i < |ps| && ps[i].external.Some? ==> b.mutations(ps[i].external.value).Some?
    ensures InlinedPatches(ps, b).Some? ==>
      && |InlinedPatches(ps, b).value| == |ps|
      && forall i :: 0 <= i < |ps| ==>
           InlinedPatches(ps, b).value[i] == if ps[i].external.None? then ps[i]
             else ps[i].(mutations := b.mutations(ps[i].external.value).value, external := None)
  {
    if ps != [] {
      PatchesFilled(ps[..|ps| - 1], b);
    }
  }

  /** A list is processed with every blob in its place, exactly when it reports no error and every
      blob can be had; otherwise nothing changes and it is handed back with an error. */
  lemma ProcessedOneExactly(p: Primitives, c: Coll, pl: PatchList, b: Blobs, keys: KeyMap, validate: bool)
    ensures ProcessedOne(p, c, pl, b, keys, validate) ==
      if pl.error.None? && Fetched(pl, b) then ProcessedList(p, c, Filled(pl, b), keys, validate)
      else (c, Ok(Outcome([], if c.state.Some? then c.state.value else DefaultState(), true)))
  {
    PatchesFilled(pl.patches, b);
    if Fetched(pl, b) {
      assert InlinedPatches(pl.patches, b).value == Filled(pl, b).patches;
    }
  }

  /** Inlining before the call, as the missing-key probe does, cannot change its result. */
  lemma ProbeFirst(p: Primitives, c: Coll, pl: PatchList, b: Blobs, keys: KeyMap, validate: bool)
    requires Inlined(pl, b).Some?
    ensures forall again: Blobs ::
      ProcessedOne(p, c, Inlined(pl, b).value, again, keys, validate)
      == ProcessedOne(p, c, pl, b, keys, validate)
  {
    forall again: Blobs
      ensures ProcessedOne(p, c, Inlined(pl, b).value, again, keys, validate)
         == ProcessedOne(p, c, pl, b, keys, validate)
    {
      InlineOnce(pl, b, again);
    }
  }
}
