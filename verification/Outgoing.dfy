/** `build_patch`: what one device builds, a peer over the same collection accepts. */
module Outgoing {
  import opened Common
  import opened LtHash
  import opened Terms
  import opened SyncWire
  import opened PatchHash
  import opened PatchBalance
  import opened Processor
  import opened Collection

  /** Outgoing hashing asks the store alone. Where a SET repeats an index, it subtracts the stored
      value once more where incoming processing subtracts the patch's own earlier one. */
  ghost function BuilderGap(ms: seq<Mutation>, suppressed: set<Bytes>, store: Macs): seq<Term>
    requires AllKnown(ms)
  {
    if ms == [] then []
    else
      var rest, m := ms[..|ms| - 1], ms[|ms| - 1];
      BuilderGap(rest, suppressed, store) + RepeatGap(rest, m, suppressed, store)
  }

  ghost function RepeatGap(ms: seq<Mutation>, m: Mutation, suppressed: set<Bytes>, store: Macs): seq<Term>
    requires AllKnown(ms) && !m.operation.Unknown?
  {
    if OpOf(m).Remove? || IndexOf(m).None? || IndexOf(m).value in suppressed || Latest(ms, IndexOf(m).value).None?
    then []
    else
      var k := IndexOf(m).value;
      [Term(Latest(ms, k).value, 1)] + if Lookup(store, k).Some? then [Term(Lookup(store, k).value, -1)] else []
  }

  lemma ScanRemoves(derive: Bytes -> Hash, j: nat, s: Scan, m: Mutation, suppressed: set<Bytes>, store: Macs,
                    useOverlay: bool, prev: Option<Bytes>)
    requires j < 64 && !m.operation.Unknown? && IndexOf(m).Some? && !(OpOf(m).Set? && IndexOf(m).value in suppressed)
    requires var k := IndexOf(m).value;
      prev == if useOverlay && OpOf(m).Set? && k in s.overlay then Some(s.overlay[k]) else Lookup(store, k)
    ensures SeqSum(derive, j, ScanStep(s, m, suppressed, store, useOverlay).removed)
      == SeqSum(derive, j, s.removed) + Part(derive, j, prev)
  {
    if prev.Some? {
      SeqSumSnoc(derive, j, s.removed, prev.value);
    }
  }

  lemma StepGap(derive: Bytes -> Hash, j: nat, ms: seq<Mutation>, m: Mutation, suppressed: set<Bytes>, store: Macs)
    requires j < 64 && Complete(ms) && CompleteOne(m)
    ensures var s, t := ScanOf(ms, suppressed, store, true), ScanOf(ms, suppressed, store, false);
      SeqSum(derive, j, ScanStep(s, m, suppressed, store, true).removed)
      - SeqSum(derive, j, ScanStep(t, m, suppressed, store, false).removed)
      == SeqSum(derive, j, s.removed) - SeqSum(derive, j, t.removed)
         + Sum(derive, j, RepeatGap(ms, m, suppressed, store))
  {
    if IndexOf(m).Some? && !(OpOf(m).Set? && IndexOf(m).value in suppressed) {
      var k := IndexOf(m).value;
      OverlayHolds(ms, suppressed, store, k);
      ScanRemoves(derive, j, ScanOf(ms, suppressed, store, true), m, suppressed, store, true,
                  Previous(ms, suppressed, store, m, k));
      ScanRemoves(derive, j, ScanOf(ms, suppressed, store, false), m, suppressed, store, false, Lookup(store, k));
      GapTerms(derive, j, ms, m, suppressed, store);
    }
  }

  lemma GapTerms(derive: Bytes -> Hash, j: nat, ms: seq<Mutation>, m: Mutation, suppressed: set<Bytes>, store: Macs)
    requires j < 64 && AllKnown(ms) && !m.operation.Unknown? && IndexOf(m).Some?
    requires !(OpOf(m).Set? && IndexOf(m).value in suppressed)
    ensures var k := IndexOf(m).value;
      Sum(derive, j, RepeatGap(ms, m, suppressed, store))
      == Part(derive, j, Previous(ms, suppressed, store, m, k)) - Part(derive, j, Lookup(store, k))
  {
    var k := IndexOf(m).value;
    if OpOf(m).Set? && Latest(ms, k).Some? {
      var a := [Term(Latest(ms, k).value, 1)];
      assert Sum(derive, j, a[..0]) == 0;
      if Lookup(store, k).Some? {
        assert (a + [Term(Lookup(store, k).value, -1)])[..1] == a;
      }
    }
  }

  /** The two scans add alike, and what they remove differs by the gap. */
  lemma {:induction false} BuilderScan(derive: Bytes -> Hash, j: nat, ms: seq<Mutation>, suppressed: set<Bytes>,
                                       store: Macs)
    requires j < 64 && Complete(ms)
    ensures var s, t := ScanOf(ms, suppressed, store, true), ScanOf(ms, suppressed, store, false);
      s.added == t.added
      && SeqSum(derive, j, s.removed) - SeqSum(derive, j, t.removed)
         == Sum(derive, j, BuilderGap(ms, suppressed, store))
  {
    if ms != [] {
      var rest, m := ms[..|ms| - 1], ms[|ms| - 1];
      BuilderScan(derive, j, rest, suppressed, store);
      StepGap(derive, j, rest, m, suppressed, store);
      Concat(derive, j, BuilderGap(rest, suppressed, store), RepeatGap(rest, m, suppressed, store));
    }
  }

  /** Builder and receiver compute one hash, whatever HKDF computes. */
  ghost predicate BuilderAgrees(ms: seq<Mutation>, store: Macs)
    requires AllKnown(ms)
  {
    forall derive: Bytes -> Hash, base: Hash ::
      HashWith(derive, base, ms, store, false) == HashWith(derive, base, ms, store, true)
  }

  lemma BuilderLane(derive: Bytes -> Hash, base: Hash, j: nat, ms: seq<Mutation>, store: Macs)
    requires j < 64 && Complete(ms)
    ensures HashWith(derive, base, ms, store, false)[j] == HashWith(derive, base, ms, store, true)[j]
      <==> Sum(derive, j, BuilderGap(ms, Suppressed(ms), store)) % 0x1_0000 == 0
  {
    BuilderScan(derive, j, ms, Suppressed(ms), store);
    var s, t := ScanOf(ms, Suppressed(ms), store, true), ScanOf(ms, Suppressed(ms), store, false);
    ScanLane(derive, base, j, s);
    ScanLane(derive, base, j, t);
    AddMultiple(LaneTotal(derive, base, j, s), Sum(derive, j, BuilderGap(ms, Suppressed(ms), store)));
  }

  ghost function LaneTotal(derive: Bytes -> Hash, base: Hash, j: nat, s: Scan): int
    requires j < 64
  {
    base[j] - SeqSum(derive, j, s.removed) + SeqSum(derive, j, s.added)
  }

  lemma ScanLane(derive: Bytes -> Hash, base: Hash, j: nat, s: Scan)
    requires j < 64
    ensures Folded(derive, base, s.removed, s.added)[j] == LaneTotal(derive, base, j, s) % 0x1_0000
  {
  }

  /** Exactly when: repeated SETs trade stored for earlier values evenly, modulo 2^16. */
  lemma BuilderAgreesExactly(ms: seq<Mutation>, store: Macs)
    requires Complete(ms)
    ensures BuilderAgrees(ms, store) <==> Balanced(BuilderGap(ms, Suppressed(ms), store))
  {
    var gap := BuilderGap(ms, Suppressed(ms), store);
    if Balanced(gap) {
      forall derive: Bytes -> Hash, base: Hash
        ensures HashWith(derive, base, ms, store, false) == HashWith(derive, base, ms, store, true)
      {
        SameHash(derive, base, ms, store);
      }
    } else {
      var v :| Count(gap, v) % 0x1_0000 != 0;
      IndicatorSum(gap, v);
      BuilderLane(Indicator(v), EmptyHash(), 0, ms, store);
      assert HashWith(Indicator(v), EmptyHash(), ms, store, false)
             != HashWith(Indicator(v), EmptyHash(), ms, store, true);
    }
  }

  lemma SameHash(derive: Bytes -> Hash, base: Hash, ms: seq<Mutation>, store: Macs)
    requires Complete(ms) && Balanced(BuilderGap(ms, Suppressed(ms), store))
    ensures HashWith(derive, base, ms, store, false) == HashWith(derive, base, ms, store, true)
  {
    forall j | 0 <= j < 64
      ensures HashWith(derive, base, ms, store, false)[j] == HashWith(derive, base, ms, store, true)[j]
    {
      Vanishes(derive, j, BuilderGap(ms, Suppressed(ms), store));
      BuilderLane(derive, base, j, ms, store);
    }
  }

  /** No index set twice: nothing to trade. REMOVEs may repeat. */
  lemma {:induction false} OverlayIdle(ms: seq<Mutation>, suppressed: set<Bytes>, store: Macs)
    requires Complete(ms) && SetsApart(ms)
    ensures BuilderGap(ms, suppressed, store) == []
  {
    if ms != [] {
      var rest, m := ms[..|ms| - 1], ms[|ms| - 1];
      assert ms == rest + [m];
      assert SetsApart(rest);
      OverlayIdle(rest, suppressed, store);
      if IndexOf(m).Some? && OpOf(m).Set? {
        LatestIff(rest, IndexOf(m).value);
      }
    }
  }

  ghost predicate SetsApart(ms: seq<Mutation>)
    requires AllKnown(ms)
  {
    forall i, j :: 0 <= i < j < |ms| && OpOf(ms[i]).Set? && OpOf(ms[j]).Set? && IndexOf(ms[i]).Some? ==>
      IndexOf(ms[i]) != IndexOf(ms[j])
  }

  method BuildPatch(p: Primitives, c: Coll, name: string, ms: seq<Mutation>, keyId: Bytes, keys: Keys)
    returns (r: Result<(Patch, nat), SyncError>)
    ensures r.Err? <==> !AllKnown(ms)
    ensures r.Ok? ==>
      && r.value.1 == Held(c).version
      && r.value.0.mutations == ms && r.value.0.keyId == Some(keyId)
      && r.value.0.snapshotMac == Some(BuiltSnapshotMac(p, c, name, ms, keys))
      && r.value.0.patchMac == Some(GeneratePatchMac(p, r.value.0, Held(c).version + 1, name, keys))
  {
    var needed := CollectUniqueIndexMacs(ms);
    var db := GetMutationMacs(c.macs, needed);
    var unknown := UnknownOp(ms);
    UnknownOpIff(ms);
    if unknown.Some? {
      return Err(UnsupportedOperation(unknown.value));
    }
    var state := Held(c);
    var hash, missing := UpdateHash(p.derive, state.hash, ms, db, false);
    BatchedScan(ms, Suppressed(ms), c.macs, needed, false);
    var snapshotMac := GenerateSnapshotMac(p, hash, state.version + 1, name, keys);
    var patch := Patch(0, Some(snapshotMac), None, Some(keyId), ms, None);
    var patchMac := GeneratePatchMac(p, patch, state.version + 1, name, keys);
    r := Ok((patch.(patchMac := Some(patchMac)), state.version));
  }

  ghost function BuiltSnapshotMac(p: Primitives, c: Coll, name: string, ms: seq<Mutation>, keys: Keys): Bytes
    requires AllKnown(ms)
  {
    GenerateSnapshotMac(p, HashWith(p.derive, Held(c).hash, ms, c.macs, false), Held(c).version + 1, name, keys)
  }

  /** The server relays a built patch under the next version. A peer whose state and rows are the
      builder's finds both aggregate MACs right whenever repeated SETs trade evenly, so the patch
      neither fails validation nor marks the collection diverged. */
  lemma PeerAccepts(p: Primitives, built: Patch, c: Coll, peer: HashState, name: string, keyId: Bytes, keys: KeyMap)
    requires Complete(built.mutations) && Balanced(BuilderGap(built.mutations, Suppressed(built.mutations), c.macs))
    requires keyId in keys && Held(c).version < 0xFFFF_FFFF_FFFF_FFFF && built.keyId == Some(keyId)
    requires built.snapshotMac == Some(BuiltSnapshotMac(p, c, name, built.mutations, keys[keyId]))
    requires built.patchMac == Some(GeneratePatchMac(p, built, Held(c).version + 1, name, keys[keyId]))
    requires peer.version == Held(c).version && peer.hash == Held(c).hash
    ensures var relayed := built.(version := Held(c).version + 1);
      var hashed := peer.(version := relayed.version, hash := HashAfter(p.derive, peer.hash, built.mutations, c.macs));
      var r := ProcessedPatch(p, relayed, peer, c.macs, keys, true, name);
      && Judged(p, relayed, hashed, keys, true, name, peer.Unseeded()) == Ok(hashed)
      && (r.Ok? <==> DistinctPerOperation(built.mutations) && DecodeAll(p, built.mutations, keys, true).Ok?)
      && (r.Ok? ==> r.value.state == hashed)
  {
    UnknownOpIff(built.mutations);
    SameHash(p.derive, Held(c).hash, built.mutations, c.macs);
  }
}
