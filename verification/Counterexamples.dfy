/** Inputs at which the sum law fails, through the code that accepts them. */
module Counterexamples {
  import opened Common
  import opened LtHash
  import opened Terms
  import opened SyncWire
  import opened PatchHash
  import opened PatchBalance
  import opened Processor
  import opened Collection
  import opened Outgoing

  // ---------------------------------------------------------------- leaving index mode

  /** A mutation without a record feeds nothing to the patch MAC. Appended to an authentic patch it
      leaves the MAC valid, while the patch leaves index mode. */
  lemma RecordlessKeepsMac(p: Primitives, patch: Patch, bare: Mutation, version: nat, name: string, keys: Keys)
    requires bare.record.None?
    ensures var longer := patch.(mutations := patch.mutations + [bare]);
      GeneratePatchMac(p, longer, version, name, keys) == GeneratePatchMac(p, patch, version, name, keys)
      && !IndexMode(longer.mutations)
  {
    var ms := patch.mutations + [bare];
    assert ms[..|ms| - 1] == patch.mutations && ms[|ms| - 1] == bare;
    assert IndexOf(ms[|patch.mutations|]).None?;
    assert Tails(ms) == Tails(patch.mutations);
  }

  /** SET and REMOVE of one index, and a mutation without a record. */
  function Pair(set_: Record, remove: Record): seq<Mutation> {
    [Mutation(Known(Set), Some(set_)), Mutation(Known(Remove), Some(remove)), Mutation(Absent, None)]
  }

  ghost predicate SameIndex(a: Record, b: Record, k: Bytes) {
    a.index == Some(k) && b.index == Some(k) && |k| == 32 && a.value.Some? && b.value.Some?
  }

  lemma PairCounts(a: Record, b: Record, k: Bytes, x: Bytes)
    requires SameIndex(a, b, k)
    ensures var ms := Pair(a, b);
      Regular(ms) && !IndexMode(ms) && Over(ms, {}, x) == (if x == k then 1 else 0) && Orphans(ms, {}) == []
  {
    var ms := Pair(a, b);
    var one, two := [ms[0]], [ms[0], ms[1]];
    assert IndexOf(ms[2]).None?;
    assert Suppressed(ms) == {};
    assert one == [] + [ms[0]] && two == one + [ms[1]] && ms == two + [ms[2]];
    CountsSnoc([], ms[0], x);
    CountsSnoc(one, ms[1], x);
    CountsSnoc(two, ms[2], x);
    NoOrphans(ms);
  }

  lemma CountsSnoc(ms: seq<Mutation>, m: Mutation, x: Bytes)
    requires AllKnown(ms) && !m.operation.Unknown?
    ensures AllKnown(ms + [m])
    ensures Removes(ms + [m], x) == Removes(ms, x) + if OpOf(m).Remove? && IndexOf(m) == Some(x) then 1 else 0
    ensures Latest(ms + [m], x)
         == if OpOf(m).Set? && IndexOf(m) == Some(x) && ValueOf(m).Some? then Some(ValueMacTail(ValueOf(m).value))
            else Latest(ms, x)
  {
    SnocParts(ms, m);
  }

  lemma {:induction false} NoOrphans(ms: seq<Mutation>)
    requires AllKnown(ms)
    ensures Orphans(ms, {}) == []
  {
    if ms != [] {
      NoOrphans(ms[..|ms| - 1]);
    }
  }

  /** For any primitives: an accepted patch of this shape over a stored index leaves the law
      standing exactly when HKDF derives zero from the stored value. */
  lemma PairBreaksLaw(derive: Bytes -> Hash, hash: Hash, a: Record, b: Record, k: Bytes, store: Macs)
    requires SameIndex(a, b, k) && k in store && IsSumOf(derive, hash, store)
    ensures AllKnown(Pair(a, b))
    ensures IsSumOf(derive, HashAfter(derive, hash, Pair(a, b), store), Commit(store, Pair(a, b)))
      <==> derive(store[k]) == EmptyHash()
  {
    var ms := Pair(a, b);
    PairCounts(a, b, k, k);
    forall j | 0 <= j < 64
      ensures HashAfter(derive, hash, ms, store)[j] == MapSum(derive, j, Commit(store, ms)) % 0x1_0000
        <==> derive(store[k])[j] == 0
    {
      PairLane(derive, hash, j, a, b, k, store);
    }
    if derive(store[k]) != EmptyHash() {
      var j :| 0 <= j < 64 && derive(store[k])[j] != 0;
      assert HashAfter(derive, hash, ms, store)[j] != MapSum(derive, j, Commit(store, ms)) % 0x1_0000;
    }
  }

  lemma PairLane(derive: Bytes -> Hash, hash: Hash, j: nat, a: Record, b: Record, k: Bytes, store: Macs)
    requires j < 64 && SameIndex(a, b, k) && k in store && IsSumOf(derive, hash, store)
    ensures AllKnown(Pair(a, b))
    ensures HashAfter(derive, hash, Pair(a, b), store)[j] == MapSum(derive, j, Commit(store, Pair(a, b))) % 0x1_0000
      <==> derive(store[k])[j] == 0
  {
    var ms := Pair(a, b);
    PairCounts(a, b, k, k);
    LaneAfter(derive, hash, j, ms, store);
    PairGap(derive, j, a, b, k, store);
    AddMultiple(MapSum(derive, j, Commit(store, ms)), Sum(derive, j, Gap(ms, store)));
  }

  lemma PairGap(derive: Bytes -> Hash, j: nat, a: Record, b: Record, k: Bytes, store: Macs)
    requires j < 64 && SameIndex(a, b, k) && k in store
    ensures AllKnown(Pair(a, b)) && Sum(derive, j, Gap(Pair(a, b), store)) + derive(store[k])[j] == 0
  {
    var ms := Pair(a, b);
    PairCounts(a, b, k, k);
    assert Suppressed(ms) == {};
    var w := Weight(ms, {});
    forall x ensures w(x) == if x == k then -1 else 0 {
      PairCounts(a, b, k, x);
    }
    assert Gap(ms, store) == Rows(store, w);
    RowsRemove(derive, j, store, w, k);
    RowsOne(derive, j, store - {k}, w, 0);
    UnitTimes(w(k), derive(store[k])[j]);
    UnitTimes(0, MapSum(derive, j, store - {k}));
  }

  // ---------------------------------------------------------------- an accepted one

  function Zeros(n: nat): Bytes { seq(n, _ => 0) }

  /** Constant primitives: every MAC verifies and HKDF derives ones. */
  function Constant(): Primitives {
    Primitives(_ => Ones(), _ => Keys([]), (_, _, _, _) => [], (_, _, _, _, _) => [], (_, _, _, _) => Zeros(32),
               (_, _) => Some(ActionData(None, None)), (_, _) => Zeros(32))
  }

  function Sample(): Record { Record(Some(Zeros(32)), Some(Zeros(48)), Some([])) }

  function Sender(): KeyMap { map[[] := Keys([])] }

  function Signed(ms: seq<Mutation>): Patch {
    Patch(2, Some([]), Some([]), Some([]), ms, None)
  }

  /** One stored row, its hash, at version 1. */
  function Seeded(): Coll { Coll(Some(HashState(1, Ones(), false, true)), map[Zeros(32) := Zeros(32)]) }

  lemma SeededSound()
    ensures Sound(Constant(), Seeded()) && IsSumOf(Constant().derive, Ones(), Seeded().macs)
  {
    var m := Seeded().macs;
    forall j | 0 <= j < 64 ensures Ones()[j] == MapSum(Constant().derive, j, m) % 0x1_0000 {
      MapSumRemove(Constant().derive, j, m, Zeros(32));
      assert m - {Zeros(32)} == map[];
    }
  }

  lemma SampleDecodes(op: Op)
    ensures DecodeWith(Constant(), op, Sample(), Sender(), true).Ok?
  {
    assert Zeros(48)[16..] == Zeros(32);
  }

  lemma {:induction false} SamplesDecode(ms: seq<Mutation>)
    requires AllKnown(ms) && forall i :: 0 <= i < |ms| && ms[i].record.Some? ==> ms[i].record.value == Sample()
    ensures DecodeAll(Constant(), ms, Sender(), true).Ok?
  {
    if ms != [] {
      var m := ms[|ms| - 1];
      SamplesDecode(ms[..|ms| - 1]);
      if m.record.Some? {
        SampleDecodes(OpOf(m));
      }
    }
  }

  /** Validation accepts it. */
  lemma Accepted(ms: seq<Mutation>)
    requires Regular(ms) && forall i :: 0 <= i < |ms| && ms[i].record.Some? ==> ms[i].record.value == Sample()
    ensures ProcessedPatch(Constant(), Signed(ms), Held(Seeded()), Seeded().macs, Sender(), true, "").Ok?
  {
    UnknownOpIff(ms);
    SamplesDecode(ms);
  }

  /** A validated patch the processor accepts and commits, and a collection whose hash is no longer
      the sum of its rows. */
  lemma DoubledWitness()
    ensures var c, patch := Seeded(), Signed(Pair(Sample(), Sample()));
      var r := ProcessedPatch(Constant(), patch, Held(c), c.macs, Sender(), true, "");
      Sound(Constant(), c) && r.Ok? && !Sound(Constant(), Committed(c, r.value, r.value.state))
  {
    var c, ms := Seeded(), Pair(Sample(), Sample());
    SeededSound();
    PairCounts(Sample(), Sample(), Zeros(32), Zeros(32));
    Accepted(ms);
    AcceptedPatch(Constant(), Signed(ms), Held(c), c.macs, Sender(), true, "");
    PairBreaksLaw(Constant().derive, Held(c).hash, Sample(), Sample(), Zeros(32), c.macs);
    assert Ones() != EmptyHash() by { assert Ones()[0] != EmptyHash()[0]; }
  }

  // ---------------------------------------------------------------- a commit cut short

  /** One SET of a new index. */
  function Fresh(): seq<Mutation> {
    [Mutation(Known(Set), Some(Sample()))]
  }

  /** Nothing stored, at version 1. */
  function Blank(): Coll { Coll(Some(HashState(1, EmptyHash(), false, true)), map[]) }

  lemma FreshHash()
    ensures AllKnown(Fresh()) && HashAfter(Constant().derive, EmptyHash(), Fresh(), map[])[0] == 1
  {
    var ms := Fresh();
    assert ms[..0] == [] && Suppressed(ms) == {};
    var s := ScanOf(ms, {}, map[], true);
    assert s == ScanStep(ScanOf([], {}, map[], true), ms[0], {}, map[], true);
    assert s.removed == [] && |s.added| == 1 && s.added[..0] == [];
  }

  /** It is accepted, and the state it leaves is not the hash of an empty collection. */
  lemma FreshAccepted()
    ensures var r := ProcessedPatch(Constant(), Signed(Fresh()), Held(Blank()), map[], Sender(), true, "");
      r.Ok? && r.value.state.version == 2 && !IsSumOf(Constant().derive, r.value.state.hash, map[])
  {
    var ms := Fresh();
    UnknownOpIff(ms);
    SamplesDecode(ms);
    AcceptedPatch(Constant(), Signed(ms), Held(Blank()), map[], Sender(), true, "");
    FreshHash();
    EmptyLane(Constant().derive, HashAfter(Constant().derive, EmptyHash(), ms, map[]));
  }

  lemma EmptyLane(derive: Bytes -> Hash, hash: Hash)
    ensures IsSumOf(derive, hash, map[]) ==> hash[0] == 0
  {
  }

  lemma VersionRefused(p: Primitives, patch: Patch, state: HashState)
    requires state.version == patch.version == 2
    ensures ProcessedPatch(p, patch, state, map[], Sender(), true, "") == Err(PatchVersionMismatch)
  {
  }

  /** Its version written and its row not: the law is gone, and the patch is refused from then on. */
  lemma CutWitness()
    ensures var c := Blank();
      var r := ProcessedPatch(Constant(), Signed(Fresh()), Held(c), c.macs, Sender(), true, "");
      Sound(Constant(), c) && r.Ok? && !Sound(Constant(), Coll(Some(r.value.state), c.macs))
      && ProcessedPatch(Constant(), Signed(Fresh()), r.value.state, c.macs, Sender(), true, "")
         == Err(PatchVersionMismatch)
  {
    EmptySum(Constant().derive);
    FreshAccepted();
    VersionRefused(Constant(), Signed(Fresh()),
                   ProcessedPatch(Constant(), Signed(Fresh()), Held(Blank()), map[], Sender(), true, "").value.state);
  }

  // ---------------------------------------------------------------- builder and receiver

  /** Two SETs of one new index. */
  function Twice(): seq<Mutation> {
    [Mutation(Known(Set), Some(Sample())), Mutation(Known(Set), Some(Sample()))]
  }

  /** As `Constant`, with a snapshot MAC that shows the first lane of the hash. */
  function Revealing(): Primitives {
    Constant().(snapshotMac := (hash: Hash, _, _, _) => [hash[0] % 256])
  }

  /** The builder adds both values; the receiver takes the first out again. */
  lemma TwiceScan(useOverlay: bool)
    ensures Complete(Twice()) && Suppressed(Twice()) == {}
    ensures var s, v := ScanOf(Twice(), {}, map[], useOverlay), ValueMacTail(Zeros(48));
      s.added == [v, v] && s.removed == if useOverlay then [v] else []
  {
    var ms, v := Twice(), ValueMacTail(Zeros(48));
    assert ms[..1] == [ms[0]] && ms[..1][..0] == [];
    var one := ScanOf(ms[..1], {}, map[], useOverlay);
    assert one == ScanStep(ScanOf([], {}, map[], useOverlay), ms[0], {}, map[], useOverlay);
    assert one.added == [v] && one.removed == [] && one.overlay == map[Zeros(32) := v];
    assert ScanOf(ms, {}, map[], useOverlay) == ScanStep(one, ms[1], {}, map[], useOverlay);
  }

  lemma OnesSum(s: seq<Bytes>)
    ensures SeqSum(Constant().derive, 0, s) == |s|
  {
    if s != [] {
      OnesSum(s[..|s| - 1]);
    }
  }

  lemma TwiceHash(useOverlay: bool)
    ensures Complete(Twice())
    ensures HashWith(Constant().derive, EmptyHash(), Twice(), map[], useOverlay)[0] == if useOverlay then 1 else 2
  {
    TwiceScan(useOverlay);
    var s := ScanOf(Twice(), {}, map[], useOverlay);
    OnesSum(s.added);
    OnesSum(s.removed);
  }

  /** The snapshot MAC on the built patch is not the one a peer in the builder's state computes. Such
      a peer refuses the patch for its repeated index if it validates; if it does not, it takes the
      patch and ends with another hash than the builder's. */
  lemma BuilderWitness()
    ensures var p, c, ms, keys := Revealing(), Blank(), Twice(), Keys([]);
      && Complete(ms) && !BuilderAgrees(ms, c.macs)
      && BuiltSnapshotMac(p, c, "", ms, keys)
         != GenerateSnapshotMac(p, HashAfter(p.derive, Held(c).hash, ms, c.macs), 2, "", keys)
      && ProcessedPatch(p, Signed(ms), Held(c), c.macs, Sender(), true, "") == Err(DuplicateIndexInPatch)
      && var r := ProcessedPatch(p, Signed(ms), Held(c), c.macs, Sender(), false, "");
         r.Ok? && r.value.state.hash != HashWith(p.derive, Held(c).hash, ms, c.macs, false)
  {
    TwiceHash(true);
    TwiceHash(false);
    TwiceRefused();
    TwiceTaken();
  }

  lemma TwiceRefused()
    ensures ProcessedPatch(Revealing(), Signed(Twice()), Held(Blank()), map[], Sender(), true, "")
         == Err(DuplicateIndexInPatch)
  {
    var ms := Twice();
    UnknownOpIff(ms);
    assert SameOperation(ms[0], ms[1]) && IndexOf(ms[0]) == IndexOf(ms[1]);
  }

  lemma TwiceTaken()
    ensures AllKnown(Twice())
    ensures var r := ProcessedPatch(Revealing(), Signed(Twice()), Held(Blank()), map[], Sender(), false, "");
      r.Ok? && r.value.state.hash == HashAfter(Constant().derive, EmptyHash(), Twice(), map[])
  {
    UnknownOpIff(Twice());
    TwiceDecodes();
    AcceptedPatch(Revealing(), Signed(Twice()), Held(Blank()), map[], Sender(), false, "");
  }

  lemma TwiceDecodes()
    ensures AllKnown(Twice()) && DecodeAll(Revealing(), Twice(), Sender(), false).Ok?
  {
    var ms := Twice();
    assert ms[..1] == [ms[0]] && ms[..1][..0] == [];
    assert DecodeWith(Revealing(), Set, Sample(), Sender(), false).Ok?;
    assert DecodeAll(Revealing(), ms[..1], Sender(), false).Ok?;
  }
}
