/** The ltHash of a patch against the rows it commits: the exact error of every patch that can be
    decoded, and exactly when there is none. */
module PatchBalance {
  import opened Common
  import opened LtHash
  import opened Terms
  import opened SyncWire
  import opened PatchHash

  // ---------------------------------------------------------------- one index

  /** How many REMOVEs name `k`. */
  function Removes(ms: seq<Mutation>, k: Bytes): nat
    requires AllKnown(ms)
  {
    if ms == [] then 0
    else
      var m := ms[|ms| - 1];
      Removes(ms[..|ms| - 1], k) + if OpOf(m).Remove? && IndexOf(m) == Some(k) then 1 else 0
  }

  /** The value MAC of the last SET of `k`. */
  function Latest(ms: seq<Mutation>, k: Bytes): Option<Bytes>
    requires AllKnown(ms)
  {
    if ms == [] then None
    else
      var m := ms[|ms| - 1];
      if OpOf(m).Set? && IndexOf(m) == Some(k) && ValueOf(m).Some? then Some(ValueMacTail(ValueOf(m).value))
      else Latest(ms[..|ms| - 1], k)
  }

  /** How many times too often the stored value of `k` leaves the hash. A SET subtracts it once
      unless it is suppressed, every REMOVE subtracts it, and committing drops it once; an index
      that is not a MAC is never looked up, so its stored value stays. */
  function Over(ms: seq<Mutation>, suppressed: set<Bytes>, k: Bytes): int
    requires AllKnown(ms)
  {
    var r, isSet := Removes(ms, k), Latest(ms, k).Some?;
    if |k| != 32 then (if isSet || r > 0 then -1 else 0)
    else if isSet then (if k in suppressed then r - 1 else r)
    else if r > 0 then r - 1
    else 0
  }

  /** The values of suppressed SETs that a later SET of the same index replaces: added to the
      hash, never subtracted and not stored. */
  function Orphans(ms: seq<Mutation>, suppressed: set<Bytes>): seq<Bytes>
    requires AllKnown(ms)
  {
    if ms == [] then []
    else
      var rest, m := ms[..|ms| - 1], ms[|ms| - 1];
      Orphans(rest, suppressed) +
      if OpOf(m).Set? && IndexOf(m).Some? && IndexOf(m).value in suppressed && Latest(rest, IndexOf(m).value).Some?
      then [Latest(rest, IndexOf(m).value).value] else []
  }

  ghost function Weight(ms: seq<Mutation>, suppressed: set<Bytes>): Bytes -> int
    requires AllKnown(ms)
  {
    k => -Over(ms, suppressed, k)
  }

  /** What the hash of a patch is off by: the orphans, less the values subtracted too often. */
  ghost function Gap(ms: seq<Mutation>, store: Macs): seq<Term>
    requires AllKnown(ms)
  {
    Each(Orphans(ms, Suppressed(ms)), 1) + Rows(store, Weight(ms, Suppressed(ms)))
  }

  // ---------------------------------------------------------------- one more mutation

  lemma SnocParts(ms: seq<Mutation>, m: Mutation)
    requires AllKnown(ms) && !m.operation.Unknown?
    ensures AllKnown(ms + [m]) && (ms + [m])[..|ms + [m]| - 1] == ms && (ms + [m])[|ms + [m]| - 1] == m
  {
  }

  lemma {:induction false} LatestIff(ms: seq<Mutation>, k: Bytes)
    requires Complete(ms)
    ensures Latest(ms, k).Some? <==> k in Indexes(ms, Set)
  {
    if ms != [] {
      var rest, m := ms[..|ms| - 1], ms[|ms| - 1];
      assert ms == rest + [m];
      LatestIff(rest, k);
      IndexesSnoc(rest, m, Set);
    }
  }

  lemma {:induction false} RemovesIff(ms: seq<Mutation>, k: Bytes)
    requires AllKnown(ms)
    ensures Removes(ms, k) > 0 <==> k in Indexes(ms, Remove)
  {
    if ms != [] {
      var rest, m := ms[..|ms| - 1], ms[|ms| - 1];
      assert ms == rest + [m];
      RemovesIff(rest, k);
      IndexesSnoc(rest, m, Remove);
    }
  }

  /** What the rows hold for `k` after a prefix. */
  ghost function RowOf(ms: seq<Mutation>, store: Macs, k: Bytes): Option<Bytes>
    requires AllKnown(ms)
  {
    if Latest(ms, k).Some? then Latest(ms, k)
    else if k in store && Removes(ms, k) == 0 then Some(store[k])
    else None
  }

  lemma {:induction false} CommittedRow(ms: seq<Mutation>, store: Macs, k: Bytes)
    requires Complete(ms)
    ensures RowOf(ms, store, k) == if k in Commit(store, ms) then Some(Commit(store, ms)[k]) else None
  {
    if ms == [] {
      assert Commit(store, ms) == store;
    } else {
      var rest, m := ms[..|ms| - 1], ms[|ms| - 1];
      assert ms == rest + [m];
      CommittedRow(rest, store, k);
      CommitSnoc(store, rest, m);
      LatestIff(rest, k);
    }
  }

  /** The overlay answers for exactly the indexes set and not suppressed, with their last value. */
  lemma {:induction false} OverlayHolds(ms: seq<Mutation>, suppressed: set<Bytes>, store: Macs, k: Bytes)
    requires Complete(ms)
    ensures var overlay := ScanOf(ms, suppressed, store, true).overlay;
      (if k in overlay then Some(overlay[k]) else None) == if k in suppressed then None else Latest(ms, k)
  {
    if ms != [] {
      OverlayHolds(ms[..|ms| - 1], suppressed, store, k);
    }
  }

  ghost function Part(derive: Bytes -> Hash, j: nat, v: Option<Bytes>): int
    requires j < 64
  {
    if v.Some? then derive(v.value)[j] else 0
  }

  /** What the scan subtracts for a mutation of `k`. */
  ghost function Previous(ms: seq<Mutation>, suppressed: set<Bytes>, store: Macs, m: Mutation, k: Bytes): Option<Bytes>
    requires AllKnown(ms) && !m.operation.Unknown?
  {
    if OpOf(m).Set? && k in suppressed then None
    else if OpOf(m).Set? && Latest(ms, k).Some? then Latest(ms, k)
    else Lookup(store, k)
  }

  /** What a run of mutations did to lane `j` of the hash. */
  ghost function Net(derive: Bytes -> Hash, j: nat, ms: seq<Mutation>, suppressed: set<Bytes>, store: Macs): int
    requires j < 64 && AllKnown(ms)
  {
    var s := ScanOf(ms, suppressed, store, true);
    SeqSum(derive, j, s.added) - SeqSum(derive, j, s.removed)
  }

  ghost function NewValue(m: Mutation): Option<Bytes>
    requires !m.operation.Unknown?
  {
    if OpOf(m).Set? && ValueOf(m).Some? then Some(ValueMacTail(ValueOf(m).value)) else None
  }

  lemma NetStep(derive: Bytes -> Hash, j: nat, ms: seq<Mutation>, m: Mutation, suppressed: set<Bytes>, store: Macs)
    requires j < 64 && Complete(ms) && CompleteOne(m) && IndexOf(m).Some?
    ensures AllKnown(ms + [m])
    ensures Net(derive, j, ms + [m], suppressed, store) == Net(derive, j, ms, suppressed, store)
      + Part(derive, j, NewValue(m)) - Part(derive, j, Previous(ms, suppressed, store, m, IndexOf(m).value))
  {
    var all, s, k := ms + [m], ScanOf(ms, suppressed, store, true), IndexOf(m).value;
    SnocParts(ms, m);
    OverlayHolds(ms, suppressed, store, k);
    var prev := Previous(ms, suppressed, store, m, k);
    var t := ScanStep(s, m, suppressed, store, true);
    assert ScanOf(all, suppressed, store, true) == t;
    assert t.added == if OpOf(m).Set? then s.added + [NewValue(m).value] else s.added;
    assert t.removed == if prev.Some? then s.removed + [prev.value] else s.removed;
    if OpOf(m).Set? {
      SeqSumSnoc(derive, j, s.added, NewValue(m).value);
    }
    if prev.Some? {
      SeqSumSnoc(derive, j, s.removed, prev.value);
    }
  }

  lemma CommitStep(derive: Bytes -> Hash, j: nat, ms: seq<Mutation>, m: Mutation, store: Macs)
    requires j < 64 && Complete(ms) && CompleteOne(m) && IndexOf(m).Some?
    ensures AllKnown(ms + [m])
    ensures MapSum(derive, j, Commit(store, ms + [m])) == MapSum(derive, j, Commit(store, ms))
      + Part(derive, j, RowOf(ms + [m], store, IndexOf(m).value)) - Part(derive, j, RowOf(ms, store, IndexOf(m).value))
  {
    var k, rows := IndexOf(m).value, Commit(store, ms);
    SnocParts(ms, m);
    CommitSnoc(store, ms, m);
    CommittedRow(ms, store, k);
    LatestIff(ms, k);
    if OpOf(m).Set? {
      MapSumPut(derive, j, rows, k, ValueMacTail(ValueOf(m).value));
    } else if Latest(ms, k).None? {
      MapSumDrop(derive, j, rows, k);
    }
  }

  /** The values subtracted too often so far, as a negative contribution. */
  ghost function Deficit(derive: Bytes -> Hash, j: nat, ms: seq<Mutation>, suppressed: set<Bytes>, store: Macs): int
    requires j < 64 && AllKnown(ms)
  {
    Sum(derive, j, Rows(store, Weight(ms, suppressed)))
  }

  lemma DeficitStep(derive: Bytes -> Hash, j: nat, ms: seq<Mutation>, m: Mutation, suppressed: set<Bytes>, store: Macs)
    requires j < 64 && AllKnown(ms) && !m.operation.Unknown? && IndexOf(m).Some?
    ensures AllKnown(ms + [m])
    ensures var k := IndexOf(m).value;
      Deficit(derive, j, ms + [m], suppressed, store) == Deficit(derive, j, ms, suppressed, store)
      + (Over(ms, suppressed, k) - Over(ms + [m], suppressed, k)) * Share(derive, j, store, k)
  {
    SnocParts(ms, m);
    RowsChange(derive, j, store, Weight(ms, suppressed), Weight(ms + [m], suppressed), IndexOf(m).value);
  }

  lemma OrphansStep(derive: Bytes -> Hash, j: nat, ms: seq<Mutation>, m: Mutation, suppressed: set<Bytes>)
    requires j < 64 && AllKnown(ms) && !m.operation.Unknown? && IndexOf(m).Some?
    ensures AllKnown(ms + [m])
    ensures var k := IndexOf(m).value;
      SeqSum(derive, j, Orphans(ms + [m], suppressed)) == SeqSum(derive, j, Orphans(ms, suppressed))
      + Part(derive, j, if OpOf(m).Set? && k in suppressed then Latest(ms, k) else None)
  {
    SnocParts(ms, m);
    var k, before := IndexOf(m).value, Orphans(ms, suppressed);
    if OpOf(m).Set? && k in suppressed && Latest(ms, k).Some? {
      SeqSumSnoc(derive, j, before, Latest(ms, k).value);
    } else {
      assert Orphans(ms + [m], suppressed) == before;
    }
  }

  /** Mutation by mutation, the scan, the rows and the error move together. */
  lemma IndexBalances(derive: Bytes -> Hash, j: nat, ms: seq<Mutation>, m: Mutation, suppressed: set<Bytes>,
                      store: Macs)
    requires j < 64 && Complete(ms) && CompleteOne(m) && IndexOf(m).Some?
    ensures AllKnown(ms + [m])
    ensures var k := IndexOf(m).value;
      Part(derive, j, NewValue(m)) - Part(derive, j, Previous(ms, suppressed, store, m, k))
      == Part(derive, j, RowOf(ms + [m], store, k)) - Part(derive, j, RowOf(ms, store, k))
         + Part(derive, j, if OpOf(m).Set? && k in suppressed then Latest(ms, k) else None)
         + (Over(ms, suppressed, k) - Over(ms + [m], suppressed, k)) * Share(derive, j, store, k)
  {
    SnocParts(ms, m);
    var k, all := IndexOf(m).value, ms + [m];
    UnitTimes(Over(ms, suppressed, k) - Over(all, suppressed, k), Share(derive, j, store, k));
  }

  lemma UnitTimes(d: int, x: int)
    ensures d == 0 ==> d * x == 0
    ensures d == 1 ==> d * x == x
    ensures d == -1 ==> d * x == -x
  {
  }

  /** The hash moves by the committed rows, the orphans and the deficit. */
  lemma {:induction false} ScanBalance(derive: Bytes -> Hash, j: nat, ms: seq<Mutation>, suppressed: set<Bytes>,
                                       store: Macs)
    requires j < 64 && Complete(ms)
    ensures MapSum(derive, j, store) + Net(derive, j, ms, suppressed, store)
      == MapSum(derive, j, Commit(store, ms)) + SeqSum(derive, j, Orphans(ms, suppressed))
         + Deficit(derive, j, ms, suppressed, store)
  {
    if ms == [] {
      assert Commit(store, ms) == store;
      RowsOne(derive, j, store, Weight(ms, suppressed), 0);
    } else {
      var rest, m := ms[..|ms| - 1], ms[|ms| - 1];
      assert ms == rest + [m];
      ScanBalance(derive, j, rest, suppressed, store);
      if IndexOf(m).None? {
        Idle(derive, j, rest, m, suppressed, store);
      } else {
        NetStep(derive, j, rest, m, suppressed, store);
        CommitStep(derive, j, rest, m, store);
        DeficitStep(derive, j, rest, m, suppressed, store);
        OrphansStep(derive, j, rest, m, suppressed);
        IndexBalances(derive, j, rest, m, suppressed, store);
      }
    }
  }

  /** A mutation without a record does nothing. */
  lemma Idle(derive: Bytes -> Hash, j: nat, ms: seq<Mutation>, m: Mutation, suppressed: set<Bytes>, store: Macs)
    requires j < 64 && Complete(ms) && CompleteOne(m) && IndexOf(m).None?
    ensures AllKnown(ms + [m])
    ensures Net(derive, j, ms + [m], suppressed, store) == Net(derive, j, ms, suppressed, store)
    ensures Commit(store, ms + [m]) == Commit(store, ms)
    ensures Orphans(ms + [m], suppressed) == Orphans(ms, suppressed)
    ensures Deficit(derive, j, ms + [m], suppressed, store) == Deficit(derive, j, ms, suppressed, store)
  {
    SnocParts(ms, m);
    CommitSnoc(store, ms, m);
    RowsSame(derive, j, store, Weight(ms + [m], suppressed), Weight(ms, suppressed));
  }

  // ---------------------------------------------------------------- the exact error

  lemma LaneAfter(derive: Bytes -> Hash, hash: Hash, j: nat, ms: seq<Mutation>, store: Macs)
    requires j < 64 && Complete(ms) && IsSumOf(derive, hash, store)
    ensures LaneOffBy(derive, j, HashAfter(derive, hash, ms, store), Commit(store, ms), Gap(ms, store))
  {
    GapBalance(derive, j, ms, store);
    LaneOver(derive, hash, j, ms, store, Commit(store, ms), Gap(ms, store));
  }

  /** If the scan leads from the stored rows to `rows` and `gap`, so does the hash. */
  lemma LaneOver(derive: Bytes -> Hash, hash: Hash, j: nat, ms: seq<Mutation>, store: Macs, rows: Macs, gap: seq<Term>)
    requires j < 64 && AllKnown(ms) && IsSumOf(derive, hash, store)
    requires MapSum(derive, j, store) + Net(derive, j, ms, Suppressed(ms), store)
          == MapSum(derive, j, rows) + Sum(derive, j, gap)
    ensures LaneOffBy(derive, j, HashAfter(derive, hash, ms, store), rows, gap)
  {
    var target := MapSum(derive, j, store) + Net(derive, j, ms, Suppressed(ms), store);
    HashLane(derive, hash, j, ms, store, target);
    LaneFrom(derive, j, HashAfter(derive, hash, ms, store), rows, gap, target);
  }

  lemma HashLane(derive: Bytes -> Hash, hash: Hash, j: nat, ms: seq<Mutation>, store: Macs, target: int)
    requires j < 64 && AllKnown(ms) && IsSumOf(derive, hash, store)
    requires target == MapSum(derive, j, store) + Net(derive, j, ms, Suppressed(ms), store)
    ensures HashAfter(derive, hash, ms, store)[j] == target % 0x1_0000
  {
    WrapSum(MapSum(derive, j, store), Net(derive, j, ms, Suppressed(ms), store));
  }

  lemma LaneFrom(derive: Bytes -> Hash, j: nat, hash: Hash, rows: Macs, gap: seq<Term>, target: int)
    requires j < 64 && hash[j] == target % 0x1_0000
    requires target == MapSum(derive, j, rows) + Sum(derive, j, gap)
    ensures LaneOffBy(derive, j, hash, rows, gap)
  {
  }

  /** What the scan did is the committed rows and the gap. */
  lemma GapBalance(derive: Bytes -> Hash, j: nat, ms: seq<Mutation>, store: Macs)
    requires j < 64 && Complete(ms)
    ensures MapSum(derive, j, store) + Net(derive, j, ms, Suppressed(ms), store)
      == MapSum(derive, j, Commit(store, ms)) + Sum(derive, j, Gap(ms, store))
  {
    var sup := Suppressed(ms);
    ScanBalance(derive, j, ms, sup, store);
    Concat(derive, j, Each(Orphans(ms, sup), 1), Rows(store, Weight(ms, sup)));
    SumEach(derive, j, Orphans(ms, sup), 1);
  }

  /** The exact error of every patch that can be decoded: the hash is the sum of the committed
      rows, plus the orphans, less the values subtracted too often. */
  lemma HashAfterIs(derive: Bytes -> Hash, hash: Hash, ms: seq<Mutation>, store: Macs)
    requires Complete(ms) && IsSumOf(derive, hash, store)
    ensures OffBy(derive, HashAfter(derive, hash, ms, store), Commit(store, ms), Gap(ms, store))
  {
    forall j | 0 <= j < 64
      ensures LaneOffBy(derive, j, HashAfter(derive, hash, ms, store), Commit(store, ms), Gap(ms, store))
    {
      LaneAfter(derive, hash, j, ms, store);
    }
  }

  /** The law survives the patch whatever HKDF computes. */
  ghost predicate AlwaysAgrees(ms: seq<Mutation>, store: Macs)
    requires AllKnown(ms)
  {
    forall derive: Bytes -> Hash, hash: Hash :: IsSumOf(derive, hash, store) ==>
      IsSumOf(derive, HashAfter(derive, hash, ms, store), Commit(store, ms))
  }

  /** Exactly when: every value MAC is off by a multiple of 2^16. */
  lemma AgreesExactlyWhenBalanced(ms: seq<Mutation>, store: Macs)
    requires Complete(ms)
    ensures AlwaysAgrees(ms, store) <==> Balanced(Gap(ms, store))
  {
    var gap := Gap(ms, store);
    if Balanced(gap) {
      forall derive: Bytes -> Hash, hash: Hash | IsSumOf(derive, hash, store)
        ensures IsSumOf(derive, HashAfter(derive, hash, ms, store), Commit(store, ms))
      {
        HashAfterIs(derive, hash, ms, store);
        BalancedAgrees(derive, HashAfter(derive, hash, ms, store), Commit(store, ms), gap);
      }
    } else {
      var v :| Count(gap, v) % 0x1_0000 != 0;
      var hash := SumHash(Indicator(v), store);
      SumHashIsSum(Indicator(v), store, hash);
      HashAfterIs(Indicator(v), hash, ms, store);
      UnbalancedShows(HashAfter(Indicator(v), hash, ms, store), Commit(store, ms), gap, v);
    }
  }

  // ---------------------------------------------------------------- over every store

  /** No index is subtracted too often and nothing is orphaned, modulo 2^16. It depends on the
      patch alone. */
  ghost predicate Harmless(ms: seq<Mutation>)
    requires AllKnown(ms)
  {
    && (forall k :: Over(ms, Suppressed(ms), k) % 0x1_0000 == 0)
    && Balanced(Each(Orphans(ms, Suppressed(ms)), 1))
  }

  lemma MultiplesBalanced(store: Macs, w: Bytes -> int)
    requires forall k :: w(k) % 0x1_0000 == 0
    ensures Balanced(Rows(store, w))
  {
    forall v ensures Count(Rows(store, w), v) % 0x1_0000 == 0 {
      IndicatorSum(Rows(store, w), v);
      MultipleRows(Indicator(v), 0, store, w);
    }
  }

  lemma {:induction false} MultipleRows(derive: Bytes -> Hash, j: nat, store: Macs, w: Bytes -> int)
    requires j < 64 && forall k :: w(k) % 0x1_0000 == 0
    ensures Sum(derive, j, Rows(store, w)) % 0x1_0000 == 0
    decreases |store|
  {
    if store != map[] {
      var k :| k in store;
      var rest := store - {k};
      RowsRemove(derive, j, store, w, k);
      MultipleRows(derive, j, rest, w);
      MultipleStep(Sum(derive, j, Rows(store, w)), Sum(derive, j, Rows(rest, w)), w(k), derive(store[k])[j]);
    }
  }

  lemma MultipleStep(total: int, rest: int, c: int, d: int)
    requires total == rest + c * d && c % 0x1_0000 == 0 && rest % 0x1_0000 == 0
    ensures total % 0x1_0000 == 0
  {
    MultiplePlus(c, d, rest);
  }

  lemma HarmlessGap(ms: seq<Mutation>, store: Macs)
    requires AllKnown(ms) && Harmless(ms)
    ensures Balanced(Gap(ms, store))
  {
    var sup := Suppressed(ms);
    forall k ensures Weight(ms, sup)(k) % 0x1_0000 == 0 {
      assert Over(ms, sup, k) % 0x1_0000 == 0;
    }
    MultiplesBalanced(store, Weight(ms, sup));
    forall v ensures Count(Gap(ms, store), v) % 0x1_0000 == 0 {
      CountConcat(Each(Orphans(ms, sup), 1), Rows(store, Weight(ms, sup)), v);
    }
  }

  /** A harmless patch keeps the law over every store. */
  lemma PatchKeepsSum(derive: Bytes -> Hash, hash: Hash, ms: seq<Mutation>, store: Macs)
    requires Complete(ms) && Harmless(ms) && IsSumOf(derive, hash, store)
    ensures IsSumOf(derive, HashAfter(derive, hash, ms, store), Commit(store, ms))
  {
    HarmlessGap(ms, store);
    HashAfterIs(derive, hash, ms, store);
    BalancedAgrees(derive, HashAfter(derive, hash, ms, store), Commit(store, ms), Gap(ms, store));
  }

  lemma OneRow(k: Bytes, v: Bytes, w: Bytes -> int)
    ensures Count(Rows(map[k := v], w), v) == w(k)
  {
    var store: Macs := map[k := v];
    IndicatorSum(Rows(store, w), v);
    RowsRemove(Indicator(v), 0, store, w, k);
    assert store - {k} == map[];
  }

  lemma OnlyHarmless(ms: seq<Mutation>, k: Bytes)
    requires AllKnown(ms) && Balanced(Each(Orphans(ms, Suppressed(ms)), 1)) && Balanced(Gap(ms, map[k := [0]]))
    ensures Over(ms, Suppressed(ms), k) % 0x1_0000 == 0
  {
    GapAtOne(ms, k, [0]);
    Cancels(Over(ms, Suppressed(ms), k), Count(Each(Orphans(ms, Suppressed(ms)), 1), [0]));
  }

  lemma GapAtOne(ms: seq<Mutation>, k: Bytes, v: Bytes)
    requires AllKnown(ms)
    ensures Count(Gap(ms, map[k := v]), v)
         == Count(Each(Orphans(ms, Suppressed(ms)), 1), v) - Over(ms, Suppressed(ms), k)
  {
    var w := Weight(ms, Suppressed(ms));
    CountConcat(Each(Orphans(ms, Suppressed(ms)), 1), Rows(map[k := v], w), v);
    OneRow(k, v, w);
  }

  lemma Cancels(x: int, y: int)
    requires y % 0x1_0000 == 0 && (y - x) % 0x1_0000 == 0
    ensures x % 0x1_0000 == 0
  {
  }

  /** No other patch does. */
  lemma HarmlessExactly(ms: seq<Mutation>)
    requires Complete(ms)
    ensures (forall store :: AlwaysAgrees(ms, store)) <==> Harmless(ms)
  {
    if Harmless(ms) {
      forall store ensures AlwaysAgrees(ms, store) {
        HarmlessGap(ms, store);
        AgreesExactlyWhenBalanced(ms, store);
      }
    }
    if forall store :: AlwaysAgrees(ms, store) {
      AgreesExactlyWhenBalanced(ms, map[]);
      assert Gap(ms, map[]) == Each(Orphans(ms, Suppressed(ms)), 1);
      forall k ensures Over(ms, Suppressed(ms), k) % 0x1_0000 == 0 {
        AgreesExactlyWhenBalanced(ms, map[k := [0]]);
        OnlyHarmless(ms, k);
      }
    }
  }

  // ---------------------------------------------------------------- over other rows

  /** The hash of a patch is the sum of `rows`, whatever HKDF computes. */
  ghost predicate AlwaysFits(ms: seq<Mutation>, store: Macs, rows: Macs)
    requires AllKnown(ms)
  {
    forall derive: Bytes -> Hash, hash: Hash :: IsSumOf(derive, hash, store) ==>
      IsSumOf(derive, HashAfter(derive, hash, ms, store), rows)
  }

  /** How much more often the scan added a value MAC than it removed it. */
  ghost function Surplus(s: Scan, v: Bytes): int {
    var a: int, r: int := multiset(s.added)[v], multiset(s.removed)[v];
    a - r
  }

  /** By how much a value MAC is off: what the scan added less what it removed, against the change
      in how many rows hold it. */
  ghost function OffCount(ms: seq<Mutation>, store: Macs, rows: Macs, v: Bytes): int
    requires AllKnown(ms)
  {
    Surplus(ScanOf(ms, Suppressed(ms), store, true), v) + Holders(store, v) - Holders(rows, v)
  }

  ghost function OffTerms(ms: seq<Mutation>, store: Macs, rows: Macs): seq<Term>
    requires AllKnown(ms)
  {
    var s := ScanOf(ms, Suppressed(ms), store, true);
    Each(s.added, 1) + Each(s.removed, -1) + (Rows(store, Uniform(1)) + Rows(rows, Uniform(-1)))
  }

  lemma OffSum(derive: Bytes -> Hash, j: nat, ms: seq<Mutation>, store: Macs, rows: Macs)
    requires j < 64 && AllKnown(ms)
    ensures Sum(derive, j, OffTerms(ms, store, rows))
      == Net(derive, j, ms, Suppressed(ms), store) + MapSum(derive, j, store) - MapSum(derive, j, rows)
  {
    var s := ScanOf(ms, Suppressed(ms), store, true);
    var a, r, b, n := Each(s.added, 1), Each(s.removed, -1), Rows(store, Uniform(1)), Rows(rows, Uniform(-1));
    Concat(derive, j, a + r, b + n);
    Concat(derive, j, a, r);
    Concat(derive, j, b, n);
    SumEach(derive, j, s.added, 1);
    SumEach(derive, j, s.removed, -1);
    RowsOne(derive, j, store, Uniform(1), 1);
    RowsOne(derive, j, rows, Uniform(-1), -1);
  }

  lemma OffCounts(ms: seq<Mutation>, store: Macs, rows: Macs, v: Bytes)
    requires AllKnown(ms)
    ensures Count(OffTerms(ms, store, rows), v) == OffCount(ms, store, rows, v)
  {
    var s := ScanOf(ms, Suppressed(ms), store, true);
    var a, r, b, n := Each(s.added, 1), Each(s.removed, -1), Rows(store, Uniform(1)), Rows(rows, Uniform(-1));
    CountConcat(a + r, b + n, v);
    CountConcat(a, r, v);
    CountConcat(b, n, v);
    CountEach(s.added, 1, v);
    CountEach(s.removed, -1, v);
    HoldersNegated(rows, v);
  }

  lemma OffLane(derive: Bytes -> Hash, hash: Hash, j: nat, ms: seq<Mutation>, store: Macs, rows: Macs)
    requires j < 64 && AllKnown(ms) && IsSumOf(derive, hash, store)
    ensures LaneOffBy(derive, j, HashAfter(derive, hash, ms, store), rows, OffTerms(ms, store, rows))
  {
    OffSum(derive, j, ms, store, rows);
    LaneOver(derive, hash, j, ms, store, rows, OffTerms(ms, store, rows));
  }

  lemma OffByTerms(derive: Bytes -> Hash, hash: Hash, ms: seq<Mutation>, store: Macs, rows: Macs)
    requires AllKnown(ms) && IsSumOf(derive, hash, store)
    ensures OffBy(derive, HashAfter(derive, hash, ms, store), rows, OffTerms(ms, store, rows))
  {
    forall j | 0 <= j < 64
      ensures LaneOffBy(derive, j, HashAfter(derive, hash, ms, store), rows, OffTerms(ms, store, rows))
    {
      OffLane(derive, hash, j, ms, store, rows);
    }
  }

  /** Exactly when the hash of a patch fits given rows: every value MAC is off by a multiple of
      2^16. */
  lemma FitsExactly(ms: seq<Mutation>, store: Macs, rows: Macs)
    requires AllKnown(ms)
    ensures AlwaysFits(ms, store, rows) <==> forall v :: OffCount(ms, store, rows, v) % 0x1_0000 == 0
  {
    var off := OffTerms(ms, store, rows);
    forall v ensures Count(off, v) == OffCount(ms, store, rows, v) {
      OffCounts(ms, store, rows, v);
    }
    if Balanced(off) {
      forall derive: Bytes -> Hash, hash: Hash | IsSumOf(derive, hash, store)
        ensures IsSumOf(derive, HashAfter(derive, hash, ms, store), rows)
      {
        OffByTerms(derive, hash, ms, store, rows);
        BalancedAgrees(derive, HashAfter(derive, hash, ms, store), rows, off);
      }
    } else {
      var v :| Count(off, v) % 0x1_0000 != 0;
      var hash := SumHash(Indicator(v), store);
      SumHashIsSum(Indicator(v), store, hash);
      OffByTerms(Indicator(v), hash, ms, store, rows);
      UnbalancedShows(HashAfter(Indicator(v), hash, ms, store), rows, off, v);
    }
  }

  // ---------------------------------------------------------------- validated patches

  lemma FreshIndex(ms: seq<Mutation>, m: Mutation)
    requires Complete(ms) && CompleteOne(m) && DistinctPerOperation(ms + [m]) && IndexOf(m).Some?
    ensures IndexOf(m).value !in Indexes(ms, OpOf(m))
  {
    var all := ms + [m];
    if IndexOf(m).value in Indexes(ms, OpOf(m)) {
      var i :| 0 <= i < |ms| && OpOf(ms[i]) == OpOf(m) && IndexOf(ms[i]) == IndexOf(m);
      assert SameOperation(all[i], all[|ms|]);
      assert false;
    }
  }

  /** Without repeats nothing is orphaned, and an index is removed at most once. */
  lemma {:induction false} NoRepeats(ms: seq<Mutation>, suppressed: set<Bytes>, k: Bytes)
    requires Complete(ms) && DistinctPerOperation(ms)
    ensures Orphans(ms, suppressed) == [] && Removes(ms, k) <= 1
  {
    if ms != [] {
      var rest, m := ms[..|ms| - 1], ms[|ms| - 1];
      assert ms == rest + [m];
      NoRepeats(rest, suppressed, k);
      if IndexOf(m).Some? {
        FreshIndex(rest, m);
        LatestIff(rest, IndexOf(m).value);
        RemovesIff(rest, k);
      }
    }
  }

  lemma {:induction false} Unmentioned(ms: seq<Mutation>, k: Bytes)
    requires AllKnown(ms) && WellIndexed(ms) && |k| != 32
    ensures Latest(ms, k) == None && Removes(ms, k) == 0
  {
    if ms != [] {
      Unmentioned(ms[..|ms| - 1], k);
    }
  }

  /** Indexes both SET and REMOVEd by a patch outside index mode. */
  ghost function Doubled(ms: seq<Mutation>): set<Bytes>
    requires AllKnown(ms)
  {
    if IndexMode(ms) then {} else Indexes(ms, Set) * Indexes(ms, Remove)
  }

  /** What validation leaves: the stored value of an index both SET and REMOVEd outside index
      mode is subtracted once too often, and nothing else goes wrong. */
  lemma RegularOver(ms: seq<Mutation>, k: Bytes)
    requires Regular(ms)
    ensures Over(ms, Suppressed(ms), k) == if k in Doubled(ms) then 1 else 0
    ensures Orphans(ms, Suppressed(ms)) == []
  {
    NoRepeats(ms, Suppressed(ms), k);
    LatestIff(ms, k);
    RemovesIff(ms, k);
    if |k| != 32 {
      Unmentioned(ms, k);
    }
  }

  /** A validated patch keeps the law over every store exactly when it is in index mode or its
      SETs and REMOVEs name different indexes. */
  lemma ValidatedExactly(ms: seq<Mutation>)
    requires Regular(ms)
    ensures (forall store :: AlwaysAgrees(ms, store)) <==> Doubled(ms) == {}
  {
    HarmlessExactly(ms);
    RegularHarmless(ms);
  }

  lemma RegularHarmless(ms: seq<Mutation>)
    requires Regular(ms)
    ensures Harmless(ms) <==> Doubled(ms) == {}
  {
    forall k ensures Over(ms, Suppressed(ms), k) == if k in Doubled(ms) then 1 else 0 {
      RegularOver(ms, k);
    }
    RegularOver(ms, []);
    assert Each(Orphans(ms, Suppressed(ms)), 1) == [];
    if k :| k in Doubled(ms) {
      assert Over(ms, Suppressed(ms), k) == 1;
    }
  }

  ghost function Restrict(store: Macs, keys: set<Bytes>): Macs {
    map k | k in store && k in keys :: store[k]
  }

  lemma {:induction false} RestrictedRows(derive: Bytes -> Hash, j: nat, store: Macs, w: Bytes -> int, keys: set<Bytes>)
    requires j < 64 && forall k :: w(k) == if k in keys then -1 else 0
    ensures Sum(derive, j, Rows(store, w)) == -MapSum(derive, j, Restrict(store, keys))
    decreases |store|
  {
    var kept := Restrict(store, keys);
    if store == map[] {
      assert kept == map[];
    } else {
      var k :| k in store;
      RowsRemove(derive, j, store, w, k);
      RestrictedRows(derive, j, store - {k}, w, keys);
      assert Restrict(store - {k}, keys) == kept - {k};
      MapSumDrop(derive, j, kept, k);
    }
  }

  lemma RegularGap(ms: seq<Mutation>, store: Macs, v: Bytes)
    requires Regular(ms)
    ensures Count(Gap(ms, store), v) == -Holders(Restrict(store, Doubled(ms)), v)
  {
    var w := Weight(ms, Suppressed(ms));
    forall k ensures w(k) == if k in Doubled(ms) then -1 else 0 {
      RegularOver(ms, k);
    }
    RegularOver(ms, []);
    assert Gap(ms, store) == Rows(store, w);
    IndicatorSum(Rows(store, w), v);
    RestrictedRows(Indicator(v), 0, store, w, Doubled(ms));
    HoldersSum(Restrict(store, Doubled(ms)), v);
  }

  lemma NegatedMultiple(x: int)
    ensures (-x) % 0x1_0000 == 0 <==> x % 0x1_0000 == 0
  {
  }

  ghost predicate NoneShows(lost: Macs) {
    forall v :: Holders(lost, v) % 0x1_0000 == 0
  }

  lemma NothingKept(store: Macs, keys: set<Bytes>)
    ensures Restrict(store, keys) == map[] <==> keys !! store.Keys
  {
    if k :| k in keys && k in store {
      assert k in Restrict(store, keys);
    }
  }

  lemma FewRows(lost: Macs)
    requires |lost| < 0x1_0000
    ensures NoneShows(lost) <==> lost == map[]
  {
    if k :| k in lost {
      HoldersRange(lost, lost[k]);
      assert lost[k] in lost.Values;
      assert Holders(lost, lost[k]) % 0x1_0000 != 0;
    } else {
      forall v ensures Holders(lost, v) % 0x1_0000 == 0 {
        HoldersRange(lost, v);
      }
    }
  }

  lemma GapCounts(ms: seq<Mutation>, store: Macs)
    requires Regular(ms)
    ensures Balanced(Gap(ms, store)) <==> NoneShows(Restrict(store, Doubled(ms)))
  {
    var gap, lost := Gap(ms, store), Restrict(store, Doubled(ms));
    forall v ensures Count(gap, v) % 0x1_0000 == 0 <==> Holders(lost, v) % 0x1_0000 == 0 {
      RegularGap(ms, store, v);
      NegatedMultiple(Holders(lost, v));
    }
  }

  /** Over one store, below 2^16 doubled rows, the condition is that none is stored. */
  lemma AgreesExactlyWhenNothingDoubled(ms: seq<Mutation>, store: Macs)
    requires Regular(ms) && |Restrict(store, Doubled(ms))| < 0x1_0000
    ensures AlwaysAgrees(ms, store) <==> Doubled(ms) !! store.Keys
  {
    var lost := Restrict(store, Doubled(ms));
    assert AlwaysAgrees(ms, store) <==> NoneShows(lost) by {
      AgreesExactlyWhenBalanced(ms, store);
      GapCounts(ms, store);
    }
    FewRows(lost);
    NothingKept(store, Doubled(ms));
  }
}
