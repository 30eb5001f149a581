/** The snapshot side: one winner per index, folded by two different algorithms. */
module SnapshotHash {
  import opened Common
  import opened LtHash
  import opened SyncWire
  import opened Sorting

  const DEDUP_SCAN_LIMIT := 64

  /** An absent index shares the empty key. */
  function KeyOf(r: Record): Bytes {
    if r.index.Some? then r.index.value else []
  }

  type Entry = (Bytes, Bytes)

  function EntryKey(e: Entry): Bytes { e.0 }

  function EntryOf(r: Record): Entry
    requires r.value.Some?
  {
    (KeyOf(r), ValueMacTail(r.value.value))
  }

  /** The records that carry a value, as index and value MAC. */
  function Entries(records: seq<Record>): seq<Entry> {
    if records == [] then []
    else
      var r := records[|records| - 1];
      Entries(records[..|records| - 1]) + (if r.value.Some? then [EntryOf(r)] else [])
  }

  /** `new Map(entries)`: the last entry for a key is the one that counts. */
  function LastMap(entries: seq<Entry>): Macs {
    if entries == [] then map[]
    else LastMap(entries[..|entries| - 1])[entries[|entries| - 1].0 := entries[|entries| - 1].1]
  }

  /** What a snapshot describes. */
  function Winners(records: seq<Record>): Macs {
    LastMap(Entries(records))
  }

  lemma LastMapSnoc(entries: seq<Entry>, e: Entry)
    ensures LastMap(entries + [e]) == LastMap(entries)[e.0 := e.1]
  {
    assert (entries + [e])[..|entries + [e]| - 1] == entries;
  }

  /** Read backwards, the first hit for a key is its last entry. */
  lemma {:induction false} LastMapCons(e: Entry, entries: seq<Entry>)
    ensures LastMap([e] + entries) == if e.0 in LastMap(entries) then LastMap(entries) else LastMap(entries)[e.0 := e.1]
  {
    if entries == [] {
      LastMapSnoc([], e);
      assert [e] + entries == [] + [e];
    } else {
      var rest, last := entries[..|entries| - 1], entries[|entries| - 1];
      LastMapCons(e, rest);
      LastMapSnoc([e] + rest, last);
      LastMapSnoc(rest, last);
      assert [e] + entries == [e] + rest + [last];
      assert entries == rest + [last];
    }
  }

  lemma {:induction false} LastMapKeys(entries: seq<Entry>, k: Bytes)
    ensures k in LastMap(entries) <==> exists i :: 0 <= i < |entries| && entries[i].0 == k
  {
    if entries != [] {
      var rest, last := entries[..|entries| - 1], entries[|entries| - 1];
      LastMapKeys(rest, k);
      if i :| 0 <= i < |rest| && rest[i].0 == k {
        assert entries[i].0 == k;
      }
    }
  }

  /** The stable sort keeps encounter order within a key, so it keeps the winner. */
  lemma {:induction false} InsertKeepsWinner(s: seq<Entry>, x: Entry)
    requires Sorted(s, EntryKey)
    ensures LastMap(Insert(s, x, EntryKey)) == LastMap(s)[x.0 := x.1]
  {
    if s == [] {
      LastMapSnoc([], x);
      assert [x] == [] + [x];
    } else {
      var rest, last := s[..|s| - 1], s[|s| - 1];
      if LexLeq(EntryKey(last), EntryKey(x)) {
        LastMapSnoc(s, x);
      } else {
        InsertKeepsWinner(rest, x);
        LastMapSnoc(Insert(rest, x, EntryKey), last);
        LexTotal(last.0, x.0);
      }
    }
  }

  lemma {:induction false} SortKeepsWinners(s: seq<Entry>)
    ensures LastMap(StableSort(s, EntryKey)) == LastMap(s)
  {
    if s != [] {
      var rest, last := s[..|s| - 1], s[|s| - 1];
      SortKeepsWinners(rest);
      StableSortSorts(rest, EntryKey);
      InsertKeepsWinner(StableSort(rest, EntryKey), last);
    }
  }

  /** What either algorithm must add: each winner's value MAC once. */
  ghost predicate AddsEachWinner(added: seq<Bytes>, winners: Macs) {
    && |added| == |winners|
    && forall derive: Bytes -> Hash, j: nat :: j < 64 ==> SeqSum(derive, j, added) == MapSum(derive, j, winners)
  }

  lemma AddsOneMore(added: seq<Bytes>, winners: Macs, k: Bytes, v: Bytes)
    requires AddsEachWinner(added, winners) && k !in winners
    ensures AddsEachWinner(added + [v], winners[k := v])
  {
    forall derive: Bytes -> Hash, j: nat | j < 64
      ensures SeqSum(derive, j, added + [v]) == MapSum(derive, j, winners[k := v])
    {
      SeqSumSnoc(derive, j, added, v);
      MapSumPut(derive, j, winners, k, v);
    }
  }

  /** The small branch: a backwards linear scan. */
  method ScanWinners(indexed: seq<Entry>) returns (added: seq<Bytes>)
    ensures AddsEachWinner(added, LastMap(indexed))
  {
    added := [];
    var seen: seq<Bytes> := [];
    var i := |indexed|;
    assert indexed[i..] == [];
    while i > 0
      invariant 0 <= i <= |indexed|
      invariant AddsEachWinner(added, LastMap(indexed[i..]))
      invariant forall k :: k in seen <==> k in LastMap(indexed[i..])
    {
      i := i - 1;
      var (k, v) := indexed[i];
      assert indexed[i..] == [indexed[i]] + indexed[i + 1..];
      LastMapCons(indexed[i], indexed[i + 1..]);
      if k !in seen {
        AddsOneMore(added, LastMap(indexed[i + 1..]), k, v);
        seen := seen + [k];
        added := added + [v];
      }
    }
    assert indexed[0..] == indexed;
  }

  /** The large branch: stable sort, then the last entry of every run. */
  method SortWinners(indexed: seq<Entry>) returns (added: seq<Bytes>)
    ensures AddsEachWinner(added, LastMap(indexed))
  {
    var sorted := StableSort(indexed, EntryKey);
    SortKeepsWinners(indexed);
    StableSortSorts(indexed, EntryKey);
    added := [];
    var i := 0;
    while i < |sorted|
      invariant 0 <= i <= |sorted|
      invariant AddsEachWinner(added, LastMap(sorted[..i]))
      invariant 0 < i < |sorted| ==> sorted[i - 1].0 != sorted[i].0
    {
      var end := RunEnd(sorted, i);
      RunAdds(sorted, i, end);
      AddsOneMore(added, LastMap(sorted[..i]), sorted[i].0, sorted[end - 1].1);
      added := added + [sorted[end - 1].1];
      i := end;
    }
    assert sorted[..|sorted|] == sorted;
  }

  /** `partition_point` over a sorted slice: where the run of equal keys stops. */
  method RunEnd(sorted: seq<Entry>, i: nat) returns (end: nat)
    requires i < |sorted|
    ensures i < end <= |sorted|
    ensures forall n :: i <= n < end ==> sorted[n].0 == sorted[i].0
    ensures end < |sorted| ==> sorted[end].0 != sorted[i].0
  {
    end := i + 1;
    while end < |sorted| && sorted[end].0 == sorted[i].0
      invariant i < end <= |sorted|
      invariant forall n :: i <= n < end ==> sorted[n].0 == sorted[i].0
    {
      end := end + 1;
    }
  }

  lemma {:induction false} RunAdds(sorted: seq<Entry>, i: nat, end: nat)
    requires Sorted(sorted, EntryKey) && i < end <= |sorted|
    requires forall n :: i <= n < end ==> sorted[n].0 == sorted[i].0
    requires i > 0 ==> sorted[i - 1].0 != sorted[i].0
    ensures sorted[i].0 !in LastMap(sorted[..i])
    ensures LastMap(sorted[..end]) == LastMap(sorted[..i])[sorted[i].0 := sorted[end - 1].1]
    decreases end
  {
    LastMapSnoc(sorted[..end - 1], sorted[end - 1]);
    assert sorted[..end] == sorted[..end - 1] + [sorted[end - 1]];
    if end - 1 > i {
      RunAdds(sorted, i, end - 1);
    } else {
      RunIsNew(sorted, i);
    }
  }

  /** In a sorted list a run starts with a key not seen before. */
  lemma RunIsNew(sorted: seq<Entry>, i: nat)
    requires Sorted(sorted, EntryKey) && i < |sorted| && (i > 0 ==> sorted[i - 1].0 != sorted[i].0)
    ensures sorted[i].0 !in LastMap(sorted[..i])
  {
    LastMapKeys(sorted[..i], sorted[i].0);
    forall n | 0 <= n < |sorted[..i]| ensures sorted[..i][n].0 != sorted[i].0 {
      assert LexLeq(EntryKey(sorted[i - 1]), EntryKey(sorted[i]));
      assert n < i - 1 ==> LexLeq(EntryKey(sorted[n]), EntryKey(sorted[i - 1]));
      LexTotal(sorted[i - 1].0, sorted[i].0);
    }
  }

  // ---------------------------------------------------------------- the fold

  function Valueless(records: seq<Record>): nat {
    if records == [] then 0
    else Valueless(records[..|records| - 1]) + (if records[|records| - 1].value.None? then 1 else 0)
  }

  /** First half of `update_hash_from_records`. */
  method CollectEntries(records: seq<Record>) returns (indexed: seq<Entry>, valueless: nat)
    ensures indexed == Entries(records) && valueless == Valueless(records)
  {
    indexed, valueless := [], 0;
    for i := 0 to |records|
      invariant indexed == Entries(records[..i]) && valueless == Valueless(records[..i])
    {
      assert records[..i + 1][..i] == records[..i];
      if records[i].value.None? {
        valueless := valueless + 1;
      } else {
        indexed := indexed + [EntryOf(records[i])];
      }
    }
    assert records[..|records|] == records;
  }

  lemma FoldOfWinners(derive: Bytes -> Hash, added: seq<Bytes>, winners: Macs)
    requires AddsEachWinner(added, winners)
    ensures Folded(derive, EmptyHash(), [], added) == SumHash(derive, winners)
  {
    assert forall j :: 0 <= j < 64 ==> SeqSum(derive, j, added) == MapSum(derive, j, winners);
  }

  /** `update_hash_from_records` on a fresh state. Whichever branch runs, the hash is the
      sum of the winners, and `folded` is their number. */
  method UpdateHashFromRecords(derive: Bytes -> Hash, records: seq<Record>)
    returns (hash: Hash, folded: nat, valueless: nat)
    ensures hash == SumHash(derive, Winners(records))
    ensures folded == |Winners(records)|
    ensures valueless == Valueless(records)
  {
    var indexed;
    indexed, valueless := CollectEntries(records);
    var added;
    if |indexed| <= DEDUP_SCAN_LIMIT {
      added := ScanWinners(indexed);
    } else {
      added := SortWinners(indexed);
    }
    var base := new Lane[64](_ => 0);
    assert base[..] == EmptyHash();
    SubtractThenAddInPlace(derive, base, [], added);
    FoldOfWinners(derive, added, LastMap(indexed));
    hash, folded := base[..], |added|;
  }

  // ---------------------------------------------------------------- the decode set

  /** No valued record after position `i` has its key. */
  ghost predicate IsLast(records: seq<Record>, i: nat)
    requires i < |records|
  {
    && records[i].value.Some?
    && forall n :: i < n < |records| && records[n].value.Some? ==> KeyOf(records[n]) != KeyOf(records[i])
  }

  /** The winners of the records from `i` on, in list order. */
  ghost function KeptFrom(records: seq<Record>, i: nat): seq<Record>
    requires i <= |records|
    decreases |records| - i
  {
    if i == |records| then []
    else (if IsLast(records, i) then [records[i]] else []) + KeptFrom(records, i + 1)
  }

  /** The keys of the valued records from `i` on. */
  ghost predicate SeenFrom(records: seq<Record>, i: nat, seen: seq<Bytes>) {
    forall k :: k in seen <==> exists n :: i <= n < |records| && records[n].value.Some? && KeyOf(records[n]) == k
  }

  lemma SeenMore(records: seq<Record>, i: nat, seen: seq<Bytes>)
    requires i < |records| && SeenFrom(records, i + 1, seen)
    ensures records[i].value.Some? ==> (IsLast(records, i) <==> KeyOf(records[i]) !in seen)
    ensures SeenFrom(records, i, if IsLast(records, i) then seen + [KeyOf(records[i])] else seen)
  {
    var all := if IsLast(records, i) then seen + [KeyOf(records[i])] else seen;
    forall k
      ensures k in all <==> exists n :: i <= n < |records| && records[n].value.Some? && KeyOf(records[n]) == k
    {
      if records[i].value.Some? && KeyOf(records[i]) == k {
        assert k in all;
      } else if n :| i < n < |records| && records[n].value.Some? && KeyOf(records[n]) == k {
        assert k in seen;
      }
    }
  }

  /** `last_record_per_index`: backwards scan, then reversed. */
  method LastRecordPerIndex(records: seq<Record>) returns (winners: seq<Record>)
    ensures winners == KeptFrom(records, 0)
  {
    winners := [];
    var seen: seq<Bytes> := [];
    var i := |records|;
    while i > 0
      invariant 0 <= i <= |records|
      invariant winners == KeptFrom(records, i)
      invariant SeenFrom(records, i, seen)
    {
      i := i - 1;
      SeenMore(records, i, seen);
      if records[i].value.Some? && KeyOf(records[i]) !in seen {
        seen := seen + [KeyOf(records[i])];
        winners := [records[i]] + winners;
      }
    }
  }

  lemma {:induction false} KeptAreValued(records: seq<Record>, i: nat)
    requires i <= |records|
    ensures forall r :: r in KeptFrom(records, i) ==> r.value.Some?
    decreases |records| - i
  {
    if i < |records| {
      KeptAreValued(records, i + 1);
    }
  }

  lemma EntriesCons(r: Record, rest: seq<Record>)
    ensures Entries([r] + rest) == (if r.value.Some? then [EntryOf(r)] else []) + Entries(rest)
  {
    if rest == [] {
      assert ([r] + rest)[..0] == [];
    } else {
      EntriesCons(r, rest[..|rest| - 1]);
      assert ([r] + rest)[..|rest|] == [r] + rest[..|rest| - 1];
      var head := if r.value.Some? then [EntryOf(r)] else [];
      var last := if rest[|rest| - 1].value.Some? then [EntryOf(rest[|rest| - 1])] else [];
      assert Entries([r] + rest) == (head + Entries(rest[..|rest| - 1])) + last;
    }
  }

  lemma {:induction false} EntryAt(records: seq<Record>, k: Bytes)
    ensures k in Winners(records) <==>
       exists n :: 0 <= n < |records| && records[n].value.Some? && KeyOf(records[n]) == k
  {
    if records != [] {
      var rest, last := records[..|records| - 1], records[|records| - 1];
      EntryAt(rest, k);
      if last.value.Some? {
        LastMapSnoc(Entries(rest), EntryOf(last));
      } else {
        assert Entries(records) == Entries(rest);
      }
      if n :| 0 <= n < |rest| && rest[n].value.Some? && KeyOf(rest[n]) == k {
        assert records[n] == rest[n];
      }
    }
  }

  /** Decode and fold agree: the records decoded are one per winner, with its value MAC. */
  lemma {:induction false} KeptDescribeWinners(records: seq<Record>, i: nat)
    requires i <= |records|
    ensures Winners(KeptFrom(records, i)) == Winners(records[i..])
    ensures |KeptFrom(records, i)| == |Winners(records[i..])|
    decreases |records| - i
  {
    if i == |records| {
      assert records[i..] == [];
    } else {
      KeptDescribeWinners(records, i + 1);
      var r, kept, tail := records[i], KeptFrom(records, i + 1), records[i + 1..];
      assert records[i..] == [r] + records[i + 1..];
      EntriesCons(r, records[i + 1..]);
      if r.value.Some? {
        LastMapCons(EntryOf(r), Entries(records[i + 1..]));
        EntryAt(records[i + 1..], KeyOf(r));
        if IsLast(records, i) {
          EntriesCons(r, kept);
          LastMapCons(EntryOf(r), Entries(kept));
          assert KeyOf(r) !in Winners(tail);
          var w := Winners(tail);
          assert |w[KeyOf(r) := ValueMacTail(r.value.value)]| == |w| + 1;
        } else {
          assert KeptFrom(records, i) == kept;
          var n :| i < n < |records| && records[n].value.Some? && KeyOf(records[n]) == KeyOf(r);
          assert tail[n - i - 1] == records[n];
        }
      } else {
        assert KeptFrom(records, i) == kept;
        assert Entries(records[i..]) == Entries(records[i + 1..]);
      }
    }
  }
}
