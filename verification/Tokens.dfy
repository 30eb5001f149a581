/** The token dictionary: the packing of the token lists into a table and a blob, and the
    lookup, which inverts the decode arrays on every byte string. */
module Tokens {
  import opened Bitwise
  import opened Common
  import opened TokenTable

  datatype TokenKind = Single(index: nat) | Double(dict: nat, index: nat)

  function DecodeKind(kind: nat): TokenKind {
    if kind < 256 then Single(kind) else Double(kind / 256 - 1, kind % 256)
  }

  /** The decode arrays: row 0 the single-byte tokens, row `d + 1` double-byte dictionary `d`. */
  function TokenAt(rows: seq<seq<Bytes>>, kind: TokenKind): Option<Bytes> {
    var row := if kind.Single? then 0 else kind.dict + 1;
    if row < |rows| && kind.index < |rows[row]| then Some(rows[row][kind.index]) else None
  }

  // ---------------------------------------------------------------- token_key

  /** With the length pinned, the padded word is the token. */
  lemma {:induction false} LittleEndianInjective(a: Bytes, b: Bytes)
    requires |a| == |b| && LittleEndian(a) == LittleEndian(b)
    ensures a == b
  {
    if a != [] {
      SameDigits(a[0], LittleEndian(a[1..]), b[0], LittleEndian(b[1..]));
      LittleEndianInjective(a[1..], b[1..]);
      assert a == [a[0]] + a[1..] && b == [b[0]] + b[1..];
    }
  }

  lemma SameDigits(a: byte, m: nat, b: byte, n: nat)
    requires a + 0x100 * m == b + 0x100 * n
    ensures a == b && m == n
  {
  }

  function RotatedLeft(x: Word): Word { x * 0x800 % 0x1_0000_0000 + x / 0x20_0000 }

  const WORD_BITS: nat := 32

  function Xored(a: Word, b: Word): (x: Word) {
    WordHasPow2();
    Combined(Xor, a, b, WORD_BITS)
  }

  function Mix(head: Word, tail: Word, len: nat): (x: Word) {
    Xored(Xored(RotatedLeft(head), tail), len * 0x9E37_79B1 % 0x1_0000_0000)
  }

  function TokenKey(b: Bytes): (x: Word)
    requires b != []
  {
    if |b| <= 4 then LittleEndian(b) else Mix(LittleEndian(b[..4]), LittleEndian(b[|b| - 4..]), |b|)
  }

  /** Eleven bits come round. */
  lemma RotatedIs(high: nat, low: nat)
    requires high < 0x800 && low < 0x20_0000
    ensures RotatedLeft(high * 0x20_0000 + low) == low * 0x800 + high
  {
    var x := high * 0x20_0000 + low;
    assert x * 0x800 == high * 0x1_0000_0000 + low * 0x800;
  }

  /** The number of four bytes, low-order byte first. */
  function Word4(a: byte, b: byte, c: byte, d: byte): (w: Word) {
    var low: int, mid: int, high: int, top: int := a, b, c, d;
    low + 0x100 * mid + 0x1_0000 * high + 0x100_0000 * top
  }

  /** The key of a long token: its first four bytes rotated, its last four and a multiple of its
      length, combined by exclusive or. */
  lemma LongKeyIs(b: Bytes, width: nat)
    requires |b| > 4 && width == 32
    ensures var n := |b|;
      TokenKey(b) == Combined(Xor, Combined(Xor, RotatedLeft(Word4(b[0], b[1], b[2], b[3])),
                                            Word4(b[n - 4], b[n - 3], b[n - 2], b[n - 1]), width),
                              n * 0x9e37_79b1 % 0x1_0000_0000, width)
  {
    LittleEndianFour(b[..4]);
    LittleEndianFour(b[|b| - 4..]);
  }

  // ---------------------------------------------------------------- collecting the tokens

  datatype Value = Value(token: Bytes, kind: nat)

  function RowValues(dict: seq<Bytes>, row: nat, n: nat): seq<Value>
    requires n <= |dict|
  {
    if n == 0 then []
    else RowValues(dict, row, n - 1) + if dict[n - 1] == [] then [] else [Value(dict[n - 1], row * 256 + n - 1)]
  }

  /** Every nonempty token of the first `n` rows, with its packed kind. */
  function Values(rows: seq<seq<Bytes>>, n: nat): seq<Value>
    requires n <= |rows|
  {
    if n == 0 then [] else Values(rows, n - 1) + RowValues(rows[n - 1], n - 1, |rows[n - 1]|)
  }

  ghost predicate Distinct(values: seq<Value>) {
    forall i, j :: 0 <= i < j < |values| ==> values[i].token != values[j].token
  }

  /** No nonempty token lies past column 255 of its row, or past row 255. */
  ghost predicate RowFits(dict: seq<Bytes>, row: nat, n: nat)
    requires n <= |dict|
  {
    forall i :: 0 <= i < n && dict[i] != [] ==> i < 256 && row < 256
  }

  ghost predicate AllFit(rows: seq<seq<Bytes>>, n: nat)
    requires n <= |rows|
  {
    forall r :: 0 <= r < n ==> RowFits(rows[r], r, |rows[r]|)
  }

  ghost predicate RowLists(dict: seq<Bytes>, row: nat, i: nat, v: Value) {
    i < |dict| && dict[i] != [] && v == Value(dict[i], row * 256 + i)
  }

  lemma {:induction false} RowValuesAre(dict: seq<Bytes>, row: nat, n: nat, v: Value)
    requires n <= |dict|
    ensures v in RowValues(dict, row, n) <==> exists i: nat :: i < n && RowLists(dict, row, i, v)
    decreases n
  {
    if n > 0 {
      RowValuesAre(dict, row, n - 1, v);
      assert v in RowValues(dict, row, n) <==> v in RowValues(dict, row, n - 1) || RowLists(dict, row, n - 1, v);
    }
  }

  lemma {:induction false} ValuesAre(rows: seq<seq<Bytes>>, n: nat, v: Value)
    requires n <= |rows|
    ensures v in Values(rows, n) <==>
            exists r: nat, i: nat :: r < n && RowLists(rows[r], r, i, v)
    decreases n
  {
    if n > 0 {
      ValuesAre(rows, n - 1, v);
      RowValuesAre(rows[n - 1], n - 1, |rows[n - 1]|, v);
    }
  }

  function KindOf(row: nat, index: nat): TokenKind {
    if row == 0 then Single(index) else Double(row - 1, index)
  }

  lemma KindRoundTrip(row: nat, index: nat)
    requires index < 256
    ensures DecodeKind(row * 256 + index) == KindOf(row, index)
  {
    assert (row * 256 + index) / 256 == row;
  }

  ghost predicate Names(values: seq<Value>, key: Bytes, kind: TokenKind) {
    exists i :: 0 <= i < |values| && values[i].token == key && DecodeKind(values[i].kind) == kind
  }

  /** The packed kinds of a fitting dictionary decode to the positions of its tokens. */
  lemma KindsDecode(rows: seq<seq<Bytes>>, key: Bytes, kind: TokenKind)
    requires AllFit(rows, |rows|) && key != []
    ensures TokenAt(rows, kind) == Some(key) <==> Names(Values(rows, |rows|), key, kind)
  {
    if TokenAt(rows, kind) == Some(key) {
      PositionNamed(rows, key, kind);
    }
    if Names(Values(rows, |rows|), key, kind) {
      NamePositioned(rows, key, kind);
    }
  }

  lemma PositionNamed(rows: seq<seq<Bytes>>, key: Bytes, kind: TokenKind)
    requires AllFit(rows, |rows|) && key != [] && TokenAt(rows, kind) == Some(key)
    ensures Names(Values(rows, |rows|), key, kind)
  {
    var row := if kind.Single? then 0 else kind.dict + 1;
    var v := Value(key, row * 256 + kind.index);
    assert RowLists(rows[row], row, kind.index, v);
    ValuesAre(rows, |rows|, v);
    assert RowFits(rows[row], row, |rows[row]|);
    KindRoundTrip(row, kind.index);
    NamedBy(Values(rows, |rows|), v, kind);
  }

  lemma NamedBy(values: seq<Value>, v: Value, kind: TokenKind)
    requires v in values && DecodeKind(v.kind) == kind
    ensures Names(values, v.token, kind)
  {
  }

  lemma KindLocates(rows: seq<seq<Bytes>>, r: nat, i: nat, v: Value)
    requires r < |rows| && i < 256 && RowLists(rows[r], r, i, v)
    ensures TokenAt(rows, DecodeKind(v.kind)) == Some(v.token)
  {
    KindRoundTrip(r, i);
    assert v.kind == r * 256 + i;
  }

  lemma ValuePositioned(rows: seq<seq<Bytes>>, v: Value)
    requires AllFit(rows, |rows|) && v in Values(rows, |rows|)
    ensures TokenAt(rows, DecodeKind(v.kind)) == Some(v.token)
  {
    ValuesAre(rows, |rows|, v);
    var r: nat, i: nat :| r < |rows| && RowLists(rows[r], r, i, v);
    assert RowFits(rows[r], r, |rows[r]|);
    KindLocates(rows, r, i, v);
  }

  lemma NamePositioned(rows: seq<seq<Bytes>>, key: Bytes, kind: TokenKind)
    requires AllFit(rows, |rows|) && Names(Values(rows, |rows|), key, kind)
    ensures TokenAt(rows, kind) == Some(key)
  {
    var values := Values(rows, |rows|);
    var j :| 0 <= j < |values| && values[j].token == key && DecodeKind(values[j].kind) == kind;
    ValuePositioned(rows, values[j]);
  }

  // ---------------------------------------------------------------- the packing

  /** The scan of one row: refused on a repeated token or a position past 255. */
  method CollectRow(values: seq<Value>, seen: set<Bytes>, dict: seq<Bytes>, row: nat)
    returns (r: Option<(seq<Value>, set<Bytes>)>)
    requires Distinct(values) && Seen(values, seen)
    ensures r.Some? <==> Distinct(values + RowValues(dict, row, |dict|)) && RowFits(dict, row, |dict|)
    ensures r.Some? ==> r.value.0 == values + RowValues(dict, row, |dict|) && Seen(r.value.0, r.value.1)
  {
    var all, known := values, seen;
    for i := 0 to |dict|
      invariant all == values + RowValues(dict, row, i) && RowFits(dict, row, i)
      invariant Distinct(all) && Seen(all, known)
    {
      if dict[i] != [] {
        if i >= 256 || row >= 256 {
          return None;
        }
        if dict[i] in known {
          Clash(all, Value(dict[i], row * 256 + i));
          RowPrefix(dict, row, i + 1, |dict|);
          assert values + RowValues(dict, row, i + 1) == all + [Value(dict[i], row * 256 + i)];
          SubDistinct(values + RowValues(dict, row, i + 1), values + RowValues(dict, row, |dict|));
          return None;
        }
        SeenGrows(all, known, Value(dict[i], row * 256 + i));
        known := known + {dict[i]};
        assert values + RowValues(dict, row, i + 1) == all + [Value(dict[i], row * 256 + i)];
        all := all + [Value(dict[i], row * 256 + i)];
      }
    }
    return Some((all, known));
  }

  /** The set of the scan holds exactly the tokens listed so far. */
  ghost predicate Seen(values: seq<Value>, seen: set<Bytes>) {
    forall t :: t in seen <==> exists i :: 0 <= i < |values| && values[i].token == t
  }

  lemma SeenGrows(values: seq<Value>, seen: set<Bytes>, v: Value)
    requires Seen(values, seen)
    ensures Seen(values + [v], seen + {v.token})
  {
    var all := values + [v];
    forall t ensures t in seen + {v.token} <==> exists i :: 0 <= i < |all| && all[i].token == t {
      if t == v.token {
        assert all[|values|].token == t;
      } else if i :| 0 <= i < |values| && values[i].token == t {
        assert all[i].token == t;
      }
    }
  }

  lemma Clash(values: seq<Value>, v: Value)
    requires exists i :: 0 <= i < |values| && values[i].token == v.token
    ensures !Distinct(values + [v])
  {
    var i :| 0 <= i < |values| && values[i].token == v.token;
    var all := values + [v];
    assert all[i].token == all[|values|].token;
  }

  lemma SubDistinct(a: seq<Value>, b: seq<Value>)
    requires a <= b && !Distinct(a)
    ensures !Distinct(b)
  {
    var i, j :| 0 <= i < j < |a| && a[i].token == a[j].token;
    assert b[i] == a[i] && b[j] == a[j];
  }

  lemma {:induction false} RowPrefix(dict: seq<Bytes>, row: nat, m: nat, n: nat)
    requires m <= n <= |dict|
    ensures RowValues(dict, row, m) <= RowValues(dict, row, n)
    decreases n
  {
    if m < n {
      RowPrefix(dict, row, m, n - 1);
    }
  }

  lemma {:induction false} ValuesPrefix(rows: seq<seq<Bytes>>, m: nat, n: nat)
    requires m <= n <= |rows|
    ensures Values(rows, m) <= Values(rows, n)
    decreases n
  {
    if m < n {
      ValuesPrefix(rows, m, n - 1);
    }
  }

  /** The scan of the token lists. */
  method CollectValues(rows: seq<seq<Bytes>>) returns (r: Option<seq<Value>>)
    ensures r.Some? <==> Distinct(Values(rows, |rows|)) && AllFit(rows, |rows|)
    ensures r.Some? ==> r.value == Values(rows, |rows|)
  {
    var values: seq<Value>, seen: set<Bytes> := [], {};
    for n := 0 to |rows|
      invariant values == Values(rows, n) && AllFit(rows, n)
      invariant Distinct(values) && Seen(values, seen)
    {
      var row := CollectRow(values, seen, rows[n], n);
      if row.None? {
        if !Distinct(Values(rows, n + 1)) {
          ValuesPrefix(rows, n + 1, |rows|);
          SubDistinct(Values(rows, n + 1), Values(rows, |rows|));
        }
        return None;
      }
      values, seen := row.value.0, row.value.1;
    }
    return Some(values);
  }

  /** What the builder asserts of one token. */
  predicate Packable(v: Value) {
    v.token != [] && |v.token| < 256 && 0 !in v.token && v.kind < 2048 && TokenKey(v.token) != 0
  }

  function Tag(token: Bytes): nat
    requires token != []
  {
    if |token| <= 4 then |token| - 1 else 31
  }

  /** How an entry and the blob describe a token: its key, its kind under its length tag, and
      for a long token the length-prefixed bytes. */
  ghost predicate Describes(e: Entry, blob: Bytes, v: Value) {
    && Packable(v)
    && e.key == TokenKey(v.token) && e.meta == v.kind + 2048 * Tag(v.token)
    && (|v.token| > 4 ==>
          && e.off + 1 + |v.token| <= |blob| && blob[e.off] == |v.token|
          && blob[e.off + 1..e.off + 1 + |v.token|] == v.token)
  }

  ghost predicate DescribesAll(entries: seq<Entry>, blob: Bytes, values: seq<Value>) {
    |entries| == |values| && forall i :: 0 <= i < |values| ==> Describes(entries[i], blob, values[i])
  }

  /** The length of the blob after the first `n` tokens. */
  function BlobLength(values: seq<Value>, n: nat): nat
    requires n <= |values|
  {
    if n == 0 then 0
    else BlobLength(values, n - 1) + if |values[n - 1].token| <= 4 then 0 else 1 + |values[n - 1].token|
  }

  /** Token `i` can be packed: it is acceptable itself and its blob offset is a 16-bit word. */
  predicate Accepts(values: seq<Value>, i: nat)
    requires i < |values|
  {
    var v := values[i];
    && 0 < |v.token| < 0x100 && (forall k :: 0 <= k < |v.token| ==> v.token[k] != 0)
    && v.kind < 0x800 && TokenKey(v.token) != 0
    && (|v.token| > 4 ==> BlobLength(values, i) < 0x1_0000)
  }

  lemma DescriptionKept(e: Entry, blob: Bytes, more: Bytes, v: Value)
    requires Describes(e, blob, v)
    ensures Describes(e, blob + more, v)
  {
    if |v.token| > 4 {
      assert (blob + more)[e.off + 1..e.off + 1 + |v.token|] == blob[e.off + 1..e.off + 1 + |v.token|];
    }
  }

  lemma AllKept(entries: seq<Entry>, blob: Bytes, more: Bytes, values: seq<Value>, e: Entry, v: Value)
    requires DescribesAll(entries, blob, values) && Describes(e, blob + more, v)
    ensures DescribesAll(entries + [e], blob + more, values + [v])
  {
    forall i | 0 <= i < |values| ensures Describes(entries[i], blob + more, values[i]) {
      DescriptionKept(entries[i], blob, more, values[i]);
    }
  }

  function EntryOf(v: Value, off: Half): Entry
    requires Packable(v)
  {
    Entry(TokenKey(v.token), v.kind + 2048 * Tag(v.token), off)
  }

  function BlobOf(v: Value): Bytes
    requires Packable(v)
  {
    if |v.token| <= 4 then [] else [|v.token|] + v.token
  }

  lemma EntryDescribes(blob: Bytes, v: Value, off: Half)
    requires Packable(v) && (|v.token| > 4 ==> off == |blob|)
    ensures Describes(EntryOf(v, off), blob + BlobOf(v), v)
  {
    if |v.token| > 4 {
      assert (blob + BlobOf(v))[|blob| + 1..|blob| + 1 + |v.token|] == v.token;
    }
  }

  /** The first `n` tokens have been packed. */
  ghost predicate PackedTo(values: seq<Value>, n: nat, entries: seq<Entry>, blob: Bytes) {
    && n <= |values| && |blob| == BlobLength(values, n)
    && DescribesAll(entries, blob, values[..n])
    && AcceptsTo(values, n)
  }

  ghost predicate AcceptsTo(values: seq<Value>, n: nat)
    requires n <= |values|
  {
    forall i :: 0 <= i < n ==> Accepts(values, i)
  }

  lemma PackStep(values: seq<Value>, n: nat, entries: seq<Entry>, blob: Bytes, off: Half)
    requires PackedTo(values, n, entries, blob) && n < |values| && Accepts(values, n)
    requires |values[n].token| > 4 ==> off == |blob|
    ensures PackedTo(values, n + 1, entries + [EntryOf(values[n], off)], blob + BlobOf(values[n]))
  {
    var v := values[n];
    DescribesNext(values[..n], v, entries, blob, off);
    assert values[..n + 1] == values[..n] + [v];
    assert BlobLength(values, n + 1) == BlobLength(values, n) + |BlobOf(v)|;
  }

  lemma DescribesNext(values: seq<Value>, v: Value, entries: seq<Entry>, blob: Bytes, off: Half)
    requires DescribesAll(entries, blob, values) && Packable(v) && (|v.token| > 4 ==> off == |blob|)
    ensures DescribesAll(entries + [EntryOf(v, off)], blob + BlobOf(v), values + [v])
  {
    EntryDescribes(blob, v, off);
    AllKept(entries, blob, BlobOf(v), values, EntryOf(v, off), v);
  }

  /** The packing of the tokens into entries and a blob. */
  method PackEntries(values: seq<Value>) returns (r: Option<(seq<Entry>, Bytes)>)
    ensures r.Some? <==> forall i :: 0 <= i < |values| ==> Accepts(values, i)
    ensures r.Some? ==> DescribesAll(r.value.0, r.value.1, values)
  {
    var entries: seq<Entry>, blob: Bytes := [], [];
    for n := 0 to |values|
      invariant PackedTo(values, n, entries, blob)
    {
      var v := values[n];
      if !Packable(v) || (|v.token| > 4 && |blob| >= 0x1_0000) {
        assert !Accepts(values, n);
        return None;
      }
      var off := if |v.token| <= 4 then 0 else |blob|;
      PackStep(values, n, entries, blob, off);
      entries, blob := entries + [EntryOf(v, off)], blob + BlobOf(v);
    }
    assert values[..|values|] == values;
    return Some((entries, blob));
  }

  // ---------------------------------------------------------------- the lookup

  datatype Table = Table(maxLen: nat, layout: Layout, blob: Bytes)

  ghost predicate Serves(t: Table, values: seq<Value>, entries: seq<Entry>) {
    && Exact(entries, t.layout) && DescribesAll(entries, t.blob, values) && Distinct(values)
    && forall i :: 0 <= i < |values| ==> |values[i].token| <= t.maxLen
  }

  /** The test made on a slot whose key matches. */
  predicate Confirms(meta: Half, off: Half, blob: Bytes, key: Bytes)
    requires meta / 2048 == 31 ==> off < |blob| && off + 1 + blob[off] <= |blob|
    requires key != []
  {
    if |key| <= 4 then meta / 2048 == |key| - 1
    else meta / 2048 == 31 && blob[off] == |key| && blob[off + 1..off + 1 + |key|] == key
  }

  /** The slots before `s` on the probe path are used, and none of them owns `key`. */
  ghost predicate Passed(l: Layout, slot: seq<nat>, values: seq<Value>, key: Bytes, home: nat, s: nat) {
    && home < |l.keys| && s <= |l.keys| && |slot| == |values|
    && (forall d :: 0 <= d < s ==> l.keys[Walk(home, d, |l.keys|)] != 0)
    && (forall i, d :: 0 <= i < |values| && 0 <= d < s && slot[i] == Walk(home, d, |l.keys|) ==> values[i].token != key)
  }

  lemma StepPassed(l: Layout, slot: seq<nat>, values: seq<Value>, key: Bytes, home: nat, s: nat, i: nat)
    requires Passed(l, slot, values, key, home, s) && s < |l.keys| && NoDuplicates(slot)
    requires i < |slot| && slot[i] == Walk(home, s, |l.keys|) && l.keys[slot[i]] != 0 && values[i].token != key
    ensures Passed(l, slot, values, key, home, s + 1)
  {
  }

  /** An entry can be tested against `key`, and passes exactly when it is the entry of `key`. */
  ghost predicate Decides(e: Entry, blob: Bytes, v: Value, key: Bytes, x: Word)
    requires key != []
  {
    && e.key != 0 && e.meta % 2048 == v.kind
    && (e.meta / 2048 == 31 ==> e.off < |blob| && e.off + 1 + blob[e.off] <= |blob|)
    && (v.token == key ==> e.key == x)
    && (e.key == x && Confirms(e.meta, e.off, blob, key) <==> v.token == key)
  }

  lemma MetaSplits(kind: nat, tag: nat)
    requires kind < 2048
    ensures (kind + 2048 * tag) / 2048 == tag && (kind + 2048 * tag) % 2048 == kind
  {
  }

  lemma ShortKeys(a: Bytes, b: Bytes)
    requires a != [] && |a| == |b| <= 4 && TokenKey(a) == TokenKey(b)
    ensures a == b
  {
    LittleEndianInjective(a, b);
  }

  /** The tag tells short tokens of each length and long ones apart. */
  lemma TagTells(meta: Half, v: Value, key: Bytes)
    requires v.token != [] && key != [] && v.kind < 2048 && meta == v.kind + 2048 * Tag(v.token)
    ensures meta % 2048 == v.kind
    ensures |v.token| > 4 <==> meta / 2048 == 31
    ensures |key| <= 4 ==> (meta / 2048 == |key| - 1 <==> |v.token| == |key|)
  {
    MetaSplits(v.kind, Tag(v.token));
  }

  /** The test compares the length of a short key, and all of a long one. */
  lemma ConfirmsCompares(e: Entry, blob: Bytes, v: Value, key: Bytes)
    requires Describes(e, blob, v) && key != []
    ensures e.meta % 2048 == v.kind
    ensures e.meta / 2048 == 31 ==> e.off < |blob| && e.off + 1 + blob[e.off] <= |blob|
    ensures Confirms(e.meta, e.off, blob, key) <==> if |key| <= 4 then |v.token| == |key| else v.token == key
  {
    TagTells(e.meta, v, key);
  }

  lemma ConfirmsExactly(e: Entry, blob: Bytes, v: Value, key: Bytes)
    requires Describes(e, blob, v) && key != []
    ensures Decides(e, blob, v, key, TokenKey(key))
  {
    ConfirmsCompares(e, blob, v, key);
    if |key| <= 4 && e.key == TokenKey(key) && |v.token| == |key| {
      ShortKeys(v.token, key);
    }
  }

  /** What the probe for `key` relies on: every used slot is owned and decided, and the owner
      of `key` is reached from `home`. */
  ghost predicate Searchable(l: Layout, blob: Bytes, values: seq<Value>, slot: seq<nat>, key: Bytes, x: Word, home: nat)
    requires key != []
  {
    && home < |l.keys| == |l.meta| == |l.off| && |slot| == |values| && NoDuplicates(slot)
    && (forall h :: 0 <= h < |l.keys| && l.keys[h] != 0 ==> h in slot)
    && (forall i :: 0 <= i < |slot| ==>
          && slot[i] < |l.keys|
          && Decides(Entry(l.keys[slot[i]], l.meta[slot[i]], l.off[slot[i]]), blob, values[i], key, x))
    && (forall i :: 0 <= i < |slot| && values[i].token == key ==> Reached(l.keys, home, slot[i]))
  }

  lemma PlacedIsSearchable(t: Table, values: seq<Value>, entries: seq<Entry>, slot: seq<nat>, key: Bytes, x: Word)
    requires key != [] && PlacedIn(entries, t.layout, slot) && |entries| == |values|
    requires forall i :: 0 <= i < |values| ==> Decides(entries[i], t.blob, values[i], key, x)
    ensures Searchable(t.layout, t.blob, values, slot, key, x, Home(x, t.layout.mul, t.layout.k))
  {
    var l := t.layout;
    forall i | 0 <= i < |slot|
      ensures slot[i] < |l.keys|
      ensures Decides(Entry(l.keys[slot[i]], l.meta[slot[i]], l.off[slot[i]]), t.blob, values[i], key, x)
      ensures values[i].token == key ==> Reached(l.keys, Home(x, l.mul, l.k), slot[i])
    {
      assert Holds(entries[i], l.keys, l.meta, l.off, slot[i]);
      assert Decides(entries[i], t.blob, values[i], key, x);
      assert Reached(l.keys, Home(entries[i].key, l.mul, l.k), slot[i]);
    }
  }

  /** The probe loop: it meets the owner of `key` before the first empty slot, if there is one. */
  method Probe(l: Layout, blob: Bytes, key: Bytes, x: Word, home: nat,
               ghost values: seq<Value>, ghost slot: seq<nat>)
    returns (r: Option<TokenKind>)
    requires key != [] && Searchable(l, blob, values, slot, key, x, home) && |slot| < |l.keys|
    ensures r.Some? ==> Names(values, key, r.value)
    ensures r.None? ==> forall i :: 0 <= i < |values| ==> values[i].token != key
  {
    ghost var e := EmptySlot(l.keys, slot);
    ghost var far := Steps(home, e, |l.keys|);
    var h := home;
    ghost var s := 0;
    while true
      invariant s <= far && h == Walk(home, s, |l.keys|)
      invariant Passed(l, slot, values, key, home, s)
      decreases far - s
    {
      if l.keys[h] == 0 {
        EmptyMeansAbsent(l, values, slot, key, home, s);
        return None;
      }
      ghost var i :| 0 <= i < |slot| && slot[i] == h;
      if l.keys[h] == x && Confirms(l.meta[h], l.off[h], blob, key) {
        return Some(DecodeKind(l.meta[h] % 2048));
      }
      StepPassed(l, slot, values, key, home, s, i);
      h := if h + 1 == |l.keys| then 0 else h + 1;
      s := s + 1;
    }
  }

  /** An empty slot ends the probe rightly: the owner of `key` would lie before it. */
  lemma EmptyMeansAbsent(l: Layout, values: seq<Value>, slot: seq<nat>, key: Bytes, home: nat, s: nat)
    requires s < |l.keys| && Passed(l, slot, values, key, home, s) && l.keys[Walk(home, s, |l.keys|)] == 0
    requires forall i :: 0 <= i < |slot| ==> slot[i] < |l.keys| && l.keys[slot[i]] != 0
    requires forall i :: 0 <= i < |slot| && values[i].token == key ==> Reached(l.keys, home, slot[i])
    ensures forall i :: 0 <= i < |values| ==> values[i].token != key
  {
    forall i | 0 <= i < |values| ensures values[i].token != key {
      var d := Steps(home, slot[i], |l.keys|);
      assert Reached(l.keys, home, slot[i]) ==> d < s;
    }
  }

  /** `lookup_bytes`: stops, and finds exactly the listed tokens. */
  method LookupBytes(t: Table, key: Bytes, ghost values: seq<Value>, ghost entries: seq<Entry>)
    returns (r: Option<TokenKind>)
    requires Serves(t, values, entries)
    ensures r.Some? ==> Names(values, key, r.value)
    ensures r.None? ==> forall i :: 0 <= i < |values| ==> values[i].token != key
  {
    if key == [] || |key| > t.maxLen {
      assert forall i :: 0 <= i < |values| ==> Describes(entries[i], t.blob, values[i]);
      return None;
    }
    var x := TokenKey(key);
    forall i | 0 <= i < |values| ensures Decides(entries[i], t.blob, values[i], key, x) {
      ConfirmsExactly(entries[i], t.blob, values[i], key);
    }
    ghost var slot :| PlacedIn(entries, t.layout, slot);
    PlacedIsSearchable(t, values, entries, slot, key, x);
    r := Probe(t.layout, t.blob, key, x, Home(x, t.layout.mul, t.layout.k), values, slot);
  }

  // ---------------------------------------------------------------- the whole dictionary

  /** A table compiled from the token lists. */
  ghost predicate Compiled(rows: seq<seq<Bytes>>, t: Table) {
    AllFit(rows, |rows|) && exists entries :: Serves(t, Values(rows, |rows|), entries)
  }

  method LongestToken(values: seq<Value>) returns (n: nat)
    ensures forall i :: 0 <= i < |values| ==> |values[i].token| <= n
    ensures n == 0 || exists i :: 0 <= i < |values| && |values[i].token| == n
  {
    n := 0;
    for i := 0 to |values|
      invariant forall j :: 0 <= j < i ==> |values[j].token| <= n
      invariant n == 0 || exists j :: 0 <= j < i && |values[j].token| == n
    {
      if |values[i].token| > n {
        n := |values[i].token|;
      }
    }
  }

  function TokenKeys(values: seq<Value>): seq<Word> {
    seq(|values|, i requires 0 <= i < |values| => if values[i].token == [] then 0 else TokenKey(values[i].token))
  }

  lemma DescribedKeys(entries: seq<Entry>, blob: Bytes, values: seq<Value>)
    requires DescribesAll(entries, blob, values)
    ensures KeysOf(entries) == TokenKeys(values) && forall i :: 0 <= i < |entries| ==> entries[i].key != 0
  {
    forall i | 0 <= i < |entries| ensures entries[i].key == TokenKeys(values)[i] != 0 {
      assert Describes(entries[i], blob, values[i]);
    }
  }

  /** No token is repeated or misplaced, each can be packed, and some table holds their keys. */
  ghost predicate Compilable(rows: seq<seq<Bytes>>) {
    var values := Values(rows, |rows|);
    && Distinct(values) && AllFit(rows, |rows|) && (forall i :: 0 <= i < |values| ==> Accepts(values, i))
    && Placeable(TokenKeys(values))
  }

  /** The build script. It refuses a repeated or misplaced token, one with a NUL, a zero key
      or a kind past the metadata word, a blob past 64 KiB, and an unplaceable set of keys. */
  method Compile(rows: seq<seq<Bytes>>) returns (r: Option<Table>)
    ensures r.Some? <==> Compilable(rows)
    ensures r.Some? ==> Compiled(rows, r.value) && BestChoice(TokenKeys(Values(rows, |rows|)), r.value.layout)
  {
    var values := CollectValues(rows);
    if values.None? {
      return None;
    }
    var maxLen := LongestToken(values.value);
    var packed := PackEntries(values.value);
    if packed.None? {
      return None;
    }
    var (entries, blob) := packed.value;
    DescribedKeys(entries, blob, values.value);
    var layout := BuildTable(entries);
    if layout.None? {
      return None;
    }
    assert Serves(Table(maxLen, layout.value, blob), Values(rows, |rows|), entries);
    return Some(Table(maxLen, layout.value, blob));
  }

  lemma NoEmptyToken(t: Table, values: seq<Value>, entries: seq<Entry>)
    requires Serves(t, values, entries)
    ensures forall i :: 0 <= i < |values| ==> values[i].token != []
  {
    forall i | 0 <= i < |values| ensures values[i].token != [] {
      assert Describes(entries[i], t.blob, values[i]);
    }
  }

  /** A listed token has one kind, so a lookup that is right is the only right one. */
  lemma NamesOne(values: seq<Value>, key: Bytes, kind: TokenKind, r: Option<TokenKind>)
    requires Distinct(values) && (r.Some? ==> Names(values, key, r.value))
    requires r.None? ==> forall i :: 0 <= i < |values| ==> values[i].token != key
    ensures r == Some(kind) <==> Names(values, key, kind)
  {
  }

  /** `index_of_token` inverts the decode arrays: for every byte string, a kind is returned
      exactly when that kind decodes to the string. */
  method IndexOfToken(ghost rows: seq<seq<Bytes>>, t: Table, key: Bytes) returns (r: Option<TokenKind>)
    requires Compiled(rows, t)
    ensures key == [] ==> r == None
    ensures key != [] ==> forall kind :: r == Some(kind) <==> TokenAt(rows, kind) == Some(key)
  {
    ghost var values := Values(rows, |rows|);
    ghost var entries :| Serves(t, values, entries);
    r := LookupBytes(t, key, values, entries);
    if key == [] {
      NoEmptyToken(t, values, entries);
    } else {
      forall kind ensures r == Some(kind) <==> TokenAt(rows, kind) == Some(key) {
        KindsDecode(rows, key, kind);
        NamesOne(values, key, kind, r);
      }
    }
  }
}
