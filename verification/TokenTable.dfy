/** The token hash table: linear probing with bounded displacement, proved to answer every
    lookup exactly. Slots, keys and metadata are machine words written as naturals. */
module TokenTable {
  import opened Common

  type Word = n: int | 0 <= n < 0x1_0000_0000 witness 0
  type Half = n: int | 0 <= n < 0x1_0000 witness 0

  datatype Entry = Entry(key: Word, meta: Half, off: Half)

  // ---------------------------------------------------------------- sizes and homes

  lemma WordHasPow2()
    ensures Pow2(32) == 0x1_0000_0000
  {
    assert Pow2(8) == 0x100;
    Pow2Adds(8, 8);
    assert Pow2(16) == 0x1_0000;
    assert Pow2(24) == 0x100_0000 by { Pow2Adds(8, 16); }
    Pow2Adds(8, 24);
  }

  /** The number of bits of `n`. */
  function BitLength(n: nat): (k: nat)
    ensures n < Pow2(k) && (n > 0 ==> k > 0 && Pow2(k - 1) <= n)
  {
    if n == 0 then 0 else BitLength(n / 2) + 1
  }

  lemma Quotient(a: nat, d: nat, q: nat)
    requires d > 0 && a < d * q
    ensures 0 <= a / d < q
  {
    assert d * (a / d) <= a;
  }

  function Wrapped(x: Word, mul: Word): (r: Word) {
    x * mul % 0x1_0000_0000
  }

  /** The top `k` bits of the wrapping product. */
  function Home(x: Word, mul: Word, k: nat): (h: nat)
    requires k <= 32
    ensures h < Pow2(k)
  {
    WordHasPow2();
    Pow2Adds(32 - k, k);
    Quotient(Wrapped(x, mul), Pow2(32 - k), Pow2(k));
    Wrapped(x, mul) / Pow2(32 - k)
  }

  lemma Between(a: nat, d: nat)
    requires d > 0
    ensures a / d * d <= a < (a / d + 1) * d
  {
    assert a == a / d * d + a % d;
  }

  /** What precedes the other bits of the product modulo 2^32. */
  lemma HomeIs(x: Word, mul: Word, k: nat)
    requires k <= 32
    ensures var h, unit := Home(x, mul, k), Pow2(32 - k);
      h * unit <= x * mul % 0x1_0000_0000 < (h + 1) * unit
  {
    Between(Wrapped(x, mul), Pow2(32 - k));
  }

  /** `d` steps after `home`, around the table. */
  function Walk(home: nat, d: nat, size: nat): (h: nat)
    requires home < size && d <= size
    ensures h < size
  {
    if home + d < size then home + d else home + d - size
  }

  /** How many steps lead from `home` to `h`. */
  function Steps(home: nat, h: nat, size: nat): (d: nat)
    requires home < size && h < size
    ensures d < size && Walk(home, d, size) == h
  {
    if home <= h then h - home else h + size - home
  }

  // ---------------------------------------------------------------- placement

  /** Linear probing from `home` gets to `h`, at most eight steps away, without meeting an
      empty slot on the way. */
  ghost predicate Reached(keys: seq<Word>, home: nat, h: nat)
    requires home < |keys| && h < |keys|
  {
    && Steps(home, h, |keys|) <= 8
    && forall d :: 0 <= d < Steps(home, h, |keys|) ==> keys[Walk(home, d, |keys|)] != 0
  }

  ghost predicate Holds(e: Entry, keys: seq<Word>, meta: seq<Half>, off: seq<Half>, h: nat) {
    && h < |keys| == |meta| == |off|
    && keys[h] == e.key && meta[h] == e.meta && off[h] == e.off
  }

  /** Entry `i` sits in `slot[i]`; nothing shares a slot; a used slot has an owner. */
  ghost predicate Placed(entries: seq<Entry>, mul: Word, k: nat,
                         keys: seq<Word>, meta: seq<Half>, off: seq<Half>, slot: seq<nat>) {
    && k <= 32 && |keys| == |meta| == |off| == Pow2(k) && |slot| == |entries|
    && NoDuplicates(slot)
    && (forall i :: 0 <= i < |entries| ==> Holds(entries[i], keys, meta, off, slot[i]))
    && (forall i :: 0 <= i < |entries| ==> Reached(keys, Home(entries[i].key, mul, k), slot[i]))
    && (forall h :: 0 <= h < |keys| && keys[h] != 0 ==> h in slot)
  }

  ghost function Below(n: nat): (r: set<nat>)
    ensures |r| == n && forall h: nat :: h in r <==> h < n
  {
    if n == 0 then {} else Below(n - 1) + {n - 1}
  }

  lemma {:induction false} ElementsFit<T>(s: seq<T>)
    ensures |Elements(s)| <= |s|
  {
    if s != [] {
      ElementsFit(s[..|s| - 1]);
      assert s == s[..|s| - 1] + [s[|s| - 1]];
      assert Elements(s) == Elements(s[..|s| - 1]) + {s[|s| - 1]};
    }
  }

  lemma Contained<T>(a: set<T>, b: set<T>)
    requires a <= b
    ensures |a| <= |b|
  {
    assert b == a + (b - a);
  }

  /** Fewer owners than slots: some slot is empty, so every probe stops. */
  lemma EmptySlot(keys: seq<Word>, slot: seq<nat>) returns (h: nat)
    requires |slot| < |keys|
    requires forall h :: 0 <= h < |keys| && keys[h] != 0 ==> h in slot
    ensures h < |keys| && keys[h] == 0
  {
    if forall h :: 0 <= h < |keys| ==> keys[h] != 0 {
      ElementsFit(slot);
      Contained(Below(|keys|), Elements(slot));
      assert false;
    }
    h :| h < |keys| && keys[h] == 0;
  }

  /** Filling the first empty slot of an entry's probe path keeps every earlier placement. */
  lemma Insertion(entries: seq<Entry>, mul: Word, k: nat, keys: seq<Word>, meta: seq<Half>, off: seq<Half>,
                  slot: seq<nat>, e: Entry, h: nat)
    requires Placed(entries, mul, k, keys, meta, off, slot)
    requires h < |keys| && keys[h] == 0 && e.key != 0
    requires Reached(keys, Home(e.key, mul, k), h)
    requires forall i :: 0 <= i < |entries| ==> entries[i].key != 0
    ensures Placed(entries + [e], mul, k, keys[h := e.key], meta[h := e.meta], off[h := e.off], slot + [h])
  {
    var all := entries + [e];
    var slots := slot + [h];
    forall i | 0 <= i < |entries| ensures slot[i] != h {
      assert Holds(entries[i], keys, meta, off, slot[i]);
    }
    forall i | 0 <= i < |all| ensures Holds(all[i], keys[h := e.key], meta[h := e.meta], off[h := e.off], slots[i]) {
      if i < |entries| {
        assert Holds(entries[i], keys, meta, off, slot[i]);
      }
    }
    forall i | 0 <= i < |all| ensures Reached(keys[h := e.key], Home(all[i].key, mul, k), slots[i]) {
      if i < |entries| {
        assert Reached(keys, Home(entries[i].key, mul, k), slot[i]);
      }
    }
    forall g | 0 <= g < |keys| && keys[h := e.key][g] != 0 ensures g in slots {
      if g == h {
        assert slots[|slot|] == h;
      } else {
        var i :| 0 <= i < |slot| && slot[i] == g;
        assert slots[i] == g;
      }
    }
  }

  // ---------------------------------------------------------------- what can be placed

  /** Among the slots not `taken`, `h` is the first after `home`, at most eight steps away. */
  ghost predicate FirstFree(home: nat, size: nat, taken: seq<nat>, h: nat) {
    && home < size && h < size && h !in taken && Steps(home, h, size) <= 8
    && forall d :: 0 <= d < Steps(home, h, size) ==> Walk(home, d, size) in taken
  }

  /** Giving every key in turn the first free slot after its home. */
  ghost predicate FirstFits(wanted: seq<Word>, mul: Word, k: nat, slot: seq<nat>) {
    && k <= 32 && |slot| == |wanted|
    && forall i :: 0 <= i < |wanted| ==> FirstFree(Home(wanted[i], mul, k), Pow2(k), slot[..i], slot[i])
  }

  /** The keys can be placed, in this order, in a table of 2^k slots with this multiplier. */
  ghost predicate Fits(wanted: seq<Word>, mul: Word, k: nat) {
    exists slot :: FirstFits(wanted, mul, k, slot)
  }

  lemma FreeUnique(home: nat, size: nat, taken: seq<nat>, a: nat, b: nat)
    requires FirstFree(home, size, taken, a) && FirstFree(home, size, taken, b)
    ensures a == b
  {
    var da, db := Steps(home, a, size), Steps(home, b, size);
    assert Walk(home, da, size) == a && Walk(home, db, size) == b;
  }

  lemma FitsPrefix(wanted: seq<Word>, mul: Word, k: nat, slot: seq<nat>, n: nat)
    requires FirstFits(wanted, mul, k, slot) && n <= |wanted|
    ensures FirstFits(wanted[..n], mul, k, slot[..n])
  {
    forall i | 0 <= i < n ensures FirstFree(Home(wanted[..n][i], mul, k), Pow2(k), slot[..n][..i], slot[..n][i]) {
      assert slot[..n][..i] == slot[..i];
    }
  }

  lemma FitsSnoc(wanted: seq<Word>, mul: Word, k: nat, slot: seq<nat>, x: Word, h: nat)
    requires FirstFits(wanted, mul, k, slot) && FirstFree(Home(x, mul, k), Pow2(k), slot, h)
    ensures FirstFits(wanted + [x], mul, k, slot + [h])
  {
    var all, slots := wanted + [x], slot + [h];
    forall i | 0 <= i < |all| ensures FirstFree(Home(all[i], mul, k), Pow2(k), slots[..i], slots[i]) {
      if i < |wanted| {
        assert slots[..i] == slot[..i] && all[i] == wanted[i] && slots[i] == slot[i];
      } else {
        assert slots[..i] == slot && all[i] == x && slots[i] == h;
      }
    }
  }

  lemma LastUnique(wanted: seq<Word>, mul: Word, k: nat, a: seq<nat>, b: seq<nat>, n: nat)
    requires FirstFits(wanted, mul, k, a) && FirstFits(wanted, mul, k, b) && n < |wanted|
    requires forall i :: 0 <= i < n ==> a[i] == b[i]
    ensures a[n] == b[n]
  {
    assert a[..n] == b[..n];
    FreeUnique(Home(wanted[n], mul, k), Pow2(k), a[..n], a[n], b[n]);
  }

  /** The first `n` keys get the same slots wherever they fit. */
  lemma {:induction false} FitsUnique(wanted: seq<Word>, mul: Word, k: nat, a: seq<nat>, b: seq<nat>, n: nat)
    requires FirstFits(wanted, mul, k, a) && FirstFits(wanted, mul, k, b) && n <= |wanted|
    ensures forall i :: 0 <= i < n ==> a[i] == b[i]
    decreases n
  {
    if n > 0 {
      FitsUnique(wanted, mul, k, a, b, n - 1);
      LastUnique(wanted, mul, k, a, b, n - 1);
    }
  }

  lemma NextFree(wanted: seq<Word>, mul: Word, k: nat, n: nat, slot: seq<nat>, other: seq<nat>)
    requires n < |wanted| && FirstFits(wanted[..n], mul, k, slot) && FirstFits(wanted, mul, k, other)
    ensures FirstFree(Home(wanted[n], mul, k), Pow2(k), slot, other[n])
  {
    FitsPrefix(wanted, mul, k, other, n);
    FitsUnique(wanted[..n], mul, k, slot, other[..n], n);
    assert slot == other[..n];
  }

  /** One key with no free slot in reach rules the multiplier out. */
  lemma Stuck(wanted: seq<Word>, mul: Word, k: nat, n: nat, slot: seq<nat>)
    requires n < |wanted| && FirstFits(wanted[..n], mul, k, slot)
    requires forall h :: !FirstFree(Home(wanted[n], mul, k), Pow2(k), slot, h)
    ensures !Fits(wanted, mul, k)
  {
    if other :| FirstFits(wanted, mul, k, other) {
      NextFree(wanted, mul, k, n, slot, other);
    }
  }

  // ---------------------------------------------------------------- build_table

  /** The used slots are exactly those given out. */
  ghost predicate Occupied(keys: seq<Word>, slot: seq<nat>) {
    forall h :: 0 <= h < |keys| ==> (keys[h] != 0 <==> h in slot)
  }

  /** The probe of one insertion: the first empty slot after `home`, or a displacement
      beyond eight. */
  method FindSlot(keys: array<Word>, home: nat, ghost slot: seq<nat>) returns (r: Option<nat>)
    requires home < keys.Length && |slot| < keys.Length && Occupied(keys[..], slot)
    ensures r.Some? ==> FirstFree(home, keys.Length, slot, r.value)
    ensures r.None? ==> forall h :: !FirstFree(home, keys.Length, slot, h)
  {
    assert forall h :: 0 <= h < keys.Length ==> keys[h] == keys[..][h];
    ghost var e := EmptySlot(keys[..], slot);
    ghost var far := Steps(home, e, keys.Length);
    var h, disp := home, 0;
    while keys[h] != 0
      invariant 0 <= disp <= far && disp <= 8 && h == Walk(home, disp, keys.Length)
      invariant forall d :: 0 <= d < disp ==> Walk(home, d, keys.Length) in slot
      decreases far - disp
    {
      h := if h + 1 == keys.Length then 0 else h + 1;
      disp := disp + 1;
      if disp > 8 {
        return None;
      }
    }
    assert Steps(home, h, keys.Length) == disp;
    return Some(h);
  }

  lemma PlacedOccupies(entries: seq<Entry>, mul: Word, k: nat, keys: seq<Word>, meta: seq<Half>, off: seq<Half>,
                       slot: seq<nat>)
    requires Placed(entries, mul, k, keys, meta, off, slot)
    requires forall i :: 0 <= i < |entries| ==> entries[i].key != 0
    ensures Occupied(keys, slot)
  {
    forall h | 0 <= h < |keys| && h in slot ensures keys[h] != 0 {
      var i :| 0 <= i < |slot| && slot[i] == h;
      assert Holds(entries[i], keys, meta, off, slot[i]);
    }
  }

  function KeysOf(entries: seq<Entry>): seq<Word> {
    seq(|entries|, i requires 0 <= i < |entries| => entries[i].key)
  }

  /** The first `i` entries have been inserted. */
  ghost predicate Inserted(entries: seq<Entry>, i: nat, mul: Word, k: nat,
                           keys: seq<Word>, meta: seq<Half>, off: seq<Half>, slot: seq<nat>) {
    && i <= |entries| && Placed(entries[..i], mul, k, keys, meta, off, slot)
    && FirstFits(KeysOf(entries)[..i], mul, k, slot) && Occupied(keys, slot)
  }

  lemma InsertedNext(entries: seq<Entry>, i: nat, mul: Word, k: nat,
                     keys: seq<Word>, meta: seq<Half>, off: seq<Half>, slot: seq<nat>, h: nat)
    requires Inserted(entries, i, mul, k, keys, meta, off, slot) && i < |entries|
    requires forall i :: 0 <= i < |entries| ==> entries[i].key != 0
    requires FirstFree(Home(entries[i].key, mul, k), |keys|, slot, h)
    ensures var e := entries[i];
      Inserted(entries, i + 1, mul, k, keys[h := e.key], meta[h := e.meta], off[h := e.off], slot + [h])
  {
    var e := entries[i];
    FitsSnoc(KeysOf(entries)[..i], mul, k, slot, e.key, h);
    assert KeysOf(entries)[..i + 1] == KeysOf(entries)[..i] + [e.key];
    Insertion(entries[..i], mul, k, keys, meta, off, slot, e, h);
    assert entries[..i + 1] == entries[..i] + [e];
    PlacedOccupies(entries[..i + 1], mul, k, keys[h := e.key], meta[h := e.meta], off[h := e.off], slot + [h]);
  }

  lemma InsertedAll(entries: seq<Entry>, mul: Word, k: nat,
                    keys: seq<Word>, meta: seq<Half>, off: seq<Half>, slot: seq<nat>)
    requires Inserted(entries, |entries|, mul, k, keys, meta, off, slot)
    ensures Placed(entries, mul, k, keys, meta, off, slot) && Fits(KeysOf(entries), mul, k)
  {
    assert entries[..|entries|] == entries && KeysOf(entries)[..|entries|] == KeysOf(entries);
  }

  lemma InsertedNone(entries: seq<Entry>, mul: Word, k: nat, keys: seq<Word>, meta: seq<Half>, off: seq<Half>)
    requires k <= 32 && |keys| == |meta| == |off| == Pow2(k) && forall h :: 0 <= h < |keys| ==> keys[h] == 0
    ensures Inserted(entries, 0, mul, k, keys, meta, off, [])
  {
  }

  /** One attempt with one multiplier: it succeeds exactly when the keys fit. */
  method TryPlace(entries: seq<Entry>, mul: Word, k: nat)
    returns (ok: bool, keys: array<Word>, meta: array<Half>, off: array<Half>, ghost slot: seq<nat>)
    requires k <= 32 && |entries| < Pow2(k)
    requires forall i :: 0 <= i < |entries| ==> entries[i].key != 0
    ensures ok <==> Fits(KeysOf(entries), mul, k)
    ensures ok ==> Placed(entries, mul, k, keys[..], meta[..], off[..], slot)
  {
    keys, meta, off := new Word[Pow2(k)](_ => 0), new Half[Pow2(k)](_ => 0), new Half[Pow2(k)](_ => 0);
    slot := [];
    ok := true;
    InsertedNone(entries, mul, k, keys[..], meta[..], off[..]);
    for i := 0 to |entries|
      invariant fresh(keys) && fresh(meta) && fresh(off) && keys.Length == meta.Length == off.Length == Pow2(k)
      invariant Inserted(entries, i, mul, k, keys[..], meta[..], off[..], slot)
    {
      var e := entries[i];
      var found := FindSlot(keys, Home(e.key, mul, k), slot);
      if found.None? {
        Stuck(KeysOf(entries), mul, k, i, slot);
        ok := false;
        return;
      }
      var h := found.value;
      InsertedNext(entries, i, mul, k, keys[..], meta[..], off[..], slot, h);
      keys[h] := e.key;
      meta[h] := e.meta;
      off[h] := e.off;
      slot := slot + [h];
    }
    InsertedAll(entries, mul, k, keys[..], meta[..], off[..], slot);
  }

  /** The table, the number of bits of its size and its multiplier. */
  datatype Layout = Layout(mul: Word, k: nat, keys: seq<Word>, meta: seq<Half>, off: seq<Half>)

  ghost predicate PlacedIn(entries: seq<Entry>, l: Layout, slot: seq<nat>) {
    Placed(entries, l.mul, l.k, l.keys, l.meta, l.off, slot)
  }

  /** An empty slot exists and every entry has its own slot, close to its home. */
  ghost predicate Exact(entries: seq<Entry>, l: Layout) {
    && 4 * |entries| < 3 * Pow2(l.k)
    && exists slot :: PlacedIn(entries, l, slot)
  }

  function NextMultiplier(mul: Word): (r: Word) {
    var m := mul * 0x85EB_CA6B % 0x1_0000_0000;
    if m % 2 == 0 then m + 1 else m
  }

  /** The multiplier of attempt `n`. */
  function Multiplier(n: nat): Word {
    if n == 0 then 0x9E37_79B1 else NextMultiplier(Multiplier(n - 1))
  }

  lemma LowPart(x: nat, high: nat, low: Word)
    requires x == 0x1_0000_0000 * high + low
    ensures x % 0x1_0000_0000 == low
  {
  }

  lemma NextIs(mul: Word, high: nat, low: Word)
    requires mul * 0x85eb_ca6b == 0x1_0000_0000 * high + low
    ensures NextMultiplier(mul) == if low % 2 == 0 then low + 1 else low
  {
    LowPart(mul * 0x85eb_ca6b, high, low);
  }

  /** The first multipliers. */
  lemma MultipliersAre(n: nat)
    requires n < 4
    ensures Multiplier(n) == [0x9e37_79b1, 0x91b0_86fb, 0x7eb3_78e9, 0x9d4e_6363][n]
  {
    if n > 0 {
      MultipliersAre(n - 1);
      NextIs(0x9e37_79b1, 0x52c4_8c3f, 0x91b0_86fb);
      NextIs(0x91b0_86fb, 0x4c36_e65e, 0x7eb3_78e9);
      NextIs(0x7eb3_78e9, 0x4247_f0bf, 0x9d4e_6363);
    }
  }

  /** Every table tried has room to spare. */
  predicate Roomy(n: nat, k: nat) {
    FirstSize(n) <= k && Pow2(FirstSize(n)) <= Pow2(k)
  }

  lemma RoomyEnough(n: nat, k: nat)
    requires Roomy(n, k)
    ensures n < Pow2(k) && 4 * n < 3 * Pow2(k)
  {
  }

  lemma RoomyNext(n: nat, k: nat)
    requires Roomy(n, k)
    ensures Roomy(n, k + 1)
  {
  }

  /** The smallest table tried, at most three quarters full. */
  function FirstSize(n: nat): (k: nat)
    ensures n < Pow2(k) && 4 * n < 3 * Pow2(k)
  {
    Load(n, Pow2(BitLength(n * 4 / 3)));
    BitLength(n * 4 / 3)
  }

  /** A table half the size would be three quarters full or more. */
  lemma FirstSizeLeast(n: nat)
    requires FirstSize(n) > 0
    ensures 3 * Pow2(FirstSize(n) - 1) <= 4 * n
  {
    assert Pow2(BitLength(n * 4 / 3) - 1) <= n * 4 / 3;
  }

  ghost predicate Chosen(wanted: seq<Word>, k: nat, attempt: nat) {
    FirstSize(|wanted|) <= k <= 32 && attempt < 256 && Fits(wanted, Multiplier(attempt), k)
  }

  /** Some size up to 2^32 and one of the 256 multipliers place everything. */
  ghost predicate Placeable(wanted: seq<Word>) {
    exists k, attempt :: Chosen(wanted, k, attempt)
  }

  /** The first choice that works: the smallest table, and its first multiplier. */
  ghost predicate FirstChosen(wanted: seq<Word>, k: nat, attempt: nat) {
    && Chosen(wanted, k, attempt)
    && forall j, a :: Chosen(wanted, j, a) ==> k < j || (k == j && attempt <= a)
  }

  lemma Load(n: nat, size: nat)
    requires n * 4 / 3 < size
    ensures 4 * n < 3 * size && n < size
  {
  }

  ghost predicate BestChoice(wanted: seq<Word>, l: Layout) {
    exists a :: l.mul == Multiplier(a) && FirstChosen(wanted, l.k, a)
  }

  ghost predicate NoneBelow(wanted: seq<Word>, k: nat) {
    forall j: nat, a: nat :: j < k ==> !Chosen(wanted, j, a)
  }

  ghost predicate NoneBefore(wanted: seq<Word>, k: nat, n: nat) {
    forall a: nat :: a < n ==> !Chosen(wanted, k, a)
  }

  lemma StartsRoomy(entries: seq<Entry>)
    ensures Roomy(|entries|, FirstSize(|entries|)) && NoneBelow(KeysOf(entries), FirstSize(|entries|))
  {
  }

  lemma NoneHere(wanted: seq<Word>, k: nat)
    requires NoneBelow(wanted, k) && NoneBefore(wanted, k, 256)
    ensures NoneBelow(wanted, k + 1)
  {
  }

  lemma NoneFound(wanted: seq<Word>, k: nat)
    requires NoneBelow(wanted, k) && k > 32
    ensures !Placeable(wanted)
  {
  }

  lemma FirstFound(wanted: seq<Word>, l: Layout, attempt: nat)
    requires NoneBelow(wanted, l.k) && Chosen(wanted, l.k, attempt) && l.mul == Multiplier(attempt)
    requires NoneBefore(wanted, l.k, attempt)
    ensures BestChoice(wanted, l) && Placeable(wanted)
  {
    assert FirstChosen(wanted, l.k, attempt);
  }

  /** All multipliers for one size. */
  method TrySize(entries: seq<Entry>, k: nat) returns (r: Option<Layout>, ghost attempt: nat)
    requires k <= 32 && Roomy(|entries|, k)
    requires forall i :: 0 <= i < |entries| ==> entries[i].key != 0
    ensures r.Some? ==>
      && Exact(entries, r.value) && r.value.k == k && r.value.mul == Multiplier(attempt)
      && Chosen(KeysOf(entries), k, attempt)
    ensures NoneBefore(KeysOf(entries), k, if r.Some? then attempt else 256)
  {
    var mul: Word := 0x9E37_79B1;
    attempt, r := 0, None;
    RoomyEnough(|entries|, k);
    for n := 0 to 256
      invariant attempt == n && mul == Multiplier(n)
      invariant NoneBefore(KeysOf(entries), k, n)
    {
      var ok, keys, meta, off, slot := TryPlace(entries, mul, k);
      if ok {
        r := Some(Layout(mul, k, keys[..], meta[..], off[..]));
        assert PlacedIn(entries, r.value, slot);
        return;
      }
      mul := NextMultiplier(mul);
      attempt := attempt + 1;
    }
  }

  /** `build_table`: doubles the table until some multiplier places everything. Past 32 bits
      the shift amount underflows, and nothing is returned. */
  method BuildTable(entries: seq<Entry>) returns (r: Option<Layout>)
    requires forall i :: 0 <= i < |entries| ==> entries[i].key != 0
    ensures r.Some? <==> Placeable(KeysOf(entries))
    ensures r.Some? ==> Exact(entries, r.value) && BestChoice(KeysOf(entries), r.value)
  {
    var k: nat := FirstSize(|entries|);
    StartsRoomy(entries);
    while k <= 32
      invariant Roomy(|entries|, k)
      invariant NoneBelow(KeysOf(entries), k)
      decreases 33 - k
    {
      ghost var attempt;
      r, attempt := TrySize(entries, k);
      if r.Some? {
        FirstFound(KeysOf(entries), r.value, attempt);
        return;
      }
      NoneHere(KeysOf(entries), k);
      RoomyNext(|entries|, k);
      k := k + 1;
    }
    NoneFound(KeysOf(entries), k);
    return None;
  }
}
