/** Formal sums of value MACs with integer multiplicities: what a hash can be off by, whatever
    HKDF computes. A lane has 16 bits, so a multiplicity only shows modulo 2^16. */
module Terms {
  import opened Common
  import opened LtHash

  datatype Term = Term(value: Bytes, times: int)

  ghost function Sum(derive: Bytes -> Hash, j: nat, ts: seq<Term>): int
    requires j < 64
  {
    if ts == [] then 0
    else Sum(derive, j, ts[..|ts| - 1]) + ts[|ts| - 1].times * derive(ts[|ts| - 1].value)[j]
  }

  /** The multiplicity of one value MAC. */
  ghost function Count(ts: seq<Term>, v: Bytes): int {
    if ts == [] then 0
    else Count(ts[..|ts| - 1], v) + if ts[|ts| - 1].value == v then ts[|ts| - 1].times else 0
  }

  /** Nothing is left modulo 2^16, the width of a lane. */
  ghost predicate Balanced(ts: seq<Term>) {
    forall v :: Count(ts, v) % 0x1_0000 == 0
  }

  lemma {:induction false} Concat(derive: Bytes -> Hash, j: nat, a: seq<Term>, b: seq<Term>)
    requires j < 64
    ensures Sum(derive, j, a + b) == Sum(derive, j, a) + Sum(derive, j, b)
  {
    if b == [] {
      assert a + b == a;
    } else {
      Concat(derive, j, a, b[..|b| - 1]);
      assert (a + b)[..|a + b| - 1] == a + b[..|b| - 1];
    }
  }

  lemma {:induction false} CountConcat(a: seq<Term>, b: seq<Term>, v: Bytes)
    ensures Count(a + b, v) == Count(a, v) + Count(b, v)
  {
    if b == [] {
      assert a + b == a;
    } else {
      CountConcat(a, b[..|b| - 1], v);
      assert (a + b)[..|a + b| - 1] == a + b[..|b| - 1];
    }
  }

  // ---------------------------------------------------------------- grouping by value

  ghost function Apart(ts: seq<Term>, v: Bytes): (r: seq<Term>)
    ensures |r| <= |ts|
  {
    if ts == [] then []
    else Apart(ts[..|ts| - 1], v) + if ts[|ts| - 1].value == v then [] else [ts[|ts| - 1]]
  }

  lemma Grouped(c: int, t: int, d: int, rest: int)
    ensures c * d + rest + t * d == (c + t) * d + rest
  {
  }

  lemma {:induction false} SumByValue(derive: Bytes -> Hash, j: nat, ts: seq<Term>, v: Bytes)
    requires j < 64
    ensures Sum(derive, j, ts) == Count(ts, v) * derive(v)[j] + Sum(derive, j, Apart(ts, v))
  {
    if ts != [] {
      var rest, last := ts[..|ts| - 1], ts[|ts| - 1];
      SumByValue(derive, j, rest, v);
      if last.value == v {
        assert Apart(ts, v) == Apart(rest, v);
        Grouped(Count(rest, v), last.times, derive(v)[j], Sum(derive, j, Apart(rest, v)));
      } else {
        assert Apart(ts, v)[..|Apart(ts, v)| - 1] == Apart(rest, v);
      }
    }
  }

  lemma {:induction false} CountApart(ts: seq<Term>, v: Bytes, w: Bytes)
    ensures Count(Apart(ts, v), w) == if w == v then 0 else Count(ts, w)
  {
    if ts != [] {
      var rest, last := ts[..|ts| - 1], ts[|ts| - 1];
      CountApart(rest, v, w);
      if last.value == v {
        assert Apart(ts, v) == Apart(rest, v);
      } else {
        assert Apart(ts, v)[..|Apart(ts, v)| - 1] == Apart(rest, v);
      }
    }
  }

  lemma MultiplePlus(c: int, d: int, rest: int)
    requires c % 0x1_0000 == 0 && rest % 0x1_0000 == 0
    ensures (c * d + rest) % 0x1_0000 == 0
  {
    var q, r := c / 0x1_0000, rest / 0x1_0000;
    assert c == 0x1_0000 * q && rest == 0x1_0000 * r;
    assert c * d == 0x1_0000 * (q * d);
    MultipleOfWrap(q * d + r);
  }

  lemma MultipleOfWrap(q: int)
    ensures (0x1_0000 * q) % 0x1_0000 == 0
  {
  }

  /** Balanced terms vanish from every lane. */
  lemma {:induction false} Vanishes(derive: Bytes -> Hash, j: nat, ts: seq<Term>)
    requires j < 64 && Balanced(ts)
    ensures Sum(derive, j, ts) % 0x1_0000 == 0
    decreases |ts|
  {
    if ts != [] {
      var v := ts[|ts| - 1].value;
      var rest := Apart(ts, v);
      assert |rest| < |ts|;
      SumByValue(derive, j, ts, v);
      forall w ensures Count(rest, w) % 0x1_0000 == 0 {
        CountApart(ts, v, w);
      }
      Vanishes(derive, j, rest);
      MultiplePlus(Count(ts, v), derive(v)[j], Sum(derive, j, rest));
    }
  }

  function Ones(): Hash { seq(64, _ => 1) }

  /** HKDF replaced by the indicator of one value MAC. */
  function Indicator(v: Bytes): Bytes -> Hash {
    w => if w == v then Ones() else EmptyHash()
  }

  /** It counts. */
  lemma {:induction false} IndicatorSum(ts: seq<Term>, v: Bytes)
    ensures Sum(Indicator(v), 0, ts) == Count(ts, v)
  {
    if ts != [] {
      IndicatorSum(ts[..|ts| - 1], v);
    }
  }

  // ---------------------------------------------------------------- what a hash is off by

  /** `hash` is the sum of `rows` and `gap`. */
  ghost predicate OffBy(derive: Bytes -> Hash, hash: Hash, rows: Macs, gap: seq<Term>) {
    forall j :: 0 <= j < 64 ==> LaneOffBy(derive, j, hash, rows, gap)
  }

  ghost predicate LaneOffBy(derive: Bytes -> Hash, j: nat, hash: Hash, rows: Macs, gap: seq<Term>)
    requires j < 64
  {
    hash[j] == (MapSum(derive, j, rows) + Sum(derive, j, gap)) % 0x1_0000
  }

  lemma AddMultiple(x: int, y: int)
    ensures (x + y) % 0x1_0000 == x % 0x1_0000 <==> y % 0x1_0000 == 0
  {
  }

  /** A balanced gap does not show. */
  lemma BalancedAgrees(derive: Bytes -> Hash, hash: Hash, rows: Macs, gap: seq<Term>)
    requires OffBy(derive, hash, rows, gap) && Balanced(gap)
    ensures IsSumOf(derive, hash, rows)
  {
    forall j | 0 <= j < 64 ensures hash[j] == MapSum(derive, j, rows) % 0x1_0000 {
      assert LaneOffBy(derive, j, hash, rows, gap);
      Vanishes(derive, j, gap);
      AddMultiple(MapSum(derive, j, rows), Sum(derive, j, gap));
    }
  }

  /** One that is not shows under the indicator of the value it is off by. */
  lemma UnbalancedShows(hash: Hash, rows: Macs, gap: seq<Term>, v: Bytes)
    requires OffBy(Indicator(v), hash, rows, gap) && Count(gap, v) % 0x1_0000 != 0
    ensures !IsSumOf(Indicator(v), hash, rows)
  {
    IndicatorSum(gap, v);
    assert LaneOffBy(Indicator(v), 0, hash, rows, gap);
    AddMultiple(MapSum(Indicator(v), 0, rows), Sum(Indicator(v), 0, gap));
  }

  // ---------------------------------------------------------------- lists and rows as terms

  ghost function Each(s: seq<Bytes>, times: int): seq<Term> {
    seq(|s|, i requires 0 <= i < |s| => Term(s[i], times))
  }

  lemma {:induction false} SumEach(derive: Bytes -> Hash, j: nat, s: seq<Bytes>, times: int)
    requires j < 64
    ensures Sum(derive, j, Each(s, times)) == times * SeqSum(derive, j, s)
  {
    if s != [] {
      var rest := s[..|s| - 1];
      SumEach(derive, j, rest, times);
      assert Each(s, times)[..|s| - 1] == Each(rest, times);
      Spread(times, SeqSum(derive, j, rest), derive(s[|s| - 1])[j]);
    }
  }

  lemma {:induction false} CountEach(s: seq<Bytes>, times: int, v: Bytes)
    ensures Count(Each(s, times), v) == times * multiset(s)[v]
  {
    if s != [] {
      var rest, last := s[..|s| - 1], s[|s| - 1];
      CountEach(rest, times, v);
      assert Each(s, times)[..|s| - 1] == Each(rest, times);
      assert s == rest + [last];
      assert multiset(s) == multiset(rest) + multiset{last};
      Spread(times, multiset(rest)[v], 1);
    }
  }

  lemma Spread(t: int, x: int, y: int)
    ensures t * x + t * y == t * (x + y)
  {
  }

  /** The stored rows, each with a weight. */
  ghost function Rows(store: Macs, w: Bytes -> int): seq<Term>
    decreases |store|
  {
    if store == map[] then []
    else
      var k :| k in store;
      Rows(store - {k}, w) + [Term(store[k], w(k))]
  }

  lemma {:induction false} RowsRemove(derive: Bytes -> Hash, j: nat, store: Macs, w: Bytes -> int, k: Bytes)
    requires j < 64 && k in store
    ensures Sum(derive, j, Rows(store, w)) == Sum(derive, j, Rows(store - {k}, w)) + w(k) * derive(store[k])[j]
    decreases |store|
  {
    var c := RowsFirst(derive, j, store, w);
    if c != k {
      RowsRemove(derive, j, store - {c}, w, k);
      RowsRemove(derive, j, store - {k}, w, c);
      RowsCross(derive, j, store, w, k, c);
    }
  }

  lemma RowsCross(derive: Bytes -> Hash, j: nat, store: Macs, w: Bytes -> int, k: Bytes, c: Bytes)
    requires j < 64 && k in store && c in store
    ensures Sum(derive, j, Rows(store - {c} - {k}, w)) == Sum(derive, j, Rows(store - {k} - {c}, w))
  {
    assert store - {c} - {k} == store - {k} - {c};
  }

  lemma RowsFirst(derive: Bytes -> Hash, j: nat, store: Macs, w: Bytes -> int) returns (c: Bytes)
    requires j < 64 && store != map[]
    ensures c in store
    ensures Sum(derive, j, Rows(store, w)) == Sum(derive, j, Rows(store - {c}, w)) + w(c) * derive(store[c])[j]
  {
    c :| c in store && Rows(store, w) == Rows(store - {c}, w) + [Term(store[c], w(c))];
    assert Rows(store, w)[..|Rows(store, w)| - 1] == Rows(store - {c}, w);
  }

  /** Rows depend only on the weights of what is stored. */
  lemma {:induction false} RowsSame(derive: Bytes -> Hash, j: nat, store: Macs, w: Bytes -> int, u: Bytes -> int)
    requires j < 64 && forall k :: k in store ==> w(k) == u(k)
    ensures Sum(derive, j, Rows(store, w)) == Sum(derive, j, Rows(store, u))
    decreases |store|
  {
    if store != map[] {
      var k :| k in store;
      RowsRemove(derive, j, store, w, k);
      RowsRemove(derive, j, store, u, k);
      RowsSame(derive, j, store - {k}, w, u);
    }
  }

  /** Changing one weight changes one share. */
  lemma RowsChange(derive: Bytes -> Hash, j: nat, store: Macs, w: Bytes -> int, u: Bytes -> int, k: Bytes)
    requires j < 64 && forall x :: x in store && x != k ==> w(x) == u(x)
    ensures Sum(derive, j, Rows(store, u))
         == Sum(derive, j, Rows(store, w)) + (u(k) - w(k)) * Share(derive, j, store, k)
  {
    if k in store {
      RowsRemove(derive, j, store, w, k);
      RowsRemove(derive, j, store, u, k);
      RowsSame(derive, j, store - {k}, w, u);
      var d := derive(store[k])[j];
      assert u(k) * d == w(k) * d + (u(k) - w(k)) * d;
    } else {
      RowsSame(derive, j, store, w, u);
    }
  }

  lemma {:induction false} RowsOne(derive: Bytes -> Hash, j: nat, store: Macs, w: Bytes -> int, c: int)
    requires j < 64 && forall k :: k in store ==> w(k) == c
    ensures Sum(derive, j, Rows(store, w)) == c * MapSum(derive, j, store)
    decreases |store|
  {
    if store == map[] {
      ScaledSum(c, c, 0, 0, 0);
    } else {
      var k :| k in store;
      var rest := store - {k};
      var d, m, s := derive(store[k])[j], MapSum(derive, j, rest), Sum(derive, j, Rows(rest, w));
      RowsOne(derive, j, rest, w, c);
      ScaledSum(c, w(k), d, m, s);
      RowsRemove(derive, j, store, w, k);
      MapSumRemove(derive, j, store, k);
    }
  }

  lemma ScaledSum(c: int, w: int, d: int, m: int, s: int)
    requires w == c && s == c * m
    ensures s + w * d == c * (d + m)
  {
    Spread(c, d, m);
  }

  /** The same weight for every row. */
  ghost function Uniform(c: int): Bytes -> int { _ => c }

  /** How many rows hold a value. */
  ghost function Holders(store: Macs, v: Bytes): int {
    Count(Rows(store, Uniform(1)), v)
  }

  lemma HoldersSum(store: Macs, v: Bytes)
    ensures Holders(store, v) == MapSum(Indicator(v), 0, store)
  {
    IndicatorSum(Rows(store, Uniform(1)), v);
    RowsOne(Indicator(v), 0, store, Uniform(1), 1);
  }

  lemma HoldersNegated(store: Macs, v: Bytes)
    ensures Count(Rows(store, Uniform(-1)), v) == -Holders(store, v)
  {
    IndicatorSum(Rows(store, Uniform(-1)), v);
    RowsOne(Indicator(v), 0, store, Uniform(-1), -1);
    HoldersSum(store, v);
  }

  lemma {:induction false} HoldersRange(store: Macs, v: Bytes)
    ensures 0 <= Holders(store, v) <= |store|
    ensures v in store.Values ==> Holders(store, v) > 0
    decreases |store|
  {
    HoldersSum(store, v);
    if store != map[] {
      var k :| k in store && (v in store.Values ==> store[k] == v);
      MapSumRemove(Indicator(v), 0, store, k);
      HoldersRange(store - {k}, v);
      HoldersSum(store - {k}, v);
    }
  }
}
