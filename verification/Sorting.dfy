/** The standard library's stable sort by a byte-string key, as far as the sync code
    relies on it. */
module Sorting {
  import opened Common

  predicate LexLeq(a: Bytes, b: Bytes) {
    if a == [] then true
    else if b == [] then false
    else a[0] < b[0] || (a[0] == b[0] && LexLeq(a[1..], b[1..]))
  }

  lemma {:induction false} LexTotal(a: Bytes, b: Bytes)
    ensures LexLeq(a, b) || LexLeq(b, a)
    ensures LexLeq(a, b) && LexLeq(b, a) ==> a == b
  {
    if a != [] && b != [] && a[0] == b[0] {
      LexTotal(a[1..], b[1..]);
      assert a == [a[0]] + a[1..] && b == [b[0]] + b[1..];
    }
  }

  lemma {:induction false} LexTransitive(a: Bytes, b: Bytes, c: Bytes)
    requires LexLeq(a, b) && LexLeq(b, c)
    ensures LexLeq(a, c)
  {
    if a != [] && a[0] == b[0] == c[0] {
      LexTransitive(a[1..], b[1..], c[1..]);
    }
  }

  ghost predicate Sorted<T>(s: seq<T>, key: T -> Bytes) {
    forall i, j :: 0 <= i < j < |s| ==> LexLeq(key(s[i]), key(s[j]))
  }

  /** Places `x` after every element whose key is not greater. */
  function Insert<T>(s: seq<T>, x: T, key: T -> Bytes): seq<T> {
    if s == [] then [x]
    else if LexLeq(key(s[|s| - 1]), key(x)) then s + [x]
    else Insert(s[..|s| - 1], x, key) + [s[|s| - 1]]
  }

  function StableSort<T>(s: seq<T>, key: T -> Bytes): seq<T> {
    if s == [] then [] else Insert(StableSort(s[..|s| - 1], key), s[|s| - 1], key)
  }

  lemma {:induction false} InsertElements<T>(s: seq<T>, x: T, key: T -> Bytes)
    ensures Elements(Insert(s, x, key)) == Elements(s) + {x}
    ensures |Insert(s, x, key)| == |s| + 1
  {
    if s != [] && !LexLeq(key(s[|s| - 1]), key(x)) {
      var rest, last := s[..|s| - 1], s[|s| - 1];
      InsertElements(rest, x, key);
      ElementsOfSnoc(rest, last);
      ElementsOfSnoc(Insert(rest, x, key), last);
      assert s == rest + [last];
    } else {
      ElementsOfSnoc(s, x);
      assert s == [] ==> Insert(s, x, key) == s + [x];
    }
  }

  lemma {:induction false} InsertSorted<T>(s: seq<T>, x: T, key: T -> Bytes)
    requires Sorted(s, key)
    ensures Sorted(Insert(s, x, key), key)
  {
    if s != [] {
      var rest, last := s[..|s| - 1], s[|s| - 1];
      if LexLeq(key(last), key(x)) {
        forall i | 0 <= i < |s| ensures LexLeq(key(s[i]), key(x)) {
          if i < |s| - 1 { LexTransitive(key(s[i]), key(last), key(x)); }
        }
      } else {
        InsertSorted(rest, x, key);
        InsertElements(rest, x, key);
        LexTotal(key(last), key(x));
        var t := Insert(rest, x, key);
        forall i | 0 <= i < |t| ensures LexLeq(key(t[i]), key(last)) {
          assert t[i] in Elements(rest) + {x};
        }
      }
    }
  }

  lemma {:induction false} StableSortSorts<T>(s: seq<T>, key: T -> Bytes)
    ensures Sorted(StableSort(s, key), key)
    ensures Elements(StableSort(s, key)) == Elements(s)
    ensures |StableSort(s, key)| == |s|
  {
    if s != [] {
      var rest, last := s[..|s| - 1], s[|s| - 1];
      StableSortSorts(rest, key);
      InsertSorted(StableSort(rest, key), last, key);
      InsertElements(StableSort(rest, key), last, key);
      ElementsOfSnoc(rest, last);
      assert s == rest + [last];
    }
  }
}
