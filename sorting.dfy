/** Sorting by a key in the way pandas' `sort_values` and numpy's `argsort`
    order values: ascending, with a missing key (NaT/NaN) after every present one. */
module Sorting {

  datatype SortKey = At(v: real) | Missing

  predicate KeyLe(a: SortKey, b: SortKey) {
    b.Missing? || (a.At? && a.v <= b.v)
  }

  predicate SortedBy<T>(s: seq<T>, key: T -> SortKey) {
    forall i, j :: 0 <= i < j < |s| ==> KeyLe(key(s[i]), key(s[j]))
  }

  /** Inserts `x` before the first element whose key is not below its own. */
  function Insert<T(==)>(x: T, s: seq<T>, key: T -> SortKey): (r: seq<T>)
    requires SortedBy(s, key)
    ensures SortedBy(r, key)
    ensures multiset(r) == multiset(s) + multiset{x}
  {
    if s == [] then [x]
    else if KeyLe(key(x), key(s[0])) then [x] + s
    else
      var tail := Insert(x, s[1..], key);
      InsertBehindHead(x, s, tail, key);
      [s[0]] + tail
  }

  /** The step of `Insert` that keeps the head in front. */
  lemma InsertBehindHead<T>(x: T, s: seq<T>, tail: seq<T>, key: T -> SortKey)
    requires s != [] && SortedBy(s, key) && !KeyLe(key(x), key(s[0]))
    requires SortedBy(tail, key) && multiset(tail) == multiset(s[1..]) + multiset{x}
    ensures SortedBy([s[0]] + tail, key)
    ensures multiset([s[0]] + tail) == multiset(s) + multiset{x}
  {
    assert s == [s[0]] + s[1..];
    forall j | 0 <= j < |tail| ensures KeyLe(key(s[0]), key(tail[j])) {
      assert tail[j] in multiset(tail);
      if tail[j] != x {
        assert tail[j] in multiset(s[1..]);
        var m :| 0 <= m < |s[1..]| && s[1..][m] == tail[j];
        assert s[m + 1] == tail[j];
      }
    }
    var r := [s[0]] + tail;
    forall i, j | 0 <= i < j < |r| ensures KeyLe(key(r[i]), key(r[j])) {
      assert r[j] == tail[j - 1];
      if i > 0 {
        assert r[i] == tail[i - 1];
      }
    }
  }

  /** An ordering of `s` by `key`. Ties keep their input order, one of the
      orders the unstable library sorts may produce. */
  function SortBy<T(==)>(s: seq<T>, key: T -> SortKey): (r: seq<T>)
    ensures SortedBy(r, key)
    ensures multiset(r) == multiset(s)
  {
    if s == [] then []
    else
      assert s == [s[0]] + s[1..];
      Insert(s[0], SortBy(s[1..], key), key)
  }

  /** The elements of `s` whose key is missing, in their order in `s`. */
  function MissingKeyed<T>(s: seq<T>, key: T -> SortKey): (r: seq<T>)
    ensures |r| <= |s|
  {
    if s == [] then []
    else (if key(s[0]).Missing? then [s[0]] else []) + MissingKeyed(s[1..], key)
  }

  /** An element with a missing key goes in front of the missing-key
      elements already there; one with a key leaves them alone. */
  lemma {:induction false} InsertMissingKeyed<T>(x: T, s: seq<T>, key: T -> SortKey)
    requires SortedBy(s, key)
    ensures MissingKeyed(Insert(x, s, key), key) == (if key(x).Missing? then [x] else []) + MissingKeyed(s, key)
  {
    if s == [] {
    } else if KeyLe(key(x), key(s[0])) {
      var r := [x] + s;
      assert Insert(x, s, key) == r;
      assert r[1..] == s;
    } else {
      var t := Insert(x, s[1..], key);
      var r := [s[0]] + t;
      assert Insert(x, s, key) == r;
      assert !key(s[0]).Missing?;
      assert r[1..] == t;
      assert MissingKeyed(r, key) == MissingKeyed(t, key);
      assert MissingKeyed(s, key) == MissingKeyed(s[1..], key);
      InsertMissingKeyed(x, s[1..], key);
    }
  }

  /** The sort is stable on the elements without a key: they end up last,
      in their input order. */
  lemma {:induction false} SortByKeepsMissingOrder<T>(s: seq<T>, key: T -> SortKey)
    ensures MissingKeyed(SortBy(s, key), key) == MissingKeyed(s, key)
  {
    if s != [] {
      assert s == [s[0]] + s[1..];
      SortByKeepsMissingOrder(s[1..], key);
      InsertMissingKeyed(s[0], SortBy(s[1..], key), key);
    }
  }
}
