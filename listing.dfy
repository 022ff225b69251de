/**
 * The query pipeline of the list endpoints, over the rows of a table in
 * the order the database scans them: filtering, ordering by a timestamp
 * and the offset/limit window. Also the scan of a keyed table itself.
 */
module Listing {

  function Min(a: int, b: int): int {
    if a <= b then a else b
  }

  /** No element occurs twice. */
  predicate Distinct<T(==)>(s: seq<T>) {
    forall i, j :: 0 <= i < j < |s| ==> s[i] != s[j]
  }

  /** `query.filter(p)`: the rows satisfying `p`, in scan order. */
  function Filter<T(!new)>(s: seq<T>, p: T -> bool): (r: seq<T>)
    ensures |r| <= |s|
    ensures forall x :: x in r <==> x in s && p(x)
    ensures multiset(r) <= multiset(s)
    ensures forall x :: p(x) ==> multiset(r)[x] == multiset(s)[x]
    decreases |s|
  {
    if |s| == 0 then []
    else
      assert s == [s[0]] + s[1..];
      (if p(s[0]) then [s[0]] else []) + Filter(s[1..], p)
  }

  /** A key `a` may precede a key `b`: `asc` orders ascending, otherwise descending. */
  predicate InOrder(a: int, b: int, asc: bool) {
    if asc then a <= b else a >= b
  }

  /** `s` is ordered by `key` in the direction `asc` gives. */
  predicate SortedBy<T>(s: seq<T>, key: T -> int, asc: bool) {
    forall i, j :: 0 <= i < j < |s| ==> InOrder(key(s[i]), key(s[j]), asc)
  }

  /** Puts `x` before the first element it may precede. */
  function Insert<T(!new)>(x: T, s: seq<T>, key: T -> int, asc: bool): (r: seq<T>)
    requires SortedBy(s, key, asc)
    ensures SortedBy(r, key, asc)
    ensures forall y :: y in r ==> y == x || y in s
    ensures multiset(r) == multiset(s) + multiset{x}
    decreases |s|
  {
    if |s| == 0 then [x]
    else if InOrder(key(x), key(s[0]), asc) then
      InsertHere(x, s, key, asc);
      [x] + s
    else
      var rest := Insert(x, s[1..], key, asc);
      InsertFurther(x, s, rest, key, asc);
      [s[0]] + rest
  }

  /** `x` may go in front of a sorted `s` whose first element it may precede. */
  lemma InsertHere<T>(x: T, s: seq<T>, key: T -> int, asc: bool)
    requires SortedBy(s, key, asc) && |s| > 0 && InOrder(key(x), key(s[0]), asc)
    ensures SortedBy([x] + s, key, asc)
    ensures forall y :: y in [x] + s ==> y == x || y in s
    ensures multiset([x] + s) == multiset(s) + multiset{x}
  {
    assert forall k :: 0 <= k < |s| ==> InOrder(key(s[0]), key(s[k]), asc);
    ConsSorted(x, s, key, asc);
  }

  /** When `x` goes after the head of `s`, the head stays in front of the rest with `x` inserted. */
  lemma InsertFurther<T>(x: T, s: seq<T>, rest: seq<T>, key: T -> int, asc: bool)
    requires SortedBy(s, key, asc) && |s| > 0 && !InOrder(key(x), key(s[0]), asc)
    requires SortedBy(rest, key, asc)
    requires forall y :: y in rest ==> y == x || y in s[1..]
    requires multiset(rest) == multiset(s[1..]) + multiset{x}
    ensures SortedBy([s[0]] + rest, key, asc)
    ensures forall y :: y in [s[0]] + rest ==> y == x || y in s
    ensures multiset([s[0]] + rest) == multiset(s) + multiset{x}
  {
    assert s == [s[0]] + s[1..];
    assert forall y :: y in rest ==> InOrder(key(s[0]), key(y), asc);
    ConsSorted(s[0], rest, key, asc);
  }

  /** An element that may precede every element of a sorted sequence can be put in front of it. */
  lemma ConsSorted<T>(h: T, s: seq<T>, key: T -> int, asc: bool)
    requires SortedBy(s, key, asc)
    requires forall y :: y in s ==> InOrder(key(h), key(y), asc)
    ensures SortedBy([h] + s, key, asc)
  {
    var r := [h] + s;
    forall i, j | 0 <= i < j < |r| ensures InOrder(key(r[i]), key(r[j]), asc) {
      assert r[j] == s[j - 1];
      if i > 0 {
        assert r[i] == s[i - 1];
      }
    }
  }

  /**
   * `order_by(key.asc())` or `order_by(key.desc())`. The database leaves
   * the order of equal keys open; this model keeps their scan order.
   */
  function Sort<T(!new)>(s: seq<T>, key: T -> int, asc: bool): (r: seq<T>)
    ensures SortedBy(r, key, asc)
    ensures multiset(r) == multiset(s)
    ensures forall x :: x in r <==> x in s
    decreases |s|
  {
    if |s| == 0 then []
    else
      assert s == [s[0]] + s[1..];
      var r := Insert(s[0], Sort(s[1..], key, asc), key, asc);
      SameMembers(r, s);
      r
  }

  /** Sequences with the same multiset have the same elements. */
  lemma SameMembers<T>(a: seq<T>, b: seq<T>)
    requires multiset(a) == multiset(b)
    ensures forall x :: x in a <==> x in b
  {
    forall x ensures x in a <==> x in b {
      assert x in a <==> x in multiset(a);
      assert x in b <==> x in multiset(b);
    }
  }

  /** `.offset(offset).limit(limit)`: at most `limit` rows, starting at position `offset`. */
  function Window<T(!new)>(s: seq<T>, offset: nat, limit: nat): (r: seq<T>)
    ensures |r| == if offset >= |s| then 0 else Min(limit, |s| - offset)
    ensures forall i :: 0 <= i < |r| ==> r[i] == s[offset + i]
    ensures forall x :: x in r ==> x in s
  {
    if offset >= |s| then [] else s[offset..offset + Min(limit, |s| - offset)]
  }

  /** Consecutive pages tile the rows: page `[o, o+a)` followed by `[o+a, o+a+b)` is `[o, o+a+b)`. */
  lemma WindowPages<T(!new)>(s: seq<T>, offset: nat, a: nat, b: nat)
    ensures Window(s, offset, a) + Window(s, offset + a, b) == Window(s, offset, a + b)
  {
    var w := Window(s, offset, a) + Window(s, offset + a, b);
    var v := Window(s, offset, a + b);
    assert |w| == |v|;
    forall i | 0 <= i < |w| ensures w[i] == v[i] {
      if i >= |Window(s, offset, a)| {
        assert w[i] == Window(s, offset + a, b)[i - a];
      }
    }
  }

  /** A window of ordered rows is ordered. */
  lemma WindowSorted<T(!new)>(s: seq<T>, offset: nat, limit: nat, key: T -> int, asc: bool)
    requires SortedBy(s, key, asc)
    ensures SortedBy(Window(s, offset, limit), key, asc)
  {
    var w := Window(s, offset, limit);
    forall i, j | 0 <= i < j < |w| ensures InOrder(key(w[i]), key(w[j]), asc) {
      assert w[i] == s[offset + i] && w[j] == s[offset + j];
    }
  }

  /** A window is drawn from the rows, each row at most as often as it occurs there. */
  lemma WindowSub<T(!new)>(s: seq<T>, offset: nat, limit: nat)
    ensures multiset(Window(s, offset, limit)) <= multiset(s)
  {
    if offset < |s| {
      SliceSub(s, offset, offset + Min(limit, |s| - offset));
    }
  }

  lemma SliceSub<T>(s: seq<T>, a: nat, b: nat)
    requires a <= b <= |s|
    ensures multiset(s[a..b]) <= multiset(s)
  {
    assert s == s[..a] + s[a..b] + s[b..];
    assert multiset(s) == multiset(s[..a]) + multiset(s[a..b]) + multiset(s[b..]);
  }

  /** A page of filtered, ordered rows without repetitions has none either. */
  lemma PageDistinct<T(!new)>(rows: seq<T>, p: T -> bool, key: T -> int, asc: bool, offset: nat, limit: nat)
    requires Distinct(rows)
    ensures Distinct(Window(Sort(Filter(rows, p), key, asc), offset, limit))
  {
    var filtered := Filter(rows, p);
    var ordered := Sort(filtered, key, asc);
    DistinctSub(rows, filtered);
    DistinctSub(filtered, ordered);
    WindowSub(ordered, offset, limit);
    DistinctSub(ordered, Window(ordered, offset, limit));
  }

  /** A window starting at 0 that is at least as long as the rows is all of them. */
  lemma WindowAll<T(!new)>(s: seq<T>, limit: nat)
    requires |s| <= limit
    ensures Window(s, 0, limit) == s
  {
  }

  /** In a sequence without repetitions every element occurs at most once. */
  lemma {:induction false} DistinctCounts<T>(a: seq<T>)
    requires Distinct(a)
    ensures forall x :: multiset(a)[x] <= 1
    decreases |a|
  {
    if |a| > 0 {
      assert a == [a[0]] + a[1..];
      assert a[0] !in a[1..];
      DistinctCounts(a[1..]);
    }
  }

  /** Two positions holding the same value make it occur twice. */
  lemma TwoCopies<T>(b: seq<T>, i: nat, j: nat)
    requires i < j < |b|
    ensures b[i] == b[j] ==> multiset(b)[b[i]] >= 2
  {
    assert b == b[..j] + [b[j]] + b[j + 1..];
    assert b[i] in b[..j];
  }

  /** Rows drawn, with multiplicity, from rows without repetitions have none. */
  lemma DistinctSub<T>(a: seq<T>, b: seq<T>)
    requires Distinct(a) && multiset(b) <= multiset(a)
    ensures Distinct(b)
  {
    DistinctCounts(a);
    forall i, j | 0 <= i < j < |b| ensures b[i] != b[j] {
      TwoCopies(b, i, j);
    }
  }

  /** Reading every row of a keyed table: each key once, in an order the database chooses. */
  method ScanKeys<K, V>(m: map<K, V>) returns (ks: seq<K>)
    ensures Distinct(ks)
    ensures forall k :: k in ks <==> k in m
    ensures |ks| == |m|
  {
    ks := [];
    var rest := m.Keys;
    while rest != {}
      invariant rest <= m.Keys
      invariant Distinct(ks)
      invariant forall k :: k in ks <==> k in m && k !in rest
      invariant |ks| + |rest| == |m|
      decreases |rest|
    {
      var k :| k in rest;
      ks := ks + [k];
      rest := rest - {k};
    }
  }
}
