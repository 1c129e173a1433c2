/**
 * Sequence operations the store and the client lean on: filtering, ordering
 * by a key (the `orderBy` of a query, `Array.prototype.sort` with a
 * comparator) and listing a table's rows.
 */
module Ordering {
  import opened Wrappers

  /** `s.filter(p)`. */
  function Filter<T(==,!new)>(s: seq<T>, p: T -> bool): (r: seq<T>)
    ensures |r| <= |s|
    ensures forall x :: x in r <==> x in s && p(x)
  {
    if s == [] then [] else (if p(s[0]) then [s[0]] else []) + Filter(s[1..], p)
  }

  lemma {:induction false} FilterMultiset<T(!new)>(s: seq<T>, p: T -> bool)
    ensures multiset(Filter(s, p)) <= multiset(s)
    ensures forall x :: p(x) ==> multiset(Filter(s, p))[x] == multiset(s)[x]
  {
    if s != [] {
      assert s == [s[0]] + s[1..];
      FilterMultiset(s[1..], p);
    }
  }

  lemma {:induction false} FilterAppend<T(!new)>(a: seq<T>, b: seq<T>, p: T -> bool)
    ensures Filter(a + b, p) == Filter(a, p) + Filter(b, p)
  {
    if a == [] {
      assert a + b == b;
    } else {
      assert (a + b)[0] == a[0];
      assert (a + b)[1..] == a[1..] + b;
      FilterAppend(a[1..], b, p);
    }
  }

  /** `list.filter(x => x.id !== k)`: the entries with that id go; every other entry stays, as often as before. */
  function Without<T(==,!new)>(s: seq<T>, id: T -> int, k: int): (r: seq<T>)
    ensures forall x :: x in r <==> x in s && id(x) != k
    ensures forall x :: id(x) != k ==> multiset(r)[x] == multiset(s)[x]
    ensures multiset(r) <= multiset(s)
  {
    FilterMultiset(s, x => id(x) != k);
    Filter(s, x => id(x) != k)
  }

  /** `Without` keeps the survivors in their order: it works entry by entry, left to right. */
  lemma WithoutKeepsOrder<T(!new)>(a: seq<T>, b: seq<T>, id: T -> int, k: int)
    ensures Without(a + b, id, k) == Without(a, id, k) + Without(b, id, k)
    ensures forall x :: Without([x], id, k) == (if id(x) != k then [x] else [])
  {
    FilterAppend(a, b, x => id(x) != k);
    forall x ensures Without([x], id, k) == (if id(x) != k then [x] else []) {
      assert [x][1..] == [];
    }
  }

  /** `s.find(x => key(x) === k)`: the first element whose key is `k`, if any. */
  function FindFirst<T(==), K(==)>(s: seq<T>, key: T -> K, k: K): (r: Option<T>)
    ensures r.None? <==> forall i :: 0 <= i < |s| ==> key(s[i]) != k
    ensures r.Some? ==> r.value in s && key(r.value) == k
  {
    if s == [] then None
    else if key(s[0]) == k then Some(s[0])
    else FindFirst(s[1..], key, k)
  }

  /** `find` stops at the first match: an element whose key no earlier element has is the one found. */
  lemma {:induction false} FindFirstAt<T, K>(s: seq<T>, key: T -> K, i: nat)
    requires i < |s| && forall j :: 0 <= j < i ==> key(s[j]) != key(s[i])
    ensures FindFirst(s, key, key(s[i])) == Some(s[i])
  {
    if i > 0 {
      assert key(s[0]) != key(s[i]);
      assert forall j :: 0 <= j < i - 1 ==> s[1..][j] == s[j + 1];
      FindFirstAt(s[1..], key, i - 1);
    }
  }

  /** No element occurs twice. */
  predicate NoDuplicates<T(==,!new)>(s: seq<T>) {
    forall i, j :: 0 <= i < j < |s| ==> s[i] != s[j]
  }

  lemma NoDuplicatesMultiset<T(!new)>(s: seq<T>)
    requires NoDuplicates(s)
    ensures forall x :: x in s ==> multiset(s)[x] == 1
  {
    if s != [] {
      assert s == [s[0]] + s[1..];
      assert s[0] !in s[1..];
      NoDuplicatesMultiset(s[1..]);
    }
  }

  lemma {:induction false} MultisetNoDuplicates<T(!new)>(s: seq<T>)
    requires forall x :: x in s ==> multiset(s)[x] == 1
    ensures NoDuplicates(s)
  {
    if s != [] {
      assert s == [s[0]] + s[1..];
      forall x | x in s[1..] ensures multiset(s[1..])[x] == 1 {
        assert multiset(s)[x] == multiset(s[1..])[x] + (if x == s[0] then 1 else 0);
      }
      MultisetNoDuplicates(s[1..]);
      assert multiset(s)[s[0]] == 1;
      assert multiset(s[1..])[s[0]] == 0;
    }
  }

  /** The key never increases from one element to the next. */
  predicate SortedDesc<T(==,!new)>(s: seq<T>, key: T -> int) {
    forall i, j :: 0 <= i < j < |s| ==> key(s[i]) >= key(s[j])
  }

  /** Put `x` in front of the first element whose key does not exceed its own. */
  function InsertDesc<T(==,!new)>(x: T, s: seq<T>, key: T -> int): (r: seq<T>)
    ensures multiset(r) == multiset(s) + multiset{x}
    ensures |r| == |s| + 1
  {
    if s == [] || key(x) >= key(s[0]) then [x] + s
    else
      assert s == [s[0]] + s[1..];
      [s[0]] + InsertDesc(x, s[1..], key)
  }

  lemma {:induction false} InsertDescSorted<T(!new)>(x: T, s: seq<T>, key: T -> int)
    requires SortedDesc(s, key)
    ensures SortedDesc(InsertDesc(x, s, key), key)
  {
    if s != [] && key(x) < key(s[0]) {
      InsertDescSorted(x, s[1..], key);
      var r := InsertDesc(x, s[1..], key);
      forall y | y in r ensures key(y) <= key(s[0]) {
        assert y in multiset(r);
        assert y == x || y in multiset(s[1..]);
      }
    }
  }

  /** The elements of `s` in non-increasing order of `key` (insertion sort). */
  function SortDesc<T(==,!new)>(s: seq<T>, key: T -> int): (r: seq<T>)
    ensures multiset(r) == multiset(s)
    ensures |r| == |s|
  {
    if s == [] then []
    else
      assert s == [s[0]] + s[1..];
      InsertDesc(s[0], SortDesc(s[1..], key), key)
  }

  /** `SortDesc` sorts, and what it returns is a permutation of its input. */
  lemma {:induction false} SortDescCorrect<T(!new)>(s: seq<T>, key: T -> int)
    ensures SortedDesc(SortDesc(s, key), key)
    ensures multiset(SortDesc(s, key)) == multiset(s)
    ensures forall x :: x in SortDesc(s, key) <==> x in s
  {
    if s != [] {
      SortDescCorrect(s[1..], key);
      InsertDescSorted(s[0], SortDesc(s[1..], key), key);
    }
    forall x ensures x in SortDesc(s, key) <==> x in s {
      assert x in SortDesc(s, key) <==> x in multiset(SortDesc(s, key));
      assert x in s <==> x in multiset(s);
    }
  }

  /** Sorting keeps a duplicate-free list duplicate-free. */
  lemma SortDescNoDuplicates<T(!new)>(s: seq<T>, key: T -> int)
    requires NoDuplicates(s)
    ensures NoDuplicates(SortDesc(s, key))
  {
    NoDuplicatesMultiset(s);
    SortDescCorrect(s, key);
    var r := SortDesc(s, key);
    forall x | x in r ensures multiset(r)[x] == 1 {
      assert x in multiset(r);
      assert x in multiset(s);
    }
    MultisetNoDuplicates(r);
  }

  /** `s.slice(skip, skip + take)` for non-negative bounds (a query's `skip`/`take`). */
  function Window<T(==,!new)>(s: seq<T>, skip: nat, take: nat): (r: seq<T>)
    ensures |r| <= take
    ensures |r| == if skip >= |s| then 0 else if |s| - skip < take then |s| - skip else take
    ensures forall i :: 0 <= i < |r| ==> r[i] == s[skip + i]
  {
    if skip >= |s| then []
    else if |s| - skip < take then s[skip..]
    else s[skip..skip + take]
  }

  /** The elements of `s` last to first. */
  function Reverse<T>(s: seq<T>): (r: seq<T>)
    ensures |r| == |s|
    ensures forall i :: 0 <= i < |s| ==> r[i] == s[|s| - 1 - i]
  {
    seq(|s|, i requires 0 <= i < |s| => s[|s| - 1 - i])
  }

  /** A contiguous stretch of a list sorted by a key is sorted by it. */
  lemma SliceSorted<T(!new)>(s: seq<T>, a: nat, b: nat, key: T -> int)
    requires a <= b <= |s| && SortedDesc(s, key)
    ensures SortedDesc(s[a..b], key)
  {
    forall i, j | 0 <= i < j < b - a ensures key(s[a..b][i]) >= key(s[a..b][j]) {
      assert s[a..b][i] == s[a + i] && s[a..b][j] == s[a + j];
    }
  }

  /** Every element of a contiguous stretch of a list is an element of the list. */
  lemma SliceMembers<T>(s: seq<T>, a: nat, b: nat)
    requires a <= b <= |s|
    ensures forall x :: x in s[a..b] ==> x in s
  {
    forall x | x in s[a..b] ensures x in s {
      var i :| 0 <= i < b - a && s[a..b][i] == x;
      assert s[a + i] == x;
    }
  }

  /**
   * The first `n` of a sorted list are its top `n`: an element left out
   * ranks no higher than any kept, and is only left out when `n` are kept.
   */
  lemma TopWindow<T(!new)>(s: seq<T>, key: T -> int, n: nat, x: T)
    requires SortedDesc(s, key) && x in s && x !in Window(s, 0, n)
    ensures |Window(s, 0, n)| == n
    ensures forall i :: 0 <= i < n ==> key(Window(s, 0, n)[i]) >= key(x)
  {
    var m :| 0 <= m < |s| && s[m] == x;
    assert m >= |Window(s, 0, n)|;
  }

  /** The rows of a table whose keys lie below `n`, in key order. */
  function Rows<T(==,!new)>(m: map<int, T>, n: int): (r: seq<T>)
    ensures forall i :: 0 <= i < |r| ==> r[i] in m.Values
    decreases n
  {
    if n <= 0 then []
    else Rows(m, n - 1) + (if n - 1 in m then [m[n - 1]] else [])
  }

  /** A property of every row of the table holds of every listed row. */
  lemma {:induction false} RowsSatisfy<T(!new)>(m: map<int, T>, n: int, P: T -> bool)
    requires forall k :: k in m ==> P(m[k])
    ensures forall i :: 0 <= i < |Rows(m, n)| ==> P(Rows(m, n)[i])
    decreases n
  {
    if n > 0 {
      RowsSatisfy(m, n - 1, P);
      assert forall i :: 0 <= i < |Rows(m, n - 1)| ==> Rows(m, n)[i] == Rows(m, n - 1)[i];
    }
  }

  /** Every row of a table whose keys lie in [0, n) is listed. */
  lemma {:induction false} RowsComplete<T(!new)>(m: map<int, T>, n: int)
    requires forall k :: k in m ==> 0 <= k < n
    ensures forall k :: k in m ==> m[k] in Rows(m, n)
  {
    forall k | k in m ensures m[k] in Rows(m, n) {
      RowsContainsKey(m, n, k);
    }
  }

  lemma {:induction false} RowsContainsKey<T(!new)>(m: map<int, T>, n: int, k: int)
    requires k in m && 0 <= k < n
    ensures m[k] in Rows(m, n)
    decreases n
  {
    if k < n - 1 {
      RowsContainsKey(m, n - 1, k);
    }
  }

  /** Every listed row is stored under its own id. */
  lemma {:induction false} RowsStored<T(!new)>(m: map<int, T>, n: int, id: T -> int)
    requires forall k :: k in m ==> id(m[k]) == k
    ensures forall x :: x in Rows(m, n) ==> id(x) in m && m[id(x)] == x
    decreases n
  {
    if n > 0 {
      RowsStored(m, n - 1, id);
    }
  }

  /** Listing rows by key with a key-to-row injective map gives each row once. */
  lemma {:induction false} RowsNoDuplicates<T(!new)>(m: map<int, T>, n: int, id: T -> int)
    requires forall k :: k in m ==> id(m[k]) == k
    ensures NoDuplicates(Rows(m, n))
    ensures forall x :: x in Rows(m, n) ==> id(x) < n
    decreases n
  {
    if n > 0 {
      RowsNoDuplicates(m, n - 1, id);
    }
  }

  /** Filtering keeps a duplicate-free list duplicate-free. */
  lemma {:induction false} FilterNoDuplicates<T(!new)>(s: seq<T>, p: T -> bool)
    requires NoDuplicates(s)
    ensures NoDuplicates(Filter(s, p))
  {
    if s != [] {
      FilterNoDuplicates(s[1..], p);
      var rest := Filter(s[1..], p);
      if p(s[0]) {
        assert s[0] !in s[1..];
        assert s[0] !in rest;
      }
    }
  }

  /** Nothing passes the filter exactly when no element satisfies the predicate. */
  lemma {:induction false} FilterEmpty<T(!new)>(s: seq<T>, p: T -> bool)
    ensures Filter(s, p) == [] <==> forall i :: 0 <= i < |s| ==> !p(s[i])
  {
    if s != [] {
      FilterEmpty(s[1..], p);
      assert forall i :: 1 <= i < |s| ==> s[i] == s[1..][i - 1];
    }
  }

  /** The rows that pass a filter are exactly the stored rows satisfying it, each once. */
  lemma FilterRowsCorrect<T(!new)>(m: map<int, T>, n: int, p: T -> bool, id: T -> int)
    requires forall k :: k in m ==> 0 <= k < n && id(m[k]) == k
    ensures NoDuplicates(Filter(Rows(m, n), p))
    ensures forall x :: x in Filter(Rows(m, n), p) ==> x in m.Values && p(x)
    ensures forall k :: k in m && p(m[k]) ==> m[k] in Filter(Rows(m, n), p)
  {
    var rows := Rows(m, n);
    RowsNoDuplicates(m, n, id);
    FilterNoDuplicates(rows, p);
    RowsComplete(m, n);
    forall x | x in Filter(rows, p) ensures x in m.Values {
      var i :| 0 <= i < |rows| && rows[i] == x;
    }
  }

  /** The same, by position: each filtered row is the row stored under its own id, and no id repeats. */
  lemma FilterRowsById<T(!new)>(m: map<int, T>, n: int, p: T -> bool, id: T -> int)
    requires forall k :: k in m ==> 0 <= k < n && id(m[k]) == k
    ensures forall i :: 0 <= i < |Filter(Rows(m, n), p)| ==>
      && id(Filter(Rows(m, n), p)[i]) in m
      && m[id(Filter(Rows(m, n), p)[i])] == Filter(Rows(m, n), p)[i]
      && p(Filter(Rows(m, n), p)[i])
    ensures forall i, j :: 0 <= i < j < |Filter(Rows(m, n), p)| ==>
      id(Filter(Rows(m, n), p)[i]) != id(Filter(Rows(m, n), p)[j])
  {
    var rows := Filter(Rows(m, n), p);
    FilterRowsCorrect(m, n, p, id);
    forall i | 0 <= i < |rows| ensures id(rows[i]) in m && m[id(rows[i])] == rows[i] && p(rows[i]) {
      assert rows[i] in rows;
    }
    forall i, j | 0 <= i < j < |rows| ensures id(rows[i]) != id(rows[j]) {
      assert rows[i] != rows[j];
    }
  }

  /** `findMany({ where: p, orderBy: key desc })` over a table whose keys lie below `n`. */
  function Query<T(==,!new)>(m: map<int, T>, n: int, p: T -> bool, key: T -> int): seq<T> {
    SortDesc(Filter(Rows(m, n), p), key)
  }

  /** Every row a query lists is a row of the table that satisfies the filter. */
  lemma QuerySound<T(!new)>(m: map<int, T>, n: int, p: T -> bool, key: T -> int)
    ensures forall x :: x in Query(m, n, p, key) ==> x in m.Values && p(x)
  {
    var rows := Rows(m, n);
    var kept := Filter(rows, p);
    SortDescCorrect(kept, key);
    forall x | x in SortDesc(kept, key) ensures x in m.Values && p(x) {
      assert x in kept;
      var i :| 0 <= i < |kept| && kept[i] == x;
    }
  }

  /** Every row of the table (keys below `n`) that satisfies the filter is listed. */
  lemma QueryComplete<T(!new)>(m: map<int, T>, n: int, p: T -> bool, key: T -> int)
    requires forall k :: k in m ==> 0 <= k < n
    ensures forall k :: k in m && p(m[k]) ==> m[k] in Query(m, n, p, key)
  {
    var rows := Rows(m, n);
    RowsComplete(m, n);
    var kept := Filter(rows, p);
    SortDescCorrect(kept, key);
    forall k | k in m && p(m[k]) ensures m[k] in SortDesc(kept, key) {
      var i :| 0 <= i < |rows| && rows[i] == m[k];
      assert m[k] in kept;
    }
  }

  /**
   * A query lists exactly the rows that satisfy its filter, each once, in
   * non-increasing order of the key.
   */
  lemma QueryCorrect<T(!new)>(m: map<int, T>, n: int, p: T -> bool, key: T -> int, id: T -> int)
    requires forall k :: k in m ==> 0 <= k < n && id(m[k]) == k
    ensures SortedDesc(Query(m, n, p, key), key)
    ensures NoDuplicates(Query(m, n, p, key))
    ensures forall x :: x in Query(m, n, p, key) ==> x in m.Values && p(x)
    ensures forall k :: k in m && p(m[k]) ==> m[k] in Query(m, n, p, key)
  {
    var rows := Rows(m, n);
    RowsNoDuplicates(m, n, id);
    var kept := Filter(rows, p);
    FilterNoDuplicates(rows, p);
    SortDescCorrect(kept, key);
    SortDescNoDuplicates(kept, key);
    QuerySound(m, n, p, key);
    QueryComplete(m, n, p, key);
  }
}
