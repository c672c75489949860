/** Sequence operations shared by the consolidation and the aggregation models:
    row filtering (a SQL WHERE clause, a pandas mask), duplicate removal and
    key uniqueness. */
module Seqs {

  /** The rows of `s` that satisfy `p`, in their original order. */
  function Filter<T(!new)>(s: seq<T>, p: T -> bool): (r: seq<T>)
    ensures |r| <= |s|
    ensures forall x :: x in r <==> x in s && p(x)
  {
    if s == [] then []
    else
      assert s == [s[0]] + s[1..];
      (if p(s[0]) then [s[0]] else []) + Filter(s[1..], p)
  }

  lemma {:induction false} FilterAppend<T(!new)>(a: seq<T>, b: seq<T>, p: T -> bool)
    ensures Filter(a + b, p) == Filter(a, p) + Filter(b, p)
  {
    if a == [] {
      assert a + b == b;
    } else {
      assert (a + b)[1..] == a[1..] + b;
      FilterAppend(a[1..], b, p);
    }
  }

  /** Filtering by `p` and then by a condition `q` that implies `p` is filtering by `q` alone. */
  lemma {:induction false} FilterFilter<T(!new)>(s: seq<T>, p: T -> bool, q: T -> bool)
    requires forall x :: q(x) ==> p(x)
    ensures Filter(Filter(s, p), q) == Filter(s, q)
  {
    if s != [] {
      FilterFilter(s[1..], p, q);
      var fp := Filter(s, p);
      if p(s[0]) {
        assert fp == [s[0]] + Filter(s[1..], p);
        assert fp[0] == s[0] && fp[1..] == Filter(s[1..], p);
        assert Filter(fp, q) == (if q(s[0]) then [s[0]] else []) + Filter(fp[1..], q);
      } else {
        assert fp == Filter(s[1..], p);
        assert Filter(s, q) == Filter(s[1..], q);
      }
    }
  }

  /** A filter that keeps nothing of `s` yields the empty sequence. */
  lemma FilterNone<T(!new)>(s: seq<T>, p: T -> bool)
    requires forall x :: x in s ==> !p(x)
    ensures Filter(s, p) == []
  {
    if Filter(s, p) != [] {
      assert Filter(s, p)[0] in Filter(s, p);
    }
  }

  /** No two rows of `s` share a key: the table's primary-key constraint. */
  predicate DistinctKeys<K(==), T(!new)>(s: seq<T>, key: T -> K)
  {
    forall i, j :: 0 <= i < j < |s| ==> key(s[i]) != key(s[j])
  }

  /** The keys of the rows of `s`. */
  function KeySet<K, T(==,!new)>(s: seq<T>, key: T -> K): set<K>
  {
    set x | x in s :: key(x)
  }

  lemma DistinctKeysTail<K, T(!new)>(s: seq<T>, key: T -> K)
    requires s != [] && DistinctKeys(s, key)
    ensures DistinctKeys(s[1..], key)
  {
    var t := s[1..];
    forall i, j | 0 <= i < j < |t| ensures key(t[i]) != key(t[j]) {
      assert t[i] == s[i + 1] && t[j] == s[j + 1];
    }
  }

  /** The head of a table with distinct keys shares its key with no row of the tail. */
  lemma DistinctKeysHead<K, T(!new)>(s: seq<T>, key: T -> K, y: T)
    requires s != [] && DistinctKeys(s, key) && y in s[1..]
    ensures key(s[0]) != key(y)
  {
    var k :| 0 <= k < |s[1..]| && s[1..][k] == y;
    assert y == s[k + 1];
  }

  /** Under distinct keys a row is determined by its key. */
  lemma SameKeySameRow<K, T(!new)>(s: seq<T>, key: T -> K, x: T, y: T)
    requires DistinctKeys(s, key) && x in s && y in s && key(x) == key(y)
    ensures x == y
  {
    var i :| 0 <= i < |s| && s[i] == x;
    var j :| 0 <= j < |s| && s[j] == y;
    assert !(i < j) && !(j < i);
  }

  lemma DistinctKeysAppend<K, T(!new)>(a: seq<T>, b: seq<T>, key: T -> K)
    requires DistinctKeys(a, key) && DistinctKeys(b, key)
    requires forall x, y :: x in a && y in b ==> key(x) != key(y)
    ensures DistinctKeys(a + b, key)
  {
    var s := a + b;
    forall i, j | 0 <= i < j < |s| ensures key(s[i]) != key(s[j]) {
      if j < |a| {
        assert s[i] == a[i] && s[j] == a[j];
      } else if i >= |a| {
        assert s[i] == b[i - |a|] && s[j] == b[j - |a|];
      } else {
        assert s[i] == a[i] && s[j] == b[j - |a|];
      }
    }
  }

  /** A sequence of at most one row has distinct keys under any key. */
  lemma DistinctKeysShort<K, T(!new)>(s: seq<T>, key: T -> K)
    requires |s| <= 1
    ensures DistinctKeys(s, key)
  {
  }

  /** A sequence with no element is empty. */
  lemma NoElementEmpty<T>(s: seq<T>)
    ensures s == [] <==> forall x :: x !in s
  {
    if s != [] {
      assert s[0] in s;
    }
  }

  /** Filtering keeps a table's key constraint: it only drops rows. */
  lemma {:induction false} FilterDistinct<K, T(!new)>(s: seq<T>, p: T -> bool, key: T -> K)
    requires DistinctKeys(s, key)
    ensures DistinctKeys(Filter(s, p), key)
  {
    if s != [] {
      var rest := s[1..];
      DistinctKeysTail(s, key);
      FilterDistinct(rest, p, key);
      var head := if p(s[0]) then [s[0]] else [];
      forall x, y | x in head && y in Filter(rest, p) ensures key(x) != key(y) {
        DistinctKeysHead(s, key, y);
      }
      DistinctKeysAppend(head, Filter(rest, p), key);
    }
  }

  /** No row of `s` occurs twice (pandas' notion of a duplicated row). */
  predicate NoDuplicates<T(==)>(s: seq<T>)
  {
    forall i, j :: 0 <= i < j < |s| ==> s[i] != s[j]
  }

  /** pandas' `drop_duplicates()` with its default `keep="first"`: every row
      that equals an earlier row is removed. */
  function DropDuplicates<T(==,!new)>(s: seq<T>): (r: seq<T>)
    ensures NoDuplicates(r)
    ensures forall x :: x in r <==> x in s
    ensures |r| <= |s|
  {
    if s == [] then []
    else
      var init := DropDuplicates(s[..|s| - 1]);
      var last := s[|s| - 1];
      assert s == s[..|s| - 1] + [last];
      if last in init then init else init + [last]
  }

  /** A sequence that has no duplicated row is left exactly as it was. */
  lemma {:induction false} DropDuplicatesUnchanged<T(!new)>(s: seq<T>)
    requires NoDuplicates(s)
    ensures DropDuplicates(s) == s
  {
    if s != [] {
      var init := s[..|s| - 1];
      assert NoDuplicates(init) by {
        forall i, j | 0 <= i < j < |init| ensures init[i] != init[j] {
          assert init[i] == s[i] && init[j] == s[j];
        }
      }
      DropDuplicatesUnchanged(init);
      assert s[|s| - 1] !in init;
      assert s == init + [s[|s| - 1]];
    }
  }
}
