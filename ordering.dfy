/** The string order of SQLite's default BINARY collation (code point by
    code point, a proper prefix first) and a stable sort by a string key,
    which is what `ORDER BY <text column>` yields. */
module Ordering {

  /** Lexicographic "less than or equal" on strings. */
  predicate StrLe(a: string, b: string)
    decreases |a|
  {
    if a == [] then true
    else if b == [] then false
    else if a[0] != b[0] then a[0] < b[0]
    else StrLe(a[1..], b[1..])
  }

  predicate StrLt(a: string, b: string) {
    StrLe(a, b) && a != b
  }

  lemma {:induction false} StrLeReflexive(a: string)
    ensures StrLe(a, a)
    decreases |a|
  {
    if a != [] { StrLeReflexive(a[1..]); }
  }

  lemma {:induction false} StrLeTotal(a: string, b: string)
    ensures StrLe(a, b) || StrLe(b, a)
    decreases |a|
  {
    if a != [] && b != [] && a[0] == b[0] { StrLeTotal(a[1..], b[1..]); }
  }

  lemma {:induction false} StrLeAntisymmetric(a: string, b: string)
    requires StrLe(a, b) && StrLe(b, a)
    ensures a == b
    decreases |a|
  {
    if a != [] && b != [] {
      StrLeAntisymmetric(a[1..], b[1..]);
      assert a == [a[0]] + a[1..] && b == [b[0]] + b[1..];
    }
  }

  lemma {:induction false} StrLeTransitive(a: string, b: string, c: string)
    requires StrLe(a, b) && StrLe(b, c)
    ensures StrLe(a, c)
    decreases |a|
  {
    if a != [] && b != [] && c != [] && a[0] == b[0] && b[0] == c[0] {
      StrLeTransitive(a[1..], b[1..], c[1..]);
    }
  }

  /** The rows of `s` are in non-decreasing order of `key`. */
  ghost predicate SortedBy<T>(s: seq<T>, key: T -> string) {
    forall i, j :: 0 <= i < j < |s| ==> StrLe(key(s[i]), key(s[j]))
  }

  /** Inserts x before the first row whose key is not smaller. */
  function Insert<T>(x: T, s: seq<T>, key: T -> string): (r: seq<T>)
    ensures multiset(r) == multiset(s) + multiset{x}
    ensures |r| == |s| + 1
  {
    if s == [] then [x]
    else if StrLe(key(x), key(s[0])) then [x] + s
    else
      assert s == [s[0]] + s[1..];
      [s[0]] + Insert(x, s[1..], key)
  }

  /** Insertion sort: the model of `ORDER BY key`. */
  function SortBy<T>(s: seq<T>, key: T -> string): (r: seq<T>)
    ensures multiset(r) == multiset(s)
    ensures |r| == |s|
  {
    if s == [] then []
    else
      assert s == [s[0]] + s[1..];
      Insert(s[0], SortBy(s[1..], key), key)
  }

  lemma {:induction false} InsertSorted<T>(x: T, s: seq<T>, key: T -> string)
    requires SortedBy(s, key)
    ensures SortedBy(Insert(x, s, key), key)
    decreases |s|
  {
    if s == [] {
    } else if StrLe(key(x), key(s[0])) {
      var r := [x] + s;
      forall i, j | 0 <= i < j < |r| ensures StrLe(key(r[i]), key(r[j])) {
        if i == 0 && j > 1 { StrLeTransitive(key(x), key(s[0]), key(s[j - 1])); }
      }
    } else {
      StrLeTotal(key(x), key(s[0]));
      InsertSorted(x, s[1..], key);
      var tail := Insert(x, s[1..], key);
      var r := [s[0]] + tail;
      forall i, j | 0 <= i < j < |r| ensures StrLe(key(r[i]), key(r[j])) {
        if i == 0 {
          assert r[j] in multiset(tail);
          assert r[j] in multiset(s[1..]) + multiset{x};
          if r[j] == x {
          } else {
            assert r[j] in s[1..];
            var k :| 0 <= k < |s[1..]| && s[1..][k] == r[j];
            assert s[k + 1] == r[j];
          }
        }
      }
    }
  }

  /** `SortBy` yields rows in key order. */
  lemma {:induction false} SortByIsSorted<T>(s: seq<T>, key: T -> string)
    ensures SortedBy(SortBy(s, key), key)
    decreases |s|
  {
    if s != [] {
      SortByIsSorted(s[1..], key);
      InsertSorted(s[0], SortBy(s[1..], key), key);
    }
  }

  /** A row is in the sorted result exactly when it is in the input. */
  lemma SortByMembers<T>(s: seq<T>, key: T -> string, x: T)
    ensures x in SortBy(s, key) <==> x in s
  {
    assert x in multiset(SortBy(s, key)) <==> x in multiset(s);
  }

  /** A sorted sequence with distinct keys starts with every other sorted
      arrangement's first row. */
  lemma SortedSameHead<T>(a: seq<T>, b: seq<T>, key: T -> string)
    requires SortedBy(a, key) && SortedBy(b, key)
    requires a != [] && multiset(a) == multiset(b)
    requires forall i, j :: 0 <= i < j < |a| ==> key(a[i]) != key(a[j])
    ensures b != [] && a[0] == b[0]
  {
    assert a[0] in multiset(b);
    assert b[0] in multiset(a);
    var ia :| 0 <= ia < |a| && a[ia] == b[0];
    var ib :| 0 <= ib < |b| && b[ib] == a[0];
    if ia != 0 {
      assert StrLe(key(a[0]), key(a[ia]));
      assert ib == 0 || StrLe(key(b[0]), key(b[ib]));
      StrLeReflexive(key(a[0]));
      StrLeAntisymmetric(key(a[0]), key(a[ia]));
      assert false;
    }
  }

  /** Dropping the first row keeps a sequence sorted. */
  lemma SortedTail<T>(s: seq<T>, key: T -> string)
    requires SortedBy(s, key) && s != []
    ensures SortedBy(s[1..], key)
  {
    var t := s[1..];
    forall i, j | 0 <= i < j < |t| ensures StrLe(key(t[i]), key(t[j])) {
      assert t[i] == s[i + 1] && t[j] == s[j + 1];
    }
  }

  /** Removing the same first row from two sequences with the same rows
      leaves the same rows. */
  lemma SameRowsTail<T>(a: seq<T>, b: seq<T>)
    requires a != [] && b != [] && a[0] == b[0] && multiset(a) == multiset(b)
    ensures multiset(a[1..]) == multiset(b[1..])
  {
    assert a == [a[0]] + a[1..] && b == [b[0]] + b[1..];
    assert multiset(a[1..]) == multiset(a) - multiset{a[0]};
    assert multiset(b[1..]) == multiset(b) - multiset{b[0]};
  }

  /** Dropping the first row keeps the keys distinct. */
  lemma DistinctTail<T>(a: seq<T>, key: T -> string)
    requires a != [] && forall i, j :: 0 <= i < j < |a| ==> key(a[i]) != key(a[j])
    ensures forall i, j :: 0 <= i < j < |a[1..]| ==> key(a[1..][i]) != key(a[1..][j])
  {
    forall i, j | 0 <= i < j < |a[1..]| ensures key(a[1..][i]) != key(a[1..][j]) {
      assert a[1..][i] == a[i + 1] && a[1..][j] == a[j + 1];
    }
  }

  /** When the keys are distinct, two sorted sequences with the same rows are
      equal: the order by key determines the result. */
  lemma {:induction false} SortedUnique<T>(a: seq<T>, b: seq<T>, key: T -> string)
    requires SortedBy(a, key) && SortedBy(b, key)
    requires multiset(a) == multiset(b)
    requires forall i, j :: 0 <= i < j < |a| ==> key(a[i]) != key(a[j])
    ensures a == b
    decreases |a|
  {
    assert |a| == |multiset(a)| == |b|;
    if a != [] {
      SortedSameHead(a, b, key);
      SortedTail(a, key);
      SortedTail(b, key);
      SameRowsTail(a, b);
      DistinctTail(a, key);
      SortedUnique(a[1..], b[1..], key);
      assert a == [a[0]] + a[1..] && b == [b[0]] + b[1..];
    }
  }

  /** With distinct keys, no row occurs twice. */
  lemma {:induction false} DistinctOnce<T>(s: seq<T>, key: T -> string, x: T)
    requires forall i, j :: 0 <= i < j < |s| ==> key(s[i]) != key(s[j])
    ensures multiset(s)[x] <= 1
    decreases |s|
  {
    if s != [] {
      assert s == [s[0]] + s[1..];
      DistinctTail(s, key);
      DistinctOnce(s[1..], key, x);
      if s[0] == x {
        assert x !in s[1..] by {
          forall k | 0 <= k < |s[1..]| ensures s[1..][k] != x {
            assert key(s[0]) != key(s[k + 1]);
          }
        }
      }
    }
  }

  /** Rearranging rows with distinct keys keeps the keys distinct. */
  lemma PermutedDistinct<T>(s: seq<T>, a: seq<T>, key: T -> string)
    requires multiset(a) == multiset(s)
    requires forall i, j :: 0 <= i < j < |s| ==> key(s[i]) != key(s[j])
    ensures forall i, j :: 0 <= i < j < |a| ==> key(a[i]) != key(a[j])
  {
    forall i, j | 0 <= i < j < |a| ensures key(a[i]) != key(a[j]) {
      if key(a[i]) == key(a[j]) {
        assert a[i] in multiset(s) && a[j] in multiset(s);
        var p :| 0 <= p < |s| && s[p] == a[i];
        var q :| 0 <= q < |s| && s[q] == a[j];
        assert a == a[..j] + a[j..];
        assert multiset(a)[a[i]] >= 2 by {
          assert a[i] in multiset(a[..j]) && a[j] in multiset(a[j..]);
        }
        assert p == q;
        DistinctOnce(s, key, a[i]);
        assert false;
      }
    }
  }

  /** The identity key, to order strings by themselves. */
  function Self(s: string): string {
    s
  }

  /** `SELECT DISTINCT` over rows already in order: a row equal to the next
      one is dropped. */
  function Dedup(s: seq<string>): (r: seq<string>)
    ensures forall x :: x in r <==> x in s
  {
    if |s| <= 1 then s
    else if s[0] == s[1] then Dedup(s[1..])
    else [s[0]] + Dedup(s[1..])
  }

  /** On ordered rows, Dedup leaves them strictly ascending, so each value
      appears once. */
  lemma {:induction false} DedupAscending(s: seq<string>)
    requires SortedBy(s, Self)
    ensures forall i, j :: 0 <= i < j < |Dedup(s)| ==> StrLt(Dedup(s)[i], Dedup(s)[j])
    decreases |s|
  {
    if |s| > 1 {
      var tail := s[1..];
      SortedTail(s, Self);
      DedupAscending(tail);
      if s[0] != s[1] {
        var r := Dedup(s);
        var rest := Dedup(tail);
        assert r == [s[0]] + rest;
        forall j | 1 <= j < |r| ensures StrLt(s[0], r[j]) {
          assert r[j] == rest[j - 1];
          assert r[j] in tail;
          var k :| 1 <= k < |s| && s[k] == r[j];
          assert StrLe(s[0], s[k]);
          if s[k] == s[0] {
            assert k > 1 && StrLe(Self(s[1]), Self(s[k]));
            StrLeAntisymmetric(s[0], s[1]);
          }
        }
      }
    }
  }

  /** The first n rows, or all of them when there are fewer (SQL LIMIT). */
  function Take<T>(s: seq<T>, n: nat): (r: seq<T>)
    ensures |r| <= n && |r| <= |s|
    ensures |s| <= n ==> r == s
    ensures n <= |s| ==> r == s[..n]
    ensures multiset(r) <= multiset(s)
  {
    if |s| <= n then s
    else
      assert s == s[..n] + s[n..];
      s[..n]
  }
}
