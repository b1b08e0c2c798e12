/** Specification of `sort.Strings` and `sort.Slice` as used by the ledger: the sorted
    arrangement of elements with pairwise distinct keys is unique, so what the library's
    algorithm does with equal keys never matters to an accepted entry. */
module Sorting {
  import opened Bytes

  ghost predicate StrictlySorted<T(!new)>(key: T -> Text, s: seq<T>) {
    forall i, j :: 0 <= i < j < |s| ==> Less(key(s[i]), key(s[j]))
  }

  ghost predicate DistinctKeys<T(!new)>(key: T -> Text, s: seq<T>) {
    forall i, j :: 0 <= i < j < |s| ==> key(s[i]) != key(s[j])
  }

  /** The key of a string is the string. */
  function Self(t: Text): Text { t }

  function Insert<T(!new)>(key: T -> Text, x: T, s: seq<T>): (r: seq<T>)
    ensures |r| == |s| + 1
    ensures multiset(r) == multiset(s) + multiset{x}
    ensures forall y :: y in r <==> y == x || y in s
  {
    if s == [] || !Less(key(s[0]), key(x)) then [x] + s
    else
      assert s == [s[0]] + s[1..];
      [s[0]] + Insert(key, x, s[1..])
  }

  /** Stable insertion sort. */
  function SortBy<T(!new)>(key: T -> Text, s: seq<T>): (r: seq<T>)
    ensures |r| == |s|
    ensures multiset(r) == multiset(s)
    ensures forall y :: y in r <==> y in s
  {
    if s == [] then []
    else
      assert s == [s[0]] + s[1..];
      Insert(key, s[0], SortBy(key, s[1..]))
  }

  lemma {:induction false} InsertSorted<T(!new)>(key: T -> Text, x: T, s: seq<T>)
    requires StrictlySorted(key, s)
    requires forall y :: y in s ==> key(y) != key(x)
    ensures StrictlySorted(key, Insert(key, x, s))
  {
    if s != [] {
      LessTotal(key(s[0]), key(x));
      if Less(key(s[0]), key(x)) {
        InsertSorted(key, x, s[1..]);
        var rest := Insert(key, x, s[1..]);
        forall j | 0 <= j < |rest| ensures Less(key(s[0]), key(rest[j])) {
          assert rest[j] in rest;
          if rest[j] != x {
            var k :| 0 <= k < |s[1..]| && s[1..][k] == rest[j];
            assert s[k + 1] == rest[j];
          }
        }
      } else {
        forall j | 0 <= j < |s| ensures Less(key(x), key(s[j])) {
          assert s[0] in s;
          if j > 0 {
            LessTransitive(key(x), key(s[0]), key(s[j]));
          }
        }
      }
    }
  }

  lemma {:induction false} SortBySorted<T(!new)>(key: T -> Text, s: seq<T>)
    requires DistinctKeys(key, s)
    ensures StrictlySorted(key, SortBy(key, s))
  {
    if s != [] {
      SortBySorted(key, s[1..]);
      forall y | y in SortBy(key, s[1..]) ensures key(y) != key(s[0]) {
        var k :| 0 <= k < |s[1..]| && s[1..][k] == y;
        assert s[k + 1] == y;
      }
      InsertSorted(key, s[0], SortBy(key, s[1..]));
    }
  }

  /** A strictly sorted sequence is determined by its elements. */
  lemma {:induction false} SortedUnique<T(!new)>(key: T -> Text, a: seq<T>, b: seq<T>)
    requires StrictlySorted(key, a) && StrictlySorted(key, b)
    requires forall x :: x in a <==> x in b
    ensures a == b
  {
    if a == [] {
      assert forall i :: 0 <= i < |b| ==> b[i] in a;
    } else {
      assert a[0] in a;
      assert b != [];
      assert b[0] in b;
      if a[0] != b[0] {
        var i :| 0 <= i < |a| && a[i] == b[0];
        var j :| 0 <= j < |b| && b[j] == a[0];
        LessAsymmetric(key(a[0]), key(b[0]));
      }
      forall x ensures x in a[1..] <==> x in b[1..] {
        TailMembers(key, a, x);
        TailMembers(key, b, x);
      }
      SortedUnique(key, a[1..], b[1..]);
      assert a == [a[0]] + a[1..] && b == [b[0]] + b[1..];
    }
  }

  lemma TailMembers<T(!new)>(key: T -> Text, a: seq<T>, x: T)
    requires StrictlySorted(key, a) && a != []
    ensures x in a[1..] <==> x in a && x != a[0]
  {
    if x in a && x != a[0] {
      var i :| 0 <= i < |a| && a[i] == x;
      assert a[1..][i - 1] == x;
    }
    if x in a[1..] {
      var i :| 0 <= i < |a[1..]| && a[1..][i] == x;
      assert a[i + 1] == x;
      LessAsymmetric(key(a[0]), key(x));
    }
  }

  lemma DistinctKeysPermuted<T(!new)>(key: T -> Text, s: seq<T>, t: seq<T>)
    requires multiset(s) == multiset(t)
    requires DistinctKeys(key, s)
    ensures DistinctKeys(key, t)
    ensures forall x :: x in s <==> x in t
  {
    forall x ensures x in s <==> x in t {
      assert x in s <==> x in multiset(s);
      assert x in t <==> x in multiset(t);
    }
    forall i, j | 0 <= i < j < |t| ensures key(t[i]) != key(t[j]) {
      if t[i] == t[j] {
        TwiceInMultiset(t, i, j);
        OnceInMultiset(key, s, t[i]);
      } else {
        assert t[i] in t && t[j] in t;
      }
    }
  }

  lemma TwiceInMultiset<T>(t: seq<T>, i: nat, j: nat)
    requires i < j < |t| && t[i] == t[j]
    ensures multiset(t)[t[i]] >= 2
  {
    assert t == t[..i] + [t[i]] + t[i + 1..j] + [t[j]] + t[j + 1..];
  }

  lemma {:induction false} OnceInMultiset<T(!new)>(key: T -> Text, s: seq<T>, x: T)
    requires DistinctKeys(key, s)
    ensures multiset(s)[x] <= 1
  {
    if s != [] {
      assert s == [s[0]] + s[1..];
      OnceInMultiset(key, s[1..], x);
      forall k | 0 <= k < |s[1..]| ensures s[1..][k] != s[0] {
        assert s[k + 1] == s[1..][k];
      }
      assert s[0] !in s[1..];
    }
  }

  /** Any arrangement of s that is sorted is the one SortBy picks. */
  lemma SortByUnique<T(!new)>(key: T -> Text, s: seq<T>, t: seq<T>)
    requires multiset(s) == multiset(t)
    requires DistinctKeys(key, s)
    ensures SortBy(key, s) == SortBy(key, t)
    ensures StrictlySorted(key, t) ==> t == SortBy(key, s)
  {
    DistinctKeysPermuted(key, s, t);
    SortBySorted(key, s);
    SortBySorted(key, t);
    SortedUnique(key, SortBy(key, s), SortBy(key, t));
    if StrictlySorted(key, t) {
      SortedUnique(key, t, SortBy(key, s));
    }
  }

  lemma DistinctSnoc(ids: seq<Text>, id: Text)
    requires DistinctKeys(Self, ids) && id !in ids
    ensures DistinctKeys(Self, ids + [id])
    ensures forall x :: x in ids + [id] <==> x in ids || x == id
  {
  }

  lemma NothingSorted()
    ensures StrictlySorted(Self, [])
  {
  }

  // ---- sets of strings ----

  lemma Cardinality(a: set<Text>, b: set<Text>)
    requires a !! b
    ensures |a + b| == |a| + |b|
  {
  }

  lemma {:induction false} Subset(a: set<Text>, b: set<Text>)
    requires a <= b
    ensures |a| <= |b|
  {
    if a != {} {
      var x :| x in a;
      Subset(a - {x}, b - {x});
    }
  }

  lemma Union(x: set<Text>, y: set<Text>)
    ensures |x + y| <= |x| + |y|
  {
    assert x + y == x + (y - x);
    Cardinality(x, y - x);
    Subset(y - x, y);
  }

  /** The elements of a set of strings in ascending order. */
  ghost function Ascending(s: set<Text>): (r: seq<Text>)
    ensures StrictlySorted(Self, r)
    ensures forall x :: x in r <==> x in s
    ensures |r| == |s|
  {
    if s == {} then []
    else
      var x :| x in s;
      InsertSorted(Self, x, Ascending(s - {x}));
      Insert(Self, x, Ascending(s - {x}))
  }

  lemma AscendingDistinct(s: set<Text>)
    ensures forall i, j :: 0 <= i < j < |Ascending(s)| ==> Ascending(s)[i] != Ascending(s)[j]
  {
    hide Ascending;
    var r := Ascending(s);
    forall i, j | 0 <= i < j < |r| ensures r[i] != r[j] {
      LessAsymmetric(r[i], r[j]);
      assert Less(Self(r[i]), Self(r[j]));
    }
  }

  lemma AscendingUnique(s: set<Text>, r: seq<Text>)
    requires StrictlySorted(Self, r)
    requires forall x :: x in r <==> x in s
    ensures r == Ascending(s)
  {
    SortedUnique(Self, r, Ascending(s));
  }

  /** sort.Strings on a slice that lists each element of a set once. */
  method SortStrings(ids: seq<Text>, ghost s: set<Text>) returns (r: seq<Text>)
    requires DistinctKeys(Self, ids)
    requires forall x :: x in ids <==> x in s
    ensures r == Ascending(s)
  {
    r := SortBy(Self, ids);
    SortBySorted(Self, ids);
    AscendingUnique(s, r);
  }
}
