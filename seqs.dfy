/**
 * Sequence operations the journal code takes from JavaScript's standard library:
 * `Array.prototype.filter`, the insertion order of a `Set` or `Map`
 * (`Array.from(new Set(xs))`), occurrence counting, and the stable
 * `Array.prototype.sort` with a descending numeric comparator.
 */
module Seqs {

  predicate Distinct<T(==)>(s: seq<T>)
  {
    forall i, j :: 0 <= i < j < |s| ==> s[i] != s[j]
  }

  /** The position of the first occurrence of `x`. */
  function FirstIndex<T(==)>(s: seq<T>, x: T): (k: nat)
    requires x in s
    ensures k < |s| && s[k] == x && x !in s[..k]
  {
    if s[0] == x then 0 else 1 + FirstIndex(s[1..], x)
  }

  /** The first occurrence in a prefix of `s` is the first occurrence in `s`. */
  lemma FirstIndexPrefix<T>(s: seq<T>, m: nat, x: T)
    requires m <= |s| && x in s[..m]
    ensures x in s && FirstIndex(s, x) == FirstIndex(s[..m], x)
  {
    var k2 := FirstIndex(s[..m], x);
    assert s[k2] == x;
    assert s[..k2] == s[..m][..k2];
  }

  /** `Array.prototype.filter`. */
  function Filter<T>(s: seq<T>, p: T -> bool): (r: seq<T>)
    ensures |r| <= |s|
  {
    if s == [] then [] else (if p(s[0]) then [s[0]] else []) + Filter(s[1..], p)
  }

  /** `a` is `b` with some elements left out, the rest in their order. */
  predicate IsSubsequence<T(==)>(a: seq<T>, b: seq<T>)
    decreases |b|
  {
    a == [] || (b != [] && ((a[0] == b[0] && IsSubsequence(a[1..], b[1..])) || IsSubsequence(a, b[1..])))
  }

  /** Filtering a list extended at the end extends the filtered list by the new element when it passes. */
  lemma {:induction false} FilterSnoc<T>(s: seq<T>, x: T, p: T -> bool)
    ensures Filter(s + [x], p) == Filter(s, p) + (if p(x) then [x] else [])
  {
    if s != [] {
      FilterSnoc(s[1..], x, p);
      assert (s + [x])[0] == s[0] && (s + [x])[1..] == s[1..] + [x];
    }
  }

  /** `filter` keeps every copy of an element that passes and none of one that does not. */
  lemma {:induction false} FilterMultiplicity<T>(s: seq<T>, p: T -> bool, x: T)
    ensures multiset(Filter(s, p))[x] == if p(x) then multiset(s)[x] else 0
  {
    if s != [] {
      FilterMultiplicity(s[1..], p, x);
      assert s == [s[0]] + s[1..];
      assert Filter(s, p) == (if p(s[0]) then [s[0]] else []) + Filter(s[1..], p);
    }
  }

  /** What `filter` keeps: exactly the elements satisfying the predicate. */
  lemma {:induction false} FilterMembers<T>(s: seq<T>, p: T -> bool)
    ensures forall i :: 0 <= i < |Filter(s, p)| ==> Filter(s, p)[i] in s && p(Filter(s, p)[i])
    ensures forall i :: 0 <= i < |s| && p(s[i]) ==> s[i] in Filter(s, p)
  {
    if s != [] {
      FilterMembers(s[1..], p);
      assert s == [s[0]] + s[1..];
    }
  }

  /** `filter` keeps the surviving elements in their order. */
  lemma {:induction false} FilterSubsequence<T>(s: seq<T>, p: T -> bool)
    ensures IsSubsequence(Filter(s, p), s)
  {
    if s != [] {
      FilterSubsequence(s[1..], p);
      var r := Filter(s, p);
      if p(s[0]) {
        assert r[0] == s[0] && r[1..] == Filter(s[1..], p);
        assert IsSubsequence(r[1..], s[1..]);
      } else {
        assert r == Filter(s[1..], p);
        assert IsSubsequence(r, s[1..]);
      }
    }
  }

  lemma {:induction false} FilterMultiset<T>(s: seq<T>, p: T -> bool)
    ensures multiset(Filter(s, p)) <= multiset(s)
  {
    if s != [] {
      FilterMultiset(s[1..], p);
      assert s == [s[0]] + s[1..];
    }
  }

  /** Nothing is dropped when every element satisfies the predicate. */
  lemma {:induction false} FilterAll<T>(s: seq<T>, p: T -> bool)
    ensures (forall i :: 0 <= i < |s| ==> p(s[i])) ==> Filter(s, p) == s
  {
    if s != [] && forall i :: 0 <= i < |s| ==> p(s[i]) {
      assert p(s[0]);
      FilterAll(s[1..], p);
      assert forall i :: 0 <= i < |s[1..]| ==> p(s[1..][i]) by {
        forall i | 0 <= i < |s[1..]| ensures p(s[1..][i]) {
          assert s[1..][i] == s[i + 1];
        }
      }
    }
  }

  /** Filtering a concatenation filters each half. */
  lemma {:induction false} FilterAppend<T>(a: seq<T>, b: seq<T>, p: T -> bool)
    ensures Filter(a + b, p) == Filter(a, p) + Filter(b, p)
  {
    if a != [] {
      FilterAppend(a[1..], b, p);
      assert (a + b)[0] == a[0] && (a + b)[1..] == a[1..] + b;
    } else {
      assert a + b == b;
    }
  }

  /** Everything is dropped when no element satisfies the predicate. */
  lemma {:induction false} FilterNone<T>(s: seq<T>, p: T -> bool)
    requires forall i :: 0 <= i < |s| ==> !p(s[i])
    ensures Filter(s, p) == []
  {
    if s != [] {
      assert !p(s[0]);
      assert forall i :: 0 <= i < |s[1..]| ==> !p(s[1..][i]) by {
        forall i | 0 <= i < |s[1..]| ensures !p(s[1..][i]) {
          assert s[1..][i] == s[i + 1];
        }
      }
      FilterNone(s[1..], p);
    }
  }

  /** The concatenation of a list of lists, in order. */
  function Flatten<T>(ss: seq<seq<T>>): seq<T>
  {
    if ss == [] then [] else ss[0] + Flatten(ss[1..])
  }

  /** Filtering a list ordered by a key keeps it ordered. */
  lemma {:induction false} FilterNonIncreasing<T>(s: seq<T>, p: T -> bool, key: T -> int)
    requires NonIncreasing(s, key)
    ensures NonIncreasing(Filter(s, p), key)
  {
    if s != [] {
      var tail := s[1..];
      assert NonIncreasing(tail, key) by {
        forall i, j | 0 <= i < j < |tail| ensures key(tail[i]) >= key(tail[j]) {
          assert tail[i] == s[i + 1] && tail[j] == s[j + 1];
        }
      }
      FilterNonIncreasing(tail, p, key);
      if p(s[0]) {
        FilterMembers(tail, p);
        var rest := Filter(tail, p);
        var r := [s[0]] + rest;
        forall i, j | 0 <= i < j < |r| ensures key(r[i]) >= key(r[j]) {
          if i == 0 {
            assert r[j] == rest[j - 1];
            assert rest[j - 1] in tail;
            var m :| 0 <= m < |tail| && tail[m] == r[j];
            assert tail[m] == s[m + 1];
          } else {
            assert r[i] == rest[i - 1] && r[j] == rest[j - 1];
          }
        }
      }
    }
  }

  /** Insertion order of a JavaScript `Set` built from `s`: first occurrences, in order. */
  function Dedupe<T(==)>(s: seq<T>): seq<T>
  {
    if s == [] then []
    else
      var d := Dedupe(s[..|s| - 1]);
      if s[|s| - 1] in d then d else d + [s[|s| - 1]]
  }

  /** `Dedupe` keeps every element and nothing else. */
  lemma {:induction false} DedupeMembers<T>(s: seq<T>)
    ensures forall i :: 0 <= i < |Dedupe(s)| ==> Dedupe(s)[i] in s
    ensures forall i :: 0 <= i < |s| ==> s[i] in Dedupe(s)
    ensures |Dedupe(s)| <= |s|
  {
    if s != [] {
      DedupeMembers(s[..|s| - 1]);
      assert s == s[..|s| - 1] + [s[|s| - 1]];
    }
  }

  /** `Dedupe` keeps each element once. */
  lemma {:induction false} DedupeDistinct<T>(s: seq<T>)
    ensures Distinct(Dedupe(s))
  {
    if s != [] {
      DedupeDistinct(s[..|s| - 1]);
    }
  }

  /** What is kept by removing duplicates was in the list. */
  lemma DedupeMember<T>(s: seq<T>, x: T)
    requires x in Dedupe(s)
    ensures x in s
  {
    DedupeMembers(s);
    var j :| 0 <= j < |Dedupe(s)| && Dedupe(s)[j] == x;
  }

  /** A permutation of a list without duplicates has no duplicates. */
  lemma PermutationDistinct<T>(d: seq<T>, s: seq<T>)
    requires Distinct(d) && multiset(s) == multiset(d)
    ensures Distinct(s)
  {
    forall i, j | 0 <= i < j < |s| ensures s[i] != s[j] {
      if s[i] == s[j] {
        assert multiset(s)[s[i]] >= 2 by {
          assert s == s[..i] + [s[i]] + s[i + 1..j] + [s[j]] + s[j + 1..];
        }
        DistinctMultiplicity(d, s[i]);
        assert false;
      }
    }
  }

  /** In a list without duplicates every element occurs at most once. */
  lemma {:induction false} DistinctMultiplicity<T>(d: seq<T>, x: T)
    requires Distinct(d)
    ensures multiset(d)[x] <= 1
  {
    if d != [] {
      var p := d[1..];
      assert d == [d[0]] + p;
      assert Distinct(p) by {
        forall i, j | 0 <= i < j < |p| ensures p[i] != p[j] {
          assert p[i] == d[i + 1] && p[j] == d[j + 1];
        }
      }
      DistinctMultiplicity(p, x);
      if x == d[0] {
        assert x !in p by {
          forall i | 0 <= i < |p| ensures p[i] != x {
            assert p[i] == d[i + 1];
          }
        }
      }
    }
  }

  /** `x` and `y` occur in `s`, and `x` occurs first. */
  predicate SeenBefore<T(==)>(s: seq<T>, x: T, y: T)
  {
    x in s && y in s && FirstIndex(s, x) < FirstIndex(s, y)
  }

  /** The elements of `r` come from `s` and are listed in the order of their first occurrences in `s`. */
  predicate FirstSeenOrder<T(==)>(r: seq<T>, s: seq<T>)
  {
    forall i, j :: 0 <= i < j < |r| ==> SeenBefore(s, r[i], r[j])
  }

  /** A prefix of a list without duplicates has none. */
  lemma PrefixDistinct<T>(s: seq<T>, n: nat)
    requires Distinct(s) && n <= |s|
    ensures Distinct(s[..n])
  {
    forall i, j | 0 <= i < j < n ensures s[..n][i] != s[..n][j] {
      assert s[..n][i] == s[i] && s[..n][j] == s[j];
    }
  }

  /** A prefix of a list in first-seen order is in first-seen order. */
  lemma PrefixFirstSeenOrder<T>(r: seq<T>, s: seq<T>, n: nat)
    requires FirstSeenOrder(r, s) && n <= |r|
    ensures FirstSeenOrder(r[..n], s)
  {
    var p := r[..n];
    forall i, j | 0 <= i < j < |p| ensures SeenBefore(s, p[i], p[j]) {
      assert p[i] == r[i] && p[j] == r[j];
    }
  }

  /** `Dedupe` lists the elements in the order of their first occurrences. */
  lemma {:induction false} DedupeOrder<T>(s: seq<T>)
    ensures FirstSeenOrder(Dedupe(s), s)
  {
    if s != [] {
      var n := |s|;
      var p := s[..n - 1];
      var x := s[n - 1];
      DedupeOrder(p);
      DedupeMembers(p);
      var d := Dedupe(p);
      assert s == p + [x];
      assert Dedupe(s) == if x in d then d else d + [x];
      forall y | y in d ensures y in s && FirstIndex(s, y) == FirstIndex(p, y) {
        var m :| 0 <= m < |d| && d[m] == y;
        assert y in p;
        FirstIndexPrefix(s, n - 1, y);
      }
      if x in d {
        forall i, j | 0 <= i < j < |d| ensures d[i] in s && d[j] in s && FirstIndex(s, d[i]) < FirstIndex(s, d[j]) {
          assert d[i] in d && d[j] in d;
        }
        assert FirstSeenOrder(d, s);
      } else {
        assert x !in p;
        assert FirstIndex(s, x) == n - 1;
        var r := d + [x];
        forall i, j | 0 <= i < j < |r| ensures r[i] in s && r[j] in s && FirstIndex(s, r[i]) < FirstIndex(s, r[j]) {
          if j < |d| {
            assert r[i] == d[i] && r[j] == d[j];
          } else {
            assert r[i] == d[i] && d[i] in d && r[j] == x;
            assert d[i] in p;
            assert FirstIndex(p, d[i]) < |p|;
          }
        }
        assert FirstSeenOrder(r, s);
      }
    }
  }

  /** Appending an element already present leaves the insertion order unchanged. */
  lemma DedupeSnoc<T>(s: seq<T>, x: T)
    ensures Dedupe(s + [x]) == if x in Dedupe(s) then Dedupe(s) else Dedupe(s) + [x]
  {
    assert (s + [x])[..|s|] == s;
  }

  /** Number of occurrences of `x`. */
  function Count<T(==)>(s: seq<T>, x: T): nat
  {
    if s == [] then 0
    else Count(s[..|s| - 1], x) + (if s[|s| - 1] == x then 1 else 0)
  }

  lemma {:induction false} CountPositive<T>(s: seq<T>, x: T)
    ensures Count(s, x) > 0 <==> x in s
  {
    if s != [] {
      CountPositive(s[..|s| - 1], x);
      assert s == s[..|s| - 1] + [s[|s| - 1]];
    }
  }

  lemma CountSnoc<T>(s: seq<T>, y: T, x: T)
    ensures Count(s + [y], x) == Count(s, x) + (if y == x then 1 else 0)
  {
    assert (s + [y])[..|s|] == s;
  }

  predicate NonIncreasing<T>(s: seq<T>, key: T -> int)
  {
    forall i, j :: 0 <= i < j < |s| ==> key(s[i]) >= key(s[j])
  }

  /** Puts `x` after every leading element whose key is at least `key(x)`. */
  function Insert<T>(x: T, s: seq<T>, key: T -> int): seq<T>
  {
    if s == [] then [x]
    else if key(s[0]) >= key(x) then [s[0]] + Insert(x, s[1..], key)
    else [x] + s
  }

  /** Where `Insert` places `x`. */
  function InsertPos<T>(x: T, s: seq<T>, key: T -> int): (k: nat)
    ensures k <= |s|
  {
    if s == [] || key(s[0]) < key(x) then 0 else 1 + InsertPos(x, s[1..], key)
  }

  lemma {:induction false} InsertSplit<T>(x: T, s: seq<T>, key: T -> int)
    requires NonIncreasing(s, key)
    ensures var k := InsertPos(x, s, key);
      && Insert(x, s, key) == s[..k] + [x] + s[k..]
      && (forall i :: 0 <= i < k ==> key(s[i]) >= key(x))
      && (forall i :: k <= i < |s| ==> key(s[i]) < key(x))
  {
    if s != [] && key(s[0]) >= key(x) {
      InsertSplit(x, s[1..], key);
      var k := InsertPos(x, s[1..], key);
      assert s[..k + 1] == [s[0]] + s[1..][..k];
      assert s[k + 1..] == s[1..][k..];
    }
  }

  /**
   * A stable sort, descending by `key`, built as the JavaScript engine's stable sort with
   * comparator `(a, b) => key(b) - key(a)` behaves: each element in turn goes after every
   * earlier element whose key is not smaller.
   */
  function SortBy<T>(s: seq<T>, key: T -> int): seq<T>
  {
    if s == [] then [] else Insert(s[|s| - 1], SortBy(s[..|s| - 1], key), key)
  }

  lemma {:induction false} InsertPerm<T>(x: T, s: seq<T>, key: T -> int)
    ensures multiset(Insert(x, s, key)) == multiset(s) + multiset{x}
  {
    if s != [] {
      InsertPerm(x, s[1..], key);
      assert s == [s[0]] + s[1..];
    }
  }

  /** Inserting below a bound keeps every key below it. */
  lemma {:induction false} InsertBound<T>(x: T, s: seq<T>, key: T -> int, b: int)
    requires key(x) <= b && forall m :: 0 <= m < |s| ==> key(s[m]) <= b
    ensures forall m :: 0 <= m < |Insert(x, s, key)| ==> key(Insert(x, s, key)[m]) <= b
  {
    if s != [] && key(s[0]) >= key(x) {
      var tail := s[1..];
      assert forall m :: 0 <= m < |tail| ==> key(tail[m]) <= b by {
        forall m | 0 <= m < |tail| ensures key(tail[m]) <= b {
          assert tail[m] == s[m + 1];
        }
      }
      InsertBound(x, tail, key, b);
      var r := Insert(x, s, key);
      assert r == [s[0]] + Insert(x, tail, key);
      forall m | 0 <= m < |r| ensures key(r[m]) <= b {
        if m > 0 {
          assert r[m] == Insert(x, tail, key)[m - 1];
        }
      }
    } else if s != [] {
      var r := Insert(x, s, key);
      assert r == [x] + s;
      forall m | 0 <= m < |r| ensures key(r[m]) <= b {
        if m > 0 {
          assert r[m] == s[m - 1];
        }
      }
    }
  }

  lemma {:induction false} InsertSorted<T>(x: T, s: seq<T>, key: T -> int)
    requires NonIncreasing(s, key)
    ensures NonIncreasing(Insert(x, s, key), key)
  {
    if s != [] {
      var tail := s[1..];
      assert NonIncreasing(tail, key) by {
        forall i, j | 0 <= i < j < |tail| ensures key(tail[i]) >= key(tail[j]) {
          assert tail[i] == s[i + 1] && tail[j] == s[j + 1];
        }
      }
      if key(s[0]) >= key(x) {
        InsertSorted(x, tail, key);
        var rest := Insert(x, tail, key);
        assert forall m :: 0 <= m < |tail| ==> key(tail[m]) <= key(s[0]) by {
          forall m | 0 <= m < |tail| ensures key(tail[m]) <= key(s[0]) {
            assert tail[m] == s[m + 1];
          }
        }
        InsertBound(x, tail, key, key(s[0]));
        var r := [s[0]] + rest;
        forall i, j | 0 <= i < j < |r| ensures key(r[i]) >= key(r[j]) {
          if i == 0 {
            assert r[j] == rest[j - 1];
          } else {
            assert r[i] == rest[i - 1] && r[j] == rest[j - 1];
          }
        }
      } else {
        var r := [x] + s;
        forall i, j | 0 <= i < j < |r| ensures key(r[i]) >= key(r[j]) {
          if i == 0 {
            assert r[j] == s[j - 1];
            assert key(s[0]) >= key(s[j - 1]);
          } else {
            assert r[i] == s[i - 1] && r[j] == s[j - 1];
          }
        }
      }
    }
  }

  /** Sorting yields a permutation of the input. */
  lemma {:induction false} SortByPerm<T>(s: seq<T>, key: T -> int)
    ensures multiset(SortBy(s, key)) == multiset(s)
    ensures |SortBy(s, key)| == |s|
  {
    if s != [] {
      var p := s[..|s| - 1];
      SortByPerm(p, key);
      InsertPerm(s[|s| - 1], SortBy(p, key), key);
      assert s == p + [s[|s| - 1]];
      assert |SortBy(s, key)| == |multiset(SortBy(s, key))|;
    }
  }

  /** Sorting orders the list by descending key. */
  lemma {:induction false} SortBySorted<T>(s: seq<T>, key: T -> int)
    ensures NonIncreasing(SortBy(s, key), key)
  {
    if s != [] {
      var p := s[..|s| - 1];
      SortBySorted(p, key);
      InsertSorted(s[|s| - 1], SortBy(p, key), key);
    }
  }

  /** Stability: among elements of equal key, the earlier one in `s` comes first. */
  predicate TiesInOrder<T(==)>(r: seq<T>, s: seq<T>, key: T -> int)
  {
    forall i, j :: 0 <= i < j < |r| && key(r[i]) == key(r[j]) ==>
      r[i] in s && r[j] in s && FirstIndex(s, r[i]) < FirstIndex(s, r[j])
  }

  lemma SpliceIndex<T>(t: seq<T>, k: nat, x: T, i: nat)
    requires k <= |t| && i < |t| + 1
    ensures (t[..k] + [x] + t[k..])[i] == if i < k then t[i] else if i == k then x else t[i - 1]
  {
  }

  lemma {:induction false} SortByStable<T>(s: seq<T>, key: T -> int)
    requires Distinct(s)
    ensures TiesInOrder(SortBy(s, key), s, key)
  {
    if s != [] {
      var n := |s|;
      var p := s[..n - 1];
      var x := s[n - 1];
      assert s == p + [x];
      assert Distinct(p) by {
        forall i, j | 0 <= i < j < |p| ensures p[i] != p[j] {
          assert p[i] == s[i] && p[j] == s[j];
        }
      }
      SortByStable(p, key);
      SortByPerm(p, key);
      SortBySorted(p, key);
      var t := SortBy(p, key);
      InsertSplit(x, t, key);
      PrefixFirstIndices(s, p, x, t);
      var k := InsertPos(x, t, key);
      InsertKeepsTies(s, p, t, x, k, key);
    }
  }

  lemma PrefixFirstIndices<T>(s: seq<T>, p: seq<T>, x: T, t: seq<T>)
    requires s == p + [x] && Distinct(s) && multiset(t) == multiset(p)
    ensures x !in p
    ensures forall m :: 0 <= m < |t| ==> t[m] in p && t[m] in s && FirstIndex(s, t[m]) == FirstIndex(p, t[m])
  {
    assert s[..|p|] == p;
    forall m | 0 <= m < |p| ensures p[m] != x {
      assert p[m] == s[m] && s[|p|] == x;
    }
    forall m | 0 <= m < |t| ensures t[m] in p && t[m] in s && FirstIndex(s, t[m]) == FirstIndex(p, t[m]) {
      assert t[m] in multiset(t);
      FirstIndexPrefix(s, |p|, t[m]);
    }
  }

  /** The step of `SortByStable`: inserting the last element keeps ties in order. */
  lemma InsertKeepsTies<T>(s: seq<T>, p: seq<T>, t: seq<T>, x: T, k: nat, key: T -> int)
    requires s == p + [x] && x !in p && k <= |t|
    requires TiesInOrder(t, p, key)
    requires forall m :: 0 <= m < |t| ==> t[m] in p && t[m] in s && FirstIndex(s, t[m]) == FirstIndex(p, t[m])
    requires forall m :: k <= m < |t| ==> key(t[m]) < key(x)
    ensures TiesInOrder(t[..k] + [x] + t[k..], s, key)
  {
    var r := t[..k] + [x] + t[k..];
    assert FirstIndex(s, x) == |p|;
    forall i, j | 0 <= i < j < |r| && key(r[i]) == key(r[j])
      ensures r[i] in s && r[j] in s && FirstIndex(s, r[i]) < FirstIndex(s, r[j])
    {
      SpliceIndex(t, k, x, i);
      SpliceIndex(t, k, x, j);
      if i != k && j == k {
        assert FirstIndex(p, t[i]) < |p|;
      }
    }
  }

  /** Sorting only looks at the keys of the elements being sorted. */
  lemma {:induction false} SortByKeyAgreement<T>(s: seq<T>, key1: T -> int, key2: T -> int)
    requires forall i :: 0 <= i < |s| ==> key1(s[i]) == key2(s[i])
    ensures SortBy(s, key1) == SortBy(s, key2)
  {
    if s != [] {
      var p := s[..|s| - 1];
      SortByKeyAgreement(p, key1, key2);
      SortByPerm(p, key1);
      var t := SortBy(p, key1);
      forall y | y in t ensures key1(y) == key2(y) {
        assert y in multiset(p);
        var i :| 0 <= i < |p| && p[i] == y;
        assert s[i] == y;
      }
      InsertKeyAgreement(s[|s| - 1], t, key1, key2);
    }
  }

  lemma {:induction false} InsertKeyAgreement<T>(x: T, s: seq<T>, key1: T -> int, key2: T -> int)
    requires key1(x) == key2(x)
    requires forall y :: y in s ==> key1(y) == key2(y)
    ensures Insert(x, s, key1) == Insert(x, s, key2)
  {
    if s != [] {
      InsertKeyAgreement(x, s[1..], key1, key2);
    }
  }
}
