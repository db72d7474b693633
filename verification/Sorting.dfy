/** Stable sorting by a key, and the lexicographic order on which Python compares keys. */
module Sorting {

  ghost predicate StrictTotal<K(!new)>(less: (K, K) -> bool) {
    && (forall a :: !less(a, a))
    && (forall a, b, c :: less(a, b) && less(b, c) ==> less(a, c))
    && (forall a, b :: a != b ==> less(a, b) || less(b, a))
  }

  function Insert<T, K>(x: T, s: seq<T>, key: T -> K, less: (K, K) -> bool): seq<T> {
    if s == [] || !less(key(s[0]), key(x)) then [x] + s
    else [s[0]] + Insert(x, s[1..], key, less)
  }

  /** The result of a stable sort. */
  function SortBy<T, K>(s: seq<T>, key: T -> K, less: (K, K) -> bool): seq<T> {
    if s == [] then [] else Insert(s[0], SortBy(s[1..], key, less), key, less)
  }

  ghost predicate Sorted<T, K>(s: seq<T>, key: T -> K, less: (K, K) -> bool) {
    forall i, j :: 0 <= i < j < |s| ==> !less(key(s[j]), key(s[i]))
  }

  ghost predicate Ascending<T, K>(s: seq<T>, key: T -> K, less: (K, K) -> bool) {
    forall i, j :: 0 <= i < j < |s| ==> less(key(s[i]), key(s[j]))
  }

  ghost predicate DistinctKeys<T, K>(s: seq<T>, key: T -> K) {
    forall i, j :: 0 <= i < j < |s| ==> key(s[i]) != key(s[j])
  }

  lemma {:induction false} InsertPermutes<T, K>(x: T, s: seq<T>, key: T -> K, less: (K, K) -> bool)
    ensures multiset(Insert(x, s, key, less)) == multiset{x} + multiset(s)
  {
    if s != [] && less(key(s[0]), key(x)) {
      InsertPermutes(x, s[1..], key, less);
      assert s == [s[0]] + s[1..];
    }
  }

  lemma {:induction false} SortPermutes<T, K>(s: seq<T>, key: T -> K, less: (K, K) -> bool)
    ensures multiset(SortBy(s, key, less)) == multiset(s)
    ensures |SortBy(s, key, less)| == |s|
    ensures forall x :: x in SortBy(s, key, less) <==> x in s
  {
    if s != [] {
      SortPermutes(s[1..], key, less);
      InsertPermutes(s[0], SortBy(s[1..], key, less), key, less);
      assert s == [s[0]] + s[1..];
    }
    assert |multiset(SortBy(s, key, less))| == |multiset(s)|;
    assert forall x :: x in SortBy(s, key, less) <==> x in multiset(SortBy(s, key, less));
  }

  lemma {:induction false} InsertSorts<T, K(!new)>(x: T, s: seq<T>, key: T -> K, less: (K, K) -> bool)
    requires StrictTotal(less) && Sorted(s, key, less)
    ensures Sorted(Insert(x, s, key, less), key, less)
  {
    if s != [] && less(key(s[0]), key(x)) {
      InsertSorts(x, s[1..], key, less);
      var rest := Insert(x, s[1..], key, less);
      InsertPermutes(x, s[1..], key, less);
      forall j | 0 <= j < |rest| ensures !less(key(rest[j]), key(s[0])) {
        assert rest[j] in multiset(rest);
        assert rest[j] == x || rest[j] in s[1..];
      }
    }
  }

  lemma {:induction false} SortSorts<T, K(!new)>(s: seq<T>, key: T -> K, less: (K, K) -> bool)
    requires StrictTotal(less)
    ensures Sorted(SortBy(s, key, less), key, less)
  {
    if s != [] {
      SortSorts(s[1..], key, less);
      InsertSorts(s[0], SortBy(s[1..], key, less), key, less);
    }
  }

  lemma {:induction false} SortedIsFixed<T, K>(s: seq<T>, key: T -> K, less: (K, K) -> bool)
    requires Sorted(s, key, less)
    ensures SortBy(s, key, less) == s
  {
    if s != [] {
      SortedIsFixed(s[1..], key, less);
      assert s == [s[0]] + s[1..];
    }
  }

  lemma SortedFirst<T, K(!new)>(a: seq<T>, b: seq<T>, key: T -> K, less: (K, K) -> bool)
    requires StrictTotal(less)
    requires Ascending(a, key, less) && Sorted(b, key, less) && multiset(a) == multiset(b)
    requires a != [] && b != []
    ensures a[0] == b[0]
  {
    assert a[0] in multiset(a) && b[0] in multiset(b);
    var i :| 0 <= i < |b| && b[i] == a[0];
    var j :| 0 <= j < |a| && a[j] == b[0];
    assert i > 0 ==> !less(key(b[i]), key(b[0]));
    assert j > 0 ==> less(key(a[0]), key(a[j]));
  }

  lemma TailMultiset<T>(s: seq<T>)
    requires s != []
    ensures multiset(s[1..]) == multiset(s) - multiset{s[0]}
  {
    assert s == [s[0]] + s[1..];
  }

  lemma TailAscends<T, K>(s: seq<T>, key: T -> K, less: (K, K) -> bool)
    requires s != [] && Ascending(s, key, less)
    ensures Ascending(s[1..], key, less)
  {
  }

  lemma TailSorted<T, K>(s: seq<T>, key: T -> K, less: (K, K) -> bool)
    requires s != [] && Sorted(s, key, less)
    ensures Sorted(s[1..], key, less)
  {
  }

  lemma SameSize<T>(a: seq<T>, b: seq<T>)
    requires multiset(a) == multiset(b)
    ensures |a| == |b|
  {
    assert |multiset(a)| == |multiset(b)|;
  }

  /** Two sorted arrangements of the same elements agree when no two elements share a key. */
  lemma {:induction false} SortedUnique<T, K(!new)>(a: seq<T>, b: seq<T>, key: T -> K, less: (K, K) -> bool)
    requires StrictTotal(less)
    requires Ascending(a, key, less) && Sorted(b, key, less) && multiset(a) == multiset(b)
    ensures a == b
    decreases |a|
  {
    hide StrictTotal, Ascending, Sorted;
    SameSize(a, b);
    if a != [] {
      SortedFirst(a, b, key, less);
      TailMultiset(a);
      TailMultiset(b);
      TailAscends(a, key, less);
      TailSorted(b, key, less);
      SortedUnique(a[1..], b[1..], key, less);
      assert a == [a[0]] + a[1..] && b == [b[0]] + b[1..];
    }
  }

  lemma {:induction false} InsertAscends<T, K(!new)>(x: T, s: seq<T>, key: T -> K, less: (K, K) -> bool)
    requires StrictTotal(less) && Ascending(s, key, less)
    requires forall y :: y in s ==> key(y) != key(x)
    ensures Ascending(Insert(x, s, key, less), key, less)
  {
    if s != [] {
      assert s[0] in s;
      if less(key(s[0]), key(x)) {
        var rest := Insert(x, s[1..], key, less);
        InsertAscends(x, s[1..], key, less);
        InsertPermutes(x, s[1..], key, less);
        forall j | 0 <= j < |rest| ensures less(key(s[0]), key(rest[j])) {
          assert rest[j] in multiset(rest);
          assert rest[j] == x || rest[j] in s[1..];
        }
      } else {
        assert less(key(x), key(s[0]));
      }
    }
  }

  /** Distinct keys sort into strictly ascending order. */
  lemma {:induction false} SortAscends<T, K(!new)>(s: seq<T>, key: T -> K, less: (K, K) -> bool)
    requires StrictTotal(less) && DistinctKeys(s, key)
    ensures Ascending(SortBy(s, key, less), key, less)
  {
    if s != [] {
      SortAscends(s[1..], key, less);
      SortPermutes(s[1..], key, less);
      var rest := SortBy(s[1..], key, less);
      forall y | y in rest ensures key(y) != key(s[0]) {
        assert y in multiset(rest);
        assert y in multiset(s[1..]);
      }
      InsertAscends(s[0], SortBy(s[1..], key, less), key, less);
    }
  }

  /** Sorting does not depend on the input order when the keys are distinct. */
  lemma SortIgnoresOrder<T, K(!new)>(s: seq<T>, t: seq<T>, key: T -> K, less: (K, K) -> bool)
    requires StrictTotal(less) && multiset(s) == multiset(t) && DistinctKeys(s, key)
    ensures SortBy(s, key, less) == SortBy(t, key, less)
  {
    SortPermutes(s, key, less);
    SortPermutes(t, key, less);
    SortAscends(s, key, less);
    SortSorts(t, key, less);
    SortedUnique(SortBy(s, key, less), SortBy(t, key, less), key, less);
  }

  // -------------------------------------------------------- lexicographic order

  predicate LexLess(a: seq<int>, b: seq<int>) {
    b != [] && (a == [] || a[0] < b[0] || (a[0] == b[0] && LexLess(a[1..], b[1..])))
  }

  lemma {:induction false} LexIrreflexive(a: seq<int>)
    ensures !LexLess(a, a)
  {
    if a != [] {
      LexIrreflexive(a[1..]);
    }
  }

  lemma {:induction false} LexTransitive(a: seq<int>, b: seq<int>, c: seq<int>)
    requires LexLess(a, b) && LexLess(b, c)
    ensures LexLess(a, c)
  {
    if a != [] && a[0] == b[0] && b[0] == c[0] {
      LexTransitive(a[1..], b[1..], c[1..]);
    }
  }

  lemma {:induction false} LexConnected(a: seq<int>, b: seq<int>)
    requires a != b
    ensures LexLess(a, b) || LexLess(b, a)
  {
    if a != [] && b != [] && a[0] == b[0] {
      assert a == [a[0]] + a[1..] && b == [b[0]] + b[1..];
      LexConnected(a[1..], b[1..]);
    }
  }

  lemma LexIsStrictTotal()
    ensures StrictTotal(LexLess)
  {
    forall a ensures !LexLess(a, a) {
      LexIrreflexive(a);
    }
    forall a, b, c | LexLess(a, b) && LexLess(b, c) ensures LexLess(a, c) {
      LexTransitive(a, b, c);
    }
    forall a, b | a != b ensures LexLess(a, b) || LexLess(b, a) {
      LexConnected(a, b);
    }
  }

  /** At the first place where they differ, or by being a proper prefix. */
  predicate SmallerAt(a: seq<int>, b: seq<int>, k: nat) {
    k <= |a| && k < |b| && a[..k] == b[..k] && (k == |a| || a[k] < b[k])
  }

  /** What the lexicographic order means. */
  lemma {:induction false} LexMeans(a: seq<int>, b: seq<int>)
    ensures LexLess(a, b) <==> exists k :: SmallerAt(a, b, k)
  {
    if b == [] {
      assert forall k: nat :: !SmallerAt(a, b, k);
    } else if a == [] {
      assert SmallerAt(a, b, 0);
    } else {
      LexMeans(a[1..], b[1..]);
      if a[0] < b[0] {
        assert SmallerAt(a, b, 0);
      }
      if k: nat :| SmallerAt(a[1..], b[1..], k) && a[0] == b[0] {
        SmallerLonger(a, b, k);
      }
      if k: nat :| SmallerAt(a, b, k) {
        SmallerTail(a, b, k);
      }
    }
  }

  lemma SmallerLonger(a: seq<int>, b: seq<int>, k: nat)
    requires a != [] && b != [] && a[0] == b[0] && SmallerAt(a[1..], b[1..], k)
    ensures SmallerAt(a, b, k + 1)
  {
    assert a[..k + 1] == [a[0]] + a[1..][..k] && b[..k + 1] == [b[0]] + b[1..][..k];
    if k < |a| - 1 {
      assert a[1..][k] == a[k + 1] && b[1..][k] == b[k + 1];
    }
  }

  lemma SmallerTail(a: seq<int>, b: seq<int>, k: nat)
    requires a != [] && b != [] && SmallerAt(a, b, k)
    ensures a[0] < b[0] || (a[0] == b[0] && k > 0 && SmallerAt(a[1..], b[1..], k - 1))
  {
    if k > 0 {
      assert a[..k][0] == b[..k][0];
      assert a[1..][..k - 1] == a[..k][1..] && b[1..][..k - 1] == b[..k][1..];
    }
  }
}
