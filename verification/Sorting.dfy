/** The stable sort that display and traversal lists are put through, and the order on names. */
module Sorting {
  import opened Graphs

  // ----- names -----

  /** Lexicographic order. */
  predicate Leq(a: string, b: string) {
    a == [] || (b != [] && (a[0] < b[0] || (a[0] == b[0] && Leq(a[1..], b[1..]))))
  }

  lemma {:induction false} LeqTotal(a: string, b: string)
    ensures Leq(a, b) || Leq(b, a)
  {
    if a != [] && b != [] && a[0] == b[0] {
      LeqTotal(a[1..], b[1..]);
    }
  }

  lemma {:induction false} LeqTransitive(a: string, b: string, c: string)
    requires Leq(a, b) && Leq(b, c)
    ensures Leq(a, c)
  {
    if a != [] && a[0] == b[0] == c[0] {
      LeqTransitive(a[1..], b[1..], c[1..]);
    }
  }

  lemma {:induction false} LeqAntisymmetric(a: string, b: string)
    requires Leq(a, b) && Leq(b, a)
    ensures a == b
  {
    if a != [] && b != [] {
      LeqAntisymmetric(a[1..], b[1..]);
      assert a == [a[0]] + a[1..] && b == [b[0]] + b[1..];
    }
  }

  /** `a` is a beginning of `b`, or smaller at the first place where they differ. */
  lemma {:induction false} LeqMeans(a: string, b: string)
    ensures Leq(a, b) <==> a <= b || exists k :: Smaller(a, b, k)
  {
    if a != [] && b != [] && a[0] == b[0] {
      LeqMeans(a[1..], b[1..]);
      assert a == [a[0]] + a[1..] && b == [b[0]] + b[1..];
      if k :| Smaller(a[1..], b[1..], k) {
        SmallerBehind(a, b, k);
      }
      if k :| Smaller(a, b, k) {
        SmallerBehind(a, b, k - 1);
      }
    } else if a != [] && b != [] && a[0] < b[0] {
      assert Smaller(a, b, 0);
    }
  }

  lemma SmallerBehind(a: string, b: string, k: int)
    requires a != [] && b != [] && a[0] == b[0]
    ensures Smaller(a, b, k + 1) <==> Smaller(a[1..], b[1..], k) || (k == -1 && Smaller(a, b, 0))
  {
    if 0 <= k < |a| - 1 && k < |b| - 1 {
      assert a[..k + 1] == [a[0]] + a[1..][..k] && b[..k + 1] == [b[0]] + b[1..][..k];
    }
  }

  predicate Smaller(a: string, b: string, k: int) {
    0 <= k < |a| && k < |b| && a[..k] == b[..k] && a[k] < b[k]
  }

  // ----- sorting -----

  ghost predicate TotalPreorder<T(!new)>(leq: (T, T) -> bool) {
    && (forall x, y :: leq(x, y) || leq(y, x))
    && forall x, y, z :: leq(x, y) && leq(y, z) ==> leq(x, z)
  }

  ghost predicate SortedBy<T>(leq: (T, T) -> bool, s: seq<T>) {
    forall i, j :: 0 <= i < j < |s| ==> leq(s[i], s[j])
  }

  function Insert<T>(leq: (T, T) -> bool, x: T, s: seq<T>): seq<T> {
    if s == [] || leq(x, s[0]) then [x] + s else [s[0]] + Insert(leq, x, s[1..])
  }

  /** Stable: an element stays ahead of later ones that compare equal. */
  function Sort<T>(leq: (T, T) -> bool, s: seq<T>): seq<T> {
    if s == [] then [] else Insert(leq, s[0], Sort(leq, s[1..]))
  }

  lemma {:induction false} InsertSorts<T(!new)>(leq: (T, T) -> bool, x: T, s: seq<T>)
    requires TotalPreorder(leq) && SortedBy(leq, s)
    ensures SortedBy(leq, Insert(leq, x, s))
    ensures multiset(Insert(leq, x, s)) == multiset(s) + multiset{x}
  {
    var r := Insert(leq, x, s);
    if s != [] && !leq(x, s[0]) {
      InsertSorts(leq, x, s[1..]);
      assert s == [s[0]] + s[1..];
      forall j | 0 < j < |r| ensures leq(s[0], r[j]) {
        assert r[j] in multiset(s[1..]) + multiset{x};
      }
    }
  }

  lemma {:induction false} SortSorts<T(!new)>(leq: (T, T) -> bool, s: seq<T>)
    requires TotalPreorder(leq)
    ensures SortedBy(leq, Sort(leq, s))
    ensures multiset(Sort(leq, s)) == multiset(s)
  {
    if s != [] {
      SortSorts(leq, s[1..]);
      InsertSorts(leq, s[0], Sort(leq, s[1..]));
      assert s == [s[0]] + s[1..];
    }
  }

  lemma {:induction false} NoDuplicatesByMultiset<T(!new)>(s: seq<T>)
    ensures NoDuplicates(s) <==> forall x :: multiset(s)[x] <= 1
  {
    if s != [] {
      var t := s[..|s| - 1];
      var z := s[|s| - 1];
      assert s == t + [z];
      NoDuplicatesByMultiset(t);
      if NoDuplicates(s) {
        assert z !in t;
        assert NoDuplicates(t);
      } else if NoDuplicates(t) {
        assert z in t;
        assert multiset(s)[z] > 1;
      } else {
        var x :| multiset(t)[x] > 1;
        assert multiset(s)[x] > 1;
      }
    }
  }

  /** Sorting keeps exactly the elements, each as often. */
  lemma SortKeepsElements<T(!new)>(leq: (T, T) -> bool, s: seq<T>)
    requires TotalPreorder(leq)
    ensures forall x :: x in Sort(leq, s) <==> x in s
    ensures NoDuplicates(s) ==> NoDuplicates(Sort(leq, s))
    ensures SortedBy(leq, Sort(leq, s))
  {
    var r := Sort(leq, s);
    SortSorts(leq, s);
    NoDuplicatesByMultiset(s);
    NoDuplicatesByMultiset(r);
    forall x ensures x in r <==> x in s {
      assert x in multiset(r) <==> x in multiset(s);
    }
  }

  // ----- comparisons by several keys -----

  /** Compares by a key. */
  function By<T, K>(key: T -> K, leq: (K, K) -> bool): (T, T) -> bool {
    (x: T, y: T) => leq(key(x), key(y))
  }

  /** `a` decides, and `b` where `a` finds no difference. */
  function Then<T>(a: (T, T) -> bool, b: (T, T) -> bool): (T, T) -> bool {
    (x: T, y: T) => a(x, y) && (a(y, x) ==> b(x, y))
  }

  /** What compares alike does so by both keys. */
  lemma AlikeByBoth<T>(a: (T, T) -> bool, b: (T, T) -> bool, x: T, y: T)
    requires Then(a, b)(x, y) && Then(a, b)(y, x)
    ensures a(x, y) && a(y, x) && b(x, y) && b(y, x)
  {
  }

  lemma ByIsTotal<T(!new), K(!new)>(key: T -> K, leq: (K, K) -> bool)
    requires TotalPreorder(leq)
    ensures TotalPreorder(By(key, leq))
  {
  }

  lemma ThenIsTotal<T(!new)>(a: (T, T) -> bool, b: (T, T) -> bool)
    requires TotalPreorder(a) && TotalPreorder(b)
    ensures TotalPreorder(Then(a, b))
  {
  }

  /** Only equal elements compare alike. */
  ghost predicate Antisymmetric<T(!new)>(leq: (T, T) -> bool) {
    forall x, y :: leq(x, y) && leq(y, x) ==> x == y
  }

  lemma FirstIsLeast<T(!new)>(leq: (T, T) -> bool, s: seq<T>, x: T)
    requires TotalPreorder(leq) && SortedBy(leq, s) && x in multiset(s)
    ensures leq(s[0], x)
  {
    var i :| 0 <= i < |s| && s[i] == x;
    assert leq(x, x);
  }

  lemma WithoutFirst<T(!new)>(leq: (T, T) -> bool, s: seq<T>)
    requires SortedBy(leq, s) && s != []
    ensures SortedBy(leq, s[1..]) && multiset(s[1..]) == multiset(s) - multiset{s[0]} && s[0] in multiset(s)
  {
    assert s == [s[0]] + s[1..];
  }

  /** Then sorting leaves no choice. */
  lemma {:induction false} SortedUnique<T(!new)>(leq: (T, T) -> bool, a: seq<T>, b: seq<T>)
    requires TotalPreorder(leq) && Antisymmetric(leq)
    requires SortedBy(leq, a) && SortedBy(leq, b) && multiset(a) == multiset(b)
    ensures a == b
    decreases |a|
  {
    hide TotalPreorder, SortedBy;
    assert |a| == |multiset(a)| == |multiset(b)| == |b|;
    if a != [] {
      WithoutFirst(leq, a);
      WithoutFirst(leq, b);
      FirstIsLeast(leq, a, b[0]);
      FirstIsLeast(leq, b, a[0]);
      assert a[0] == b[0];
      SortedUnique(leq, a[1..], b[1..]);
      assert a == [a[0]] + a[1..] && b == [b[0]] + b[1..];
    }
  }

  lemma LeqIsTotal()
    ensures TotalPreorder(Leq) && Antisymmetric(Leq)
  {
    forall a: string, b: string ensures Leq(a, b) || Leq(b, a) {
      LeqTotal(a, b);
    }
    forall a: string, b: string, c: string | Leq(a, b) && Leq(b, c) ensures Leq(a, c) {
      LeqTransitive(a, b, c);
    }
    forall a: string, b: string | Leq(a, b) && Leq(b, a) ensures a == b {
      LeqAntisymmetric(a, b);
    }
  }
}
