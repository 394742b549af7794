/**
  qsort and qsort_r as the callers know them: the result is a permutation, and it is in order
  whenever the comparator is consistent on the elements. Also the uniqueness of sorted sequences.
 */
module Sorting {

  ghost predicate Consistent<T>(s: seq<T>, cmp: (T, T) -> int) {
    && (forall x, y :: x in s && y in s ==> cmp(x, y) <= 0 || cmp(y, x) <= 0)
    && (forall x, y, z :: x in s && y in s && z in s && cmp(x, y) <= 0 && cmp(y, z) <= 0 ==> cmp(x, z) <= 0)
  }

  ghost predicate InOrder<T>(s: seq<T>, cmp: (T, T) -> int) {
    forall i, j :: 0 <= i < j < |s| ==> cmp(s[i], s[j]) <= 0
  }

  ghost predicate SortOf<T>(r: seq<T>, s: seq<T>, cmp: (T, T) -> int) {
    multiset(r) == multiset(s) && (Consistent(s, cmp) ==> InOrder(r, cmp))
  }

  lemma SameMembers<T>(r: seq<T>, s: seq<T>)
    requires multiset(r) == multiset(s)
    ensures |r| == |s|
    ensures forall x :: x in r <==> x in s
  {
    assert |multiset(r)| == |r| && |multiset(s)| == |s|;
    forall x ensures x in r <==> x in s {
      assert x in r <==> x in multiset(r);
    }
  }

  /** Insertion into a sorted sequence. */
  method Insert<T(==)>(r: seq<T>, x: T, cmp: (T, T) -> int, ghost all: seq<T>) returns (t: seq<T>)
    requires x in all && forall y :: y in r ==> y in all
    requires Consistent(all, cmp) ==> InOrder(r, cmp)
    ensures multiset(t) == multiset(r) + multiset{x}
    ensures Consistent(all, cmp) ==> InOrder(t, cmp)
  {
    hide Consistent, InOrder;
    var k := |r|;
    while k > 0 && cmp(r[k - 1], x) > 0
      invariant 0 <= k <= |r|
      invariant forall j :: k <= j < |r| ==> cmp(r[j], x) > 0
    {
      k := k - 1;
    }
    t := r[..k] + [x] + r[k..];
    InsertMembers(r, x, k);
    if Consistent(all, cmp) {
      InsertSides(r, x, k, cmp, all);
      InsertInOrder(r, x, k, cmp);
    }
  }

  lemma InsertMembers<T>(r: seq<T>, x: T, k: nat)
    requires k <= |r|
    ensures multiset(r[..k] + [x] + r[k..]) == multiset(r) + multiset{x}
  {
    assert r == r[..k] + r[k..];
  }

  lemma InsertSides<T>(r: seq<T>, x: T, k: nat, cmp: (T, T) -> int, all: seq<T>)
    requires Consistent(all, cmp) && x in all && (forall y :: y in r ==> y in all) && InOrder(r, cmp)
    requires k <= |r| && (k > 0 ==> cmp(r[k - 1], x) <= 0)
    requires forall j :: k <= j < |r| ==> cmp(r[j], x) > 0
    ensures forall j :: 0 <= j < k ==> cmp(r[j], x) <= 0
    ensures forall j :: k <= j < |r| ==> cmp(x, r[j]) <= 0
  {
    forall j | 0 <= j < k ensures cmp(r[j], x) <= 0 {
      if j < k - 1 {
        assert cmp(r[j], r[k - 1]) <= 0 && r[j] in all && r[k - 1] in all;
      }
    }
    forall j | k <= j < |r| ensures cmp(x, r[j]) <= 0 {
      assert r[j] in all;
    }
  }

  lemma InsertInOrder<T>(r: seq<T>, x: T, k: nat, cmp: (T, T) -> int)
    requires InOrder(r, cmp) && k <= |r|
    requires forall j :: 0 <= j < k ==> cmp(r[j], x) <= 0
    requires forall j :: k <= j < |r| ==> cmp(x, r[j]) <= 0
    ensures InOrder(r[..k] + [x] + r[k..], cmp)
  {
  }

  method QSort<T(==)>(s: seq<T>, cmp: (T, T) -> int) returns (r: seq<T>)
    ensures SortOf(r, s, cmp)
  {
    r := [];
    for i := 0 to |s|
      invariant multiset(r) == multiset(s[..i])
      invariant Consistent(s, cmp) ==> InOrder(r, cmp)
    {
      SameMembers(r, s[..i]);
      r := Insert(r, s[i], cmp, s);
      assert s[..i + 1] == s[..i] + [s[i]];
    }
    assert s[..|s|] == s;
  }

  // ---------- uniqueness ----------

  ghost predicate Strict<T>(s: seq<T>, cmp: (T, T) -> int) {
    forall i, j :: 0 <= i < j < |s| ==> cmp(s[i], s[j]) < 0
  }

  /** A strictly increasing sequence is determined by its members. */
  lemma {:induction false} StrictUnique<T>(a: seq<T>, b: seq<T>, cmp: (T, T) -> int)
    requires Strict(a, cmp) && Strict(b, cmp)
    requires forall x :: x in a <==> x in b
    requires forall x, y :: x in a && y in a && cmp(x, y) < 0 ==> cmp(y, x) >= 0
    ensures a == b
    decreases |a|
  {
    hide Strict;
    EmptyOrNot(a);
    EmptyOrNot(b);
    if a != [] {
      TailStrict(a, cmp);
      TailStrict(b, cmp);
      FirstIsSame(a, b, cmp);
      forall x ensures x in a[1..] <==> x in b[1..] {
        TailMembers(a, cmp, x);
        TailMembers(b, cmp, x);
      }
      StrictUnique(a[1..], b[1..], cmp);
      assert a == [a[0]] + a[1..] && b == [b[0]] + b[1..];
    }
  }

  lemma TailStrict<T>(s: seq<T>, cmp: (T, T) -> int)
    requires s != [] && Strict(s, cmp)
    ensures Strict(s[1..], cmp)
  {
  }

  lemma EmptyOrNot<T>(s: seq<T>)
    ensures s == [] || exists x :: x in s
  {
    if s != [] {
      assert s[0] in s;
    }
  }

  lemma FirstIsSame<T>(a: seq<T>, b: seq<T>, cmp: (T, T) -> int)
    requires a != [] && b != [] && Strict(a, cmp) && Strict(b, cmp)
    requires forall x :: x in a <==> x in b
    requires forall x, y :: x in a && y in a && cmp(x, y) < 0 ==> cmp(y, x) >= 0
    ensures a[0] == b[0]
  {
    assert a[0] in b && b[0] in a;
    var i :| 0 <= i < |a| && a[i] == b[0];
    var j :| 0 <= j < |b| && b[j] == a[0];
  }

  lemma TailMembers<T>(s: seq<T>, cmp: (T, T) -> int, x: T)
    requires s != [] && Strict(s, cmp)
    requires forall x, y :: x in s && y in s && cmp(x, y) < 0 ==> cmp(y, x) >= 0
    ensures x in s[1..] <==> x in s && x != s[0]
  {
    if x in s && x != s[0] {
      var i :| 0 <= i < |s| && s[i] == x;
      assert s[1..][i - 1] == x;
    }
    if x in s[1..] {
      var i :| 0 <= i < |s| - 1 && s[1..][i] == x;
      assert cmp(s[0], s[i + 1]) < 0;
    }
  }

  // ---------- distinct keys survive a permutation ----------

  ghost predicate DistinctBy<T, K>(s: seq<T>, key: T -> K) {
    forall i, j :: 0 <= i < j < |s| ==> key(s[i]) != key(s[j])
  }

  lemma CountTwice<T>(s: seq<T>, i: nat, j: nat)
    requires i < j < |s| && s[i] == s[j]
    ensures multiset(s)[s[i]] >= 2
  {
    assert s == s[..j] + s[j..];
    assert s[..j][i] == s[i] && s[j..][0] == s[j];
    assert s[i] in multiset(s[..j]) && s[i] in multiset(s[j..]);
  }

  lemma CountOnce<T, K>(s: seq<T>, key: T -> K, x: T)
    requires DistinctBy(s, key)
    ensures multiset(s)[x] <= 1
  {
    if x in s {
      var i :| 0 <= i < |s| && s[i] == x;
      assert s == s[..i] + [x] + s[i + 1..];
      assert x !in s[..i] && x !in s[i + 1..];
      assert multiset(s) == multiset(s[..i]) + multiset{x} + multiset(s[i + 1..]);
    } else {
      assert x !in multiset(s);
    }
  }

  lemma DistinctPermuted<T, K>(r: seq<T>, s: seq<T>, key: T -> K)
    requires multiset(r) == multiset(s) && DistinctBy(s, key)
    ensures DistinctBy(r, key)
  {
    SameMembers(r, s);
    forall i, j | 0 <= i < j < |r| ensures key(r[i]) != key(r[j]) {
      if key(r[i]) == key(r[j]) {
        assert r[i] in s && r[j] in s;
        assert r[i] == r[j];
        CountTwice(r, i, j);
        CountOnce(s, key, r[i]);
        assert false;
      }
    }
  }

  /** A sorted permutation is strictly sorted when no two elements compare equal. */
  lemma SortedStrict<T>(r: seq<T>, cmp: (T, T) -> int)
    requires InOrder(r, cmp)
    requires forall i, j :: 0 <= i < j < |r| ==> cmp(r[i], r[j]) != 0
    ensures Strict(r, cmp)
  {
  }

  // ---------- sorted sequences of values are unique ----------

  lemma RemoveFirst<T>(s: seq<T>)
    requires s != []
    ensures multiset(s[1..]) == multiset(s) - multiset{s[0]}
  {
    assert s == [s[0]] + s[1..];
  }

  /** Only equal elements compare equal. */
  ghost predicate Antisymmetric<T>(s: seq<T>, cmp: (T, T) -> int) {
    forall x, y :: x in s && y in s && cmp(x, y) <= 0 && cmp(y, x) <= 0 ==> x == y
  }

  lemma SameFirst<T>(a: seq<T>, b: seq<T>, cmp: (T, T) -> int)
    requires multiset(a) == multiset(b) && InOrder(a, cmp) && InOrder(b, cmp) && a != [] && b != []
    requires Antisymmetric(a, cmp)
    ensures a[0] == b[0]
  {
    SameMembers(a, b);
    assert a[0] in b && b[0] in a;
    var i :| 0 <= i < |a| && a[i] == b[0];
    var j :| 0 <= j < |b| && b[j] == a[0];
  }

  lemma TailInOrder<T>(s: seq<T>, cmp: (T, T) -> int)
    requires s != [] && InOrder(s, cmp)
    ensures InOrder(s[1..], cmp)
  {
  }

  lemma TailAntisymmetric<T>(s: seq<T>, cmp: (T, T) -> int)
    requires s != [] && Antisymmetric(s, cmp)
    ensures Antisymmetric(s[1..], cmp)
  {
    assert forall x :: x in s[1..] ==> x in s;
  }

  /** Two sorted permutations are equal when only equal elements compare equal. */
  lemma {:induction false} InOrderUnique<T>(a: seq<T>, b: seq<T>, cmp: (T, T) -> int)
    requires multiset(a) == multiset(b) && InOrder(a, cmp) && InOrder(b, cmp)
    requires Antisymmetric(a, cmp)
    ensures a == b
    decreases |a|
  {
    hide InOrder, Antisymmetric;
    SameLength(a, b);
    if a != [] {
      SameFirst(a, b, cmp);
      TailsPermuted(a, b);
      TailInOrder(a, cmp);
      TailInOrder(b, cmp);
      TailAntisymmetric(a, cmp);
      InOrderUnique(a[1..], b[1..], cmp);
      HeadAndTail(a, b);
    }
  }

  lemma TailsPermuted<T>(a: seq<T>, b: seq<T>)
    requires multiset(a) == multiset(b) && a != [] && b != [] && a[0] == b[0]
    ensures multiset(a[1..]) == multiset(b[1..])
  {
    RemoveFirst(a);
    RemoveFirst(b);
  }

  lemma HeadAndTail<T>(a: seq<T>, b: seq<T>)
    requires a != [] && b != [] && a[0] == b[0] && a[1..] == b[1..]
    ensures a == b
  {
    assert a == [a[0]] + a[1..] && b == [b[0]] + b[1..];
  }

  lemma SameLength<T>(a: seq<T>, b: seq<T>)
    requires multiset(a) == multiset(b)
    ensures |a| == |b|
  {
    SameMembers(a, b);
  }

  function Mapped<T, K>(s: seq<T>, f: T -> K): (r: seq<K>)
    ensures |r| == |s|
  {
    if s == [] then [] else [f(s[0])] + Mapped(s[1..], f)
  }

  lemma {:induction false} MappedAt<T, K>(s: seq<T>, f: T -> K, i: nat)
    requires i < |s|
    ensures Mapped(s, f)[i] == f(s[i])
    decreases i
  {
    if i > 0 {
      MappedAt(s[1..], f, i - 1);
    }
  }

  lemma {:induction false} MappedAppend<T, K>(s: seq<T>, t: seq<T>, f: T -> K)
    ensures Mapped(s + t, f) == Mapped(s, f) + Mapped(t, f)
    decreases |s|
  {
    if s == [] {
      assert s + t == t;
    } else {
      assert (s + t)[1..] == s[1..] + t;
      MappedAppend(s[1..], t, f);
    }
  }

  lemma TakeOut<T>(s: seq<T>, x: T, t: seq<T>)
    ensures multiset(s + [x] + t) == multiset(s + t) + multiset{x}
  {
    calc {
      multiset(s + [x] + t);
      multiset(s) + multiset([x]) + multiset(t);
      multiset(s + t) + multiset{x};
    }
  }

  lemma MappedAround<T, K>(s: seq<T>, x: T, t: seq<T>, f: T -> K)
    ensures multiset(Mapped(s + [x] + t, f)) == multiset(Mapped(s + t, f)) + multiset{f(x)}
  {
    MappedAppend(s + [x], t, f);
    MappedAppend(s, [x], f);
    MappedAppend(s, t, f);
    assert Mapped([x], f) == [f(x)];
    TakeOut(Mapped(s, f), f(x), Mapped(t, f));
  }

  lemma SplitOut<T>(a: seq<T>, b: seq<T>) returns (u: seq<T>, v: seq<T>)
    requires multiset(a) == multiset(b) && a != []
    ensures b == u + [a[0]] + v && multiset(a[1..]) == multiset(u + v)
  {
    SameMembers(a, b);
    assert a[0] in b;
    var j :| 0 <= j < |b| && b[j] == a[0];
    u, v := b[..j], b[j + 1..];
    SplitAt(b, j);
    TakeOut(u, a[0], v);
    RemoveFirst(a);
    CancelOne(multiset(a[1..]), multiset(u + v), a[0]);
  }

  lemma SplitAt<T>(b: seq<T>, j: nat)
    requires j < |b|
    ensures b == b[..j] + [b[j]] + b[j + 1..]
  {
  }

  lemma CancelOne<T>(a: multiset<T>, b: multiset<T>, x: T)
    requires a + multiset{x} == b + multiset{x}
    ensures a == b
  {
    assert a == (a + multiset{x}) - multiset{x};
    assert b == (b + multiset{x}) - multiset{x};
  }

  /** Mapping permuted sequences gives permuted sequences. */
  lemma {:induction false} MappedPermuted<T, K>(a: seq<T>, b: seq<T>, f: T -> K)
    requires multiset(a) == multiset(b)
    ensures multiset(Mapped(a, f)) == multiset(Mapped(b, f))
    decreases |a|
  {
    SameLength(a, b);
    if a == [] {
      assert b == [];
    } else {
      hide Mapped;
      var u, v := SplitOut(a, b);
      MappedPermuted(a[1..], u + v, f);
      MappedAround(u, a[0], v, f);
      MappedAround([], a[0], a[1..], f);
      assert a == [] + [a[0]] + a[1..] && [] + a[1..] == a[1..];
    }
  }
}
