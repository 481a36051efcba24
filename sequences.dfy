/**
 * The java.util list and stream operations the registry uses, stated on
 * sequences: ArrayList.remove (first occurrence), Stream.filter, and
 * Stream.sorted, which is a stable sort by a comparator, and Map.putIfAbsent.
 * A comparator is modelled by its "compare(a, b) <= 0" relation.
 */
module Sequences {

  ghost predicate Total<T(!new)>(le: (T, T) -> bool) {
    forall a, b :: le(a, b) || le(b, a)
  }

  ghost predicate Transitive<T(!new)>(le: (T, T) -> bool) {
    forall a, b, c :: le(a, b) && le(b, c) ==> le(a, c)
  }

  /** What a Comparator must be for sorting to be meaningful. */
  ghost predicate TotalPreorder<T(!new)>(le: (T, T) -> bool) {
    Total(le) && Transitive(le)
  }

  ghost predicate Antisymmetric<T(!new)>(le: (T, T) -> bool) {
    forall a, b :: le(a, b) && le(b, a) ==> a == b
  }

  predicate SortedBy<T>(s: seq<T>, le: (T, T) -> bool) {
    forall i, j :: 0 <= i < j < |s| ==> le(s[i], s[j])
  }

  /** Ordered by le, and elements that le cannot tell apart are ordered by tie. */
  predicate SortedWithTies<T>(s: seq<T>, le: (T, T) -> bool, tie: (T, T) -> bool) {
    forall i, j :: 0 <= i < j < |s| ==> le(s[i], s[j]) && (le(s[j], s[i]) ==> tie(s[i], s[j]))
  }

  /** ArrayList.remove(Object): drops the first element equal to x, if any. */
  function RemoveFirst<T(==)>(s: seq<T>, x: T): (r: seq<T>)
    ensures x !in s ==> r == s
    ensures x in s ==> |r| == |s| - 1
  {
    if s == [] then []
    else if s[0] == x then s[1..] else [s[0]] + RemoveFirst(s[1..], x)
  }

  /** Removing the first occurrence takes exactly one x out of the multiset, or nothing when there is none. */
  lemma {:induction false} RemoveFirstCount<T>(s: seq<T>, x: T)
    ensures multiset(RemoveFirst(s, x)) == multiset(s) - multiset{x}
  {
    if s != [] {
      assert s == [s[0]] + s[1..];
      if s[0] != x {
        RemoveFirstCount(s[1..], x);
      }
    }
  }

  /** The elements before the first x stay in place; x is cut out; the rest shifts left by one. */
  lemma {:induction false} RemoveFirstShape<T>(s: seq<T>, x: T, i: nat)
    requires i < |s| && s[i] == x && x !in s[..i]
    ensures RemoveFirst(s, x) == s[..i] + s[i + 1..]
  {
    if i > 0 {
      assert s[1..][..i - 1] == s[1..i];
      assert x !in s[1..][..i - 1];
      RemoveFirstShape(s[1..], x, i - 1);
      assert s[..i] == [s[0]] + s[1..i];
    }
  }

  /** Stream.filter. */
  function Filter<T>(s: seq<T>, p: T -> bool): seq<T> {
    if s == [] then []
    else if p(s[0]) then [s[0]] + Filter(s[1..], p)
    else Filter(s[1..], p)
  }

  /** Filtering keeps exactly the elements that satisfy p, and is empty exactly when none does. */
  lemma {:induction false} FilterMembers<T>(s: seq<T>, p: T -> bool)
    ensures |Filter(s, p)| <= |s|
    ensures forall i :: 0 <= i < |Filter(s, p)| ==> Filter(s, p)[i] in s && p(Filter(s, p)[i])
    ensures forall i :: 0 <= i < |s| && p(s[i]) ==> s[i] in Filter(s, p)
    ensures Filter(s, p) == [] <==> forall i :: 0 <= i < |s| ==> !p(s[i])
  {
    if s != [] {
      var t := s[1..];
      FilterMembers(t, p);
      assert s == [s[0]] + t;
      assert forall i :: 1 <= i < |s| ==> s[i] == t[i - 1];
    }
  }

  /** Filtering keeps every element that satisfies p as often as it occurs, and nothing else. */
  lemma {:induction false} FilterMultiset<T>(s: seq<T>, p: T -> bool)
    ensures forall x :: multiset(Filter(s, p))[x] == if p(x) then multiset(s)[x] else 0
  {
    if s != [] {
      var t := s[1..];
      FilterMultiset(t, p);
      assert s == [s[0]] + t;
      assert multiset(s) == multiset{s[0]} + multiset(t);
      if p(s[0]) {
        assert multiset(Filter(s, p)) == multiset{s[0]} + multiset(Filter(t, p));
      } else {
        assert Filter(s, p) == Filter(t, p);
      }
    }
  }

  /** Filtering a concatenation filters each part in turn: the kept elements stay in input order. */
  lemma {:induction false} FilterConcat<T>(a: seq<T>, b: seq<T>, p: T -> bool)
    ensures Filter(a + b, p) == Filter(a, p) + Filter(b, p)
  {
    if a == [] {
      assert a + b == b;
    } else {
      var h, t := a[0], a[1..];
      assert a == [h] + t && a + b == [h] + (t + b);
      FilterCons(h, t, p);
      FilterCons(h, t + b, p);
      var rest := Filter(t + b, p);
      calc {
        rest;
        { FilterConcat(t, b, p); }
        Filter(t, p) + Filter(b, p);
      }
      if p(h) {
        assert [h] + (Filter(t, p) + Filter(b, p)) == ([h] + Filter(t, p)) + Filter(b, p);
      }
    }
  }

  lemma FilterCons<T>(h: T, t: seq<T>, p: T -> bool)
    ensures Filter([h] + t, p) == if p(h) then [h] + Filter(t, p) else Filter(t, p)
  {
    assert ([h] + t)[0] == h && ([h] + t)[1..] == t;
  }

  /** Filtering a single element keeps it exactly when it satisfies p. */
  lemma FilterSingle<T>(x: T, p: T -> bool)
    ensures Filter([x], p) == if p(x) then [x] else []
  {
    assert [x][1..] == [];
  }

  /** Filtering keeps the relative order of what it keeps. */
  lemma {:induction false} FilterKeepsOrder<T>(s: seq<T>, p: T -> bool, lt: (T, T) -> bool)
    requires SortedBy(s, lt)
    ensures SortedBy(Filter(s, p), lt)
  {
    if s != [] {
      var tail := s[1..];
      assert SortedBy(tail, lt);
      FilterKeepsOrder(tail, p, lt);
      FilterMembers(tail, p);
      if p(s[0]) {
        var t := Filter(tail, p);
        var r := [s[0]] + t;
        forall i, j | 0 <= i < j < |r|
          ensures lt(r[i], r[j])
        {
          if i == 0 {
            assert r[j] == t[j - 1] && t[j - 1] in tail;
            var k :| 0 <= k < |tail| && tail[k] == r[j];
            assert s[k + 1] == r[j];
          } else {
            assert r[i] == t[i - 1] && r[j] == t[j - 1];
          }
        }
      }
    }
  }

  /**
   * Inserts x in front of the first element x is ordered before or tied with,
   * so x lands before every element it ties with; taking the elements from the
   * back, this keeps tied elements in input order.
   */
  function Insert<T>(x: T, s: seq<T>, le: (T, T) -> bool): (r: seq<T>)
    ensures multiset(r) == multiset(s) + multiset{x}
  {
    if s == [] then [x]
    else if le(x, s[0]) then [x] + s
    else
      var r := [s[0]] + Insert(x, s[1..], le);
      assert s == [s[0]] + s[1..];
      r
  }

  /** The index of the first element x is ordered before or tied with, or |s| when there is none. */
  function InsertIndex<T>(x: T, s: seq<T>, le: (T, T) -> bool): (i: nat)
    ensures i <= |s| && (i < |s| ==> le(x, s[i]))
    ensures forall k :: 0 <= k < i ==> !le(x, s[k])
  {
    if s == [] || le(x, s[0]) then 0
    else
      var j := InsertIndex(x, s[1..], le);
      assert forall k :: 1 <= k < j + 1 ==> s[k] == s[1..][k - 1];
      j + 1
  }

  /** Insert puts x right before the first element it is ordered before or tied with, or at the end. */
  lemma {:induction false} InsertPosition<T>(x: T, s: seq<T>, le: (T, T) -> bool)
    ensures var i := InsertIndex(x, s, le); Insert(x, s, le) == s[..i] + [x] + s[i..]
  {
    if s == [] || le(x, s[0]) {
      assert s[..0] == [] && s[0..] == s;
    } else {
      var t := s[1..];
      InsertPosition(x, t, le);
      var j := InsertIndex(x, t, le);
      assert InsertIndex(x, s, le) == j + 1;
      assert Insert(x, s, le) == [s[0]] + (t[..j] + [x] + t[j..]);
      assert s == [s[0]] + t;
      SpliceCons(s[0], t, x, j);
    }
  }

  lemma SpliceCons<T>(h: T, t: seq<T>, x: T, j: nat)
    requires j <= |t|
    ensures [h] + (t[..j] + [x] + t[j..]) == ([h] + t)[..j + 1] + [x] + ([h] + t)[j + 1..]
  {
    assert ([h] + t)[..j + 1] == [h] + t[..j];
    assert ([h] + t)[j + 1..] == t[j..];
  }

  /** Insertion sort taking the elements from the back, so that "equal" elements keep their order. */
  function SortBy<T>(s: seq<T>, le: (T, T) -> bool): (r: seq<T>)
    ensures multiset(r) == multiset(s)
  {
    if s == [] then []
    else
      var r := Insert(s[0], SortBy(s[1..], le), le);
      assert s == [s[0]] + s[1..];
      r
  }

  /** A head that is ordered before every element of a sorted tail extends it. */
  lemma PrependSorted<T>(h: T, t: seq<T>, le: (T, T) -> bool, tie: (T, T) -> bool)
    requires SortedWithTies(t, le, tie)
    requires forall i :: 0 <= i < |t| ==> le(h, t[i]) && (le(t[i], h) ==> tie(h, t[i]))
    ensures SortedWithTies([h] + t, le, tie)
  {
    var r := [h] + t;
    forall i, j | 0 <= i < j < |r|
      ensures le(r[i], r[j]) && (le(r[j], r[i]) ==> tie(r[i], r[j]))
    {
      if i > 0 {
        assert r[i] == t[i - 1] && r[j] == t[j - 1];
      } else {
        assert r[j] == t[j - 1];
      }
    }
  }

  lemma {:induction false} InsertSorted<T(!new)>(x: T, s: seq<T>, le: (T, T) -> bool, tie: (T, T) -> bool)
    requires TotalPreorder(le)
    requires SortedWithTies(s, le, tie)
    requires forall i :: 0 <= i < |s| ==> tie(x, s[i])
    ensures SortedWithTies(Insert(x, s, le), le, tie)
  {
    if s == [] {
    } else if le(x, s[0]) {
      forall i | 0 <= i < |s|
        ensures le(x, s[i])
      {
        if i > 0 {
          assert le(s[0], s[i]);
        }
      }
      PrependSorted(x, s, le, tie);
    } else {
      assert le(s[0], x);
      var tail := s[1..];
      assert SortedWithTies(tail, le, tie);
      InsertSorted(x, tail, le, tie);
      var t := Insert(x, tail, le);
      forall i | 0 <= i < |t|
        ensures le(s[0], t[i]) && (le(t[i], s[0]) ==> tie(s[0], t[i]))
      {
        assert t[i] in multiset(tail) + multiset{x};
        if t[i] != x {
          assert t[i] in tail;
          var j :| 0 <= j < |tail| && tail[j] == t[i];
          assert s[j + 1] == t[i];
        }
      }
      PrependSorted(s[0], t, le, tie);
    }
  }

  /**
   * Stream.sorted(comparator) on an input already ordered by tie returns a
   * sequence ordered by the comparator, with equal elements still ordered by
   * tie: the sort is stable.
   */
  lemma {:induction false} SortStable<T(!new)>(s: seq<T>, le: (T, T) -> bool, tie: (T, T) -> bool)
    requires TotalPreorder(le)
    requires SortedBy(s, tie)
    ensures SortedWithTies(SortBy(s, le), le, tie)
  {
    if s != [] {
      assert SortedBy(s[1..], tie);
      SortStable(s[1..], le, tie);
      var t := SortBy(s[1..], le);
      forall i | 0 <= i < |t|
        ensures tie(s[0], t[i])
      {
        assert t[i] in multiset(s[1..]);
        var j :| 0 <= j < |s[1..]| && s[1..][j] == t[i];
        assert s[j + 1] == t[i];
      }
      InsertSorted(s[0], t, le, tie);
    }
  }

  /** Without a tie-break order: the output is sorted by the comparator. */
  lemma SortSorted<T(!new)>(s: seq<T>, le: (T, T) -> bool)
    requires TotalPreorder(le)
    ensures SortedBy(SortBy(s, le), le)
  {
    SortStable(s, le, (a: T, b: T) => true);
  }

  /** Two non-empty permutations sorted by the same antisymmetric order start with the same element. */
  lemma SortedSameHead<T(!new)>(a: seq<T>, b: seq<T>, le: (T, T) -> bool)
    requires a != [] && multiset(a) == multiset(b)
    requires SortedBy(a, le) && SortedBy(b, le)
    requires Antisymmetric(le)
    ensures b != [] && a[0] == b[0]
  {
    assert a[0] in multiset(b);
    assert b != [] && b[0] in multiset(a);
    var i :| 0 <= i < |b| && b[i] == a[0];
    var j :| 0 <= j < |a| && a[j] == b[0];
    if i > 0 && j > 0 {
      assert le(b[0], b[i]) && le(a[0], a[j]);
    }
  }

  /** Two permutations sorted by the same antisymmetric order are the same sequence. */
  lemma {:induction false} SortedUnique<T(!new)>(a: seq<T>, b: seq<T>, le: (T, T) -> bool)
    requires multiset(a) == multiset(b)
    requires SortedBy(a, le) && SortedBy(b, le)
    requires Antisymmetric(le)
    ensures a == b
  {
    if a == [] {
      assert |b| == |multiset(b)| == 0;
    } else {
      SortedSameHead(a, b, le);
      var a', b' := a[1..], b[1..];
      assert a == [a[0]] + a' && b == [b[0]] + b';
      assert multiset(a) == multiset{a[0]} + multiset(a');
      assert multiset(b) == multiset{a[0]} + multiset(b');
      forall z
        ensures multiset(a')[z] == multiset(b')[z]
      {
        assert multiset(a)[z] == multiset{a[0]}[z] + multiset(a')[z];
        assert multiset(b)[z] == multiset{a[0]}[z] + multiset(b')[z];
      }
      assert multiset(a') == multiset(b');
      assert SortedBy(a', le) && SortedBy(b', le);
      SortedUnique(a', b', le);
    }
  }

  /** A stable sort's output is determined: with an asymmetric tie order there is only one such permutation. */
  lemma SortedWithTiesUnique<T(!new)>(a: seq<T>, b: seq<T>, le: (T, T) -> bool, tie: (T, T) -> bool)
    requires multiset(a) == multiset(b)
    requires SortedWithTies(a, le, tie) && SortedWithTies(b, le, tie)
    requires forall x, y :: !(tie(x, y) && tie(y, x))
    ensures a == b
  {
    var lex := (x: T, y: T) => le(x, y) && (le(y, x) ==> tie(x, y));
    assert SortedBy(a, lex) && SortedBy(b, lex);
    assert Antisymmetric(lex);
    SortedUnique(a, b, lex);
  }

  /** Map.putIfAbsent: the first value stored under a key stays. */
  function PutIfAbsent<K, V>(m: map<K, V>, k: K, v: V): (r: map<K, V>)
    ensures r.Keys == m.Keys + {k}
    ensures forall j :: j in m ==> r[j] == m[j]
    ensures k !in m ==> r[k] == v
  {
    if k in m then m else m[k := v]
  }

  /** Every entry of prior is still in m, unchanged. */
  predicate Extends<K, V(==)>(m: map<K, V>, prior: map<K, V>) {
    forall k :: k in prior ==> k in m && m[k] == prior[k]
  }

  /** Every key of m holds what prior holds under it, or fill when prior lacks the key. */
  predicate FilledFrom<K, V(==)>(m: map<K, V>, prior: map<K, V>, fill: V) {
    forall k :: k in m ==> m[k] == if k in prior then prior[k] else fill
  }

  lemma PrefixStep<T>(s: seq<T>, i: nat)
    requires i < |s|
    ensures s[..i + 1] == s[..i] + [s[i]]
  {
  }

  lemma FilledFromPut<K, V>(m: map<K, V>, k: K, fill: V)
    ensures FilledFrom(m, m, fill)
    ensures k !in m ==> FilledFrom(m[k := fill], m, fill)
  {
  }

  lemma FilledFromTransitive<K, V>(m: map<K, V>, mid: map<K, V>, prior: map<K, V>, fill: V)
    requires FilledFrom(m, mid, fill) && FilledFrom(mid, prior, fill) && prior.Keys <= mid.Keys
    ensures FilledFrom(m, prior, fill)
  {
  }

  lemma ExtendsTransitive<K, V>(a: map<K, V>, b: map<K, V>, c: map<K, V>)
    requires Extends(a, b) && Extends(b, c)
    ensures Extends(a, c)
  {
  }
}
