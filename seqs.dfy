/**
 * The list operations the application takes from java.util and java.util.stream:
 * `map`, `filter`, `List.remove(Object)` and the iteration order of a `LinkedHashSet`.
 */
module Seqs {

  /** `s.stream().map(f)` */
  function Map<A, B>(s: seq<A>, f: A -> B): seq<B> {
    seq(|s|, i requires 0 <= i < |s| => f(s[i]))
  }

  lemma MapConcat<A, B>(a: seq<A>, b: seq<A>, f: A -> B)
    ensures Map(a + b, f) == Map(a, f) + Map(b, f)
  {
  }

  /** `s.stream().filter(f)`: the elements that satisfy `f`, in their original order. */
  function Filter<T>(s: seq<T>, f: T -> bool): (r: seq<T>)
    ensures |r| <= |s|
  {
    if s == [] then []
    else
      var init := Filter(s[..|s| - 1], f);
      var last := s[|s| - 1];
      assert s == s[..|s| - 1] + [last];
      if f(last) then init + [last] else init
  }

  /** Filtering distributes over concatenation, so it never reorders what it keeps. */
  lemma {:induction false} FilterConcat<T>(a: seq<T>, b: seq<T>, f: T -> bool)
    ensures Filter(a + b, f) == Filter(a, f) + Filter(b, f)
    decreases |b|
  {
    if b == [] {
      assert a + b == a;
    } else {
      var b' := b[..|b| - 1];
      assert (a + b)[..|a + b| - 1] == a + b';
      assert (a + b)[|a + b| - 1] == b[|b| - 1];
      FilterConcat(a, b', f);
    }
  }

  /** Each element occurs in the filtered list as often as in the original if it is kept, else never. */
  lemma {:induction false} FilterCount<T>(s: seq<T>, f: T -> bool, x: T)
    ensures multiset(Filter(s, f))[x] == if f(x) then multiset(s)[x] else 0
  {
    if s != [] {
      var init := s[..|s| - 1];
      assert s == init + [s[|s| - 1]];
      FilterCount(init, f, x);
    }
  }

  /** The filtered list is a sub-multiset of the original. */
  lemma FilterSubMultiset<T>(s: seq<T>, f: T -> bool)
    ensures multiset(Filter(s, f)) <= multiset(s)
  {
    forall x ensures multiset(Filter(s, f))[x] <= multiset(s)[x] {
      FilterCount(s, f, x);
    }
  }

  /** A filter that every element passes changes nothing. */
  lemma {:induction false} FilterKeepsAll<T>(s: seq<T>, f: T -> bool)
    requires forall i | 0 <= i < |s| :: f(s[i])
    ensures Filter(s, f) == s
  {
    if s != [] {
      FilterKeepsAll(s[..|s| - 1], f);
      assert s == s[..|s| - 1] + [s[|s| - 1]];
    }
  }

  /** A filter drops nothing exactly when every element passes it. */
  lemma {:induction false} FilterDropsNone<T>(s: seq<T>, f: T -> bool)
    ensures |Filter(s, f)| == |s| <==> forall i | 0 <= i < |s| :: f(s[i])
  {
    if s != [] {
      var init := s[..|s| - 1];
      FilterDropsNone(init, f);
      assert forall i | 0 <= i < |init| :: init[i] == s[i];
    }
  }

  /** The filter keeps exactly the elements that pass it. */
  lemma {:induction false} FilterMembers<T>(s: seq<T>, f: T -> bool)
    ensures forall x | x in Filter(s, f) :: x in s && f(x)
    ensures forall i | 0 <= i < |s| && f(s[i]) :: s[i] in Filter(s, f)
  {
    if s != [] {
      var init := s[..|s| - 1];
      FilterMembers(init, f);
      assert s == init + [s[|s| - 1]];
    }
  }

  /** A filter keeps nothing exactly when no element passes it. */
  lemma FilterEmpty<T>(s: seq<T>, f: T -> bool)
    ensures Filter(s, f) == [] <==> forall i | 0 <= i < |s| :: !f(s[i])
  {
    var r := Filter(s, f);
    FilterMembers(s, f);
    if r != [] {
      assert r[0] in r;
      var i :| 0 <= i < |s| && s[i] == r[0];
      assert f(s[i]);
    }
  }

  /** `List.remove(Object)`: drops the first element equal to `x`, if any. */
  function RemoveFirst<T(==)>(s: seq<T>, x: T): seq<T> {
    if s == [] then []
    else if s[0] == x then s[1..]
    else [s[0]] + RemoveFirst(s[1..], x)
  }

  /** `remove` takes out one copy of `x` when there is one, and otherwise changes nothing. */
  lemma {:induction false} RemoveFirstMultiset<T>(s: seq<T>, x: T)
    ensures x in s ==> multiset(RemoveFirst(s, x)) == multiset(s) - multiset{x}
    ensures x !in s ==> RemoveFirst(s, x) == s
  {
    if s != [] {
      assert s == [s[0]] + s[1..];
      RemoveFirstMultiset(s[1..], x);
    }
  }

  /** Removing the only copy of an element that was inserted into a list gives the list back. */
  lemma RemoveInserted<T>(a: seq<T>, x: T, b: seq<T>)
    requires x !in a
    ensures RemoveFirst(a + [x] + b, x) == a + b
  {
    if a != [] {
      assert (a + [x] + b)[1..] == a[1..] + [x] + b;
      RemoveInserted(a[1..], x, b);
    }
  }

  /** Iteration order of a `LinkedHashSet` built from `s`: first occurrences, in order. */
  function Distinct<T(==)>(s: seq<T>): (r: seq<T>)
    ensures forall x | x in r :: x in s
    ensures forall i | 0 <= i < |s| :: s[i] in r
    ensures forall i, j | 0 <= i < j < |r| :: r[i] != r[j]
  {
    if s == [] then []
    else
      var init := Distinct(s[..|s| - 1]);
      var last := s[|s| - 1];
      assert s == s[..|s| - 1] + [last];
      if last in init then init else init + [last]
  }

  /** The elements of `b` that do not occur in `a`, in order. */
  function Absent<T(==)>(b: seq<T>, a: seq<T>): (r: seq<T>)
    ensures forall x | x in r :: x in b && x !in a
  {
    if b == [] then []
    else
      var init := Absent(b[..|b| - 1], a);
      var last := b[|b| - 1];
      assert b == b[..|b| - 1] + [last];
      if last in a then init else init + [last]
  }

  lemma DistinctSnoc<T>(s: seq<T>, x: T)
    ensures Distinct(s + [x]) == if x in s then Distinct(s) else Distinct(s) + [x]
  {
    assert (s + [x])[..|s + [x]| - 1] == s;
  }

  lemma AbsentSnoc<T>(b: seq<T>, x: T, a: seq<T>)
    ensures Absent(b + [x], a) == if x in a then Absent(b, a) else Absent(b, a) + [x]
  {
    assert (b + [x])[..|b + [x]| - 1] == b;
  }

  /**
   * A `LinkedHashSet` filled with `a` and then with `b` iterates over the distinct elements of `a`,
   * followed by the distinct elements of `b` that `a` lacks.
   */
  lemma {:induction false} DistinctConcat<T>(a: seq<T>, b: seq<T>)
    ensures Distinct(a + b) == Distinct(a) + Absent(Distinct(b), a)
    decreases |b|
  {
    if b == [] {
      assert a + b == a;
    } else {
      var b' := b[..|b| - 1];
      var x := b[|b| - 1];
      assert a + b == (a + b') + [x];
      assert b == b' + [x];
      DistinctConcat(a, b');
      DistinctSnoc(a + b', x);
      DistinctSnoc(b', x);
      var e := Distinct(b');
      if x !in b' {
        AbsentSnoc(e, x, a);
      }
    }
  }

  /** A list without duplicates is its own `LinkedHashSet` order. */
  lemma {:induction false} DistinctOfDistinct<T>(s: seq<T>)
    requires forall i, j | 0 <= i < j < |s| :: s[i] != s[j]
    ensures Distinct(s) == s
  {
    if s != [] {
      var init := s[..|s| - 1];
      assert s == init + [s[|s| - 1]];
      DistinctOfDistinct(init);
    }
  }
}
