/**
 * `String.CASE_INSENSITIVE_ORDER` and the stable sorts that `List.sort` and
 * `Stream.sorted` perform with it.
 *
 * A sort by a string key is modelled as insertion sort: it is stable like the
 * merge sort of the Java library, and any two stable sorts by the same order agree.
 */
module CaseInsensitiveOrder {
  import opened JavaStrings
  import opened Seqs

  /** Lexicographic order on character codes, a proper prefix first. */
  predicate LexLeq(a: string, b: string) {
    a == [] || (b != [] && (a[0] < b[0] || (a[0] == b[0] && LexLeq(a[1..], b[1..]))))
  }

  lemma {:induction false} LexLeqTotal(a: string, b: string)
    ensures LexLeq(a, b) || LexLeq(b, a)
  {
    if a != [] && b != [] && a[0] == b[0] {
      LexLeqTotal(a[1..], b[1..]);
    }
  }

  lemma {:induction false} LexLeqTransitive(a: string, b: string, c: string)
    requires LexLeq(a, b) && LexLeq(b, c)
    ensures LexLeq(a, c)
  {
    if a != [] && a[0] == b[0] && b[0] == c[0] {
      LexLeqTransitive(a[1..], b[1..], c[1..]);
    }
  }

  lemma {:induction false} LexLeqAntisymmetric(a: string, b: string)
    requires LexLeq(a, b) && LexLeq(b, a)
    ensures a == b
  {
    if a != [] {
      LexLeqAntisymmetric(a[1..], b[1..]);
      assert a == [a[0]] + a[1..];
      assert b == [b[0]] + b[1..];
    }
  }

  /** `String.CASE_INSENSITIVE_ORDER.compare(a, b) <= 0`: the lower-cased strings in lexicographic order. */
  predicate NameLeq(a: string, b: string) {
    LexLeq(Lower(a), Lower(b))
  }

  /** The order is total. */
  lemma NameLeqTotal(a: string, b: string)
    ensures NameLeq(a, b) || NameLeq(b, a)
  {
    LexLeqTotal(Lower(a), Lower(b));
  }

  /** The order is transitive. */
  lemma NameLeqTransitive(a: string, b: string, c: string)
    requires NameLeq(a, b) && NameLeq(b, c)
    ensures NameLeq(a, c)
  {
    LexLeqTransitive(Lower(a), Lower(b), Lower(c));
  }

  /** Two names compare as equal exactly when they are equal ignoring case. */
  lemma NameEquivalence(a: string, b: string)
    ensures NameLeq(a, b) && NameLeq(b, a) <==> EqualsIgnoreCase(a, b)
  {
    if NameLeq(a, b) && NameLeq(b, a) {
      LexLeqAntisymmetric(Lower(a), Lower(b));
    }
    if EqualsIgnoreCase(a, b) {
      LexLeqReflexive(Lower(a));
    }
  }

  lemma {:induction false} LexLeqReflexive(a: string)
    ensures LexLeq(a, a)
  {
    if a != [] {
      LexLeqReflexive(a[1..]);
    }
  }

  /** Every element's key is at most every later element's key. */
  predicate SortedBy<T>(s: seq<T>, key: T -> string) {
    forall i, j | 0 <= i < j < |s| :: NameLeq(key(s[i]), key(s[j]))
  }

  /** Inserts `x` after every element whose key is at most that of `x`. */
  function Insert<T>(x: T, s: seq<T>, key: T -> string): (r: seq<T>)
    ensures |r| == |s| + 1
    ensures multiset(r) == multiset(s) + multiset{x}
  {
    if s == [] then [x]
    else if NameLeq(key(s[0]), key(x)) then
      assert s == [s[0]] + s[1..];
      [s[0]] + Insert(x, s[1..], key)
    else [x] + s
  }

  /** The stable sort of `s` by `key` under `String.CASE_INSENSITIVE_ORDER`. */
  function SortBy<T>(s: seq<T>, key: T -> string): (r: seq<T>)
    ensures |r| == |s|
    ensures multiset(r) == multiset(s)
  {
    if s == [] then []
    else
      assert s == s[..|s| - 1] + [s[|s| - 1]];
      Insert(s[|s| - 1], SortBy(s[..|s| - 1], key), key)
  }

  lemma {:induction false} InsertSorted<T>(x: T, s: seq<T>, key: T -> string)
    requires SortedBy(s, key)
    ensures SortedBy(Insert(x, s, key), key)
  {
    if s != [] {
      if NameLeq(key(s[0]), key(x)) {
        InsertSorted(x, s[1..], key);
        var r := Insert(x, s, key);
        forall j | 0 < j < |r| ensures NameLeq(key(r[0]), key(r[j])) {
          assert r[j] in multiset(Insert(x, s[1..], key));
          var y := r[j];
          assert y == x || y in multiset(s[1..]);
          if y != x {
            var k :| 1 <= k < |s| && s[k] == y by {
              assert y in s[1..];
            }
          }
        }
      } else {
        forall j | 1 <= j < |s| ensures NameLeq(key(x), key(s[j])) {
          NameLeqTotal(key(s[0]), key(x));
          NameLeqTransitive(key(x), key(s[0]), key(s[j]));
        }
        NameLeqTotal(key(s[0]), key(x));
      }
    }
  }

  /** The result of the sort is ordered by key. */
  lemma {:induction false} SortBySorted<T>(s: seq<T>, key: T -> string)
    ensures SortedBy(SortBy(s, key), key)
  {
    if s != [] {
      SortBySorted(s[..|s| - 1], key);
      InsertSorted(s[|s| - 1], SortBy(s[..|s| - 1], key), key);
    }
  }

  /** `Insert` puts `x` somewhere in `s` and leaves the others in order. */
  lemma {:induction false} InsertSplit<T>(x: T, s: seq<T>, key: T -> string) returns (i: nat)
    ensures i <= |s| && Insert(x, s, key) == s[..i] + [x] + s[i..]
    ensures s[..i] + s[i..] == s
  {
    if s == [] || !NameLeq(key(s[0]), key(x)) {
      i := 0;
    } else {
      var j := InsertSplit(x, s[1..], key);
      i := j + 1;
      assert s[..i] == [s[0]] + s[1..][..j];
      assert s[i..] == s[1..][j..];
    }
  }

  /** Sorting a sorted list with one more element inserts that element. */
  lemma SortBySnocSorted<T>(s: seq<T>, x: T, key: T -> string)
    requires SortedBy(s, key)
    ensures SortBy(s + [x], key) == Insert(x, s, key)
  {
    assert (s + [x])[..|s|] == s;
    SortBySortedIdentity(s, key);
  }

  /** The elements whose key equals `k` ignoring case, in their order in `s`. */
  function Class<T>(s: seq<T>, key: T -> string, k: string): (r: seq<T>)
    ensures |r| <= |s|
    ensures forall i | 0 <= i < |r| :: EqualsIgnoreCase(key(r[i]), k)
    ensures forall i | 0 <= i < |s| && EqualsIgnoreCase(key(s[i]), k) :: s[i] in r
  {
    if s == [] then []
    else
      var init := Class(s[..|s| - 1], key, k);
      var last := s[|s| - 1];
      assert s == s[..|s| - 1] + [last];
      if EqualsIgnoreCase(key(last), k) then init + [last] else init
  }

  lemma {:induction false} ClassConcat<T>(a: seq<T>, b: seq<T>, key: T -> string, k: string)
    ensures Class(a + b, key, k) == Class(a, key, k) + Class(b, key, k)
    decreases |b|
  {
    if b == [] {
      assert a + b == a;
    } else {
      var b' := b[..|b| - 1];
      assert (a + b)[..|a + b| - 1] == a + b';
      ClassConcat(a, b', key, k);
    }
  }

  lemma ClassSingle<T>(x: T, key: T -> string, k: string)
    ensures Class([x], key, k) == if EqualsIgnoreCase(key(x), k) then [x] else []
  {
    assert [x][..0] == [];
  }

  lemma ClassOfPrefixOutside<T>(s: seq<T>, key: T -> string, k: string)
    requires forall i | 0 <= i < |s| :: !EqualsIgnoreCase(key(s[i]), k)
    ensures Class(s, key, k) == []
  {
  }

  /** An element below the head of a sorted list shares its key with no element of the list. */
  lemma BelowHead<T>(x: T, s: seq<T>, key: T -> string, i: int)
    requires SortedBy(s, key) && 0 <= i < |s|
    requires !NameLeq(key(s[0]), key(x))
    ensures !EqualsIgnoreCase(key(s[i]), key(x))
  {
    NameEquivalence(key(s[i]), key(x));
    if i > 0 && NameLeq(key(s[i]), key(x)) {
      NameLeqTransitive(key(s[0]), key(s[i]), key(x));
    }
  }

  lemma InsertClassFront<T>(x: T, s: seq<T>, key: T -> string, k: string)
    requires SortedBy(s, key) && s != []
    requires !NameLeq(key(s[0]), key(x))
    ensures Class([x] + s, key, k) == Class(s + [x], key, k)
  {
    ClassConcat([x], s, key, k);
    ClassConcat(s, [x], key, k);
    ClassSingle(x, key, k);
    if EqualsIgnoreCase(key(x), k) {
      forall i | 0 <= i < |s| ensures !EqualsIgnoreCase(key(s[i]), k) {
        BelowHead(x, s, key, i);
      }
      ClassOfPrefixOutside(s, key, k);
    }
  }

  lemma InsertClassStep<T>(x: T, s: seq<T>, key: T -> string, k: string)
    requires s != []
    requires Class(Insert(x, s[1..], key), key, k) == Class(s[1..] + [x], key, k)
    ensures Class([s[0]] + Insert(x, s[1..], key), key, k) == Class(s + [x], key, k)
  {
    ClassConcat([s[0]], Insert(x, s[1..], key), key, k);
    ClassConcat([s[0]], s[1..] + [x], key, k);
    assert s + [x] == [s[0]] + (s[1..] + [x]);
  }

  lemma {:induction false} InsertClass<T>(x: T, s: seq<T>, key: T -> string, k: string)
    requires SortedBy(s, key)
    ensures Class(Insert(x, s, key), key, k) == Class(s + [x], key, k)
  {
    if s != [] {
      if NameLeq(key(s[0]), key(x)) {
        assert SortedBy(s[1..], key);
        InsertClass(x, s[1..], key, k);
        InsertClassStep(x, s, key, k);
      } else {
        InsertClassFront(x, s, key, k);
      }
    }
  }

  /** Stability: the elements with equal keys keep their relative order. */
  lemma {:induction false} SortByStable<T>(s: seq<T>, key: T -> string, k: string)
    ensures Class(SortBy(s, key), key, k) == Class(s, key, k)
  {
    if s != [] {
      var init, last := s[..|s| - 1], s[|s| - 1];
      SortByStable(init, key, k);
      SortBySorted(init, key);
      InsertClass(last, SortBy(init, key), key, k);
      ClassConcat(SortBy(init, key), [last], key, k);
      ClassConcat(init, [last], key, k);
      assert s == init + [last];
    }
  }

  lemma {:induction false} InsertAtEnd<T>(x: T, s: seq<T>, key: T -> string)
    requires forall i | 0 <= i < |s| :: NameLeq(key(s[i]), key(x))
    ensures Insert(x, s, key) == s + [x]
  {
    if s != [] {
      InsertAtEnd(x, s[1..], key);
      assert s == [s[0]] + s[1..];
    }
  }

  lemma SortedSplit<T>(init: seq<T>, last: T, key: T -> string)
    requires SortedBy(init + [last], key)
    ensures SortedBy(init, key)
    ensures forall i | 0 <= i < |init| :: NameLeq(key(init[i]), key(last))
  {
    var s := init + [last];
    forall i, j | 0 <= i < j < |init| ensures NameLeq(key(init[i]), key(init[j])) {
      assert init[i] == s[i] && init[j] == s[j];
    }
    forall i | 0 <= i < |init| ensures NameLeq(key(init[i]), key(last)) {
      assert init[i] == s[i] && last == s[|init|];
    }
  }

  /** Sorting a list that is already in order changes nothing. */
  lemma {:induction false} SortBySortedIdentity<T>(s: seq<T>, key: T -> string)
    requires SortedBy(s, key)
    ensures SortBy(s, key) == s
  {
    if s != [] {
      var init := s[..|s| - 1];
      assert s == init + [s[|s| - 1]];
      SortedSplit(init, s[|s| - 1], key);
      SortBySortedIdentity(init, key);
      InsertAtEnd(s[|s| - 1], init, key);
      assert s == init + [s[|s| - 1]];
    }
  }

  /** Sorting twice is sorting once. */
  lemma SortByIdempotent<T>(s: seq<T>, key: T -> string)
    ensures SortBy(SortBy(s, key), key) == SortBy(s, key)
  {
    SortBySorted(s, key);
    SortBySortedIdentity(SortBy(s, key), key);
  }

  /** No two elements have keys that are equal ignoring case. */
  ghost predicate UniqueKeys<T>(s: seq<T>, key: T -> string) {
    forall k :: |Class(s, key, k)| <= 1
  }

  /** Sorting neither creates nor removes a clash of keys. */
  lemma SortByUniqueKeys<T>(s: seq<T>, key: T -> string)
    ensures UniqueKeys(SortBy(s, key), key) <==> UniqueKeys(s, key)
  {
    forall k {
      SortByStable(s, key, k);
    }
  }

  lemma {:induction false} ClassAtLeastTwo<T>(s: seq<T>, key: T -> string, k: string, i: int, j: int)
    requires 0 <= i < j < |s|
    requires EqualsIgnoreCase(key(s[i]), k) && EqualsIgnoreCase(key(s[j]), k)
    ensures |Class(s, key, k)| >= 2
  {
    var init := s[..|s| - 1];
    assert init[i] == s[i];
    if j == |s| - 1 {
      assert s[i] in Class(init, key, k);
    } else {
      assert init[j] == s[j];
      ClassAtLeastTwo(init, key, k, i, j);
    }
  }

  /** Unique keys, stated pairwise. */
  lemma UniqueKeysPairwise<T>(s: seq<T>, key: T -> string)
    requires UniqueKeys(s, key)
    ensures forall i, j | 0 <= i < j < |s| :: !EqualsIgnoreCase(key(s[i]), key(s[j]))
  {
    forall i, j | 0 <= i < j < |s| ensures !EqualsIgnoreCase(key(s[i]), key(s[j])) {
      if EqualsIgnoreCase(key(s[i]), key(s[j])) {
        ClassAtLeastTwo(s, key, key(s[j]), i, j);
      }
    }
  }

  /** Appending an element whose key matches no existing key keeps the keys unique. */
  lemma AppendFreshKey<T>(s: seq<T>, x: T, key: T -> string)
    requires UniqueKeys(s, key)
    requires forall i | 0 <= i < |s| :: !EqualsIgnoreCase(key(s[i]), key(x))
    ensures UniqueKeys(s + [x], key)
  {
    forall k ensures |Class(s + [x], key, k)| <= 1 {
      ClassConcat(s, [x], key, k);
      ClassSingle(x, key, k);
      if EqualsIgnoreCase(key(x), k) {
        ClassOfPrefixOutside(s, key, k);
      }
    }
  }

  /** Removing an element just inserted into a sorted list, whose key no other element has, gives that list back. */
  lemma RemoveInsertedSorted<T>(before: seq<T>, x: T, key: T -> string)
    requires SortedBy(before, key)
    requires forall i | 0 <= i < |before| :: !EqualsIgnoreCase(key(before[i]), key(x))
    ensures RemoveFirst(SortBy(before + [x], key), x) == before
  {
    var i := InsertSplit(x, before, key);
    var a, b := before[..i], before[i..];
    SortBySnocSorted(before, x, key);
    forall k | 0 <= k < |a| ensures a[k] != x {
      assert a[k] == before[k];
      assert !EqualsIgnoreCase(key(before[k]), key(x));
    }
    RemoveInserted(a, x, b);
  }

  /**
   * Adding an element whose key is new to a sorted list and sorting: the list stays sorted,
   * gains exactly that element, keeps its keys unique, and removing the element restores it.
   */
  lemma AddFresh<T>(before: seq<T>, x: T, key: T -> string, after: seq<T>)
    requires SortedBy(before, key)
    requires forall i | 0 <= i < |before| :: !EqualsIgnoreCase(key(before[i]), key(x))
    requires after == SortBy(before + [x], key)
    ensures SortedBy(after, key)
    ensures multiset(after) == multiset(before) + multiset{x}
    ensures RemoveFirst(after, x) == before
    ensures UniqueKeys(before, key) ==> UniqueKeys(after, key)
  {
    SortBySorted(before + [x], key);
    RemoveInsertedSorted(before, x, key);
    if UniqueKeys(before, key) {
      AppendFreshKey(before, x, key);
      SortByUniqueKeys(before + [x], key);
    }
  }
}
