/** Filtering, stable sorting and reordering of sequences, as the code does with
    `filter`, `sort_by_key` and `buffer_unordered`. */
module Seqs {

  /** No two elements share a key. */
  predicate Keyed<T, K(==)>(s: seq<T>, key: T -> K) {
    forall i, j :: 0 <= i < j < |s| ==> key(s[i]) != key(s[j])
  }

  function Filter<T>(s: seq<T>, keep: T -> bool): seq<T> {
    if s == [] then [] else (if keep(s[0]) then [s[0]] else []) + Filter(s[1..], keep)
  }

  lemma {:induction false} FilterMembers<T(!new)>(s: seq<T>, keep: T -> bool)
    ensures forall x :: x in Filter(s, keep) <==> x in s && keep(x)
  {
    if s != [] {
      FilterMembers(s[1..], keep);
      assert s == [s[0]] + s[1..];
    }
  }

  lemma {:induction false} FilterKeyed<T(!new), K>(s: seq<T>, keep: T -> bool, key: T -> K)
    requires Keyed(s, key)
    ensures Keyed(Filter(s, keep), key)
  {
    if s != [] {
      var rest := Filter(s[1..], keep);
      FilterKeyed(s[1..], keep, key);
      FilterMembers(s[1..], keep);
      forall i | 0 <= i < |rest|
        ensures key(rest[i]) != key(s[0])
      {
        assert rest[i] in rest && rest[i] in s[1..];
      }
    }
  }

  lemma {:induction false} FilterAppend<T>(a: seq<T>, b: seq<T>, keep: T -> bool)
    ensures Filter(a + b, keep) == Filter(a, keep) + Filter(b, keep)
  {
    if a == [] {
      assert a + b == b;
    } else {
      FilterAppend(a[1..], b, keep);
      assert (a + b)[1..] == a[1..] + b;
      var front := if keep(a[0]) then [a[0]] else [];
      assert front + (Filter(a[1..], keep) + Filter(b, keep)) == (front + Filter(a[1..], keep)) + Filter(b, keep);
    }
  }

  lemma {:induction false} FilterNone<T>(s: seq<T>, keep: T -> bool)
    requires forall i :: 0 <= i < |s| ==> !keep(s[i])
    ensures Filter(s, keep) == []
  {
    if s != [] {
      FilterNone(s[1..], keep);
    }
  }

  lemma {:induction false} FilterAll<T>(s: seq<T>, keep: T -> bool)
    requires forall i :: 0 <= i < |s| ==> keep(s[i])
    ensures Filter(s, keep) == s
  {
    if s != [] {
      FilterAll(s[1..], keep);
      assert s == [s[0]] + s[1..];
    }
  }

  lemma {:induction false} FilterSame<T(!new)>(s: seq<T>, keep: T -> bool, keep': T -> bool)
    requires forall x :: keep(x) == keep'(x)
    ensures Filter(s, keep) == Filter(s, keep')
  {
    if s != [] {
      FilterSame(s[1..], keep, keep');
    }
  }

  // ---- Any other order -------------------------------------------------------------------

  lemma TwoCopies<T>(s: seq<T>, i: nat, j: nat)
    requires i < j < |s| && s[i] == s[j]
    ensures multiset(s)[s[i]] >= 2
  {
    assert s == s[..i] + [s[i]] + s[i + 1..j] + [s[j]] + s[j + 1..];
  }

  lemma OneCopy<T, K>(s: seq<T>, key: T -> K, i: nat)
    requires Keyed(s, key) && i < |s|
    ensures multiset(s)[s[i]] == 1
  {
    var before, after := s[..i], s[i + 1..];
    assert s == before + [s[i]] + after;
    assert s[i] !in before && s[i] !in after;
  }

  lemma SameMembers<T>(a: seq<T>, b: seq<T>, x: T)
    requires multiset(a) == multiset(b)
    ensures x in a <==> x in b
  {
    assert x in a <==> x in multiset(a);
    assert x in b <==> x in multiset(b);
  }

  /** Distinct keys stay distinct in any other order. */
  lemma ShuffledKeyed<T, K>(a: seq<T>, b: seq<T>, key: T -> K)
    requires Keyed(a, key) && multiset(a) == multiset(b)
    ensures Keyed(b, key)
  {
    forall i, j | 0 <= i < j < |b|
      ensures key(b[i]) != key(b[j])
    {
      SameMembers(a, b, b[i]);
      SameMembers(a, b, b[j]);
      var p :| 0 <= p < |a| && a[p] == b[i];
      var q :| 0 <= q < |a| && a[q] == b[j];
      if key(b[i]) == key(b[j]) {
        assert p == q;
        OneCopy(a, key, p);
        TwoCopies(b, i, j);
        assert false;
      }
    }
  }

  // ---- sort_by_key ------------------------------------------------------------------------

  predicate Sorted<T>(s: seq<T>, key: T -> int) {
    forall i, j :: 0 <= i < j < |s| ==> key(s[i]) <= key(s[j])
  }

  function Insert<T>(x: T, s: seq<T>, key: T -> int): seq<T> {
    if s == [] || key(x) <= key(s[0]) then [x] + s else [s[0]] + Insert(x, s[1..], key)
  }

  /** The stable sort: an element is put before those of the same key that followed it. */
  function SortBy<T>(s: seq<T>, key: T -> int): seq<T> {
    if s == [] then [] else Insert(s[0], SortBy(s[1..], key), key)
  }

  lemma {:induction false} InsertMembers<T>(x: T, s: seq<T>, key: T -> int)
    ensures multiset(Insert(x, s, key)) == multiset{x} + multiset(s)
  {
    if !(s == [] || key(x) <= key(s[0])) {
      InsertMembers(x, s[1..], key);
      assert s == [s[0]] + s[1..];
    }
  }

  predicate Bounded<T>(s: seq<T>, key: T -> int, low: int) {
    forall i :: 0 <= i < |s| ==> low <= key(s[i])
  }

  lemma {:induction false} InsertBounded<T>(x: T, s: seq<T>, key: T -> int, low: int)
    requires Bounded(s, key, low) && low <= key(x)
    ensures Bounded(Insert(x, s, key), key, low)
  {
    if !(s == [] || key(x) <= key(s[0])) {
      InsertBounded(x, s[1..], key, low);
    }
  }

  lemma SortedFront<T>(x: T, s: seq<T>, key: T -> int)
    requires Sorted(s, key) && Bounded(s, key, key(x))
    ensures Sorted([x] + s, key)
  {
  }

  lemma {:induction false} InsertSorts<T>(x: T, s: seq<T>, key: T -> int)
    requires Sorted(s, key)
    ensures Sorted(Insert(x, s, key), key)
  {
    if s == [] || key(x) <= key(s[0]) {
      SortedFront(x, s, key);
    } else {
      InsertSorts(x, s[1..], key);
      InsertBounded(x, s[1..], key, key(s[0]));
      SortedFront(s[0], Insert(x, s[1..], key), key);
    }
  }

  lemma {:induction false} SortBySorts<T>(s: seq<T>, key: T -> int)
    ensures Sorted(SortBy(s, key), key) && multiset(SortBy(s, key)) == multiset(s)
  {
    if s != [] {
      SortBySorts(s[1..], key);
      InsertSorts(s[0], SortBy(s[1..], key), key);
      InsertMembers(s[0], SortBy(s[1..], key), key);
      assert s == [s[0]] + s[1..];
    }
  }
}
