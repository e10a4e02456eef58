/**
 * Occupant lists: the ordered lists of identifiers a room keeps. This module
 * defines deleting identifiers from such a list (keeping the order of the
 * rest) and the facts about counts and duplicates the world engine relies on.
 */
module Occupants {

  predicate Distinct<T(==)>(s: seq<T>)
  {
    forall i, j :: 0 <= i < j < |s| ==> s[i] != s[j]
  }

  /** The list with every element of `gone` deleted, the others kept in order. */
  function WithoutAll<T>(s: seq<T>, gone: set<T>): seq<T>
  {
    if s == [] then []
    else (if s[0] in gone then [] else [s[0]]) + WithoutAll(s[1..], gone)
  }

  /** The list with every occurrence of `x` deleted, the others kept in order. */
  function Without<T(==)>(s: seq<T>, x: T): seq<T>
  {
    WithoutAll(s, {x})
  }

  /** Deleting changes the count of each deleted element to zero and leaves every other count alone. */
  lemma {:induction false} WithoutAllCounts<T>(s: seq<T>, gone: set<T>)
    ensures forall x :: multiset(WithoutAll(s, gone))[x] == if x in gone then 0 else multiset(s)[x]
  {
    if s != [] {
      WithoutAllCounts(s[1..], gone);
      assert s == [s[0]] + s[1..];
    }
  }

  /** An element survives the deletion exactly when it was there and was not deleted. */
  lemma WithoutAllMembers<T>(s: seq<T>, gone: set<T>)
    ensures forall x :: x in WithoutAll(s, gone) <==> x in s && x !in gone
  {
    WithoutAllCounts(s, gone);
    forall x ensures x in WithoutAll(s, gone) <==> x in s && x !in gone {
      assert x in WithoutAll(s, gone) <==> multiset(WithoutAll(s, gone))[x] > 0;
      assert x in s <==> multiset(s)[x] > 0;
    }
  }

  /** Deleting one more element after a set of them is deleting the enlarged set. */
  lemma {:induction false} WithoutAllThenWithout<T>(s: seq<T>, gone: set<T>, x: T)
    ensures Without(WithoutAll(s, gone), x) == WithoutAll(s, gone + {x})
  {
    if s != [] {
      WithoutAllThenWithout(s[1..], gone, x);
      var head := if s[0] in gone then [] else [s[0]];
      assert WithoutAll(s, gone) == head + WithoutAll(s[1..], gone);
      WithoutAllAppend(head, WithoutAll(s[1..], gone), {x});
      if s[0] !in gone {
        assert head[1..] == [];
      }
    }
  }

  /** Deletion distributes over concatenation. */
  lemma {:induction false} WithoutAllAppend<T>(a: seq<T>, b: seq<T>, gone: set<T>)
    ensures WithoutAll(a + b, gone) == WithoutAll(a, gone) + WithoutAll(b, gone)
  {
    if a == [] {
      assert a + b == b;
    } else {
      assert (a + b)[0] == a[0];
      assert (a + b)[1..] == a[1..] + b;
      WithoutAllAppend(a[1..], b, gone);
    }
  }

  /** Deleting elements the list does not hold changes nothing. */
  lemma {:induction false} WithoutAllAbsent<T>(s: seq<T>, gone: set<T>, extra: set<T>)
    requires forall x :: x in extra ==> x !in s
    ensures WithoutAll(s, gone + extra) == WithoutAll(s, gone)
  {
    if s != [] {
      WithoutAllAbsent(s[1..], gone, extra);
    }
  }

  /** An element that occurs only at index k is deleted by cutting out index k. */
  lemma WithoutOnly<T>(s: seq<T>, k: nat)
    requires k < |s| && s[k] !in s[..k] && s[k] !in s[k + 1..]
    ensures Without(s, s[k]) == s[..k] + s[k + 1..]
  {
    assert s == s[..k] + [s[k]] + s[k + 1..];
    WithoutAllAppend(s[..k] + [s[k]], s[k + 1..], {s[k]});
    WithoutAllAppend(s[..k], [s[k]], {s[k]});
    WithoutAllAbsent(s[..k], {}, {s[k]});
    WithoutAllAbsent(s[k + 1..], {}, {s[k]});
    NothingGone(s[..k]);
    NothingGone(s[k + 1..]);
    assert {} + {s[k]} == {s[k]};
    assert [s[k]][1..] == [];
    assert WithoutAll([s[k]], {s[k]}) == [] + WithoutAll([], {s[k]});
  }

  lemma {:induction false} NothingGone<T>(s: seq<T>)
    ensures WithoutAll(s, {}) == s
  {
    if s != [] {
      NothingGone(s[1..]);
      assert s == [s[0]] + s[1..];
    }
  }

  /** A list is duplicate-free exactly when no element is counted twice. */
  lemma DistinctCounts<T>(s: seq<T>)
    ensures Distinct(s) <==> forall x :: multiset(s)[x] <= 1
  {
    if Distinct(s) {
      DistinctCountsAtMostOne(s);
    } else {
      var i, j :| 0 <= i < j < |s| && s[i] == s[j];
      TwoOccurrences(s, i, j);
    }
  }

  lemma {:induction false} DistinctCountsAtMostOne<T>(s: seq<T>)
    requires Distinct(s)
    ensures forall x :: multiset(s)[x] <= 1
  {
    if s != [] {
      var p := s[..|s| - 1];
      assert Distinct(p);
      DistinctCountsAtMostOne(p);
      assert s == p + [s[|s| - 1]];
    }
  }

  /** Two indices holding the same element make it counted at least twice. */
  lemma TwoOccurrences<T>(s: seq<T>, i: nat, j: nat)
    requires i < j < |s| && s[i] == s[j]
    ensures multiset(s)[s[i]] >= 2
  {
    assert s == s[..i] + [s[i]] + s[i + 1..j] + [s[j]] + s[j + 1..];
  }

  /** In a duplicate-free list every element is counted once. */
  lemma DistinctCountOne<T>(s: seq<T>, x: T)
    requires Distinct(s) && x in s
    ensures multiset(s)[x] == 1
  {
    DistinctCounts(s);
  }
}
