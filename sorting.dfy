/**
 * Python's `list.sort(key=...)`: a stable sort that only asks whether one
 * element's key is strictly below another's. The model takes the relation
 * `le(x, y)` = "not key(y) < key(x)" and sorts by insertion, which yields
 * the same list as any stable sort.
 */
module StableSort {

  ghost predicate Transitive<T(!new)>(le: (T, T) -> bool) {
    forall x, y, z :: le(x, y) && le(y, z) ==> le(x, z)
  }

  ghost predicate TotalPreorder<T(!new)>(le: (T, T) -> bool) {
    && (forall x, y :: le(x, y) || le(y, x))
    && Transitive(le)
  }

  predicate Sorted<T>(s: seq<T>, le: (T, T) -> bool) {
    forall i, j :: 0 <= i < j < |s| ==> le(s[i], s[j])
  }

  /** Places `x` after every element of `t` whose key is not above its own. */
  function Insert<T>(t: seq<T>, x: T, le: (T, T) -> bool): seq<T>
  {
    if t == [] then [x]
    else if !le(t[|t| - 1], x) then Insert(t[..|t| - 1], x, le) + [t[|t| - 1]]
    else t + [x]
  }

  function Sort<T>(s: seq<T>, le: (T, T) -> bool): seq<T>
  {
    if s == [] then [] else Insert(Sort(s[..|s| - 1], le), s[|s| - 1], le)
  }

  /** The elements of `s` whose key equals that of `x`, in their order in `s`. */
  function SameKey<T>(s: seq<T>, x: T, le: (T, T) -> bool): seq<T>
  {
    if s == [] then []
    else SameKey(s[..|s| - 1], x, le) + (if le(s[|s| - 1], x) && le(x, s[|s| - 1]) then [s[|s| - 1]] else [])
  }

  lemma MultisetSnoc<T>(s: seq<T>)
    requires s != []
    ensures multiset(s) == multiset(s[..|s| - 1]) + multiset{s[|s| - 1]}
  {
    assert s == s[..|s| - 1] + [s[|s| - 1]];
  }

  lemma {:induction false} InsertPermutes<T>(t: seq<T>, x: T, le: (T, T) -> bool)
    ensures multiset(Insert(t, x, le)) == multiset(t) + multiset{x}
  {
    if t != [] && !le(t[|t| - 1], x) {
      InsertPermutes(t[..|t| - 1], x, le);
      MultisetSnoc(t);
    }
  }

  lemma {:induction false} InsertBounded<T>(t: seq<T>, x: T, b: T, le: (T, T) -> bool)
    requires forall i :: 0 <= i < |t| ==> le(t[i], b)
    requires le(x, b)
    ensures forall i :: 0 <= i < |Insert(t, x, le)| ==> le(Insert(t, x, le)[i], b)
  {
    if t != [] && !le(t[|t| - 1], x) {
      InsertBounded(t[..|t| - 1], x, b, le);
    }
  }

  lemma {:induction false} InsertSorted<T(!new)>(t: seq<T>, x: T, le: (T, T) -> bool)
    requires TotalPreorder(le) && Sorted(t, le)
    ensures Sorted(Insert(t, x, le), le)
  {
    if t != [] {
      var init, last := t[..|t| - 1], t[|t| - 1];
      if !le(last, x) {
        InsertSorted(init, x, le);
        InsertBounded(init, x, last, le);
      }
    }
  }

  lemma {:induction false} SortPermutes<T>(s: seq<T>, le: (T, T) -> bool)
    ensures multiset(Sort(s, le)) == multiset(s)
  {
    if s != [] {
      SortPermutes(s[..|s| - 1], le);
      InsertPermutes(Sort(s[..|s| - 1], le), s[|s| - 1], le);
      MultisetSnoc(s);
    }
  }

  /** The sorted list is ordered by key. */
  lemma {:induction false} SortSorted<T(!new)>(s: seq<T>, le: (T, T) -> bool)
    requires TotalPreorder(le)
    ensures Sorted(Sort(s, le), le)
  {
    if s != [] {
      SortSorted(s[..|s| - 1], le);
      InsertSorted(Sort(s[..|s| - 1], le), s[|s| - 1], le);
    }
  }

  /** The equal-key part of a one-element list. */
  function KeyPart<T>(y: T, x: T, le: (T, T) -> bool): seq<T> {
    if le(y, x) && le(x, y) then [y] else []
  }

  lemma SameKeySnoc<T>(s: seq<T>, y: T, x: T, le: (T, T) -> bool)
    ensures SameKey(s + [y], x, le) == SameKey(s, x, le) + KeyPart(y, x, le)
  {
    assert (s + [y])[..|s|] == s;
  }

  /** Two elements out of key order cannot both share the key of `x`. */
  lemma KeyPartsExclusive<T(!new)>(u: T, y: T, x: T, le: (T, T) -> bool)
    requires Transitive(le) && !le(u, y)
    ensures KeyPart(u, x, le) == [] || KeyPart(y, x, le) == []
  {
  }

  lemma {:induction false} InsertSameKey<T(!new)>(t: seq<T>, y: T, x: T, le: (T, T) -> bool)
    requires Transitive(le)
    ensures SameKey(Insert(t, y, le), x, le) == SameKey(t, x, le) + KeyPart(y, x, le)
  {
    if t == [] {
      SameKeySnoc([], y, x, le);
    } else if !le(t[|t| - 1], y) {
      var init, last := t[..|t| - 1], t[|t| - 1];
      assert t == init + [last];
      InsertSameKey(init, y, x, le);
      SwapStep(init, last, y, x, le);
    } else {
      SameKeySnoc(t, y, x, le);
    }
  }

  /** `y` moves in front of `last`, which is above it in key order. */
  lemma SwapStep<T(!new)>(init: seq<T>, last: T, y: T, x: T, le: (T, T) -> bool)
    requires Transitive(le) && !le(last, y)
    requires SameKey(Insert(init, y, le), x, le) == SameKey(init, x, le) + KeyPart(y, x, le)
    ensures SameKey(Insert(init, y, le) + [last], x, le) == SameKey(init + [last], x, le) + KeyPart(y, x, le)
  {
    SameKeySnoc(Insert(init, y, le), last, x, le);
    SameKeySnoc(init, last, x, le);
    KeyPartsExclusive(last, y, x, le);
  }

  /** Stability: elements with equal keys keep their input order. */
  lemma {:induction false} SortStable<T(!new)>(s: seq<T>, x: T, le: (T, T) -> bool)
    requires Transitive(le)
    ensures SameKey(Sort(s, le), x, le) == SameKey(s, x, le)
  {
    if s != [] {
      SortStable(s[..|s| - 1], x, le);
      InsertSameKey(Sort(s[..|s| - 1], le), s[|s| - 1], x, le);
    }
  }

  /** Sorting keeps exactly the elements it was given. */
  lemma SortMembers<T>(s: seq<T>, le: (T, T) -> bool)
    ensures forall x :: x in Sort(s, le) <==> x in s
  {
    SortPermutes(s, le);
    forall x ensures x in Sort(s, le) <==> x in s {
      assert x in Sort(s, le) <==> x in multiset(Sort(s, le));
      assert x in s <==> x in multiset(s);
    }
  }

  /** `p` holds between every two elements at different positions. */
  ghost predicate AllPairs<T>(s: seq<T>, p: (T, T) -> bool) {
    forall i, j :: 0 <= i < |s| && 0 <= j < |s| && i != j ==> p(s[i], s[j])
  }

  lemma {:induction false} InsertAllPairs<T>(t: seq<T>, x: T, le: (T, T) -> bool, p: (T, T) -> bool)
    requires AllPairs(t, p)
    requires forall i :: 0 <= i < |t| ==> p(x, t[i]) && p(t[i], x)
    ensures AllPairs(Insert(t, x, le), p)
  {
    if t != [] && !le(t[|t| - 1], x) {
      var init, last := t[..|t| - 1], t[|t| - 1];
      var u := Insert(init, x, le);
      InsertAllPairs(init, x, le, p);
      InsertPermutes(init, x, le);
      var r := u + [last];
      forall i, j | 0 <= i < |r| && 0 <= j < |r| && i != j ensures p(r[i], r[j]) {
        if i < |u| && j < |u| {
          assert r[i] == u[i] && r[j] == u[j];
        } else {
          var k := if i < |u| then i else j;
          assert u[k] in multiset(u);
          if u[k] != x {
            assert u[k] in multiset(init);
            var m :| 0 <= m < |init| && init[m] == u[k];
            assert t[m] == u[k] && t[|t| - 1] == last;
          }
        }
      }
    }
  }

  /** A relation that holds between any two elements still does after sorting. */
  lemma {:induction false} SortAllPairs<T>(s: seq<T>, le: (T, T) -> bool, p: (T, T) -> bool)
    requires AllPairs(s, p)
    ensures AllPairs(Sort(s, le), p)
  {
    if s != [] {
      var init, last := s[..|s| - 1], s[|s| - 1];
      var sorted := Sort(init, le);
      SortAllPairs(init, le, p);
      SortPermutes(init, le);
      forall i | 0 <= i < |sorted| ensures p(last, sorted[i]) && p(sorted[i], last) {
        assert sorted[i] in multiset(sorted);
        assert sorted[i] in multiset(init);
        var m :| 0 <= m < |init| && init[m] == sorted[i];
        assert s[m] == sorted[i];
      }
      InsertAllPairs(sorted, last, le, p);
    }
  }
}
