/** Filtering, conditional update and pairwise order on sequences: the three
    shapes every statement of the persistence service takes on a table. */
module Seqs {

  /** The elements of `s` that satisfy `p`, in their original order. */
  function Filter<T>(s: seq<T>, p: T -> bool): (r: seq<T>)
    ensures |r| <= |s|
    ensures forall i :: 0 <= i < |r| ==> r[i] in s && p(r[i])
    ensures forall i :: 0 <= i < |s| ==> (s[i] in r <==> p(s[i]))
    decreases |s|
  {
    if s == [] then []
    else Filter(s[..|s| - 1], p) + (if p(s[|s| - 1]) then [s[|s| - 1]] else [])
  }

  /** The complement of a predicate. */
  function Not<T>(p: T -> bool): T -> bool
  {
    x => !p(x)
  }

  /** `s` with `f` applied to every element that satisfies `p`. */
  function MapWhere<T>(s: seq<T>, p: T -> bool, f: T -> T): seq<T>
  {
    seq(|s|, i requires 0 <= i < |s| => if p(s[i]) then f(s[i]) else s[i])
  }

  /** Every earlier element is related by `le` to every later one. */
  predicate Sorted<T>(s: seq<T>, le: (T, T) -> bool)
  {
    forall i, j :: 0 <= i < j < |s| ==> le(s[i], s[j])
  }

  /** Sequences that agree at every index are equal. */
  lemma SameAt<T>(a: seq<T>, b: seq<T>)
    requires |a| == |b|
    requires forall i :: 0 <= i < |a| ==> a[i] == b[i]
    ensures a == b
  {
  }

  /** A non-empty sequence is its front followed by its last element. */
  lemma SplitLast<T>(s: seq<T>)
    requires s != []
    ensures s == s[..|s| - 1] + [s[|s| - 1]]
    ensures multiset(s) == multiset(s[..|s| - 1]) + multiset{s[|s| - 1]}
  {
    assert s == s[..|s| - 1] + [s[|s| - 1]];
  }

  /** One more element of the input extends a filter by at most that
      element: the step of every loop that filters a table row by row. */
  lemma FilterStep<T>(s: seq<T>, p: T -> bool, k: int)
    requires 0 <= k < |s|
    ensures Filter(s[..k + 1], p) == Filter(s[..k], p) + if p(s[k]) then [s[k]] else []
  {
    assert s[..k + 1][..k] == s[..k];
  }

  /** One more element of the input extends a conditional update by that
      element, updated or not. */
  lemma MapWhereStep<T>(s: seq<T>, p: T -> bool, f: T -> T, k: int)
    requires 0 <= k < |s|
    ensures MapWhere(s[..k + 1], p, f) == MapWhere(s[..k], p, f) + [if p(s[k]) then f(s[k]) else s[k]]
  {
    var longer, shorter := MapWhere(s[..k + 1], p, f), MapWhere(s[..k], p, f);
    assert forall i :: 0 <= i < k ==> longer[i] == shorter[i];
    SameAt(longer, shorter + [if p(s[k]) then f(s[k]) else s[k]]);
  }

  lemma JoinParts<T>(a: seq<T>, kept: seq<T>, b: seq<T>, dropped: seq<T>, x: T)
    requires multiset(kept) + multiset(dropped) == multiset{x}
    ensures multiset(a + kept) + multiset(b + dropped) == multiset(a) + multiset(b) + multiset{x}
  {
  }

  lemma {:induction false} FilterConcat<T>(a: seq<T>, b: seq<T>, p: T -> bool)
    ensures Filter(a + b, p) == Filter(a, p) + Filter(b, p)
    decreases |b|
  {
    if b == [] {
      assert a + b == a;
    } else {
      var b' := b[..|b| - 1];
      assert (a + b)[..|a + b| - 1] == a + b';
      assert (a + b)[|a + b| - 1] == b[|b| - 1];
      FilterConcat(a, b', p);
    }
  }

  /** Splitting by `p` and by its complement loses and adds nothing. */
  lemma {:induction false} FilterSplitMultiset<T>(s: seq<T>, p: T -> bool)
    ensures multiset(Filter(s, p)) + multiset(Filter(s, Not(p))) == multiset(s)
    ensures |Filter(s, p)| + |Filter(s, Not(p))| == |s|
    decreases |s|
  {
    var a, b := Filter(s, p), Filter(s, Not(p));
    if s != [] {
      var s' := s[..|s| - 1];
      var x := s[|s| - 1];
      FilterSplitMultiset(s', p);
      var a', b' := Filter(s', p), Filter(s', Not(p));
      var kept := if p(x) then [x] else [];
      var dropped := if p(x) then [] else [x];
      assert a == a' + kept && b == b' + dropped;
      assert multiset(kept) + multiset(dropped) == multiset{x};
      JoinParts(a', kept, b', dropped, x);
      SplitLast(s);
    }
    assert |a| + |b| == |multiset(a) + multiset(b)|;
  }

  /** Filtering by a weaker predicate first changes nothing. */
  lemma {:induction false} FilterNarrow<T>(s: seq<T>, p: T -> bool, q: T -> bool)
    requires forall x :: p(x) ==> q(x)
    ensures Filter(Filter(s, q), p) == Filter(s, p)
    decreases |s|
  {
    if s != [] {
      var s' := s[..|s| - 1];
      var x := s[|s| - 1];
      var tail := if q(x) then [x] else [];
      FilterNarrow(s', p, q);
      FilterConcat(Filter(s', q), tail, p);
      assert Filter(tail, p) == if p(x) then [x] else [] by {
        if q(x) { assert tail[..0] == []; }
      }
    }
  }

  /** A filter whose predicate every element meets is the identity. */
  lemma {:induction false} FilterKeepsAll<T>(s: seq<T>, p: T -> bool)
    requires forall x :: x in s ==> p(x)
    ensures Filter(s, p) == s
    decreases |s|
  {
    if s != [] {
      FilterKeepsAll(s[..|s| - 1], p);
      SplitLast(s);
    }
  }

  /** A filter whose predicate no element meets is empty. */
  lemma {:induction false} FilterDropsAll<T>(s: seq<T>, p: T -> bool)
    requires forall x :: x in s ==> !p(x)
    ensures Filter(s, p) == []
    decreases |s|
  {
    if s != [] {
      FilterDropsAll(s[..|s| - 1], p);
    }
  }

  /** A filter keeps the order of its input. */
  lemma {:induction false} FilterSorted<T>(s: seq<T>, p: T -> bool, le: (T, T) -> bool)
    requires Sorted(s, le)
    ensures Sorted(Filter(s, p), le)
    decreases |s|
  {
    if s != [] {
      var s' := s[..|s| - 1];
      var x := s[|s| - 1];
      assert Sorted(s', le);
      FilterSorted(s', p, le);
      if p(x) {
        var r := Filter(s, p);
        forall i, j | 0 <= i < j < |r|
          ensures le(r[i], r[j])
        {
          if j == |r| - 1 {
            assert r[i] in Filter(s', p);
            var k :| 0 <= k < |s'| && s'[k] == r[i];
            assert s[k] == r[i];
          } else {
            assert r[i] == Filter(s', p)[i] && r[j] == Filter(s', p)[j];
          }
        }
      }
    }
  }

  /** Updating only elements that `q` rejects, into elements `q` rejects,
      leaves the elements `q` selects as they were. */
  lemma {:induction false} FilterAfterMapWhere<T>(s: seq<T>, p: T -> bool, f: T -> T, q: T -> bool)
    requires forall x :: p(x) ==> !q(x) && !q(f(x))
    ensures Filter(MapWhere(s, p, f), q) == Filter(s, q)
    decreases |s|
  {
    if s != [] {
      var s' := s[..|s| - 1];
      var m := MapWhere(s, p, f);
      assert m[..|m| - 1] == MapWhere(s', p, f);
      FilterAfterMapWhere(s', p, f, q);
    }
  }

  /** An update that maps matching elements to matching elements and undoes
      itself restores the sequence when applied twice. */
  lemma MapWhereTwice<T>(s: seq<T>, p: T -> bool, f: T -> T)
    requires forall x :: p(x) ==> p(f(x)) && f(f(x)) == x
    ensures MapWhere(MapWhere(s, p, f), p, f) == s
  {
    var once := MapWhere(s, p, f);
    var twice := MapWhere(once, p, f);
    forall i | 0 <= i < |s|
      ensures twice[i] == s[i]
    {
      if p(s[i]) {
        assert once[i] == f(s[i]);
      }
    }
  }

  // ------------------------------------------------------------- ordering

  /** `le` relates any two values and is transitive. */
  ghost predicate TotalPreorder<T(!new)>(le: (T, T) -> bool)
  {
    (forall a, b :: le(a, b) || le(b, a)) &&
    (forall a, b, c :: le(a, b) && le(b, c) ==> le(a, c))
  }

  /** `x` placed before the first element it is `le` to. */
  function InsertSorted<T>(x: T, s: seq<T>, le: (T, T) -> bool): seq<T>
  {
    if s == [] then [x]
    else if le(x, s[0]) then [x] + s
    else [s[0]] + InsertSorted(x, s[1..], le)
  }

  /** Insertion sort: a reference ordering of `s` by `le`. */
  function SortBy<T>(s: seq<T>, le: (T, T) -> bool): seq<T>
  {
    if s == [] then [] else InsertSorted(s[0], SortBy(s[1..], le), le)
  }

  /** An ordered sequence stays ordered when it gains a head that is `le`
      to each of its elements. */
  lemma ConsSorted<T>(h: T, rest: seq<T>, le: (T, T) -> bool)
    requires Sorted(rest, le)
    requires forall y :: y in rest ==> le(h, y)
    ensures Sorted([h] + rest, le)
  {
    var r := [h] + rest;
    forall i, j | 0 <= i < j < |r|
      ensures le(r[i], r[j])
    {
      assert r[j] == rest[j - 1];
      if i > 0 {
        assert r[i] == rest[i - 1];
      }
    }
  }

  lemma SortedTail<T>(s: seq<T>, le: (T, T) -> bool)
    requires s != [] && Sorted(s, le)
    ensures Sorted(s[1..], le)
    ensures forall y :: y in s[1..] ==> le(s[0], y)
  {
    var t := s[1..];
    forall i, j | 0 <= i < j < |t|
      ensures le(t[i], t[j])
    {
      assert t[i] == s[i + 1] && t[j] == s[j + 1];
    }
  }

  /** Inserting into an ordered sequence adds `x` and keeps the order. */
  lemma {:induction false} InsertSortedKeepsOrder<T(!new)>(x: T, s: seq<T>, le: (T, T) -> bool)
    requires TotalPreorder(le)
    requires Sorted(s, le)
    ensures multiset(InsertSorted(x, s, le)) == multiset(s) + multiset{x}
    ensures Sorted(InsertSorted(x, s, le), le)
    decreases |s|
  {
    if s != [] {
      SortedTail(s, le);
      var t := s[1..];
      if le(x, s[0]) {
        forall y | y in s
          ensures le(x, y)
        {
          if y != s[0] {
            assert y in t;
          }
        }
        ConsSorted(x, s, le);
      } else {
        InsertSortedKeepsOrder(x, t, le);
        var rest := InsertSorted(x, t, le);
        forall y | y in rest
          ensures le(s[0], y)
        {
          assert y in multiset(rest);
          if y != x {
            assert y in multiset(t);
          }
        }
        ConsSorted(s[0], rest, le);
        assert s == [s[0]] + t;
      }
    }
  }

  /** The reference ordering is a rearrangement of its input in `le`
      order, so a total preorder can always be met. */
  lemma {:induction false} SortByOrders<T(!new)>(s: seq<T>, le: (T, T) -> bool)
    requires TotalPreorder(le)
    ensures multiset(SortBy(s, le)) == multiset(s)
    ensures Sorted(SortBy(s, le), le)
    decreases |s|
  {
    if s != [] {
      SortByOrders(s[1..], le);
      InsertSortedKeepsOrder(s[0], SortBy(s[1..], le), le);
      assert s == [s[0]] + s[1..];
    }
  }
}
