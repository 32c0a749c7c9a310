/** Order-preserving filtering of sequences, the model of JavaScript's `Array.filter`. */
module Seqs {

  /** `a` is `b` with some elements left out, the rest kept in order. */
  predicate SubList<T(==)>(a: seq<T>, b: seq<T>)
    decreases |b|
  {
    a == [] || (b != [] && ((a[0] == b[0] && SubList(a[1..], b[1..])) || SubList(a, b[1..])))
  }

  /** `s.filter(p)`: the elements of `s` satisfying `p`, in their order in `s`. */
  function Filter<T(==,!new)>(s: seq<T>, p: T -> bool): (r: seq<T>)
    ensures |r| <= |s|
    ensures forall x :: x in r <==> x in s && p(x)
  {
    if s == [] then [] else (if p(s[0]) then [s[0]] else []) + Filter(s[1..], p)
  }

  /** Filtering keeps the relative order: it yields a sub-list. */
  lemma {:induction false} FilterIsSubList<T(!new)>(s: seq<T>, p: T -> bool)
    ensures SubList(Filter(s, p), s)
  {
    if s != [] {
      FilterIsSubList(s[1..], p);
      var rest := Filter(s[1..], p);
      if p(s[0]) {
        assert Filter(s, p) == [s[0]] + rest;
        assert ([s[0]] + rest)[1..] == rest;
      } else {
        assert Filter(s, p) == rest;
        if rest != [] {
          assert SubList(rest, s);
        }
      }
    }
  }

  /** Filtering keeps every copy of a kept element and drops every copy of
      the others: each element occurs as often as in `s`, or not at all. */
  lemma {:induction false} FilterMultiset<T(!new)>(s: seq<T>, p: T -> bool)
    ensures forall x :: multiset(Filter(s, p))[x] == if p(x) then multiset(s)[x] else 0
  {
    if s != [] {
      FilterMultiset(s[1..], p);
      assert s == [s[0]] + s[1..];
    }
  }

  lemma {:induction false} SubListReflexive<T>(s: seq<T>)
    ensures SubList(s, s)
  {
    if s != [] {
      SubListReflexive(s[1..]);
    }
  }

  /** Filtering distributes over concatenation. */
  lemma {:induction false} FilterAppend<T(!new)>(a: seq<T>, b: seq<T>, p: T -> bool)
    ensures Filter(a + b, p) == Filter(a, p) + Filter(b, p)
  {
    if a == [] {
      assert a + b == b;
    } else {
      assert (a + b)[1..] == a[1..] + b;
      FilterAppend(a[1..], b, p);
    }
  }

  /** Filtering with a predicate rejecting every element gives the empty list. */
  lemma {:induction false} FilterDropsAll<T(!new)>(s: seq<T>, p: T -> bool)
    requires forall i :: 0 <= i < |s| ==> !p(s[i])
    ensures Filter(s, p) == []
  {
    if s != [] {
      FilterDropsAll(s[1..], p);
    }
  }

  /** No element occurs twice. */
  predicate NoDuplicates<T(==)>(s: seq<T>) {
    forall i, j :: 0 <= i < j < |s| ==> s[i] != s[j]
  }

  /** A sub-list stays one when the longer list grows at the end. */
  lemma {:induction false} SubListExtend<T>(a: seq<T>, b: seq<T>, x: T)
    requires SubList(a, b)
    ensures SubList(a, b + [x])
    decreases |b|
  {
    if a != [] {
      assert (b + [x])[0] == b[0] && (b + [x])[1..] == b[1..] + [x];
      if a[0] == b[0] && SubList(a[1..], b[1..]) {
        SubListExtend(a[1..], b[1..], x);
      } else {
        SubListExtend(a, b[1..], x);
      }
    }
  }

  /** Both lists growing by the same last element keeps a sub-list. */
  lemma {:induction false} SubListSnoc<T>(a: seq<T>, b: seq<T>, x: T)
    requires SubList(a, b)
    ensures SubList(a + [x], b + [x])
    decreases |b|
  {
    if a == [] {
      assert a + [x] == [x];
      SubListLast(b, x);
    } else {
      assert (b + [x])[0] == b[0] && (b + [x])[1..] == b[1..] + [x];
      assert (a + [x])[0] == a[0] && (a + [x])[1..] == a[1..] + [x];
      if a[0] == b[0] && SubList(a[1..], b[1..]) {
        SubListSnoc(a[1..], b[1..], x);
      } else {
        SubListSnoc(a, b[1..], x);
      }
    }
  }

  lemma {:induction false} SubListLast<T>(b: seq<T>, x: T)
    ensures SubList([x], b + [x])
    decreases |b|
  {
    if b == [] {
      assert [x][1..] == [];
    } else {
      assert (b + [x])[1..] == b[1..] + [x];
      SubListLast(b[1..], x);
    }
  }

  /** A list without repeats has as many distinct elements as it has elements. */
  lemma {:induction false} DistinctCard<T>(s: seq<T>)
    requires NoDuplicates(s)
    ensures |set x | x in s| == |s|
  {
    if s != [] {
      var prev := s[..|s| - 1];
      DistinctCard(prev);
      assert (set x | x in s) == (set x | x in prev) + {s[|s| - 1]};
      assert s[|s| - 1] !in prev;
    }
  }
}
