/** Ruby's Array#select, Array#uniq and Array#index, stated on sequences. */
module Sequences {

  /** `sub` is `s` with some elements left out and the others kept in their order. */
  ghost predicate IsSubsequence<T>(sub: seq<T>, s: seq<T>)
    decreases |s|
  {
    if s == [] then sub == []
    else IsSubsequence(sub, s[1..]) || (sub != [] && sub[0] == s[0] && IsSubsequence(sub[1..], s[1..]))
  }

  /** No element occurs twice. */
  predicate Distinct<T(==)>(s: seq<T>) {
    forall i, j :: 0 <= i < j < |s| ==> s[i] != s[j]
  }

  /** Array#select: the elements of `s` that `keep` accepts, in their order. */
  function Filter<T(!new)>(s: seq<T>, keep: T -> bool): (r: seq<T>)
    ensures |r| <= |s|
    ensures forall x :: x in r <==> x in s && keep(x)
    ensures IsSubsequence(r, s)
    ensures forall x :: multiset(r)[x] == if keep(x) then multiset(s)[x] else 0
  {
    assert s != [] ==> s == [s[0]] + s[1..];
    if s == [] then []
    else if keep(s[0]) then [s[0]] + Filter(s[1..], keep)
    else Filter(s[1..], keep)
  }

  /** Filtering keeps everything exactly when every element is accepted. */
  lemma {:induction false} FilterKeepsAll<T(!new)>(s: seq<T>, keep: T -> bool)
    ensures Filter(s, keep) == s <==> forall x :: x in s ==> keep(x)
    ensures |Filter(s, keep)| == |s| <==> forall x :: x in s ==> keep(x)
  {
    if s != [] {
      FilterKeepsAll(s[1..], keep);
      if !keep(s[0]) {
        assert |Filter(s, keep)| <= |s[1..]|;
      }
    }
  }

  /** Filtering drops everything when no element is accepted. */
  lemma {:induction false} FilterKeepsNone<T(!new)>(s: seq<T>, keep: T -> bool)
    requires forall x :: x in s ==> !keep(x)
    ensures Filter(s, keep) == []
  {
    if s != [] {
      FilterKeepsNone(s[1..], keep);
    }
  }

  /** Two selects in a row are one select by the conjunction. */
  lemma {:induction false} FilterFilter<T(!new)>(s: seq<T>, p: T -> bool, q: T -> bool, both: T -> bool)
    requires forall x :: both(x) == (p(x) && q(x))
    ensures Filter(Filter(s, p), q) == Filter(s, both)
  {
    if s != [] {
      FilterFilter(s[1..], p, q, both);
    }
  }

  /** Array#index: the position of the first occurrence of `x`. */
  function IndexOf<T(==)>(s: seq<T>, x: T): (i: nat)
    requires x in s
    ensures i < |s| && s[i] == x
    ensures forall k :: 0 <= k < i ==> s[k] != x
  {
    if s[0] == x then 0 else 1 + IndexOf(s[1..], x)
  }

  /** In a sequence without repetitions the index of the element at `i` is `i`. */
  lemma IndexOfDistinct<T(!new)>(s: seq<T>, i: nat)
    requires Distinct(s) && i < |s|
    ensures IndexOf(s, s[i]) == i
  {
  }

  /** The first occurrence of an element of a prefix lies in that prefix. */
  lemma IndexOfPrefix<T(!new)>(p: seq<T>, q: seq<T>, x: T)
    requires x in p
    ensures IndexOf(p + q, x) == IndexOf(p, x)
  {
    assert (p + q)[IndexOf(p, x)] == x;
  }

  /** Array#uniq: the distinct elements of `s`, each where it first occurs. */
  function Uniq<T(==,!new)>(s: seq<T>): (r: seq<T>)
    ensures forall x :: x in r <==> x in s
    ensures Distinct(r)
    ensures |r| <= |s|
    decreases |s|
  {
    if s == [] then []
    else
      var u := Uniq(s[..|s| - 1]);
      if s[|s| - 1] in u then u else u + [s[|s| - 1]]
  }

  /** The elements of Uniq(s) appear in the order of their first occurrences in s. */
  lemma {:induction false} UniqFirstOccurrenceOrder<T(!new)>(s: seq<T>, i: nat, j: nat)
    requires i < j < |Uniq(s)|
    ensures IndexOf(s, Uniq(s)[i]) < IndexOf(s, Uniq(s)[j])
    decreases |s|
  {
    var init, last := s[..|s| - 1], s[|s| - 1];
    assert s == init + [last];
    var u := Uniq(init);
    if last in u || j < |u| {
      UniqFirstOccurrenceOrder(init, i, j);
      IndexOfPrefix(init, [last], u[i]);
      IndexOfPrefix(init, [last], u[j]);
    } else {
      IndexOfPrefix(init, [last], u[i]);
      assert Uniq(s)[j] == last;
      assert last !in init;
      assert IndexOf(s, last) == |s| - 1;
    }
  }

  /** Concatenation is associative. */
  lemma AppendAssoc<T>(a: seq<T>, b: seq<T>, c: seq<T>)
    ensures a + (b + c) == (a + b) + c
  {
  }

  /** Moving the split point of a concatenation around one element. */
  lemma AppendRegroup<T>(a: seq<T>, b: seq<T>, x: T, c: seq<T>)
    ensures a + (b + [x] + c) == (a + b + [x]) + c
  {
  }

  /** The elements of a three-part concatenation whose last part is empty. */
  lemma AppendIndex<T>(a: seq<T>, b: seq<T>, c: seq<T>)
    requires c == []
    ensures |a + b + c| == |a| + |b|
    ensures forall k :: 0 <= k < |a| ==> (a + b + c)[k] == a[k]
    ensures forall k :: 0 <= k < |b| ==> (a + b + c)[|a| + k] == b[k]
  {
  }

  /** A three-part concatenation with two empty parts is its third part. */
  lemma AppendOnlyOne<T>(a: seq<T>, b: seq<T>, c: seq<T>, x: seq<T>)
    requires (a == x && b == [] && c == []) || (a == [] && b == x && c == []) || (a == [] && b == [] && c == x)
    ensures a + b + c == x
  {
  }

  /** Extending a list whose elements are `f` of a prefix of `xs` by `f` of the
      last element of `xs` gives `f` of every element. */
  lemma SnocMapped<T, U>(xs: seq<T>, front: seq<U>, last: U, f: T -> U)
    requires xs != [] && |front| == |xs| - 1
    requires forall k :: 0 <= k < |front| ==> front[k] == f(xs[k])
    requires last == f(xs[|xs| - 1])
    ensures |front + [last]| == |xs|
    ensures forall k :: 0 <= k < |xs| ==> (front + [last])[k] == f(xs[k])
  {
  }
}
