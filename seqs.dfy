/**
  * Array helpers used by the gallery and the catalog passes: `Array.filter`,
  * the subsequence relation, duplicate-freedom, and the iteration order of a
  * JavaScript `Set` filled by `forEach(add)`.
  */
module Seqs {

  /** `s.map(f)`, built element by element from the front. */
  function Map<A, B>(s: seq<A>, f: A -> B): (r: seq<B>)
    ensures |r| == |s|
    decreases |s|
  {
    if |s| == 0 then [] else Map(s[..|s| - 1], f) + [f(s[|s| - 1])]
  }

  lemma {:induction false} MapAt<A, B>(s: seq<A>, f: A -> B, i: nat)
    requires i < |s|
    ensures Map(s, f)[i] == f(s[i])
    decreases |s|
  {
    var n := |s| - 1;
    if i < n {
      MapAt(s[..n], f, i);
      assert s[..n][i] == s[i];
    }
  }

  /** Two appends in a row: `b` extends `a`, `c` extends `b`, so `c` extends `a`. */
  lemma ExtendTwice<T>(a: seq<T>, b: seq<T>, c: seq<T>)
    requires |a| <= |b| <= |c| && b[..|a|] == a && c[..|b|] == b
    ensures c[..|a|] == a
    ensures c[|a|..] == b[|a|..] + c[|b|..]
  {
    assert c[..|a|] == c[..|b|][..|a|];
  }

  /** A sequence is its three slices at `i` and `j` put back together. */
  lemma ThreeSlices<T>(s: seq<T>, i: nat, j: nat)
    requires i <= j <= |s|
    ensures s[..i] + s[i..j] + s[j..] == s
  {
    assert s[..i] + s[i..j] == s[..j];
  }

  /** `s.filter(p)`: keeps, in order, the elements satisfying `p`. */
  function Filter<T(==)>(s: seq<T>, p: T -> bool): (r: seq<T>)
    ensures |r| <= |s|
  {
    if |s| == 0 then []
    else if p(s[0]) then [s[0]] + Filter(s[1..], p)
    else Filter(s[1..], p)
  }

  /**
    * What `Filter` keeps: exactly the elements of `s` satisfying `p`.
    * Stated apart from `Filter` so that its quantifiers are in scope only
    * where they are needed.
    */
  lemma {:induction false} FilterMembers<T>(s: seq<T>, p: T -> bool)
    ensures forall i :: 0 <= i < |Filter(s, p)| ==> Filter(s, p)[i] in s && p(Filter(s, p)[i])
    ensures forall i :: 0 <= i < |s| && p(s[i]) ==> s[i] in Filter(s, p)
    ensures forall x :: multiset(Filter(s, p))[x] == if p(x) then multiset(s)[x] else 0
  {
    if |s| > 0 {
      FilterMembers(s[1..], p);
      assert forall i :: 1 <= i < |s| ==> s[i] == s[1..][i - 1];
      assert s == [s[0]] + s[1..];
    }
  }

  lemma {:induction false} FilterAppend<T>(s: seq<T>, t: seq<T>, p: T -> bool)
    ensures Filter(s + t, p) == Filter(s, p) + Filter(t, p)
  {
    if |s| > 0 {
      assert (s + t)[1..] == s[1..] + t;
      FilterAppend(s[1..], t, p);
    } else {
      assert s + t == t;
    }
  }

  lemma FilterLast<T>(s: seq<T>, p: T -> bool)
    requires |s| > 0
    ensures Filter(s, p) == Filter(s[..|s| - 1], p) + (if p(s[|s| - 1]) then [s[|s| - 1]] else [])
  {
    var n := |s| - 1;
    assert s == s[..n] + [s[n]];
    FilterAppend(s[..n], [s[n]], p);
  }

  lemma {:induction false} FilterKeepsAll<T>(s: seq<T>, p: T -> bool)
    requires forall x :: x in s ==> p(x)
    ensures Filter(s, p) == s
  {
    if |s| > 0 {
      FilterKeepsAll(s[1..], p);
    }
  }

  /** A property every element has, every kept element has. */
  lemma {:induction false} FilterAllHold<T>(s: seq<T>, p: T -> bool, q: T -> bool)
    requires forall i :: 0 <= i < |s| ==> q(s[i])
    ensures forall i :: 0 <= i < |Filter(s, p)| ==> q(Filter(s, p)[i])
  {
    if |s| > 0 {
      assert forall i :: 1 <= i < |s| ==> s[1..][i - 1] == s[i];
      FilterAllHold(s[1..], p, q);
    }
  }

  lemma {:induction false} FilterKeepsNone<T>(s: seq<T>, p: T -> bool)
    requires forall x :: x in s ==> !p(x)
    ensures Filter(s, p) == []
  {
    if |s| > 0 {
      FilterKeepsNone(s[1..], p);
    }
  }

  /** Filtering out one value drops exactly its occurrences. */
  lemma {:induction false} FilterOutCount<T>(s: seq<T>, x: T, p: T -> bool)
    requires forall y :: p(y) <==> y != x
    ensures |Filter(s, p)| + multiset(s)[x] == |s|
  {
    if |s| > 0 {
      FilterOutCount(s[1..], x, p);
      assert s == [s[0]] + s[1..];
      assert multiset(s) == multiset([s[0]]) + multiset(s[1..]);
    }
  }

  /** A filter of a duplicate-free sequence is duplicate-free. */
  lemma {:induction false} FilterNoDup<T>(s: seq<T>, p: T -> bool)
    requires NoDup(s)
    ensures NoDup(Filter(s, p))
  {
    if |s| > 0 {
      var t := s[1..];
      assert NoDup(t) by {
        forall i, j | 0 <= i < j < |t|
          ensures t[i] != t[j]
        {
          assert t[i] == s[i + 1] && t[j] == s[j + 1];
        }
      }
      FilterNoDup(t, p);
      if p(s[0]) {
        FilterMembers(t, p);
        var r := Filter(t, p);
        assert s[0] !in t;
        assert s[0] !in r;
        assert Filter(s, p) == [s[0]] + r;
      }
    }
  }

  /** `Filter` keeps the order of what it keeps. */
  lemma {:induction false} FilterIsSubseq<T>(s: seq<T>, p: T -> bool)
    ensures IsSubseq(Filter(s, p), s)
  {
    if |s| > 0 {
      FilterIsSubseq(s[1..], p);
      if !p(s[0]) {
        SubseqOfTail(Filter(s[1..], p), s);
      }
    }
  }

  lemma {:induction false} SubseqOfTail<T>(a: seq<T>, b: seq<T>)
    requires |b| > 0 && IsSubseq(a, b[1..])
    ensures IsSubseq(a, b)
    decreases |b|, 0
  {
    if |a| > 0 && a[0] == b[0] {
      SubseqDropHead(a, b[1..]);
    }
  }

  lemma {:induction false} SubseqDropHead<T>(a: seq<T>, b: seq<T>)
    requires |a| > 0 && IsSubseq(a, b)
    ensures IsSubseq(a[1..], b)
    decreases |b|, 1
  {
    if a[0] != b[0] {
      SubseqDropHead(a, b[1..]);
    }
    SubseqOfTail(a[1..], b);
  }

  /** `a` is `b` with some elements deleted (order kept). */
  predicate IsSubseq<T(==)>(a: seq<T>, b: seq<T>)
    decreases |b|
  {
    if |a| == 0 then true
    else if |b| == 0 then false
    else if a[0] == b[0] then IsSubseq(a[1..], b[1..])
    else IsSubseq(a, b[1..])
  }

  predicate NoDup<T(==)>(s: seq<T>)
  {
    forall i, j :: 0 <= i < j < |s| ==> s[i] != s[j]
  }

  /** Index of the first occurrence of `x` in `s`. */
  function FirstIndex<T(==)>(s: seq<T>, x: T): (i: nat)
    requires x in s
    ensures i < |s| && s[i] == x && x !in s[..i]
  {
    if s[0] == x then 0
    else
      var k := FirstIndex(s[1..], x);
      assert s[..k + 1] == [s[0]] + s[1..][..k];
      k + 1
  }

  lemma {:induction false} FirstIndexSnoc<T>(s: seq<T>, x: T, y: T)
    requires y in s
    ensures FirstIndex(s + [x], y) == FirstIndex(s, y)
  {
    if s[0] != y {
      assert (s + [x])[1..] == s[1..] + [x];
      FirstIndexSnoc(s[1..], x, y);
    }
  }

  /**
    * The elements of a `Set` after `s.forEach(x => set.add(x))`, in the
    * set's iteration order: each value enters at the end on its first `add`.
    */
  function UniqueInOrder<T(==)>(s: seq<T>): (r: seq<T>)
    ensures NoDup(r)
    ensures forall i :: 0 <= i < |r| ==> r[i] in s
    ensures forall i :: 0 <= i < |s| ==> s[i] in r
  {
    if |s| == 0 then []
    else
      var u := UniqueInOrder(s[..|s| - 1]);
      assert s == s[..|s| - 1] + [s[|s| - 1]];
      if s[|s| - 1] in u then u else u + [s[|s| - 1]]
  }

  /** The distinct values come out in the order of their first appearance in `s`. */
  lemma {:induction false} UniqueInOrderFirstAppearance<T>(s: seq<T>)
    ensures forall i, j :: 0 <= i < j < |UniqueInOrder(s)| ==>
      FirstIndex(s, UniqueInOrder(s)[i]) < FirstIndex(s, UniqueInOrder(s)[j])
  {
    if |s| > 0 {
      var p, x := s[..|s| - 1], s[|s| - 1];
      assert s == p + [x];
      var u := UniqueInOrder(p);
      UniqueInOrderFirstAppearance(p);
      forall y | y in u
        ensures FirstIndex(s, y) == FirstIndex(p, y)
      {
        FirstIndexSnoc(p, x, y);
      }
      if x !in u {
        assert FirstIndex(s, x) == |p| by {
          assert x !in p;
          assert s[..|p|] == p;
        }
        assert UniqueInOrder(s) == u + [x];
      }
    }
  }
}
