/** The JavaScript array built-ins the catalog code is written with:
    `find`, `filter`, `map` and `Array.from(new Set(...))`, as recursive
    functions over sequences, with the facts the queries rely on. */
module ArrayOps {
  import opened Wrappers

  /** `a` occurs in `b` in order, possibly with gaps (greedy matching). */
  predicate IsSubseq<T(==)>(a: seq<T>, b: seq<T>)
    decreases |b|
  {
    if |a| == 0 then true
    else if |b| == 0 then false
    else if a[0] == b[0] then IsSubseq(a[1..], b[1..])
    else IsSubseq(a, b[1..])
  }

  /** Index `i` holds the first element of `s` that satisfies `p`. */
  predicate IsFirstMatch<T>(s: seq<T>, p: T -> bool, i: int)
  {
    0 <= i < |s| && p(s[i]) && forall j :: 0 <= j < i ==> !p(s[j])
  }

  /** `s.find(p)`: the first element satisfying `p`, or `None` (undefined). */
  function Find<T>(s: seq<T>, p: T -> bool): (r: Option<T>)
    ensures r.None? <==> forall i :: 0 <= i < |s| ==> !p(s[i])
    ensures forall i :: IsFirstMatch(s, p, i) ==> r == Some(s[i])
  {
    if |s| == 0 then None
    else if p(s[0]) then Some(s[0])
    else
      var r := Find(s[1..], p);
      assert forall i :: IsFirstMatch(s, p, i) ==> IsFirstMatch(s[1..], p, i - 1);
      r
  }

  /** `s.filter(p)`: the elements satisfying `p`, in their original order. */
  function Filter<T(==,!new)>(s: seq<T>, p: T -> bool): (r: seq<T>)
    ensures |r| <= |s|
    ensures forall x :: x in r <==> x in s && p(x)
  {
    if |s| == 0 then []
    else if p(s[0]) then
      var rest := Filter(s[1..], p);
      assert ([s[0]] + rest)[1..] == rest;
      [s[0]] + rest
    else
      Filter(s[1..], p)
  }

  /** What `filter` keeps, it keeps in the order of the input. */
  lemma {:induction false} FilterIsSubseq<T(!new)>(s: seq<T>, p: T -> bool)
    ensures IsSubseq(Filter(s, p), s)
  {
    if |s| > 0 {
      FilterIsSubseq(s[1..], p);
      if p(s[0]) {
        var rest := Filter(s[1..], p);
        assert Filter(s, p) == [s[0]] + rest;
        assert ([s[0]] + rest)[1..] == rest;
      }
    }
  }

  /** `s.map(f)`. */
  function Map<T, U>(s: seq<T>, f: T -> U): (r: seq<U>)
    ensures |r| == |s|
    ensures forall i :: 0 <= i < |s| ==> r[i] == f(s[i])
  {
    if |s| == 0 then [] else [f(s[0])] + Map(s[1..], f)
  }

  /** No element occurs twice. */
  predicate NoDuplicates<T(==)>(s: seq<T>)
  {
    forall i, j :: 0 <= i < j < |s| ==> s[i] != s[j]
  }

  /** The position of the first occurrence of `x` in `s`. */
  function FirstIndex<T(==)>(s: seq<T>, x: T): (i: nat)
    requires x in s
    ensures i < |s| && s[i] == x
    ensures forall j :: 0 <= j < i ==> s[j] != x
  {
    if s[0] == x then 0 else 1 + FirstIndex(s[1..], x)
  }

  /** `Array.from(new Set(s))`: a JavaScript `Set` keeps the order in which
      values were first inserted, so this is the Set after inserting the
      elements of `s` one by one, from the left. */
  function Distinct<T(==,!new)>(s: seq<T>): (r: seq<T>)
    ensures forall x :: x in r <==> x in s
    ensures NoDuplicates(r)
    ensures |r| <= |s|
  {
    if |s| == 0 then []
    else
      var d := Distinct(s[..|s| - 1]);
      var x := s[|s| - 1];
      assert forall i :: 0 <= i < |s| - 1 ==> s[i] == s[..|s| - 1][i];
      if x in d then d else d + [x]
  }

  /** Filtering keeps each element's multiplicity when `p` holds of it
      and drops it otherwise. */
  lemma {:induction false} FilterCount<T(!new)>(s: seq<T>, p: T -> bool, x: T)
    ensures multiset(Filter(s, p))[x] == if p(x) then multiset(s)[x] else 0
  {
    if |s| > 0 {
      FilterCount(s[1..], p, x);
      assert s == [s[0]] + s[1..];
      assert multiset(s) == multiset([s[0]]) + multiset(s[1..]);
    }
  }

  /** An element that is kept stays last: filtering does not reorder. */
  lemma {:induction false} FilterLast<T(!new)>(s: seq<T>, p: T -> bool)
    requires |s| > 0 && p(s[|s| - 1])
    ensures var r := Filter(s, p); |r| > 0 && r[|r| - 1] == s[|s| - 1]
  {
    if |s| > 1 {
      var rest := Filter(s[1..], p);
      FilterLast(s[1..], p);
      assert s[1..][|s| - 2] == s[|s| - 1];
      if p(s[0]) {
        assert Filter(s, p) == [s[0]] + rest;
      } else {
        assert Filter(s, p) == rest;
      }
    }
  }

  /** A prefix that contains `x` has its first occurrence where the whole
      sequence has it. */
  lemma {:induction false} FirstIndexPrefix<T>(s: seq<T>, n: nat, x: T)
    requires n <= |s| && x in s[..n]
    ensures x in s && FirstIndex(s, x) == FirstIndex(s[..n], x)
  {
    var k := FirstIndex(s[..n], x);
    assert s[k] == s[..n][k] == x;
  }

  /** `Distinct` lists values in the order of their first appearance. */
  lemma {:induction false} DistinctFirstAppearance<T(!new)>(s: seq<T>)
    ensures forall i, j :: 0 <= i < j < |Distinct(s)| ==>
      Distinct(s)[i] in s && Distinct(s)[j] in s &&
      FirstIndex(s, Distinct(s)[i]) < FirstIndex(s, Distinct(s)[j])
  {
    if |s| > 0 {
      var n := |s| - 1;
      var pre := s[..n];
      var d := Distinct(pre);
      var x := s[n];
      DistinctFirstAppearance(pre);
      forall y | y in d
        ensures y in s && FirstIndex(s, y) == FirstIndex(pre, y) && FirstIndex(s, y) < n
      {
        FirstIndexPrefix(s, n, y);
      }
      var r := Distinct(s);
      if x !in d {
        assert x !in pre;
        assert FirstIndex(s, x) == n;
      }
      forall i, j | 0 <= i < j < |r|
        ensures r[i] in s && r[j] in s && FirstIndex(s, r[i]) < FirstIndex(s, r[j])
      {
        assert r[i] == d[i] && r[i] in d;
        if j < |d| {
          assert r[j] == d[j] && r[j] in d;
        } else {
          assert r[j] == x;
        }
      }
    } else {
      assert Distinct(s) == [];
    }
  }

  /** Filtering a concatenation filters each part. */
  lemma {:induction false} FilterAppend<T(!new)>(a: seq<T>, b: seq<T>, p: T -> bool)
    ensures Filter(a + b, p) == Filter(a, p) + Filter(b, p)
  {
    if |a| == 0 {
      assert a + b == b;
    } else {
      assert (a + b)[1..] == a[1..] + b;
      FilterAppend(a[1..], b, p);
    }
  }
}
