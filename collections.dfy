/**
 The array operations the availability filter is built from: JavaScript's
 `Array.prototype.filter` and lodash's `_.find` and `_.findLast`, modelled
 as functions over sequences. A lookup that JavaScript answers with
 `undefined` answers `None` here.
 */
module Collections {

  datatype Option<+T> = None | Some(value: T)

  /** `r` is obtained from `s` by deleting some of its elements, keeping
      the order of the rest. */
  ghost predicate IsSubsequence<T>(r: seq<T>, s: seq<T>)
    decreases |s|
  {
    if s == [] then r == []
    else (r != [] && r[0] == s[0] && IsSubsequence(r[1..], s[1..])) || IsSubsequence(r, s[1..])
  }

  /** `s.filter(p)`: the elements of `s` that satisfy `p`, in their order. */
  function Filter<T>(s: seq<T>, p: T -> bool): seq<T>
  {
    if s == [] then []
    else if p(s[0]) then [s[0]] + Filter(s[1..], p)
    else Filter(s[1..], p)
  }

  /** What `filter` promises: a subsequence of its input holding exactly the
      elements that satisfy the predicate, every occurrence of a kept element
      kept. */
  lemma {:induction false} FilterSpec<T(!new)>(s: seq<T>, p: T -> bool)
    ensures IsSubsequence(Filter(s, p), s)
    ensures forall x :: x in Filter(s, p) <==> x in s && p(x)
    ensures forall x :: multiset(Filter(s, p))[x] == if p(x) then multiset(s)[x] else 0
  {
    if s != [] {
      var rest := Filter(s[1..], p);
      FilterSpec(s[1..], p);
      assert s == [s[0]] + s[1..];
      assert multiset(s) == multiset{s[0]} + multiset(s[1..]);
      if p(s[0]) {
        assert multiset([s[0]] + rest) == multiset{s[0]} + multiset(rest);
        assert ([s[0]] + rest)[1..] == rest;
      }
    }
  }

  lemma {:induction false} FilterConcat<T>(a: seq<T>, b: seq<T>, p: T -> bool)
    ensures Filter(a + b, p) == Filter(a, p) + Filter(b, p)
  {
    if a != [] {
      assert (a + b)[1..] == a[1..] + b;
      FilterConcat(a[1..], b, p);
    } else {
      assert a + b == b;
    }
  }

  lemma {:induction false} FilterCongruence<T>(s: seq<T>, p: T -> bool, q: T -> bool)
    requires forall x :: x in s ==> p(x) == q(x)
    ensures Filter(s, p) == Filter(s, q)
  {
    if s != [] {
      assert forall x :: x in s[1..] ==> x in s;
      FilterCongruence(s[1..], p, q);
    }
  }

  lemma {:induction false} FilterAll<T>(s: seq<T>, p: T -> bool)
    requires forall x :: x in s ==> p(x)
    ensures Filter(s, p) == s
  {
    if s != [] {
      assert forall x :: x in s[1..] ==> x in s;
      FilterAll(s[1..], p);
    }
  }

  lemma {:induction false} FilterNone<T>(s: seq<T>, p: T -> bool)
    requires forall x :: x in s ==> !p(x)
    ensures Filter(s, p) == []
  {
    if s != [] {
      assert forall x :: x in s[1..] ==> x in s;
      FilterNone(s[1..], p);
    }
  }

  /** `_.find(s, p)`: the first element of `s` that satisfies `p`. */
  function Find<T>(s: seq<T>, p: T -> bool): Option<T>
  {
    if s == [] then None
    else if p(s[0]) then Some(s[0])
    else Find(s[1..], p)
  }

  /** `Find` answers `None` exactly when no element qualifies, and otherwise
      an element that qualifies with none before it qualifying. */
  lemma {:induction false} FindSpec<T>(s: seq<T>, p: T -> bool)
    ensures Find(s, p).None? <==> forall i :: 0 <= i < |s| ==> !p(s[i])
    ensures Find(s, p).Some? ==>
      exists i :: 0 <= i < |s| && s[i] == Find(s, p).value && p(s[i]) && forall j :: 0 <= j < i ==> !p(s[j])
  {
    if s != [] && !p(s[0]) {
      FindSpec(s[1..], p);
      assert forall j :: 1 <= j < |s| ==> s[j] == s[1..][j - 1];
      if Find(s[1..], p).Some? {
        var i :| 0 <= i < |s[1..]| && s[1..][i] == Find(s[1..], p).value && p(s[1..][i])
          && forall j :: 0 <= j < i ==> !p(s[1..][j]);
        assert s[i + 1] == Find(s, p).value && forall j :: 0 <= j < i + 1 ==> !p(s[j]);
      }
    } else if s != [] {
      assert s[0] == Find(s, p).value;
    }
  }

  /** `_.findLast(s, p)`: the last element of `s` that satisfies `p`
      (lodash scans from the end). */
  function FindLast<T>(s: seq<T>, p: T -> bool): Option<T>
  {
    if s == [] then None
    else if p(s[|s| - 1]) then Some(s[|s| - 1])
    else FindLast(s[..|s| - 1], p)
  }

  /** `FindLast` answers `None` exactly when no element qualifies, and
      otherwise an element that qualifies with none after it qualifying. */
  lemma {:induction false} FindLastSpec<T>(s: seq<T>, p: T -> bool)
    ensures FindLast(s, p).None? <==> forall i :: 0 <= i < |s| ==> !p(s[i])
    ensures FindLast(s, p).Some? ==>
      exists i :: 0 <= i < |s| && s[i] == FindLast(s, p).value && p(s[i]) && forall j :: i < j < |s| ==> !p(s[j])
  {
    if s != [] && !p(s[|s| - 1]) {
      var init := s[..|s| - 1];
      FindLastSpec(init, p);
      assert forall j :: 0 <= j < |init| ==> s[j] == init[j];
      if FindLast(init, p).Some? {
        var i :| 0 <= i < |init| && init[i] == FindLast(init, p).value && p(init[i])
          && forall j :: i < j < |init| ==> !p(init[j]);
        assert s[i] == FindLast(s, p).value && forall j :: i < j < |s| ==> !p(s[j]);
      }
    } else if s != [] {
      assert s[|s| - 1] == FindLast(s, p).value;
    }
  }
}
