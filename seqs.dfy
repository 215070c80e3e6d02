/** Order-preserving selection from a sequence (JavaScript's `Array.prototype.filter`)
    and the subsequence relation it establishes. */
module Seqs {

  /** `a` can be obtained from `b` by deleting elements, keeping the order of the rest. */
  predicate IsSubsequence<T(==)>(a: seq<T>, b: seq<T>)
    decreases |b|
  {
    a == [] || (b != [] && ((a[0] == b[0] && IsSubsequence(a[1..], b[1..])) || IsSubsequence(a, b[1..])))
  }

  /** The elements of `s` that satisfy `p`, in their original order. */
  function Select<T(==,!new)>(s: seq<T>, p: T -> bool): (r: seq<T>)
    ensures |r| <= |s|
    ensures forall x :: x in r <==> x in s && p(x)
    ensures forall x :: multiset(r)[x] == if p(x) then multiset(s)[x] else 0
  {
    if s == [] then []
    else
      assert s == [s[0]] + s[1..];
      (if p(s[0]) then [s[0]] else []) + Select(s[1..], p)
  }

  lemma SelectCons<T(!new)>(x: T, s: seq<T>, p: T -> bool)
    ensures Select([x] + s, p) == (if p(x) then [x] else []) + Select(s, p)
  {
    assert ([x] + s)[1..] == s;
  }

  lemma {:induction false} SelectIsSubsequence<T(!new)>(s: seq<T>, p: T -> bool)
    ensures IsSubsequence(Select(s, p), s)
  {
    if s != [] {
      var r, rest := Select(s, p), Select(s[1..], p);
      SelectIsSubsequence(s[1..], p);
      if p(s[0]) {
        assert r == [s[0]] + rest;
        assert r[0] == s[0] && r[1..] == rest;
      } else {
        assert r == rest;
      }
    }
  }

  /** Selecting by a predicate every element satisfies gives the sequence back. */
  lemma {:induction false} SelectAll<T(!new)>(s: seq<T>, p: T -> bool)
    requires forall i :: 0 <= i < |s| ==> p(s[i])
    ensures Select(s, p) == s
  {
    if s != [] {
      SelectAll(s[1..], p);
      assert s == [s[0]] + s[1..];
    }
  }

  /** Selecting twice by the same predicate is selecting once. */
  lemma {:induction false} SelectIdempotent<T(!new)>(s: seq<T>, p: T -> bool)
    ensures Select(Select(s, p), p) == Select(s, p)
  {
    var r := Select(s, p);
    forall i | 0 <= i < |r| ensures p(r[i]) {
      assert r[i] in r;
    }
    SelectAll(r, p);
  }

  /** Two neighbours of which at most one is selected can be swapped without changing the selection. */
  lemma SelectSwap<T(!new)>(x: T, y: T, s: seq<T>, p: T -> bool)
    requires !(p(x) && p(y))
    ensures Select([x] + ([y] + s), p) == Select([y] + ([x] + s), p)
  {
    SelectCons(x, [y] + s, p);
    SelectCons(y, s, p);
    SelectCons(y, [x] + s, p);
    SelectCons(x, s, p);
    var rest := Select(s, p);
    if p(x) {
      assert Select([y] + s, p) == rest;
      assert Select([x] + s, p) == [x] + rest;
    } else if p(y) {
      assert Select([x] + s, p) == rest;
      assert Select([y] + s, p) == [y] + rest;
    } else {
      assert Select([x] + s, p) == rest;
      assert Select([y] + s, p) == rest;
    }
  }
}
