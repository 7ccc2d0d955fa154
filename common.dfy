/** Shared vocabulary of the reconciliation core: optional values, results
    that carry the exception a step raises, and a stable filter over
    sequences with the facts every list comprehension of the core relies on. */
module Common {

  datatype Option<+T> = None | Some(value: T)

  /** The exceptions of the core that escape the function raising them. */
  datatype Error =
    | InvertedRange    // `current_year += 1` on an unbound local: UnboundLocalError
    | UnparseableDate  // the date parser rejects the string: ValueError
    | DateOutOfRange   // a date leaves 0001-01-01 .. 9999-12-31: OverflowError
    | MissingEndDate   // neither `end.dateTime` nor `end.date`: parse(None), TypeError

  datatype Result<+T> = Success(value: T) | Failure(error: Error)

  /** `Success(acc + r)` after a `Success(r)`; an exception stays one. */
  function Prepend<T>(acc: seq<T>, r: Result<seq<T>>): Result<seq<T>> {
    match r
    case Success(rest) => Success(acc + rest)
    case Failure(e) => Failure(e)
  }

  lemma PrependNothing<T>(r: Result<seq<T>>)
    ensures Prepend([], r) == r
  {
    if r.Success? {
      assert [] + r.value == r.value;
    }
  }

  /** The elements of `s` that satisfy `p`, in order and with multiplicity:
      Python's `[x for x in s if p(x)]`. */
  function Filter<T(==)>(s: seq<T>, p: T -> bool): (r: seq<T>)
    ensures |r| <= |s|
    ensures forall x :: x in r ==> x in s && p(x)
    decreases |s|
  {
    if s == [] then [] else Filter(s[..|s| - 1], p) + (if p(s[|s| - 1]) then [s[|s| - 1]] else [])
  }

  /** The elements of `s` whose flag in `keep` is set, in order. */
  function Select<T>(s: seq<T>, keep: seq<bool>): seq<T>
    requires |keep| == |s|
    decreases |s|
  {
    if s == [] then [] else Select(s[..|s| - 1], keep[..|s| - 1]) + (if keep[|s| - 1] then [s[|s| - 1]] else [])
  }

  /** `r` is `s` with some elements removed and the rest kept in order. */
  ghost predicate IsSubsequence<T>(r: seq<T>, s: seq<T>)
  {
    exists keep: seq<bool> :: |keep| == |s| && r == Select(s, keep)
  }

  lemma {:induction false} FilterAppend<T>(a: seq<T>, b: seq<T>, p: T -> bool)
    ensures Filter(a + b, p) == Filter(a, p) + Filter(b, p)
    decreases |b|
  {
    if b == [] {
      assert a + b == a;
    } else {
      var n := |b| - 1;
      assert (a + b)[..|a + b| - 1] == a + b[..n];
      FilterAppend(a, b[..n], p);
    }
  }

  /** Filtering a sequence with a first element. */
  lemma FilterCons<T>(x: T, s: seq<T>, p: T -> bool)
    ensures Filter([x] + s, p) == (if p(x) then [x] else []) + Filter(s, p)
  {
    var single := [x];
    assert single[..0] == [];
    assert Filter(single, p) == if p(x) then [x] else [];
    FilterAppend(single, s, p);
  }

  /** With multiplicity: `Filter` keeps every copy of an element that
      satisfies `p` and no copy of one that does not. */
  lemma {:induction false} FilterMultiplicity<T>(s: seq<T>, p: T -> bool, x: T)
    ensures multiset(Filter(s, p))[x] == if p(x) then multiset(s)[x] else 0
    decreases |s|
  {
    if s != [] {
      var n := |s| - 1;
      assert s == s[..n] + [s[n]];
      FilterMultiplicity(s[..n], p, x);
    }
  }

  lemma FilterKeeps<T>(s: seq<T>, p: T -> bool, x: T)
    requires x in s && p(x)
    ensures x in Filter(s, p)
  {
    FilterMultiplicity(s, p, x);
    assert multiset(s)[x] > 0;
    assert multiset(Filter(s, p))[x] > 0;
  }

  lemma {:induction false} FilterIsSelect<T>(s: seq<T>, p: T -> bool)
    ensures Filter(s, p) == Select(s, seq(|s|, i requires 0 <= i < |s| => p(s[i])))
    decreases |s|
  {
    if s != [] {
      var n := |s| - 1;
      var keep := seq(|s|, i requires 0 <= i < |s| => p(s[i]));
      var front := seq(n, i requires 0 <= i < n => p(s[..n][i]));
      FilterIsSelect(s[..n], p);
      assert keep[..n] == front;
      assert keep[n] == p(s[n]);
      assert Select(s, keep) == Select(s[..n], front) + (if keep[n] then [s[n]] else []);
    }
  }

  /** `Filter` removes elements and never reorders the ones it keeps. */
  lemma FilterIsSubsequence<T>(s: seq<T>, p: T -> bool)
    ensures IsSubsequence(Filter(s, p), s)
  {
    FilterIsSelect(s, p);
  }

  lemma {:induction false} FilterIdempotent<T>(s: seq<T>, p: T -> bool)
    ensures Filter(Filter(s, p), p) == Filter(s, p)
    decreases |s|
  {
    if s != [] {
      var n := |s| - 1;
      FilterIdempotent(s[..n], p);
      FilterAppend(Filter(s[..n], p), if p(s[n]) then [s[n]] else [], p);
      if p(s[n]) {
        assert Filter([s[n]], p) == Filter([], p) + [s[n]];
      }
    }
  }

  /** Two successive filters are one filter by the conjunction. */
  lemma {:induction false} FilterFilter<T>(s: seq<T>, p: T -> bool, q: T -> bool, pq: T -> bool)
    requires forall x :: pq(x) == (p(x) && q(x))
    ensures Filter(Filter(s, p), q) == Filter(s, pq)
    decreases |s|
  {
    if s != [] {
      var n := |s| - 1;
      FilterFilter(s[..n], p, q, pq);
      FilterAppend(Filter(s[..n], p), if p(s[n]) then [s[n]] else [], q);
      if p(s[n]) {
        assert Filter([s[n]], q) == Filter([], q) + (if q(s[n]) then [s[n]] else []);
      }
    }
  }

  /** A filter whose predicate holds of every element returns its input. */
  lemma FilterAll<T>(s: seq<T>, p: T -> bool)
    requires forall x :: x in s ==> p(x)
    ensures Filter(s, p) == s
  {
    forall i | 0 <= i < |s|
      ensures p(s[i])
    {
      assert s[i] in s;
    }
    FilterAllAt(s, p);
  }

  lemma {:induction false} FilterAllAt<T>(s: seq<T>, p: T -> bool)
    requires forall i :: 0 <= i < |s| ==> p(s[i])
    ensures Filter(s, p) == s
    decreases |s|
  {
    if s != [] {
      var first, rest := s[0], s[1..];
      assert forall i :: 0 <= i < |rest| ==> rest[i] == s[i + 1];
      FilterAllAt(rest, p);
      assert p(first);
      FilterCons(first, rest, p);
      assert [first] + rest == s;
    }
  }

  /** `[f(x) for x in s]`: one element per input element, in order. */
  function Project<T, U>(s: seq<T>, f: T -> U): (r: seq<U>)
    ensures |r| == |s|
    ensures forall i :: 0 <= i < |s| ==> r[i] == f(s[i])
  {
    seq(|s|, i requires 0 <= i < |s| => f(s[i]))
  }

  /** How many elements of `s` have `y` as their `f`. */
  function Count<T, U(==)>(s: seq<T>, f: T -> U, y: U): nat
    decreases |s|
  {
    if s == [] then 0
    else Count(s[..|s| - 1], f, y) + (if f(s[|s| - 1]) == y then 1 else 0)
  }

  lemma {:induction false} CountAppend<T, U>(a: seq<T>, b: seq<T>, f: T -> U, y: U)
    ensures Count(a + b, f, y) == Count(a, f, y) + Count(b, f, y)
    decreases |b|
  {
    if b != [] {
      var n := |b| - 1;
      assert (a + b)[..|a + b| - 1] == a + b[..n];
      CountAppend(a, b[..n], f, y);
    } else {
      assert a + b == a;
    }
  }
}
