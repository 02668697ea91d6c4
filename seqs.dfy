/**
 * Generic sequence helpers: the first-match search behind `filter(...)[0]`
 * and the early-return `for` loops, and the order-preserving `filter`.
 */
module Seqs {
  import opened Wrappers

  /** `x` is the first element of `s` that satisfies `p`. */
  ghost predicate FirstMatch<T>(s: seq<T>, x: T, p: T -> bool) {
    exists i :: 0 <= i < |s| && s[i] == x && p(x) && forall j :: 0 <= j < i ==> !p(s[j])
  }

  /** Index of the first element of `s` satisfying `p`, if any. */
  function FindFirst<T>(s: seq<T>, p: T -> bool): (r: Option<nat>)
    ensures r.Some? ==> r.value < |s| && p(s[r.value]) && forall j :: 0 <= j < r.value ==> !p(s[j])
    ensures r.None? ==> forall j :: 0 <= j < |s| ==> !p(s[j])
  {
    if s == [] then None
    else if p(s[0]) then Some(0)
    else match FindFirst(s[1..], p)
      case None => None
      case Some(i) => Some(i + 1)
  }

  /**
   * `r` is the subsequence of `s` at the strictly increasing positions
   * `idx`: its elements appear in `s` in the same relative order.
   */
  ghost predicate SubsequenceAt<T>(r: seq<T>, s: seq<T>, idx: seq<nat>) {
    && |idx| == |r|
    && (forall k :: 0 <= k < |idx| ==> idx[k] < |s| && r[k] == s[idx[k]])
    && (forall k, l :: 0 <= k < l < |idx| ==> idx[k] < idx[l])
  }

  /** The elements of `s` that satisfy `p`, in their order in `s`. */
  function Filter<T(!new)>(s: seq<T>, p: T -> bool): (r: seq<T>)
    ensures forall x :: x in r <==> x in s && p(x)
    ensures |r| <= |s|
  {
    if s == [] then []
    else
      assert s == [s[0]] + s[1..];
      (if p(s[0]) then [s[0]] else []) + Filter(s[1..], p)
  }

  /** Filtering keeps every occurrence of a satisfying element and drops every other one. */
  lemma {:induction false} FilterCounts<T(!new)>(s: seq<T>, p: T -> bool)
    ensures forall x :: multiset(Filter(s, p))[x] == if p(x) then multiset(s)[x] else 0
  {
    if s != [] {
      assert s == [s[0]] + s[1..];
      FilterCounts(s[1..], p);
    }
  }

  /** Filtering distributes over concatenation, so a loop may filter element by element. */
  lemma {:induction false} FilterAppend<T(!new)>(a: seq<T>, b: seq<T>, p: T -> bool)
    ensures Filter(a + b, p) == Filter(a, p) + Filter(b, p)
  {
    if a == [] {
      assert a + b == b;
    } else {
      assert (a + b)[1..] == a[1..] + b;
      FilterAppend(a[1..], b, p);
    }
  }

  /** Filtering one more element keeps it exactly when it passes. */
  lemma FilterSnoc<T(!new)>(s: seq<T>, x: T, p: T -> bool)
    ensures Filter(s + [x], p) == if p(x) then Filter(s, p) + [x] else Filter(s, p)
  {
    FilterAppend(s, [x], p);
    assert [x][1..] == [];
  }

  /** Filtering keeps the surviving elements in the order they had. */
  lemma {:induction false} FilterKeepsOrder<T(!new)>(s: seq<T>, p: T -> bool)
    ensures exists idx :: SubsequenceAt(Filter(s, p), s, idx)
  {
    if s == [] {
      var none: seq<nat> := [];
      assert SubsequenceAt(Filter(s, p), s, none);
    } else {
      FilterKeepsOrder(s[1..], p);
      var idx :| SubsequenceAt(Filter(s[1..], p), s[1..], idx);
      var shifted := Shift(Filter(s[1..], p), s, idx);
      if p(s[0]) {
        var both := Cons(Filter(s[1..], p), s, shifted);
        assert Filter(s, p) == [s[0]] + Filter(s[1..], p);
      } else {
        assert Filter(s, p) == Filter(s[1..], p);
      }
    }
  }

  /** Positions in the tail of `s` are positions in `s`, one further on. */
  lemma Shift<T>(r: seq<T>, s: seq<T>, idx: seq<nat>) returns (shifted: seq<nat>)
    requires s != [] && SubsequenceAt(r, s[1..], idx)
    ensures SubsequenceAt(r, s, shifted)
    ensures forall k :: 0 <= k < |shifted| ==> 0 < shifted[k]
  {
    shifted := seq(|idx|, k requires 0 <= k < |idx| => idx[k] + 1);
  }

  /** The head of `s` can be put in front of a subsequence lying after it. */
  lemma Cons<T>(r: seq<T>, s: seq<T>, idx: seq<nat>) returns (both: seq<nat>)
    requires s != [] && SubsequenceAt(r, s, idx)
    requires forall k :: 0 <= k < |idx| ==> 0 < idx[k]
    ensures SubsequenceAt([s[0]] + r, s, both)
  {
    both := [0] + idx;
  }
}
