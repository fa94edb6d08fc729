/**
  Linear traversal, search, quantifier and counting algorithms over a bounded
  range [first, last) of a sequence. A position is an offset into the sequence;
  the range is readable when 0 <= first <= last <= |s|. Callables are function
  values: a predicate is `T -> bool`, a stateful traversal callback is its state
  `F` together with the step `(F, T) -> F` that one call makes to it.
*/
module Stl {

  /** [first, last) is a readable bounded range of s. */
  predicate ValidRange<T>(s: seq<T>, first: int, last: int) {
    0 <= first <= last <= |s|
  }

  /** The predicate "is equal to val". */
  function EqualTo<T(==)>(val: T): T -> bool {
    x => x == val
  }

  /** The negation of a predicate. */
  function Not<T>(p: T -> bool): T -> bool {
    x => !p(x)
  }

  // ---------------------------------------------------------------------------
  // Specification functions
  // ---------------------------------------------------------------------------

  /** The position a left-to-right scan for p stops at: the least position of
      [first, last) whose element satisfies p, or last when there is none. */
  function FirstSatisfying<T>(s: seq<T>, first: int, last: int, p: T -> bool): (r: int)
    requires ValidRange(s, first, last)
    ensures first <= r <= last
    ensures forall k :: first <= k < r ==> !p(s[k])
    ensures r < last ==> p(s[r])
    decreases last - first
  {
    if first == last || p(s[first]) then first else FirstSatisfying(s, first + 1, last, p)
  }

  /** The least position of [first, last) whose element fails p, or last. */
  function FirstFailing<T>(s: seq<T>, first: int, last: int, p: T -> bool): (r: int)
    requires ValidRange(s, first, last)
    ensures first <= r <= last
    ensures forall k :: first <= k < r ==> p(s[k])
    ensures r < last ==> !p(s[r])
  {
    FirstSatisfying(s, first, last, Not(p))
  }

  /** The elements of xs that satisfy p, in their order in xs. */
  function Filter<T>(p: T -> bool, xs: seq<T>): (r: seq<T>)
    ensures |r| <= |xs|
    ensures forall y :: y in r ==> y in xs && p(y)
    ensures forall i :: 0 <= i < |xs| && p(xs[i]) ==> xs[i] in r
    decreases |xs|
  {
    if xs == [] then []
    else Filter(p, xs[..|xs| - 1]) + (if p(xs[|xs| - 1]) then [xs[|xs| - 1]] else [])
  }

  /** The state of a callback that was applied to the elements of xs, from left
      to right, starting in state init. */
  function Fold<F, T>(apply: (F, T) -> F, init: F, xs: seq<T>): F
    decreases |xs|
  {
    if xs == [] then init else apply(Fold(apply, init, xs[..|xs| - 1]), xs[|xs| - 1])
  }

  /** A callback whose state is the log of the elements it has been called on. */
  function Record<T>(log: seq<T>, x: T): seq<T> {
    log + [x]
  }

  // ---------------------------------------------------------------------------
  // for_each
  // ---------------------------------------------------------------------------

  /** Calls the callback once per element of [first, last), in order, and
      returns its final state. */
  method ForEach<T, F>(s: seq<T>, first: int, last: int, func: F, apply: (F, T) -> F)
    returns (r: F)
    requires ValidRange(s, first, last)
    ensures r == Fold(apply, func, s[first..last])
  {
    r := func;
    var i := first;
    while i != last
      invariant first <= i <= last
      invariant r == Fold(apply, func, s[first..i])
    {
      assert s[first..i + 1][..i - first] == s[first..i];
      r := apply(r, s[i]);
      i := i + 1;
    }
  }

  // ---------------------------------------------------------------------------
  // find, find_if, find_if_not
  // ---------------------------------------------------------------------------

  /** The first position of [first, last) holding val, or last. */
  method Find<T(==)>(s: seq<T>, first: int, last: int, val: T) returns (r: int)
    requires ValidRange(s, first, last)
    ensures first <= r <= last
    ensures forall k :: first <= k < r ==> s[k] != val
    ensures r < last ==> s[r] == val
    ensures r == FirstSatisfying(s, first, last, EqualTo(val))
  {
    r := first;
    while r != last && s[r] != val
      invariant first <= r <= last
      invariant forall k :: first <= k < r ==> s[k] != val
    {
      r := r + 1;
    }
  }

  /** The first position of [first, last) whose element satisfies p, or last. */
  method FindIf<T>(s: seq<T>, first: int, last: int, p: T -> bool) returns (r: int)
    requires ValidRange(s, first, last)
    ensures first <= r <= last
    ensures forall k :: first <= k < r ==> !p(s[k])
    ensures r < last ==> p(s[r])
    ensures r == FirstSatisfying(s, first, last, p)
  {
    r := first;
    while r != last && !p(s[r])
      invariant first <= r <= last
      invariant forall k :: first <= k < r ==> !p(s[k])
    {
      r := r + 1;
    }
  }

  /** The first position of [first, last) whose element fails p, or last. */
  method FindIfNot<T>(s: seq<T>, first: int, last: int, p: T -> bool) returns (r: int)
    requires ValidRange(s, first, last)
    ensures first <= r <= last
    ensures forall k :: first <= k < r ==> p(s[k])
    ensures r < last ==> !p(s[r])
    ensures r == FirstFailing(s, first, last, p)
  {
    r := first;
    while r != last && p(s[r])
      invariant first <= r <= last
      invariant forall k :: first <= k < r ==> p(s[k])
    {
      r := r + 1;
    }
  }

  // ---------------------------------------------------------------------------
  // all_of, none_of, any_of: whether a search reaches the end of the range
  // ---------------------------------------------------------------------------

  function AllOf<T>(s: seq<T>, first: int, last: int, p: T -> bool): (b: bool)
    requires ValidRange(s, first, last)
    ensures b <==> forall k :: first <= k < last ==> p(s[k])
  {
    FirstFailing(s, first, last, p) == last
  }

  function NoneOf<T>(s: seq<T>, first: int, last: int, p: T -> bool): (b: bool)
    requires ValidRange(s, first, last)
    ensures b <==> forall k :: first <= k < last ==> !p(s[k])
  {
    FirstSatisfying(s, first, last, p) == last
  }

  function AnyOf<T>(s: seq<T>, first: int, last: int, p: T -> bool): (b: bool)
    requires ValidRange(s, first, last)
    ensures b <==> exists k :: first <= k < last && p(s[k])
  {
    FirstSatisfying(s, first, last, p) != last
  }

  // ---------------------------------------------------------------------------
  // count, count_if
  // ---------------------------------------------------------------------------

  /** The number of positions of [first, last) holding val. */
  method Count<T(==)>(s: seq<T>, first: int, last: int, val: T) returns (cnt: nat)
    requires ValidRange(s, first, last)
    ensures cnt <= last - first
    ensures cnt == |Filter(EqualTo(val), s[first..last])|
  {
    cnt := 0;
    var i := first;
    while i != last
      invariant first <= i <= last
      invariant cnt == |Filter(EqualTo(val), s[first..i])|
    {
      assert s[first..i + 1][..i - first] == s[first..i];
      if s[i] == val {
        cnt := cnt + 1;
      }
      i := i + 1;
    }
  }

  /** The number of positions of [first, last) whose element satisfies p. */
  method CountIf<T>(s: seq<T>, first: int, last: int, p: T -> bool) returns (cnt: nat)
    requires ValidRange(s, first, last)
    ensures cnt <= last - first
    ensures cnt == |Filter(p, s[first..last])|
  {
    cnt := 0;
    var i := first;
    while i != last
      invariant first <= i <= last
      invariant cnt == |Filter(p, s[first..i])|
    {
      assert s[first..i + 1][..i - first] == s[first..i];
      if p(s[i]) {
        cnt := cnt + 1;
      }
      i := i + 1;
    }
  }

  // ---------------------------------------------------------------------------
  // Properties
  // ---------------------------------------------------------------------------

  /** The quantifiers are each other's duals. */
  lemma QuantifierDualities<T>(s: seq<T>, first: int, last: int, p: T -> bool)
    requires ValidRange(s, first, last)
    ensures AnyOf(s, first, last, p) == !NoneOf(s, first, last, p)
    ensures AllOf(s, first, last, p) == NoneOf(s, first, last, Not(p))
    ensures AllOf(s, first, last, p) == !AnyOf(s, first, last, Not(p))
  {
  }

  /** On an empty range every search stops at last, the universal
      quantifiers hold, the existential one fails and nothing is counted. */
  lemma EmptyRange<T>(s: seq<T>, first: int, p: T -> bool)
    requires ValidRange(s, first, first)
    ensures FirstSatisfying(s, first, first, p) == first
    ensures FirstFailing(s, first, first, p) == first
    ensures AllOf(s, first, first, p) && NoneOf(s, first, first, p)
    ensures !AnyOf(s, first, first, p)
    ensures |Filter(p, s[first..first])| == 0
  {
  }

  /** Searching again from the position a search stopped at stops there again;
      when that position holds a match, a search for a mismatch from it moves
      past it. */
  lemma FindIfResumes<T>(s: seq<T>, first: int, last: int, p: T -> bool)
    requires ValidRange(s, first, last)
    ensures var r := FirstSatisfying(s, first, last, p);
      FirstSatisfying(s, r, last, p) == r &&
      (r < last ==> FirstFailing(s, r, last, p) > r)
  {
  }

  /** The positions of xs whose element satisfies p. */
  ghost function Positions<T>(p: T -> bool, xs: seq<T>): set<int> {
    set i | 0 <= i < |xs| && p(xs[i])
  }

  /** Extending xs by one element adds its position exactly when it satisfies p. */
  lemma PositionsSnoc<T>(p: T -> bool, xs: seq<T>)
    requires xs != []
    ensures |Positions(p, xs)| ==
      |Positions(p, xs[..|xs| - 1])| + (if p(xs[|xs| - 1]) then 1 else 0)
  {
    var n := |xs| - 1;
    var before := Positions(p, xs[..n]);
    var after := Positions(p, xs);
    assert n !in before;
    if p(xs[n]) {
      assert after == before + {n};
    } else {
      assert after == before;
    }
  }

  /** The tally Filter gives is the number of positions whose element
      satisfies p. */
  lemma {:induction false} FilterCountsPositions<T>(p: T -> bool, xs: seq<T>)
    ensures |Filter(p, xs)| == |Positions(p, xs)|
    decreases |xs|
  {
    if xs != [] {
      FilterCountsPositions(p, xs[..|xs| - 1]);
      PositionsSnoc(p, xs);
    }
  }

  /** No element of xs satisfies p exactly when none is kept by Filter. */
  lemma {:induction false} FilterEmptyIffNone<T>(p: T -> bool, xs: seq<T>)
    ensures |Filter(p, xs)| == 0 <==> forall i :: 0 <= i < |xs| ==> !p(xs[i])
    decreases |xs|
  {
    if xs != [] {
      var init := xs[..|xs| - 1];
      FilterEmptyIffNone(p, init);
      assert forall i :: 0 <= i < |init| ==> init[i] == xs[i];
    }
  }

  /** Every element of xs satisfies p exactly when Filter keeps all of them. */
  lemma {:induction false} FilterFullIffAll<T>(p: T -> bool, xs: seq<T>)
    ensures |Filter(p, xs)| == |xs| <==> forall i :: 0 <= i < |xs| ==> p(xs[i])
    decreases |xs|
  {
    if xs != [] {
      var init := xs[..|xs| - 1];
      FilterFullIffAll(p, init);
      assert forall i :: 0 <= i < |init| ==> init[i] == xs[i];
    }
  }

  /** Each element is counted either by p or by its negation. */
  lemma {:induction false} FilterComplement<T>(p: T -> bool, xs: seq<T>)
    ensures |Filter(p, xs)| + |Filter(Not(p), xs)| == |xs|
    decreases |xs|
  {
    if xs != [] {
      FilterComplement(p, xs[..|xs| - 1]);
    }
  }

  /** count_if is zero exactly when none_of holds. */
  lemma CountIfZeroIffNoneOf<T>(s: seq<T>, first: int, last: int, p: T -> bool)
    requires ValidRange(s, first, last)
    ensures |Filter(p, s[first..last])| == 0 <==> NoneOf(s, first, last, p)
  {
    var xs := s[first..last];
    FilterEmptyIffNone(p, xs);
    assert forall i :: 0 <= i < |xs| ==> xs[i] == s[first + i];
  }

  /** count_if equals the length of the range exactly when all_of holds. */
  lemma CountIfFullIffAllOf<T>(s: seq<T>, first: int, last: int, p: T -> bool)
    requires ValidRange(s, first, last)
    ensures |Filter(p, s[first..last])| == last - first <==> AllOf(s, first, last, p)
  {
    var xs := s[first..last];
    FilterFullIffAll(p, xs);
    assert forall i :: 0 <= i < |xs| ==> xs[i] == s[first + i];
  }

  /** Traversing xs + ys is traversing ys starting from the state left by xs. */
  lemma {:induction false} FoldConcat<F, T>(apply: (F, T) -> F, init: F, xs: seq<T>, ys: seq<T>)
    ensures Fold(apply, init, xs + ys) == Fold(apply, Fold(apply, init, xs), ys)
    decreases |ys|
  {
    if ys == [] {
      assert xs + ys == xs;
    } else {
      assert (xs + ys)[..|xs + ys| - 1] == xs + ys[..|ys| - 1];
      FoldConcat(apply, init, xs, ys[..|ys| - 1]);
    }
  }

  /** A callback that logs its arguments sees every element exactly once, in
      order. */
  lemma {:induction false} FoldVisitsInOrder<T>(log: seq<T>, xs: seq<T>)
    ensures Fold(Record, log, xs) == log + xs
    decreases |xs|
  {
    if xs == [] {
      assert log + xs == log;
    } else {
      var init := xs[..|xs| - 1];
      FoldVisitsInOrder(log, init);
      assert log + xs == (log + init) + [xs[|xs| - 1]];
    }
  }

  /** The expectations the demonstration program states for [1, 2, 3, 4, 5]. */
  method DemoExpectations() returns (found: int, foundIf: int, any: bool)
    ensures found == 2 && foundIf == 2 && any
  {
    var v := [1, 2, 3, 4, 5];
    found := Find(v, 0, 5, 3);
    foundIf := FindIf(v, 0, 5, EqualTo(3));
    any := AnyOf(v, 0, 5, EqualTo(3));
    assert v[2] == 3;
  }
}
