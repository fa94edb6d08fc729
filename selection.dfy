/**
  Selection of the element of rank 2 (zero-based, the third smallest) among
  four values under a comparator `cmp`, where `cmp(x, y)` reads "x is strictly
  before y". Each selector first puts a pair of arguments in order and then
  picks one of its arguments by a branch; none of them places a demand on
  `cmp`, but the rank property holds when `cmp` is a strict weak order.
*/
module Selection {

  /** x and y are incomparable under cmp. */
  predicate Equivalent<T>(cmp: (T, T) -> bool, x: T, y: T) {
    !cmp(x, y) && !cmp(y, x)
  }

  /** cmp is irreflexive and transitive, and incomparability is transitive. */
  ghost predicate StrictWeakOrder<T(!new)>(cmp: (T, T) -> bool) {
    && (forall x :: !cmp(x, x))
    && (forall x, y, z :: cmp(x, y) && cmp(y, z) ==> cmp(x, z))
    && (forall x, y, z :: Equivalent(cmp, x, y) && Equivalent(cmp, y, z) ==> Equivalent(cmp, x, z))
  }

  /** 1 when x is strictly before y, otherwise 0. */
  function Before<T>(cmp: (T, T) -> bool, x: T, y: T): nat {
    if cmp(x, y) then 1 else 0
  }

  /** r has rank 2 among a, b, c, d: at most two of them are strictly before r
      and at most one is strictly after it, so r can stand third in a sorted
      arrangement of the four. */
  ghost predicate IsRankTwo<T>(cmp: (T, T) -> bool, r: T, a: T, b: T, c: T, d: T) {
    && Before(cmp, a, r) + Before(cmp, b, r) + Before(cmp, c, r) + Before(cmp, d, r) <= 2
    && Before(cmp, r, a) + Before(cmp, r, b) + Before(cmp, r, c) + Before(cmp, r, d) <= 1
  }

  /** A strict weak order is asymmetric and negatively transitive. */
  lemma StrictWeakOrderFacts<T(!new)>(cmp: (T, T) -> bool)
    ensures StrictWeakOrder(cmp) ==> forall x, y :: cmp(x, y) ==> !cmp(y, x)
    ensures StrictWeakOrder(cmp) ==> forall x, y, z :: cmp(x, z) ==> cmp(x, y) || cmp(y, z)
  {
    forall x, y, z | StrictWeakOrder(cmp) && cmp(x, z)
      ensures cmp(x, y) || cmp(y, z)
    {
      if !cmp(x, y) && !cmp(y, z) {
        assert !cmp(y, x) && !cmp(z, y);
        assert Equivalent(cmp, x, y) && Equivalent(cmp, y, z);
      }
    }
  }

  /** The selector select_1_2, called at src/ex_4_4.cpp:10 and 12 but defined
      in no file, taken to be the larger of two under cmp: x when y is strictly
      before x, otherwise y. */
  function Select1Of2<T(!new)>(x: T, y: T, cmp: (T, T) -> bool): (r: T)
    ensures r == x || r == y
    ensures StrictWeakOrder(cmp) ==> !cmp(r, x) && !cmp(r, y)
  {
    if cmp(y, x) then x else y
  }

  /** Given a not after b and c not after d, the element of rank 2. */
  function Select2Of4AbCd<T(!new)>(a: T, b: T, c: T, d: T, cmp: (T, T) -> bool): (r: T)
    ensures r == a || r == b || r == c || r == d
    ensures StrictWeakOrder(cmp) && !cmp(b, a) && !cmp(d, c) ==> IsRankTwo(cmp, r, a, b, c, d)
  {
    StrictWeakOrderFacts(cmp);
    if cmp(d, b) then Select1Of2(a, d, cmp) else Select1Of2(b, c, cmp)
  }

  /** Given a not after b, orders c and d and selects the element of rank 2. */
  function Select2Of4Ab<T(!new)>(a: T, b: T, c: T, d: T, cmp: (T, T) -> bool): (r: T)
    ensures r == a || r == b || r == c || r == d
    ensures StrictWeakOrder(cmp) && !cmp(b, a) ==> IsRankTwo(cmp, r, a, b, c, d)
  {
    StrictWeakOrderFacts(cmp);
    if cmp(d, c) then Select2Of4AbCd(a, b, d, c, cmp) else Select2Of4AbCd(a, b, c, d, cmp)
  }

  /** Orders a and b and selects the element of rank 2 among the four. */
  function Select2Of4<T(!new)>(a: T, b: T, c: T, d: T, cmp: (T, T) -> bool): (r: T)
    ensures r == a || r == b || r == c || r == d
    ensures StrictWeakOrder(cmp) ==> IsRankTwo(cmp, r, a, b, c, d)
  {
    StrictWeakOrderFacts(cmp);
    if cmp(b, a) then Select2Of4Ab(b, a, c, d, cmp) else Select2Of4Ab(a, b, c, d, cmp)
  }

  /** Two values that both have rank 2 among the same four are equivalent. */
  lemma RankTwoUnique<T(!new)>(cmp: (T, T) -> bool, r1: T, r2: T, a: T, b: T, c: T, d: T)
    requires StrictWeakOrder(cmp)
    requires IsRankTwo(cmp, r1, a, b, c, d) && IsRankTwo(cmp, r2, a, b, c, d)
    ensures Equivalent(cmp, r1, r2)
  {
    StrictWeakOrderFacts(cmp);
  }

  /** Exchanging the first two arguments gives an equivalent result, and the
      same one when they are comparable. */
  lemma Select2Of4SwapFirstPair<T(!new)>(a: T, b: T, c: T, d: T, cmp: (T, T) -> bool)
    requires StrictWeakOrder(cmp)
    ensures Equivalent(cmp, Select2Of4(a, b, c, d, cmp), Select2Of4(b, a, c, d, cmp))
    ensures cmp(a, b) || cmp(b, a) ==> Select2Of4(a, b, c, d, cmp) == Select2Of4(b, a, c, d, cmp)
  {
    StrictWeakOrderFacts(cmp);
    RankTwoUnique(cmp, Select2Of4(a, b, c, d, cmp), Select2Of4(b, a, c, d, cmp), a, b, c, d);
  }

  /** Exchanging the last two arguments gives an equivalent result, and the
      same one when they are comparable. */
  lemma Select2Of4SwapSecondPair<T(!new)>(a: T, b: T, c: T, d: T, cmp: (T, T) -> bool)
    requires StrictWeakOrder(cmp)
    ensures Equivalent(cmp, Select2Of4(a, b, c, d, cmp), Select2Of4(a, b, d, c, cmp))
    ensures cmp(c, d) || cmp(d, c) ==> Select2Of4(a, b, c, d, cmp) == Select2Of4(a, b, d, c, cmp)
  {
    StrictWeakOrderFacts(cmp);
    RankTwoUnique(cmp, Select2Of4(a, b, c, d, cmp), Select2Of4(a, b, d, c, cmp), a, b, c, d);
  }
}
