/**
  Repeated application of a transformation: a function from a domain to the
  same domain, applied to a value a given number of times.
*/
module Power {

  /** f applied n times to x (x itself when n is 0). */
  function Iterate<D>(f: D -> D, x: D, n: nat): D
    decreases n
  {
    if n == 0 then x else Iterate(f, f(x), n - 1)
  }

  /** Counts n down to zero, replacing the running value by its image under f
      on every step. */
  method PowerUnary<D>(x: D, n: int, f: D -> D) returns (r: D)
    requires n >= 0
    ensures r == Iterate(f, x, n)
  {
    r := x;
    var k := n;
    while k != 0
      invariant 0 <= k <= n
      invariant Iterate(f, r, k) == Iterate(f, x, n)
      decreases k
    {
      k := k - 1;
      r := f(r);
    }
  }

  /** The successor on unbounded integers. */
  function Increment(num: int): (r: int)
    ensures r > num
    ensures r - 1 == num
  {
    num + 1
  }

  /** One more application can be made first or last. */
  lemma {:induction false} IterateSucc<D>(f: D -> D, x: D, n: nat)
    ensures Iterate(f, x, n + 1) == Iterate(f, f(x), n)
    ensures Iterate(f, x, n + 1) == f(Iterate(f, x, n))
    decreases n
  {
    if n > 0 {
      IterateSucc(f, f(x), n - 1);
    }
  }

  /** Applying f m + n times is applying it n times and then m more times. */
  lemma {:induction false} IterateAdd<D>(f: D -> D, x: D, m: nat, n: nat)
    ensures Iterate(f, x, m + n) == Iterate(f, Iterate(f, x, n), m)
    decreases n
  {
    if n > 0 {
      IterateAdd(f, f(x), m, n - 1);
      assert m + n - 1 == m + (n - 1);
    }
  }

  /** Incrementing k n times yields k + n. */
  lemma {:induction false} PowerOfIncrement(k: int, n: nat)
    ensures Iterate(Increment, k, n) == k + n
    decreases n
  {
    if n > 0 {
      PowerOfIncrement(k + 1, n - 1);
    }
  }
}
