/** The prime sieve over a C `int` array. */
module Sieve {

  newtype int32 = x: int | -0x8000_0000 <= x < 0x8000_0000

  /** Beyond this bound `i * i` overflows before the outer loop ends. */
  const MAX: int32 := 2147395599

  /** `n` is `d * q` with both factors at least 2. */
  ghost predicate Product(d: int, q: int, n: int) { d >= 2 && q >= 2 && d * q == n }

  ghost predicate IsPrime(n: int) {
    n >= 2 && !exists d, q :: Product(d, q, n)
  }

  /** `n` is a proper multiple of a number below `i`. */
  ghost predicate Crossed(n: int, i: int) {
    exists d, q :: Product(d, q, n) && d < i
  }

  /** `n` is a proper multiple of `i` by a factor below `j`. */
  ghost predicate CrossedBy(n: int, i: int, j: int) {
    exists q :: Product(i, q, n) && q < j
  }

  /** A number below `i * i` is prime exactly when no number below `i` crosses it. */
  lemma PrimeIsUncrossed(n: int, i: int)
    requires n >= 2 && i >= 2 && n < i * i
    ensures IsPrime(n) <==> !Crossed(n, i)
  {
    if !IsPrime(n) {
      var d, q :| Product(d, q, n);
      SmallFactor(d, q, n, i);
      assert q * d == n;
      assert Product(q, d, n);
    }
  }

  lemma SmallFactor(d: int, q: int, n: int, i: int)
    requires Product(d, q, n) && i >= 0 && n < i * i
    ensures d < i || q < i
  {
    if d >= i && q >= i { Grows(d, q, i); }
  }

  lemma Grows(d: int, q: int, i: int)
    requires d >= i >= 0 && q >= i
    ensures d * q >= i * i
  {
    assert (d - i) * q >= 0 && (q - i) * i >= 0;
  }

  /** Every multiple of a crossed number is crossed. */
  lemma CrossedFactor(n: int, i: int, q: int)
    requires Crossed(i, i) && Product(i, q, n)
    ensures Crossed(n, i)
  {
    var d, p :| Product(d, p, i) && d < i;
    assert d * (p * q) == n;
    assert p * q >= 2;
    assert Product(d, p * q, n);
  }

  lemma CrossedStep(n: int, i: int)
    ensures Crossed(n, i + 1) <==> Crossed(n, i) || exists q :: Product(i, q, n)
  {
    if Crossed(n, i + 1) {
      var d, q :| Product(d, q, n) && d < i + 1;
      if d == i { assert Product(i, q, n); }
    }
    if exists q :: Product(i, q, n) {
      var q :| Product(i, q, n);
      assert Product(i, q, n) && i < i + 1;
    }
  }

  /** What the array says while the multiples of `i` by factors below `j` are crossed out. */
  ghost predicate Crossing(primes: seq<int32>, i: int, j: int) {
    forall n :: 2 <= n < |primes| ==>
      primes[n] as int == if Crossed(n, i) || CrossedBy(n, i, j) then 0 else n
  }

  lemma CrossedByStep(n: int, i: int, j: int)
    requires i >= 2 && j >= 2
    ensures CrossedBy(n, i, j + 1) <==> CrossedBy(n, i, j) || n == i * j
  {
    if CrossedBy(n, i, j + 1) {
      var q :| Product(i, q, n) && q < j + 1;
      if q != j { assert Product(i, q, n) && q < j; }
    }
    if n == i * j { assert Product(i, j, n); }
    if CrossedBy(n, i, j) {
      var q :| Product(i, q, n) && q < j;
      assert q < j + 1;
    }
  }

  /** Once `i * j` is beyond the end, all multiples of `i` in the array are crossed. */
  lemma AllCrossed(n: int, i: int, j: int)
    requires i >= 2 && j >= 2 && n < i * j
    ensures CrossedBy(n, i, j) <==> exists q :: Product(i, q, n)
  {
    if exists q :: Product(i, q, n) {
      var q :| Product(i, q, n);
      if q >= j { assert i * q >= i * j; }
    }
  }

  lemma CrossingStep(primes: seq<int32>, i: int, j: int)
    requires i >= 2 && j >= 2 && 0 <= i * j < |primes| && Crossing(primes, i, j)
    ensures Crossing(primes[i * j := 0], i, j + 1)
  {
    forall n | 2 <= n < |primes|
      ensures primes[i * j := 0][n] as int == if Crossed(n, i) || CrossedBy(n, i, j + 1) then 0 else n
    {
      CrossedByStep(n, i, j);
    }
  }

  lemma CrossingEnds(primes: seq<int32>, i: int, j: int)
    requires i >= 2 && j >= 2 && i * j >= |primes| && Crossing(primes, i, j)
    ensures Crossing(primes, i + 1, 2)
  {
    forall n | 2 <= n < |primes|
      ensures primes[n] as int == if Crossed(n, i + 1) || CrossedBy(n, i + 1, 2) then 0 else n
    {
      AllCrossed(n, i, j);
      CrossedStep(n, i);
    }
  }

  /** A crossed-out number has had its multiples crossed out already. */
  lemma CrossingSkips(primes: seq<int32>, i: int)
    requires 2 <= i < |primes| && Crossing(primes, i, 2) && primes[i] == 0
    ensures Crossing(primes, i + 1, 2)
  {
    assert Crossed(i, i);
    forall n | 2 <= n < |primes|
      ensures primes[n] as int == if Crossed(n, i + 1) || CrossedBy(n, i + 1, 2) then 0 else n
    {
      CrossedStep(n, i);
      if exists q :: Product(i, q, n) {
        var q :| Product(i, q, n);
        CrossedFactor(n, i, q);
      }
    }
  }

  /** The inner loop: cross out the proper multiples of `i`. */
  method CrossOut(primes: array<int32>, max: int32, i: int32)
    requires 0 <= max <= MAX && primes.Length == max as int + 1
    requires 2 <= i <= 46340 && i <= max && primes[i as int] == i
    requires Crossing(primes[..], i as int, 2)
    modifies primes
    ensures Crossing(primes[..], i as int + 1, 2)
  {
    var j: int32 := 2;
    while j < max
      invariant 2 <= j
      invariant primes[i as int] == i
      invariant Crossing(primes[..], i as int, j as int)
      invariant (i as int) * (j as int - 1) <= max as int
    {
      NoOverflow(i as int, j as int, max as int);
      if primes[i as int] * j > max { break; }
      Larger(i as int, j as int);
      CrossingStep(primes[..], i as int, j as int);
      primes[(primes[i as int] * j) as int] := 0;
      j := j + 1;
    }
    if j >= max { Larger(i as int, j as int); }
    CrossingEnds(primes[..], i as int, j as int);
  }

  /** `i * j` exceeds the previous multiple of `i` by `i` only. */
  lemma NoOverflow(i: int, j: int, max: int)
    requires 2 <= i <= 46340 && 2 <= j && i * (j - 1) <= max <= MAX as int
    ensures 0 <= i * j < 0x8000_0000
  {
    assert i * j == i * (j - 1) + i;
  }

  lemma Larger(i: int, j: int)
    requires i >= 2 && j >= 2
    ensures i * j > i && i * j > j
  {
    assert (i - 2) * j >= 0 && i * (j - 2) >= 0;
  }

  lemma Root(i: int, max: int)
    requires i >= 0 && i * i <= max <= MAX as int
    ensures i < 46340
  {
    if i >= 46340 { Grows(i, i, 46340); }
  }

  lemma Square(i: int)
    requires 0 <= i <= 46340
    ensures 0 <= i * i <= 2147395600
  {
    Grows(46340, 46340, i);
  }

  method Fill(max: int32, primes: array<int32>)
    requires 0 <= max <= MAX && primes.Length == max as int + 1
    modifies primes
    ensures Crossing(primes[..], 2, 2)
  {
    var i: int32 := 2;
    while i <= max
      invariant 2 <= i
      invariant forall n :: 2 <= n < i as int && n <= max as int ==> primes[n] as int == n
    {
      primes[i as int] := i;
      i := i + 1;
    }
  }

  /** The outer loop; on return `i` is beyond the square root of `max`. */
  method CrossAll(max: int32, primes: array<int32>) returns (i: int32)
    requires 0 <= max <= MAX && primes.Length == max as int + 1
    requires Crossing(primes[..], 2, 2)
    modifies primes
    ensures 2 <= i && (i as int) * (i as int) > max as int
    ensures Crossing(primes[..], i as int, 2)
  {
    i := 2;
    Square(2);
    while i * i <= max
      invariant 2 <= i <= 46340
      invariant Crossing(primes[..], i as int, 2)
      invariant 0 <= (i as int) * (i as int) <= 2147395600
      decreases 46340 - i as int
    {
      Root(i as int, max as int);
      Larger(i as int, i as int);
      assert primes[..][i as int] == primes[i as int];
      if primes[i as int] != 0 {
        CrossOut(primes, max, i);
      } else {
        CrossingSkips(primes[..], i as int);
      }
      i := i + 1;
      Square(i as int);
    }
  }

  lemma CrossedIsComposite(primes: seq<int32>, i: int)
    requires i >= 2 && |primes| <= i * i && Crossing(primes, i, 2)
    ensures forall n :: 2 <= n < |primes| ==> primes[n] as int == if IsPrime(n) then n else 0
  {
    forall n | 2 <= n < |primes| ensures primes[n] as int == if IsPrime(n) then n else 0 {
      PrimeIsUncrossed(n, i);
    }
  }

  /** The whole sieve, on the allocated array with whatever it holds: entry `n`
      is `n` if `n` is prime and 0 otherwise. */
  method FindPrimes(max: int32, primes: array<int32>)
    requires 0 <= max <= MAX && primes.Length == max as int + 1
    modifies primes
    ensures forall n :: 2 <= n <= max as int ==> (primes[n] != 0 <==> IsPrime(n))
    ensures forall n :: 2 <= n <= max as int && primes[n] != 0 ==> primes[n] as int == n
  {
    Fill(max, primes);
    var i := CrossAll(max, primes);
    CrossedIsComposite(primes[..], i as int);
    assert forall n :: 2 <= n <= max as int ==> primes[..][n] == primes[n];
  }
}
