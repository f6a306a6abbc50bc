/**
 * The prime hash-table sizes of librdb/src/prime.cpp: an integer square root by bisection,
 * trial division over the wheel 5, 7, 11, 13, ..., and a search for the next prime.
 */
module Prime {

  import Arith

  predicate Divides(d: int, n: int)
    requires d > 0
  {
    n % d == 0
  }

  predicate NoDivisorIn(n: int, lo: int, hi: int)
    requires lo > 0
  {
    forall d :: lo <= d < hi ==> !Divides(d, n)
  }

  predicate Prime(n: int) { n >= 2 && NoDivisorIn(n, 2, n) }

  // ---- divisibility -------------------------------------------------------------------

  lemma DividesWitness(d: int, n: int, k: int)
    requires d > 0 && n == d * k
    ensures Divides(d, n)
  {
    Arith.DivModUnique(n, d, k, 0);
  }

  lemma DividesTrans(c: int, d: int, n: int)
    requires c > 0 && d > 0 && Divides(c, d) && Divides(d, n)
    ensures Divides(c, n)
  {
    var j, k := d / c, n / d;
    assert d == c * j && n == d * k;
    assert n == c * (j * k) by { Assoc(c, j, k); }
    DividesWitness(c, n, j * k);
  }

  lemma Assoc(a: int, b: int, c: int)
    ensures a * b * c == a * (b * c)
  {
  }

  lemma DividesDifference(d: int, a: int, b: int)
    requires d > 0 && Divides(d, a) && Divides(d, b)
    ensures Divides(d, a - b)
  {
    var j, k := a / d, b / d;
    assert a == d * j && b == d * k;
    assert a - b == d * (j - k);
    DividesWitness(d, a - b, j - k);
  }

  // ---- infinitely many primes ---------------------------------------------------------

  /** The least divisor from d on. */
  function LeastDivisor(n: nat, d: nat): (p: nat)
    requires 2 <= d <= n && NoDivisorIn(n, 2, d)
    ensures d <= p <= n && Divides(p, n) && NoDivisorIn(n, 2, p)
    decreases n - d
  {
    if Divides(d, n) then d else LeastDivisor(n, d + 1)
  }

  lemma LeastDivisorIsPrime(n: nat)
    requires n >= 2
    ensures Prime(LeastDivisor(n, 2)) && Divides(LeastDivisor(n, 2), n)
  {
    var p := LeastDivisor(n, 2);
    forall d | 2 <= d < p
      ensures !Divides(d, p)
    {
      if Divides(d, p) { DividesTrans(d, p, n); }
    }
  }

  function Factorial(n: nat): (f: nat)
    ensures f >= 1
  {
    if n == 0 then 1 else Positive(n, Factorial(n - 1)); n * Factorial(n - 1)
  }

  lemma Positive(a: nat, b: nat)
    requires a >= 1 && b >= 1
    ensures a * b >= 1
  {
  }

  lemma {:induction false} DividesFactorial(d: nat, n: nat)
    requires 1 <= d <= n
    ensures Divides(d, Factorial(n))
  {
    if d == n {
      DividesWitness(d, Factorial(n), Factorial(n - 1));
    } else {
      DividesFactorial(d, n - 1);
      DividesWitness(Factorial(n - 1), Factorial(n), n);
      DividesTrans(d, Factorial(n - 1), Factorial(n));
    }
  }

  /** Euclid: a prime at or above every bound. */
  lemma PrimeAbove(n: nat) returns (p: nat)
    ensures p >= n && Prime(p)
  {
    var m := Factorial(n) + 1;
    LeastDivisorIsPrime(m);
    p := LeastDivisor(m, 2);
    if p < n {
      DividesFactorial(p, n);
      DividesDifference(p, m, Factorial(n));
      assert false;
    }
  }

  // ---- square root --------------------------------------------------------------------

  lemma Squares(a: int, b: int)
    requires 0 <= a < b
    ensures a * a < b * b
  {
    assert a * a <= a * b;
    assert a * b < b * b;
  }

  /**
   * The result is 0 for numbers below 1; no product formed exceeds the number's square.
   */
  method FloorSqrt(number: int) returns (res: int)
    ensures number >= 0 ==> res >= 0 && res * res <= number < (res + 1) * (res + 1)
    ensures number < 0 ==> res == 0
  {
    var lo, hi := 1, number;
    res := 0;
    if number > 0 { Squares(1, number + 1); }
    while lo <= hi
      invariant 1 <= lo && res == lo - 1
      invariant number >= 0 ==> res * res <= number && hi <= number
      invariant number >= 0 ==> hi >= 0 && number < (hi + 1) * (hi + 1) && lo <= hi + 1
      invariant number < 0 ==> hi == number && lo == 1
      decreases hi - lo
    {
      var mid := (lo + hi) / 2;
      var sq := mid * mid;
      if sq < number {
        lo := mid + 1;
        res := mid;
      } else if sq == number {
        res := mid;
        Squares(mid, mid + 1);
        break;
      } else {
        hi := mid - 1;
      }
    }
  }

  // ---- trial division -----------------------------------------------------------------

  /** Without divisors up to its root a number has none at all. */
  lemma RootSuffices(n: int, r: int, i: int)
    requires n >= 2 && r >= 0 && n < (r + 1) * (r + 1) && NoDivisorIn(n, 2, i) && r < i
    ensures Prime(n)
  {
    forall d | 2 <= d < n
      ensures !Divides(d, n)
    {
      if Divides(d, n) {
        var k := n / d;
        assert n == d * k;
        CofactorInRange(n, d, k);
        if d >= r + 1 {
          if k >= r + 1 {
            ProductGrows(r + 1, d, k);
          } else {
            assert n == k * d;
            DividesWitness(k, n, d);
          }
        }
      }
    }
  }

  lemma CofactorInRange(n: int, d: int, k: int)
    requires 2 <= d < n && n == d * k
    ensures 2 <= k < n
  {
    if k < 2 { ProductAtMost(d, k, 1); }
    if k >= n { ProductAtMost(2, n, k); ProductAtMost(k, 2, d); }
  }

  lemma ProductAtMost(d: int, a: int, b: int)
    requires d >= 0 && a <= b
    ensures d * a <= d * b
  {
  }

  lemma ProductGrows(a: int, b: int, c: int)
    requires 0 <= a <= b && a <= c
    ensures a * a <= b * c
  {
    assert a * a <= b * a;
    assert b * a <= b * c;
  }

  /** i is a number 6k - 1 or 6k + 1, and i + ni the next one. */
  predicate OnWheel(i: int, ni: int) { if i % 6 == 5 then ni == 2 else i % 6 == 1 && ni == 4 }

  /** The gap from one wheel number to the next holds only multiples of 2 or 3. */
  lemma WheelGap(n: int, i: int, ni: int)
    requires i >= 5 && n % 2 != 0 && n % 3 != 0
    requires NoDivisorIn(n, 2, i) && !Divides(i, n)
    requires OnWheel(i, ni)
    ensures NoDivisorIn(n, 2, i + ni)
  {
    forall d | i < d < i + ni
      ensures !Divides(d, n)
    {
      WheelGapAt(n, i, ni, d);
      if Divides(d, n) {
        if d % 2 == 0 { DividesTrans(2, d, n); } else { DividesTrans(3, d, n); }
      }
    }
  }

  lemma NotPrime(n: int, d: int)
    requires n >= 2 ==> 2 <= d < n
    requires d > 0 && Divides(d, n)
    ensures !Prime(n)
  {
  }

  lemma RootBelow(n: int, r: int)
    requires n >= 2 && r >= 0 && r * r <= n
    ensures r < n
  {
    if r >= n { ProductAtMost(r, 2, r); }
  }

  lemma WheelGapAt(n: int, i: int, ni: int, d: int)
    requires i >= 5 && OnWheel(i, ni) && i < d < i + ni
    ensures d % 2 == 0 || d % 3 == 0
  {
  }

  lemma WheelTurns(i: int, ni: int)
    requires OnWheel(i, ni)
    ensures OnWheel(i + ni, 6 - ni) && ni > 0
    ensures forall bound :: i < bound && (bound % 6 == 1 || bound % 6 == 5) ==> i + ni <= bound
  {
  }

  lemma WheelAvoids(i: int, ni: int)
    requires OnWheel(i, ni)
    ensures i % 2 != 0 && i % 3 != 0 && (i >= 2 ==> i >= 5)
  {
  }

  /**
   * Exactly the primes, from 2 on.  1 is accepted as well, and so is every negative
   * number that neither 2 nor 3 divides.
   */
  method IsPrime(number: int) returns (r: bool)
    ensures number >= 2 ==> (r <==> Prime(number))
    ensures number < 2 ==> (r <==> number % 2 != 0 && number % 3 != 0)
  {
    if number == 1 || number == 2 || number == 3 { return true; }
    if number % 2 == 0 { assert Divides(2, number); return false; }
    if number % 3 == 0 { assert Divides(3, number); return false; }
    var sq := FloorSqrt(number);
    if number >= 2 { RootBelow(number, sq); }
    var i, ni := 5, 2;
    assert OnWheel(i, ni);
    assert number >= 2 ==> NoDivisorIn(number, 2, i);
    hide OnWheel, NoDivisorIn;
    while i <= sq
      invariant i >= 5 && OnWheel(i, ni)
      invariant number >= 2 ==> NoDivisorIn(number, 2, i)
    {
      if number % i == 0 { NotPrime(number, i); return false; }
      WheelGap(number, i, ni);
      WheelTurns(i, ni);
      i := i + ni;
      ni := 6 - ni;
    }
    if number >= 2 { RootSuffices(number, sq, i); }
    return true;
  }

  // ---- the next prime -----------------------------------------------------------------

  function TruncatedDiv(a: int, b: int): (q: int)
    requires b > 0
  {
    if a >= 0 then a / b else -(-a / b)
  }

  predicate NoPrimeIn(lo: int, hi: int) { forall p :: lo <= p < hi ==> !Prime(p) }

  /** A prime above 3 is on the wheel. */
  lemma PrimeOnWheel(p: int)
    requires Prime(p) && p > 3
    ensures p % 6 == 1 || p % 6 == 5
  {
    assert !Divides(2, p) && !Divides(3, p);
  }

  predicate IsFirstPrimeFrom(n: int, p: int) { p >= n && Prime(p) && NoPrimeIn(n, p) }

  /** Where the primes that NextPrime considers begin. */
  ghost function Start(n: int): (r: int) { if n % 6 == 0 && Prime(n + 1) then n + 2 else n }

  /** The number tried first lies above n, and n + 1 is the only prime it can have passed. */
  lemma StartSkips(n: int, next: int)
    requires n >= 2 && !Prime(n) && n <= next < n + 6 && next % 6 == 5
    ensures Start(n) <= next && NoPrimeIn(Start(n), next)
  {
    assert Prime(2) && Prime(3);
    assert n > 3;
    hide Prime;
    forall p | n <= p < next && Prime(p)
      ensures n % 6 == 0 && p == n + 1
    {
      PrimeOnWheel(p);
      PassedOver(n, next, p);
    }
  }

  lemma PassedOver(n: int, next: int, p: int)
    requires n <= p < next < n + 6 && next % 6 == 5 && (p % 6 == 1 || p % 6 == 5)
    ensures p == n || (n % 6 == 0 && p == n + 1)
  {
  }

  lemma FirstTried(n: int)
    ensures var next := 6 * (TruncatedDiv(n, 6) + 1) - 1;
      n <= next && (n >= 0 ==> next < n + 6)
  {
  }

  lemma OneBelowSixth(i: int, next: int, ni: int)
    requires next == 6 * i - 1 && ni == 2
    ensures next % 6 == 5 && OnWheel(next, ni)
  {
  }

  lemma NoPrimeExtends(lo: int, next: int, ni: int)
    requires lo <= next && NoPrimeIn(lo, next) && !Prime(next) && next >= 5 && OnWheel(next, ni)
    ensures NoPrimeIn(lo, next + ni)
  {
    WheelSkipsNoPrime(next, ni);
  }

  /** A number the wheel starts from: even and divisible by 3, so not prime itself. */
  lemma SixthNotPrime(n: int)
    requires n >= 2 && Prime(n)
    ensures Start(n) == n
  {
    if n % 6 == 0 { assert Divides(2, n); }
  }

  lemma WheelSkipsNoPrime(next: int, ni: int)
    requires next >= 5 && OnWheel(next, ni)
    ensures NoPrimeIn(next + 1, next + ni)
  {
    forall p | next + 1 <= p < next + ni
      ensures !Prime(p)
    {
      if Prime(p) { PrimeOnWheel(p); }
    }
  }

  /**
   * From 2 on the answer is the first prime at or above n, unless 6 divides n and n + 1 is
   * prime: that prime is skipped and the answer is the first one above it.  Euclid's
   * theorem bounds the search.
   */
  method NextPrime(n: int) returns (next: int)
    ensures next >= n
    ensures n >= 2 ==> IsFirstPrimeFrom(Start(n), next)
  {
    var found := IsPrime(n);
    if found {
      if n >= 2 { SixthNotPrime(n); }
      return n;
    }
    hide Prime, NoPrimeIn, TruncatedDiv, Start, OnWheel;
    var ni := 2;
    var i := TruncatedDiv(n, 6) + 1;
    next := 6 * i - 1;
    FirstTried(n);
    // The loop that raises i while next < n is never entered.
    assert n <= next;
    OneBelowSixth(i, next, ni);
    if n >= 2 { StartSkips(n, next); }
    ghost var bound := PrimeAbove(if next > 4 then next else 4);
    PrimeOnWheel(bound);
    found := IsPrime(next);
    WheelAvoids(next, ni);
    while !found
      invariant n <= next <= bound && OnWheel(next, ni)
      invariant found ==> next >= 2 ==> Prime(next)
      invariant !found ==> 5 <= next < bound && !Prime(next)
      invariant n >= 2 ==> Start(n) <= next && NoPrimeIn(Start(n), next)
      decreases bound - next
    {
      if n >= 2 { NoPrimeExtends(Start(n), next, ni); }
      WheelTurns(next, ni);
      next := next + ni;
      ni := 6 - ni;
      found := IsPrime(next);
      WheelAvoids(next, ni);
    }
  }

  /** The table above NextPrime lists 13 for 12, and 13 is the first prime there; NextPrime, which
      answers with the first prime from Start(12), gives 17. */
  lemma TableRowNotMet()
    ensures IsFirstPrimeFrom(12, 13) && IsFirstPrimeFrom(Start(12), 17)
  {
    RootSuffices(13, 3, 4);
    RootSuffices(17, 4, 5);
    assert Divides(2, 12) && Divides(2, 14) && Divides(3, 15) && Divides(2, 16);
  }
}
