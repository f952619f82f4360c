/** `factor` (src/cmds.c:803-814): trial division. */
module Factor {
  import opened Arithmetic
  import opened Strings

  predicate Divides(d: nat, n: nat) {
    d != 0 && n % d == 0
  }

  ghost predicate Prime(p: nat) {
    p >= 2 && forall d: nat :: 2 <= d < p ==> !Divides(d, p)
  }

  function Product(factors: seq<nat>): nat {
    if factors == [] then 1 else factors[0] * Product(factors[1..])
  }

  ghost predicate Ascending(factors: seq<nat>) {
    forall k :: 0 < k < |factors| ==> factors[k - 1] <= factors[k]
  }

  ghost predicate IsFactorization(factors: seq<nat>, n: nat) {
    && Product(factors) == n
    && Ascending(factors)
    && forall p :: p in factors ==> Prime(p)
  }

  // ----- divisibility

  lemma SignOfFactor(x: int, y: int)
    requires x > 0 && x * y >= 0
    ensures y >= 0
  {
    assert y < 0 ==> x * -y > 0;
  }

  lemma MultipleDivides(d: nat, q: int, n: nat)
    requires d > 0 && d * q == n
    ensures Divides(d, n)
  {
    SignOfFactor(d, q);
    DivModUnique(n, d, q, 0);
  }

  lemma DividesTransitive(d: nat, e: nat, n: nat)
    requires Divides(d, e) && Divides(e, n)
    ensures Divides(d, n)
  {
    var q, r := e / d, n / e;
    assert d * q == e && e * r == n;
    assert d * (q * r) == (d * q) * r;
    MultipleDivides(d, q * r, n);
  }

  lemma DivisorBound(d: nat, n: nat)
    requires Divides(d, n) && n > 0
    ensures d <= n
  {
    assert d * (n / d) == n;
    MulOrder(1, n / d, d);
  }

  lemma {:induction false} ProductSnoc(factors: seq<nat>, p: nat)
    ensures Product(factors + [p]) == Product(factors) * p
  {
    if factors == [] {
      assert [p][1..] == [];
      assert factors + [p] == [p];
    } else {
      ProductSnoc(factors[1..], p);
      assert (factors + [p])[1..] == factors[1..] + [p];
    }
  }

  /** The smallest divisor found by counting up is a prime. */
  lemma LeastDivisorIsPrime(d: nat, n: nat)
    requires d >= 2 && Divides(d, n)
    requires forall k: nat :: 2 <= k < d ==> !Divides(k, n)
    ensures Prime(d)
  {
    forall k: nat | 2 <= k < d && Divides(k, d)
      ensures false
    {
      DividesTransitive(k, d, n);
    }
  }

  /** What is left when d * d has passed it is a prime that is not below d. */
  lemma RemainderIsPrime(d: nat, n: nat)
    requires d >= 2 && n >= 2 && d * d > n
    requires forall k: nat :: 2 <= k < d ==> !Divides(k, n)
    ensures Prime(n) && n >= d
  {
    assert Divides(n, n);
    forall k: nat | 2 <= k < n && Divides(k, n)
      ensures false
    {
      assert k * (n / k) == n;
      TooLarge(d, n, k, n / k);
    }
  }

  /** Of two factors, one would be below d. */
  lemma TooLarge(d: nat, n: nat, k: nat, q: nat)
    requires d * d > n && n > k >= 2 && k * q == n
    requires forall j: nat :: 2 <= j < d ==> !Divides(j, n)
    ensures k < d
  {
    MultipleDivides(q, k, n);
    assert q != 0 && q != 1;
    if k >= d {
      MulOrder(d, q, k);
      MulOrder(d, k, d);
    }
  }

  /** Dividing a divisor out leaves a smaller number with no new divisors. */
  lemma DivideOut(d: nat, n: nat)
    requires d >= 2 && n >= 1 && n % d == 0
    ensures 1 <= n / d < n && d * (n / d) == n
    ensures forall k: nat :: Divides(k, n / d) ==> Divides(k, n)
  {
    var q := n / d;
    assert d * q == n;
    assert q > 0;
    MulOrder(2, d, q);
    assert q * d == d * q;
    MultipleDivides(q, d, n);
    forall k: nat | Divides(k, q)
      ensures Divides(k, n)
    {
      DividesTransitive(k, q, n);
    }
  }

  /** The state between two divisions: the factors found so far, what is left of n0,
      and no divisor of it below d. */
  ghost predicate Reached(factors: seq<nat>, n: int, d: nat, n0: int) {
    && n >= 1 && d >= 2
    && Product(factors) * n == n0
    && Ascending(factors)
    && (forall p :: p in factors ==> Prime(p) && p <= d)
    && (forall k: nat :: 2 <= k < d ==> !Divides(k, n))
  }

  lemma AscendingSnoc(factors: seq<nat>, p: nat)
    requires Ascending(factors) && forall f :: f in factors ==> f <= p
    ensures Ascending(factors + [p])
  {
    if factors != [] {
      assert factors[|factors| - 1] in factors;
    }
  }

  lemma DivisionStep(factors: seq<nat>, n: nat, d: nat, n0: nat)
    requires Reached(factors, n, d, n0) && n % d == 0
    ensures n / d < n && Reached(factors + [d], n / d, d, n0)
  {
    assert Divides(d, n);
    hide Divides, Prime, Product, Ascending;
    LeastDivisorIsPrime(d, n);
    ProductSnoc(factors, d);
    AscendingSnoc(factors, d);
    DivideOut(d, n);
    ProductMoves(Product(factors), d, n / d, n);
  }

  lemma ProductMoves(product: nat, d: nat, q: nat, n: nat)
    requires d * q == n
    ensures (product * d) * q == product * n
  {
  }

  lemma FactorBound(x: nat, y: nat)
    requires y * x > 0
    ensures x <= y * x
  {
  }

  lemma LoopBound(factors: seq<nat>, n: nat, d: nat, n0: nat)
    requires Reached(factors, n, d, n0) && d * d <= n && n0 > 0
    ensures d < n0
  {
    FactorBound(n, Product(factors));
    MulOrder(2, d, d);
  }

  lemma LastFactor(factors: seq<nat>, n: nat, d: nat, n0: nat)
    requires Reached(factors, n, d, n0) && d * d > n
    ensures IsFactorization(if n > 1 then factors + [n] else factors, n0)
  {
    if n > 1 {
      RemainderIsPrime(d, n);
      ProductSnoc(factors, n);
      AscendingSnoc(factors, n);
    }
  }

  /** `out` lists the prime factors of n, each after a blank. n is what atoi made of
      the argument. */
  method CmdFactor(n0: int) returns (factors: seq<nat>, out: string)
    ensures n0 < 2 ==> factors == []
    ensures n0 >= 2 ==> IsFactorization(factors, n0)
    ensures out == Decimal(n0) + ":" + Concat(Printed(factors)) + "\n"
  {
    var n := n0;
    var text := "";
    factors := [];
    if n >= 2 {
      var d: nat := 2;
      while d * d <= n
        invariant Reached(factors, n, d, n0)
        invariant text == Concat(Printed(factors))
        decreases n0 - d
      {
        LoopBound(factors, n, d, n0);
        while n % d == 0
          invariant Reached(factors, n, d, n0)
          invariant text == Concat(Printed(factors))
          decreases n
        {
          DivisionStep(factors, n, d, n0);
          PrintedSnoc(factors, d);
          text := text + (" " + Decimal(d));
          factors := factors + [d];
          n := n / d;
        }
        d := d + 1;
      }
      LastFactor(factors, n, d, n0);
      if n > 1 {
        PrintedSnoc(factors, n);
        text := text + (" " + Decimal(n));
        factors := factors + [n];
      }
    }
    out := Decimal(n0) + ":" + text + "\n";
  }

  function Printed(factors: seq<nat>): seq<string> {
    seq(|factors|, k requires 0 <= k < |factors| => " " + Decimal(factors[k]))
  }

  lemma PrintedSnoc(factors: seq<nat>, p: nat)
    ensures Concat(Printed(factors + [p])) == Concat(Printed(factors)) + (" " + Decimal(p))
  {
    assert Printed(factors + [p]) == Printed(factors) + [" " + Decimal(p)];
    ConcatSnoc(Printed(factors), " " + Decimal(p));
  }

  // ----- the factorization is the only one

  lemma Distribute(x: int, y: int, z: int)
    ensures x * (y - z) == x * y - x * z
  {
  }

  /** p divides r * b when it divides a * b and r is a multiple of p away from
      plus or minus a multiple of a. */
  lemma Reduce(p: nat, a: nat, b: nat, r: nat, q: nat)
    requires p > 0 && Divides(p, a * b)
    requires r == p - a * q || r == a - p * q
    ensures Divides(p, r * b)
  {
    var m := a * b / p;
    assert p * m == a * b;
    if r == p - a * q {
      MinusMultiple(p, a, b, q, p * m);
      Distribute(p, b, q * m);
      Swap(p, q, m);
      MultipleDivides(p, b - q * m, r * b);
    } else {
      MinusMultiple(a, p, b, q, p * b);
      Distribute(p, m, q * b);
      Swap(p, q, b);
      MultipleDivides(p, m - q * b, r * b);
    }
  }

  lemma MinusMultiple(x: int, y: int, b: int, q: int, yb: int)
    requires yb == y * b
    ensures (x - y * q) * b == x * b - q * yb
  {
    assert (x - y * q) * b == x * b - (y * q) * b;
    assert (y * q) * b == q * (y * b);
  }

  lemma Swap(p: int, q: int, m: int)
    ensures p * (q * m) == q * (p * m)
  {
  }

  /** Euclid's lemma, by descent on a. */
  lemma {:induction false} EuclidBelow(p: nat, a: nat, b: nat)
    requires Prime(p) && 0 < a < p && Divides(p, a * b)
    ensures Divides(p, b)
    decreases a
  {
    if a > 1 {
      var q, r := p / a, p % a;
      assert p == a * q + r;
      assert !Divides(a, p);
      Reduce(p, a, b, r, q);
      EuclidBelow(p, r, b);
    } else {
      assert a * b == b;
    }
  }

  lemma Euclid(p: nat, a: nat, b: nat)
    requires Prime(p) && Divides(p, a * b) && !Divides(p, a)
    ensures Divides(p, b)
  {
    var q, r := a / p, a % p;
    assert a == p * q + r;
    Reduce(p, a, b, r, q);
    EuclidBelow(p, r, b);
  }

  lemma {:induction false} PrimeDivisorIsListed(p: nat, factors: seq<nat>)
    requires Prime(p) && (forall f :: f in factors ==> Prime(f)) && Divides(p, Product(factors))
    ensures p in factors
  {
    if factors == [] {
      DivisorBound(p, 1);
    } else {
      var f := factors[0];
      assert Prime(f);
      if Divides(p, f) {
        DivisorBound(p, f);
      } else {
        Euclid(p, f, Product(factors[1..]));
        PrimeDivisorIsListed(p, factors[1..]);
      }
    }
  }

  lemma {:induction false} HeadIsLeast(factors: seq<nat>, f: nat)
    requires Ascending(factors) && f in factors
    ensures factors[0] <= f
  {
    if factors[0] != f {
      assert Ascending(factors[1..]) by {
        forall k | 0 < k < |factors[1..]|
          ensures factors[1..][k - 1] <= factors[1..][k]
        {
          assert factors[k] <= factors[k + 1];
        }
      }
      HeadIsLeast(factors[1..], f);
      assert factors[0] <= factors[1];
    }
  }

  lemma {:induction false} FactorizationIsUnique(xs: seq<nat>, ys: seq<nat>, n: nat)
    requires IsFactorization(xs, n) && IsFactorization(ys, n)
    ensures xs == ys
  {
    if xs != [] && ys != [] {
      HeadDivides(xs, n);
      SameHead(xs, ys, n);
      TailFactorization(xs, n);
      TailFactorization(ys, n);
      FactorizationIsUnique(xs[1..], ys[1..], n / xs[0]);
    } else if xs != [] {
      OnlyEmptyIsOne(xs);
    } else if ys != [] {
      OnlyEmptyIsOne(ys);
    }
  }

  lemma HeadDivides(xs: seq<nat>, n: nat)
    requires IsFactorization(xs, n) && xs != []
    ensures Prime(xs[0]) && Divides(xs[0], n) && n / xs[0] == Product(xs[1..])
  {
    DivModUnique(n, xs[0], Product(xs[1..]), 0);
  }

  lemma SameHead(xs: seq<nat>, ys: seq<nat>, n: nat)
    requires IsFactorization(xs, n) && IsFactorization(ys, n) && xs != [] && ys != []
    ensures xs[0] == ys[0]
  {
    HeadDivides(xs, n);
    HeadDivides(ys, n);
    PrimeDivisorIsListed(xs[0], ys);
    PrimeDivisorIsListed(ys[0], xs);
    HeadIsLeast(xs, ys[0]);
    HeadIsLeast(ys, xs[0]);
  }

  lemma TailFactorization(xs: seq<nat>, n: nat)
    requires IsFactorization(xs, n) && xs != [] && xs[0] != 0
    ensures IsFactorization(xs[1..], n / xs[0])
  {
    HeadDivides(xs, n);
    forall k | 0 < k < |xs[1..]|
      ensures xs[1..][k - 1] <= xs[1..][k]
    {
      assert xs[k] <= xs[k + 1];
    }
  }

  lemma OnlyEmptyIsOne(xs: seq<nat>)
    requires xs != [] && forall p :: p in xs ==> Prime(p)
    ensures Product(xs) != 1
  {
    var p, q := xs[0], Product(xs[1..]);
    assert Prime(p);
    if q > 0 {
      MulOrder(1, q, p);
    }
  }
}
