/** Primes, divisors and products, as far as trial division needs them. */
module Primes {

  predicate Prime(p: nat)
  {
    p >= 2 && forall d | 2 <= d < p :: p % d != 0
  }

  /** `n` has no divisor from 2 up to before `f`. */
  predicate NoSmall(n: nat, f: nat)
  {
    forall d | 2 <= d < f :: n % d != 0
  }

  lemma MulMod(q: nat, k: nat)
    requires q > 0
    ensures (q * k) % q == 0
  {
    if k > 0 {
      MulMod(q, k - 1);
      assert q * k == q * (k - 1) + q;
      assert (q * (k - 1) + q) % q == (q * (k - 1)) % q by { AddMod(q * (k - 1), q); }
    }
  }

  lemma AddMod(a: nat, q: nat)
    requires q > 0
    ensures (a + q) % q == a % q && (a + q) / q == a / q + 1
  {
    var r, k := a % q, a / q;
    assert a == k * q + r;
    assert a + q == (k + 1) * q + r;
    DivUnique(a + q, q, k + 1, r);
  }

  lemma DivUnique(n: nat, d: nat, k: nat, r: nat)
    requires d > 0 && r < d && n == k * d + r
    ensures n / d == k && n % d == r
  {
    var k', r' := n / d, n % d;
    assert n == k' * d + r';
    if k' < k {
      MulMono(k' + 1, k, d);
    } else if k < k' {
      MulMono(k + 1, k', d);
    }
  }

  lemma {:induction false} ShiftMod(d: nat, p: nat, k: nat)
    requires p > 0
    ensures (d + p * k) % p == d % p
  {
    assert d == d / p * p + d % p;
    Distribute(d / p, k, p);
    DivUnique(d + p * k, p, d / p + k, d % p);
  }

  lemma Distribute(a: nat, b: nat, p: nat)
    ensures (a + b) * p == a * p + p * b
  {
  }

  lemma Quotient(n: nat, d: nat)
    requires d > 0 && n % d == 0
    ensures n == d * (n / d) && (n > 0 ==> n / d > 0)
  {
  }

  lemma DivTrans(q: nat, d: nat, n: nat)
    requires q > 0 && d > 0 && d % q == 0 && n % d == 0
    ensures n % q == 0
  {
    Quotient(d, q);
    Quotient(n, d);
    Assoc(q, d / q, n / d);
    MulMod(q, (d / q) * (n / d));
  }

  lemma Assoc(a: nat, b: nat, c: nat)
    ensures a * b * c == a * (b * c)
  {
  }

  lemma QuotientDivides(n: nat, d: nat)
    requires d > 0 && n > 0 && n % d == 0
    ensures n / d > 0 && n % (n / d) == 0
  {
    Quotient(n, d);
    Commute(d, n / d);
    MulMod(n / d, d);
  }

  lemma Commute(a: nat, b: nat)
    ensures a * b == b * a
  {
  }

  /** The smallest divisor of a number is prime. */
  lemma {:induction false} SmallestIsPrime(n: nat, f: nat)
    requires f >= 2 && NoSmall(n, f) && n % f == 0
    ensures Prime(f)
  {
    forall d | 2 <= d < f ensures f % d != 0 {
      if f % d == 0 {
        DivTrans(d, f, n);
      }
    }
  }

  /** Trial division up to the square root is enough. */
  lemma {:induction false} PrimeByRoot(n: nat, r: nat)
    requires n >= 2 && NoSmall(n, r + 1) && n < (r + 1) * (r + 1)
    ensures Prime(n)
  {
    forall d | 2 <= d < n ensures n % d != 0 {
      if n % d == 0 {
        Quotient(n, d);
        QuotientDivides(n, d);
        SmallDivisor(d, n / d, n, r);
      }
    }
  }

  /** Of two factors of a number, one is at most its square root. */
  lemma SmallDivisor(d: nat, e: nat, n: nat, r: nat)
    requires 2 <= d < n && n == d * e && n < (r + 1) * (r + 1)
    ensures 2 <= e && (d <= r || e <= r)
  {
    if d > r && e > r {
      Larger(r + 1, d, r + 1, e);
    }
  }

  lemma Larger(a: nat, b: nat, c: nat, d: nat)
    requires a <= b && c <= d
    ensures a * c <= b * d
  {
    assert a * c <= b * c by { MulMono(a, b, c); }
    assert b * c <= b * d by { MulMono(c, d, b); }
  }

  lemma MulMono(a: nat, b: nat, c: nat)
    requires a <= b
    ensures a * c <= b * c && c * a <= c * b
  {
  }

  lemma {:induction false} NoSmallQuotient(n: nat, f: nat)
    requires f >= 2 && n > 0 && NoSmall(n, f) && n % f == 0
    ensures NoSmall(n / f, f) && n / f > 0
  {
    QuotientDivides(n, f);
    forall d | 2 <= d < f ensures n / f % d != 0 {
      if n / f % d == 0 {
        DivTrans(d, n / f, n);
      }
    }
  }

  /** Every number below a prime has an inverse modulo the prime. */
  lemma {:induction false} Inverse(d: nat, p: nat) returns (x: nat, k: nat)
    requires Prime(p) && 1 <= d < p
    ensures d * x == 1 + k * p
    decreases d
  {
    if d == 1 {
      x, k := 1, 0;
    } else {
      var q, r := p / d, p % d;
      var y, j := Inverse(r, p);
      x, k := q * y * (p - 1), j + (d * q - 1) * y;
      Bezout(d, p, q, r, y, j);
    }
  }

  lemma Bezout(d: int, p: int, q: int, r: int, y: int, j: int)
    requires p == q * d + r && r * y == 1 + j * p
    ensures d * (q * y * (p - 1)) == 1 + (j + (d * q - 1) * y) * p
  {
    calc {
      d * (q * y * (p - 1));
      (d * q) * y * (p - 1);
      (p - r) * y * (p - 1);
      (p - r) * y * p - (p - r) * y;
      (d * q) * y * p - p * y + r * y;
      (d * q) * y * p - y * p + 1 + j * p;
      1 + (j + (d * q - 1) * y) * p;
    }
  }

  /** A prime that divides a product divides one of its factors. */
  lemma {:induction false} Euclid(p: nat, a: nat, b: nat)
    requires Prime(p) && a * b % p == 0
    ensures a % p == 0 || b % p == 0
  {
    assert p >= 2;
    hide Prime;
    if a % p != 0 {
      var d, e, m := a % p, a / p, a * b / p;
      var x, k := Inverse(d, p);
      var t := (m - e * b) * x - b * k;
      Multiple(a, b, p, d, e, m, x, k);
      assert t >= 0 by {
        if t < 0 {
          Below(p, t);
        }
      }
      MulMod(p, t);
    }
  }

  lemma Below(p: int, t: int)
    requires p > 0 && t < 0
    ensures p * t < 0
  {
  }

  lemma Multiple(a: int, b: int, p: int, d: int, e: int, m: int, x: int, k: int)
    requires a == e * p + d && a * b == p * m && d * x == 1 + k * p
    ensures b == p * ((m - e * b) * x - b * k)
  {
    calc {
      p * ((m - e * b) * x - b * k);
      (p * m - p * e * b) * x - b * (k * p);
      (a * b - p * e * b) * x - b * (d * x - 1);
      (d * b) * x - b * (d * x) + b;
      b;
    }
  }

  // ----- lists of primes -----

  ghost predicate AllPrime(ps: seq<nat>)
  {
    forall p | p in ps :: Prime(p)
  }

  ghost predicate Sorted(ps: seq<nat>)
  {
    forall i, j | 0 <= i < j < |ps| :: ps[i] <= ps[j]
  }

  function Product(ps: seq<nat>): (n: nat)
  {
    if ps == [] then 1 else Product(ps[..|ps| - 1]) * ps[|ps| - 1]
  }

  lemma {:induction false} ProductConcat(a: seq<nat>, b: seq<nat>)
    ensures Product(a + b) == Product(a) * Product(b)
  {
    if b == [] {
      assert a + b == a;
    } else {
      assert (a + b)[..|a + b| - 1] == a + b[..|b| - 1];
      ProductConcat(a, b[..|b| - 1]);
      Assoc(Product(a), Product(b[..|b| - 1]), b[|b| - 1]);
    }
  }

  lemma {:induction false} ProductSnoc(a: seq<nat>, p: nat)
    ensures Product(a + [p]) == Product(a) * p
  {
    assert (a + [p])[..|a|] == a;
  }

  /** Every member of the list divides the product. */
  lemma {:induction false} MemberDivides(ps: seq<nat>, i: nat)
    requires i < |ps| && ps[i] > 0
    ensures Product(ps) % ps[i] == 0
    decreases |ps|
  {
    var last := |ps| - 1;
    if i == last {
      Commute(Product(ps[..last]), ps[i]);
      MulMod(ps[i], Product(ps[..last]));
    } else {
      MemberDivides(ps[..last], i);
      Quotient(Product(ps[..last]), ps[i]);
      Assoc(ps[i], Product(ps[..last]) / ps[i], ps[last]);
      MulMod(ps[i], Product(ps[..last]) / ps[i] * ps[last]);
    }
  }

  lemma {:induction false} MembersAbove(ps: seq<nat>, n: nat, f: nat)
    requires AllPrime(ps) && Product(ps) == n && NoSmall(n, f)
    ensures forall p | p in ps :: p >= f
  {
    forall p | p in ps ensures p >= f {
      var i :| 0 <= i < |ps| && ps[i] == p;
      MemberDivides(ps, i);
    }
  }

  lemma {:induction false} PrimeDivisor(p: nat, q: nat)
    requires Prime(p) && Prime(q) && q % p == 0
    ensures p == q
  {
  }

  lemma {:induction false} DividesMember(p: nat, ps: seq<nat>)
    requires Prime(p) && AllPrime(ps) && Product(ps) % p == 0
    ensures p in ps
  {
    if ps != [] {
      var init, last := ps[..|ps| - 1], ps[|ps| - 1];
      Euclid(p, Product(init), last);
      if last % p == 0 {
        PrimeDivisor(p, last);
      } else {
        DividesMember(p, init);
      }
    }
  }

  /** There is only one nondecreasing list of primes with a given product. */
  lemma {:induction false} UniqueFactors(ps: seq<nat>, qs: seq<nat>)
    requires AllPrime(ps) && Sorted(ps) && AllPrime(qs) && Sorted(qs) && Product(ps) == Product(qs)
    ensures ps == qs
  {
    hide Prime, AllPrime, Sorted, Product;
    if ps == [] || qs == [] {
      OnlyOne(ps);
      OnlyOne(qs);
    } else {
      var a, p, b, q := ps[..|ps| - 1], ps[|ps| - 1], qs[..|qs| - 1], qs[|qs| - 1];
      LastIsLargest(ps);
      LastIsLargest(qs);
      DividesMember(p, qs);
      DividesMember(q, ps);
      Cancel(Product(a), Product(b), p);
      UniqueFactors(a, b);
      assert ps == a + [p] && qs == b + [q];
    }
  }

  lemma LastIsLargest(ps: seq<nat>)
    requires ps != [] && AllPrime(ps) && Sorted(ps)
    ensures var a, p := ps[..|ps| - 1], ps[|ps| - 1];
            && AllPrime(a) && Sorted(a) && Prime(p) && p >= 2 && Product(ps) == Product(a) * p && Product(ps) % p == 0
            && forall x | x in ps :: x <= p
  {
    LastDivides(ps);
    assert ps[|ps| - 1] in ps;
  }

  lemma LastDivides(ps: seq<nat>)
    requires ps != [] && AllPrime(ps)
    ensures Prime(ps[|ps| - 1]) && Product(ps) % ps[|ps| - 1] == 0
  {
    assert ps[|ps| - 1] in ps && Prime(ps[|ps| - 1]);
    MemberDivides(ps, |ps| - 1);
  }

  lemma OnlyOne(ps: seq<nat>)
    requires AllPrime(ps)
    ensures Product(ps) == 1 <==> ps == []
  {
    if ps != [] {
      LastDivides(ps);
    }
  }

  lemma Cancel(a: nat, b: nat, p: nat)
    requires a * p == b * p && p > 0
    ensures a == b
  {
  }

  /** Every member `k` times. */
  function Repeated(ps: seq<nat>, k: nat): (s: seq<nat>)
  {
    if ps == [] then [] else Repeated(ps[..|ps| - 1], k) + Copies(ps[|ps| - 1], k)
  }

  function Copies(p: nat, k: nat): (s: seq<nat>)
    ensures |s| == k && forall i | 0 <= i < k :: s[i] == p
  {
    seq(k, _ => p)
  }

  lemma {:induction false} RepeatedConcat(a: seq<nat>, b: seq<nat>, k: nat)
    ensures Repeated(a + b, k) == Repeated(a, k) + Repeated(b, k)
  {
    if b == [] {
      assert a + b == a;
    } else {
      assert (a + b)[..|a + b| - 1] == a + b[..|b| - 1];
      RepeatedConcat(a, b[..|b| - 1], k);
    }
  }

  lemma {:induction false} RepeatedSnoc(a: seq<nat>, p: nat, k: nat)
    ensures Repeated(a + [p], k) == Repeated(a, k) + Copies(p, k)
  {
    assert (a + [p])[..|a|] == a;
  }

  lemma {:induction false} RepeatedCopies(p: nat, j: nat, k: nat)
    ensures Repeated(Copies(p, j), k) == Copies(p, j * k)
  {
    if j > 0 {
      assert Copies(p, j) == Copies(p, j - 1) + [p];
      RepeatedCopies(p, j - 1, k);
      RepeatedSnoc(Copies(p, j - 1), p, k);
      assert (j - 1) * k + k == j * k;
    }
  }

  lemma {:induction false} RepeatedTwice(ps: seq<nat>, j: nat, k: nat)
    ensures Repeated(Repeated(ps, j), k) == Repeated(ps, j * k)
  {
    if ps != [] {
      var init, p := ps[..|ps| - 1], ps[|ps| - 1];
      RepeatedTwice(init, j, k);
      RepeatedConcat(Repeated(init, j), Copies(p, j), k);
      RepeatedCopies(p, j, k);
    }
  }

  lemma {:induction false} RepeatedOnce(ps: seq<nat>)
    ensures Repeated(ps, 1) == ps
  {
    if ps != [] {
      RepeatedOnce(ps[..|ps| - 1]);
    }
  }

  /** Every prime twice: the factors of the square. */
  lemma {:induction false} Doubled(ps: seq<nat>)
    requires AllPrime(ps) && Sorted(ps)
    ensures AllPrime(Repeated(ps, 2)) && Sorted(Repeated(ps, 2))
      && Product(Repeated(ps, 2)) == Product(ps) * Product(ps)
    ensures forall p | p in Repeated(ps, 2) :: p in ps
  {
    hide Prime;
    if ps != [] {
      var init, p := ps[..|ps| - 1], ps[|ps| - 1];
      Doubled(init);
      var d := Repeated(init, 2);
      assert Copies(p, 2) == [p] + [p];
      assert Repeated(ps, 2) == d + [p] + [p];
      ProductSnoc(d, p);
      ProductSnoc(d + [p], p);
      Rearrange(Product(init), p);
      forall q | q in d ensures q <= p {
        assert q in init;
      }
    }
  }

  lemma Rearrange(a: nat, p: nat)
    ensures a * a * p * p == (a * p) * (a * p)
  {
    calc {
      (a * p) * (a * p);
      a * (p * (a * p));
      a * (a * p * p);
      a * a * p * p;
    }
  }
}
