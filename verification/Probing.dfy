/** Double hashing: where the probes of dpkg's hash tables go. */
module Probing {
  import opened Bits
  import opened Primes

  const NAME_HASH_PRIME := 16381
  const PACKAGE_HASH_PRIME := 10007
  const STATUS_HASH_PRIME := 8191

  /** None of the ten numbers from `d` on divides `n`. */
  lemma TenMore(n: nat, d: nat)
    requires d >= 2 && NoSmall(n, d)
    requires n % d != 0 && n % (d + 1) != 0 && n % (d + 2) != 0 && n % (d + 3) != 0 && n % (d + 4) != 0
    requires n % (d + 5) != 0 && n % (d + 6) != 0 && n % (d + 7) != 0 && n % (d + 8) != 0 && n % (d + 9) != 0
    ensures NoSmall(n, d + 10)
  {
    forall k | 2 <= k < d + 10 ensures n % k != 0 {
      if k >= d {
        assert k == d || k == d + 1 || k == d + 2 || k == d + 3 || k == d + 4
            || k == d + 5 || k == d + 6 || k == d + 7 || k == d + 8 || k == d + 9;
      }
    }
  }

  lemma NoneYet(n: nat)
    ensures NoSmall(n, 2)
  {
  }

  lemma Fewer(n: nat, d: nat, e: nat)
    requires d <= e && NoSmall(n, e)
    ensures NoSmall(n, d)
  {
  }

  lemma {:induction false} NameBegun()
    ensures NoSmall(16381, 62)
  {
    hide NoSmall;
    NoneYet(16381);
    TenMore(16381, 2); TenMore(16381, 12); TenMore(16381, 22); TenMore(16381, 32); TenMore(16381, 42);
    TenMore(16381, 52);
  }

  lemma {:induction false} NamePrime()
    ensures Prime(16381)
  {
    hide Prime, NoSmall;
    NameBegun();
    TenMore(16381, 62); TenMore(16381, 72); TenMore(16381, 82); TenMore(16381, 92);
    TenMore(16381, 102); TenMore(16381, 112); TenMore(16381, 122);
    Fewer(16381, 128, 132);
    PrimeByRoot(16381, 127);
  }

  lemma {:induction false} PackagePrime()
    ensures Prime(10007)
  {
    hide Prime, NoSmall;
    NoneYet(10007);
    TenMore(10007, 2); TenMore(10007, 12); TenMore(10007, 22); TenMore(10007, 32); TenMore(10007, 42);
    TenMore(10007, 52); TenMore(10007, 62); TenMore(10007, 72); TenMore(10007, 82); TenMore(10007, 92);
    Fewer(10007, 101, 102);
    PrimeByRoot(10007, 100);
  }

  lemma {:induction false} StatusPrime()
    ensures Prime(8191)
  {
    hide Prime, NoSmall;
    NoneYet(8191);
    TenMore(8191, 2); TenMore(8191, 12); TenMore(8191, 22); TenMore(8191, 32); TenMore(8191, 42);
    TenMore(8191, 52); TenMore(8191, 62); TenMore(8191, 72); TenMore(8191, 82);
    Fewer(8191, 91, 92);
    PrimeByRoot(8191, 90);
  }

  /** The three table sizes are prime. */
  lemma HashPrimes()
    ensures Prime(NAME_HASH_PRIME) && Prime(PACKAGE_HASH_PRIME) && Prime(STATUS_HASH_PRIME)
  {
    hide Prime;
    NamePrime();
    PackagePrime();
    StatusPrime();
  }

  /** Where to begin and how far to step, from a sum that wraps around at `ulong`, which is 2^32 or 2^64. */
  function MakeHash(key: string, prime: nat, ulong: nat): (h: (nat, nat))
    requires prime >= 2 && ulong > 0
    ensures h.0 < prime && 1 <= h.1 < prime
  {
    var sum := HashSum(key, |key|) % ulong;
    (sum % 0x1_0000_0000 % prime, 1 + sum % (prime - 1))
  }

  /** The sum over the first `n` characters: each is added to the one before and moved up by its own value. */
  function HashSum(key: string, n: nat): (s: nat)
    requires n <= |key|
  {
    if n == 0 then 0
    else if n == 1 then key[0] as int
    else HashSum(key, n - 1) + Pow2(key[n - 1] as int * (n - 1) % 24) * (key[n - 1] as int + key[n - 2] as int)
  }

  /** make_hash */
  method HashKey(key: string, prime: nat, ulong: nat) returns (h: (nat, nat))
    requires prime >= 2 && ulong > 0
    ensures h == MakeHash(key, prime, ulong)
    ensures var sum := HashSum(key, |key|) % ulong;
      h.0 == sum % 0x1_0000_0000 % prime && h.1 == 1 + sum % (prime - 1)
  {
    hide HashSum, Pow2, Shl;
    HashStart(key);
    var num := (if key == "" then 0 else key[0] as int) % ulong;
    var i := 1;
    while i < |key|
      invariant 1 <= i && (i <= |key| || key == "") && num == HashSum(key, if key == "" then 0 else i) % ulong
    {
      var add := Shl(key[i] as int + key[i - 1] as int, key[i] as int * i % 24);
      HashNext(key, i);
      WrapsOnce(HashSum(key, i), add, ulong);
      num, i := (num + add) % ulong, i + 1;
    }
    return (num % 0x1_0000_0000 % prime, 1 + num % (prime - 1));
  }

  lemma HashStart(key: string)
    ensures HashSum(key, 0) == 0 && (key != "" ==> HashSum(key, 1) == key[0] as int)
  {
  }

  lemma HashNext(key: string, i: nat)
    requires 1 <= i < |key|
    ensures HashSum(key, i + 1)
         == HashSum(key, i) + Shl(key[i] as int + key[i - 1] as int, key[i] as int * i % 24)
  {
    hide Pow2, Shl;
    ShlIsTimes(key[i] as int + key[i - 1] as int, key[i] as int * i % 24);
  }

  lemma WrapsOnce(a: nat, b: nat, n: nat)
    requires n > 0
    ensures (a % n + b) % n == (a + b) % n
  {
    var q, r := (a % n + b) / n, (a % n + b) % n;
    assert a % n + b == q * n + r && a == a / n * n + a % n;
    Distribute(q, a / n, n);
    DivUnique(a + b, n, q + a / n, r);
  }

  /** The slot after `x`: `d` below, around the table of `p` slots. */
  function Down(x: nat, d: nat, p: nat): (y: nat)
    requires x < p && 1 <= d < p
    ensures y < p
  {
    if x >= d then x - d else x + p - d
  }

  /** The slot after `i` steps. */
  function Probe(a: nat, d: nat, p: nat, i: nat): (x: nat)
    requires a < p && 1 <= d < p
    ensures x < p
  {
    if i == 0 then a else Down(Probe(a, d, p, i - 1), d, p)
  }

  lemma {:induction false} ProbeIs(a: nat, d: nat, p: nat, i: nat)
    requires a < p && 1 <= d < p
    ensures Probe(a, d, p, i) == (a + i * (p - d)) % p
  {
    if i == 0 {
      DivUnique(a, p, 0, a);
    } else {
      ProbeIs(a, d, p, i - 1);
      Distribute(i - 1, 1, p - d);
      DownIs(a + (i - 1) * (p - d), d, p);
    }
  }

  lemma DownIs(s: nat, d: nat, p: nat)
    requires 1 <= d < p
    ensures Down(s % p, d, p) == (s + (p - d)) % p
  {
    var q, x := s / p, s % p;
    assert s == q * p + x;
    if x >= d {
      assert s + (p - d) == (q + 1) * p + (x - d);
      DivUnique(s + (p - d), p, q + 1, x - d);
    } else {
      DivUnique(s + (p - d), p, q, x + (p - d));
    }
  }

  /** The probes reach every slot within `p` steps. */
  lemma {:induction false} ProbeReaches(a: nat, d: nat, p: nat, f: nat) returns (i: nat)
    requires Prime(p) && a < p && 1 <= d < p && f < p
    ensures i < p && Probe(a, d, p, i) == f
  {
    hide Prime, Probe;
    var n, turns := StepsTo(a, f, p, p - d);
    i := Lands(a, p - d, p, n, f, turns);
    ProbeIs(a, d, p, i);
  }

  lemma {:induction false} Lands(a: nat, e: nat, p: nat, n: nat, f: nat, turns: nat) returns (i: nat)
    requires f < p && a + n * e == f + p * turns
    ensures i < p && (a + i * e) % p == f
  {
    i := n % p;
    ModProduct(n, e, p);
    Reduced(a, i * e, n * e, f, turns, p);
  }

  /** Enough steps of `e` lead from `a` to `f`, some times around. */
  lemma {:induction false} StepsTo(a: nat, f: nat, p: nat, e: nat) returns (n: nat, turns: nat)
    requires Prime(p) && a < p && 1 <= e < p && f < p
    ensures a + n * e == f + p * turns
  {
    hide Prime;
    var x, k := Inverse(e, p);
    var g: nat := f + p - a;
    n, turns := g * x, 1 + g * k;
    Solves(a, f, p, e, x, k);
  }

  lemma Reduced(a: nat, small: nat, large: nat, f: nat, turns: nat, p: nat)
    requires f < p && small % p == large % p && a + large == f + p * turns
    ensures (a + small) % p == f
  {
    AddBoth(a, small, large, p);
    ShiftMod(f, p, turns);
    DivUnique(f, p, 0, f);
  }

  lemma Solves(a: int, f: int, p: int, e: int, x: int, k: int)
    requires e * x == 1 + k * p
    ensures a + (f + p - a) * x * e == f + p * (1 + (f + p - a) * k)
  {
    calc {
      a + (f + p - a) * x * e;
      a + (f + p - a) * (e * x);
      a + (f + p - a) * (1 + k * p);
      f + p + (f + p - a) * k * p;
      f + p * (1 + (f + p - a) * k);
    }
  }

  lemma ModProduct(n: nat, e: nat, p: nat)
    requires p > 0
    ensures (n % p * e) % p == (n * e) % p
  {
    var q, r := n / p, n % p;
    assert n == q * p + r;
    assert n * e == r * e + p * (q * e);
    ShiftMod(r * e, p, q * e);
  }

  lemma AddBoth(a: nat, x: nat, y: nat, p: nat)
    requires p > 0 && x % p == y % p
    ensures (a + x) % p == (a + y) % p
  {
    var r, m, n := x % p, x / p, y / p;
    assert x == r + p * m && y == r + p * n;
    ShiftMod(a + r, p, m);
    ShiftMod(a + r, p, n);
  }
}
