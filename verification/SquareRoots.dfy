/** The integer square root of libbb, two bits at a time. */
module SquareRoots {
  import opened Bits

  /** The largest number whose square is at most `n`. */
  function Isqrt(n: nat): (s: nat)
    ensures s * s <= n < (s + 1) * (s + 1)
  {
    if n == 0 then 0
    else
      var r := Isqrt(n - 1);
      if (r + 1) * (r + 1) <= n then r + 1 else r
  }

  /** `x` is the root of `n`. */
  predicate IsRoot(n: nat, x: nat)
  {
    x * x <= n < (x + 1) * (x + 1)
  }

  lemma Squares(a: nat, b: nat)
    requires a < b
    ensures (a + 1) * (a + 1) <= b * b
  {
    var d := b - (a + 1);
    assert b * b == (a + 1) * (a + 1) + d * (b + a + 1);
  }

  lemma OneRoot(n: nat, x: nat)
    requires IsRoot(n, x)
    ensures x == Isqrt(n)
  {
    var s := Isqrt(n);
    if s < x {
      Squares(s, x);
    } else if x < s {
      Squares(x, s);
    }
  }

  /** Two more bits of the number give one more bit of the root. */
  lemma NextBit(m: nat, n: nat, x: nat)
    requires IsRoot(m, x) && 4 * m <= n < 4 * m + 4
    ensures IsRoot(n, if (2 * x + 1) * (2 * x + 1) > n then 2 * x else 2 * x + 1)
  {
    assert 4 * ((x + 1) * (x + 1)) == (2 * x + 2) * (2 * x + 2);
    assert 4 * (x * x) == 2 * x * (2 * x);
  }

  lemma {:induction false} TwoBits(n: nat, k: nat)
    ensures 4 * Shr(n, k + 2) <= Shr(n, k) < 4 * Shr(n, k + 2) + 4
    decreases k
  {
    if k > 0 {
      TwoBits(n / 2, k - 1);
    } else {
      assert Shr(n, 2) == Shr(n / 2, 1) == n / 2 / 2;
    }
  }

  lemma {:induction false} AllShifted(n: nat, k: nat)
    requires n < Pow2(k)
    ensures Shr(n, k) == 0
    decreases k
  {
    if k > 0 {
      AllShifted(n / 2, k - 1);
    }
  }

  lemma Unshifted(n: nat)
    ensures Shr(n, 0) == n
  {
  }

  lemma {:induction false} NothingLeft(n: nat)
    requires n < 0x1_0000_0000_0000_0000
    ensures IsRoot(Shr(n, 64), 0)
  {
    hide Pow2, Shr;
    Pow2Constants();
    Pow2Eight(32);
    Pow2Eight(40);
    Pow2Eight(48);
    Pow2Eight(56);
    AllShifted(n, 64);
  }

  lemma RootSize(n: nat)
    requires n < 0x1_0000_0000_0000_0000
    ensures Isqrt(n) < 0x1_0000_0000
  {
    hide Isqrt;
    if Isqrt(n) >= 0x1_0000_0000 {
      Squares(0xffff_ffff, Isqrt(n));
    }
  }

  /** isqrt */
  method SquareRoot(n: nat) returns (x: nat)
    requires n < 0x1_0000_0000_0000_0000
    ensures x == Isqrt(n) < 0x1_0000_0000
  {
    hide IsRoot, Isqrt, Shr;
    var shift := 62;
    x := 0;
    NothingLeft(n);
    while true
      invariant 0 <= shift <= 62 && shift % 2 == 0 && IsRoot(Shr(n, shift + 2), x)
      decreases shift
    {
      TwoBits(n, shift);
      NextBit(Shr(n, shift + 2), Shr(n, shift), x);
      x := 2 * x + 1;
      if x * x > Shr(n, shift) {
        x := x - 1;
      }
      shift := shift - 2;
      if shift < 0 {
        break;
      }
    }
    Unshifted(n);
    OneRoot(n, x);
    RootSize(n);
  }
}
