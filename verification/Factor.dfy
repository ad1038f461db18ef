/** factor: trial division over the wheel, with recursion on perfect squares. */
module Factor {
  import opened Wheel
  import opened Primes
  import opened SquareRoots

  const WHEEL_START := 5
  const WHEEL_SIZE := 5 + 24 * 20
  const HALF := 0x1_0000_0000
  const WIDE := 0x1_0000_0000_0000_0000

  // ----- the table -----

  /** wheel_tab */
  function Table(): (s: seq<nat>)
  {
    [1, 2, 2, 4, 2] + Cycle()
  }

  /** Half of every step in three bits each, the first step lowest. */
  function Packed(row: seq<nat>): (v: nat)
  {
    if row == [] then 0 else row[0] / 2 + 8 * Packed(row[1..])
  }

  /** An element of packed_wheel. */
  function PackedWord(k: nat): (v: nat)
    requires k < ROW_COUNT
  {
    2 * Packed(Row(k))
  }

  lemma {:induction false} NextPacked(row: seq<nat>, v: nat)
    requires v / 2 == Packed(row) && forall i | 0 <= i < |row| :: row[i] % 2 == 0 && 2 <= row[i] <= 14
    ensures row == [] ==> v / 2 % 8 == 0
    ensures row != [] ==> v / 2 % 8 != 0 && 2 * (v / 2 % 8) == row[0] && v / 8 / 2 == Packed(row[1..])
  {
    if row != [] {
      Octal(v, row[0] / 2, Packed(row[1..]));
    }
  }

  lemma Octal(v: nat, a: nat, b: nat)
    requires v / 2 == a + 8 * b && a < 8
    ensures v / 2 % 8 == a && v / 8 / 2 == b
  {
    assert v / 8 / 2 == v / 2 / 8;
  }

  /** unpack_wheel */
  method UnpackWheel(tab: array<nat>)
    requires tab.Length >= WHEEL_SIZE
    modifies tab
    ensures tab[..WHEEL_SIZE] == Table()
  {
    hide Row, Packed, RowsFrom, Table, Cycle;
    tab[0], tab[1], tab[2], tab[3], tab[4] := 1, 2, 2, 4, 2;
    var p := 5;
    assert tab[..5] == [1, 2, 2, 4, 2];
    TableStarts();
    for i := 0 to ROW_COUNT
      invariant p == 5 + ROW_SIZE * i && tab[..p] + RowsFrom(i) == Table()
    {
      TableGrows(tab[..p], i);
      p := UnpackRow(tab, p, i);
    }
    TableEnds(tab[..p]);
  }

  lemma TableStarts()
    ensures [1, 2, 2, 4, 2] + RowsFrom(0) == Table()
  {
    hide Row, RowsFrom;
  }

  lemma TableGrows(done: seq<nat>, i: nat)
    requires i < ROW_COUNT
    ensures done + RowsFrom(i) == done + Row(i) + RowsFrom(i + 1)
  {
    hide Row;
  }

  lemma TableEnds(done: seq<nat>)
    ensures done + RowsFrom(ROW_COUNT) == done
  {
  }

  method UnpackRow(tab: array<nat>, start: nat, i: nat) returns (p: nat)
    requires i < ROW_COUNT && start + ROW_SIZE <= tab.Length
    modifies tab
    ensures p == start + ROW_SIZE && tab[..p] == old(tab[..start]) + Row(i)
  {
    hide Row, Packed;
    RowSize(i);
    ghost var row := Row(i);
    var v := PackedWord(i);
    p := start;
    ghost var j := 0;
    NextPacked(row, v);
    while v / 2 % 8 != 0
      invariant j <= ROW_SIZE && p == start + j && v / 2 == Packed(row[j..])
      invariant tab[..p] == old(tab[..start]) + row[..j] && (v / 2 % 8 == 0 ==> j == ROW_SIZE)
      decreases ROW_SIZE - j
    {
      NextPacked(row[j..], v);
      assert row[j..][1..] == row[j + 1..];
      tab[p] := 2 * (v / 2 % 8);
      p := p + 1;
      v := v / 8;
      j := j + 1;
      assert row[..j] == row[..j - 1] + [row[j - 1]];
      NextPacked(row[j..], v);
    }
    assert row[..j] == row;
  }

  /** A 32-bit sum with a step of the wheel. */
  function Add32(a: nat, b: nat): (s: nat)
    requires a < HALF && b < HALF
    ensures s == if a + b < HALF then a + b else a + b - HALF
  {
    (a + b) % HALF
  }

  // ----- where the wheel stands -----

  /** The wheel stands at `factor`: `at` are its positions in the first turn, `q`
      counts the turns. */
  ghost predicate Turning(at: seq<nat>, w: nat, factor: nat, q: nat)
  {
    && Leads(Cycle(), at) && |Cycle()| == ROW_COUNT * ROW_SIZE && at[0] == 13 && at[ROW_COUNT * ROW_SIZE] == 13 + 2310
    && w < WHEEL_SIZE
    && (if w < WHEEL_START then factor == [2, 3, 5, 7, 11][w] else factor == at[w - WHEEL_START] + 2310 * q)
  }

  lemma {:induction false} FirstTurn() returns (at: seq<nat>)
    ensures Turning(at, 0, 2, 0)
  {
    hide Gap, Cycle;
    CycleRolls();
    at :| Leads(Cycle(), at) && at[0] == 13 && at[|Cycle()|] == 13 + 2310;
  }

  /** The next position, and the start of another turn after the last one. */
  lemma {:induction false} TurnOn(at: seq<nat>, w: nat, factor: nat, q: nat)
    requires Turning(at, w, factor, q)
    ensures |Table()| == WHEEL_SIZE && 1 <= Table()[w] <= 14
    ensures w + 1 < WHEEL_SIZE ==>
      Turning(at, w + 1, factor + Table()[w], q) || Turning(at, w + 1, factor + Table()[w], 0)
    ensures w + 1 == WHEEL_SIZE ==> Turning(at, WHEEL_START, factor + Table()[w], q + 1)
  {
    hide Cycle, Gap;
    if w >= WHEEL_START {
      var i := w - WHEEL_START;
      assert Table()[w] == Cycle()[i];
      GapSize(at[i], Cycle()[i]);
      assert at[i + 1] == at[i] + Cycle()[i];
    }
  }

  lemma SmallTurns(d: nat, q: nat)
    requires HasSmall(d)
    ensures HasSmall(d + 2310 * q)
  {
    if q > 0 {
      SmallTurns(d, q - 1);
      SmallTurn(d + 2310 * (q - 1));
    }
  }

  lemma SmallTurn(d: nat)
    requires HasSmall(d)
    ensures HasSmall(d + 2310)
  {
    ShiftMod(d, 2, 1155);
    ShiftMod(d, 3, 770);
    ShiftMod(d, 5, 462);
    ShiftMod(d, 7, 330);
    ShiftMod(d, 11, 210);
  }

  /** Nothing that a step passes over can divide a number without small divisors. */
  lemma {:induction false} StepOver(at: seq<nat>, w: nat, factor: nat, q: nat, n: nat)
    requires Turning(at, w, factor, q) && NoSmall(n, factor + 1)
    ensures |Table()| == WHEEL_SIZE && NoSmall(n, factor + Table()[w])
  {
    hide Cycle, Gap, NoSmall, HasSmall;
    TurnOn(at, w, factor, q);
    var step := Table()[w];
    NoSmallExtends(n, factor, step);
    forall d | factor < d < factor + step ensures n % d != 0 {
      PassedOver(at, w, factor, q, d);
      SmallExcluded(n, factor, d);
    }
    NoSmallJoins(n, factor, step);
  }

  lemma NoSmallExtends(n: nat, factor: nat, step: nat)
    requires NoSmall(n, factor + 1)
    ensures forall d | 2 <= d <= factor :: n % d != 0
  {
  }

  lemma NoSmallJoins(n: nat, factor: nat, step: nat)
    requires (forall d | 2 <= d <= factor :: n % d != 0) && forall d | factor < d < factor + step :: n % d != 0
    ensures NoSmall(n, factor + step)
  {
  }

  /** A number passed over has a divisor below `factor`. */
  predicate SmallBelow(d: nat, factor: nat)
  {
    exists p | p in [2, 3, 5, 7, 11] :: p <= factor && d % p == 0
  }

  lemma {:induction false} PassedOver(at: seq<nat>, w: nat, factor: nat, q: nat, d: nat)
    requires Turning(at, w, factor, q) && |Table()| == WHEEL_SIZE && factor < d < factor + Table()[w]
    ensures SmallBelow(d, factor)
  {
    hide Cycle, Gap;
    if w < WHEEL_START {
      assert 2 in [2, 3, 5, 7, 11] && 3 in [2, 3, 5, 7, 11];
      assert d % 2 == 0 || d % 3 == 0;
    } else {
      var i := w - WHEEL_START;
      assert Table()[w] == Cycle()[i];
      FromThirteen(at, i);
      InGap(at[i], Cycle()[i], d - 2310 * q);
      SmallTurns(d - 2310 * q, q);
      IsSmallBelow(d, factor);
    }
  }

  lemma {:induction false} FromThirteen(at: seq<nat>, i: nat)
    requires Leads(Cycle(), at) && at[0] == 13 && i < |at|
    ensures at[i] >= 13
  {
    hide Cycle, Gap;
    if i > 0 {
      FromThirteen(at, i - 1);
      assert at[(i - 1) + 1] == at[i - 1] + Cycle()[i - 1];
    }
  }

  lemma IsSmallBelow(d: nat, factor: nat)
    requires HasSmall(d) && factor >= 13
    ensures SmallBelow(d, factor)
  {
    assert 2 in [2, 3, 5, 7, 11] && 3 in [2, 3, 5, 7, 11] && 5 in [2, 3, 5, 7, 11] && 7 in [2, 3, 5, 7, 11]
      && 11 in [2, 3, 5, 7, 11];
  }

  lemma SmallExcluded(n: nat, factor: nat, d: nat)
    requires SmallBelow(d, factor) && d > 0 && forall k | 2 <= k <= factor :: n % k != 0
    ensures n % d != 0
  {
    var p :| p in [2, 3, 5, 7, 11] && p <= factor && d % p == 0;
    if n % d == 0 {
      DivTrans(p, d, n);
    }
  }

  // ----- sizes -----

  function Power(n: nat, k: nat): (r: nat)
  {
    if k == 0 then 1 else n * Power(n, k - 1)
  }

  /** `k` copies of `n` multiply to a 64-bit number. */
  predicate Fits(n: nat, k: nat)
  {
    Power(n, k) < WIDE
  }

  lemma {:induction false} PowerMono(m: nat, n: nat, k: nat)
    requires m <= n
    ensures Power(m, k) <= Power(n, k)
  {
    if k > 0 {
      PowerMono(m, n, k - 1);
      Larger(m, n, Power(m, k - 1), Power(n, k - 1));
    }
  }

  lemma {:induction false} PowerSquare(s: nat, k: nat)
    ensures Power(s * s, k) == Power(s, 2 * k)
  {
    if k > 0 {
      PowerSquare(s, k - 1);
      Assoc(s, s, Power(s, 2 * (k - 1)));
      assert Power(s, 2 * k) == s * Power(s, 2 * k - 1);
    }
  }

  lemma {:induction false} PowerOfTwo(k: nat)
    requires k >= 64
    ensures Power(2, k) >= WIDE
  {
    if k > 64 {
      PowerOfTwo(k - 1);
    } else {
      assert Power(2, 4) == 2 * Power(2, 3) == 4 * Power(2, 2) == 16;
      TimesPower(2, 4, 4);
      TimesPower(2, 8, 8);
      TimesPower(2, 16, 16);
      TimesPower(2, 32, 32);
    }
  }

  lemma {:induction false} TimesPower(n: nat, j: nat, k: nat)
    ensures Power(n, j + k) == Power(n, j) * Power(n, k)
  {
    if j > 0 {
      TimesPower(n, j - 1, k);
      Assoc(n, Power(n, j - 1), Power(n, k));
    }
  }

  lemma {:induction false} CountFits(n: nat, k: nat)
    requires n >= 2 && Fits(n, k)
    ensures k < 64
  {
    if k >= 64 {
      PowerOfTwo(k);
      PowerMono(2, n, k);
    }
  }

  lemma {:induction false} FitsWide(n: nat, k: nat)
    requires k >= 1 && n >= 1 && Fits(n, k)
    ensures n < WIDE
  {
    PowerPositive(n, k - 1);
    MulMono(1, Power(n, k - 1), n);
  }

  lemma {:induction false} PowerPositive(n: nat, k: nat)
    requires n >= 1
    ensures Power(n, k) >= 1
  {
    if k > 0 {
      PowerPositive(n, k - 1);
      Larger(1, n, 1, Power(n, k - 1));
    }
  }

  // ----- the factorization -----

  /** `ps` is the nondecreasing list of primes that multiply to `n`. */
  ghost predicate Factors(n: nat, ps: seq<nat>)
  {
    AllPrime(ps) && Sorted(ps) && Product(ps) == n
  }

  /** `done` has been divided out of `n0`, `n` is left and has no divisor below `factor`. */
  ghost predicate Dividing(n0: nat, done: seq<nat>, n: nat, factor: nat, k: nat)
  {
    && n >= 2 && factor >= 2 && n != factor && Product(done) * n == n0 && NoSmall(n, factor) && Fits(n, k)
    && AllPrime(done) && Sorted(done) && forall p | p in done :: p <= factor
  }

  ghost predicate IsSquare(n: nat)
  {
    Isqrt(n) * Isqrt(n) == n
  }

  lemma {:induction false} DivideStep(n0: nat, done: seq<nat>, n: nat, factor: nat, k: nat)
    requires Dividing(n0, done, n, factor, k) && n % factor == 0 && !IsSquare(n)
    ensures Dividing(n0, done + [factor], n / factor, factor, k) && n / factor < n
  {
    hide Prime, NoSmall, Isqrt, Fits, IsSquare, Product, Sorted;
    SmallestIsPrime(n, factor);
    NoSmallQuotient(n, factor);
    Smaller(n, factor);
    FitsSmaller(n / factor, n, k);
    QuotientStep(done, n, factor);
    OneSorted(factor);
    SortedConcat(done, [factor], factor);
  }

  lemma {:induction false} QuotientStep(done: seq<nat>, n: nat, factor: nat)
    requires factor >= 2 && n % factor == 0 && !IsSquare(n)
    ensures Product(done + [factor]) * (n / factor) == Product(done) * n && n / factor != factor
  {
    hide Product;
    Quotient(n, factor);
    if n / factor == factor {
      OneRoot(n, factor);
    }
    ProductSnoc(done, factor);
    Assoc(Product(done), factor, n / factor);
  }

  lemma OneSorted(p: nat)
    ensures Sorted([p])
  {
  }

  lemma Smaller(n: nat, f: nat)
    requires f >= 2 && n >= 2 && n % f == 0 && n != f
    ensures 2 <= n / f < n
  {
    Quotient(n, f);
    MulMono(2, f, n / f);
  }

  lemma {:induction false} FitsSmaller(m: nat, n: nat, k: nat)
    requires m <= n && Fits(n, k)
    ensures Fits(m, k)
  {
    PowerMono(m, n, k);
  }

  /** What remains is a square that was factored on its own. */
  lemma {:induction false} JoinFactors(n0: nat, done: seq<nat>, n: nat, factor: nat, k: nat, rec: seq<nat>)
    requires Dividing(n0, done, n, factor, k) && Factors(n, rec)
    ensures Factors(n0, done + rec)
  {
    hide Prime, NoSmall, Fits;
    MembersAbove(rec, n, factor);
    ProductConcat(done, rec);
    SortedConcat(done, rec, factor);
  }

  lemma SortedConcat(a: seq<nat>, b: seq<nat>, f: nat)
    requires Sorted(a) && Sorted(b) && (forall p | p in a :: p <= f) && (forall p | p in b :: f <= p)
    ensures Sorted(a + b)
  {
    var s := a + b;
    forall i, j | 0 <= i < j < |s| ensures s[i] <= s[j] {
      assert (i < |a| ==> s[i] == a[i] && a[i] in a) && (j >= |a| ==> s[j] == b[j - |a|] && b[j - |a|] in b);
    }
  }

  /** What remains is a prime. */
  lemma {:induction false} LastFactor(n0: nat, done: seq<nat>, n: nat, factor: nat, k: nat)
    requires Dividing(n0, done, n, factor, k) && Prime(n)
    ensures Factors(n0, done + [n])
  {
    hide NoSmall, Fits;
    assert [n][..0] == [];
    assert Product([n]) == Product([n][..0]) * n;
    JoinFactors(n0, done, n, factor, k, [n]);
  }

  function OddBelow(s: nat): (m: nat)
    requires s >= 1
  {
    if s % 2 == 1 then s else s - 1
  }

  /** No divisor up to the odd bound leaves a prime. */
  lemma {:induction false} PrimeLeft(n: nat, factor: nat)
    requires n >= 2 && factor >= 2 && NoSmall(n, factor + 1) && factor >= OddBelow(Isqrt(n)) && Isqrt(n) >= 1
    ensures Prime(n)
  {
    hide Isqrt;
    var r := Isqrt(n);
    if n % r == 0 && r > factor {
      DivTrans(2, r, n);
    }
    PrimeByRoot(n, r);
  }

  lemma {:induction false} PrimeBeyond(n: nat, end: nat)
    requires 2 <= n < WIDE && NoSmall(n, end) && end >= HALF
    ensures Prime(n)
  {
    hide Isqrt;
    RootSize(n);
    PrimeByRoot(n, Isqrt(n));
  }

  lemma RootPositive(n: nat)
    requires n >= 1
    ensures Isqrt(n) >= 1
  {
  }

  /** The next position of the wheel stays away from what is left. */
  lemma {:induction false} NotYet(n: nat, factor: nat, step: nat)
    requires n >= 2 && factor < OddBelow(Isqrt(n)) && Isqrt(n) >= 1 && (factor == 2 ==> step == 1)
      && (factor == 3 ==> step == 2)
    requires factor >= 2 && step <= 14
    ensures factor + step < n
  {
    hide Isqrt;
    var r := Isqrt(n);
    Larger(factor + 1, r, factor + 1, r);
    assert (factor + 1) * (factor + 1) == factor * factor + 2 * factor + 1;
    if factor >= 4 {
      MulMono(4, factor, factor);
    }
  }

  lemma DividingFacts(n0: nat, done: seq<nat>, n: nat, factor: nat, k: nat)
    requires Dividing(n0, done, n, factor, k)
    ensures n >= 2 && factor >= 2 && Fits(n, k) && NoSmall(n, factor)
  {
  }

  lemma NextSmall(n: nat, factor: nat)
    requires factor >= 2 && NoSmall(n, factor) && n % factor != 0
    ensures NoSmall(n, factor + 1)
  {
  }

  lemma {:induction false} FirstSteps(at: seq<nat>, w: nat, factor: nat, q: nat)
    requires Turning(at, w, factor, q)
    ensures |Table()| == WHEEL_SIZE && (factor == 2 ==> Table()[w] == 1) && (factor == 3 ==> Table()[w] == 2)
  {
    hide Cycle, Gap;
    if w >= WHEEL_START {
      FromThirteen(at, w - WHEEL_START);
    }
  }

  lemma Advance(n0: nat, done: seq<nat>, n: nat, factor: nat, k: nat, next: nat)
    requires Dividing(n0, done, n, factor, k) && factor <= next && next != n && NoSmall(n, next)
    ensures Dividing(n0, done, n, next, k)
  {
  }

  lemma {:induction false} NoneDone(n0: nat, k: nat)
    requires n0 >= 4 && Fits(n0, k)
    ensures Dividing(n0, [], n0, 2, k) && Repeated([], k) == []
  {
    hide Fits;
  }

  lemma NoneRepeated(k: nat)
    ensures Repeated([], k) == []
  {
  }

  lemma {:induction false} SmallFactors(n: nat)
    requires 1 <= n < 4
    ensures n == 1 ==> Factors(n, [])
    ensures n > 1 ==> Factors(n, [n])
  {
    if n > 1 {
      assert Prime(n);
      assert Product([n]) == Product([n][..0]) * n;
    }
  }

  /** The square root of a number that is not 0 or 1, and how often its primes are printed. */
  lemma {:induction false} HalfOfSquare(n: nat, s: nat, k: nat)
    requires n >= 2 && s * s == n && Fits(n, k)
    ensures 2 <= s < n && Fits(s, 2 * k) && 2 * k < 64
  {
    PowerSquare(s, k);
    if s >= 2 {
      MulMono(2, s, s);
      CountFits(s, 2 * k);
    }
  }

  lemma {:induction false} SquareFactors(n: nat, s: nat, ps: seq<nat>)
    requires s * s == n && Factors(s, ps)
    ensures Factors(n, Repeated(ps, 2))
  {
    Doubled(ps);
  }

  class Factorizer {
    const wheelTab: array<nat>
    var squareCount: nat
    var printed: seq<nat>
    var lines: nat

    ghost predicate Valid()
      reads this, wheelTab
    {
      wheelTab.Length >= WHEEL_SIZE && wheelTab[..WHEEL_SIZE] == Table() && 1 <= squareCount < 64
    }

    constructor ()
      ensures Valid() && fresh(wheelTab) && squareCount == 1 && printed == [] && lines == 0
    {
      wheelTab := new nat[WHEEL_SIZE](_ => 0);
      squareCount, printed, lines := 1, [], 0;
      new;
      UnpackWheel(wheelTab);
    }

    /** print_w */
    method PrintW(n: nat)
      requires squareCount >= 1
      modifies `printed
      ensures printed == old(printed) + Copies(n, squareCount)
    {
      var rep := squareCount;
      while true
        invariant 1 <= rep <= squareCount && printed == old(printed) + Copies(n, squareCount - rep)
        decreases rep
      {
        assert Copies(n, squareCount - rep + 1) == Copies(n, squareCount - rep) + [n];
        printed := printed + [n];
        rep := rep - 1;
        if rep == 0 {
          break;
        }
      }
    }

    /** isqrt_odd: 0 when the number was a square and has been factored. */
    method IsqrtOdd(n: nat) returns (s: nat, ghost rec: seq<nat>)
      requires Valid() && n >= 2 && Fits(n, squareCount)
      modifies this
      ensures Valid()
      ensures s == 0 ==>
        Factors(n, rec) && printed == old(printed) + Repeated(rec, old(squareCount)) && lines == old(lines) + 1
      ensures s != 0 ==> !IsSquare(n) && Isqrt(n) >= 1 && s == OddBelow(Isqrt(n)) && unchanged(this)
      decreases n, 0
    {
      hide Isqrt, Fits, Table, Factors, Repeated;
      rec := [];
      RootPositive(n);
      FitsWide(n, squareCount);
      s := SquareRoot(n);
      if s * s == n {
        HalfOfSquare(n, s, squareCount);
        squareCount := squareCount * 2;
        ghost var ps := Factorize(s);
        rec := Repeated(ps, 2);
        SquareFactors(n, s, ps);
        RepeatedTwice(ps, 2, old(squareCount));
        return 0, rec;
      }
      s := if s % 2 == 1 then s else s - 1;
    }

    /** The inner loop of factorize: divides `factor` out as often as it goes. */
    method DivideOut(m: nat, factor: nat, limit: nat, ghost before: seq<nat>, ghost n0: nat, ghost start: seq<nat>)
      returns (n: nat, maxFactor: nat, finished: bool, ghost done: seq<nat>)
      requires Valid() && Dividing(n0, before, m, factor, squareCount)
        && printed == start + Repeated(before, squareCount)
      requires !IsSquare(m) && Isqrt(m) >= 1 && limit == OddBelow(Isqrt(m))
      modifies this
      ensures Valid()
      ensures finished ==>
        Factors(n0, done) && printed == start + Repeated(done, old(squareCount)) && lines == old(lines) + 1
      ensures !finished ==> Dividing(n0, done, n, factor, squareCount) && n <= m && n % factor != 0
      ensures !finished ==> !IsSquare(n) && Isqrt(n) >= 1 && maxFactor == OddBelow(Isqrt(n))
      ensures !finished ==>
        printed == start + Repeated(done, squareCount) && squareCount == old(squareCount) && lines == old(lines)
      decreases m, 0, 0
    {
      hide Isqrt, Fits, Table, Factors, Repeated, Dividing, IsSquare, OddBelow, Copies;
      n, maxFactor, finished, done := m, limit, false, before;
      DividingFacts(n0, done, n, factor, squareCount);
      while n % factor == 0
        invariant Valid() && Dividing(n0, done, n, factor, squareCount) && n <= m
        invariant !IsSquare(n) && Isqrt(n) >= 1 && maxFactor == OddBelow(Isqrt(n))
        invariant printed == start + Repeated(done, squareCount) && squareCount == old(squareCount)
          && lines == old(lines)
        decreases n
      {
        DivideStep(n0, done, n, factor, squareCount);
        RepeatedSnoc(done, factor, squareCount);
        n := n / factor;
        done := done + [factor];
        PrintW(factor);
        DividingFacts(n0, done, n, factor, squareCount);
        ghost var rec;
        maxFactor, rec := IsqrtOdd(n);
        if maxFactor == 0 {
          JoinFactors(n0, done, n, factor, old(squareCount), rec);
          RepeatedConcat(done, rec, old(squareCount));
          finished, done := true, done + rec;
          return;
        }
      }
    }

    /** factorize: prints the primes of `n0` in order, each as often as square_count says. */
    method Factorize(n0: nat) returns (ghost ps: seq<nat>)
      requires Valid() && Fits(n0, squareCount)
      modifies this
      ensures Valid() && (if n0 == 0 then ps == [] else Factors(n0, ps))
      ensures printed == old(printed) + Repeated(ps, old(squareCount)) && lines == old(lines) + 1
      decreases n0, 1
    {
      hide Isqrt, Fits, Table, Factors, Repeated, Dividing, IsSquare, OddBelow, Copies, Turning, NoSmall, Prime;
      ghost var start, k := printed, squareCount;
      ps := [];
      if n0 < 4 {
        if n0 > 0 {
          SmallFactors(n0);
        }
        if n0 > 1 {
          ps := [n0];
          RepeatedSnoc([], n0, k);
          NoneRepeated(k);
          assert [] + [n0] == [n0];
          PrintW(n0);
        } else {
          NoneRepeated(k);
        }
        lines := lines + 1;
        return;
      }
      var maxFactor;
      maxFactor, ps := IsqrtOdd(n0);
      if maxFactor == 0 {
        return;
      }
      ps := PrintFactors(n0, maxFactor);
    }

    /** The loop of factorize. */
    method PrintFactors(n0: nat, limit: nat) returns (ghost ps: seq<nat>)
      requires Valid() && n0 >= 4 && Fits(n0, squareCount) && !IsSquare(n0) && Isqrt(n0) >= 1
        && limit == OddBelow(Isqrt(n0))
      modifies this
      ensures Valid() && Factors(n0, ps)
      ensures printed == old(printed) + Repeated(ps, old(squareCount)) && lines == old(lines) + 1
      decreases n0, 0, 1
    {
      hide Isqrt, Fits, Table, Factors, Repeated, Dividing, IsSquare, OddBelow, Copies, Turning, NoSmall, Prime, Add32;
      ghost var start, k := printed, squareCount;
      var n: nat, maxFactor: nat, factor: nat, w: nat := n0, limit, 2, 0;
      ghost var done: seq<nat> := [];
      ghost var q: nat := 0;
      ghost var at := FirstTurn();
      NoneDone(n0, k);
      while true
        invariant Valid() && Dividing(n0, done, n, factor, k) && 2 <= factor < HALF && n <= n0
        invariant !IsSquare(n) && Isqrt(n) >= 1 && maxFactor == OddBelow(Isqrt(n))
        invariant printed == start + Repeated(done, k) && squareCount == k && lines == old(lines)
        invariant Turning(at, w, factor, q) && w < WHEEL_SIZE
        decreases HALF - factor
      {
        var finished;
        n, maxFactor, finished, done := DivideOut(n, factor, maxFactor, done, n0, start);
        if finished {
          ps := done;
          return;
        }
        DividingFacts(n0, done, n, factor, k);
        NextSmall(n, factor);
        FitsWide(n, k);
        StepOver(at, w, factor, q, n);
        TurnOn(at, w, factor, q);
        assert wheelTab[w] == wheelTab[..WHEEL_SIZE][w];
        if factor >= maxFactor {
          PrimeLeft(n, factor);
          break;
        }
        var fw := Add32(factor, wheelTab[w]);
        if fw < factor {
          PrimeBeyond(n, factor + Table()[w]);
          break;
        }
        FirstSteps(at, w, factor, q);
        NotYet(n, factor, Table()[w]);
        Advance(n0, done, n, factor, k, fw);
        factor := fw;
        w := w + 1;
        if w < WHEEL_SIZE {
          if !Turning(at, w, factor, q) {
            q := 0;
          }
          continue;
        }
        w := WHEEL_START;
        q := q + 1;
      }
      DividingFacts(n0, done, n, factor, k);
      LastFactor(n0, done, n, factor, k);
      RepeatedSnoc(done, n, k);
      ps := done + [n];
      if n > 1 {
        PrintW(n);
      }
      lines := lines + 1;
    }

    /** What factorize_numstr does with a number: prints the only list of its primes in order. */
    method FactorNumber(n: nat) returns (ghost ps: seq<nat>)
      requires Valid() && n < WIDE
      modifies this
      ensures Valid() && (if n == 0 then ps == [] else Factors(n, ps))
      ensures printed == old(printed) + ps && lines == old(lines) + 1
      ensures forall qs | n > 0 && Factors(n, qs) :: qs == ps
    {
      hide Factors, Repeated, Isqrt, Table;
      squareCount := 1;
      assert Power(n, 1) == n * Power(n, 0) == n;
      ps := Factorize(n);
      RepeatedOnce(ps);
      forall qs | n > 0 && Factors(n, qs) ensures qs == ps {
        OnlyFactors(n, ps, qs);
      }
    }
  }

  lemma OnlyFactors(n: nat, ps: seq<nat>, qs: seq<nat>)
    requires Factors(n, ps) && Factors(n, qs)
    ensures ps == qs
  {
    UniqueFactors(ps, qs);
  }
}
