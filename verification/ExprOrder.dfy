/** Where expr's comparisons are what its usage text says: arithmetic on two numbers, else lexicographical. */
module ExprOrder {
  import opened Options
  import opened Decimals
  import opened ExprValues

  /** The number a value spells, of any size. */
  function Spelled(v: Value): (r: Option<int>)
  {
    match v
    case Int(i) => Some(i)
    case Str(s) => Numeral(s)
  }

  /** How the usage text orders two values. */
  function PlainOrder(a: Value, b: Value): (r: int)
    ensures -1 <= r <= 1
  {
    if Spelled(a).Some? && Spelled(b).Some? then Sign(Spelled(a).value - Spelled(b).value)
    else StrCmp(Text(a), Text(b))
  }

  /** 05 is not greater than 1x lexicographically, but expr compares 5 with 1x. */
  lemma PlainOrderFails()
    ensures PlainOrder(Str("05"), Str("1x")) < 0
    ensures Order(Str("05"), Str("1x")) > 0
  {
    assert SkipSpaces("05") == "05" && SkipSpaces("1x") == "1x";
    assert "05"[..1] == "0" && "0"[..0] == "";
    assert Number("0") == 10 * Number("") + 0;
    assert Number("05") == 10 * Number("0") + 5;
    assert Strtol("05") == Some(5);
    assert !IsDigit("1x"[1]) && "1x"[1] in "1x";
    assert Strtol("1x") == None;
    assert Decimal(5) == ['5'];
  }

  /** The largest number and the one after it spell different numbers, but expr reads both as the same. */
  lemma LargestEqualsNext()
    ensures Order(Str(Decimal(LONG_MAX)), Str(Decimal(LONG_MAX + 1))) == 0
    ensures PlainOrder(Str(Decimal(LONG_MAX)), Str(Decimal(LONG_MAX + 1))) < 0
  {
    hide Decimal, Numeral;
    DecimalRead(LONG_MAX);
    DecimalRead(LONG_MAX + 1);
  }

  // ----- what texts of numbers look like -----

  /** Characters from a tab to a nine, a digit last. */
  predicate NumberText(t: string)
  {
    t != "" && t[|t| - 1] >= '0' && forall k | 0 <= k < |t| :: '\t' <= t[k] <= '9'
  }

  lemma {:induction false} SkippedText(s: string)
    requires NumberText(SkipSpaces(s))
    ensures NumberText(s)
  {
    if s != [] && IsSpace(s[0]) {
      SkippedText(s[1..]);
      forall k | 0 < k < |s|
        ensures '\t' <= s[k] <= '9'
      {
        assert s[k] == s[1..][k - 1];
      }
    }
  }

  lemma DigitsText(s: string)
    requires AllDigits(s) && s != ""
    ensures NumberText(s)
  {
    forall k | 0 <= k < |s|
      ensures '0' <= s[k] <= '9'
    {
      assert s[k] in s;
    }
  }

  lemma NumeralText(s: string)
    requires Numeral(s).Some?
    ensures NumberText(s)
  {
    hide SkipSpaces, Number;
    var t := SkipSpaces(s);
    if t[0] == '-' || t[0] == '+' {
      DigitsText(t[1..]);
      forall k | 0 < k < |t|
        ensures '\t' <= t[k] <= '9'
      {
        assert t[k] == t[1..][k - 1];
      }
    } else {
      DigitsText(t);
    }
    SkippedText(s);
  }

  // ----- strings on one side of all numbers -----

  /** Tabs, and then nothing or a character below a tab. */
  predicate BelowNumbers(s: string)
  {
    s == "" || s[0] < '\t' || (s[0] == '\t' && BelowNumbers(s[1..]))
  }

  /** Nines, and then a character above them. */
  predicate AboveNumbers(s: string)
  {
    s != "" && (s[0] > '9' || (s[0] == '9' && AboveNumbers(s[1..])))
  }

  lemma {:induction false} BelowAll(s: string, t: string)
    requires BelowNumbers(s) && NumberText(t)
    ensures StrCmp(s, t) == -1
  {
    if s != "" && s[0] == '\t' && t[0] == '\t' {
      BelowAll(s[1..], t[1..]);
    }
  }

  lemma {:induction false} AboveAll(s: string, t: string)
    requires AboveNumbers(s) && forall k | 0 <= k < |t| :: t[k] <= '9'
    ensures StrCmp(s, t) == 1
  {
    if t != "" && s[0] == '9' && t[0] == '9' {
      AboveAll(s[1..], t[1..]);
    }
  }

  // ----- strings among the numbers -----

  function Repeat(c: char, n: nat): (s: string)
    ensures |s| == n
  {
    if n == 0 then "" else [c] + Repeat(c, n - 1)
  }

  /** Enough tabs bring any text below a string that is not below all numbers. */
  lemma {:induction false} TabsBelow(s: string, d: string) returns (n: nat)
    requires !BelowNumbers(s)
    ensures StrCmp(s, Repeat('\t', n) + d) == 1
  {
    if s[0] == '\t' {
      var m := TabsBelow(s[1..], d);
      n := m + 1;
      var t := Repeat('\t', n) + d;
      assert t[0] == '\t' && t[1..] == Repeat('\t', m) + d;
    } else {
      n := 1;
      var t := Repeat('\t', 1) + d;
      assert t[0] == '\t';
    }
  }

  /** Enough nines are above a string that is not above all numbers. */
  lemma {:induction false} NinesAbove(s: string) returns (n: nat)
    requires !AboveNumbers(s)
    ensures forall m | m >= n :: StrCmp(s, Repeat('9', m)) == -1
  {
    if s == "" || s[0] < '9' {
      n := 1;
    } else {
      var k := NinesAbove(s[1..]);
      n := k + 1;
      forall m | m >= n
        ensures StrCmp(s, Repeat('9', m)) == -1
      {
        assert Repeat('9', m)[0] == '9' && Repeat('9', m)[1..] == Repeat('9', m - 1);
        assert StrCmp(s[1..], Repeat('9', m - 1)) == -1;
      }
    }
  }

  lemma {:induction false} TabsSkipped(n: nat, s: string)
    ensures SkipSpaces(Repeat('\t', n) + s) == SkipSpaces(s)
  {
    var t := Repeat('\t', n) + s;
    if n == 0 {
      assert t == s;
    } else {
      assert t[0] == '\t' && t[1..] == Repeat('\t', n - 1) + s;
      TabsSkipped(n - 1, s);
    }
  }

  lemma {:induction false} NinesNumber(n: nat)
    ensures AllDigits(Repeat('9', n)) && Number(Repeat('9', n)) >= n
  {
    if n > 0 {
      NinesNumber(n - 1);
      NinesSnoc(n - 1);
      var s := Repeat('9', n);
      assert s[..n - 1] == Repeat('9', n - 1);
    }
  }

  lemma {:induction false} NinesSnoc(n: nat)
    ensures Repeat('9', n + 1) == Repeat('9', n) + "9"
  {
    if n > 0 {
      NinesSnoc(n - 1);
    }
  }

  /** A string that is no number, nor on one side of all numbers, is compared with some number otherwise than by its
      text. */
  lemma AmongNumbers(s: string) returns (t: string)
    requires Numeral(s) == None && !BelowNumbers(s) && !AboveNumbers(s)
    ensures Order(Str(s), Str(t)) != PlainOrder(Str(s), Str(t))
  {
    hide BelowNumbers, AboveNumbers, Decimal, Number, Repeat;
    var top := Decimal(LONG_MAX);
    DecimalRead(LONG_MAX);
    if StrCmp(s, top) < 0 {
      var n := TabsBelow(s, top);
      t := Repeat('\t', n) + top;
      TabsSkipped(n, top);
      assert Numeral(t) == Numeral(top);
    } else {
      StrCmpEqual(s, top);
      var n := NinesAbove(s);
      var m := if n < LONG_MAX then LONG_MAX else n;
      t := Repeat('9', m);
      NinesNumber(m);
      NinesPlain(m);
    }
  }

  lemma NinesPlain(m: nat)
    requires m > 0 && AllDigits(Repeat('9', m))
    ensures Numeral(Repeat('9', m)) == Some(Number(Repeat('9', m)))
  {
    hide Number;
    var t := Repeat('9', m);
    assert t[0] == '9';
    assert SkipSpaces(t) == t;
  }

  // ----- numbers and strings that are none -----

  /** Appending the least character to a keeps it below every b above a. */
  lemma {:induction false} JustAbove(a: string, b: string)
    requires StrCmp(a, b) < 0 && forall k | 0 <= k < |b| :: b[k] >= '\t'
    ensures StrCmp(a + ['\U{0001}'], b) < 0
  {
    var t := a + ['\U{0001}'];
    if a != [] && a[0] == b[0] {
      JustAbove(a[1..], b[1..]);
      assert t[1..] == a[1..] + ['\U{0001}'];
    }
  }

  lemma {:induction false} BelowExtended(a: string)
    ensures StrCmp(a, a + ['\U{0001}']) < 0
  {
    var t := a + ['\U{0001}'];
    if a != [] {
      BelowExtended(a[1..]);
      assert t[1..] == a[1..] + ['\U{0001}'];
    }
  }

  /** Two different texts of numbers are told apart by a string that is no number. */
  lemma Between(a: string, b: string) returns (t: string)
    requires Numeral(b).Some? && StrCmp(a, b) < 0
    ensures Numeral(t) == None && StrCmp(a, t) < 0 < StrCmp(b, t)
  {
    hide Numeral;
    t := a + ['\U{0001}'];
    NumeralText(b);
    JustAbove(a, b);
    BelowExtended(a);
    StrCmpReversed(b, t);
    assert t[|a|] == '\U{0001}';
    if Numeral(t).Some? {
      NumeralText(t);
    }
  }

  /** A number whose text is not the one expr prints for it is compared with some string otherwise than by its text. */
  lemma OddText(s: string) returns (t: string)
    requires Numeral(s).Some? && s != Decimal(Clamp(Numeral(s).value))
    ensures Order(Str(s), Str(t)) != PlainOrder(Str(s), Str(t))
  {
    hide Numeral, Decimal;
    var c := Decimal(Clamp(Numeral(s).value));
    DecimalRead(Clamp(Numeral(s).value));
    StrCmpEqual(s, c);
    StrCmpReversed(s, c);
    if StrCmp(s, c) < 0 {
      t := Between(s, c);
    } else {
      t := Between(c, s);
    }
  }

  // ----- the exact condition -----

  /** Comparing the string with any other one is what the usage text says. */
  ghost predicate PlainlyOrdered(s: string)
  {
    forall t: string :: Order(Str(s), Str(t)) == PlainOrder(Str(s), Str(t))
  }

  /** A number strictly inside the range and written as expr writes it, or a string on one side of all numbers. */
  predicate Tame(s: string)
  {
    match Numeral(s)
    case Some(n) => s == Decimal(n) && LONG_MIN < n < LONG_MAX
    case None => BelowNumbers(s) || AboveNumbers(s)
  }

  lemma TameNumber(s: string, t: string)
    requires Tame(s) && Numeral(s).Some?
    ensures Order(Str(s), Str(t)) == PlainOrder(Str(s), Str(t))
  {
    hide Numeral, Decimal;
  }

  lemma TameString(s: string, t: string)
    requires Tame(s) && Numeral(s) == None
    ensures Order(Str(s), Str(t)) == PlainOrder(Str(s), Str(t))
  {
    hide Numeral, Decimal, BelowNumbers, AboveNumbers, NumberText;
    if Numeral(t).Some? {
      var c := Decimal(Clamp(Numeral(t).value));
      DecimalRead(Clamp(Numeral(t).value));
      NumeralText(t);
      NumeralText(c);
      if BelowNumbers(s) {
        BelowAll(s, t);
        BelowAll(s, c);
      } else {
        TextBelowNine(t);
        TextBelowNine(c);
        AboveAll(s, t);
        AboveAll(s, c);
      }
    }
  }

  lemma TextBelowNine(t: string)
    requires NumberText(t)
    ensures forall k | 0 <= k < |t| :: t[k] <= '9'
  {
  }

  /** A string that is not tame is ordered otherwise than the usage text says against some other one. */
  lemma WildFails(s: string) returns (t: string)
    requires !Tame(s)
    ensures Order(Str(s), Str(t)) != PlainOrder(Str(s), Str(t))
  {
    hide Decimal, Number, Unsigned, Negative, AllDigits, BelowNumbers, AboveNumbers;
    if Numeral(s) == None {
      t := AmongNumbers(s);
    } else {
      var n := Numeral(s).value;
      if s != Decimal(Clamp(n)) {
        t := OddText(s);
      } else {
        DecimalRead(Clamp(n));
        var m := if n == LONG_MAX then LONG_MAX + 1 else LONG_MIN - 1;
        t := Decimal(m);
        DecimalRead(m);
      }
    }
  }

  /** For every string: its comparisons are what the usage text says exactly when it is tame. */
  lemma PlainlyOrderedExactly(s: string)
    ensures PlainlyOrdered(s) <==> Tame(s)
  {
    hide Order, PlainOrder, Tame, Numeral;
    if Tame(s) {
      forall t: string
        ensures Order(Str(s), Str(t)) == PlainOrder(Str(s), Str(t))
      {
        if Numeral(s).Some? {
          TameNumber(s, t);
        } else {
          TameString(s, t);
        }
      }
    } else {
      var t := WildFails(s);
      assert Order(Str(s), Str(t)) != PlainOrder(Str(s), Str(t));
    }
  }
}
