/** Decimal numbers as strings, and how C reads them into a long. */
module Decimals {

  const LONG_MAX: int := 0x7FFF_FFFF_FFFF_FFFF
  const LONG_MIN: int := -0x8000_0000_0000_0000

  predicate InRange(i: int)
  {
    LONG_MIN <= i <= LONG_MAX
  }

  function Clamp(i: int): (c: int)
    ensures InRange(c) && (InRange(i) ==> c == i)
  {
    if i < LONG_MIN then LONG_MIN else if i > LONG_MAX then LONG_MAX else i
  }

  function Sign(i: int): (r: int)
    ensures -1 <= r <= 1
  {
    if i < 0 then -1 else if i == 0 then 0 else 1
  }

  predicate IsSpace(c: char)
  {
    c == ' ' || '\t' <= c <= '\r'
  }

  function SkipSpaces(s: string): (t: string)
    ensures |t| <= |s|
  {
    if s != [] && IsSpace(s[0]) then SkipSpaces(s[1..]) else s
  }

  predicate IsDigit(c: char)
  {
    '0' <= c <= '9'
  }

  function DigitValue(c: char): (v: nat)
    requires IsDigit(c)
    ensures v <= 9
  {
    c as int - '0' as int
  }

  /** The value of a string of digits. */
  function Number(s: string): (n: nat)
    requires AllDigits(s)
  {
    if s == "" then 0
    else
      var last := s[|s| - 1];
      assert last in s && forall c | c in s[..|s| - 1] :: c in s;
      10 * Number(s[..|s| - 1]) + DigitValue(last)
  }

  predicate AllDigits(s: string)
  {
    forall c | c in s :: IsDigit(c)
  }

  /** How many digits a string begins with. */
  function LeadingDigits(s: string): (n: nat)
    ensures n <= |s| && AllDigits(s[..n]) && (n < |s| ==> !IsDigit(s[n]))
  {
    if s == "" || !IsDigit(s[0]) then 0
    else
      var n := LeadingDigits(s[1..]);
      assert s[..n + 1] == [s[0]] + s[1..][..n];
      n + 1
  }

  /** A string after the spaces and the sign that strtol passes over. */
  function Unsigned(s: string): (d: string)
  {
    var t := SkipSpaces(s);
    if t != [] && (t[0] == '-' || t[0] == '+') then t[1..] else t
  }

  predicate Negative(s: string)
  {
    var t := SkipSpaces(s);
    t != [] && t[0] == '-'
  }

  // ----- integers written as decimal strings -----

  function DigitChar(d: nat): (c: char)
    requires d < 10
    ensures IsDigit(c) && c as int - '0' as int == d
  {
    (d + '0' as int) as char
  }

  /** The digits of n, without leading zeros. */
  function Digits(n: nat): (s: string)
    ensures s != [] && AllDigits(s)
  {
    if n < 10 then [DigitChar(n)] else Digits(n / 10) + [DigitChar(n % 10)]
  }

  /** What the "%lld" format prints. */
  function Decimal(i: int): (s: string)
  {
    if i < 0 then "-" + Digits(-i) else Digits(i)
  }

  lemma {:induction false} DigitsRead(n: nat)
    ensures Number(Digits(n)) == n
  {
    if n >= 10 {
      DigitsRead(n / 10);
      var s := Digits(n);
      assert s[..|s| - 1] == Digits(n / 10);
    } else {
      var s := [DigitChar(n)];
      assert s[..0] == [];
      assert Number(s) == 10 * Number(s[..0]) + n;
    }
  }
}
