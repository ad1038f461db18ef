/** The values of the expr applet: integers and strings, and how one is read as the other. */
module ExprValues {
  import opened Options
  import opened Decimals

  /** The ways in which an evaluation dies. Overflow stands for the sums, products and quotients C leaves undefined. */
  datatype Failure = SyntaxError | TooFewArguments | NonNumeric | DivisionByZero | BadPattern | Overflow

  datatype Result<+T> = Ok(value: T) | Err(error: Failure) {
    predicate IsFailure()
    {
      Err?
    }

    function PropagateFailure<U>(): (r: Result<U>)
      requires Err?
    {
      Err(error)
    }

    function Extract(): (v: T)
      requires Ok?
    {
      value
    }
  }

  datatype Value = Int(i: int) | Str(s: string)

  // ----- strtoll with base 10 -----

  /** The number a whole string spells: spaces, a sign, digits. */
  function Numeral(s: string): (r: Option<int>)
  {
    var d := Unsigned(s);
    if d == [] || !AllDigits(d) then None
    else
      var n: int := Number(d);
      Some(if Negative(s) then -n else n)
  }

  /** strtoll of a whole string, with base 10: it stops at the ends of its range. */
  function Strtol(s: string): (r: Option<int>)
    ensures r.Some? <==> Numeral(s).Some?
    ensures r.Some? ==> InRange(r.value)
  {
    match Numeral(s)
    case None => None
    case Some(n) => Some(Clamp(n))
  }

  /** Reading back a printed integer gives that integer. */
  lemma {:induction false} DecimalRead(i: int)
    ensures Numeral(Decimal(i)) == Some(i)
  {
    hide Digits, Number;
    var n: nat := if i < 0 then -i else i;
    DigitsRead(n);
    var s := Decimal(i);
    if i < 0 {
      assert s[0] == '-' && s[1..] == Digits(n);
    } else {
      assert s[0] in s;
    }
    assert SkipSpaces(s) == s;
  }

  // ----- a value as a number, as text, as a truth value -----

  /** toarith(): the number a value stands for, if any. */
  function Arith(v: Value): (r: Option<int>)
  {
    match v
    case Int(i) => Some(i)
    case Str(s) => Strtol(s)
  }

  /** tostring(). */
  function Text(v: Value): (s: string)
  {
    match v
    case Int(i) => Decimal(i)
    case Str(s) => s
  }

  /** A value after toarith(): an integer if it can be one, otherwise as it was. */
  function Settled(v: Value): (w: Value)
    ensures Arith(w) == Arith(v)
  {
    match Arith(v)
    case Some(i) => Int(i)
    case None => v
  }

  predicate IsNull(v: Value)
  {
    match v
    case Int(i) => i == 0
    case Str(s) => s == "" || s == "0"
  }

  /** Integers held in a value are what the machine's type holds. */
  predicate Fits(v: Value)
  {
    v.Int? ==> InRange(v.i)
  }

  // ----- comparison -----

  /** strcmp(): -1, 0 or 1. */
  function StrCmp(a: string, b: string): (r: int)
    ensures -1 <= r <= 1
  {
    if a == [] && b == [] then 0
    else if a == [] then -1
    else if b == [] then 1
    else if a[0] < b[0] then -1
    else if a[0] > b[0] then 1
    else StrCmp(a[1..], b[1..])
  }

  lemma {:induction false} StrCmpEqual(a: string, b: string)
    ensures StrCmp(a, b) == 0 <==> a == b
  {
    if a != [] && b != [] && a[0] == b[0] {
      StrCmpEqual(a[1..], b[1..]);
      assert a == [a[0]] + a[1..] && b == [b[0]] + b[1..];
    }
  }

  lemma {:induction false} StrCmpReversed(a: string, b: string)
    ensures StrCmp(a, b) == -StrCmp(b, a)
  {
    if a != [] && b != [] && a[0] == b[0] {
      StrCmpReversed(a[1..], b[1..]);
    }
  }

  /** Two integers by size, anything else by its text. */
  function RawOrder(a: Value, b: Value): (r: int)
    ensures -1 <= r <= 1
  {
    if a.Int? && b.Int? then Sign(a.i - b.i) else StrCmp(Text(a), Text(b))
  }

  /** How the code orders two values: as numbers if both are, otherwise by the texts they have after toarith(). */
  function Order(a: Value, b: Value): (r: int)
    ensures -1 <= r <= 1
  {
    RawOrder(Settled(a), Settled(b))
  }

  predicate IsComparison(op: string)
  {
    op in ["<", "<=", "=", "==", "!=", ">=", ">"]
  }

  predicate Holds(op: string, order: int)
    requires IsComparison(op)
  {
    match op
    case "<" => order < 0
    case "<=" => order <= 0
    case "=" => order == 0
    case "==" => order == 0
    case "!=" => order != 0
    case ">" => order > 0
    case _ => order >= 0
  }

  // ----- arithmetic -----

  /** Division that rounds toward zero, as C's does. */
  function Quotient(a: int, b: int): (q: int)
    requires b != 0
  {
    if a >= 0 then a / b else -((-a) / b)
  }

  function Remainder(a: int, b: int): (r: int)
    requires b != 0
  {
    if a >= 0 then a % b else -((-a) % b)
  }

  lemma Truncates(a: int, b: int)
    requires b != 0
    ensures a == Quotient(a, b) * b + Remainder(a, b)
    ensures if b > 0 then -b < Remainder(a, b) < b else b < Remainder(a, b) < -b
    ensures a >= 0 ==> Remainder(a, b) >= 0
    ensures a <= 0 ==> Remainder(a, b) <= 0
  {
    if a < 0 {
      assert -a == ((-a) / b) * b + (-a) % b;
    }
  }

  predicate IsArithmetic(op: string)
  {
    op in ["+", "-", "*", "/", "%"]
  }

  function Checked(i: int): (r: Result<Value>)
  {
    if InRange(i) then Ok(Int(i)) else Err(Overflow)
  }

  function Arithmetic(op: string, a: Value, b: Value): (r: Result<Value>)
    requires IsArithmetic(op)
    ensures r.Ok? ==> Fits(r.value)
  {
    if Arith(a).None? || Arith(b).None? then Err(NonNumeric)
    else
      var x, y := Arith(a).value, Arith(b).value;
      match op
      case "+" => Checked(x + y)
      case "-" => Checked(x - y)
      case "*" => Checked(x * y)
      case _ =>
        if y == 0 then Err(DivisionByZero)
        else if !InRange(Quotient(x, y)) then Err(Overflow)
        else if op == "/" then Ok(Int(Quotient(x, y)))
        else Checked(Remainder(x, y))
  }
}
