/** What the operators of expr compute, said of whole argument lists. */
module ExprLaws {
  import opened Options
  import opened Decimals
  import opened ExprValues
  import opened ExprGrammar
  import opened ExprEval

  /** A list of arguments that spells a well-formed tree comes to what the tree means, and to nothing else. */
  lemma {:induction false} DecidedBy(m: Matcher, e: Expr, r: Result<Value>)
    requires WellFormed(e)
    ensures Decided(m, Tokens(e), r) <==> Denote(m, e) == r
  {
    hide Denote, Tokens, Grouped, ExprGrammar.Valid, Bracketed;
    if Denote(m, e) == r {
      forall f: Expr | WellFormed(f) && Tokens(f) == Tokens(e) ensures Denote(m, f) == r {
        Unambiguous(e, f);
      }
      forall f: Expr | ExprGrammar.Valid(f) && Print(f) == Tokens(e) ensures Denote(m, f) == r {
        BracketedIsGrouped(0, f);
        Unambiguous(e, Bracketed(0, f));
        BracketedMeansSame(m, 0, f);
      }
    }
  }

  /** A text as an operand that is no keyword and no operator. */
  function Word(s: string): (ts: seq<string>)
  {
    ["quote", s]
  }

  lemma {:induction false} Quoted(m: Matcher, s: string)
    ensures WellFormed(Quote(s)) && Rank(Quote(s)) == 6 && Tokens(Quote(s)) == Word(s)
    ensures Denote(m, Quote(s)) == Ok(Str(s))
  {
  }

  lemma {:induction false} Applied(m: Matcher, op: string, l: Expr, r: Expr)
    requires WellFormed(l) && WellFormed(r) && 0 <= Level(op) <= Rank(l) && Level(op) < Rank(r)
    ensures var e := Binary(op, l, r);
      && WellFormed(e) && Rank(e) == Level(op) && Tokens(e) == Tokens(l) + [op] + Tokens(r)
      && (Denote(m, l).Ok? && Denote(m, r).Ok? ==>
            Denote(m, e) == Apply(m, op, Denote(m, l).value, Denote(m, r).value))
  {
    hide Level, Apply;
  }

  lemma {:induction false} Grouping(m: Matcher, e: Expr)
    requires WellFormed(e)
    ensures WellFormed(Paren(e)) && Rank(Paren(e)) == 6 && Tokens(Paren(e)) == ["("] + Tokens(e) + [")"]
    ensures Denote(m, Paren(e)) == Denote(m, e)
  {
  }

  /** Operands that mean the same make the whole mean the same. */
  lemma {:induction false} Congruent(m: Matcher, op: string, l: Expr, l': Expr, r: Expr, r': Expr)
    requires Level(op) >= 0 && WellFormed(l) && WellFormed(r) && WellFormed(l') && WellFormed(r')
    requires Denote(m, l) == Denote(m, l') && Denote(m, r) == Denote(m, r')
    ensures Denote(m, Binary(op, l, r)) == Denote(m, Binary(op, l', r'))
  {
    hide Level, Apply;
  }

  /** Two words and an operator. */
  lemma {:induction false} Between(m: Matcher, s: string, op: string, t: string, r: Result<Value>)
    requires Level(op) >= 0 && Decided(m, Word(s) + [op] + Word(t), r)
    ensures r == Apply(m, op, Str(s), Str(t))
  {
    hide Level, Apply, Decided, WellFormed, Denote, Tokens, Rank;
    Quoted(m, s);
    Quoted(m, t);
    Applied(m, op, Quote(s), Quote(t));
    DecidedBy(m, Binary(op, Quote(s), Quote(t)), r);
  }

  // ----- arithmetic -----

  lemma {:induction false} Symbols()
    ensures Level("+") == 3 && Level("-") == 3 && Level("*") == 4 && Level("/") == 4 && Level("%") == 4
    ensures "-" != "+" && "*" != "+" && "*" != "-" && "/" != "+" && "/" != "-" && "/" != "*"
    ensures "%" != "+" && "%" != "-" && "%" != "*" && "%" != "/"
  {
    assert "+"[0] == '+' && "-"[0] == '-' && "*"[0] == '*' && "/"[0] == '/' && "%"[0] == '%';
  }

  /** An operator between two integers. */
  lemma {:induction false} Numbers(m: Matcher, x: int, op: string, y: int, r: Result<Value>)
    requires InRange(x) && InRange(y) && Level(op) >= 0
    requires Decided(m, ["quote", Decimal(x), op, "quote", Decimal(y)], r)
    ensures r == Apply(m, op, Str(Decimal(x)), Str(Decimal(y)))
    ensures Arith(Str(Decimal(x))) == Some(x) && Arith(Str(Decimal(y))) == Some(y)
  {
    hide Decimal, Numeral, Decided, Level, Apply;
    DecimalRead(x);
    DecimalRead(y);
    assert Word(Decimal(x)) + [op] + Word(Decimal(y)) == ["quote", Decimal(x), op, "quote", Decimal(y)];
    Between(m, Decimal(x), op, Decimal(y), r);
  }

  lemma {:induction false} Sum(m: Matcher, x: int, y: int, r: Result<Value>)
    requires InRange(x) && InRange(y) && Decided(m, ["quote", Decimal(x), "+", "quote", Decimal(y)], r)
    ensures r == if InRange(x + y) then Ok(Int(x + y)) else Err(Overflow)
  {
    hide Decimal, Decided, Level, Arith;
    Symbols();
    Numbers(m, x, "+", y, r);
  }

  lemma {:induction false} Difference(m: Matcher, x: int, y: int, r: Result<Value>)
    requires InRange(x) && InRange(y) && Decided(m, ["quote", Decimal(x), "-", "quote", Decimal(y)], r)
    ensures r == if InRange(x - y) then Ok(Int(x - y)) else Err(Overflow)
  {
    hide Decimal, Decided, Level, Arith;
    Symbols();
    Numbers(m, x, "-", y, r);
  }

  lemma {:induction false} Product(m: Matcher, x: int, y: int, r: Result<Value>)
    requires InRange(x) && InRange(y) && Decided(m, ["quote", Decimal(x), "*", "quote", Decimal(y)], r)
    ensures r == if InRange(x * y) then Ok(Int(x * y)) else Err(Overflow)
  {
    hide Decimal, Decided, Level, Arith;
    Symbols();
    Numbers(m, x, "*", y, r);
  }

  /** The quotient is rounded towards 0: what is left is smaller than the divisor and has the sign of the
      dividend. */
  predicate Divides(x: int, y: int, q: int, rest: int)
  {
    x == q * y + rest && Abs(rest) < Abs(y) && (rest > 0 ==> x > 0) && (rest < 0 ==> x < 0)
  }

  lemma {:induction false} Division(m: Matcher, x: int, y: int, q: int, rest: int, r: Result<Value>)
    requires InRange(x) && InRange(y) && InRange(q) && Divides(x, y, q, rest)
    requires Decided(m, ["quote", Decimal(x), "/", "quote", Decimal(y)], r)
    ensures r == Ok(Int(q))
  {
    hide Decimal, Decided, Level, Arith, Quotient, Remainder, Divides;
    Symbols();
    Numbers(m, x, "/", y, r);
    Truncated(x, y, q, rest);
  }

  lemma {:induction false} Modulo(m: Matcher, x: int, y: int, q: int, rest: int, r: Result<Value>)
    requires InRange(x) && InRange(y) && InRange(q) && Divides(x, y, q, rest)
    requires Decided(m, ["quote", Decimal(x), "%", "quote", Decimal(y)], r)
    ensures r == Ok(Int(rest))
  {
    hide Decimal, Decided, Level, Arith, Quotient, Remainder;
    Symbols();
    Numbers(m, x, "%", y, r);
    Truncated(x, y, q, rest);
  }

  function Abs(i: int): (a: int)
  {
    if i < 0 then -i else i
  }

  lemma {:induction false} Truncated(x: int, y: int, q: int, rest: int)
    requires Divides(x, y, q, rest)
    ensures y != 0 && Quotient(x, y) == q && Remainder(x, y) == rest
  {
    hide Quotient, Remainder;
    Truncates(x, y);
    var p, s := Quotient(x, y), Remainder(x, y);
    assert (q - p) * y == s - rest;
    if q != p {
      AbsTimes(q - p, y);
    }
  }

  lemma AbsTimes(a: int, b: int)
    requires a != 0
    ensures Abs(a * b) >= Abs(b)
  {
    if a > 0 {
      assert b >= 0 ==> a * b >= b;
      assert b < 0 ==> a * b <= b;
    } else {
      assert b >= 0 ==> a * b <= -b;
      assert b < 0 ==> a * b >= -b;
    }
  }

  lemma {:induction false} ByZero(m: Matcher, x: int, op: string, r: Result<Value>)
    requires InRange(x) && (op == "/" || op == "%") && Decided(m, ["quote", Decimal(x), op, "quote", Decimal(0)], r)
    ensures r == Err(DivisionByZero)
  {
    hide Decimal, Decided, Level, Arith;
    Symbols();
    Numbers(m, x, op, 0, r);
  }

  /** Arithmetic with a text that is no number is an error. */
  lemma {:induction false} NotNumbers(m: Matcher, s: string, op: string, t: string, r: Result<Value>)
    requires op == "+" || op == "-" || op == "*" || op == "/" || op == "%"
    requires HasLetter(s) || HasLetter(t)
    requires Decided(m, ["quote", s, op, "quote", t], r)
    ensures r == Err(NonNumeric)
  {
    hide Decided, Level, Numeral;
    Symbols();
    assert Word(s) + [op] + Word(t) == ["quote", s, op, "quote", t];
    Between(m, s, op, t, r);
    if HasLetter(s) {
      NoNumeral(s);
    } else {
      NoNumeral(t);
    }
  }

  predicate HasLetter(s: string)
  {
    exists c | c in s :: 'A' <= c
  }

  lemma {:induction false} NoNumeral(s: string)
    requires HasLetter(s)
    ensures Numeral(s).None?
  {
    var c :| c in s && 'A' <= c;
    LetterStays(s, c);
  }

  lemma {:induction false} LetterStays(s: string, c: char)
    requires c in s && 'A' <= c
    ensures c in Unsigned(s) && c in SkipSpaces(s)
  {
    if IsSpace(s[0]) {
      LetterStays(s[1..], c);
    }
  }

  // ----- comparisons -----

  lemma {:induction false} Comparing(m: Matcher, x: int, op: string, y: int, r: Result<Value>)
    requires InRange(x) && InRange(y) && IsComparison(op)
    requires Decided(m, ["quote", Decimal(x), op, "quote", Decimal(y)], r)
    ensures r == Ok(Int(if Holds(op, Sign(x - y)) then 1 else 0))
  {
    hide Decimal, Decided, Arith, Holds, IsComparison;
    ComparisonLevel(op);
    Numbers(m, x, op, y, r);
  }

  lemma ComparisonLevel(op: string)
    requires IsComparison(op)
    ensures Level(op) == 2
  {
  }

  /** Each of the seven comparisons of two integers. */
  lemma {:induction false} Comparisons(m: Matcher, x: int, op: string, y: int, r: Result<Value>)
    requires InRange(x) && InRange(y) && Decided(m, ["quote", Decimal(x), op, "quote", Decimal(y)], r)
    ensures op == "<" ==> r == Ok(Int(if x < y then 1 else 0))
    ensures op == "<=" ==> r == Ok(Int(if x <= y then 1 else 0))
    ensures op == "=" || op == "==" ==> r == Ok(Int(if x == y then 1 else 0))
    ensures op == "!=" ==> r == Ok(Int(if x != y then 1 else 0))
    ensures op == ">=" ==> r == Ok(Int(if x >= y then 1 else 0))
    ensures op == ">" ==> r == Ok(Int(if x > y then 1 else 0))
  {
    hide Decided;
    if IsComparison(op) {
      Comparing(m, x, op, y, r);
      HoldsOf(op, x - y);
    }
  }

  lemma {:induction false} HoldsOf(op: string, d: int)
    requires IsComparison(op)
    ensures op == "<" ==> (Holds(op, Sign(d)) <==> d < 0)
    ensures op == "<=" ==> (Holds(op, Sign(d)) <==> d <= 0)
    ensures op == "=" || op == "==" ==> (Holds(op, Sign(d)) <==> d == 0)
    ensures op == "!=" ==> (Holds(op, Sign(d)) <==> d != 0)
    ensures op == ">=" ==> (Holds(op, Sign(d)) <==> d >= 0)
    ensures op == ">" ==> (Holds(op, Sign(d)) <==> d > 0)
  {
    var l, g, e, n := "<", ">", "=", "!=";
    assert l[0] == '<' && g[0] == '>' && e[0] == '=' && n[0] == '!';
    assert |"<="| == 2 && |"=="| == 2 && |">="| == 2 && "<="[0] == '<' && "=="[0] == '=' && ">="[0] == '>';
  }

  /** Texts that are no numbers compare by the first character in which they differ. */
  lemma {:induction false} TextOrder(m: Matcher, p: string, c: char, s: string, d: char, t: string, r: Result<Value>)
    requires c < d && Numeral(p + [c] + s).None? && Numeral(p + [d] + t).None?
    requires Decided(m, Word(p + [c] + s) + ["<"] + Word(p + [d] + t), r)
    ensures r == Ok(Int(1))
  {
    hide Decided, Numeral, StrCmp;
    assert "<"[0] == '<';
    Between(m, p + [c] + s, "<", p + [d] + t, r);
    FirstDifference(p, c, s, d, t);
  }

  lemma {:induction false} FirstDifference(p: string, c: char, s: string, d: char, t: string)
    requires c < d
    ensures StrCmp(p + [c] + s, p + [d] + t) == -1 && StrCmp(p + [d] + t, p + [c] + s) == 1
  {
    if p != "" {
      FirstDifference(p[1..], c, s, d, t);
      assert (p + [c] + s)[1..] == p[1..] + [c] + s && (p + [d] + t)[1..] == p[1..] + [d] + t;
    }
  }

  /** A text comes before every longer one that begins with it. */
  lemma {:induction false} PrefixFirst(s: string, t: string)
    requires t != ""
    ensures StrCmp(s, s + t) == -1 && StrCmp(s + t, s) == 1 && StrCmp(s, s) == 0
  {
    if s != "" {
      PrefixFirst(s[1..], t);
      assert (s + t)[1..] == s[1..] + t;
    }
  }

  // ----- | and & -----

  /** The left text, unless it is empty or 0. */
  lemma {:induction false} Either(m: Matcher, s: string, t: string, r: Result<Value>)
    requires Decided(m, ["quote", s, "|", "quote", t], r)
    ensures r == Ok(Str(if s == "" || s == "0" then t else s))
  {
    hide Decided;
    assert Word(s) + ["|"] + Word(t) == ["quote", s, "|", "quote", t];
    Between(m, s, "|", t, r);
  }

  /** The left text, unless one of both is empty or 0. */
  lemma {:induction false} Both(m: Matcher, s: string, t: string, r: Result<Value>)
    requires Decided(m, ["quote", s, "&", "quote", t], r)
    ensures r == Ok(if s == "" || s == "0" || t == "" || t == "0" then Int(0) else Str(s))
  {
    hide Decided;
    assert "|"[0] != "&"[0];
    assert Word(s) + ["&"] + Word(t) == ["quote", s, "&", "quote", t];
    Between(m, s, "&", t, r);
  }

  /** A difference that is 0 gives way to the right operand. */
  lemma {:induction false} EitherNumber(m: Matcher, x: int, y: int, t: string, r: Result<Value>)
    requires InRange(x) && InRange(y) && InRange(x - y)
    requires Decided(m, ["quote", Decimal(x), "-", "quote", Decimal(y), "|", "quote", t], r)
    ensures r == Ok(if x == y then Str(t) else Int(x - y))
  {
    hide Decided, Decimal, Numeral, Level, WellFormed, Denote, Tokens, Rank;
    Symbols();
    DecimalRead(x);
    DecimalRead(y);
    var a, b := Quote(Decimal(x)), Quote(Decimal(y));
    Quoted(m, Decimal(x));
    Quoted(m, Decimal(y));
    Quoted(m, t);
    Applied(m, "-", a, b);
    LevelIs("|", 0);
    Applied(m, "|", Binary("-", a, b), Quote(t));
    var e := Binary("|", Binary("-", a, b), Quote(t));
    assert Tokens(e) == ["quote", Decimal(x), "-", "quote", Decimal(y), "|", "quote", t];
    DecidedBy(m, e, r);
  }

  // ----- keywords -----

  lemma {:induction false} LengthOf(m: Matcher, s: string, r: Result<Value>)
    requires Decided(m, ["length", "quote", s], r)
    ensures r == Ok(Int(|s|))
  {
    hide Decided;
    var e := Length(Quote(s));
    assert ExprGrammar.Valid(Quote(s)) && Grouped(Quote(s)) && Rank(Quote(s)) == 6;
    assert Tokens(e) == ["length", "quote", s];
    DecidedBy(m, e, r);
  }

  /** The first place, counted from 1, at which one of the characters stands, or 0. */
  lemma {:induction false} IndexOf(m: Matcher, s: string, chars: string, r: Result<Value>)
    requires Decided(m, ["index", "quote", s, "quote", chars], r)
    ensures r.Ok? && r.value.Int? && 0 <= r.value.i <= |s|
    ensures r.value.i == 0 ==> forall c | c in s :: c !in chars
    ensures r.value.i > 0 ==> s[r.value.i - 1] in chars && forall k | 0 <= k < r.value.i - 1 :: s[k] !in chars
  {
    hide Decided;
    var e := Index(Quote(s), Quote(chars));
    assert ExprGrammar.Valid(Quote(s)) && Grouped(Quote(s)) && Rank(Quote(s)) == 6;
    assert ExprGrammar.Valid(Quote(chars)) && Grouped(Quote(chars)) && Rank(Quote(chars)) == 6;
    assert Tokens(e) == ["index", "quote", s, "quote", chars];
    DecidedBy(m, e, r);
  }

  /** The text is matched against the pattern, in both spellings. */
  lemma {:induction false} Matching(m: Matcher, s: string, pattern: string, r: Result<Value>)
    requires Decided(m, ["match", "quote", s, "quote", pattern], r)
      || Decided(m, ["quote", s, ":", "quote", pattern], r)
    ensures r == m(s, pattern)
  {
    hide Decided;
    assert Level(":") == 5;
    if Decided(m, ["quote", s, ":", "quote", pattern], r) {
      assert Word(s) + [":"] + Word(pattern) == ["quote", s, ":", "quote", pattern];
      Between(m, s, ":", pattern, r);
    } else {
      var e := Match(Quote(s), Quote(pattern));
      assert ExprGrammar.Valid(Quote(s)) && Grouped(Quote(s)) && Rank(Quote(s)) == 6;
      assert ExprGrammar.Valid(Quote(pattern)) && Grouped(Quote(pattern)) && Rank(Quote(pattern)) == 6;
      assert Tokens(e) == ["match", "quote", s, "quote", pattern];
      DecidedBy(m, e, r);
    }
  }

  // ----- which operator binds more tightly -----

  /** The operators, those that bind least tightly first. */
  const LEVELS: seq<seq<string>> :=
    [["|"], ["&"], ["<", "<=", "=", "==", "!=", ">=", ">"], ["+", "-"], ["*", "/", "%"], [":"]]

  lemma {:induction false} LevelIs(op: string, k: nat)
    requires k < 6 && op in LEVELS[k]
    ensures Level(op) == k
  {
    assert "|"[0] == '|' && "&"[0] == '&' && ":"[0] == ':';
    Symbols();
    if k == 2 {
      ComparisonLevel(op);
    }
  }

  /** Two argument lists that come to the same. */
  ghost predicate SameResult(m: Matcher, ts: seq<string>, us: seq<string>)
  {
    forall r: Result<Value> :: Decided(m, ts, r) <==> Decided(m, us, r)
  }

  lemma {:induction false} SameMeaning(m: Matcher, e: Expr, f: Expr)
    requires WellFormed(e) && WellFormed(f) && Denote(m, e) == Denote(m, f)
    ensures SameResult(m, Tokens(e), Tokens(f))
  {
    hide Decided, WellFormed, Denote, Tokens;
    forall r: Result<Value> ensures Decided(m, Tokens(e), r) <==> Decided(m, Tokens(f), r) {
      DecidedBy(m, e, r);
      DecidedBy(m, f, r);
    }
  }

  /** Of two operators in a row the tighter one is applied first, and of two equally tight ones the left one. */
  lemma {:induction false} Precedence(m: Matcher, a: string, op: string, j: nat, b: string, op': string, k: nat,
                                      c: string)
    requires j < 6 && k < 6 && op in LEVELS[j] && op' in LEVELS[k]
    ensures j >= k ==> SameResult(m, Word(a) + [op] + Word(b) + [op'] + Word(c),
                                  ["("] + Word(a) + [op] + Word(b) + [")"] + [op'] + Word(c))
    ensures j < k ==> SameResult(m, Word(a) + [op] + Word(b) + [op'] + Word(c),
                                 Word(a) + [op] + ["("] + Word(b) + [op'] + Word(c) + [")"])
  {
    hide Decided, Level, Apply, WellFormed, Denote, Tokens, Rank, SameResult;
    LevelIs(op, j);
    LevelIs(op', k);
    var x, y, z := Quote(a), Quote(b), Quote(c);
    Quoted(m, a);
    Quoted(m, b);
    Quoted(m, c);
    if j >= k {
      var l := Binary(op, x, y);
      var e, f := Binary(op', l, z), Binary(op', Paren(l), z);
      Applied(m, op, x, y);
      Grouping(m, l);
      Applied(m, op', l, z);
      Applied(m, op', Paren(l), z);
      assert Tokens(f) == ["("] + Word(a) + [op] + Word(b) + [")"] + [op'] + Word(c);
      Congruent(m, op', l, Paren(l), z, z);
      SameMeaning(m, e, f);
    } else {
      var l := Binary(op', y, z);
      var e, f := Binary(op, x, l), Binary(op, x, Paren(l));
      Applied(m, op', y, z);
      Grouping(m, l);
      Applied(m, op, x, l);
      Applied(m, op, x, Paren(l));
      assert Tokens(e) == Word(a) + [op] + Word(b) + [op'] + Word(c);
      assert Tokens(f) == Word(a) + [op] + ["("] + Word(b) + [op'] + Word(c) + [")"];
      Congruent(m, op, x, x, l, Paren(l));
      SameMeaning(m, e, f);
    }
  }
}
