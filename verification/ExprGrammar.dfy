/** The expressions of expr: trees, their token lists, their meaning, and the one tree behind a token list. */
module ExprGrammar {
  import opened Options
  import opened Texts
  import opened ExprValues
  import opened ExprSubstr

  datatype Expr =
    | Leaf(token: string)
    | Quote(token: string)
    | Length(arg: Expr)
    | Match(left: Expr, right: Expr)
    | Index(left: Expr, right: Expr)
    | Substr(text: Expr, pos: Expr, len: Expr)
    | Paren(inner: Expr)
    | Binary(op: string, left: Expr, right: Expr)

  /** Where a binary operator binds: 0 for eval() up to 5 for eval5(); -1 for any other token. */
  function Level(op: string): (k: int)
    ensures -1 <= k < 6
  {
    if op == "|" then 0
    else if op == "&" then 1
    else if IsComparison(op) then 2
    else if op == "+" || op == "-" then 3
    else if op == "*" || op == "/" || op == "%" then 4
    else if op == ":" then 5
    else -1
  }

  /** The number of a keyword, from 1; 0 for any other token. */
  function Keyword(t: string): (key: nat)
    ensures key <= 5
  {
    if t == "quote" then 1
    else if t == "length" then 2
    else if t == "match" then 3
    else if t == "index" then 4
    else if t == "substr" then 5
    else 0
  }

  lemma KeywordIs(t: string)
    ensures Keyword(t) == 1 <==> t == "quote"
    ensures Keyword(t) == 2 <==> t == "length"
    ensures Keyword(t) == 3 <==> t == "match"
    ensures Keyword(t) == 4 <==> t == "index"
    ensures Keyword(t) == 5 <==> t == "substr"
  {
    Words();
  }

  lemma Words()
    ensures Keyword("quote") == 1 && Keyword("length") == 2 && Keyword("match") == 3
    ensures Keyword("index") == 4 && Keyword("substr") == 5
    ensures Keyword("(") == Keyword(")") == 0
    ensures Level(")") == -1 && "(" != ")"
  {
    assert |"quote"| == 5 && |"length"| == 6 && |"match"| == 5 && |"index"| == 5 && |"substr"| == 6;
    assert "quote"[0] == 'q' && "match"[0] == 'm' && "index"[0] == 'i';
    assert "length"[0] == 'l' && "substr"[0] == 's';
    assert "("[0] == '(' && ")"[0] == ')';
  }

  /** How tightly a tree holds together: 6 for what eval6() reads. */
  function Rank(e: Expr): (k: int)
  {
    if e.Binary? then Level(e.op) else 6
  }

  /** A tree over expr's operators whose leaves are neither keywords nor parentheses. */
  predicate Valid(e: Expr)
  {
    match e
    case Leaf(t) => Keyword(t) == 0 && t != "(" && t != ")"
    case Quote(t) => true
    case Length(a) => Valid(a)
    case Match(l, r) => Valid(l) && Valid(r)
    case Index(l, r) => Valid(l) && Valid(r)
    case Substr(s, p, n) => Valid(s) && Valid(p) && Valid(n)
    case Paren(a) => Valid(a)
    case Binary(op, l, r) => Level(op) >= 0 && Valid(l) && Valid(r)
  }

  /** Every operand binds tightly enough to need no parentheses of its own. */
  predicate Grouped(e: Expr)
  {
    match e
    case Leaf(t) => true
    case Quote(t) => true
    case Length(a) => Grouped(a) && Rank(a) == 6
    case Match(l, r) => Grouped(l) && Rank(l) == 6 && Grouped(r) && Rank(r) == 6
    case Index(l, r) => Grouped(l) && Rank(l) == 6 && Grouped(r) && Rank(r) == 6
    case Substr(s, p, n) =>
      Grouped(s) && Rank(s) == 6 && Grouped(p) && Rank(p) == 6 && Grouped(n) && Rank(n) == 6
    case Paren(a) => Grouped(a)
    case Binary(op, l, r) => Grouped(l) && Grouped(r) && Rank(l) >= Level(op) && Rank(r) > Level(op)
  }

  predicate WellFormed(e: Expr)
  {
    Valid(e) && Grouped(e)
  }

  function Tokens(e: Expr): (ts: seq<string>)
    ensures ts != []
  {
    match e
    case Leaf(t) => [t]
    case Quote(t) => ["quote", t]
    case Length(a) => ["length"] + Tokens(a)
    case Match(l, r) => ["match"] + Tokens(l) + Tokens(r)
    case Index(l, r) => ["index"] + Tokens(l) + Tokens(r)
    case Substr(s, p, n) => ["substr"] + Tokens(s) + Tokens(p) + Tokens(n)
    case Paren(a) => ["("] + Tokens(a) + [")"]
    case Binary(op, l, r) => Tokens(l) + [op] + Tokens(r)
  }

  // ----- meaning -----

  /** What docolon() makes of a text and a pattern; it fails if the pattern does not compile. */
  type Matcher = (string, string) -> Result<Value>

  /** The first position, from 1, of a character of chars in s, or 0. */
  function IndexIn(s: string, chars: string): (n: nat)
    ensures n <= |s|
    ensures n == 0 <==> forall c | c in s :: c !in chars
    ensures n > 0 ==> s[n - 1] in chars && forall k | 0 <= k < n - 1 :: s[k] !in chars
  {
    var n := Span(s, 0, chars);
    if n == |s| then 0 else n + 1
  }

  function Apply(m: Matcher, op: string, a: Value, b: Value): (r: Result<Value>)
    requires Level(op) >= 0
  {
    match Level(op)
    case 0 => Ok(if IsNull(a) then b else a)
    case 1 => Ok(if IsNull(a) || IsNull(b) then Int(0) else a)
    case 2 => Ok(Int(if Holds(op, Order(a, b)) then 1 else 0))
    case 5 => m(Text(a), Text(b))
    case _ => Arithmetic(op, a, b)
  }

  /** The value of a tree: operands first, from the left, whatever the operator. */
  function Denote(m: Matcher, e: Expr): (r: Result<Value>)
    requires Valid(e)
  {
    match e
    case Leaf(t) => Ok(Str(t))
    case Quote(t) => Ok(Str(t))
    case Length(a) =>
      var v :- Denote(m, a);
      Ok(Int(|Text(v)|))
    case Match(l, r) =>
      var a :- Denote(m, l);
      var b :- Denote(m, r);
      m(Text(a), Text(b))
    case Index(l, r) =>
      var a :- Denote(m, l);
      var b :- Denote(m, r);
      Ok(Int(IndexIn(Text(a), Text(b))))
    case Substr(s, p, n) =>
      var a :- Denote(m, s);
      var i :- Denote(m, p);
      var k :- Denote(m, n);
      Ok(Str(Piece(Text(a), Arith(i), Arith(k))))
    case Paren(a) => Denote(m, a)
    case Binary(op, l, r) =>
      var a :- Denote(m, l);
      var b :- Denote(m, r);
      Apply(m, op, a, b)
  }

  // ----- the tree behind a token list -----

  datatype Parsed = Parsed(tree: Expr, rest: seq<string>)

  /** Reads, from the front of the tokens, the longest expression whose operators bind at the level or above. */
  function Parse(level: nat, ts: seq<string>): (r: Option<Parsed>)
    requires level <= 6
    ensures r.Some? ==> |r.value.rest| < |ts|
    decreases |ts|, 7 - level, 0
  {
    if level == 6 then Primary(ts)
    else
      match Parse(level + 1, ts)
      case None => None
      case Some(p) => Climb(level, p.tree, p.rest)
  }

  /** Goes on after a left operand: each operator of the level takes it with one tighter operand to its right. */
  function Climb(level: nat, left: Expr, ts: seq<string>): (r: Option<Parsed>)
    requires level < 6
    ensures r.Some? ==> |r.value.rest| <= |ts|
    decreases |ts|, 7 - level, 1
  {
    if ts == [] || Level(ts[0]) != level then Some(Parsed(left, ts))
    else
      match Parse(level + 1, ts[1..])
      case None => None
      case Some(p) => Climb(level, Binary(ts[0], left, p.tree), p.rest)
  }

  /** What eval6() and eval7() read. */
  function Primary(ts: seq<string>): (r: Option<Parsed>)
    ensures r.Some? ==> |r.value.rest| < |ts|
    decreases |ts|, 0
  {
    if ts == [] then None
    else if Keyword(ts[0]) == 1 then
      if |ts| < 2 then None else Some(Parsed(Quote(ts[1]), ts[2..]))
    else if Keyword(ts[0]) == 2 then
      match Primary(ts[1..])
      case None => None
      case Some(a) => Some(Parsed(Length(a.tree), a.rest))
    else if Keyword(ts[0]) == 3 || Keyword(ts[0]) == 4 then
      match Primary(ts[1..])
      case None => None
      case Some(a) =>
        match Primary(a.rest)
        case None => None
        case Some(b) =>
          Some(Parsed(if Keyword(ts[0]) == 3 then Match(a.tree, b.tree) else Index(a.tree, b.tree), b.rest))
    else if Keyword(ts[0]) == 5 then
      match Primary(ts[1..])
      case None => None
      case Some(a) =>
        match Primary(a.rest)
        case None => None
        case Some(b) =>
          match Primary(b.rest)
          case None => None
          case Some(c) => Some(Parsed(Substr(a.tree, b.tree, c.tree), c.rest))
    else if ts[0] == "(" then
      match Parse(0, ts[1..])
      case None => None
      case Some(a) =>
        if a.rest == [] || a.rest[0] != ")" then None
        else Some(Parsed(Paren(a.tree), a.rest[1..]))
    else if ts[0] == ")" then None
    else Some(Parsed(Leaf(ts[0]), ts[1..]))
  }

  /** No operator that binds at the level or above comes next. */
  predicate Stops(level: nat, ts: seq<string>)
  {
    ts == [] || Level(ts[0]) < level
  }

  // ----- what is read is well-formed, and is what stood there -----

  lemma {:induction false} ParseSound(level: nat, ts: seq<string>)
    requires level <= 6
    ensures
      var r := Parse(level, ts);
      r.Some? ==>
        && WellFormed(r.value.tree)
        && Rank(r.value.tree) >= level
        && ts == Tokens(r.value.tree) + r.value.rest
        && Stops(level, r.value.rest)
    decreases |ts|, 7 - level, 0
  {
    if level == 6 {
      PrimarySound(ts);
    } else {
      ParseSound(level + 1, ts);
      var p := Parse(level + 1, ts);
      if p.Some? {
        ClimbSound(level, p.value.tree, p.value.rest);
      }
    }
  }

  lemma {:induction false} ClimbSound(level: nat, left: Expr, ts: seq<string>)
    requires level < 6 && WellFormed(left) && Rank(left) >= level && Stops(level + 1, ts)
    ensures
      var r := Climb(level, left, ts);
      r.Some? ==>
        && WellFormed(r.value.tree)
        && Rank(r.value.tree) >= level
        && Tokens(left) + ts == Tokens(r.value.tree) + r.value.rest
        && Stops(level, r.value.rest)
    decreases |ts|, 7 - level, 1
  {
    hide Level, Keyword, Parse, Primary;
    if ts != [] && Level(ts[0]) == level {
      ParseSound(level + 1, ts[1..]);
      var p := Parse(level + 1, ts[1..]);
      if p.Some? {
        var t := Binary(ts[0], left, p.value.tree);
        ClimbSound(level, t, p.value.rest);
        assert ts == [ts[0]] + ts[1..];
        Regroup(Tokens(left), [ts[0]], Tokens(p.value.tree), [], p.value.rest);
      }
    }
  }

  /** A reading that is well-formed, is one operand, and is what stood there. */
  predicate Faithful(ts: seq<string>, r: Option<Parsed>)
  {
    r.Some? ==>
      && WellFormed(r.value.tree)
      && Rank(r.value.tree) == 6
      && ts == Tokens(r.value.tree) + r.value.rest
  }

  lemma Regroup<T>(h: seq<T>, a: seq<T>, b: seq<T>, c: seq<T>, rest: seq<T>)
    ensures h + (a + rest) == h + a + rest
    ensures h + (a + (b + rest)) == h + a + b + rest
    ensures h + (a + (b + (c + rest))) == h + a + b + c + rest
  {
  }

  /** The tokens of a keyword and its operands, one at a time. */
  lemma Spelled(e: Expr, rest: seq<string>)
    requires e.Length? || e.Match? || e.Index? || e.Substr?
    ensures
      Tokens(e) + rest ==
      match e {
        case Length(a) => ["length"] + (Tokens(a) + rest)
        case Match(l, r) => ["match"] + (Tokens(l) + (Tokens(r) + rest))
        case Index(l, r) => ["index"] + (Tokens(l) + (Tokens(r) + rest))
        case Substr(s, p, n) => ["substr"] + (Tokens(s) + (Tokens(p) + (Tokens(n) + rest)))
      }
  {
    match e
    case Length(a) => Regroup(["length"], Tokens(a), [], [], rest);
    case Match(l, r) => Regroup(["match"], Tokens(l), Tokens(r), [], rest);
    case Index(l, r) => Regroup(["index"], Tokens(l), Tokens(r), [], rest);
    case Substr(s, p, n) => Regroup(["substr"], Tokens(s), Tokens(p), Tokens(n), rest);
  }

  lemma {:induction false} PrimarySound(ts: seq<string>)
    ensures Faithful(ts, Primary(ts))
    decreases |ts|, 0, 1
  {
    hide Level, Keyword, Parse, Climb, Tokens;
    if ts != [] {
      Words();
      KeywordIs(ts[0]);
      if Keyword(ts[0]) == 0 {
        if ts[0] == "(" {
          ParenSound(ts);
        } else if ts[0] != ")" {
          WordSound(ts);
        }
      } else if Keyword(ts[0]) == 1 {
        WordSound(ts);
      } else if Keyword(ts[0]) == 2 {
        LengthSound(ts);
      } else if Keyword(ts[0]) == 5 {
        SubstrSound(ts);
      } else {
        PairSound(ts);
      }
    }
  }

  lemma WordSound(ts: seq<string>)
    requires ts != [] && Keyword(ts[0]) <= 1 && ts[0] != "(" && ts[0] != ")"
    ensures Faithful(ts, Primary(ts))
  {
    hide Level, Keyword, Parse, Climb;
    KeywordIs(ts[0]);
    if Keyword(ts[0]) == 0 {
      assert ts == Tokens(Leaf(ts[0])) + ts[1..];
    } else if |ts| >= 2 {
      assert ts == Tokens(Quote(ts[1])) + ts[2..];
    }
  }

  lemma {:induction false} ParenSound(ts: seq<string>)
    requires ts != [] && ts[0] == "("
    ensures Faithful(ts, Primary(ts))
    decreases |ts|, 0, 0
  {
    hide Level, Keyword, Parse, Climb;
    Words();
    ParseSound(0, ts[1..]);
    var a := Parse(0, ts[1..]);
    if a.Some? && a.value.rest != [] && a.value.rest[0] == ")" {
      var rest := a.value.rest[1..];
      assert ts == ["("] + ts[1..] && a.value.rest == [")"] + rest;
      Regroup(["("], Tokens(a.value.tree), [")"], [], rest);
    }
  }

  lemma {:induction false} LengthSound(ts: seq<string>)
    requires ts != [] && ts[0] == "length"
    ensures Faithful(ts, Primary(ts))
    decreases |ts|, 0, 0
  {
    hide Level, Keyword, Parse, Climb, Tokens;
    Words();
    assert ts == ["length"] + ts[1..];
    PrimarySound(ts[1..]);
    var a := Primary(ts[1..]);
    if a.Some? {
      Spelled(Length(a.value.tree), a.value.rest);
    }
  }

  lemma {:induction false} PairSound(ts: seq<string>)
    requires ts != [] && (ts[0] == "match" || ts[0] == "index")
    ensures Faithful(ts, Primary(ts))
    decreases |ts|, 0, 0
  {
    hide Level, Keyword, Parse, Climb, Tokens;
    Words();
    assert ts == [ts[0]] + ts[1..];
    PrimarySound(ts[1..]);
    var a := Primary(ts[1..]);
    if a.Some? {
      PrimarySound(a.value.rest);
      var b := Primary(a.value.rest);
      if b.Some? {
        Spelled(Match(a.value.tree, b.value.tree), b.value.rest);
        Spelled(Index(a.value.tree, b.value.tree), b.value.rest);
      }
    }
  }

  lemma {:induction false} SubstrSound(ts: seq<string>)
    requires ts != [] && ts[0] == "substr"
    ensures Faithful(ts, Primary(ts))
    decreases |ts|, 0, 0
  {
    hide Level, Keyword, Parse, Climb, Tokens;
    Words();
    assert ts == ["substr"] + ts[1..];
    PrimarySound(ts[1..]);
    var a := Primary(ts[1..]);
    if a.Some? {
      PrimarySound(a.value.rest);
      var b := Primary(a.value.rest);
      if b.Some? {
        PrimarySound(b.value.rest);
        var c := Primary(b.value.rest);
        if c.Some? {
          Spelled(Substr(a.value.tree, b.value.tree, c.value.tree), c.value.rest);
        }
      }
    }
  }

  // ----- every well-formed tree is read back from its tokens -----

  lemma {:induction false} ParseComplete(level: nat, e: Expr, rest: seq<string>)
    requires level <= 6 && WellFormed(e) && Rank(e) >= level && Stops(level, rest)
    ensures Parse(level, Tokens(e) + rest) == Some(Parsed(e, rest))
    decreases e, 7 - level, 1
  {
    if level == 6 {
      PrimaryComplete(e, rest);
    } else {
      SpineComplete(level, e, rest);
    }
  }

  /** Reading a tree at its level comes to having the tree as the left operand of what follows. */
  lemma {:induction false} SpineComplete(level: nat, e: Expr, rest: seq<string>)
    requires level < 6 && WellFormed(e) && Rank(e) >= level && Stops(level + 1, rest)
    ensures Parse(level, Tokens(e) + rest) == Climb(level, e, rest)
    decreases e, 7 - level, 0
  {
    hide Level, Keyword, Primary;
    if Rank(e) > level {
      ParseComplete(level + 1, e, rest);
    } else {
      var after := [e.op] + (Tokens(e.right) + rest);
      SpineComplete(level, e.left, after);
      Regroup(Tokens(e.left), [e.op], Tokens(e.right), [], rest);
      ParseComplete(level + 1, e.right, rest);
      assert after[1..] == Tokens(e.right) + rest;
    }
  }

  lemma {:induction false} PrimaryComplete(e: Expr, rest: seq<string>)
    requires WellFormed(e) && Rank(e) == 6
    ensures Primary(Tokens(e) + rest) == Some(Parsed(e, rest))
    decreases e, 0, 1
  {
    hide Level, Keyword, Parse, Climb;
    var ts := Tokens(e) + rest;
    match e
    case Leaf(t) =>
      assert ts[0] == t && ts[1..] == rest;
    case Quote(t) =>
      Words();
      assert ts[0] == "quote" && ts[1] == t && ts[2..] == rest;
    case Paren(a) =>
      Words();
      ParseComplete(0, a, [")"] + rest);
      ParenComplete(a, rest);
    case _ => CallComplete(e, rest);
  }

  lemma ParenComplete(a: Expr, rest: seq<string>)
    requires Valid(a)
    requires Parse(0, Tokens(a) + ([")"] + rest)) == Some(Parsed(a, [")"] + rest))
    ensures Primary(Tokens(Paren(a)) + rest) == Some(Parsed(Paren(a), rest))
  {
    hide Level, Keyword, Parse, Climb;
    Words();
    var ts := Tokens(Paren(a)) + rest;
    Regroup(["("], Tokens(a), [")"], [], rest);
    assert ts[0] == "(" && ts[1..] == Tokens(a) + ([")"] + rest);
    assert ([")"] + rest)[1..] == rest;
  }

  lemma {:induction false} CallComplete(e: Expr, rest: seq<string>)
    requires WellFormed(e) && (e.Length? || e.Match? || e.Index? || e.Substr?)
    ensures Primary(Tokens(e) + rest) == Some(Parsed(e, rest))
    decreases e, 0, 0
  {
    hide Level, Keyword, Parse, Climb, Tokens;
    Words();
    var ts := Tokens(e) + rest;
    Spelled(e, rest);
    match e
    case Length(a) =>
      assert ts[0] == "length" && ts[1..] == Tokens(a) + rest;
      PrimaryComplete(a, rest);
    case Match(l, r) =>
      assert ts[0] == "match" && ts[1..] == Tokens(l) + (Tokens(r) + rest);
      PrimaryComplete(l, Tokens(r) + rest);
      PrimaryComplete(r, rest);
    case Index(l, r) =>
      assert ts[0] == "index" && ts[1..] == Tokens(l) + (Tokens(r) + rest);
      PrimaryComplete(l, Tokens(r) + rest);
      PrimaryComplete(r, rest);
    case Substr(s, p, n) =>
      assert ts[0] == "substr" && ts[1..] == Tokens(s) + (Tokens(p) + (Tokens(n) + rest));
      PrimaryComplete(s, Tokens(p) + (Tokens(n) + rest));
      PrimaryComplete(p, Tokens(n) + rest);
      PrimaryComplete(n, rest);
  }

  /** No two well-formed trees have the same tokens. */
  lemma Unambiguous(e: Expr, f: Expr)
    requires WellFormed(e) && WellFormed(f) && Tokens(e) == Tokens(f)
    ensures e == f
  {
    ParseComplete(0, e, []);
    ParseComplete(0, f, []);
    assert Tokens(e) + [] == Tokens(f) + [];
  }

  // ----- printing any tree -----

  /** The tree with parentheses wherever an operand binds too loosely for its place. */
  function Bracketed(level: nat, e: Expr): (b: Expr)
    requires level <= 6 && Valid(e)
    ensures Valid(b)
    decreases e, 1
  {
    if Rank(e) >= level then Inside(e) else Paren(Inside(e))
  }

  function Inside(e: Expr): (b: Expr)
    requires Valid(e)
    ensures Valid(b) && Rank(b) == Rank(e)
    decreases e, 0
  {
    match e
    case Leaf(t) => e
    case Quote(t) => e
    case Length(a) => Length(Bracketed(6, a))
    case Match(l, r) => Match(Bracketed(6, l), Bracketed(6, r))
    case Index(l, r) => Index(Bracketed(6, l), Bracketed(6, r))
    case Substr(s, p, n) => Substr(Bracketed(6, s), Bracketed(6, p), Bracketed(6, n))
    case Paren(a) => Paren(Bracketed(0, a))
    case Binary(op, l, r) => Binary(op, Bracketed(Level(op), l), Bracketed(Level(op) + 1, r))
  }

  /** The tokens a tree is written with. */
  function Print(e: Expr): (ts: seq<string>)
    requires Valid(e)
  {
    Tokens(Bracketed(0, e))
  }

  lemma {:induction false} BracketedIsGrouped(level: nat, e: Expr)
    requires level <= 6 && Valid(e)
    ensures WellFormed(Bracketed(level, e)) && Rank(Bracketed(level, e)) >= level
    decreases e
  {
    hide Level, Keyword;
    match e
    case Leaf(t) =>
    case Quote(t) =>
    case Length(a) => BracketedIsGrouped(6, a);
    case Match(l, r) => BracketedIsGrouped(6, l); BracketedIsGrouped(6, r);
    case Index(l, r) => BracketedIsGrouped(6, l); BracketedIsGrouped(6, r);
    case Substr(s, p, n) => BracketedIsGrouped(6, s); BracketedIsGrouped(6, p); BracketedIsGrouped(6, n);
    case Paren(a) => BracketedIsGrouped(0, a);
    case Binary(op, l, r) => BracketedIsGrouped(Level(op), l); BracketedIsGrouped(Level(op) + 1, r);
    assert Grouped(Inside(e));
  }

  /** Parentheses change nothing. */
  lemma {:induction false} BracketedMeansSame(m: Matcher, level: nat, e: Expr)
    requires level <= 6 && Valid(e)
    ensures Denote(m, Bracketed(level, e)) == Denote(m, e)
    decreases e
  {
    hide Level, Keyword, Apply, IndexIn, Piece, Text, Arith;
    match e
    case Leaf(t) =>
    case Quote(t) =>
    case Length(a) => BracketedMeansSame(m, 6, a);
    case Match(l, r) => BracketedMeansSame(m, 6, l); BracketedMeansSame(m, 6, r);
    case Index(l, r) => BracketedMeansSame(m, 6, l); BracketedMeansSame(m, 6, r);
    case Substr(s, p, n) =>
      BracketedMeansSame(m, 6, s);
      BracketedMeansSame(m, 6, p);
      BracketedMeansSame(m, 6, n);
    case Paren(a) => BracketedMeansSame(m, 0, a);
    case Binary(op, l, r) =>
      BracketedMeansSame(m, Level(op), l);
      BracketedMeansSame(m, Level(op) + 1, r);
  }
}
