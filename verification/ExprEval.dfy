/** The evaluator of expr: it keeps a cursor into the arguments and values, and never builds a tree. */
module ExprEval {
  import opened Options
  import opened Texts
  import opened Decimals
  import opened ExprValues
  import opened ExprOrder
  import opened ExprSubstr
  import opened ExprGrammar

  // ----- evaluating while reading, against reading and then evaluating -----

  /** An outcome, and the tokens left, that fit what reading the tokens as a tree gives. */
  ghost predicate Agrees(m: Matcher, got: Result<Value>, rest: seq<string>, read: Option<Parsed>)
  {
    match read
    case None => got.Err?
    case Some(p) => Valid(p.tree) && got == Denote(m, p.tree) && (got.Ok? ==> rest == p.rest)
  }

  /** Midway through the operators of one level: `v` is the value of the tree read so far. */
  ghost predicate Running(m: Matcher, level: nat, start: seq<string>, tree: Expr, v: Value, rest: seq<string>)
    requires level < 6
  {
    && Valid(tree)
    && Denote(m, tree) == Ok(v)
    && Parse(level, start) == Climb(level, tree, rest)
  }

  /** An operand that fails makes every tree it is the leftmost part of fail. */
  lemma {:induction false} ClimbFails(m: Matcher, level: nat, tree: Expr, ts: seq<string>)
    requires level < 6 && Valid(tree) && Denote(m, tree).Err?
    ensures
      var r := Climb(level, tree, ts);
      r.Some? ==> Valid(r.value.tree) && Denote(m, r.value.tree) == Denote(m, tree)
    decreases |ts|
  {
    hide Level, Parse, Apply;
    if ts != [] && Level(ts[0]) == level {
      ParseSound(level + 1, ts[1..]);
      var p := Parse(level + 1, ts[1..]);
      if p.Some? {
        ClimbFails(m, level, Binary(ts[0], tree, p.value.tree), p.value.rest);
      }
    }
  }

  /** The first operand of a level has been evaluated. */
  lemma Begin(m: Matcher, level: nat, start: seq<string>, got: Result<Value>, rest: seq<string>)
    returns (tree: Expr)
    requires level < 6 && Agrees(m, got, rest, Parse(level + 1, start))
    ensures got.Ok? ==> Running(m, level, start, tree, got.value, rest)
    ensures got.Err? ==> Agrees(m, got, rest, Parse(level, start))
  {
    hide Climb, Denote;
    match Parse(level + 1, start)
    case None => tree := Leaf("");
    case Some(p) =>
      tree := p.tree;
      if got.Err? {
        ClimbFails(m, level, tree, p.rest);
      }
  }

  /** An operator of the level has been passed, and the operand after it evaluated. */
  lemma Step(m: Matcher, level: nat, start: seq<string>, tree: Expr, v: Value, at: seq<string>,
             got: Result<Value>, rest: seq<string>)
    returns (next: Expr)
    requires level < 6 && Running(m, level, start, tree, v, at)
    requires at != [] && Level(at[0]) == level && Agrees(m, got, rest, Parse(level + 1, at[1..]))
    ensures got.Err? ==> Agrees(m, got, rest, Parse(level, start))
    ensures got.Ok? ==>
      var x := Apply(m, at[0], v, got.value);
      if x.Ok? then Running(m, level, start, next, x.value, rest) else Agrees(m, x, rest, Parse(level, start))
  {
    hide Level, Apply, Parse;
    next := tree;
    var read := Parse(level + 1, at[1..]);
    if read.Some? {
      next := Binary(at[0], tree, read.value.tree);
      assert Climb(level, tree, at) == Climb(level, next, read.value.rest);
      if Denote(m, next).Err? {
        ClimbFails(m, level, next, read.value.rest);
      }
    }
  }

  /** No operator of the level comes next. */
  lemma End(m: Matcher, level: nat, start: seq<string>, tree: Expr, v: Value, rest: seq<string>)
    requires level < 6 && Running(m, level, start, tree, v, rest)
    requires rest == [] || Level(rest[0]) != level
    ensures Agrees(m, Ok(v), rest, Parse(level, start))
  {
  }

  // ----- keywords and parentheses -----

  /** The first operand of a keyword fails. */
  lemma FirstFails(m: Matcher, ts: seq<string>, got: Result<Value>, rest: seq<string>)
    requires ts != [] && Keyword(ts[0]) >= 2
    requires Agrees(m, got, rest, Primary(ts[1..])) && got.Err?
    ensures Agrees(m, got, rest, Parse(6, ts))
  {
    hide Keyword, Piece, IndexIn, Tokens;
    PrimarySound(ts);
  }

  /** The second one does. */
  lemma SecondFails(m: Matcher, ts: seq<string>, a: Value, next: seq<string>, got: Result<Value>, rest: seq<string>)
    requires ts != [] && Keyword(ts[0]) >= 3
    requires Agrees(m, Ok(a), next, Primary(ts[1..]))
    requires Agrees(m, got, rest, Primary(next)) && got.Err?
    ensures Agrees(m, got, rest, Parse(6, ts))
  {
    hide Keyword, Piece, IndexIn, Tokens;
    PrimarySound(ts);
  }

  lemma LengthRead(m: Matcher, ts: seq<string>, a: Value, rest: seq<string>)
    requires ts != [] && Keyword(ts[0]) == 2 && Agrees(m, Ok(a), rest, Primary(ts[1..]))
    ensures Agrees(m, Ok(Int(|Text(a)|)), rest, Parse(6, ts))
  {
    hide Keyword, Tokens;
  }

  lemma PairRead(m: Matcher, ts: seq<string>, a: Value, next: seq<string>, b: Value, rest: seq<string>)
    requires ts != [] && (Keyword(ts[0]) == 3 || Keyword(ts[0]) == 4)
    requires Agrees(m, Ok(a), next, Primary(ts[1..])) && Agrees(m, Ok(b), rest, Primary(next))
    ensures
      var got := if Keyword(ts[0]) == 3 then m(Text(a), Text(b)) else Ok(Int(IndexIn(Text(a), Text(b))));
      Agrees(m, got, rest, Parse(6, ts))
  {
    hide Keyword, IndexIn, Tokens;
  }

  lemma SubstrRead(m: Matcher, ts: seq<string>, a: Value, next: seq<string>, i: Value, last: seq<string>,
                   got: Result<Value>, rest: seq<string>)
    requires ts != [] && Keyword(ts[0]) == 5
    requires Agrees(m, Ok(a), next, Primary(ts[1..])) && Agrees(m, Ok(i), last, Primary(next))
    requires Agrees(m, got, rest, Primary(last))
    ensures
      var x := if got.Ok? then Ok(Str(Piece(Text(a), Arith(i), Arith(got.value)))) else got;
      Agrees(m, x, rest, Parse(6, ts))
  {
    hide Keyword, Piece, Tokens;
  }

  lemma ParenRead(m: Matcher, ts: seq<string>, got: Result<Value>, rest: seq<string>)
    requires ts != [] && ts[0] == "(" && Agrees(m, got, rest, Parse(0, ts[1..]))
    ensures got.Err? ==> Agrees(m, got, rest, Parse(6, ts))
    ensures got.Ok? ==>
      if rest != [] && rest[0] == ")" then Agrees(m, got, rest[1..], Parse(6, ts))
      else Agrees(m, Err(SyntaxError), rest, Parse(6, ts))
  {
    hide Keyword, Climb, Tokens;
    Words();
  }

  lemma SixIsPrimary(ts: seq<string>)
    ensures Parse(6, ts) == Primary(ts)
  {
  }

  /** A quoted word, a bare word, or neither. */
  lemma WordRead(m: Matcher, ts: seq<string>)
    ensures ts == [] ==> Agrees(m, Err(SyntaxError), [], Parse(6, ts))
    ensures ts != [] && Keyword(ts[0]) == 1 ==>
      if |ts| >= 2 then Agrees(m, Ok(Str(ts[1])), ts[2..], Parse(6, ts))
      else Agrees(m, Err(SyntaxError), [], Parse(6, ts))
    ensures ts != [] && Keyword(ts[0]) == 0 && ts[0] == ")" ==> Agrees(m, Err(SyntaxError), ts, Parse(6, ts))
    ensures ts != [] && Keyword(ts[0]) == 0 && ts[0] != "(" && ts[0] != ")" ==>
      Agrees(m, Ok(Str(ts[0])), ts[1..], Parse(6, ts))
  {
    hide Keyword, Climb, Tokens;
    Words();
  }

  // ----- the whole program -----

  /** What the whole argument list comes to, for every tree it may be written from. */
  ghost predicate Decided(m: Matcher, ts: seq<string>, r: Result<Value>)
  {
    && (r.Ok? ==> exists e: Expr :: WellFormed(e) && Tokens(e) == ts && Denote(m, e) == r)
    && (forall e: Expr | WellFormed(e) && Tokens(e) == ts :: Denote(m, e) == r)
    && (forall e: Expr | Valid(e) && Print(e) == ts :: Denote(m, e) == r)
  }

  lemma Whole(m: Matcher, ts: seq<string>, got: Result<Value>, rest: seq<string>)
    requires Agrees(m, got, rest, Parse(0, ts))
    ensures Decided(m, ts, if got.Ok? && rest != [] then Err(SyntaxError) else got)
  {
    hide Parse, Denote, Tokens, WellFormed, Bracketed;
    var r := if got.Ok? && rest != [] then Err(SyntaxError) else got;
    forall e: Expr | WellFormed(e) && Tokens(e) == ts
      ensures Valid(e) && Parse(0, ts) == Some(Parsed(e, []))
    {
      WholeTree(e);
    }
    forall e: Expr | Valid(e) && Print(e) == ts
      ensures Denote(m, e) == r
    {
      BracketedIsGrouped(0, e);
      BracketedMeansSame(m, 0, e);
    }
    if r.Ok? {
      ParseSound(0, ts);
      var e := Parse(0, ts).value.tree;
      assert WellFormed(e) && Tokens(e) == ts && Denote(m, e) == r;
    }
  }

  lemma WholeTree(e: Expr)
    requires WellFormed(e)
    ensures Valid(e) && Parse(0, Tokens(e)) == Some(Parsed(e, []))
  {
    ParseComplete(0, e, []);
    assert Tokens(e) + [] == Tokens(e);
  }

  // ----- tokens -----

  /** What nextarg() returns for a token that matches. */
  function Code(s: string): (c: nat)
    requires 0 < |s|
  {
    s[0] as int + if |s| > 1 then s[1] as int else 0
  }

  lemma Codes()
    ensures Code("|") == 124 && Code("&") == 38 && Code(":") == 58
    ensures Code("<") == 60 && Code("<=") == 121 && Code("=") == 61 && Code("==") == 122
    ensures Code("!=") == 94 && Code(">=") == 123 && Code(">") == 62
    ensures Code("+") == 43 && Code("-") == 45 && Code("*") == 42 && Code("/") == 47 && Code("%") == 37
  {
  }

  /** A VALUE cell, which toarith() and tostring() rewrite in place. */
  class Cell {
    var value: Value

    constructor (v: Value)
      ensures value == v
    {
      value := v;
    }

    method ToString()
      modifies this
      ensures value == Str(Text(old(value)))
    {
      if value.Int? {
        value := Str(Decimal(value.i));
      }
    }

    method ToArith() returns (ok: bool)
      modifies this
      ensures value == Settled(old(value))
      ensures ok == value.Int?
    {
      if value.Str? {
        var i := Strtol(value.s);
        if i.None? {
          return false;
        }
        value := Int(i.value);
      }
      ok := true;
    }
  }

  method CmpCommon(l: Cell, r: Cell, op: int, ghost name: string) returns (b: bool)
    requires IsComparison(name) && op == Code(name)
    modifies l, r
    ensures b == Holds(name, RawOrder(old(l.value), old(r.value)))
  {
    Codes();
    var ll, rr := 0, 0;
    if l.value.Str? || r.value.Str? {
      l.ToString();
      r.ToString();
      ll := StrCmp(l.value.s, r.value.s);
    } else {
      ll, rr := l.value.i, r.value.i;
    }
    assert Sign(ll - rr) == RawOrder(old(l.value), old(r.value));
    if op == Code("<") {
      return ll < rr;
    }
    if op == Code("<=") {
      return ll <= rr;
    }
    if op == Code("=") || op == Code("==") {
      return ll == rr;
    }
    if op == Code("!=") {
      return ll != rr;
    }
    if op == Code(">") {
      return ll > rr;
    }
    return ll >= rr;
  }

  method ArithmeticCommon(l: Cell, r: Cell, op: int, ghost name: string) returns (v: Result<int>)
    requires IsArithmetic(name) && op == Code(name) && l != r
    modifies l, r
    ensures Arithmetic(name, old(l.value), old(r.value)) ==
            match v { case Ok(i) => Ok(Int(i)) case Err(e) => Err(e) }
  {
    Codes();
    var ok := l.ToArith();
    if ok {
      ok := r.ToArith();
    }
    if !ok {
      return Err(NonNumeric);
    }
    var li, ri := l.value.i, r.value.i;
    if op == Code("+") {
      return if InRange(li + ri) then Ok(li + ri) else Err(Overflow);
    }
    if op == Code("-") {
      return if InRange(li - ri) then Ok(li - ri) else Err(Overflow);
    }
    if op == Code("*") {
      return if InRange(li * ri) then Ok(li * ri) else Err(Overflow);
    }
    if ri == 0 {
      return Err(DivisionByZero);
    }
    if !InRange(Quotient(li, ri)) {
      return Err(Overflow);
    }
    if op == Code("/") {
      return Ok(Quotient(li, ri));
    }
    return if InRange(Remainder(li, ri)) then Ok(Remainder(li, ri)) else Err(Overflow);
  }

  /** A VALUE, or the reason the program died. */
  ghost function Outcome(r: Result<Cell>): (v: Result<Value>)
    reads if r.Ok? then {r.value} else {}
  {
    match r
    case Ok(c) => Ok(c.value)
    case Err(e) => Err(e)
  }

  class Evaluator {
    const args: seq<string>
    const matcher: Matcher
    var pos: nat

    constructor (argv: seq<string>, m: Matcher)
      ensures args == argv && matcher == m && pos == 0
    {
      args, matcher, pos := argv, m, 0;
    }

    ghost predicate InArgs()
      reads `pos
    {
      pos <= |args|
    }

    ghost function Left(): (ts: seq<string>)
      requires InArgs()
      reads `pos
    {
      args[pos..]
    }

    method NextArg(s: string) returns (code: int)
      requires InArgs() && 0 < |s|
      ensures code == if Left() != [] && Left()[0] == s then Code(s) else 0
    {
      if pos == |args| || args[pos] != s {
        return 0;
      }
      code := Code(s);
    }

    method DoColon(l: Cell, r: Cell) returns (v: Result<Cell>)
      modifies l, r
      ensures v.Ok? ==> fresh(v.value)
      ensures Outcome(v) == matcher(Text(old(l.value)), Text(old(r.value)))
    {
      l.ToString();
      r.ToString();
      var x :- matcher(l.value.s, r.value.s);
      var c := new Cell(x);
      v := Ok(c);
    }

    /** Handles |. */
    method Eval() returns (r: Result<Cell>)
      requires InArgs()
      modifies `pos
      ensures InArgs()
      ensures r.Ok? ==> fresh(r.value) && old(pos) < pos
      ensures Agrees(matcher, Outcome(r), Left(), Parse(0, old(Left())))
      decreases |args| - pos, 8
    {
      hide Parse, Climb, Denote, Running, Agrees, Arithmetic, Order, RawOrder, Holds;
      r := Eval1();
      ghost var tree := Begin(matcher, 0, old(Left()), Outcome(r), Left());
      if r.Err? {
        return;
      }
      var l := r.value;
      var op := NextArg("|");
      while op != 0
        invariant InArgs() && old(pos) < pos && fresh(l)
        invariant Running(matcher, 0, old(Left()), tree, l.value, Left())
        invariant op != 0 <==> Left() != [] && Left()[0] == "|"
        decreases |args| - pos
      {
        ghost var at, v := Left(), l.value;
        pos := pos + 1;
        assert Left() == at[1..];
        r := Eval1();
        tree := Step(matcher, 0, old(Left()), tree, v, at, Outcome(r), Left());
        if r.Err? {
          return;
        }
        if IsNull(l.value) {
          l := r.value;
        }
        op := NextArg("|");
      }
      End(matcher, 0, old(Left()), tree, l.value, Left());
      r := Ok(l);
    }

    /** Handles &. */
    method Eval1() returns (r: Result<Cell>)
      requires InArgs()
      modifies `pos
      ensures InArgs()
      ensures r.Ok? ==> fresh(r.value) && old(pos) < pos
      ensures Agrees(matcher, Outcome(r), Left(), Parse(1, old(Left())))
      decreases |args| - pos, 7
    {
      hide Parse, Climb, Denote, Running, Agrees, Arithmetic, Order, RawOrder, Holds;
      r := Eval2();
      ghost var tree := Begin(matcher, 1, old(Left()), Outcome(r), Left());
      if r.Err? {
        return;
      }
      var l := r.value;
      var op := NextArg("&");
      while op != 0
        invariant InArgs() && old(pos) < pos && fresh(l)
        invariant Running(matcher, 1, old(Left()), tree, l.value, Left())
        invariant op != 0 <==> Left() != [] && Left()[0] == "&"
        decreases |args| - pos
      {
        ghost var at, v := Left(), l.value;
        pos := pos + 1;
        assert Left() == at[1..];
        r := Eval2();
        tree := Step(matcher, 1, old(Left()), tree, v, at, Outcome(r), Left());
        if r.Err? {
          return;
        }
        if IsNull(l.value) || IsNull(r.value.value) {
          l := new Cell(Int(0));
        }
        op := NextArg("&");
      }
      End(matcher, 1, old(Left()), tree, l.value, Left());
      r := Ok(l);
    }

    /** The comparison that comes next, or 0. */
    method Relation() returns (op: int)
      requires InArgs()
      ensures op != 0 <==> Left() != [] && Level(Left()[0]) == 2
      ensures op != 0 ==> op == Code(Left()[0])
    {
      Codes();
      op := NextArg("<");
      if op == 0 {
        op := NextArg("<=");
        if op == 0 {
          op := NextArg("=");
          if op == 0 {
            op := NextArg("==");
            if op == 0 {
              op := NextArg("!=");
              if op == 0 {
                op := NextArg(">=");
                if op == 0 {
                  op := NextArg(">");
                }
              }
            }
          }
        }
      }
    }

    /** Handles comparisons. */
    method Eval2() returns (r: Result<Cell>)
      requires InArgs()
      modifies `pos
      ensures InArgs()
      ensures r.Ok? ==> fresh(r.value) && old(pos) < pos
      ensures Agrees(matcher, Outcome(r), Left(), Parse(2, old(Left())))
      decreases |args| - pos, 6
    {
      hide Parse, Climb, Denote, Running, Agrees, Arithmetic, RawOrder, Holds, Settled;
      r := Eval3();
      ghost var tree := Begin(matcher, 2, old(Left()), Outcome(r), Left());
      if r.Err? {
        return;
      }
      var l := r.value;
      var op := Relation();
      while op != 0
        invariant InArgs() && old(pos) < pos && fresh(l)
        invariant Running(matcher, 2, old(Left()), tree, l.value, Left())
        invariant op != 0 <==> Left() != [] && Level(Left()[0]) == 2
        invariant op != 0 ==> op == Code(Left()[0])
        decreases |args| - pos
      {
        ghost var at, v := Left(), l.value;
        pos := pos + 1;
        assert Left() == at[1..];
        r := Eval3();
        tree := Step(matcher, 2, old(Left()), tree, v, at, Outcome(r), Left());
        if r.Err? {
          return;
        }
        var _ := l.ToArith();
        var _ := r.value.ToArith();
        var holds := CmpCommon(l, r.value, op, at[0]);
        l := new Cell(Int(if holds then 1 else 0));
        op := Relation();
      }
      End(matcher, 2, old(Left()), tree, l.value, Left());
      r := Ok(l);
    }

    method AddOperator() returns (op: int)
      requires InArgs()
      ensures op != 0 <==> Left() != [] && Level(Left()[0]) == 3
      ensures op != 0 ==> op == Code(Left()[0])
    {
      Codes();
      op := NextArg("+");
      if op == 0 {
        op := NextArg("-");
      }
    }

    /** Handles + and -. */
    method Eval3() returns (r: Result<Cell>)
      requires InArgs()
      modifies `pos
      ensures InArgs()
      ensures r.Ok? ==> fresh(r.value) && old(pos) < pos
      ensures Agrees(matcher, Outcome(r), Left(), Parse(3, old(Left())))
      decreases |args| - pos, 5
    {
      hide Parse, Climb, Denote, Running, Agrees, Arithmetic, Order, RawOrder, Holds;
      r := Eval4();
      ghost var tree := Begin(matcher, 3, old(Left()), Outcome(r), Left());
      if r.Err? {
        return;
      }
      var l := r.value;
      var op := AddOperator();
      while op != 0
        invariant InArgs() && old(pos) < pos && fresh(l)
        invariant Running(matcher, 3, old(Left()), tree, l.value, Left())
        invariant op != 0 <==> Left() != [] && Level(Left()[0]) == 3
        invariant op != 0 ==> op == Code(Left()[0])
        decreases |args| - pos
      {
        ghost var at, v := Left(), l.value;
        pos := pos + 1;
        assert Left() == at[1..];
        r := Eval4();
        tree := Step(matcher, 3, old(Left()), tree, v, at, Outcome(r), Left());
        if r.Err? {
          return;
        }
        var val := ArithmeticCommon(l, r.value, op, at[0]);
        if val.Err? {
          return Err(val.error);
        }
        l := new Cell(Int(val.value));
        op := AddOperator();
      }
      End(matcher, 3, old(Left()), tree, l.value, Left());
      r := Ok(l);
    }

    method MulOperator() returns (op: int)
      requires InArgs()
      ensures op != 0 <==> Left() != [] && Level(Left()[0]) == 4
      ensures op != 0 ==> op == Code(Left()[0])
    {
      Codes();
      op := NextArg("*");
      if op == 0 {
        op := NextArg("/");
        if op == 0 {
          op := NextArg("%");
        }
      }
    }

    /** Handles *, / and %. */
    method Eval4() returns (r: Result<Cell>)
      requires InArgs()
      modifies `pos
      ensures InArgs()
      ensures r.Ok? ==> fresh(r.value) && old(pos) < pos
      ensures Agrees(matcher, Outcome(r), Left(), Parse(4, old(Left())))
      decreases |args| - pos, 4
    {
      hide Parse, Climb, Denote, Running, Agrees, Arithmetic, Order, RawOrder, Holds;
      r := Eval5();
      ghost var tree := Begin(matcher, 4, old(Left()), Outcome(r), Left());
      if r.Err? {
        return;
      }
      var l := r.value;
      var op := MulOperator();
      while op != 0
        invariant InArgs() && old(pos) < pos && fresh(l)
        invariant Running(matcher, 4, old(Left()), tree, l.value, Left())
        invariant op != 0 <==> Left() != [] && Level(Left()[0]) == 4
        invariant op != 0 ==> op == Code(Left()[0])
        decreases |args| - pos
      {
        ghost var at, v := Left(), l.value;
        pos := pos + 1;
        assert Left() == at[1..];
        r := Eval5();
        tree := Step(matcher, 4, old(Left()), tree, v, at, Outcome(r), Left());
        if r.Err? {
          return;
        }
        var val := ArithmeticCommon(l, r.value, op, at[0]);
        if val.Err? {
          return Err(val.error);
        }
        l := new Cell(Int(val.value));
        op := MulOperator();
      }
      End(matcher, 4, old(Left()), tree, l.value, Left());
      r := Ok(l);
    }

    /** Handles the : operator. */
    method Eval5() returns (r: Result<Cell>)
      requires InArgs()
      modifies `pos
      ensures InArgs()
      ensures r.Ok? ==> fresh(r.value) && old(pos) < pos
      ensures Agrees(matcher, Outcome(r), Left(), Parse(5, old(Left())))
      decreases |args| - pos, 3
    {
      hide Parse, Climb, Denote, Running, Agrees, Arithmetic, Order, RawOrder, Holds;
      r := Eval6();
      ghost var tree := Begin(matcher, 5, old(Left()), Outcome(r), Left());
      if r.Err? {
        return;
      }
      var l := r.value;
      var op := NextArg(":");
      while op != 0
        invariant InArgs() && old(pos) < pos && fresh(l)
        invariant Running(matcher, 5, old(Left()), tree, l.value, Left())
        invariant op != 0 <==> Left() != [] && Left()[0] == ":"
        decreases |args| - pos
      {
        ghost var at, v := Left(), l.value;
        pos := pos + 1;
        assert Left() == at[1..];
        r := Eval6();
        tree := Step(matcher, 5, old(Left()), tree, v, at, Outcome(r), Left());
        if r.Err? {
          return;
        }
        r := DoColon(l, r.value);
        if r.Err? {
          return;
        }
        l := r.value;
        op := NextArg(":");
      }
      End(matcher, 5, old(Left()), tree, l.value, Left());
      r := Ok(l);
    }

    /** Handles the keywords. */
    method Eval6() returns (r: Result<Cell>)
      requires InArgs()
      modifies `pos
      ensures InArgs()
      ensures r.Ok? ==> fresh(r.value) && old(pos) < pos
      ensures Agrees(matcher, Outcome(r), Left(), Parse(6, old(Left())))
      decreases |args| - pos, 2
    {
      hide Parse, Climb, Primary, Denote, Agrees, Keyword, IndexIn, Piece;
      ghost var start := Left();
      var key := if pos < |args| then Keyword(args[pos]) else 0;
      if key == 0 {
        r := Eval7();
        return;
      }
      pos := pos + 1;
      assert Left() == start[1..];
      if key == 1 {
        WordRead(matcher, start);
        if pos == |args| {
          return Err(SyntaxError);
        }
        var c := new Cell(Str(args[pos]));
        pos := pos + 1;
        return Ok(c);
      }
      r := Eval6();
      SixIsPrimary(start[1..]);
      if r.Err? {
        FirstFails(matcher, start, Outcome(r), Left());
        return;
      }
      var l := r.value;
      if key == 2 {
        LengthRead(matcher, start, l.value, Left());
        l.ToString();
        l := new Cell(Int(|l.value.s|));
        return Ok(l);
      }
      ghost var next, a := Left(), l.value;
      r := Eval6();
      SixIsPrimary(next);
      if r.Err? {
        SecondFails(matcher, start, a, next, Outcome(r), Left());
        return;
      }
      if key == 5 {
        r := FinishSubstr(l, r.value, start, next);
        return;
      }
      PairRead(matcher, start, a, next, r.value.value, Left());
      if key == 3 {
        r := DoColon(l, r.value);
      } else {
        l.ToString();
        r.value.ToString();
        var n := IndexOf(l.value.s, r.value.value.s);
        l := new Cell(Int(n));
        r := Ok(l);
      }
    }

    /** strcspn() and the zero for a search without success. */
    method IndexOf(s: string, chars: string) returns (n: nat)
      ensures n == IndexIn(s, chars)
    {
      n := Span(s, 0, chars) + 1;
      if n == |s| + 1 {
        n := 0;
      }
    }

    /** The rest of substr, after its text and position. */
    method FinishSubstr(l: Cell, i1: Cell, ghost start: seq<string>, ghost next: seq<string>)
      returns (r: Result<Cell>)
      requires InArgs() && l != i1
      requires start != [] && Keyword(start[0]) == 5
      requires Agrees(matcher, Ok(l.value), next, Primary(start[1..]))
      requires Agrees(matcher, Ok(i1.value), Left(), Primary(next))
      modifies `pos, l, i1
      ensures InArgs()
      ensures r.Ok? ==> fresh(r.value) && old(pos) < pos
      ensures Agrees(matcher, Outcome(r), Left(), Parse(6, start))
      decreases |args| - pos, 3
    {
      hide Parse, Climb, Primary, Denote, Agrees, Keyword, Strtol;
      ghost var last, a, i := Left(), l.value, i1.value;
      r := Eval6();
      SixIsPrimary(last);
      SubstrRead(matcher, start, a, next, i, last, Outcome(r), Left());
      if r.Err? {
        return;
      }
      var i2 := r.value;
      ghost var k := i2.value;
      l.ToString();
      var ok := i1.ToArith();
      if ok {
        ok := i2.ToArith();
      }
      var s := l.value.s;
      var c: Cell;
      if !ok || i1.value.i > |s| || i1.value.i <= 0 || i2.value.i <= 0 {
        c := new Cell(Str(""));
      } else {
        assert Arith(i) == Some(i1.value.i) && Arith(k) == Some(i2.value.i);
        c := new Cell(Str(Taken(s[i1.value.i - 1..], Passed(i2.value.i))));
      }
      assert c.value == Str(Piece(Text(a), Arith(i), Arith(k)));
      r := Ok(c);
    }

    /** Handles bare operands and parentheses. */
    method Eval7() returns (r: Result<Cell>)
      requires InArgs() && (Left() != [] ==> Keyword(Left()[0]) == 0)
      modifies `pos
      ensures InArgs()
      ensures r.Ok? ==> fresh(r.value) && old(pos) < pos
      ensures Agrees(matcher, Outcome(r), Left(), Parse(6, old(Left())))
      decreases |args| - pos, 1
    {
      hide Parse, Climb, Primary, Denote, Agrees, Keyword;
      ghost var start := Left();
      WordRead(matcher, start);
      if pos == |args| {
        return Err(SyntaxError);
      }
      var open := NextArg("(");
      if open != 0 {
        pos := pos + 1;
        assert Left() == start[1..];
        r := Eval();
        ParenRead(matcher, start, Outcome(r), Left());
        if r.Err? {
          return;
        }
        var closed := NextArg(")");
        if closed == 0 {
          return Err(SyntaxError);
        }
        ghost var at := Left();
        pos := pos + 1;
        assert Left() == at[1..];
        return;
      }
      var closed := NextArg(")");
      if closed != 0 {
        return Err(SyntaxError);
      }
      var c := new Cell(Str(args[pos]));
      pos := pos + 1;
      assert Left() == start[1..];
      r := Ok(c);
    }

    /**
     * The whole program: the value it prints and whether it exits with 0.
     * It prints a value exactly when the arguments are the tokens of some
     * well-formed tree with that value.
     */
    method Run() returns (r: Result<Value>, success: bool)
      requires pos == 0
      modifies `pos
      ensures Decided(matcher, args, r)
      ensures success <==> r.Ok? && r.value != Int(0) && r.value != Str("") && r.value != Str("0")
    {
      hide Parse, Denote, Tokens, WellFormed, Bracketed;
      if pos == |args| {
        return Err(TooFewArguments), false;
      }
      assert args[0..] == args;
      var v := Eval();
      Whole(matcher, args, Outcome(v), Left());
      if v.Err? {
        return Err(v.error), false;
      }
      if pos < |args| {
        return Err(SyntaxError), false;
      }
      r := Ok(v.value.value);
      success := !IsNull(r.value);
    }
  }

  /** The arguments 05, > and 1x: whatever Run gives for them is 1, though 05 is not above 1x as the usage text
      orders them. */
  lemma ComparesFive(m: Matcher, r: Result<Value>)
    requires Decided(m, ["05", ">", "1x"], r)
    ensures r == Ok(Int(1)) && !Holds(">", PlainOrder(Str("05"), Str("1x")))
  {
    hide Order, PlainOrder;
    PlainOrderFails();
    var e := Binary(">", Leaf("05"), Leaf("1x"));
    assert Tokens(e) == ["05", ">", "1x"];
    assert Level(">") == 2;
    assert WellFormed(e);
    assert Denote(m, e) == Ok(Int(1));
  }

  /** substr of three words, the second and the third of them numbers. */
  lemma SubstrTree(m: Matcher, x: Expr, y: Expr, z: Expr, p: int, k: int)
    requires IsWord(x) && IsWord(y) && IsWord(z) && Strtol(y.token) == Some(p) && Strtol(z.token) == Some(k)
    ensures WellFormed(Substr(x, y, z)) && Tokens(Substr(x, y, z)) == ["substr"] + Tokens(x) + Tokens(y) + Tokens(z)
    ensures Denote(m, Substr(x, y, z)) == Ok(Str(Piece(x.token, Some(p), Some(k))))
  {
    hide Strtol, Piece, Keyword;
    assert Valid(x) && Valid(y) && Valid(z) && Grouped(x) && Grouped(y) && Grouped(z);
    assert Denote(m, x) == Ok(Str(x.token)) && Denote(m, y) == Ok(Str(y.token)) && Denote(m, z) == Ok(Str(z.token));
  }

  predicate IsWord(e: Expr)
  {
    (e.Leaf? || e.Quote?) && Valid(e)
  }

  /** substr of a quoted text, position and length, all integers in range: it comes out as the usage text
      says if and only if the int in between does no harm. */
  lemma SubstrExactly(m: Matcher, s: string, p: int, k: int, r: Result<Value>)
    requires InRange(p) && InRange(k)
    requires Decided(m, ["substr", "quote", s, "quote", Decimal(p), "quote", Decimal(k)], r)
    ensures r == Ok(Str(Piece(s, Some(p), Some(k))))
    ensures r == Ok(Str(PlainPiece(s, Some(p), Some(k))))
            <==> (Nothing(s, Some(p), Some(k)) || Harmless(k, |s| - (p - 1)))
  {
    hide Decimal, Piece, PlainPiece, Nothing, Harmless, Numeral, Denote, WellFormed;
    DecimalRead(p);
    DecimalRead(k);
    var e := Substr(Quote(s), Quote(Decimal(p)), Quote(Decimal(k)));
    SubstrTree(m, e.text, e.pos, e.len, p, k);
    assert Tokens(e) == ["substr", "quote", s, "quote", Decimal(p), "quote", Decimal(k)];
    PieceExactly(s, Some(p), Some(k));
  }

  /** The arguments substr, abc, 1 and 4294967296 come to the empty text. */
  lemma SubstrCut(m: Matcher, r: Result<Value>)
    requires Decided(m, ["substr", "abc", "1", "4294967296"], r)
    ensures r == Ok(Str("")) && PlainPiece("abc", Some(1), Some(0x1_0000_0000)) == "abc"
  {
    hide Decimal, Numeral, Denote, WellFormed;
    LargeSpelled();
    DecimalRead(1);
    DecimalRead(0x1_0000_0000);
    var e := Substr(Leaf("abc"), Leaf("1"), Leaf("4294967296"));
    SubstrTree(m, e.text, e.pos, e.len, 1, 0x1_0000_0000);
    assert Tokens(e) == ["substr", "abc", "1", "4294967296"];
    assert Passed(0x1_0000_0000) == 0;
  }

  lemma LargeSpelled()
    ensures Decimal(1) == "1" && Decimal(0x1_0000_0000) == "4294967296"
  {
    assert Digits(4294) == "4294" by {
      assert Digits(4) == "4";
      assert Digits(42) == "42";
      assert Digits(429) == "429";
    }
    assert Digits(4294967) == "4294967" by {
      assert Digits(42949) == "42949";
      assert Digits(429496) == "429496";
    }
    assert Digits(42949672) == "42949672";
    assert Digits(429496729) == "429496729";
  }
}
