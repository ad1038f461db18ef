/** The three words of a package status: get_status and set_status. */
module DpkgStatus {
  import opened Texts

  function SkipBlanks(s: string, i: nat): (j: nat)
    requires i <= |s|
    ensures i <= j <= |s| && (j < |s| ==> s[j] != ' ') && forall k | i <= k < j :: s[k] == ' '
    decreases |s| - i
  {
    if i == |s| || s[i] != ' ' then i else SkipBlanks(s, i + 1)
  }

  /** Where the word with number `num`, counted from 1, begins. */
  function WordStart(s: string, num: nat): (i: nat)
    requires num >= 1
    ensures i <= |s|
  {
    if num == 1 then 0 else SkipBlanks(s, Span(s, WordStart(s, num - 1), " "))
  }

  /** get_status, before the word is looked up in the name table. */
  function StatusWord(s: string, num: nat): (w: string)
    requires num >= 1
  {
    var i := WordStart(s, num);
    s[i..Span(s, i, " \n")]
  }

  /** The loops of get_status that find the word. */
  method FindWord(s: string, num: nat) returns (w: string)
    requires num >= 1
    ensures w == StatusWord(s, num)
  {
    var i := 0;
    for k := 1 to num
      invariant i == WordStart(s, k)
    {
      i := Span(s, i, " ");
      i := SkipBlanks(s, i);
    }
    w := s[i..Span(s, i, " \n")];
  }

  /** No blank and no line end, as in every word that get_status cuts out. */
  predicate Plain(w: string)
  {
    ' ' !in w && '\n' !in w
  }

  function Joined(want: string, flag: string, state: string): (s: string)
  {
    want + " " + flag + " " + state
  }

  /** The words that set_status puts together: the one at `position` is new. */
  function NewWord(s: string, value: string, position: nat, num: nat): (w: string)
    requires num >= 1
  {
    if num == position then value else StatusWord(s, num)
  }

  /** set_status: the status with the word at `position` replaced. */
  function SetWord(s: string, value: string, position: nat): (r: string)
  {
    Joined(NewWord(s, value, position, 1), NewWord(s, value, position, 2), NewWord(s, value, position, 3))
  }

  lemma {:induction false} WordIsPlain(s: string, num: nat)
    requires num >= 1
    ensures Plain(StatusWord(s, num))
  {
    hide WordStart, Span;
  }

  lemma {:induction false} BlanksAre(s: string, i: nat, j: nat)
    requires i <= j <= |s| && (j < |s| ==> s[j] != ' ') && forall k | i <= k < j :: s[k] == ' '
    ensures SkipBlanks(s, i) == j
  {
  }

  /** A plain word from `i` to `j` that a blank or the end follows. */
  lemma {:induction false} SpanWord(s: string, i: nat, j: nat, w: string)
    requires i <= j <= |s| && s[i..j] == w && Plain(w) && (j < |s| ==> s[j] == ' ')
    ensures Span(s, i, " ") == j && Span(s, i, " \n") == j && (w != "" ==> s[i] != ' ')
  {
    forall k | i <= k < j ensures s[k] != ' ' && s[k] != '\n' {
      assert s[k] == w[k - i];
    }
    SpanIs(s, i, j, " ");
    SpanIs(s, i, j, " \n");
  }

  lemma JoinedIs(a: string, b: string, c: string)
    ensures var s := Joined(a, b, c); var i, j := |a| + 1, |a| + 1 + |b| + 1;
            && |s| == j + |c| && s[0..|a|] == a && s[i..i + |b|] == b && s[j..|s|] == c
            && s[|a|] == ' ' && s[i + |b|] == ' '
  {
  }

  /** A status with a flag reads back as its words. */
  lemma {:induction false} WordsOfJoined(a: string, b: string, c: string)
    requires Plain(a) && Plain(b) && Plain(c) && b != ""
    ensures StatusWord(Joined(a, b, c), 1) == a && StatusWord(Joined(a, b, c), 2) == b
      && StatusWord(Joined(a, b, c), 3) == c
  {
    hide Span, SkipBlanks, Plain;
    var s := Joined(a, b, c);
    var i, j := |a| + 1, |a| + 1 + |b| + 1;
    JoinedIs(a, b, c);
    hide Joined;
    SpanWord(s, 0, |a|, a);
    SpanWord(s, i, i + |b|, b);
    SpanWord(s, j, |s|, c);
    BlanksAre(s, |a|, i);
    BlanksAre(s, i + |b|, j);
    assert WordStart(s, 2) == i && WordStart(s, 3) == j;
  }

  /** Without a flag the state moves to its place. */
  lemma {:induction false} WordsWithoutFlag(a: string, c: string)
    requires Plain(a) && Plain(c)
    ensures StatusWord(Joined(a, "", c), 1) == a && StatusWord(Joined(a, "", c), 2) == c
      && StatusWord(Joined(a, "", c), 3) == ""
  {
    hide Span, SkipBlanks, Plain;
    var s := Joined(a, "", c);
    var i := |a| + 2;
    assert s[0..|a|] == a && s[i..|s|] == c && s[|a|] == ' ' && s[|a| + 1] == ' ';
    SpanWord(s, 0, |a|, a);
    SpanWord(s, i, |s|, c);
    BlanksAre(s, |a|, i);
    BlanksAre(s, |s|, |s|);
    assert WordStart(s, 2) == i && WordStart(s, 3) == |s|;
    assert s[|s|..|s|] == "";
  }

  /** What is read after set_status is what was set and, elsewhere, what was there,
      if and only if the new status has a flag or no state. */
  lemma {:induction false} SetThenGet(s: string, value: string, position: nat)
    requires Plain(value)
    ensures (forall num | 1 <= num <= 3 ::
               StatusWord(SetWord(s, value, position), num) == NewWord(s, value, position, num))
            <==> (NewWord(s, value, position, 2) != "" || NewWord(s, value, position, 3) == "")
  {
    hide StatusWord, Joined, Plain;
    WordIsPlain(s, 1);
    WordIsPlain(s, 2);
    WordIsPlain(s, 3);
    var a, b, c :=
      NewWord(s, value, position, 1), NewWord(s, value, position, 2), NewWord(s, value, position, 3);
    if b != "" {
      WordsOfJoined(a, b, c);
    } else {
      WordsWithoutFlag(a, c);
      assert StatusWord(SetWord(s, value, position), 3) == "";
    }
  }
}
