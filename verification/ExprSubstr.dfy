/** expr's substr: what the usage text says of it, and what an int in between makes of it. */
module ExprSubstr {
  import opened Options
  import opened Decimals

  const INT_SIZE := 0x1_0000_0000
  const INT_MAX := 0x7FFF_FFFF
  const SIZE_T := 0x1_0000_0000_0000_0000

  /** A length as strndup() gets it: cut to an int on its way to xstrndup(), and widened to a size_t there. */
  function Passed(k: int): (n: nat)
    ensures n < SIZE_T
  {
    var low := k % INT_SIZE;
    if low <= INT_MAX then low else low + (SIZE_T - INT_SIZE)
  }

  /** strndup(): the whole text, or its first `n` characters. */
  function Taken(s: string, n: nat): (t: string)
    ensures t <= s && |t| <= n && (t == s || |t| == n)
  {
    if n <= |s| then s[..n] else s
  }

  /** There is nothing to take: no position, no length, or none inside the text. */
  predicate Nothing(s: string, p: Option<int>, n: Option<int>)
  {
    p.None? || n.None? || p.value > |s| || p.value <= 0 || n.value <= 0
  }

  /** What substr gives, positions counting from 1. */
  function Piece(s: string, p: Option<int>, n: Option<int>): (t: string)
  {
    if Nothing(s, p, n) then "" else Taken(s[p.value - 1..], Passed(n.value))
  }

  /** What it should give: at most `n` characters of `s` from position `p`. */
  function PlainPiece(s: string, p: Option<int>, n: Option<int>): (t: string)
  {
    if Nothing(s, p, n) then "" else Taken(s[p.value - 1..], n.value)
  }

  /** How a length and a number of characters left have to be for the int to do no harm. */
  predicate Harmless(k: int, left: nat)
  {
    k <= INT_MAX || (if k % INT_SIZE <= INT_MAX then k % INT_SIZE >= left else k >= left)
  }

  lemma TakenExactly(t: string, k: nat)
    requires k <= LONG_MAX
    ensures Taken(t, Passed(k)) == Taken(t, k) <==> Harmless(k, |t|)
  {
    var low := k % INT_SIZE;
    assert k <= INT_MAX ==> low == k;
    assert low <= k;
    assert |Taken(t, Passed(k))| == if Passed(k) <= |t| then Passed(k) else |t|;
    assert |Taken(t, k)| == if k <= |t| then k else |t|;
  }

  /** substr keeps its promise if and only if the int between does no harm. */
  lemma PieceExactly(s: string, p: Option<int>, n: Option<int>)
    requires n.Some? ==> InRange(n.value)
    ensures Piece(s, p, n) == PlainPiece(s, p, n)
            <==> (Nothing(s, p, n) || Harmless(n.value, |s| - (p.value - 1)))
  {
    if !Nothing(s, p, n) {
      TakenExactly(s[p.value - 1..], n.value);
    }
  }

  /** For texts that are not huge: the length reaches no further than the text, or its low 32 bits do reach its end. */
  lemma UsualTexts(t: string, k: nat)
    requires 0 < k <= LONG_MAX && |t| <= INT_MAX
    ensures Taken(t, Passed(k)) == Taken(t, k) <==> (k <= |t| || k % INT_SIZE >= |t|)
  {
    TakenExactly(t, k);
    assert k <= INT_MAX ==> k % INT_SIZE == k;
    assert k % INT_SIZE <= k;
  }
}
