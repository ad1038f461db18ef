/** The wheel of trial divisors: what the table of factor means. */
module Wheel {

  const ROW_COUNT := 24
  const ROW_SIZE := 20

  /** Five steps. */
  function Q(a: nat, b: nat, c: nat, d: nat, e: nat): (s: seq<nat>)
    ensures |s| == 5
  {
    [a, b, c, d, e]
  }

  /** One line of packed_wheel before it is packed. */
  function Row(k: nat): (r: seq<nat>)
    requires k < ROW_COUNT
    ensures |r| == ROW_SIZE
  {
    match k
    case 0 => Q(4, 2, 4, 6, 2) + Q(6, 4, 2, 4, 6) + Q(6, 2, 6, 4, 2) + Q(6, 4, 6, 8, 4)
    case 1 => Q(2, 4, 2, 4, 14) + Q(4, 6, 2, 10, 2) + Q(6, 6, 4, 2, 4) + Q(6, 2, 10, 2, 4)
    case 2 => Q(2, 12, 10, 2, 4) + Q(2, 4, 6, 2, 6) + Q(4, 6, 6, 6, 2) + Q(6, 4, 2, 6, 4)
    case 3 => Q(6, 8, 4, 2, 4) + Q(6, 8, 6, 10, 2) + Q(4, 6, 2, 6, 6) + Q(4, 2, 4, 6, 2)
    case 4 => Q(6, 4, 2, 6, 10) + Q(2, 10, 2, 4, 2) + Q(4, 6, 8, 4, 2) + Q(4, 12, 2, 6, 4)
    case 5 => Q(2, 6, 4, 6, 12) + Q(2, 4, 2, 4, 8) + Q(6, 4, 6, 2, 4) + Q(6, 2, 6, 10, 2)
    case 6 => Q(4, 6, 2, 6, 4) + Q(2, 4, 2, 10, 2) + Q(10, 2, 4, 6, 6) + Q(2, 6, 6, 4, 6)
    case 7 => Q(6, 2, 6, 4, 2) + Q(6, 4, 6, 8, 4) + Q(2, 6, 4, 8, 6) + Q(4, 6, 2, 4, 6)
    case 8 => Q(8, 6, 4, 2, 10) + Q(2, 6, 4, 2, 4) + Q(2, 10, 2, 10, 2) + Q(4, 2, 4, 8, 6)
    case 9 => Q(4, 2, 4, 6, 6) + Q(2, 6, 4, 8, 4) + Q(6, 8, 4, 2, 4) + Q(2, 4, 8, 6, 4)
    case 10 => Q(6, 6, 6, 2, 6) + Q(6, 4, 2, 4, 6) + Q(2, 6, 4, 2, 4) + Q(2, 10, 2, 10, 2)
    case 11 => Q(6, 4, 6, 2, 6) + Q(4, 2, 4, 6, 6) + Q(8, 4, 2, 6, 10) + Q(8, 4, 2, 4, 2)
    case 12 => Q(4, 8, 10, 6, 2) + Q(4, 8, 6, 6, 4) + Q(2, 4, 6, 2, 6) + Q(4, 6, 2, 10, 2)
    case 13 => Q(10, 2, 4, 2, 4) + Q(6, 2, 6, 4, 2) + Q(4, 6, 6, 2, 6) + Q(6, 6, 4, 6, 8)
    case 14 => Q(4, 2, 4, 2, 4) + Q(8, 6, 4, 8, 4) + Q(6, 2, 6, 6, 4) + Q(2, 4, 6, 8, 4)
    case 15 => Q(2, 4, 2, 10, 2) + Q(10, 2, 4, 2, 4) + Q(6, 2, 10, 2, 4) + Q(6, 8, 6, 4, 2)
    case 16 => Q(6, 4, 6, 8, 4) + Q(6, 2, 4, 8, 6) + Q(4, 6, 2, 4, 6) + Q(2, 6, 6, 4, 6)
    case 17 => Q(6, 2, 6, 6, 4) + Q(2, 10, 2, 10, 2) + Q(4, 2, 4, 6, 2) + Q(6, 4, 2, 10, 6)
    case 18 => Q(2, 6, 4, 2, 6) + Q(4, 6, 8, 4, 2) + Q(4, 2, 12, 6, 4) + Q(6, 2, 4, 6, 2)
    case 19 => Q(12, 4, 2, 4, 8) + Q(6, 4, 2, 4, 2) + Q(10, 2, 10, 6, 2) + Q(4, 6, 2, 6, 4)
    case 20 => Q(2, 4, 6, 6, 2) + Q(6, 4, 2, 10, 6) + Q(8, 6, 4, 2, 4) + Q(8, 6, 4, 6, 2)
    case 21 => Q(4, 6, 2, 6, 6) + Q(6, 4, 6, 2, 6) + Q(4, 2, 4, 2, 10) + Q(12, 2, 4, 2, 10)
    case 22 => Q(2, 6, 4, 2, 4) + Q(6, 6, 2, 10, 2) + Q(6, 4, 14, 4, 2) + Q(4, 2, 4, 8, 6)
    case _ => Q(4, 6, 2, 4, 6) + Q(2, 6, 6, 4, 2) + Q(4, 6, 2, 6, 4) + Q(2, 4, 12, 2, 12)
  }

  /** All the lines from `k` on. */
  function RowsFrom(k: nat): (s: seq<nat>)
    requires k <= ROW_COUNT
    decreases ROW_COUNT - k
  {
    if k == ROW_COUNT then [] else Row(k) + RowsFrom(k + 1)
  }

  /** The steps that repeat, from 13 on. */
  function Cycle(): (s: seq<nat>)
  {
    RowsFrom(0)
  }

  /** A number has a divisor among 2, 3, 5, 7 and 11. */
  predicate HasSmall(d: nat)
  {
    d % 2 == 0 || d % 3 == 0 || d % 5 == 0 || d % 7 == 0 || d % 11 == 0
  }

  /** A step of `g` from `p`, which has no such divisor, passes only over numbers that have one. */
  predicate Gap(p: nat, g: nat)
  {
    && !HasSmall(p) && g % 2 == 0 && 2 <= g <= 14
    && (g > 2 ==> HasSmall(p + 2)) && (g > 4 ==> HasSmall(p + 4)) && (g > 6 ==> HasSmall(p + 6))
    && (g > 8 ==> HasSmall(p + 8)) && (g > 10 ==> HasSmall(p + 10)) && (g > 12 ==> HasSmall(p + 12))
  }

  /** The steps lead from `at[0]` over `at[1]`, `at[2]` and so on, and every one is a gap. */
  ghost predicate Leads(steps: seq<nat>, at: seq<nat>)
  {
    |at| == |steps| + 1 && forall i | 0 <= i < |steps| :: at[i + 1] == at[i] + steps[i] && Gap(at[i], steps[i])
  }

  ghost predicate Rolls(steps: seq<nat>, p: nat, q: nat)
  {
    exists at: seq<nat> :: Leads(steps, at) && at[0] == p && at[|steps|] == q
  }

  lemma {:induction false} Five(p: nat, a: nat, b: nat, c: nat, d: nat, e: nat)
    requires Gap(p, a) && Gap(p + a, b) && Gap(p + a + b, c) && Gap(p + a + b + c, d) && Gap(p + a + b + c + d, e)
    ensures Rolls(Q(a, b, c, d, e), p, p + a + b + c + d + e)
  {
    hide Gap;
    assert Leads(Q(a, b, c, d, e), [p, p + a, p + a + b, p + a + b + c, p + a + b + c + d, p + a + b + c + d + e]);
  }

  lemma {:induction false} RollsConcat(a: seq<nat>, b: seq<nat>, p: nat, q: nat, r: nat)
    requires Rolls(a, p, q) && Rolls(b, q, r)
    ensures Rolls(a + b, p, r)
  {
    hide Gap;
    var at: seq<nat> :| Leads(a, at) && at[0] == p && at[|a|] == q;
    var bt: seq<nat> :| Leads(b, bt) && bt[0] == q && bt[|b|] == r;
    var steps, all := a + b, at + bt[1..];
    forall i | 0 <= i < |steps| ensures all[i + 1] == all[i] + steps[i] && Gap(all[i], steps[i]) {
      if i >= |a| {
        assert all[i] == bt[i - |a|] && all[i + 1] == bt[i - |a| + 1];
      }
    }
    assert Leads(steps, all);
  }

  lemma {:induction false} FourRoll(a: seq<nat>, b: seq<nat>, c: seq<nat>, d: seq<nat>, p: nat, q: nat, r: nat,
                                    s: nat, t: nat)
    requires Rolls(a, p, q) && Rolls(b, q, r) && Rolls(c, r, s) && Rolls(d, s, t)
    ensures Rolls(a + b + c + d, p, t)
  {
    hide Rolls;
    RollsConcat(a, b, p, q, r);
    RollsConcat(a + b, c, p, r, s);
    RollsConcat(a + b + c, d, p, s, t);
  }

  lemma {:induction false} Row01Rolls()
    ensures Rolls(Row(0), 13, 101)
  {
    hide Rolls;
    Five(13, 4, 2, 4, 6, 2);
    Five(31, 6, 4, 2, 4, 6);
    Five(53, 6, 2, 6, 4, 2);
    Five(73, 6, 4, 6, 8, 4);
    FourRoll(Q(4, 2, 4, 6, 2), Q(6, 4, 2, 4, 6), Q(6, 2, 6, 4, 2), Q(6, 4, 6, 8, 4), 13, 31, 53, 73, 101);
  }

  lemma {:induction false} Row02Rolls()
    ensures Rolls(Row(1), 101, 197)
  {
    hide Rolls;
    Five(101, 2, 4, 2, 4, 14);
    Five(127, 4, 6, 2, 10, 2);
    Five(151, 6, 6, 4, 2, 4);
    Five(173, 6, 2, 10, 2, 4);
    FourRoll(Q(2, 4, 2, 4, 14), Q(4, 6, 2, 10, 2), Q(6, 6, 4, 2, 4), Q(6, 2, 10, 2, 4), 101, 127, 151, 173, 197);
  }

  lemma {:induction false} Row03Rolls()
    ensures Rolls(Row(2), 197, 293)
  {
    hide Rolls;
    Five(197, 2, 12, 10, 2, 4);
    Five(227, 2, 4, 6, 2, 6);
    Five(247, 4, 6, 6, 6, 2);
    Five(271, 6, 4, 2, 6, 4);
    FourRoll(Q(2, 12, 10, 2, 4), Q(2, 4, 6, 2, 6), Q(4, 6, 6, 6, 2), Q(6, 4, 2, 6, 4), 197, 227, 247, 271, 293);
  }

  lemma {:induction false} Row04Rolls()
    ensures Rolls(Row(3), 293, 391)
  {
    hide Rolls;
    Five(293, 6, 8, 4, 2, 4);
    Five(317, 6, 8, 6, 10, 2);
    Five(349, 4, 6, 2, 6, 6);
    Five(373, 4, 2, 4, 6, 2);
    FourRoll(Q(6, 8, 4, 2, 4), Q(6, 8, 6, 10, 2), Q(4, 6, 2, 6, 6), Q(4, 2, 4, 6, 2), 293, 317, 349, 373, 391);
  }

  lemma {:induction false} Row05Rolls()
    ensures Rolls(Row(4), 391, 491)
  {
    hide Rolls;
    Five(391, 6, 4, 2, 6, 10);
    Five(419, 2, 10, 2, 4, 2);
    Five(439, 4, 6, 8, 4, 2);
    Five(463, 4, 12, 2, 6, 4);
    FourRoll(Q(6, 4, 2, 6, 10), Q(2, 10, 2, 4, 2), Q(4, 6, 8, 4, 2), Q(4, 12, 2, 6, 4), 391, 419, 439, 463, 491);
  }

  lemma {:induction false} Row06Rolls()
    ensures Rolls(Row(5), 491, 589)
  {
    hide Rolls;
    Five(491, 2, 6, 4, 6, 12);
    Five(521, 2, 4, 2, 4, 8);
    Five(541, 6, 4, 6, 2, 4);
    Five(563, 6, 2, 6, 10, 2);
    FourRoll(Q(2, 6, 4, 6, 12), Q(2, 4, 2, 4, 8), Q(6, 4, 6, 2, 4), Q(6, 2, 6, 10, 2), 491, 521, 541, 563, 589);
  }

  lemma {:induction false} Row07Rolls()
    ensures Rolls(Row(6), 589, 683)
  {
    hide Rolls;
    Five(589, 4, 6, 2, 6, 4);
    Five(611, 2, 4, 2, 10, 2);
    Five(631, 10, 2, 4, 6, 6);
    Five(659, 2, 6, 6, 4, 6);
    FourRoll(Q(4, 6, 2, 6, 4), Q(2, 4, 2, 10, 2), Q(10, 2, 4, 6, 6), Q(2, 6, 6, 4, 6), 589, 611, 631, 659, 683);
  }

  lemma {:induction false} Row08Rolls()
    ensures Rolls(Row(7), 683, 779)
  {
    hide Rolls;
    Five(683, 6, 2, 6, 4, 2);
    Five(703, 6, 4, 6, 8, 4);
    Five(731, 2, 6, 4, 8, 6);
    Five(757, 4, 6, 2, 4, 6);
    FourRoll(Q(6, 2, 6, 4, 2), Q(6, 4, 6, 8, 4), Q(2, 6, 4, 8, 6), Q(4, 6, 2, 4, 6), 683, 703, 731, 757, 779);
  }

  lemma {:induction false} Row09Rolls()
    ensures Rolls(Row(8), 779, 877)
  {
    hide Rolls;
    Five(779, 8, 6, 4, 2, 10);
    Five(809, 2, 6, 4, 2, 4);
    Five(827, 2, 10, 2, 10, 2);
    Five(853, 4, 2, 4, 8, 6);
    FourRoll(Q(8, 6, 4, 2, 10), Q(2, 6, 4, 2, 4), Q(2, 10, 2, 10, 2), Q(4, 2, 4, 8, 6), 779, 809, 827, 853, 877);
  }

  lemma {:induction false} Row10Rolls()
    ensures Rolls(Row(9), 877, 971)
  {
    hide Rolls;
    Five(877, 4, 2, 4, 6, 6);
    Five(899, 2, 6, 4, 8, 4);
    Five(923, 6, 8, 4, 2, 4);
    Five(947, 2, 4, 8, 6, 4);
    FourRoll(Q(4, 2, 4, 6, 6), Q(2, 6, 4, 8, 4), Q(6, 8, 4, 2, 4), Q(2, 4, 8, 6, 4), 877, 899, 923, 947, 971);
  }

  lemma {:induction false} Row11Rolls()
    ensures Rolls(Row(10), 971, 1063)
  {
    hide Rolls;
    Five(971, 6, 6, 6, 2, 6);
    Five(997, 6, 4, 2, 4, 6);
    Five(1019, 2, 6, 4, 2, 4);
    Five(1037, 2, 10, 2, 10, 2);
    FourRoll(Q(6, 6, 6, 2, 6), Q(6, 4, 2, 4, 6), Q(2, 6, 4, 2, 4), Q(2, 10, 2, 10, 2), 971, 997, 1019, 1037, 1063);
  }

  lemma {:induction false} Row12Rolls()
    ensures Rolls(Row(11), 1063, 1159)
  {
    hide Rolls;
    Five(1063, 6, 4, 6, 2, 6);
    Five(1087, 4, 2, 4, 6, 6);
    Five(1109, 8, 4, 2, 6, 10);
    Five(1139, 8, 4, 2, 4, 2);
    FourRoll(Q(6, 4, 6, 2, 6), Q(4, 2, 4, 6, 6), Q(8, 4, 2, 6, 10), Q(8, 4, 2, 4, 2), 1063, 1087, 1109, 1139, 1159);
  }

  lemma {:induction false} Row13Rolls()
    ensures Rolls(Row(12), 1159, 1261)
  {
    hide Rolls;
    Five(1159, 4, 8, 10, 6, 2);
    Five(1189, 4, 8, 6, 6, 4);
    Five(1217, 2, 4, 6, 2, 6);
    Five(1237, 4, 6, 2, 10, 2);
    FourRoll(Q(4, 8, 10, 6, 2), Q(4, 8, 6, 6, 4), Q(2, 4, 6, 2, 6), Q(4, 6, 2, 10, 2), 1159, 1189, 1217, 1237, 1261);
  }

  lemma {:induction false} Row14Rolls()
    ensures Rolls(Row(13), 1261, 1357)
  {
    hide Rolls;
    Five(1261, 10, 2, 4, 2, 4);
    Five(1283, 6, 2, 6, 4, 2);
    Five(1303, 4, 6, 6, 2, 6);
    Five(1327, 6, 6, 4, 6, 8);
    FourRoll(Q(10, 2, 4, 2, 4), Q(6, 2, 6, 4, 2), Q(4, 6, 6, 2, 6), Q(6, 6, 4, 6, 8), 1261, 1283, 1303, 1327, 1357);
  }

  lemma {:induction false} Row15Rolls()
    ensures Rolls(Row(14), 1357, 1451)
  {
    hide Rolls;
    Five(1357, 4, 2, 4, 2, 4);
    Five(1373, 8, 6, 4, 8, 4);
    Five(1403, 6, 2, 6, 6, 4);
    Five(1427, 2, 4, 6, 8, 4);
    FourRoll(Q(4, 2, 4, 2, 4), Q(8, 6, 4, 8, 4), Q(6, 2, 6, 6, 4), Q(2, 4, 6, 8, 4), 1357, 1373, 1403, 1427, 1451);
  }

  lemma {:induction false} Row16Rolls()
    ensures Rolls(Row(15), 1451, 1543)
  {
    hide Rolls;
    Five(1451, 2, 4, 2, 10, 2);
    Five(1471, 10, 2, 4, 2, 4);
    Five(1493, 6, 2, 10, 2, 4);
    Five(1517, 6, 8, 6, 4, 2);
    FourRoll(Q(2, 4, 2, 10, 2), Q(10, 2, 4, 2, 4), Q(6, 2, 10, 2, 4), Q(6, 8, 6, 4, 2), 1451, 1471, 1493, 1517, 1543);
  }

  lemma {:induction false} Row17Rolls()
    ensures Rolls(Row(16), 1543, 1643)
  {
    hide Rolls;
    Five(1543, 6, 4, 6, 8, 4);
    Five(1571, 6, 2, 4, 8, 6);
    Five(1597, 4, 6, 2, 4, 6);
    Five(1619, 2, 6, 6, 4, 6);
    FourRoll(Q(6, 4, 6, 8, 4), Q(6, 2, 4, 8, 6), Q(4, 6, 2, 4, 6), Q(2, 6, 6, 4, 6), 1543, 1571, 1597, 1619, 1643);
  }

  lemma {:induction false} Row18Rolls()
    ensures Rolls(Row(17), 1643, 1739)
  {
    hide Rolls;
    Five(1643, 6, 2, 6, 6, 4);
    Five(1667, 2, 10, 2, 10, 2);
    Five(1693, 4, 2, 4, 6, 2);
    Five(1711, 6, 4, 2, 10, 6);
    FourRoll(Q(6, 2, 6, 6, 4), Q(2, 10, 2, 10, 2), Q(4, 2, 4, 6, 2), Q(6, 4, 2, 10, 6), 1643, 1667, 1693, 1711, 1739);
  }

  lemma {:induction false} Row19Rolls()
    ensures Rolls(Row(18), 1739, 1831)
  {
    hide Rolls;
    Five(1739, 2, 6, 4, 2, 6);
    Five(1759, 4, 6, 8, 4, 2);
    Five(1783, 4, 2, 12, 6, 4);
    Five(1811, 6, 2, 4, 6, 2);
    FourRoll(Q(2, 6, 4, 2, 6), Q(4, 6, 8, 4, 2), Q(4, 2, 12, 6, 4), Q(6, 2, 4, 6, 2), 1739, 1759, 1783, 1811, 1831);
  }

  lemma {:induction false} Row20Rolls()
    ensures Rolls(Row(19), 1831, 1931)
  {
    hide Rolls;
    Five(1831, 12, 4, 2, 4, 8);
    Five(1861, 6, 4, 2, 4, 2);
    Five(1879, 10, 2, 10, 6, 2);
    Five(1909, 4, 6, 2, 6, 4);
    FourRoll(Q(12, 4, 2, 4, 8), Q(6, 4, 2, 4, 2), Q(10, 2, 10, 6, 2), Q(4, 6, 2, 6, 4), 1831, 1861, 1879, 1909, 1931);
  }

  lemma {:induction false} Row21Rolls()
    ensures Rolls(Row(20), 1931, 2029)
  {
    hide Rolls;
    Five(1931, 2, 4, 6, 6, 2);
    Five(1951, 6, 4, 2, 10, 6);
    Five(1979, 8, 6, 4, 2, 4);
    Five(2003, 8, 6, 4, 6, 2);
    FourRoll(Q(2, 4, 6, 6, 2), Q(6, 4, 2, 10, 6), Q(8, 6, 4, 2, 4), Q(8, 6, 4, 6, 2), 1931, 1951, 1979, 2003, 2029);
  }

  lemma {:induction false} Row22Rolls()
    ensures Rolls(Row(21), 2029, 2129)
  {
    hide Rolls;
    Five(2029, 4, 6, 2, 6, 6);
    Five(2053, 6, 4, 6, 2, 6);
    Five(2077, 4, 2, 4, 2, 10);
    Five(2099, 12, 2, 4, 2, 10);
    FourRoll(Q(4, 6, 2, 6, 6), Q(6, 4, 6, 2, 6), Q(4, 2, 4, 2, 10), Q(12, 2, 4, 2, 10), 2029, 2053, 2077, 2099, 2129);
  }

  lemma {:induction false} Row23Rolls()
    ensures Rolls(Row(22), 2129, 2227)
  {
    hide Rolls;
    Five(2129, 2, 6, 4, 2, 4);
    Five(2147, 6, 6, 2, 10, 2);
    Five(2173, 6, 4, 14, 4, 2);
    Five(2203, 4, 2, 4, 8, 6);
    FourRoll(Q(2, 6, 4, 2, 4), Q(6, 6, 2, 10, 2), Q(6, 4, 14, 4, 2), Q(4, 2, 4, 8, 6), 2129, 2147, 2173, 2203, 2227);
  }

  lemma {:induction false} Row24Rolls()
    ensures Rolls(Row(23), 2227, 2323)
  {
    hide Rolls;
    Five(2227, 4, 6, 2, 4, 6);
    Five(2249, 2, 6, 6, 4, 2);
    Five(2269, 4, 6, 2, 6, 4);
    Five(2291, 2, 4, 12, 2, 12);
    FourRoll(Q(4, 6, 2, 4, 6), Q(2, 6, 6, 4, 2), Q(4, 6, 2, 6, 4), Q(2, 4, 12, 2, 12), 2227, 2249, 2269, 2291, 2323);
  }

  /** Where each line begins. */
  function RowStart(k: nat): (p: nat)
    requires k <= ROW_COUNT
  {
    match k
    case 0 => 13
    case 1 => 101
    case 2 => 197
    case 3 => 293
    case 4 => 391
    case 5 => 491
    case 6 => 589
    case 7 => 683
    case 8 => 779
    case 9 => 877
    case 10 => 971
    case 11 => 1063
    case 12 => 1159
    case 13 => 1261
    case 14 => 1357
    case 15 => 1451
    case 16 => 1543
    case 17 => 1643
    case 18 => 1739
    case 19 => 1831
    case 20 => 1931
    case 21 => 2029
    case 22 => 2129
    case 23 => 2227
    case _ => 2323
  }

  lemma {:induction false} RowRolls(k: nat)
    requires k < ROW_COUNT
    ensures Rolls(Row(k), RowStart(k), RowStart(k + 1))
  {
    hide Rolls, Row;
    match k
    case 0 => Row01Rolls();
    case 1 => Row02Rolls();
    case 2 => Row03Rolls();
    case 3 => Row04Rolls();
    case 4 => Row05Rolls();
    case 5 => Row06Rolls();
    case 6 => Row07Rolls();
    case 7 => Row08Rolls();
    case 8 => Row09Rolls();
    case 9 => Row10Rolls();
    case 10 => Row11Rolls();
    case 11 => Row12Rolls();
    case 12 => Row13Rolls();
    case 13 => Row14Rolls();
    case 14 => Row15Rolls();
    case 15 => Row16Rolls();
    case 16 => Row17Rolls();
    case 17 => Row18Rolls();
    case 18 => Row19Rolls();
    case 19 => Row20Rolls();
    case 20 => Row21Rolls();
    case 21 => Row22Rolls();
    case 22 => Row23Rolls();
    case _ => Row24Rolls();
  }

  lemma {:induction false} RowsRoll(k: nat)
    requires k <= ROW_COUNT
    ensures Rolls(RowsFrom(k), RowStart(k), RowStart(ROW_COUNT))
    decreases ROW_COUNT - k
  {
    hide Rolls, Row, RowStart;
    if k == ROW_COUNT {
      RollsNowhere(RowStart(ROW_COUNT));
    } else {
      RowsRoll(k + 1);
      RowRolls(k);
      RollsConcat(Row(k), RowsFrom(k + 1), RowStart(k), RowStart(k + 1), RowStart(ROW_COUNT));
    }
  }

  lemma RollsNowhere(p: nat)
    ensures Rolls([], p, p)
  {
    assert Leads([], [p]);
  }

  /** The wheel: 480 steps lead from 13 to 13 + 2310, over numbers with a divisor
      of 2310 only. */
  lemma {:induction false} CycleRolls()
    ensures Rolls(Cycle(), 13, 13 + 2310) && |Cycle()| == ROW_COUNT * ROW_SIZE
  {
    hide Rolls, Row;
    RowsRoll(0);
    RowsSize(0);
  }

  lemma {:induction false} RowSize(k: nat)
    requires k < ROW_COUNT
    ensures |Row(k)| == ROW_SIZE && forall i | 0 <= i < ROW_SIZE :: Row(k)[i] % 2 == 0 && 2 <= Row(k)[i] <= 14
  {
    hide Gap;
    RowRolls(k);
    var at: seq<nat> :| Leads(Row(k), at) && at[0] == RowStart(k) && at[|Row(k)|] == RowStart(k + 1);
    forall i | 0 <= i < ROW_SIZE ensures Row(k)[i] % 2 == 0 && 2 <= Row(k)[i] <= 14 {
      GapSize(at[i], Row(k)[i]);
    }
  }

  lemma GapSize(p: nat, g: nat)
    requires Gap(p, g)
    ensures g % 2 == 0 && 2 <= g <= 14
  {
  }

  lemma {:induction false} RowsSize(k: nat)
    requires k <= ROW_COUNT
    ensures |RowsFrom(k)| == ROW_SIZE * (ROW_COUNT - k)
    decreases ROW_COUNT - k
  {
    hide Row;
    if k < ROW_COUNT {
      RowsSize(k + 1);
    }
  }

  /** What a step passes over has a small divisor. */
  lemma InGap(p: nat, g: nat, d: nat)
    requires Gap(p, g) && p < d < p + g
    ensures HasSmall(d)
  {
    hide HasSmall;
    OddStart(p, g);
    var k := d - p;
    if k % 2 == 1 {
      assert d % 2 == 0;
      EvenIsSmall(d);
    } else {
      assert k == 2 || k == 4 || k == 6 || k == 8 || k == 10 || k == 12;
    }
  }

  lemma OddStart(p: nat, g: nat)
    requires Gap(p, g)
    ensures p % 2 == 1
  {
  }

  lemma EvenIsSmall(d: nat)
    ensures d % 2 == 0 ==> HasSmall(d)
  {
  }

  /** One turn of the wheel stops at exactly the numbers without a small divisor. */
  lemma {:induction false} StopsExactly(at: seq<nat>, d: nat)
    requires Leads(Cycle(), at) && at[0] == 13 <= d < at[|Cycle()|]
    ensures (exists i | 0 <= i < |Cycle()| :: at[i] == d) <==> !HasSmall(d)
  {
    hide Cycle, HasSmall, Gap;
    if i :| 0 <= i < |Cycle()| && at[i] == d {
      GapStarts(at[i], Cycle()[i]);
    } else if !HasSmall(d) {
      NotPassed(Cycle(), at, |Cycle()|, d);
    }
  }

  lemma GapStarts(p: nat, g: nat)
    requires Gap(p, g)
    ensures !HasSmall(p)
  {
  }

  lemma {:induction false} NotPassed(steps: seq<nat>, at: seq<nat>, n: nat, d: nat)
    requires Leads(steps, at) && n <= |steps| && at[0] <= d < at[n] && !HasSmall(d)
    ensures exists i | 0 <= i < n :: at[i] == d
  {
    hide HasSmall, Gap;
    if n > 0 {
      var i := n - 1;
      assert at[i + 1] == at[i] + steps[i] && Gap(at[i], steps[i]);
      if d < at[i] {
        NotPassed(steps, at, i, d);
      } else if d > at[i] {
        InGap(at[i], steps[i], d);
      }
    }
  }
}
