/**
 * The win percentage reported with a player's statistics: the share of won
 * games in per cent, rounded to the nearest integer with halves rounded up
 * (Math.round on a non-negative ratio), and 0 for a player who has not played.
 */
module WinPercentage {

  /**
   * Math.round(won / played * 100) on the exact ratio. The result is the
   * integer nearest to 100 * won / played, a half rounding up.
   */
  function RoundedPercent(won: nat, played: nat): (r: nat)
    requires played > 0
    ensures 2 * played * r <= 200 * won + played < 2 * played * (r + 1)
    ensures won <= played ==> r <= 100
  {
    var n, d := 200 * won + played, 2 * played;
    DivisionBounds(n, d);
    var q := n / d;
    if won <= played then
      BoundedQuotient(n, d, q, played);
      q
    else
      q
  }

  /** The percentage as getUserStats reports it: guarded against a player with no games. */
  function Percentage(won: nat, played: nat): (r: nat)
    ensures played == 0 ==> r == 0
    ensures played > 0 ==> 2 * played * r <= 200 * won + played < 2 * played * (r + 1)
    ensures won <= played ==> r <= 100
  {
    if played > 0 then RoundedPercent(won, played) else 0
  }

  lemma DivisionBounds(n: nat, d: nat)
    requires d > 0
    ensures d * (n / d) <= n < d * (n / d + 1)
  {
    assert n == d * (n / d) + n % d;
  }

  lemma BoundedQuotient(n: nat, d: nat, q: nat, played: nat)
    requires d == 2 * played && played > 0
    requires d * q <= n <= 201 * played
    ensures q <= 100
  {
    CancelFactor(d, q, 101);
  }

  /** A player who won every game has 100 per cent, one who won none 0 per cent. */
  lemma PercentageExtremes(played: nat)
    ensures Percentage(played, played) == (if played > 0 then 100 else 0)
    ensures Percentage(0, played) == 0
  {
    if played > 0 {
      QuotientIsUnique(200 * played + played, 2 * played, 100, played);
      QuotientIsUnique(played, 2 * played, 0, played);
    }
  }

  /** The Euclidean quotient is the only q with d * q <= n < d * (q + 1). */
  lemma QuotientIsUnique(n: nat, d: nat, q: nat, rem: nat)
    requires d > 0 && n == d * q + rem && rem < d
    ensures n / d == q
  {
    var k, r := n / d, n % d;
    assert n == d * k + r && 0 <= r < d;
    SameQuotient(d, k, r, q, rem);
  }

  /** Two ways of writing a number as d * quotient + remainder, remainders below d, have the same quotient. */
  lemma SameQuotient(d: nat, k: nat, r: nat, q: nat, rem: nat)
    requires d > 0 && r < d && rem < d
    requires d * k + r == d * q + rem
    ensures k == q
  {
    assert d * (q + 1) == d * q + d;
    assert d * (k + 1) == d * k + d;
    CancelFactor(d, k, q + 1);
    CancelFactor(d, q, k + 1);
  }

  /** Multiplying by a positive factor preserves strict order, so the factor cancels. */
  lemma CancelFactor(d: nat, a: nat, b: nat)
    requires d > 0 && d * a < d * b
    ensures a < b
  {
  }
}
