// Elo ratings over exact reals: 10^(d/400) is taken as g^d for a real g > 1.
module Elo {

  // g to the power d, for any integer d.
  function Power(g: real, d: int): (p: real)
    requires g > 1.0
    ensures p > 0.0
    decreases if d < 0 then -d else d
  {
    if d == 0 then 1.0 else if d > 0 then g * Power(g, d - 1) else Power(g, d + 1) / g
  }

  lemma PowerStep(g: real, d: int)
    requires g > 1.0
    ensures Power(g, d + 1) == g * Power(g, d)
  {
  }

  lemma {:induction false} PowerInverse(g: real, d: int)
    requires g > 1.0 && d >= 0
    ensures Power(g, d) * Power(g, -d) == 1.0
  {
    if d > 0 {
      PowerInverse(g, d - 1);
      var p, q := Power(g, d - 1), Power(g, -(d - 1));
      assert Power(g, -d) == q / g;
      assert (g * p) * (q / g) == p * q;
    }
  }

  lemma {:induction false} PowerGrows(g: real, d: int, e: int)
    requires g > 1.0 && d <= e
    ensures Power(g, d) <= Power(g, e)
    decreases e - d
  {
    if d < e {
      PowerGrows(g, d + 1, e);
      NextIsLarger(g, d);
    }
  }

  lemma Grows(g: real, p: real, q: real)
    requires g > 1.0 && p > 0.0 && q == g * p
    ensures q > p
  {
    Product(g - 1.0, p);
    assert q - p == (g - 1.0) * p;
  }

  lemma NextIsLarger(g: real, d: int)
    requires g > 1.0
    ensures Power(g, d + 1) > Power(g, d)
  {
    PowerStep(g, d);
    Grows(g, Power(g, d), Power(g, d + 1));
  }

  // The two laws that make it the power: sums of exponents multiply, and g to the 1 is g.
  lemma {:induction false} PowerSum(g: real, a: int, b: int)
    requires g > 1.0
    ensures Power(g, a + b) == Power(g, a) * Power(g, b)
    ensures Power(g, 1) == g
    decreases if a < 0 then -a else a
  {
    hide Power;
    FirstPowers(g);
    if a == 0 {
      assert a + b == b && 1.0 * Power(g, b) == Power(g, b);
    } else if a > 0 {
      PowerSum(g, a - 1, b);
      SumAbove(g, a - 1, b);
    } else {
      PowerSum(g, a + 1, b);
      SumBelow(g, a, b);
    }
  }

  lemma FirstPowers(g: real)
    requires g > 1.0
    ensures Power(g, 0) == 1.0 && Power(g, 1) == g
  {
    assert Power(g, 1) == g * Power(g, 0);
  }

  lemma SumAbove(g: real, a: int, b: int)
    requires g > 1.0 && Power(g, a + b) == Power(g, a) * Power(g, b)
    ensures Power(g, a + 1 + b) == Power(g, a + 1) * Power(g, b)
  {
    hide Power;
    PowerStep(g, a);
    PowerStep(g, a + b);
    assert a + b + 1 == a + 1 + b;
    StepUp(g, Power(g, a), Power(g, b), Power(g, a + b));
  }

  lemma SumBelow(g: real, a: int, b: int)
    requires g > 1.0 && Power(g, a + 1 + b) == Power(g, a + 1) * Power(g, b)
    ensures Power(g, a + b) == Power(g, a) * Power(g, b)
  {
    hide Power;
    PowerStep(g, a);
    PowerStep(g, a + b);
    assert a + b + 1 == a + 1 + b;
    StepDown(g, Power(g, a), Power(g, b), Power(g, a + b));
  }

  lemma StepUp(g: real, p: real, q: real, s: real)
    requires s == p * q
    ensures g * s == (g * p) * q
  {
    Regroup(g, p, q);
  }

  lemma StepDown(g: real, p: real, q: real, s: real)
    requires g > 0.0 && g * s == (g * p) * q
    ensures s == p * q
  {
    Regroup(g, p, q);
    Cancel(g, s, p * q);
  }

  lemma Regroup(x: real, y: real, z: real)
    ensures (x * y) * z == x * (y * z)
  {
  }

  lemma Cancel(g: real, x: real, y: real)
    requires g > 0.0 && g * x == g * y
    ensures x == y
  {
  }

  // getExpectedScore
  function Expected(g: real, player: int, opponent: int): (e: real)
    requires g > 1.0
    ensures 0.0 < e < 1.0
  {
    var p := Power(g, opponent - player);
    Fraction(p);
    1.0 / (1.0 + p)
  }

  lemma Fraction(p: real)
    requires p > 0.0
    ensures 0.0 < 1.0 / (1.0 + p) < 1.0
  {
  }

  // round: half away from zero.
  function Round(x: real): int {
    if x >= 0.0 then (x + 0.5).Floor else -((-x + 0.5).Floor)
  }

  lemma RoundIsOdd(x: real)
    ensures Round(-x) == -Round(x)
  {
  }

  // The nearest integer, and the one further from zero when there are two.
  lemma RoundIsNearest(x: real)
    ensures x - 0.5 <= Round(x) as real <= x + 0.5
    ensures x >= 0.0 ==> x - 0.5 < Round(x) as real
    ensures x <= 0.0 ==> Round(x) as real < x + 0.5
  {
  }

  lemma RoundMonotone(x: real, y: real)
    requires x <= y
    ensures Round(x) <= Round(y)
  {
  }

  // calculateEloChange
  function Change(g: real, player: int, opponent: int, score: int, k: nat): int
    requires g > 1.0
  {
    Points(k as real, score as real - Expected(g, player, opponent))
  }

  // Rounded points for a result that differs from the expected score by `surprise`.
  function Points(k: real, surprise: real): int {
    Round(k * surprise)
  }

  lemma PointsMonotone(k: real, x: real, y: real)
    requires k >= 0.0 && x <= y
    ensures Points(k, x) <= Points(k, y)
  {
    Scaled(k, x, y);
    RoundMonotone(k * x, k * y);
  }

  // The two expected scores of a game sum to 1.
  lemma ExpectedSum(g: real, a: int, b: int)
    requires g > 1.0
    ensures Expected(g, a, b) + Expected(g, b, a) == 1.0
  {
    if a <= b {
      PowerInverse(g, b - a);
      Complement(Power(g, b - a), Power(g, a - b));
    } else {
      PowerInverse(g, a - b);
      Complement(Power(g, b - a), Power(g, a - b));
    }
  }

  lemma Complement(p: real, q: real)
    requires p > 0.0 && q > 0.0 && p * q == 1.0
    ensures 1.0 / (1.0 + p) + 1.0 / (1.0 + q) == 1.0
  {
    assert (1.0 + p) * (1.0 + q) == 2.0 + p + q;
    var x, y := 1.0 / (1.0 + p), 1.0 / (1.0 + q);
    assert x * (1.0 + p) == 1.0 && y * (1.0 + q) == 1.0;
    assert (x + y) * ((1.0 + p) * (1.0 + q)) == (1.0 + q) + (1.0 + p);
  }

  // The expected scores of two players are as g to the power of their ratings.
  lemma OddsLaw(g: real, a: int, b: int)
    requires g > 1.0
    ensures Expected(g, a, b) * Power(g, b) == Expected(g, b, a) * Power(g, a)
  {
    hide Power, Expected;
    Ratio(g, a, b);
    Ratio(g, b, a);
    ExpectedIsShare(g, a, b);
    ExpectedIsShare(g, b, a);
    Odds(Power(g, a), Power(g, b), Power(g, b - a), Power(g, a - b), Expected(g, a, b), Expected(g, b, a));
  }

  lemma Ratio(g: real, a: int, b: int)
    requires g > 1.0
    ensures Power(g, b) == Power(g, b - a) * Power(g, a)
  {
    hide Power;
    PowerSum(g, b - a, a);
    assert b - a + a == b;
  }

  lemma ExpectedIsShare(g: real, a: int, b: int)
    requires g > 1.0
    ensures Expected(g, a, b) * (1.0 + Power(g, b - a)) == 1.0
  {
    hide Power;
  }

  lemma Odds(x: real, y: real, p: real, q: real, u: real, v: real)
    requires x > 0.0 && y > 0.0 && y == p * x && x == q * y && u * (1.0 + p) == 1.0 && v * (1.0 + q) == 1.0
    ensures u * y == v * x
  {
    assert (1.0 + p) * x == x + y && (1.0 + q) * y == x + y;
    ShareOf(u, 1.0 + p, x, x + y);
    ShareOf(v, 1.0 + q, y, x + y);
    Regroup(u, y, x + y);
    Regroup(v, x, x + y);
    CancelShares(u, v, x, y);
  }

  lemma CancelShares(u: real, v: real, x: real, y: real)
    requires x > 0.0 && y > 0.0 && u * (x + y) == x && v * (x + y) == y
    ensures u * y == v * x
  {
    var w := x + y;
    assert (u * y) * w == y * (u * w) && (v * x) * w == x * (v * w);
    Cancel(w, u * y, v * x);
  }

  // If u is 1 / w and w * x is the whole, then u of the whole is x.
  lemma ShareOf(u: real, w: real, x: real, whole: real)
    requires u * w == 1.0 && w * x == whole
    ensures u * whole == x
  {
    Regroup(u, w, x);
  }

  // What the winner gains is what the loser's own change at score 0 takes away.
  lemma ChangesCancel(g: real, winner: int, loser: int, k: nat)
    requires g > 1.0
    ensures Change(g, winner, loser, 1, k) == -Change(g, loser, winner, 0, k)
  {
    hide Expected, Points, Power;
    ExpectedSum(g, winner, loser);
    PointsAreOdd(k as real, 1.0 - Expected(g, winner, loser));
  }

  lemma PointsAreOdd(k: real, x: real)
    ensures Points(k, -x) == -Points(k, x)
  {
    assert k * -x == -(k * x);
    RoundIsOdd(k * x);
  }

  // A win gains between 0 and k points.
  lemma WinBounds(g: real, winner: int, loser: int, k: nat)
    requires g > 1.0
    ensures 0 <= Change(g, winner, loser, 1, k) <= k
  {
    hide Expected, Points, Power;
    PointsMonotone(k as real, 0.0, 1.0 - Expected(g, winner, loser));
    PointsMonotone(k as real, 1.0 - Expected(g, winner, loser), 1.0);
    PointsOfWholes(k);
  }

  lemma PointsOfWholes(k: nat)
    ensures Points(k as real, 0.0) == 0 && Points(k as real, 1.0) == k
  {
  }

  // The larger the winner's lead, the smaller the gain.
  lemma LeadShrinksGain(g: real, w1: int, l1: int, w2: int, l2: int, k: nat)
    requires g > 1.0 && w1 - l1 <= w2 - l2
    ensures Change(g, w1, l1, 1, k) >= Change(g, w2, l2, 1, k)
  {
    ExpectedGrows(g, w1, l1, w2, l2);
    hide Expected, Power, Points;
    PointsMonotone(k as real, 1.0 - Expected(g, w2, l2), 1.0 - Expected(g, w1, l1));
  }

  lemma ExpectedGrows(g: real, w1: int, l1: int, w2: int, l2: int)
    requires g > 1.0 && w1 - l1 <= w2 - l2
    ensures Expected(g, w1, l1) <= Expected(g, w2, l2)
  {
    hide Power;
    PowerGrows(g, l2 - w2, l1 - w1);
    Reciprocal(1.0 + Power(g, l2 - w2), 1.0 + Power(g, l1 - w1));
  }

  // A larger lead always means a larger expected score.
  lemma ExpectedGrowsStrictly(g: real, a: int, b: int, c: int, d: int)
    requires g > 1.0 && a - b < c - d
    ensures Expected(g, a, b) < Expected(g, c, d)
  {
    NextIsLarger(g, d - c);
    PowerGrows(g, d - c + 1, b - a);
    StrictReciprocal(1.0 + Power(g, d - c), 1.0 + Power(g, b - a));
  }

  lemma StrictReciprocal(x: real, y: real)
    requires 0.0 < x < y
    ensures 1.0 / y < 1.0 / x
  {
    Reciprocal(x, y);
    var u, v := 1.0 / x, 1.0 / y;
    assert u * x == 1.0 && v * y == 1.0;
    if u == v {
      Cancel(u, x, y);
    }
  }

  // The points of a win, told from the power of the lead alone: with p for Power(g, winner - loser), the change is the
  // integer nearest to k / (1 + p), the larger one of two.
  lemma WinPoints(g: real, winner: int, loser: int, k: nat)
    requires g > 1.0
    ensures var p, change := Power(g, winner - loser), Change(g, winner, loser, 1, k) as real;
            2.0 * k as real - (1.0 + p) < 2.0 * (1.0 + p) * change <= 2.0 * k as real + (1.0 + p)
  {
    hide Power, Expected, Points;
    ExpectedIsShare(g, loser, winner);
    ExpectedSum(g, winner, loser);
    PointsOfShare(k as real, Expected(g, loser, winner), 1.0 + Power(g, winner - loser));
  }

  lemma PointsOfShare(k: real, x: real, w: real)
    requires k >= 0.0 && x > 0.0 && w > 0.0 && x * w == 1.0
    ensures 2.0 * k - w < 2.0 * w * Points(k, x) as real <= 2.0 * k + w
  {
    var gain := k * x;
    assert Points(k, x) == Round(gain);
    hide Round, Points;
    Scaled(k, 0.0, x);
    RoundIsNearest(gain);
    Nearest(k, x, w, Points(k, x) as real);
  }

  lemma Nearest(k: real, x: real, w: real, change: real)
    requires w > 0.0 && x * w == 1.0 && k * x - 0.5 < change <= k * x + 0.5
    ensures 2.0 * k - w < 2.0 * w * change <= 2.0 * k + w
  {
    Regroup(k, x, w);
    var gain := k * x;
    Distribute(w, gain, change);
  }

  lemma Distribute(w: real, gain: real, change: real)
    requires w > 0.0 && gain - 0.5 < change <= gain + 0.5
    ensures 2.0 * (gain * w) - w < 2.0 * w * change <= 2.0 * (gain * w) + w
  {
    Product(change - gain + 0.5, w);
    Product(gain + 0.5 - change + 1.0, w);
    Scaled(w, change, gain + 0.5);
  }

  lemma Scaled(k: real, x: real, y: real)
    requires k >= 0.0 && x <= y
    ensures k * x <= k * y
  {
    assert k * (y - x) >= 0.0;
    assert k * (y - x) == k * y - k * x;
  }

  lemma Reciprocal(x: real, y: real)
    requires 0.0 < x <= y
    ensures 1.0 / y <= 1.0 / x
  {
    var u, v := 1.0 / x, 1.0 / y;
    assert u * x == 1.0 && v * y == 1.0;
    assert v * (y - x) >= 0.0;
    assert (v - u) * x <= 0.0;
    if v > u {
      Product(v - u, x);
    }
  }

  lemma Product(a: real, b: real)
    requires a > 0.0 && b > 0.0
    ensures a * b > 0.0
  {
  }

  // Equal ratings: the winner gains half of k, rounded up.
  lemma EvenGame(g: real, rating: int, k: nat)
    requires g > 1.0
    ensures Expected(g, rating, rating) == 0.5
    ensures Change(g, rating, rating, 1, k) == (k + 1) / 2
  {
    assert Power(g, 0) == 1.0;
    assert k as real * 0.5 + 0.5 == ((k + 1) as real) / 2.0;
    HalfFloor(k + 1);
  }

  lemma HalfFloor(n: nat)
    ensures ((n as real) / 2.0).Floor == n / 2
  {
    var h := n / 2;
    assert n == 2 * h || n == 2 * h + 1;
    assert h as real <= n as real / 2.0 < h as real + 1.0;
  }
}
