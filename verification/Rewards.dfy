/** PoP rewards: how much a block pays for its endorsements, and how that is split between the
    miners who made them. Amounts are fixed-point numbers with eight decimals in 256-bit words. */
module Rewards {
  import opened Numbers
  import opened Word256
  import opened Wrappers

  // ---------------------------------------------------------------- fixed-point numbers

  /** The number 1.0. */
  const ONE: nat := 100_000_000

  const TWO64: nat := 0x1_0000_0000_0000_0000
  const TWO128: nat := 0x1_0000000000000000_0000000000000000
  const TWO192: nat := 0x1_0000000000000000_0000000000000000_0000000000000000

  function Plus(a: nat, b: nat): nat {
    Wrap(a + b)
  }

  function Minus(a: nat, b: nat): nat {
    Wrap(a - b)
  }

  function Times(a: nat, b: nat): nat {
    Wrap(a * b) / ONE
  }

  function Over(a: nat, b: nat): nat
    requires b != 0
  {
    DivShrinks(Wrap(a * ONE), b);
    Wrap(a * ONE) / b
  }

  // ---------------------------------------------------------------- parameters

  datatype Params = Params(
    startOfSlope: nat, slopeNormal: nat, slopeKeystone: nat,
    keystoneRound: nat, payoutRounds: nat, flatScoreRound: nat, useFlatScoreRound: bool,
    maxScoreThresholdNormal: nat, maxScoreThresholdKeystone: nat,
    difficultyAveragingInterval: nat, roundRatios: seq<nat>, lookupTable: seq<nat>,
    keystoneInterval: nat)
  {
    /** Every number fits the 64-bit integer that it is converted through, and there is a
        keystone interval. */
    ghost predicate Valid() {
      && startOfSlope < TWO64 && slopeNormal < TWO64 && slopeKeystone < TWO64
      && maxScoreThresholdNormal < TWO64 && maxScoreThresholdKeystone < TWO64
      && (forall r <- roundRatios :: r < TWO64) && (forall w <- lookupTable :: w < TWO64)
      && keystoneInterval > 0 && difficultyAveragingInterval < TWO64
    }

    predicate IsKeystone(height: nat)
      requires keystoneInterval > 0
    {
      height % keystoneInterval == 0
    }

    function MaxScoreThreshold(round: nat): nat {
      if round == keystoneRound then maxScoreThresholdKeystone else maxScoreThresholdNormal
    }

    function Slope(round: nat): nat {
      if round == keystoneRound then slopeKeystone else slopeNormal
    }

    /** Whether a height lies in the first stretch of payout rounds after a keystone. */
    predicate IsFirstRoundAfterKeystone(height: nat)
      requires keystoneInterval > 0
    {
      payoutRounds == 0 || height % keystoneInterval / payoutRounds == 0
    }

    function Round(height: nat): nat
      requires keystoneInterval > 0
    {
      if IsKeystone(height) then keystoneRound
      else if payoutRounds <= 1 then 0
      else height % keystoneInterval % (payoutRounds - 1)
    }

    function ScoreMultiplier(relative: int): nat {
      if relative < 0 || relative >= |lookupTable| then 0 else lookupTable[relative]
    }

    predicate Flat(height: nat)
      requires keystoneInterval > 0
    {
      useFlatScoreRound && Round(height) == flatScoreRound && IsFirstRoundAfterKeystone(height)
    }
  }

  /** The rounds repeat from keystone to keystone, only keystones are paid as such when their
      round is a number of its own, and no other round reaches the last one. */
  lemma RoundsRepeat(p: Params, height: nat)
    requires p.keystoneInterval > 0
    ensures p.Round(height + p.keystoneInterval) == p.Round(height)
    ensures p.payoutRounds >= 2 && p.keystoneRound >= p.payoutRounds - 1 ==>
              (p.Round(height) == p.keystoneRound <==> p.IsKeystone(height))
    ensures !p.IsKeystone(height) && p.payoutRounds >= 2 ==> p.Round(height) < p.payoutRounds - 1
  {
    ModShift(height, 1, p.keystoneInterval);
  }

  // ---------------------------------------------------------------- the reward of a block

  /** One, less what the slope takes off for the part of the score above its start; the
      assertion on the score may fail. */
  function SlopeRatio(p: Params, score: nat, round: nat): (r: Option<nat>) {
    if score < p.startOfSlope then None
    else
      var decrease := Times(p.Slope(round), Minus(score, p.startOfSlope));
      Some(Minus(ONE, if decrease > ONE then ONE else decrease))
  }

  /** The score that counts: for the given difficulty, or one in a flat round. */
  function ScoreToDifficulty(p: Params, height: nat, score: nat, difficulty: nat): nat
    requires p.keystoneInterval > 0
  {
    if p.Flat(height) then Over(ONE, ONE)
    else Over(score, if difficulty < ONE then ONE else difficulty)
  }

  /** The score that the curve is taken at. */
  function Capped(p: Params, round: nat, s: nat): nat {
    if s > p.startOfSlope && s > p.MaxScoreThreshold(round) then p.MaxScoreThreshold(round) else s
  }

  /** The multiplier for a score past the start of the slope; below it there is no penalty. */
  function Penalty(p: Params, round: nat, s: nat): Option<nat> {
    if s > p.startOfSlope then SlopeRatio(p, Capped(p, round, s), round) else Some(ONE)
  }

  /** The reward of a block. Nothing comes back when an assertion fails or there is no ratio for
      the round. */
  function BlockReward(p: Params, height: nat, score: nat, difficulty: nat): (r: Option<nat>)
    requires p.keystoneInterval > 0
  {
    var round := p.Round(height);
    if !p.Flat(height) && score == 0 then Some(0)
    else if round >= |p.roundRatios| then None
    else
      var s := ScoreToDifficulty(p, height, score, difficulty);
      match Penalty(p, round, s)
      case None => None
      case Some(slope) => Some(Times(Times(slope, Capped(p, round, s)), p.roundRatios[round]))
  }

  // ---------------------------------------------------------------- nothing wraps

  /** A product of two bounded factors. */
  lemma ProductBelow(a: nat, b: nat, x: nat, y: nat)
    requires a <= x && b <= y
    ensures a * b <= x * y
  {
    MulMonotone(a, x, b);
    MulMonotone(b, y, x);
  }

  lemma TimesIsExact(a: nat, b: nat)
    requires a < TWO128 && b <= TWO64
    ensures Times(a, b) == a * b / ONE
  {
    hide Wrap, Modulus;
    ProductBelow(a, b, TWO128, TWO64);
    ModulusValue();
    WrapIsExact(a * b);
  }

  lemma OverIsExact(a: nat, b: nat)
    requires b != 0 && a < TWO192
    ensures Over(a, b) == a * ONE / b
  {
    hide Wrap, Modulus;
    ModulusValue();
    WrapIsExact(a * ONE);
  }

  /** What truncating division loses. */
  lemma Truncated(x: nat, d: nat)
    requires d > 0
    ensures x / d * d <= x < x / d * d + d
  {
  }

  lemma QuotientBound(x: nat, d: nat, q: nat)
    requires d > 0 && x <= q * d
    ensures x / d <= q
  {
    Truncated(x, d);
    if x / d > q {
      MulMonotone(q + 1, x / d, d);
    }
  }

  // ---------------------------------------------------------------- the reward curve

  /** The exact slope, in units of 1.0 squared: one, less the part of the score above the start
      times the slope of the round, and never below zero. */
  function ExactSlope(p: Params, round: nat, c: nat): nat {
    var decrease := p.Slope(round) * if c > p.startOfSlope then c - p.startOfSlope else 0;
    if decrease > ONE * ONE then 0 else ONE * ONE - decrease
  }

  /** A block has a reward unless its score counts, and there is no ratio for its round or the
      threshold lies below the start of the slope that the score has passed. */
  lemma RewardFailsIff(p: Params, height: nat, score: nat, difficulty: nat)
    requires p.Valid()
    ensures BlockReward(p, height, score, difficulty).None? <==>
            && (p.Flat(height) || score != 0)
            && (|| p.Round(height) >= |p.roundRatios|
                || p.MaxScoreThreshold(p.Round(height)) < p.startOfSlope
                   < ScoreToDifficulty(p, height, score, difficulty))
  {
  }

  /** The slope that is applied is the exact one, rounded up by less than one unit. */
  lemma SlopeIsRounded(p: Params, c: nat, round: nat)
    requires p.Valid() && p.startOfSlope <= c < TWO64
    ensures var slope := SlopeRatio(p, c, round).value;
            slope <= ONE && ExactSlope(p, round, c) <= slope * ONE < ExactSlope(p, round, c) + ONE
  {
    hide Wrap, Times, Minus;
    var k, x := p.Slope(round), c - p.startOfSlope;
    MinusIsExact(c, p.startOfSlope);
    TimesIsExact(k, x);
    Truncated(k * x, ONE);
    MinusIsExact(ONE, if k * x / ONE > ONE then ONE else k * x / ONE);
  }

  lemma MinusIsExact(a: nat, b: nat)
    requires b <= a < TWO192
    ensures Minus(a, b) == a - b
  {
    hide Wrap, Modulus;
    ModulusValue();
    WrapIsExact(a - b);
  }

  lemma PenaltyIsRounded(p: Params, round: nat, s: nat)
    requires p.Valid() && Penalty(p, round, s).Some?
    ensures var slope, c := Penalty(p, round, s).value, Capped(p, round, s);
            c < TWO64 && slope <= ONE && ExactSlope(p, round, c) <= slope * ONE < ExactSlope(p, round, c) + ONE
  {
    if s > p.startOfSlope {
      if s <= p.MaxScoreThreshold(round) || p.startOfSlope <= p.MaxScoreThreshold(round) {
        SlopeIsRounded(p, Capped(p, round, s), round);
      }
    }
  }

  /** Two truncating products in a row, against the exact product of three factors. */
  lemma TwoProducts(slope: nat, c: nat, ratio: nat, t: nat, r: nat, exact: nat)
    requires exact <= slope * ONE < exact + ONE
    requires t == slope * c / ONE && r == t * ratio / ONE
    ensures exact * c * ratio - ONE * ONE * ratio - ONE * ONE * ONE <= r * ONE * ONE * ONE
    ensures r * ONE * ONE * ONE <= (exact + ONE) * c * ratio
  {
    Truncated(slope * c, ONE);
    Truncated(t * ratio, ONE);
    // From above.
    MulMonotone(t * ONE, slope * c, ratio);
    assert r * ONE * ONE <= t * ratio * ONE == t * ONE * ratio <= slope * c * ratio;
    MulMonotone(slope * ONE, exact + ONE, c * ratio);
    assert slope * ONE * (c * ratio) == slope * c * ratio * ONE by { Regroup(slope, c, ratio); }
    assert (exact + ONE) * (c * ratio) == (exact + ONE) * c * ratio by { MulAssoc(exact + ONE, c, ratio); }
    // From below.
    MulMonotone(slope * c, t * ONE + ONE, ratio);
    assert (t * ONE + ONE) * ratio == t * ratio * ONE + ONE * ratio;
    MulMonotone(exact, slope * ONE, c * ratio);
    MulAssoc(exact, c, ratio);
  }

  lemma Regroup(a: int, b: int, c: int)
    ensures a * ONE * (b * c) == a * b * c * ONE
  {
    MulAssoc(a, b, c);
  }

  /** The reward follows the curve: it is the exact product of slope, capped score and round
      ratio up to a loss of one unit in either truncation and a slope rounded up by one unit. */
  lemma RewardFollowsTheCurve(p: Params, height: nat, score: nat, difficulty: nat)
    requires p.Valid() && (p.Flat(height) || score != 0)
    requires BlockReward(p, height, score, difficulty).Some?
    ensures var round := p.Round(height);
            var c := Capped(p, round, ScoreToDifficulty(p, height, score, difficulty));
            var exact, ratio := ExactSlope(p, round, c), p.roundRatios[round];
            var r := BlockReward(p, height, score, difficulty).value;
            && exact * c * ratio - ONE * ONE * ratio - ONE * ONE * ONE <= r * ONE * ONE * ONE
            && r * ONE * ONE * ONE <= (exact + ONE) * c * ratio
  {
    hide Wrap, Times, Penalty, Capped, ScoreToDifficulty, ExactSlope;
    var round := p.Round(height);
    var s := ScoreToDifficulty(p, height, score, difficulty);
    var slope, c, ratio := Penalty(p, round, s).value, Capped(p, round, s), p.roundRatios[round];
    assert ratio in p.roundRatios;
    PenaltyIsRounded(p, round, s);
    TimesIsExact(slope, c);
    SmallTimes(slope, c);
    TimesIsExact(Times(slope, c), ratio);
    TwoProducts(slope, c, ratio, Times(slope, c), Times(Times(slope, c), ratio), ExactSlope(p, round, c));
  }

  /** A fraction of a number is no more than the number. */
  lemma SmallTimes(slope: nat, c: nat)
    requires slope <= ONE && c < TWO64
    ensures Times(slope, c) <= c
  {
    TimesIsExact(slope, c);
    MulMonotone(slope, ONE, c);
    QuotientBound(slope * c, ONE, c);
  }

  /** No block is paid more than the threshold times the ratio of its round, when the slope
      starts below the threshold. */
  lemma RewardIsCapped(p: Params, height: nat, score: nat, difficulty: nat)
    requires p.Valid() && p.startOfSlope <= p.MaxScoreThreshold(p.Round(height))
    requires BlockReward(p, height, score, difficulty).Some?
    ensures var r := BlockReward(p, height, score, difficulty).value;
            || r == 0
            || (p.Round(height) < |p.roundRatios|
                && r <= p.MaxScoreThreshold(p.Round(height)) * p.roundRatios[p.Round(height)] / ONE)
  {
    hide Wrap, Times, Penalty, ScoreToDifficulty, ExactSlope;
    var round := p.Round(height);
    if p.Flat(height) || score != 0 {
      var s := ScoreToDifficulty(p, height, score, difficulty);
      var slope, c, ratio := Penalty(p, round, s).value, Capped(p, round, s), p.roundRatios[round];
      assert ratio in p.roundRatios;
      PenaltyIsRounded(p, round, s);
      SmallTimes(slope, c);
      TimesIsExact(Times(slope, c), ratio);
      MulMonotone(Times(slope, c), p.MaxScoreThreshold(round), ratio);
      DivMonotone(Times(slope, c) * ratio, p.MaxScoreThreshold(round) * ratio, ONE);
    }
  }

  /** Whatever the parameters, a reward is well below the size of a word. */
  lemma RewardIsSmall(p: Params, height: nat, score: nat, difficulty: nat)
    requires p.Valid() && BlockReward(p, height, score, difficulty).Some?
    ensures BlockReward(p, height, score, difficulty).value < TWO128
  {
    hide Wrap, Times, Penalty, ScoreToDifficulty, ExactSlope, Capped;
    var round := p.Round(height);
    if p.Flat(height) || score != 0 {
      var s := ScoreToDifficulty(p, height, score, difficulty);
      var slope, c, ratio := Penalty(p, round, s).value, Capped(p, round, s), p.roundRatios[round];
      assert ratio in p.roundRatios;
      PenaltyIsRounded(p, round, s);
      SmallTimes(slope, c);
      TimesIsExact(Times(slope, c), ratio);
      ProductBelow(Times(slope, c), ratio, TWO64, TWO64);
      QuotientBound(Times(slope, c) * ratio, ONE, TWO128 - 1);
    }
  }

  /** Past the threshold the reward depends on the score no more. */
  lemma RewardStopsAtTheThreshold(p: Params, height: nat, score: nat, score': nat, difficulty: nat)
    requires p.Valid() && score != 0 && score' != 0
    requires ScoreToDifficulty(p, height, score, difficulty) >= p.MaxScoreThreshold(p.Round(height)) > p.startOfSlope
    requires ScoreToDifficulty(p, height, score', difficulty) >= p.MaxScoreThreshold(p.Round(height))
    ensures BlockReward(p, height, score, difficulty) == BlockReward(p, height, score', difficulty)
  {
  }

  /** In a flat round that is not past the start of the slope, every block earns the round's
      ratio, whatever its score and the difficulty. */
  lemma FlatRewardIsTheRatio(p: Params, height: nat, score: nat, difficulty: nat)
    requires p.Valid() && p.Flat(height) && p.startOfSlope >= ONE && p.Round(height) < |p.roundRatios|
    ensures BlockReward(p, height, score, difficulty) == Some(p.roundRatios[p.Round(height)])
  {
    hide Wrap, Times;
    var ratio := p.roundRatios[p.Round(height)];
    assert ratio in p.roundRatios;
    OverIsExact(ONE, ONE);
    TimesIsExact(ONE, ONE);
    TimesIsExact(ONE, ratio);
  }

  // ---------------------------------------------------------------- where the curve rises

  /** The score times the exact slope at it. */
  function Curve(p: Params, round: nat, c: nat): nat {
    ExactSlope(p, round, c) * c
  }

  /** The penalty on the last unit of score below the threshold does not outweigh the unit; or
      the slope takes everything from the very first unit. */
  predicate Gentle(p: Params, round: nat, top: nat) {
    || p.Slope(round) * (2 * top - 1) <= ONE * ONE + p.Slope(round) * p.startOfSlope
    || (p.startOfSlope == 0 && p.Slope(round) >= ONE * ONE)
  }

  ghost predicate Rises(p: Params, round: nat, from: nat, to: nat) {
    forall c: nat, c': nat :: from <= c <= c' <= to ==> Curve(p, round, c) <= Curve(p, round, c')
  }

  lemma Increment(n: int, k: int, start: int, c: int)
    ensures (n - k * (c + 1 - start)) * (c + 1) - (n - k * (c - start)) * c == n + k * start - k * (2 * c + 1)
  {
    var y := k * (c - start);
    assert k * (c + 1 - start) == y + k;
    assert (n - (y + k)) * (c + 1) == (n - y) * c + (n - y) - k * c - k;
    assert y == k * c - k * start;
    assert k * (2 * c + 1) == k * c + k * c + k;
  }

  lemma ExactSlopeIs(p: Params, round: nat, c: nat)
    ensures c <= p.startOfSlope ==> ExactSlope(p, round, c) == ONE * ONE
    ensures c >= p.startOfSlope ==>
              var rest := ONE * ONE - p.Slope(round) * (c - p.startOfSlope);
              ExactSlope(p, round, c) == if rest < 0 then 0 else rest
  {
  }

  lemma GentleUnit(n: int, k: nat, start: nat, c: nat, top: nat)
    requires start <= c < top && k * (2 * top - 1) <= n + k * start
    ensures 0 <= n - k * (c + 1 - start) <= n - k * (c - start)
    ensures (n - k * (c - start)) * c <= (n - k * (c + 1 - start)) * (c + 1)
  {
    Increment(n, k, start, c);
    MulMonotone(2 * c + 1, 2 * top - 1, k);
    MulMonotone(c + 1, 2 * c + 1, k);
    assert k * (c + 1 - start) == k * (c + 1) - k * start;
    assert k * (c - start) == k * (c + 1) - k * start - k;
  }

  /** One more unit of score, below the top of a gentle curve. */
  lemma CurveStep(p: Params, round: nat, top: nat, c: nat)
    requires Gentle(p, round, top) && c < top
    ensures Curve(p, round, c) <= Curve(p, round, c + 1)
  {
    hide ExactSlope;
    var k, n, start := p.Slope(round), ONE * ONE, p.startOfSlope;
    ExactSlopeIs(p, round, c);
    ExactSlopeIs(p, round, c + 1);
    if c >= start {
      if k * (2 * top - 1) <= n + k * start {
        GentleUnit(n, k, start, c, top);
      } else if c > 0 {
        MulMonotone(1, c, k);
      }
    }
  }

  lemma {:induction false} CurveRises(p: Params, round: nat, top: nat, c: nat, c': nat)
    requires Gentle(p, round, top) && c <= c' <= top
    ensures Curve(p, round, c) <= Curve(p, round, c')
    decreases c'
  {
    hide Gentle, Curve;
    if c < c' {
      CurveRises(p, round, top, c, c' - 1);
      CurveStep(p, round, top, c' - 1);
    }
  }

  /** A curve that is not gentle falls: at the last unit, or to nothing before it. */
  lemma CurveFalls(p: Params, round: nat, top: nat)
    requires !Gentle(p, round, top) && p.startOfSlope < top
    ensures !Rises(p, round, p.startOfSlope, top)
  {
    hide ExactSlope;
    var k, n, start := p.Slope(round), ONE * ONE, p.startOfSlope;
    var c := top - 1;
    ExactSlopeIs(p, round, start);
    ExactSlopeIs(p, round, c);
    ExactSlopeIs(p, round, top);
    if n - k * (c - start) > 0 && c > 0 {
      Increment(n, k, start, c);
      LastUnitFalls(n, k, start, c);
      assert Curve(p, round, top) < Curve(p, round, c);
    } else if start > 0 {
      assert k * (start - start) == 0;
      assert Curve(p, round, c) == 0 < Curve(p, round, start);
    } else if c > 0 {
      ExactSlopeIs(p, round, 1);
      assert Curve(p, round, c) == 0 < Curve(p, round, 1);
    }
  }

  lemma LastUnitFalls(n: int, k: int, start: int, c: nat)
    requires n - k * (c - start) > 0 && c > 0 && k * (2 * c + 1) > n + k * start
    ensures (n - k * (c + 1 - start)) * (c + 1) < (n - k * (c - start)) * c
    ensures 0 < (n - k * (c - start)) * c
  {
    Increment(n, k, start, c);
    MulMonotone(1, c, n - k * (c - start));
  }

  /** Between the start of the slope and the threshold, and from zero as well, the curve is
      non-decreasing exactly when it is gentle. */
  lemma CurveRisesIff(p: Params, round: nat, top: nat)
    requires p.startOfSlope < top
    ensures Rises(p, round, p.startOfSlope, top) <==> Gentle(p, round, top)
    ensures Rises(p, round, 0, top) <==> Gentle(p, round, top)
  {
    hide Gentle, Curve;
    if Gentle(p, round, top) {
      forall c: nat, c': nat | c <= c' <= top
        ensures Curve(p, round, c) <= Curve(p, round, c')
      {
        CurveRises(p, round, top, c, c');
      }
    } else {
      CurveFalls(p, round, top);
    }
  }

  /** What truncation can make of the order of two rewards. */
  function Blur(ratio: nat, c: nat): nat {
    ONE * c * ratio + ONE * ONE * ratio + ONE * ONE * ONE
  }

  /** Two rewards stand to each other as the curve does, up to truncation. */
  lemma RewardsFollowTheCurve(p: Params, height: nat, score: nat, score': nat, difficulty: nat)
    requires p.Valid() && (p.Flat(height) || (score != 0 && score' != 0))
    requires BlockReward(p, height, score, difficulty).Some? && BlockReward(p, height, score', difficulty).Some?
    ensures var round := p.Round(height);
            var c := Capped(p, round, ScoreToDifficulty(p, height, score, difficulty));
            var c' := Capped(p, round, ScoreToDifficulty(p, height, score', difficulty));
            var ratio := p.roundRatios[round];
            var r, r' := BlockReward(p, height, score, difficulty).value, BlockReward(p, height, score', difficulty).value;
            (r - r') * (ONE * ONE * ONE) <= (Curve(p, round, c) - Curve(p, round, c')) * ratio + Blur(ratio, c)
  {
    hide BlockReward, ScoreToDifficulty, Capped, ExactSlope, Params.Round, Params.Flat;
    var round := p.Round(height);
    var c := Capped(p, round, ScoreToDifficulty(p, height, score, difficulty));
    var c' := Capped(p, round, ScoreToDifficulty(p, height, score', difficulty));
    RewardFailsIff(p, height, score, difficulty);
    var ratio := p.roundRatios[round];
    RewardFollowsTheCurve(p, height, score, difficulty);
    RewardFollowsTheCurve(p, height, score', difficulty);
    var r, r' := BlockReward(p, height, score, difficulty).value, BlockReward(p, height, score', difficulty).value;
    Difference(r, r', ExactSlope(p, round, c), c, ExactSlope(p, round, c'), c', ratio);
  }

  lemma Difference(r: nat, r': nat, e: nat, c: nat, e': nat, c': nat, ratio: nat)
    requires r * ONE * ONE * ONE <= (e + ONE) * c * ratio
    requires e' * c' * ratio - ONE * ONE * ratio - ONE * ONE * ONE <= r' * ONE * ONE * ONE
    ensures (r - r') * (ONE * ONE * ONE) <= (e * c - e' * c') * ratio + Blur(ratio, c)
  {
    assert (e + ONE) * c == e * c + ONE * c;
    assert (e * c + ONE * c) * ratio == e * c * ratio + ONE * c * ratio;
    assert (e * c - e' * c') * ratio == e * c * ratio - e' * c' * ratio;
  }

  /** On a gentle curve a higher score is not paid less, up to truncation. */
  lemma GentleRewardsRise(p: Params, height: nat, score: nat, score': nat, difficulty: nat)
    requires p.Valid() && (p.Flat(height) || 0 < score <= score')
    requires p.startOfSlope < p.MaxScoreThreshold(p.Round(height))
    requires Gentle(p, p.Round(height), p.MaxScoreThreshold(p.Round(height)))
    requires BlockReward(p, height, score, difficulty).Some? && BlockReward(p, height, score', difficulty).Some?
    requires ScoreToDifficulty(p, height, score, difficulty) <= ScoreToDifficulty(p, height, score', difficulty)
    ensures p.Round(height) < |p.roundRatios|
    ensures var c := Capped(p, p.Round(height), ScoreToDifficulty(p, height, score, difficulty));
            var r, r' := BlockReward(p, height, score, difficulty).value, BlockReward(p, height, score', difficulty).value;
            (r - r') * (ONE * ONE * ONE) <= Blur(p.roundRatios[p.Round(height)], c)
  {
    hide BlockReward, ScoreToDifficulty, Gentle, Curve, Params.Flat, Params.Round, Blur;
    var round := p.Round(height);
    var c := Capped(p, round, ScoreToDifficulty(p, height, score, difficulty));
    var c' := Capped(p, round, ScoreToDifficulty(p, height, score', difficulty));
    RewardFailsIff(p, height, score, difficulty);
    RewardsFollowTheCurve(p, height, score, score', difficulty);
    CurveRises(p, round, p.MaxScoreThreshold(round), c, c');
    MulMonotone(Curve(p, round, c) - Curve(p, round, c'), 0, p.roundRatios[round]);
  }

  /** Where the curve falls by more than truncation can hide, so does the reward. */
  lemma RewardFallsWithTheCurve(p: Params, height: nat, score: nat, score': nat, difficulty: nat)
    requires p.Valid() && (p.Flat(height) || (score != 0 && score' != 0))
    requires BlockReward(p, height, score, difficulty).Some? && BlockReward(p, height, score', difficulty).Some?
    requires p.Round(height) < |p.roundRatios|
    requires var round := p.Round(height);
             var c := Capped(p, round, ScoreToDifficulty(p, height, score, difficulty));
             var c' := Capped(p, round, ScoreToDifficulty(p, height, score', difficulty));
             (Curve(p, round, c) - Curve(p, round, c')) * p.roundRatios[round] > Blur(p.roundRatios[round], c')
    ensures BlockReward(p, height, score', difficulty).value < BlockReward(p, height, score, difficulty).value
  {
    hide BlockReward, ScoreToDifficulty, Capped, Curve, Blur, Params.Flat, Params.Round;
    RewardsFollowTheCurve(p, height, score', score, difficulty);
    var round := p.Round(height);
    var c := Capped(p, round, ScoreToDifficulty(p, height, score, difficulty));
    var c' := Capped(p, round, ScoreToDifficulty(p, height, score', difficulty));
    var r, r' := BlockReward(p, height, score, difficulty).value, BlockReward(p, height, score', difficulty).value;
    NegatedProduct(Curve(p, round, c), Curve(p, round, c'), p.roundRatios[round]);
  }

  lemma NegatedProduct(a: int, b: int, x: int)
    ensures (b - a) * x == -((a - b) * x)
  {
  }

  /** The default parameters, with a keystone every five blocks; of the table the first entry. */
  const DEFAULTS := Params(100_000_000, 20_000_000, 21_325_000, 3, 4, 2, true, 200_000_000, 300_000_000, 50,
    [97_000_000, 103_000_000, 107_000_000, 300_000_000], [100_000_000], 5)

  /** By them the curve rises to the threshold in normal rounds, and does not for keystones. */
  lemma DefaultCurves()
    ensures Rises(DEFAULTS, 0, 100_000_000, 200_000_000)
    ensures !Rises(DEFAULTS, 3, 100_000_000, 300_000_000)
  {
    hide Rises;
    CurveRisesIff(DEFAULTS, 0, 200_000_000);
    CurveRisesIff(DEFAULTS, 3, 300_000_000);
  }

  lemma DefaultRounds()
    ensures DEFAULTS.Round(0) == 3 && !DEFAULTS.Flat(0) && DEFAULTS.Round(3) == 0 && !DEFAULTS.Flat(3)
    ensures DEFAULTS.Slope(3) == 21_325_000 && DEFAULTS.MaxScoreThreshold(3) == 3 * ONE
    ensures DEFAULTS.Slope(0) == 20_000_000 && DEFAULTS.MaxScoreThreshold(0) == 2 * ONE
  {
  }

  /** What a keystone earns by the default parameters, at a score between 1.0 and 3.0. */
  lemma KeystoneReward(score: nat)
    requires ONE < score <= 3 * ONE
    ensures var slope := ONE - 21_325_000 * (score - ONE) / ONE;
            BlockReward(DEFAULTS, 0, score, ONE) == Some(slope * score / ONE * 3)
  {
    hide Wrap, Times, Minus, Over, Params.Round, Params.Flat, Params.Slope, Params.MaxScoreThreshold;
    DefaultRounds();
    var decrease := 21_325_000 * (score - ONE) / ONE;
    OverIsExact(score, ONE);
    MinusIsExact(score, ONE);
    TimesIsExact(21_325_000, score - ONE);
    MinusIsExact(ONE, decrease);
    TimesIsExact(ONE - decrease, score);
    MulMonotone(ONE - decrease, ONE, score);
    TimesIsExact((ONE - decrease) * score / ONE, 3 * ONE);
  }

  /** The reward need not grow with the score up to the threshold: by the default parameters a
      keystone with score 3.0 earns less than one with score 2.85. */
  lemma KeystoneRewardFallsBeforeTheThreshold()
    ensures var r, r' := BlockReward(DEFAULTS, 0, 285_000_000, ONE), BlockReward(DEFAULTS, 0, 300_000_000, ONE);
            r.Some? && r'.Some? && r'.value < r.value
  {
    hide BlockReward;
    KeystoneReward(285_000_000);
    KeystoneReward(300_000_000);
  }

  /** What a block of round 0 earns by the default parameters, at a score between 1.0 and 2.0. */
  lemma NormalReward(score: nat)
    requires ONE < score <= 2 * ONE
    ensures var slope := ONE - 20_000_000 * (score - ONE) / ONE;
            BlockReward(DEFAULTS, 3, score, ONE) == Some(slope * score / ONE * 97_000_000 / ONE)
  {
    hide Wrap, Times, Minus, Over, Params.Round, Params.Flat, Params.Slope, Params.MaxScoreThreshold;
    DefaultRounds();
    var decrease := 20_000_000 * (score - ONE) / ONE;
    OverIsExact(score, ONE);
    MinusIsExact(score, ONE);
    TimesIsExact(20_000_000, score - ONE);
    MinusIsExact(ONE, decrease);
    TimesIsExact(ONE - decrease, score);
    MulMonotone(ONE - decrease, ONE, score);
    TimesIsExact((ONE - decrease) * score / ONE, 97_000_000);
  }

  /** Where the curve rises the rewards still need not: truncation can take a unit. */
  lemma RewardLosesAUnit()
    ensures Rises(DEFAULTS, 0, 100_000_000, 200_000_000) && DEFAULTS.Round(3) == 0
    ensures BlockReward(DEFAULTS, 3, 100_000_004, ONE) == Some(97_000_003)
    ensures BlockReward(DEFAULTS, 3, 100_000_005, ONE) == Some(97_000_002)
  {
    hide BlockReward, Rises;
    DefaultCurves();
    NormalReward(100_000_004);
    NormalReward(100_000_005);
  }

  // ---------------------------------------------------------------- scores

  /** An endorsement: the height of the best-chain VBK block that it was published in, if there
      is one; whether its ATV can be loaded; and whom it pays. */
  datatype Endorsement = Endorsement(publishedAt: Option<nat>, atvLoads: bool, payoutInfo: seq<int>)

  datatype Block = Block(height: nat, endorsedBy: seq<Endorsement>)

  /** The height of the first publication, or -1. */
  function Best(es: seq<Endorsement>): (best: int)
    ensures best >= -1
    ensures best == -1 <==> forall e <- es :: e.publishedAt.None?
    ensures best >= 0 ==> exists e <- es :: e.publishedAt == Some(best)
    ensures forall e <- es :: e.publishedAt.Some? ==> best <= e.publishedAt.value
  {
    if es == [] then -1
    else
      var best, last := Best(es[..|es| - 1]), es[|es| - 1];
      assert es == es[..|es| - 1] + [last];
      match last.publishedAt
      case None => best
      case Some(height) => if height < best || best < 0 then height else best
  }

  lemma BestNext(es: seq<Endorsement>, i: nat)
    requires i < |es|
    ensures var best, at := Best(es[..i]), es[i].publishedAt;
            Best(es[..i + 1]) == if at.None? || (0 <= best <= at.value) then best else at.value
  {
    assert es[..i + 1][..i] == es[..i];
  }

  method GetBestPublicationHeight(es: seq<Endorsement>) returns (best: int)
    ensures best == Best(es)
  {
    hide Best;
    best := -1;
    for i := 0 to |es|
      invariant best == Best(es[..i])
    {
      BestNext(es, i);
      if es[i].publishedAt.Some? {
        if es[i].publishedAt.value < best || best < 0 {
          best := es[i].publishedAt.value;
        }
      }
    }
    assert es[..|es|] == es;
  }

  /** The weight of one endorsement. */
  function Weight(p: Params, e: Endorsement, best: int): nat {
    match e.publishedAt
    case None => 0
    case Some(height) => p.ScoreMultiplier(height - best)
  }

  /** The sum of the weights. */
  function Weights(p: Params, es: seq<Endorsement>, best: int): nat {
    if es == [] then 0 else Weights(p, es[..|es| - 1], best) + Weight(p, es[|es| - 1], best)
  }

  function Score(p: Params, es: seq<Endorsement>): nat {
    if Best(es) < 0 then 0 else Weights(p, es, Best(es))
  }

  lemma WeightIsSmall(p: Params, e: Endorsement, best: int)
    requires p.Valid()
    ensures Weight(p, e, best) < TWO64
  {
    if e.publishedAt.Some? && 0 <= e.publishedAt.value - best < |p.lookupTable| {
      assert p.lookupTable[e.publishedAt.value - best] in p.lookupTable;
    }
  }

  lemma {:induction false} WeightsAreSmall(p: Params, es: seq<Endorsement>, best: int)
    requires p.Valid()
    ensures Weights(p, es, best) <= |es| * TWO64
  {
    if es != [] {
      WeightsAreSmall(p, es[..|es| - 1], best);
      WeightIsSmall(p, es[|es| - 1], best);
    }
  }

  lemma WeightsNext(p: Params, es: seq<Endorsement>, best: int, i: nat)
    requires i < |es|
    ensures Weights(p, es[..i + 1], best) == Weights(p, es[..i], best) + Weight(p, es[i], best)
  {
    assert es[..i + 1][..i] == es[..i];
  }

  lemma {:induction false} WeightsOfPrefix(p: Params, es: seq<Endorsement>, best: int, i: nat)
    requires i <= |es|
    ensures Weights(p, es[..i], best) <= Weights(p, es, best)
    decreases |es| - i
  {
    if i == |es| {
      assert es[..i] == es;
    } else {
      WeightsNext(p, es, best, i);
      WeightsOfPrefix(p, es, best, i + 1);
    }
  }

  lemma WrapSum(x: int, y: int)
    ensures Wrap(Wrap(x) + y) == Wrap(x + y)
  {
    hide Wrap, Modulus;
    WrapAdd(y, x);
  }

  /** The score of a block: the sum of the weights of its endorsements, each relative to the
      first publication, in one word. */
  method ScoreFromEndorsements(p: Params, es: seq<Endorsement>) returns (total: nat)
    ensures total == Wrap(Score(p, es))
  {
    hide Wrap, Modulus, Best;
    SmallWrap(0);
    total := 0;
    var best := GetBestPublicationHeight(es);
    if best < 0 {
      return;
    }
    for i := 0 to |es|
      invariant total == Wrap(Weights(p, es[..i], best))
    {
      WeightsNext(p, es, best, i);
      if es[i].publishedAt.Some? {
        WrapSum(Weights(p, es[..i], best), Weight(p, es[i], best));
        total := Plus(total, p.ScoreMultiplier(es[i].publishedAt.value - best));
      }
    }
    assert es[..|es|] == es;
  }

  /** With fewer than 2^64 endorsements the score does not wrap. */
  lemma ScoreFits(p: Params, es: seq<Endorsement>)
    requires p.Valid() && |es| < TWO64
    ensures Score(p, es) < TWO128 && Wrap(Score(p, es)) == Score(p, es)
  {
    hide Wrap, Modulus, Weights, Best;
    WeightsAreSmall(p, es, Best(es));
    MulMonotone(|es|, TWO64 - 1, TWO64);
    SmallWrap(Score(p, es));
  }

  // ---------------------------------------------------------------- difficulty

  /** The scores of the nearest blocks, added up. */
  function Scores(p: Params, blocks: seq<Block>): nat {
    if blocks == [] then 0 else Scores(p, blocks[..|blocks| - 1]) + Score(p, blocks[|blocks| - 1].endorsedBy)
  }

  function Nearest(p: Params, previous: seq<Block>): seq<Block> {
    if |previous| <= p.difficultyAveragingInterval then previous else previous[..p.difficultyAveragingInterval]
  }

  /** The mean score of the blocks before this one, nearest first, and never below one. There is
      none for an averaging interval of zero, by which nothing can be divided. */
  method CalculateDifficulty(p: Params, previous: seq<Block>) returns (difficulty: Option<nat>)
    ensures difficulty.None? <==> p.difficultyAveragingInterval == 0
    ensures difficulty.Some? ==>
              var mean := Over(Wrap(Scores(p, Nearest(p, previous))), p.difficultyAveragingInterval * ONE);
              difficulty.value == if mean < ONE then ONE else mean
  {
    hide Wrap, Modulus, Score;
    SmallWrap(0);
    var sum := 0;
    var i := 0;
    while i < p.difficultyAveragingInterval && i < |previous|
      invariant i <= p.difficultyAveragingInterval && i <= |previous|
      invariant sum == Wrap(Scores(p, previous[..i]))
    {
      assert previous[..i + 1][..i] == previous[..i];
      var score := ScoreFromEndorsements(p, previous[i].endorsedBy);
      WrapTwice(Scores(p, previous[..i]), Score(p, previous[i].endorsedBy));
      sum := Plus(sum, score);
      i := i + 1;
    }
    if p.difficultyAveragingInterval == 0 {
      return None;
    }
    assert previous[..i] == Nearest(p, previous);
    var mean := Over(sum, p.difficultyAveragingInterval * ONE);
    return Some(if mean < ONE then ONE else mean);
  }

  lemma WrapTwice(x: int, y: int)
    ensures Wrap(Wrap(x) + Wrap(y)) == Wrap(x + y)
  {
    hide Wrap, Modulus;
    WrapSum(x, Wrap(y));
    WrapAdd(x, y);
  }

  lemma {:induction false} ScoresAreSmall(p: Params, blocks: seq<Block>)
    requires p.Valid() && forall b <- blocks :: |b.endorsedBy| < TWO64
    ensures Scores(p, blocks) <= |blocks| * TWO128
  {
    if blocks != [] {
      ScoresAreSmall(p, blocks[..|blocks| - 1]);
      ScoreFits(p, blocks[|blocks| - 1].endorsedBy);
    }
  }

  /** The division by the interval as a fixed-point number is the plain one. */
  lemma MeanIsExact(p: Params, previous: seq<Block>)
    requires p.Valid() && p.difficultyAveragingInterval > 0 && forall b <- previous :: |b.endorsedBy| < TWO64
    ensures var sum := Scores(p, Nearest(p, previous));
            Over(Wrap(sum), p.difficultyAveragingInterval * ONE) == sum / p.difficultyAveragingInterval
  {
    hide Wrap, Scores;
    var sum, n := Scores(p, Nearest(p, previous)), p.difficultyAveragingInterval;
    ScoresAreSmall(p, Nearest(p, previous));
    MulMonotone(|Nearest(p, previous)|, TWO64 - 1, TWO128);
    SmallWrap(sum);
    OverIsExact(sum, n * ONE);
    SameQuotient(sum, n);
  }

  lemma SmallWrap(x: nat)
    requires x < TWO192 * ONE
    ensures Wrap(x) == x
  {
    hide Wrap, Modulus;
    ModulusValue();
    WrapIsExact(x);
  }

  lemma SameQuotient(x: nat, n: nat)
    requires n > 0
    ensures x * ONE / (n * ONE) == x / n
  {
    Truncated(x, n);
    var q, r := x / n, x % n;
    assert x == q * n + r;
    assert x * ONE == q * (n * ONE) + r * ONE by { MulAssoc(q, n, ONE); }
    DivModUnique(x * ONE, n * ONE, q, r * ONE);
  }

  // ---------------------------------------------------------------- payouts

  type Payouts = map<seq<int>, nat>

  datatype PayoutResult = Paid(payouts: Payouts) | CannotLoadAtv(payouts: Payouts) | Aborted

  function MinerReward(p: Params, relative: int, score: nat, blockReward: nat): nat {
    if score == 0 then 0 else Over(Times(blockReward, p.ScoreMultiplier(relative)), score)
  }

  function PaidTo(m: Payouts, who: seq<int>): nat {
    if who in m then m[who] else 0
  }

  /** An entry is a 64-bit counter; it gets the low 64 bits of the reward. */
  function Credited(m: Payouts, who: seq<int>, reward: nat): Payouts {
    m[who := (PaidTo(m, who) + reward % TWO64) % TWO64]
  }

  /** The payouts after the first endorsements have been paid. */
  function PaidFor(p: Params, es: seq<Endorsement>, best: int, score: nat, blockReward: nat, start: Payouts): Payouts {
    if es == [] then start
    else
      var before, e := PaidFor(p, es[..|es| - 1], best, score, blockReward, start), es[|es| - 1];
      match e.publishedAt
      case None => before
      case Some(height) => Credited(before, e.payoutInfo, MinerReward(p, height - best, score, blockReward))
  }

  predicate Loads(e: Endorsement) {
    e.publishedAt.Some? ==> e.atvLoads
  }

  /** The first endorsement whose ATV is needed and cannot be loaded. */
  function FirstMissing(es: seq<Endorsement>): (i: nat)
    ensures i <= |es| && (forall k :: 0 <= k < i ==> Loads(es[k])) && (i < |es| ==> !Loads(es[i]))
  {
    if es == [] || !Loads(es[0]) then 0 else 1 + FirstMissing(es[1..])
  }

  /** Pays the endorsements one after the other, until an ATV cannot be loaded. */
  method PayEndorsements(p: Params, es: seq<Endorsement>, best: int, score: nat, blockReward: nat, rewards: Payouts)
    returns (payouts: Payouts, complete: bool)
    requires best == Best(es)
    ensures payouts == PaidFor(p, es[..FirstMissing(es)], best, score, blockReward, rewards)
    ensures complete == (FirstMissing(es) == |es|)
  {
    hide Best, MinerReward, Credited, FirstMissing;
    payouts := rewards;
    for i := 0 to |es|
      invariant i <= FirstMissing(es)
      invariant payouts == PaidFor(p, es[..i], best, score, blockReward, rewards)
    {
      assert es[..i + 1][..i] == es[..i];
      if es[i].publishedAt.Some? {
        if !es[i].atvLoads {
          return payouts, false;
        }
        var relativeHeight := es[i].publishedAt.value - best;
        assert relativeHeight >= 0 by { BestIsLowest(es, i); }
        payouts := Credited(payouts, es[i].payoutInfo, MinerReward(p, relativeHeight, score, blockReward));
      }
    }
    return payouts, true;
  }

  /** Pays for the endorsements of a block, on top of what is in the map already. */
  method CalculatePayoutsInner(p: Params, block: Block, score: nat, difficulty: nat, rewards: Payouts)
    returns (result: PayoutResult)
    requires p.keystoneInterval > 0
    ensures var es, best, reward := block.endorsedBy, Best(block.endorsedBy), BlockReward(p, block.height, score, difficulty);
            result == if best < 0 then Paid(map[])
                      else if reward.None? then Aborted
                      else
                        var payouts := PaidFor(p, es[..FirstMissing(es)], best, score, reward.value, rewards);
                        if FirstMissing(es) < |es| then CannotLoadAtv(payouts) else Paid(payouts)
  {
    hide Best, BlockReward, PaidFor, FirstMissing;
    var es := block.endorsedBy;
    var best := GetBestPublicationHeight(es);
    if best < 0 {
      return Paid(map[]);
    }
    var blockReward := BlockReward(p, block.height, score, difficulty);
    if blockReward.None? {
      return Aborted;
    }
    var payouts, complete := PayEndorsements(p, es, best, score, blockReward.value, rewards);
    return if complete then Paid(payouts) else CannotLoadAtv(payouts);
  }

  lemma BestIsLowest(es: seq<Endorsement>, i: nat)
    requires i < |es| && es[i].publishedAt.Some?
    ensures Best(es) <= es[i].publishedAt.value
  {
  }

  // ---------------------------------------------------------------- what the payouts add up to

  ghost function SumOver(m: Payouts, keys: set<seq<int>>): nat
    requires keys <= m.Keys
  {
    if keys == {} then 0
    else
      var k :| k in keys;
      m[k] + SumOver(m, keys - {k})
  }

  ghost function Total(m: Payouts): nat {
    SumOver(m, m.Keys)
  }

  /** Any key can be counted first. */
  lemma {:induction false} SumWithout(m: Payouts, keys: set<seq<int>>, k: seq<int>)
    requires keys <= m.Keys && k in keys
    ensures SumOver(m, keys) == m[k] + SumOver(m, keys - {k})
  {
    var j :| j in keys && SumOver(m, keys) == m[j] + SumOver(m, keys - {j});
    if j != k {
      SumWithout(m, keys - {j}, k);
      SumWithout(m, keys - {k}, j);
      assert keys - {j} - {k} == keys - {k} - {j};
    }
  }

  lemma {:induction false} SumUnchanged(m: Payouts, m': Payouts, keys: set<seq<int>>)
    requires keys <= m.Keys && keys <= m'.Keys && forall k <- keys :: m[k] == m'[k]
    ensures SumOver(m, keys) == SumOver(m', keys)
    decreases keys
  {
    if keys != {} {
      var k :| k in keys;
      SumWithout(m, keys, k);
      SumWithout(m', keys, k);
      SumUnchanged(m, m', keys - {k});
    }
  }

  lemma TotalAfterUpdate(m: Payouts, who: seq<int>, v: nat)
    ensures Total(m[who := v]) + PaidTo(m, who) == Total(m) + v
    ensures PaidTo(m, who) <= Total(m)
  {
    var m' := m[who := v];
    SumWithout(m', m'.Keys, who);
    SumUnchanged(m, m', m.Keys - {who});
    assert m'.Keys - {who} == m.Keys - {who};
    if who in m {
      SumWithout(m, m.Keys, who);
    } else {
      assert m.Keys - {who} == m.Keys;
    }
  }

  /** Crediting adds no more than the reward, and exactly the reward when the sum of all fits 64
      bits. */
  lemma TotalAfterCredit(m: Payouts, who: seq<int>, reward: nat)
    ensures Total(Credited(m, who, reward)) <= Total(m) + reward
    ensures Total(m) + reward < TWO64 ==> Total(Credited(m, who, reward)) == Total(m) + reward
  {
    hide SumOver, Total;
    var v := (PaidTo(m, who) + reward % TWO64) % TWO64;
    TotalAfterUpdate(m, who, v);
  }

  /** One miner's share, between the two truncations. */
  lemma ShareBounds(p: Params, relative: int, score: nat, blockReward: nat)
    requires p.Valid() && 0 < score && blockReward < TWO128
    ensures var w, share := p.ScoreMultiplier(relative), MinerReward(p, relative, score, blockReward);
            blockReward * w - (ONE - 1) - (score - 1) <= share * score <= blockReward * w
  {
    hide Times, Over, Wrap;
    var w := p.ScoreMultiplier(relative);
    if 0 <= relative < |p.lookupTable| {
      assert w in p.lookupTable;
    }
    TimesIsExact(blockReward, w);
    ProductBelow(blockReward, w, TWO128, TWO64);
    ShareOfProduct(blockReward * w, score);
  }

  lemma ShareOfProduct(x: nat, score: nat)
    requires 0 < score && x <= TWO128 * TWO64
    ensures var share := Over(x / ONE, score);
            x - (ONE - 1) - (score - 1) <= share * score <= x
  {
    hide Over;
    Truncated(x, ONE);
    OverIsExact(x / ONE, score);
    Truncated(x / ONE * ONE, score);
  }

  function Counted(es: seq<Endorsement>): nat {
    if es == [] then 0 else Counted(es[..|es| - 1]) + if es[|es| - 1].publishedAt.Some? then 1 else 0
  }

  /** What has been paid for the first endorsements is at most their part of the reward. */
  lemma {:induction false} PaidAtMost(p: Params, es: seq<Endorsement>, best: int, score: nat, blockReward: nat)
    requires p.Valid() && 0 < score && blockReward < TWO128
    ensures Total(PaidFor(p, es, best, score, blockReward, map[])) * score <= blockReward * Weights(p, es, best)
  {
    hide Total, Credited, MinerReward, Params.ScoreMultiplier;
    if es == [] {
      NothingPaid();
    } else {
      var i := |es| - 1;
      var before := PaidFor(p, es[..i], best, score, blockReward, map[]);
      PaidAtMost(p, es[..i], best, score, blockReward);
      if es[i].publishedAt.Some? {
        var relative := es[i].publishedAt.value - best;
        var share := MinerReward(p, relative, score, blockReward);
        ShareBounds(p, relative, score, blockReward);
        TotalAfterCredit(before, es[i].payoutInfo, share);
        AddShares(Total(before), share, score, blockReward, Weights(p, es[..i], best), p.ScoreMultiplier(relative));
        MulMonotone(Total(PaidFor(p, es, best, score, blockReward, map[])), Total(before) + share, score);
      }
    }
  }

  lemma NothingPaid()
    ensures Total(map[]) == 0
  {
  }

  /** And at least that part less the truncations, when the reward fits 64 bits. */
  lemma {:induction false} PaidAtLeast(p: Params, es: seq<Endorsement>, best: int, score: nat, blockReward: nat)
    requires p.Valid() && 0 < score && blockReward < TWO64 && Weights(p, es, best) <= score
    ensures Total(PaidFor(p, es, best, score, blockReward, map[])) * score
            >= blockReward * Weights(p, es, best) - Counted(es) * (ONE + score - 2)
  {
    hide Total, Credited, MinerReward, Params.ScoreMultiplier;
    if es == [] {
      NothingPaid();
    } else {
      var i := |es| - 1;
      var before := PaidFor(p, es[..i], best, score, blockReward, map[]);
      PaidAtLeast(p, es[..i], best, score, blockReward);
      if es[i].publishedAt.Some? {
        var relative := es[i].publishedAt.value - best;
        var share := MinerReward(p, relative, score, blockReward);
        ShareBounds(p, relative, score, blockReward);
        PaidAtMost(p, es[..i], best, score, blockReward);
        var part, w := Weights(p, es[..i], best), p.ScoreMultiplier(relative);
        AddShares(Total(before), share, score, blockReward, part, w);
        AtMostTheWhole(Total(before) + share, score, blockReward, part + w);
        TotalAfterCredit(before, es[i].payoutInfo, share);
        AddShortfalls(Total(before), share, score, blockReward, part, w, Counted(es[..i]), ONE + score - 2);
      }
    }
  }

  /** A part of the weights gets no more than the whole reward. */
  lemma AtMostTheWhole(paid: nat, score: nat, reward: nat, part: nat)
    requires paid * score <= reward * part && part <= score && score > 0
    ensures paid <= reward
  {
    MulMonotone(part, score, reward);
    if paid > reward {
      MulMonotone(reward + 1, paid, score);
    }
  }

  lemma AddShares(before: nat, share: nat, score: nat, reward: nat, part: nat, w: nat)
    requires before * score <= reward * part && share * score <= reward * w
    ensures (before + share) * score <= reward * (part + w)
  {
  }

  lemma AddShortfalls(before: nat, share: nat, score: nat, reward: nat, part: nat, w: nat, n: nat, loss: int)
    requires before * score >= reward * part - n * loss && share * score >= reward * w - loss
    ensures (before + share) * score >= reward * (part + w) - (n + 1) * loss
  {
  }

  /** Conservation: the payouts for one block add up to no more than its reward. */
  lemma PayoutsWithinReward(p: Params, es: seq<Endorsement>, i: nat, blockReward: nat)
    requires p.Valid() && Best(es) >= 0 && blockReward < TWO128 && i <= |es|
    ensures Total(PaidFor(p, es[..i], Best(es), Score(p, es), blockReward, map[])) <= blockReward
  {
    hide Total, PaidFor, Weights, Best;
    var best, score := Best(es), Score(p, es);
    var paid := PaidFor(p, es[..i], best, score, blockReward, map[]);
    if score == 0 {
      NothingToShare(p, es[..i], best, blockReward);
    } else {
      PaidAtMost(p, es[..i], best, score, blockReward);
      WeightsOfPrefix(p, es, best, i);
      AtMostTheWhole(Total(paid), score, blockReward, Weights(p, es[..i], best));
    }
  }

  /** Without a score every miner gets nothing. */
  lemma {:induction false} NothingToShare(p: Params, es: seq<Endorsement>, best: int, blockReward: nat)
    ensures Total(PaidFor(p, es, best, 0, blockReward, map[])) == 0
  {
    hide Total, Credited;
    if es == [] {
      NothingPaid();
    } else {
      NothingToShare(p, es[..|es| - 1], best, blockReward);
      TotalAfterCredit(PaidFor(p, es[..|es| - 1], best, 0, blockReward, map[]), es[|es| - 1].payoutInfo, 0);
    }
  }

  /** The first publication counts in full, so the score is at least the first weight. */
  lemma {:induction false} FirstWeightCounts(p: Params, es: seq<Endorsement>, i: nat, best: int)
    requires i < |es| && es[i].publishedAt == Some(best)
    ensures Weights(p, es, best) >= p.ScoreMultiplier(0) && Counted(es) > 0
  {
    if i < |es| - 1 {
      FirstWeightCounts(p, es[..|es| - 1], i, best);
    }
  }

  /** Little is lost: when the first weight is at least one and the reward fits 64 bits, the
      payouts fall short of it by less than two units for each endorsement that counts. */
  lemma ShortfallIsSmall(p: Params, es: seq<Endorsement>, blockReward: nat)
    requires p.Valid() && Best(es) >= 0 && blockReward < TWO64
    requires |p.lookupTable| > 0 && p.lookupTable[0] >= ONE
    ensures blockReward - Total(PaidFor(p, es, Best(es), Score(p, es), blockReward, map[])) < 2 * Counted(es)
  {
    hide PaidFor, Total, Weights;
    var best, score, n := Best(es), Score(p, es), Counted(es);
    var e :| e in es && e.publishedAt == Some(best);
    var i :| 0 <= i < |es| && es[i] == e;
    FirstWeightCounts(p, es, i, best);
    PaidAtLeast(p, es, best, score, blockReward);
    var paid := Total(PaidFor(p, es, best, score, blockReward, map[]));
    CloseEnough(paid, blockReward, score, n);
  }

  lemma CloseEnough(paid: nat, reward: nat, score: nat, n: nat)
    requires paid * score >= reward * score - n * (ONE + score - 2) && n > 0 && score >= ONE
    ensures reward - paid < 2 * n
  {
    MulMonotone(1, n, score - ONE + 2);
    assert n * (2 * score) == n * (ONE + score - 2) + n * (score - ONE + 2);
    assert (reward - paid) * score == reward * score - paid * score;
    MulAssoc(n, 2, score);
    MulCancel(reward - paid, 2 * n, score);
  }

  /** Pays for one endorsed block from an empty map: by its score and by the mean score of the
      blocks before it. The sum of the payouts is capped by the threshold and the round ratio. */
  method CalculatePayouts(p: Params, block: Block, previous: seq<Block>) returns (result: PayoutResult)
    requires p.Valid() && |block.endorsedBy| < TWO64
    ensures !result.Aborted? && p.startOfSlope <= p.MaxScoreThreshold(p.Round(block.height))
            && p.Round(block.height) < |p.roundRatios| ==>
              Total(result.payouts) <= p.MaxScoreThreshold(p.Round(block.height)) * p.roundRatios[p.Round(block.height)] / ONE
    ensures result.Paid? && Best(block.endorsedBy) < 0 ==> result.payouts == map[]
    ensures p.difficultyAveragingInterval == 0 ==> result.Aborted?
  {
    hide Best, Score, Total, PaidFor, BlockReward, Wrap, Modulus;
    var score := ScoreFromEndorsements(p, block.endorsedBy);
    var difficulty := CalculateDifficulty(p, previous);
    if difficulty.None? {
      return Aborted;
    }
    result := CalculatePayoutsInner(p, block, score, difficulty.value, map[]);
    NothingPaid();
    ScoreFits(p, block.endorsedBy);
    var reward := BlockReward(p, block.height, score, difficulty.value);
    if Best(block.endorsedBy) >= 0 && reward.Some? {
      RewardIsSmall(p, block.height, score, difficulty.value);
      PayoutsWithinReward(p, block.endorsedBy, FirstMissing(block.endorsedBy), reward.value);
      if p.startOfSlope <= p.MaxScoreThreshold(p.Round(block.height)) {
        RewardIsCapped(p, block.height, score, difficulty.value);
      }
      assert block.endorsedBy[..|block.endorsedBy|] == block.endorsedBy;
    }
  }
}
