/**
The arithmetic of the universal-validator boost for one denomination.

Decimals are integers counting units of 10^-18, as in the fixed-point type of the
source. Powers and coin amounts are plain integers.
 */
module RewardSplit {
  import opened Arithmetic

  const ONE: nat := 1_000_000_000_000_000_000

  /** Boost multiplier 1.148 and extra portion 0.148 as decimals. */
  const MULTIPLIER: nat := 1_148_000_000_000_000_000
  const EXTRA: nat := 148_000_000_000_000_000

  /**
  What the staking and uvalidator lookups answer for a vote, and for a universal validator whether
  distribution accepts its reward.
   */
  datatype Lookup = Universal(credited: bool) | Plain | Missing

  datatype Vote = Vote(validator: string, power: nat, lookup: Lookup)

  // ---------- Fixed-point operations on non-negative decimals ----------

  /** Product rounded half to even. */
  function Mul(a: nat, b: nat): nat
  {
    var q, r := (a * b) / ONE, (a * b) % ONE;
    if 2 * r < ONE || (2 * r == ONE && q % 2 == 0) then q else q + 1
  }

  function MulTruncate(a: nat, b: nat): nat
  {
    (a * b) / ONE
  }

  function QuoTruncate(a: nat, b: nat): nat
    requires b > 0
  {
    (a * ONE) / b
  }

  /** An integer times a decimal loses nothing, however the product is rounded. */
  lemma IntegerProductExact(n: nat, b: nat)
    ensures Mul(n * ONE, b) == n * b && MulTruncate(n * ONE, b) == n * b
  {
    assert (n * ONE) * b == (n * b) * ONE;
    DivModUnique((n * b) * ONE, n * b, 0, ONE);
  }

  // ---------- The split ----------

  function TotalPower(votes: seq<Vote>): nat
  {
    if votes == [] then 0 else votes[0].power + TotalPower(votes[1..])
  }

  function UniversalPower(votes: seq<Vote>): nat
  {
    if votes == [] then 0
    else (if votes[0].lookup.Universal? then votes[0].power else 0) + UniversalPower(votes[1..])
  }

  function UniversalCount(votes: seq<Vote>): nat
  {
    if votes == [] then 0 else (if votes[0].lookup.Universal? then 1 else 0) + UniversalCount(votes[1..])
  }

  /** Effective power of one vote, as a decimal. */
  function Effective(v: Vote): nat
  {
    v.power * (if v.lookup.Universal? then MULTIPLIER else ONE)
  }

  function EffectiveTotal(votes: seq<Vote>): nat
  {
    if votes == [] then 0 else Effective(votes[0]) + EffectiveTotal(votes[1..])
  }

  /** The truncated fraction of the fees that boosts vote `v`. */
  function Fraction(v: Vote, e: nat): nat
    requires e > 0
  {
    if v.lookup.Universal? then QuoTruncate(v.power * EXTRA, e) else 0
  }

  /** Recorded boost of `v` out of `fees` base units, as a decimal. */
  function Boost(fees: nat, v: Vote, e: nat): nat
    requires e > 0
  {
    fees * Fraction(v, e)
  }

  function BoostTotal(fees: nat, votes: seq<Vote>, e: nat): nat
    requires e > 0
  {
    if votes == [] then 0 else Boost(fees, votes[0], e) + BoostTotal(fees, votes[1..], e)
  }

  /** Whole coins sent to distribution, and whole coins returned to the fee collector. */
  function Sent(fees: nat, votes: seq<Vote>): nat
    requires EffectiveTotal(votes) > 0
  {
    BoostTotal(fees, votes, EffectiveTotal(votes)) / ONE
  }

  function Returned(fees: nat, votes: seq<Vote>): int
    requires EffectiveTotal(votes) > 0
  {
    fees - Sent(fees, votes)
  }

  // ---------- Effective power ----------

  /** Effective power is the voting power plus 0.148 of the universal power, exactly. */
  lemma {:induction false} EffectiveIsWeighted(votes: seq<Vote>)
    ensures EffectiveTotal(votes) == ONE * TotalPower(votes) + EXTRA * UniversalPower(votes)
    ensures UniversalPower(votes) <= TotalPower(votes)
  {
    if votes != [] {
      EffectiveIsWeighted(votes[1..]);
    }
  }

  /** The zero-power guard makes every division well defined. */
  lemma PositivePowerDivides(votes: seq<Vote>)
    requires TotalPower(votes) > 0
    ensures EffectiveTotal(votes) > 0
  {
    EffectiveIsWeighted(votes);
  }

  // ---------- Truncation residues ----------

  /** What truncating one fraction lost, in units of 1/e. */
  function Residue(v: Vote, e: nat): nat
    requires e > 0
  {
    if v.lookup.Universal? then (v.power * EXTRA * ONE) % e else 0
  }

  function ResidueTotal(votes: seq<Vote>, e: nat): nat
    requires e > 0
  {
    if votes == [] then 0 else Residue(votes[0], e) + ResidueTotal(votes[1..], e)
  }

  lemma FractionPlusResidue(v: Vote, e: nat)
    requires e > 0
    ensures e * Fraction(v, e) + Residue(v, e) == (if v.lookup.Universal? then v.power else 0) * EXTRA * ONE
    ensures Residue(v, e) < e
  {
    DivMod(v.power * EXTRA * ONE, e);
  }

  lemma {:induction false} ResidueBound(votes: seq<Vote>, e: nat)
    requires e > 0
    ensures ResidueTotal(votes, e) <= UniversalCount(votes) * e
  {
    if votes != [] {
      ResidueBound(votes[1..], e);
      FractionPlusResidue(votes[0], e);
      Distribute(UniversalCount(votes[1..]), 1, e);
    }
  }

  lemma Distribute(a: int, b: int, c: int)
    ensures (a + b) * c == a * c + b * c
  {
  }

  /** e times the total boost is the exact boost less the fees times the residues. */
  lemma {:induction false} BoostIdentity(fees: nat, votes: seq<Vote>, e: nat)
    requires e > 0
    ensures e * BoostTotal(fees, votes, e) + fees * ResidueTotal(votes, e)
            == fees * (UniversalPower(votes) * EXTRA * ONE)
  {
    if votes != [] {
      var v, rest := votes[0], votes[1..];
      BoostIdentity(fees, rest, e);
      FractionPlusResidue(v, e);
      var u := if v.lookup.Universal? then v.power else 0;
      BoostStep(fees, e, Fraction(v, e), Residue(v, e), u * EXTRA * ONE,
                BoostTotal(fees, rest, e), ResidueTotal(rest, e), UniversalPower(rest) * EXTRA * ONE);
    }
  }

  lemma BoostStep(fees: nat, e: nat, t: nat, r: nat, x: nat, boosts: nat, residues: nat, xs: nat)
    requires e * t + r == x
    requires e * boosts + fees * residues == fees * xs
    ensures e * (fees * t + boosts) + fees * (r + residues) == fees * (x + xs)
  {
    assert e * (fees * t + boosts) == fees * (e * t) + e * boosts;
    assert fees * (r + residues) == fees * r + fees * residues;
    assert fees * (x + xs) == fees * x + fees * xs;
    assert fees * (e * t) + fees * r == fees * (e * t + r);
  }

  // ---------- Bound ----------

  /** The boosts never exceed 37/287 of the fees. */
  lemma BoostBound(fees: nat, votes: seq<Vote>)
    requires TotalPower(votes) > 0
    ensures EffectiveTotal(votes) > 0
    ensures 287 * BoostTotal(fees, votes, EffectiveTotal(votes)) <= 37 * fees * ONE
    ensures 287 * Sent(fees, votes) <= 37 * fees
    ensures 0 <= Returned(fees, votes) <= fees
  {
    PositivePowerDivides(votes);
    EffectiveIsWeighted(votes);
    var e, u, p := EffectiveTotal(votes), UniversalPower(votes), TotalPower(votes);
    var boosts := BoostTotal(fees, votes, e);
    BoostIdentity(fees, votes, e);
    assert e * boosts <= fees * (u * EXTRA * ONE) by { NonNegative(fees, ResidueTotal(votes, e)); }
    assert 148 * e >= 1148 * (u * EXTRA) by { assert e >= (ONE + EXTRA) * u; }
    CancelBound(fees, e, boosts, u * EXTRA);
    assert boosts == ONE * (boosts / ONE) + boosts % ONE;
  }

  /** The bound is tight: with universal validators only, the boosts miss it by at most one fraction unit each. */
  lemma BoostBoundIsTight(fees: nat, votes: seq<Vote>)
    requires TotalPower(votes) > 0 && forall v :: v in votes ==> v.lookup.Universal?
    ensures EffectiveTotal(votes) > 0
    ensures 287 * BoostTotal(fees, votes, EffectiveTotal(votes))
            >= 37 * fees * ONE - 287 * fees * UniversalCount(votes)
  {
    PositivePowerDivides(votes);
    EffectiveIsWeighted(votes);
    AllUniversal(votes);
    var e, u, n := EffectiveTotal(votes), UniversalPower(votes), UniversalCount(votes);
    var boosts, residues := BoostTotal(fees, votes, e), ResidueTotal(votes, e);
    BoostIdentity(fees, votes, e);
    ResidueBound(votes, e);
    assert 287 * (u * EXTRA) == 37 * e;
    hide *;
    TightStep(fees, e, boosts, residues, u * EXTRA, n);
  }

  lemma {:induction false} AllUniversal(votes: seq<Vote>)
    requires forall v :: v in votes ==> v.lookup.Universal?
    ensures UniversalPower(votes) == TotalPower(votes)
  {
    if votes != [] {
      assert votes[0] in votes && forall v :: v in votes[1..] ==> v in votes;
      AllUniversal(votes[1..]);
    }
  }

  lemma TightStep(fees: nat, e: nat, boosts: nat, residues: nat, x: nat, n: nat)
    requires e > 0 && e * boosts + fees * residues == fees * (x * ONE)
    requires residues <= n * e && 287 * x == 37 * e
    ensures 287 * boosts >= 37 * fees * ONE - 287 * fees * n
  {
    assert fees * residues <= fees * (n * e) by { MulMono(residues, n * e, fees); }
    assert 287 * (fees * (x * ONE)) == fees * (287 * x) * ONE == (37 * fees * ONE) * e;
    assert fees * (n * e) == (fees * n) * e;
    CancelFactor(e, 37 * fees * ONE, 287 * boosts + 287 * (fees * n));
  }

  lemma NonNegative(a: nat, b: nat)
    ensures a * b >= 0
  {
  }

  lemma CancelBound(fees: nat, e: nat, boosts: nat, x: nat)
    requires e > 0
    requires e * boosts <= fees * (x * ONE)
    requires 1148 * x <= 148 * e
    ensures 287 * boosts <= 37 * fees * ONE
  {
    // 1148 : 148 is 287 : 37.
    assert 287 * x <= 37 * e;
    assert fees * (287 * x) <= fees * (37 * e) by { MulMono(287 * x, 37 * e, fees); }
    assert 287 * (fees * (x * ONE)) == (fees * (287 * x)) * ONE;
    assert (fees * (37 * e)) * ONE == e * (37 * fees * ONE);
    assert e * (287 * boosts) <= e * (37 * fees * ONE);
    CancelFactor(e, 287 * boosts, 37 * fees * ONE);
  }

  lemma CancelFactor(e: nat, a: int, b: int)
    requires e > 0 && e * a <= e * b
    ensures a <= b
  {
    var d := a - b;
    assert e * d == e * a - e * b;
    assert d >= 1 ==> e * d >= e;
  }

  // ---------- Backing ----------

  /** Recorded rewards exceed the coins sent by less than one base unit. */
  lemma BackingGap(fees: nat, votes: seq<Vote>)
    requires EffectiveTotal(votes) > 0
    ensures 0 <= BoostTotal(fees, votes, EffectiveTotal(votes)) - ONE * Sent(fees, votes) < ONE
  {
    DivMod(BoostTotal(fees, votes, EffectiveTotal(votes)), ONE);
  }

  // ---------- Two stages against one weighted split ----------

  /** Share of `v` in a single split of the fees by effective power. */
  ghost function WeightedShare(fees: nat, v: Vote, votes: seq<Vote>): real
    requires EffectiveTotal(votes) > 0
  {
    fees as real * Effective(v) as real / EffectiveTotal(votes) as real
  }

  /** Boost plus the power-proportional share of what is returned to the fee collector. */
  ghost function TwoStageShare(fees: nat, v: Vote, votes: seq<Vote>): real
    requires EffectiveTotal(votes) > 0 && TotalPower(votes) > 0
  {
    Boost(fees, v, EffectiveTotal(votes)) as real / ONE as real
    + Returned(fees, votes) as real * v.power as real / TotalPower(votes) as real
  }

  /** The returned coins, scaled, are the unboosted share plus truncation residues. */
  lemma ReturnedIdentity(fees: nat, votes: seq<Vote>)
    requires TotalPower(votes) > 0
    ensures EffectiveTotal(votes) > 0
    ensures var e := EffectiveTotal(votes);
            e * ONE * Returned(fees, votes)
            == fees * ONE * (ONE * TotalPower(votes))
             + fees * ResidueTotal(votes, e)
             + e * (BoostTotal(fees, votes, e) % ONE)
  {
    PositivePowerDivides(votes);
    EffectiveIsWeighted(votes);
    var e, u, p := EffectiveTotal(votes), UniversalPower(votes), TotalPower(votes);
    var boosts, residues := BoostTotal(fees, votes, e), ResidueTotal(votes, e);
    BoostIdentity(fees, votes, e);
    DivMod(boosts, ONE);
    ReturnedStep(fees, e, ONE * p, EXTRA * u, boosts, residues, boosts / ONE, boosts % ONE);
  }

  lemma ReturnedStep(fees: nat, e: nat, base: nat, extra: nat, boosts: nat, residues: nat, sent: nat, frac: nat)
    requires e == base + extra
    requires e * boosts + fees * residues == fees * (extra * ONE)
    requires ONE * sent + frac == boosts
    ensures e * ONE * (fees - sent) == fees * ONE * base + fees * residues + e * frac
  {
    assert e * ONE * (fees - sent) == (e * fees) * ONE - e * (ONE * sent);
    assert e * (ONE * sent) == e * boosts - e * frac;
    assert (e * fees) * ONE == (base * fees) * ONE + (extra * fees) * ONE by { Distribute(base, extra, fees); }
  }

  /** Truncation losses that stay in the returned part, scaled by e. */
  function Loss(fees: nat, votes: seq<Vote>, e: nat): nat
    requires e > 0
  {
    fees * ResidueTotal(votes, e) + e * (BoostTotal(fees, votes, e) % ONE)
  }

  /** Over the common denominator e * 10^18 * p, two stages minus one split. */
  function Difference(fees: nat, e: nat, p: nat, q: nat, boost: nat, returned: int, w: nat): int
  {
    e * p * boost + e * ONE * returned * q - fees * w * ONE * p
  }

  /** The difference between the two splits, multiplied out, is truncation residues only. */
  lemma ShareIdentity(fees: nat, v: Vote, votes: seq<Vote>)
    requires TotalPower(votes) > 0
    ensures EffectiveTotal(votes) > 0
    ensures var e, p := EffectiveTotal(votes), TotalPower(votes);
            Difference(fees, e, p, v.power, Boost(fees, v, e), Returned(fees, votes), Effective(v))
            == v.power * Loss(fees, votes, e) - p * (fees * Residue(v, e))
  {
    PositivePowerDivides(votes);
    var e, p := EffectiveTotal(votes), TotalPower(votes);
    var x := if v.lookup.Universal? then v.power else 0;
    assert e * Fraction(v, e) + Residue(v, e) == (x * EXTRA) * ONE by { FractionPlusResidue(v, e); }
    assert Effective(v) == v.power * ONE + x * EXTRA;
    assert e * ONE * Returned(fees, votes) == fees * ONE * (ONE * p) + Loss(fees, votes, e) by { ReturnedIdentity(fees, votes); }
    hide *;
    ShareDifference(fees, e, p, v.power, x * EXTRA, Fraction(v, e), Residue(v, e), Loss(fees, votes, e),
                    Returned(fees, votes), Boost(fees, v, e), Effective(v));
  }

  lemma ShareDifference(fees: nat, e: nat, p: nat, q: nat, x: nat, t: nat, r: nat, loss: nat, returned: int, boost: nat, w: nat)
    requires e * t + r == x * ONE
    requires e * ONE * returned == fees * ONE * (ONE * p) + loss
    requires boost == fees * t && w == q * ONE + x
    ensures Difference(fees, e, p, q, boost, returned, w) == q * loss - p * (fees * r)
  {
    ShareStep(fees, e, p, q, x, t, r, loss, e * ONE * returned);
  }

  lemma ShareStep(fees: nat, e: nat, p: nat, power: nat, x: nat, t: nat, r: nat, loss: nat, scaled: int)
    requires e * t + r == x * ONE
    requires scaled == fees * ONE * (ONE * p) + loss
    ensures e * p * (fees * t) + scaled * power - fees * (power * ONE + x) * ONE * p
            == power * loss - p * (fees * r)
  {
    assert e * p * (fees * t) == (p * fees) * (e * t);
    assert (p * fees) * (e * t) == (p * fees) * (x * ONE) - (p * fees) * r by {
      assert e * t == x * ONE - r;
      assert (p * fees) * (x * ONE - r) == (p * fees) * (x * ONE) - (p * fees) * r;
    }
    assert (fees * ONE * (ONE * p) + loss) * power == fees * ONE * (ONE * p) * power + loss * power;
    assert fees * (power * ONE + x) * ONE * p == fees * (power * ONE) * ONE * p + fees * x * ONE * p by {
      assert fees * (power * ONE + x) == fees * (power * ONE) + fees * x;
    }
    assert fees * ONE * (ONE * p) * power == fees * (power * ONE) * ONE * p;
    assert (p * fees) * (x * ONE) == fees * x * ONE * p;
    assert (p * fees) * r == p * (fees * r);
  }

  /** The loss on the returned part is at most one fraction unit per universal validator and one base unit. */
  lemma LossBound(fees: nat, votes: seq<Vote>, e: nat)
    requires e > 0
    ensures Loss(fees, votes, e) <= e * (fees * UniversalCount(votes) + ONE)
  {
    ResidueBound(votes, e);
    hide ResidueTotal, BoostTotal, UniversalCount;
    LossStep(fees, e, ResidueTotal(votes, e), BoostTotal(fees, votes, e) % ONE, UniversalCount(votes));
  }

  lemma LossStep(fees: nat, e: nat, residues: nat, frac: nat, n: nat)
    requires residues <= n * e && frac < ONE
    ensures fees * residues + e * frac <= e * (fees * n + ONE)
  {
    assert fees * residues <= fees * (n * e) by { MulMono(residues, n * e, fees); }
    assert fees * (n * e) == e * (fees * n);
    assert e * frac <= e * ONE by { MulMono(frac, ONE, e); }
    assert e * (fees * n + ONE) == e * (fees * n) + e * ONE;
  }

  lemma {:induction false} MemberBounds(v: Vote, votes: seq<Vote>)
    requires v in votes
    ensures v.power <= TotalPower(votes)
    ensures v.lookup.Universal? ==> UniversalCount(votes) >= 1
  {
    if v != votes[0] {
      MemberBounds(v, votes[1..]);
    }
  }

  /** b/k + r*q/p - f*w/e over the common denominator e*k*p. */
  lemma CommonDenominator(b: real, k: real, r: real, q: real, p: real, f: real, w: real, e: real)
    requires k > 0.0 && p > 0.0 && e > 0.0
    ensures e * k * p > 0.0
    ensures (b / k + r * q / p - f * w / e) * (e * k * p) == e * p * b + e * k * r * q - f * w * k * p
  {
    var x, y, z := b / k, r * q / p, f * w / e;
    assert x * k == b && y * p == r * q && z * e == f * w;
    assert e * k > 0.0;
    assert x * (e * k * p) == (x * k) * (e * p);
    assert y * (e * k * p) == (y * p) * (e * k);
    assert z * (e * k * p) == (z * e) * (k * p);
  }

  lemma AtMost(d: real, m: real, c: real)
    requires m > 0.0 && d * m <= c * m
    ensures d <= c
  {
  }

  /** The value of one unit of a truncated fraction: fees * 10^-18 base units. */
  ghost function FractionUnit(fees: nat): real
  {
    fees as real / ONE as real
  }

  /** Error allowed above: one fraction unit per universal validator, and one base unit. */
  ghost function Slack(fees: nat, n: nat): real
  {
    fees as real * n as real / ONE as real + 1.0
  }

  /**
  Boost plus proportional share against the single weighted split: at most one
  fraction unit below, at most n fraction units and one base unit above.
   */
  lemma TwoStagesRefineOneSplit(fees: nat, v: Vote, votes: seq<Vote>)
    requires v in votes && TotalPower(votes) > 0
    ensures EffectiveTotal(votes) > 0
    ensures TwoStageShare(fees, v, votes) - WeightedShare(fees, v, votes)
            >= if v.lookup.Universal? then -FractionUnit(fees) else 0.0
    ensures TwoStageShare(fees, v, votes) - WeightedShare(fees, v, votes) <= Slack(fees, UniversalCount(votes))
  {
    PositivePowerDivides(votes);
    var e, p := EffectiveTotal(votes), TotalPower(votes);
    GapIsDifference(fees, v, votes);
    assert !v.lookup.Universal? ==> Residue(v, e) == 0;
    hide *;
    FractionPlusResidue(v, e);
    MemberBounds(v, votes);
    ShareIdentity(fees, v, votes);
    LossBound(fees, votes, e);
    GapBounds(fees, UniversalCount(votes), e, p, v.power, Boost(fees, v, e), Returned(fees, votes), Effective(v),
              Loss(fees, votes, e), Residue(v, e), v.lookup.Universal?);
  }

  /** Two stages minus one split. */
  ghost function Gap(fees: nat, e: nat, p: nat, q: nat, boost: nat, returned: int, w: nat): real
    requires e > 0 && p > 0
  {
    boost as real / ONE as real + returned as real * q as real / p as real - fees as real * w as real / e as real
  }

  lemma GapIsDifference(fees: nat, v: Vote, votes: seq<Vote>)
    requires TotalPower(votes) > 0 && EffectiveTotal(votes) > 0
    ensures var e := EffectiveTotal(votes);
            TwoStageShare(fees, v, votes) - WeightedShare(fees, v, votes)
            == Gap(fees, e, TotalPower(votes), v.power, Boost(fees, v, e), Returned(fees, votes), Effective(v))
  {
    hide EffectiveTotal, TotalPower, Boost, Returned, Effective;
  }

  lemma GapBounds(fees: nat, n: nat, e: nat, p: nat, q: nat, b: nat, r: int, w: nat, loss: nat, res: nat, universal: bool)
    requires e > 0 && p > 0 && q <= p
    requires Difference(fees, e, p, q, b, r, w) == q * loss - p * (fees * res)
    requires loss <= e * (fees * n + ONE)
    requires res <= e && (!universal ==> res == 0)
    ensures Gap(fees, e, p, q, b, r, w) >= if universal then -FractionUnit(fees) else 0.0
    ensures Gap(fees, e, p, q, b, r, w) <= Slack(fees, n)
  {
    hide *;
    GapScaled(fees, e, p, q, b, r, w);
    UpperGap(fees, n, e, p, q, loss, res, Gap(fees, e, p, q, b, r, w));
    LowerGap(fees, e, p, q, loss, res, universal, Gap(fees, e, p, q, b, r, w));
  }

  lemma UpperGap(fees: nat, n: nat, e: nat, p: nat, q: nat, loss: nat, res: nat, gap: real)
    requires Denominator(e, p) > 0.0 && q <= p
    requires loss <= e * (fees * n + ONE)
    requires gap * Denominator(e, p) == (q * loss - p * (fees * res)) as real
    ensures gap <= Slack(fees, n)
  {
    hide *;
    UpperTotal(q, p, loss, e * (fees * n + ONE), fees * res);
    ScaledUpper(fees, n, e, p);
    AtMostScaled(gap, Denominator(e, p), Slack(fees, n), q * loss - p * (fees * res), p * (e * (fees * n + ONE)));
  }

  lemma LowerGap(fees: nat, e: nat, p: nat, q: nat, loss: nat, res: nat, universal: bool, gap: real)
    requires Denominator(e, p) > 0.0
    requires res <= e && (!universal ==> res == 0)
    requires gap * Denominator(e, p) == (q * loss - p * (fees * res)) as real
    ensures gap >= if universal then -FractionUnit(fees) else 0.0
  {
    hide *;
    LowerTotal(q, loss, p, fees, res, e, universal);
    if universal {
      ScaledLower(fees, e, p);
      AtLeastScaled(gap, Denominator(e, p), FractionUnit(fees), q * loss - p * (fees * res), p * (fees * e));
    } else {
      AtLeastScaled(gap, Denominator(e, p), 0.0, q * loss - p * (fees * res), 0);
    }
  }

  lemma AtMostScaled(gap: real, m: real, c: real, x: int, y: int)
    requires m > 0.0 && gap * m == x as real && x <= y && y as real == c * m
    ensures gap <= c
  {
    AtMost(gap, m, c);
  }

  lemma AtLeastScaled(gap: real, m: real, c: real, x: int, y: int)
    requires m > 0.0 && gap * m == x as real && x >= -y && y as real == c * m
    ensures gap >= -c
  {
    assert -c * m == -(c * m);
    AtMost(-c, m, gap);
  }

  ghost function Denominator(e: nat, p: nat): real
  {
    e as real * ONE as real * p as real
  }

  lemma GapScaled(fees: nat, e: nat, p: nat, q: nat, b: nat, r: int, w: nat)
    requires e > 0 && p > 0
    ensures Denominator(e, p) > 0.0
    ensures Gap(fees, e, p, q, b, r, w) * Denominator(e, p) == Difference(fees, e, p, q, b, r, w) as real
  {
    CommonDenominator(b as real, ONE as real, r as real, q as real, p as real, fees as real, w as real, e as real);
    CastProducts(e, p, b, r, q, fees, w);
  }

  lemma CastProducts(e: nat, p: nat, b: nat, r: int, q: nat, fees: nat, w: nat)
    ensures (e * p * b + e * ONE * r * q - fees * w * ONE * p) as real
            == e as real * p as real * b as real
             + e as real * ONE as real * r as real * q as real
             - fees as real * w as real * ONE as real * p as real
  {
    assert (e * p * b) as real == (e * p) as real * b as real;
    assert (e * ONE * r * q) as real == (e * ONE * r) as real * q as real;
    assert (e * ONE * r) as real == (e * ONE) as real * r as real;
    assert (fees * w * ONE * p) as real == (fees * w * ONE) as real * p as real;
    assert (fees * w * ONE) as real == (fees * w) as real * ONE as real;
  }

  lemma UpperTotal(q: nat, p: nat, loss: nat, bound: nat, paid: nat)
    requires q <= p && loss <= bound
    ensures q * loss - p * paid <= p * bound
  {
    MulMono(q, p, loss);
    assert p * loss <= p * bound by { MulMono(loss, bound, p); }
    NonNegative(p, paid);
  }

  lemma LowerTotal(q: nat, loss: nat, p: nat, fees: nat, res: nat, e: nat, universal: bool)
    requires !universal ==> res == 0
    requires res <= e
    ensures q * loss - p * (fees * res) >= if universal then -(p * (fees * e)) else 0
  {
    NonNegative(q, loss);
    MulMono(res, e, fees);
    assert p * (fees * res) <= p * (fees * e) by { MulMono(fees * res, fees * e, p); }
  }

  lemma ScaledUpper(fees: nat, n: nat, e: nat, p: nat)
    ensures (p * (e * (fees * n + ONE))) as real
            == Slack(fees, n) * Denominator(e, p)
  {
    var k := ONE as real;
    var x := fees as real * n as real;
    assert (p * (e * (fees * n + ONE))) as real == p as real * (e as real * (x + k)) by {
      assert (fees * n) as real == x;
      assert (e * (fees * n + ONE)) as real == e as real * (fees * n + ONE) as real;
      assert (p * (e * (fees * n + ONE))) as real == p as real * (e * (fees * n + ONE)) as real;
    }
    assert (x / k + 1.0) * k == x + k;
    assert (x / k + 1.0) * (e as real * k * p as real) == ((x / k + 1.0) * k) * (e as real * p as real);
    assert p as real * (e as real * (x + k)) == (x + k) * (e as real * p as real);
  }

  lemma ScaledLower(fees: nat, e: nat, p: nat)
    ensures (p * (fees * e)) as real == FractionUnit(fees) * Denominator(e, p)
  {
    var k := ONE as real;
    var x := fees as real;
    assert (p * (fees * e)) as real == p as real * (x * e as real) by {
      assert (fees * e) as real == x * e as real;
      assert (p * (fees * e)) as real == p as real * (fees * e) as real;
    }
    assert (x / k) * (e as real * k * p as real) == ((x / k) * k) * (e as real * p as real);
    assert (x / k) * k == x;
    assert p as real * (x * e as real) == x * (e as real * p as real);
  }
}
