/**
 One product measure: its guard, its Wilson interval, its gate, and what further trials do
 to the status.
 */
module Measures {
  import opened Outcomes
  import opened Wilson

  datatype Key =
    | Activation | RepeatUse | MeaningfulListening | PlayReliability | ResumeReliability
    | TranscriptUtility | GroundedRecall | CitationUse | RetainedArtifact | AgentRepeatUse
    | RecallLatency | SessionIntegrity

  datatype Gate = Gate(minimum: int, point: real, lower: Option<real>)

  datatype Status = InsufficientEvidence | Passes | MissesThreshold

  datatype Measure = Measure(
    key: Key, numerator: int, denominator: int, estimate: Option<real>, wilson: Option<Interval>,
    gate: Gate, sample: int, status: Status)

  datatype Error = NumeratorExceedsDenominator(key: Key)

  function Estimate(n: int, d: int): Option<real> {
    if d != 0 then Some(n as real / d as real) else None
  }

  function StatusOf(estimate: Option<real>, wilson: Option<Interval>, gate: Gate, sample: int, d: int): Status {
    if sample < gate.minimum || d == 0 then InsufficientEvidence
    else
      var pointPasses := estimate.Some? && estimate.value >= gate.point;
      var lowerPasses := gate.lower.None? || (wilson.Some? && wilson.value.lower >= gate.lower.value);
      if pointPasses && lowerPasses then Passes else MissesThreshold
  }

  /** The measure of `n` successes in `d` trials; the evidence sample is the denominator
      unless one is given. Raises when the numerator exceeds the denominator. */
  function MeasureOf(sqrt: real -> real, z: real, key: Key, n: int, d: int, gate: Gate, evidence: Option<int>)
    : Result<Measure, Error>
    requires d >= 0 && z > 0.0
  {
    if n > d then Err(NumeratorExceedsDenominator(key))
    else
      var sample := if evidence.None? then d else evidence.value;
      var wilson := Bounds(sqrt, z, n, d);
      var estimate := Estimate(n, d);
      Ok(Measure(key, n, d, estimate, wilson, gate, sample, StatusOf(estimate, wilson, gate, sample, d)))
  }

  ghost predicate HasStatus(r: Result<Measure, Error>, status: Status) {
    r.Ok? && r.value.status == status
  }

  lemma EstimateMoves(n: int, d: int)
    requires 0 <= n <= d && d > 0
    ensures n as real / d as real <= (n + 1) as real / (d + 1) as real
    ensures n as real / (d + 1) as real <= n as real / d as real
  {
    var nr, dr := n as real, d as real;
    var p, q, r := nr / dr, (nr + 1.0) / (dr + 1.0), nr / (dr + 1.0);
    Quotient(nr, dr, p);
    Quotient(nr + 1.0, dr + 1.0, q);
    Quotient(nr, dr + 1.0, r);
    ProportionMoves(nr, dr, p, q, r);
  }

  lemma Quotient(n: real, d: real, p: real)
    requires d > 0.0 && p == n / d
    ensures p * d == n
  {}

  lemma ProportionMoves(n: real, d: real, p: real, q: real, r: real)
    requires 0.0 <= n <= d && d > 0.0
    requires p * d == n && q * (d + 1.0) == n + 1.0 && r * (d + 1.0) == n
    ensures r <= p <= q
  {
    SignOfFactor(d, p, n);
    RestOfProportion(n, d, p, 1.0 - p);
    SignOfFactor(d, 1.0 - p, d - n);
    assert p * (d + 1.0) == n + p;
    ScaledOrder(d + 1.0, p, q);
    ScaledOrder(d + 1.0, r, p);
  }

  /** A measure that passes still passes after one more success, whatever the gate. */
  lemma PassingSurvivesSuccess(sqrt: real -> real, z: real, key: Key, n: int, d: int, gate: Gate)
    requires IsSquareRoot(sqrt) && z > 0.0
    requires 0 <= n && 0 <= d
    requires HasStatus(MeasureOf(sqrt, z, key, n, d, gate, None), Passes)
    ensures HasStatus(MeasureOf(sqrt, z, key, n + 1, d + 1, gate, None), Passes)
  {
    hide Bounds, Center, Margin, Scale, Radicand, AreRoots;
    EstimateMoves(n, d);
    BoundsAreTheRoots(sqrt, z, n, d);
    BoundsAreTheRoots(sqrt, z, n + 1, d + 1);
    var b, b' := Bounds(sqrt, z, n, d).value, Bounds(sqrt, z, n + 1, d + 1).value;
    SuccessRaises(n as real, d as real, Square(z), b.lower, b.upper, b'.lower, b'.upper);
  }

  /** A measure that misses its threshold still misses it after one more failure. */
  lemma MissingSurvivesFailure(sqrt: real -> real, z: real, key: Key, n: int, d: int, gate: Gate)
    requires IsSquareRoot(sqrt) && z > 0.0
    requires 0 <= n && 0 <= d
    requires HasStatus(MeasureOf(sqrt, z, key, n, d, gate, None), MissesThreshold)
    ensures HasStatus(MeasureOf(sqrt, z, key, n, d + 1, gate, None), MissesThreshold)
  {
    hide Bounds, Center, Margin, Scale, Radicand, AreRoots;
    EstimateMoves(n, d);
    BoundsAreTheRoots(sqrt, z, n, d);
    BoundsAreTheRoots(sqrt, z, n, d + 1);
    var b, b' := Bounds(sqrt, z, n, d).value, Bounds(sqrt, z, n, d + 1).value;
    FailureLowers(n as real, d as real, Square(z), b.lower, b.upper, b'.lower, b'.upper);
  }

  // ----- The gates of the twelve measures -----

  function GateOf(key: Key): Gate {
    match key
    case Activation => Gate(50, 0.50, Some(0.35))
    case RepeatUse => Gate(50, 0.40, Some(0.25))
    case MeaningfulListening => Gate(50, 0.60, Some(0.45))
    case PlayReliability => Gate(300, 0.985, Some(0.97))
    case ResumeReliability => Gate(100, 0.97, Some(0.93))
    case TranscriptUtility => Gate(50, 0.40, Some(0.25))
    case GroundedRecall => Gate(50, 0.70, Some(0.55))
    case CitationUse => Gate(50, 0.30, Some(0.15))
    case RetainedArtifact => Gate(50, 0.20, Some(0.10))
    case AgentRepeatUse => Gate(50, 0.20, Some(0.10))
    case RecallLatency => Gate(50, 0.95, None)
    case SessionIntegrity => Gate(500, 0.99, None)
  }

  /** The number of trials from which the point threshold of a measure implies its Wilson
      threshold at the 95 percent quantile. */
  function DecidedFrom(key: Key): int {
    match key
    case Activation => 39
    case RepeatUse | TranscriptUtility => 33
    case MeaningfulListening | GroundedRecall => 43
    case PlayReliability => 497
    case ResumeReliability => 157
    case CitationUse => 22
    case RetainedArtifact | AgentRepeatUse => 35
    case RecallLatency | SessionIntegrity => 1
  }

  /** The 95 percent quantile, known by the first four decimals of its square. */
  ghost predicate IsQuantile95(z: real) {
    z > 0.0 && 3.8414 < Square(z) < 3.8415
  }

  lemma QuantileIsZ95()
    ensures IsQuantile95(Z95)
  {}

  /** The proportion reaches the point threshold, and the score statistic is not negative at
      the Wilson threshold; `w` is z^2. */
  ghost predicate MeetsThresholds(gate: Gate, w: real, n: int, d: int)
    requires d > 0
  {
    && n as real / d as real >= gate.point
    && (gate.lower.Some? ==> Score(n as real, d as real, w, gate.lower.value) >= 0.0)
  }

  ghost function ExactStatus(gate: Gate, w: real, n: int, d: int, sample: int): Status
    requires d >= 0
  {
    if sample < gate.minimum || d == 0 then InsufficientEvidence
    else if MeetsThresholds(gate, w, n, d) then Passes
    else MissesThreshold
  }

  /** The status of each measure of the evaluator, for any counts and any evidence sample,
      without a root: on enough evidence it misses exactly when its proportion is below the
      point threshold or its score statistic is negative at the Wilson threshold. */
  lemma StatusIsRootFree(sqrt: real -> real, z: real, key: Key, n: int, d: int, evidence: Option<int>)
    requires IsSquareRoot(sqrt) && z > 0.0
    requires 0 <= n <= d
    ensures
      var sample := if evidence.None? then d else evidence.value;
      HasStatus(MeasureOf(sqrt, z, key, n, d, GateOf(key), evidence),
                ExactStatus(GateOf(key), Square(z), n, d, sample))
  {
    ThresholdsInOrder(key);
    hide Bounds, Center, Margin, Scale, Radicand, AreRoots, GateOf, Score;
    var gate := GateOf(key);
    if d > 0 && gate.lower.Some? {
      LowerMeets(sqrt, z, n, d, gate.point, gate.lower.value);
    }
  }

  /** What a measure holds: the counts, their proportion, the two roots of their score
      statistic, and the status they deserve. */
  ghost predicate IsExact(z: real, key: Key, n: int, d: int, sample: int, m: Measure)
    requires z > 0.0 && d >= 0
  {
    && m.key == key && m.numerator == n && m.denominator == d && m.sample == sample
    && m.gate == GateOf(key) && m.status == ExactStatus(GateOf(key), Square(z), n, d, sample)
    && if d == 0 then m.estimate == None && m.wilson == None
       else
         && m.estimate == Some(n as real / d as real) && m.wilson.Some?
         && AreRoots(n as real, d as real, Square(z), m.wilson.value.lower, m.wilson.value.upper)
  }

  /** A measure of the evaluator raises exactly when it counts more successes than trials, and
      otherwise it is exact. */
  lemma MeasureIsExact(sqrt: real -> real, z: real, key: Key, n: int, d: int, evidence: Option<int>)
    requires IsSquareRoot(sqrt) && z > 0.0 && 0 <= n && 0 <= d
    ensures
      var r := MeasureOf(sqrt, z, key, n, d, GateOf(key), evidence);
      if n > d then r == Err(NumeratorExceedsDenominator(key))
      else r.Ok? && IsExact(z, key, n, d, if evidence.None? then d else evidence.value, r.value)
  {
    if n <= d {
      StatusIsRootFree(sqrt, z, key, n, d, evidence);
      hide Bounds, GateOf, StatusOf, ExactStatus, AreRoots, Square;
      if d == 0 {
        NoTrials(sqrt, z);
      } else {
        var b := RootsOf(sqrt, z, n, d);
      }
    }
  }

  lemma NoTrials(sqrt: real -> real, z: real)
    requires z > 0.0
    ensures Bounds(sqrt, z, 0, 0) == None
  {}

  /** Nothing else is exact. */
  lemma ExactIsUnique(z: real, key: Key, n: int, d: int, sample: int, a: Measure, b: Measure)
    requires z > 0.0 && d >= 0 && IsExact(z, key, n, d, sample, a) && IsExact(z, key, n, d, sample, b)
    ensures a == b
  {
    hide GateOf, ExactStatus, AreRoots, Square;
    if d > 0 {
      RootsAreUnique(n as real, d as real, Square(z), a.wilson.value.lower, a.wilson.value.upper,
                     b.wilson.value.lower, b.wilson.value.upper);
    }
  }

  lemma ThresholdsInOrder(key: Key)
    ensures 0.0 < GateOf(key).point < 1.0 && GateOf(key).minimum > 0
    ensures GateOf(key).lower.Some? ==> 0.0 < GateOf(key).lower.value < GateOf(key).point
  {}

  lemma LowerMeets(sqrt: real -> real, z: real, n: int, d: int, q: real, t: real)
    requires IsSquareRoot(sqrt) && z > 0.0
    requires 0 <= n <= d && d > 0 && t < q < 1.0
    ensures Bounds(sqrt, z, n, d).Some?
    ensures n as real / d as real >= q ==>
              (Bounds(sqrt, z, n, d).value.lower >= t <==> Score(n as real, d as real, Square(z), t) >= 0.0)
  {
    hide *;
    var b := RootsOf(sqrt, z, n, d);
    if n as real / d as real >= q {
      TargetMet(n, d, q);
      ScaledOrder(d as real, t, q);
      RootTest(n as real, d as real, Square(z), b.lower, b.upper, t);
    }
  }

  /** The measures whose evidence sample is their number of trials and whose minimum is at
      least `DecidedFrom`. */
  predicate PointSuffices(key: Key) {
    match key
    case Activation | RepeatUse | MeaningfulListening | TranscriptUtility | GroundedRecall => true
    case RetainedArtifact | AgentRepeatUse => true
    case PlayReliability | ResumeReliability | CitationUse | RecallLatency | SessionIntegrity => false
  }

  /** For these seven of the ten measures with a Wilson threshold, that threshold never
      decides: on any sample the point threshold alone says whether they miss. */
  lemma WilsonGateIsIdle(sqrt: real -> real, z: real, key: Key, n: int, d: int)
    requires IsSquareRoot(sqrt) && IsQuantile95(z)
    requires 0 <= n <= d && PointSuffices(key)
    ensures GateOf(key).lower.Some?
    ensures HasStatus(MeasureOf(sqrt, z, key, n, d, GateOf(key), None), MissesThreshold) <==>
            d >= GateOf(key).minimum && n as real / d as real < GateOf(key).point
  {
    MinimumIsEnough(key);
    if d >= GateOf(key).minimum {
      PointThresholdDecides(sqrt, z, key, n, d, None);
    }
  }

  lemma MinimumIsEnough(key: Key)
    requires PointSuffices(key)
    ensures GateOf(key).lower.Some? && GateOf(key).minimum >= DecidedFrom(key) > 0
  {}

  /** From `DecidedFrom` trials on, the Wilson gate of no measure decides anything. */
  lemma PointThresholdDecides(sqrt: real -> real, z: real, key: Key, n: int, d: int, evidence: Option<int>)
    requires IsSquareRoot(sqrt) && IsQuantile95(z)
    requires 0 <= n <= d && d >= DecidedFrom(key)
    ensures HasStatus(MeasureOf(sqrt, z, key, n, d, GateOf(key), evidence), MissesThreshold) <==>
            n as real / d as real < GateOf(key).point
            && (if evidence.None? then d else evidence.value) >= GateOf(key).minimum
  {
    hide Bounds, Center, Margin, Scale, Radicand, AreRoots, GateOf;
    PointImpliesLower(sqrt, z, key, n, d);
  }

  lemma PointImpliesLower(sqrt: real -> real, z: real, key: Key, n: int, d: int)
    requires IsSquareRoot(sqrt) && IsQuantile95(z)
    requires 0 <= n <= d && d >= DecidedFrom(key)
    ensures d > 0 && Bounds(sqrt, z, n, d).Some?
    ensures GateOf(key).lower.Some? && n as real / d as real >= GateOf(key).point ==>
              Bounds(sqrt, z, n, d).value.lower >= GateOf(key).lower.value
  {
    assert d > 0;
    hide *;
    var gate, b := GateOf(key), RootsOf(sqrt, z, n, d);
    if gate.lower.Some? && n as real / d as real >= gate.point {
      TargetMet(n, d, gate.point);
      SampleDecides(key, d as real, Square(z), gate.point, gate.lower.value);
      EnoughTrials(n as real, d as real, Square(z), b.lower, b.upper, gate.point, gate.lower.value);
    }
  }

  lemma TargetMet(n: int, d: int, q: real)
    requires d > 0 && n as real / d as real >= q
    ensures q * d as real <= n as real
  {
    ScaledOrder(d as real, q, n as real / d as real);
  }

  lemma SampleDecides(key: Key, d: real, w: real, q: real, t: real)
    requires GateOf(key).point == q && GateOf(key).lower == Some(t)
    requires d >= DecidedFrom(key) as real && 0.0 < w < 3.8415
    ensures 0.0 <= t < q && d * ((q - t) * (q - t)) >= w * (t * (1.0 - t))
  {}

  /** The Wilson gate of the other three does decide: these samples meet the evidence minimum
      and the point threshold and still miss. The sample of citation use is the recalls asked,
      so few grounded recalls are enough. */
  lemma WilsonGateDecides(sqrt: real -> real, z: real)
    requires IsSquareRoot(sqrt) && IsQuantile95(z)
    ensures HasStatus(MeasureOf(sqrt, z, PlayReliability, 296, 300, GateOf(PlayReliability), None), MissesThreshold)
    ensures 296 as real / 300 as real >= GateOf(PlayReliability).point
    ensures HasStatus(MeasureOf(sqrt, z, ResumeReliability, 97, 100, GateOf(ResumeReliability), None), MissesThreshold)
    ensures 97 as real / 100 as real >= GateOf(ResumeReliability).point
    ensures HasStatus(MeasureOf(sqrt, z, CitationUse, 3, 10, GateOf(CitationUse), Some(50)), MissesThreshold)
    ensures 3 as real / 10 as real >= GateOf(CitationUse).point
  {
    var w := Square(z);
    assert Score(296.0, 300.0, w, 0.97) < 0.0 && Score(97.0, 100.0, w, 0.93) < 0.0 && Score(3.0, 10.0, w, 0.15) < 0.0;
    hide Bounds, Center, Margin, Scale, Radicand, AreRoots, MeasureOf, HasStatus, Score;
    StatusIsRootFree(sqrt, z, PlayReliability, 296, 300, None);
    StatusIsRootFree(sqrt, z, ResumeReliability, 97, 100, None);
    StatusIsRootFree(sqrt, z, CitationUse, 3, 10, Some(50));
  }

  /** The trials of each measure that are just enough evidence, and the fewest successes among
      them that pass. */
  function LeastEvidence(key: Key): (int, int) {
    match key
    case Activation => (50, 25)
    case RepeatUse | TranscriptUtility => (50, 20)
    case MeaningfulListening => (50, 30)
    case PlayReliability => (300, 297)
    case ResumeReliability => (100, 99)
    case GroundedRecall => (50, 35)
    case CitationUse => (50, 15)
    case RetainedArtifact | AgentRepeatUse => (50, 10)
    case RecallLatency => (50, 48)
    case SessionIntegrity => (500, 495)
  }

  /** On the least evidence a measure passes exactly from that many successes on; with one
      trial less it is never decided. */
  lemma OnLeastEvidence(sqrt: real -> real, z: real, key: Key, n: int)
    requires IsSquareRoot(sqrt) && IsQuantile95(z) && 0 <= n
    ensures
      var (trials, least) := LeastEvidence(key);
      && (n <= trials ==> HasStatus(MeasureOf(sqrt, z, key, n, trials, GateOf(key), None),
                                    if n >= least then Passes else MissesThreshold))
      && (n < trials ==> HasStatus(MeasureOf(sqrt, z, key, n, trials - 1, GateOf(key), None), InsufficientEvidence))
  {
    var (trials, least) := LeastEvidence(key);
    if n <= trials {
      StatusIsRootFree(sqrt, z, key, n, trials, None);
      FewestThatPass(Square(z), key, n);
    }
    if n < trials {
      StatusIsRootFree(sqrt, z, key, n, trials - 1, None);
    }
    hide MeetsThresholds, MeasureOf;
  }

  lemma FewestThatPass(w: real, key: Key, n: int)
    requires 3.8414 < w < 3.8415 && 0 <= n <= LeastEvidence(key).0
    ensures MeetsThresholds(GateOf(key), w, n, LeastEvidence(key).0) <==> n >= LeastEvidence(key).1
  {
    var (trials, least) := LeastEvidence(key);
    var gate := GateOf(key);
    PointOnLeastEvidence(key, n);
    if gate.lower.Some? {
      ScoresOnLeastEvidence(w, key);
      if n >= least {
        ScoreGrows(least as real, n as real, trials as real, w, gate.lower.value);
      }
    }
    hide Score, GateOf, LeastEvidence;
  }

  /** The point threshold is reached at the fewest passing successes, except that the two
      reliabilities reach it one and two successes earlier. */
  lemma PointOnLeastEvidence(key: Key, n: int)
    ensures
      var (trials, least) := LeastEvidence(key);
      var slack := if key == PlayReliability then 1 else if key == ResumeReliability then 2 else 0;
      n as real / trials as real >= GateOf(key).point <==> n >= least - slack
  {}

  lemma ScoresOnLeastEvidence(w: real, key: Key)
    requires 3.8414 < w < 3.8415 && GateOf(key).lower.Some?
    ensures
      var (trials, least) := LeastEvidence(key);
      var d, t := trials as real, GateOf(key).lower.value;
      && t * d <= least as real && Score(least as real, d, w, t) >= 0.0
      && (key == PlayReliability || key == ResumeReliability ==> Score(least as real - 1.0, d, w, t) < 0.0)
      && (key == ResumeReliability ==> Score(least as real - 2.0, d, w, t) < 0.0)
  {}

  lemma ScoreGrows(n: real, n': real, d: real, w: real, t: real)
    requires t * d <= n <= n' && Score(n, d, w, t) >= 0.0
    ensures Score(n', d, w, t) >= 0.0
  {
    var g := n' - n;
    ScoreOfMore(n, d, w, t, g);
    ProductSign(g, 2.0 * (n - t * d) + g, g * (2.0 * (n - t * d) + g));
    hide Score;
  }
}
