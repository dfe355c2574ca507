/**
 * The producer's decimation stride: `max(1, round(source_fps / fps_limit))`,
 * where a source that reports no frame rate (0) is taken to run at 30 frames
 * per second. The source frame rate is a float; here it is the exact rational
 * it denotes, and Python's `round` (ties to even) is defined on that rational.
 */
module Stride {

  type PosInt = n: int | n > 0 witness 1

  /** A frame rate in frames per second, as the rational num / den. */
  datatype Rate = Rate(num: int, den: PosInt)

  /** The rate assumed when the video reports none. */
  const DEFAULT_SOURCE_FPS: Rate := Rate(30, 1)

  /** The stride, or the ZeroDivisionError Python raises for a target rate of 0. */
  datatype StepResult = Step(stride: PosInt) | ZeroDivision

  /** `cap.get(CAP_PROP_FPS) or 30`: a reported rate of 0 is falsy and is replaced. */
  function EffectiveRate(reported: Rate): Rate
  {
    if reported.num == 0 then DEFAULT_SOURCE_FPS else reported
  }

  /** p / q lies within half a step of r, and a tie only at an even r. */
  ghost predicate NearestTiesEven(p: int, q: int, r: int)
  {
    && -q <= 2 * (p - r * q) <= q
    && ((2 * (p - r * q) == q || 2 * (p - r * q) == -q) ==> r % 2 == 0)
  }

  /** Python's `round` on the rational p / q: the nearest integer, ties to the even one. */
  function RoundHalfEven(p: int, q: int): (r: int)
    requires q > 0
    ensures NearestTiesEven(p, q, r)
  {
    var f := p / q;
    var rem := p % q;
    FloorParts(p, q);
    if 2 * rem < q then f
    else if 2 * rem > q then f + 1
    else if f % 2 == 0 then f
    else f + 1
  }

  /** The quotient `rate / fpsLimit` written as p / q with a positive denominator. */
  function Quotient(rate: Rate, fpsLimit: int): (pq: (int, int))
    requires fpsLimit != 0
    ensures pq.1 > 0
    ensures pq.0 * (rate.den * fpsLimit) == rate.num * pq.1
  {
    if fpsLimit > 0 then
      (rate.num, rate.den * fpsLimit)
    else
      assert rate.den * fpsLimit < 0;
      (-rate.num, -(rate.den * fpsLimit))
  }

  /**
   * `frame_step = max(1, round(source_fps / self.fps_limit))`, with the
   * source rate defaulted first. The stride is 1 exactly when the rate ratio
   * is below 3/2 (the ratio 3/2 itself rounds to 2); otherwise it is the
   * nearest integer to the ratio, ties broken towards the even one.
   */
  function FrameStep(sourceFps: Rate, fpsLimit: int): (r: StepResult)
    ensures r.ZeroDivision? <==> fpsLimit == 0
    ensures r.Step? ==>
      var pq := Quotient(EffectiveRate(sourceFps), fpsLimit);
      && (r.stride == 1 <==> 2 * pq.0 < 3 * pq.1)
      && (r.stride > 1 ==> NearestTiesEven(pq.0, pq.1, r.stride))
  {
    if fpsLimit == 0 then ZeroDivision
    else
      var pq := Quotient(EffectiveRate(sourceFps), fpsLimit);
      var rounded := RoundHalfEven(pq.0, pq.1);
      RoundedAtMostOne(pq.0, pq.1);
      if rounded < 1 then Step(1) else Step(rounded)
  }

  /** The rounded ratio is at most 1 exactly when the ratio is below 3/2. */
  lemma RoundedAtMostOne(p: int, q: int)
    requires q > 0
    ensures RoundHalfEven(p, q) <= 1 <==> 2 * p < 3 * q
  {
    var r := RoundHalfEven(p, q);
    if r <= 1 {
      if r <= 0 {
        MulMono(r, 0, q);
      }
      assert r * q <= q;
    } else {
      MulMono(2, r, q);
      assert 2 * q <= r * q;
    }
  }

  /** Multiplying by a positive number keeps order. */
  lemma MulMono(a: int, b: int, q: int)
    requires a <= b && q > 0
    ensures a * q <= b * q
  {
    assert b * q - a * q == (b - a) * q;
  }

  /**
   * The two properties promised by RoundHalfEven's contract (nearest, ties
   * to even) determine its result: any integer that has them is that result.
   */
  lemma RoundHalfEvenUnique(p: int, q: int, r: int)
    requires q > 0 && NearestTiesEven(p, q, r)
    ensures r == RoundHalfEven(p, q)
  {
    NearestTiesEvenUnique(p, q, r, RoundHalfEven(p, q));
  }

  /** Two integers that are both nearest to p / q, ties to even, are equal. */
  lemma NearestTiesEvenUnique(p: int, q: int, r: int, r0: int)
    requires q > 0 && NearestTiesEven(p, q, r) && NearestTiesEven(p, q, r0)
    ensures r == r0
  {
    var d := r - r0;
    var e, e0 := p - r * q, p - r0 * q;
    MulSubDistrib(r, r0, q);
    assert e0 - e == d * q;
    if d >= 2 {
      MulMono(2, d, q);
    } else if d <= -2 {
      MulMono(d, -2, q);
    } else if d != 0 {
      // one of r, r0 sits half a step below p / q and the other half a step
      // above, so both are ties and both even, yet they differ by one
      assert false;
    }
  }

  lemma MulSubDistrib(a: int, b: int, q: int)
    ensures (a - b) * q == a * q - b * q
  {
  }

  /** The floor of p / q and the integer above it, as offsets from p. */
  lemma FloorParts(p: int, q: int)
    requires q > 0
    ensures p - (p / q) * q == p % q
    ensures p - (p / q + 1) * q == p % q - q
  {
    assert (p / q + 1) * q == (p / q) * q + q;
  }

  /** A missing source rate gives the stride a 30-fps source would give. */
  lemma MissingRateDefaultsTo30(den: PosInt, fpsLimit: int)
    ensures FrameStep(Rate(0, den), fpsLimit) == FrameStep(Rate(30, 1), fpsLimit)
  {
  }

  /**
   * Worked cases: 30 fps at a target of 14 gives stride 2 (about 15 fps
   * are sent, not 14); 25 fps at 10 is the tie 2.5, which goes to 2; 35 at
   * 10 is the tie 3.5, which goes to 4; 29.97 fps at 14 gives 2; a
   * 5-fps source at 14 and a negative target give stride 1; a source with
   * no reported rate at a target of 15 gives 2, as a 30-fps one does.
   */
  lemma StrideExamples()
    ensures FrameStep(Rate(30, 1), 14) == Step(2)
    ensures FrameStep(Rate(25, 1), 10) == Step(2)
    ensures FrameStep(Rate(35, 1), 10) == Step(4)
    ensures FrameStep(Rate(2997, 100), 14) == Step(2)
    ensures FrameStep(Rate(5, 1), 14) == Step(1)
    ensures FrameStep(Rate(30, 1), -14) == Step(1)
    ensures FrameStep(Rate(30, 1), 15) == Step(2)
    ensures FrameStep(Rate(0, 1), 15) == Step(2)
  {
  }
}
