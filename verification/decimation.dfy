/**
 * The producer's selection rule: of the frames read from the video, in order,
 * the one with ordinal n (counting from 0) is forwarded exactly when n is a
 * multiple of the stride.
 */
module Decimation {

  import opened Stride

  /** The frames among `frames` whose ordinal is a multiple of `step`, in order. */
  function Kept<T>(frames: seq<T>, step: PosInt): seq<T>
    decreases |frames|
  {
    if frames == [] then []
    else
      var n := |frames| - 1;
      Kept(frames[..n], step) + (if n % step == 0 then [frames[n]] else [])
  }

  /** The ceiling of n / d. */
  function CeilDiv(n: nat, d: PosInt): (c: nat)
    ensures n <= c * d < n + d
  {
    var c := (n + d - 1) / d;
    FloorParts(n + d - 1, d);
    c
  }

  /** Extending the input by one frame adds one forwarded frame exactly when its ordinal is a multiple of d. */
  lemma CeilDivStep(n: nat, d: PosInt)
    ensures CeilDiv(n + 1, d) == CeilDiv(n, d) + (if n % d == 0 then 1 else 0)
  {
    FloorParts(n, d);
    CeilStep(n, d, n / d, n % d, CeilDiv(n, d), CeilDiv(n + 1, d));
  }

  /** CeilDivStep with n written as k * d + r and the two ceilings given by their bounds. */
  lemma CeilStep(n: nat, d: PosInt, k: int, r: int, c: int, c': int)
    requires n == k * d + r && 0 <= r < d
    requires n <= c * d < n + d && n + 1 <= c' * d < n + 1 + d
    ensures c' == c + (if r == 0 then 1 else 0)
  {
    MulSubDistrib(k + 1, k, d);
    if r == 0 {
      NearestMultipleIs(c, k, d);
    } else {
      NearestMultipleIs(c, k + 1, d);
    }
    NearestMultipleIs(c', k + 1, d);
  }

  /** If c * d and k * d differ by less than d, then c == k. */
  lemma NearestMultipleIs(c: int, k: int, d: PosInt)
    requires k * d - d < c * d < k * d + d
    ensures c == k
  {
    MulSubDistrib(c, k, d);
    if c >= k + 1 {
      MulMono(1, c - k, d);
    } else if c <= k - 1 {
      MulMono(c - k, -1, d);
    }
  }

  /** With N frames read, exactly ceil(N / step) are forwarded. */
  lemma {:induction false} KeptLength<T>(frames: seq<T>, step: PosInt)
    ensures |Kept(frames, step)| == CeilDiv(|frames|, step)
    decreases |frames|
  {
    if frames != [] {
      var n := |frames| - 1;
      KeptLength(frames[..n], step);
      CeilDivStep(n, step);
    }
  }

  /**
   * The k-th forwarded frame is the source frame with ordinal k * step: every
   * forwarded frame has an ordinal that is a multiple of the stride, and they
   * come in source order.
   */
  lemma {:induction false} KeptAt<T>(frames: seq<T>, step: PosInt)
    ensures forall k :: 0 <= k < |Kept(frames, step)| ==>
      k * step < |frames| && Kept(frames, step)[k] == frames[k * step]
    decreases |frames|
  {
    if frames != [] {
      var n := |frames| - 1;
      var prefix := frames[..n];
      KeptAt(prefix, step);
      KeptLength(prefix, step);
      var m := |Kept(prefix, step)|;
      if n % step == 0 {
        // the new frame lands at position m, and m * step == n
        FloorParts(n, step);
        NearestMultipleIs(m, n / step, step);
      }
    }
  }

  /** Every source frame whose ordinal is a multiple of the stride is forwarded, at position n / step. */
  lemma ForwardedWhenMultiple<T>(frames: seq<T>, step: PosInt)
    ensures forall n :: 0 <= n < |frames| && n % step == 0 ==>
      n / step < |Kept(frames, step)| && Kept(frames, step)[n / step] == frames[n]
  {
    KeptLength(frames, step);
    KeptAt(frames, step);
    var c := CeilDiv(|frames|, step);
    forall n | 0 <= n < |frames| && n % step == 0
      ensures n / step < |Kept(frames, step)| && Kept(frames, step)[n / step] == frames[n]
    {
      FloorParts(n, step);
      if n / step >= c {
        MulMono(c, n / step, step);
      }
    }
  }

  /**
   * A 2-second, 30-fps video streamed at a target of 15 fps: stride 2, so 30
   * of its 60 frames are forwarded, those with even ordinals. When the
   * source alternates black and white frames, every forwarded frame is black.
   */
  lemma {:induction false} AlternatingSourceAtHalfRate<T>(frames: seq<T>, black: T, white: T)
    requires |frames| == 60
    requires forall n :: 0 <= n < |frames| ==> frames[n] == (if n % 2 == 0 then black else white)
    ensures FrameStep(Rate(30, 1), 15) == Step(2)
    ensures |Kept(frames, 2)| == 30
    ensures forall k :: 0 <= k < 30 ==> Kept(frames, 2)[k] == black
  {
    StrideExamples();
    KeptLength(frames, 2);
    KeptAt(frames, 2);
    forall k | 0 <= k < 30
      ensures Kept(frames, 2)[k] == black
    {
      assert (k * 2) % 2 == 0;
    }
  }
}
