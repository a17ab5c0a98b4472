/**
 * The specification side of AquaFun's frame loop: which frames are sent to the
 * detector, which frame is written for each input frame, and which progress
 * ratios are reported. The loop itself is method App.DetectVideo.
 *
 * Each specification function takes the video `fs` and the number `n` of
 * frames read so far, and describes what the loop has produced by then.
 */
module FrameLoop {

  /** One decoded video frame, as the raw bytes OpenCV hands out. */
  type Frame = seq<bv8>

  /** Detection runs on every fifth frame, counting from frame 0. */
  predicate IsSampled(i: nat): (r: bool)
    ensures r <==> 5 * (i / 5) == i  // i is a multiple of 5
  {
    i % 5 == 0
  }

  /** The most recent frame index at or before `i` on which detection ran. */
  function LastSample(i: nat): (s: nat)
    ensures s <= i && IsSampled(s)
    ensures i - s < 5  // no index in (s, i] is sampled
  {
    i - i % 5
  }

  /** Moving one frame on, the latest sample is the new frame if it is sampled, else unchanged. */
  lemma LastSampleStep(i: nat)
    requires 0 < i
    ensures LastSample(i) == if IsSampled(i) then i else LastSample(i - 1)
  {
  }

  // ---------------------------------------------------------------------------
  // What is written

  /**
   * The frames written once the first `n` frames of `fs` have been read, when
   * the detector draws its boxes with `annotate`: each read adds one frame,
   * the annotation of the latest sampled frame.
   */
  function Annotated(fs: seq<Frame>, annotate: Frame -> Frame, n: nat): (r: seq<Frame>)
    requires n <= |fs|
    ensures |r| == n
    decreases n
  {
    if n == 0 then []
    else Annotated(fs, annotate, n - 1) + [annotate(fs[LastSample(n - 1)])]
  }

  /** Written frame `i` is the annotation of input frame `i - i % 5`: never a raw frame. */
  lemma {:induction false} AnnotatedAt(fs: seq<Frame>, annotate: Frame -> Frame, n: nat, i: nat)
    requires i < n <= |fs|
    ensures Annotated(fs, annotate, n)[i] == annotate(fs[LastSample(i)])
    decreases n
  {
    if i < n - 1 {
      AnnotatedAt(fs, annotate, n - 1, i);
    }
  }

  /** Reading more frames only appends: what is written for the first m frames stays as it was. */
  lemma {:induction false} AnnotatedPrefix(fs: seq<Frame>, annotate: Frame -> Frame, m: nat, n: nat)
    requires m <= n <= |fs|
    ensures Annotated(fs, annotate, n)[..m] == Annotated(fs, annotate, m)
    decreases n
  {
    if m < n {
      AnnotatedPrefix(fs, annotate, m, n - 1);
      assert Annotated(fs, annotate, n)[..n - 1] == Annotated(fs, annotate, n - 1);
    }
  }

  /**
   * A sampled frame is written with its own boxes, and every other frame
   * repeats the frame written just before it.
   */
  lemma AnnotatedSteps(fs: seq<Frame>, annotate: Frame -> Frame, n: nat)
    requires n <= |fs|
    ensures forall i :: 0 <= i < n && IsSampled(i) ==> Annotated(fs, annotate, n)[i] == annotate(fs[i])
    ensures forall i :: 0 < i < n && !IsSampled(i) ==>
              Annotated(fs, annotate, n)[i] == Annotated(fs, annotate, n)[i - 1]
  {
    forall i | 0 <= i < n
      ensures IsSampled(i) ==> Annotated(fs, annotate, n)[i] == annotate(fs[i])
      ensures i > 0 && !IsSampled(i) ==> Annotated(fs, annotate, n)[i] == Annotated(fs, annotate, n)[i - 1]
    {
      AnnotatedAt(fs, annotate, n, i);
      if i > 0 {
        AnnotatedAt(fs, annotate, n, i - 1);
        LastSampleStep(i);
      }
    }
  }

  /** Those two properties determine the output: any sequence that has them is `Annotated`. */
  lemma AnnotatedUnique(fs: seq<Frame>, annotate: Frame -> Frame, w: seq<Frame>)
    requires |w| == |fs|
    requires forall i :: 0 <= i < |fs| && IsSampled(i) ==> w[i] == annotate(fs[i])
    requires forall i :: 0 < i < |fs| && !IsSampled(i) ==> w[i] == w[i - 1]
    ensures w == Annotated(fs, annotate, |fs|)
  {
    forall i | 0 <= i < |fs|
      ensures w[i] == Annotated(fs, annotate, |fs|)[i]
    {
      HeldFromSample(fs, annotate, w, i);
      AnnotatedAt(fs, annotate, |fs|, i);
    }
  }

  lemma {:induction false} HeldFromSample(fs: seq<Frame>, annotate: Frame -> Frame, w: seq<Frame>, i: nat)
    requires |w| == |fs| && i < |fs|
    requires forall i :: 0 <= i < |fs| && IsSampled(i) ==> w[i] == annotate(fs[i])
    requires forall i :: 0 < i < |fs| && !IsSampled(i) ==> w[i] == w[i - 1]
    ensures w[i] == annotate(fs[LastSample(i)])
  {
    if !IsSampled(i) {
      HeldFromSample(fs, annotate, w, i - 1);
      LastSampleStep(i);
    }
  }

  /**
   * Between two sample points the written frame does not change: if no index
   * in (i, j] is sampled, frames i and j of the output are the same.
   */
  lemma {:induction false} HeldWithinBlock(fs: seq<Frame>, annotate: Frame -> Frame, n: nat, i: nat, j: nat)
    requires i <= j < n <= |fs|
    requires forall k :: i < k <= j ==> !IsSampled(k)
    ensures Annotated(fs, annotate, n)[i] == Annotated(fs, annotate, n)[j]
  {
    if i < j {
      HeldWithinBlock(fs, annotate, n, i, j - 1);
      AnnotatedAt(fs, annotate, n, j);
      AnnotatedAt(fs, annotate, n, j - 1);
      LastSampleStep(j);
    }
  }

  // ---------------------------------------------------------------------------
  // What the detector sees

  /** The frames handed to the detector, in call order, once the first `n` frames of `fs` are read. */
  function Sampled(fs: seq<Frame>, n: nat): (r: seq<Frame>)
    requires n <= |fs|
    ensures |r| <= n
    decreases n
  {
    if n == 0 then []
    else Sampled(fs, n - 1) + (if IsSampled(n - 1) then [fs[n - 1]] else [])
  }

  lemma CountStep(m: nat)
    ensures (m + 5) / 5 == (m + 4) / 5 + (if IsSampled(m) then 1 else 0)
    ensures IsSampled(m) ==> 5 * ((m + 4) / 5) == m
  {
  }

  /** The detector is called ceil(n / 5) times for n frames. */
  lemma {:induction false} SampledCount(fs: seq<Frame>, n: nat)
    requires n <= |fs|
    ensures |Sampled(fs, n)| == (n + 4) / 5
    decreases n
  {
    if n > 0 {
      SampledCount(fs, n - 1);
      CountStep(n - 1);
    }
  }

  /** The j-th detector call is on frame 5 * j: the detector sees frames 0, 5, 10, ... and no others. */
  lemma {:induction false} SampledAt(fs: seq<Frame>, n: nat, j: nat)
    requires n <= |fs| && j < |Sampled(fs, n)|
    ensures 5 * j < n && Sampled(fs, n)[j] == fs[5 * j]
    decreases n
  {
    SampledCount(fs, n - 1);
    CountStep(n - 1);
    if j < |Sampled(fs, n - 1)| {
      SampledAt(fs, n - 1, j);
    }
  }

  // ---------------------------------------------------------------------------
  // What the progress bar shows

  /** A progress value `done / total`, kept as the exact pair the loop divides. */
  datatype Ratio = Ratio(done: nat, total: nat) {
    predicate InUnitRange() {
      0 < total && done <= total
    }

    function Value(): real
      requires 0 < total
    {
      done as real / total as real
    }
  }

  /** The ratios reported after each of the first `n` frames against the announced `total`. */
  function Progression(n: nat, total: nat): (r: seq<Ratio>)
    ensures |r| == n
  {
    seq(n, k requires 0 <= k < n => Ratio(k + 1, total))
  }

  /** One more frame appends one report. */
  lemma ProgressionSnoc(n: nat, total: nat)
    ensures Progression(n + 1, total) == Progression(n, total) + [Ratio(n + 1, total)]
  {
  }

  /** When the announced total is not below the real count, every report lies in (0, 1]. */
  lemma ProgressInUnitRange(n: nat, total: nat)
    requires n <= total
    ensures forall k :: 0 <= k < n ==>
              Progression(n, total)[k].InUnitRange() && 0.0 < Progression(n, total)[k].Value() <= 1.0
  {
    forall k | 0 <= k < n
      ensures 0.0 < Progression(n, total)[k].Value() <= 1.0
    {
      RatioBounds(k + 1, total);
    }
  }

  lemma RatioBounds(a: nat, t: nat)
    requires 0 < a <= t
    ensures 0.0 < a as real / t as real <= 1.0
  {
    assert a as real <= t as real;
  }

  /** Each report is strictly larger than the one before it. */
  lemma ProgressIncreasing(n: nat, total: nat, i: nat, j: nat)
    requires 0 < total && i < j < n
    ensures Progression(n, total)[i].Value() < Progression(n, total)[j].Value()
  {
    DivMonotone((i + 1) as real, (j + 1) as real, total as real);
  }

  lemma DivMonotone(a: real, b: real, t: real)
    requires a < b && 0.0 < t
    ensures a / t < b / t
  {
    assert b / t - a / t == (b - a) / t;
  }

  /** The last report reads 1 exactly when the announced total is the real frame count. */
  lemma ProgressEndsAtOne(n: nat, total: nat)
    requires 0 < n && 0 < total
    ensures Progression(n, total)[n - 1].Value() == 1.0 <==> n == total
  {
    var v := Progression(n, total)[n - 1].Value();
    assert v == n as real / total as real;
    if v == 1.0 {
      assert n as real == v * total as real;
    }
  }
}
