/**
 The waveform the window shows: 960 points, point `i` being the sample at
 index `i * (frameIndex / 960)` of the capture buffer. The live view keeps
 those points in an array; the view after STOP draws the segments between
 consecutive points straight from the buffer. Scaling by the display gain and
 the drawing itself are floating point and rendering, not part of this model.
 */
module Waveform {
  import opened Capture

  /** Points in the waveform, one per pixel column of the 960-pixel-wide window. */
  const WIDTH: nat := 960

  /** Frames between consecutive points: `frameIndex / 960`, zero below 960 frames. */
  function Stride(n: nat): (q: nat) {
    n / WIDTH
  }

  lemma StrideBelow(i: nat, n: nat)
    requires i < WIDTH
    ensures i * Stride(n) <= n - Stride(n)
  {
    var q := Stride(n);
    assert i * q <= (WIDTH - 1) * q by {
      MulMonotone(i, WIDTH - 1, q);
    }
    assert WIDTH * q <= n;
  }

  lemma {:induction false} MulMonotone(a: nat, b: nat, q: nat)
    requires a <= b
    ensures a * q <= b * q
    decreases b - a
  {
    if a < b {
      MulMonotone(a, b - 1, q);
      assert b * q == (b - 1) * q + q;
    }
  }

  /** The buffer index of point `i` when `n` frames have been captured. */
  function Index(i: nat, n: nat): (k: nat)
    requires i < WIDTH
    ensures n > 0 ==> k < n
    ensures n < WIDTH ==> k == 0
  {
    StrideBelow(i, n);
    i * Stride(n)
  }

  /** Consecutive points are exactly one stride apart. */
  lemma IndexStep(i: nat, n: nat)
    requires i + 1 < WIDTH
    ensures Index(i + 1, n) == Index(i, n) + Stride(n)
  {
  }

  /**
   The points are in buffer order, and with at least 960 frames no two points
   share a sample.
   */
  lemma {:induction false} IndexMonotone(i: nat, j: nat, n: nat)
    requires i <= j < WIDTH
    ensures Index(i, n) <= Index(j, n)
    ensures n >= WIDTH && i < j ==> Index(i, n) < Index(j, n)
    decreases j - i
  {
    if i < j {
      IndexMonotone(i, j - 1, n);
      IndexStep(j - 1, n);
    }
  }

  /**
   Every point reads sample 0 exactly when fewer than 960 frames have been
   captured; in particular the source has no special value for an empty buffer.
   */
  lemma AllPointsAtZeroIffShort(n: nat)
    ensures (forall i :: 0 <= i < WIDTH ==> Index(i, n) == 0) <==> n < WIDTH
  {
    if n >= WIDTH {
      assert Index(1, n) == Stride(n) > 0;
    }
  }

  /**
   With at least 960 frames, point `i` is the first sample of the `i`-th of 960
   equal windows of `Stride(n)` frames, and all windows lie inside the captured frames.
   */
  lemma PointOpensWindow(i: nat, n: nat)
    requires i < WIDTH && n >= WIDTH
    ensures Stride(n) >= 1
    ensures Index(i, n) + Stride(n) <= n
  {
    StrideBelow(i, n);
  }

  /**
   The samples `updateWaveform` stores in the waveform array (before
   scaling): once something is captured every point is a captured sample,
   and below 960 frames every point is sample 0 of the buffer.
   */
  function Downsample(buf: seq<Sample>, n: nat): (w: seq<Sample>)
    requires 0 < |buf| && n <= |buf|
    ensures |w| == WIDTH
    ensures n > 0 ==> forall i :: 0 <= i < WIDTH ==> w[i] in buf[..n]
    ensures n < WIDTH ==> forall i :: 0 <= i < WIDTH ==> w[i] == buf[0]
  {
    var w := seq(WIDTH, i requires 0 <= i < WIDTH => buf[Index(i, n)]);
    assert n > 0 ==> forall i :: 0 <= i < WIDTH ==> w[i] == buf[..n][Index(i, n)];
    w
  }

  /**
   The segments `showFullWaveform` draws, from point `i` to point `i + 1`:
   they form one connected polyline that starts at sample 0 of the buffer.
   */
  function FullSegments(buf: seq<Sample>, n: nat): (segs: seq<(Sample, Sample)>)
    requires 0 < |buf| && n <= |buf|
    ensures |segs| == WIDTH - 1
    ensures segs[0].0 == buf[0]
    ensures forall i :: 0 <= i < WIDTH - 2 ==> segs[i].1 == segs[i + 1].0
  {
    seq(WIDTH - 1, i requires 0 <= i < WIDTH - 1 => (buf[Index(i, n)], buf[Index(i + 1, n)]))
  }

  /**
   With nothing captured the waveform is not necessarily silent: it repeats
   whatever sample 0 of the buffer holds from before.
   */
  lemma EmptyWaveformNotSilent()
    ensures Downsample([1], 0) != Zeros(WIDTH)
  {
    assert Downsample([1], 0)[0] == 1;
  }

  /**
   The segments drawn after STOP join the same points the live view stores:
   segment `i` runs from point `i` to point `i + 1`, so the polyline is connected.
   */
  lemma SegmentsJoinPoints(buf: seq<Sample>, n: nat)
    requires 0 < |buf| && n <= |buf|
    ensures forall i :: 0 <= i < WIDTH - 1 ==>
      FullSegments(buf, n)[i] == (Downsample(buf, n)[i], Downsample(buf, n)[i + 1])
  {
  }
}
