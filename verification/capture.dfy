/**
 The capture buffer (`AudioData`) and what one invocation of the capture
 callback does to it, stated as functions of the buffer contents, the write
 cursor and the chunk the audio backend delivers. The class `Recorder`
 carries out the same effect in place with the callback's own loops.
 */
module Capture {

  /** A 32-bit float sample, carried as its bit pattern: the recorder only copies samples. */
  type Sample = bv32

  /** The bit pattern of 0.0f, which is also what zero-filling the memory leaves. */
  const Silence: Sample := 0

  /** Frames the process allocates for the capture buffer: 48000 * 10. */
  const BUFFER_SIZE: nat := 48000 * 10

  /** Frames per callback that the stream is opened with. */
  const FRAMES_PER_BUFFER: nat := 512

  /** What the audio backend hands to the callback: no input buffer at all, or a chunk of captured samples. */
  datatype Chunk = NoInput(frames: nat) | Input(samples: seq<Sample>)

  /** The callback's return value: keep invoking the callback, or the stream is finished. */
  datatype StreamStatus = Continue | Complete

  function FramesPerBuffer(c: Chunk): (frames: nat) {
    match c
    case NoInput(n) => n
    case Input(s) => |s|
  }

  function Zeros(n: nat): (z: seq<Sample>)
    ensures |z| == n
    ensures forall k :: 0 <= k < n ==> z[k] == Silence
  {
    seq(n, _ => Silence)
  }

  /** `buf` with `piece` copied over it starting at index `at`. */
  function Overwrite(buf: seq<Sample>, at: nat, piece: seq<Sample>): (r: seq<Sample>)
    requires at + |piece| <= |buf|
    ensures |r| == |buf|
  {
    buf[..at] + piece + buf[at + |piece|..]
  }

  lemma OverwriteAt(buf: seq<Sample>, at: nat, piece: seq<Sample>, k: nat)
    requires at + |piece| <= |buf| && k < |buf|
    ensures Overwrite(buf, at, piece)[k] == if at <= k < at + |piece| then piece[k - at] else buf[k]
  {
  }

  /**
   How many frames of an `n`-frame chunk the bounds-checked copy writes:
   all of them if they fit, otherwise exactly the room left.
   */
  function Fitting(cursor: nat, capacity: nat, n: nat): (w: nat)
    requires cursor <= capacity
    ensures w <= n && cursor + w <= capacity
    ensures w < n ==> cursor + w == capacity
    ensures capacity - cursor >= n ==> w == n
  {
    if n <= capacity - cursor then n else capacity - cursor
  }

  /**
   The callback is memory-safe: the cursor is inside the buffer, and a chunk
   without input buffer, which is zero-filled WITHOUT a bounds check, fits.
   */
  predicate CallbackSafe(cursor: nat, capacity: nat, c: Chunk) {
    cursor <= capacity && (c.NoInput? ==> cursor + c.frames <= capacity)
  }

  /** How far the callback moves the write cursor. */
  function Advance(cursor: nat, capacity: nat, c: Chunk): (w: nat)
    requires CallbackSafe(cursor, capacity, c)
    ensures cursor + w <= capacity && w <= FramesPerBuffer(c)
  {
    match c
    case NoInput(n) => n
    case Input(s) => Fitting(cursor, capacity, |s|)
  }

  /** Whether some frame of the chunk found no room (the per-frame `else` branch). */
  function Overflows(cursor: nat, capacity: nat, c: Chunk): (b: bool)
    requires CallbackSafe(cursor, capacity, c)
    ensures b <==> Advance(cursor, capacity, c) < FramesPerBuffer(c)
    ensures b ==> c.Input? && cursor + Advance(cursor, capacity, c) == capacity
  {
    c.Input? && Fitting(cursor, capacity, |c.samples|) < |c.samples|
  }

  /** The first `w` frames of the chunk: zeros without an input buffer, else the captured samples. */
  function Leading(c: Chunk, w: nat): (r: seq<Sample>)
    requires w <= FramesPerBuffer(c)
    ensures |r| == w
  {
    match c
    case NoInput(_) => Zeros(w)
    case Input(s) => s[..w]
  }

  /**
   The buffer after the callback: frame `j` of the chunk lands at
   `cursor + j` for each frame that is written (zero without an input
   buffer), and every other cell keeps its value.
   */
  function AfterChunk(buf: seq<Sample>, cursor: nat, c: Chunk): (r: seq<Sample>)
    requires CallbackSafe(cursor, |buf|, c)
    ensures |r| == |buf|
    ensures forall k :: 0 <= k < |buf| ==>
      r[k] == (if cursor <= k < cursor + Advance(cursor, |buf|, c) then (if c.Input? then c.samples[k - cursor] else Silence) else buf[k])
  {
    var w := Advance(cursor, |buf|, c);
    var r := Overwrite(buf, cursor, Leading(c, w));
    assert forall k :: 0 <= k < |buf| ==> r[k] == if cursor <= k < cursor + w then Leading(c, w)[k - cursor] else buf[k];
    r
  }

  /** The stop flag after the callback: set on overflow, never cleared. */
  function StopAfter(stop: bool, cursor: nat, capacity: nat, c: Chunk): (b: bool)
    requires CallbackSafe(cursor, capacity, c)
    ensures b <==> stop || Advance(cursor, capacity, c) < FramesPerBuffer(c)
  {
    stop || Overflows(cursor, capacity, c)
  }

  /** The callback's answer: complete once the stop flag is set, otherwise continue. */
  function StatusOf(stop: bool): (status: StreamStatus) {
    if stop then Complete else Continue
  }

  /**
   The effect of one callback, cell by cell: frame `j` of the chunk lands at
   `cursor + j` for each frame that is written (zero without an input
   buffer), every other cell keeps its value, and the callback asks to
   continue exactly when the stop flag was clear and every frame fitted.
   */
  lemma CallbackEffect(buf: seq<Sample>, cursor: nat, c: Chunk, stop: bool, k: nat)
    requires CallbackSafe(cursor, |buf|, c) && k < |buf|
    ensures var w := Advance(cursor, |buf|, c);
      && w == (if c.Input? && |buf| - cursor < |c.samples| then |buf| - cursor else FramesPerBuffer(c))
      && AfterChunk(buf, cursor, c)[k] ==
           (if cursor <= k < cursor + w then (if c.Input? then c.samples[k - cursor] else Silence) else buf[k])
      && (StatusOf(StopAfter(stop, cursor, |buf|, c)) == Continue <==> !stop && w == FramesPerBuffer(c))
  {
    var w := Advance(cursor, |buf|, c);
    OverwriteAt(buf, cursor, Leading(c, w), k);
  }

  // ---------------------------------------------------------------------
  // A run of captured chunks, each appended by one callback invocation.
  // ---------------------------------------------------------------------

  function Concat(chunks: seq<seq<Sample>>): (r: seq<Sample>)
  {
    if chunks == [] then [] else chunks[0] + Concat(chunks[1..])
  }

  function CursorAfter(cursor: nat, capacity: nat, chunks: seq<seq<Sample>>): (r: nat)
    requires cursor <= capacity
    ensures cursor <= r <= capacity
    decreases |chunks|
  {
    if chunks == [] then cursor
    else CursorAfter(cursor + Advance(cursor, capacity, Input(chunks[0])), capacity, chunks[1..])
  }

  function BufferAfter(buf: seq<Sample>, cursor: nat, chunks: seq<seq<Sample>>): (r: seq<Sample>)
    requires cursor <= |buf|
    ensures |r| == |buf|
    decreases |chunks|
  {
    if chunks == [] then buf
    else
      var c := Input(chunks[0]);
      BufferAfter(AfterChunk(buf, cursor, c), cursor + Advance(cursor, |buf|, c), chunks[1..])
  }

  /** The stop flag after a run of chunks: never cleared, and set only with the cursor at the end of the buffer. */
  function StopAfterAll(stop: bool, cursor: nat, capacity: nat, chunks: seq<seq<Sample>>): (b: bool)
    requires cursor <= capacity
    ensures stop ==> b
    ensures b ==> stop || CursorAfter(cursor, capacity, chunks) == capacity
    decreases |chunks|
  {
    if chunks == [] then stop
    else
      var c := Input(chunks[0]);
      StopAfterAll(StopAfter(stop, cursor, capacity, c), cursor + Advance(cursor, capacity, c), capacity, chunks[1..])
  }

  /**
   The cursor after a run of chunks is the number of frames offered, capped
   at the capacity: it never passes the end of the buffer, and it saturates
   there exactly when more was offered than fits.
   */
  lemma {:induction false} CursorSaturates(cursor: nat, capacity: nat, chunks: seq<seq<Sample>>)
    requires cursor <= capacity
    ensures CursorAfter(cursor, capacity, chunks) ==
      if cursor + |Concat(chunks)| <= capacity then cursor + |Concat(chunks)| else capacity
    decreases |chunks|
  {
    if chunks != [] {
      var next := cursor + Advance(cursor, capacity, Input(chunks[0]));
      CursorSaturates(next, capacity, chunks[1..]);
    }
  }

  /**
   The stop flag ends a run of chunks set exactly when it was set before or
   more frames were offered than fit behind the cursor.
   */
  lemma {:induction false} StopIffOverflow(stop: bool, cursor: nat, capacity: nat, chunks: seq<seq<Sample>>)
    requires cursor <= capacity
    ensures StopAfterAll(stop, cursor, capacity, chunks) <==> stop || cursor + |Concat(chunks)| > capacity
    decreases |chunks|
  {
    if chunks != [] {
      var c := Input(chunks[0]);
      StopIffOverflow(StopAfter(stop, cursor, capacity, c), cursor + Advance(cursor, capacity, c), capacity, chunks[1..]);
    }
  }

  /** Chunks of `m` frames each make a stream of `m` frames per chunk. */
  lemma {:induction false} ConcatUniformLength(chunks: seq<seq<Sample>>, m: nat)
    requires forall i :: 0 <= i < |chunks| ==> |chunks[i]| == m
    ensures |Concat(chunks)| == |chunks| * m
    decreases |chunks|
  {
    if chunks != [] {
      ConcatUniformLength(chunks[1..], m);
      assert |Concat(chunks)| == m + (|chunks| - 1) * m;
    }
  }

  /**
   Into an empty buffer of `BUFFER_SIZE` frames, callbacks of
   `FRAMES_PER_BUFFER` frames each set the stop flag exactly once there are
   more of them than `BUFFER_SIZE / FRAMES_PER_BUFFER` (937).
   */
  lemma ChunksOverflowAfter(chunks: seq<seq<Sample>>)
    requires forall i :: 0 <= i < |chunks| ==> |chunks[i]| == FRAMES_PER_BUFFER
    ensures BUFFER_SIZE / FRAMES_PER_BUFFER == 937
    ensures StopAfterAll(false, 0, BUFFER_SIZE, chunks) <==> |chunks| > BUFFER_SIZE / FRAMES_PER_BUFFER
  {
    ConcatUniformLength(chunks, FRAMES_PER_BUFFER);
    StopIffOverflow(false, 0, BUFFER_SIZE, chunks);
  }

  /** One frame of the buffer after a run of chunks. */
  lemma {:induction false} BufferAfterAt(buf: seq<Sample>, cursor: nat, chunks: seq<seq<Sample>>, k: nat)
    requires cursor <= |buf| && k < |buf|
    ensures CursorAfter(cursor, |buf|, chunks) - cursor <= |Concat(chunks)|
    ensures BufferAfter(buf, cursor, chunks)[k] ==
      if cursor <= k < CursorAfter(cursor, |buf|, chunks) then Concat(chunks)[k - cursor] else buf[k]
    decreases |chunks|
  {
    if chunks != [] {
      var c := Input(chunks[0]);
      var w := Advance(cursor, |buf|, c);
      var buf1 := AfterChunk(buf, cursor, c);
      var tail := chunks[1..];
      assert Concat(chunks) == chunks[0] + Concat(tail);
      BufferAfterAt(buf1, cursor + w, tail, k);
      if w < |chunks[0]| {
        assert CursorAfter(cursor + w, |buf|, tail) == cursor + w;
      }
    }
  }

  /**
   After a run of chunks, the buffer holds its old frames before the start
   cursor, then as much of the captured stream as fitted, then its old
   frames from the end cursor on.
   */
  lemma BufferHoldsStream(buf: seq<Sample>, cursor: nat, chunks: seq<seq<Sample>>)
    requires cursor <= |buf|
    ensures CursorAfter(cursor, |buf|, chunks) - cursor <= |Concat(chunks)|
    ensures BufferAfter(buf, cursor, chunks) ==
      buf[..cursor] + Concat(chunks)[..CursorAfter(cursor, |buf|, chunks) - cursor] + buf[CursorAfter(cursor, |buf|, chunks)..]
  {
    var end := CursorAfter(cursor, |buf|, chunks);
    var stream := Concat(chunks);
    if |buf| > 0 {
      BufferAfterAt(buf, cursor, chunks, 0);
      var after := BufferAfter(buf, cursor, chunks);
      var expected := buf[..cursor] + stream[..end - cursor] + buf[end..];
      assert |expected| == |buf|;
      forall k | 0 <= k < |buf|
        ensures after[k] == expected[k]
      {
        BufferAfterAt(buf, cursor, chunks, k);
        if k < cursor {
          assert expected[k] == buf[k];
        } else if k < end {
          assert expected[k] == stream[k - cursor];
        } else {
          assert expected[k] == buf[k];
        }
      }
      assert after == expected;
    }
  }

  /** The buffer the process captures into: `buffer`, `maxFrames`, `frameIndex`. */
  class AudioData {
    const buffer: array<Sample>
    const maxFrames: nat
    var frameIndex: nat

    ghost predicate Valid()
      reads this
    {
      buffer.Length == maxFrames && 0 < maxFrames && frameIndex <= maxFrames
    }

    /** The allocation at start-up; `initial` stands for whatever the fresh memory holds. */
    constructor (initial: seq<Sample>)
      requires |initial| > 0
      ensures Valid() && fresh(buffer)
      ensures buffer[..] == initial && maxFrames == |initial| && frameIndex == 0
    {
      buffer := new Sample[|initial|](k requires 0 <= k < |initial| => initial[k]);
      maxFrames := |initial|;
      frameIndex := 0;
    }
  }
}
