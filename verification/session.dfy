/**
 The recording session as a state machine over the process's shared state:
 the capture buffer and its cursor, the flags `recording`, `stopRecording`
 and `deleteRecording`, the start tick, the file name shown in the window,
 whether the main loop is to end, and whether the user interface thread is
 blocked in the join of a STOP click.

 The capture thread and the user interface thread are sequentialised into
 atomic events:
   - the audio backend delivers a chunk to the callback;
   - the capture thread's polling loop checks its condition once;
   - a mouse click, or a quit request;
   - the join of a STOP click returns.
 A click on REC runs the new thread's set-up (reset, open and start the
 stream) as part of the click. A click on STOP sets `stopRecording` and
 blocks the user interface thread in the join: while it waits, the callback
 may still be invoked and the polling loop checks again; once the thread has
 ended, the join returns and the file is named and saved. The outcomes of
 the foreign calls an event makes (opening and starting the stream, the
 clocks, opening the output file) are inputs.
 */
module StateMachine {
  import opened Capture
  import opened Clock
  import opened Text

  datatype Option<T> = None | Some(value: T)

  datatype Button = RecButton | StopButton | DeleteButton | ExitButton | Elsewhere

  /**
   What the outside world answers during an event: whether the stream opens
   and starts, the millisecond tick counter, the calendar clock in seconds,
   and whether the output file opens.
   */
  datatype Env = Env(openOk: bool, startOk: bool, ticks: Uint32, clock: int, fileOk: bool)

  datatype Event =
    | Deliver(chunk: Chunk)
    | Poll
    | Click(button: Button, env: Env)
    | JoinReturns(env: Env)
    | QuitRequest

  datatype Session = Session(
    buffer: seq<Sample>,
    frameIndex: nat,
    recording: bool,
    stopRecording: bool,
    deleteRecording: bool,
    streamActive: bool,
    startTime: Uint32,
    savePath: string,
    quit: bool,
    joining: bool)

  /**
   The buffer is allocated and the cursor inside it; the stream only runs
   while the capture thread has recording set; a join only waits for a
   thread that has been asked to stop.
   */
  predicate Inv(s: Session) {
    && 0 < |s.buffer| && s.frameIndex <= |s.buffer|
    && (s.streamActive ==> s.recording)
    && (s.joining ==> s.stopRecording)
  }

  /** The state when the main loop starts: `initial` is whatever the fresh allocation holds. */
  function Boot(initial: seq<Sample>): (s: Session) {
    Session(initial, 0, false, false, false, false, 0, "", false, false)
  }

  /**
   When an event can happen: the backend invokes the callback only while the
   stream runs, and (the callback does not check it) a chunk without input
   buffer must fit; the polling loop only runs inside a live capture thread;
   the user interface handles no event while it is blocked in a join, and
   the join returns only once the capture thread has ended. So the capture
   side only acts while a session records, and once recording is clear and
   no join waits, only the user can act.
   */
  predicate Enabled(s: Session, e: Event)
    ensures Enabled(s, e) && Inv(s) && (e.Deliver? || e.Poll?) ==> s.recording
    ensures Enabled(s, e) && s.joining ==> e.Deliver? || e.Poll? || e.JoinReturns?
    ensures Enabled(s, e) && Inv(s) && !s.recording && !s.joining ==> e.Click? || e.QuitRequest?
  {
    match e
    case Deliver(c) => s.streamActive && CallbackSafe(s.frameIndex, |s.buffer|, c)
    case Poll => s.recording
    case Click(_, _) => !s.joining
    case JoinReturns(_) => s.joining && !s.recording
    case QuitRequest => !s.joining
  }

  /**
   The file name STOP saves to: `recording-%ld.wav` of the calendar clock.
   The digits between the prefix and the extension read back to the clock,
   after a minus sign when it is negative.
   */
  function SaveName(clock: int): (name: string)
    ensures |name| >= 15 && name[..10] == "recording-" && name[|name| - 4..] == ".wav"
    ensures clock >= 0 ==> AllDigits(name[10..|name| - 4]) && DigitsValue(name[10..|name| - 4]) == clock
    ensures clock < 0 ==> name[10] == '-' && AllDigits(name[11..|name| - 4]) && DigitsValue(name[11..|name| - 4]) == -clock
  {
    var name := "recording-" + Signed(clock) + ".wav";
    assert name[10..|name| - 4] == Signed(clock);
    assert clock < 0 ==> name[11..|name| - 4] == Signed(clock)[1..];
    name
  }

  /**
   The capture thread up to its polling loop: cursor reset and stop flag
   cleared before the stream is opened; only a stream that opens and starts
   sets recording and takes the start tick; the buffer, the file name and
   the user interface's flags are left alone.
   */
  function Start(s: Session, env: Env): (r: Session)
    ensures r.frameIndex == 0 && !r.stopRecording
    ensures env.openOk && env.startOk ==> r.recording && r.streamActive && r.startTime == env.ticks
    ensures !(env.openOk && env.startOk) ==> r.recording == s.recording && r.streamActive == s.streamActive
    ensures r.buffer == s.buffer && r.savePath == s.savePath && r.joining == s.joining
    ensures r.quit == s.quit && r.deleteRecording == s.deleteRecording
    ensures Inv(s) && !s.joining ==> Inv(r)
  {
    var reset := s.(frameIndex := 0, stopRecording := false);
    if env.openOk && env.startOk then reset.(recording := true, streamActive := true, startTime := env.ticks)
    else reset
  }

  /**
   The capture thread after its polling loop: stream closed, recording
   cleared, thread ended; the captured frames, the cursor and the flags the
   user interface reads are kept.
   */
  function Finish(s: Session): (r: Session)
    ensures !r.recording && !r.streamActive
    ensures r.buffer == s.buffer && r.frameIndex == s.frameIndex
    ensures r.stopRecording == s.stopRecording && r.joining == s.joining && r.savePath == s.savePath
    ensures Inv(s) ==> Inv(r)
  {
    s.(recording := false, streamActive := false)
  }

  function Step(s: Session, e: Event): (r: Session)
    requires Inv(s) && Enabled(s, e)
    ensures Inv(r)
  {
    match e
    case Deliver(c) =>
      var stop := StopAfter(s.stopRecording, s.frameIndex, |s.buffer|, c);
      s.(buffer := AfterChunk(s.buffer, s.frameIndex, c),
         frameIndex := s.frameIndex + Advance(s.frameIndex, |s.buffer|, c),
         stopRecording := stop,
         streamActive := StatusOf(stop) == Continue)
    case Poll =>
      if s.streamActive && !s.stopRecording then s else Finish(s)
    case Click(b, env) =>
      (match b
       case RecButton => if !s.recording then Start(s, env) else s
       case StopButton => if s.recording then s.(stopRecording := true, joining := true) else s
       case DeleteButton => s.(deleteRecording := true, savePath := "", buffer := Zeros(|s.buffer|))
       case ExitButton => s.(quit := true)
       case Elsewhere => s)
    case JoinReturns(env) => s.(joining := false, savePath := SaveName(env.clock))
    case QuitRequest => s.(quit := true)
  }

  /**
   The frames handed to the file writer: something is written exactly when a
   STOP's join returns and the file opens, and then it is the buffer's
   frames before the cursor.
   */
  function Saved(s: Session, e: Event): (saved: Option<seq<Sample>>)
    requires Inv(s)
    ensures saved.Some? <==> e.JoinReturns? && s.joining && e.env.fileOk
    ensures saved.Some? ==> |saved.value| == s.frameIndex && saved.value <= s.buffer
  {
    if e.JoinReturns? && s.joining && e.env.fileOk then Some(s.buffer[..s.frameIndex])
    else None
  }

  // ---------------------------------------------------------------------
  // Runs of events
  // ---------------------------------------------------------------------

  predicate Runs(s: Session, es: seq<Event>)
    requires Inv(s)
    decreases |es|
  {
    es == [] || (Enabled(s, es[0]) && Runs(Step(s, es[0]), es[1..]))
  }

  function Final(s: Session, es: seq<Event>): (r: Session)
    requires Inv(s) && Runs(s, es)
    ensures Inv(r)
    decreases |es|
  {
    if es == [] then s else Final(Step(s, es[0]), es[1..])
  }

  predicate StartsStream(e: Event) {
    e.Click? && e.button == RecButton && e.env.openOk && e.env.startOk
  }

  predicate IsRec(e: Event) {
    e.Click? && e.button == RecButton
  }

  /** The backend delivering each chunk of `cs` in turn to the callback. */
  function Delivers(cs: seq<seq<Sample>>): (es: seq<Event>)
    ensures |es| == |cs|
    ensures forall i :: 0 <= i < |cs| ==> es[i] == Deliver(Input(cs[i]))
  {
    seq(|cs|, i requires 0 <= i < |cs| => Deliver(Input(cs[i])))
  }

  // ---------------------------------------------------------------------
  // Single events
  // ---------------------------------------------------------------------

  /**
   REC while idle starts a session: cursor reset and stop flag cleared before
   the stream is opened; recording is set only if the stream opens and starts,
   and then the start tick is taken.
   */
  lemma RecStartsSession(s: Session, env: Env)
    requires Inv(s) && !s.recording && !s.joining
    ensures var r := Step(s, Click(RecButton, env));
      && r.frameIndex == 0 && !r.stopRecording
      && (r.recording <==> env.openOk && env.startOk)
      && (r.recording ==> r.streamActive && r.startTime == env.ticks)
      && r.buffer == s.buffer && r.savePath == s.savePath
  {
  }

  /** REC while recording changes nothing: no second session, no second stream. */
  lemma RecIgnoredWhileRecording(s: Session, env: Env)
    requires Inv(s) && s.recording && !s.joining
    ensures Step(s, Click(RecButton, env)) == s
  {
  }

  /** STOP while not recording changes nothing, and no join follows, so nothing is saved. */
  lemma StopIgnoredWhenIdle(s: Session, env: Env, env2: Env)
    requires Inv(s) && !s.recording && !s.joining
    ensures Step(s, Click(StopButton, env)) == s && !Enabled(s, JoinReturns(env2))
  {
  }

  /**
   STOP while recording sets the stop flag and blocks in the join. The
   polling loop then ends the capture thread, whereupon the join returns,
   the file is named after the calendar clock and exactly the frames before
   the cursor are saved.
   */
  lemma StopEndsAndSaves(s: Session, env: Env, env2: Env)
    requires Inv(s) && s.recording && !s.joining
    ensures var s1 := Step(s, Click(StopButton, env));
      && s1.stopRecording && s1.joining && s1.recording
      && s1.buffer == s.buffer && s1.frameIndex == s.frameIndex
      && var s2 := Step(s1, Poll);
      && !s2.recording && !s2.streamActive && Enabled(s2, JoinReturns(env2))
      && var s3 := Step(s2, JoinReturns(env2));
      && !s3.joining && s3.savePath == SaveName(env2.clock)
      && s3.buffer == s.buffer && s3.frameIndex == s.frameIndex
      && Saved(s2, JoinReturns(env2)) == (if env2.fileOk then Some(s.buffer[..s.frameIndex]) else None)
  {
  }

  /**
   Once the join has returned, nothing more is captured until the next REC:
   whatever else happens, the cursor stays where the session left it, no
   stream runs and nothing records.
   */
  lemma {:induction false} NoCaptureAfterJoin(s: Session, es: seq<Event>)
    requires Inv(s) && !s.recording && !s.joining && Runs(s, es)
    requires forall k :: 0 <= k < |es| ==> !IsRec(es[k])
    ensures var r := Final(s, es);
      r.frameIndex == s.frameIndex && !r.streamActive && !r.recording && !r.joining
    decreases |es|
  {
    if es != [] {
      assert !IsRec(es[0]);
      var s1 := Step(s, es[0]);
      assert !s1.recording && !s1.joining && s1.frameIndex == s.frameIndex;
      NoCaptureAfterJoin(s1, es[1..]);
    }
  }

  /**
   STOP is final for the session it ends: after the join has returned, any
   run of events without a REC leaves the cursor at the saved length and
   captures nothing more.
   */
  lemma StopIsFinal(s: Session, env: Env, env2: Env, es: seq<Event>)
    requires Inv(s) && s.recording && !s.joining
    requires Runs(Step(Step(Step(s, Click(StopButton, env)), Poll), JoinReturns(env2)), es)
    requires forall k :: 0 <= k < |es| ==> !IsRec(es[k])
    ensures var r := Final(Step(Step(Step(s, Click(StopButton, env)), Poll), JoinReturns(env2)), es);
      r.frameIndex == s.frameIndex && !r.streamActive && !r.recording
  {
    StopEndsAndSaves(s, env, env2);
    NoCaptureAfterJoin(Step(Step(Step(s, Click(StopButton, env)), Poll), JoinReturns(env2)), es);
  }

  /**
   A chunk the callback receives while STOP waits in the join is still
   copied, finishes the stream, and is part of the saved frames.
   */
  lemma StopSavesLateChunk(s: Session, env: Env, late: seq<Sample>, env2: Env)
    requires Inv(s) && s.recording && !s.joining && s.streamActive
    requires s.frameIndex + |late| <= |s.buffer|
    ensures var s1 := Step(s, Click(StopButton, env));
      && Enabled(s1, Deliver(Input(late)))
      && var s2 := Step(s1, Deliver(Input(late)));
      && s2.frameIndex == s.frameIndex + |late| && !s2.streamActive
      && var s3 := Step(s2, Poll);
      && Saved(s3, JoinReturns(env2)) == (if env2.fileOk then Some(s.buffer[..s.frameIndex] + late) else None)
  {
    var s1 := Step(s, Click(StopButton, env));
    var s2 := Step(s1, Deliver(Input(late)));
    var n := s.frameIndex + |late|;
    assert Advance(s.frameIndex, |s.buffer|, Input(late)) == |late|;
    assert s2.buffer == s.buffer[..s.frameIndex] + late + s.buffer[n..];
    assert s2.buffer[..n] == s.buffer[..s.frameIndex] + late;
  }

  /**
   While a join waits for a live capture thread, the next check of the
   polling loop ends that thread (the stop flag is set), so the join can return.
   */
  lemma JoinWaitsForThread(s: Session, env: Env)
    requires Inv(s) && s.joining && s.recording
    ensures Enabled(s, Poll) && Enabled(Step(s, Poll), JoinReturns(env))
  {
  }

  /**
   DELETE, allowed in every state the user interface handles events in, and
   so also while recording, clears the file name and zeroes the whole buffer,
   but leaves the cursor and the session flags alone.
   */
  lemma DeleteZeroesBuffer(s: Session, env: Env)
    requires Inv(s) && !s.joining
    ensures var r := Step(s, Click(DeleteButton, env));
      && r.savePath == "" && r.deleteRecording
      && |r.buffer| == |s.buffer| && (forall k :: 0 <= k < |r.buffer| ==> r.buffer[k] == Silence)
      && r.frameIndex == s.frameIndex
      && r.recording == s.recording && r.stopRecording == s.stopRecording && r.streamActive == s.streamActive
  {
  }

  /** The polling loop ends the thread once the stop flag is set or the stream has finished. */
  lemma PollEndsThread(s: Session)
    requires Inv(s) && s.recording
    ensures var r := Step(s, Poll);
      (s.stopRecording || !s.streamActive ==> !r.recording && !r.streamActive && r.frameIndex == s.frameIndex)
      && (!s.stopRecording && s.streamActive ==> r == s)
  {
  }

  /**
   A chunk moves the cursor by the frames it wrote and never past the end;
   the stream keeps running only if the stop flag stays clear, and the flag,
   once set, stays set.
   */
  lemma DeliverKeepsCursorInBuffer(s: Session, c: Chunk)
    requires Inv(s) && Enabled(s, Deliver(c))
    ensures var r := Step(s, Deliver(c));
      && s.frameIndex <= r.frameIndex <= |r.buffer| == |s.buffer|
      && (s.stopRecording ==> r.stopRecording)
      && (r.streamActive <==> !r.stopRecording)
      && (c.Input? ==> (r.stopRecording <==> s.stopRecording || s.frameIndex + |c.samples| > |s.buffer|))
  {
  }

  // ---------------------------------------------------------------------
  // Runs of events
  // ---------------------------------------------------------------------

  /** A session is only ever recording after a REC whose stream opened and started. */
  lemma {:induction false} RecordingNeedsStartedStream(s: Session, es: seq<Event>)
    requires Inv(s) && Runs(s, es) && !s.recording
    requires Final(s, es).recording
    ensures exists k :: 0 <= k < |es| && StartsStream(es[k])
    decreases |es|
  {
    var s1 := Step(s, es[0]);
    if StartsStream(es[0]) {
      assert StartsStream(es[0]);
    } else {
      assert !s1.recording;
      RecordingNeedsStartedStream(s1, es[1..]);
      var k :| 0 <= k < |es| - 1 && StartsStream(es[1..][k]);
      assert StartsStream(es[k + 1]);
    }
  }

  /** Without a new REC, the stop flag stays set once it is set: only starting a session clears it. */
  lemma {:induction false} StopFlagSticky(s: Session, es: seq<Event>)
    requires Inv(s) && Runs(s, es) && s.stopRecording
    requires forall k :: 0 <= k < |es| ==> !IsRec(es[k])
    ensures Final(s, es).stopRecording
    decreases |es|
  {
    if es != [] {
      assert !IsRec(es[0]);
      StopFlagSticky(Step(s, es[0]), es[1..]);
    }
  }

  /** Without a new REC, the cursor never moves back: only starting a session resets it. */
  lemma {:induction false} CursorNeverMovesBack(s: Session, es: seq<Event>)
    requires Inv(s) && Runs(s, es)
    requires forall k :: 0 <= k < |es| ==> !IsRec(es[k])
    ensures s.frameIndex <= Final(s, es).frameIndex <= |Final(s, es).buffer| == |s.buffer|
    decreases |es|
  {
    if es != [] {
      assert !IsRec(es[0]);
      CursorNeverMovesBack(Step(s, es[0]), es[1..]);
    }
  }

  /**
   A run of deliveries does to the session what the run-of-chunks functions
   say: the buffer, the cursor and the stop flag are those of
   `BufferAfter`, `CursorAfter` and `StopAfterAll`, and nothing else changes
   but whether the stream still runs.
   */
  lemma {:induction false} RunOfChunks(s: Session, cs: seq<seq<Sample>>)
    requires Inv(s) && Runs(s, Delivers(cs))
    ensures Final(s, Delivers(cs)) == s.(
      buffer := BufferAfter(s.buffer, s.frameIndex, cs),
      frameIndex := CursorAfter(s.frameIndex, |s.buffer|, cs),
      stopRecording := StopAfterAll(s.stopRecording, s.frameIndex, |s.buffer|, cs),
      streamActive := if cs == [] then s.streamActive else !StopAfterAll(s.stopRecording, s.frameIndex, |s.buffer|, cs))
    decreases |cs|
  {
    if cs != [] {
      assert Delivers(cs)[1..] == Delivers(cs[1..]);
      RunOfChunks(Step(s, Delivers(cs)[0]), cs[1..]);
    }
  }

  /**
   End to end: REC with a stream that opens and starts, then the chunks `cs`,
   then STOP, the polling loop's next check and the join returning: the file
   writer receives exactly the captured stream, cut at the capacity of the
   buffer.
   */
  lemma RecordThenStopSaves(s: Session, rec: Env, cs: seq<seq<Sample>>, stop: Env)
    requires Inv(s) && !s.recording && !s.joining && rec.openOk && rec.startOk
    requires Runs(Step(s, Click(RecButton, rec)), Delivers(cs))
    ensures var s1 := Final(Step(s, Click(RecButton, rec)), Delivers(cs));
      && s1.recording && !s1.joining
      && var s2 := Step(Step(s1, Click(StopButton, stop)), Poll);
      && Enabled(s2, JoinReturns(stop))
      && Saved(s2, JoinReturns(stop)) ==
           (if stop.fileOk then Some(Concat(cs)[..if |Concat(cs)| <= |s.buffer| then |Concat(cs)| else |s.buffer|]) else None)
  {
    var s0 := Step(s, Click(RecButton, rec));
    RunOfChunks(s0, cs);
    CursorSaturates(0, |s.buffer|, cs);
    BufferHoldsStream(s.buffer, 0, cs);
    var s1 := Final(s0, Delivers(cs));
    var end := CursorAfter(0, |s.buffer|, cs);
    assert s1.buffer[..end] == Concat(cs)[..end];
  }

  /**
   With the buffer the process allocates and the chunk size the stream is
   opened with, a session of up to `BUFFER_SIZE / FRAMES_PER_BUFFER` full
   callbacks keeps its stream running and saves every frame captured.
   */
  lemma FullCallbacksFit(s: Session, rec: Env, cs: seq<seq<Sample>>, stop: Env)
    requires Inv(s) && !s.recording && !s.joining && rec.openOk && rec.startOk
    requires |s.buffer| == BUFFER_SIZE
    requires forall i :: 0 <= i < |cs| ==> |cs[i]| == FRAMES_PER_BUFFER
    requires |cs| <= BUFFER_SIZE / FRAMES_PER_BUFFER
    requires Runs(Step(s, Click(RecButton, rec)), Delivers(cs))
    ensures var s1 := Final(Step(s, Click(RecButton, rec)), Delivers(cs));
      && s1.streamActive && !s1.stopRecording
      && Saved(Step(Step(s1, Click(StopButton, stop)), Poll), JoinReturns(stop)) ==
           (if stop.fileOk then Some(Concat(cs)) else None)
  {
    var s0 := Step(s, Click(RecButton, rec));
    RecordThenStopSaves(s, rec, cs, stop);
    RunOfChunks(s0, cs);
    ChunksOverflowAfter(cs);
    ConcatUniformLength(cs, FRAMES_PER_BUFFER);
    assert Concat(cs)[..|Concat(cs)|] == Concat(cs);
  }

  /**
   A session ended by a full buffer is not saved once the polling loop has
   noticed the stop flag: the overflowing chunk sets the flag and finishes the
   stream, the polling loop then ends the thread and clears recording, and
   STOP, which only acts while recording, does nothing and starts no join.
   */
  lemma OverflowEndsUnsaved(s: Session, samples: seq<Sample>, env: Env, env2: Env)
    requires Inv(s) && s.streamActive && !s.stopRecording && !s.joining
    requires s.frameIndex + |samples| > |s.buffer|
    ensures var s1 := Step(s, Deliver(Input(samples)));
      && s1.stopRecording && s1.frameIndex == |s.buffer| && Enabled(s1, Poll)
      && var s2 := Step(s1, Poll);
      && !s2.recording
      && Step(s2, Click(StopButton, env)) == s2
      && !Enabled(s2, JoinReturns(env2))
  {
  }

  /**
   The other order of the same race: a STOP clicked after the overflowing
   chunk but before the polling loop's next check still finds recording set,
   joins, and saves the whole buffer.
   */
  lemma OverflowSavedIfStopFirst(s: Session, samples: seq<Sample>, env: Env, env2: Env)
    requires Inv(s) && s.streamActive && !s.stopRecording && !s.joining
    requires s.frameIndex + |samples| > |s.buffer|
    ensures var s1 := Step(s, Deliver(Input(samples)));
      && s1.recording && !s1.streamActive
      && var s2 := Step(s1, Click(StopButton, env));
      && s2.joining && Enabled(s2, Poll)
      && var s3 := Step(s2, Poll);
      && Saved(s3, JoinReturns(env2)) == (if env2.fileOk then Some(s1.buffer) else None)
  {
    var s1 := Step(s, Deliver(Input(samples)));
    assert s1.frameIndex == |s1.buffer|;
    assert s1.buffer[..s1.frameIndex] == s1.buffer;
  }

  // ---------------------------------------------------------------------
  // The file name
  // ---------------------------------------------------------------------

  /** Distinct stop times give distinct file names. */
  lemma SaveNameInjective(t1: int, t2: int)
    requires SaveName(t1) == SaveName(t2)
    ensures t1 == t2
  {
    var n1, n2 := SaveName(t1), SaveName(t2);
    assert n1[10..|n1| - 4] == Signed(t1);
    assert n2[10..|n2| - 4] == Signed(t2);
    SignedInjective(t1, t2);
  }

  /**
   For every 64-bit calendar time the name, with its terminator, fits the
   256-character `savePath` buffer it is printed into.
   */
  lemma SaveNameFits(t: int)
    requires -0x8000_0000_0000_0000 <= t < 0x8000_0000_0000_0000
    ensures |SaveName(t)| < 256
  {
    assert Pow10(4) == 10_000 && Pow10(5) == 100_000;
    Pow10Add(5, 5);
    Pow10Add(10, 5);
    Pow10Add(15, 4);
    if t < 0 {
      DecimalLength(-t, 19);
    } else {
      DecimalLength(t, 19);
    }
  }
}
