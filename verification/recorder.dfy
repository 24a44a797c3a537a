/**
 The recorder's shared state as the process keeps it: the capture buffer
 (`audioData`), the waveform array, and the global flags and strings the
 capture thread and the user interface thread both touch. Each method is
 proved against the function that specifies it: the event methods
 (`Deliver`, `Poll`, `Click`, `JoinReturns`, `QuitRequest`) against
 `StateMachine.Step`; `RecordCallback` against `AfterChunk`, `Advance` and
 `StopAfter`; `RecordingThreadStart` against `Start`; `ClearBuffer` against
 `Zeros`; `UpdateWaveform`, which changes the
 waveform array that is not part of `Session`, against `Downsample`; and
 `ShowFullWaveform` against `FullSegments`. The loops are the callback's copy
 loops, the zero fill of DELETE and the two waveform loops.

 The STOP branch of the event loop is split at its `pthread_join`: `Click`
 sets the stop flag and enters the join, `JoinReturns` names and saves the
 file once the capture thread has ended. Between the two, the callback and the
 polling loop keep running.
 */
module Recorder {
  import opened Text
  import opened Capture
  import opened Clock
  import opened Waveform
  import opened StateMachine

  /** Overwriting a piece that grows by one frame sets one more buffer cell. */
  lemma OverwriteExtend(buf: seq<Sample>, at: nat, piece: seq<Sample>, x: Sample)
    requires at + |piece| < |buf|
    ensures Overwrite(buf, at, piece + [x]) == Overwrite(buf, at, piece)[at + |piece| := x]
  {
    var lhs := Overwrite(buf, at, piece + [x]);
    var rhs := Overwrite(buf, at, piece)[at + |piece| := x];
    forall k | 0 <= k < |buf|
      ensures lhs[k] == rhs[k]
    {
      OverwriteAt(buf, at, piece + [x], k);
      OverwriteAt(buf, at, piece, k);
    }
  }

  lemma OverwriteNothing(buf: seq<Sample>, at: nat)
    requires at <= |buf|
    ensures Overwrite(buf, at, []) == buf
  {
  }

  class Recorder {
    const audio: AudioData
    const waveform: array<Sample>
    var recording: bool
    var stopRecording: bool
    var deleteRecording: bool
    /** Whether the audio backend still invokes the callback: the stream is started and has not completed. */
    var streamActive: bool
    var startTime: Uint32
    var savePath: string
    var quit: bool
    /** Whether the user interface thread is blocked in the join of a STOP click. */
    var joining: bool

    ghost predicate Valid()
      reads this, audio
    {
      audio.Valid() && waveform.Length == WIDTH && waveform != audio.buffer
      && (streamActive ==> recording) && (joining ==> stopRecording)
    }

    /** The state as a value of the state machine. */
    ghost function Model(): (s: Session)
      reads this, audio, audio.buffer
    {
      Session(audio.buffer[..], audio.frameIndex, recording, stopRecording, deleteRecording,
              streamActive, startTime, savePath, quit, joining)
    }

    lemma ValidModel()
      requires Valid()
      ensures Inv(Model())
    {
    }

    /** Start-up: the capture buffer is allocated, every flag is clear and the file name is empty. */
    constructor (initial: seq<Sample>)
      requires |initial| > 0
      ensures Valid() && fresh(audio) && fresh(audio.buffer) && fresh(waveform)
      ensures Model() == Boot(initial)
    {
      audio := new AudioData(initial);
      waveform := new Sample[WIDTH];
      recording, stopRecording, deleteRecording, streamActive := false, false, false, false;
      startTime := 0;
      savePath := "";
      quit := false;
      joining := false;
    }

    /**
     The capture callback. Without an input buffer it writes `frames` zeros
     with no bounds check; otherwise it copies each frame that fits and sets
     the stop flag for each one that does not, the input position advancing
     only on a copy.
     */
    method RecordCallback(c: Chunk) returns (status: StreamStatus)
      requires Valid() && CallbackSafe(audio.frameIndex, audio.maxFrames, c)
      modifies this`stopRecording, audio`frameIndex, audio.buffer
      ensures Valid()
      ensures audio.buffer[..] == AfterChunk(old(audio.buffer[..]), old(audio.frameIndex), c)
      ensures audio.frameIndex == old(audio.frameIndex) + Advance(old(audio.frameIndex), audio.maxFrames, c)
      ensures stopRecording == StopAfter(old(stopRecording), old(audio.frameIndex), audio.maxFrames, c)
      ensures status == StatusOf(stopRecording)
    {
      ghost var buf0, at := audio.buffer[..], audio.frameIndex;
      OverwriteNothing(buf0, at);
      var i := 0;
      match c {
        case NoInput(n) =>
          while i < n
            invariant i <= n
            invariant audio.frameIndex == at + i
            invariant audio.buffer[..] == Overwrite(buf0, at, Zeros(i))
            invariant stopRecording == old(stopRecording)
          {
            OverwriteExtend(buf0, at, Zeros(i), Silence);
            assert Zeros(i) + [Silence] == Zeros(i + 1);
            audio.buffer[audio.frameIndex] := Silence;
            audio.frameIndex := audio.frameIndex + 1;
            i := i + 1;
          }
        case Input(samples) =>
          var inPos := 0;
          while i < |samples|
            invariant i <= |samples|
            invariant inPos == Fitting(at, audio.maxFrames, i)
            invariant audio.frameIndex == at + inPos
            invariant audio.buffer[..] == Overwrite(buf0, at, samples[..inPos])
            invariant stopRecording == (old(stopRecording) || inPos < i)
          {
            if audio.frameIndex < audio.maxFrames {
              OverwriteExtend(buf0, at, samples[..inPos], samples[inPos]);
              assert samples[..inPos] + [samples[inPos]] == samples[..inPos + 1];
              audio.buffer[audio.frameIndex] := samples[inPos];
              audio.frameIndex := audio.frameIndex + 1;
              inPos := inPos + 1;
            } else {
              stopRecording := true;
            }
            i := i + 1;
          }
      }
      status := if stopRecording then Complete else Continue;
    }

    /** The audio backend invokes the callback and finishes the stream when it answers complete. */
    method Deliver(c: Chunk)
      requires Valid() && Enabled(Model(), Event.Deliver(c))
      modifies this`stopRecording, this`streamActive, audio`frameIndex, audio.buffer
      ensures Valid()
      ensures Model() == Step(old(Model()), Event.Deliver(c))
    {
      var status := RecordCallback(c);
      streamActive := status == Continue;
    }

    /**
     The capture thread from its start to the polling loop: reset the cursor
     and the stop flag, open and start the stream (either may fail, and then
     the thread ends with recording still clear), set recording, take the start tick.
     */
    method RecordingThreadStart(openOk: bool, startOk: bool, ticks: Uint32)
      requires Valid() && !recording && !joining
      modifies this, audio`frameIndex
      ensures Valid()
      ensures Model() == Start(old(Model()), Env(openOk, startOk, ticks, 0, false))
    {
      audio.frameIndex := 0;
      stopRecording := false;
      if !openOk {
        return;
      }
      if !startOk {
        return;
      }
      recording := true;
      streamActive := true;
      startTime := ticks;
    }

    /** One check of the polling loop; when it fails the stream is closed and recording cleared. */
    method Poll()
      requires Valid() && recording
      modifies this
      ensures Valid()
      ensures Model() == Step(old(Model()), Event.Poll)
    {
      if streamActive && !stopRecording {
        return;
      }
      streamActive := false;
      recording := false;
    }

    /** The frames handed to the file writer: none if the file does not open, else those before the cursor. */
    method SaveAudio(fileOk: bool) returns (written: Option<seq<Sample>>)
      requires Valid()
      ensures written == if fileOk then Some(audio.buffer[..audio.frameIndex]) else None
      ensures written.Some? ==> |written.value| == audio.frameIndex
    {
      if !fileOk {
        return None;
      }
      written := Some(audio.buffer[..audio.frameIndex]);
    }

    /** DELETE's zero fill of the whole buffer. */
    method ClearBuffer()
      requires Valid()
      modifies audio.buffer
      ensures Valid()
      ensures audio.buffer[..] == Zeros(audio.maxFrames)
    {
      var k := 0;
      while k < audio.buffer.Length
        invariant k <= audio.buffer.Length
        invariant forall j :: 0 <= j < k ==> audio.buffer[j] == Silence
      {
        audio.buffer[k] := Silence;
        k := k + 1;
      }
    }

    /** The live view: point `i` of the waveform array is the sample at index `i * (frameIndex / 960)`. */
    method UpdateWaveform()
      requires Valid()
      modifies waveform
      ensures Valid()
      ensures waveform[..] == Downsample(audio.buffer[..], audio.frameIndex)
    {
      ghost var buf := audio.buffer[..];
      var n := audio.frameIndex;
      var stride := n / WIDTH;
      var i := 0;
      while i < WIDTH
        invariant i <= WIDTH
        invariant forall j :: 0 <= j < i ==> waveform[j] == buf[Index(j, n)]
      {
        var k := i * stride;
        assert k == Index(i, n);
        waveform[i] := audio.buffer[k];
        i := i + 1;
      }
      assert waveform[..] == Downsample(buf, n);
    }

    /** The view after STOP: the segments from point `i` to point `i + 1`, read straight from the buffer. */
    method ShowFullWaveform() returns (segments: seq<(Sample, Sample)>)
      requires Valid()
      ensures segments == FullSegments(audio.buffer[..], audio.frameIndex)
    {
      ghost var buf := audio.buffer[..];
      var n := audio.frameIndex;
      var stride := n / WIDTH;
      segments := [];
      var i := 0;
      while i < WIDTH - 1
        invariant i <= WIDTH - 1
        invariant |segments| == i
        invariant forall j :: 0 <= j < i ==> segments[j] == (buf[Index(j, n)], buf[Index(j + 1, n)])
      {
        var from, to := i * stride, (i + 1) * stride;
        assert from == Index(i, n) && to == Index(i + 1, n);
        segments := segments + [(audio.buffer[from], audio.buffer[to])];
        i := i + 1;
      }
      assert segments == FullSegments(buf, n);
    }

    /**
     A mouse click, dispatched like the event loop does: REC only while not
     recording, STOP only while recording, DELETE and EXIT always. STOP sets
     the stop flag and then blocks in the join.
     */
    method Click(b: Button, env: Env)
      requires Valid() && !joining
      modifies this, audio`frameIndex, audio.buffer
      ensures Valid()
      ensures Model() == Step(old(Model()), Event.Click(b, env))
    {
      if b == RecButton && !recording {
        RecordingThreadStart(env.openOk, env.startOk, env.ticks);
      } else if b == StopButton && recording {
        stopRecording := true;
        joining := true;
      } else if b == DeleteButton {
        deleteRecording := true;
        savePath := "";
        ClearBuffer();
      } else if b == ExitButton {
        quit := true;
      }
    }

    /**
     The rest of the STOP branch, once the capture thread has ended: name the
     file after the calendar clock, hand the captured frames to the file
     writer and draw the full waveform.
     */
    method JoinReturns(env: Env) returns (saved: Option<seq<Sample>>)
      requires Valid() && joining && !recording
      modifies this`joining, this`savePath
      ensures Valid()
      ensures Model() == Step(old(Model()), Event.JoinReturns(env))
      ensures saved == Saved(old(Model()), Event.JoinReturns(env))
    {
      joining := false;
      savePath := SaveName(env.clock);
      saved := SaveAudio(env.fileOk);
      var _ := ShowFullWaveform();
    }

    /** The window is closed. */
    method QuitRequest()
      requires Valid() && !joining
      modifies this`quit
      ensures Valid()
      ensures Model() == Step(old(Model()), Event.QuitRequest)
    {
      quit := true;
    }

    /** The label of the time display, at tick `now`. */
    function TimeLabel(now: Uint32): (shown: string)
      reads this
      ensures 11 <= |shown| < 32 && shown[..6] == "Time: " && shown[|shown| - 3] == ':'
      ensures AllDigits(shown[6..|shown| - 3]) && AllDigits(shown[|shown| - 2..])
      ensures DigitsValue(shown[|shown| - 2..]) < 60
      ensures DigitsValue(shown[6..|shown| - 3]) * 60 + DigitsValue(shown[|shown| - 2..])
        == Elapsed(recording, now, startTime)
      ensures !recording ==> shown == "Time: 00:00"
    {
      var e := Elapsed(recording, now, startTime);
      TimeTextFits(e);
      TimeText(e)
    }
  }

  /**
   A buffer of 1000 frames fed two chunks of 512: the cursor goes to 512,
   then to 1000 with the stop flag set and the stream finished. Once the
   polling loop has noticed the flag, recording is clear and STOP neither
   joins nor saves.
   */
  method OverflowScenario(samples: seq<Sample>)
    requires |samples| == 512
  {
    var r := new Recorder(Zeros(1000));
    var go := Env(true, true, 0, 1700000000, true);
    r.Click(RecButton, go);
    assert r.recording && r.audio.frameIndex == 0;
    r.Deliver(Input(samples));
    assert r.audio.frameIndex == 512 && !r.stopRecording && r.streamActive;
    r.Deliver(Input(samples));
    assert r.audio.frameIndex == 1000 && r.stopRecording && !r.streamActive;
    r.Poll();
    assert !r.recording;
    r.Click(StopButton, go);
    assert !r.joining && r.savePath == "";
  }
}
