# retrocorder — a Dafny model of the capture core

retrocorder is a small audio recorder with a retro window. It has four
buttons: REC, STOP, DELETE and EXIT. A background thread opens an audio
input stream whose callback appends the captured samples to one fixed buffer
of 48000 * 10 frames (`AudioData`). The window draws a 960-point waveform
from that buffer and a `Time: mm:ss` label. STOP joins the thread and writes
the frames captured so far to `recording-<time>.wav`. DELETE zeroes the
buffer.

This project models the core of `src/retrocorder.c` and proves properties of
it:

- **Capture** (`capture.dfy`):
  - The capture buffer `AudioData` is a class with an array, its capacity and the write cursor.
  - The effect of one invocation of the capture callback is given as functions of the buffer, the cursor and the delivered chunk: what is written, how far the cursor moves, and whether the stop flag is set.
  - The same is given for a run of chunks.
  - Samples are only copied, never computed, so they are carried as 32-bit patterns (`bv32`).
- **Waveform** (`waveform.dfy`):
  - The index rule `i * (frameIndex / 960)`: its bounds, its even stride and the degenerate case below 960 frames.
  - The points the live view stores and the segments the view after STOP draws.
- **Clock** and **Text** (`clock.dfy`, `text.dfy`):
  - The elapsed seconds, with the millisecond tick counter as a wrapping unsigned 32-bit value.
  - The `Time: %02d:%02d` label and the `recording-%ld.wav` name, including decimal formatting and its read-back.
- **StateMachine** (`session.dfy`):
  - The process's shared state as a value, `Session`.
  - One step per atomic event: the audio backend delivers a chunk, the capture thread's polling loop checks once, a mouse click, the join of a STOP click returns, or a quit request.
  - Properties of single steps and of whole runs of events, including the link from a run of deliveries to the run-of-chunks functions of `Capture`.
- **Recorder** (`recorder.dfy`):
  - The shared state as a class whose fields are the globals of the program.
  - Methods with the program's own loops: the callback's two copy loops, the zero fill of DELETE, and the two waveform loops.
  - The event methods (`Deliver`, `Poll`, `Click`, `JoinReturns`, `QuitRequest`) are proved to leave the object in `StateMachine.Step` of the state before.
  - The methods they are built from are proved against their own specification functions instead: `RecordCallback` against `AfterChunk`, `Advance` and `StopAfter`; `RecordingThreadStart` against `Start`; `ClearBuffer` against `Zeros`; `UpdateWaveform` against `Downsample`; `ShowFullWaveform` against `FullSegments`.

The two threads are sequentialised into those atomic events:

- A REC click runs the new thread's set-up (reset, open and start the stream, set `recording`, take the start tick) as part of the click.
- A STOP click is split at its `pthread_join`. The click sets `stopRecording` and blocks the user interface thread in the join. While it waits, the callback may still be invoked and the polling loop keeps checking. The join returns once the polling loop has ended the thread (`StateMachine.JoinWaitsForThread`), and only then is the file named and saved.
- The stream stops invoking the callback once the callback has answered "complete".
- The outcomes of foreign calls are inputs of the events: whether the stream opens and starts, `SDL_GetTicks`, `time(NULL)`, and whether the output file opens.

### Behaviour worth knowing

- A full buffer does not end the session the way STOP does. An overflowing chunk sets `stopRecording`, and the polling loop then closes the stream and clears `recording`. STOP acts only while `recording` is set, so once the polling loop has noticed the flag, STOP does nothing and the session is not saved (`StateMachine.OverflowEndsUnsaved`). A STOP clicked in the up to 100 ms between the overflowing chunk and the polling loop's next check still saves the full buffer (`StateMachine.OverflowSavedIfStopFirst`).
- DELETE is not gated on `recording`. It zeroes the buffer and clears the file name even under a running capture (`StateMachine.DeleteZeroesBuffer`).
- The waveform has no special case for an empty buffer. Whenever fewer than 960 frames are captured, every point reads `buffer[0]`, whatever sample 0 holds, so an empty session's waveform need not be flat at zero (`Waveform.Downsample`, `Waveform.EmptyWaveformNotSilent`).

## Model

| member | source | states |
|---|---|---|
| Capture.Fitting | src/retrocorder.c:91 | the bounds-checked copy writes all frames of the chunk if they fit, otherwise exactly the room left, and never passes the capacity |
| Capture.Advance | src/retrocorder.c:90-91 | the cursor moves by at most the chunk's frame count and never past the capacity |
| Capture.Overflows | src/retrocorder.c:91-92 | a frame finds no room exactly when fewer frames were written than delivered, which only happens with an input buffer and leaves the cursor at capacity |
| Capture.StopAfter | src/retrocorder.c:92 | the stop flag after the callback is set exactly when it was already set or some frame did not fit |
| Capture.CallbackEffect | src/retrocorder.c:90-93 | frame `j` lands at `cursor + j` for each written frame (zero without input buffer), every other cell is unchanged, `min(frames, room)` frames are written, and the callback answers continue exactly when the flag was clear and everything fitted |
| Capture.AfterChunk | src/retrocorder.c:90-91 | the buffer after the callback keeps its length; frame `j` of the chunk lands at `cursor + j` for each written frame (zero without input buffer) and every other cell keeps its value |
| Capture.OverwriteAt | src/retrocorder.c:91 | after copying a piece at the cursor, each cell holds the piece's frame inside the written range and its old value outside |
| Capture.CursorSaturates | src/retrocorder.c:91 | after any run of chunks the cursor is the start plus the frames offered, capped at the capacity |
| Capture.CursorAfter | src/retrocorder.c:91 | after a run of chunks the cursor has not moved back and is within the capacity; `Capture.CursorSaturates` gives its exact value |
| Capture.BufferAfter | src/retrocorder.c:91 | a run of chunks keeps the buffer's length; `Capture.BufferHoldsStream` gives its contents |
| Capture.StopAfterAll | src/retrocorder.c:91-92 | a run of chunks never clears the stop flag and sets it only with the cursor at the end of the buffer; `Capture.StopIffOverflow` says exactly when |
| Capture.ConcatUniformLength | src/retrocorder.c:91 | chunks of `m` frames each make a stream of `m` frames per chunk |
| Capture.ChunksOverflowAfter | src/retrocorder.c:13-14 | with the allocated 480000 frames and 512-frame callbacks, the stop flag is set exactly once more than 937 callbacks have been delivered |
| Capture.StopIffOverflow | src/retrocorder.c:91-93 | after a run of chunks the stop flag is set exactly when it was set before or more frames were offered than fitted |
| Capture.BufferAfterAt | src/retrocorder.c:91 | each buffer cell after a run of chunks holds the matching frame of the captured stream inside the written range and its old value elsewhere |
| Capture.BufferHoldsStream | src/retrocorder.c:91 | the buffer after a run of chunks is its old prefix, then as much of the captured stream as fitted, then its old suffix |
| Capture.AudioData.constructor | src/retrocorder.c:212-213 | the buffer is allocated with the given contents and capacity, with the cursor at zero |
| Waveform.Index | src/retrocorder.c:141 | the index of point `i` is inside the captured frames once anything is captured, and is 0 below 960 frames |
| Waveform.StrideBelow | src/retrocorder.c:141 | the last point leaves at least one stride of room before the cursor |
| Waveform.IndexStep | src/retrocorder.c:141 | consecutive points are exactly `frameIndex / 960` apart |
| Waveform.IndexMonotone | src/retrocorder.c:141 | the points are non-decreasing in buffer order, and strictly increasing from 960 frames on |
| Waveform.AllPointsAtZeroIffShort | src/retrocorder.c:141 | every point reads sample 0 exactly when fewer than 960 frames are captured |
| Waveform.PointOpensWindow | src/retrocorder.c:141 | from 960 frames on, point `i` opens the `i`-th of 960 equal windows, all inside the captured frames |
| Waveform.Downsample | src/retrocorder.c:141 | the waveform has 960 points; once something is captured every point is a captured sample, and below 960 frames every point is sample 0 |
| Waveform.EmptyWaveformNotSilent | src/retrocorder.c:141 | with nothing captured the waveform need not be silent |
| Waveform.FullSegments | src/retrocorder.c:150 | the 959 segments after STOP form one connected polyline starting at sample 0 of the buffer |
| Waveform.SegmentsJoinPoints | src/retrocorder.c:144-150 | the segments after STOP run from point `i` to point `i + 1` of the live view's points, just as the live view draws them |
| Clock.TicksSince | src/retrocorder.c:133 | the unsigned 32-bit difference added to the start tick gives the current tick back, and is the plain difference without a wrap |
| Clock.Elapsed | src/retrocorder.c:133 | the elapsed seconds are 0 while not recording, else the whole seconds of the wrapped tick difference, below 4294968 |
| Clock.TimeText | src/retrocorder.c:135 | the label's minutes and seconds digits read back to the elapsed seconds, with seconds below 60 |
| Clock.PadTwoLength | src/retrocorder.c:135 | a `%02d` field of a number below `10^k` has at most `k` characters |
| Clock.TimeTextFits | src/retrocorder.c:134-135 | every label the tick counter can produce fits the 32-character buffer with its terminator |
| Text.DigitChar | src/retrocorder.c:135 | a digit value becomes the digit character of that value |
| Text.Decimal | src/retrocorder.c:222 | decimal text is non-empty, all digits, has no leading zero, is "0" only for 0, and is one digit exactly below 10 |
| Text.PadTwo | src/retrocorder.c:135 | `%02d` text is all digits, at least two of them, and exactly two below 100 |
| Text.DecimalRoundTrip | src/retrocorder.c:222 | decimal text reads back to the number printed |
| Text.DecimalInjective | src/retrocorder.c:222 | distinct numbers print differently |
| Text.DecimalLength | src/retrocorder.c:222 | a number below `10^k` prints in at most `k` digits |
| Text.SignedInjective | src/retrocorder.c:222 | `%ld` of distinct times differ |
| Text.Signed | src/retrocorder.c:222 | `%ld` text starts with a minus sign exactly for negative numbers, and its digits read back to the magnitude |
| Text.PadTwoRoundTrip | src/retrocorder.c:135 | `%02d` text reads back to the number printed |
| StateMachine.Step | src/retrocorder.c:216-226 | every event keeps the cursor inside the allocated buffer, and the stream runs only while recording |
| StateMachine.Final | src/retrocorder.c:216-226 | every run of events ends in a state that keeps that invariant |
| StateMachine.Enabled | src/retrocorder.c:216-226 | deliveries and polls only happen while recording; while STOP waits in its join only deliveries, polls and the join's return can happen; with recording clear and no join pending only the user can act |
| StateMachine.Start | src/retrocorder.c:157-164 | the thread's set-up resets the cursor and clears the stop flag; only a stream that opens and starts sets recording and takes the start tick; the buffer and file name are kept |
| StateMachine.Finish | src/retrocorder.c:166-168 | the end of the thread clears recording and the running stream, and keeps the captured frames, the cursor and the flags |
| StateMachine.SaveName | src/retrocorder.c:222 | the file name is `recording-`, the calendar clock's digits (after a minus sign when negative) reading back to it, and `.wav` |
| StateMachine.Saved | src/retrocorder.c:103 | frames are written exactly when STOP's join returns and the file opens, and then they are the buffer's frames before the cursor |
| StateMachine.RecStartsSession | src/retrocorder.c:157-164 | REC while idle resets the cursor and stop flag, and sets recording (with the stream running and the start tick taken) exactly when the stream opens and starts |
| StateMachine.RecIgnoredWhileRecording | src/retrocorder.c:221 | REC while recording changes nothing |
| StateMachine.StopIgnoredWhenIdle | src/retrocorder.c:222 | STOP while not recording changes nothing and starts no join, so nothing is saved |
| StateMachine.StopEndsAndSaves | src/retrocorder.c:222 | STOP while recording sets the stop flag and enters the join; the polling loop's next check ends the thread; the join then returns, names the file after the calendar clock and saves exactly the frames before the cursor |
| StateMachine.NoCaptureAfterJoin | src/retrocorder.c:221-222 | once recording is clear and no join waits, no run of events without a REC moves the cursor, runs a stream or records |
| StateMachine.StopIsFinal | src/retrocorder.c:222 | after STOP's join has returned, no run of events without a REC captures anything more: the cursor stays at the saved length |
| StateMachine.StopSavesLateChunk | src/retrocorder.c:91-93 | a chunk the callback receives while STOP waits in the join is still copied, finishes the stream and is part of the saved frames |
| StateMachine.JoinWaitsForThread | src/retrocorder.c:165-168 | while the join waits for a live capture thread, the polling loop's next check ends that thread, so the join can return |
| StateMachine.DeleteZeroesBuffer | src/retrocorder.c:223 | DELETE in any state clears the file name and zeroes the whole buffer, leaving the cursor and the session flags unchanged |
| StateMachine.PollEndsThread | src/retrocorder.c:165-168 | the polling loop ends the thread and clears recording once the stop flag is set or the stream has finished, and otherwise changes nothing |
| StateMachine.DeliverKeepsCursorInBuffer | src/retrocorder.c:90-93 | a chunk never moves the cursor back or past the end, never clears the stop flag, and the stream keeps running exactly while the flag is clear |
| StateMachine.RecordingNeedsStartedStream | src/retrocorder.c:160-163 | a session only ever records after a REC whose stream opened and started |
| StateMachine.StopFlagSticky | src/retrocorder.c:91-93 | without a new REC, a set stop flag stays set |
| StateMachine.CursorNeverMovesBack | src/retrocorder.c:90-91 | without a new REC, the cursor never moves back and stays inside the buffer |
| StateMachine.OverflowEndsUnsaved | src/retrocorder.c:165-168 | after an overflowing chunk and the polling loop's next check, recording is clear, and STOP changes nothing and starts no join, so nothing is saved |
| StateMachine.OverflowSavedIfStopFirst | src/retrocorder.c:222 | a STOP clicked after the overflowing chunk but before the polling loop's next check still joins and saves the whole buffer |
| StateMachine.RunOfChunks | src/retrocorder.c:86-94 | a run of deliveries leaves the buffer, the cursor and the stop flag as the run-of-chunks functions say, and changes nothing else but whether the stream runs |
| StateMachine.RecordThenStopSaves | src/retrocorder.c:221-222 | REC with a stream that starts, then any chunks, then STOP hands the file writer exactly the captured stream, cut at the capacity of the buffer |
| StateMachine.FullCallbacksFit | src/retrocorder.c:13-14 | with the allocated buffer, a session of up to 937 full 512-frame callbacks keeps its stream running and saves every frame captured |
| StateMachine.SaveNameInjective | src/retrocorder.c:222 | distinct stop times give distinct file names |
| StateMachine.SaveNameFits | src/retrocorder.c:222 | for every 64-bit calendar time, the file name with its terminator fits the 256-character `savePath` |
| Recorder.Recorder.constructor | src/retrocorder.c:212-214 | the object starts in the state machine's initial state |
| Recorder.Recorder.ValidModel | src/retrocorder.c:16-20 | a valid object is a state satisfying the state machine's invariant |
| Recorder.Recorder.RecordCallback | src/retrocorder.c:86-94 | the callback's loops leave the buffer, cursor and stop flag as the callback effect functions say, and answer by the flag |
| Recorder.Recorder.Deliver | src/retrocorder.c:86-94 | one chunk delivered by the backend takes the object to the state machine's step |
| Recorder.Recorder.RecordingThreadStart | src/retrocorder.c:154-164 | the thread's set-up takes the object to the state machine's start of a session |
| Recorder.Recorder.Poll | src/retrocorder.c:165-168 | one check of the polling loop takes the object to the state machine's step |
| Recorder.Recorder.SaveAudio | src/retrocorder.c:96-105 | nothing is written if the file does not open, else exactly the frames before the cursor |
| Recorder.Recorder.ClearBuffer | src/retrocorder.c:223 | the zero fill leaves every frame of the buffer zero |
| Recorder.Recorder.UpdateWaveform | src/retrocorder.c:140-141 | the waveform array holds the downsampled points of the captured frames |
| Recorder.Recorder.ShowFullWaveform | src/retrocorder.c:148-150 | the segments read are those from point `i` to point `i + 1` of the captured frames |
| Recorder.Recorder.Click | src/retrocorder.c:221-224 | a click, with STOP up to its join, takes the object to the state machine's step |
| Recorder.Recorder.JoinReturns | src/retrocorder.c:222 | once the join returns, naming and saving the file takes the object to the state machine's step, and the file writer receives what the state machine says is saved |
| Recorder.Recorder.QuitRequest | src/retrocorder.c:218 | a quit request takes the object to the state machine's step |
| Recorder.Recorder.TimeLabel | src/retrocorder.c:133-135 | the label's minutes and seconds digits read back to the elapsed seconds, the seconds are below 60, the label fits its 32-character buffer, and it reads `Time: 00:00` while not recording |

## Left out

- Rendering with SDL and SDL_ttf is not modelled: `renderTextCentered`, `drawButton`, the drawing in `drawUI`, `initSDL`, the layout rectangles and the hit test of clicks. A click arrives as the button it hit.
- The PortAudio calls are represented only by their success or failure as inputs: `Pa_OpenDefaultStream`, `Pa_StartStream`, `Pa_IsStreamActive`, `Pa_CloseStream`. The error value `Pa_IsStreamActive` can return is not modelled. The error of `Pa_CloseStream` only prints, so it is not modelled.
- When `Pa_StartStream` fails, the opened stream is never closed. The model has no notion of open-but-unstarted streams.
- libsndfile (`sf_open`, `sf_write_float`, `sf_close`) is represented only by whether the file opens and which slice of the buffer is handed over. WAV encoding and the 16/24-bit choice are not modelled.
- Config parsing (`configHandler`, `loadConfig`) is not modelled. It is library string parsing, and the model assumes the default of one channel.
- Recorder.Recorder.RecordCallback: copies one sample per frame. With `channels > 1` the source also copies only `framesPerBuffer` floats per call, so interleaved frames are not modelled.
- Real concurrency is not modelled: `pthread_create`, `pthread_join`, unsynchronised globals and `SDL_Delay` polling are sequentialised into atomic events.
- Concurrency consequence: a second REC click between `pthread_create` and the new thread setting `recording` would start a second thread. The model runs the set-up inside the click, so this race is not modelled.
- Capture.CallbackSafe: without an input buffer, the source writes zeros with no bounds check. The model therefore requires those frames to fit behind the cursor, and does not model the overrun that would otherwise happen.
- The display gain `* 100.0f`, the float samples and line drawing are floating point for display only. The waveform model stops at the samples it reads.
- The wall clocks `SDL_GetTicks` and `time(NULL)` are inputs. `time_t` is taken as a 64-bit signed value where the file name's length is bounded.
- The main loop's redraw (`updateWaveform` while recording, else `drawUI`) and `SDL_Delay` are not modelled as state steps. Their readable effects are the methods UpdateWaveform, ShowFullWaveform and TimeLabel.
- Freeing the buffer and shutting the libraries down at exit are not modelled. The model sets `quit`.
- `src/listdevices.c` only prints the audio devices and is not part of this model.
