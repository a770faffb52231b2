# Jarvis dialogue core, in Dafny

This project models the dialogue half of the Jarvis voice assistant: the class
`ChatAI` in `src/core/chatAI.py`. After the wake word fires, `ChatAI` runs a
session loop, `start_dialogue`. Each iteration of that loop does four things:

- it records one utterance from the microphone, using a voice-activity ring
  buffer (`_record_speech_segment`);
- it turns the utterance into text with a mock recogniser (`_asr_engine`);
- it checks the text for an exit keyword (`_check_exit_intent`);
- otherwise it answers with a rule-based reply (`_process_response`).

The loop stops on an idle timeout, on three empty inputs in a row, or when the
user says goodbye.

The modules follow the source's parts:

- `Config` (`config.dfy`): the constants `ChatAI.__init__` and
  `_record_speech_segment` fix. Derived values use the same integer division:
  buffer capacity 300/30 = 10, silence limit 800/30 = 26, frame cap
  15000/30 = 500, block size 480 samples, 960 bytes.
- `Audio` (`audio.dfy`): bytes and `b''.join` (`Concat`).
- `TextRules` (`text_rules.dfy`): Python's substring `in`, ASCII `lower()`,
  the exit-intent check and the reply rules.
- `Segmenter` (`segmenter.dfy`): the utterance recorder.
  - The microphone and the voice-activity classifier become a finite
    sequence of `Frame(data, isSpeech)`.
  - `RecordSpeechSegment` is the source's loop. It keeps the ring buffer, the
    `triggered` flag, the voiced-frame list and both counters.
  - It is proved to return `Segmentation(frames)`, a description by stream
    positions: the first position where the 90 % rule fires, then the first
    frame total at which either end rule holds.
  - The lemmas about `Segmentation` state what a recording returns.
- `Recognition` (`recognition.dfy`):
  - the recogniser's length gate;
  - `ListenAndTranscribe`, which records one utterance and then transcribes it.
- `Dialogue` (`dialogue.dfy`): the session loop, over a finite sequence of
  per-iteration inputs.
  - Each input is an `Event`. It holds the clock at the timeout test, the
    transcription, the clock after a valid input, and the `%H:%M` text.
  - `StartDialogue` is the source's loop. It is proved to return
    `Dialogue(start, events)`, a recursive description iteration by iteration.

Points of the code's behaviour that the model keeps exactly:

- Resets on a valid input. The idle timer and the invalid-input counter are
  reset on every non-empty input, before the exit test (`chatAI.py:73-74`).
  An empty input resets neither (`EmptyInputDoesNotResetTimer`).
- Role name. Replies are recorded with the role `"ai"` (`chatAI.py:89`); the
  model calls it `Ai`.
- The frame cap. A recording is force-ended once `frame_count > 500`, that
  is after 501 post-trigger frames (`MaxDurationEndsAtCap`).
- Invalid inputs. An input is invalid exactly when its transcription is
  empty (`chatAI.py:63`): empty audio, or audio the recogniser's length gate
  rejects. There is no other failure path.
- The 10-speech, 30-silence stream. Recording triggers on the tenth frame and
  ends once 37 frames in all have been read: the 10-frame preroll and 27
  silent frames (`TenSpeechThenThirtySilent`).

Two consequences of the code that the proofs bring out:

- The minimum-length discard (`len(voiced_frames) < 10`) can never be taken.
  A capture always holds the 10-frame preroll and at least one more frame.
- With full-size 960-byte blocks, the mock recogniser's gate never rejects a
  capture. The shortest capture is 37 blocks, which is 35520 bytes, and the
  gate needs 32000 (`EveryCaptureTranscribed`).

## Model

| member | source | states |
|---|---|---|
| `Audio.ConcatAppend` | src/core/chatAI.py:199 | `Concat`, the model of `b''.join`: joining a list of chunks followed by another is joining each and concatenating the two |
| `Audio.ConcatUniformLength` | src/core/chatAI.py:199 | joining `n` chunks of `w` bytes each gives `n * w` bytes |
| `Segmenter.RingAppend` | src/core/chatAI.py:133-164 | appending to the bounded buffer never leaves more than `maxlen` entries; below capacity it grows by one, at capacity its length stays the same |
| `Segmenter.RingAppendKeepsNewest` | src/core/chatAI.py:133-164 | the appended buffer is the newest entries of old buffer plus new frame, oldest first, ending with the new frame (FIFO eviction) |
| `Segmenter.RingTracksWindow` | src/core/chatAI.py:132-164 | appending frame `i` to the buffer holding the last (up to) 10 frames before `i` gives the last (up to) 10 frames up to `i` |
| `Segmenter.NumVoicedAll` | src/core/chatAI.py:167 | `NumVoiced`, the length of the speech-frame comprehension, equals the buffer's length exactly when every buffered frame is speech |
| `Segmenter.FiresIffFullSpeech` | src/core/chatAI.py:166-168 | `10 * num_voiced > 9 * maxlen` holds exactly when the buffer is full and all 10 frames are speech |
| `Segmenter.FiresAtIffSpeechRun` | src/core/chatAI.py:163-168 | the rule fires right after frame `t` is buffered exactly when frames `t - 9 .. t` exist and are all speech |
| `Segmenter.FirstTriggerSpec` | src/core/chatAI.py:154-168 | the trigger position found is one where the rule fires and it fires at no earlier position; with none found it fires nowhere |
| `Segmenter.FirstTriggerIs` | src/core/chatAI.py:154-169 | the recording triggers at `t` if and only if the rule fires at `t` and at no earlier frame |
| `Segmenter.TriggerIsFirstSpeechRun` | src/core/chatAI.py:154-169 | the recording triggers at `t` if and only if `t` closes the first run of ten consecutive speech frames |
| `Segmenter.NoSpeechNeverTriggers` | src/core/chatAI.py:163-169 | a stream with no speech frame never triggers, so no recording completes |
| `Segmenter.TriggerWindowFull` | src/core/chatAI.py:168-169 | the trigger happens only once at least 10 frames have been read |
| `Segmenter.SilentRunIsTrailingSilence` | src/core/chatAI.py:180-183 | `SilentRun`, the value of `silent_frame_count`, is the trailing run of non-speech frames: those frames are silent and the frame just before them is speech |
| `Segmenter.SilentRunAllSilent` | src/core/chatAI.py:180-183 | over an all-silent stretch the counter equals the stretch's length |
| `Segmenter.FirstEndSpec` | src/core/chatAI.py:185-193 | the end found is a frame total at which the silence or the count rule holds, and neither holds earlier; with none found neither ever holds |
| `Segmenter.FirstEndIs` | src/core/chatAI.py:185-193 | the recording ends at frame total `c` if and only if an end rule holds at `c` and at no earlier total |
| `Segmenter.EndWithinCap` | src/core/chatAI.py:151-193 | a triggered recording ends no later than after 501 post-trigger frames |
| `Segmenter.EndedAudio` | src/core/chatAI.py:171-199 | the audio of an ended recording is the join of the preroll and every later frame read, in stream order: `Finalize` (the fewer-than-10 discard, then `b''.join`) never discards it |
| `Segmenter.SegmentationIsEnded` | src/core/chatAI.py:154-199 | with a trigger at `t` and first end at `c`, the recording returns the `Ended` record for `t` and `c` |
| `Segmenter.CapturedIsEnded` | src/core/chatAI.py:154-199 | a completed recording that triggered at `t` has a first end `c` and returns the `Ended` record for them |
| `Segmenter.CapturedUtterance` | src/core/chatAI.py:169-199 | a completed recording is exactly the join of the 10 preroll frames and the 1 to 501 frames read after the trigger, so the fewer-than-10 discard is never taken |
| `Segmenter.MaxDurationAt` | src/core/chatAI.py:151-193 | a recording ended by the count rule has read exactly 501 frames after the trigger |
| `Segmenter.MaxDurationEndsAtCap` | src/core/chatAI.py:151-193 | a forced end comes after exactly `max_frames + 1` post-trigger frames |
| `Segmenter.SilenceEndAt` | src/core/chatAI.py:140-188 | a silence end means the last 27 frames read are non-speech and all came after the trigger |
| `Segmenter.SilenceEndIsTrailingSilence` | src/core/chatAI.py:140-188 | a completed recording that ended by silence ends on 27 consecutive non-speech frames after the trigger |
| `Segmenter.CapturedMinLength` | src/core/chatAI.py:140-193 | no recording ends before 27 post-trigger frames have been read |
| `Segmenter.EndNoLaterThan` | src/core/chatAI.py:185-193 | if an end rule holds at frame total `c`, the recording ends at the latest there |
| `Segmenter.EndsWithinCap` | src/core/chatAI.py:151-193 | once triggered, whatever the classifier says, a recording completes within 501 further frames |
| `Segmenter.SpeechEndsAtCap` | src/core/chatAI.py:180-193 | with continuous speech after the trigger, the first end is the count rule at 501 frames |
| `Segmenter.ContinuousSpeechHitsCap` | src/core/chatAI.py:190-193 | continuous speech after the trigger is force-ended after exactly 501 post-trigger frames |
| `Segmenter.SilenceEndsEarly` | src/core/chatAI.py:180-188 | silence right after the trigger makes the silence rule the first end, after 27 frames |
| `Segmenter.SilenceAfterTriggerEnds` | src/core/chatAI.py:180-188 | 27 non-speech frames right after the trigger end the recording by silence on the 27th |
| `Segmenter.TenSpeechThenThirtySilent` | src/core/chatAI.py:123-199 | 10 speech frames then 30 silent ones: triggers on the tenth frame (index 9), ends by silence once 37 frames are read, returns the first 37 frames joined |
| `Segmenter.ListenStep` | src/core/chatAI.py:163-168 | a pre-trigger iteration that does not fire keeps the buffer equal to the last 10 frames and no trigger so far |
| `Segmenter.TriggerAt` | src/core/chatAI.py:168-174 | at the trigger the ten buffered frames, in order, become the recording and the recording state starts |
| `Segmenter.TriggerStep` | src/core/chatAI.py:168-174 | a firing iteration copies the buffer into `voiced_frames` and clears the buffer |
| `Segmenter.RecordStep` | src/core/chatAI.py:176-193 | a post-trigger iteration that does not end appends the frame once, in order, and keeps the silence counter equal to the trailing silence |
| `Segmenter.RecordEnd` | src/core/chatAI.py:185-199 | a post-trigger iteration whose end test succeeds completes the recording, silence test first |
| `Segmenter.StreamExhausted` | src/core/chatAI.py:154-193 | a stream that runs out before an end yields no completed recording |
| `Segmenter.AppendPreroll` | src/core/chatAI.py:171-173 | the buffer's frames are appended to `voiced_frames` in buffer order |
| `Segmenter.RecordSpeechSegment` | src/core/chatAI.py:123-199 | the recording loop returns exactly `Segmentation(frames)` |
| `TextRules.Contains` | src/core/chatAI.py:235 | Python's `kw in s` holds if and only if `kw` occurs in `s` at some index |
| `TextRules.ContainsAny` | src/core/chatAI.py:234-237 | the keyword loop returns true if and only if some keyword of the list is a substring |
| `TextRules.CheckExitIntent` | src/core/chatAI.py:231-237 | `_check_exit_intent` is true if and only if some exit keyword occurs in the lower-cased text |
| `TextRules.ExitIntentFalseOnEmpty` | src/core/chatAI.py:231-237 | the empty transcription is never an exit intent |
| `TextRules.ExitIntentOfLowered` | src/core/chatAI.py:231-237 | `Lower`/`LowerChar`, the model of `text.lower()`: for every text, the verdict equals the verdict on its lower-cased form |
| `TextRules.ExitIntentIgnoresCase` | src/core/chatAI.py:233 | upper-casing any one ASCII lower-case letter of a text leaves the verdict unchanged |
| `TextRules.ExitIntentExamples` | src/core/chatAI.py:231-237 | "谢谢，再见" and "OK, BYE" are exit intents, and so is "quite good", since matching is by substring |
| `TextRules.ProcessResponse` | src/core/chatAI.py:239-247 | a greeting gets the greeting reply; otherwise a question about the time gets a reply that starts with "现在是 " and contains the clock; anything else is echoed back inside the stock phrase |
| `Recognition.AsrEngine` | src/core/chatAI.py:215-218 | the mock recogniser returns "" if and only if the audio is shorter than 32000 bytes, and the fixed text otherwise |
| `Recognition.ListenAndTranscribe` | src/core/chatAI.py:104-121 | recording then transcribing returns `Transcription(frames)`: no text if the stream runs out, "" for empty audio, the recogniser's output otherwise |
| `Recognition.AsrFrameThreshold` | src/core/chatAI.py:215-218 | audio of `n` full frames passes the length gate if and only if `n >= 34` |
| `Recognition.CapturedAudioLength` | src/core/chatAI.py:195-199 | with 960-byte blocks a capture holds exactly 960 bytes per collected frame |
| `Recognition.EveryCaptureTranscribed` | src/core/chatAI.py:104-218 | with 960-byte blocks every completed recording passes the length gate and is transcribed to the fixed text |
| `Recognition.NoSpeechNoTranscription` | src/core/chatAI.py:110-121 | a stream without speech yields no transcription |
| `Dialogue.RunUnfold` | src/core/chatAI.py:52-96 | the run from event `i` is one `Iteration` (one loop body: timeout test, empty-input count, exit test, reply) on event `i`, followed by the run from `i + 1` |
| `Dialogue.StartDialogue` | src/core/chatAI.py:40-102 | the session loop returns exactly the history and stop reason of `Dialogue(start, events)` |
| `Dialogue.ExchangeKeepsWellFormed` | src/core/chatAI.py:83-89 | appending a user entry and then its "ai" reply keeps the history made of whole exchanges |
| `Dialogue.RunKeepsWellFormed` | src/core/chatAI.py:52-96 | the loop only appends to the history, and only whole exchanges |
| `Dialogue.RunNext` | src/core/chatAI.py:52-89 | an iteration that does not stop leaves the rest of the run to the remaining events, and appends one exchange to the history for a non-empty input and nothing for an empty one |
| `Dialogue.RunHistory` | src/core/chatAI.py:52-96 | the history returned is the start history plus one exchange per non-empty transcription before the stopping event, in event order, and nothing else |
| `Dialogue.RunStopEvent` | src/core/chatAI.py:52-96 | the run gets through every event exactly when it ends interrupted; an exit stop is on an input containing an exit keyword, a too-many-invalid stop on an empty transcription |
| `Dialogue.InterruptedHistory` | src/core/chatAI.py:40-102 | an interrupted dialogue returns exactly one user entry and its reply per non-empty transcription, in order, and nothing else |
| `Dialogue.DialogueHistoryWellFormed` | src/core/chatAI.py:40-102 | every returned history alternates user and "ai" entries: each user entry is a non-empty input without exit intent, and the next entry is the reply to it |
| `Dialogue.RunTooManyInvalid` | src/core/chatAI.py:63-70 | a too-many-invalid stop is on the event the loop stops on; that event and the up to two before it are empty transcriptions, enough to bring the count to 3 |
| `Dialogue.TooManyInvalidStop` | src/core/chatAI.py:54-70 | conversely, once the loop reaches an event in time whose empty transcription, with the empty ones just before it, brings the count to 3, it stops there for too many invalid inputs |
| `Dialogue.TooManyInvalidMeansThreeEmpty` | src/core/chatAI.py:63-70 | a dialogue ends for too many invalid inputs exactly on the third of three consecutive empty transcriptions (stop events `k - 2`, `k - 1`, `k`) |
| `Dialogue.ExitIntentStop` | src/core/chatAI.py:54-81 | conversely to the exit case of `RunStopEvent`, once the loop reaches an event in time whose transcription contains an exit keyword, it stops there by exit intent |
| `Dialogue.TimeoutStop` | src/core/chatAI.py:54-57 | conversely to `RunTimeout`, once the loop reaches an event read more than 20 s after the last valid input, it stops there by timeout |
| `Dialogue.RunTimeout` | src/core/chatAI.py:54-74 | every event the loop gets through was read at most 20 s after the last non-empty transcription before it (or the start, when there was none); a timeout stop is on the first event read more than 20 s after it |
| `Dialogue.NoTimeoutWithinWindow` | src/core/chatAI.py:54-74 | conversely, when every clock reading is within 20 s of the last non-empty transcription before it (or of the start), the dialogue does not time out: each valid input restarts the window, an empty one does not |
| `Dialogue.LastValidShift` | src/core/chatAI.py:63-74 | after one iteration, `last_input_time` is the first event's `heardAt` if its transcription was non-empty and unchanged otherwise |
| `Dialogue.ThreeEmptyInputsEnd` | src/core/chatAI.py:63-70 | three empty transcriptions in time end the dialogue for too many invalid inputs, with an empty history |
| `Dialogue.EmptyInputDoesNotResetTimer` | src/core/chatAI.py:55-73 | an empty input at second 5 does not restart the timer, so a reading at second 21 times out a dialogue begun at 0 |
| `Dialogue.GreetingIsNoExit` | src/core/chatAI.py:231-237 | "你好" is not an exit intent |
| `Dialogue.GreetingGetsGreetingReply` | src/core/chatAI.py:243-244 | "你好" gets the greeting reply whatever the clock |
| `Dialogue.GreetingAnswered` | src/core/chatAI.py:72-89 | a greeting in time resets the timer and the counter and appends the user entry and the greeting reply |
| `Dialogue.FarewellEnds` | src/core/chatAI.py:78-81 | a farewell in time ends the dialogue without being recorded |
| `Dialogue.GreetingThenFarewell` | src/core/chatAI.py:52-89 | greeting then "谢谢，再见": one exchange with the greeting reply, then the dialogue ends by exit intent |

## Left out

- Device input (`sd.RawInputStream`, `stream.read`, overflow flags). These are
  I/O. The frames they deliver are the input sequence.
- The voice-activity classifier (`webrtcvad.Vad.is_speech`). It is a foreign
  library. Its verdict is the `isSpeech` flag paired with each frame.
- Blocking for ever. A stream that runs out before the recording ends gives
  `Pending`. The source would go on reading without bound.
- `KeyboardInterrupt`. It is asynchronous. Running out of events stands for
  it. An interrupt in the middle of an iteration is not modelled.
- `time.time()` and `time.strftime`. These are clocks. Each iteration's
  readings and its `%H:%M` text are fields of the event.
- `time.time()` as a float. Clock readings are integers, so the model does not
  capture fractional-second timeouts.
- `print` output and the `_save_wav` debug file. These are I/O.
- `Dialogue.StartDialogue`: the transcription is an input of each event rather
  than a call to `ListenAndTranscribe`. The two are modelled and proved
  separately.
- `TextRules.Lower`: Python's `str.lower()` folds all of Unicode. The model
  folds only ASCII `A`-`Z`. The exit keywords are all lower-case ASCII or
  CJK, which have no case.
- The wake-word detector (`src/core/wakeword_core.py`) and the top-level loop
  (`main.py`). They are wrappers over a closed library and orchestration.
  They are not part of this model.
- The float `0.9 * maxlen`. It is stated as the exact integer comparison
  `10 * num_voiced > 9 * NumPaddingFrames`. With a capacity of 10, 0.9 * 10 is
  exactly 9.0, so the two agree.
