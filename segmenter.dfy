/** `ChatAI._record_speech_segment`: voice-activity segmentation of a frame stream
    with a bounded pre-trigger ring buffer, a ratio trigger and two end conditions.

    The stream is a finite sequence of frames, each paired with the verdict of the
    voice-activity classifier. `Segmentation` states, by stream positions, what
    the recording returns; `RecordSpeechSegment` is the loop over the buffer and
    the counters, proved to compute it. */
module Segmenter {
  import opened Config
  import opened Audio
  import opened Wrappers

  /** One block read from the stream and the classifier's verdict on it. */
  datatype Frame = Frame(data: seq<byte>, isSpeech: bool)

  /** Which end condition stopped a triggered recording. */
  datatype EndReason = SilenceEnd | MaxDuration

  /** The outcome of one recording. `Pending` means the stream ran out before the
      recording ended; the source would keep reading. */
  datatype Capture = Pending | Captured(audio: seq<byte>, reason: EndReason, consumed: nat)

  // ---------------------------------------------------------------------------
  // Frame data

  /** The frames' audio blocks, in order. */
  function DataOf(fs: seq<Frame>): (r: seq<seq<byte>>)
    ensures |r| == |fs|
  {
    if fs == [] then [] else DataOf(fs[..|fs| - 1]) + [fs[|fs| - 1].data]
  }

  lemma {:induction false} DataOfAt(fs: seq<Frame>, i: nat)
    requires i < |fs|
    ensures DataOf(fs)[i] == fs[i].data
    decreases |fs|
  {
    if i < |fs| - 1 {
      DataOfAt(fs[..|fs| - 1], i);
    }
  }

  /** The audio blocks of stream positions `lo .. hi - 1`, in order. */
  function DataRange(frames: seq<Frame>, lo: nat, hi: nat): (r: seq<seq<byte>>)
    requires lo <= hi <= |frames|
    ensures |r| == hi - lo
    decreases hi
  {
    if hi == lo then [] else DataRange(frames, lo, hi - 1) + [frames[hi - 1].data]
  }

  lemma {:induction false} DataOfSlice(frames: seq<Frame>, lo: nat, hi: nat)
    requires lo <= hi <= |frames|
    ensures DataOf(frames[lo..hi]) == DataRange(frames, lo, hi)
    decreases hi
  {
    if hi > lo {
      DataOfSlice(frames, lo, hi - 1);
      var s := frames[lo..hi];
      assert s[..|s| - 1] == frames[lo..hi - 1];
    }
  }

  // ---------------------------------------------------------------------------
  // The ring buffer (a `collections.deque` with `maxlen`)

  /** `deque.append` on a deque bounded by `cap`: once full, the oldest element
      is evicted. */
  function RingAppend(buf: seq<Frame>, x: Frame, cap: nat): (r: seq<Frame>)
    requires |buf| <= cap
    ensures |r| <= cap
    ensures |r| == if |buf| < cap then |buf| + 1 else cap
  {
    if |buf| < cap then buf + [x] else (buf + [x])[1..]
  }

  /** The appended buffer holds the newest `min(|buf| + 1, cap)` elements of
      `buf + [x]`, oldest first, and ends with `x`. */
  lemma RingAppendKeepsNewest(buf: seq<Frame>, x: Frame, cap: nat)
    requires |buf| <= cap && 0 < cap
    ensures RingAppend(buf, x, cap) == (buf + [x])[|buf| + 1 - |RingAppend(buf, x, cap)|..]
    ensures RingAppend(buf, x, cap)[|RingAppend(buf, x, cap)| - 1] == x
  {
  }

  /** Number of speech-flagged frames: `len([f for f, speech in ring if speech])`. */
  function NumVoiced(fs: seq<Frame>): (n: nat)
    ensures n <= |fs|
  {
    if fs == [] then 0
    else NumVoiced(fs[..|fs| - 1]) + (if fs[|fs| - 1].isSpeech then 1 else 0)
  }

  lemma {:induction false} NumVoicedAll(fs: seq<Frame>)
    ensures NumVoiced(fs) == |fs| <==> forall i :: 0 <= i < |fs| ==> fs[i].isSpeech
    decreases |fs|
  {
    if fs != [] {
      var init := fs[..|fs| - 1];
      NumVoicedAll(init);
      assert forall i :: 0 <= i < |init| ==> init[i] == fs[i];
    }
  }

  /** The trigger rule `num_voiced > 0.9 * maxlen`, as an exact integer comparison. */
  predicate Fires(ring: seq<Frame>)
  {
    10 * NumVoiced(ring) > 9 * NumPaddingFrames
  }

  /** With a capacity of 10, the ratio rule fires exactly when the buffer is full
      and every buffered frame is speech. */
  lemma FiresIffFullSpeech(ring: seq<Frame>)
    requires |ring| <= NumPaddingFrames
    ensures Fires(ring) <==> |ring| == NumPaddingFrames && forall i :: 0 <= i < |ring| ==> ring[i].isSpeech
  {
    NumVoicedAll(ring);
  }

  /** Index of the oldest frame still buffered once frame `t` has been appended. */
  function WindowStart(t: nat): nat
  {
    if t + 1 >= NumPaddingFrames then t + 1 - NumPaddingFrames else 0
  }

  /** The buffer contents right after frame `t` is appended, before any trigger. */
  function Window(frames: seq<Frame>, t: nat): seq<Frame>
    requires t < |frames|
  {
    frames[WindowStart(t)..t + 1]
  }

  /** The buffer after the first `i` frames have been appended. */
  function Ring(frames: seq<Frame>, i: nat): seq<Frame>
    requires i <= |frames|
  {
    if i == 0 then [] else Window(frames, i - 1)
  }

  /** Appending frame `i` to the buffer that holds the last frames up to `i - 1`
      gives the last frames up to `i`: FIFO eviction keeps a sliding window. */
  lemma RingTracksWindow(frames: seq<Frame>, i: nat)
    requires i < |frames|
    ensures |Ring(frames, i)| <= NumPaddingFrames
    ensures RingAppend(Ring(frames, i), frames[i], NumPaddingFrames) == Window(frames, i)
  {
    var buf := Ring(frames, i);
    if i == 0 {
      assert buf + [frames[0]] == frames[..1];
    } else {
      assert buf + [frames[i]] == frames[WindowStart(i - 1)..i + 1];
    }
  }

  // ---------------------------------------------------------------------------
  // The trigger, by stream position

  /** Number of speech frames among stream positions `lo .. hi - 1`. */
  function VoicedIn(frames: seq<Frame>, lo: nat, hi: nat): (n: nat)
    requires lo <= hi <= |frames|
    ensures n <= hi - lo
    decreases hi
  {
    if hi == lo then 0
    else VoicedIn(frames, lo, hi - 1) + (if frames[hi - 1].isSpeech then 1 else 0)
  }

  lemma {:induction false} NumVoicedSlice(frames: seq<Frame>, lo: nat, hi: nat)
    requires lo <= hi <= |frames|
    ensures NumVoiced(frames[lo..hi]) == VoicedIn(frames, lo, hi)
    decreases hi
  {
    if hi > lo {
      NumVoicedSlice(frames, lo, hi - 1);
      var s := frames[lo..hi];
      assert s[..|s| - 1] == frames[lo..hi - 1];
    }
  }

  lemma {:induction false} VoicedInAll(frames: seq<Frame>, lo: nat, hi: nat)
    requires lo <= hi <= |frames|
    ensures VoicedIn(frames, lo, hi) == hi - lo <==> forall j :: lo <= j < hi ==> frames[j].isSpeech
    decreases hi
  {
    if hi > lo {
      VoicedInAll(frames, lo, hi - 1);
    }
  }

  /** The trigger rule evaluated on the buffer right after frame `t` is appended. */
  predicate FiresAt(frames: seq<Frame>, t: nat)
    requires t < |frames|
  {
    10 * VoicedIn(frames, WindowStart(t), t + 1) > 9 * NumPaddingFrames
  }

  lemma FiresAtWindow(frames: seq<Frame>, t: nat)
    requires t < |frames|
    ensures Fires(Window(frames, t)) <==> FiresAt(frames, t)
  {
    NumVoicedSlice(frames, WindowStart(t), t + 1);
  }

  /** The frames `t - 9 .. t` exist and are all speech. */
  ghost predicate SpeechRunEndsAt(frames: seq<Frame>, t: nat)
    requires t < |frames|
  {
    t + 1 >= NumPaddingFrames &&
    forall i :: t + 1 - NumPaddingFrames <= i <= t ==> frames[i].isSpeech
  }

  lemma FiresAtIffSpeechRun(frames: seq<Frame>, t: nat)
    requires t < |frames|
    ensures FiresAt(frames, t) <==> SpeechRunEndsAt(frames, t)
  {
    VoicedInAll(frames, WindowStart(t), t + 1);
  }

  /** The first position below `n` at which the trigger rule fires, if any. */
  function FirstTrigger(frames: seq<Frame>, n: nat): (r: Option<nat>)
    requires n <= |frames|
    ensures r.Some? ==> r.value < n
  {
    if n == 0 then None
    else match FirstTrigger(frames, n - 1)
      case Some(t) => Some(t)
      case None => if FiresAt(frames, n - 1) then Some(n - 1) else None
  }

  /** `FirstTrigger` finds a position where the rule fires, and it fires nowhere before. */
  lemma {:induction false} FirstTriggerSpec(frames: seq<Frame>, n: nat)
    requires n <= |frames|
    ensures match FirstTrigger(frames, n)
      case None => forall u :: 0 <= u < n ==> !FiresAt(frames, u)
      case Some(t) => FiresAt(frames, t) && forall u :: 0 <= u < t ==> !FiresAt(frames, u)
    decreases n
  {
    if n > 0 {
      FirstTriggerSpec(frames, n - 1);
    }
  }

  /** A trigger found among the first `n` frames stays the first one. */
  lemma {:induction false} FirstTriggerStable(frames: seq<Frame>, n: nat, m: nat)
    requires n <= m <= |frames| && FirstTrigger(frames, n).Some?
    ensures FirstTrigger(frames, m) == FirstTrigger(frames, n)
    decreases m
  {
    if m > n {
      FirstTriggerStable(frames, n, m - 1);
    }
  }

  /** `FirstTrigger` over the whole stream is the first `t` at which the rule fires. */
  lemma FirstTriggerIs(frames: seq<Frame>, t: nat)
    requires t < |frames|
    ensures FirstTrigger(frames, |frames|) == Some(t) <==>
              FiresAt(frames, t) && forall u :: 0 <= u < t ==> !FiresAt(frames, u)
  {
    FirstTriggerSpec(frames, |frames|);
    match FirstTrigger(frames, |frames|)
    case None =>
    case Some(v) =>
      if v < t {
        assert FiresAt(frames, v);
      } else if v > t {
        assert !FiresAt(frames, t);
      }
  }

  /** The recording triggers at frame `t` exactly when frame `t` closes the first
      run of ten consecutive speech frames. */
  lemma TriggerIsFirstSpeechRun(frames: seq<Frame>, t: nat)
    requires t < |frames|
    ensures FirstTrigger(frames, |frames|) == Some(t) <==>
              SpeechRunEndsAt(frames, t) && forall u :: 0 <= u < t ==> !SpeechRunEndsAt(frames, u)
  {
    FirstTriggerIs(frames, t);
    FiresAtIffSpeechRun(frames, t);
    forall u | 0 <= u < t ensures FiresAt(frames, u) <==> SpeechRunEndsAt(frames, u) {
      FiresAtIffSpeechRun(frames, u);
    }
  }

  /** A stream without any speech frame never triggers. */
  lemma NoSpeechNeverTriggers(frames: seq<Frame>)
    requires forall i :: 0 <= i < |frames| ==> !frames[i].isSpeech
    ensures FirstTrigger(frames, |frames|) == None
    ensures Segmentation(frames) == Pending
  {
    FirstTriggerSpec(frames, |frames|);
    match FirstTrigger(frames, |frames|)
    case None =>
    case Some(t) =>
      FiresAtIffSpeechRun(frames, t);
  }

  /** The trigger rule only fires on a full buffer. */
  lemma TriggerWindowFull(frames: seq<Frame>, t: nat)
    requires t < |frames| && FirstTrigger(frames, |frames|) == Some(t)
    ensures NumPaddingFrames <= t + 1
  {
    FirstTriggerSpec(frames, |frames|);
    FiresAtIffSpeechRun(frames, t);
  }

  // ---------------------------------------------------------------------------
  // After the trigger

  /** `silent_frame_count` once frames `lo .. i - 1` have been appended: the
      length of the trailing run of non-speech frames among them. */
  function SilentRun(frames: seq<Frame>, lo: nat, i: nat): (n: nat)
    requires lo <= i <= |frames|
    ensures n <= i - lo
    decreases i
  {
    if i == lo then 0
    else if frames[i - 1].isSpeech then 0
    else SilentRun(frames, lo, i - 1) + 1
  }

  /** The counter is exactly the trailing silence: the last `n` frames are
      non-speech and the frame before them, if it was appended, is speech. */
  lemma {:induction false} SilentRunIsTrailingSilence(frames: seq<Frame>, lo: nat, i: nat)
    requires lo <= i <= |frames|
    ensures forall j :: i - SilentRun(frames, lo, i) <= j < i ==> !frames[j].isSpeech
    ensures SilentRun(frames, lo, i) < i - lo ==> frames[i - 1 - SilentRun(frames, lo, i)].isSpeech
    decreases i
  {
    if i > lo && !frames[i - 1].isSpeech {
      SilentRunIsTrailingSilence(frames, lo, i - 1);
    }
  }

  lemma {:induction false} SilentRunAllSilent(frames: seq<Frame>, lo: nat, i: nat)
    requires lo <= i <= |frames|
    requires forall j :: lo <= j < i ==> !frames[j].isSpeech
    ensures SilentRun(frames, lo, i) == i - lo
    decreases i
  {
    if i > lo {
      SilentRunAllSilent(frames, lo, i - 1);
    }
  }

  /** A recording that triggered at frame `t` ends once `c` frames have been read
      in all (frame `c - 1` is the last appended, `c - t - 1` the `frame_count`):
      the silence run exceeds `MaxSilentFrames` or the count exceeds `MaxFrames`. */
  predicate EndsAt(frames: seq<Frame>, t: nat, c: nat)
    requires t < c <= |frames|
  {
    SilentRun(frames, t + 1, c) > MaxSilentFrames || c - t - 1 > MaxFrames
  }

  /** The silence condition is tested first. */
  function Reason(frames: seq<Frame>, t: nat, c: nat): EndReason
    requires t < c <= |frames|
  {
    if SilentRun(frames, t + 1, c) > MaxSilentFrames then SilenceEnd else MaxDuration
  }

  /** The first frame total `c` in `t + 2 .. n` at which the recording that
      triggered at `t` ends, if any. */
  function FirstEnd(frames: seq<Frame>, t: nat, n: nat): (r: Option<nat>)
    requires t < n <= |frames|
    ensures r.Some? ==> t + 1 < r.value <= n
    decreases n
  {
    if n == t + 1 then None
    else match FirstEnd(frames, t, n - 1)
      case Some(c) => Some(c)
      case None => if EndsAt(frames, t, n) then Some(n) else None
  }

  /** `FirstEnd` finds a total at which the recording ends, and none ends it earlier. */
  lemma {:induction false} FirstEndSpec(frames: seq<Frame>, t: nat, n: nat)
    requires t < n <= |frames|
    ensures match FirstEnd(frames, t, n)
      case None => forall c :: t + 1 < c <= n ==> !EndsAt(frames, t, c)
      case Some(e) => EndsAt(frames, t, e) && forall c :: t + 1 < c < e ==> !EndsAt(frames, t, c)
    decreases n
  {
    if n > t + 1 {
      FirstEndSpec(frames, t, n - 1);
    }
  }

  /** An end found within the first `n` frames stays the first one. */
  lemma {:induction false} FirstEndStable(frames: seq<Frame>, t: nat, n: nat, m: nat)
    requires t < n <= m <= |frames| && FirstEnd(frames, t, n).Some?
    ensures FirstEnd(frames, t, m) == FirstEnd(frames, t, n)
    decreases m
  {
    if m > n {
      FirstEndStable(frames, t, n, m - 1);
    }
  }

  /** The recording that triggered at `t` ends at `c` exactly when `c` ends it
      and no earlier frame total does. */
  lemma FirstEndIs(frames: seq<Frame>, t: nat, c: nat)
    requires t + 1 < c <= |frames|
    ensures FirstEnd(frames, t, |frames|) == Some(c) <==>
              EndsAt(frames, t, c) && forall d :: t + 1 < d < c ==> !EndsAt(frames, t, d)
  {
    FirstEndSpec(frames, t, |frames|);
    match FirstEnd(frames, t, |frames|)
    case None =>
    case Some(e) =>
      if e < c {
        assert EndsAt(frames, t, e);
      } else if e > c {
        assert !EndsAt(frames, t, c);
      }
  }

  /** Discard recordings of fewer than `MinFramesToKeep` frames, else join them. */
  function Finalize(voiced: seq<seq<byte>>): seq<byte>
  {
    if |voiced| < MinFramesToKeep then [] else Concat(voiced)
  }

  /** What one recording returns on the stream `frames`: trigger at the first
      firing of the ratio rule, then append every frame until the first end. */
  function Segmentation(frames: seq<Frame>): Capture
  {
    match FirstTrigger(frames, |frames|)
    case None => Pending
    case Some(t) => AfterTrigger(frames, t)
  }

  /** The recording once it has triggered at frame `t`. */
  function AfterTrigger(frames: seq<Frame>, t: nat): Capture
    requires t < |frames|
  {
    match FirstEnd(frames, t, |frames|)
    case None => Pending
    case Some(c) => Ended(frames, t, c)
  }

  /** The recording that triggered at frame `t` and ended after reading `c`
      frames: the buffered preroll, positions `WindowStart(t) .. t`, and every
      frame after it up to position `c - 1`. */
  function Ended(frames: seq<Frame>, t: nat, c: nat): Capture
    requires t < c <= |frames|
  {
    Captured(Finalize(DataRange(frames, WindowStart(t), c)), Reason(frames, t, c), c)
  }

  /** A triggered recording ends no later than after `MaxFrames + 1` frames. */
  lemma EndWithinCap(frames: seq<Frame>, t: nat, c: nat)
    requires t < |frames| && FirstEnd(frames, t, |frames|) == Some(c)
    ensures c <= t + 2 + MaxFrames
  {
    FirstEndSpec(frames, t, |frames|);
    if t + 2 + MaxFrames < c {
      assert EndsAt(frames, t, t + 2 + MaxFrames);
    }
  }

  /** The audio of an ended recording is the ten-frame preroll and every later
      frame read, joined in stream order. */
  lemma EndedAudio(frames: seq<Frame>, t: nat, c: nat)
    requires NumPaddingFrames <= t + 1 && t + 1 < c <= |frames|
    ensures Ended(frames, t, c).audio == Concat(DataOf(frames[t + 1 - NumPaddingFrames..c]))
  {
    DataOfSlice(frames, t + 1 - NumPaddingFrames, c);
  }

  /** The recording that triggers at `t` and first ends at `c` is `Ended(frames, t, c)`. */
  lemma SegmentationIsEnded(frames: seq<Frame>, t: nat, c: nat)
    requires t < c <= |frames|
    requires FirstTrigger(frames, |frames|) == Some(t) && FirstEnd(frames, t, |frames|) == Some(c)
    ensures Segmentation(frames) == Ended(frames, t, c)
  {
  }

  /** A captured recording that triggered at `t` is the `Ended` record of its first end. */
  lemma CapturedIsEnded(frames: seq<Frame>, t: nat) returns (c: nat)
    requires FirstTrigger(frames, |frames|) == Some(t) && Segmentation(frames).Captured?
    ensures t < c <= |frames| && FirstEnd(frames, t, |frames|) == Some(c)
    ensures Segmentation(frames) == Ended(frames, t, c)
  {
    c := FirstEnd(frames, t, |frames|).value;
  }

  // ---------------------------------------------------------------------------
  // What a recording returns

  /** With the default capacity of 10 the minimum-length discard is never taken:
      a captured utterance that triggered at frame `t` is the ten-frame preroll
      followed by between 1 and `MaxFrames + 1` further frames, all joined in
      stream order. */
  lemma CapturedUtterance(frames: seq<Frame>, t: nat)
    requires FirstTrigger(frames, |frames|) == Some(t) && Segmentation(frames).Captured?
    ensures NumPaddingFrames <= t + 1
    ensures t + 1 < Segmentation(frames).consumed <= t + 2 + MaxFrames
    ensures Segmentation(frames).audio ==
              Concat(DataOf(frames[t + 1 - NumPaddingFrames..Segmentation(frames).consumed]))
  {
    var c := CapturedIsEnded(frames, t);
    TriggerWindowFull(frames, t);
    EndWithinCap(frames, t, c);
    EndedAudio(frames, t, c);
  }

  /** The recording that triggered at `t` and ended by the count rule after
      reading `c` frames read exactly `MaxFrames + 1` frames after the trigger. */
  lemma MaxDurationAt(frames: seq<Frame>, t: nat, c: nat)
    requires t < c <= |frames| && FirstEnd(frames, t, |frames|) == Some(c)
    requires Reason(frames, t, c) == MaxDuration
    ensures c == t + 2 + MaxFrames
  {
    FirstEndSpec(frames, t, |frames|);
    EndWithinCap(frames, t, c);
  }

  /** A forced end happens after exactly `MaxFrames + 1` post-trigger frames. */
  lemma MaxDurationEndsAtCap(frames: seq<Frame>, t: nat)
    requires FirstTrigger(frames, |frames|) == Some(t)
    requires Segmentation(frames).Captured? && Segmentation(frames).reason == MaxDuration
    ensures Segmentation(frames).consumed == t + 2 + MaxFrames
  {
    var c := CapturedIsEnded(frames, t);
    MaxDurationAt(frames, t, c);
  }

  /** A silence end after reading `c` frames: the last `MaxSilentFrames + 1`
      frames read are non-speech and all came after the trigger. */
  lemma SilenceEndAt(frames: seq<Frame>, t: nat, c: nat)
    requires t < c <= |frames| && Reason(frames, t, c) == SilenceEnd
    ensures t + 2 + MaxSilentFrames <= c
    ensures forall i :: c - (MaxSilentFrames + 1) <= i < c ==> !frames[i].isSpeech
  {
    SilentRunIsTrailingSilence(frames, t + 1, c);
  }

  /** A silence end happens only after `MaxSilentFrames + 1` consecutive
      non-speech frames, all of them after the trigger at `t`. */
  lemma SilenceEndIsTrailingSilence(frames: seq<Frame>, t: nat)
    requires FirstTrigger(frames, |frames|) == Some(t)
    requires Segmentation(frames).Captured? && Segmentation(frames).reason == SilenceEnd
    ensures t + 2 + MaxSilentFrames <= Segmentation(frames).consumed <= |frames|
    ensures forall i :: Segmentation(frames).consumed - (MaxSilentFrames + 1) <= i < Segmentation(frames).consumed ==>
              !frames[i].isSpeech
  {
    var c := CapturedIsEnded(frames, t);
    SilenceEndAt(frames, t, c);
  }

  /** Every capture holds at least the preroll and `MaxSilentFrames + 1` further
      frames: no end condition can be met sooner. */
  lemma CapturedMinLength(frames: seq<Frame>, t: nat)
    requires FirstTrigger(frames, |frames|) == Some(t) && Segmentation(frames).Captured?
    ensures t + 2 + MaxSilentFrames <= Segmentation(frames).consumed
  {
    var c := CapturedIsEnded(frames, t);
    if Reason(frames, t, c) == SilenceEnd {
      SilenceEndAt(frames, t, c);
    } else {
      MaxDurationAt(frames, t, c);
    }
  }

  /** If frame total `c` ends the recording, the first end comes no later. */
  lemma EndNoLaterThan(frames: seq<Frame>, t: nat, c: nat)
    requires t + 1 < c <= |frames| && EndsAt(frames, t, c)
    ensures FirstEnd(frames, t, |frames|).Some? && FirstEnd(frames, t, |frames|).value <= c
  {
    FirstEndSpec(frames, t, |frames|);
  }

  /** Once triggered, a segment always ends within `MaxFrames + 1` further frames,
      whatever the classifier says. */
  lemma EndsWithinCap(frames: seq<Frame>, t: nat)
    requires FirstTrigger(frames, |frames|) == Some(t)
    requires t + 2 + MaxFrames <= |frames|
    ensures Segmentation(frames).Captured?
    ensures Segmentation(frames).consumed <= t + 2 + MaxFrames
  {
    assert EndsAt(frames, t, t + 2 + MaxFrames);
    EndNoLaterThan(frames, t, t + 2 + MaxFrames);
    SegmentationIsEnded(frames, t, FirstEnd(frames, t, |frames|).value);
  }

  /** Continuous speech after the trigger: the first end is the count rule at
      `MaxFrames + 1` frames. */
  lemma SpeechEndsAtCap(frames: seq<Frame>, t: nat)
    requires t + 2 + MaxFrames <= |frames|
    requires forall i :: t < i < t + 2 + MaxFrames ==> frames[i].isSpeech
    ensures FirstEnd(frames, t, |frames|) == Some(t + 2 + MaxFrames)
    ensures Reason(frames, t, t + 2 + MaxFrames) == MaxDuration
  {
    var cap := t + 2 + MaxFrames;
    assert frames[cap - 1].isSpeech;
    forall c | t + 1 < c < cap ensures !EndsAt(frames, t, c) {
      assert frames[c - 1].isSpeech;
    }
    FirstEndIs(frames, t, cap);
  }

  /** If every frame after the trigger is speech, the recording is force-ended
      after exactly `MaxFrames + 1` of them. */
  lemma ContinuousSpeechHitsCap(frames: seq<Frame>, t: nat)
    requires FirstTrigger(frames, |frames|) == Some(t)
    requires t + 2 + MaxFrames <= |frames|
    requires forall i :: t < i < t + 2 + MaxFrames ==> frames[i].isSpeech
    ensures Segmentation(frames).Captured?
    ensures Segmentation(frames).reason == MaxDuration
    ensures Segmentation(frames).consumed == t + 2 + MaxFrames
  {
    SpeechEndsAtCap(frames, t);
    SegmentationIsEnded(frames, t, t + 2 + MaxFrames);
  }

  /** Silence right after the trigger: the first end is the silence rule after
      `MaxSilentFrames + 1` frames. */
  lemma SilenceEndsEarly(frames: seq<Frame>, t: nat)
    requires t + 2 + MaxSilentFrames <= |frames|
    requires forall i :: t < i < t + 2 + MaxSilentFrames ==> !frames[i].isSpeech
    ensures FirstEnd(frames, t, |frames|) == Some(t + 2 + MaxSilentFrames)
    ensures Reason(frames, t, t + 2 + MaxSilentFrames) == SilenceEnd
  {
    var end := t + 2 + MaxSilentFrames;
    SilentRunAllSilent(frames, t + 1, end);
    forall c | t + 1 < c < end ensures !EndsAt(frames, t, c) {
      SilentRunAllSilent(frames, t + 1, c);
    }
    FirstEndIs(frames, t, end);
  }

  /** If the `MaxSilentFrames + 1` frames after the trigger are all non-speech,
      the recording ends on the last of them, by the silence rule. */
  lemma SilenceAfterTriggerEnds(frames: seq<Frame>, t: nat)
    requires FirstTrigger(frames, |frames|) == Some(t)
    requires t + 2 + MaxSilentFrames <= |frames|
    requires forall i :: t < i < t + 2 + MaxSilentFrames ==> !frames[i].isSpeech
    ensures Segmentation(frames).Captured?
    ensures Segmentation(frames).reason == SilenceEnd
    ensures Segmentation(frames).consumed == t + 2 + MaxSilentFrames
  {
    SilenceEndsEarly(frames, t);
    SegmentationIsEnded(frames, t, t + 2 + MaxSilentFrames);
  }

  /** Ten speech frames then thirty non-speech frames: the recording triggers on
      the tenth frame and ends by silence on frame 37, returning the first 37
      frames joined. */
  lemma TenSpeechThenThirtySilent(frames: seq<Frame>)
    requires |frames| == 40
    requires forall i :: 0 <= i < 10 ==> frames[i].isSpeech
    requires forall i :: 10 <= i < 40 ==> !frames[i].isSpeech
    ensures FirstTrigger(frames, |frames|) == Some(9)
    ensures Segmentation(frames) == Captured(Concat(DataOf(frames[..37])), SilenceEnd, 37)
  {
    TriggerIsFirstSpeechRun(frames, 9);
    SilenceEndsEarly(frames, 9);
    SegmentationIsEnded(frames, 9, 37);
    EndedAudio(frames, 9, 37);
    assert frames[0..37] == frames[..37];
  }

  // ---------------------------------------------------------------------------
  // The loop

  /** The state of the loop before the trigger, after `i` frames: the buffer holds
      the newest frames and the rule has not fired yet. */
  ghost predicate Listening(frames: seq<Frame>, i: nat, ring: seq<Frame>)
  {
    i <= |frames| && ring == Ring(frames, i) && FirstTrigger(frames, i) == None
  }

  /** The state of the loop after a trigger at `t`, after `i` frames: the preroll
      and every later frame collected in order, the silence counter equal to the
      trailing silence, and no end condition met yet. */
  ghost predicate Recording(frames: seq<Frame>, t: nat, i: nat, voiced: seq<seq<byte>>, silent: nat)
  {
    t < i <= |frames| && FirstTrigger(frames, |frames|) == Some(t) &&
    voiced == DataRange(frames, WindowStart(t), i) &&
    silent == SilentRun(frames, t + 1, i) &&
    FirstEnd(frames, t, i) == None
  }

  /** The invariant of the recording loop over its local variables. */
  ghost predicate LoopInv(frames: seq<Frame>, triggered: bool, t: nat, i: nat, ring: seq<Frame>,
                          voiced: seq<seq<byte>>, silent: nat, frameCount: nat)
  {
    i <= |frames| &&
    (!triggered ==>
      Listening(frames, i, ring) && |ring| <= NumPaddingFrames &&
      voiced == [] && silent == 0 && frameCount == 0) &&
    (triggered ==>
      Recording(frames, t, i, voiced, silent) && ring == [] && frameCount == i - t - 1)
  }

  /** One pre-trigger iteration that does not fire: keep listening. */
  lemma ListenStep(frames: seq<Frame>, triggered: bool, t: nat, i: nat, ring: seq<Frame>,
                   voiced: seq<seq<byte>>, silent: nat, frameCount: nat, ring': seq<Frame>)
    requires LoopInv(frames, triggered, t, i, ring, voiced, silent, frameCount)
    requires !triggered && i < |frames|
    requires ring' == RingAppend(ring, frames[i], NumPaddingFrames) && !Fires(ring')
    ensures LoopInv(frames, triggered, t, i + 1, ring', voiced, silent, frameCount)
  {
    RingTracksWindow(frames, i);
    FiresAtWindow(frames, i);
    assert FirstTrigger(frames, i + 1) == None;
  }

  /** The trigger at frame `i`: the buffer, now the last ten frames, becomes the
      preroll and recording begins with nothing after it yet. */
  lemma TriggerAt(frames: seq<Frame>, i: nat, ring': seq<Frame>, voiced': seq<seq<byte>>)
    requires i < |frames| && FirstTrigger(frames, i) == None
    requires ring' == Window(frames, i) && Fires(ring') && voiced' == DataOf(ring')
    ensures Recording(frames, i, i + 1, voiced', 0)
  {
    FiresAtWindow(frames, i);
    assert FirstTrigger(frames, i + 1) == Some(i);
    FirstTriggerStable(frames, i + 1, |frames|);
    DataOfSlice(frames, WindowStart(i), i + 1);
  }

  /** One pre-trigger iteration that fires: the whole buffer becomes the preroll. */
  lemma TriggerStep(frames: seq<Frame>, triggered: bool, t: nat, i: nat, ring: seq<Frame>,
                    voiced: seq<seq<byte>>, silent: nat, frameCount: nat,
                    ring': seq<Frame>, voiced': seq<seq<byte>>)
    requires LoopInv(frames, triggered, t, i, ring, voiced, silent, frameCount)
    requires !triggered && i < |frames|
    requires ring' == RingAppend(ring, frames[i], NumPaddingFrames) && Fires(ring')
    requires voiced' == voiced + DataOf(ring')
    ensures LoopInv(frames, true, i, i + 1, [], voiced', silent, frameCount)
  {
    RingTracksWindow(frames, i);
    assert voiced' == DataOf(ring');
    TriggerAt(frames, i, ring', voiced');
  }

  /** A post-trigger iteration whose end tests fail: keep recording. */
  lemma RecordStep(frames: seq<Frame>, triggered: bool, t: nat, i: nat, ring: seq<Frame>,
                   voiced: seq<seq<byte>>, silent: nat, frameCount: nat,
                   voiced': seq<seq<byte>>, silent': nat, frameCount': nat)
    requires LoopInv(frames, triggered, t, i, ring, voiced, silent, frameCount)
    requires triggered && i < |frames|
    requires voiced' == voiced + [frames[i].data] && frameCount' == frameCount + 1
    requires silent' == if frames[i].isSpeech then 0 else silent + 1
    requires silent' <= MaxSilentFrames && frameCount' <= MaxFrames
    ensures LoopInv(frames, triggered, t, i + 1, ring, voiced', silent', frameCount')
  {
    assert FirstEnd(frames, t, i + 1) == None;
  }

  /** A post-trigger iteration whose end test succeeds: the silence test first,
      then the count test, decide the reason, and the recording is complete. */
  lemma RecordEnd(frames: seq<Frame>, triggered: bool, t: nat, i: nat, ring: seq<Frame>,
                  voiced: seq<seq<byte>>, silent: nat, frameCount: nat,
                  voiced': seq<seq<byte>>, silent': nat, frameCount': nat)
    requires LoopInv(frames, triggered, t, i, ring, voiced, silent, frameCount)
    requires triggered && i < |frames|
    requires voiced' == voiced + [frames[i].data] && frameCount' == frameCount + 1
    requires silent' == if frames[i].isSpeech then 0 else silent + 1
    requires silent' > MaxSilentFrames || frameCount' > MaxFrames
    ensures Segmentation(frames) ==
              Captured(Finalize(voiced'), if silent' > MaxSilentFrames then SilenceEnd else MaxDuration, i + 1)
  {
    assert FirstEnd(frames, t, i + 1) == Some(i + 1);
    FirstEndStable(frames, t, i + 1, |frames|);
    SegmentationIsEnded(frames, t, i + 1);
  }

  /** The stream ran out before the recording ended. */
  lemma StreamExhausted(frames: seq<Frame>, triggered: bool, t: nat, ring: seq<Frame>,
                        voiced: seq<seq<byte>>, silent: nat, frameCount: nat)
    requires LoopInv(frames, triggered, t, |frames|, ring, voiced, silent, frameCount)
    ensures Segmentation(frames) == Pending
  {
  }

  /** `for f, s in ring_buffer: voiced_frames.append(f)`: the buffered frames'
      data, oldest first, after what was collected already. */
  method AppendPreroll(voiced: seq<seq<byte>>, ring: seq<Frame>) returns (out: seq<seq<byte>>)
    ensures out == voiced + DataOf(ring)
  {
    out := voiced;
    var j := 0;
    while j < |ring|
      invariant 0 <= j <= |ring|
      invariant out == voiced + DataRange(ring, 0, j)
    {
      out := out + [ring[j].data];
      j := j + 1;
    }
    assert ring[0..|ring|] == ring;
    DataOfSlice(ring, 0, |ring|);
  }

  /** The recording loop: buffer frames until the ratio rule fires, then collect
      the preroll and every following frame until the silence or the count rule
      ends the segment; a segment of fewer than ten frames is returned empty. */
  method RecordSpeechSegment(frames: seq<Frame>) returns (r: Capture)
    ensures r == Segmentation(frames)
  {
    var ring: seq<Frame> := [];
    var triggered := false;
    var voiced: seq<seq<byte>> := [];
    var silentFrameCount: nat := 0;
    var frameCount: nat := 0;
    ghost var t: nat := 0;
    var i := 0;
    while i < |frames|
      invariant LoopInv(frames, triggered, t, i, ring, voiced, silentFrameCount, frameCount)
    {
      var f := frames[i];
      if !triggered {
        ghost var ring0 := ring;
        ring := RingAppend(ring, f, NumPaddingFrames);
        var numVoiced := NumVoiced(ring);
        if 10 * numVoiced > 9 * NumPaddingFrames {
          ghost var voiced0 := voiced;
          voiced := AppendPreroll(voiced, ring);
          TriggerStep(frames, triggered, t, i, ring0, voiced0, silentFrameCount, frameCount, ring, voiced);
          triggered := true;
          t := i;
          ring := [];
        } else {
          ListenStep(frames, triggered, t, i, ring0, voiced, silentFrameCount, frameCount, ring);
        }
      } else {
        ghost var voiced0, silent0, count0 := voiced, silentFrameCount, frameCount;
        voiced := voiced + [f.data];
        frameCount := frameCount + 1;
        if f.isSpeech {
          silentFrameCount := 0;
        } else {
          silentFrameCount := silentFrameCount + 1;
        }
        if silentFrameCount > MaxSilentFrames {
          RecordEnd(frames, triggered, t, i, ring, voiced0, silent0, count0, voiced, silentFrameCount, frameCount);
          r := Captured(Finalize(voiced), SilenceEnd, i + 1);
          return;
        }
        if frameCount > MaxFrames {
          RecordEnd(frames, triggered, t, i, ring, voiced0, silent0, count0, voiced, silentFrameCount, frameCount);
          r := Captured(Finalize(voiced), MaxDuration, i + 1);
          return;
        }
        RecordStep(frames, triggered, t, i, ring, voiced0, silent0, count0, voiced, silentFrameCount, frameCount);
      }
      i := i + 1;
    }
    StreamExhausted(frames, triggered, t, ring, voiced, silentFrameCount, frameCount);
    r := Pending;
  }
}
