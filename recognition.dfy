/** `ChatAI._listen_and_transcribe` and the mock `_asr_engine`: record one
    utterance, then turn its audio into text. */
module Recognition {
  import opened Config
  import opened Audio
  import opened Wrappers
  import opened Segmenter

  /** The fixed text the mock recogniser returns for long enough audio. */
  const MockTranscript: string := "你好 Jarvis，这是一个测试对话。"

  /** The mock recogniser: nothing for audio shorter than `AsrMinBytes` bytes,
      the fixed transcript otherwise. */
  function AsrEngine(audio: seq<byte>): (r: string)
    ensures r == "" <==> |audio| < AsrMinBytes
    ensures r != "" ==> r == MockTranscript
  {
    if |audio| < AsrMinBytes then "" else MockTranscript
  }

  /** What `_listen_and_transcribe` returns on the stream `frames`; `None` when
      the stream runs out before the recording ends. An empty recording is
      reported as the empty text without consulting the recogniser. */
  function Transcription(frames: seq<Frame>): Option<string>
  {
    match Segmentation(frames)
    case Pending => None
    case Captured(audio, _, _) => Some(if audio == [] then "" else AsrEngine(audio))
  }

  /** Record one utterance and transcribe it. */
  method ListenAndTranscribe(frames: seq<Frame>) returns (r: Option<string>)
    ensures r == Transcription(frames)
  {
    var segment := RecordSpeechSegment(frames);
    if segment.Pending? {
      return None;
    }
    var audio := segment.audio;
    if |audio| == 0 {
      return Some("");
    }
    r := Some(AsrEngine(audio));
  }

  /** Audio of `n` whole frames passes the length gate exactly when `n` is at least 34. */
  lemma AsrFrameThreshold(audio: seq<byte>, n: nat)
    requires |audio| == n * FrameBytes
    ensures AsrEngine(audio) == MockTranscript <==> n >= 34
    ensures AsrEngine(audio) == "" <==> n < 34
  {
  }

  /** When every block read has the full `FrameBytes` bytes, a capture that
      triggered at `t` holds `consumed - t + 9` blocks of audio. */
  lemma CapturedAudioLength(frames: seq<Frame>, t: nat)
    requires forall i :: 0 <= i < |frames| ==> |frames[i].data| == FrameBytes
    requires FirstTrigger(frames, |frames|) == Some(t) && Segmentation(frames).Captured?
    ensures NumPaddingFrames <= t + 1 < Segmentation(frames).consumed <= |frames|
    ensures |Segmentation(frames).audio| == (Segmentation(frames).consumed - (t + 1 - NumPaddingFrames)) * FrameBytes
  {
    CapturedUtterance(frames, t);
    var c := CapturedIsEnded(frames, t);
    var fs := frames[t + 1 - NumPaddingFrames..c];
    var chunks := DataOf(fs);
    forall i | 0 <= i < |chunks| ensures |chunks[i]| == FrameBytes {
      DataOfAt(fs, i);
    }
    ConcatUniformLength(chunks, FrameBytes);
  }

  /** With full-size blocks every capture is long enough for the recogniser:
      even the shortest, the preroll and `MaxSilentFrames + 1` silent frames, is
      37 blocks, 35520 bytes. */
  lemma EveryCaptureTranscribed(frames: seq<Frame>)
    requires forall i :: 0 <= i < |frames| ==> |frames[i].data| == FrameBytes
    requires Segmentation(frames).Captured?
    ensures Transcription(frames) == Some(MockTranscript)
  {
    match FirstTrigger(frames, |frames|)
    case None =>
    case Some(t) =>
      CapturedAudioLength(frames, t);
      CapturedMinLength(frames, t);
      var n := Segmentation(frames).consumed - (t + 1 - NumPaddingFrames);
      AsrFrameThreshold(Segmentation(frames).audio, n);
  }

  /** A stream without any speech frame yields no transcription. */
  lemma NoSpeechNoTranscription(frames: seq<Frame>)
    requires forall i :: 0 <= i < |frames| ==> !frames[i].isSpeech
    ensures Transcription(frames) == None
  {
    NoSpeechNeverTriggers(frames);
  }
}
