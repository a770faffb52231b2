/** The fixed parameters that `ChatAI.__init__` and `_record_speech_segment` set up.
    Derived values are written with the same integer division the source
    performs through `int(a / b)` on positive operands. */
module Config {

  /** Words whose presence (as a substring) in a transcription ends the dialogue. */
  const ExitKeywords: seq<string> := ["谢谢", "再见", "结束", "退下", "exit", "quit", "bye"]

  /** Seconds without a valid input after which the dialogue goes back to sleep. */
  const TimeoutSeconds: int := 20
  /** Consecutive empty transcriptions after which the dialogue ends. */
  const MaxInvalidInputs: nat := 3

  const SampleRate: nat := 16000
  const FrameDurationMs: nat := 30
  const PaddingDurationMs: nat := 300
  /** Samples per frame handed to the stream reader. */
  const BlockSize: nat := SampleRate * FrameDurationMs / 1000
  /** Bytes per frame: mono `int16`, two bytes per sample. */
  const FrameBytes: nat := 2 * BlockSize

  /** Capacity (`maxlen`) of the pre-trigger ring buffer. */
  const NumPaddingFrames: nat := PaddingDurationMs / FrameDurationMs
  /** A triggered recording ends once the silence run exceeds this. */
  const MaxSilentFrames: nat := 800 / FrameDurationMs
  /** A triggered recording ends once the post-trigger frame count exceeds this. */
  const MaxFrames: nat := 15000 / FrameDurationMs
  /** Recordings with fewer collected frames are discarded as noise. */
  const MinFramesToKeep: nat := 10

  /** The mock recogniser returns nothing for audio shorter than this many bytes. */
  const AsrMinBytes: nat := 32000
}
