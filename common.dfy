/** Types and constants shared by every part of the MC_DataTool raw-to-WAVE converter model. */
module Common {

  datatype Option<T> = None | Some(value: T)

  datatype Result<T, E> = Success(value: T) | Failure(error: E)

  /** One byte of a file. */
  type byte = x: int | 0 <= x < 256

  /** One signed 16-bit sample (the `short` AdcDataType of the recording and of the output). */
  type Sample = x: int | -0x8000 <= x < 0x8000

  /** MAX_CHANNELS of config.h. config.h is not part of this model: the value is a stand-in,
      and no proof depends on it beyond its being positive. */
  const MaxChannels: nat := 256

  /** SAMPLE_BUFFER_NUM_SAMPLES: the default capacity of every per-channel sample buffer. */
  const SampleBufferNumSamples: nat := 50000

  /** Concatenation regrouped. Stated once and called where a proof needs it, which keeps
      the solver from searching for the regrouping in larger proofs. */
  lemma AppendAssoc<T>(a: seq<T>, b: seq<T>, c: seq<T>)
    ensures (a + b) + c == a + (b + c)
  {
  }

  /** A non-empty sequence is its front followed by its last element. Called by the proofs
      that recurse on a sequence's front, for the same reason as AppendAssoc. */
  lemma FrontLast<T>(s: seq<T>)
    requires |s| >= 1
    ensures s == s[..|s| - 1] + [s[|s| - 1]]
  {
  }
}
