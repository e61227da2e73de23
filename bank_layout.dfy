/** The shapes WaveEdit's bank is built from: fixed-length waves, a bank of
    64 of them laid out as an 8 by 8 grid, and the fixed, ordered chain of 11
    effects whose parameters every wave carries. Float arrays are sequences
    of reals; only their lengths and the order of the effects are modelled. */
module BankLayout {

  const BANK_LEN: nat := 64
  const BANK_GRID_WIDTH: nat := 8
  const BANK_GRID_HEIGHT: nat := 8
  const WAVE_LEN: nat := 256

  /** The effect stages, in declaration order, which is also the index of
      each stage's parameter in a wave's `effects` array. */
  datatype EffectID =
    | PreGain
    | HarmonicShift
    | Comb
    | Ring
    | Chebyshev
    | SampleAndHold
    | Quantization
    | Slew
    | Lowpass
    | Highpass
    | PostGain

  /** The enumerator that follows the last stage, i.e. the number of stages. */
  const EFFECTS_LEN: nat := 11

  /** The integer value of an enumerator. */
  function Ordinal(e: EffectID): (i: nat)
    ensures i < EFFECTS_LEN
  {
    match e
    case PreGain => 0
    case HarmonicShift => 1
    case Comb => 2
    case Ring => 3
    case Chebyshev => 4
    case SampleAndHold => 5
    case Quantization => 6
    case Slew => 7
    case Lowpass => 8
    case Highpass => 9
    case PostGain => 10
  }

  /** The stages listed in the order they are declared, which is the order
      the chain applies them in: exactly EFFECTS_LEN entries, the pre-gain
      first and the post-gain last, and the i-th listed stage has value i. */
  function EffectOrder(): (order: seq<EffectID>)
    ensures |order| == EFFECTS_LEN
    ensures order[0] == PreGain && order[EFFECTS_LEN - 1] == PostGain
    ensures forall i :: 0 <= i < |order| ==> Ordinal(order[i]) == i
  {
    [PreGain, HarmonicShift, Comb, Ring, Chebyshev, SampleAndHold,
     Quantization, Slew, Lowpass, Highpass, PostGain]
  }

  /** Conversely, every stage is listed, at the position of its value: the
      declaration order and the enumerator values describe one numbering. */
  lemma EffectOrderIsOrdinal()
    ensures forall e :: EffectOrder()[Ordinal(e)] == e
  {
  }

  /** Distinct stages own distinct slots of the `effects` array. */
  lemma OrdinalInjective(e1: EffectID, e2: EffectID)
    ensures Ordinal(e1) == Ordinal(e2) ==> e1 == e2
  {
  }

  /** The bank's 64 slots fill its 8 by 8 grid exactly. */
  lemma BankFillsGrid()
    ensures BANK_LEN == BANK_GRID_WIDTH * BANK_GRID_HEIGHT
  {
  }

  /** The per-stage record: an intensity and the two chain-wide flags. */
  datatype Effect = Effect(params: real, cycle: bool, normalize: bool)

  /** One wavetable slot: the base samples with their spectrum (interleaved
      complex bins) and harmonic magnitudes, the same triple after effects,
      and the effect parameters with the two flags. */
  datatype Wave = Wave(
    samples: seq<real>,
    spectrum: seq<real>,
    harmonics: seq<real>,
    postSamples: seq<real>,
    postSpectrum: seq<real>,
    postHarmonics: seq<real>,
    effects: seq<real>,
    cycle: bool,
    normalize: bool)
  {
    /** Every array has the length its declaration fixes, so the harmonics
        are half as many as the interleaved spectrum entries and there is one
        parameter per effect stage. */
    predicate Valid()
      ensures Valid() ==> |spectrum| == 2 * |harmonics| && |postSpectrum| == 2 * |postHarmonics|
      ensures Valid() ==> |effects| == |EffectOrder()|
    {
      && |samples| == WAVE_LEN
      && |spectrum| == WAVE_LEN
      && |harmonics| == WAVE_LEN / 2
      && |postSamples| == WAVE_LEN
      && |postSpectrum| == WAVE_LEN
      && |postHarmonics| == WAVE_LEN / 2
      && |effects| == EFFECTS_LEN
    }
  }

  datatype Bank = Bank(waves: seq<Wave>) {
    /** BANK_LEN waves, one per cell of the grid, each of the declared shape. */
    predicate Valid()
      ensures Valid() ==> |waves| == BANK_GRID_WIDTH * BANK_GRID_HEIGHT
    {
      |waves| == BANK_LEN && forall i :: 0 <= i < |waves| ==> waves[i].Valid()
    }
  }

  /** A wave whose every float is 0 and whose flags are false. */
  function ZeroWave(): (w: Wave)
    ensures w.Valid()
    ensures forall i :: 0 <= i < WAVE_LEN ==> w.samples[i] == 0.0 && w.postSamples[i] == 0.0
    ensures forall i :: 0 <= i < EFFECTS_LEN ==> w.effects[i] == 0.0
    ensures !w.cycle && !w.normalize
  {
    var zeros := seq(WAVE_LEN, _ => 0.0);
    var half := seq(WAVE_LEN / 2, _ => 0.0);
    Wave(zeros, zeros, half, zeros, zeros, half, seq(EFFECTS_LEN, _ => 0.0), false, false)
  }

  /** A bank of 64 such waves. */
  function ZeroBank(): (b: Bank)
    ensures b.Valid()
    ensures forall i :: 0 <= i < |b.waves| ==> b.waves[i] == ZeroWave()
  {
    Bank(seq(BANK_LEN, _ => ZeroWave()))
  }

  /** Splits interleaved real/imaginary pairs into complex bins. */
  function Deinterleave(s: seq<real>): (bins: seq<(real, real)>)
    requires |s| % 2 == 0
    ensures |bins| == |s| / 2
    ensures forall k :: 0 <= k < |bins| ==> bins[k] == (s[2 * k], s[2 * k + 1])
  {
    if s == [] then [] else [(s[0], s[1])] + Deinterleave(s[2..])
  }

  /** Packs complex bins back into interleaved real/imaginary pairs. */
  function Interleave(bins: seq<(real, real)>): (s: seq<real>)
    ensures |s| == 2 * |bins|
    ensures forall k :: 0 <= k < |bins| ==> s[2 * k] == bins[k].0 && s[2 * k + 1] == bins[k].1
  {
    if bins == [] then [] else [bins[0].0, bins[0].1] + Interleave(bins[1..])
  }

  /** De-interleaving an interleaved list of bins gives back the bins. */
  lemma DeinterleaveInterleave(bins: seq<(real, real)>)
    ensures Deinterleave(Interleave(bins)) == bins
  {
  }

  /** Interleaving the bins of an even-length sequence gives it back. */
  lemma InterleaveDeinterleave(s: seq<real>)
    requires |s| % 2 == 0
    ensures Interleave(Deinterleave(s)) == s
  {
    var bs := Deinterleave(s);
    var t := Interleave(bs);
    forall j | 0 <= j < |s| ensures t[j] == s[j] {
      var k := j / 2;
      assert k < |bs| && bs[k] == (s[2 * k], s[2 * k + 1]);
      if j % 2 == 0 {
        assert j == 2 * k;
      } else {
        assert j == 2 * k + 1;
      }
    }
  }

  /** A valid wave's spectrum holds exactly one complex bin per harmonic,
      before and after effects. */
  lemma OneBinPerHarmonic(w: Wave)
    requires w.Valid()
    ensures |Deinterleave(w.spectrum)| == |w.harmonics|
    ensures |Deinterleave(w.postSpectrum)| == |w.postHarmonics|
  {
  }
}
