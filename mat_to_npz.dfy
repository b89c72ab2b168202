/** `mat_to_npz`: the selection a BETA-dataset recording goes through before
    it is saved. The EEG tensor (channels × samples × trials × stimulus
    frequencies, in microvolts) is cut to one trial and to the stimulus
    frequencies of interest, reordered to samples × channels × frequencies
    and scaled to volts. Reading the MATLAB file and writing the archive are
    not modelled: the parsed tensor and frequency list are parameters. */
module MatToNpz {
  import opened Masks

  /** A 4-D array with its shape, indexed [channel][sample][trial][frequency]. */
  datatype Tensor4 = Tensor4(channels: nat, samples: nat, trials: nat, freqs: nat,
                             data: seq<seq<seq<seq<real>>>>)
  {
    ghost predicate Valid()
    {
      && |data| == channels
      && (forall c :: 0 <= c < channels ==> |data[c]| == samples)
      && (forall c, s :: 0 <= c < channels && 0 <= s < samples ==> |data[c][s]| == trials)
      && (forall c, s, t :: 0 <= c < channels && 0 <= s < samples && 0 <= t < trials ==>
            |data[c][s][t]| == freqs)
    }
  }

  /** A 3-D array with its shape `d0` × `d1` × `d2`. */
  datatype Tensor3 = Tensor3(d0: nat, d1: nat, d2: nat, data: seq<seq<seq<real>>>)
  {
    ghost predicate Valid()
    {
      && |data| == d0
      && (forall i :: 0 <= i < d0 ==> |data[i]| == d1)
      && (forall i, j :: 0 <= i < d0 && 0 <= j < d1 ==> |data[i][j]| == d2)
    }
  }

  /** numpy's answer to an index outside an axis, or to a boolean mask whose
      length differs from the axis it indexes: IndexError. */
  datatype Selection = Selected(eeg: Tensor3) | IndexError

  /** The stimulus frequencies kept [Hz]. */
  const SsvepFreqs: seq<real> := [10.0, 12.0, 15.0]

  /** The trial kept: the second of the four BETA blocks. */
  const Trial: nat := 1

  /** Microvolts to volts. */
  const Scale: real := 0.000001

  /** `eeg[:, :, t, :]`: one trial, channels × samples × frequencies. */
  function TrialSlice(eeg: Tensor4, t: nat): (x: Tensor3)
    requires eeg.Valid() && t < eeg.trials
    ensures x.Valid() && x.d0 == eeg.channels && x.d1 == eeg.samples && x.d2 == eeg.freqs
    ensures forall c, s, f :: 0 <= c < x.d0 && 0 <= s < x.d1 && 0 <= f < x.d2 ==>
              x.data[c][s][f] == eeg.data[c][s][t][f]
  {
    Tensor3(eeg.channels, eeg.samples, eeg.freqs,
      seq(eeg.channels, c requires 0 <= c < eeg.channels =>
        seq(eeg.samples, s requires 0 <= s < eeg.samples => eeg.data[c][s][t])))
  }

  /** `x[:, :, mask]`: every (i, j) line of the last axis cut by the mask. */
  function MaskLastAxis(x: Tensor3, mask: seq<bool>): (y: Tensor3)
    requires x.Valid() && |mask| == x.d2
    ensures y.Valid() && y.d0 == x.d0 && y.d1 == x.d1 && y.d2 == |TrueIndices(mask)|
  {
    var cells := seq(x.d0, i requires 0 <= i < x.d0 =>
                   seq(x.d1, j requires 0 <= j < x.d1 => Compress(x.data[i][j], mask)));
    forall i, j | 0 <= i < x.d0 && 0 <= j < x.d1
      ensures |cells[i][j]| == |TrueIndices(mask)|
    {
      CompressAt(x.data[i][j], mask);
    }
    Tensor3(x.d0, x.d1, |TrueIndices(mask)|, cells)
  }

  /** The masked last axis holds, at position k, the entry at the k-th
      flagged position. */
  lemma MaskLastAxisAt(x: Tensor3, mask: seq<bool>)
    requires x.Valid() && |mask| == x.d2
    ensures forall k :: 0 <= k < |TrueIndices(mask)| ==> TrueIndices(mask)[k] < x.d2
    ensures forall i, j, k :: 0 <= i < x.d0 && 0 <= j < x.d1 && 0 <= k < |TrueIndices(mask)| ==>
              MaskLastAxis(x, mask).data[i][j][k] == x.data[i][j][TrueIndices(mask)[k]]
  {
    var y, idx := MaskLastAxis(x, mask), TrueIndices(mask);
    TrueIndicesSpec(mask);
    forall i, j, k | 0 <= i < x.d0 && 0 <= j < x.d1 && 0 <= k < |idx|
      ensures y.data[i][j][k] == x.data[i][j][idx[k]]
    {
      assert y.data[i][j] == Compress(x.data[i][j], mask);
      CompressAt(x.data[i][j], mask);
    }
  }

  /** `x.swapaxes(0, 1)`. */
  function SwapAxes01(x: Tensor3): (y: Tensor3)
    requires x.Valid()
    ensures y.Valid() && y.d0 == x.d1 && y.d1 == x.d0 && y.d2 == x.d2
    ensures forall i, j, k :: 0 <= i < y.d0 && 0 <= j < y.d1 && 0 <= k < y.d2 ==>
              y.data[i][j][k] == x.data[j][i][k]
  {
    Tensor3(x.d1, x.d0, x.d2,
      seq(x.d1, i requires 0 <= i < x.d1 =>
        seq(x.d0, j requires 0 <= j < x.d0 => x.data[j][i])))
  }

  /** `x * a`, element by element. */
  function Scaled(x: Tensor3, a: real): (y: Tensor3)
    requires x.Valid()
    ensures y.Valid() && y.d0 == x.d0 && y.d1 == x.d1 && y.d2 == x.d2
    ensures forall i, j, k :: 0 <= i < y.d0 && 0 <= j < y.d1 && 0 <= k < y.d2 ==>
              y.data[i][j][k] == a * x.data[i][j][k]
  {
    Tensor3(x.d0, x.d1, x.d2,
      seq(x.d0, i requires 0 <= i < x.d0 =>
        seq(x.d1, j requires 0 <= j < x.d1 =>
          seq(x.d2, k requires 0 <= k < x.d2 => a * x.data[i][j][k]))))
  }

  /** The positions in the file's frequency list of the frequencies kept. */
  function SelectedIndices(stimFreqs: seq<real>): seq<nat>
  {
    TrueIndices(IsIn(stimFreqs, SsvepFreqs))
  }

  /** file_converters.py:62-64: `eeg[:, :, 1, isin(freqs, [10, 12, 15])].swapaxes(0, 1) * 1e-6`.
      It fails exactly as numpy does, and otherwise entry [s][c][k] is the
      scaled sample s of channel c, trial 1, at the k-th kept frequency. */
  function SelectSsvep(eeg: Tensor4, stimFreqs: seq<real>): (r: Selection)
    requires eeg.Valid()
    ensures r.Selected? <==> Trial < eeg.trials && |stimFreqs| == eeg.freqs
    ensures r.Selected? ==>
              var idx := SelectedIndices(stimFreqs);
              && r.eeg.Valid()
              && r.eeg.d0 == eeg.samples && r.eeg.d1 == eeg.channels && r.eeg.d2 == |idx|
              && (forall k :: 0 <= k < |idx| ==> idx[k] < eeg.freqs)
              && forall s, c, k :: 0 <= s < eeg.samples && 0 <= c < eeg.channels && 0 <= k < |idx| ==>
                   r.eeg.data[s][c][k] == Scale * eeg.data[c][s][Trial][idx[k]]
  {
    if Trial < eeg.trials && |stimFreqs| == eeg.freqs then
      var mask := IsIn(stimFreqs, SsvepFreqs);
      var idx := TrueIndices(mask);
      var trial := TrialSlice(eeg, Trial);
      var masked := MaskLastAxis(trial, mask);
      var swapped := SwapAxes01(masked);
      var scaled := Scaled(swapped, Scale);
      MaskLastAxisAt(trial, mask);
      forall s, c, k | 0 <= s < eeg.samples && 0 <= c < eeg.channels && 0 <= k < |idx|
        ensures scaled.data[s][c][k] == Scale * eeg.data[c][s][Trial][idx[k]]
      {
        assert scaled.data[s][c][k] == Scale * swapped.data[s][c][k];
        assert swapped.data[s][c][k] == masked.data[c][s][k];
        assert masked.data[c][s][k] == trial.data[c][s][idx[k]];
      }
      Selected(scaled)
    else
      IndexError
  }

  /** The kept positions follow the file's own frequency order (strictly
      increasing), each names a frequency in {10, 12, 15}, and every such
      frequency of the file is kept: one output entry per matching source
      frequency. */
  lemma SelectedIndicesSpec(stimFreqs: seq<real>)
    ensures var idx := SelectedIndices(stimFreqs);
            && (forall a, b :: 0 <= a < b < |idx| ==> idx[a] < idx[b])
            && (forall k :: 0 <= k < |idx| ==> idx[k] < |stimFreqs| && stimFreqs[idx[k]] in SsvepFreqs)
            && (forall j :: 0 <= j < |stimFreqs| && stimFreqs[j] in SsvepFreqs ==> j in idx)
  {
    TrueIndicesSpec(IsIn(stimFreqs, SsvepFreqs));
  }

  /** The order is the file's, not that of the target list. */
  lemma SelectedIndicesFileOrder()
    ensures SelectedIndices([15.0, 8.6, 10.0, 12.0]) == [0, 2, 3]
  {
    var mask := IsIn([15.0, 8.6, 10.0, 12.0], SsvepFreqs);
    assert mask == [true, false, true, true];
    assert [true, false, true, true][..3] == [true, false, true];
    assert [true, false, true][..2] == [true, false];
    assert [true, false][..1] == [true];
    assert TrueIndices([true]) == [0] by { assert [true][..0] == []; }
    assert TrueIndices([true, false]) == [0];
    assert TrueIndices([true, false, true]) == [0, 2];
  }

  /** A file listing none of 10, 12 or 15 Hz is not an error: the result
      simply has an empty frequency axis. */
  lemma NoTargetFrequencyGivesEmptyAxis(eeg: Tensor4, stimFreqs: seq<real>)
    requires eeg.Valid() && Trial < eeg.trials && |stimFreqs| == eeg.freqs
    requires forall j :: 0 <= j < |stimFreqs| ==> stimFreqs[j] !in SsvepFreqs
    ensures SelectSsvep(eeg, stimFreqs).Selected?
    ensures SelectSsvep(eeg, stimFreqs).eeg.d2 == 0
  {
    TrueIndicesNone(IsIn(stimFreqs, SsvepFreqs));
  }

  /** Only trial 1 is read: two recordings that agree on that trial give the
      same result. */
  lemma OnlyTrialOneIsRead(eeg1: Tensor4, eeg2: Tensor4, stimFreqs: seq<real>)
    requires eeg1.Valid() && eeg2.Valid()
    requires eeg1.channels == eeg2.channels && eeg1.samples == eeg2.samples
    requires eeg1.trials == eeg2.trials && eeg1.freqs == eeg2.freqs
    requires forall c, s :: 0 <= c < eeg1.channels && 0 <= s < eeg1.samples && Trial < eeg1.trials ==>
               eeg1.data[c][s][Trial] == eeg2.data[c][s][Trial]
    ensures SelectSsvep(eeg1, stimFreqs) == SelectSsvep(eeg2, stimFreqs)
  {
    var r1, r2 := SelectSsvep(eeg1, stimFreqs), SelectSsvep(eeg2, stimFreqs);
    if r1.Selected? {
      var x1, x2 := r1.eeg, r2.eeg;
      forall s | 0 <= s < x1.d0
        ensures x1.data[s] == x2.data[s]
      {
        forall c | 0 <= c < x1.d1
          ensures x1.data[s][c] == x2.data[s][c]
        {
          assert eeg1.data[c][s][Trial] == eeg2.data[c][s][Trial];
          assert |x1.data[s][c]| == |x2.data[s][c]|;
        }
      }
    }
  }
}
