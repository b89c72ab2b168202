# file_converters in Dafny

This project models the two converters in `Functions/file_converters.py`.
They turn public EEG recordings into the archive layout the rest of the
repository reads.

- `mat_to_npz` handles the BETA SSVEP dataset. It takes the EEG tensor
  (channels × samples × trials × stimulus frequencies, in µV) and keeps
  trial 1. It keeps the stimulus frequencies that are 10, 12 or 15 Hz, in
  the file's own order, reorders the axes to samples × channels ×
  frequencies, and scales to volts (module `MatToNpz`).
- `edf_to_npz` handles the Temple University artifact corpus (module
  `EdfToNpz`). It:
  - completes the file names with `.edf` and `.csv`;
  - puts the channels in columns;
  - removes "EEG " and "-REF" from the channel names, in place;
  - computes the length after resampling to 250 Hz;
  - takes the file key from the EEG path;
  - keeps the annotation rows of that key labelled `eyem` or `musc`;
  - cuts one signal segment per row, keeping the samples whose time stamp
    lies in [start, stop].
  `EdfToNpz.Convert` puts these steps together in the source's order.

Three supporting modules state the library behaviour the converters rely on:

- `Masks`: numpy's `isin` and boolean-mask indexing.
- `Matrices`: 2-D arrays with their shape, and the transpose.
- `PyStrings`: Python's `s[-n:]`, `str.find`, `str.replace` and `str.split`.

Each array carries its shape explicitly, because numpy axes may have
length zero.

Channel-name stripping is not idempotent. `str.replace` does not rescan
the text it has just produced, so "EEEEG G " becomes "EEG ", and a second
pass turns that into "". Stripping also removes every occurrence of "EEG "
and "-REF", wherever it is in the name, not only a leading or trailing
one. `EdfToNpz.StripNameNotIdempotent` proves the counterexample, and
`EdfToNpz.StripNameIdempotentOnCleanResult` proves idempotence where it
holds: when the stripped name holds neither decoration.

## Model

| member | source | states |
|---|---|---|
| Masks.TrueIndicesSpec | Functions/file_converters.py:185 | the positions a boolean mask selects are strictly increasing, in range, flagged, and include every flagged position |
| Masks.TrueIndicesNone | Functions/file_converters.py:185 | a mask with no flag set selects nothing |
| Masks.TrueIndicesSingle | Functions/file_converters.py:185 | a mask with exactly one flag set selects exactly that position |
| Masks.TrueIndicesAll | Functions/file_converters.py:185 | a mask with every flag set selects every position, in order |
| Masks.CompressAt | Functions/file_converters.py:185 | boolean indexing keeps one element per selected position: element k of the result is the input at the k-th selected position |
| Matrices.TransposeInvolutive | Functions/file_converters.py:139 | transposing twice gives back the matrix |
| PyStrings.TailSliceIsSuffixTest | Functions/file_converters.py:127-130 | for a 4-character ext, `s[-4:] == ext` holds iff s ends with ext, whether or not s is shorter than 4 |
| PyStrings.FindSpec | Functions/file_converters.py:146-147 | `str.find` gives -1 iff the pattern does not occur, and otherwise its first occurrence |
| PyStrings.ReplaceFirst | Functions/file_converters.py:146-147 | `str.replace`: up to the first occurrence the text is copied, that occurrence is replaced, and the rest is processed after it, so replaced text is never rescanned |
| PyStrings.ReplaceAbsent | Functions/file_converters.py:146-147 | replacing a pattern that does not occur leaves the string unchanged |
| PyStrings.ReplaceByEmptyShrinks | Functions/file_converters.py:146-147 | deleting a pattern never lengthens the string |
| PyStrings.SplitPiecesLackSeparator | Functions/file_converters.py:166 | no piece of `str.split(sep)` contains sep |
| PyStrings.JoinSplit | Functions/file_converters.py:166 | joining the pieces of a split with the separator gives back the string |
| PyStrings.SplitJoin | Functions/file_converters.py:166 | splitting the join of separator-free pieces gives back the pieces |
| PyStrings.SplitConcat | Functions/file_converters.py:166 | splitting `a + sep + b` gives the pieces of a followed by the pieces of b |
| MatToNpz.MaskLastAxisAt | Functions/file_converters.py:62-63 | masking the frequency axis keeps, at position k of every (channel, sample) line, the entry at the k-th flagged frequency |
| MatToNpz.SelectSsvep | Functions/file_converters.py:61-64 | fails (IndexError) iff trial 1 does not exist or the frequency list's length differs from the frequency axis; otherwise the shape is samples × channels × kept frequencies and entry [s][c][k] is 1e-6 × sample s of channel c, trial 1, at the k-th kept frequency |
| MatToNpz.SelectedIndicesSpec | Functions/file_converters.py:50-62 | the kept frequency positions are increasing (file order), each holds 10, 12 or 15 Hz, and every such frequency of the file is kept |
| MatToNpz.SelectedIndicesFileOrder | Functions/file_converters.py:62 | for the file list [15, 8.6, 10, 12] the kept positions are [0, 2, 3]: the file's order, not the target list's |
| MatToNpz.NoTargetFrequencyGivesEmptyAxis | Functions/file_converters.py:62-63 | a file with none of the target frequencies gives a result with an empty frequency axis, not an error |
| MatToNpz.OnlyTrialOneIsRead | Functions/file_converters.py:61-63 | two recordings that agree on trial 1 give the same result |
| EdfToNpz.WithExtension | Functions/file_converters.py:127-130 | the result ends with the extension; it is the name itself if the name already ends with it, and otherwise the name followed by it |
| EdfToNpz.WithExtensionIdempotent | Functions/file_converters.py:127-130 | completing a completed name changes nothing |
| EdfToNpz.Oriented | Functions/file_converters.py:137-139 | the result has at least as many rows as columns; it is the input when rows ≥ columns, and otherwise the transpose |
| EdfToNpz.OrientedIdempotent | Functions/file_converters.py:137-139 | fixing the orientation twice is fixing it once |
| EdfToNpz.StripChannelNames | Functions/file_converters.py:144-148 | every entry of the channel list becomes the old entry with "EEG " and then "-REF" removed; the list keeps its length and order |
| EdfToNpz.StripNameKeepsCleanName | Functions/file_converters.py:146-147 | a name holding neither "EEG " nor "-REF" is unchanged |
| EdfToNpz.StripNameShrinks | Functions/file_converters.py:146-147 | stripping never lengthens a name |
| EdfToNpz.StripNameExample | Functions/file_converters.py:146-147 | "EEG Fp1-REF" becomes "Fp1" |
| EdfToNpz.StripNameNotIdempotent | Functions/file_converters.py:146-147 | "EEEEG G " becomes "EEG ", which a second stripping turns into "" |
| EdfToNpz.StripNameIdempotentOnCleanResult | Functions/file_converters.py:146-147 | stripping is idempotent on names whose stripped form holds neither decoration |
| EdfToNpz.ResampledLength | Functions/file_converters.py:155-156 | `int(l * 250 / srate)` is the n with n/250 ≤ l/srate < (n + 1)/250: the duration is kept to within one new sample period |
| EdfToNpz.ResampledLengthAtTargetRate | Functions/file_converters.py:156 | a recording already at 250 Hz keeps its length |
| EdfToNpz.ResampledLengthFrom400Hz | Functions/file_converters.py:156 | a 400 Hz recording of l samples becomes ⌊5l/8⌋ samples |
| EdfToNpz.FileKeyParts | Functions/file_converters.py:166 | the path is pre + key + post, where pre is empty or ends with a backslash, neither key nor post holds a backslash, the key holds no dot, and post is empty or starts with a dot |
| EdfToNpz.FileKeyOfFileInDirectory | Functions/file_converters.py:166 | the key of `dir\name.ext` is name when name holds no backslash and no dot |
| EdfToNpz.ArtifactRowsSpec | Functions/file_converters.py:167-171 | the chosen rows are exactly the table's rows with the file key and the label, in table order |
| EdfToNpz.ArtifactRowsMatch | Functions/file_converters.py:167-171 | every chosen row carries the key and the label asked for |
| EdfToNpz.EyeAndMuscleRowsDisjoint | Functions/file_converters.py:170-171 | no row is both an eye-artifact row and a muscle-artifact row |
| EdfToNpz.WindowSpec | Functions/file_converters.py:185 | a segment keeps every column and exactly the rows stamped within [start, stop], in row order |
| EdfToNpz.WindowEmptyWhenReversed | Functions/file_converters.py:185 | a row with start > stop gives an empty segment |
| EdfToNpz.WindowCoveringAll | Functions/file_converters.py:185 | a window covering every stamp gives back the whole signal |
| EdfToNpz.PointWindow | Functions/file_converters.py:185 | with increasing stamps, start == stop selects one row if that time is a stamp and none otherwise |
| EdfToNpz.CutSegments | Functions/file_converters.py:179-190 | a new array with one segment per annotation row, in row order: entry k is the window of row k |
| EdfToNpz.Convert | Functions/file_converters.py:126-190 | the completed file names, the cleaned channel list, the oriented and resampled signal of the computed length and width, and the eye and muscle segments of the rows chosen by the file key, with the new rate 250 Hz |

## Left out

- Reading the files (`loadmat`, `mne.io.read_raw_edf`, `pd.read_csv` with its 4-line preamble) and writing the archive (`os.getcwd`, `os.mkdir`, `np.savez`). The parsed contents are parameters, and nothing is written.
- Packing the results into the returned list (file_converters.py:82 and 209) is not modelled. `Convert` returns the signal, the two segment arrays and the new rate instead.
- `signal.resample` is the FFT resampler. It is a parameter of `Convert`. The model assumes only that it returns a matrix with the requested number of rows and the same columns. A requested length of 0 (when `l * 250 < srate`) is given a 0-row result here, where the real resampler raises instead.
- `np.linspace` builds the time vector. It is a parameter of `Convert`, a function that gives a vector of the requested length.
- Floating point is not modelled. Samples, times and rates are reals, and `1e-6` is the exact real 0.000001.
- EdfToNpz.ResampledLength requires a positive sampling rate. A zero rate is a ZeroDivisionError in the source. EDF rates are positive.
- PyStrings.Replace requires a non-empty pattern. The source only replaces the non-empty "EEG " and "-REF".
- EdfToNpz.CutSegments: the source first fills the arrays with `None`. The model fills them with an empty matrix, and every place is overwritten before it is returned.
- The channel coordinates of the BETA file and the annotation table's channel column are not read. Nothing in the core depends on them.
- MatToNpz.SelectSsvep: numpy raises IndexError both when trial 1 does not exist and when the mask length differs from the axis. The model does not distinguish the two causes.
