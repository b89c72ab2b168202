/** `edf_to_npz`: the steps a Temple University recording goes through
    between reading the EDF file and its annotation table and saving the
    archive: completing the file names, putting channels in columns,
    cleaning the channel names, the length after resampling to 250 Hz, the
    file key, the choice of annotation rows and the cutting of one signal
    segment per eye- or muscle-artifact row. Reading the files, the FFT
    resampling itself and writing the archive are not modelled: what they
    produce is passed in. */
module EdfToNpz {
  import opened Masks
  import opened Matrices
  import opened PyStrings

  const EdfExt: string := ".edf"
  const CsvExt: string := ".csv"

  /** The rate every recording is resampled to [Hz]. */
  const NewSrate: nat := 250

  const EyeLabel: string := "eyem"
  const MuscleLabel: string := "musc"

  // ---------------------------------------------------------------------
  // File names (file_converters.py:127-130)

  /** `name` if its last four characters are `ext`, otherwise `name + ext`. */
  function WithExtension(name: string, ext: string): (r: string)
    requires |ext| == 4
    ensures EndsWith(r, ext)
    ensures EndsWith(name, ext) ==> r == name
    ensures !EndsWith(name, ext) ==> r == name + ext
  {
    TailSliceIsSuffixTest(name, ext);
    if TailSlice(name, 4) == ext then name else name + ext
  }

  /** Completing a name twice is completing it once. */
  lemma WithExtensionIdempotent(name: string, ext: string)
    requires |ext| == 4
    ensures WithExtension(WithExtension(name, ext), ext) == WithExtension(name, ext)
  {
  }

  // ---------------------------------------------------------------------
  // Orientation (file_converters.py:137-139)

  /** Channels as columns: a matrix with more columns than rows is taken to
      be channels × samples and is transposed. */
  function Oriented(m: Matrix<real>): (r: Matrix<real>)
    requires m.Valid()
    ensures r.Valid() && r.rows >= r.cols
    ensures m.rows >= m.cols ==> r == m
    ensures m.cols > m.rows ==> r == Transpose(m)
  {
    if m.cols > m.rows then Transpose(m) else m
  }

  /** Fixing the orientation of a fixed matrix changes nothing. */
  lemma OrientedIdempotent(m: Matrix<real>)
    requires m.Valid()
    ensures Oriented(Oriented(m)) == Oriented(m)
  {
  }

  // ---------------------------------------------------------------------
  // Channel names (file_converters.py:142-148)

  /** `name.replace('EEG ', '').replace('-REF', '')`. */
  function StripName(name: string): string
  {
    Replace(Replace(name, "EEG ", ""), "-REF", "")
  }

  /** file_converters.py:144-148: each entry of the channel list is
      replaced, in place, by its stripped form; entry `c` depends on the
      old entry `c` alone. */
  method StripChannelNames(chans: array<string>)
    modifies chans
    ensures forall c :: 0 <= c < chans.Length ==> chans[c] == StripName(old(chans[c]))
  {
    for c := 0 to chans.Length
      invariant forall d :: 0 <= d < c ==> chans[d] == StripName(old(chans[d]))
      invariant forall d :: c <= d < chans.Length ==> chans[d] == old(chans[d])
    {
      var tChan := chans[c];
      tChan := Replace(tChan, "EEG ", "");
      tChan := Replace(tChan, "-REF", "");
      chans[c] := tChan;
    }
  }

  /** A name holding neither decoration is left as it is. */
  lemma StripNameKeepsCleanName(name: string)
    requires !Occurs(name, "EEG ") && !Occurs(name, "-REF")
    ensures StripName(name) == name
  {
    ReplaceAbsent(name, "EEG ", "");
    ReplaceAbsent(name, "-REF", "");
  }

  /** Stripping never lengthens a name. */
  lemma StripNameShrinks(name: string)
    ensures |StripName(name)| <= |name|
  {
    ReplaceByEmptyShrinks(name, "EEG ");
    ReplaceByEmptyShrinks(Replace(name, "EEG ", ""), "-REF");
  }

  /** The decorated TUH name of electrode Fp1 becomes plain "Fp1". */
  lemma StripNameExample()
    ensures StripName("EEG Fp1-REF") == "Fp1"
  {
    PrefixRemovedExample();
    SuffixRemovedExample();
  }

  lemma PrefixRemovedExample()
    ensures Replace("EEG Fp1-REF", "EEG ", "") == "Fp1-REF"
  {
    assert Replace("F", "EEG ", "") == "F";
    assert Replace("EF", "EEG ", "") == "EF";
    assert Replace("REF", "EEG ", "") == "REF";
    assert "-REF"[0] != "EEG "[0];
    assert Replace("-REF", "EEG ", "") == "-REF";
    assert Replace("1-REF", "EEG ", "") == "1-REF";
    assert Replace("p1-REF", "EEG ", "") == "p1-REF";
    assert Replace("Fp1-REF", "EEG ", "") == "Fp1-REF";
  }

  lemma SuffixRemovedExample()
    ensures Replace("Fp1-REF", "-REF", "") == "Fp1"
  {
    assert Replace("F", "-REF", "") == "F";
    assert Replace("EF", "-REF", "") == "EF";
    assert Replace("REF", "-REF", "") == "REF";
    assert Replace("-REF", "-REF", "") == "";
    assert Replace("1-REF", "-REF", "") == "1";
    assert Replace("p1-REF", "-REF", "") == "p1";
    assert Replace("Fp1-REF", "-REF", "") == "Fp1";
  }

  /** Because `replace` does not look again at the text it has produced,
      stripping is not idempotent: removing "EEG " from "EEEEG G " leaves
      "EEG ", which a second stripping removes. */
  lemma StripNameNotIdempotent()
    ensures StripName("EEEEG G ") == "EEG "
    ensures StripName(StripName("EEEEG G ")) == ""
  {
    OverlapExample("EEEEG G ");
    assert Replace("EEG ", "EEG ", "") == "";
    assert Replace("", "-REF", "") == "";
    assert Replace(" ", "-REF", "") == " ";
    assert Replace("G ", "-REF", "") == "G ";
    assert Replace("EG ", "-REF", "") == "EG ";
    assert Replace("EEG ", "-REF", "") == "EEG ";
  }

  lemma OverlapExample(s: string)
    requires s == "EEEEG G "
    ensures Replace(s, "EEG ", "") == "EEG "
  {
    var p := "EEG ";
    assert s[2..] == p + "G ";
    assert Replace(s[2..], p, "") == Replace("G ", p, "");
    assert Replace(s[3..], p, "") == Replace("EG G ", p, "");
  }

  /** Stripping a name whose stripped form holds neither decoration a second
      time changes nothing. */
  lemma StripNameIdempotentOnCleanResult(name: string)
    requires !Occurs(StripName(name), "EEG ") && !Occurs(StripName(name), "-REF")
    ensures StripName(StripName(name)) == StripName(name)
  {
    StripNameKeepsCleanName(StripName(name));
  }

  // ---------------------------------------------------------------------
  // Resampled length (file_converters.py:155-156)

  /** `int(l * 250 / srate)`: the number of samples after resampling a
      recording of `l` samples taken at `srate` Hz. The duration is kept to
      within one new sample period: n/250 <= l/srate < (n + 1)/250. */
  function ResampledLength(l: nat, srate: real): (n: nat)
    requires srate > 0.0
    ensures n as real / NewSrate as real <= l as real / srate
    ensures l as real / srate < (n + 1) as real / NewSrate as real
  {
    var x := (l * NewSrate) as real / srate;
    assert x >= 0.0;
    var n := x.Floor;
    assert x / NewSrate as real == l as real / srate;
    n
  }

  /** Resampling at the target rate keeps every sample. */
  lemma ResampledLengthAtTargetRate(l: nat)
    ensures ResampledLength(l, NewSrate as real) == l
  {
  }

  /** The Temple University recordings are taken at 400 Hz: 5/8 of the
      samples are kept, rounded down. */
  lemma ResampledLengthFrom400Hz(l: nat)
    ensures ResampledLength(l, 400.0) == l * 5 / 8
  {
  }

  // ---------------------------------------------------------------------
  // File key (file_converters.py:166)

  /** `path.split('\\')[-1].split('.')[0]`: the file name without its
      directory and without anything from its first dot on. */
  function FileKey(path: string): string
  {
    var components := Split(path, '\\');
    Split(components[|components| - 1], '.')[0]
  }

  /** The key is the last backslash-separated component of the path, cut
      before its first dot: the path is `pre + key + post`, where `pre` is
      empty or ends with a backslash, no backslash follows it, the key holds
      no dot, and `post` is empty or starts with one. */
  lemma FileKeyParts(path: string) returns (pre: string, post: string)
    ensures path == pre + FileKey(path) + post
    ensures pre == "" || pre[|pre| - 1] == '\\'
    ensures '\\' !in FileKey(path) && '\\' !in post
    ensures '.' !in FileKey(path)
    ensures post == "" || post[0] == '.'
  {
    var components := Split(path, '\\');
    var last := components[|components| - 1];
    pre := LastComponent(path);
    post := FirstPiece(last, '.');
    var key := Split(last, '.')[0];
    SplitPiecesLackSeparator(path, '\\');
    SplitPiecesLackSeparator(last, '.');
    assert '\\' !in last;
    assert forall c :: c in key + post ==> c in last;
  }

  /** A path is everything up to and including its last separator, then its
      last split piece. */
  lemma LastComponent(path: string) returns (pre: string)
    ensures var components := Split(path, '\\');
            path == pre + components[|components| - 1]
    ensures pre == "" || pre[|pre| - 1] == '\\'
  {
    var components := Split(path, '\\');
    var n := |components|;
    JoinSplit(path, '\\');
    if n == 1 {
      pre := "";
    } else {
      JoinLast(components, '\\');
      pre := Join(components[..n - 1], '\\') + ['\\'];
    }
  }

  /** A string is its first split piece followed by what comes from the
      first separator on. */
  lemma FirstPiece(s: string, sep: char) returns (post: string)
    ensures s == Split(s, sep)[0] + post
    ensures post == "" || post[0] == sep
  {
    var pieces := Split(s, sep);
    JoinSplit(s, sep);
    if |pieces| == 1 {
      post := "";
    } else {
      post := [sep] + Join(pieces[1..], sep);
    }
  }

  /** The key of a file `name + ext` in directory `dir`, whose name holds
      neither a backslash nor a dot and whose extension starts with a dot, is
      `name`. */
  lemma FileKeyOfFileInDirectory(dir: string, name: string, ext: string)
    requires '\\' !in name && '.' !in name
    requires '\\' !in ext && |ext| > 0 && ext[0] == '.'
    ensures FileKey(dir + ['\\'] + name + ext) == name
  {
    assert dir + ['\\'] + name + ext == dir + ['\\'] + (name + ext);
    SplitConcat(dir, name + ext, '\\');
    SplitWithoutSeparator(name + ext, '\\');
    assert name + ext == name + ['.'] + ext[1..];
    SplitConcat(name, ext[1..], '.');
    SplitWithoutSeparator(name, '.');
  }

  // ---------------------------------------------------------------------
  // Annotation rows (file_converters.py:165-171)

  /** One row of the TUH artifact table: the columns '# key',
      ' artifact_label', ' start_time' and ' stop_time' [s]. */
  datatype Annotation = Annotation(key: string, artifactLabel: string, startTime: real, stopTime: real)

  function KeyColumn(rows: seq<Annotation>): (col: seq<string>)
    ensures |col| == |rows| && forall i :: 0 <= i < |rows| ==> col[i] == rows[i].key
  {
    seq(|rows|, i requires 0 <= i < |rows| => rows[i].key)
  }

  function LabelColumn(rows: seq<Annotation>): (col: seq<string>)
    ensures |col| == |rows| && forall i :: 0 <= i < |rows| ==> col[i] == rows[i].artifactLabel
  {
    seq(|rows|, i requires 0 <= i < |rows| => rows[i].artifactLabel)
  }

  /** file_converters.py:167: `table[table['# key'].isin([key])]`. */
  function RowsWithKey(table: seq<Annotation>, key: string): seq<Annotation>
  {
    Compress(table, IsIn(KeyColumn(table), [key]))
  }

  /** file_converters.py:170-171: `rows[rows[' artifact_label'].isin([label])]`. */
  function RowsWithLabel(rows: seq<Annotation>, artifactLabel: string): seq<Annotation>
  {
    Compress(rows, IsIn(LabelColumn(rows), [artifactLabel]))
  }

  /** The rows of one recording and one artifact kind, chosen as the source
      chooses them: first by key, then by label. */
  function ArtifactRows(table: seq<Annotation>, key: string, artifactLabel: string): seq<Annotation>
  {
    RowsWithLabel(RowsWithKey(table, key), artifactLabel)
  }

  /** The chosen rows are exactly the rows of the table with that key and
      that label, in table order: `idx` lists their positions, increasing. */
  lemma ArtifactRowsSpec(table: seq<Annotation>, key: string, artifactLabel: string)
    returns (idx: seq<nat>)
    ensures |ArtifactRows(table, key, artifactLabel)| == |idx|
    ensures forall a, b :: 0 <= a < b < |idx| ==> idx[a] < idx[b]
    ensures forall k :: 0 <= k < |idx| ==>
              idx[k] < |table| && ArtifactRows(table, key, artifactLabel)[k] == table[idx[k]]
    ensures forall j :: 0 <= j < |table| ==>
              (j in idx <==> table[j].key == key && table[j].artifactLabel == artifactLabel)
  {
    var keyMask := IsIn(KeyColumn(table), [key]);
    var sub := RowsWithKey(table, key);
    var idx1 := TrueIndices(keyMask);
    TrueIndicesSpec(keyMask);
    CompressAt(table, keyMask);
    var labelFlags := IsIn(LabelColumn(sub), [artifactLabel]);
    var idx2 := TrueIndices(labelFlags);
    TrueIndicesSpec(labelFlags);
    CompressAt(sub, labelFlags);
    idx := seq(|idx2|, k requires 0 <= k < |idx2| => idx1[idx2[k]]);
    forall j | 0 <= j < |table| && table[j].key == key && table[j].artifactLabel == artifactLabel
      ensures j in idx
    {
      assert keyMask[j];
      var m :| 0 <= m < |idx1| && idx1[m] == j;
      assert sub[m] == table[j];
      assert labelFlags[m];
      var k :| 0 <= k < |idx2| && idx2[k] == m;
      assert idx[k] == j;
    }
  }

  /** Every chosen row carries the file key and the label asked for. */
  lemma ArtifactRowsMatch(table: seq<Annotation>, key: string, artifactLabel: string)
    ensures forall k :: 0 <= k < |ArtifactRows(table, key, artifactLabel)| ==>
              ArtifactRows(table, key, artifactLabel)[k].key == key
              && ArtifactRows(table, key, artifactLabel)[k].artifactLabel == artifactLabel
  {
    var idx := ArtifactRowsSpec(table, key, artifactLabel);
  }

  /** No row is both an eye-artifact row and a muscle-artifact row. */
  lemma EyeAndMuscleRowsDisjoint(table: seq<Annotation>, key: string)
    ensures var eye, mus := ArtifactRows(table, key, EyeLabel), ArtifactRows(table, key, MuscleLabel);
            forall a, b :: 0 <= a < |eye| && 0 <= b < |mus| ==> eye[a] != mus[b]
  {
    ArtifactRowsMatch(table, key, EyeLabel);
    ArtifactRowsMatch(table, key, MuscleLabel);
  }

  // ---------------------------------------------------------------------
  // Artifact segments (file_converters.py:174-190)

  /** `(time >= start) & (time <= stop)`: both ends included. */
  function InWindow(time: seq<real>, start: real, stop: real): (mask: seq<bool>)
    ensures |mask| == |time|
    ensures forall i :: 0 <= i < |time| ==> (mask[i] <==> start <= time[i] <= stop)
  {
    seq(|time|, i requires 0 <= i < |time| => start <= time[i] && time[i] <= stop)
  }

  /** `eeg[(time >= start) & (time <= stop), :]`. */
  function Window(eeg: Matrix<real>, time: seq<real>, start: real, stop: real): Matrix<real>
    requires eeg.Valid() && |time| == eeg.rows
  {
    var mask := InWindow(time, start, stop);
    Matrix(|TrueIndices(mask)|, eeg.cols, Compress(eeg.cells, mask))
  }

  /** A segment holds exactly the rows whose time stamp lies in
      [start, stop], in increasing row order: `idx` lists them. */
  lemma WindowSpec(eeg: Matrix<real>, time: seq<real>, start: real, stop: real)
    returns (idx: seq<nat>)
    requires eeg.Valid() && |time| == eeg.rows
    ensures var w := Window(eeg, time, start, stop);
            && w.Valid() && w.cols == eeg.cols && w.rows == |idx|
            && (forall a, b :: 0 <= a < b < |idx| ==> idx[a] < idx[b])
            && (forall k :: 0 <= k < |idx| ==> idx[k] < eeg.rows && w.cells[k] == eeg.cells[idx[k]])
            && (forall i :: 0 <= i < eeg.rows ==> (i in idx <==> start <= time[i] <= stop))
  {
    var mask := InWindow(time, start, stop);
    idx := TrueIndices(mask);
    TrueIndicesSpec(mask);
    CompressAt(eeg.cells, mask);
  }

  /** An annotation whose start lies after its stop selects nothing. */
  lemma WindowEmptyWhenReversed(eeg: Matrix<real>, time: seq<real>, start: real, stop: real)
    requires eeg.Valid() && |time| == eeg.rows && start > stop
    ensures Window(eeg, time, start, stop).rows == 0
  {
    TrueIndicesNone(InWindow(time, start, stop));
  }

  /** A window covering every time stamp gives back the whole signal. */
  lemma WindowCoveringAll(eeg: Matrix<real>, time: seq<real>, start: real, stop: real)
    requires eeg.Valid() && |time| == eeg.rows
    requires forall i :: 0 <= i < |time| ==> start <= time[i] <= stop
    ensures Window(eeg, time, start, stop) == eeg
  {
    var mask := InWindow(time, start, stop);
    TrueIndicesAll(mask);
    CompressAt(eeg.cells, mask);
  }

  /** With strictly increasing time stamps, an annotation with start ==
      stop selects the single row stamped with that time, if there is one,
      and nothing otherwise. */
  lemma PointWindow(eeg: Matrix<real>, time: seq<real>, t: real)
    requires eeg.Valid() && |time| == eeg.rows
    requires forall a, b :: 0 <= a < b < |time| ==> time[a] < time[b]
    ensures Window(eeg, time, t, t).rows == if t in time then 1 else 0
  {
    var mask := InWindow(time, t, t);
    if t in time {
      var j :| 0 <= j < |time| && time[j] == t;
      forall i | 0 <= i < |time| && i != j
        ensures !mask[i]
      {
        if i < j {
          assert time[i] < time[j];
        } else {
          assert time[j] < time[i];
        }
      }
      TrueIndicesSingle(mask, j);
    } else {
      TrueIndicesNone(mask);
    }
  }

  /** file_converters.py:179-190, one of the two loops: a new array with
      one place per annotation row (the source fills it with `None` first;
      an empty matrix stands for that here), then place k gets the segment
      of row k. */
  method CutSegments(eeg: Matrix<real>, time: seq<real>, rows: seq<Annotation>)
    returns (segs: array<Matrix<real>>)
    requires eeg.Valid() && |time| == eeg.rows
    ensures fresh(segs)
    ensures segs.Length == |rows|
    ensures forall k :: 0 <= k < |rows| ==>
              segs[k] == Window(eeg, time, rows[k].startTime, rows[k].stopTime)
  {
    segs := new Matrix<real>[|rows|](_ => Matrix(0, 0, []));
    for k := 0 to |rows|
      invariant forall j :: 0 <= j < k ==>
                  segs[j] == Window(eeg, time, rows[j].startTime, rows[j].stopTime)
    {
      segs[k] := Window(eeg, time, rows[k].startTime, rows[k].stopTime);
    }
  }

  // ---------------------------------------------------------------------
  // The whole conversion (file_converters.py:126-190)

  /** `edf_to_npz` from the file names to the two lists of segments.
      `recording` and `srate` are what the EDF reader gives for the
      completed EEG file name, `chans` its channel list (cleaned in place),
      `table` the annotation rows read from the completed label file name;
      `resample` stands for the FFT resampler and `timeAxis` for the time
      vector built for a resampled length. */
  method Convert(eegFile: string, labelsFile: string,
                 recording: Matrix<real>, srate: real, chans: array<string>,
                 resample: (Matrix<real>, nat) -> Matrix<real>,
                 timeAxis: nat -> seq<real>, table: seq<Annotation>)
    returns (eegPath: string, labelsPath: string, eeg: Matrix<real>,
             eyeEeg: array<Matrix<real>>, musEeg: array<Matrix<real>>, newSrate: nat)
    requires recording.Valid() && srate > 0.0
    requires forall m: Matrix<real>, n: nat :: m.Valid() ==>
               resample(m, n).Valid() && resample(m, n).rows == n && resample(m, n).cols == m.cols
    requires forall n: nat :: |timeAxis(n)| == n
    modifies chans
    ensures eegPath == WithExtension(eegFile, EdfExt)
    ensures labelsPath == WithExtension(labelsFile, CsvExt)
    ensures forall c :: 0 <= c < chans.Length ==> chans[c] == StripName(old(chans[c]))
    ensures eeg.Valid()
    ensures eeg.rows == ResampledLength(Oriented(recording).rows, srate)
    ensures eeg.cols == Oriented(recording).cols
    ensures eeg == resample(Oriented(recording), eeg.rows)
    ensures fresh(eyeEeg) && fresh(musEeg)
    ensures var time, eye := timeAxis(eeg.rows), ArtifactRows(table, FileKey(eegPath), EyeLabel);
            eyeEeg.Length == |eye| &&
            forall k :: 0 <= k < |eye| ==>
              eyeEeg[k] == Window(eeg, time, eye[k].startTime, eye[k].stopTime)
    ensures var time, mus := timeAxis(eeg.rows), ArtifactRows(table, FileKey(eegPath), MuscleLabel);
            musEeg.Length == |mus| &&
            forall k :: 0 <= k < |mus| ==>
              musEeg[k] == Window(eeg, time, mus[k].startTime, mus[k].stopTime)
    ensures newSrate == NewSrate
  {
    eegPath := eegFile;
    if TailSlice(eegPath, 4) != EdfExt {
      eegPath := eegPath + EdfExt;
    }
    labelsPath := labelsFile;
    if TailSlice(labelsPath, 4) != CsvExt {
      labelsPath := labelsPath + CsvExt;
    }

    eeg := recording;
    if eeg.cols > eeg.rows {
      eeg := Transpose(eeg);
    }

    StripChannelNames(chans);

    newSrate := NewSrate;
    var length := ResampledLength(eeg.rows, srate);
    eeg := resample(eeg, length);
    var time := timeAxis(eeg.rows);

    var fileKey := FileKey(eegPath);
    var eyeRows := ArtifactRows(table, fileKey, EyeLabel);
    var musRows := ArtifactRows(table, fileKey, MuscleLabel);

    eyeEeg := CutSegments(eeg, time, eyeRows);
    musEeg := CutSegments(eeg, time, musRows);
  }
}
