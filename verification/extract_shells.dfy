/**
 * Extracting diffusion-weighted volumes by b-value shell. One mask column
 * per requested shell marks the volumes whose b-value lies within the
 * threshold of that shell; the run is refused when a shell has no volume
 * or a volume falls under two shells; otherwise one combined mask filters
 * the b-values, the gradient directions and the volumes alike, and the
 * output names are derived from the shell list.
 *
 * Volumes and gradient directions are opaque values (type parameters V
 * and R); b-values, shells and the threshold are integers.
 */
module ShellExtraction {
  import opened Wrappers
  import opened Masks
  import opened Strings
  import Paths

  /** `masks[i][s]`: row `i` is a volume, column `s` a requested shell. */
  type MaskMatrix = seq<seq<bool>>

  predicate IsMatrix(m: MaskMatrix, cols: nat)
  {
    forall i :: 0 <= i < |m| ==> |m[i]| == cols
  }

  /** The b-value lies in the inclusive window `[shell - threshold, shell + threshold]`. */
  predicate InWindow(b: int, shell: int, threshold: int)
  {
    shell - threshold <= b <= shell + threshold
  }

  /** With the default threshold 0 a b-value is matched to a shell only when it equals the shell exactly. */
  lemma ZeroThresholdIsEquality(bvals: seq<int>, shells: seq<int>)
    ensures forall i, s :: 0 <= i < |bvals| && 0 <= s < |shells| ==> (Windows(bvals, shells, 0)[i][s] <==> bvals[i] == shells[s])
  {
  }

  /** The mask matrix the script builds, as a value. */
  function Windows(bvals: seq<int>, shells: seq<int>, threshold: int): (m: MaskMatrix)
    ensures |m| == |bvals| && IsMatrix(m, |shells|)
    ensures forall i, s :: 0 <= i < |bvals| && 0 <= s < |shells| ==> m[i][s] == InWindow(bvals[i], shells[s], threshold)
  {
    seq(|bvals|, i requires 0 <= i < |bvals| =>
      seq(|shells|, s requires 0 <= s < |shells| => InWindow(bvals[i], shells[s], threshold)))
  }

  /**
   * The mask loop: a volumes-by-shells matrix, filled one shell column at
   * a time with the vectorised window test over all b-values.
   */
  method BuildMasks(bvals: seq<int>, shells: seq<int>, threshold: int) returns (masks: array2<bool>)
    ensures masks.Length0 == |bvals| && masks.Length1 == |shells|
    ensures forall i, s :: 0 <= i < |bvals| && 0 <= s < |shells| ==> masks[i, s] == InWindow(bvals[i], shells[s], threshold)
  {
    masks := new bool[|bvals|, |shells|];
    for ishell := 0 to |shells|
      invariant forall i, s :: 0 <= i < |bvals| && 0 <= s < ishell ==> masks[i, s] == InWindow(bvals[i], shells[s], threshold)
    {
      forall i | 0 <= i < |bvals| {
        masks[i, ishell] := InWindow(bvals[i], shells[ishell], threshold);
      }
    }
  }

  /** The contents of a mask array as a value. */
  function Snapshot(masks: array2<bool>): (m: MaskMatrix)
    reads masks
    ensures |m| == masks.Length0 && IsMatrix(m, masks.Length1)
    ensures forall i, s :: 0 <= i < masks.Length0 && 0 <= s < masks.Length1 ==> m[i][s] == masks[i, s]
  {
    seq(masks.Length0, i requires 0 <= i < masks.Length0 reads masks =>
      seq(masks.Length1, s requires 0 <= s < masks.Length1 reads masks => masks[i, s]))
  }

  function Column(m: MaskMatrix, k: nat, s: nat): (c: seq<bool>)
    requires IsMatrix(m, k) && s < k
    ensures |c| == |m|
  {
    seq(|m|, i requires 0 <= i < |m| => m[i][s])
  }

  /** `np.sum(masks, axis=0)`: how many volumes each shell matched. */
  function ShellCounts(m: MaskMatrix, k: nat): (counts: seq<nat>)
    requires IsMatrix(m, k)
    ensures |counts| == k
  {
    seq(k, s requires 0 <= s < k => Count(Column(m, k, s)))
  }

  /** `np.sum(masks, axis=1)`: how many shells matched each volume. */
  function VolumeCounts(m: MaskMatrix): (counts: seq<nat>)
    ensures |counts| == |m|
  {
    seq(|m|, i requires 0 <= i < |m| => Count(m[i]))
  }

  /** `final_mask > 1`: the volumes counted under more than one shell. */
  function Exceeding(counts: seq<nat>): (twice: seq<bool>)
    ensures |twice| == |counts|
    ensures forall i :: 0 <= i < |counts| ==> (twice[i] <==> counts[i] > 1)
  {
    seq(|counts|, i requires 0 <= i < |counts| => counts[i] > 1)
  }

  /** `final_mask.astype(bool)`: a volume is kept when some shell counted it. */
  function NonZero(counts: seq<nat>): (keep: seq<bool>)
    ensures |keep| == |counts|
    ensures forall i :: 0 <= i < |counts| ==> (keep[i] <==> counts[i] != 0)
  {
    seq(|counts|, i requires 0 <= i < |counts| => counts[i] != 0)
  }

  datatype ShellError =
    | NoDataForShell                  // some requested shell matched no volume
    | ExtractedTwice(indices: seq<nat>) // these volumes matched two or more shells
    | VolumeCountMismatch             // the image's last axis and the b-values differ in length

  /**
   * The checks and the combined mask: refuse a shell without volumes,
   * then refuse volumes counted under more than one shell (reporting
   * their indices), and otherwise turn the per-volume counts into a
   * boolean mask.
   */
  function CombinedMask(m: MaskMatrix, k: nat): (r: Result<seq<bool>, ShellError>)
    requires IsMatrix(m, k)
    ensures r.Success? ==> |r.value| == |m|
  {
    var nVols := ShellCounts(m, k);
    if exists s :: 0 <= s < k && nVols[s] == 0 then Failure(NoDataForShell)
    else
      var finalMask := VolumeCounts(m);
      var twice := Exceeding(finalMask);
      if Count(twice) != 0 then Failure(ExtractedTwice(Where(twice)))
      else Success(NonZero(finalMask))
  }

  /** The b-values, gradient directions and volumes that are kept. */
  datatype Selection<R, V> = Selection(bvals: seq<int>, bvecs: seq<R>, volumes: seq<V>)

  /** One boolean mask applied to the b-values, the gradient rows and the image's last axis. */
  function SelectVolumes<R, V>(m: MaskMatrix, k: nat, bvals: seq<int>, bvecs: seq<R>, volumes: seq<V>)
    : (r: Result<Selection<R, V>, ShellError>)
    requires |m| == |bvals| == |bvecs| && IsMatrix(m, k)
  {
    match CombinedMask(m, k)
    case Failure(e) => Failure(e)
    case Success(keep) =>
      if |volumes| != |keep| then Failure(VolumeCountMismatch)
      else Success(Selection(Select(bvals, keep), Select(bvecs, keep), Select(volumes, keep)))
  }

  const DwiExtension := ".nii.gz"
  const BvalExtension := ".bval"
  const BvecExtension := ".bvec"

  /** The text naming one shell: `'b' + str(shell)`. */
  function ShellLabel(shell: int): string
  {
    "b" + IntToString(shell)
  }

  /** The shell labels joined by '_' in the order given: `b0_b1000`. */
  function ShellSuffix(shells: seq<int>): string
  {
    Join(seq(|shells|, i requires 0 <= i < |shells| => ShellLabel(shells[i])), "_")
  }

  /** Reads a shell list back from a suffix. */
  function ParseSuffix(suffix: string): seq<int>
  {
    var pieces := Split(suffix, '_');
    seq(|pieces|, i requires 0 <= i < |pieces| => if pieces[i] == [] then 0 else ParseInt(pieces[i][1..]))
  }

  /** The input's base name up to the first occurrence of its extension, then '_', the suffix and the extension. */
  function OutputName(path: string, extension: string, suffix: string): string
  {
    BeforeFirst(Paths.Basename(path), extension) + "_" + suffix + extension
  }

  /** The output directory if one was given (a non-empty text), else the input image's directory. */
  function OutputDirectory(dwiPath: string, outDir: Option<string>): string
  {
    if outDir.Some? && outDir.value != "" then outDir.value else Paths.Dirname(dwiPath)
  }

  /** Where the three outputs are written, and whether the output directory must first be created. */
  datatype OutputPlan = OutputPlan(directory: string, createDirectory: bool, dwiFile: string, bvalFile: string, bvecFile: string)

  function PlanOutputs(dwiPath: string, bvalPath: string, bvecPath: string, shells: seq<int>,
                       outDir: Option<string>, outDirExists: bool): OutputPlan
  {
    var dir := OutputDirectory(dwiPath, outDir);
    var suffix := ShellSuffix(shells);
    OutputPlan(dir, outDir.Some? && outDir.value != "" && !outDirExists,
               Paths.Join(dir, OutputName(dwiPath, DwiExtension, suffix)),
               Paths.Join(dir, OutputName(bvalPath, BvalExtension, suffix)),
               Paths.Join(dir, OutputName(bvecPath, BvecExtension, suffix)))
  }

  datatype Extraction<R, V> = Extraction(selection: Selection<R, V>, outputs: OutputPlan)

  /** The whole run as a value: nothing is planned for output unless every check passes. */
  function Extract<R, V>(dwiPath: string, bvalPath: string, bvecPath: string,
                         bvals: seq<int>, bvecs: seq<R>, volumes: seq<V>,
                         shells: seq<int>, threshold: int,
                         outDir: Option<string>, outDirExists: bool): Result<Extraction<R, V>, ShellError>
    requires |bvecs| == |bvals|
  {
    match SelectVolumes(Windows(bvals, shells, threshold), |shells|, bvals, bvecs, volumes)
    case Failure(e) => Failure(e)
    case Success(sel) => Success(Extraction(sel, PlanOutputs(dwiPath, bvalPath, bvecPath, shells, outDir, outDirExists)))
  }

  /** The script: build the mask array, check it, filter, and plan the outputs. */
  method ExtractShells<R, V>(dwiPath: string, bvalPath: string, bvecPath: string,
                             bvals: seq<int>, bvecs: seq<R>, volumes: seq<V>,
                             shells: seq<int>, threshold: int,
                             outDir: Option<string>, outDirExists: bool)
    returns (r: Result<Extraction<R, V>, ShellError>)
    requires |bvecs| == |bvals|
    ensures r == Extract(dwiPath, bvalPath, bvecPath, bvals, bvecs, volumes, shells, threshold, outDir, outDirExists)
  {
    var masks := BuildMasks(bvals, shells, threshold);
    var m := Snapshot(masks);
    assert forall i :: 0 <= i < |bvals| ==> m[i] == Windows(bvals, shells, threshold)[i];
    assert m == Windows(bvals, shells, threshold);
    var selected := SelectVolumes(m, |shells|, bvals, bvecs, volumes);
    if selected.Failure? {
      return Failure(selected.error);
    }
    var dir := OutputDirectory(dwiPath, outDir);
    var createDirectory := outDir.Some? && outDir.value != "" && !outDirExists;
    var suffix := ShellSuffix(shells);
    var dwiFile := Paths.Join(dir, OutputName(dwiPath, DwiExtension, suffix));
    var bvalFile := Paths.Join(dir, OutputName(bvalPath, BvalExtension, suffix));
    var bvecFile := Paths.Join(dir, OutputName(bvecPath, BvecExtension, suffix));
    r := Success(Extraction(selected.value, OutputPlan(dir, createDirectory, dwiFile, bvalFile, bvecFile)));
  }

  // ---------------------------------------------------------------------
  // What the checks mean, in terms of the b-values

  /** Some volume lies in the window of shell `s`. */
  predicate Covered(bvals: seq<int>, shells: seq<int>, threshold: int, s: int)
    requires 0 <= s < |shells|
  {
    exists i :: 0 <= i < |bvals| && InWindow(bvals[i], shells[s], threshold)
  }

  /** Volume `i` lies in the windows of two different shells. */
  predicate Overlapping(bvals: seq<int>, shells: seq<int>, threshold: int, i: int)
    requires 0 <= i < |bvals|
  {
    exists a, b :: 0 <= a < b < |shells| && InWindow(bvals[i], shells[a], threshold) && InWindow(bvals[i], shells[b], threshold)
  }

  /** The b-value lies in the window of at least one requested shell. */
  predicate InSomeWindow(b: int, shells: seq<int>, threshold: int)
  {
    exists s :: 0 <= s < |shells| && InWindow(b, shells[s], threshold)
  }

  lemma ShellCountZero(bvals: seq<int>, shells: seq<int>, threshold: int, s: nat)
    requires s < |shells|
    ensures ShellCounts(Windows(bvals, shells, threshold), |shells|)[s] == 0 <==> !Covered(bvals, shells, threshold, s)
  {
    var m := Windows(bvals, shells, threshold);
    var c := Column(m, |shells|, s);
    CountZero(c);
    assert forall i :: 0 <= i < |bvals| ==> c[i] == InWindow(bvals[i], shells[s], threshold);
  }

  lemma VolumeCountFacts(bvals: seq<int>, shells: seq<int>, threshold: int, i: nat)
    requires i < |bvals|
    ensures VolumeCounts(Windows(bvals, shells, threshold))[i] > 1 <==> Overlapping(bvals, shells, threshold, i)
    ensures VolumeCounts(Windows(bvals, shells, threshold))[i] != 0 <==> InSomeWindow(bvals[i], shells, threshold)
  {
    var row := Windows(bvals, shells, threshold)[i];
    CountAboveOne(row);
    CountZero(row);
  }

  /**
   * The run stops with "data not found" exactly when some requested shell
   * has no volume within the threshold.
   */
  lemma NoDataIff(bvals: seq<int>, shells: seq<int>, threshold: int)
    ensures CombinedMask(Windows(bvals, shells, threshold), |shells|) == Failure(NoDataForShell)
        <==> exists s :: 0 <= s < |shells| && !Covered(bvals, shells, threshold, s)
  {
    forall s | 0 <= s < |shells| {
      ShellCountZero(bvals, shells, threshold, s);
    }
  }

  /**
   * The run stops with "extracted twice" exactly when every shell has
   * data and some volume lies in two shells' windows; the reported
   * indices are those volumes, each once, in increasing order.
   */
  lemma ExtractedTwiceIff(bvals: seq<int>, shells: seq<int>, threshold: int)
    ensures var r := CombinedMask(Windows(bvals, shells, threshold), |shells|);
      (r.Failure? && r.error.ExtractedTwice?)
        <==> ((forall s :: 0 <= s < |shells| ==> Covered(bvals, shells, threshold, s))
              && exists i :: 0 <= i < |bvals| && Overlapping(bvals, shells, threshold, i))
    ensures var r := CombinedMask(Windows(bvals, shells, threshold), |shells|);
      r.Failure? && r.error.ExtractedTwice? ==>
        && (forall j :: 0 <= j < |r.error.indices| ==> r.error.indices[j] < |bvals| && Overlapping(bvals, shells, threshold, r.error.indices[j]))
        && (forall i :: 0 <= i < |bvals| && Overlapping(bvals, shells, threshold, i) ==> i in r.error.indices)
        && (forall j, k :: 0 <= j < k < |r.error.indices| ==> r.error.indices[j] < r.error.indices[k])
  {
    var m := Windows(bvals, shells, threshold);
    forall s | 0 <= s < |shells| {
      ShellCountZero(bvals, shells, threshold, s);
    }
    var finalMask := VolumeCounts(m);
    var twice := Exceeding(finalMask);
    forall i | 0 <= i < |bvals| ensures twice[i] <==> Overlapping(bvals, shells, threshold, i) {
      VolumeCountFacts(bvals, shells, threshold, i);
    }
    CountZero(twice);
    WhereSpec(twice);
  }

  /**
   * When every check passes, the combined mask keeps exactly the volumes
   * whose b-value lies within the threshold of some requested shell.
   */
  lemma CombinedMaskKeeps(bvals: seq<int>, shells: seq<int>, threshold: int)
    ensures var r := CombinedMask(Windows(bvals, shells, threshold), |shells|);
      r.Success? <==> ((forall s :: 0 <= s < |shells| ==> Covered(bvals, shells, threshold, s))
                       && forall i :: 0 <= i < |bvals| ==> !Overlapping(bvals, shells, threshold, i))
    ensures var r := CombinedMask(Windows(bvals, shells, threshold), |shells|);
      r.Success? ==> forall i :: 0 <= i < |bvals| ==> (r.value[i] <==> InSomeWindow(bvals[i], shells, threshold))
  {
    ExtractedTwiceIff(bvals, shells, threshold);
    NoDataIff(bvals, shells, threshold);
    forall i | 0 <= i < |bvals| {
      VolumeCountFacts(bvals, shells, threshold, i);
    }
  }

  function Sum(xs: seq<nat>): nat
  {
    if xs == [] then 0 else Sum(xs[..|xs| - 1]) + xs[|xs| - 1]
  }

  function Indicator(row: seq<bool>): (r: seq<nat>)
    ensures |r| == |row|
  {
    seq(|row|, s requires 0 <= s < |row| => if row[s] then 1 else 0)
  }

  lemma {:induction false} SumIndicator(row: seq<bool>)
    ensures Sum(Indicator(row)) == Count(row)
  {
    if row != [] {
      assert Indicator(row)[..|row| - 1] == Indicator(row[..|row| - 1]);
      SumIndicator(row[..|row| - 1]);
    }
  }

  lemma {:induction false} SumAdd(a: seq<nat>, b: seq<nat>, c: seq<nat>)
    requires |a| == |b| == |c|
    requires forall i :: 0 <= i < |c| ==> c[i] == a[i] + b[i]
    ensures Sum(c) == Sum(a) + Sum(b)
  {
    if c != [] {
      var n := |c| - 1;
      SumAdd(a[..n], b[..n], c[..n]);
    }
  }

  lemma {:induction false} SumZeros(xs: seq<nat>)
    requires forall i :: 0 <= i < |xs| ==> xs[i] == 0
    ensures Sum(xs) == 0
  {
    if xs != [] {
      SumZeros(xs[..|xs| - 1]);
    }
  }

  /** Counting a 0/1 matrix by rows or by columns gives the same total. */
  lemma {:induction false} DoubleCounting(m: MaskMatrix, k: nat)
    requires IsMatrix(m, k)
    ensures Sum(VolumeCounts(m)) == Sum(ShellCounts(m, k))
  {
    if m == [] {
      SumZeros(ShellCounts(m, k));
    } else {
      var n := |m| - 1;
      var m', row := m[..n], m[n];
      DoubleCounting(m', k);
      assert VolumeCounts(m)[..n] == VolumeCounts(m');
      forall s | 0 <= s < k
        ensures ShellCounts(m, k)[s] == ShellCounts(m', k)[s] + Indicator(row)[s]
      {
        assert Column(m, k, s)[..n] == Column(m', k, s);
      }
      SumAdd(ShellCounts(m', k), Indicator(row), ShellCounts(m, k));
      SumIndicator(row);
    }
  }

  lemma {:induction false} CountNonZero(c: seq<nat>)
    requires forall i :: 0 <= i < |c| ==> c[i] <= 1
    ensures Count(NonZero(c)) == Sum(c)
  {
    if c != [] {
      var n := |c| - 1;
      assert NonZero(c)[..n] == NonZero(c[..n]);
      CountNonZero(c[..n]);
    }
  }

  /**
   * On success the combined mask keeps as many volumes as the shells
   * matched in total.
   */
  lemma KeptCountIsSum(bvals: seq<int>, shells: seq<int>, threshold: int)
    requires CombinedMask(Windows(bvals, shells, threshold), |shells|).Success?
    ensures Count(CombinedMask(Windows(bvals, shells, threshold), |shells|).value)
         == Sum(ShellCounts(Windows(bvals, shells, threshold), |shells|))
  {
    var m := Windows(bvals, shells, threshold);
    var finalMask := VolumeCounts(m);
    var twice := Exceeding(finalMask);
    CountZero(twice);
    assert forall i :: 0 <= i < |finalMask| ==> !twice[i];
    CountNonZero(finalMask);
    DoubleCounting(m, |shells|);
  }

  /**
   * On success the three outputs have one entry per kept volume, and
   * entry j of each comes from the same original volume; those volumes
   * appear in their original order and each lies in some shell's window.
   */
  lemma Correspondence<R, V>(bvals: seq<int>, bvecs: seq<R>, volumes: seq<V>, shells: seq<int>, threshold: int)
    requires |bvecs| == |bvals|
    requires SelectVolumes(Windows(bvals, shells, threshold), |shells|, bvals, bvecs, volumes).Success?
    ensures var keep := CombinedMask(Windows(bvals, shells, threshold), |shells|).value;
            var sel := SelectVolumes(Windows(bvals, shells, threshold), |shells|, bvals, bvecs, volumes).value;
            var kept := Where(keep);
      && |sel.bvals| == |sel.bvecs| == |sel.volumes| == |kept|
      && (forall j :: 0 <= j < |kept| ==>
            && kept[j] < |bvals|
            && sel.bvals[j] == bvals[kept[j]]
            && sel.bvecs[j] == bvecs[kept[j]]
            && sel.volumes[j] == volumes[kept[j]]
            && InSomeWindow(bvals[kept[j]], shells, threshold))
      && (forall j, k :: 0 <= j < k < |kept| ==> kept[j] < kept[k])
  {
    var keep := CombinedMask(Windows(bvals, shells, threshold), |shells|).value;
    CombinedMaskKeeps(bvals, shells, threshold);
    WhereSpec(keep);
    forall j | 0 <= j < Count(keep)
      ensures Where(keep)[j] < |bvals| && Select(bvals, keep)[j] == bvals[Where(keep)[j]]
      ensures Select(bvecs, keep)[j] == bvecs[Where(keep)[j]] && Select(volumes, keep)[j] == volumes[Where(keep)[j]]
    {
      SelectAt(bvals, keep, j);
      SelectAt(bvecs, keep, j);
      SelectAt(volumes, keep, j);
    }
  }

  /** No volume inside a requested window is dropped. */
  lemma NothingInWindowDropped<R, V>(bvals: seq<int>, bvecs: seq<R>, volumes: seq<V>, shells: seq<int>, threshold: int, i: nat)
    requires |bvecs| == |bvals| && i < |bvals|
    requires SelectVolumes(Windows(bvals, shells, threshold), |shells|, bvals, bvecs, volumes).Success?
    requires InSomeWindow(bvals[i], shells, threshold)
    ensures i in Where(CombinedMask(Windows(bvals, shells, threshold), |shells|).value)
  {
    CombinedMaskKeeps(bvals, shells, threshold);
    WhereSpec(CombinedMask(Windows(bvals, shells, threshold), |shells|).value);
  }

  // ---------------------------------------------------------------------
  // Output names

  lemma SuffixPieces(shells: seq<int>)
    ensures forall i :: 0 <= i < |shells| ==> '_' !in ShellLabel(shells[i]) && '/' !in ShellLabel(shells[i])
  {
    forall i | 0 <= i < |shells|
      ensures '_' !in ShellLabel(shells[i]) && '/' !in ShellLabel(shells[i])
    {
      var t := IntToString(shells[i]);
      assert ShellLabel(shells[i]) == ['b'] + t;
      assert forall k :: 0 <= k < |t| ==> t[k] != '_' && t[k] != '/';
    }
  }

  /** The suffix names the shells in order: reading it back gives the shell list. */
  lemma SuffixRoundTrip(shells: seq<int>)
    requires |shells| > 0
    ensures ParseSuffix(ShellSuffix(shells)) == shells
  {
    var labels := seq(|shells|, i requires 0 <= i < |shells| => ShellLabel(shells[i]));
    SuffixPieces(shells);
    SplitJoin(labels, '_');
    var pieces := Split(ShellSuffix(shells), '_');
    assert pieces == labels;
    forall i | 0 <= i < |shells| ensures ParseSuffix(ShellSuffix(shells))[i] == shells[i] {
      assert pieces[i][1..] == IntToString(shells[i]);
      IntToStringRoundTrip(shells[i]);
    }
  }

  /** The suffix contains no '/', so an output name stays a plain file name. */
  lemma SuffixHasNoSlash(shells: seq<int>)
    ensures '/' !in ShellSuffix(shells)
  {
    SuffixPieces(shells);
    JoinExcludes(seq(|shells|, i requires 0 <= i < |shells| => ShellLabel(shells[i])), "_", '/');
  }

  /** Shells 0 and 1000 give the suffix `b0_b1000`. */
  lemma SuffixExample()
    ensures ShellSuffix([0, 1000]) == "b0_b1000"
  {
    assert DigitChar(0) == '0' && DigitChar(1) == '1';
    assert NatToString(1) == "1";
    assert NatToString(10) == "10";
    assert NatToString(100) == "100";
    assert NatToString(1000) == "1000";
    assert ShellLabel(0) == "b0" && ShellLabel(1000) == "b1000";
    var labels := seq(2, i requires 0 <= i < 2 => ShellLabel([0, 1000][i]));
    assert labels[0] == "b0" && labels[1] == "b1000";
    assert labels == ["b0", "b1000"];
    assert Join(labels, "_") == "b0" + "_" + Join(["b1000"], "_");
  }

  /**
   * An output name is the input's base name cut just before the first
   * occurrence of the extension (or kept whole when it does not occur),
   * followed by '_', the shell suffix and the extension; it holds no '/'.
   */
  lemma OutputNameShape(path: string, extension: string, suffix: string)
    requires extension != [] && '/' !in extension && '/' !in suffix
    ensures var base := Paths.Basename(path);
            var stem := BeforeFirst(base, extension);
            var name := OutputName(path, extension, suffix);
      && name == stem + "_" + suffix + extension
      && StartsWith(base, stem)
      && !Contains(stem, extension)
      && (stem == base || StartsWith(base[|stem|..], extension))
      && '/' !in name
  {
    var base := Paths.Basename(path);
    var stem := BeforeFirst(base, extension);
    BeforeFirstExcludes(base, extension);
    assert '/' !in stem by {
      assert forall k :: 0 <= k < |stem| ==> stem[k] == base[k];
    }
  }

  /**
   * The outputs go to the given output directory (created when missing)
   * or else beside the input image, and each output file's base name is
   * the derived output name.
   */
  lemma PlanFacts(dwiPath: string, bvalPath: string, bvecPath: string, shells: seq<int>,
                  outDir: Option<string>, outDirExists: bool)
    ensures var plan := PlanOutputs(dwiPath, bvalPath, bvecPath, shells, outDir, outDirExists);
            var suffix := ShellSuffix(shells);
      && (outDir.Some? && outDir.value != "" ==> plan.directory == outDir.value)
      && (outDir.None? || outDir.value == "" ==> plan.directory == Paths.Dirname(dwiPath))
      && (plan.createDirectory <==> outDir.Some? && outDir.value != "" && !outDirExists)
      && Paths.Basename(plan.dwiFile) == OutputName(dwiPath, DwiExtension, suffix)
      && Paths.Basename(plan.bvalFile) == OutputName(bvalPath, BvalExtension, suffix)
      && Paths.Basename(plan.bvecFile) == OutputName(bvecPath, BvecExtension, suffix)
      && plan.dwiFile == Paths.Join(plan.directory, OutputName(dwiPath, DwiExtension, suffix))
      && plan.bvalFile == Paths.Join(plan.directory, OutputName(bvalPath, BvalExtension, suffix))
      && plan.bvecFile == Paths.Join(plan.directory, OutputName(bvecPath, BvecExtension, suffix))
  {
    var dir := OutputDirectory(dwiPath, outDir);
    var suffix := ShellSuffix(shells);
    SuffixHasNoSlash(shells);
    OutputNameShape(dwiPath, DwiExtension, suffix);
    OutputNameShape(bvalPath, BvalExtension, suffix);
    OutputNameShape(bvecPath, BvecExtension, suffix);
    Paths.BasenameOfJoin(dir, OutputName(dwiPath, DwiExtension, suffix));
    Paths.BasenameOfJoin(dir, OutputName(bvalPath, BvalExtension, suffix));
    Paths.BasenameOfJoin(dir, OutputName(bvecPath, BvecExtension, suffix));
  }

  // ---------------------------------------------------------------------
  // Two worked scenarios

  /**
   * Shells 0 and 1000 with threshold 15 over b-values 2, 1005, 1000, 500:
   * the first three volumes are kept, in order, and 500 is dropped.
   */
  lemma ExampleWithThreshold()
    ensures CombinedMask(Windows([2, 1005, 1000, 500], [0, 1000], 15), 2) == Success([true, true, true, false])
    ensures Select([2, 1005, 1000, 500], [true, true, true, false]) == [2, 1005, 1000]
  {
    ExampleMatrix();
    ExampleCounts();
    var twice := Exceeding([1, 1, 1, 0]);
    assert twice == [false, false, false, false];
    CountZero(twice);
    assert NonZero([1, 1, 1, 0]) == [true, true, true, false];
    ExampleSelect();
  }

  lemma ExampleMatrix()
    ensures Windows([2, 1005, 1000, 500], [0, 1000], 15) == [[true, false], [false, true], [false, true], [false, false]]
  {
    var m := Windows([2, 1005, 1000, 500], [0, 1000], 15);
    assert m[0] == [true, false] && m[1] == [false, true] && m[2] == [false, true] && m[3] == [false, false];
  }

  lemma ExampleCounts()
    ensures ShellCounts([[true, false], [false, true], [false, true], [false, false]], 2) == [1, 2]
    ensures VolumeCounts([[true, false], [false, true], [false, true], [false, false]]) == [1, 1, 1, 0]
  {
    var m: MaskMatrix := [[true, false], [false, true], [false, true], [false, false]];
    var c0, c1 := Column(m, 2, 0), Column(m, 2, 1);
    assert c0 == [true, false, false, false] && c1 == [false, true, true, false];
    assert Count(c0) == 1 by {
      assert Count([true]) == 1;
      assert Count([true, false]) == 1 by { assert [true, false][..1] == [true]; }
      assert Count([true, false, false]) == 1 by { assert [true, false, false][..2] == [true, false]; }
      assert c0[..3] == [true, false, false];
    }
    assert Count(c1) == 2 by {
      assert Count([false]) == 0;
      assert Count([false, true]) == 1 by { assert [false, true][..1] == [false]; }
      assert Count([false, true, true]) == 2 by { assert [false, true, true][..2] == [false, true]; }
      assert c1[..3] == [false, true, true];
    }
    assert Count([true, false]) == 1 && Count([false, true]) == 1 && Count([false, false]) == 0 by {
      assert [true, false][..1] == [true] && [false, true][..1] == [false] && [false, false][..1] == [false];
    }
  }

  lemma ExampleSelect()
    ensures Select([2, 1005, 1000, 500], [true, true, true, false]) == [2, 1005, 1000]
  {
    assert Select([2], [true]) == [2];
    assert Select([2, 1005], [true, true]) == [2, 1005] by {
      assert [2, 1005][..1] == [2] && [true, true][..1] == [true];
    }
    assert Select([2, 1005, 1000], [true, true, true]) == [2, 1005, 1000] by {
      assert [2, 1005, 1000][..2] == [2, 1005] && [true, true, true][..2] == [true, true];
    }
    assert [2, 1005, 1000, 500][..3] == [2, 1005, 1000] && [true, true, true, false][..3] == [true, true, true];
  }

  /** Shells 0 and 10 with threshold 20 over the single b-value 5: volume 0 is reported as extracted twice. */
  lemma ExampleOverlap()
    ensures CombinedMask(Windows([5], [0, 10], 20), 2) == Failure(ExtractedTwice([0]))
  {
    var bvals, shells := [5], [0, 10];
    var m := Windows(bvals, shells, 20);
    assert |m| == 1 && m[0] == [true, true];
    assert m == [[true, true]];
    assert Column(m, 2, 0) == [true] && Column(m, 2, 1) == [true];
    assert VolumeCounts(m) == [2] by {
      assert [true, true][..1] == [true];
    }
    assert Exceeding([2]) == [true];
    assert Range(1) == [0];
  }
}
