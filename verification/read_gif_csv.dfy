/**
 * Collecting GIF parcellation volumes from XML files into one spreadsheet.
 * Every `.xml` file under the input directory gives one record: its file
 * name, its path, then one column per region (`<number> - <name>`) holding
 * the chosen measure; the first record's columns become the sheet's header.
 *
 * Parsing an XML file is a parameter (`parse`) that yields the file's
 * `labels` and `tissues` items; the directory walk is a parameter too.
 */
module GifRecords {
  import opened Wrappers
  import opened Strings
  import opened OrderedDicts
  import opened Walk
  import Paths

  const XmlExtension := ".xml"
  const XmlColumn := "XML"
  const FilenameColumn := "Filename"
  const LabelSeparator := " - "

  /** The volume measure read from each region. */
  datatype Measure = VolumeProb | VolumeCat
  {
    /** The tag of the element holding this measure. */
    function Element(): (tag: string)
      ensures tag == "volumeProb" <==> this == VolumeProb
      ensures tag == "volumeCat" <==> this == VolumeCat
    {
      match this
      case VolumeProb => "volumeProb"
      case VolumeCat => "volumeCat"
    }
  }

  /**
   * The measure for the `--giftype` option: none given or an empty text
   * and "prob" select the probabilistic volume, "cat" the categorical one;
   * any other text leaves the measure unset.
   */
  function SelectMeasure(giftype: Option<string>): (m: Option<Measure>)
    ensures m == Some(VolumeProb) <==> giftype.None? || giftype.value == "" || giftype.value == "prob"
    ensures m == Some(VolumeCat) <==> giftype == Some("cat")
    ensures m.None? <==> giftype.Some? && giftype.value != "" && giftype.value != "prob" && giftype.value != "cat"
    ensures m.Some? && m.value.Element() == "volumeProb" <==> giftype.None? || giftype.value == "" || giftype.value == "prob"
    ensures m.Some? && m.value.Element() == "volumeCat" <==> giftype == Some("cat")
  {
    if giftype.None? || giftype.value == "" then Some(VolumeProb)
    else if giftype.value == "prob" then Some(VolumeProb)
    else if giftype.value == "cat" then Some(VolumeCat)
    else None
  }

  /** An `item` element: the texts of its `number` and `name` children and of its other children by tag. */
  datatype Item = Item(number: string, name: string, measures: map<string, string>)

  /** The items under a document's `labels` and `tissues` elements. */
  datatype GifDocument = GifDocument(labels: seq<Item>, tissues: seq<Item>)

  /** The regions read from a document: all labels, then all tissues but the first (the non-brain outer tissue). */
  function RoiList(doc: GifDocument): seq<Item>
  {
    doc.labels + (if |doc.tissues| > 0 then doc.tissues[1..] else [])
  }

  method GatherRois(doc: GifDocument) returns (rois: seq<Item>)
    ensures rois == RoiList(doc)
    ensures |rois| == |doc.labels| + (if |doc.tissues| > 0 then |doc.tissues| - 1 else 0)
  {
    rois := doc.labels;
    if |doc.tissues| > 0 {
      for k := 1 to |doc.tissues|
        invariant rois == doc.labels + doc.tissues[1..k]
      {
        assert doc.tissues[1..k + 1] == doc.tissues[1..k] + [doc.tissues[k]];
        rois := rois + [doc.tissues[k]];
      }
    }
  }

  /** The column of a region: its number and name around " - ". */
  function RoiLabel(item: Item): (column: string)
    ensures ' ' in column
  {
    var column := item.number + LabelSeparator + item.name;
    assert column[|item.number|] == ' ';
    column
  }

  function Labels(rois: seq<Item>): (labels: seq<string>)
    ensures |labels| == |rois|
    ensures forall i :: 0 <= i < |rois| ==> labels[i] == RoiLabel(rois[i])
  {
    seq(|rois|, i requires 0 <= i < |rois| => RoiLabel(rois[i]))
  }

  /** A record: the columns of one row of the sheet, in insertion order. */
  type Record = OrderedDict<string, string>

  /** The record before its regions: the file's name (the last piece of the path split on '/') and its path. */
  function BaseRecord(path: string): (d: Record)
    ensures d.Valid()
    ensures d.keys == [XmlColumn, FilenameColumn]
  {
    Empty().Put(XmlColumn, Paths.Last(Split(path, '/'))).Put(FilenameColumn, path)
  }

  datatype GifError =
    | MeasureUnset                    // a region was reached while the measure is unset
    | MissingMeasure(column: string)   // a region lacks the measure's element
    | NoXmlFiles                      // no record to take the header from
    | FieldsNotInHeader               // a record has a column the first record lacks

  /** Every region carries the measure's element. */
  predicate Complete(rois: seq<Item>, m: Measure)
  {
    forall i :: 0 <= i < |rois| ==> m.Element() in rois[i].measures
  }

  /** Region `i` is the first one without the measure's element. */
  predicate FirstLacking(rois: seq<Item>, m: Measure, i: int)
  {
    0 <= i < |rois| && m.Element() !in rois[i].measures && Complete(rois[..i], m)
  }

  /** The assignments the region loop makes: label to measure text, in region order. */
  function Entries(rois: seq<Item>, m: Measure): (entries: seq<(string, string)>)
    requires Complete(rois, m)
    ensures KeysOf(entries) == Labels(rois)
  {
    seq(|rois|, i requires 0 <= i < |rois| => (RoiLabel(rois[i]), rois[i].measures[m.Element()]))
  }

  /** The region loop over `rois`, starting from `base`: each region assigns its label, failing at the first region it cannot read. */
  function Fill(base: Record, rois: seq<Item>, measure: Option<Measure>): (r: Result<Record, GifError>)
    requires base.Valid()
    ensures r.Success? ==> r.value.Valid()
  {
    if rois == [] then Success(base)
    else
      var n := |rois|;
      match Fill(base, rois[..n - 1], measure)
      case Failure(e) => Failure(e)
      case Success(d) =>
        if measure.None? then Failure(MeasureUnset)
        else if measure.value.Element() !in rois[n - 1].measures then Failure(MissingMeasure(RoiLabel(rois[n - 1])))
        else Success(d.Put(RoiLabel(rois[n - 1]), rois[n - 1].measures[measure.value.Element()]))
  }

  method BuildRecord(path: string, rois: seq<Item>, measure: Option<Measure>) returns (r: Result<Record, GifError>)
    ensures r == Fill(BaseRecord(path), rois, measure)
  {
    var record := BaseRecord(path);
    for k := 0 to |rois|
      invariant Fill(BaseRecord(path), rois[..k], measure) == Success(record)
    {
      assert rois[..k + 1][..k] == rois[..k];
      if measure.None? {
        FillFailureSticks(BaseRecord(path), rois, measure, k + 1);
        return Failure(MeasureUnset);
      }
      var tag := measure.value.Element();
      if tag !in rois[k].measures {
        FillFailureSticks(BaseRecord(path), rois, measure, k + 1);
        return Failure(MissingMeasure(RoiLabel(rois[k])));
      }
      record := record.Put(RoiLabel(rois[k]), rois[k].measures[tag]);
    }
    assert rois[..|rois|] == rois;
    r := Success(record);
  }

  /** A failure in the region loop is the failure of the whole loop. */
  lemma {:induction false} FillFailureSticks(base: Record, rois: seq<Item>, measure: Option<Measure>, k: nat)
    requires base.Valid()
    requires k <= |rois| && Fill(base, rois[..k], measure).Failure?
    ensures Fill(base, rois, measure) == Fill(base, rois[..k], measure)
  {
    if k < |rois| {
      var pre := rois[..|rois| - 1];
      assert pre[..k] == rois[..k];
      FillFailureSticks(base, pre, measure, k);
    } else {
      assert rois[..k] == rois;
    }
  }

  /** With every region carrying the measure, the region loop makes exactly the assignments in `Entries`. */
  lemma {:induction false} FillComplete(base: Record, rois: seq<Item>, m: Measure)
    requires base.Valid() && Complete(rois, m)
    ensures Fill(base, rois, Some(m)) == Success(PutAll(base, Entries(rois, m)))
  {
    if rois != [] {
      EntriesPrefix(rois, m);
      FillComplete(base, rois[..|rois| - 1], m);
    }
  }

  /** The assignments of all regions but the last are a prefix of the assignments of all regions. */
  lemma EntriesPrefix(rois: seq<Item>, m: Measure)
    requires Complete(rois, m) && rois != []
    ensures Complete(rois[..|rois| - 1], m)
    ensures Entries(rois, m)[..|rois| - 1] == Entries(rois[..|rois| - 1], m)
  {
    var pre := rois[..|rois| - 1];
    forall i | 0 <= i < |pre| ensures pre[i] == rois[i] {
    }
  }

  /** With the measure unset, the region loop fails at the first region. */
  lemma {:induction false} FillUnset(base: Record, rois: seq<Item>)
    requires base.Valid() && rois != []
    ensures Fill(base, rois, None) == Failure(MeasureUnset)
  {
    var pre := rois[..|rois| - 1];
    if pre != [] {
      FillUnset(base, pre);
    }
  }

  /** The first region lacking the measure's element names the failure of the region loop. */
  lemma {:induction false} FillLacking(base: Record, rois: seq<Item>, m: Measure)
    requires base.Valid() && !Complete(rois, m)
    ensures exists i :: FirstLacking(rois, m, i) && Fill(base, rois, Some(m)) == Failure(MissingMeasure(RoiLabel(rois[i])))
  {
    var n := |rois|;
    var pre := rois[..n - 1];
    if Complete(pre, m) {
      FillComplete(base, pre, m);
      LastLacking(rois, m);
    } else {
      FillLacking(base, pre, m);
      var i :| FirstLacking(pre, m, i) && Fill(base, pre, Some(m)) == Failure(MissingMeasure(RoiLabel(pre[i])));
      FillFailureSticks(base, rois, Some(m), n - 1);
      LackingPrefix(rois, m, i);
    }
  }

  /** When all regions but the last carry the measure and not all do, the last one is the first lacking it. */
  lemma LastLacking(rois: seq<Item>, m: Measure)
    requires rois != [] && !Complete(rois, m) && Complete(rois[..|rois| - 1], m)
    ensures FirstLacking(rois, m, |rois| - 1)
  {
    forall j | 0 <= j < |rois| - 1 ensures rois[j] == rois[..|rois| - 1][j] {
    }
  }

  /** The first region lacking the measure among all but the last region is the first lacking one overall. */
  lemma LackingPrefix(rois: seq<Item>, m: Measure, i: int)
    requires rois != [] && FirstLacking(rois[..|rois| - 1], m, i)
    ensures FirstLacking(rois, m, i) && rois[..|rois| - 1][i] == rois[i]
  {
    assert rois[..|rois| - 1][..i] == rois[..i];
  }

  /** The region loop fails only for an unset or a missing measure. */
  lemma {:induction false} FillErrors(base: Record, rois: seq<Item>, measure: Option<Measure>)
    requires base.Valid()
    ensures Fill(base, rois, measure).Failure? ==> Fill(base, rois, measure).error.MeasureUnset? || Fill(base, rois, measure).error.MissingMeasure?
  {
    if rois != [] {
      FillErrors(base, rois[..|rois| - 1], measure);
    }
  }

  /** The region loop succeeds exactly when there is no region or every region carries a set measure. */
  lemma FillSucceedsIff(base: Record, rois: seq<Item>, measure: Option<Measure>)
    requires base.Valid()
    ensures Fill(base, rois, measure).Success? <==> rois == [] || (measure.Some? && Complete(rois, measure.value))
  {
    if rois != [] {
      if measure.None? {
        FillUnset(base, rois);
      } else if Complete(rois, measure.value) {
        FillComplete(base, rois, measure.value);
      } else {
        FillLacking(base, rois, measure.value);
      }
    }
  }

  /** No region column is `XML` or `Filename`: each holds a space and they do not. */
  lemma LabelsAfterBase(rois: seq<Item>)
    ensures forall x :: x in Labels(rois) ==> x != XmlColumn && x != FilenameColumn
  {
    assert ' ' !in XmlColumn && ' ' !in FilenameColumn;
    forall x | x in Labels(rois) ensures x != XmlColumn && x != FilenameColumn {
      assert ' ' in x;
    }
  }

  lemma DedupAfterBase(rois: seq<Item>)
    ensures Dedup([XmlColumn, FilenameColumn] + Labels(rois)) == [XmlColumn, FilenameColumn] + Dedup(Labels(rois))
  {
    LabelsAfterBase(rois);
    DedupDisjointPrefix([XmlColumn, FilenameColumn], Labels(rois));
  }

  /** The keys of a filled record: file name, path, then each region label once, in order of first appearance. */
  lemma RecordKeys(path: string, rois: seq<Item>, m: Measure)
    requires Complete(rois, m)
    ensures PutAll(BaseRecord(path), Entries(rois, m)).keys == [XmlColumn, FilenameColumn] + Dedup(Labels(rois))
  {
    var base := BaseRecord(path);
    var e := Entries(rois, m);
    PutAllKeys(base, e);
    assert base.keys + KeysOf(e) == [XmlColumn, FilenameColumn] + Labels(rois);
    DedupAfterBase(rois);
  }

  /**
   * The values of a filled record: the file name is the path's base name,
   * the path is the path, and each label holds the measure of the last
   * region with that label.
   */
  lemma RecordValues(path: string, rois: seq<Item>, m: Measure)
    requires Complete(rois, m)
    ensures var d := PutAll(BaseRecord(path), Entries(rois, m));
      && XmlColumn in d.values && d.values[XmlColumn] == Paths.Basename(path)
      && FilenameColumn in d.values && d.values[FilenameColumn] == path
      && forall column :: column in Labels(rois) ==> column in d.values && d.values[column] == LastValue(Entries(rois, m), column)
  {
    var base := BaseRecord(path);
    var e := Entries(rois, m);
    Paths.LastPieceIsBasename(path);
    forall column | column in Labels(rois)
      ensures column in PutAll(base, e).values && PutAll(base, e).values[column] == LastValue(e, column)
    {
      PutAllValues(base, e, column);
    }
    RecordKeys(path, rois, m);
    LabelsAfterBase(rois);
    PutAllValues(base, e, XmlColumn);
    PutAllValues(base, e, FilenameColumn);
  }

  /** The record of one file. */
  function RecordOf(path: string, parse: string -> GifDocument, measure: Option<Measure>): Result<Record, GifError>
  {
    Fill(BaseRecord(path), RoiList(parse(path)), measure)
  }

  /** The record of each file, in walk order. */
  function FileRecords(paths: seq<string>, parse: string -> GifDocument, measure: Option<Measure>): (rs: seq<Result<Record, GifError>>)
    ensures |rs| == |paths|
    ensures forall k :: 0 <= k < |paths| ==> rs[k] == RecordOf(paths[k], parse, measure)
  {
    seq(|paths|, k requires 0 <= k < |paths| => RecordOf(paths[k], parse, measure))
  }

  /** A loop over results that keeps each value and stops at the first failure. */
  function Gather<T, E>(results: seq<Result<T, E>>): (r: Result<seq<T>, E>)
    ensures r.Success? ==> |r.value| == |results|
  {
    if results == [] then Success([])
    else
      var n := |results|;
      match Gather(results[..n - 1])
      case Failure(e) => Failure(e)
      case Success(values) =>
        match results[n - 1]
        case Failure(e) => Failure(e)
        case Success(v) => Success(values + [v])
  }

  /** One more step of the loop: a failure ends it, a value is kept. */
  lemma GatherStep<T, E>(results: seq<Result<T, E>>, k: nat, values: seq<T>)
    requires k < |results| && Gather(results[..k]) == Success(values)
    ensures results[k].Failure? ==> Gather(results[..k + 1]) == Failure(results[k].error)
    ensures results[k].Success? ==> Gather(results[..k + 1]) == Success(values + [results[k].value])
  {
    assert results[..k + 1][..k] == results[..k];
  }

  /** Once a prefix of the loop has failed, the whole loop fails the same way. */
  lemma {:induction false} GatherFailureSticks<T, E>(results: seq<Result<T, E>>, k: nat)
    requires k <= |results| && Gather(results[..k]).Failure?
    ensures Gather(results) == Gather(results[..k])
  {
    if k < |results| {
      var pre := results[..|results| - 1];
      assert pre[..k] == results[..k];
      GatherFailureSticks(pre, k);
    } else {
      assert results[..k] == results;
    }
  }

  /** The loop succeeds exactly when every result does, and then keeps every value in order. */
  lemma {:induction false} GatherAll<T, E>(results: seq<Result<T, E>>)
    ensures Gather(results).Success? <==> forall k :: 0 <= k < |results| ==> results[k].Success?
    ensures Gather(results).Success? ==> forall k :: 0 <= k < |results| ==> Gather(results).value[k] == results[k].value
  {
    if results != [] {
      var n := |results|;
      var pre := results[..n - 1];
      GatherAll(pre);
      assert forall k :: 0 <= k < n - 1 ==> pre[k] == results[k];
    }
  }

  /** A failed loop fails with the error of its first failing result. */
  lemma {:induction false} GatherFailure<T, E>(results: seq<Result<T, E>>)
    requires Gather(results).Failure?
    ensures exists k :: 0 <= k < |results| && results[k].Failure? && Gather(results).error == results[k].error
              && forall j :: 0 <= j < k ==> results[j].Success?
  {
    var n := |results|;
    var pre := results[..n - 1];
    if Gather(pre).Failure? {
      GatherFailure(pre);
      var k :| 0 <= k < |pre| && pre[k].Failure? && Gather(pre).error == pre[k].error
               && forall j :: 0 <= j < k ==> pre[j].Success?;
      assert forall j :: 0 <= j <= k ==> pre[j] == results[j];
    } else {
      GatherAll(pre);
      assert forall j :: 0 <= j < n - 1 ==> pre[j] == results[j];
    }
  }

  /** The file loop: one record per file, in walk order, stopping at the first failure. */
  function RecordsOf(paths: seq<string>, parse: string -> GifDocument, measure: Option<Measure>): (r: Result<seq<Record>, GifError>)
    ensures r.Success? ==> |r.value| == |paths|
  {
    Gather(FileRecords(paths, parse, measure))
  }

  /** The written spreadsheet: a header row and one row of cells per record. */
  datatype Sheet = Sheet(header: seq<string>, rows: seq<seq<string>>)

  /** Every column of `d` is in the header. */
  predicate FitsHeader(d: Record, header: seq<string>)
  {
    forall k :: k in d.values ==> k in header
  }

  /** The cells `d` writes under `header`: its value for each column, empty where it has none. */
  function Cells(d: Record, header: seq<string>): seq<string>
  {
    seq(|header|, j requires 0 <= j < |header| => if header[j] in d.values then d.values[header[j]] else "")
  }

  /** A row under a header that starts with the name and path columns starts with the record's name and path. */
  lemma CellsStart(d: Record, header: seq<string>)
    requires |header| >= 2 && header[0] == XmlColumn && header[1] == FilenameColumn
    requires XmlColumn in d.values && FilenameColumn in d.values
    ensures |Cells(d, header)| >= 2
    ensures Cells(d, header)[0] == d.values[XmlColumn] && Cells(d, header)[1] == d.values[FilenameColumn]
  {
  }

  /**
   * A dictionary writer whose fields are the first record's keys: any
   * record holding a column outside them is refused; otherwise each
   * record is written as its cells under the header.
   */
  function WriteSheet(records: seq<Record>): (r: Result<Sheet, GifError>)
    requires |records| > 0
  {
    var header := records[0].keys;
    if forall k | 0 <= k < |records| :: FitsHeader(records[k], header) then
      Success(Sheet(header, seq(|records|, k requires 0 <= k < |records| => Cells(records[k], header))))
    else
      Failure(FieldsNotInHeader)
  }

  /** The spreadsheet the script writes, or the failure that stops it. */
  function GifSheet(giftype: Option<string>, walk: seq<WalkEntry>, parse: string -> GifDocument): Result<Sheet, GifError>
  {
    SheetFrom(Collected(walk, XmlExtension, None), parse, SelectMeasure(giftype))
  }

  /** The sheet written from the given XML files, or the failure that stops it. */
  function SheetFrom(paths: seq<string>, parse: string -> GifDocument, measure: Option<Measure>): Result<Sheet, GifError>
  {
    match RecordsOf(paths, parse, measure)
    case Failure(e) => Failure(e)
    case Success(records) =>
      if records == [] then Failure(NoXmlFiles) else WriteSheet(records)
  }

  /** The file loop: parse each file, gather its regions and build its record, stopping at the first failure. */
  method BuildRecords(paths: seq<string>, parse: string -> GifDocument, measure: Option<Measure>)
    returns (r: Result<seq<Record>, GifError>)
    ensures r == RecordsOf(paths, parse, measure)
  {
    ghost var results := FileRecords(paths, parse, measure);
    var records: seq<Record> := [];
    for k := 0 to |paths|
      invariant Gather(results[..k]) == Success(records)
    {
      var rois := GatherRois(parse(paths[k]));
      var record := BuildRecord(paths[k], rois, measure);
      assert record == results[k];
      GatherStep(results, k, records);
      if record.Failure? {
        GatherFailureSticks(results, k + 1);
        return Failure(record.error);
      }
      records := records + [record.value];
    }
    assert results[..|paths|] == results;
    r := Success(records);
  }

  /** The script: choose the measure, collect the XML files, build one record per file and write the sheet. */
  method ReadGif(giftype: Option<string>, walk: seq<WalkEntry>, parse: string -> GifDocument)
    returns (r: Result<Sheet, GifError>)
    ensures r == GifSheet(giftype, walk, parse)
  {
    var measure := SelectMeasure(giftype);
    var paths := CollectFiles(walk, XmlExtension, None);
    var records := BuildRecords(paths, parse, measure);
    if records.Failure? {
      return Failure(records.error);
    }
    if records.value == [] {
      return Failure(NoXmlFiles);
    }
    r := WriteSheet(records.value);
  }

  // ---------------------------------------------------------------------
  // Properties of the spreadsheet

  /** The sheet fails for want of files exactly when the walk holds no XML file. */
  lemma NoXmlFilesIff(giftype: Option<string>, walk: seq<WalkEntry>, parse: string -> GifDocument)
    ensures GifSheet(giftype, walk, parse) == Failure(NoXmlFiles) <==> Collected(walk, XmlExtension, None) == []
  {
    var measure := SelectMeasure(giftype);
    var paths := Collected(walk, XmlExtension, None);
    if RecordsOf(paths, parse, measure).Failure? {
      GatherFailure(FileRecords(paths, parse, measure));
      var k :| 0 <= k < |paths| && FileRecords(paths, parse, measure)[k].Failure?
               && RecordsOf(paths, parse, measure).error == FileRecords(paths, parse, measure)[k].error
               && forall j :: 0 <= j < k ==> FileRecords(paths, parse, measure)[j].Success?;
      FillErrors(BaseRecord(paths[k]), RoiList(parse(paths[k])), measure);
    }
  }

  /**
   * An unrecognised `--giftype` stops the script at the first region of
   * the first file that has any; files without regions before it pass.
   */
  lemma UnsetMeasureFails(giftype: Option<string>, walk: seq<WalkEntry>, parse: string -> GifDocument)
    requires SelectMeasure(giftype).None?
    requires exists k :: 0 <= k < |Collected(walk, XmlExtension, None)| && RoiList(parse(Collected(walk, XmlExtension, None)[k])) != []
    ensures GifSheet(giftype, walk, parse) == Failure(MeasureUnset)
  {
    var paths := Collected(walk, XmlExtension, None);
    var k :| 0 <= k < |paths| && RoiList(parse(paths[k])) != [];
    RecordsUnset(paths, parse, k);
  }

  /** With the measure unset, the file loop fails as soon as a file with regions is reached. */
  lemma RecordsUnset(paths: seq<string>, parse: string -> GifDocument, k: int)
    requires 0 <= k < |paths| && RoiList(parse(paths[k])) != []
    ensures RecordsOf(paths, parse, None) == Failure(MeasureUnset)
  {
    var results := FileRecords(paths, parse, None);
    FillUnset(BaseRecord(paths[k]), RoiList(parse(paths[k])));
    assert results[k].Failure?;
    GatherAll(results);
    GatherFailure(results);
    var j :| 0 <= j < |results| && results[j].Failure? && Gather(results).error == results[j].error
             && forall i :: 0 <= i < j ==> results[i].Success?;
    var rois := RoiList(parse(paths[j]));
    assert rois != [];
    FillUnset(BaseRecord(paths[j]), rois);
  }

  /** A file's record holds its base name and path, then its region labels, each once. */
  lemma RecordOfShape(path: string, parse: string -> GifDocument, measure: Option<Measure>)
    requires RecordOf(path, parse, measure).Success?
    ensures var d := RecordOf(path, parse, measure).value;
      && d.keys == [XmlColumn, FilenameColumn] + Dedup(Labels(RoiList(parse(path))))
      && XmlColumn in d.values && d.values[XmlColumn] == Paths.Basename(path)
      && FilenameColumn in d.values && d.values[FilenameColumn] == path
  {
    var rois := RoiList(parse(path));
    FillSucceedsIff(BaseRecord(path), rois, measure);
    Paths.LastPieceIsBasename(path);
    if rois == [] {
      assert Labels(rois) == [];
    } else {
      FillComplete(BaseRecord(path), rois, measure.value);
      RecordValues(path, rois, measure.value);
      RecordKeys(path, rois, measure.value);
    }
  }

  /** Under a header that starts with the name and path columns, each file's row starts with its base name and path. */
  lemma RowsOfFiles(paths: seq<string>, parse: string -> GifDocument, measure: Option<Measure>, records: seq<Record>, header: seq<string>)
    requires |records| == |paths|
    requires forall k :: 0 <= k < |paths| ==> RecordOf(paths[k], parse, measure) == Success(records[k])
    requires |header| >= 2 && header[0] == XmlColumn && header[1] == FilenameColumn
    ensures forall k :: 0 <= k < |paths| ==>
              |Cells(records[k], header)| >= 2 && Cells(records[k], header)[0] == Paths.Basename(paths[k]) && Cells(records[k], header)[1] == paths[k]
  {
    forall k | 0 <= k < |paths|
      ensures |Cells(records[k], header)| >= 2 && Cells(records[k], header)[0] == Paths.Basename(paths[k]) && Cells(records[k], header)[1] == paths[k]
    {
      RecordOfShape(paths[k], parse, measure);
      CellsStart(records[k], header);
    }
  }

  /**
   * A written sheet has one row per XML file; its header is the first
   * file's name and path columns followed by that file's region labels,
   * each once; and every row starts with its file's base name and path.
   */
  lemma SheetShape(giftype: Option<string>, walk: seq<WalkEntry>, parse: string -> GifDocument)
    requires GifSheet(giftype, walk, parse).Success?
    ensures var paths := Collected(walk, XmlExtension, None);
            var sheet := GifSheet(giftype, walk, parse).value;
      && |paths| > 0
      && |sheet.rows| == |paths|
      && sheet.header == [XmlColumn, FilenameColumn] + Dedup(Labels(RoiList(parse(paths[0]))))
      && forall k :: 0 <= k < |paths| ==> |sheet.rows[k]| >= 2 && sheet.rows[k][0] == Paths.Basename(paths[k]) && sheet.rows[k][1] == paths[k]
  {
    RecordsSheet(Collected(walk, XmlExtension, None), parse, SelectMeasure(giftype));
  }

  /** A sheet written from the given files has the shape SheetShape states. */
  lemma RecordsSheet(paths: seq<string>, parse: string -> GifDocument, measure: Option<Measure>)
    requires SheetFrom(paths, parse, measure).Success?
    ensures var sheet := SheetFrom(paths, parse, measure).value;
      && |paths| > 0
      && |sheet.rows| == |paths|
      && sheet.header == [XmlColumn, FilenameColumn] + Dedup(Labels(RoiList(parse(paths[0]))))
      && forall k :: 0 <= k < |paths| ==> |sheet.rows[k]| >= 2 && sheet.rows[k][0] == Paths.Basename(paths[k]) && sheet.rows[k][1] == paths[k]
  {
    var records := RecordsOf(paths, parse, measure).value;
    RecordsOfEach(paths, parse, measure);
    RecordOfShape(paths[0], parse, measure);
    RowsOfFiles(paths, parse, measure, records, records[0].keys);
    WriteSheetRows(records);
  }

  /** A successful file loop holds each file's record, in order. */
  lemma RecordsOfEach(paths: seq<string>, parse: string -> GifDocument, measure: Option<Measure>)
    requires RecordsOf(paths, parse, measure).Success?
    ensures forall k :: 0 <= k < |paths| ==> RecordOf(paths[k], parse, measure) == Success(RecordsOf(paths, parse, measure).value[k])
  {
    GatherAll(FileRecords(paths, parse, measure));
  }

  /** A written sheet's header is the first record's keys and its rows are the records' cells under it. */
  lemma WriteSheetRows(records: seq<Record>)
    requires |records| > 0 && WriteSheet(records).Success?
    ensures var sheet := WriteSheet(records).value;
      && sheet.header == records[0].keys
      && |sheet.rows| == |records|
      && forall k :: 0 <= k < |records| ==> sheet.rows[k] == Cells(records[k], sheet.header)
  {
  }

  /** The first record is always written whole: its row holds its value for every header column, in key order. */
  lemma FirstRowComplete(records: seq<Record>)
    requires |records| > 0 && records[0].Valid()
    requires WriteSheet(records).Success?
    ensures var sheet := WriteSheet(records).value;
      forall j :: 0 <= j < |sheet.header| ==> sheet.header[j] in records[0].values && sheet.rows[0][j] == records[0].values[sheet.header[j]]
  {
  }

  /** A sheet is written exactly when no record has a column the first record lacks. */
  lemma WriteSheetIff(records: seq<Record>)
    requires |records| > 0 && records[0].Valid()
    ensures WriteSheet(records).Success? <==>
              forall k, c :: 0 <= k < |records| && c in records[k].values ==> c in records[0].values
  {
  }
}
