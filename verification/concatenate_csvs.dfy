/**
 * Collecting CSV files under a parent directory and concatenating them
 * into one long table. Every table gains a `Filename` column holding its
 * source path; tables are held in a dictionary keyed by path and then
 * concatenated in key order with a fresh row index.
 *
 * Reading a file is a parameter (`read`); a table is a sequence of rows,
 * a row a map from column name to cell text.
 */
module CsvConcatenation {
  import opened Wrappers
  import opened OrderedDicts
  import opened Walk
  import opened Seqs
  import Paths

  type Row = map<string, string>
  type Table = seq<Row>

  const FilenameColumn := "Filename"
  const DefaultEndsWith := ".csv"
  const DefaultOutput := "all_csv_data.csv"

  /** `table['Filename'] = path`: every row gains (or has replaced) a `Filename` cell holding the path. */
  function Tagged(t: Table, path: string): (r: Table)
    ensures |r| == |t|
    ensures forall i :: 0 <= i < |r| ==> r[i].Keys == t[i].Keys + {FilenameColumn} && r[i][FilenameColumn] == path
    ensures forall i, c :: 0 <= i < |r| && c in t[i] && c != FilenameColumn ==> r[i][c] == t[i][c]
  {
    seq(|t|, i requires 0 <= i < |t| => t[i][FilenameColumn := path])
  }

  /** The sub-directory filter in force: only a given, non-empty text filters. */
  function Within(subDir: Option<string>): Option<string>
  {
    if subDir.Some? && subDir.value != "" then subDir else None
  }

  /**
   * The dictionary loop: each collected path is read into the dictionary
   * under its own key and the stored table then gains its `Filename`
   * column. Keys keep the order of first collection.
   */
  method TabulateFiles(paths: seq<string>, read: string -> Table) returns (tables: OrderedDict<string, Table>)
    ensures tables.Valid()
    ensures tables.keys == Dedup(paths)
    ensures forall p :: p in paths ==> p in tables.values && tables.values[p] == Tagged(read(p), p)
  {
    tables := Empty();
    for k := 0 to |paths|
      invariant tables.Valid()
      invariant tables.keys == Dedup(paths[..k])
      invariant forall p :: p in paths[..k] ==> p in tables.values && tables.values[p] == Tagged(read(p), p)
    {
      var p := paths[k];
      TakeSnoc(paths, k);
      PutKeysStep(tables, p, read(p), paths[..k]);
      tables := tables.Put(p, read(p));
      tables := tables.Put(p, Tagged(tables.values[p], p));
    }
    assert paths[..|paths|] == paths;
  }

  /** `pd.concat(tables.values())`: the tables' rows, table after table in key order. */
  function Concat(keys: seq<string>, tables: map<string, Table>): Table
    requires forall k :: k in keys ==> k in tables
  {
    if keys == [] then []
    else Concat(keys[..|keys| - 1], tables) + tables[keys[|keys| - 1]]
  }

  /** The tagged tables of the given paths, one after another. */
  function TaggedRows(paths: seq<string>, read: string -> Table): Table
  {
    if paths == [] then []
    else TaggedRows(paths[..|paths| - 1], read) + Tagged(read(paths[|paths| - 1]), paths[|paths| - 1])
  }

  /** The rows of the concatenated table, for the collected paths. */
  function ConcatenatedRows(paths: seq<string>, read: string -> Table): Table
  {
    TaggedRows(Dedup(paths), read)
  }

  function SumRows(paths: seq<string>, read: string -> Table): nat
  {
    if paths == [] then 0 else SumRows(paths[..|paths| - 1], read) + |read(paths[|paths| - 1])|
  }

  datatype CsvError = NoObjectsToConcatenate   // no file was collected, and there is nothing to concatenate

  /** The output file's path and its rows. */
  datatype CsvOutput = CsvOutput(path: string, rows: Table)

  lemma {:induction false} ConcatOfTagged(keys: seq<string>, tables: map<string, Table>, read: string -> Table)
    requires forall k :: k in keys ==> k in tables && tables[k] == Tagged(read(k), k)
    ensures Concat(keys, tables) == TaggedRows(keys, read)
  {
    if keys != [] {
      ConcatOfTagged(keys[..|keys| - 1], tables, read);
    }
  }

  /**
   * The script: collect the paths (filtered by suffix and, when given,
   * by sub-directory text), tag and concatenate the tables, and write the
   * result to `output` under the parent directory.
   */
  method ConcatenateCsvs(parentDir: string, walk: seq<WalkEntry>, subDir: Option<string>,
                         endsWith: Option<string>, output: Option<string>, read: string -> Table)
    returns (r: Result<CsvOutput, CsvError>)
    ensures var suffix := if endsWith.Some? then endsWith.value else DefaultEndsWith;
            var paths := Collected(walk, suffix, Within(subDir));
      && (r.Failure? <==> paths == [])
      && (r.Success? ==> r.value.rows == ConcatenatedRows(paths, read))
      && (r.Success? ==> r.value.path == Paths.Join(parentDir, if output.Some? then output.value else DefaultOutput))
  {
    var suffix := if endsWith.Some? then endsWith.value else DefaultEndsWith;
    var paths := CollectFiles(walk, suffix, Within(subDir));
    var tables := TabulateFiles(paths, read);
    if tables.keys == [] {
      assert paths == [];
      return Failure(NoObjectsToConcatenate);
    }
    ConcatOfTagged(tables.keys, tables.values, read);
    var rows := Concat(tables.keys, tables.values);
    r := Success(CsvOutput(Paths.Join(parentDir, if output.Some? then output.value else DefaultOutput), rows));
  }

  // ---------------------------------------------------------------------
  // Properties of the concatenated table

  lemma {:induction false} TaggedRowsCount(paths: seq<string>, read: string -> Table)
    ensures |TaggedRows(paths, read)| == SumRows(paths, read)
  {
    if paths != [] {
      TaggedRowsCount(paths[..|paths| - 1], read);
    }
  }

  /**
   * With distinct paths, as the script asks of its input, the output is
   * every tagged table in collection order and its row count is the sum
   * of the tables' row counts.
   */
  lemma DistinctPathsRows(paths: seq<string>, read: string -> Table)
    requires Distinct(paths)
    ensures ConcatenatedRows(paths, read) == TaggedRows(paths, read)
    ensures |ConcatenatedRows(paths, read)| == SumRows(paths, read)
  {
    DedupOfDistinct(paths);
    TaggedRowsCount(paths, read);
  }

  /** A path collected a second time collapses onto its first entry: the output does not change. */
  lemma RepeatedPathCollapses(paths: seq<string>, p: string, read: string -> Table)
    requires p in paths
    ensures ConcatenatedRows(paths + [p], read) == ConcatenatedRows(paths, read)
  {
    assert (paths + [p])[..|paths|] == paths;
    assert p in Dedup(paths);
  }

  /** Row `i` of the table read from `p`, tagged with `p`. */
  predicate RowFrom(paths: seq<string>, read: string -> Table, row: Row, p: string, i: int)
  {
    p in paths && 0 <= i < |read(p)| && row == read(p)[i][FilenameColumn := p]
  }

  ghost predicate FromSomeFile(paths: seq<string>, read: string -> Table, row: Row)
  {
    exists p, i :: RowFrom(paths, read, row, p, i)
  }

  /** Every output row is a row of some collected table, with `Filename` set to that table's path. */
  lemma {:induction false} RowsComeFromFiles(paths: seq<string>, read: string -> Table)
    ensures forall j :: 0 <= j < |TaggedRows(paths, read)| ==> FromSomeFile(paths, read, TaggedRows(paths, read)[j])
  {
    if paths != [] {
      var pre, p := paths[..|paths| - 1], paths[|paths| - 1];
      RowsComeFromFiles(pre, read);
      var rows, before := TaggedRows(paths, read), TaggedRows(pre, read);
      forall j | 0 <= j < |rows| ensures FromSomeFile(paths, read, rows[j]) {
        if j < |before| {
          var q, i :| RowFrom(pre, read, before[j], q, i);
          assert q in paths by { var k :| 0 <= k < |pre| && pre[k] == q; assert paths[k] == q; }
          assert rows[j] == before[j];
          assert RowFrom(paths, read, rows[j], q, i);
        } else {
          assert RowFrom(paths, read, rows[j], p, j - |before|);
        }
      }
    }
  }

  /** Every output row carries in `Filename` the path of a collected file. */
  lemma OutputRowsTagged(paths: seq<string>, read: string -> Table)
    ensures forall j :: 0 <= j < |ConcatenatedRows(paths, read)| ==>
              FilenameColumn in ConcatenatedRows(paths, read)[j] && ConcatenatedRows(paths, read)[j][FilenameColumn] in paths
  {
    var rows := ConcatenatedRows(paths, read);
    RowsComeFromFiles(Dedup(paths), read);
    forall j | 0 <= j < |rows| ensures FilenameColumn in rows[j] && rows[j][FilenameColumn] in paths {
      var q, i :| RowFrom(Dedup(paths), read, rows[j], q, i);
    }
  }
}
