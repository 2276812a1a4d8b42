# Neuroimaging data-wrangling scripts, modelled in Dafny

This project models four command-line scripts of a neuroimaging toolbox:

- **`diffusion_mri/extract_shells.py`**: the DWI shell extractor.
  - It builds a volumes-by-shells boolean mask. Entry `[i, s]` is true when b-value `i` lies within `threshold` of shell `s`.
  - It refuses the run when some shell matched no volume.
  - It refuses the run when some volume matched two shells, and prints those indices.
  - Otherwise it filters the b-values, the gradient directions and the image's volumes with one combined mask.
  - It writes three files. Each name is the input's base name up to its extension, then `_`, then the shell labels joined by `_` (`b0_b1000`), then the extension.
  - The files go to the output directory when one is given (it is created if missing), and otherwise to the input image's directory.
- **`regions_of_interest/combine_rois.py`**: the region combiner. A voxel of the output mask is 1 exactly when its label is one of the requested region values. The output has the input's grid and affine.
- **`csv/concatenate_csvs.py`**: the CSV concatenator.
  - It walks a parent directory and collects every file whose name ends with a suffix (default `.csv`).
  - When a sub-directory text is given, it only takes files from directories whose path contains that text.
  - Each table is stored in a dictionary keyed by its path and gains a `Filename` column holding that path.
  - The tables are concatenated in key order and written to `all_csv_data.csv`, or the given name, under the parent directory.
  - With no file collected, the concatenation fails.
- **`regions_of_interest/read_gif_csv.py`**: the GIF volume reader.
  - It selects the measure from `--giftype`: nothing given or `prob` selects `volumeProb`, and `cat` selects `volumeCat`.
  - It walks a directory for `.xml` files.
  - For each file it builds an ordered record: the file's name, its path, then one column `<number> - <name>` per region holding the measure's text.
  - The regions are the `labels` items followed by the `tissues` items except the first.
  - It writes the records through a dictionary writer whose fields are the first record's keys.

The model is split into one module per concern:

| file | module | what it holds |
|---|---|---|
| `wrappers.dfy` | `Wrappers` | `Option` and `Result` |
| `masks.dfy` | `Masks` | counting, boolean-mask selection (`xs[mask]`) and `np.where` |
| `strings.dfy` | `Strings` | `endswith`, `in`, `split(pat)[0]`, `join`, `split`, `str(int)` |
| `paths.dfy` | `Paths` | `os.path.basename`, `dirname` and `join` |
| `ordered_dicts.dfy` | `OrderedDicts` | insertion-ordered dictionaries, as `OrderedDict` and `dict` keep them |
| `walk.dfy` | `Walk` | the file-collection loops over a directory walk |
| `extract_shells.dfy` | `ShellExtraction` | the shell extractor |
| `combine_rois.dfy` | `RoiCombination` | the region combiner |
| `concatenate_csvs.dfy` | `CsvConcatenation` | the CSV concatenator |
| `read_gif_csv.dfy` | `GifRecords` | the GIF volume reader |

Each script's loops are methods proved equal to a specification function:

- `ShellExtraction.ExtractShells` against `Extract`.
- `CsvConcatenation.ConcatenateCsvs` against `Collected` and `ConcatenatedRows`.
- `GifRecords.ReadGif` against `GifSheet`.

The lemmas then state what those functions promise. Errors the scripts raise are `Failure` values, in the order the scripts raise them.

Where the scripts' own descriptions and their code differ, the model follows the code:

- **Output names.** An output name is not "the input name with a suffix inserted before its extension". The base name is cut at the *first* occurrence of the extension, and anything after that occurrence is dropped. `ShellExtraction.OutputNameShape` states this.
- **Unknown region values.** `combine_rois.py` says every requested label must exist in the image. Nothing checks this: a value that labels no voxel is accepted and changes nothing (`RoiCombination.AbsentValueIgnored`).
- **Repeated paths.** `concatenate_csvs.py` asks for unique paths. When a path is collected twice, its dictionary entry is overwritten in place, so the table appears once (`CsvConcatenation.RepeatedPathCollapses`).
- **Which shell lacks data.** The "data not found" check reports only that some shell has no volume, not which one. `ShellExtraction.NoDataForShell` carries no shell.

## Model

| member | source | states |
|---|---|---|
| Masks.Select | diffusion_mri/extract_shells.py:89-91 | boolean-mask selection keeps exactly as many entries as the mask has true entries |
| Masks.CountZero | diffusion_mri/extract_shells.py:73-74 | a mask's sum is 0 iff none of its entries is true |
| Masks.CountAboveOne | diffusion_mri/extract_shells.py:78-81 | a mask's sum exceeds 1 iff two distinct positions are true |
| Masks.SelectAt | diffusion_mri/extract_shells.py:89-91 | entry j of `xs[mask]` is the entry of `xs` at the j-th true position of the mask |
| Masks.WhereSpec | diffusion_mri/extract_shells.py:82 | `np.where(mask)` lists every true position and only those, strictly ascending |
| Masks.SelectAppend | diffusion_mri/extract_shells.py:89-91 | filtering a concatenation is concatenating the filtered halves |
| Strings.FindFirst | diffusion_mri/extract_shells.py:106 | the position found is the first occurrence of the pattern, or the end of the text when it does not occur |
| Strings.BeforeFirst | diffusion_mri/extract_shells.py:106-108 | `s.split(pat)[0]` is a prefix of `s` |
| Strings.BeforeFirstExcludes | diffusion_mri/extract_shells.py:106-108 | the text before the first occurrence of a pattern does not contain the pattern |
| Strings.ContainsIff | csv/concatenate_csvs.py:42 | `sub in s` holds iff `sub` occurs at some position of `s` |
| Strings.Split | regions_of_interest/read_gif_csv.py:46 | `split` always yields at least one piece, so `[-1]` is defined |
| Strings.SplitJoin | diffusion_mri/extract_shells.py:103 | splitting a `join` on its one-character separator gives the pieces back when no piece holds the separator |
| Strings.NatToString | diffusion_mri/extract_shells.py:103 | `str` of a natural number is a non-empty string of decimal digits |
| Strings.IntToString | diffusion_mri/extract_shells.py:103 | `str` of an integer holds only digits and '-' |
| Strings.IntToStringRoundTrip | diffusion_mri/extract_shells.py:103 | `int(str(i)) == i` |
| Strings.JoinExcludes | diffusion_mri/extract_shells.py:103 | a character in no piece and not in the separator is not in the joined text |
| Paths.Basename | diffusion_mri/extract_shells.py:106-108 | `os.path.basename` has no '/' and ends the path |
| Paths.Dirname | diffusion_mri/extract_shells.py:100 | `os.path.dirname` is a prefix of the path |
| Paths.DirnameBasename | diffusion_mri/extract_shells.py:100 | joining a path's directory and base name gives the path back (no doubled slashes), so default outputs sit beside the input |
| Paths.BasenameOfJoin | diffusion_mri/extract_shells.py:112 | a plain file name joined onto any directory is the base name of the result |
| Paths.LastPieceIsBasename | regions_of_interest/read_gif_csv.py:46 | `filename.split('/')[-1]` equals `os.path.basename(filename)` |
| OrderedDicts.Dedup | csv/concatenate_csvs.py:57-62 | a dictionary's key order lists each assigned key once, and exactly the assigned keys |
| OrderedDicts.OrderedDict.Put | regions_of_interest/read_gif_csv.py:60-62 | assigning a key sets its value; a new key goes last, an existing key keeps its position |
| OrderedDicts.DedupOfDistinct | csv/concatenate_csvs.py:12 | with distinct keys, the key order is the assignment order |
| OrderedDicts.DedupDisjointPrefix | regions_of_interest/read_gif_csv.py:60-70 | keys assigned first stay in front of later keys that differ from them |
| OrderedDicts.PutAllKeys | regions_of_interest/read_gif_csv.py:65-70 | after a run of assignments the key order is the first occurrences of old then assigned keys |
| OrderedDicts.PutAllValues | regions_of_interest/read_gif_csv.py:65-70 | each assigned key holds the value assigned to it last; other keys keep their values |
| OrderedDicts.LastValueIsLast | regions_of_interest/read_gif_csv.py:70 | the value kept for a key comes from an assignment to that key that no later one overrides |
| Walk.CollectFiles | csv/concatenate_csvs.py:39-53 | the collection loops append exactly the `Collected` paths, directory by directory, in walk order |
| Walk.Collected | csv/concatenate_csvs.py:39-53 | the collected paths; membership is stated by `CollectedMembers`, the filter by `FilterSelects` and `FilterIsSubsequence` |
| Walk.CollectedMembers | csv/concatenate_csvs.py:39-53 | a path is collected iff it joins a visited directory with a file in it whose name ends with the suffix and, when filtered, whose directory path contains the filter text |
| Walk.PickedMembers | regions_of_interest/read_gif_csv.py:35-39 | a path is picked from one directory iff it joins the directory with a wanted file of it |
| Walk.FilterSelects | csv/concatenate_csvs.py:39-53 | the sub-directory branch collects the unfiltered paths whose directory contains the text, in the same order |
| Walk.FilterIsSubsequence | csv/concatenate_csvs.py:39-46 | the sub-directory filter only drops paths, never adds or reorders any |
| ShellExtraction.Windows | diffusion_mri/extract_shells.py:63-69 | entry `[i][s]` of the mask matrix is true iff `shells[s] - threshold <= bvals[i] <= shells[s] + threshold` |
| ShellExtraction.ZeroThresholdIsEquality | diffusion_mri/extract_shells.py:69 | with the default threshold 0 a b-value falls in a shell's window iff it equals the shell |
| ShellExtraction.BuildMasks | diffusion_mri/extract_shells.py:63-69 | the column-by-column loop fills a `|bvals|` by `|shells|` array with exactly those window tests |
| ShellExtraction.ShellCountZero | diffusion_mri/extract_shells.py:73-74 | a shell's count is 0 iff no b-value lies in its window |
| ShellExtraction.VolumeCountFacts | diffusion_mri/extract_shells.py:78-81 | a volume's count exceeds 1 iff it lies in two shells' windows, and is non-zero iff it lies in some window |
| ShellExtraction.NoDataIff | diffusion_mri/extract_shells.py:73-75 | the run fails with "data not found" iff some requested shell has no b-value within the threshold |
| ShellExtraction.ExtractedTwiceIff | diffusion_mri/extract_shells.py:80-83 | the run fails with "extracted twice" iff every shell has data and some volume lies in two windows; the reported indices are exactly those volumes, ascending |
| ShellExtraction.CombinedMaskKeeps | diffusion_mri/extract_shells.py:73-86 | the checks pass iff every shell has data and no volume is in two windows; the combined mask then keeps exactly the volumes in some window |
| ShellExtraction.CombinedMask | diffusion_mri/extract_shells.py:73-86 | the two checks and the boolean mask; what it decides is stated by `NoDataIff`, `ExtractedTwiceIff` and `CombinedMaskKeeps` |
| ShellExtraction.SelectVolumes | diffusion_mri/extract_shells.py:89-91 | one mask applied to b-values, gradient rows and volumes; what it keeps is stated by `Correspondence` and `NothingInWindowDropped` |
| ShellExtraction.DoubleCounting | diffusion_mri/extract_shells.py:73-78 | summing the mask matrix along either axis gives the same total |
| ShellExtraction.KeptCountIsSum | diffusion_mri/extract_shells.py:73-86 | when the checks pass, the number of kept volumes is the sum of the per-shell counts |
| ShellExtraction.Correspondence | diffusion_mri/extract_shells.py:89-91 | the kept b-values, gradient rows and volumes have equal length, entry j of each comes from the same original volume, in original order, and that volume lies in some window |
| ShellExtraction.NothingInWindowDropped | diffusion_mri/extract_shells.py:86-91 | when the checks pass, every volume within the threshold of a requested shell is kept |
| ShellExtraction.ExtractShells | diffusion_mri/extract_shells.py:63-112 | the script's result (failure, or the selection and the output plan) is `Extract` of its inputs |
| ShellExtraction.Extract | diffusion_mri/extract_shells.py:63-112 | the whole run as a value; its outcomes are stated by `NoDataIff`, `ExtractedTwiceIff`, `CombinedMaskKeeps`, `Correspondence` and `PlanFacts` |
| ShellExtraction.SuffixRoundTrip | diffusion_mri/extract_shells.py:103 | the shell suffix determines the shell list: reading it back gives the shells in order |
| ShellExtraction.ShellSuffix | diffusion_mri/extract_shells.py:103 | the shell labels joined by `_`; its meaning is stated by `SuffixRoundTrip`, `SuffixHasNoSlash` and `SuffixExample` |
| ShellExtraction.SuffixHasNoSlash | diffusion_mri/extract_shells.py:103 | the shell suffix contains no '/' |
| ShellExtraction.SuffixExample | diffusion_mri/extract_shells.py:17-19 | shells 0 and 1000 give the suffix `b0_b1000` |
| ShellExtraction.OutputNameShape | diffusion_mri/extract_shells.py:106-108 | an output name is the input base name cut before the first occurrence of the extension (or whole), then `_`, the suffix and the extension, with no '/' |
| ShellExtraction.OutputName | diffusion_mri/extract_shells.py:106-108 | an output file name; its shape is stated by `OutputNameShape` |
| ShellExtraction.OutputDirectory | diffusion_mri/extract_shells.py:93-100 | the output directory; the choice is stated by `PlanFacts` and, for the default, `DirnameBasename` |
| ShellExtraction.PlanOutputs | diffusion_mri/extract_shells.py:93-112 | the output plan; its directory, creation flag and file names are stated by `PlanFacts` |
| ShellExtraction.PlanFacts | diffusion_mri/extract_shells.py:93-112 | the output directory is the given one (created iff it is given and missing) or else the image's directory; each output path is that directory joined with the output's derived name, which is its base name |
| ShellExtraction.ExampleWithThreshold | diffusion_mri/extract_shells.py:17-19 | shells 0 and 1000 with threshold 15 over b-values 2, 1005, 1000, 500 keep the first three volumes in order |
| ShellExtraction.ExampleOverlap | diffusion_mri/extract_shells.py:80-83 | shells 0 and 10 with threshold 20 over b-value 5 fail with volume 0 extracted twice |
| RoiCombination.IsIn | regions_of_interest/combine_rois.py:36 | the per-voxel scan finds a value iff it is among the requested regions |
| RoiCombination.CombineMask | regions_of_interest/combine_rois.py:36-39 | the mask keeps the input's shape and affine, holds only 0 and 1, and is 1 exactly at voxels whose label is requested |
| RoiCombination.SameValuesSameMask | regions_of_interest/combine_rois.py:20-25 | the mask depends only on the set of requested values, not their order or repetition |
| RoiCombination.UnionOfLists | regions_of_interest/combine_rois.py:36 | requesting two lists gives the voxelwise OR of their masks |
| RoiCombination.MaskIsOrOfSingles | regions_of_interest/combine_rois.py:26-28 | the mask is the OR of the single-region masks ("equals 1001 or 1002 or 1003") |
| RoiCombination.AbsentValueIgnored | regions_of_interest/combine_rois.py:6 | a requested value that labels no voxel changes nothing |
| RoiCombination.ExampleThreeRegions | regions_of_interest/combine_rois.py:20-28 | regions 1001, 1002, 1003 in any order mark exactly the voxels with those labels |
| CsvConcatenation.Tagged | csv/concatenate_csvs.py:62 | every row gains (or has replaced) a `Filename` cell holding the path; other cells are unchanged |
| CsvConcatenation.TabulateFiles | csv/concatenate_csvs.py:57-62 | the dictionary's keys are the collected paths, each once, in first-collection order, and each holds its tagged table |
| CsvConcatenation.ConcatenateCsvs | csv/concatenate_csvs.py:35-68 | the script fails iff no file is collected; otherwise its rows are the tagged tables in key order, written to the output name under the parent directory |
| CsvConcatenation.ConcatOfTagged | csv/concatenate_csvs.py:58-65 | concatenating dictionary tables that each hold their file's tagged table gives the tagged tables in key order |
| CsvConcatenation.Concat | csv/concatenate_csvs.py:65 | the tables' rows in key order; `ConcatOfTagged` equates it with the tagged tables of the keys |
| CsvConcatenation.ConcatenatedRows | csv/concatenate_csvs.py:57-65 | the output rows; stated by `DistinctPathsRows`, `RepeatedPathCollapses`, `RowsComeFromFiles` and `OutputRowsTagged` |
| CsvConcatenation.TaggedRowsCount | csv/concatenate_csvs.py:65 | the concatenation has as many rows as the tables together |
| CsvConcatenation.DistinctPathsRows | csv/concatenate_csvs.py:12 | with unique paths, the output is every tagged table in collection order and its row count is the sum of the tables' |
| CsvConcatenation.RepeatedPathCollapses | csv/concatenate_csvs.py:57-65 | a path collected again does not change the output |
| CsvConcatenation.RowsComeFromFiles | csv/concatenate_csvs.py:58-65 | every output row is a row of some collected table with `Filename` set to that table's path |
| CsvConcatenation.OutputRowsTagged | csv/concatenate_csvs.py:62-65 | every output row's `Filename` is one of the collected paths |
| GifRecords.Measure.Element | regions_of_interest/read_gif_csv.py:26-31 | the probabilistic measure reads the `volumeProb` element and the categorical one `volumeCat`, each tag belonging to exactly one measure |
| GifRecords.SelectMeasure | regions_of_interest/read_gif_csv.py:25-31 | no or empty `--giftype` and `prob` select `volumeProb`; `cat` selects `volumeCat`; any other text leaves the measure unset; stated both as the chosen measure and as the element tag each region is read by |
| GifRecords.GatherRois | regions_of_interest/read_gif_csv.py:52-57 | the regions are all label items followed by all tissue items except the first |
| GifRecords.RoiList | regions_of_interest/read_gif_csv.py:52-57 | the regions of a document; `GatherRois` is proved equal to it |
| GifRecords.RoiLabel | regions_of_interest/read_gif_csv.py:69 | a region's column joins number and name with " - ", so it differs from `XML` and `Filename` |
| GifRecords.BaseRecord | regions_of_interest/read_gif_csv.py:60-62 | a record starts with keys `XML` then `Filename` |
| GifRecords.BuildRecord | regions_of_interest/read_gif_csv.py:59-70 | the record loop's result, or its failure at the first unreadable region, is `Fill` of the base record |
| GifRecords.Fill | regions_of_interest/read_gif_csv.py:65-70 | the region loop as a value; its outcomes are stated by `FillSucceedsIff`, `FillComplete`, `FillUnset`, `FillLacking` and `FillErrors` |
| GifRecords.FillComplete | regions_of_interest/read_gif_csv.py:65-70 | when every region has the measure, the loop makes exactly the assignments in `Entries` |
| GifRecords.FillUnset | regions_of_interest/read_gif_csv.py:65-68 | with the measure unset, the first region fails |
| GifRecords.FillLacking | regions_of_interest/read_gif_csv.py:65-70 | when some region lacks the measure, the loop fails naming the first such region's column |
| GifRecords.FillErrors | regions_of_interest/read_gif_csv.py:65-70 | the region loop fails only for an unset or missing measure |
| GifRecords.FillSucceedsIff | regions_of_interest/read_gif_csv.py:65-70 | the region loop succeeds iff there is no region or the measure is set and every region has it |
| GifRecords.RecordKeys | regions_of_interest/read_gif_csv.py:59-70 | a filled record's keys are `XML`, `Filename`, then each region column once in order of first appearance |
| GifRecords.RecordValues | regions_of_interest/read_gif_csv.py:59-70 | `XML` holds the path's base name, `Filename` the path, each column the measure of the last region with that column |
| GifRecords.GatherAll | regions_of_interest/read_gif_csv.py:45-71 | the file loop succeeds iff every file's record does, and then keeps every record in order |
| GifRecords.GatherFailure | regions_of_interest/read_gif_csv.py:45-71 | a failed file loop fails with the error of the first failing file |
| GifRecords.GatherFailureSticks | regions_of_interest/read_gif_csv.py:45-71 | once a file has failed, the files after it do not change the outcome |
| GifRecords.BuildRecords | regions_of_interest/read_gif_csv.py:44-71 | the file loop's records, or the failure that stops it, are `RecordsOf` the files |
| GifRecords.ReadGif | regions_of_interest/read_gif_csv.py:24-81 | the script's sheet, or the failure that stops it, is `GifSheet` of its inputs |
| GifRecords.GifSheet | regions_of_interest/read_gif_csv.py:24-81 | the script as a value; stated by `NoXmlFilesIff`, `UnsetMeasureFails` and `SheetShape` |
| GifRecords.NoXmlFilesIff | regions_of_interest/read_gif_csv.py:79 | `gif_list[0]` fails iff the walk holds no `.xml` file |
| GifRecords.UnsetMeasureFails | regions_of_interest/read_gif_csv.py:25-68 | an unrecognised `--giftype` stops the script once any file has a region |
| GifRecords.RecordsUnset | regions_of_interest/read_gif_csv.py:45-68 | with the measure unset, the file loop fails with that error as soon as one file has a region |
| GifRecords.RecordOfShape | regions_of_interest/read_gif_csv.py:45-71 | a file's record holds its base name and path, then its region columns each once |
| GifRecords.RowsOfFiles | regions_of_interest/read_gif_csv.py:79-81 | each file's row starts with its base name and path |
| GifRecords.SheetShape | regions_of_interest/read_gif_csv.py:77-81 | a written sheet has one row per XML file, a header of `XML`, `Filename` and the first file's region columns, and each row starts with its file's base name and path |
| GifRecords.RecordsSheet | regions_of_interest/read_gif_csv.py:44-81 | a sheet written from the given files has one row per file, the first file's columns as header, and each row starts with its file's name and path |
| GifRecords.FirstRowComplete | regions_of_interest/read_gif_csv.py:79-81 | the first record's row holds its value for every header column |
| GifRecords.WriteSheetIff | regions_of_interest/read_gif_csv.py:79-81 | the sheet is written iff no record has a column the first record lacks |
| GifRecords.WriteSheet | regions_of_interest/read_gif_csv.py:79-81 | the dictionary writer; stated by `WriteSheetIff` and `FirstRowComplete` |

## Left out

- Reading and writing files is not modelled. This covers `nib.load`/`nib.save`, `read_bvals_bvecs`, `np.savetxt` (its formats and the bvec transpose), `pd.read_csv`/`to_csv`, XML parsing and the CSV file writer. Their contents are parameters or results: volumes and gradient rows are opaque values, a CSV file is a parameter `read`, and an XML file is a parameter `parse` giving its items.
- `os.walk` is not modelled; its sequence of directories with their file names is an input.
- `os.path.exists` is an input flag, and `os.makedirs` is a `createDirectory` flag in the output plan.
- `os.path.abspath` of the parent directory is not modelled; the walk's directory paths are taken as given.
- Argument parsing and printed messages are left out. A missing `--parent_dir` (a `None` path) is not modelled.
- Floating point is left out. B-values are integers, and the `astype(int)` truncation of saved b-values is not modelled.
- The labels read by `get_fdata` in the region combiner are integers; non-integer label values are not modelled.
- ShellExtraction.ExtractShells: it requires as many gradient rows as b-values. The b-value/b-vector reader guarantees this, and the model does not reproduce its check.
- ShellExtraction.ExtractShells: a volume count that differs from the number of b-values is the failure `VolumeCountMismatch`, in place of numpy's indexing error.
- pandas' handling of differing columns is left out. That covers the column union, NaN for missing cells and column order. A row is a map from column to cell text, and the model keeps row order only.
- A document without a `labels` or a `tissues` element, which stops the script with an attribute error, is not modelled; `GifDocument` always has both item lists.
- XML items whose `number` or `name` child is missing, or whose text is `None`, are not modelled; every item has both texts.
- The CSV writer is modelled as all-or-nothing. The header row, which the script has already written when the dictionary writer raises, is not modelled (Python 2's `writerows` converts every record before writing any row).
- The output file that `read_gif_csv.py` opens, and leaves empty, when there are no XML files is not modelled; the result is the failure `NoXmlFiles`.
- Region-combiner output dtype (`uint8`) is not modelled; voxel values are the integers 0 and 1.
