/**
 * What `load_prices` adds to the catalog, as functions of the files it reads: the
 * specification the imperative loading methods of the price machine are proved against.
 */
module Ingest {
  import opened Wrappers
  import opened Headers
  import opened Rows

  /** A price list as the csv reader delivers it: its name and its rows of cells,
      the first row being the header row. */
  datatype PriceFile = PriceFile(name: string, lines: seq<seq<string>>)

  /** The exceptions that escape `load_prices`: StopIteration from `next(reader)` on a file
      without rows, StopIteration from `search_columns`, ZeroDivisionError from a data row
      (numbered from 0 after the header row). */
  datatype LoadError = NoHeaderRow | MissingColumn(field: Field) | ZeroWeight(row: nat)

  /** Records added while reading one file, and the failure that ended it early, if any. */
  datatype FileLoad = FileLoad(records: seq<Record>, failure: Option<LoadError>)

  /** The file at which loading stopped, and why. */
  datatype Stop = Stop(file: string, failure: LoadError)

  /** Records added by a whole load, and where it stopped, if it did. */
  datatype CatalogLoad = CatalogLoad(records: seq<Record>, stop: Option<Stop>)

  /** The records of a list of rows that parse, ignoring aborts: the reference for IngestRows. */
  function Parsed(rows: seq<seq<string>>, cols: Columns, filename: string, toNumber: Coercion): seq<Record>
  {
    if rows == [] then []
    else RecordOf(ParseRow(rows[0], cols, filename, toNumber)) + Parsed(rows[1..], cols, filename, toNumber)
  }

  function RecordOf(outcome: RowOutcome): seq<Record>
  {
    if outcome.Appended? then [outcome.rec] else []
  }

  /** The row loop of `load_prices` over the data rows of one file. */
  function IngestRows(rows: seq<seq<string>>, cols: Columns, filename: string, toNumber: Coercion): (r: FileLoad)
    ensures |r.records| <= |rows|
    ensures forall i :: 0 <= i < |r.records| ==> WellFormed(r.records[i]) && r.records[i].filename == filename
    ensures r.failure.Some? ==> r.failure.value.ZeroWeight? && r.failure.value.row < |rows|
    decreases |rows|
  {
    if rows == [] then FileLoad([], None)
    else
      var before := IngestRows(rows[..|rows| - 1], cols, filename, toNumber);
      if before.failure.Some? then before
      else match ParseRow(rows[|rows| - 1], cols, filename, toNumber)
        case Appended(rec) => FileLoad(before.records + [rec], None)
        case Skipped(_) => before
        case ZeroDivision => FileLoad(before.records, Some(ZeroWeight(|rows| - 1)))
  }

  /** One file with its header row already read: resolve the columns, then the row loop. */
  function IngestFile(filename: string, headers: seq<string>, rows: seq<seq<string>>, toNumber: Coercion): (r: FileLoad)
    ensures forall i :: 0 <= i < |r.records| ==> WellFormed(r.records[i]) && r.records[i].filename == filename
    ensures SearchColumns(headers).Failure? ==>
      r == FileLoad([], Some(MissingColumn(SearchColumns(headers).error)))
  {
    match SearchColumns(headers)
    case Failure(field) => FileLoad([], Some(MissingColumn(field)))
    case Success(cols) => IngestRows(rows, cols, filename, toNumber)
  }

  /** One file from its first row on. */
  function FileOutcome(f: PriceFile, toNumber: Coercion): (r: FileLoad)
    ensures AllWellFormed(r.records)
    ensures forall i :: 0 <= i < |r.records| ==> r.records[i].filename == f.name
    ensures f.lines == [] ==> r == FileLoad([], Some(NoHeaderRow))
  {
    if f.lines == [] then FileLoad([], Some(NoHeaderRow))
    else IngestFile(f.name, f.lines[0], f.lines[1..], toNumber)
  }

  /** The file loop of `load_prices`, given how each file loads: files in order until
      the first failure, whose file's partial records are kept. */
  function LoadFiles(files: seq<PriceFile>, load: PriceFile -> FileLoad): (r: CatalogLoad)
    ensures r.stop.None? ==> forall j :: 0 <= j < |files| ==> load(files[j]).failure.None?
    ensures r.stop.Some? ==> exists j :: 0 <= j < |files| && files[j].name == r.stop.value.file &&
                                         load(files[j]).failure == Some(r.stop.value.failure)
    decreases |files|
  {
    if files == [] then CatalogLoad([], None)
    else
      var before := LoadFiles(files[..|files| - 1], load);
      if before.stop.Some? then before
      else
        var last := files[|files| - 1];
        var outcome := load(last);
        CatalogLoad(before.records + outcome.records,
                    if outcome.failure.Some? then Some(Stop(last.name, outcome.failure.value)) else None)
  }

  /** How `load_prices` loads one file. */
  function Loader(toNumber: Coercion): PriceFile -> FileLoad
  {
    f => FileOutcome(f, toNumber)
  }

  /** `load_prices` over the candidate price files, in directory order. */
  function IngestAll(files: seq<PriceFile>, toNumber: Coercion): (r: CatalogLoad)
    ensures AllWellFormed(r.records)
  {
    LoadFilesWellFormed(files, Loader(toNumber));
    LoadFiles(files, Loader(toNumber))
  }

  /** The records of every file in turn, ignoring failures: the reference for LoadFiles. */
  function AllRecords(files: seq<PriceFile>, load: PriceFile -> FileLoad): seq<Record>
  {
    if files == [] then [] else load(files[0]).records + AllRecords(files[1..], load)
  }

  lemma {:induction false} ParsedSnoc(rows: seq<seq<string>>, row: seq<string>, cols: Columns, filename: string, toNumber: Coercion)
    ensures Parsed(rows + [row], cols, filename, toNumber)
         == Parsed(rows, cols, filename, toNumber) + RecordOf(ParseRow(row, cols, filename, toNumber))
    decreases |rows|
  {
    if rows != [] {
      assert (rows + [row])[1..] == rows[1..] + [row];
      ParsedSnoc(rows[1..], row, cols, filename, toNumber);
    }
  }

  /** The row loop stops exactly at the first row whose weight coerces to zero. */
  lemma {:induction false} IngestRowsStopsAtFirstZero(rows: seq<seq<string>>, cols: Columns, filename: string, toNumber: Coercion)
    ensures IngestRows(rows, cols, filename, toNumber).failure.None? <==>
      forall j :: 0 <= j < |rows| ==> !ParseRow(rows[j], cols, filename, toNumber).ZeroDivision?
    ensures IngestRows(rows, cols, filename, toNumber).failure.Some? ==>
      var k := IngestRows(rows, cols, filename, toNumber).failure.value.row;
      && ParseRow(rows[k], cols, filename, toNumber).ZeroDivision?
      && forall j :: 0 <= j < k ==> !ParseRow(rows[j], cols, filename, toNumber).ZeroDivision?
    decreases |rows|
  {
    if rows != [] {
      var init := rows[..|rows| - 1];
      IngestRowsStopsAtFirstZero(init, cols, filename, toNumber);
      assert forall j :: 0 <= j < |init| ==> init[j] == rows[j];
    }
  }

  /** The records the row loop keeps are exactly those of the rows before the aborting row,
      in row order: a skipped row adds nothing and every parsed row adds its record. */
  lemma {:induction false} IngestRowsKeepsParsed(rows: seq<seq<string>>, cols: Columns, filename: string, toNumber: Coercion)
    ensures
      var r := IngestRows(rows, cols, filename, toNumber);
      var n := if r.failure.Some? then r.failure.value.row else |rows|;
      n <= |rows| && r.records == Parsed(rows[..n], cols, filename, toNumber)
    decreases |rows|
  {
    if rows != [] {
      var init := rows[..|rows| - 1];
      var last := rows[|rows| - 1];
      IngestRowsKeepsParsed(init, cols, filename, toNumber);
      var before := IngestRows(init, cols, filename, toNumber);
      if before.failure.Some? {
        assert init[..before.failure.value.row] == rows[..before.failure.value.row];
      } else {
        assert init[..|init|] == init;
        ParsedSnoc(init, last, cols, filename, toNumber);
        assert init + [last] == rows;
        assert rows[..|rows|] == rows;
      }
    }
  }

  /** Later rows never remove or change records added by earlier rows. */
  lemma {:induction false} IngestRowsPrefix(rows: seq<seq<string>>, i: nat, cols: Columns, filename: string, toNumber: Coercion)
    requires i <= |rows|
    ensures IngestRows(rows[..i], cols, filename, toNumber).records <= IngestRows(rows, cols, filename, toNumber).records
    decreases |rows|
  {
    if i < |rows| {
      var init := rows[..|rows| - 1];
      IngestRowsPrefix(init, i, cols, filename, toNumber);
      assert init[..i] == rows[..i];
    } else {
      assert rows[..i] == rows;
    }
  }

  /** One more row: what the row loop does with row `i` once the rows before it loaded. */
  lemma IngestRowsStep(rows: seq<seq<string>>, i: nat, cols: Columns, filename: string, toNumber: Coercion)
    requires i < |rows|
    requires IngestRows(rows[..i], cols, filename, toNumber).failure.None?
    ensures
      var outcome := ParseRow(rows[i], cols, filename, toNumber);
      && IngestRows(rows[..i + 1], cols, filename, toNumber).records
           == IngestRows(rows[..i], cols, filename, toNumber).records + RecordOf(outcome)
      && IngestRows(rows[..i + 1], cols, filename, toNumber).failure
           == if outcome.ZeroDivision? then Some(ZeroWeight(i)) else None
  {
    assert rows[..i + 1][..i] == rows[..i];
  }

  /** Once a row has aborted the loop, later rows change nothing. */
  lemma {:induction false} IngestRowsAborted(rows: seq<seq<string>>, i: nat, cols: Columns, filename: string, toNumber: Coercion)
    requires i <= |rows|
    requires IngestRows(rows[..i], cols, filename, toNumber).failure.Some?
    ensures IngestRows(rows, cols, filename, toNumber) == IngestRows(rows[..i], cols, filename, toNumber)
    decreases |rows|
  {
    if i < |rows| {
      var init := rows[..|rows| - 1];
      assert init[..i] == rows[..i];
      IngestRowsAborted(init, i, cols, filename, toNumber);
    } else {
      assert rows[..i] == rows;
    }
  }

  /** One more file: what the file loop does with file `i` once the files before it loaded. */
  lemma LoadFilesStep(files: seq<PriceFile>, i: nat, load: PriceFile -> FileLoad)
    requires i < |files|
    requires LoadFiles(files[..i], load).stop.None?
    ensures LoadFiles(files[..i + 1], load).records == LoadFiles(files[..i], load).records + load(files[i]).records
    ensures LoadFiles(files[..i + 1], load).stop
         == if load(files[i]).failure.Some? then Some(Stop(files[i].name, load(files[i]).failure.value)) else None
  {
    assert files[..i + 1][..i] == files[..i];
  }

  /** Once a file has stopped the load, later files change nothing. */
  lemma {:induction false} LoadFilesStopped(files: seq<PriceFile>, i: nat, load: PriceFile -> FileLoad)
    requires i <= |files|
    requires LoadFiles(files[..i], load).stop.Some?
    ensures LoadFiles(files, load) == LoadFiles(files[..i], load)
    decreases |files|
  {
    if i < |files| {
      var init := files[..|files| - 1];
      assert init[..i] == files[..i];
      LoadFilesStopped(init, i, load);
    } else {
      assert files[..i] == files;
    }
  }

  /** A load keeps only records its files produced: if every file yields well-formed
      records, so does the whole load. */
  lemma {:induction false} LoadFilesWellFormed(files: seq<PriceFile>, load: PriceFile -> FileLoad)
    requires forall f :: AllWellFormed(load(f).records)
    ensures AllWellFormed(LoadFiles(files, load).records)
    decreases |files|
  {
    if files != [] {
      LoadFilesWellFormed(files[..|files| - 1], load);
    }
  }

  /** A whole load stops exactly when some file fails. */
  lemma {:induction false} LoadFilesStopsIff(files: seq<PriceFile>, load: PriceFile -> FileLoad)
    ensures LoadFiles(files, load).stop.None? <==>
      forall j :: 0 <= j < |files| ==> load(files[j]).failure.None?
    decreases |files|
  {
    if files != [] {
      var init := files[..|files| - 1];
      LoadFilesStopsIff(init, load);
      assert forall j :: 0 <= j < |init| ==> init[j] == files[j];
    }
  }

  /** A load that does not stop holds every file's records, in file order. */
  lemma {:induction false} LoadFilesCompletes(files: seq<PriceFile>, load: PriceFile -> FileLoad)
    ensures LoadFiles(files, load).stop.None? ==> LoadFiles(files, load).records == AllRecords(files, load)
    decreases |files|
  {
    if files != [] {
      var init := files[..|files| - 1];
      var last := files[|files| - 1];
      assert files == init + [last];
      LoadFilesCompletes(init, load);
      AllRecordsSnoc(init, last, load);
    }
  }

  /** When a load stops, it stops at the first failing file, and it holds the records of the
      files before it and those the failing file's rows added before it failed. */
  lemma {:induction false} LoadFilesStopsAtFirstFailure(files: seq<PriceFile>, load: PriceFile -> FileLoad)
    ensures LoadFiles(files, load).stop.Some? ==>
      exists k :: 0 <= k < |files| && StoppedAt(files, load, k, LoadFiles(files, load))
    decreases |files|
  {
    if files != [] {
      var init := files[..|files| - 1];
      var last := files[|files| - 1];
      assert files == init + [last];
      var before := LoadFiles(init, load);
      if before.stop.Some? {
        LoadFilesStopsAtFirstFailure(init, load);
        var k :| 0 <= k < |init| && StoppedAt(init, load, k, before);
        assert init[..k + 1] == files[..k + 1];
        assert forall j :: 0 <= j <= k ==> init[j] == files[j];
        assert StoppedAt(files, load, k, LoadFiles(files, load));
      } else if load(last).failure.Some? {
        LoadFilesStopsIff(init, load);
        LoadFilesCompletes(init, load);
        AllRecordsSnoc(init, last, load);
        assert files[..|files|] == files;
        assert forall j :: 0 <= j < |init| ==> init[j] == files[j];
        assert StoppedAt(files, load, |files| - 1, LoadFiles(files, load));
      }
    }
  }

  /** The load stopped at file `k`: every earlier file loaded, file `k` failed with the
      reported failure, and the records are those of the files up to and including `k`. */
  predicate StoppedAt(files: seq<PriceFile>, load: PriceFile -> FileLoad, k: nat, r: CatalogLoad)
    requires k < |files|
  {
    && (forall j :: 0 <= j < k ==> load(files[j]).failure.None?)
    && load(files[k]).failure.Some?
    && r.stop == Some(Stop(files[k].name, load(files[k]).failure.value))
    && r.records == AllRecords(files[..k + 1], load)
  }

  lemma {:induction false} AllRecordsSnoc(files: seq<PriceFile>, f: PriceFile, load: PriceFile -> FileLoad)
    ensures AllRecords(files + [f], load) == AllRecords(files, load) + load(f).records
    decreases |files|
  {
    if files != [] {
      assert (files + [f])[1..] == files[1..] + [f];
      AllRecordsSnoc(files[1..], f, load);
    }
  }
}
