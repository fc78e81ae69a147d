/**
 * The `PriceMachine` object: its catalog `data`, which `load_prices` extends in place,
 * and the search over it.
 */
module Machine {
  import opened Wrappers
  import opened Headers
  import opened Rows
  import opened Ingest
  import Search

  class PriceMachine {
    /** `self.data`: every record loaded so far, in load order. */
    var data: seq<Record>

    /** Every stored record has a non-zero weight and its unit price is price / weight. */
    ghost predicate Valid()
      reads this
    {
      AllWellFormed(data)
    }

    /** `PriceMachine()`: an empty catalog. */
    constructor ()
      ensures Valid() && data == []
    {
      data := [];
    }

    /** One pass of the row loop: the `try` block, appending a record only once every
        step has succeeded. */
    method ProcessRow(row: seq<string>, cols: Columns, filename: string, toNumber: Coercion)
      returns (outcome: RowOutcome)
      requires Valid()
      modifies this
      ensures Valid()
      ensures outcome == ParseRow(row, cols, filename, toNumber)
      ensures data == old(data) + (if outcome.Appended? then [outcome.rec] else [])
    {
      if cols.product >= |row| {
        return Skipped(IndexError);
      }
      var product := row[cols.product];
      if cols.price >= |row| {
        return Skipped(IndexError);
      }
      var price := toNumber(row[cols.price]);
      if price.None? {
        return Skipped(ValueError);
      }
      if cols.weight >= |row| {
        return Skipped(IndexError);
      }
      var weight := toNumber(row[cols.weight]);
      if weight.None? {
        return Skipped(ValueError);
      }
      if weight.value == 0.0 {
        return ZeroDivision;
      }
      var pricePerKg := price.value / weight.value;
      var rec := Record(product, price.value, weight.value, filename, pricePerKg);
      data := data + [rec];
      outcome := Appended(rec);
    }

    /** The body of the file loop for one file whose header row has been read: resolve the
        columns, then process the data rows in order until one raises. */
    method LoadFile(filename: string, headers: seq<string>, rows: seq<seq<string>>, toNumber: Coercion)
      returns (failure: Option<LoadError>)
      requires Valid()
      modifies this
      ensures Valid()
      ensures data == old(data) + IngestFile(filename, headers, rows, toNumber).records
      ensures failure == IngestFile(filename, headers, rows, toNumber).failure
    {
      var resolved := SearchColumns(headers);
      if resolved.Failure? {
        return Some(MissingColumn(resolved.error));
      }
      var cols := resolved.value;
      var i := 0;
      while i < |rows|
        invariant 0 <= i <= |rows|
        invariant Valid()
        invariant IngestRows(rows[..i], cols, filename, toNumber).failure.None?
        invariant data == old(data) + IngestRows(rows[..i], cols, filename, toNumber).records
      {
        var outcome := ProcessRow(rows[i], cols, filename, toNumber);
        IngestRowsStep(rows, i, cols, filename, toNumber);
        if outcome.ZeroDivision? {
          IngestRowsAborted(rows, i + 1, cols, filename, toNumber);
          return Some(ZeroWeight(i));
        }
        i := i + 1;
      }
      assert rows[..i] == rows;
      return None;
    }

    /** The `with open(...)` block for one candidate file: `next(reader)` takes the header
        row, which a file without rows lacks, and the rest are its data rows. */
    method ReadPriceFile(f: PriceFile, toNumber: Coercion) returns (failure: Option<LoadError>)
      requires Valid()
      modifies this
      ensures Valid()
      ensures data == old(data) + FileOutcome(f, toNumber).records
      ensures failure == FileOutcome(f, toNumber).failure
    {
      if f.lines == [] {
        return Some(NoHeaderRow);
      }
      failure := LoadFile(f.name, f.lines[0], f.lines[1..], toNumber);
    }

    /** `load_prices`: every candidate file in turn, extending `data` in place; the first
        failure ends the load with the records added so far kept. */
    method LoadPrices(files: seq<PriceFile>, toNumber: Coercion) returns (stop: Option<Stop>)
      requires Valid()
      modifies this
      ensures Valid()
      ensures data == old(data) + IngestAll(files, toNumber).records
      ensures stop == IngestAll(files, toNumber).stop
    {
      ghost var load := Loader(toNumber);
      var i := 0;
      while i < |files|
        invariant 0 <= i <= |files|
        invariant Valid()
        invariant LoadFiles(files[..i], load).stop.None?
        invariant data == old(data) + LoadFiles(files[..i], load).records
      {
        var failure := ReadPriceFile(files[i], toNumber);
        assert load(files[i]) == FileOutcome(files[i], toNumber);
        LoadFilesStep(files, i, load);
        AppendAssoc(old(data), LoadFiles(files[..i], load).records, load(files[i]).records);
        if failure.Some? {
          LoadFilesStopped(files, i + 1, load);
          return Some(Stop(files[i].name, failure.value));
        }
        i := i + 1;
      }
      assert files[..i] == files;
      return None;
    }

    /** `find_text(text)`: reads the catalog and leaves it unchanged. */
    method FindText(text: string) returns (found: seq<Record>)
      ensures found == Search.Find(data, text)
      ensures Search.SortedByKey(found)
      ensures forall x :: multiset(found)[x] == if Search.Matches(x, text) then multiset(data)[x] else 0
    {
      found := Search.Find(data, text);
    }
  }

  lemma AppendAssoc(a: seq<Record>, b: seq<Record>, c: seq<Record>)
    ensures a + (b + c) == (a + b) + c
  {
  }
}
