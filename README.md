# PriceMachine in Dafny

A model of the `PriceMachine` class of a price-list analyser (`project.py`). The analyser
reads comma-separated price lists, finds the product, price and weight columns from
their Russian header names, and turns each data row into a record with a unit price
(price per kilogram). It collects the records in `self.data` and answers substring
queries with the matching records, ordered by unit price.

The model has seven modules:

- `Wrappers` (`wrappers.dfy`) holds `Option` and `Result`.
- `Text` (`text.dfy`) holds lower-casing (`str.lower`) and substring membership (`in`).
- `Headers` (`headers.dfy`) models `search_columns`: the three alias lists and the
  first-match search over the header row.
- `Rows` (`rows.dfy`) holds the record and the body of the per-row `try` block, as the
  pure function `ParseRow`.
- `Ingest` (`ingest.dfy`) holds the specification functions for what `load_prices`
  adds: one file's row loop (`IngestRows`), one file (`IngestFile`, `FileOutcome`) and
  the file loop (`LoadFiles`, `IngestAll`). It also holds the lemmas about them.
- `Search` (`search.dfy`) models `find_text`: the filter (`Matching`), a stable sort by
  unit price (`SortByKey`) and the two together (`Find`).
- `Machine` (`machine.dfy`) holds the class `PriceMachine`. Its field `data` is
  extended in place by `ProcessRow`, `LoadFile`, `ReadPriceFile` and `LoadPrices`.
  `ProcessRow` is proved against `Rows.ParseRow`, and the other three against the
  `Ingest` functions. `FindText` reads `data`.

The file system and `float()` are outside the model:

- A price list arrives as its name plus its rows of cells. The first row is the header
  row.
- `float(text)` is a parameter `toNumber: string -> Option<real>`. `None` stands for
  the `ValueError` case.
- Numbers are mathematical reals.

Header names are compared exactly after lower-casing. A header with a surrounding space
or a byte-order mark does not match.

Loading stops or goes on exactly as the code does:

- Missing header column: `next(...)` in `search_columns` raises `StopIteration`.
  Nothing catches it, so the whole load ends (`MissingColumn`), not only that file.
- Empty file: `next(reader)` raises `StopIteration`, and the whole load ends
  (`NoHeaderRow`).
- Zero weight: the `ZeroDivisionError` is not in the `except` list, so the whole load ends
  (`ZeroWeight`). Records already appended stay in `data`.
- Negative numbers: any number that `float()` accepts is stored, negative prices and
  weights included (`Rows.ParseNegativeRow`).

## Model

| member | source | states |
|---|---|---|
| `Headers.FirstTitle` | project.py:51-53 | The scan from position `from` finds a header exactly when some header lower-cases into the alias list, and the index it finds is the first such header |
| `Headers.SearchColumns` | project.py:45-55 | Succeeds iff every alias list has a matching header; each column is the first header whose lower-cased text is in that field's list. Fails with the first missing field in product, price, weight order (the `next` that raises) |
| `Headers.AliasListsDisjoint` | project.py:47-49 | No alias appears in two of the three lists |
| `Headers.ColumnsDistinct` | project.py:47-55 | On success the product, price and weight columns are pairwise distinct |
| `Headers.SearchColumnsIgnoresCase` | project.py:51-53 | Two header rows with the same lower-cased texts resolve identically |
| `Headers.ResolveMixedCase` | project.py:45-55 | `["Наименование","Розница","Фасовка"]` resolves to columns 0, 1, 2 |
| `Headers.ResolveNoTrimming` | project.py:51 | A product header with a trailing space (`"Товар "`) is not recognised, so resolution fails on the product field |
| `Text.LowerChar` | project.py:51 | Lower-casing changes a character exactly when it is a capital of the mapped scripts, and never yields a capital |
| `Text.Lower` | project.py:112 | `s.lower()` has the length of `s`, contains no capital of the mapped scripts, and differs from `s` exactly at its capitals |
| `Text.Contains` | project.py:112 | `sub in s` implies `sub` is no longer than `s`; for equal lengths it holds iff the texts are equal |
| `Text.LowerIdempotent` | project.py:112 | Lower-casing a lower-cased text changes nothing |
| `Text.ContainsIff` | project.py:112 | `sub in s` holds iff `sub` occurs at some position of `s` |
| `Text.EmptyContained` | project.py:112 | The empty text is contained in every text |
| `Rows.ParseRow` | project.py:29-41 | A row yields a record iff all three columns exist, both numbers coerce and the weight is non-zero. The record holds the product cell unchanged, the coerced price and weight, the file name, and unit price = price / weight. IndexError and ValueError are told apart in source step order. A zero weight is the uncaught division error |
| `Rows.ParseAppleRow` | project.py:30-39 | `["Apple","100","2"]` gives the record with price 100, weight 2 and unit price 50 |
| `Rows.ParseBadRows` | project.py:31-33 | A zero weight is a division error, a non-numeric price is a ValueError skip, and a one-cell row is an IndexError skip |
| `Rows.ParseNegativeRow` | project.py:31-33 | Negative price and weight are stored as computed, not rejected |
| `Ingest.IngestRows` | project.py:24-43 | The row loop keeps at most one record per row. Every kept record is well formed and carries the file name. A failure is always a zero weight at an existing row |
| `Ingest.IngestFile` | project.py:21-24 | A header row that does not resolve adds no record and ends the load with that missing field. Otherwise the records are well formed and carry the file name |
| `Ingest.FileOutcome` | project.py:19-22 | A file's records are well formed and carry its name. A file without rows adds nothing and fails with `NoHeaderRow`, the `StopIteration` of `next(reader)` |
| `Ingest.LoadFiles` | project.py:17-43 | The file loop, for any per-file load: a load that runs to the end met no failing file, and a load that stops names a loaded file together with that file's failure |
| `Ingest.IngestAll` | project.py:17-43 | Every record a load adds has a non-zero weight and unit price = price / weight |
| `Ingest.IngestRowsStopsAtFirstZero` | project.py:33-41 | The row loop ends early iff some row has a zero weight, and then it ends at the first such row |
| `Ingest.IngestRowsKeepsParsed` | project.py:29-43 | The kept records are exactly, in row order, the records of the parsing rows before the aborting row (or of all rows). Skipped rows contribute nothing |
| `Ingest.IngestRowsPrefix` | project.py:41-43 | The records from a prefix of the rows are a prefix of the records from all rows: later rows never drop or change earlier records |
| `Ingest.LoadFilesWellFormed` | project.py:17-24 | If every file yields well-formed records, the whole load does |
| `Ingest.LoadFilesStopsIff` | project.py:17-22 | A load ends early iff some file fails |
| `Ingest.LoadFilesCompletes` | project.py:17-43 | A load that does not end early holds every file's records, in file order |
| `Ingest.LoadFilesStopsAtFirstFailure` | project.py:17-43 | A load that ends early ends at the first failing file and reports it. It holds the earlier files' records plus the failing file's records from before it failed |
| `Search.Matches` | project.py:112 | The comprehension's condition holds iff the lower-cased query occurs at some position of the lower-cased product name. A matching query is no longer than the name, and the empty query matches every record |
| `Search.Matching` | project.py:112 | The comprehension is no longer than the catalog, and every record in it matches the query case-insensitively |
| `Search.MatchingCounts` | project.py:112 | The comprehension holds each matching record as many times as the catalog does, and no other record |
| `Search.Insert` | project.py:113 | Insertion adds exactly the one record and puts it or the old head first |
| `Search.InsertSorted` | project.py:113 | Insertion keeps a sequence sorted by unit price |
| `Search.InsertWithKey` | project.py:113 | The inserted record goes before the existing records with its unit price |
| `Search.SortByKey` | project.py:113 | The sort is non-decreasing in unit price and is a permutation. Each unit-price class keeps its input order (stability) |
| `Search.Find` | project.py:107-113 | `find_text` is sorted by unit price and holds exactly the matching records with their multiplicities. Records with equal unit price appear in catalog order |
| `Search.MatchingWithKeyCommute` | project.py:112-113 | Filtering by query and selecting one unit price commute |
| `Search.SortedStableUnique` | project.py:113 | Two sorted sequences whose unit-price classes agree in order are equal, so every stable sort gives the same result |
| `Search.FindIsTheStableSort` | project.py:112-113 | Any sorted arrangement that keeps the catalog order within each unit price equals `Find`, so Python's `sorted` returns it |
| `Search.FindEmptyQuery` | project.py:112 | An empty query returns every catalog record, reordered |
| `Search.FindIgnoresCase` | project.py:112 | Queries with the same lower-case form (`"apple"`, `"APPLE"`) return the same list |
| `Search.FindLowerQuery` | project.py:112 | A query and its lower-cased form return the same list |
| `Machine.PriceMachine.constructor` | project.py:7-8 | A new machine has an empty catalog |
| `Machine.PriceMachine.ProcessRow` | project.py:29-43 | One row either appends exactly the record `ParseRow` builds or leaves `data` unchanged. It keeps every stored record well formed |
| `Machine.PriceMachine.LoadFile` | project.py:21-43 | `data` grows by exactly the records `IngestFile` specifies, and the failure it returns is `IngestFile`'s |
| `Machine.PriceMachine.ReadPriceFile` | project.py:19-24 | Per candidate file, `data` grows by the `FileOutcome` records, and the failure returned is that file's failure |
| `Machine.PriceMachine.LoadPrices` | project.py:10-43 | `data` grows by exactly the `IngestAll` records, and the load reports where it stopped, as `IngestAll` does. Valid is preserved |
| `Machine.PriceMachine.FindText` | project.py:107-113 | Returns `Find` over the current catalog, sorted by unit price and holding exactly the matching records. It has no modifies clause, so `data` is unchanged |

## Left out

- Directory scanning (`os.listdir`) and the filename filter `'price' in filename`
  (project.py:17-18) are file-system work. The model takes the candidate files as a
  sequence in directory order.
- File opening, UTF-8 decoding and `csv.reader` tokenising (project.py:19-20) are
  library code. Headers and rows arrive already split into cells.
- The diagnostic `print` for a skipped row (project.py:42) is console output and is
  not modelled. A skipped row only leaves `data` unchanged.
- `export_to_html` (project.py:57-105) is not part of this model. It is HTML templating
  that ends in a file write, and its cells rely on Python float formatting (`repr`,
  `:.2f`). Product text is inserted there without HTML escaping.
- The interactive loop (project.py:121-147) is console input and output. The model does
  not include the `exit` test or the printed table.
- `Rows.ParseRow`: `float()` is a parameter, so the model does not fix which texts
  convert (exponents, surrounding whitespace, `inf`, `nan`, underscores).
- `Rows.ParseRow`: arithmetic is on reals, so the price per kilogram is exact rather than
  a rounded double. A `-0.0` weight counts as zero.
- `Search.Find`: without NaN, unit prices are totally ordered. A NaN unit price would
  break the ordering that `sorted` relies on, and reals have no NaN.
- `Text.LowerChar` / `Text.Lower`: `LowerChar` lower-cases only ASCII, Latin-1 and the Cyrillic
  block U+0400-U+042F. Other scripts are not lower-cased, and multi-character mappings
  such as U+0130 are not modelled.
