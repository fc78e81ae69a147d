/**
 * One data row of a price list: the body of the `try` block in `load_prices`.
 */
module Rows {
  import opened Wrappers
  import opened Headers

  /** A catalog entry: the dictionary appended to `self.data`. */
  datatype Record = Record(product: string, price: real, weight: real, filename: string, pricePerKg: real)

  /** Text-to-number coercion, `float(text)`: None where it raises ValueError. */
  type Coercion = string -> Option<real>

  /** The two exceptions the `except` clause catches. */
  datatype RowError = IndexError | ValueError

  /** What one row does to the catalog: adds one record, is skipped, or raises
      ZeroDivisionError, which nothing catches. */
  datatype RowOutcome = Appended(rec: Record) | Skipped(error: RowError) | ZeroDivision

  /** A record whose unit price is its price divided by a non-zero weight. */
  predicate WellFormed(rec: Record)
  {
    rec.weight != 0.0 && rec.pricePerKg == rec.price / rec.weight
  }

  /** Every record of `s` is well formed. */
  predicate AllWellFormed(s: seq<Record>)
  {
    forall i :: 0 <= i < |s| ==> WellFormed(s[i])
  }

  /** The row is long enough for every resolved column. */
  predicate InRange(row: seq<string>, cols: Columns)
  {
    cols.product < |row| && cols.price < |row| && cols.weight < |row|
  }

  /** Both numeric cells coerce. */
  predicate Numeric(row: seq<string>, cols: Columns, toNumber: Coercion)
    requires InRange(row, cols)
  {
    toNumber(row[cols.price]).Some? && toNumber(row[cols.weight]).Some?
  }

  /** The steps of the `try` block in source order: read the product, coerce the price,
      coerce the weight, divide. */
  function ParseRow(row: seq<string>, cols: Columns, filename: string, toNumber: Coercion): (r: RowOutcome)
    ensures r.Appended? <==>
      InRange(row, cols) && Numeric(row, cols, toNumber) && toNumber(row[cols.weight]).value != 0.0
    ensures r.ZeroDivision? <==>
      InRange(row, cols) && Numeric(row, cols, toNumber) && toNumber(row[cols.weight]).value == 0.0
    ensures r.Appended? ==>
      && r.rec.product == row[cols.product]
      && r.rec.price == toNumber(row[cols.price]).value
      && r.rec.weight == toNumber(row[cols.weight]).value
      && r.rec.filename == filename
      && WellFormed(r.rec)
    ensures r == Skipped(IndexError) <==>
      || cols.product >= |row|
      || cols.price >= |row|
      || (toNumber(row[cols.price]).Some? && cols.weight >= |row|)
    ensures r == Skipped(ValueError) <==>
      && cols.product < |row| && cols.price < |row|
      && (toNumber(row[cols.price]).None? || (cols.weight < |row| && toNumber(row[cols.weight]).None?))
  {
    if cols.product >= |row| then Skipped(IndexError)
    else
      var product := row[cols.product];
      if cols.price >= |row| then Skipped(IndexError)
      else match toNumber(row[cols.price])
        case None => Skipped(ValueError)
        case Some(price) =>
          if cols.weight >= |row| then Skipped(IndexError)
          else match toNumber(row[cols.weight])
            case None => Skipped(ValueError)
            case Some(weight) =>
              if weight == 0.0 then ZeroDivision
              else Appended(Record(product, price, weight, filename, price / weight))
  }

  /** The row ["Apple", "100", "2"] gives a record with unit price 50. */
  lemma ParseAppleRow(toNumber: Coercion)
    requires toNumber("100") == Some(100.0) && toNumber("2") == Some(2.0)
    ensures ParseRow(["Apple", "100", "2"], Columns(0, 1, 2), "price_1.csv", toNumber)
         == Appended(Record("Apple", 100.0, 2.0, "price_1.csv", 50.0))
  {
  }

  /** Nothing rejects a negative price or weight: the record is stored as computed. */
  lemma ParseNegativeRow(toNumber: Coercion)
    requires toNumber("-100") == Some(-100.0) && toNumber("-2") == Some(-2.0)
    ensures ParseRow(["Apple", "-100", "-2"], Columns(0, 1, 2), "f", toNumber)
         == Appended(Record("Apple", -100.0, -2.0, "f", 50.0))
  {
  }

  /** A weight that coerces to zero aborts rather than skips; a one-cell row is skipped. */
  lemma ParseBadRows(toNumber: Coercion)
    requires toNumber("100") == Some(100.0) && toNumber("0") == Some(0.0) && toNumber("abc") == None
    ensures ParseRow(["Apple", "100", "0"], Columns(0, 1, 2), "f", toNumber) == ZeroDivision
    ensures ParseRow(["Apple", "abc", "2"], Columns(0, 1, 2), "f", toNumber) == Skipped(ValueError)
    ensures ParseRow(["OnlyOneField"], Columns(0, 1, 2), "f", toNumber) == Skipped(IndexError)
  {
  }
}
