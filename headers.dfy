/**
 * Header resolution (`PriceMachine.search_columns`): the positions of the product,
 * price and weight columns in a price list's header row.
 */
module Headers {
  import opened Wrappers
  import opened Text

  /** Aliases of the product-name column. */
  const ProductTitles: seq<string> := ["название", "продукт", "товар", "наименование"]
  /** Aliases of the price column. */
  const PriceTitles: seq<string> := ["цена", "розница"]
  /** Aliases of the weight (pack size) column. */
  const WeightTitles: seq<string> := ["фасовка", "масса", "вес"]

  /** The three columns a price list must have; a Field is also the error naming the
      column whose header was not found (the `next(...)` that raised StopIteration). */
  datatype Field = Product | Price | Weight

  /** Resolved column positions. */
  datatype Columns = Columns(product: nat, price: nat, weight: nat)

  /** Header `h` names a column with one of `titles`: exact, case-insensitive, untrimmed. */
  predicate IsTitle(h: string, titles: seq<string>)
  {
    Lower(h) in titles
  }

  /** Some header names a column with one of `titles`. */
  predicate HasTitle(headers: seq<string>, titles: seq<string>)
  {
    exists i :: 0 <= i < |headers| && IsTitle(headers[i], titles)
  }

  /** `i` is the position of the first header naming a column with one of `titles`. */
  predicate IsFirstTitle(headers: seq<string>, titles: seq<string>, i: int)
  {
    && 0 <= i < |headers|
    && IsTitle(headers[i], titles)
    && forall j :: 0 <= j < i ==> !IsTitle(headers[j], titles)
  }

  /** `next(i for i, h in enumerate(headers) if h.lower() in titles)`, scanning from `from`. */
  function FirstTitle(headers: seq<string>, titles: seq<string>, from: nat): (r: Option<nat>)
    requires from <= |headers|
    requires forall j :: 0 <= j < from ==> !IsTitle(headers[j], titles)
    ensures r.Some? <==> HasTitle(headers, titles)
    ensures r.Some? ==> IsFirstTitle(headers, titles, r.value)
    decreases |headers| - from
  {
    if from == |headers| then None
    else if IsTitle(headers[from], titles) then Some(from)
    else FirstTitle(headers, titles, from + 1)
  }

  /** `search_columns(headers)`: the first matching header for each field, in the order
      product, price, weight; the first field without a matching header is the error. */
  function SearchColumns(headers: seq<string>): (r: Result<Columns, Field>)
    ensures r.Success? <==>
      HasTitle(headers, ProductTitles) && HasTitle(headers, PriceTitles) && HasTitle(headers, WeightTitles)
    ensures r.Success? ==>
      && IsFirstTitle(headers, ProductTitles, r.value.product)
      && IsFirstTitle(headers, PriceTitles, r.value.price)
      && IsFirstTitle(headers, WeightTitles, r.value.weight)
    ensures r == Failure(Product) <==> !HasTitle(headers, ProductTitles)
    ensures r == Failure(Price) <==> HasTitle(headers, ProductTitles) && !HasTitle(headers, PriceTitles)
    ensures r == Failure(Weight) <==>
      HasTitle(headers, ProductTitles) && HasTitle(headers, PriceTitles) && !HasTitle(headers, WeightTitles)
  {
    match FirstTitle(headers, ProductTitles, 0)
    case None => Failure(Product)
    case Some(product) =>
      match FirstTitle(headers, PriceTitles, 0)
      case None => Failure(Price)
      case Some(price) =>
        match FirstTitle(headers, WeightTitles, 0)
        case None => Failure(Weight)
        case Some(weight) => Success(Columns(product, price, weight))
  }

  /** No alias belongs to two fields. */
  lemma AliasListsDisjoint()
    ensures forall t :: t in ProductTitles ==> t !in PriceTitles && t !in WeightTitles
    ensures forall t :: t in PriceTitles ==> t !in WeightTitles
  {
  }

  /** On success the three resolved columns are pairwise distinct. */
  lemma ColumnsDistinct(headers: seq<string>)
    ensures SearchColumns(headers).Success? ==>
      var c := SearchColumns(headers).value;
      c.product != c.price && c.product != c.weight && c.price != c.weight
  {
    AliasListsDisjoint();
  }

  /** Resolution looks only at the lower-case forms of the headers. */
  lemma SearchColumnsIgnoresCase(h1: seq<string>, h2: seq<string>)
    requires |h1| == |h2|
    requires forall i :: 0 <= i < |h1| ==> Lower(h1[i]) == Lower(h2[i])
    ensures SearchColumns(h1) == SearchColumns(h2)
  {
    SameFirstTitle(h1, h2, ProductTitles);
    SameFirstTitle(h1, h2, PriceTitles);
    SameFirstTitle(h1, h2, WeightTitles);
  }

  lemma SameFirstTitle(h1: seq<string>, h2: seq<string>, titles: seq<string>)
    requires |h1| == |h2|
    requires forall i :: 0 <= i < |h1| ==> Lower(h1[i]) == Lower(h2[i])
    ensures FirstTitle(h1, titles, 0) == FirstTitle(h2, titles, 0)
  {
    var r1, r2 := FirstTitle(h1, titles, 0), FirstTitle(h2, titles, 0);
    assert HasTitle(h1, titles) <==> HasTitle(h2, titles) by {
      if HasTitle(h1, titles) {
        var i :| 0 <= i < |h1| && IsTitle(h1[i], titles);
        assert IsTitle(h2[i], titles);
      }
      if HasTitle(h2, titles) {
        var i :| 0 <= i < |h2| && IsTitle(h2[i], titles);
        assert IsTitle(h1[i], titles);
      }
    }
    if r1.Some? {
      assert IsFirstTitle(h2, titles, r1.value);
    }
  }

  /** A header row with differently cased aliases resolves to their positions. */
  lemma ResolveMixedCase()
    ensures SearchColumns(["Наименование", "Розница", "Фасовка"]) == Success(Columns(0, 1, 2))
  {
    var h := ["Наименование", "Розница", "Фасовка"];
    assert Lower(h[0]) == "наименование";
    assert Lower(h[1]) == "розница";
    assert Lower(h[2]) == "фасовка";
  }

  /** Matching is exact: a trailing space makes the product header unrecognised. */
  lemma ResolveNoTrimming()
    ensures SearchColumns(["Товар ", "Цена", "Вес"]) == Failure(Product)
  {
    var h := ["Товар ", "Цена", "Вес"];
    assert |Lower(h[0])| == 6 && |Lower(h[1])| == 4 && |Lower(h[2])| == 3;
  }
}
