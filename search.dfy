/**
 * Search (`PriceMachine.find_text`): the records whose product name contains the query,
 * ignoring case, ordered by unit price with equal unit prices in catalog order.
 */
module Search {
  import opened Text
  import opened Rows

  /** `text.lower() in item['product'].lower()` */
  predicate Matches(rec: Record, text: string)
    ensures Matches(rec, text) <==> exists i :: OccursAt(Lower(rec.product), Lower(text), i)
    ensures Matches(rec, text) ==> |text| <= |rec.product|
    ensures text == "" ==> Matches(rec, text)
  {
    ContainsIff(Lower(rec.product), Lower(text));
    EmptyContained(Lower(rec.product));
    Contains(Lower(rec.product), Lower(text))
  }

  /** The list comprehension: the matching records, in catalog order. */
  function Matching(data: seq<Record>, text: string): (r: seq<Record>)
    ensures |r| <= |data|
    ensures forall i :: 0 <= i < |r| ==> Matches(r[i], text)
  {
    if data == [] then []
    else (if Matches(data[0], text) then [data[0]] else []) + Matching(data[1..], text)
  }

  /** The comprehension keeps every matching record as often as the catalog holds it, and
      nothing else. */
  lemma {:induction false} MatchingCounts(data: seq<Record>, text: string)
    ensures forall x :: multiset(Matching(data, text))[x] == if Matches(x, text) then multiset(data)[x] else 0
  {
    if data != [] {
      MatchingCounts(data[1..], text);
      assert data == [data[0]] + data[1..];
    }
  }

  /** Non-decreasing in unit price. */
  predicate SortedByKey(s: seq<Record>)
  {
    forall i, j :: 0 <= i < j < |s| ==> s[i].pricePerKg <= s[j].pricePerKg
  }

  /** The records of `s` whose unit price is `k`, in their order in `s`. */
  function WithKey(s: seq<Record>, k: real): seq<Record>
  {
    if s == [] then []
    else (if s[0].pricePerKg == k then [s[0]] else []) + WithKey(s[1..], k)
  }

  /** Inserts `x` before the first record whose unit price is at least its own. */
  function Insert(x: Record, s: seq<Record>): (r: seq<Record>)
    ensures multiset(r) == multiset(s) + multiset{x}
    ensures r[0] == x || (s != [] && r[0] == s[0])
  {
    if s == [] || x.pricePerKg <= s[0].pricePerKg then [x] + s
    else
      assert s == [s[0]] + s[1..];
      [s[0]] + Insert(x, s[1..])
  }

  /** Insertion into a sorted sequence keeps it sorted. */
  lemma {:induction false} InsertSorted(x: Record, s: seq<Record>)
    requires SortedByKey(s)
    ensures SortedByKey(Insert(x, s))
  {
    if s != [] && x.pricePerKg > s[0].pricePerKg {
      var rest := Insert(x, s[1..]);
      InsertSorted(x, s[1..]);
      assert s[0].pricePerKg <= rest[0].pricePerKg;
      var r := [s[0]] + rest;
      forall i, j | 0 <= i < j < |r|
        ensures r[i].pricePerKg <= r[j].pricePerKg
      {
        if i > 0 {
          assert r[i] == rest[i - 1] && r[j] == rest[j - 1];
        } else {
          assert r[j] == rest[j - 1];
          assert rest[0].pricePerKg <= rest[j - 1].pricePerKg;
        }
      }
    }
  }

  /** The inserted record comes first among the records of its unit price. */
  lemma {:induction false} InsertWithKey(x: Record, s: seq<Record>, k: real)
    ensures WithKey(Insert(x, s), k) == (if x.pricePerKg == k then [x] else []) + WithKey(s, k)
  {
    var hx := if x.pricePerKg == k then [x] else [];
    if s == [] || x.pricePerKg <= s[0].pricePerKg {
      calc {
        WithKey(Insert(x, s), k);
        WithKey([x] + s, k);
        { assert ([x] + s)[1..] == s; }
        hx + WithKey(s, k);
      }
    } else {
      var rest := Insert(x, s[1..]);
      var h0 := if s[0].pricePerKg == k then [s[0]] else [];
      assert x.pricePerKg == k ==> h0 == [];
      calc {
        WithKey(Insert(x, s), k);
        WithKey([s[0]] + rest, k);
        { assert ([s[0]] + rest)[1..] == rest; }
        h0 + WithKey(rest, k);
        { InsertWithKey(x, s[1..], k); }
        h0 + (hx + WithKey(s[1..], k));
        hx + (h0 + WithKey(s[1..], k));
        hx + WithKey(s, k);
      }
    }
  }

  /** `sorted(results, key=lambda x: x['price_per_kg'])`: a stable sort by unit price. */
  function SortByKey(s: seq<Record>): (r: seq<Record>)
    ensures SortedByKey(r)
    ensures multiset(r) == multiset(s)
    ensures forall k :: WithKey(r, k) == WithKey(s, k)
  {
    if s == [] then []
    else
      var rest := SortByKey(s[1..]);
      assert s == [s[0]] + s[1..];
      InsertSorted(s[0], rest);
      assert forall k :: WithKey(Insert(s[0], rest), k) == WithKey(s, k) by {
        forall k ensures WithKey(Insert(s[0], rest), k) == WithKey(s, k) {
          InsertWithKey(s[0], rest, k);
        }
      }
      Insert(s[0], rest)
  }

  /** `find_text(text)` over the catalog `data`. */
  function Find(data: seq<Record>, text: string): (r: seq<Record>)
    ensures SortedByKey(r)
    ensures forall x :: multiset(r)[x] == if Matches(x, text) then multiset(data)[x] else 0
    ensures forall k :: WithKey(r, k) == Matching(WithKey(data, k), text)
  {
    MatchingCounts(data, text);
    MatchingWithKeyCommute(data, text);
    SortByKey(Matching(data, text))
  }

  /** Selecting by unit price and selecting by query commute. */
  lemma {:induction false} MatchingWithKeyCommute(data: seq<Record>, text: string)
    ensures forall k :: WithKey(Matching(data, text), k) == Matching(WithKey(data, k), text)
  {
    forall k
      ensures WithKey(Matching(data, text), k) == Matching(WithKey(data, k), text)
    {
      CommuteAt(data, text, k);
    }
  }

  lemma {:induction false} CommuteAt(data: seq<Record>, text: string, k: real)
    ensures WithKey(Matching(data, text), k) == Matching(WithKey(data, k), text)
  {
    if data != [] {
      CommuteAt(data[1..], text, k);
      var d := data[0];
      var head := if Matches(d, text) then [d] else [];
      WithKeyAppend(head, Matching(data[1..], text), k);
      MatchingAppend(if d.pricePerKg == k then [d] else [], WithKey(data[1..], k), text);
    }
  }

  lemma {:induction false} WithKeyAppend(a: seq<Record>, b: seq<Record>, k: real)
    ensures WithKey(a + b, k) == WithKey(a, k) + WithKey(b, k)
  {
    if a != [] {
      assert (a + b)[1..] == a[1..] + b;
      WithKeyAppend(a[1..], b, k);
    } else {
      assert a + b == b;
    }
  }

  lemma {:induction false} MatchingAppend(a: seq<Record>, b: seq<Record>, text: string)
    ensures Matching(a + b, text) == Matching(a, text) + Matching(b, text)
  {
    if a != [] {
      var h := if Matches(a[0], text) then [a[0]] else [];
      calc {
        Matching(a + b, text);
        { assert (a + b)[1..] == a[1..] + b; assert (a + b)[0] == a[0]; }
        h + Matching(a[1..] + b, text);
        { MatchingAppend(a[1..], b, text); }
        h + (Matching(a[1..], text) + Matching(b, text));
        (h + Matching(a[1..], text)) + Matching(b, text);
      }
    } else {
      assert a + b == b;
    }
  }

  /** A sorted arrangement that keeps each unit-price class in the given order is unique:
      any stable sort (Python's included) gives the same result as SortByKey. */
  lemma {:induction false} SortedStableUnique(r1: seq<Record>, r2: seq<Record>)
    requires SortedByKey(r1) && SortedByKey(r2)
    requires forall k :: WithKey(r1, k) == WithKey(r2, k)
    ensures r1 == r2
    decreases |r1|
  {
    if r1 == [] || r2 == [] {
      if r1 != [] {
        WithKeyOfHead(r1);
        assert false;
      } else if r2 != [] {
        WithKeyOfHead(r2);
        assert false;
      }
    } else {
      var m1, m2 := r1[0].pricePerKg, r2[0].pricePerKg;
      WithKeyBelowHead(r2, m1);
      WithKeyBelowHead(r1, m2);
      assert m1 == m2;
      assert WithKey(r1, m1) == [r1[0]] + WithKey(r1[1..], m1);
      assert WithKey(r2, m1) == [r2[0]] + WithKey(r2[1..], m1);
      assert WithKey(r1, m1)[0] == r1[0] && WithKey(r2, m1)[0] == r2[0];
      forall k
        ensures WithKey(r1[1..], k) == WithKey(r2[1..], k)
      {
        var h := if m1 == k then [r1[0]] else [];
        assert WithKey(r1, k) == h + WithKey(r1[1..], k);
        assert WithKey(r2, k) == h + WithKey(r2[1..], k);
        assert WithKey(r1[1..], k) == WithKey(r1, k)[|h|..];
        assert WithKey(r2[1..], k) == WithKey(r2, k)[|h|..];
      }
      SortedStableUnique(r1[1..], r2[1..]);
      assert r1 == [r1[0]] + r1[1..];
      assert r2 == [r2[0]] + r2[1..];
    }
  }

  lemma WithKeyOfHead(s: seq<Record>)
    requires s != []
    ensures WithKey(s, s[0].pricePerKg) != []
  {
    assert WithKey(s, s[0].pricePerKg)[0] == s[0];
  }

  /** In a sorted sequence no unit price present is below the first one. */
  lemma {:induction false} WithKeyBelowHead(s: seq<Record>, k: real)
    requires SortedByKey(s) && s != []
    requires WithKey(s, k) != []
    ensures s[0].pricePerKg <= k
    decreases |s|
  {
    if s[0].pricePerKg != k {
      assert WithKey(s[1..], k) != [];
      assert s[1..] != [];
      WithKeyBelowHead(s[1..], k);
    }
  }

  /** Every arrangement Python's `sorted` may return is Find's: sorted by unit price and
      stable with respect to the matching records in catalog order. */
  lemma FindIsTheStableSort(data: seq<Record>, text: string, r: seq<Record>)
    requires SortedByKey(r)
    requires forall k :: WithKey(r, k) == WithKey(Matching(data, text), k)
    ensures r == Find(data, text)
  {
    var f := Find(data, text);
    MatchingWithKeyCommute(data, text);
    SortedStableUnique(r, f);
  }

  /** An empty query matches every record: the result is the whole catalog, reordered. */
  lemma FindEmptyQuery(data: seq<Record>)
    ensures multiset(Find(data, "")) == multiset(data)
    ensures |Find(data, "")| == |data|
  {
    var r := Find(data, "");
    forall x
      ensures multiset(r)[x] == multiset(data)[x]
    {
      assert Lower("") == "";
      EmptyContained(Lower(x.product));
    }
    assert multiset(r) == multiset(data);
    assert |multiset(r)| == |r| && |multiset(data)| == |data|;
  }

  /** The query's case does not matter: "apple" and "APPLE" find the same records. */
  lemma FindIgnoresCase(data: seq<Record>, t1: string, t2: string)
    requires Lower(t1) == Lower(t2)
    ensures Find(data, t1) == Find(data, t2)
  {
    MatchingSameLower(data, t1, t2);
  }

  lemma {:induction false} MatchingSameLower(data: seq<Record>, t1: string, t2: string)
    requires Lower(t1) == Lower(t2)
    ensures Matching(data, t1) == Matching(data, t2)
  {
    if data != [] {
      MatchingSameLower(data[1..], t1, t2);
    }
  }

  /** A query and its lower-case form find the same records. */
  lemma FindLowerQuery(data: seq<Record>, text: string)
    ensures Find(data, Lower(text)) == Find(data, text)
  {
    LowerIdempotent(text);
    FindIgnoresCase(data, Lower(text), text);
  }
}
