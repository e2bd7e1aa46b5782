/** The free-text filter of the table (src/App.jsx, the `filter` step of `processedData`). */
module Search {
  import opened Values
  import opened Table

  /** One field matches when its cell, coerced by `String(v || '')` and lower-cased, contains
      the lower-cased query. */
  predicate FieldMatches(row: Row, field: string, query: string)
  {
    Contains(ToLower(SearchText(Get(row, field))), ToLower(query))
  }

  /** `fields.some(field => ...)`, trying the fields from the first one on. */
  function AnyFieldMatches(row: Row, fields: seq<string>, query: string): bool
  {
    if fields == [] then false
    else FieldMatches(row, fields[0], query) || AnyFieldMatches(row, fields[1..], query)
  }

  /** The rows of `rows` that some field matches, in their order in `rows`. */
  function FilterRows(rows: seq<Row>, fields: seq<string>, query: string): seq<Row>
  {
    if rows == [] then []
    else
      var last := rows[|rows| - 1];
      FilterRows(rows[..|rows| - 1], fields, query) + (if AnyFieldMatches(last, fields, query) then [last] else [])
  }

  /** The row passes the search on the dataset's columns. */
  predicate RowMatches(row: Row, headers: seq<Header>, search: string)
  {
    AnyFieldMatches(row, HeaderIds(headers), search)
  }

  /** The filtered copy of the records: all of them when the committed search text is empty,
      otherwise those that some column matches. */
  function Filter(data: Dataset, search: string): seq<Row>
  {
    if search == "" then data.data else FilterRows(data.data, HeaderIds(data.headers), search)
  }

  /** The positions of the rows `FilterRows` keeps. */
  function KeptIndices(rows: seq<Row>, fields: seq<string>, query: string): seq<nat>
  {
    if rows == [] then []
    else
      var n := |rows| - 1;
      KeptIndices(rows[..n], fields, query) + (if AnyFieldMatches(rows[n], fields, query) then [n] else [])
  }

  /** `0, 1, ..., n - 1`. */
  function Positions(n: nat): (r: seq<nat>)
    ensures |r| == n
    ensures forall i :: 0 <= i < n ==> r[i] == i && i in r
  {
    if n == 0 then [] else Positions(n - 1) + [n - 1]
  }

  /** The positions of the rows `Filter` keeps. */
  function Kept(data: Dataset, search: string): seq<nat>
  {
    if search == "" then Positions(|data.data|)
    else KeptIndices(data.data, HeaderIds(data.headers), search)
  }

  /** The positions `FilterRows` keeps are in range. */
  lemma {:induction false} KeptIndicesBelow(rows: seq<Row>, fields: seq<string>, query: string)
    ensures forall k :: 0 <= k < |KeptIndices(rows, fields, query)| ==> KeptIndices(rows, fields, query)[k] < |rows|
  {
    if rows != [] {
      KeptIndicesBelow(rows[..|rows| - 1], fields, query);
    }
  }

  /** The positions `FilterRows` keeps are increasing. */
  lemma {:induction false} KeptIndicesIncreasing(rows: seq<Row>, fields: seq<string>, query: string)
    ensures forall k, l :: 0 <= k < l < |KeptIndices(rows, fields, query)| ==>
      KeptIndices(rows, fields, query)[k] < KeptIndices(rows, fields, query)[l]
  {
    if rows != [] {
      var n := |rows| - 1;
      KeptIndicesIncreasing(rows[..n], fields, query);
      KeptIndicesBelow(rows[..n], fields, query);
    }
  }

  /** Position `i` is kept exactly when its row matches. */
  lemma {:induction false} KeptIndexMembership(rows: seq<Row>, fields: seq<string>, query: string, i: nat)
    requires i < |rows|
    ensures i in KeptIndices(rows, fields, query) <==> AnyFieldMatches(rows[i], fields, query)
  {
    var n := |rows| - 1;
    var init := KeptIndices(rows[..n], fields, query);
    var tail: seq<nat> := if AnyFieldMatches(rows[n], fields, query) then [n] else [];
    assert KeptIndices(rows, fields, query) == init + tail;
    if i == n {
      KeptIndicesBelow(rows[..n], fields, query);
      assert n !in init by {
        forall k | 0 <= k < |init|
          ensures init[k] != n
        {
        }
      }
    } else {
      KeptIndexMembership(rows[..n], fields, query, i);
      assert rows[..n][i] == rows[i];
      assert i !in tail;
    }
  }

  /** A position is kept exactly when its row matches. */
  lemma KeptIndicesMembership(rows: seq<Row>, fields: seq<string>, query: string)
    ensures forall i :: 0 <= i < |rows| ==>
      (i in KeptIndices(rows, fields, query) <==> AnyFieldMatches(rows[i], fields, query))
  {
    forall i | 0 <= i < |rows|
      ensures i in KeptIndices(rows, fields, query) <==> AnyFieldMatches(rows[i], fields, query)
    {
      KeptIndexMembership(rows, fields, query, i);
    }
  }

  /** All positions when the search text is empty; otherwise exactly the positions of the rows
      some column matches, in increasing order. */
  lemma KeptSpec(data: Dataset, search: string)
    ensures forall k :: 0 <= k < |Kept(data, search)| ==> Kept(data, search)[k] < |data.data|
    ensures forall k, l :: 0 <= k < l < |Kept(data, search)| ==> Kept(data, search)[k] < Kept(data, search)[l]
    ensures forall i :: 0 <= i < |data.data| ==>
      (i in Kept(data, search) <==> search == "" || RowMatches(data.data[i], data.headers, search))
  {
    if search != "" {
      KeptIndicesBelow(data.data, HeaderIds(data.headers), search);
      KeptIndicesIncreasing(data.data, HeaderIds(data.headers), search);
      KeptIndicesMembership(data.data, HeaderIds(data.headers), search);
    }
  }

  /** `some` holds exactly when one of the fields matches. */
  lemma {:induction false} AnyFieldMatchesIff(row: Row, fields: seq<string>, query: string)
    ensures AnyFieldMatches(row, fields, query) <==>
      exists i :: 0 <= i < |fields| && FieldMatches(row, fields[i], query)
  {
    if fields != [] {
      AnyFieldMatchesIff(row, fields[1..], query);
      if AnyFieldMatches(row, fields[1..], query) {
        var i :| 0 <= i < |fields| - 1 && FieldMatches(row, fields[1..][i], query);
        assert FieldMatches(row, fields[i + 1], query);
      }
      if exists i :: 0 <= i < |fields| && FieldMatches(row, fields[i], query) {
        var i :| 0 <= i < |fields| && FieldMatches(row, fields[i], query);
        if i > 0 {
          assert fields[1..][i - 1] == fields[i];
        }
      }
    }
  }

  lemma {:induction false} FilterRowsAtKept(rows: seq<Row>, fields: seq<string>, query: string)
    ensures |FilterRows(rows, fields, query)| == |KeptIndices(rows, fields, query)|
    ensures forall k :: 0 <= k < |KeptIndices(rows, fields, query)| ==>
      KeptIndices(rows, fields, query)[k] < |rows| &&
      FilterRows(rows, fields, query)[k] == rows[KeptIndices(rows, fields, query)[k]]
  {
    if rows != [] {
      var n := |rows| - 1;
      FilterRowsAtKept(rows[..n], fields, query);
    }
  }

  /** The filter keeps a subsequence of the records: the rows at the increasing positions
      `Kept`, which are all positions when the search text is empty and otherwise exactly the
      positions of the rows some column matches. */
  lemma FilterIsSubsequence(data: Dataset, search: string)
    ensures |Filter(data, search)| == |Kept(data, search)|
    ensures forall k :: 0 <= k < |Kept(data, search)| ==>
      Kept(data, search)[k] < |data.data| && Filter(data, search)[k] == data.data[Kept(data, search)[k]]
  {
    if search != "" {
      FilterRowsAtKept(data.data, HeaderIds(data.headers), search);
    }
  }

  /** With an empty search text the filter is the identity. */
  lemma FilterEmptySearch(data: Dataset)
    ensures Filter(data, "") == data.data
  {
  }

  lemma {:induction false} FilterRowsMembership(rows: seq<Row>, fields: seq<string>, query: string, r: Row)
    ensures r in FilterRows(rows, fields, query) <==> r in rows && AnyFieldMatches(r, fields, query)
  {
    if rows != [] {
      FilterRowsMembership(rows[..|rows| - 1], fields, query, r);
      assert rows == rows[..|rows| - 1] + [rows[|rows| - 1]];
    }
  }

  /** A row is in the result exactly when it is a record and passes the search. */
  lemma FilterMembership(data: Dataset, search: string, r: Row)
    ensures r in Filter(data, search) <==>
      r in data.data && (search == "" || RowMatches(r, data.headers, search))
  {
    if search != "" {
      FilterRowsMembership(data.data, HeaderIds(data.headers), search, r);
    }
  }

  lemma {:induction false} FilterRowsSubMultiset(rows: seq<Row>, fields: seq<string>, query: string)
    ensures multiset(FilterRows(rows, fields, query)) <= multiset(rows)
  {
    if rows != [] {
      var n := |rows| - 1;
      FilterRowsSubMultiset(rows[..n], fields, query);
      assert rows == rows[..n] + [rows[n]];
      assert multiset(rows) == multiset(rows[..n]) + multiset{rows[n]};
    }
  }

  /** The filter drops records but never duplicates one. */
  lemma FilterSubMultiset(data: Dataset, search: string)
    ensures multiset(Filter(data, search)) <= multiset(data.data)
  {
    if search != "" {
      FilterRowsSubMultiset(data.data, HeaderIds(data.headers), search);
    }
  }

  /** Keeping only rows that pass a stronger test after a weaker one is the stronger filter. */
  lemma {:induction false} FilterRowsNarrow(rows: seq<Row>, fields: seq<string>, weak: string, strong: string)
    requires forall r :: r in rows && AnyFieldMatches(r, fields, strong) ==> AnyFieldMatches(r, fields, weak)
    ensures FilterRows(FilterRows(rows, fields, weak), fields, strong) == FilterRows(rows, fields, strong)
  {
    if rows != [] {
      var n := |rows| - 1;
      assert forall r :: r in rows[..n] ==> r in rows;
      FilterRowsNarrow(rows[..n], fields, weak, strong);
      var kept := FilterRows(rows[..n], fields, weak);
      assert rows[n] in rows;
      if AnyFieldMatches(rows[n], fields, weak) {
        var both := kept + [rows[n]];
        assert FilterRows(rows, fields, weak) == both;
        assert both[..|kept|] == kept && both[|both| - 1] == rows[n];
        assert FilterRows(both, fields, strong) ==
          FilterRows(kept, fields, strong) + (if AnyFieldMatches(rows[n], fields, strong) then [rows[n]] else []);
      } else {
        assert FilterRows(rows, fields, weak) == kept;
        assert !AnyFieldMatches(rows[n], fields, strong);
      }
    }
  }

  lemma {:induction false} ContainsTransitive(hay: string, mid: string, needle: string)
    requires Contains(hay, mid) && Contains(mid, needle)
    ensures Contains(hay, needle)
  {
    ContainsIffOccurs(hay, mid);
    ContainsIffOccurs(mid, needle);
    var k :| OccursAt(hay, mid, k);
    var j :| OccursAt(mid, needle, j);
    forall t | 0 <= t < |needle|
      ensures hay[k + j..k + j + |needle|][t] == needle[t]
    {
      assert hay[k + j + t] == hay[k..k + |mid|][j + t] == mid[j..j + |needle|][t];
    }
    assert OccursAt(hay, needle, k + j);
    ContainsIffOccurs(hay, needle);
  }

  lemma {:induction false} AnyFieldMatchesNarrow(row: Row, fields: seq<string>, weak: string, strong: string)
    requires Contains(ToLower(strong), ToLower(weak))
    requires AnyFieldMatches(row, fields, strong)
    ensures AnyFieldMatches(row, fields, weak)
  {
    if FieldMatches(row, fields[0], strong) {
      ContainsTransitive(ToLower(SearchText(Get(row, fields[0]))), ToLower(strong), ToLower(weak));
    } else {
      AnyFieldMatchesNarrow(row, fields[1..], weak, strong);
    }
  }

  /** Refining the search (typing more text around what was already typed) only removes rows:
      filtering the previous result by the new text gives the same rows as filtering all
      records by it. */
  lemma NarrowingSearch(data: Dataset, weak: string, strong: string)
    requires Contains(ToLower(strong), ToLower(weak))
    ensures Filter(Dataset(data.headers, Filter(data, weak)), strong) == Filter(data, strong)
  {
    var fields := HeaderIds(data.headers);
    if weak != "" && strong != "" {
      forall r | r in data.data && AnyFieldMatches(r, fields, strong)
        ensures AnyFieldMatches(r, fields, weak)
      {
        AnyFieldMatchesNarrow(r, fields, weak, strong);
      }
      FilterRowsNarrow(data.data, fields, weak, strong);
    } else if strong == "" {
      assert |ToLower(weak)| == 0;
    }
  }

  /** Filtering twice by the same text is filtering once. */
  lemma FilterIdempotent(data: Dataset, search: string)
    ensures Filter(Dataset(data.headers, Filter(data, search)), search) == Filter(data, search)
  {
    ContainsIffOccurs(ToLower(search), ToLower(search));
    assert OccursAt(ToLower(search), ToLower(search), 0);
    NarrowingSearch(data, search, search);
  }

  lemma {:induction false} AnyFieldMatchesLower(row: Row, fields: seq<string>, query: string)
    ensures AnyFieldMatches(row, fields, ToLower(query)) == AnyFieldMatches(row, fields, query)
  {
    ToLowerIdempotent(query);
    if fields != [] {
      AnyFieldMatchesLower(row, fields[1..], query);
    }
  }

  lemma {:induction false} FilterRowsLower(rows: seq<Row>, fields: seq<string>, query: string)
    ensures FilterRows(rows, fields, ToLower(query)) == FilterRows(rows, fields, query)
  {
    if rows != [] {
      FilterRowsLower(rows[..|rows| - 1], fields, query);
      AnyFieldMatchesLower(rows[|rows| - 1], fields, query);
    }
  }

  /** The search ignores the case of the query. */
  lemma FilterIgnoresCase(data: Dataset, search: string)
    ensures Filter(data, ToLower(search)) == Filter(data, search)
  {
    if search != "" {
      FilterRowsLower(data.data, HeaderIds(data.headers), search);
    }
  }

  /** A cell that is not falsy is found by its own text, whatever its case. */
  lemma CellFoundByOwnText(row: Row, field: string)
    requires !Falsy(Get(row, field))
    ensures FieldMatches(row, field, SearchText(Get(row, field)))
  {
    var t := ToLower(SearchText(Get(row, field)));
    assert t[0..|t|] == t;
    assert OccursAt(t, t, 0);
    ContainsIffOccurs(t, t);
  }

  /** Falsy cells never match a non-empty query: a 0 is searched as the empty text, not as "0". */
  lemma FalsyNeverMatches(row: Row, field: string, query: string)
    requires Falsy(Get(row, field)) && query != ""
    ensures !FieldMatches(row, field, query)
  {
  }
}
