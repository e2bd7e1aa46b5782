/** `processedData`: the filtered copy of the records, sorted in place on the selected column. */
module Pipeline {
  import opened Values
  import opened Table
  import opened Search
  import opened Ordering
  import opened StableSort

  /** The rows the table shows, before paging: the filter result, stably sorted by the
      comparator when a sort column is selected. */
  function Processed(data: Dataset, search: string, orderBy: string, order: Direction): seq<Row>
  {
    var filtered := Filter(data, search);
    if orderBy == "" then filtered else InsertionSorted(filtered, Comparator(orderBy, order))
  }

  /** Copies the filter result into a fresh array and sorts that array in place; the dataset
      itself is a value and is left as it was. */
  method ProcessRows(data: Dataset, search: string, orderBy: string, order: Direction) returns (rows: seq<Row>)
    ensures rows == Processed(data, search, orderBy, order)
  {
    var filtered := Filter(data, search);
    var a := new Row[|filtered|](i requires 0 <= i < |filtered| => filtered[i]);
    assert a[..] == filtered;
    if orderBy != "" {
      InsertionSort(a, Comparator(orderBy, order));
    }
    rows := a[..];
  }

  /** Sorting neither adds nor drops rows. */
  lemma ProcessedPermutes(data: Dataset, search: string, orderBy: string, order: Direction)
    ensures multiset(Processed(data, search, orderBy, order)) == multiset(Filter(data, search))
  {
    if orderBy != "" {
      InsertionSortedPermutes(Filter(data, search), Comparator(orderBy, order));
    }
  }

  /** A row is shown exactly when it is a record that passes the search. */
  lemma ProcessedMembership(data: Dataset, search: string, orderBy: string, order: Direction, r: Row)
    ensures r in Processed(data, search, orderBy, order) <==>
      r in data.data && (search == "" || RowMatches(r, data.headers, search))
  {
    ProcessedPermutes(data, search, orderBy, order);
    FilterMembership(data, search, r);
    assert r in Processed(data, search, orderBy, order) <==> r in multiset(Processed(data, search, orderBy, order));
  }

  /** Without a sort column the rows keep the order of the records. */
  lemma UnsortedKeepsOrder(data: Dataset, search: string, order: Direction)
    ensures Processed(data, search, "", order) == Filter(data, search)
  {
  }

  /** When the comparator is consistent on the filtered rows (a total preorder on them), the
      rows are sorted and rows that compare equal keep their relative order. */
  lemma ProcessedSortedStable(data: Dataset, search: string, orderBy: string, order: Direction)
    requires orderBy != "" && TotalPreorder(Filter(data, search), Comparator(orderBy, order))
    ensures SortedBy(Processed(data, search, orderBy, order), Comparator(orderBy, order))
    ensures Stable(Filter(data, search), Processed(data, search, orderBy, order), Comparator(orderBy, order))
  {
    var filtered := Filter(data, search);
    var cmp := Comparator(orderBy, order);
    assert Within(filtered, filtered);
    InsertionSortedIsSorted(filtered, cmp, filtered);
    InsertionSortedIsStable(filtered, cmp, filtered);
  }

  /** A column whose cells all take the same branch of the comparator is such a case. */
  lemma UniformColumnSortedStable(data: Dataset, search: string, orderBy: string, order: Direction)
    requires orderBy != "" && UniformColumn(Filter(data, search), orderBy)
    ensures SortedBy(Processed(data, search, orderBy, order), Comparator(orderBy, order))
    ensures Stable(Filter(data, search), Processed(data, search, orderBy, order), Comparator(orderBy, order))
  {
    CompareTotalPreorder(Filter(data, search), orderBy, order);
    ProcessedSortedStable(data, search, orderBy, order);
  }

  /** With a consistent comparator any stable sort, whatever its algorithm, yields exactly
      these rows. */
  lemma AnyStableSortAgrees(data: Dataset, search: string, orderBy: string, order: Direction, t: seq<Row>)
    requires orderBy != "" && TotalPreorder(Filter(data, search), Comparator(orderBy, order))
    requires multiset(t) == multiset(Filter(data, search))
    requires SortedBy(t, Comparator(orderBy, order))
    requires Stable(Filter(data, search), t, Comparator(orderBy, order))
    ensures t == Processed(data, search, orderBy, order)
  {
    var filtered := Filter(data, search);
    assert Within(filtered, filtered);
    StableSortIsUnique(filtered, t, Comparator(orderBy, order), filtered);
  }
}
