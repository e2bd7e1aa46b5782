/** The query state of the `App` component (src/App.jsx) and the handlers that update it. */
module App {
  import opened Values
  import opened Table
  import opened Ordering
  import opened Pipeline
  import opened Paging

  /** The order after a click on the header of `property`: descending exactly when that
      column was already sorted ascending, ascending otherwise (also for a newly chosen
      column). */
  function NextOrder(orderBy: string, order: Direction, property: string): (next: Direction)
    ensures next == Desc <==> orderBy == property && order == Asc
  {
    if orderBy == property && order == Asc then Desc else Asc
  }

  /** Two clicks on the header of the sorted column restore its order. */
  lemma ClickTwiceRestores(property: string, order: Direction)
    ensures NextOrder(property, NextOrder(property, order, property), property) == order
  {
  }

  /** A newly chosen column sorts ascending first and descending on the second click. */
  lemma NewColumnAscendingThenDescending(orderBy: string, order: Direction, property: string)
    requires orderBy != property
    ensures NextOrder(orderBy, order, property) == Asc
    ensures NextOrder(property, NextOrder(orderBy, order, property), property) == Desc
  {
  }

  /** The sort column chosen after loading: the last header's id, or the previous value when
      there are no headers. */
  function DefaultOrderBy(headers: seq<Header>, previous: string): (f: string)
    ensures headers == [] ==> f == previous
    ensures headers != [] ==> f == headers[|headers| - 1].id
  {
    if |headers| > 0 then headers[|headers| - 1].id else previous
  }

  class TableApp {
    var tableData: Option<Dataset>
    var orderBy: string
    var order: Direction
    var searchText: string
    var debouncedSearchText: string
    var page: int

    /** The initial state: no data yet, no sort column, descending, empty search, page 1. */
    constructor()
      ensures tableData == None && orderBy == "" && order == Desc
      ensures searchText == "" && debouncedSearchText == "" && page == 1
    {
      tableData := None;
      orderBy := "";
      order := Desc;
      searchText := "";
      debouncedSearchText := "";
      page := 1;
    }

    /** The data arrived: it is stored, and the sort column becomes the last header. */
    method LoadSucceeded(data: Dataset)
      modifies this
      ensures tableData == Some(data)
      ensures orderBy == DefaultOrderBy(data.headers, old(orderBy))
      ensures order == old(order) && page == old(page)
      ensures searchText == old(searchText) && debouncedSearchText == old(debouncedSearchText)
    {
      tableData := Some(data);
      if |data.headers| > 0 {
        orderBy := data.headers[|data.headers| - 1].id;
      }
    }

    /** Loading failed: the table falls back to a dataset without headers or records. */
    method LoadFailed()
      modifies this
      ensures tableData == Some(EmptyDataset)
      ensures orderBy == old(orderBy) && order == old(order) && page == old(page)
      ensures searchText == old(searchText) && debouncedSearchText == old(debouncedSearchText)
    {
      tableData := Some(EmptyDataset);
    }

    /** Typing in the search box updates only the raw text; the commit comes later. */
    method ChangeSearch(value: string)
      modifies this
      ensures searchText == value
      ensures tableData == old(tableData) && orderBy == old(orderBy) && order == old(order)
      ensures debouncedSearchText == old(debouncedSearchText) && page == old(page)
    {
      searchText := value;
    }

    /** The debounced commit of a search value: it becomes the filter text, back on page 1. */
    method CommitSearch(value: string)
      modifies this
      ensures debouncedSearchText == value && page == 1
      ensures tableData == old(tableData) && orderBy == old(orderBy) && order == old(order)
      ensures searchText == old(searchText)
    {
      debouncedSearchText := value;
      page := 1;
    }

    /** The clear button empties the raw and the committed text at once, back on page 1. */
    method ClearSearch()
      modifies this
      ensures searchText == "" && debouncedSearchText == "" && page == 1
      ensures tableData == old(tableData) && orderBy == old(orderBy) && order == old(order)
    {
      searchText := "";
      debouncedSearchText := "";
      page := 1;
    }

    /** A click on the header of `property`: it becomes the sort column, with the order
      `NextOrder` gives; the page and the search are left as they were. */
    method RequestSort(property: string)
      modifies this
      ensures orderBy == property && order == NextOrder(old(orderBy), old(order), property)
      ensures tableData == old(tableData) && page == old(page)
      ensures searchText == old(searchText) && debouncedSearchText == old(debouncedSearchText)
    {
      var isAsc := orderBy == property && order == Asc;
      order := if isAsc then Desc else Asc;
      orderBy := property;
    }

    /** The pager selected `newPage`. */
    method ChangePage(newPage: int)
      modifies this
      ensures page == newPage
      ensures tableData == old(tableData) && orderBy == old(orderBy) && order == old(order)
      ensures searchText == old(searchText) && debouncedSearchText == old(debouncedSearchText)
    {
      page := newPage;
    }

    /** The rows the current state shows, before paging. */
    function View(): seq<Row>
      reads this
    {
      if tableData.None? then [] else Processed(tableData.value, debouncedSearchText, orderBy, order)
    }

    /** `processedData`: no rows before the data arrives, otherwise the filtered, sorted copy. */
    method ProcessedData() returns (rows: seq<Row>)
      ensures tableData.None? ==> rows == []
      ensures tableData.Some? ==>
        rows == Processed(tableData.value, debouncedSearchText, orderBy, order)
    {
      if tableData.None? {
        rows := [];
      } else {
        rows := ProcessRows(tableData.value, debouncedSearchText, orderBy, order);
      }
    }

    /** `paginatedData`: the current page of the shown rows. */
    method PaginatedData() returns (rows: seq<Row>)
      ensures rows == Paginate(View(), page)
    {
      var all := ProcessedData();
      rows := Paginate(all, page);
    }

    /** `totalPages`. */
    method PageCount() returns (n: nat)
      ensures n == TotalPages(|View()|)
    {
      var all := ProcessedData();
      n := TotalPages(|all|);
    }
  }

  /** Clearing does not cancel a commit still pending from earlier typing: when it fires
      afterwards, the box shows "" while the rows are filtered by the typed text. */
  method StaleCommitAfterClear() returns (shown: string, committed: string)
    ensures shown == "" && committed == "abc"
  {
    var app := new TableApp();
    app.ChangeSearch("abc");
    app.ClearSearch();
    app.CommitSearch("abc");
    shown, committed := app.searchText, app.debouncedSearchText;
  }
}
