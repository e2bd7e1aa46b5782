/** Paging of the processed rows (src/App.jsx, `paginatedData` and `totalPages`). */
module Paging {

  /** Rows on one page. */
  const RowsPerPage: nat := 100

  function Min(a: int, b: int): int { if a <= b then a else b }
  function Max(a: int, b: int): int { if a >= b then a else b }

  /** Where `Array.prototype.slice` starts or stops for the argument `k` on a sequence of
      length `n`: a negative argument counts from the end, and the result is clamped to
      `0..n`. */
  function SliceBound(k: int, n: nat): (b: nat)
    ensures b <= n
    ensures 0 <= k ==> b == Min(k, n)
    ensures k < 0 ==> b == Max(n + k, 0)
  {
    if k < 0 then (if n + k < 0 then 0 else n + k) else if k < n then k else n
  }

  /** `s.slice(start, end)`. */
  function JsSlice<T>(s: seq<T>, start: int, end: int): seq<T>
  {
    var from, to := SliceBound(start, |s|), SliceBound(end, |s|);
    if from < to then s[from..to] else []
  }

  /** `processedData.slice((page - 1) * 100, (page - 1) * 100 + 100)`. */
  function Paginate<T>(rows: seq<T>, page: int): seq<T>
  {
    var start := (page - 1) * RowsPerPage;
    JsSlice(rows, start, start + RowsPerPage)
  }

  /** `Math.ceil(n / 100)`: the least number of pages that hold `n` rows. */
  function TotalPages(n: nat): (r: nat)
    ensures r * RowsPerPage >= n
    ensures r == 0 || (r - 1) * RowsPerPage < n
  {
    (n + RowsPerPage - 1) / RowsPerPage
  }

  /** Page `p`, counted from 1, holds the rows at positions `(p - 1) * 100` up to, not
      including, `min(p * 100, n)`. */
  lemma PageContents<T>(rows: seq<T>, p: int)
    requires p >= 1
    ensures Paginate(rows, p) ==
      rows[Min((p - 1) * RowsPerPage, |rows|)..Min(p * RowsPerPage, |rows|)]
  {
  }

  /** No page holds more than 100 rows. */
  lemma PageSize<T>(rows: seq<T>, p: int)
    ensures |Paginate(rows, p)| <= RowsPerPage
  {
  }

  /** Page `p >= 1` has rows exactly when it is one of the `TotalPages` pages; a page beyond the
      range is empty. */
  lemma PageNonEmptyIff<T>(rows: seq<T>, p: int)
    requires p >= 1
    ensures Paginate(rows, p) != [] <==> p <= TotalPages(|rows|)
  {
    PageContents(rows, p);
    var t := TotalPages(|rows|);
    if p <= t {
      assert (p - 1) * RowsPerPage <= (t - 1) * RowsPerPage;
    } else {
      assert (p - 1) * RowsPerPage >= t * RowsPerPage;
    }
  }

  /** Every page but the last of the range is full. */
  lemma FullPages<T>(rows: seq<T>, p: int)
    requires 1 <= p < TotalPages(|rows|)
    ensures |Paginate(rows, p)| == RowsPerPage
  {
    var t := TotalPages(|rows|);
    assert p * RowsPerPage <= (t - 1) * RowsPerPage;
  }

  /** Page 0, which the pager never produces, is empty. */
  lemma PageZeroEmpty<T>(rows: seq<T>)
    ensures Paginate(rows, 0) == []
  {
  }

  /** A negative page, which the pager never produces, counts its bounds from the end of the
      rows, as `slice` does with negative arguments. */
  lemma NegativePage<T>(rows: seq<T>, p: int)
    requires p < 0
    ensures Paginate(rows, p) ==
      rows[Max(|rows| + (p - 1) * RowsPerPage, 0)..Max(|rows| + p * RowsPerPage, 0)]
  {
  }

  lemma TotalPagesExamples()
    ensures TotalPages(0) == 0 && TotalPages(1) == 1 && TotalPages(100) == 1
    ensures TotalPages(101) == 2 && TotalPages(250) == 3
  {
  }

  /** Pages `1..k` one after the other. */
  function PagesUpTo<T>(rows: seq<T>, k: nat): seq<T>
  {
    if k == 0 then [] else PagesUpTo(rows, k - 1) + Paginate(rows, k)
  }

  lemma {:induction false} PagesUpToPrefix<T>(rows: seq<T>, k: nat)
    ensures PagesUpTo(rows, k) == rows[..Min(k * RowsPerPage, |rows|)]
  {
    if k > 0 {
      PagesUpToPrefix(rows, k - 1);
      PageContents(rows, k);
      var a, b := Min((k - 1) * RowsPerPage, |rows|), Min(k * RowsPerPage, |rows|);
      assert rows[..b] == rows[..a] + rows[a..b];
    }
  }

  /** The pages `1..TotalPages`, read one after the other, are exactly the rows. */
  lemma PagesCoverRows<T>(rows: seq<T>)
    ensures PagesUpTo(rows, TotalPages(|rows|)) == rows
  {
    PagesUpToPrefix(rows, TotalPages(|rows|));
  }
}
