/** Client-side page slicing (`paginationUsers`) with JavaScript `slice` clamping. */
module Pagination {

  /** Rows per page of the table. */
  const PageSize := 10

  /** How `Array.prototype.slice` resolves an index: a negative index counts
      from the end, and the result is clamped to `0 .. len`. */
  function ClampIndex(i: int, len: nat): (r: nat)
    ensures r <= len
    ensures 0 <= i <= len ==> r == i
    ensures i > len ==> r == len
    ensures i < 0 ==> r == if len + i < 0 then 0 else len + i
  {
    if i < 0 then (if len + i < 0 then 0 else len + i)
    else if i > len then len
    else i
  }

  /** `s.slice(start, end)`. */
  function JsSlice<T>(s: seq<T>, start: int, end: int): (r: seq<T>)
    ensures |r| == if ClampIndex(start, |s|) < ClampIndex(end, |s|)
                   then ClampIndex(end, |s|) - ClampIndex(start, |s|) else 0
    ensures forall i :: 0 <= i < |r| ==> r[i] == s[ClampIndex(start, |s|) + i]
  {
    var lo, hi := ClampIndex(start, |s|), ClampIndex(end, |s|);
    if lo < hi then s[lo..hi] else []
  }

  /** `filteredUsers.slice((page - 1) * 10, (page - 1) * 10 + 10)`. */
  function PageSlice<T>(rows: seq<T>, page: int): (r: seq<T>)
    ensures |r| <= PageSize
  {
    var start := (page - 1) * PageSize;
    JsSlice(rows, start, start + PageSize)
  }

  function Min(a: int, b: int): int {
    if a <= b then a else b
  }

  /** For a page from 1 on, the slice is the window of rows from
      `(page - 1) * 10` up to `page * 10`, cut at the end of the list. */
  lemma PageSliceWindow<T>(rows: seq<T>, page: int)
    requires page >= 1
    ensures var lo := Min((page - 1) * PageSize, |rows|);
      PageSlice(rows, page) == rows[lo..Min(page * PageSize, |rows|)]
    ensures forall i :: 0 <= i < |PageSlice(rows, page)| ==>
              PageSlice(rows, page)[i] == rows[(page - 1) * PageSize + i]
  {
  }

  /** Page 0, the initial `currentPage`, slices `(-10, 0)` and shows nothing. */
  lemma PageZeroEmpty<T>(rows: seq<T>)
    ensures PageSlice(rows, 0) == []
  {
  }

  /** Pages from 1 on cover the list: row `i` is on page `i / 10 + 1`. */
  lemma RowOnItsPage<T>(rows: seq<T>, i: int)
    requires 0 <= i < |rows|
    ensures var page := i / PageSize + 1;
      0 <= i - (page - 1) * PageSize < |PageSlice(rows, page)| &&
      PageSlice(rows, page)[i - (page - 1) * PageSize] == rows[i]
  {
    var page := i / PageSize + 1;
    PageSliceWindow(rows, page);
  }
}
