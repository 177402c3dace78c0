/** The derived view: the rows matching the search query, paired with their
    original positions, cut into pages of 100. */
module View {
  import opened Text
  import opened Tables

  const PageSize: nat := 100

  /** One entry of `getFilteredRows()`. */
  datatype Indexed = Indexed(data: Row, originalIndex: nat)

  /** The search state: `state.searchQuery`, `state.currentPage`,
      `state.totalPages`. */
  datatype ViewState = ViewState(query: string, currentPage: int, totalPages: int)

  /** Some cell of `row` contains `needle` once both are case-folded. */
  predicate RowMatches(row: Row, needle: string)
    ensures RowMatches(row, needle) ==> |row| > 0
    ensures needle == "" && |row| > 0 ==> RowMatches(row, needle)
  {
    assert needle == "" && |row| > 0 ==> OccursAt(Lower(row[0]), Lower(needle), 0);
    exists c :: 0 <= c < |row| && Contains(Lower(row[c]), Lower(needle))
  }

  /** The filter callback: an empty query keeps every row. */
  predicate Visible(row: Row, query: string)
    ensures query == "" ==> Visible(row, query)
    ensures query != "" ==> (Visible(row, query) <==> RowMatches(row, query))
  {
    Lower(query) == [] || RowMatches(row, query)
  }

  /** `getFilteredRows`: the visible rows in their original order, each with
      its position in `rows`. */
  function Filter(rows: seq<Row>, query: string): (r: seq<Indexed>)
    ensures |r| <= |rows|
    decreases |rows|
  {
    if |rows| == 0 then []
    else
      var n := |rows| - 1;
      Filter(rows[..n], query) + (if Visible(rows[n], query) then [Indexed(rows[n], n)] else [])
  }

  /** Every entry the filter keeps is a visible row paired with its own
      position, and the positions increase. */
  lemma {:induction false} FilterKeepsOnlyVisibleRowsInOrder(rows: seq<Row>, query: string)
    ensures forall k :: 0 <= k < |Filter(rows, query)| ==>
              Filter(rows, query)[k].originalIndex < |rows|
              && rows[Filter(rows, query)[k].originalIndex] == Filter(rows, query)[k].data
              && Visible(Filter(rows, query)[k].data, query)
    ensures forall k, m :: 0 <= k < m < |Filter(rows, query)| ==>
              Filter(rows, query)[k].originalIndex < Filter(rows, query)[m].originalIndex
    decreases |rows|
  {
    if |rows| > 0 {
      var n := |rows| - 1;
      var init := Filter(rows[..n], query);
      var r := Filter(rows, query);
      FilterKeepsOnlyVisibleRowsInOrder(rows[..n], query);
      assert r == init + (if Visible(rows[n], query) then [Indexed(rows[n], n)] else []);
      forall k | 0 <= k < |r|
        ensures r[k].originalIndex < |rows| && rows[r[k].originalIndex] == r[k].data
                && Visible(r[k].data, query)
      {
        if k < |init| {
          assert r[k] == init[k];
          assert rows[..n][init[k].originalIndex] == rows[init[k].originalIndex];
        }
      }
      forall k, m | 0 <= k < m < |r|
        ensures r[k].originalIndex < r[m].originalIndex
      {
        if m < |init| {
          assert r[k] == init[k] && r[m] == init[m];
        } else {
          assert r[k] == init[k];
        }
      }
    }
  }

  /** No visible row is dropped by the filter. */
  lemma {:induction false} FilterKeepsEveryVisibleRow(rows: seq<Row>, query: string, i: nat)
    requires i < |rows| && Visible(rows[i], query)
    ensures exists k :: 0 <= k < |Filter(rows, query)| && Filter(rows, query)[k].originalIndex == i
    decreases |rows|
  {
    var n := |rows| - 1;
    var init := Filter(rows[..n], query);
    if i < n {
      assert rows[..n][i] == rows[i];
      FilterKeepsEveryVisibleRow(rows[..n], query, i);
      var k :| 0 <= k < |init| && init[k].originalIndex == i;
      assert Filter(rows, query)[k] == init[k];
    } else {
      assert Filter(rows, query)[|init|].originalIndex == i;
    }
  }

  /** With an empty query every row is kept, at its own position. */
  lemma {:induction false} EmptyQueryKeepsEveryRow(rows: seq<Row>)
    ensures |Filter(rows, "")| == |rows|
    ensures forall k :: 0 <= k < |rows| ==> Filter(rows, "")[k] == Indexed(rows[k], k)
    decreases |rows|
  {
    if |rows| > 0 {
      var n := |rows| - 1;
      EmptyQueryKeepsEveryRow(rows[..n]);
      assert Visible(rows[n], "");
      forall k | 0 <= k < n ensures Filter(rows, "")[k] == Indexed(rows[k], k) {
        assert rows[..n][k] == rows[k];
      }
    }
  }

  /** Searching "b" in [["a","b"],["c","d"],["bb","x"]] keeps rows 0 and 2,
      in that order. */
  lemma SearchExample()
    ensures Filter([["a", "b"], ["c", "d"], ["bb", "x"]], "b")
            == [Indexed(["a", "b"], 0), Indexed(["bb", "x"], 2)]
  {
    assert Lower("b") == "b" && Lower("bb") == "bb";
    assert Lower("c") == "c" && Lower("d") == "d";
    assert OccursAt(Lower("b"), Lower("b"), 0);
    assert OccursAt(Lower("bb"), Lower("b"), 0);
    var r0: Row := ["a", "b"];
    var r2: Row := ["bb", "x"];
    assert r0[1] == "b" && Contains(Lower(r0[1]), Lower("b"));
    assert r2[0] == "bb" && Contains(Lower(r2[0]), Lower("b"));
    assert Visible(r0, "b");
    assert Visible(r2, "b");
    NotContained("c", "b");
    NotContained("d", "b");
    var r1: Row := ["c", "d"];
    assert r1[0] == "c" && r1[1] == "d";
    assert !Visible(r1, "b");
    var rows: seq<Row> := [r0, r1, r2];
    assert rows[..2][..1] == [r0];
    assert rows[..2] == [r0, r1];
  }

  /** A one-letter cell does not contain a different one-letter query. */
  lemma NotContained(cell: string, query: string)
    requires |cell| == 1 && |query| == 1 && LowerChar(cell[0]) != LowerChar(query[0])
    ensures !Contains(Lower(cell), Lower(query))
  {
    forall i: nat | i <= 1 ensures !OccursAt(Lower(cell), Lower(query), i) {
      if i == 0 {
        assert Lower(cell)[0..1][0] != Lower(query)[0];
      }
    }
  }

  /** `Math.max(1, Math.ceil(n / 100))`: the fewest pages of 100 that hold
      `n` rows, and at least one. */
  function TotalPages(n: nat): (r: int)
    ensures r >= 1
    ensures n == 0 ==> r == 1
    ensures n > 0 ==> (r - 1) * PageSize < n <= r * PageSize
  {
    var pages := (n + PageSize - 1) / PageSize;
    if pages < 1 then 1 else pages
  }

  /** `updatePagination`: recomputes the page count for `count` visible rows
      and clamps the current page into range. */
  function UpdatePagination(v: ViewState, count: nat): (r: ViewState)
    ensures r.query == v.query
    ensures r.totalPages == TotalPages(count)
    ensures 0 <= r.currentPage < r.totalPages
    ensures 0 <= v.currentPage < r.totalPages ==> r.currentPage == v.currentPage
    ensures v.currentPage >= r.totalPages ==> r.currentPage == r.totalPages - 1
    ensures v.currentPage < 0 ==> r.currentPage == 0
  {
    var total := TotalPages(count);
    var page := if v.currentPage >= total then total - 1 else v.currentPage;
    var page' := if page < 0 then 0 else page;
    v.(currentPage := page', totalPages := total)
  }

  /** `goToPage`: moves to `page` when it is a valid page, else does nothing. */
  function GoToPage(v: ViewState, page: int): (r: ViewState)
    ensures 0 <= page < v.totalPages ==> r == v.(currentPage := page)
    ensures !(0 <= page < v.totalPages) ==> r == v
  {
    if page < 0 || page >= v.totalPages then v else v.(currentPage := page)
  }

  /** The slice `renderTableBody` shows:
      `items.slice(page * 100, Math.min(page * 100 + 100, items.length))`. */
  function PageSlice<T>(items: seq<T>, page: nat): (r: seq<T>)
    ensures |r| <= PageSize
    ensures forall k :: 0 <= k < |r| ==> page * PageSize + k < |items| && r[k] == items[page * PageSize + k]
    ensures page * PageSize < |items| ==>
              |r| == (if |items| - page * PageSize < PageSize then |items| - page * PageSize else PageSize)
    ensures page * PageSize >= |items| ==> r == []
  {
    var start := page * PageSize;
    var end := if start + PageSize < |items| then start + PageSize else |items|;
    if start < end then items[start..end] else []
  }

  /** Every visible row is shown on a valid page: row `i` is the
      `i % 100`-th entry of page `i / 100`. */
  lemma EveryRowOnItsPage<T>(items: seq<T>, i: nat)
    requires i < |items|
    ensures i / PageSize < TotalPages(|items|)
    ensures i % PageSize < |PageSlice(items, i / PageSize)|
    ensures PageSlice(items, i / PageSize)[i % PageSize] == items[i]
  {
    var p := i / PageSize;
    assert p * PageSize + i % PageSize == i;
    var total := TotalPages(|items|);
    assert i < total * PageSize;
  }

  /** 250 unfiltered rows make three pages, and the last shows rows 201 to
      250. */
  lemma ThirdPageOfTwoHundredFifty<T>(items: seq<T>)
    requires |items| == 250
    ensures TotalPages(|items|) == 3
    ensures PageSlice(items, 2) == items[200..250]
  {
  }
}
