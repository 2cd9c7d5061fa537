/** The data explorer: the case-insensitive search filter over the displayed
    cell texts, the page arithmetic, and the page state that the table's
    buttons, the rows-per-page selector and the search box update. */
module Explorer {
  import opened Cells

  /** Some header of `row` holds a value, neither null nor undefined, whose
      displayed text, lower-cased, contains `term`. */
  predicate RowMatches(row: Row, headers: seq<string>, term: string, f: Formatter) {
    exists j | 0 <= j < |headers| ::
      Get(row, headers[j]) != Null && Contains(Lower(FormatCell(Get(row, headers[j]), f)), term)
  }

  /** The rows the table shows: all of them for an empty search term,
      otherwise the matching ones in their order. */
  function FilterRows(data: seq<Row>, headers: seq<string>, term: string, f: Formatter): (r: seq<Row>)
    ensures |r| <= |data|
    ensures term == "" ==> r == data
  {
    if term == "" then data else Matching(data, headers, term, f)
  }

  function Matching(data: seq<Row>, headers: seq<string>, term: string, f: Formatter): (r: seq<Row>)
    ensures |r| <= |data|
  {
    if data == [] then []
    else
      var init, last := data[..|data| - 1], data[|data| - 1];
      Matching(init, headers, term, f) + (if RowMatches(last, headers, term, f) then [last] else [])
  }

  /** With a search term, the table shows exactly the matching rows. */
  lemma FilterMembers(data: seq<Row>, headers: seq<string>, term: string, f: Formatter)
    requires term != ""
    ensures forall row :: row in FilterRows(data, headers, term, f) <==> row in data && RowMatches(row, headers, term, f)
  {
    MatchingMembers(data, headers, term, f);
  }

  lemma {:induction false} MatchingMembers(data: seq<Row>, headers: seq<string>, term: string, f: Formatter)
    ensures forall row :: row in Matching(data, headers, term, f) <==> row in data && RowMatches(row, headers, term, f)
  {
    if data != [] {
      var init, last := data[..|data| - 1], data[|data| - 1];
      MatchingMembers(init, headers, term, f);
      assert data == init + [last];
    }
  }

  /** Filtering keeps the rows' order: the rows kept from a concatenation are
      the rows kept from the first part followed by those kept from the second. */
  lemma {:induction false} MatchingConcat(a: seq<Row>, b: seq<Row>, headers: seq<string>, term: string, f: Formatter)
    ensures Matching(a + b, headers, term, f) == Matching(a, headers, term, f) + Matching(b, headers, term, f)
  {
    if b == [] {
      assert a + b == a;
    } else {
      var init, last := b[..|b| - 1], b[|b| - 1];
      assert (a + b)[..|a + b| - 1] == a + init;
      assert (a + b)[|a + b| - 1] == last;
      MatchingConcat(a, init, headers, term, f);
    }
  }

  /** Searching the search result again changes nothing. */
  lemma {:induction false} FilterIdempotent(data: seq<Row>, headers: seq<string>, term: string, f: Formatter)
    ensures FilterRows(FilterRows(data, headers, term, f), headers, term, f) == FilterRows(data, headers, term, f)
  {
    if term != "" {
      MatchingOfMatching(data, headers, term, f);
    }
  }

  lemma {:induction false} MatchingOfMatching(data: seq<Row>, headers: seq<string>, term: string, f: Formatter)
    ensures Matching(Matching(data, headers, term, f), headers, term, f) == Matching(data, headers, term, f)
  {
    if data != [] {
      var init, last := data[..|data| - 1], data[|data| - 1];
      var m := Matching(init, headers, term, f);
      MatchingOfMatching(init, headers, term, f);
      if RowMatches(last, headers, term, f) {
        assert Matching(data, headers, term, f) == m + [last];
        MatchingConcat(m, [last], headers, term, f);
        assert Matching([last], headers, term, f) == [last] by {
          assert [last][..0] == [];
        }
      } else {
        assert Matching(data, headers, term, f) == m;
      }
    }
  }

  /** Lower-casing the term leaves the filter unchanged when the search box
      has already lower-cased it. */
  lemma SearchTermLowered(input: string)
    ensures Lower(Lower(input)) == Lower(input)
    ensures Lower(input) == "" <==> input == ""
  {
    LowerIdempotent(input);
  }

  /** Ceiling division: the least `q` with `q * d >= n`. */
  function CeilDiv(n: nat, d: nat): (q: nat)
    requires d > 0
    ensures q * d >= n
    ensures q == 0 || (q - 1) * d < n
  {
    var q := (n + d - 1) / d;
    assert (n + d - 1) == q * d + (n + d - 1) % d;
    assert (q - 1) * d == q * d - d;
    q
  }

  /** Number of pages for `total` rows; zero for no rows. */
  function TotalPages(total: nat, rowsPerPage: nat): (pages: nat)
    requires rowsPerPage > 0
    ensures pages * rowsPerPage >= total
    ensures pages == 0 || (pages - 1) * rowsPerPage < total
    ensures pages == 0 <==> total == 0
  {
    CeilDiv(total, rowsPerPage)
  }

  /** The page shown: never past the last page, page 1 when there are none. */
  function ClampPage(page: nat, totalPages: nat): (p: nat)
    ensures p <= page
    ensures p <= (if totalPages == 0 then 1 else totalPages)
    ensures p == page || p == (if totalPages == 0 then 1 else totalPages)
  {
    var last := if totalPages == 0 then 1 else totalPages;
    if page < last then page else last
  }

  /** Up to `count` rows from position `start`, fewer at the end. */
  function Window(data: seq<Row>, start: nat, count: nat): (r: seq<Row>)
    ensures |r| <= count
    ensures start + count <= |data| ==> |r| == count
    ensures start < |data| < start + count ==> |r| == |data| - start
    ensures start >= |data| ==> r == []
    ensures forall i :: 0 <= i < |r| ==> start + i < |data| && r[i] == data[start + i]
  {
    var end := if start + count < |data| then start + count else |data|;
    if start < end then data[start..end] else []
  }

  /** The rows of page `page`: from `(page - 1) * rowsPerPage` up to
      `rowsPerPage` rows, fewer at the end. */
  function PageSlice(data: seq<Row>, page: nat, rowsPerPage: nat): seq<Row>
    requires page >= 1 && rowsPerPage > 0
  {
    Window(data, (page - 1) * rowsPerPage, rowsPerPage)
  }

  /** Pages 1 .. `k` one after the other. */
  function Pages(data: seq<Row>, rowsPerPage: nat, k: nat): seq<Row>
    requires rowsPerPage > 0
  {
    if k == 0 then [] else Pages(data, rowsPerPage, k - 1) + PageSlice(data, k, rowsPerPage)
  }

  /** The first `k` pages are the first `k * rowsPerPage` rows. */
  lemma {:induction false} PagesPrefix(data: seq<Row>, rowsPerPage: nat, k: nat)
    requires rowsPerPage > 0
    ensures Pages(data, rowsPerPage, k) == data[..Least(k * rowsPerPage, |data|)]
  {
    if k > 0 {
      PagesPrefix(data, rowsPerPage, k - 1);
      var start := (k - 1) * rowsPerPage;
      assert k * rowsPerPage == start + rowsPerPage;
      WindowExtends(data, start, rowsPerPage);
    }
  }

  function Least(a: nat, b: nat): nat {
    if a < b then a else b
  }

  /** The rows before `start` followed by the window at `start` are the rows
      before `start + count`. */
  lemma WindowExtends(data: seq<Row>, start: nat, count: nat)
    ensures data[..Least(start, |data|)] + Window(data, start, count) == data[..Least(start + count, |data|)]
  {
    if start < |data| {
      assert data[..Least(start + count, |data|)] == data[..start] + data[start..Least(start + count, |data|)];
    }
  }

  /** Reading every page in order gives back exactly the rows. */
  lemma PagesReconstruct(data: seq<Row>, rowsPerPage: nat)
    requires rowsPerPage > 0
    ensures Pages(data, rowsPerPage, TotalPages(|data|, rowsPerPage)) == data
  {
    PagesPrefix(data, rowsPerPage, TotalPages(|data|, rowsPerPage));
  }

  /** After clamping a page number of at least 1, the page is between 1 and
      the page count (1 without rows), it starts within the rows, and it is
      not empty unless there are no rows. */
  lemma ClampedPageInRange(data: seq<Row>, page: nat, rowsPerPage: nat)
    requires page >= 1 && rowsPerPage > 0
    ensures var tp := TotalPages(|data|, rowsPerPage);
            var p := ClampPage(page, tp);
            && 1 <= p <= (if tp == 0 then 1 else tp)
            && (p - 1) * rowsPerPage <= |data|
            && (|data| > 0 ==> PageSlice(data, p, rowsPerPage) != [])
  {
    var tp := TotalPages(|data|, rowsPerPage);
    var p := ClampPage(page, tp);
    if tp > 0 {
      assert (p - 1) * rowsPerPage <= (tp - 1) * rowsPerPage by {
        MulMonotone(p - 1, tp - 1, rowsPerPage);
      }
    }
  }

  lemma MulMonotone(a: nat, b: nat, c: nat)
    requires a <= b
    ensures a * c <= b * c
  {
  }

  /** The page state of the data explorer. */
  class PageState {
    var data: seq<Row>
    var headers: seq<string>
    var currentPage: nat
    var rowsPerPage: nat
    var searchTerm: string
    const fmt: Formatter

    /** Pages are numbered from 1 and hold at least one row each. */
    ghost predicate Valid()
      reads this
    {
      currentPage >= 1 && rowsPerPage >= 1
    }

    /** The rows that match the current search. */
    function Filtered(): seq<Row>
      reads this
    {
      FilterRows(data, headers, searchTerm, fmt)
    }

    /** The current page is at most the last page of the filtered rows. */
    ghost predicate OnShownPage()
      reads this
      requires Valid()
    {
      var tp := TotalPages(|Filtered()|, rowsPerPage);
      currentPage <= (if tp == 0 then 1 else tp)
    }

    /** No rows yet, page 1, 25 rows per page, no search. */
    constructor (f: Formatter)
      ensures Valid()
      ensures data == [] && headers == [] && searchTerm == ""
      ensures currentPage == 1 && rowsPerPage == 25 && fmt == f
    {
      data := [];
      headers := [];
      currentPage := 1;
      rowsPerPage := 25;
      searchTerm := "";
      fmt := f;
    }

    /** Redraws the table: clamps the page and returns its rows. */
    method Render() returns (page: seq<Row>)
      requires Valid()
      modifies this
      ensures Valid() && OnShownPage()
      ensures data == old(data) && headers == old(headers) && rowsPerPage == old(rowsPerPage)
      ensures searchTerm == old(searchTerm)
      ensures currentPage == ClampPage(old(currentPage), TotalPages(|Filtered()|, rowsPerPage))
      ensures page == PageSlice(Filtered(), currentPage, rowsPerPage)
    {
      var rows := FilterRows(data, headers, searchTerm, fmt);
      var totalPages := TotalPages(|rows|, rowsPerPage);
      ClampedPageInRange(rows, currentPage, rowsPerPage);
      currentPage := ClampPage(currentPage, totalPages);
      page := PageSlice(rows, currentPage, rowsPerPage);
    }

    /** A parsed file replaces the rows; without rows the headers stay and
      nothing is drawn. */
    method Load(rows: seq<Row>, fields: seq<string>) returns (page: seq<Row>)
      requires Valid()
      modifies this
      ensures Valid()
      ensures data == rows && searchTerm == old(searchTerm) && rowsPerPage == old(rowsPerPage)
      ensures rows == [] ==> headers == old(headers) && currentPage == old(currentPage) && page == []
      ensures rows != [] ==>
        && headers == fields && OnShownPage()
        && currentPage == ClampPage(old(currentPage), TotalPages(|Filtered()|, rowsPerPage))
        && page == PageSlice(Filtered(), currentPage, rowsPerPage)
    {
      data := rows;
      if rows == [] {
        return [];
      }
      headers := fields;
      page := Render();
    }

    /** The previous-page button: only from a page after the first; the
        redraw then clamps the page. */
    method PrevPage()
      requires Valid()
      modifies this
      ensures Valid() && OnShownPage()
      ensures data == old(data) && headers == old(headers) && rowsPerPage == old(rowsPerPage)
      ensures searchTerm == old(searchTerm)
      ensures currentPage == if old(currentPage) > 1
                             then ClampPage(old(currentPage) - 1, TotalPages(|Filtered()|, rowsPerPage))
                             else old(currentPage)
      ensures old(OnShownPage()) ==>
                currentPage == if old(currentPage) > 1 then old(currentPage) - 1 else old(currentPage)
    {
      if currentPage > 1 {
        currentPage := currentPage - 1;
        var _ := Render();
      }
    }

    /** The next-page button: only from a page before the last. */
    method NextPage()
      requires Valid()
      modifies this
      ensures Valid()
      ensures old(OnShownPage()) ==> OnShownPage()
      ensures data == old(data) && headers == old(headers) && rowsPerPage == old(rowsPerPage)
      ensures searchTerm == old(searchTerm)
      ensures var tp := TotalPages(|Filtered()|, rowsPerPage);
              currentPage == if old(currentPage) < tp then old(currentPage) + 1 else old(currentPage)
    {
      var totalPages := TotalPages(|FilterRows(data, headers, searchTerm, fmt)|, rowsPerPage);
      if currentPage < totalPages {
        currentPage := currentPage + 1;
        var _ := Render();
      }
    }

    /** The rows-per-page selector: a new page size, back to page 1. */
    method SetRowsPerPage(n: nat)
      requires Valid() && n >= 1
      modifies this
      ensures Valid() && OnShownPage()
      ensures data == old(data) && headers == old(headers) && searchTerm == old(searchTerm)
      ensures rowsPerPage == n && currentPage == 1
    {
      rowsPerPage := n;
      currentPage := 1;
      var _ := Render();
    }

    /** The search box: the lower-cased input becomes the term, back to page 1. */
    method Search(input: string)
      requires Valid()
      modifies this
      ensures Valid() && OnShownPage()
      ensures data == old(data) && headers == old(headers) && rowsPerPage == old(rowsPerPage)
      ensures searchTerm == Lower(input) && currentPage == 1
    {
      searchTerm := Lower(input);
      currentPage := 1;
      var _ := Render();
    }
  }
}
