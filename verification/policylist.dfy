/** `PolicyList`: the table of policies with its search box, its sortable
    column headers and its pager. The callbacks it is given (`onSearch`,
    `onSort`, `onPageChange`) appear as the values its handlers emit. */
module PolicyList {
  import opened Wrappers
  import opened Text
  import opened Types
  import opened Paging

  // ---------------------------------------------------------------------------
  // Sorting
  // ---------------------------------------------------------------------------

  /** The column the table is sorted on and its direction. */
  datatype SortState = SortState(sortBy: string, sortDir: SortDir)

  const InitialSort := SortState("id", Asc)

  /** `handleSort`: clicking a header. The returned pair is both the new state
      and what `onSort` receives. Only a second click on the column already
      sorted ascending turns the order round. */
  function HandleSort(st: SortState, field: string): (r: SortState)
    ensures r.sortBy == field
    ensures r.sortDir == Desc <==> field == st.sortBy && st.sortDir == Asc
    ensures field != st.sortBy ==> r.sortDir == Asc
  {
    SortState(field, if field == st.sortBy && st.sortDir == Asc then Desc else Asc)
  }

  /** Clicking the same header `n` times. */
  function Clicks(st: SortState, field: string, n: nat): SortState
    decreases n
  {
    if n == 0 then st else Clicks(HandleSort(st, field), field, n - 1)
  }

  /** Repeated clicks on one header alternate the direction, starting from
      what the first click gave. */
  lemma {:induction false} ClicksAlternate(st: SortState, field: string, n: nat)
    requires n >= 1
    ensures Clicks(st, field, n).sortBy == field
    ensures Clicks(st, field, n).sortDir ==
      (if (n % 2 == 1) == (HandleSort(st, field).sortDir == Asc) then Asc else Desc)
    decreases n
  {
    if n > 1 {
      var first := HandleSort(st, field);
      ClicksAlternate(first, field, n - 1);
      assert Clicks(st, field, n) == Clicks(first, field, n - 1);
    }
  }

  /** Two clicks on the column sorted ascending bring back the same order. */
  lemma SameColumnTwice(field: string)
    ensures HandleSort(HandleSort(SortState(field, Asc), field), field) == SortState(field, Asc)
  {
  }

  // ---------------------------------------------------------------------------
  // Searching
  // ---------------------------------------------------------------------------

  /** A string made of whitespace only: `!s.trim()`. */
  predicate Blank(s: string) {
    forall i :: 0 <= i < |s| ==> IsJsWhitespace(s[i])
  }

  /** `handleSearch`: submitting the box forwards its trimmed text, and only
      when that is not empty. */
  function SubmitSearch(box: string): (emitted: Option<string>)
    ensures emitted.Some? <==> !Blank(box)
    ensures emitted.Some? ==> emitted.value == Trim(box) && emitted.value != []
  {
    TrimEmptyIffBlank(box);
    if Trim(box) != [] then Some(Trim(box)) else None
  }

  /** `handleSearchChange`: the box takes the typed value; a value that is
      blank resets the listing by forwarding `''`. */
  function SearchChange(value: string): (r: (string, Option<string>))
    ensures r.0 == value
    ensures r.1.Some? <==> Blank(value)
    ensures r.1.Some? ==> r.1.value == []
  {
    TrimEmptyIffBlank(value);
    (value, if Trim(value) == [] then Some([]) else None)
  }

  /** `handleClearSearch`: the box empties and `''` is forwarded. */
  function ClearSearch(box: string): (r: (string, Option<string>))
    ensures r.0 == [] && r.1 == Some([])
    ensures SubmitSearch(r.0).None?
  {
    ([], Some([]))
  }

  /** A forwarded search term is never blank and is already trimmed; the box
      a blank edit leaves behind submits nothing. */
  lemma ForwardedTermsAreTrimmed(box: string)
    ensures SubmitSearch(box).Some? ==> Trim(SubmitSearch(box).value) == SubmitSearch(box).value
    ensures SearchChange(box).1.Some? ==> SubmitSearch(SearchChange(box).0).None?
  {
    TrimIdempotent(box);
  }

  // ---------------------------------------------------------------------------
  // The pager
  // ---------------------------------------------------------------------------

  /** "Showing `first` to `last` of `totalItems` results", under a non-empty
      list: `currentPage` is 0-based and the positions 1-based. */
  function ShownRange(currentPage: int, pageSize: int, totalItems: int): (r: (int, int))
    ensures r.0 - 1 == currentPage * pageSize
    ensures r.1 <= totalItems && r.1 <= (currentPage + 1) * pageSize
    ensures r.1 == totalItems || r.1 == (currentPage + 1) * pageSize
  {
    (currentPage * pageSize + 1, Min((currentPage + 1) * pageSize, totalItems))
  }

  /** A pager button: whether it can be pressed and the 1-based page it asks for. */
  datatype Button = Button(enabled: bool, target: int)

  /** "Previous": off on the first page; asks for the 1-based number of the
      page before, never below 1. */
  function Previous(currentPage: int): (b: Button)
    ensures b.enabled <==> currentPage != 0
    ensures b.target >= 1
    ensures currentPage >= 1 ==> b.target == currentPage
  {
    Button(currentPage != 0, if currentPage >= 1 then currentPage else 1)
  }

  /** "Next": off on the last page and beyond; asks for the 1-based number
      of the page after. */
  function Next(currentPage: int, totalPages: int): (b: Button)
    ensures b.enabled <==> currentPage + 1 < totalPages
    ensures b.target - 1 == currentPage + 1
  {
    Button(!(currentPage + 1 >= totalPages), currentPage + 2)
  }

  /** The numbered buttons: pages 1 to `totalPages` (none when that is not
      positive), each with whether it is highlighted as the current one. */
  function PageButtons(currentPage: int, totalPages: int): (r: seq<(int, bool)>)
    ensures |r| == if totalPages > 0 then totalPages else 0
    ensures forall i :: 0 <= i < |r| ==> r[i].0 == i + 1
    ensures forall i :: 0 <= i < |r| ==> (r[i].1 <==> r[i].0 == currentPage + 1)
  {
    var n := if totalPages > 0 then totalPages else 0;
    seq(n, i => (i + 1, i + 1 == currentPage + 1))
  }

  /** Exactly one page button is highlighted when the current page is in
      range, and none otherwise. */
  lemma OneHighlighted(currentPage: int, totalPages: int)
    ensures 0 <= currentPage < totalPages ==>
      (set i | 0 <= i < |PageButtons(currentPage, totalPages)| && PageButtons(currentPage, totalPages)[i].1) == {currentPage}
    ensures !(0 <= currentPage < totalPages) ==>
      (set i | 0 <= i < |PageButtons(currentPage, totalPages)| && PageButtons(currentPage, totalPages)[i].1) == {}
  {
  }

  /** On a page the server produced, the shown range counts exactly the
      policies listed, and position `first + i` is the `i`-th listed row. */
  lemma {:induction false} RangeMatchesPage<T>(rows: seq<T>, pageable: Pageable)
    requires pageable.pageSize >= 1
    requires PageOf(rows, pageable).content != []
    ensures var p := PageOf(rows, pageable);
      var (first, last) := ShownRange(p.number, p.size, p.totalElements);
      && last - first + 1 == |p.content|
      && forall i :: 0 <= i < |p.content| ==> 0 <= first - 1 + i < |rows| && p.content[i] == rows[first - 1 + i]
  {
    var p := PageOf(rows, pageable);
    var lo := pageable.pageNo * pageable.pageSize;
    assert lo < |rows|;
    var (first, last) := ShownRange(p.number, p.size, p.totalElements);
    assert first - 1 == lo;
    assert (pageable.pageNo + 1) * pageable.pageSize == lo + pageable.pageSize;
  }
}
