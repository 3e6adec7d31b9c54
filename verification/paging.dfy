/** Pages of query results: a `Pageable` request and the `Page` slice the
    repository answers with, as Spring Data computes them. */
module Paging {

  datatype Direction = Ascending | Descending

  /** `Sort.by(property)` in one direction. */
  datatype Sort = Sort(property: string, direction: Direction)

  /** `PageRequest.of(pageNo, pageSize, sort)`, once its arguments are accepted. */
  datatype Pageable = Pageable(pageNo: nat, pageSize: nat, sort: Sort)

  /** One page of results with the totals of the whole result. */
  datatype Page<T> = Page(content: seq<T>, number: nat, size: nat, totalElements: nat, totalPages: nat)

  function Min(a: int, b: int): int { if a <= b then a else b }

  /** The number of pages of `size` items needed for `total` items. */
  function PageCount(total: nat, size: nat): (n: nat)
    requires size >= 1
    ensures n * size >= total
    ensures n == 0 || (n - 1) * size < total
  {
    if total == 0 then 0
    else
      var m := PageCount(total - Min(size, total), size);
      assert (m + 1) * size == m * size + size;
      m + 1
  }

  /** Page `pageNo` of `rows`: the rows from `pageNo * pageSize` on, at most
      `pageSize` of them. */
  function Slice<T>(rows: seq<T>, pageNo: nat, pageSize: nat): (r: seq<T>)
    requires pageSize >= 1
    ensures |r| <= pageSize
    ensures |r| == if pageNo * pageSize >= |rows| then 0 else Min(pageSize, |rows| - pageNo * pageSize)
    ensures forall i :: 0 <= i < |r| ==> r[i] == rows[pageNo * pageSize + i]
  {
    var lo := Min(pageNo * pageSize, |rows|);
    var hi := Min(lo + pageSize, |rows|);
    rows[lo..hi]
  }

  /** The page that answers `pageable` when the whole result is `rows`. */
  function PageOf<T>(rows: seq<T>, pageable: Pageable): (p: Page<T>)
    requires pageable.pageSize >= 1
    ensures p.number == pageable.pageNo && p.size == pageable.pageSize
    ensures p.totalElements == |rows|
    ensures p.content == Slice(rows, pageable.pageNo, pageable.pageSize)
    ensures p.totalPages == PageCount(|rows|, pageable.pageSize)
  {
    Page(Slice(rows, pageable.pageNo, pageable.pageSize), pageable.pageNo, pageable.pageSize,
         |rows|, PageCount(|rows|, pageable.pageSize))
  }

  /** A page is non-empty exactly when its number is below the page count. */
  lemma NonEmptyIffInRange<T>(rows: seq<T>, pageNo: nat, pageSize: nat)
    requires pageSize >= 1
    ensures Slice(rows, pageNo, pageSize) != [] <==> pageNo < PageCount(|rows|, pageSize)
  {
    var n := PageCount(|rows|, pageSize);
    if pageNo < n {
      assert pageNo <= n - 1;
      MulMonotone(pageNo, n - 1, pageSize);
    } else {
      MulMonotone(n, pageNo, pageSize);
    }
  }

  lemma MulMonotone(a: nat, b: nat, c: nat)
    requires a <= b
    ensures a * c <= b * c
  {
  }

  /** `page.map(f)`: the same page with every item converted. */
  function MapPage<T, U>(p: Page<T>, f: T -> U): (r: Page<U>)
    ensures |r.content| == |p.content|
    ensures forall i :: 0 <= i < |p.content| ==> r.content[i] == f(p.content[i])
    ensures r.number == p.number && r.size == p.size
    ensures r.totalElements == p.totalElements && r.totalPages == p.totalPages
  {
    Page(seq(|p.content|, i requires 0 <= i < |p.content| => f(p.content[i])),
         p.number, p.size, p.totalElements, p.totalPages)
  }

  /** The position in the whole result of the first row of the page `pageable` asks for. */
  function Offset(pageable: Pageable): nat {
    pageable.pageNo * pageable.pageSize
  }

  /** A converted page is as long as the slice of the rows it shows. */
  lemma MappedPageLength<T, U>(rows: seq<T>, pageable: Pageable, f: T -> U)
    requires pageable.pageSize >= 1
    ensures |MapPage(PageOf(rows, pageable), f).content|
            == (if Offset(pageable) >= |rows| then 0 else Min(pageable.pageSize, |rows| - Offset(pageable)))
  {
  }

  /** Item `i` of a converted page is the conversion of row `Offset(pageable) + i`. */
  lemma MappedPageItem<T, U>(rows: seq<T>, pageable: Pageable, f: T -> U, i: int)
    requires pageable.pageSize >= 1
    requires 0 <= i < |MapPage(PageOf(rows, pageable), f).content|
    ensures Offset(pageable) + i < |rows|
    ensures MapPage(PageOf(rows, pageable), f).content[i] == f(rows[Offset(pageable) + i])
  {
    var page := PageOf(rows, pageable);
    assert page.content[i] == rows[Offset(pageable) + i];
  }

  /** Every item on a converted page is the conversion of one of the rows. */
  lemma MappedPageItems<T, U>(rows: seq<T>, pageable: Pageable, f: T -> U, u: U)
    requires pageable.pageSize >= 1
    requires u in MapPage(PageOf(rows, pageable), f).content
    ensures exists t :: t in rows && u == f(t)
  {
    var content := MapPage(PageOf(rows, pageable), f).content;
    var i :| 0 <= i < |content| && content[i] == u;
    MappedPageItem(rows, pageable, f, i);
    assert rows[Offset(pageable) + i] in rows;
  }

  /** `content` is the conversion by `f` of the rows from position `lo` on,
      as many as a page of `size` holds, in order. */
  ghost predicate SliceOf<T, U>(content: seq<U>, rows: seq<T>, lo: int, size: int, f: T -> U) {
    && 0 <= lo
    && |content| == (if lo >= |rows| then 0 else Min(size, |rows| - lo))
    && forall i :: 0 <= i < |content| ==> lo + i < |rows| && content[i] == f(rows[lo + i])
  }

  /** A converted page holds the conversions of the rows from
      `pageNo * pageSize` on, as many as fit, and counts the pages of all rows. */
  lemma MappedPageSlice<T, U>(rows: seq<T>, pageable: Pageable, f: T -> U)
    requires pageable.pageSize >= 1
    ensures SliceOf(MapPage(PageOf(rows, pageable), f).content, rows,
                    pageable.pageNo * pageable.pageSize, pageable.pageSize, f)
    ensures MapPage(PageOf(rows, pageable), f).totalPages == PageCount(|rows|, pageable.pageSize)
  {
    var content := MapPage(PageOf(rows, pageable), f).content;
    var lo := Offset(pageable);
    MappedPageLength(rows, pageable, f);
    forall i | 0 <= i < |content|
      ensures lo + i < |rows| && content[i] == f(rows[lo + i])
    {
      MappedPageItem(rows, pageable, f, i);
    }
  }

  /** The pages from `from` onward, concatenated. */
  function PagesFrom<T>(rows: seq<T>, from: nat, pageSize: nat): seq<T>
    requires pageSize >= 1
    decreases PageCount(|rows|, pageSize) - from
  {
    if from >= PageCount(|rows|, pageSize) then []
    else Slice(rows, from, pageSize) + PagesFrom(rows, from + 1, pageSize)
  }

  /** Reading every page in turn yields every row once, in order. */
  lemma {:induction false} PagesPartitionRows<T>(rows: seq<T>, from: nat, pageSize: nat)
    requires pageSize >= 1
    requires from * pageSize <= |rows|
    ensures PagesFrom(rows, from, pageSize) == rows[from * pageSize..]
    decreases PageCount(|rows|, pageSize) - from
  {
    var n := PageCount(|rows|, pageSize);
    if from >= n {
      MulMonotone(n, from, pageSize);
    } else {
      var lo := from * pageSize;
      assert 0 <= lo by {
        MulMonotone(0, from, pageSize);
      }
      assert (from + 1) * pageSize == lo + pageSize;
      if lo + pageSize <= |rows| {
        PagesPartitionRows(rows, from + 1, pageSize);
        assert rows[lo..] == rows[lo..lo + pageSize] + rows[lo + pageSize..];
      } else {
        NonEmptyIffInRange(rows, from + 1, pageSize);
        assert PagesFrom(rows, from + 1, pageSize) == [];
        assert Slice(rows, from, pageSize) == rows[lo..];
      }
    }
  }
}
