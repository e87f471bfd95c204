/** Page numbers and row ranges for search results. */
module Pagination {

  datatype Context = Context(page: int, perPage: int, total: int, items: int)

  datatype Pages = Pages(count: int, numbers: seq<int>, first: int, last: int,
                         hasNext: bool, hasPrevious: bool, showFirst: bool, showLast: bool)

  /** Rounded up. */
  function CeilDiv(a: int, b: int): int
    requires b > 0
  {
    -((-a) / b)
  }

  function Max(a: int, b: int): int { if a > b then a else b }

  function Min(a: int, b: int): int { if a < b then a else b }

  /** The existing pages from `start` up to `end`. */
  function Numbers(start: int, end: int, pages: int): seq<int>
    decreases end - start
  {
    if start >= end then []
    else (if 0 < start <= pages then [start] else []) + Numbers(start + 1, end, pages)
  }

  function Paginate(c: Context, adjacent: int := 2): Pages
    requires c.perPage > 0
  {
    Layout(c, if c.total == 0 then 0 else CeilDiv(c.total, c.perPage), adjacent)
  }

  function Layout(c: Context, pages: int, adjacent: int): Pages {
    var start0 := Max(c.page - adjacent, 1);
    var start := if start0 <= 3 then 1 else start0;
    var end0 := c.page + adjacent + 1;
    var end := if end0 >= pages - 1 then pages + 1 else end0;
    var numbers := Numbers(start, end, pages);
    var first := if c.page == 1 then 1 else (c.page - 1) * c.perPage + 1;
    var last := if c.page == 1 then c.page * Min(c.perPage, c.items)
                else (c.page - 1) * c.perPage + Min(c.perPage, c.items);
    Pages(pages, numbers, first, last, c.page < pages, c.page - 1 != 0,
          numbers != [] && 1 !in numbers, numbers != [] && pages !in numbers)
  }

  /** The consecutive numbers from `lo` to `hi`. */
  predicate IsInterval(s: seq<int>, lo: int, hi: int) {
    |s| == hi - lo + 1 && forall i :: 0 <= i < |s| ==> s[i] == lo + i
  }

  lemma {:induction false} NumbersInterval(start: int, end: int, pages: int)
    requires 1 <= start <= end <= pages + 1
    ensures IsInterval(Numbers(start, end, pages), start, end - 1)
    decreases end - start
  {
    if start < end {
      NumbersInterval(start + 1, end, pages);
    }
  }

  /** However many pages there are: on a page that exists the window is a run of consecutive pages
      inside 1..pages holding the page and its neighbours; and a link to the first or last page is shown
      only where it skips at least two pages. */
  lemma Window(c: Context, pages: int, adjacent: nat)
    requires 1 <= c.page <= pages
    ensures var p := Layout(c, pages, adjacent);
            exists lo, hi ::
              && IsInterval(p.numbers, lo, hi) && 1 <= lo <= c.page <= hi <= pages
              && lo <= Max(1, c.page - adjacent) && Min(pages, c.page + adjacent) <= hi
              && (p.showFirst <==> lo > 1) && (p.showLast <==> hi < pages)
              && (p.showFirst ==> lo - 1 - 1 >= 2)
              && (p.showLast ==> pages - hi - 1 >= 2)
  {
    var p := Layout(c, pages, adjacent);
    var start0 := Max(c.page - adjacent, 1);
    var start := if start0 <= 3 then 1 else start0;
    var end0 := c.page + adjacent + 1;
    var end := if end0 >= pages - 1 then pages + 1 else end0;
    NumbersInterval(start, end, pages);
    assert IsInterval(p.numbers, start, end - 1);
    assert 1 in p.numbers <==> start == 1 by {
      if start == 1 { assert p.numbers[0] == 1; }
    }
    assert pages in p.numbers <==> end - 1 == pages by {
      if end - 1 == pages { assert p.numbers[|p.numbers| - 1] == pages; }
    }
  }

  lemma {:induction false} NumbersHold(start: int, end: int, pages: int, n: int)
    ensures n in Numbers(start, end, pages) <==> start <= n < end && 1 <= n <= pages
    decreases end - start
  {
    if start < end {
      NumbersHold(start + 1, end, pages, n);
    }
  }

  /** Whatever page is asked for, all pages listed exist, and it is among them exactly if it exists. */
  lemma ListedExactly(c: Context, pages: int, adjacent: nat)
    ensures forall n :: n in Layout(c, pages, adjacent).numbers ==> 1 <= n <= pages
    ensures c.page in Layout(c, pages, adjacent).numbers <==> 1 <= c.page <= pages
  {
    var start0 := Max(c.page - adjacent, 1);
    var start := if start0 <= 3 then 1 else start0;
    var end0 := c.page + adjacent + 1;
    var end := if end0 >= pages - 1 then pages + 1 else end0;
    forall n { NumbersHold(start, end, pages, n); }
  }

  /** Which pages are listed: those within `adjacent` of this one; all before it where at most two would be
      left out, or one besides the first page; and all after it where at most two would be. */
  lemma PagesListed(c: Context, pages: int, adjacent: nat, n: int)
    ensures var p := Layout(c, pages, adjacent);
            && p.count == pages
            && (n in p.numbers <==>
                  && 1 <= n <= pages
                  && (n >= c.page - adjacent || c.page - adjacent <= 3)
                  && (n <= c.page + adjacent || c.page + adjacent >= pages - 2))
            && (p.hasNext <==> c.page < pages) && (p.hasPrevious <==> c.page != 1)
            && (p.showFirst <==> p.numbers != [] && 1 !in p.numbers)
            && (p.showLast <==> p.numbers != [] && pages !in p.numbers)
            && (forall i, j :: 0 <= i < j < |p.numbers| ==> p.numbers[i] < p.numbers[j])
  {
    var start0 := Max(c.page - adjacent, 1);
    var start := if start0 <= 3 then 1 else start0;
    var end0 := c.page + adjacent + 1;
    var end := if end0 >= pages - 1 then pages + 1 else end0;
    NumbersHold(start, end, pages, n);
    NumbersAscend(start, end, pages);
  }

  predicate Ascending(s: seq<int>, from: int) {
    (forall i :: 0 <= i < |s| ==> from <= s[i]) && forall i, j :: 0 <= i < j < |s| ==> s[i] < s[j]
  }

  lemma AscendingFirst(x: int, rest: seq<int>)
    requires Ascending(rest, x + 1)
    ensures Ascending([x] + rest, x)
  {
    var s := [x] + rest;
    assert forall i :: 0 < i < |s| ==> s[i] == rest[i - 1];
  }

  lemma {:induction false} NumbersAscend(start: int, end: int, pages: int)
    ensures Ascending(Numbers(start, end, pages), start)
    decreases end - start
  {
    if start < end {
      NumbersAscend(start + 1, end, pages);
      var rest := Numbers(start + 1, end, pages);
      AscendingFirst(start, rest);
      assert [] + rest == rest;
    }
  }

  // ----- rows -----

  /** How many results the given page of a search has. */
  function ItemsOn(page: int, perPage: int, total: int): int { Min(perPage, total - (page - 1) * perPage) }

  function PageOf(page: int, perPage: int, total: int): Pages
    requires perPage > 0
  {
    Paginate(Context(page, perPage, total, ItemsOn(page, perPage, total)))
  }

  lemma CeilBounds(a: int, b: int)
    requires b > 0
    ensures (CeilDiv(a, b) - 1) * b < a <= CeilDiv(a, b) * b
  {
    var q := (-a) / b;
    assert -a == q * b + (-a) % b;
    assert (CeilDiv(a, b) - 1) * b == -q * b - b;
  }

  lemma {:induction false} PageBefore(k: int, n: int, b: int)
    requires k <= n && b > 0
    ensures k * b <= n * b
  {
  }

  /** The pages there are, are those with a row. */
  lemma PageExists(page: int, perPage: int, total: int)
    requires perPage > 0 && page >= 1
    ensures page <= CeilDiv(total, perPage) <==> (page - 1) * perPage < total
  {
    var n := CeilDiv(total, perPage);
    CeilBounds(total, perPage);
    if page <= n {
      PageBefore(page - 1, n - 1, perPage);
    } else {
      PageBefore(n, page - 1, perPage);
    }
  }

  /** So many pages as hold the total, the last not being empty; none for nothing. */
  lemma PagesCounted(c: Context, adjacent: nat)
    requires c.perPage > 0 && c.total >= 0
    ensures var n := Paginate(c, adjacent).count;
            && n >= 0 && c.total <= n * c.perPage && (n == 0 <==> c.total == 0)
            && (n > 0 ==> (n - 1) * c.perPage < c.total)
  {
    CeilBounds(c.total, c.perPage);
    if c.total > 0 { PageExists(1, c.perPage, c.total); }
  }

  lemma RowBounds(page: int, perPage: int, total: int)
    requires perPage > 0 && page >= 1 && (page - 1) * perPage < total
    ensures var p := PageOf(page, perPage, total);
            && page <= p.count == CeilDiv(total, perPage)
            && p.first == (page - 1) * perPage + 1
            && p.last == (if page < p.count then page * perPage else total)
            && p.first <= p.last
  {
    var n := CeilDiv(total, perPage);
    PageExists(page, perPage, total);
    CeilBounds(total, perPage);
    assert page * perPage == (page - 1) * perPage + perPage;
    if page < n {
      PageBefore(page, n - 1, perPage);
    } else {
      assert n * perPage == (n - 1) * perPage + perPage;
    }
  }

  /** Over all its pages the row ranges tile 1..total: they start at 1, follow on from each other
      without gap or overlap, and end at the total. */
  lemma RangesTile(page: int, perPage: int, total: int)
    requires perPage > 0 && page >= 1 && (page - 1) * perPage < total
    ensures var p := PageOf(page, perPage, total);
            && PageOf(1, perPage, total).first == 1
            && p.first <= p.last
            && (page < p.count ==> PageOf(page + 1, perPage, total).first == p.last + 1)
            && PageOf(p.count, perPage, total).last == total
  {
    RowBounds(page, perPage, total);
    CeilBounds(total, perPage);
    var n := PageOf(page, perPage, total).count;
    PageExists(1, perPage, total);
    PageExists(n, perPage, total);
    PageExists(page + 1, perPage, total);
    assert PageOf(n, perPage, total).count == n && PageOf(1, perPage, total).count == n;
    RowBounds(1, perPage, total);
    RowBounds(n, perPage, total);
    if page < n {
      assert PageOf(page + 1, perPage, total).count == n;
      RowBounds(page + 1, perPage, total);
    }
  }

  /** Each row is on exactly one page. */
  lemma RowOnOnePage(row: int, perPage: int, total: int)
    requires perPage > 0 && 1 <= row <= total
    ensures var n := CeilDiv(total, perPage);
            var k := (row - 1) / perPage + 1;
            && 1 <= k <= n
            && forall j :: 1 <= j <= n ==>
                 (PageOf(j, perPage, total).first <= row <= PageOf(j, perPage, total).last <==> j == k)
  {
    var n := CeilDiv(total, perPage);
    var k := (row - 1) / perPage + 1;
    CeilBounds(total, perPage);
    assert row - 1 == (k - 1) * perPage + (row - 1) % perPage;
    assert k * perPage == (k - 1) * perPage + perPage;
    if k > n { PageBefore(n, k - 1, perPage); }
    forall j | 1 <= j <= n
      ensures PageOf(j, perPage, total).first <= row <= PageOf(j, perPage, total).last <==> j == k
    {
      PageExists(j, perPage, total);
      RowBounds(j, perPage, total);
      assert j * perPage == (j - 1) * perPage + perPage;
      if j < k { PageBefore(j, k - 1, perPage); }
      if j > k { PageBefore(k, j - 1, perPage); }
    }
  }
}
