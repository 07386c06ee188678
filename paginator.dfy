/**
  The paginator of the events list view: the page count, the strip of page
  links written into the pagination container, the slice of table rows a page
  shows, and the re-highlighting of the strip after a click.
*/
module Paginator {
  import opened Basics

  /** Rows per page (`pageSize`, never reassigned). */
  const PageSize: nat := 10

  /** `Math.ceil(items / pageSize)`: the fewest pages of `PageSize` rows that hold `items` rows. */
  function TotalPages(items: nat): (pages: nat)
    ensures (pages - 1) * PageSize < items <= pages * PageSize
  {
    (items + PageSize - 1) / PageSize
  }

  /** Controls are written only for more than one page, that is, for more than `PageSize` rows. */
  lemma StripNeededIff(items: nat)
    ensures TotalPages(items) > 1 <==> items > PageSize
  {
  }

  /** The three kinds of link in the strip. */
  datatype LinkKind = Previous | PageNumber | Next

  /**
    One `<li class="page-item">` of the strip with its `<a class="page-link">`:
    the link's `data-page` number and the item's `active` and `disabled` classes.
  */
  datatype Link = Link(kind: LinkKind, page: int, active: bool, disabled: bool)

  /**
    The strip `updatePagination` writes for the current page `current` and
    `total` pages: Previous, the page links 1 to `total`, Next.
  */
  function Strip(current: int, total: nat): (links: seq<Link>)
    ensures |links| == total + 2
    ensures links[0].kind == Previous && links[0].page == current - 1
    ensures links[total + 1].kind == Next && links[total + 1].page == current + 1
    ensures forall k :: 1 <= k <= total ==> links[k].kind == PageNumber && links[k].page == k
    ensures links[0].disabled <==> current == 1
    ensures links[total + 1].disabled <==> current == total
    ensures forall k :: 1 <= k <= total ==> !links[k].disabled
    ensures forall k :: 0 <= k < |links| ==> (links[k].active <==> 1 <= k <= total && k == current)
  {
    [Link(Previous, current - 1, false, current == 1)]
    + seq(total, i requires 0 <= i < total => Link(PageNumber, i + 1, i + 1 == current, false))
    + [Link(Next, current + 1, false, current == total)]
  }

  /**
    `updatePagination`'s loop: the strip is built by appending Previous, one
    link per page and Next, and is the strip above.
  */
  method RenderStrip(current: int, total: nat) returns (links: seq<Link>)
    ensures links == Strip(current, total)
  {
    ghost var spec := Strip(current, total);
    links := [Link(Previous, current - 1, false, current == 1)];
    for i := 1 to total + 1
      invariant |links| == i
      invariant forall k :: 0 <= k < i ==> links[k] == spec[k]
    {
      links := links + [Link(PageNumber, i, i == current, false)];
    }
    links := links + [Link(Next, current + 1, false, current == total)];
  }

  /** For a current page among the pages, exactly one link is active: the one for that page. */
  lemma {:induction false} ExactlyOneActive(current: int, total: nat)
    requires 1 <= current <= total
    ensures CountTrue(ActiveFlags(Strip(current, total))) == 1
  {
    var links := Strip(current, total);
    var flags := ActiveFlags(links);
    OnlyFlag(flags, current);
  }

  /** The `active` classes of a strip, in order. */
  function ActiveFlags(links: seq<Link>): (flags: seq<bool>)
    ensures |flags| == |links|
    ensures forall k :: 0 <= k < |links| ==> flags[k] == links[k].active
  {
    seq(|links|, k requires 0 <= k < |links| => links[k].active)
  }

  /** A sequence of flags with one `true` at index `j` counts one. */
  lemma {:induction false} OnlyFlag(flags: seq<bool>, j: nat)
    requires j < |flags| && flags[j]
    requires forall k :: 0 <= k < |flags| && k != j ==> !flags[k]
    ensures CountTrue(flags) == 1
  {
    var last := |flags| - 1;
    var prefix := flags[..last];
    if j == last {
      CountTrueZero(prefix);
    } else {
      OnlyFlag(prefix, j);
    }
  }

  /** The first table index that page `page` shows. */
  function PageStart(page: int): int {
    (page - 1) * PageSize
  }

  /**
    The display flags `displayPage(page)` gives the `n` rows of the table:
    a row is shown exactly when its index lies in `[(page - 1) * 10, page * 10)`.
  */
  function PageWindow(n: nat, page: int): (shown: seq<bool>)
    ensures |shown| == n
    ensures forall i :: 0 <= i < n ==> (shown[i] <==> PageStart(page) <= i < PageStart(page) + PageSize)
  {
    seq(n, i requires 0 <= i < n => PageStart(page) <= i < PageStart(page) + PageSize)
  }

  /** `x` forced into `[0, n]`. */
  function Clamp(x: int, n: nat): (y: nat)
    ensures y <= n
    ensures 0 <= x <= n ==> y == x
  {
    if x < 0 then 0 else if x > n then n else x
  }

  /**
    The number of rows a page shows is the size of the part of its index range
    that lies in the table, hence at most `PageSize`.
  */
  lemma {:induction false} WindowCount(n: nat, page: int)
    ensures CountTrue(PageWindow(n, page)) == Clamp(PageStart(page) + PageSize, n) - Clamp(PageStart(page), n)
    ensures CountTrue(PageWindow(n, page)) <= PageSize
  {
    if n > 0 {
      WindowCount(n - 1, page);
      assert PageWindow(n, page)[..n - 1] == PageWindow(n - 1, page);
    }
  }

  /** A page that starts past the end of the table shows no row. */
  lemma PagePastEndShowsNothing(n: nat, page: int)
    requires n <= PageStart(page)
    ensures CountTrue(PageWindow(n, page)) == 0
  {
    WindowCount(n, page);
  }

  /**
    `updatePaginationButtons(active)`: every item's `active` class is removed
    and put back exactly where the link's `data-page` equals `active`.
  */
  function Activate(links: seq<Link>, active: int): (r: seq<Link>)
    ensures |r| == |links|
    ensures forall k :: 0 <= k < |r| ==> (r[k].active <==> links[k].page == active)
    ensures forall k :: 0 <= k < |r| ==> r[k].kind == links[k].kind && r[k].page == links[k].page && r[k].disabled == links[k].disabled
  {
    seq(|links|, k requires 0 <= k < |links| => links[k].(active := links[k].page == active))
  }

  /**
    Clicking Next on a strip drawn for page `current` marks two items active:
    the page link for `current + 1` and the Next link itself, whose `data-page`
    is also `current + 1`.
  */
  lemma NextClickMarksTwoLinks(current: int, total: nat)
    requires 1 <= current < total
    ensures var r := Activate(Strip(current, total), current + 1);
      r[current + 1].active && r[total + 1].active
      && CountTrue(ActiveFlags(r)) >= 2
  {
    var r := Activate(Strip(current, total), current + 1);
    var flags := ActiveFlags(r);
    TwoFlags(flags, current + 1, total + 1);
  }

  /** A sequence of flags with `true` at two indices counts at least two. */
  lemma {:induction false} TwoFlags(flags: seq<bool>, i: nat, j: nat)
    requires i < j < |flags| && flags[i] && flags[j]
    ensures CountTrue(flags) >= 2
  {
    var prefix := flags[..|flags| - 1];
    if j == |flags| - 1 {
      assert prefix[i];
      CountTrueZero(prefix);
    } else {
      TwoFlags(prefix, i, j);
    }
  }

  /** Two links that differ at most in their `active` class. */
  predicate SameControl(a: Link, b: Link) {
    a.kind == b.kind && a.page == b.page && a.disabled == b.disabled
  }

  /**
    `links` is a strip of at least two pages drawn for page 1, with any
    `active` marks: Previous carries 0, the page links 1 to the page count
    and Next carries 2.
  */
  ghost predicate DrawnForFirstPage(links: seq<Link>) {
    && |links| >= 4
    && forall k :: 0 <= k < |links| ==> SameControl(links[k], Strip(1, |links| - 2)[k])
  }

  /** Moving the active mark keeps a strip drawn for page 1 as it was drawn. */
  lemma ActivateKeepsDrawing(links: seq<Link>, active: int)
    requires DrawnForFirstPage(links)
    ensures DrawnForFirstPage(Activate(links, active))
  {
  }

  /**
    In a strip drawn for page 1, Previous is the only link carrying 0, Next
    carries 2, and every link carries a page between 0 and the page count.
  */
  lemma FirstPageStripPages(links: seq<Link>)
    requires DrawnForFirstPage(links)
    ensures links[0].kind == Previous && links[0].page == 0
    ensures links[|links| - 1].kind == Next && links[|links| - 1].page == 2
    ensures forall k :: 0 <= k < |links| ==> 0 <= links[k].page <= |links| - 2
    ensures forall k :: 0 <= k < |links| ==> (links[k].page == 0 <==> k == 0)
  {
    var spec := Strip(1, |links| - 2);
    assert SameControl(links[0], spec[0]);
    assert SameControl(links[|links| - 1], spec[|links| - 1]);
    forall k | 0 <= k < |links|
      ensures 0 <= links[k].page <= |links| - 2 && (links[k].page == 0 <==> k == 0)
    {
      assert SameControl(links[k], spec[k]);
    }
  }

  /** Previous on the first page carries `data-page` 0; Next on the last page carries one past the last. */
  lemma BoundaryLinks(total: nat)
    requires total > 1
    ensures Strip(1, total)[0].page == 0 && Strip(1, total)[0].disabled
    ensures Strip(total, total)[total + 1].page == total + 1 && Strip(total, total)[total + 1].disabled
  {
  }
}
