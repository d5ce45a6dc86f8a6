/** The uninstaller's package table: a case-insensitive substring filter,
    pages of ten rows, the "Displaying s-e of n" caption, and the pager state
    that the filter box, the Clear button and the « / » buttons drive. */
module Paginator {
  import opened Text

  /** `itemsPerPage`. */
  const PageSize: nat := 10

  /** `item.toLowerCase().includes(currentFilter.toLowerCase())`. */
  predicate Matches(filter: string, item: string) {
    Contains(ToLower(item), ToLower(filter))
  }

  /** `packages.filter(...)`: the matching packages, in their original order. */
  function Filter(xs: seq<string>, filter: string): (r: seq<string>)
    ensures |r| <= |xs|
    ensures forall k :: 0 <= k < |r| ==> Matches(filter, r[k]) && r[k] in xs
    ensures forall x :: x in xs && Matches(filter, x) ==> x in r
  {
    if xs == [] then []
    else if Matches(filter, xs[0]) then [xs[0]] + Filter(xs[1..], filter)
    else Filter(xs[1..], filter)
  }

  /** Filtering a concatenation filters each part. */
  lemma {:induction false} FilterAppend(a: seq<string>, b: seq<string>, filter: string)
    ensures Filter(a + b, filter) == Filter(a, filter) + Filter(b, filter)
  {
    if a != [] {
      assert (a + b)[1..] == a[1..] + b;
      FilterAppend(a[1..], b, filter);
    } else {
      assert a + b == b;
    }
  }

  /** Filtering twice by the same text changes nothing more. */
  lemma {:induction false} FilterIdempotent(xs: seq<string>, filter: string)
    ensures Filter(Filter(xs, filter), filter) == Filter(xs, filter)
  {
    if xs != [] {
      FilterIdempotent(xs[1..], filter);
      if Matches(filter, xs[0]) {
        var r := Filter(xs[1..], filter);
        assert ([xs[0]] + r)[1..] == r;
      }
    }
  }

  /** The empty filter keeps every package: every string contains "". */
  lemma {:induction false} FilterEmpty(xs: seq<string>)
    ensures Filter(xs, "") == xs
  {
    if xs != [] {
      assert ToLower("") == "";
      assert StartsWith(ToLower(xs[0]), "");
      FilterEmpty(xs[1..]);
    }
  }

  /** `Math.ceil(n / itemsPerPage)`: the number of pages `n` rows fill. */
  function PageCount(n: nat): (c: nat)
    ensures c == 0 <==> n == 0
    ensures c > 0 ==> (c - 1) * PageSize < n <= c * PageSize
  {
    (n + PageSize - 1) / PageSize
  }

  /** The index of the first row of page `page` (1-based). */
  function Start(page: nat): nat
    requires page >= 1
  {
    (page - 1) * PageSize
  }

  /** `renderTable(page)`'s rows: `slice(start, min(start + 10, n))`, which is
      empty when the page starts past the end. */
  function Rows(xs: seq<string>, page: nat): (r: seq<string>)
    requires page >= 1
    ensures |r| <= PageSize
    ensures r == [] <==> Start(page) >= |xs|
    ensures forall k :: 0 <= k < |r| ==> Start(page) + k < |xs| && r[k] == xs[Start(page) + k]
  {
    var start := Start(page);
    var end := if start + PageSize < |xs| then start + PageSize else |xs|;
    if start >= end then [] else xs[start..end]
  }

  /** A page has rows exactly when its number is within the page count. */
  lemma PageHasRows(xs: seq<string>, page: nat)
    requires page >= 1
    ensures Rows(xs, page) != [] <==> page <= PageCount(|xs|)
  {
    var c := PageCount(|xs|);
    if page <= c {
      assert (page - 1) * PageSize <= (c - 1) * PageSize;
    } else if c > 0 {
      assert (page - 1) * PageSize >= c * PageSize;
    }
  }

  /** Every row lands on page `i / 10 + 1`, at position `i % 10`. */
  lemma RowPosition(xs: seq<string>, i: nat)
    requires i < |xs|
    ensures var p := i / PageSize + 1;
            i % PageSize < |Rows(xs, p)| && Rows(xs, p)[i % PageSize] == xs[i]
  {
    var p := i / PageSize + 1;
    assert Start(p) + i % PageSize == i;
  }

  /** The rows of page `page` and of every later page, in order. */
  function PagesFrom(xs: seq<string>, page: nat): seq<string>
    requires page >= 1
    decreases |xs| - Start(page)
  {
    if Start(page) >= |xs| then [] else Rows(xs, page) + PagesFrom(xs, page + 1)
  }

  /** Paging from `page` on shows the list from that page's first row. */
  lemma {:induction false} PagesFromSuffix(xs: seq<string>, page: nat)
    requires page >= 1
    ensures Start(page) <= |xs| ==> PagesFrom(xs, page) == xs[Start(page)..]
    decreases |xs| - Start(page)
  {
    var start := Start(page);
    if start < |xs| {
      PagesFromSuffix(xs, page + 1);
      var next := Start(page + 1);
      if next <= |xs| {
        assert Rows(xs, page) == xs[start..next];
        assert xs[start..] == xs[start..next] + xs[next..];
      } else {
        assert Rows(xs, page) == xs[start..];
      }
    }
  }

  /** Paging through every page shows each package exactly once, in order. */
  lemma PagesCoverList(xs: seq<string>)
    ensures PagesFrom(xs, 1) == xs
  {
    PagesFromSuffix(xs, 1);
  }

  /** The three numbers of `updatePageInfo`: the 1-based first row, the last
      row (`min(start + 9, total)`), and the filtered total. */
  datatype PageNumbers = PageNumbers(first: nat, last: nat, total: nat)

  function Numbers(total: nat, page: nat): (r: PageNumbers)
    requires page >= 1
    ensures r.total == total && r.first == Start(page) + 1
  {
    var first := Start(page) + 1;
    PageNumbers(first, if first + PageSize - 1 < total then first + PageSize - 1 else total, total)
  }

  /** On a page with rows, the caption names exactly the rows shown: the
      first and the last shown row, counted from 1. */
  lemma NumbersDescribeRows(xs: seq<string>, page: nat)
    requires page >= 1 && Rows(xs, page) != []
    ensures var n := Numbers(|xs|, page); var r := Rows(xs, page);
            n.last - n.first + 1 == |r|
            && r[0] == xs[n.first - 1] && r[|r| - 1] == xs[n.last - 1]
  {
  }

  /** The caption text. */
  function Caption(n: PageNumbers): (t: string)
    ensures StartsWith(t, "Displaying ")
  {
    "Displaying " + NatToString(n.first) + "-" + NatToString(n.last) + " of " + NatToString(n.total)
  }

  /** The caption reads back: different numbers give different captions. */
  lemma CaptionInjective(m: PageNumbers, n: PageNumbers)
    ensures Caption(m) == Caption(n) ==> m == n
  {
    if Caption(m) == Caption(n) {
      CaptionParts(NatToString(m.first), NatToString(m.last), NatToString(m.total),
                   NatToString(n.first), NatToString(n.last), NatToString(n.total));
      NatToStringInjective(m.first, n.first);
      NatToStringInjective(m.last, n.last);
      NatToStringInjective(m.total, n.total);
    }
  }

  /** The three digit strings of a caption are recovered from its text. */
  lemma CaptionParts(a: string, b: string, c: string, a': string, b': string, c': string)
    requires forall i :: 0 <= i < |a| ==> '0' <= a[i] <= '9'
    requires forall i :: 0 <= i < |b| ==> '0' <= b[i] <= '9'
    requires forall i :: 0 <= i < |a'| ==> '0' <= a'[i] <= '9'
    requires forall i :: 0 <= i < |b'| ==> '0' <= b'[i] <= '9'
    requires "Displaying " + a + "-" + b + " of " + c == "Displaying " + a' + "-" + b' + " of " + c'
    ensures a == a' && b == b' && c == c'
  {
    var p := "Displaying ";
    var t := p + a + "-" + b + " of " + c;
    var u, u' := b + [' '] + ("of " + c), b' + [' '] + ("of " + c');
    assert t[|p|..] == a + ['-'] + u;
    assert t[|p|..] == a' + ['-'] + u';
    DigitsBeforeMark(a, u, a', u', '-');
    DigitsBeforeMark(b, "of " + c, b', "of " + c', ' ');
    assert c == ("of " + c)[3..] == ("of " + c')[3..] == c';
  }

  /** `updatePageInfo()`: the caption of the current page of the filtered
      list. On a page with rows it names the first row shown, the last row
      shown and the number of matching packages, all counted from 1; on a page
      past the end it claims rows from the page's start to the total. */
  function PageInfo(packages: seq<string>, s: Pager): (t: string)
    requires s.page >= 1
    ensures var f := Filter(packages, s.filter); var r := Rows(f, s.page);
            r != [] ==> t == Caption(PageNumbers(Start(s.page) + 1, Start(s.page) + |r|, |f|))
    ensures var f := Filter(packages, s.filter); var r := Rows(f, s.page);
            r == [] ==> t == Caption(PageNumbers(Start(s.page) + 1, |f|, |f|))
  {
    var f := Filter(packages, s.filter);
    NumbersOfRows(f, s.page);
    Caption(Numbers(|f|, s.page))
  }

  /** The last number is the last row shown, or the total past the end. */
  lemma NumbersOfRows(xs: seq<string>, page: nat)
    requires page >= 1
    ensures var r := Rows(xs, page);
            Numbers(|xs|, page) == PageNumbers(Start(page) + 1, if r == [] then |xs| else Start(page) + |r|, |xs|)
  {
  }

  // ----------------------------------------------------------------- pager

  /** `currentPage` and `currentFilter`. */
  datatype Pager = Pager(page: nat, filter: string)

  /** The pager when the view renders. */
  const Init := Pager(1, "")

  /** The page numbers the buttons can reach: 1 up to the last page (1 when
      nothing matches). */
  predicate Valid(packages: seq<string>, s: Pager) {
    var c := PageCount(|Filter(packages, s.filter)|);
    1 <= s.page && (s.page == 1 || s.page <= c)
  }

  /** «: one page back unless on the first page. */
  function Prev(s: Pager): (t: Pager)
    ensures t.filter == s.filter
    ensures s.page > 1 ==> t.page + 1 == s.page
    ensures s.page <= 1 ==> t == s
  {
    if s.page > 1 then s.(page := s.page - 1) else s
  }

  /** »: one page forward while a later page of the filtered list exists. */
  function Next(packages: seq<string>, s: Pager): (t: Pager)
    ensures t.filter == s.filter
    ensures t.page == s.page || t.page == s.page + 1
    ensures t.page == s.page + 1 <==> s.page < PageCount(|Filter(packages, s.filter)|)
  {
    if s.page < PageCount(|Filter(packages, s.filter)|) then s.(page := s.page + 1) else s
  }

  /** A keystroke in the filter box: the new text, back to page 1. */
  function Type(text: string): (t: Pager)
    ensures t.page == 1 && t.filter == text
  {
    Pager(1, text)
  }

  /** Clear: no filter, page 1, the same state the view starts in. */
  function Clear(): (t: Pager)
    ensures t == Init
  {
    Pager(1, "")
  }

  /** Every handler keeps the pager on a reachable page. */
  lemma PagerStaysValid(packages: seq<string>, s: Pager, text: string)
    requires Valid(packages, s)
    ensures Valid(packages, Init)
    ensures Valid(packages, Prev(s)) && Valid(packages, Next(packages, s))
    ensures Valid(packages, Type(text)) && Valid(packages, Clear())
  {
  }

  /** On a reachable page the table shows rows whenever any package matches. */
  lemma ValidPageHasRows(packages: seq<string>, s: Pager)
    requires Valid(packages, s) && Filter(packages, s.filter) != []
    ensures Rows(Filter(packages, s.filter), s.page) != []
  {
    PageHasRows(Filter(packages, s.filter), s.page);
  }

  // ------------------------------------------------- initial caption

  /** The caption the view is first rendered with: `'Displaying 1-' +
      itemsPerPage + ' of ' + packages.length`. */
  function InitialInfoAsWritten(packages: seq<string>): (t: string)
    ensures t == Caption(PageNumbers(1, PageSize, |packages|))
  {
    assert NatToString(1) == "1";
    "Displaying 1-" + NatToString(PageSize) + " of " + NatToString(|packages|)
  }

  /** The first caption as `updatePageInfo` would write it for the initial
      pager: it names exactly the rows of the first page. */
  function InitialInfo(packages: seq<string>): (t: string)
    ensures t == PageInfo(packages, Init)
    ensures packages != [] ==>
              var n := Numbers(|packages|, 1);
              n.first == 1 && n.last == |Rows(packages, 1)| && n.total == |packages|
  {
    FilterEmpty(packages);
    Caption(Numbers(|packages|, 1))
  }

  /** With ten packages or more the written caption is the right one. */
  lemma InitialInfoAgreesFromTen(packages: seq<string>)
    requires |packages| >= PageSize
    ensures InitialInfoAsWritten(packages) == InitialInfo(packages)
  {
    assert Numbers(|packages|, 1) == PageNumbers(1, PageSize, |packages|);
    assert NatToString(1) == "1";
  }

  /** With three packages the first caption claims rows 1-10 while the first
      page shows rows 1-3. */
  lemma InitialInfoWrongForThree(packages: seq<string>)
    requires |packages| == 3
    ensures InitialInfoAsWritten(packages) == "Displaying 1-10 of 3"
    ensures InitialInfo(packages) == "Displaying 1-3 of 3"
  {
    SmallNumerals();
    assert Numbers(3, 1) == PageNumbers(1, 3, 3);
    assert InitialInfoAsWritten(packages) == Caption(PageNumbers(1, 10, 3));
  }

  /** The numerals the three-package captions use. */
  lemma SmallNumerals()
    ensures NatToString(1) == "1" && NatToString(3) == "3" && NatToString(10) == "10"
  {
    assert NatToString(0) == "0";
  }
}
