/**
 * The pagination cursor of the book list: which matches are rendered, the
 * page counter, and the "Show more" button's remaining count and disabled rule.
 */
module Pagination {
  import opened Catalog

  function Min(a: int, b: int): int { if a <= b then a else b }

  /**
   * `s.slice(start, end)` for non-negative bounds: the items from index `start`
   * up to, not including, `end`, with both bounds clamped to the length.
   */
  function Slice<T>(s: seq<T>, start: nat, end: nat): (r: seq<T>)
    ensures |r| == if start < end && start < |s| then Min(end, |s|) - start else 0
    ensures forall k :: 0 <= k < |r| ==> start + k < |s| && r[k] == s[start + k]
  {
    var from := Min(start, |s|);
    var to := Min(end, |s|);
    if to <= from then [] else s[from..to]
  }

  /**
   * The count in the button label: how far `count` exceeds `page` full pages,
   * floored at 0.
   */
  function Remaining(count: nat, page: nat, perPage: nat): (r: nat)
    ensures r <= count
    ensures r == 0 <==> count <= page * perPage
    ensures r > 0 ==> r + page * perPage == count
  {
    if count - page * perPage > 0 then count - page * perPage else 0
  }

  /** The button's `disabled` flag as the search handler computes it: set exactly when the label shows 0. */
  predicate Disabled(count: nat, page: nat, perPage: nat): (r: bool)
    ensures r <==> Remaining(count, page, perPage) == 0
  {
    count - page * perPage < 1
  }

  /** Two adjacent slices join into one. */
  lemma SliceConcat<T>(s: seq<T>, a: nat, b: nat, c: nat)
    requires a <= b <= c
    ensures Slice(s, a, b) + Slice(s, b, c) == Slice(s, a, c)
  {
    var x, y, z := Min(a, |s|), Min(b, |s|), Min(c, |s|);
    if x < y && y < z {
      assert s[x..y] + s[y..z] == s[x..z];
    }
  }

  /** A slice starting at 0 is a prefix, cut at the length when the end lies beyond it. */
  lemma SliceFromZero<T>(s: seq<T>, end: nat)
    ensures Slice(s, 0, end) == s[..Min(end, |s|)]
  {
  }

  /** A batch of the list never holds more than `perPage` books. */
  lemma BatchAtMostPerPage<T>(s: seq<T>, page: nat, perPage: nat)
    ensures |Slice(s, page * perPage, (page + 1) * perPage)| <= perPage
  {
    assert (page + 1) * perPage == page * perPage + perPage;
  }

  /** The remaining count is the number of matches not among the first `page` pages. */
  lemma RemainingCountsUnrendered<T>(matches: seq<T>, page: nat, perPage: nat)
    ensures Remaining(|matches|, page, perPage) == |matches| - |Slice(matches, 0, page * perPage)|
  {
  }

  /**
   * One more page lowers the remaining count by `perPage`, except on the last,
   * partial page, where it reaches 0 and stays there.
   */
  lemma RemainingAfterOneMorePage(count: nat, page: nat, perPage: nat)
    ensures Remaining(count, page + 1, perPage)
            == if Remaining(count, page, perPage) >= perPage then Remaining(count, page, perPage) - perPage else 0
  {
    assert (page + 1) * perPage == page * perPage + perPage;
  }

  /** What the list holds after a search and then `k` clicks on "Show more". */
  function ShownAfter<T>(matches: seq<T>, perPage: nat, k: nat): seq<T> {
    if k == 0 then Slice(matches, 0, perPage)
    else ShownAfter(matches, perPage, k - 1) + Slice(matches, k * perPage, (k + 1) * perPage)
  }

  /** After a search and `k` clicks, the list shows exactly the first (k + 1) pages of the matches. */
  lemma {:induction false} ShownAfterIsPrefix<T>(matches: seq<T>, perPage: nat, k: nat)
    ensures ShownAfter(matches, perPage, k) == matches[..Min((k + 1) * perPage, |matches|)]
  {
    if k > 0 {
      var done, upTo := k * perPage, (k + 1) * perPage;
      assert upTo == done + perPage;
      ShownAfterIsPrefix(matches, perPage, k - 1);
      SliceFromZero(matches, done);
      SliceConcat(matches, 0, done, upTo);
      SliceFromZero(matches, upTo);
    }
  }

  /**
   * The state behind the book list: the catalog, the page size, the current
   * matches and page counter, and the books rendered in the list, in order.
   */
  class BookPreview {
    const books: seq<Book>
    const booksPerPage: nat
    var page: nat
    var matches: seq<Book>
    var rendered: seq<Book>

    /** The list shows exactly the first `page` pages of the matches. */
    predicate Consistent()
      reads this
    {
      rendered == Slice(matches, 0, page * booksPerPage)
    }

    constructor (books: seq<Book>, booksPerPage: nat)
      ensures this.books == books && this.booksPerPage == booksPerPage
      ensures page == 1 && matches == books && rendered == []
    {
      this.books := books;
      this.booksPerPage := booksPerPage;
      page := 1;
      matches := books;
      rendered := [];
    }

    /** The initial render appends the first page of the catalog to the list. */
    method InitializeBookPreviews()
      modifies this
      ensures rendered == old(rendered) + Slice(books, 0, booksPerPage)
      ensures page == old(page) && matches == old(matches)
      ensures old(rendered) == [] && page == 1 && matches == books ==> Consistent()
    {
      rendered := rendered + Slice(books, 0, booksPerPage);
    }

    /**
     * The search handler: filter the catalog, reset to the first page, replace
     * the list by the first page of the result, and report the "no results"
     * message, the button's disabled flag and its remaining count.
     */
    method SubmitSearch(f: Filters) returns (noResults: bool, disabled: bool, remaining: nat)
      modifies this
      ensures matches == Filtered(books, f) && page == 1
      ensures rendered == matches[..Min(booksPerPage, |matches|)]
      ensures Consistent()
      ensures noResults <==> matches == []
      ensures remaining == |matches| - |rendered|
      ensures disabled <==> remaining == 0
    {
      var result := Search(books, f);
      page := 1;
      matches := result;
      noResults := |result| < 1;
      rendered := Slice(result, 0, booksPerPage);
      SliceFromZero(result, booksPerPage);
      disabled := Disabled(|matches|, page, booksPerPage);
      remaining := RemainingCount();
    }

    /**
     * The "Show more" handler: append the next page of the matches and advance
     * the page counter. It does not touch the button's label or flag.
     */
    method ShowMore()
      modifies this
      ensures rendered == old(rendered) + Slice(matches, old(page) * booksPerPage, (old(page) + 1) * booksPerPage)
      ensures page == old(page) + 1 && matches == old(matches)
      ensures old(Consistent()) ==> Consistent()
      ensures old(Consistent()) ==> rendered == matches[..Min(page * booksPerPage, |matches|)]
    {
      var next := Slice(matches, page * booksPerPage, (page + 1) * booksPerPage);
      ghost var before := page;
      rendered := rendered + next;
      page := page + 1;
      assert page * booksPerPage == before * booksPerPage + booksPerPage;
      SliceConcat(matches, 0, before * booksPerPage, page * booksPerPage);
      SliceFromZero(matches, page * booksPerPage);
    }

    /** The button's remaining count for the current state. */
    function RemainingCount(): (r: nat)
      reads this
      requires Consistent()
      ensures r == |matches| - |rendered|
    {
      RemainingCountsUnrendered(matches, page, booksPerPage);
      Remaining(|matches|, page, booksPerPage)
    }
  }

  /** The worked example: five matches, two per page. */
  lemma FiveBooksTwoPerPage<T>(m: seq<T>)
    requires |m| == 5
    ensures |ShownAfter(m, 2, 0)| == 2 && Remaining(5, 1, 2) == 3
    ensures |ShownAfter(m, 2, 1)| == 4 && Remaining(5, 2, 2) == 1
    ensures |ShownAfter(m, 2, 2)| == 5 && Remaining(5, 3, 2) == 0
    ensures |ShownAfter(m, 2, 3)| == 5 && Remaining(5, 4, 2) == 0
  {
    ShownAfterIsPrefix(m, 2, 0);
    ShownAfterIsPrefix(m, 2, 1);
    ShownAfterIsPrefix(m, 2, 2);
    ShownAfterIsPrefix(m, 2, 3);
  }
}
