/**
 * The book catalog: its records, the search form's filters, the filter scan
 * run on every search submission, and the lookup of a clicked preview's book.
 */
module Catalog {
  import opened JsString

  datatype Option<T> = None | Some(value: T)

  /** One record of the static `books` list. `author` and `genres` hold ids. */
  datatype Book = Book(
    id: string,
    title: string,
    author: string,
    image: string,
    description: string,
    published: string,
    genres: seq<string>)

  /** The search form's fields; author and genre are an id or the word "any". */
  datatype Filters = Filters(title: string, author: string, genre: string)

  const Any: string := "any"

  /** The query is blank after `trim`, or the lower-cased title contains the lower-cased query. */
  predicate TitleMatches(title: string, query: string) {
    Trim(query) == [] || Includes(Lower(title), Lower(query))
  }

  predicate AuthorMatches(book: Book, f: Filters) {
    f.author == Any || book.author == f.author
  }

  predicate GenreMatches(book: Book, f: Filters) {
    f.genre == Any || f.genre in book.genres
  }

  /** The condition under which the search keeps a book. */
  predicate Matches(book: Book, f: Filters) {
    TitleMatches(book.title, f.title) && AuthorMatches(book, f) && GenreMatches(book, f)
  }

  /** The books of `books` that match `f`, in catalog order: never more books, and each one matching. */
  function Filtered(books: seq<Book>, f: Filters): (r: seq<Book>)
    ensures |r| <= |books|
    ensures forall k :: 0 <= k < |r| ==> Matches(r[k], f)
  {
    if books == [] then []
    else
      var last := books[|books| - 1];
      Filtered(books[..|books| - 1], f) + (if Matches(last, f) then [last] else [])
  }

  /** `idx` lists positions below `n` in strictly increasing order. */
  ghost predicate IncreasingPositions(idx: seq<nat>, n: nat) {
    (forall k :: 0 <= k < |idx| ==> idx[k] < n)
    && (forall a, b :: 0 <= a < b < |idx| ==> idx[a] < idx[b])
  }

  /** `r` is obtained from `s` by deleting elements, keeping the order of the rest. */
  ghost predicate IsSubsequence<T>(r: seq<T>, s: seq<T>) {
    exists idx: seq<nat> :: |idx| == |r| && IncreasingPositions(idx, |s|)
                            && forall k :: 0 <= k < |idx| ==> s[idx[k]] == r[k]
  }

  /** The positions of the matching books, in increasing order: exactly those at which `Matches` holds. */
  ghost function MatchPositions(books: seq<Book>, f: Filters): (idx: seq<nat>)
    ensures IncreasingPositions(idx, |books|)
    ensures forall j :: 0 <= j < |books| ==> (j in idx <==> Matches(books[j], f))
  {
    if books == [] then []
    else
      var n := |books| - 1;
      var front := books[..n];
      var rest := MatchPositions(front, f);
      assert forall j :: 0 <= j < n ==> books[j] == front[j];
      rest + (if Matches(books[n], f) then [n] else [])
  }

  /** The search result is the catalog read at the matching positions, one for one. */
  lemma {:induction false} FilteredSelectsMatchPositions(books: seq<Book>, f: Filters)
    ensures |Filtered(books, f)| == |MatchPositions(books, f)|
    ensures forall k :: 0 <= k < |Filtered(books, f)| ==> Filtered(books, f)[k] == books[MatchPositions(books, f)[k]]
  {
    if books != [] {
      var n := |books| - 1;
      FilteredSelectsMatchPositions(books[..n], f);
    }
  }

  /** The search result is a subsequence of the catalog. */
  lemma FilteredIsSubsequence(books: seq<Book>, f: Filters)
    ensures IsSubsequence(Filtered(books, f), books)
  {
    FilteredSelectsMatchPositions(books, f);
    var idx := MatchPositions(books, f);
    assert |idx| == |Filtered(books, f)| && IncreasingPositions(idx, |books|)
           && forall k :: 0 <= k < |idx| ==> books[idx[k]] == Filtered(books, f)[k];
  }

  /** A book is in the result exactly when it is in the catalog and all three tests hold for it. */
  lemma {:induction false} FilteredMembership(books: seq<Book>, f: Filters, b: Book)
    ensures b in Filtered(books, f) <==> b in books && Matches(b, f)
  {
    if books != [] {
      var n := |books| - 1;
      FilteredMembership(books[..n], f, b);
      assert books == books[..n] + [books[n]];
    }
  }

  /** A blank title with author and genre both "any" keeps the whole catalog, in order. */
  lemma {:induction false} BlankFilterKeepsCatalog(books: seq<Book>, f: Filters)
    requires AllWhitespace(f.title) && f.author == Any && f.genre == Any
    ensures Filtered(books, f) == books
  {
    TrimEmptyIffAllWhitespace(f.title);
    if books != [] {
      var n := |books| - 1;
      BlankFilterKeepsCatalog(books[..n], f);
      assert books == books[..n] + [books[n]];
    }
  }

  /**
   * The title test ignores case on both sides. The query is lower-cased but not
   * trimmed before the containment test, so surrounding spaces must occur in the title.
   */
  lemma TitleMatchIgnoresCase(title: string, query: string)
    ensures TitleMatches(Lower(title), query) == TitleMatches(title, query)
    ensures TitleMatches(title, Lower(query)) == TitleMatches(title, query)
  {
    LowerIdempotent(title);
    LowerIdempotent(query);
    LowerKeepsBlankness(query);
    TrimEmptyIffAllWhitespace(query);
    TrimEmptyIffAllWhitespace(Lower(query));
  }

  /** A non-blank query matches exactly when its lower-cased form occurs in the lower-cased title. */
  lemma TitleMatchIsContainment(title: string, query: string)
    requires !AllWhitespace(query)
    ensures TitleMatches(title, query) <==> exists i :: OccursAt(Lower(title), Lower(query), i)
  {
    TrimEmptyIffAllWhitespace(query);
    IncludesIffOccurs(Lower(title), Lower(query));
  }

  /**
   * The genre loop: the flag starts as "filter is any", the loop leaves as
   * soon as it is set, and otherwise sets it on an equal genre.
   */
  method GenreMatch(genres: seq<string>, genre: string) returns (genreMatch: bool)
    ensures genreMatch <==> genre == Any || genre in genres
  {
    genreMatch := genre == Any;
    var i := 0;
    while i < |genres|
      invariant 0 <= i <= |genres|
      invariant genreMatch <==> genre == Any || genre in genres[..i]
    {
      if genreMatch { break; }
      if genres[i] == genre { genreMatch := true; }
      i := i + 1;
    }
    assert i == |genres| ==> genres[..i] == genres;
  }

  /** The search scan: one pass over the catalog, pushing each book that passes all three tests. */
  method Search(books: seq<Book>, f: Filters) returns (result: seq<Book>)
    ensures result == Filtered(books, f)
  {
    result := [];
    var i := 0;
    while i < |books|
      invariant 0 <= i <= |books|
      invariant result == Filtered(books[..i], f)
    {
      var book := books[i];
      var genreMatch := GenreMatch(book.genres, f.genre);
      if (Trim(f.title) == [] || Includes(Lower(book.title), Lower(f.title)))
         && (f.author == Any || book.author == f.author)
         && genreMatch
      {
        result := result + [book];
      }
      assert books[..i + 1][..i] == books[..i];
      i := i + 1;
    }
    assert books[..i] == books;
  }

  /** The loop over the catalog that keeps the first book whose id equals `id`, then stops. */
  method FindById(books: seq<Book>, id: string) returns (result: Option<Book>)
    ensures result.None? <==> forall j :: 0 <= j < |books| ==> books[j].id != id
    ensures result.Some? ==> exists j :: 0 <= j < |books| && books[j] == result.value
                                         && result.value.id == id
                                         && forall k :: 0 <= k < j ==> books[k].id != id
  {
    result := None;
    ghost var at := 0;
    var i := 0;
    while i < |books|
      invariant 0 <= i <= |books|
      invariant result.None? ==> forall j :: 0 <= j < i ==> books[j].id != id
      invariant result.Some? ==> 0 <= at < i && books[at] == result.value && result.value.id == id
                                 && forall k :: 0 <= k < at ==> books[k].id != id
    {
      if result.Some? { break; }
      if books[i].id == id {
        result := Some(books[i]);
        at := i;
      }
      i := i + 1;
    }
  }

  /** The query "war" matches the title "War and Peace". */
  lemma WarFound()
    ensures TitleMatches("War and Peace", "war")
  {
    assert Lower("War and Peace") == "war and peace";
    assert Lower("war") == "war";
    assert Includes("war and peace", "war");
  }

  /** The query "war" does not match "Peace Accord". */
  lemma WarNotFound()
    ensures !TitleMatches("Peace Accord", "war")
  {
    assert Lower("Peace Accord") == "peace accord";
    assert Lower("war") == "war";
    assert !IsWhitespace("war"[0]);
    TrimEmptyIffAllWhitespace("war");
    NotIncludedWithoutFirstChar("peace accord", "war");
  }

  /** The query "PEACE" matches "War and Peace": case is ignored. */
  lemma PeaceFound()
    ensures TitleMatches("War and Peace", "PEACE")
  {
    assert Lower("War and Peace") == "war and peace";
    assert Lower("PEACE") == "peace";
    IncludesIffOccurs("war and peace", "peace");
    assert OccursAt("war and peace", "peace", 8);
  }

  /** The query "Peace " drops a book titled "Peace": the query is not trimmed before the test. */
  lemma UntrimmedQueryExample()
    ensures !TitleMatches("Peace", "Peace ") && TitleMatches("Peace", "Peace")
  {
    assert Lower("Peace ") == "peace " && Lower("Peace") == "peace";
    assert !IsWhitespace("Peace "[0]);
    TrimEmptyIffAllWhitespace("Peace ");
  }

  /** Searching "war" over "War and Peace" and "Peace Accord" keeps only the former. */
  lemma WarAndPeaceExample(a: Book, b: Book)
    requires a.title == "War and Peace" && b.title == "Peace Accord"
    ensures Filtered([a, b], Filters("war", Any, Any)) == [a]
  {
    var f := Filters("war", Any, Any);
    WarFound();
    WarNotFound();
    assert Matches(a, f) && !Matches(b, f);
    assert [a, b][..1] == [a] && [a][..0] == [];
    assert Filtered([a], f) == [a];
  }
}
