# Book catalog browser: search and pagination state

A model of the search-and-pagination logic of a client-side book catalog
(`scripts.js`), with the DOM code taken out. The page shows a grid of book
previews. It has a search form that filters the catalog by title, author and
genre, a "Show more" button that reveals the next page of matches, and a
detail overlay for a book picked by its id.

The model has three modules:

- `JsString` (`jsstring.dfy`) models the JavaScript string built-ins the filter
  relies on. `Trim` strips the ECMAScript whitespace and line-terminator
  characters from both ends. `Lower` is `toLowerCase`. `Includes` is
  `String.prototype.includes`.
- `Catalog` (`catalog.dfy`) holds the `Book` and `Filters` records and the
  specification `Filtered`. It also holds the search loop `Search`, the
  genre loop with its early exit `GenreMatch`, and the id lookup loop
  `FindById`.
- `Pagination` (`pagination.dfy`) holds `Slice`, the clamped meaning of
  `Array.prototype.slice`. It also holds the remaining-count and disabled
  rules, and the class `BookPreview`. That class keeps the page state:
  `books`, `booksPerPage`, `page` and `matches`, plus `rendered`, the books
  the list container shows, in order.

The handlers in the source read and write the free variables `page` and
`matches`. The fields of the class are `this.page` and `this.matches`. The
model uses one state, the `BookPreview` fields, as the handlers intend.
`BOOKS_PER_PAGE` comes from a data file that is not part of this model. It is
the `booksPerPage` parameter of the constructor here.

Two behaviours of the handlers that the model keeps:

- Only the search handler writes the button's label and disabled flag
  (`scripts.js:258-263`). The show-more handler leaves both alone, so
  `SubmitSearch` returns them and `ShowMore` returns nothing.
- "Show more" runs `page += 1` on every click, even once every match is shown.
  The slice it appends is then empty.

## Model

| member | source | states |
|---|---|---|
| `JsString.Trim` | scripts.js:217 | `query.trim()` returns a contiguous piece of the query that neither starts nor ends with a whitespace or line-terminator character |
| `JsString.Lower` | scripts.js:217 | `toLowerCase()` keeps the length, leaves no upper-case ASCII letter, and changes a character only from 'A'..'Z' to its lower-case letter |
| `JsString.Includes` | scripts.js:217 | `includes` always finds the empty needle and never finds a needle longer than the haystack |
| `JsString.TrimEmptyIffAllWhitespace` | scripts.js:217 | `query.trim() === ''` holds exactly when every character of the query is ECMAScript whitespace or a line terminator |
| `JsString.IncludesIffOccurs` | scripts.js:217 | `includes` is substring containment: true exactly when the needle occurs at some index of the haystack |
| `JsString.NotIncludedWithoutFirstChar` | scripts.js:217 | a needle whose first character does not occur in the haystack is not included in it |
| `JsString.LowerIdempotent` | scripts.js:217 | lower-casing an already lower-cased string changes nothing |
| `JsString.LowerKeepsBlankness` | scripts.js:217 | lower-casing a query does not change whether it is blank |
| `Catalog.TitleMatches` | scripts.js:217 | holds when the query is blank after `trim`, or when the lower-cased title includes the lower-cased query |
| `Catalog.AuthorMatches` | scripts.js:218 | holds when the author filter is "any" or equals the book's author id |
| `Catalog.GenreMatches` | scripts.js:209-214 | holds when the genre filter is "any" or is one of the book's genre ids |
| `Catalog.Matches` | scripts.js:216-219 | the condition of the `if` that pushes a book: the title, author and genre tests all hold |
| `Catalog.Filtered` | scripts.js:206-223 | the search result by definition: the matching books in catalog order. It is never longer than the catalog, and every book in it matches |
| `Catalog.MatchPositions` | scripts.js:208-223 | the positions of the matching books are increasing, lie inside the catalog, and are exactly the positions where all three tests hold |
| `Catalog.FilteredSelectsMatchPositions` | scripts.js:208-223 | the search result is the catalog read at the matching positions, one for one, in catalog order |
| `Catalog.FilteredIsSubsequence` | scripts.js:206-223 | the search result is a subsequence of the catalog, in the catalog's order |
| `Catalog.FilteredMembership` | scripts.js:216-222 | a book is in the result exactly when it is in the catalog and its title, author and genre tests all hold |
| `Catalog.BlankFilterKeepsCatalog` | scripts.js:209-218 | a blank or whitespace-only title with author "any" and genre "any" returns the whole catalog, in order |
| `Catalog.TitleMatchIgnoresCase` | scripts.js:217 | the title test gives the same answer when either the title or the query is lower-cased first |
| `Catalog.TitleMatchIsContainment` | scripts.js:217 | for a non-blank query, the title test holds exactly when the lower-cased query, untrimmed, occurs in the lower-cased title |
| `Catalog.WarFound` | scripts.js:217 | the query "war" matches the title "War and Peace" |
| `Catalog.WarNotFound` | scripts.js:217 | the query "war" does not match the title "Peace Accord" |
| `Catalog.PeaceFound` | scripts.js:217 | the query "PEACE" matches "War and Peace": case is ignored |
| `Catalog.UntrimmedQueryExample` | scripts.js:217 | the query "Peace " does not match the title "Peace", while "Peace" does: the query is not trimmed for containment |
| `Catalog.WarAndPeaceExample` | scripts.js:206-223 | searching "war" over "War and Peace" and "Peace Accord" keeps only the first |
| `Catalog.GenreMatch` | scripts.js:209-214 | the genre loop with its early `break` yields true exactly when the genre filter is "any" or is one of the book's genres |
| `Catalog.Search` | scripts.js:206-223 | the search loop returns exactly `Filtered(books, filters)`, the matching books in catalog order |
| `Catalog.FindById` | scripts.js:304-311 | the lookup returns nothing exactly when no book has the id. Otherwise it returns a book with that id such that no earlier book has it |
| `Pagination.Slice` | scripts.js:272 | `slice(start, end)` with non-negative bounds: the items from `start`, up to `end` clamped to the length, and none when `start` is not below both |
| `Pagination.Remaining` | scripts.js:262 | the label's count: how far the number of matches exceeds `page` full pages, floored at 0. It is 0 exactly when `page*N` covers all matches |
| `Pagination.Disabled` | scripts.js:258 | the button's disabled flag `matches.length - page*N < 1`, which is set exactly when `Remaining` at the same `page` is 0 |
| `Pagination.ShownAfter` | scripts.js:269-294 | the list after a search and then `k` clicks: the first batch, then one batch `slice(i*N, (i+1)*N)` appended per click |
| `Pagination.SliceConcat` | scripts.js:272 | two adjacent slices concatenate to the slice over their union, so batches appended in turn form one slice |
| `Pagination.SliceFromZero` | scripts.js:237 | a slice from 0 to `N` is the first `min(N, length)` items |
| `Pagination.BatchAtMostPerPage` | scripts.js:272 | each batch `slice(page*N, (page+1)*N)` holds at most `N` books |
| `Pagination.RemainingCountsUnrendered` | scripts.js:262 | the remaining count equals the number of matches outside the first `page` pages, so it is never negative |
| `Pagination.RemainingAfterOneMorePage` | scripts.js:262 | as a function of `page`, the line-262 expression at `page + 1` is `N` less than at `page`, or 0 on the last partial page and beyond. The program itself evaluates it only in the search handler, with `page = 1` |
| `Pagination.ShownAfterIsPrefix` | scripts.js:269-294 | after a search and `k` clicks on "Show more", the list shows `matches[0 .. min((k+1)*N, length))` |
| `Pagination.FiveBooksTwoPerPage` | scripts.js:262 | five matches, two per page: after a search and 0 to 3 clicks the list shows 2, 4, 5, 5 books. The line-262 expression gives 3 at `page = 1`, the value the label shows and keeps after clicks. Recomputed at `page` = 2, 3, 4 it would give 1, 0, 0 |
| `Pagination.BookPreview.constructor` | scripts.js:8-15 | a new state keeps the catalog and page size, with `page = 1`, `matches` the whole catalog, and nothing rendered |
| `Pagination.BookPreview.InitializeBookPreviews` | scripts.js:55-60 | the initial render appends `books.slice(0, booksPerPage)` to the list. From a fresh state, this leaves the list showing the first page of the matches. The model follows the evident intent here, see the container selector under Left out |
| `Pagination.BookPreview.SubmitSearch` | scripts.js:202-263 | a search sets `matches` to the filter result and `page` to 1. The list becomes the first `min(N, length)` matches. It reports "no results" exactly when nothing matched, plus a remaining count equal to the matches not shown and a disabled flag set exactly when that count is 0 |
| `Pagination.BookPreview.ShowMore` | scripts.js:269-294 | "Show more" appends `matches.slice(page*N, (page+1)*N)` and raises `page` by exactly 1. It keeps the list equal to the first `page` pages of the matches |
| `Pagination.BookPreview.RemainingCount` | scripts.js:262 | the count `SubmitSearch` puts in the label: in a consistent state it is the number of matches not yet rendered |

## Left out

- DOM construction and mutation: building elements, `innerHTML` templates, fragments, `querySelector`, dialog `open` flags and `scrollTo`. These are browser I/O. The list container is modelled only as the sequence `rendered` of books it shows.
- Theme switching (`matchMedia`, CSS custom properties). This is environment queries and styling.
- The genre and author dropdown classes. They only build DOM options, and they refer to undefined variables and a misspelled method, so they cannot run.
- The initial button label and disabled flag set in the `EventHandler` class body (`scripts.js:156-162`). Its first label, at line 156, is `books.length - BOOKS_PER_PAGE` without a floor; lines 160-162 then overwrite it with the floored count. The flag at lines 157-158 is the inverse of the rule the search handler uses at line 258. This code is treated as a defect, not as behaviour.
- `scripts.js` does not parse as written: `class EventHandler()` has a parameter list and plain statements directly in its class body (line 151 on), and line 328 carries TypeScript type annotations. The model follows the evident intent of the handlers at lines 202-294: each runs as an event handler on one shared state.
- `initializeBookPreviews` passes the malformed selector `'[data-list-items}'` to `querySelector` (line 56). That call throws before the slice at line 57 runs. The model follows the evident intent of lines 55-58 and renders the first page.
- The walk along the click event's `composedPath` that finds the preview's `data-preview` id. `FindById` takes that id as a parameter. The year shown in the detail overlay comes from date parsing in a library and is left out too.
- The stub functions that only throw, and the custom-element shells `components/book-preview.js` and `components/settings-modal.js`. These have no logic.
- Resolving author names through the `authors` map. It is used only for display.
- Strings are sequences of Unicode scalar values, while JavaScript strings are sequences of UTF-16 code units, so lone surrogates cannot be written. On well-formed text this does not change what `trim` and `includes` return.
- `JsString.Lower` covers only ASCII `A`-`Z`. JavaScript's `toLowerCase` also maps the rest of Unicode, which this model does not capture.
- Form data is taken to hold all three fields as strings, as the search form always submits them.
