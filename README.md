# Bookshelf: a Dafny model of the book-list script

The script keeps a list of books (title, author, isbn) in the browser's
`localStorage` under the key `'books'`. It shows them as rows of the table body
`#book-list` and reacts to two events. The form submit adds a book. A click on a
row's delete link removes it. This project models the script's three pieces of
state:

- **the store**: the value under `'books'`, which is absent, the empty string,
  or the JSON text of a list of books;
- **the view**: the rows of the table body, each a data row for a book, the
  "No books to show" placeholder row, or a blank row (see below);
- **the effects**: the three form inputs, and the log of alert banners with
  their kind (`success` or `error`).

It models the static methods that change this state, and the two listeners
that call them in sequence. It proves what each one leaves behind.

Files and modules:

- `book.dfy` (`Books`): the values: `Book`, `Row`, `Alert`, the stored `Item`,
  the click `Target` and the alert messages.
- `splice.dfy` (`Splice`): the `forEach`/`splice` loop of `removeBooks`. It is
  proved equal to a recursive reference definition, and lemmas about that
  definition say exactly which entries survive.
- `view.dfy` (`View`): the table body as a value. Covers what `addBookToList`,
  `showBooks` and the delete click do to it, and the shapes it can take.
- `bookshelf.dfy` (`Bookshelf`): the classes `LocalStorage` and `Page` with
  their methods, and the listener methods `Submit` and `ListClick`.
- `consistency.dfy` (`Consistency`): when the data rows show exactly the
  stored list, and when they stop doing so.
- `intended.dfy` (`Intended`): corrected definitions for the three passages
  listed under Findings, with what they keep.
- `scenario.dfy` (`Scenarios`): three short sessions proved from the handlers'
  contracts alone.

## Findings

The script's comments say what three passages are meant to do, and the code
does something else in each. The model follows the code: every operation
above is modelled as written. The module `Intended` (`intended.dfy`) gives the
corrected definitions and proves that they keep the promise.

1. **`removeBooks` skips entries.** The comment at script.js:146 asks for every
   entry with the given isbn to be deleted. The loop splices inside `forEach`
   (script.js:145-150). After a removal, the entry that shifts into the freed
   slot is never examined, so of two adjacent entries with the same isbn the
   second survives. `SpliceVisited` is this behaviour, and
   `SpliceVisitedExact` characterises it: an entry goes exactly when it
   matches and the entry before it did not go. The filter `WithoutIsbn`
   removes every match (`Intended.RemovalExact`). The two agree when no two
   matches are adjacent (`SpliceVisitedNoAdjacent`).
2. **Cancelling a delete still deletes from the store.** The listener's
   comments pair the UI removal with the store removal (script.js:199-202).
   But `removeBooks` is called whether or not the user confirmed
   (script.js:200-203). The row stays and its book leaves the store
   (`CancelledDeleteBreaksSync`). `Intended.StoreAfterClick` changes the store
   only on confirmation. With it, table and store stay in step on both paths
   (`Intended.ClickKeepsSync`).
3. **The placeholder leaves an empty row behind.** The comment at script.js:18
   asks for the no-books message to be deleted. The code removes the element
   with id `no-books` (script.js:19-20). That element is the placeholder's
   *cell* (script.js:45), so its `tr` stays in the table with no cell: a
   `Blank` row. The comment at script.js:205 asks for the placeholder once no
   book is left. The check counts `tr` elements, and the blank row is one
   (script.js:206), so once a book has been added to an empty shelf in a
   session, the placeholder never comes back (`BlankRowStays`,
   `PlaceholderNotRestored`). `Intended.AddedRowsIntended` removes the whole
   row instead. With it the table body stays either the placeholder alone or
   data rows only (`Intended.AddKeepsStrictShape`,
   `Intended.ClickKeepsStrictShape`), and deleting the last book shows the
   placeholder again (`Intended.PlaceholderRestored`).

| source | as written | input that shows it | evidently intended | confidence | as-written member | corrected member |
|---|---|---|---|---|---|---|
| script.js:145-150 | `splice` inside `forEach` skips the entry after each removal | a stored list of two books with isbn `"1"`, deleting isbn `"1"`: one book stays | every entry with the isbn is deleted (script.js:146) | not executed | `Splice.AdjacentDuplicateSurvives` | `Intended.RemovalExact` |
| script.js:200-203 | `removeBooks` runs even when the confirm dialog is cancelled | one stored book shown in one row, delete click, cancel: the row stays, the store is empty | the store loses the book only when the row is removed (script.js:199-202) | not executed | `Consistency.CancelledDeleteBreaksSync` | `Intended.ClickKeepsSync` |
| script.js:19-20 | removing `#no-books` removes only the cell; its empty `tr` stays and counts at script.js:206 | empty store, add a book, delete it: only an empty row is left, with no placeholder | the placeholder row goes on add (script.js:18) and is shown again when no book is left (script.js:205) | not executed | `Consistency.PlaceholderNotRestored` | `Intended.PlaceholderRestored` |

## Model

| member | source | states |
|---|---|---|
| `Bookshelf.LocalStorage.GetBooks` | script.js:98-108 | a missing or empty-string entry reads as no books; otherwise the list the JSON text encodes |
| `Bookshelf.LocalStorage.AddBooks` | script.js:127-136 | the store becomes the old list with the book appended; earlier entries are unchanged and in order |
| `Bookshelf.LocalStorage.RemoveBooks` | script.js:139-157 | on an empty list: no write, and exactly one `error` alert; otherwise: the loop's result is written back and no alert is shown |
| `Bookshelf.LocalStorage.ShowBooks` | script.js:111-124 | one `addBookToList` per stored book in order, or one placeholder when there is none; on an empty table body this gives `Render` of the store |
| `Bookshelf.Page.Value` | script.js:167-169 | reads the input with the given id: title, author or isbn |
| `Bookshelf.Page.SetValue` | script.js:90 | sets the input with that id and leaves the other two alone |
| `Bookshelf.Page.AddBookToList` | script.js:17-35 | the first placeholder cell (if any) is removed and its row left blank; one data row for the book is appended at the end |
| `Bookshelf.Page.NoBooksToShow` | script.js:38-49 | appends exactly one placeholder row |
| `Bookshelf.Page.DeleteBook` | script.js:52-60 | for a delete link with confirmation: removes exactly that row and logs one `success` alert; otherwise changes nothing |
| `Bookshelf.Page.ShowAlert` | script.js:63-76 | appends one banner with the message and kind |
| `Bookshelf.Page.ClearFormFields` | script.js:85-92 | all three inputs become empty |
| `Bookshelf.HasEmptyField` | script.js:175 | the submit is refused exactly when one of the three fields is empty; it is accepted only when all three are non-empty |
| `Bookshelf.Submit` | script.js:165-194 | with an empty field: rows, store and inputs unchanged, and exactly one `error` alert; otherwise: the first placeholder is cleared, one data row and one stored entry are added at the end, one `success` alert is logged, and the inputs are emptied |
| `Bookshelf.ListClick` | script.js:197-212 | a click elsewhere changes nothing; on a delete link the row goes only if confirmed, the store always loses what `removeBooks` removes for that row's isbn, the alerts are logged in the order shown, and an empty table gets one placeholder |
| `Splice.SpliceMatches` | script.js:145-150 | the `forEach` loop fixes the length once, visits an index only while it is below the current length, and splices matches in place; its result equals `SpliceVisited` |
| `Splice.SpliceVisited` | script.js:145-150 | the loop never lengthens the list |
| `Splice.WithoutIsbn` | script.js:146-148 | the intended removal, a filter: never longer than the list, and every entry left is from the list and has a different isbn |
| `Splice.SpliceVisitedExact` | script.js:145-150 | the survivors are exactly the entries not spliced out, in original order; an entry is spliced out iff it matches and its predecessor was not spliced out |
| `Splice.SuccessorOfSplicedSurvives` | script.js:148 | the entry right behind a spliced-out entry is never spliced out, because it is skipped |
| `Splice.SpliceVisitedKeepsOthers` | script.js:147 | every entry whose isbn differs from the key survives, in order, and no such entry is added |
| `Splice.SpliceVisitedIsSubsequence` | script.js:148 | the result is obtained from the list by deleting entries only |
| `Splice.SpliceVisitedNoMatch` | script.js:147 | with no match the list is unchanged |
| `Splice.SpliceVisitedShortens` | script.js:147-148 | with at least one match the list gets strictly shorter |
| `Splice.SpliceVisitedNoAdjacent` | script.js:145-150 | when no two matches are adjacent, every match is removed |
| `Splice.SpliceVisitedLoneMatch` | script.js:145-150 | a lone match is removed and the rest is unchanged |
| `Splice.SpliceVisitedAllMatch` | script.js:145-150 | when every entry matches, exactly the entries at odd indices survive |
| `Splice.AdjacentDuplicateSurvives` | script.js:145-150 | of two adjacent entries with the key, the second one stays |
| `View.PlaceholderIndex` | script.js:19 | `getElementById('no-books')` finds the first placeholder, or nothing |
| `View.ClearFirstPlaceholder` | script.js:19-21 | the length is kept; only the first placeholder row changes, into a blank row; without a placeholder nothing changes |
| `View.ClearFirstPlaceholderAt` | script.js:19-21 | without a placeholder the rows are unchanged; otherwise only the first placeholder row changes, into a blank row |
| `View.AddedRows` | script.js:17-35 | one row longer, the book's data row last; every earlier row is kept, except that a placeholder may become blank; without a placeholder it is a plain append |
| `View.ClickedRows` | script.js:197-208 | never empty; a cancelled click keeps the rows; a confirmed one removes exactly row j, and an emptied body gets one placeholder |
| `View.Render` | script.js:111-123 | an empty store gives exactly the placeholder; otherwise one data row per stored book, in order |
| `View.RowsOf` | script.js:116-119 | one data row per book, in store order |
| `View.RenderShape` | script.js:111-123 | loading an empty table yields exactly the placeholder iff the store is empty, otherwise one data row per stored book in order; the result is well shaped |
| `View.AddedRowsShape` | script.js:17-35 | adding a book to a well-shaped table leaves no placeholder, appends exactly one data row at the end, and keeps the table well shaped |
| `View.ClickedRowsShape` | script.js:197-208 | a delete click, confirmed or not, keeps the table well shaped and never leaves it empty |
| `View.ShownRemove` | script.js:55 | removing a data row removes exactly its book from what the table shows |
| `Consistency.SubmitKeepsSync` | script.js:178-183 | a valid submit adds the same book at the end of both the table and the store |
| `Consistency.ConfirmedDeleteKeepsSync` | script.js:197-208 | with distinct isbns, a confirmed delete removes the row and exactly its one stored entry, so the table still shows the store |
| `Consistency.CancelledDeleteBreaksSync` | script.js:200-203 | a cancelled delete keeps the row while the store loses its entry |
| `Consistency.BlankRowStays` | script.js:19-20 | once the first row is blank, later adds and delete clicks keep it first and never show the placeholder |
| `Consistency.PlaceholderNotRestored` | script.js:197-208 | load an empty store, add a book, delete it: only the blank row is left |
| `Intended.AddedRowsIntended` | script.js:17-21 | with the whole placeholder row removed: at most one row longer, the book's data row last, a plain append when there is no placeholder |
| `Intended.StoreAfterClick` | script.js:53-54 | with removal gated on the confirm dialog: a cancelled click keeps the store, and the store never grows |
| `Intended.AddKeepsStrictShape` | script.js:17-21 | with the placeholder row removed, adding a book keeps the body the placeholder alone or data rows only, removes the placeholder, and shows the book last |
| `Intended.ClickKeepsStrictShape` | script.js:204-208 | a delete click keeps that shape, and the placeholder is shown exactly when the user confirmed and the last book went |
| `Intended.PlaceholderRestored` | script.js:204-208 | load an empty store, add a book, delete it: the placeholder is back |
| `Intended.ClickKeepsSync` | script.js:199-203 | with removal gated on the confirm dialog, a cancelled click keeps table and store in step, and so does a confirmed one when isbns are distinct |
| `Intended.RemovalExact` | script.js:146-148 | removal by filtering keeps exactly the entries with a different isbn, each with all its copies, as a subsequence of the list |

## Left out

- The 3-second timer that removes the first `.alert` element (script.js:79-81) is timer-driven. Alerts are only logged, in the order they are shown.
- DOM lookups and `innerHTML` rendering. A row is modelled by what it displays. The isbn cell's text is taken to equal the stored isbn. The HTML injection that interpolating fields allows (script.js:27-32) is not modelled.
- JSON text: `JSON.stringify` and `JSON.parse` are taken as a faithful round trip, so the stored text is represented by the list it encodes. Malformed stored text, where `JSON.parse` throws (script.js:105), cannot be represented.
- `localStorage` is reduced to the one key `'books'`. Other keys, and last-writer-wins between tabs, are not modelled.
- Event wiring and `e.preventDefault()` (script.js:162, 193, 211): the listeners are methods called directly.
- The `confirm` dialog is a boolean parameter of `ListClick`. The click target is a parameter. A delete link is taken to lie in a data row of the table, because only data rows have one.
- The page markup (`index.html`) is not part of this model. `Page`'s constructor takes the page to load with an empty table body, empty inputs and no alert. The user typing into the inputs is modelled as assignment to the input fields.
