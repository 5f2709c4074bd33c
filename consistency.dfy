// How the table body and the stored list stay in step, and where they do
// not. The script treats the table as the view of the stored list: it adds
// each book to both (script.js:179-183) and removes a deleted book from both
// (script.js:199-203), so the data rows are meant to show the stored list
// entry for entry, in order.
module Consistency {
  import opened Books
  import opened Splice
  import opened View

  /** The data rows show exactly the stored books, in order. */
  predicate InSync(rows: seq<Row>, books: seq<Book>)
  {
    Shown(rows) == books
  }

  /** No isbn occurs twice in the list. */
  predicate DistinctIsbns(books: seq<Book>)
  {
    forall i, j :: 0 <= i < j < |books| ==> books[i].isbn != books[j].isbn
  }

  /** A valid submit adds the same book at the end of both the table and the store. */
  lemma SubmitKeepsSync(rows: seq<Row>, books: seq<Book>, book: Book)
    requires InSync(rows, books)
    ensures InSync(AddedRows(rows, book), books + [book])
  {
    ShownClearFirstPlaceholder(rows);
    ShownAppend(ClearFirstPlaceholder(rows), [DataRow(book)]);
    ShownSingleton(DataRow(book));
  }

  lemma DistinctLoneMatch(books: seq<Book>, i: nat)
    requires DistinctIsbns(books) && i < |books|
    ensures forall m :: 0 <= m < |books| && m != i ==> books[m].isbn != books[i].isbn
  {
  }

  lemma DistinctAfterRemoval(books: seq<Book>, i: nat)
    requires DistinctIsbns(books) && i < |books|
    ensures DistinctIsbns(books[..i] + books[i + 1..])
  {
  }

  /**
   * A confirmed delete keeps table and store in step when isbns are
   * distinct: the row goes, and so does the one stored entry it shows.
   */
  lemma ConfirmedDeleteKeepsSync(rows: seq<Row>, books: seq<Book>, j: nat)
    requires InSync(rows, books) && DistinctIsbns(books)
    requires j < |rows| && rows[j].DataRow?
    ensures InSync(ClickedRows(rows, j, true), SpliceVisited(books, rows[j].book.isbn))
    ensures DistinctIsbns(SpliceVisited(books, rows[j].book.isbn))
  {
    var k := rows[j].book.isbn;
    ShownRemove(rows, j);
    var i := |Shown(rows[..j])|;
    DistinctLoneMatch(books, i);
    SpliceVisitedLoneMatch(books, k, i);
    DistinctAfterRemoval(books, i);
    if rows[..j] + rows[j + 1..] == [] {
      ShownSingleton(Placeholder);
    }
  }

  /**
   * A cancelled delete still removes the row's entry from the store while
   * the row stays, so the table shows a book the store no longer holds.
   */
  lemma CancelledDeleteBreaksSync(rows: seq<Row>, books: seq<Book>, j: nat)
    requires InSync(rows, books)
    requires j < |rows| && rows[j].DataRow?
    ensures ClickedRows(rows, j, false) == rows
    ensures !InSync(ClickedRows(rows, j, false), SpliceVisited(books, rows[j].book.isbn))
  {
    ShownRemove(rows, j);
    SpliceVisitedShortens(books, rows[j].book.isbn, |Shown(rows[..j])|);
  }

  /**
   * Once the first row is the blank row a cleared placeholder leaves, it
   * stays first through every later add and delete click, and the
   * placeholder never comes back: the table body is never empty again.
   */
  lemma BlankRowStays(rows: seq<Row>, book: Book, j: nat, confirmed: bool)
    requires WellShaped(rows) && rows[0] == Blank
    requires 0 < j < |rows| && rows[j].DataRow?
    ensures var added := AddedRows(rows, book);
            added[0] == Blank && Placeholder !in added
    ensures var clicked := ClickedRows(rows, j, confirmed);
            clicked[0] == Blank && Placeholder !in clicked
  {
  }

  /**
   * Loading an empty store, adding one book and deleting it leaves only the
   * blank row: the "No books to show" placeholder is not shown again.
   */
  lemma PlaceholderNotRestored(book: Book)
    ensures Render([]) == [Placeholder]
    ensures AddedRows(Render([]), book) == [Blank, DataRow(book)]
    ensures ClickedRows(AddedRows(Render([]), book), 1, true) == [Blank]
  {
  }
}
