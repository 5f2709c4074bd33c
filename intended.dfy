// The behaviour the script's own comments ask for where its code does
// something else. addBookToList is to "delete" the no-books message
// (script.js:18), so its whole row goes; the store is to lose the book the
// UI removed (script.js:199-202), so a cancelled confirm leaves it alone;
// removeBooks is to delete every entry with the isbn (script.js:146). With
// these, the table body is the placeholder alone or data rows only, and the
// placeholder comes back when the last book goes (script.js:205).
module Intended {
  import opened Books
  import opened Splice
  import opened View
  import opened Consistency

  /** addBookToList taking the whole placeholder row out before appending the book's row. */
  function AddedRowsIntended(rows: seq<Row>, book: Book): (r: seq<Row>)
    ensures 1 <= |r| <= |rows| + 1 && r[|r| - 1] == DataRow(book)
    ensures Placeholder !in rows ==> r == rows + [DataRow(book)]
  {
    var i := PlaceholderIndex(rows);
    (if i < |rows| then rows[..i] + rows[i + 1..] else rows) + [DataRow(book)]
  }

  /** The table body is the placeholder alone, or a non-empty run of data rows. */
  predicate StrictShape(rows: seq<Row>)
  {
    rows == [Placeholder] || (rows != [] && forall i :: 0 <= i < |rows| ==> rows[i].DataRow?)
  }

  /** What the store holds after a click on a delete link when removeBooks runs only on confirmation. */
  function StoreAfterClick(books: seq<Book>, isbn: string, confirmed: bool): (r: seq<Book>)
    ensures !confirmed ==> r == books
    ensures |r| <= |books|
  {
    if confirmed then SpliceVisited(books, isbn) else books
  }

  /** Adding a book to a strictly shaped table keeps it so, with the book shown last. */
  lemma AddKeepsStrictShape(rows: seq<Row>, book: Book)
    requires StrictShape(rows)
    ensures var after := AddedRowsIntended(rows, book);
            StrictShape(after) && Placeholder !in after && Shown(after) == Shown(rows) + [book]
  {
    ShownSingleton(DataRow(book));
    if rows == [Placeholder] {
      assert AddedRowsIntended(rows, book) == [DataRow(book)];
      ShownSingleton(Placeholder);
    } else {
      assert forall k :: 0 <= k < |rows| ==> rows[k] != Placeholder;
      assert AddedRowsIntended(rows, book) == rows + [DataRow(book)];
      ShownAppend(rows, [DataRow(book)]);
    }
  }

  /**
   * A delete click keeps a strictly shaped table so, and leaves the
   * placeholder exactly when the user confirmed and the last book went.
   */
  lemma ClickKeepsStrictShape(rows: seq<Row>, j: nat, confirmed: bool)
    requires StrictShape(rows) && j < |rows| && rows[j].DataRow?
    ensures StrictShape(ClickedRows(rows, j, confirmed))
    ensures ClickedRows(rows, j, confirmed) == [Placeholder] <==> confirmed && |Shown(rows)| == 1
  {
  }

  /** Load an empty store, add a book, delete it: the placeholder is shown again. */
  lemma PlaceholderRestored(book: Book)
    ensures AddedRowsIntended(Render([]), book) == [DataRow(book)]
    ensures ClickedRows(AddedRowsIntended(Render([]), book), 0, true) == [Placeholder]
  {
  }

  /**
   * With the store changed only on confirmation, a cancelled delete keeps
   * table and store in step; a confirmed one does too when isbns are distinct.
   */
  lemma ClickKeepsSync(rows: seq<Row>, books: seq<Book>, j: nat, confirmed: bool)
    requires InSync(rows, books)
    requires j < |rows| && rows[j].DataRow?
    ensures !confirmed ==> InSync(ClickedRows(rows, j, confirmed), StoreAfterClick(books, rows[j].book.isbn, confirmed))
    ensures confirmed && DistinctIsbns(books) ==>
              InSync(ClickedRows(rows, j, confirmed), StoreAfterClick(books, rows[j].book.isbn, confirmed))
  {
    if confirmed && DistinctIsbns(books) {
      ConfirmedDeleteKeepsSync(rows, books, j);
    }
  }

  /** The filter keeps every copy of an entry with a different isbn, and no copy of one with the key. */
  lemma {:induction false} RemovalCounts(books: seq<Book>, isbn: string)
    ensures forall b :: multiset(WithoutIsbn(books, isbn))[b] == (if b.isbn == isbn then 0 else multiset(books)[b])
    decreases |books|
  {
    if books != [] {
      RemovalCounts(books[1..], isbn);
      assert books == [books[0]] + books[1..];
      assert WithoutIsbn(books, isbn) == (if books[0].isbn == isbn then [] else [books[0]]) + WithoutIsbn(books[1..], isbn);
    }
  }

  /**
   * Removal by filtering: an entry survives exactly when its isbn differs,
   * with every copy of it, in order.
   */
  lemma {:induction false} RemovalExact(books: seq<Book>, isbn: string)
    ensures forall b :: b in WithoutIsbn(books, isbn) <==> b in books && b.isbn != isbn
    ensures forall b :: multiset(WithoutIsbn(books, isbn))[b] == (if b.isbn == isbn then 0 else multiset(books)[b])
    ensures IsSubsequence(WithoutIsbn(books, isbn), books)
    decreases |books|
  {
    RemovalCounts(books, isbn);
    if books != [] {
      RemovalExact(books[1..], isbn);
      assert books == [books[0]] + books[1..];
      var r := WithoutIsbn(books, isbn);
      if books[0].isbn != isbn {
        assert r[0] == books[0] && r[1..] == WithoutIsbn(books[1..], isbn);
      } else {
        assert r == WithoutIsbn(books[1..], isbn);
      }
    }
  }
}
