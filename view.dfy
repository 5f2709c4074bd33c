// The rows of the `#book-list` table body as pure values, and what each UI
// operation does to them.
module View {
  import opened Books

  /**
   * What document.getElementById('no-books') finds: the index of the first
   * placeholder row, or |rows| when there is none.
   */
  function PlaceholderIndex(rows: seq<Row>): (i: nat)
    ensures i <= |rows|
    ensures i < |rows| ==> rows[i] == Placeholder
    ensures forall j :: 0 <= j < i ==> rows[j] != Placeholder
    decreases |rows|
  {
    if rows == [] || rows[0] == Placeholder then 0 else 1 + PlaceholderIndex(rows[1..])
  }

  /**
   * Removing the element with id no-books takes the placeholder CELL out of
   * its row; the row itself stays in the table, now with no cell.
   */
  function ClearFirstPlaceholder(rows: seq<Row>): (r: seq<Row>)
    ensures |r| == |rows|
    ensures Placeholder !in rows ==> r == rows
    ensures forall i :: 0 <= i < |rows| && i != PlaceholderIndex(rows) ==> r[i] == rows[i]
    ensures PlaceholderIndex(rows) < |rows| ==> r[PlaceholderIndex(rows)] == Blank
  {
    var i := PlaceholderIndex(rows);
    if i < |rows| then rows[i := Blank] else rows
  }

  /** The rows left after n successive calls that clear the first placeholder. */
  function ClearPlaceholders(rows: seq<Row>, n: nat): seq<Row>
    decreases n
  {
    if n == 0 then rows else ClearFirstPlaceholder(ClearPlaceholders(rows, n - 1))
  }

  /** The rows addBookToList leaves behind. */
  function AddedRows(rows: seq<Row>, book: Book): (r: seq<Row>)
    ensures |r| == |rows| + 1 && r[|rows|] == DataRow(book)
    ensures forall i :: 0 <= i < |rows| ==> r[i] == rows[i] || (rows[i] == Placeholder && r[i] == Blank)
    ensures Placeholder !in rows ==> r == rows + [DataRow(book)]
  {
    ClearFirstPlaceholder(rows) + [DataRow(book)]
  }

  /**
   * The rows the delete-click handler leaves for a click on the delete link
   * of row j: the row goes only when the user confirmed, and an empty body
   * then receives one placeholder row.
   */
  function ClickedRows(rows: seq<Row>, j: nat, confirmed: bool): (r: seq<Row>)
    requires j < |rows|
    ensures r != []
    ensures !confirmed ==> r == rows
    ensures confirmed && |rows| > 1 ==> r == rows[..j] + rows[j + 1..]
    ensures confirmed && |rows| == 1 ==> r == [Placeholder]
  {
    var rest := if confirmed then rows[..j] + rows[j + 1..] else rows;
    if rest == [] then rest + [Placeholder] else rest
  }

  /** One data row per book, in order. */
  function RowsOf(books: seq<Book>): (rows: seq<Row>)
    ensures |rows| == |books|
    ensures forall i :: 0 <= i < |books| ==> rows[i] == DataRow(books[i])
    decreases |books|
  {
    if books == [] then [] else [DataRow(books[0])] + RowsOf(books[1..])
  }

  /** The rows showBooks produces in an empty table body. */
  function Render(books: seq<Book>): (r: seq<Row>)
    ensures books == [] ==> r == [Placeholder]
    ensures books != [] ==> |r| == |books| && forall i :: 0 <= i < |books| ==> r[i] == DataRow(books[i])
  {
    if books == [] then [Placeholder] else RowsOf(books)
  }

  /** The books the data rows display, top to bottom. */
  function Shown(rows: seq<Row>): seq<Book>
    decreases |rows|
  {
    if rows == [] then []
    else (if rows[0].DataRow? then [rows[0].book] else []) + Shown(rows[1..])
  }

  /**
   * The shapes the table body takes: the placeholder alone, or a non-empty
   * run of data rows that may start with the blank row a removed
   * placeholder leaves.
   */
  predicate WellShaped(rows: seq<Row>)
  {
    rows == [Placeholder] ||
    (rows != [] && forall i :: 0 <= i < |rows| ==> rows[i].DataRow? || (i == 0 && rows[i] == Blank))
  }

  /** Clearing the first placeholder changes that one row into a blank row. */
  lemma ClearFirstPlaceholderAt(rows: seq<Row>)
    ensures Placeholder !in rows ==> ClearFirstPlaceholder(rows) == rows
    ensures Placeholder in rows ==>
              var i := PlaceholderIndex(rows);
              i < |rows| && rows[i] == Placeholder && Placeholder !in rows[..i] &&
              ClearFirstPlaceholder(rows) == rows[i := Blank]
  {
  }

  lemma {:induction false} PlaceholderIndexAppend(x: seq<Row>, y: seq<Row>)
    requires Placeholder !in y
    ensures PlaceholderIndex(x + y) == (if PlaceholderIndex(x) < |x| then PlaceholderIndex(x) else |x| + |y|)
    decreases |x|
  {
    if x == [] {
      assert x + y == y;
      assert forall k :: 0 <= k < |y| ==> y[k] != Placeholder;
    } else if x[0] != Placeholder {
      PlaceholderIndexAppend(x[1..], y);
      assert (x + y)[1..] == x[1..] + y;
    }
  }

  /** Data rows appended after the placeholder do not change which row loses it. */
  lemma ClearFirstPlaceholderAppend(x: seq<Row>, y: seq<Row>)
    requires Placeholder !in y
    ensures ClearFirstPlaceholder(x + y) == ClearFirstPlaceholder(x) + y
  {
    PlaceholderIndexAppend(x, y);
  }

  lemma {:induction false} RowsOfAppend(books: seq<Book>, book: Book)
    ensures RowsOf(books + [book]) == RowsOf(books) + [DataRow(book)]
  {
  }

  lemma {:induction false} PlaceholderNotInRowsOf(books: seq<Book>)
    ensures Placeholder !in RowsOf(books)
  {
  }

  lemma {:induction false} ShownAppend(x: seq<Row>, y: seq<Row>)
    ensures Shown(x + y) == Shown(x) + Shown(y)
    decreases |x|
  {
    if x == [] {
      assert x + y == y;
    } else {
      ShownAppend(x[1..], y);
      assert (x + y)[1..] == x[1..] + y;
    }
  }

  lemma {:induction false} ShownRowsOf(books: seq<Book>)
    ensures Shown(RowsOf(books)) == books
    decreases |books|
  {
    if books != [] {
      ShownRowsOf(books[1..]);
      assert RowsOf(books)[1..] == RowsOf(books[1..]);
    }
  }

  lemma ShownSingleton(row: Row)
    ensures Shown([row]) == if row.DataRow? then [row.book] else []
  {
  }

  lemma {:induction false} ClearPlaceholdersEmpty(n: nat)
    ensures ClearPlaceholders([], n) == []
  {
    if n > 0 {
      ClearPlaceholdersEmpty(n - 1);
    }
  }

  /** Only data rows contribute to what is shown; blank rows do not. */
  lemma ShownClearFirstPlaceholder(rows: seq<Row>)
    ensures Shown(ClearFirstPlaceholder(rows)) == Shown(rows)
  {
    ClearFirstPlaceholderAt(rows);
    if Placeholder in rows {
      var i := PlaceholderIndex(rows);
      var after := rows[i := Blank];
      assert rows == rows[..i] + [Placeholder] + rows[i + 1..];
      assert after == rows[..i] + [Blank] + rows[i + 1..];
      ShownAppend(rows[..i] + [Placeholder], rows[i + 1..]);
      ShownAppend(rows[..i], [Placeholder]);
      ShownAppend(rows[..i] + [Blank], rows[i + 1..]);
      ShownAppend(rows[..i], [Blank]);
      ShownSingleton(Placeholder);
      ShownSingleton(Blank);
    }
  }

  /**
   * Removing data row j from the table removes one book from what is shown:
   * the one at the position given by the data rows above it.
   */
  lemma ShownRemove(rows: seq<Row>, j: nat)
    requires j < |rows| && rows[j].DataRow?
    ensures var i := |Shown(rows[..j])|;
            i < |Shown(rows)| && Shown(rows)[i] == rows[j].book &&
            Shown(rows[..j] + rows[j + 1..]) == Shown(rows)[..i] + Shown(rows)[i + 1..]
  {
    assert rows == rows[..j] + [rows[j]] + rows[j + 1..];
    ShownAppend(rows[..j] + [rows[j]], rows[j + 1..]);
    ShownAppend(rows[..j], [rows[j]]);
    ShownAppend(rows[..j], rows[j + 1..]);
    ShownSingleton(rows[j]);
    var i := |Shown(rows[..j])|;
    assert Shown(rows) == Shown(rows[..j]) + [rows[j].book] + Shown(rows[j + 1..]);
    assert Shown(rows)[..i] == Shown(rows[..j]);
    assert Shown(rows)[i + 1..] == Shown(rows[j + 1..]);
  }

  /**
   * Adding a book removes the placeholder if there is one, appends exactly
   * one data row at the end and keeps the table well shaped.
   */
  lemma AddedRowsShape(rows: seq<Row>, book: Book)
    requires WellShaped(rows)
    ensures var after := AddedRows(rows, book);
            WellShaped(after) && Placeholder !in after &&
            |after| == |rows| + 1 && after[|rows|] == DataRow(book) &&
            Shown(after) == Shown(rows) + [book]
  {
    ClearFirstPlaceholderAt(rows);
    ShownClearFirstPlaceholder(rows);
    ShownAppend(ClearFirstPlaceholder(rows), [DataRow(book)]);
    ShownSingleton(DataRow(book));
    var after := AddedRows(rows, book);
    if rows == [Placeholder] {
      assert after == [Blank, DataRow(book)];
    } else {
      assert forall w :: 0 <= w < |rows| ==> rows[w] != Placeholder;
      assert after == rows + [DataRow(book)];
    }
  }

  /** A delete click keeps the table well shaped, and never leaves it empty. */
  lemma ClickedRowsShape(rows: seq<Row>, j: nat, confirmed: bool)
    requires WellShaped(rows) && j < |rows| && rows[j].DataRow?
    ensures WellShaped(ClickedRows(rows, j, confirmed))
  {
  }

  /**
   * Loading the page on an empty table shows exactly the placeholder when
   * there are no books, and otherwise one data row per book in order.
   */
  lemma RenderShape(books: seq<Book>)
    ensures WellShaped(Render(books))
    ensures Shown(Render(books)) == books
    ensures books == [] <==> Placeholder in Render(books)
  {
    if books == [] {
      ShownSingleton(Placeholder);
    } else {
      ShownRowsOf(books);
      PlaceholderNotInRowsOf(books);
    }
  }
}
