// The script's mutable state, the static methods of its LocalStorage and UI
// classes, and the submit and click listeners that sequence them. The
// browser's localStorage and the page's DOM become two objects; every
// method says what it leaves in them.
module Bookshelf {
  import opened Books
  import opened Splice
  import opened View

  /** The browser's localStorage, reduced to the one key the script uses: 'books'. */
  class LocalStorage {
    var item: Item

    /** The entry a previous session left, if any. */
    constructor (item: Item)
      ensures this.item == item
    {
      this.item := item;
    }

    /** getBooks: a missing or empty entry reads as no books, anything else is parsed. */
    function GetBooks(): (books: seq<Book>)
      reads this
      ensures item == Absent || item == EmptyString ==> books == []
      ensures item.Json? ==> books == item.books
    {
      if item == Absent || item == EmptyString then [] else item.books
    }

    /** addBooks: fetch, push, write back. */
    method AddBooks(book: Book)
      modifies this
      ensures item == Json(old(GetBooks()) + [book])
      ensures GetBooks() == old(GetBooks()) + [book]
    {
      var books := GetBooks();
      books := books + [book];
      item := Json(books);
    }

    /**
     * removeBooks: on a non-empty list, run the forEach/splice loop and
     * write the result back; on an empty one, write nothing and show an
     * error alert.
     */
    method RemoveBooks(isbn: string, page: Page)
      modifies this, page`alerts
      ensures old(GetBooks()) == [] ==>
                item == old(item) && page.alerts == old(page.alerts) + [Alert(CannotDeleteMessage, Error)]
      ensures old(GetBooks()) != [] ==>
                item == Json(SpliceVisited(old(GetBooks()), isbn)) && page.alerts == old(page.alerts)
      ensures GetBooks() == SpliceVisited(old(GetBooks()), isbn)
    {
      var books := GetBooks();
      if |books| > 0 {
        books := SpliceMatches(books, isbn);
        item := Json(books);
      } else {
        page.ShowAlert(CannotDeleteMessage, Error);
      }
    }

    /**
     * showBooks, the DOMContentLoaded listener: add a row per stored book,
     * or the placeholder when there is none. On the page's initially empty
     * table body this renders the stored list.
     */
    method ShowBooks(page: Page)
      modifies page`rows
      ensures GetBooks() == [] ==> page.rows == old(page.rows) + [Placeholder]
      ensures GetBooks() != [] ==>
                page.rows == ClearPlaceholders(old(page.rows), |GetBooks()|) + RowsOf(GetBooks())
      ensures old(page.rows) == [] ==> page.rows == Render(GetBooks())
    {
      var books := GetBooks();
      if |books| > 0 {
        for i := 0 to |books|
          invariant page.rows == ClearPlaceholders(old(page.rows), i) + RowsOf(books[..i])
        {
          PlaceholderNotInRowsOf(books[..i]);
          ClearFirstPlaceholderAppend(ClearPlaceholders(old(page.rows), i), RowsOf(books[..i]));
          RowsOfAppend(books[..i], books[i]);
          assert books[..i + 1] == books[..i] + [books[i]];
          page.AddBookToList(books[i]);
        }
        assert books[..|books|] == books;
        if old(page.rows) == [] {
          ClearPlaceholdersEmpty(|books|);
        }
      } else {
        page.NoBooksToShow();
      }
    }
  }

  /** The ids of the three form inputs. */
  datatype FieldId = TitleField | AuthorField | IsbnField

  /** The parts of the page the script reads and changes. */
  class Page {
    /** The rows of the table body `#book-list`, top to bottom. */
    var rows: seq<Row>
    /** The values of the inputs `#title`, `#author` and `#isbn`. */
    var title: string
    var author: string
    var isbn: string
    /** The alert banners inserted before the form, in the order they were shown. */
    var alerts: seq<Alert>

    /** The page as loaded: an empty table body, empty inputs, no alert. */
    constructor ()
      ensures rows == [] && title == "" && author == "" && isbn == "" && alerts == []
    {
      rows, title, author, isbn, alerts := [], "", "", "", [];
    }

    /** document.getElementById(id).value */
    function Value(id: FieldId): (v: string)
      reads this
      ensures id == TitleField ==> v == title
      ensures id == AuthorField ==> v == author
      ensures id == IsbnField ==> v == isbn
    {
      match id
      case TitleField => title
      case AuthorField => author
      case IsbnField => isbn
    }

    /** document.getElementById(id).value = value */
    method SetValue(id: FieldId, value: string)
      modifies this`title, this`author, this`isbn
      ensures Value(id) == value
      ensures forall other :: other != id ==> Value(other) == old(Value(other))
    {
      match id
      case TitleField => title := value;
      case AuthorField => author := value;
      case IsbnField => isbn := value;
    }

    /**
     * addBookToList: if there is a placeholder cell, remove it (its row
     * stays, empty), then append a data row for the book.
     */
    method AddBookToList(book: Book)
      modifies this`rows
      ensures rows == AddedRows(old(rows), book)
    {
      var i := PlaceholderIndex(rows);
      if i < |rows| {
        rows := rows[i := Blank];
      }
      rows := rows + [DataRow(book)];
    }

    /** noBooksToShow: append a placeholder row. */
    method NoBooksToShow()
      modifies this`rows
      ensures rows == old(rows) + [Placeholder]
    {
      rows := rows + [Placeholder];
    }

    /**
     * deleteBook: for a delete link, and only if the user confirms, remove
     * the link's row and show a success alert.
     */
    method DeleteBook(target: Target, confirmed: bool)
      requires target.DeleteLink? ==> target.row < |rows|
      modifies this`rows, this`alerts
      ensures target.DeleteLink? && confirmed ==>
                rows == old(rows)[..target.row] + old(rows)[target.row + 1..] &&
                alerts == old(alerts) + [Alert(DeletedMessage, Success)]
      ensures !(target.DeleteLink? && confirmed) ==> rows == old(rows) && alerts == old(alerts)
    {
      if target.DeleteLink? {
        if confirmed {
          rows := rows[..target.row] + rows[target.row + 1..];
          ShowAlert(DeletedMessage, Success);
        }
      }
    }

    /** showAlert: insert a banner before the form. */
    method ShowAlert(message: string, kind: AlertKind)
      modifies this`alerts
      ensures alerts == old(alerts) + [Alert(message, kind)]
    {
      alerts := alerts + [Alert(message, kind)];
    }

    /** clearFormFields: set each of the three inputs to the empty string. */
    method ClearFormFields()
      modifies this`title, this`author, this`isbn
      ensures title == "" && author == "" && isbn == ""
    {
      var ids := [TitleField, AuthorField, IsbnField];
      for n := 0 to |ids|
        invariant forall m :: 0 <= m < n ==> Value(ids[m]) == ""
      {
        SetValue(ids[n], "");
      }
      assert Value(ids[0]) == "" && Value(ids[1]) == "" && Value(ids[2]) == "";
    }
  }

  /** The submit check: some field was left empty. */
  predicate HasEmptyField(title: string, author: string, isbn: string): (r: bool)
    ensures !r <==> |title| > 0 && |author| > 0 && |isbn| > 0
  {
    title == "" || author == "" || isbn == ""
  }

  /**
   * The submit listener of `#book-form`. With an empty field it only shows
   * an error alert; otherwise it adds the row, stores the book, shows a
   * success alert and clears the form.
   */
  method Submit(storage: LocalStorage, page: Page)
    modifies storage, page
    ensures var book := Book(old(page.title), old(page.author), old(page.isbn));
            if HasEmptyField(book.title, book.author, book.isbn) then
              page.rows == old(page.rows) && storage.item == old(storage.item) &&
              page.title == old(page.title) && page.author == old(page.author) && page.isbn == old(page.isbn) &&
              page.alerts == old(page.alerts) + [Alert(MissingFieldsMessage, Error)]
            else
              page.rows == AddedRows(old(page.rows), book) &&
              storage.item == Json(old(storage.GetBooks()) + [book]) &&
              page.alerts == old(page.alerts) + [Alert(AddedMessage, Success)] &&
              page.title == "" && page.author == "" && page.isbn == ""
  {
    var title, author, isbn := page.Value(TitleField), page.Value(AuthorField), page.Value(IsbnField);
    var book := Book(title, author, isbn);
    if HasEmptyField(title, author, isbn) {
      page.ShowAlert(MissingFieldsMessage, Error);
    } else {
      page.AddBookToList(book);
      storage.AddBooks(book);
      page.ShowAlert(AddedMessage, Success);
      page.ClearFormFields();
    }
  }

  /**
   * The click listener of `#book-list`. A click on a delete link runs
   * deleteBook, then removeBooks with the isbn shown in that row whether or
   * not the user confirmed, then adds a placeholder if no row is left.
   * Clicks elsewhere change nothing.
   */
  method ListClick(storage: LocalStorage, page: Page, target: Target, confirmed: bool)
    requires target.DeleteLink? ==> target.row < |page.rows| && page.rows[target.row].DataRow?
    modifies storage, page`rows, page`alerts
    ensures target == Elsewhere ==>
              storage.item == old(storage.item) && page.rows == old(page.rows) && page.alerts == old(page.alerts)
    ensures target.DeleteLink? ==>
              var k := old(page.rows)[target.row].book.isbn;
              var before := old(storage.GetBooks());
              page.rows == ClickedRows(old(page.rows), target.row, confirmed) &&
              storage.GetBooks() == SpliceVisited(before, k) &&
              (before == [] ==> storage.item == old(storage.item)) &&
              (before != [] ==> storage.item == Json(SpliceVisited(before, k))) &&
              page.alerts == old(page.alerts) + (if confirmed then [Alert(DeletedMessage, Success)] else [])
                                              + (if before == [] then [Alert(CannotDeleteMessage, Error)] else [])
  {
    if target.DeleteLink? {
      // The isbn cell is the sibling before the link's cell; its text is the
      // same before and after the row leaves the table.
      var k := page.rows[target.row].book.isbn;
      page.DeleteBook(target, confirmed);
      storage.RemoveBooks(k, page);
      if |page.rows| == 0 {
        page.NoBooksToShow();
      }
    }
  }
}
