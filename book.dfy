// The values the bookshelf script passes around: book records, table rows,
// alert banners and the text kept under the storage key 'books'.
module Books {

  /** A book as the form creates it and the store keeps it. */
  datatype Book = Book(title: string, author: string, isbn: string)

  /** One `tr` of the `#book-list` table body, modelled by what it displays. */
  datatype Row =
    | DataRow(book: Book)   // title, author and isbn cells, then a delete link
    | Placeholder           // a row holding the cell "No books to show" (id no-books)
    | Blank                 // a row whose placeholder cell was removed, leaving no cell

  /** The CSS class an alert banner carries besides 'alert'. */
  datatype AlertKind = Success | Error

  /** An alert banner inserted before the form. */
  datatype Alert = Alert(message: string, kind: AlertKind)

  /**
   * The value found under the storage key 'books': no entry at all, the
   * empty string, or the JSON text of a list of books. JSON.stringify and
   * JSON.parse are taken to be inverse to each other, so the text is
   * represented by the list it encodes.
   */
  datatype Item = Absent | EmptyString | Json(books: seq<Book>)

  /** Where a click inside the table body landed. */
  datatype Target =
    | DeleteLink(row: nat)  // the delete link (class 'delete') of the row at this index
    | Elsewhere             // any other element of the table body

  const MissingFieldsMessage := "Please fill is all fields."
  const AddedMessage := "Book has successfully been added."
  const DeletedMessage := "The selected book has been deleted."
  const CannotDeleteMessage := "Book cannot be deleted."
}
