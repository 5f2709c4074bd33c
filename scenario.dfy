// Clients of the handlers: what a caller can conclude from their contracts
// alone, for a few sessions written out step by step.
module Scenarios {
  import opened Books
  import opened Splice
  import opened View
  import opened Bookshelf
  import opened Consistency

  /**
   * Empty store; add Dune; delete it with confirmation. The store ends
   * empty, but the table keeps the blank row and shows no placeholder.
   */
  method AddThenDelete()
  {
    var storage := new LocalStorage(Absent);
    var page := new Page();
    storage.ShowBooks(page);
    assert page.rows == [Placeholder];

    page.title, page.author, page.isbn := "Dune", "Herbert", "9780441013593";
    var dune := Book("Dune", "Herbert", "9780441013593");
    PlaceholderNotRestored(dune);
    Submit(storage, page);
    assert storage.GetBooks() == [dune];
    assert page.rows == [Blank, DataRow(dune)];
    assert page.alerts == [Alert(AddedMessage, Success)];
    assert page.title == "" && page.author == "" && page.isbn == "";

    ListClick(storage, page, DeleteLink(1), true);
    assert storage.GetBooks() == [];
    assert page.rows == [Blank];
    assert page.alerts == [Alert(AddedMessage, Success), Alert(DeletedMessage, Success)];
  }

  /** A submit with an empty author changes nothing but the alert log. */
  method IncompleteSubmit()
  {
    var storage := new LocalStorage(EmptyString);
    var page := new Page();
    page.title, page.isbn := "Dune", "9780441013593";
    Submit(storage, page);
    assert storage.item == EmptyString && page.rows == [];
    assert page.title == "Dune" && page.isbn == "9780441013593";
    assert page.alerts == [Alert(MissingFieldsMessage, Error)];
  }

  /**
   * Two stored copies of one isbn, then a cancelled delete: the row stays,
   * the store loses the first copy and keeps the second, which the loop
   * skipped.
   */
  method CancelWithDuplicates()
  {
    var first := Book("Dune", "Herbert", "1");
    var second := Book("Dune Messiah", "Herbert", "1");
    var storage := new LocalStorage(Json([first, second]));
    var page := new Page();
    storage.ShowBooks(page);
    assert page.rows == [DataRow(first), DataRow(second)];

    ListClick(storage, page, DeleteLink(0), false);
    AdjacentDuplicateSurvives(first, second);
    assert storage.GetBooks() == [second];
    assert page.rows == [DataRow(first), DataRow(second)];
    assert page.alerts == [];
  }
}
