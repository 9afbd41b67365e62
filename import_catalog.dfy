/** The command that replaces the whole catalog with imported books; undone
    by putting the previous contents back. */
module ImportCatalog {
  import opened Outcomes
  import opened Dicts
  import opened Books
  import opened Catalogs

  class ImportCatalogCommand {
    const catalog: Catalog
    /** `_imported_books`: ISBN to book. */
    const imported: Dict<string, Book>
    /** `_previous`: a copy of the contents `execute` replaced, until `undo`. */
    var previous: Option<Dict<string, Book>>

    constructor(catalog: Catalog, imported: Dict<string, Book>)
      ensures this.catalog == catalog && this.imported == imported && previous == None
    {
      this.catalog := catalog;
      this.imported := imported;
      previous := None;
    }

    /** `execute`: keep a copy of the current books, keyed by each book's own
        ISBN, then replace the contents with the imported books. */
    method Execute()
      modifies this, catalog
      ensures previous == Some(ByIsbn(Values(old(catalog.books))))
      ensures catalog.books == ByIsbn(Values(imported))
      ensures Keyed(old(catalog.books)) ==> previous == Some(old(catalog.books))
      ensures Keyed(imported) ==> catalog.books == imported
    {
      var listing := catalog.ListBooks();
      var copies := seq(|listing|, i requires 0 <= i < |listing| => Copy(listing[i]));
      assert copies == Values(catalog.books);
      previous := Some(ByIsbn(copies));
      catalog.ReplaceAll(Values(imported));
      if Keyed(old(catalog.books)) {
        ByIsbnOfValues(old(catalog.books));
      }
      if Keyed(imported) {
        ByIsbnOfValues(imported);
      }
    }

    /** `undo`: nothing without a capture; otherwise rebuild the catalog from
        the captured books, in their previous order, and clear the capture. */
    method Undo()
      modifies this, catalog
      ensures old(previous).None? ==> catalog.books == old(catalog.books) && previous == None
      ensures old(previous).Some? ==> catalog.books == ByIsbn(Values(old(previous).value)) && previous == None
      ensures old(previous).Some? && Keyed(old(previous).value) ==> catalog.books == old(previous).value
    {
      if previous.None? {
        return;
      }
      catalog.ReplaceAll(Values(previous.value));
      if Keyed(previous.value) {
        ByIsbnOfValues(previous.value);
      }
      previous := None;
    }
  }

  /** `execute` then `undo` twice on a catalog holding `start`, importing
      `books`: the catalog first holds exactly the imported books, then
      exactly its previous contents in their previous order; the second undo
      changes nothing. */
  method ExecuteThenUndo(start: seq<Book>, books: seq<Book>)
    returns (afterExecute: Dict<string, Book>, afterUndo: Dict<string, Book>, afterSecondUndo: Dict<string, Book>)
    ensures afterExecute == ByIsbn(books)
    ensures afterUndo == ByIsbn(start)
    ensures afterSecondUndo == afterUndo
  {
    var c := new Catalog();
    c.ReplaceAll(start);
    var cmd := new ImportCatalogCommand(c, ByIsbn(books));
    cmd.Execute();
    afterExecute := c.books;
    cmd.Undo();
    afterUndo := c.books;
    cmd.Undo();
    afterSecondUndo := c.books;
  }
}
