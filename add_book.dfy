/** The command that adds one book; undone by removing it again. */
module AddBook {
  import opened Outcomes
  import opened Dicts
  import opened Books
  import opened Catalogs

  class AddBookCommand {
    const catalog: Catalog
    const book: Book
    /** `_executed`: set by a successful `execute`, cleared by a successful `undo`. */
    var executed: bool

    constructor(catalog: Catalog, book: Book)
      ensures this.catalog == catalog && this.book == book && !executed
    {
      this.catalog := catalog;
      this.book := book;
      executed := false;
    }

    /** `execute`: insert the book. A conflicting ISBN propagates the error
        before the flag is set. */
    method Execute() returns (r: Result<()>)
      modifies this, catalog
      ensures book.isbn in old(KeySet(catalog.books)) ==>
        r == Err(Conflict(book.isbn)) && catalog.books == old(catalog.books) && executed == old(executed)
      ensures book.isbn !in old(KeySet(catalog.books)) ==>
        r == Ok(()) && catalog.books == old(catalog.books) + [(book.isbn, book)] && executed
      ensures Keyed(old(catalog.books)) ==> Keyed(catalog.books)
    {
      r := catalog.AddBook(book);
      if r.Ok? {
        executed := true;
      }
    }

    /** `undo`: nothing unless executed; then remove the ISBN and clear the
        flag, so that a second `undo` does nothing. If the book has meanwhile
        gone, the removal's error propagates and the flag stays set. */
    method Undo() returns (r: Result<()>)
      modifies this, catalog
      ensures !old(executed) ==> r == Ok(()) && catalog.books == old(catalog.books) && !executed
      ensures old(executed) && book.isbn in old(KeySet(catalog.books)) ==>
        r == Ok(()) && catalog.books == Pop(old(catalog.books), book.isbn) && !executed
      ensures old(executed) && book.isbn !in old(KeySet(catalog.books)) ==>
        r == Err(NotFound(book.isbn)) && catalog.books == old(catalog.books) && executed
      ensures Keyed(old(catalog.books)) ==> Keyed(catalog.books)
    {
      if !executed {
        r := Ok(());
        return;
      }
      var removed := catalog.RemoveBook(book.isbn);
      if removed.Err? {
        r := Err(removed.error);
        return;
      }
      executed := false;
      r := Ok(());
    }
  }

  /** `execute` then `undo`, then `undo` once more, on a catalog holding
      `start`: the book is appended, the first undo gives back the original
      listing and the second changes nothing. With a conflicting ISBN,
      `execute` fails and both undos do nothing. */
  method ExecuteThenUndo(start: seq<Book>, b: Book)
    returns (executed: Result<()>, afterExecute: seq<Book>, afterUndo: seq<Book>, afterSecondUndo: seq<Book>)
    ensures executed.Ok? <==> b.isbn !in KeySet(ByIsbn(start))
    ensures executed.Ok? ==> afterExecute == Values(ByIsbn(start)) + [b]
    ensures executed.Err? ==> afterExecute == Values(ByIsbn(start))
    ensures afterUndo == Values(ByIsbn(start))
    ensures afterSecondUndo == afterUndo
  {
    var c := new Catalog();
    c.ReplaceAll(start);
    var d := c.books;
    var cmd := new AddBookCommand(c, b);
    executed := cmd.Execute();
    afterExecute := c.ListBooks();
    if executed.Ok? {
      ValuesAppend(d, b.isbn, b);
      PopAfterPut(d, b.isbn, b);
    }
    var _ := cmd.Undo();
    assert c.books == d && !cmd.executed;
    afterUndo := c.ListBooks();
    var _ := cmd.Undo();
    afterSecondUndo := c.ListBooks();
  }
}
