/** The command that replaces one book; undone by writing the previous copy back. */
module UpdateBook {
  import opened Outcomes
  import opened Dicts
  import opened Books
  import opened Catalogs

  class UpdateBookCommand {
    const catalog: Catalog
    const isbn: string
    const replacement: Book
    /** `_previous`: the book `execute` replaced, until `undo` writes it back. */
    var previous: Option<Book>

    constructor(catalog: Catalog, isbn: string, replacement: Book)
      ensures this.catalog == catalog && this.isbn == isbn && this.replacement == replacement
      ensures previous == None
    {
      this.catalog := catalog;
      this.isbn := isbn;
      this.replacement := replacement;
      previous := None;
    }

    /** `execute`: capture the stored book, then replace it in place. An
        absent ISBN fails on the lookup, before any change or capture. */
    method Execute() returns (r: Result<()>)
      modifies this, catalog
      ensures isbn !in old(KeySet(catalog.books)) ==>
        r == Err(NotFound(isbn)) && catalog.books == old(catalog.books) && previous == old(previous)
      ensures isbn in old(KeySet(catalog.books)) ==>
        && r == Ok(())
        && previous == Get(old(catalog.books), isbn)
        && catalog.books == Put(old(catalog.books), isbn, replacement)
      ensures Keyed(old(catalog.books)) && replacement.isbn == isbn ==> Keyed(catalog.books)
    {
      var current := catalog.GetBook(isbn);
      if current.Err? {
        r := Err(current.error);
        return;
      }
      previous := Some(current.value);
      r := catalog.UpdateBook(isbn, replacement);
    }

    /** `undo`: nothing without a capture; otherwise write the captured book
        back under the same ISBN, in place, and clear the capture. If the ISBN
        has meanwhile gone, the error propagates and the capture stays. */
    method Undo() returns (r: Result<()>)
      modifies this, catalog
      ensures old(previous).None? ==> r == Ok(()) && catalog.books == old(catalog.books) && previous == None
      ensures old(previous).Some? && isbn in old(KeySet(catalog.books)) ==>
        && r == Ok(())
        && catalog.books == Put(old(catalog.books), isbn, old(previous).value)
        && previous == None
      ensures old(previous).Some? && isbn !in old(KeySet(catalog.books)) ==>
        r == Err(NotFound(isbn)) && catalog.books == old(catalog.books) && previous == old(previous)
    {
      if previous.None? {
        r := Ok(());
        return;
      }
      r := catalog.UpdateBook(isbn, previous.value);
      if r.Ok? {
        previous := None;
      }
    }
  }

  /** `execute` then `undo` twice on a catalog holding `start`: the
      replacement shows in place, the first undo brings back the original
      listing exactly, and the second changes nothing. */
  method ExecuteThenUndo(start: seq<Book>, isbn: string, replacement: Book)
    returns (executed: Result<()>, afterExecute: Dict<string, Book>, afterUndo: seq<Book>, afterSecondUndo: seq<Book>)
    ensures executed.Ok? <==> isbn in KeySet(ByIsbn(start))
    ensures executed.Ok? ==> Get(afterExecute, isbn) == Some(replacement)
    ensures executed.Ok? ==> KeyList(afterExecute) == KeyList(ByIsbn(start))
    ensures afterUndo == Values(ByIsbn(start))
    ensures afterSecondUndo == afterUndo
  {
    var c := new Catalog();
    c.ReplaceAll(start);
    var d := c.books;
    var cmd := new UpdateBookCommand(c, isbn, replacement);
    executed := cmd.Execute();
    afterExecute := c.books;
    if executed.Ok? {
      GetPut(d, isbn, replacement, isbn);
      KeyListPut(d, isbn, replacement);
      PutRestores(d, isbn, replacement, Get(d, isbn).value);
    }
    var _ := cmd.Undo();
    assert c.books == d && cmd.previous == None;
    afterUndo := c.ListBooks();
    var _ := cmd.Undo();
    assert c.books == d;
    afterSecondUndo := c.ListBooks();
  }
}
