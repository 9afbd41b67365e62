/** The command that removes one book; undone by adding it back. */
module RemoveBook {
  import opened Outcomes
  import opened Dicts
  import opened Books
  import opened Catalogs

  class RemoveBookCommand {
    const catalog: Catalog
    const isbn: string
    /** `_removed`: the book taken out by `execute`, until `undo` puts it back. */
    var removed: Option<Book>

    constructor(catalog: Catalog, isbn: string)
      ensures this.catalog == catalog && this.isbn == isbn && removed == None
    {
      this.catalog := catalog;
      this.isbn := isbn;
      removed := None;
    }

    /** `execute`: remove the ISBN and keep the removed book. An absent ISBN
        propagates the error and captures nothing. */
    method Execute() returns (r: Result<()>)
      modifies this, catalog
      ensures isbn !in old(KeySet(catalog.books)) ==>
        r == Err(NotFound(isbn)) && catalog.books == old(catalog.books) && removed == old(removed)
      ensures isbn in old(KeySet(catalog.books)) ==>
        && r == Ok(())
        && catalog.books == Pop(old(catalog.books), isbn)
        && removed == Get(old(catalog.books), isbn)
      ensures Keyed(old(catalog.books)) ==> Keyed(catalog.books)
    {
      var b := catalog.RemoveBook(isbn);
      if b.Err? {
        r := Err(b.error);
        return;
      }
      removed := Some(b.value);
      r := Ok(());
    }

    /** `undo`: nothing without a captured book; otherwise add it back, at
        the end of the listing, and clear the capture. If its ISBN has
        meanwhile been taken, the conflict propagates and the capture stays. */
    method Undo() returns (r: Result<()>)
      modifies this, catalog
      ensures old(removed).None? ==> r == Ok(()) && catalog.books == old(catalog.books) && removed == None
      ensures old(removed).Some? && old(removed).value.isbn in old(KeySet(catalog.books)) ==>
        && r == Err(Conflict(old(removed).value.isbn))
        && catalog.books == old(catalog.books)
        && removed == old(removed)
      ensures old(removed).Some? && old(removed).value.isbn !in old(KeySet(catalog.books)) ==>
        && r == Ok(())
        && catalog.books == old(catalog.books) + [(old(removed).value.isbn, old(removed).value)]
        && removed == None
      ensures Keyed(old(catalog.books)) ==> Keyed(catalog.books)
    {
      if removed.None? {
        r := Ok(());
        return;
      }
      r := catalog.AddBook(removed.value);
      if r.Ok? {
        removed := None;
      }
    }
  }

  /** `execute` then `undo` twice on a catalog holding `start`: the catalog
      ends with the same books under the same ISBNs (the re-added one now
      last), and the second undo changes nothing. An absent ISBN changes
      nothing at all. */
  method ExecuteThenUndo(start: seq<Book>, isbn: string)
    returns (executed: Result<()>, afterUndo: Dict<string, Book>, afterSecondUndo: Dict<string, Book>)
    ensures executed.Ok? <==> isbn in KeySet(ByIsbn(start))
    ensures SameContents(afterUndo, ByIsbn(start))
    ensures executed.Ok? ==>
      afterUndo == Pop(ByIsbn(start), isbn) + [(isbn, Get(ByIsbn(start), isbn).value)]
    ensures executed.Err? ==> afterUndo == ByIsbn(start)
    ensures afterSecondUndo == afterUndo
  {
    var c := new Catalog();
    c.ReplaceAll(start);
    var d := c.books;
    var cmd := new RemoveBookCommand(c, isbn);
    executed := cmd.Execute();
    if executed.Ok? {
      var v := Get(d, isbn).value;
      assert v.isbn == isbn by {
        var i :| 0 <= i < |d| && d[i] == (isbn, v);
      }
      PutAfterPop(d, isbn, v);
    }
    var _ := cmd.Undo();
    afterUndo := c.books;
    var _ := cmd.Undo();
    afterSecondUndo := c.books;
  }
}
