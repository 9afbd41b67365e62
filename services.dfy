/** `CatalogService`: the facade the HTTP layer calls. Every mutation records
    a snapshot of the catalog first and then runs one command; imports and
    exports go through a format strategy chosen by name. */
module Services {
  import opened Outcomes
  import opened Dynamic
  import opened Dicts
  import opened Books
  import opened Mementos
  import opened Catalogs
  import opened Undo
  import opened AddBook
  import opened RemoveBook
  import opened UpdateBook
  import opened ImportCatalog
  import opened FormatFactory

  /** A format strategy: the two hooks of `CatalogFormatStrategy`, given as
      functions. Decoding may fail on malformed text. */
  datatype Strategy = Strategy(
    serialize: seq<Payload> -> string,
    deserialize: string -> Result<seq<Payload>>)

  /** What `undo` answers: the listing after the restore and the number of
      snapshots still stored. */
  datatype UndoReport = UndoReport(books: seq<Payload>, remainingUndos: nat)

  /** `[book.to_dict() for book in catalog.list_books()]` */
  function Listing(d: Dict<string, Book>): seq<Payload> {
    seq(|d|, i requires 0 <= i < |d| => ToDict(d[i].1))
  }

  /** `{entry["isbn"]: Book.from_dict(entry) for entry in data}`: for each
      entry in turn the `isbn` key is looked up first and the book built
      second; the first failing entry decides the error. */
  function DecodeBooks(data: seq<Payload>): (r: Result<Dict<string, Book>>)
    ensures r.Ok? <==> forall i :: 0 <= i < |data| ==> "isbn" in data[i] && FromDict(data[i]).Ok?
    ensures r.Ok? ==> Keyed(r.value)
  {
    if data == [] then Ok([])
    else
      var prefix := data[..|data| - 1];
      assert forall i :: 0 <= i < |prefix| ==> prefix[i] == data[i];
      var init :- DecodeBooks(prefix);
      var entry := data[|data| - 1];
      if "isbn" !in entry then Err(MissingKey("isbn"))
      else
        var b :- FromDict(entry);
        PutKeyed(init, b);
        Ok(Put(init, b.isbn, b))
  }

  /** The books an accepted list of entries decodes to, entry by entry. */
  function Decoded(data: seq<Payload>): (books: seq<Book>)
    requires forall i :: 0 <= i < |data| ==> FromDict(data[i]).Ok?
    ensures |books| == |data|
    ensures forall i :: 0 <= i < |data| ==> FromDict(data[i]) == Ok(books[i])
  {
    seq(|data|, i requires 0 <= i < |data| => FromDict(data[i]).value)
  }

  /** Decoding builds the ISBN-keyed dictionary of the decoded books, so on a
      repeated ISBN the last entry wins, at the position of the first. */
  lemma {:induction false} DecodeBooksByIsbn(data: seq<Payload>)
    requires DecodeBooks(data).Ok?
    ensures DecodeBooks(data).value == ByIsbn(Decoded(data))
  {
    if data != [] {
      var init := data[..|data| - 1];
      DecodeBooksByIsbn(init);
      assert Entries(Decoded(data))[..|data| - 1] == Entries(Decoded(init));
    }
  }

  /** The count `import_catalog` reports is the number of distinct ISBNs
      among the decoded entries. */
  lemma DecodeBooksCount(data: seq<Payload>)
    requires DecodeBooks(data).Ok?
    ensures |DecodeBooks(data).value| == |set i | 0 <= i < |data| :: Decoded(data)[i].isbn|
  {
    DecodeBooksByIsbn(data);
    ByIsbnSize(Decoded(data));
  }

  /** Decoding an exported listing gives back the catalog it was taken from. */
  lemma {:induction false} DecodeListing(d: Dict<string, Book>)
    requires Keyed(d)
    ensures DecodeBooks(Listing(d)) == Ok(d)
  {
    if d != [] {
      var init: Dict<string, Book> := d[..|d| - 1];
      var b := d[|d| - 1].1;
      assert d == init + [(b.isbn, b)];
      assert Listing(d)[..|d| - 1] == Listing(init);
      assert Listing(d)[|d| - 1] == ToDict(b);
      KeySetFacts(d);
      assert b.isbn !in KeySet(init);
      DecodeListing(init);
      FromDictToDict(b);
      assert "isbn" in ToDict(b);
      assert Put(init, b.isbn, b) == d;
    }
  }

  /** Everything `import_catalog` does before touching any state: pick the
      strategy, decode the text, build the books. */
  function ParseImport(strategies: Format -> Strategy, content: string, fmt: string): (r: Result<Dict<string, Book>>)
    ensures Create(fmt).Err? ==> r == Err(Unsupported(fmt))
    ensures Create(fmt).Ok? && strategies(Create(fmt).value).deserialize(content).Err? ==>
      r == Err(strategies(Create(fmt).value).deserialize(content).error)
    ensures r.Ok? ==> Keyed(r.value)
  {
    var f :- Create(fmt);
    var data :- strategies(f).deserialize(content);
    DecodeBooks(data)
  }

  /** An accepted import names a known format whose strategy decoded the
      text into entries that all build books. */
  lemma ParsedEntries(strategies: Format -> Strategy, content: string, fmt: string) returns (data: seq<Payload>)
    requires ParseImport(strategies, content, fmt).Ok?
    ensures Create(fmt).Ok? && strategies(Create(fmt).value).deserialize(content) == Ok(data)
    ensures DecodeBooks(data) == ParseImport(strategies, content, fmt)
  {
    data := strategies(Create(fmt).value).deserialize(content).value;
  }

  /** Every snapshot recorded is one already held or the new one. */
  lemma PushedFrom<T>(h: seq<T>, m: T, limit: nat)
    requires |h| <= limit
    ensures forall x :: x in Pushed(h, m, limit) ==> x in h || x == m
  {
    var s := h + [m];
    var r := Pushed(h, m, limit);
    forall x | x in r ensures x in h || x == m {
      var i :| 0 <= i < |r| && r[i] == x;
      assert x == s[|s| - |r| + i];
    }
  }

  class CatalogService {
    const catalog: Catalog
    const history: UndoManager
    /** The strategy each format name selects. */
    const strategies: Format -> Strategy

    /** The catalog and every snapshot are keyed by each book's own ISBN. */
    ghost predicate Valid()
      reads catalog, history
    {
      && history.Valid()
      && Keyed(catalog.books)
      && forall m :: m in history.history ==> Keyed(m.state)
    }

    constructor(catalog: Catalog, history: UndoManager, strategies: Format -> Strategy)
      requires history.Valid() && Keyed(catalog.books)
      requires forall m :: m in history.history ==> Keyed(m.state)
      ensures this.catalog == catalog && this.history == history && this.strategies == strategies
      ensures Valid()
    {
      this.catalog := catalog;
      this.history := history;
      this.strategies := strategies;
    }

    /** Snapshot the catalog into the history, as every mutation does first. */
    method Record()
      requires Valid()
      modifies history
      ensures Valid()
      ensures history.history == Pushed(old(history.history), CatalogMemento(catalog.books), history.limit)
    {
      var m := catalog.CreateMemento();
      PushedFrom(history.history, m, history.limit);
      history.RecordState(m);
    }

    /** `list_books`: every book as a payload, in catalog order. */
    method ListBooks() returns (r: seq<Payload>)
      ensures |r| == |catalog.books|
      ensures forall i :: 0 <= i < |r| ==> FromDict(r[i]) == Ok(catalog.books[i].1)
      ensures r == Listing(catalog.books)
    {
      var books := catalog.ListBooks();
      r := seq(|books|, i requires 0 <= i < |books| => ToDict(books[i]));
      forall i | 0 <= i < |r| ensures FromDict(r[i]) == Ok(catalog.books[i].1) {
        FromDictToDict(books[i]);
      }
    }

    /** `get_book`: the stored book as a payload, or `NotFound`. */
    method GetBook(isbn: string) returns (r: Result<Payload>)
      ensures r.Err? <==> isbn !in KeySet(catalog.books)
      ensures r.Err? ==> r.error == NotFound(isbn)
      ensures r.Ok? ==> Get(catalog.books, isbn).Some? && r.value == ToDict(Get(catalog.books, isbn).value)
    {
      var b := catalog.GetBook(isbn);
      if b.Err? {
        r := Err(b.error);
        return;
      }
      r := Ok(ToDict(b.value));
    }

    /** `add_book`: snapshot, build the book, add it, and answer with the
        stored record. A payload that cannot be read or an ISBN already
        present fails after the snapshot has been recorded. */
    method AddBook(payload: Payload) returns (r: Result<Payload>)
      requires Valid()
      modifies catalog, history
      ensures Valid()
      ensures history.history == Pushed(old(history.history), CatalogMemento(old(catalog.books)), history.limit)
      ensures FromDict(payload).Err? ==>
        r == Err(FromDict(payload).error) && catalog.books == old(catalog.books)
      ensures FromDict(payload).Ok? && FromDict(payload).value.isbn in old(KeySet(catalog.books)) ==>
        r == Err(Conflict(FromDict(payload).value.isbn)) && catalog.books == old(catalog.books)
      ensures FromDict(payload).Ok? && FromDict(payload).value.isbn !in old(KeySet(catalog.books)) ==>
        && catalog.books == old(catalog.books) + [(FromDict(payload).value.isbn, FromDict(payload).value)]
        && r == Ok(ToDict(FromDict(payload).value))
    {
      Record();
      var book :- FromDict(payload);
      r := AddParsed(book);
    }

    /** The part of `add_book` after the payload has been read. */
    method AddParsed(book: Book) returns (r: Result<Payload>)
      requires Valid()
      modifies catalog
      ensures Valid()
      ensures book.isbn in old(KeySet(catalog.books)) ==>
        r == Err(Conflict(book.isbn)) && catalog.books == old(catalog.books)
      ensures book.isbn !in old(KeySet(catalog.books)) ==>
        catalog.books == old(catalog.books) + [(book.isbn, book)] && r == Ok(ToDict(book))
    {
      var cmd := new AddBookCommand(catalog, book);
      var done := cmd.Execute();
      if done.Err? {
        r := Err(done.error);
        return;
      }
      GetPut(old(catalog.books), book.isbn, book, book.isbn);
      r := GetBook(book.isbn);
    }

    /** `update_book`: snapshot, build the book with the ISBN from the path
        in place of any the payload carries, and replace the stored one. */
    method UpdateBook(isbn: string, payload: Payload) returns (r: Result<Payload>)
      requires Valid()
      modifies catalog, history
      ensures Valid()
      ensures history.history == Pushed(old(history.history), CatalogMemento(old(catalog.books)), history.limit)
      ensures FromDict(payload["isbn" := Str(isbn)]).Err? ==>
        r == Err(FromDict(payload["isbn" := Str(isbn)]).error) && catalog.books == old(catalog.books)
      ensures FromDict(payload["isbn" := Str(isbn)]).Ok? && isbn !in old(KeySet(catalog.books)) ==>
        r == Err(NotFound(isbn)) && catalog.books == old(catalog.books)
      ensures FromDict(payload["isbn" := Str(isbn)]).Ok? && isbn in old(KeySet(catalog.books)) ==>
        && FromDict(payload["isbn" := Str(isbn)]).value.isbn == isbn
        && catalog.books == Put(old(catalog.books), isbn, FromDict(payload["isbn" := Str(isbn)]).value)
        && r == Ok(ToDict(FromDict(payload["isbn" := Str(isbn)]).value))
    {
      Record();
      var updated :- FromDict(payload["isbn" := Str(isbn)]);
      var cmd := new UpdateBookCommand(catalog, isbn, updated);
      var done := cmd.Execute();
      if done.Err? {
        r := Err(done.error);
        return;
      }
      GetPut(old(catalog.books), isbn, updated, isbn);
      r := GetBook(isbn);
    }

    /** `remove_book`: snapshot, then remove the ISBN. */
    method RemoveBook(isbn: string) returns (r: Result<()>)
      requires Valid()
      modifies catalog, history
      ensures Valid()
      ensures history.history == Pushed(old(history.history), CatalogMemento(old(catalog.books)), history.limit)
      ensures isbn !in old(KeySet(catalog.books)) ==> r == Err(NotFound(isbn)) && catalog.books == old(catalog.books)
      ensures isbn in old(KeySet(catalog.books)) ==> r == Ok(()) && catalog.books == Pop(old(catalog.books), isbn)
    {
      Record();
      var cmd := new RemoveBookCommand(catalog, isbn);
      r := cmd.Execute();
    }

    /** `import_catalog`: choose the strategy, decode and build every book,
        and only then snapshot and replace the contents; answers with the
        number of books now held. Any failure before the snapshot leaves
        catalog and history as they were. */
    method ImportCatalog(content: string, fmt: string) returns (r: Result<nat>)
      requires Valid()
      modifies catalog, history
      ensures Valid()
      ensures ParseImport(strategies, content, fmt).Err? ==>
        && r == Err(ParseImport(strategies, content, fmt).error)
        && catalog.books == old(catalog.books)
        && history.history == old(history.history)
      ensures ParseImport(strategies, content, fmt).Ok? ==>
        && r == Ok(|ParseImport(strategies, content, fmt).value|)
        && catalog.books == ParseImport(strategies, content, fmt).value
        && history.history == Pushed(old(history.history), CatalogMemento(old(catalog.books)), history.limit)
    {
      var f := Create(fmt);
      if f.Err? {
        r := Err(f.error);
        return;
      }
      var strategy := strategies(f.value);
      var data := strategy.deserialize(content);
      if data.Err? {
        r := Err(data.error);
        return;
      }
      var books := DecodeBooks(data.value);
      if books.Err? {
        r := Err(books.error);
        return;
      }
      Record();
      var cmd := new ImportCatalogCommand(catalog, books.value);
      cmd.Execute();
      r := Ok(|books.value|);
    }

    /** `export_catalog`: choose the strategy and serialize the listing. */
    method ExportCatalog(fmt: string) returns (r: Result<string>)
      ensures Create(fmt).Err? ==> r == Err(Unsupported(fmt))
      ensures Create(fmt).Ok? ==> r == Ok(strategies(Create(fmt).value).serialize(Listing(catalog.books)))
    {
      var f := Create(fmt);
      if f.Err? {
        r := Err(f.error);
        return;
      }
      var listing := ListBooks();
      r := Ok(strategies(f.value).serialize(listing));
    }

    /** `undo`: restore the newest snapshot and report the listing and the
        snapshots left; with none left, `EmptyHistory` and no change. */
    method Undo() returns (r: Result<UndoReport>)
      requires Valid()
      modifies catalog, history
      ensures Valid()
      ensures old(history.history) == [] ==>
        && r == Err(EmptyHistory)
        && catalog.books == old(catalog.books)
        && history.history == []
      ensures old(history.history) != [] ==>
        && catalog.books == old(history.history)[|old(history.history)| - 1].state
        && history.history == old(history.history)[..|old(history.history)| - 1]
        && r == Ok(UndoReport(Listing(catalog.books), |history.history|))
    {
      var done := history.Undo(catalog);
      if done.Err? {
        r := Err(done.error);
        return;
      }
      var listing := ListBooks();
      var left := history.Remaining();
      r := Ok(UndoReport(listing, left));
    }
  }

  /** A fresh service over a catalog holding `start`, with the default
      history limit. */
  method NewService(start: seq<Book>, strategies: Format -> Strategy) returns (s: CatalogService)
    ensures fresh(s) && fresh(s.catalog) && fresh(s.history)
    ensures s.Valid() && s.catalog.books == ByIsbn(start)
    ensures s.history.history == [] && s.history.limit == DefaultLimit
    ensures s.strategies == strategies
  {
    var c := new Catalog();
    c.ReplaceAll(start);
    var u := new UndoManager();
    s := new CatalogService(c, u, strategies);
  }

  /** `add_book` with a book's own payload and a fresh ISBN. */
  method AddStep(s: CatalogService, b: Book)
    requires s.Valid() && b.isbn !in KeySet(s.catalog.books)
    modifies s.catalog, s.history
    ensures s.Valid()
    ensures s.catalog.books == old(s.catalog.books) + [(b.isbn, b)]
    ensures s.history.history == Pushed(old(s.history.history), CatalogMemento(old(s.catalog.books)), s.history.limit)
  {
    FromDictToDict(b);
    var _ := s.AddBook(ToDict(b));
  }

  /** `add_book` with a book's own payload and an ISBN already present. */
  method ConflictStep(s: CatalogService, b: Book) returns (r: Result<Payload>)
    requires s.Valid() && b.isbn in KeySet(s.catalog.books)
    modifies s.catalog, s.history
    ensures s.Valid()
    ensures r == Err(Conflict(b.isbn))
    ensures s.catalog.books == old(s.catalog.books)
    ensures s.history.history == Pushed(old(s.history.history), CatalogMemento(old(s.catalog.books)), s.history.limit)
  {
    FromDictToDict(b);
    r := s.AddBook(ToDict(b));
  }

  /** `update_book` of a stored ISBN with a book's own payload. */
  method UpdateStep(s: CatalogService, b: Book)
    requires s.Valid() && b.isbn in KeySet(s.catalog.books)
    modifies s.catalog, s.history
    ensures s.Valid()
    ensures s.catalog.books == Put(old(s.catalog.books), b.isbn, b)
    ensures s.history.history == Pushed(old(s.history.history), CatalogMemento(old(s.catalog.books)), s.history.limit)
  {
    FromDictWithIsbn(b, b.isbn);
    assert b.(isbn := b.isbn) == b;
    var _ := s.UpdateBook(b.isbn, ToDict(b));
  }

  /** The first `add_book` on an empty service. */
  method AddFirst(s: CatalogService, b: Book)
    requires s.Valid() && s.catalog.books == [] && s.history.history == [] && s.history.limit == DefaultLimit
    modifies s.catalog, s.history
    ensures s.Valid() && s.catalog.books == [(b.isbn, b)] && b.isbn in KeySet(s.catalog.books)
    ensures s.history.history == [CatalogMemento([])] && s.history.limit == DefaultLimit
  {
    PushedBelowLimit([], CatalogMemento([]), DefaultLimit);
    AddStep(s, b);
    assert s.catalog.books == [(b.isbn, b)];
    assert s.catalog.books[0].0 == b.isbn;
  }

  /** The three mutations of the scenario below, on an empty service. */
  method AddUpdateRemove(s: CatalogService, b: Book, updated: Book)
    requires s.Valid() && s.catalog.books == [] && s.history.history == [] && s.history.limit == DefaultLimit
    requires updated.isbn == b.isbn
    modifies s.catalog, s.history
    ensures s.Valid() && s.catalog.books == []
    ensures s.history.history == [CatalogMemento([]), CatalogMemento([(b.isbn, b)]), CatalogMemento([(b.isbn, updated)])]
  {
    AddFirst(s, b);
    PushedBelowLimit([CatalogMemento([])], CatalogMemento([(b.isbn, b)]), DefaultLimit);
    UpdateStep(s, updated);
    assert s.catalog.books == [(b.isbn, updated)] by {
      assert |s.catalog.books| == 1 && s.catalog.books[0] == (b.isbn, updated);
    }
    var h2 := s.history.history;
    PushedBelowLimit(h2, CatalogMemento([(b.isbn, updated)]), DefaultLimit);
    var _ := s.RemoveBook(b.isbn);
    assert s.catalog.books == [] by {
      assert Pop([(b.isbn, updated)], b.isbn) == [];
    }
  }

  /** Add a book, update it, delete it; three undos then step back through
      the updated book, the original book and the empty catalog, and a
      fourth finds no history. */
  method AddUpdateRemoveUndo(strategies: Format -> Strategy, b: Book, title: string)
    returns (first: Result<UndoReport>, second: Result<UndoReport>, third: Result<UndoReport>, fourth: Result<UndoReport>)
    ensures first == Ok(UndoReport([ToDict(b.(title := title))], 2))
    ensures second == Ok(UndoReport([ToDict(b)], 1))
    ensures third == Ok(UndoReport([], 0))
    ensures fourth == Err(EmptyHistory)
  {
    var s := NewService([], strategies);
    assert s.catalog.books == [] by {
      assert Entries([]) == [];
    }
    var updated := b.(title := title);
    AddUpdateRemove(s, b, updated);
    first := s.Undo();
    assert Listing([(b.isbn, updated)]) == [ToDict(updated)];
    second := s.Undo();
    assert Listing([(b.isbn, b)]) == [ToDict(b)];
    third := s.Undo();
    assert Listing([]) == [];
    fourth := s.Undo();
  }

  /** The count an accepted import reports is the number of distinct ISBNs
      among the entries the strategy decoded. */
  lemma ImportCount(strategies: Format -> Strategy, content: string, fmt: string)
    requires ParseImport(strategies, content, fmt).Ok?
    ensures exists data ::
      && strategies(Create(fmt).value).deserialize(content) == Ok(data)
      && DecodeBooks(data).Ok?
      && |ParseImport(strategies, content, fmt).value| == |set i | 0 <= i < |data| :: Decoded(data)[i].isbn|
  {
    var data := ParsedEntries(strategies, content, fmt);
    DecodeBooksCount(data);
  }

  /** Import over a catalog holding `start`: a text the strategy cannot take
      changes nothing and leaves nothing to undo; an accepted one replaces
      the contents with the decoded books and reports their number, and one
      undo restores `start` exactly. */
  method ImportThenUndo(strategies: Format -> Strategy, start: seq<Book>, content: string, fmt: string)
    returns (count: Result<nat>, afterImport: seq<Payload>, undone: Result<UndoReport>)
    ensures count.Err? <==> ParseImport(strategies, content, fmt).Err?
    ensures count.Err? ==> afterImport == Listing(ByIsbn(start)) && undone == Err(EmptyHistory)
    ensures count.Ok? ==> count.value == |ParseImport(strategies, content, fmt).value|
    ensures count.Ok? ==> afterImport == Listing(ParseImport(strategies, content, fmt).value)
    ensures count.Ok? ==> undone == Ok(UndoReport(Listing(ByIsbn(start)), 0))
  {
    var s := NewService(start, strategies);
    PushedBelowLimit([], CatalogMemento(ByIsbn(start)), DefaultLimit);
    count := s.ImportCatalog(content, fmt);
    afterImport := s.ListBooks();
    undone := s.Undo();
  }

  /** A fresh service that has added `b` and then refused it a second time. */
  method AddThenConflict(strategies: Format -> Strategy, b: Book) returns (s: CatalogService, again: Result<Payload>)
    ensures fresh(s.catalog) && fresh(s.history)
    ensures s.Valid() && s.catalog.books == [(b.isbn, b)] && s.history.limit == DefaultLimit
    ensures s.history.history == [CatalogMemento([]), CatalogMemento([(b.isbn, b)])]
    ensures again == Err(Conflict(b.isbn))
  {
    s := NewService([], strategies);
    assert s.catalog.books == [] by {
      assert Entries([]) == [];
    }
    AddFirst(s, b);
    PushedBelowLimit([CatalogMemento([])], CatalogMemento([(b.isbn, b)]), DefaultLimit);
    again := ConflictStep(s, b);
  }

  /** Adding an ISBN already present fails, yet its snapshot still takes a
      history slot: the first undo afterwards changes nothing visible. */
  method FailedAddTakesSlot(strategies: Format -> Strategy, b: Book)
    returns (again: Result<Payload>, slots: nat, undone: Result<UndoReport>)
    ensures again == Err(Conflict(b.isbn))
    ensures slots == 2
    ensures undone == Ok(UndoReport([ToDict(b)], 1))
  {
    var s;
    s, again := AddThenConflict(strategies, b);
    slots := s.history.Remaining();
    undone := s.Undo();
    assert Listing([(b.isbn, b)]) == [ToDict(b)];
  }

  /** Exporting and importing the result again, with a strategy that gives
      back what it wrote, leaves the catalog as it was. */
  method ExportThenImport(strategies: Format -> Strategy, start: seq<Book>, fmt: string)
    returns (exported: Result<string>, count: Result<nat>, after: Dict<string, Book>)
    requires Create(fmt).Ok?
    requires forall l :: strategies(Create(fmt).value).deserialize(strategies(Create(fmt).value).serialize(l)) == Ok(l)
    ensures exported.Ok?
    ensures count == Ok(|ByIsbn(start)|)
    ensures after == ByIsbn(start)
  {
    var s := NewService(start, strategies);
    exported := s.ExportCatalog(fmt);
    DecodeListing(s.catalog.books);
    count := s.ImportCatalog(exported.value, fmt);
    after := s.catalog.books;
  }
}
