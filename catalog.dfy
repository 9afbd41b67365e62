/** The in-memory catalog: the aggregate that owns every book, keyed by ISBN
    and listed in insertion order. */
module Catalogs {
  import opened Outcomes
  import opened Dicts
  import opened Books
  import opened Mementos

  /** Every key is its book's own ISBN. */
  predicate Keyed(d: seq<(string, Book)>) {
    forall i :: 0 <= i < |d| ==> d[i].0 == d[i].1.isbn
  }

  /** `(book.isbn, book)` for each book, in order. */
  function Entries(books: seq<Book>): (s: seq<(string, Book)>)
    ensures |s| == |books| && Keyed(s)
    ensures forall i :: 0 <= i < |books| ==> s[i] == (books[i].isbn, books[i])
  {
    seq(|books|, i requires 0 <= i < |books| => (books[i].isbn, books[i]))
  }

  function Isbns(books: seq<Book>): (s: seq<string>)
    ensures |s| == |books|
  {
    seq(|books|, i requires 0 <= i < |books| => books[i].isbn)
  }

  lemma {:induction false} PutKeyed(d: Dict<string, Book>, b: Book)
    requires Keyed(d)
    ensures Keyed(Put(d, b.isbn, b))
  {
  }

  lemma {:induction false} FromPairsKeyed(s: seq<(string, Book)>)
    requires Keyed(s)
    ensures Keyed(FromPairs(s))
  {
    if s != [] {
      FromPairsKeyed(s[..|s| - 1]);
      PutKeyed(FromPairs(s[..|s| - 1]), s[|s| - 1].1);
    }
  }

  /** `{book.isbn: book for book in books}` */
  function ByIsbn(books: seq<Book>): (d: Dict<string, Book>)
    ensures Keyed(d)
  {
    FromPairsKeyed(Entries(books));
    FromPairs(Entries(books))
  }

  /** The copy `create_memento` and `restore` take, entry by entry:
      `{isbn: Book.from_dict(book.to_dict()) for isbn, book in d.items()}`.
      Books being values, the copy is equal to the original. */
  function DeepCopy(d: Dict<string, Book>): (r: Dict<string, Book>)
    ensures r == d
  {
    var copies := seq(|d|, i requires 0 <= i < |d| => (d[i].0, Copy(d[i].1)));
    assert copies == d;
    FromPairsOfDict(d);
    FromPairs(copies)
  }

  /** Rebuilding a keyed dictionary from its own books reproduces it,
      order included. */
  lemma ByIsbnOfValues(d: Dict<string, Book>)
    requires Keyed(d)
    ensures ByIsbn(Values(d)) == d
  {
    assert Entries(Values(d)) == d;
    FromPairsOfDict(d);
  }

  /** On a repeated ISBN the last book wins ... */
  lemma ByIsbnLastWins(books: seq<Book>, i: nat)
    requires i < |books|
    requires forall j :: i < j < |books| ==> books[j].isbn != books[i].isbn
    ensures Get(ByIsbn(books), books[i].isbn) == Some(books[i])
  {
    FromPairsLastWins(Entries(books), i);
  }

  /** ... but sits where that ISBN first occurred. */
  lemma ByIsbnOrder(books: seq<Book>)
    ensures KeyList(ByIsbn(books)) == Dedup(Isbns(books))
  {
    FromPairsFirstPosition(Entries(books));
    assert KeyList(Entries(books)) == Isbns(books);
  }

  lemma {:induction false} DictSize<V>(d: Dict<string, V>)
    ensures |KeySet(d)| == |d|
  {
    if d != [] {
      var init: Dict<string, V> := d[..|d| - 1];
      DictSize(init);
      KeySetFacts(d);
      assert d[|d| - 1].0 !in KeySet(init);
    }
  }

  /** The dictionary holds one entry per distinct ISBN among the books. */
  lemma ByIsbnSize(books: seq<Book>)
    ensures |ByIsbn(books)| == |set i | 0 <= i < |books| :: books[i].isbn|
  {
    var d := ByIsbn(books);
    DictSize(d);
    FromPairsKeys(Entries(books));
    var es := Entries(books);
    assert KeySet(es) == set i | 0 <= i < |books| :: books[i].isbn by {
      forall k | k in KeySet(es) ensures k in set i | 0 <= i < |books| :: books[i].isbn {
        var i :| 0 <= i < |es| && es[i].0 == k;
        assert books[i].isbn == k;
      }
      forall k | k in set i | 0 <= i < |books| :: books[i].isbn ensures k in KeySet(es) {
        var i :| 0 <= i < |books| && books[i].isbn == k;
        assert es[i].0 == k;
      }
    }
  }

  class Catalog {
    /** `_books`: ISBN to book, in insertion order. */
    var books: Dict<string, Book>

    constructor()
      ensures books == []
    {
      books := [];
    }

    /** `list_books`: the stored books in insertion order. */
    method ListBooks() returns (r: seq<Book>)
      ensures |r| == |books|
      ensures forall i :: 0 <= i < |r| ==> r[i] == books[i].1
      ensures r == Values(books)
    {
      r := Values(books);
    }

    /** `get_book`: `KeyError` for an absent ISBN, otherwise the stored book. */
    method GetBook(isbn: string) returns (r: Result<Book>)
      ensures r.Err? <==> isbn !in KeySet(books)
      ensures r.Err? ==> r.error == NotFound(isbn)
      ensures r.Ok? ==> Get(books, isbn) == Some(r.value)
    {
      match Get(books, isbn)
      case None => r := Err(NotFound(isbn));
      case Some(b) => r := Ok(b);
    }

    /** `add_book`: a present ISBN is a conflict and changes nothing;
        otherwise the book goes last. */
    method AddBook(book: Book) returns (r: Result<()>)
      modifies this
      ensures book.isbn in old(KeySet(books)) ==> r == Err(Conflict(book.isbn)) && books == old(books)
      ensures book.isbn !in old(KeySet(books)) ==> r == Ok(()) && books == old(books) + [(book.isbn, book)]
      ensures Keyed(old(books)) ==> Keyed(books)
    {
      if book.isbn in KeySet(books) {
        r := Err(Conflict(book.isbn));
        return;
      }
      books := Put(books, book.isbn, book);
      r := Ok(());
    }

    /** `update_book`: an absent ISBN is `KeyError` and changes nothing;
        otherwise only that entry's value changes, in place. The replacement's
        own ISBN is not checked against the key. */
    method UpdateBook(isbn: string, book: Book) returns (r: Result<()>)
      modifies this
      ensures isbn !in old(KeySet(books)) ==> r == Err(NotFound(isbn)) && books == old(books)
      ensures isbn in old(KeySet(books)) ==> r == Ok(()) && |books| == |old(books)|
      ensures isbn in old(KeySet(books)) ==>
        forall i :: 0 <= i < |books| ==> books[i] == if old(books)[i].0 == isbn then (isbn, book) else old(books)[i]
      ensures isbn in old(KeySet(books)) ==> books == Put(old(books), isbn, book)
      ensures Keyed(old(books)) && book.isbn == isbn ==> Keyed(books)
    {
      if isbn !in KeySet(books) {
        r := Err(NotFound(isbn));
        return;
      }
      books := Put(books, isbn, book);
      r := Ok(());
    }

    /** `remove_book`: an absent ISBN is `KeyError`; otherwise the stored book
        is returned and its entry deleted, the rest keeping their order. */
    method RemoveBook(isbn: string) returns (r: Result<Book>)
      modifies this
      ensures isbn !in old(KeySet(books)) ==> r == Err(NotFound(isbn)) && books == old(books)
      ensures isbn in old(KeySet(books)) ==>
        r.Ok? && exists i ::
          0 <= i < |old(books)| && old(books)[i] == (isbn, r.value) && books == old(books)[..i] + old(books)[i + 1..]
      ensures isbn in old(KeySet(books)) ==> books == Pop(old(books), isbn) && Get(old(books), isbn) == Some(r.value)
      ensures Keyed(old(books)) ==> Keyed(books)
    {
      match IndexOf(books, isbn)
      case None =>
        r := Err(NotFound(isbn));
      case Some(i) =>
        var b := books[i].1;
        ghost var before := books;
        books := Pop(books, isbn);
        assert books == before[..i] + before[i + 1..];
        IndexOfUnique(before, i);
        r := Ok(b);
    }

    /** `replace_all`: the whole dictionary is rebuilt from the books, keyed
        by each book's ISBN. */
    method ReplaceAll(newBooks: seq<Book>)
      modifies this
      ensures books == ByIsbn(newBooks)
      ensures Keyed(books)
    {
      books := ByIsbn(newBooks);
    }

    /** `create_memento`: a snapshot holding a copy of the dictionary. */
    method CreateMemento() returns (m: CatalogMemento)
      ensures m.state == books
    {
      m := CatalogMemento(DeepCopy(books));
    }

    /** `restore`: the dictionary becomes a copy of the snapshot's. */
    method Restore(m: CatalogMemento)
      modifies this
      ensures books == m.state
    {
      books := DeepCopy(m.state);
    }
  }

  /** Adding then reading a book gives it back; adding it twice is a
      conflict; once removed it is no longer found. */
  method AddGetRemove(b: Book) returns (stored: Result<Book>, again: Result<()>, removed: Result<Book>, after: Result<Book>)
    ensures stored == Ok(b)
    ensures again == Err(Conflict(b.isbn))
    ensures removed == Ok(b)
    ensures after == Err(NotFound(b.isbn))
  {
    var c := new Catalog();
    var empty: Dict<string, Book> := [];
    assert KeySet(empty) == {};
    var _ := c.AddBook(b);
    assert c.books == Put(empty, b.isbn, b);
    GetPut(empty, b.isbn, b, b.isbn);
    stored := c.GetBook(b.isbn);
    again := c.AddBook(b);
    removed := c.RemoveBook(b.isbn);
    after := c.GetBook(b.isbn);
  }

  /** A snapshot restored later brings back exactly the listing it was taken
      from, whatever happened to the catalog in between. */
  method SnapshotRestore(start: seq<Book>, extra: Book) returns (before: seq<Book>, restored: seq<Book>)
    ensures restored == before
    ensures before == Values(ByIsbn(start))
  {
    var c := new Catalog();
    c.ReplaceAll(start);
    before := c.ListBooks();
    var m := c.CreateMemento();
    var _ := c.AddBook(extra);
    var _ := c.RemoveBook(extra.isbn);
    c.ReplaceAll([]);
    c.Restore(m);
    restored := c.ListBooks();
  }
}
