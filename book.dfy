/** The book record: a frozen five-field value and its dictionary form. */
module Books {
  import opened Outcomes
  import opened Dynamic

  /** A frozen dataclass: never changed after construction, and two books are
      equal exactly when all five fields are. */
  datatype Book = Book(title: string, author: string, isbn: string, publisher: string, pages: int)

  /** A plain dictionary as produced by `to_dict` or handed to `from_dict`. */
  type Payload = map<string, Value>

  const BookKeys: set<string> := {"title", "author", "isbn", "publisher", "pages"}

  /** `to_dict`: one entry per field. */
  function ToDict(b: Book): (p: Payload)
    ensures p.Keys == BookKeys
  {
    map["title" := Str(b.title), "author" := Str(b.author), "isbn" := Str(b.isbn),
        "publisher" := Str(b.publisher), "pages" := Int(b.pages)]
  }

  /** `from_dict`: the five keys are looked up in field order, so the first
      absent one is reported; then `pages` goes through `int()`. */
  function FromDict(p: Payload): (r: Result<Book>)
    ensures r.Ok? ==> BookKeys <= p.Keys
    ensures r.Ok? ==>
      && p["title"] == Str(r.value.title) && p["author"] == Str(r.value.author)
      && p["isbn"] == Str(r.value.isbn) && p["publisher"] == Str(r.value.publisher)
      && IntOf(p["pages"]) == Some(r.value.pages)
  {
    if "title" !in p then Err(MissingKey("title"))
    else if "author" !in p then Err(MissingKey("author"))
    else if "isbn" !in p then Err(MissingKey("isbn"))
    else if "publisher" !in p then Err(MissingKey("publisher"))
    else if "pages" !in p then Err(MissingKey("pages"))
    else if !p["title"].Str? then Err(BadValue("title"))
    else if !p["author"].Str? then Err(BadValue("author"))
    else if !p["isbn"].Str? then Err(BadValue("isbn"))
    else if !p["publisher"].Str? then Err(BadValue("publisher"))
    else
      match IntOf(p["pages"])
      case None => Err(BadValue("pages"))
      case Some(n) => Ok(Book(p["title"].s, p["author"].s, p["isbn"].s, p["publisher"].s, n))
  }

  /** `from_dict(to_dict(b)) == b`. */
  lemma FromDictToDict(b: Book)
    ensures FromDict(ToDict(b)) == Ok(b)
  {
  }

  /** The dictionary of a book read from a payload repeats the payload's
      text fields unchanged and carries the converted page count. */
  lemma ToDictFromDict(p: Payload)
    requires FromDict(p).Ok?
    ensures forall k :: k in BookKeys - {"pages"} ==> ToDict(FromDict(p).value)[k] == p[k]
    ensures IntOf(p["pages"]) == Some(ToDict(FromDict(p).value)["pages"].i)
  {
  }

  /** `Book.from_dict(book.to_dict())`: the copy the catalog takes of each book. */
  function Copy(b: Book): (c: Book)
    ensures c == b
  {
    FromDictToDict(b);
    FromDict(ToDict(b)).value
  }

  /** A payload that lacks one of the five keys is refused with `KeyError`
      naming a missing key. */
  lemma FromDictMissingKey(p: Payload, key: string)
    requires key in BookKeys && key !in p
    ensures FromDict(p).Err? && FromDict(p).error.MissingKey?
    ensures FromDict(p).error.key in BookKeys - p.Keys
  {
  }

  /** Keys other than the five fields make no difference. */
  lemma FromDictIgnoresExtraKeys(p: Payload, q: Payload)
    requires forall k :: k in BookKeys ==> (k in p <==> k in q)
    requires forall k :: k in BookKeys && k in p ==> p[k] == q[k]
    ensures FromDict(p) == FromDict(q)
  {
  }

  /** Pages given as decimal text, as an XML document carries them, are
      converted back to the same number; text that is not a number is refused. */
  lemma FromDictCoercesPages(b: Book)
    ensures FromDict(ToDict(b)["pages" := Str(IntText(b.pages))]) == Ok(b)
    ensures FromDict(ToDict(b)["pages" := Str("many")]) == Err(BadValue("pages"))
  {
    IntTextRoundTrip(b.pages);
    assert !IsDigit("many"[0]);
  }

  /** Overriding the `isbn` entry of a book's payload, as an update does with
      the ISBN from the path, yields that book under the new ISBN. */
  lemma FromDictWithIsbn(b: Book, isbn: string)
    ensures FromDict(ToDict(b)["isbn" := Str(isbn)]) == Ok(b.(isbn := isbn))
  {
  }
}
