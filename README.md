# Book catalog: a Dafny model

This project models the core of the book-catalog microservice. The core is an
in-memory catalog of books keyed by ISBN, with a bounded linear undo history
of catalog snapshots (Memento pattern) and four reversible commands (add,
update, remove, import). The `CatalogService` records a snapshot before each
mutation and then runs a command. Three small cores sit beside it:

- the case-insensitive format factory;
- the path-template router of the bundled FastAPI stand-in;
- the field validator of the bundled pydantic stand-in.

The Python originals are modelled module by module:

- **`Dicts`**: Python's insertion-ordered `dict` as a sequence of entries with distinct keys.
  - `Put` is item assignment: it replaces a value in place, or appends a new key.
  - `Pop` is `dict.pop`.
  - `FromPairs` is a dict comprehension: a repeated key keeps its first position and takes its last value.
- **`Books`**: the frozen `Book` dataclass as a datatype, so equality is field-wise and no field can be rebound. Also `to_dict` and `from_dict`.
- **`Dynamic`**: payload values, and Python's `int()` on them.
- **`Catalogs`**: the `Catalog` class, whose `books` field the methods reassign.
- **`Mementos`**: the frozen `CatalogMemento`.
- **`Undo`**: the `UndoManager` class over a `deque(maxlen=limit)`.
- **`AddBook`, `RemoveBook`, `UpdateBook`, `ImportCatalog`**: the four command classes, each with its one-shot undo state.
- **`Services`**: the `CatalogService` class.
- **`FormatFactory`**: format selection.
- **`Routing`**: `Route.match`, `_add_route`, `include_router`, `_resolve` and the routing branches of `handle_request`.
- **`Validation`**: `FieldInfo`/`Field`, `BaseModel.__init__`, `_apply_constraints` and `model_dump`. The `BookDTO` field table is included as data.

Python exceptions become the `Outcomes.Error` datatype:

| exception | constructor |
|---|---|
| `KeyError` for an unknown ISBN | `NotFound` |
| `ValueError` for a duplicate ISBN | `Conflict` |
| `ValueError` for an empty history | `EmptyHistory` |
| `ValueError` for an unknown format | `Unsupported` |
| `KeyError` for a missing payload key | `MissingKey` |
| `int()` or type failures | `BadValue` |
| decoder failures | `Malformed`, the error a format strategy's decoder is expected to give; the service passes on whatever error the decoder returns |
| `ValidationError` | `Required`, `TooShort`, `TooSmall` |

The methods that change state state their whole new state. The properties
the source promises are proved about the specification functions. Those
properties are:

- round trips;
- order preservation;
- last-wins deduplication;
- the history bound and its eviction;
- LIFO undo;
- first-match routing;
- the validator's error order.

## Model

| member | source | states |
|---|---|---|
| Books.ToDict | app/domain/book.py:19-28 | the payload has exactly the five keys title, author, isbn, publisher, pages |
| Books.FromDict | app/domain/book.py:30-40 | success needs all five keys; each text field then equals the payload's entry and `pages` is `int()` of the payload's entry |
| Books.FromDictToDict | app/domain/book.py:19-40 | `from_dict(to_dict(b)) == b` for every book |
| Books.ToDictFromDict | app/domain/book.py:19-40 | the dictionary of a book read from a payload repeats the payload's text entries and holds the converted page count |
| Books.FromDictMissingKey | app/domain/book.py:34-40 | a payload lacking one of the five keys is refused with a missing-key error naming an absent key |
| Books.FromDictIgnoresExtraKeys | app/domain/book.py:34-40 | two payloads that agree on the five keys give the same result, whatever other keys they carry |
| Books.FromDictCoercesPages | app/domain/book.py:39 | pages given as decimal text convert back to the number; non-numeric text is refused |
| Books.FromDictWithIsbn | app/domain/services.py:47 | overriding a payload's isbn gives the same book under the new ISBN |
| Books.Copy | app/domain/catalog.py:59 | the `from_dict(to_dict(b))` copy equals the book |
| Dynamic.ParseIntExamples | app/domain/book.py:39 | `int("50") == 50` and `int("-7") == -7`; `int("fifty")` and `int("")` raise; `int(50) == 50` |
| Dynamic.IntTextRoundTrip | app/domain/book.py:39 | `int(str(i)) == i` for every integer |
| Dynamic.DecimalTextValue | app/domain/book.py:39 | the decimal digits of `n` denote `n` |
| Dicts.Get | app/domain/catalog.py:25-28 | a lookup succeeds exactly for a present key, and yields that key's stored value |
| Dicts.Put | app/domain/catalog.py:35-42 | item assignment adds the key; a present key keeps its position with the new value and nothing else changes; a new key is appended last |
| Dicts.Pop | app/domain/catalog.py:49 | `pop` cuts out exactly the entry of that key and the others keep their order |
| Dicts.IndexOf | app/domain/catalog.py:25-26 | the position of a key is found exactly when the key is present, and no earlier entry has it |
| Dicts.GetPut | app/domain/catalog.py:35-42 | after assignment the key reads the new value and every other key reads as before |
| Dicts.GetPop | app/domain/catalog.py:49 | after `pop` the key is absent and every other key reads as before |
| Dicts.PopAfterPut | app/domain/commands/add_book.py:18-26 | adding a new key and then popping it restores the dictionary exactly, order included |
| Dicts.PutRestores | app/domain/commands/update_book.py:21-29 | reassigning the previous value restores the dictionary exactly |
| Dicts.PutAfterPop | app/domain/commands/remove_book.py:20-27 | popping and re-adding a key gives the same contents, with the key moved to the end |
| Dicts.KeyListPut | app/domain/catalog.py:42 | assignment to a present key leaves the key order unchanged |
| Dicts.FromPairsKeys | app/domain/catalog.py:54 | a comprehension's keys are exactly the keys produced |
| Dicts.FromPairsLastWins | app/domain/catalog.py:54 | the last value produced for a key is the one kept |
| Dicts.FromPairsFirstPosition | app/domain/catalog.py:54 | a comprehension's key order is the order of first occurrence |
| Dicts.DedupMembers | app/domain/catalog.py:54 | the first-occurrence order holds exactly the produced keys |
| Dicts.FromPairsOfDict | app/domain/catalog.py:65 | rebuilding a dictionary from its own entries gives it back unchanged |
| Catalogs.Entries | app/domain/catalog.py:54 | each book is keyed by its own ISBN, one entry per book |
| Catalogs.ByIsbn | app/domain/catalog.py:51-54 | `{book.isbn: book for book in books}` keys every book by its own ISBN |
| Catalogs.PutKeyed | app/domain/catalog.py:35 | adding a book under its own ISBN keeps every key equal to its book's ISBN |
| Catalogs.FromPairsKeyed | app/domain/catalog.py:54 | a comprehension over ISBN-keyed entries stays ISBN-keyed |
| Catalogs.ByIsbnOfValues | app/domain/commands/import_catalog.py:20-30 | re-keying the books of an ISBN-keyed catalog gives the same catalog, order included |
| Catalogs.ByIsbnLastWins | app/domain/catalog.py:54 | on duplicate ISBNs the last book wins |
| Catalogs.ByIsbnOrder | app/domain/catalog.py:54 | the listing order is the order in which the ISBNs first occur |
| Catalogs.ByIsbnSize | app/domain/services.py:64-68 | the number of entries is the number of distinct ISBNs |
| Catalogs.DictSize | app/domain/services.py:68 | `len` of a dictionary is the number of its distinct keys |
| Catalogs.DeepCopy | app/domain/catalog.py:59-65 | copying entry by entry through `to_dict`/`from_dict` gives an equal dictionary |
| Catalogs.Catalog.constructor | app/domain/catalog.py:14-15 | a new catalog is empty |
| Catalogs.Catalog.ListBooks | app/domain/catalog.py:17-20 | the books in insertion order, one per entry, changing nothing |
| Catalogs.Catalog.GetBook | app/domain/catalog.py:22-28 | an error exactly when the ISBN is absent, and then NotFound; otherwise the stored book |
| Catalogs.Catalog.AddBook | app/domain/catalog.py:30-35 | a duplicate ISBN gives Conflict and no change; otherwise the book is appended last; ISBN keying is kept |
| Catalogs.Catalog.UpdateBook | app/domain/catalog.py:37-42 | an absent ISBN gives NotFound and no change; otherwise only that value is replaced, in place; keying is kept only when the book carries that ISBN |
| Catalogs.Catalog.RemoveBook | app/domain/catalog.py:44-49 | an absent ISBN gives NotFound and no change; otherwise the stored book is returned, its entry is cut out and the rest keep their order |
| Catalogs.Catalog.ReplaceAll | app/domain/catalog.py:51-54 | the catalog becomes the books keyed by ISBN, last value and first position winning |
| Catalogs.Catalog.CreateMemento | app/domain/catalog.py:56-60 | the snapshot holds the catalog's current entries |
| Catalogs.Catalog.Restore | app/domain/catalog.py:62-65 | the catalog becomes the snapshot's entries |
| Catalogs.AddGetRemove | app/domain/catalog.py:22-49 | add then get gives the book; a second add conflicts; remove returns it; a later get is NotFound |
| Catalogs.SnapshotRestore | app/domain/catalog.py:56-65 | restoring a snapshot taken before a later add gives back the same listing |
| Undo.Newest | app/domain/undo_manager.py:16 | the newest `n` items of a sequence, or all of them when fewer |
| Undo.Pushed | app/domain/undo_manager.py:16-21 | appending to a bounded deque keeps the length within the limit, grows it by one below the limit, and puts the new snapshot last |
| Undo.PushedBelowLimit | app/domain/undo_manager.py:16-21 | below the limit nothing is evicted |
| Undo.PushedAtLimit | app/domain/undo_manager.py:16-21 | at the limit the oldest snapshot is evicted |
| Undo.RecordAllKeepsNewest | app/domain/undo_manager.py:16-21 | any series of recordings keeps exactly the newest `limit` snapshots |
| Undo.RecordAllFromEmpty | tests/unit/test_memento.py:27-45 | recording a series on an empty history keeps its newest `limit` snapshots |
| Undo.NewestPushed | app/domain/undo_manager.py:16-21 | recording on the newest `limit` of a series keeps the newest `limit` of the longer series |
| Undo.UndoOrder | app/domain/undo_manager.py:16 | counted from the newest end, the kept snapshots are the series' own newest ones, and none is older than the newest `limit` |
| Undo.RecordSeries | app/domain/undo_manager.py:16-21 | `record_state` for each snapshot of a series on an empty history keeps exactly the newest `limit` |
| Undo.UndoTimes | app/domain/undo_manager.py:23-28 | after such a series, `j + 1` undos restore the `j`-th newest snapshot and leave the older kept ones; only the newest `limit` can come back |
| Undo.UndoManager.constructor | app/domain/undo_manager.py:15-16 | empty history, limit defaulting to 10 |
| Undo.UndoManager.RecordState | app/domain/undo_manager.py:18-21 | the history becomes the bounded append of the snapshot and stays within the limit |
| Undo.UndoManager.Undo | app/domain/undo_manager.py:23-28 | on an empty history, EmptyHistory and nothing changes; otherwise the newest snapshot is removed from the history and restored into the catalog |
| Undo.UndoManager.CanUndo | app/domain/undo_manager.py:30-33 | true exactly when a snapshot is stored |
| Undo.UndoManager.Remaining | app/domain/undo_manager.py:35-38 | the number of stored snapshots |
| Undo.RecordThenUpdate | tests/unit/test_memento.py:30-35 | one test round records the pre-update snapshot and replaces the only book |
| Undo.OneBook | tests/unit/test_memento.py:28-29 | a catalog holding one book, with an empty history of room two |
| Undo.TwoUpdates | tests/unit/test_memento.py:30-35 | two recorded updates with room two keep both snapshots |
| Undo.ThreeUpdates | tests/unit/test_memento.py:30-35 | three recorded updates with room two evict the first snapshot |
| Undo.LimitTwoScenario | tests/unit/test_memento.py:27-45 | two undos restore the titles in reverse order; the third fails with an empty history and none remain |
| Undo.DefaultCapScenario | tests/unit/test_memento.py:63-74 | any number of recordings under the default limit leaves at most ten |
| AddBook.AddBookCommand.constructor | app/domain/commands/add_book.py:13-16 | not yet executed |
| AddBook.AddBookCommand.Execute | app/domain/commands/add_book.py:18-20 | a duplicate ISBN gives Conflict with the flag unchanged; otherwise the book is appended and the flag is set |
| AddBook.AddBookCommand.Undo | app/domain/commands/add_book.py:22-26 | a no-op before execution; afterwards it pops the ISBN and clears the flag; a missing ISBN gives NotFound with the flag kept |
| AddBook.ExecuteThenUndo | tests/unit/test_commands.py:15-23 | execute then undo restores the original listing; a second undo changes nothing |
| RemoveBook.RemoveBookCommand.constructor | app/domain/commands/remove_book.py:15-18 | nothing captured |
| RemoveBook.RemoveBookCommand.Execute | app/domain/commands/remove_book.py:20-21 | an absent ISBN gives NotFound and captures nothing; otherwise it pops the entry and captures the removed book |
| RemoveBook.RemoveBookCommand.Undo | app/domain/commands/remove_book.py:23-27 | a no-op without a capture; otherwise it re-adds the book at the end and clears the capture; a clash gives Conflict with the capture kept |
| RemoveBook.ExecuteThenUndo | tests/unit/test_commands.py:26-35 | execute then undo gives the same contents with the book moved last; a second undo changes nothing |
| UpdateBook.UpdateBookCommand.constructor | app/domain/commands/update_book.py:15-19 | nothing captured |
| UpdateBook.UpdateBookCommand.Execute | app/domain/commands/update_book.py:21-23 | an absent ISBN gives NotFound before any change; otherwise it captures the old book and replaces it in place |
| UpdateBook.UpdateBookCommand.Undo | app/domain/commands/update_book.py:25-29 | a no-op without a capture; otherwise it writes the captured book back in place and clears the capture |
| UpdateBook.ExecuteThenUndo | tests/unit/test_commands.py:38-48 | execute replaces the value in place, keeping the key order; undo restores the original listing; a second undo changes nothing |
| ImportCatalog.ImportCatalogCommand.constructor | app/domain/commands/import_catalog.py:15-18 | nothing captured |
| ImportCatalog.ImportCatalogCommand.Execute | app/domain/commands/import_catalog.py:20-25 | captures the current books re-keyed by ISBN; the catalog becomes exactly the imported books |
| ImportCatalog.ImportCatalogCommand.Undo | app/domain/commands/import_catalog.py:27-31 | a no-op without a capture; otherwise it restores the previous contents in their order and clears the capture |
| ImportCatalog.ExecuteThenUndo | tests/unit/test_commands.py:51-61 | import then undo returns to the original catalog; a second undo changes nothing |
| FormatFactory.LowerChar | app/infrastructure/factories/format_factory.py:21 | `lower()` maps A-Z to a-z and leaves other characters alone |
| FormatFactory.Lower | app/infrastructure/factories/format_factory.py:21 | `lower()` applied to each character, length preserved |
| FormatFactory.Create | app/infrastructure/factories/format_factory.py:15-24 | success exactly when the lowered key is in the table, and then that table entry; otherwise Unsupported naming the original input |
| FormatFactory.LowerIdempotent | app/infrastructure/factories/format_factory.py:21 | lowering twice is lowering once |
| FormatFactory.CreateIgnoresCase | app/infrastructure/factories/format_factory.py:20-24 | a key and its lowered form select the same strategy or both fail |
| FormatFactory.CreateJson | app/infrastructure/factories/format_factory.py:15-24 | "json" and "JSON" select the JSON strategy |
| FormatFactory.CreateXml | app/infrastructure/factories/format_factory.py:15-24 | "Xml" selects the XML strategy |
| FormatFactory.CreateYaml | app/infrastructure/factories/format_factory.py:22-23 | "yaml" and "YAML" are refused, and the error names the input as given |
| Services.DecodeBooks | app/domain/services.py:64 | decoding succeeds exactly when every entry has an isbn and builds a book; the result is ISBN-keyed |
| Services.Decoded | app/domain/book.py:30-40 | the books built from the entries, one per entry |
| Services.DecodeBooksByIsbn | app/domain/services.py:64 | the decoded dictionary is the decoded books keyed by ISBN, last entry winning |
| Services.DecodeBooksCount | app/domain/services.py:64-68 | the number of imported books is the number of distinct ISBNs in the data |
| Services.DecodeListing | app/domain/services.py:25-64 | decoding a catalog's own listing gives back the same catalog |
| Services.ParseImport | app/domain/services.py:62-64 | an unknown format gives Unsupported; a decoder failure is passed on; a success is ISBN-keyed |
| Services.ParsedEntries | app/domain/services.py:62-64 | a successful import parse is the decoded dictionary of what the selected strategy deserialised |
| Services.ImportCount | app/domain/services.py:64-68 | the count returned by an import is the number of distinct ISBNs in the deserialised data |
| Services.PushedFrom | app/domain/undo_manager.py:16-21 | a recording adds no snapshot except the new one |
| Services.CatalogService.constructor | app/domain/services.py:20-23 | the service holds the given catalog, history and strategies |
| Services.CatalogService.Record | app/domain/services.py:38 | the history becomes the bounded append of a snapshot of the current catalog |
| Services.CatalogService.ListBooks | app/domain/services.py:25-28 | one dictionary per book in listing order, each reading back as that book, changing nothing |
| Services.CatalogService.GetBook | app/domain/services.py:30-33 | NotFound exactly when the ISBN is absent; otherwise the stored book's dictionary |
| Services.CatalogService.AddBook | app/domain/services.py:35-41 | records a snapshot first in every case; then a bad payload or a duplicate ISBN fails with the catalog unchanged; otherwise the book is appended and its stored record returned |
| Services.CatalogService.AddParsed | app/domain/services.py:39-41 | the command step of `add_book`: Conflict and no change, or the book appended and its record returned |
| Services.CatalogService.UpdateBook | app/domain/services.py:43-50 | records a snapshot first; the path ISBN overrides the payload's; a bad payload or an absent ISBN fails with no change; otherwise the value is replaced in place and its record returned |
| Services.CatalogService.RemoveBook | app/domain/services.py:52-57 | records a snapshot first; NotFound and no change for an absent ISBN; otherwise the entry is popped |
| Services.CatalogService.ImportCatalog | app/domain/services.py:59-68 | a format or decoding failure changes neither the catalog nor the history; otherwise it records a snapshot, the catalog becomes the decoded books, and their count is returned |
| Services.CatalogService.ExportCatalog | app/domain/services.py:70-74 | an unknown format gives Unsupported; otherwise the selected strategy's serialisation of the listing; no change |
| Services.CatalogService.Undo | app/domain/services.py:76-83 | an empty history gives EmptyHistory and no change; otherwise the newest snapshot is restored and removed, and the restored listing and the remaining count are returned |
| Services.NewService | app/domain/services.py:20-23 | a fresh service over a catalog of the given books, with an empty history of the default size |
| Services.AddStep | app/domain/services.py:35-41 | a successful add appends the book and records the prior snapshot |
| Services.ConflictStep | app/domain/services.py:38-40 | a duplicate add fails with Conflict yet still takes a history slot |
| Services.UpdateStep | app/domain/services.py:43-50 | a successful update replaces the value in place and records the prior snapshot |
| Services.AddFirst | app/domain/services.py:35-41 | adding to an empty service leaves one book and one empty snapshot |
| Services.AddUpdateRemove | app/domain/services.py:35-57 | add, update, remove leave an empty catalog and three snapshots in order |
| Services.AddUpdateRemoveUndo | app/domain/services.py:76-83 | undos after add, update, remove bring back the updated book, then the original, then the empty catalog, with 2, 1, 0 remaining; a fourth undo fails |
| Services.ImportThenUndo | app/domain/services.py:59-83 | a failed import changes nothing and leaves nothing to undo; a successful one returns the count, lists the imported books, and one undo restores the original listing |
| Services.AddThenConflict | app/domain/services.py:35-41 | a second add of the same ISBN conflicts after recording a second snapshot |
| Services.FailedAddTakesSlot | app/domain/services.py:38-40 | a failed add still consumes a history slot: two remain, and undo brings back the catalog with the book |
| Services.ExportThenImport | app/domain/services.py:59-74 | with a lossless strategy, exporting and re-importing gives back the same catalog and its size |
| Routing.Split | fastapi/__init__.py:36-37 | `split` always yields at least one piece |
| Routing.SplitPieces | fastapi/__init__.py:36-37 | no piece contains the separator |
| Routing.JoinSplit | fastapi/__init__.py:36-37 | joining the pieces with the separator gives back the text |
| Routing.SplitAppend | fastapi/__init__.py:36-37 | splitting at a separator splits the two sides independently |
| Routing.NonEmptyMembers | fastapi/__init__.py:36-37 | the filter keeps exactly the non-empty pieces |
| Routing.NonEmptyAppend | fastapi/__init__.py:36-37 | the filter distributes over concatenation |
| Routing.SegmentsWellFormed | fastapi/__init__.py:36-37 | every segment is non-empty and free of "/" |
| Routing.LeadingSlash | fastapi/__init__.py:36-37 | a leading "/" does not change the segments |
| Routing.TrailingSlash | fastapi/__init__.py:36-37 | a trailing "/" does not change the segments |
| Routing.StripLeftSegments | fastapi/__init__.py:36-37 | `lstrip("/")` does not change the segments |
| Routing.StripRightSegments | fastapi/__init__.py:36-37 | `rstrip("/")` does not change the segments |
| Routing.SegmentsIgnoreStrip | fastapi/__init__.py:36-37 | the segments are the non-empty pieces of the unstripped path |
| Routing.SegmentsExample | fastapi/__init__.py:36-37 | "/a//b/" and "a/b" give the same segments |
| Routing.SplitExample | fastapi/__init__.py:36-37 | the pieces of "/a//b/" and "a/b" |
| Routing.SplitOuterSlashes | fastapi/__init__.py:36-37 | "/a//b/" splits into empty pieces around "a" and "b" |
| Routing.SplitInnerSlash | fastapi/__init__.py:36-37 | "a/b" splits into "a" and "b" |
| Routing.NonEmptyExample | fastapi/__init__.py:36-37 | the filter drops exactly the empty pieces |
| Routing.LiteralsAgreeSnoc | fastapi/__init__.py:41-45 | literal agreement holds for the prefix and for the last segment together |
| Routing.MatchSegmentsIff | fastapi/__init__.py:41-45 | matching succeeds exactly when every literal segment equals the request segment at its place |
| Routing.PlaceholderNames | fastapi/__init__.py:42-43 | the brace-stripped names of the placeholder segments |
| Routing.PlaceholderNamesSnoc | fastapi/__init__.py:42-43 | one more segment adds its name exactly when it is a placeholder |
| Routing.MatchSegmentsKeys | fastapi/__init__.py:40-48 | a match binds exactly the placeholder names |
| Routing.MatchSegmentsBinds | fastapi/__init__.py:42-43 | a placeholder binds the request segment at its place, unless a later one of the same name overrides it |
| Routing.MatchPathIff | fastapi/__init__.py:35-48 | a path matches exactly when the segment counts agree and every literal agrees; the bindings are exactly the placeholder names; two empty paths give `{}` |
| Routing.MatchExamples | fastapi/__init__.py:35-48 | `/books/{isbn}` binds the ISBN; a differing literal does not match |
| Routing.MatchSegmentsStaysNone | fastapi/__init__.py:44-45 | a mismatch on a prefix is final |
| Routing.MatchSegmentsStep | fastapi/__init__.py:41-45 | one loop step of `match` extends the prefix result |
| Routing.Route.Match | fastapi/__init__.py:35-48 | the loop computes the path match |
| Routing.ZipMatch | fastapi/__init__.py:40-45 | the loop over paired segments computes the segment match |
| Routing.FirstWhere | fastapi/__init__.py:126-133 | none exactly when no element qualifies; otherwise a qualifying position with none before it |
| Routing.FirstWhereIs | fastapi/__init__.py:126-133 | a qualifying position with none before it is the one found |
| Routing.FirstWhereAppend | fastapi/__init__.py:123-133 | appended elements never displace an earlier qualifying one; otherwise the first in the appended part is found, shifted |
| Routing.FirstMatchAppend | fastapi/__init__.py:123-133 | routes registered earlier win over routes included after them |
| Routing.FullPath | fastapi/__init__.py:58-62 | the full path always starts with "/"; it is prefix plus path, with "/" put in front when missing |
| Routing.FullPathSegments | fastapi/__init__.py:58-62 | a route added under a prefix has the prefix's segments followed by the path's |
| Routing.JoinedSegments | fastapi/__init__.py:59 | the segments of a prefix followed by a "/"-led path are the prefix's then the path's |
| Routing.Router.constructor | fastapi/__init__.py:54-56 | the prefix loses its trailing slashes; no routes |
| Routing.Router.AddRoute | fastapi/__init__.py:58-62 | the route under its full path is appended last |
| Routing.Router.IncludeRouter | fastapi/__init__.py:123-124 | the other router's routes are appended after the existing ones |
| Routing.Router.Resolve | fastapi/__init__.py:126-133 | the first route in registration order that lists the method and matches, with its bindings; otherwise no route and no bindings |
| Routing.Router.HandleRequest | fastapi/__init__.py:135-146 | 404 "Not Found" when nothing resolves; the exception's status and detail when the endpoint raises; otherwise the route's status, with no payload for a 204 route |
| Validation.Field | pydantic/__init__.py:13-26 | the field info carries the given default and constraints |
| Validation.AsInt | pydantic/__init__.py:67 | the integer value of an int, or of a bool as 0/1; nothing for other values |
| Validation.ApplyConstraints | pydantic/__init__.py:63-70 | the value is refused exactly when it is a string shorter than `min_length` or an int below `ge`; the length error takes precedence for strings; a passing value is unchanged |
| Validation.Supplied | pydantic/__init__.py:53-58 | the data's value when present, else the default, else nothing |
| Validation.ResolveField | pydantic/__init__.py:53-59 | a missing required field gives Required; otherwise the constraints decide |
| Validation.ResolveAll | pydantic/__init__.py:51-60 | on success, one value per declared field, in declaration order |
| Validation.ResolveAllSucceeds | pydantic/__init__.py:51-60 | validation succeeds exactly when every field resolves |
| Validation.ResolveAllValues | pydantic/__init__.py:51-70 | each stored value is the supplied one, unchanged |
| Validation.RequiredFieldMissing | pydantic/__init__.py:55-56 | a missing field without a default fails validation |
| Validation.ExtraKeysIgnored | pydantic/__init__.py:52-54 | keys that are not declared fields make no difference |
| Validation.ResolveAllStaysErr | pydantic/__init__.py:52-60 | a failure on the first fields is the final result |
| Validation.FirstFailure | pydantic/__init__.py:52-60 | the first failing field, in declaration order, decides the error |
| Validation.Model.constructor | pydantic/__init__.py:45-48 | a new instance holds no attributes |
| Validation.Model.Init | pydantic/__init__.py:50-61 | on failure the instance is unchanged; on success its attributes are updated with the resolved values |
| Validation.Model.ModelDump | pydantic/__init__.py:72-73 | a copy of exactly the stored attributes |
| Validation.UpdateAll | pydantic/__init__.py:61 | updating an empty attribute table gives the values themselves |
| Validation.Validate | pydantic/__init__.py:51-60 | the loop computes the field resolution |
| Validation.BookAccepted | app/api/dto.py:10-17 | a complete, well-formed book payload passes `BookDTO` |
| Validation.BookZeroPages | app/api/dto.py:17 | zero pages is refused by `ge=1` |
| Validation.BookShortIsbn | app/api/dto.py:15 | a two-character ISBN is refused by `min_length=3` |
| Validation.BookMissingTitle | app/api/dto.py:13 | a payload without a title is refused as required |

## Left out

- Books.FromDict: the four text fields must be strings; Python would store any object, including a non-string ISBN.
- Dynamic.IntOf: `int()` is modelled for ints, bools and optionally signed ASCII digit strings. Surrounding whitespace, underscores, non-ASCII digits, floats and bytes are not modelled; those strings are refused.
- Undo.UndoManager.constructor: the limit is a natural number. Python raises `ValueError` for a negative `maxlen`, and that case is not modelled.
- FormatFactory.Lower: lowers ASCII letters only; Unicode case mapping is not modelled.
- The abstract `Command` and `CatalogFormatStrategy` base classes have no behaviour, so they are not modelled. Each command is its own class.
- The JSON and XML strategies (json_format.py, xml_format.py) are not part of this model. A strategy is a pair of functions passed to the service, and decoding may fail.
- Services.ExportThenImport: the round trip holds for any strategy whose decoder inverts its encoder; the real encoders are not modelled.
- The HTTP shell is not part of this model: routes.py, main.py, testclient.py, and the translation of exceptions into status codes.
- Routing.Router.HandleRequest: `_call_endpoint` and `_serialize` (signature and type-hint reflection, dependency injection, pydantic coercion) are folded into the `call` parameter. An exception other than `HTTPException` is not modelled.
- Routes are added with `AddRoute` directly. The `get`/`post`/`put`/`delete`/`_register` decorators and their default status codes are not modelled.
- The endpoint of a route is identified by a number.
- `APIRouter.tags` and `FastAPI.title` are not modelled. The application is a `Router` with an empty prefix.
- Routing.Strip: `strip`, `lstrip` and `rstrip` are given as definitions without contracts of their own. Their effect on segments is stated by the segment lemmas.
- The `BaseModelMeta` metaclass is not modelled; the field table is explicit data (`Validation.Fields`). Attribute access on the instance is not modelled; the attributes are a table.
- Validation.Model.Init: the update of `__dict__` is proved in general; that it yields exactly the resolved values is stated for a fresh instance only (`UpdateAll` on an empty table).
- Exception message texts are not modelled; each error is a datatype constructor carrying the name or key involved.
- Payloads are maps, so the key order of `to_dict` output is not modelled.
- Copying a book through `to_dict`/`from_dict` gives an equal immutable value. Memento independence from later mutation therefore holds by construction, and object identity is not modelled.
- Mementos.CatalogMemento: the dataclass's generated `==` compares the dictionaries regardless of order; the model's equality on the datatype also compares the order of entries. No operation of the core compares mementos.
- Nothing in the service is concurrent; no concurrency is modelled.
