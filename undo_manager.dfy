/** The bounded, linear undo history of catalog snapshots. */
module Undo {
  import opened Outcomes
  import opened Dicts
  import opened Books
  import opened Mementos
  import opened Catalogs

  const DefaultLimit: nat := 10

  /** The newest `n` items of `s` (all of them when there are at most `n`). */
  function Newest<T>(s: seq<T>, n: nat): (r: seq<T>)
    ensures |r| == if |s| <= n then |s| else n
    ensures r == s[|s| - |r|..]
  {
    if |s| <= n then s else s[|s| - n..]
  }

  /** `deque.append` on a deque with `maxlen = limit`: the newest entry goes
      last and, once `limit` entries are held, the oldest one is dropped. */
  function Pushed<T>(h: seq<T>, m: T, limit: nat): (r: seq<T>)
    requires |h| <= limit
    ensures |r| <= limit
    ensures |r| == if |h| < limit then |h| + 1 else limit
    ensures limit > 0 ==> r[|r| - 1] == m
  {
    Newest(h + [m], limit)
  }

  /** Below the limit nothing is lost: undoing right after recording hands
      back the recorded snapshot and leaves the earlier history as it was. */
  lemma PushedBelowLimit<T>(h: seq<T>, m: T, limit: nat)
    requires |h| < limit
    ensures Pushed(h, m, limit) == h + [m]
  {
  }

  /** At the limit the oldest snapshot is evicted. */
  lemma PushedAtLimit<T>(h: seq<T>, m: T, limit: nat)
    requires 0 < |h| == limit
    ensures Pushed(h, m, limit) == h[1..] + [m]
  {
  }

  /** The history after recording `ms` one after the other. */
  function RecordAll<T>(h: seq<T>, ms: seq<T>, limit: nat): seq<T>
    requires |h| <= limit
    decreases ms
  {
    if ms == [] then h else RecordAll(Pushed(h, ms[0], limit), ms[1..], limit)
  }

  /** Dropping items that are not among the newest `n` changes nothing. */
  lemma NewestOfSuffix<T>(s: seq<T>, k: nat, n: nat)
    requires k <= |s| && (k == 0 || |s| - k >= n)
    ensures Newest(s[k..], n) == Newest(s, n)
  {
    if k == 0 {
      assert s[k..] == s;
    }
  }

  lemma DropThenAppend<T>(p: seq<T>, q: seq<T>, k: nat)
    requires k <= |p|
    ensures p[k..] + q == (p + q)[k..]
  {
  }

  /** Recording a series keeps exactly the newest `limit` snapshots. */
  lemma {:induction false} RecordAllKeepsNewest<T>(h: seq<T>, ms: seq<T>, limit: nat)
    requires |h| <= limit
    ensures RecordAll(h, ms, limit) == Newest(h + ms, limit)
    decreases ms
  {
    if ms == [] {
      assert h + ms == h;
    } else {
      var pushed := h + [ms[0]];
      var all := h + ms;
      assert all == pushed + ms[1..];
      var h' := Pushed(h, ms[0], limit);
      var k := |pushed| - |h'|;
      assert h' == pushed[k..];
      DropThenAppend(pushed, ms[1..], k);
      RecordAllKeepsNewest(h', ms[1..], limit);
      NewestOfSuffix(all, k, limit);
    }
  }

  /** Recording one more snapshot on the newest `limit` of a series keeps
      the newest `limit` of the longer series. */
  lemma NewestPushed<T>(p: seq<T>, m: T, limit: nat)
    ensures Pushed(Newest(p, limit), m, limit) == Newest(p + [m], limit)
  {
    var kept := Newest(p, limit);
    var k := |p| - |kept|;
    DropThenAppend(p, [m], k);
    NewestOfSuffix(p + [m], k, limit);
  }

  /** Recording a series on an empty history keeps its newest `limit`. */
  lemma RecordAllFromEmpty<T>(ms: seq<T>, limit: nat)
    ensures RecordAll([], ms, limit) == Newest(ms, limit)
  {
    var empty: seq<T> := [];
    assert empty + ms == ms;
    RecordAllKeepsNewest(empty, ms, limit);
  }

  /** With the history `Newest(ms, limit)` that recording `ms` leaves
      (`RecordAllFromEmpty`), successive undos hand back the snapshots
      newest first: the `j`-th undo restores the `j`-th newest one, and
      only the newest `limit` can come back, so with more than `limit` of
      them the oldest are lost for good. */
  lemma UndoOrder<T>(ms: seq<T>, limit: nat, j: nat)
    ensures |Newest(ms, limit)| == if |ms| <= limit then |ms| else limit
    ensures j < |Newest(ms, limit)| ==>
      Newest(ms, limit)[|Newest(ms, limit)| - 1 - j] == ms[|ms| - 1 - j] && |ms| - 1 - j >= |ms| - limit
  {
  }

  class UndoManager {
    /** `maxlen` of the history deque. */
    const limit: nat
    /** `_history`: oldest snapshot first, newest last. */
    var history: seq<CatalogMemento>

    ghost predicate Valid()
      reads this
    {
      |history| <= limit
    }

    constructor(limit: nat := DefaultLimit)
      ensures Valid() && this.limit == limit && history == []
    {
      this.limit := limit;
      history := [];
    }

    /** `record_state`: append the newest snapshot, evicting the oldest at
        the limit. */
    method RecordState(m: CatalogMemento)
      requires Valid()
      modifies this
      ensures Valid()
      ensures history == Pushed(old(history), m, limit)
    {
      if |history| < limit {
        history := history + [m];
      } else if limit > 0 {
        history := history[1..] + [m];
      }
    }

    /** `undo`: with no history, an error and nothing changes; otherwise the
        newest snapshot is taken off the history and restored into the
        catalog. */
    method Undo(catalog: Catalog) returns (r: Result<()>)
      requires Valid()
      modifies this, catalog
      ensures Valid()
      ensures old(history) == [] ==>
        r == Err(EmptyHistory) && history == [] && catalog.books == old(catalog.books)
      ensures old(history) != [] ==>
        && r == Ok(())
        && history == old(history)[..|old(history)| - 1]
        && catalog.books == old(history)[|old(history)| - 1].state
    {
      if history == [] {
        r := Err(EmptyHistory);
        return;
      }
      var newest := history[|history| - 1];
      history := history[..|history| - 1];
      catalog.Restore(newest);
      r := Ok(());
    }

    /** `can_undo`: whether any snapshot is stored. */
    method CanUndo() returns (b: bool)
      ensures b <==> |history| > 0
    {
      b := history != [];
    }

    /** `remaining`: how many snapshots are stored. */
    method Remaining() returns (n: nat)
      ensures n == |history|
    {
      n := |history|;
    }
  }

  /** `record_state` for each snapshot of a series in turn, starting from
      an empty history: the newest `limit` of them are kept. */
  method RecordSeries(u: UndoManager, ms: seq<CatalogMemento>)
    requires u.Valid() && u.history == []
    modifies u
    ensures u.Valid() && u.history == Newest(ms, u.limit)
  {
    var i := 0;
    ghost var done: seq<CatalogMemento> := [];
    while i < |ms|
      invariant 0 <= i <= |ms| && done == ms[..i]
      invariant u.Valid() && u.history == Newest(done, u.limit)
    {
      var m := ms[i];
      NewestPushed(done, m, u.limit);
      u.RecordState(m);
      done := done + [m];
      i := i + 1;
      assert done == ms[..i];
    }
    assert done == ms;
  }

  /** Undoing `j + 1` times after a series `ms` of recordings, which leaves
      the history `Newest(ms, limit)` (`RecordAllFromEmpty`), restores the
      `j`-th newest snapshot of the series and leaves the `j` older kept
      ones. */
  method UndoTimes(u: UndoManager, c: Catalog, ms: seq<CatalogMemento>, j: nat)
    requires u.Valid() && u.history == Newest(ms, u.limit) && j < |u.history|
    modifies u, c
    ensures u.Valid()
    ensures c.books == ms[|ms| - 1 - j].state
    ensures u.history == Newest(ms, u.limit)[..|Newest(ms, u.limit)| - 1 - j]
  {
    ghost var h := u.history;
    var k := 0;
    while k <= j
      invariant 0 <= k <= j + 1
      invariant u.Valid()
      invariant u.history == h[..|h| - k]
      invariant k > 0 ==> c.books == h[|h| - k].state
    {
      var _ := u.Undo(c);
      assert h[..|h| - k][..|h| - k - 1] == h[..|h| - (k + 1)];
      k := k + 1;
    }
    UndoOrder(ms, u.limit, j);
  }

  /** One round of the history tests: record a snapshot, then replace the
      catalog's only book. */
  method RecordThenUpdate(c: Catalog, u: UndoManager, next: Book)
    requires u.Valid() && |c.books| == 1 && c.books[0].0 == next.isbn
    modifies c, u
    ensures u.Valid()
    ensures u.history == Pushed(old(u.history), CatalogMemento(old(c.books)), u.limit)
    ensures c.books == [(next.isbn, next)]
  {
    var m := c.CreateMemento();
    u.RecordState(m);
    var _ := c.UpdateBook(next.isbn, next);
  }

  /** A catalog holding only `b`, with an empty history of room two. */
  method OneBook(b: Book) returns (c: Catalog, u: UndoManager)
    ensures fresh(c) && fresh(u) && u.Valid() && u.limit == 2
    ensures c.books == [(b.isbn, b)] && u.history == []
  {
    c := new Catalog();
    var _ := c.AddBook(b);
    var empty: Dict<string, Book> := [];
    assert c.books == Put(empty, b.isbn, b);
    u := new UndoManager(2);
  }

  /** Two recorded updates with room for two snapshots: both are kept. */
  method TwoUpdates(b: Book, t0: string, t1: string) returns (c: Catalog, u: UndoManager)
    ensures fresh(c) && fresh(u) && u.Valid() && u.limit == 2
    ensures c.books == [(b.isbn, b.(title := t1))]
    ensures u.history == [CatalogMemento([(b.isbn, b)]), CatalogMemento([(b.isbn, b.(title := t0))])]
  {
    c, u := OneBook(b);
    var s0 := c.books;
    RecordThenUpdate(c, u, b.(title := t0));
    PushedBelowLimit([], CatalogMemento(s0), 2);
    assert u.history == [CatalogMemento(s0)];
    var s1 := c.books;
    RecordThenUpdate(c, u, b.(title := t1));
    PushedBelowLimit([CatalogMemento(s0)], CatalogMemento(s1), 2);
  }

  /** Three recorded updates of one book with room for two snapshots: the
      snapshot taken before the first update has been evicted. */
  method ThreeUpdates(b: Book, t0: string, t1: string, t2: string) returns (c: Catalog, u: UndoManager)
    ensures fresh(c) && fresh(u) && u.Valid() && u.limit == 2
    ensures u.history == [CatalogMemento([(b.isbn, b.(title := t0))]), CatalogMemento([(b.isbn, b.(title := t1))])]
  {
    c, u := TwoUpdates(b, t0, t1);
    var h := u.history;
    var s2 := c.books;
    RecordThenUpdate(c, u, b.(title := t2));
    PushedAtLimit(h, CatalogMemento(s2), 2);
    assert h[1..] == [CatalogMemento([(b.isbn, b.(title := t0))])];
  }

  /** With room for two snapshots, three recorded updates can be undone only
      twice: the first two undos restore the titles in reverse order and the
      third finds the history empty. */
  method LimitTwoScenario(b: Book, t0: string, t1: string, t2: string)
    returns (first: seq<Book>, second: seq<Book>, third: Result<()>, left: nat)
    ensures first == [b.(title := t1)]
    ensures second == [b.(title := t0)]
    ensures third == Err(EmptyHistory)
    ensures left == 0
  {
    var c, u := ThreeUpdates(b, t0, t1, t2);
    var _ := u.Undo(c);
    first := c.ListBooks();
    var _ := u.Undo(c);
    second := c.ListBooks();
    third := u.Undo(c);
    left := u.Remaining();
  }

  /** Recording any number of snapshots with the default limit leaves at most
      ten of them. */
  method DefaultCapScenario(start: seq<Book>, count: nat) returns (n: nat)
    ensures n == if count <= DefaultLimit then count else DefaultLimit
  {
    var c := new Catalog();
    c.ReplaceAll(start);
    var u := new UndoManager();
    var i := 0;
    while i < count
      invariant 0 <= i <= count
      invariant u.Valid() && u.limit == DefaultLimit
      invariant |u.history| == if i <= DefaultLimit then i else DefaultLimit
    {
      var m := c.CreateMemento();
      u.RecordState(m);
      i := i + 1;
    }
    n := u.Remaining();
  }
}
