/** Python's built-in `dict` as the catalog uses it: a finite map whose
    entries keep insertion order. Assigning to a present key replaces its
    value in place; assigning to a new key appends; deleting closes the gap. */
module Dicts {
  import opened Outcomes

  predicate DistinctKeys<K(==), V>(s: seq<(K, V)>) {
    forall i, j :: 0 <= i < j < |s| ==> s[i].0 != s[j].0
  }

  /** A dictionary: its entries in insertion order, no key twice. */
  type Dict<K(==), V> = s: seq<(K, V)> | DistinctKeys(s) witness []

  function KeySet<K(==), V>(s: seq<(K, V)>): set<K> {
    set i | 0 <= i < |s| :: s[i].0
  }

  /** `list(d.keys())` */
  function KeyList<K, V>(s: seq<(K, V)>): (ks: seq<K>)
    ensures |ks| == |s|
  {
    seq(|s|, i requires 0 <= i < |s| => s[i].0)
  }

  /** `list(d.values())` */
  function Values<K, V>(s: seq<(K, V)>): (vs: seq<V>)
    ensures |vs| == |s|
  {
    seq(|s|, i requires 0 <= i < |s| => s[i].1)
  }

  /** Position of the first entry with key `k`. */
  function IndexOf<K(==), V>(s: seq<(K, V)>, k: K): (r: Option<nat>)
    ensures r.None? <==> k !in KeySet(s)
    ensures r.Some? ==> r.value < |s| && s[r.value].0 == k
    ensures r.Some? ==> forall j :: 0 <= j < r.value ==> s[j].0 != k
  {
    if s == [] then None
    else if s[0].0 == k then Some(0)
    else
      match IndexOf(s[1..], k)
      case None => None
      case Some(i) =>
        assert forall j :: 1 <= j < i + 1 ==> s[j] == s[1..][j - 1];
        Some(i + 1)
  }

  lemma IndexOfUnique<K, V>(d: Dict<K, V>, i: nat)
    requires i < |d|
    ensures IndexOf(d, d[i].0) == Some(i)
  {
  }

  /** `d.get(k)` */
  function Get<K(==), V>(d: Dict<K, V>, k: K): (r: Option<V>)
    ensures r.Some? <==> k in KeySet(d)
    ensures r.Some? ==> exists i :: 0 <= i < |d| && d[i] == (k, r.value)
  {
    match IndexOf(d, k)
    case None => None
    case Some(i) => Some(d[i].1)
  }

  /** `d[k] = v` */
  function Put<K(==), V>(d: Dict<K, V>, k: K, v: V): (r: Dict<K, V>)
    ensures KeySet(r) == KeySet(d) + {k}
    ensures k in KeySet(d) ==>
      |r| == |d| && forall i :: 0 <= i < |d| ==> r[i] == if d[i].0 == k then (k, v) else d[i]
    ensures k !in KeySet(d) ==> r == d + [(k, v)]
  {
    match IndexOf(d, k)
    case Some(i) =>
      var r := d[i := (k, v)];
      assert forall j :: 0 <= j < |d| ==> r[j].0 == d[j].0;
      assert KeySet(r) == KeySet(d) by {
        forall x | x in KeySet(r) ensures x in KeySet(d) {
          var j :| 0 <= j < |r| && r[j].0 == x;
          assert d[j].0 == x;
        }
        forall x | x in KeySet(d) ensures x in KeySet(r) {
          var j :| 0 <= j < |d| && d[j].0 == x;
          assert r[j].0 == x;
        }
      }
      forall j | 0 <= j < |d| ensures r[j] == if d[j].0 == k then (k, v) else d[j] {
        if d[j].0 == k { IndexOfUnique(d, j); }
      }
      r
    case None =>
      var r := d + [(k, v)];
      assert forall j :: 0 <= j < |d| ==> d[j].0 != k;
      assert r[..|d|] == d;
      KeySetFacts(r);
      r
  }

  /** `d.pop(k)`: the entry of `k` is cut out and the others keep their
      order. Python raises `KeyError` for an absent key; every caller checks
      for the key first, and on an absent key this total function returns
      `d` unchanged. */
  function Pop<K(==), V>(d: Dict<K, V>, k: K): (r: Dict<K, V>)
    ensures KeySet(r) == KeySet(d) - {k}
    ensures k in KeySet(d) ==> exists i :: 0 <= i < |d| && d[i].0 == k && r == d[..i] + d[i + 1..]
    ensures k !in KeySet(d) ==> r == d
  {
    match IndexOf(d, k)
    case None => d
    case Some(i) =>
      var r := d[..i] + d[i + 1..];
      assert forall j :: 0 <= j < |r| ==> r[j] == if j < i then d[j] else d[j + 1];
      assert KeySet(r) == KeySet(d) - {k} by {
        forall x | x in KeySet(d) - {k} ensures x in KeySet(r) {
          var j :| 0 <= j < |d| && d[j].0 == x;
          assert j != i;
          assert if j < i then r[j].0 == x else r[j - 1].0 == x;
        }
      }
      r
  }

  /** Python's `==` on dicts: the same entries, in any order. */
  predicate SameContents<K(==), V(==)>(a: Dict<K, V>, b: Dict<K, V>) {
    KeySet(a) == KeySet(b) && forall k :: k in KeySet(a) ==> Get(a, k) == Get(b, k)
  }

  /** `{k: v for (k, v) in s}`: entries are assigned one after the other, so
      a repeated key keeps the position of its first occurrence and the value
      of its last. */
  function FromPairs<K(==), V>(s: seq<(K, V)>): Dict<K, V> {
    if s == [] then []
    else Put(FromPairs(s[..|s| - 1]), s[|s| - 1].0, s[|s| - 1].1)
  }

  /** Reference definition: the keys of `ks` in order of first occurrence. */
  function Dedup<K(==)>(ks: seq<K>): seq<K> {
    if ks == [] then []
    else
      var p := Dedup(ks[..|ks| - 1]);
      if ks[|ks| - 1] in p then p else p + [ks[|ks| - 1]]
  }

  lemma GetPut<K, V>(d: Dict<K, V>, k: K, v: V, k': K)
    ensures Get(Put(d, k, v), k') == if k' == k then Some(v) else Get(d, k')
  {
    var r := Put(d, k, v);
    if k' in KeySet(r) {
      var i :| 0 <= i < |r| && r[i].0 == k';
      IndexOfUnique(r, i);
      if k in KeySet(d) {
        if d[i].0 != k { IndexOfUnique(d, i); }
      } else if i < |d| {
        IndexOfUnique(d, i);
      }
    }
  }

  lemma GetPop<K, V>(d: Dict<K, V>, k: K, k': K)
    ensures Get(Pop(d, k), k') == if k' == k then None else Get(d, k')
  {
    var r := Pop(d, k);
    if k' != k && k' in KeySet(d) {
      var j :| 0 <= j < |d| && d[j].0 == k';
      IndexOfUnique(d, j);
      match IndexOf(d, k)
      case None =>
      case Some(i) =>
        assert j != i;
        var jr := if j < i then j else j - 1;
        assert r[jr] == d[j];
        IndexOfUnique(r, jr);
    }
  }

  /** Undoing an insertion of a new key gives back the original dict. */
  lemma {:induction false} PopAfterPut<K, V>(d: Dict<K, V>, k: K, v: V)
    requires k !in KeySet(d)
    ensures Pop(Put(d, k, v), k) == d
  {
    var r := Put(d, k, v);
    IndexOfUnique(r, |d|);
    assert r[..|d|] == d;
  }

  /** Writing the previous value back under a key gives back the original dict. */
  lemma {:induction false} PutRestores<K, V>(d: Dict<K, V>, k: K, v: V, v0: V)
    requires Get(d, k) == Some(v0)
    ensures Put(Put(d, k, v), k, v0) == d
  {
    var r := Put(Put(d, k, v), k, v0);
    forall i | 0 <= i < |d| ensures r[i] == d[i] {
      if d[i].0 == k {
        IndexOfUnique(d, i);
      }
    }
  }

  /** Re-inserting a deleted entry puts it last; the contents are as before. */
  lemma {:induction false} PutAfterPop<K, V>(d: Dict<K, V>, k: K, v: V)
    requires Get(d, k) == Some(v)
    ensures Put(Pop(d, k), k, v) == Pop(d, k) + [(k, v)]
    ensures SameContents(Put(Pop(d, k), k, v), d)
  {
    forall k' | k' in KeySet(d) ensures Get(Put(Pop(d, k), k, v), k') == Get(d, k') {
      GetPut(Pop(d, k), k, v, k');
      GetPop(d, k, k');
    }
  }

  /** Replacing a value keeps the keys and their order. */
  lemma KeyListPut<K, V>(d: Dict<K, V>, k: K, v: V)
    requires k in KeySet(d)
    ensures KeyList(Put(d, k, v)) == KeyList(d)
  {
  }

  /** Appending an entry appends its key. */
  lemma KeyListAppend<K, V>(s: seq<(K, V)>, k: K, v: V)
    ensures KeyList(s + [(k, v)]) == KeyList(s) + [k]
  {
  }

  /** Appending an entry appends its value. */
  lemma ValuesAppend<K, V>(s: seq<(K, V)>, k: K, v: V)
    ensures Values(s + [(k, v)]) == Values(s) + [v]
  {
  }

  lemma KeySetFacts<K, V>(s: seq<(K, V)>)
    ensures forall k :: k in KeySet(s) <==> k in KeyList(s)
    ensures s != [] ==> KeySet(s) == KeySet(s[..|s| - 1]) + {s[|s| - 1].0}
  {
    forall k | k in KeySet(s) ensures k in KeyList(s) {
      var i :| 0 <= i < |s| && s[i].0 == k;
      assert KeyList(s)[i] == k;
    }
    if s != [] {
      var init := s[..|s| - 1];
      forall k | k in KeySet(s) ensures k in KeySet(init) + {s[|s| - 1].0} {
        var i :| 0 <= i < |s| && s[i].0 == k;
        if i < |s| - 1 { assert init[i].0 == k; }
      }
      forall k | k in KeySet(init) ensures k in KeySet(s) {
        var i :| 0 <= i < |init| && init[i].0 == k;
        assert s[i].0 == k;
      }
    }
  }

  lemma {:induction false} FromPairsKeys<K, V>(s: seq<(K, V)>)
    ensures KeySet(FromPairs(s)) == KeySet(s)
  {
    if s != [] {
      FromPairsKeys(s[..|s| - 1]);
      KeySetFacts(s);
    }
  }

  /** On a repeated key, the last value wins. */
  lemma {:induction false} FromPairsLastWins<K, V>(s: seq<(K, V)>, i: nat)
    requires i < |s|
    requires forall j :: i < j < |s| ==> s[j].0 != s[i].0
    ensures Get(FromPairs(s), s[i].0) == Some(s[i].1)
  {
    var n := |s| - 1;
    GetPut(FromPairs(s[..n]), s[n].0, s[n].1, s[i].0);
    if i < n {
      FromPairsLastWins(s[..n], i);
    }
  }

  lemma {:induction false} DedupMembers<K>(ks: seq<K>)
    ensures forall k :: k in Dedup(ks) <==> k in ks
  {
    if ks != [] {
      DedupMembers(ks[..|ks| - 1]);
      assert ks == ks[..|ks| - 1] + [ks[|ks| - 1]];
    }
  }

  /** On a repeated key, the entry sits where the key first occurred. */
  lemma {:induction false} FromPairsFirstPosition<K, V>(s: seq<(K, V)>)
    ensures KeyList(FromPairs(s)) == Dedup(KeyList(s))
  {
    if s != [] {
      var n := |s| - 1;
      var prev := FromPairs(s[..n]);
      FromPairsFirstPosition(s[..n]);
      FromPairsKeys(s[..n]);
      KeySetFacts(prev);
      KeySetFacts(s[..n]);
      DedupMembers(KeyList(s[..n]));
      assert KeyList(s)[..n] == KeyList(s[..n]);
      assert KeyList(s)[n] == s[n].0;
      assert FromPairs(s) == Put(prev, s[n].0, s[n].1);
      if s[n].0 in KeySet(prev) {
        KeyListPut(prev, s[n].0, s[n].1);
      } else {
        KeyListAppend(prev, s[n].0, s[n].1);
      }
    }
  }

  /** Rebuilding a dict from its own entries reproduces it, order included. */
  lemma {:induction false} FromPairsOfDict<K, V>(d: Dict<K, V>)
    ensures FromPairs(d) == d
  {
    if d != [] {
      var n := |d| - 1;
      var init: Dict<K, V> := d[..n];
      FromPairsOfDict(init);
      assert d[n].0 !in KeySet(init);
      assert init + [d[n]] == d;
    }
  }
}
