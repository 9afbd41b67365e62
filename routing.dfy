/** The routing part of the bundled FastAPI stand-in: path templates with
    `{name}` placeholders, routers that collect routes under a prefix, and
    first-match resolution of a request. */
module Routing {
  import opened Outcomes
  import opened Dicts

  const NoContent: int := 204
  const NotFoundStatus: int := 404

  /** `s.lstrip(cs)` */
  function StripLeft(s: string, cs: set<char>): (t: string)
    decreases |s|
  {
    if s != [] && s[0] in cs then StripLeft(s[1..], cs) else s
  }

  /** `s.rstrip(cs)` */
  function StripRight(s: string, cs: set<char>): (t: string)
    decreases |s|
  {
    if s != [] && s[|s| - 1] in cs then StripRight(s[..|s| - 1], cs) else s
  }

  /** `s.strip(cs)` */
  function Strip(s: string, cs: set<char>): string {
    StripRight(StripLeft(s, cs), cs)
  }

  /** `s.split(sep)`: the pieces between separators, empty ones included,
      so the result is never empty. */
  function Split(s: string, sep: char): (parts: seq<string>)
    ensures |parts| > 0
    decreases |s|
  {
    if s == [] then [""]
    else
      var rest := Split(s[1..], sep);
      if s[0] == sep then [""] + rest
      else [[s[0]] + rest[0]] + rest[1..]
  }

  /** `sep.join(parts)`: the reference `Split` is checked against. */
  function Join(parts: seq<string>, sep: char): string
    requires |parts| > 0
    decreases |parts|
  {
    if |parts| == 1 then parts[0] else parts[0] + [sep] + Join(parts[1..], sep)
  }

  /** `[part for part in parts if part]` */
  function NonEmpty(parts: seq<string>): seq<string> {
    if parts == [] then []
    else (if parts[0] != "" then [parts[0]] else []) + NonEmpty(parts[1..])
  }

  /** The segments of a path: strip "/" at both ends, split at "/", drop
      the empty pieces. */
  function Segments(s: string): seq<string> {
    NonEmpty(Split(Strip(s, {'/'}), '/'))
  }

  /** No piece of a split contains the separator. */
  lemma {:induction false} SplitPieces(s: string, sep: char)
    ensures forall i :: 0 <= i < |Split(s, sep)| ==> sep !in Split(s, sep)[i]
    decreases |s|
  {
    if s != [] {
      SplitPieces(s[1..], sep);
      var rest := Split(s[1..], sep);
      if s[0] != sep {
        assert sep !in [s[0]] + rest[0];
      }
    }
  }

  /** Filtering keeps exactly the non-empty pieces. */
  lemma {:induction false} NonEmptyMembers(parts: seq<string>)
    ensures forall x :: x in NonEmpty(parts) <==> x in parts && x != ""
    decreases |parts|
  {
    if parts != [] {
      NonEmptyMembers(parts[1..]);
      assert parts == [parts[0]] + parts[1..];
    }
  }

  /** Every segment is non-empty and free of "/". */
  lemma SegmentsWellFormed(s: string)
    ensures forall x :: x in Segments(s) ==> x != "" && '/' !in x
  {
    var parts := Split(Strip(s, {'/'}), '/');
    SplitPieces(Strip(s, {'/'}), '/');
    NonEmptyMembers(parts);
  }

  /** Joining the pieces again gives back the text that was split. */
  lemma {:induction false} JoinSplit(s: string, sep: char)
    ensures Join(Split(s, sep), sep) == s
    decreases |s|
  {
    if s != [] {
      var rest := Split(s[1..], sep);
      JoinSplit(s[1..], sep);
      if s[0] == sep {
        assert ([""] + rest)[1..] == rest;
      } else {
        var parts := [[s[0]] + rest[0]] + rest[1..];
        assert parts[1..] == rest[1..];
        if |rest| > 1 {
          assert Join(rest, sep) == rest[0] + [sep] + Join(rest[1..], sep);
        }
      }
    }
  }

  /** Splitting at a separator splits the two sides independently. */
  lemma {:induction false} SplitAppend(a: string, b: string, sep: char)
    ensures Split(a + [sep] + b, sep) == Split(a, sep) + Split(b, sep)
    decreases |a|
  {
    var s := a + [sep] + b;
    if a == [] {
      assert s[1..] == b;
    } else {
      assert s[1..] == a[1..] + [sep] + b;
      SplitAppend(a[1..], b, sep);
    }
  }

  lemma {:induction false} NonEmptyAppend(xs: seq<string>, ys: seq<string>)
    ensures NonEmpty(xs + ys) == NonEmpty(xs) + NonEmpty(ys)
    decreases |xs|
  {
    if xs != [] {
      assert (xs + ys)[1..] == xs[1..] + ys;
      NonEmptyAppend(xs[1..], ys);
    } else {
      assert xs + ys == ys;
    }
  }

  /** A leading "/" adds only an empty piece. */
  lemma LeadingSlash(s: string)
    ensures NonEmpty(Split(['/'] + s, '/')) == NonEmpty(Split(s, '/'))
  {
    assert (['/'] + s)[1..] == s;
  }

  /** A trailing "/" adds only an empty piece. */
  lemma TrailingSlash(s: string)
    ensures NonEmpty(Split(s + ['/'], '/')) == NonEmpty(Split(s, '/'))
  {
    SplitAppend(s, "", '/');
    assert s + ['/'] + "" == s + ['/'];
    NonEmptyAppend(Split(s, '/'), [""]);
  }

  lemma {:induction false} StripLeftSegments(s: string)
    ensures NonEmpty(Split(StripLeft(s, {'/'}), '/')) == NonEmpty(Split(s, '/'))
    decreases |s|
  {
    if s != [] && s[0] == '/' {
      StripLeftSegments(s[1..]);
      LeadingSlash(s[1..]);
      assert s == ['/'] + s[1..];
    }
  }

  lemma {:induction false} StripRightSegments(s: string)
    ensures NonEmpty(Split(StripRight(s, {'/'}), '/')) == NonEmpty(Split(s, '/'))
    decreases |s|
  {
    if s != [] && s[|s| - 1] == '/' {
      var t := s[..|s| - 1];
      assert StripRight(s, {'/'}) == StripRight(t, {'/'});
      StripRightSegments(t);
      TrailingSlash(t);
      assert s == t + ['/'];
    }
  }

  /** Stripping the slashes first makes no difference to the segments. */
  lemma SegmentsIgnoreStrip(s: string)
    ensures Segments(s) == NonEmpty(Split(s, '/'))
  {
    StripRightSegments(StripLeft(s, {'/'}));
    StripLeftSegments(s);
  }

  /** Doubled and outer slashes do not matter. */
  lemma SegmentsExample()
    ensures Segments("/a//b/") == ["a", "b"]
    ensures Segments("a/b") == ["a", "b"]
  {
    SegmentsIgnoreStrip("/a//b/");
    SegmentsIgnoreStrip("a/b");
    SplitExample();
    NonEmptyExample();
  }

  lemma SplitExample()
    ensures Split("/a//b/", '/') == ["", "a", "", "b", ""]
    ensures Split("a/b", '/') == ["a", "b"]
  {
    SplitOuterSlashes();
    SplitInnerSlash();
  }

  lemma SplitOuterSlashes()
    ensures Split("/a//b/", '/') == ["", "a", "", "b", ""]
  {
    assert Split("", '/') == [""];
    assert "/"[1..] == "";
    assert Split("/", '/') == ["", ""];
    assert "b/"[1..] == "/";
    assert ['b'] + "" == "b";
    assert Split("b/", '/') == ["b", ""];
    assert "/b/"[1..] == "b/";
    assert Split("/b/", '/') == ["", "b", ""];
    assert "//b/"[1..] == "/b/";
    assert Split("//b/", '/') == ["", "", "b", ""];
    assert "a//b/"[1..] == "//b/";
    assert ['a'] + "" == "a";
    assert Split("a//b/", '/') == ["a", "", "b", ""];
    assert "/a//b/"[1..] == "a//b/";
  }

  lemma SplitInnerSlash()
    ensures Split("a/b", '/') == ["a", "b"]
  {
    assert Split("", '/') == [""];
    assert "b"[1..] == "";
    assert ['a'] + "" == "a" && ['b'] + "" == "b";
    assert Split("b", '/') == ["b"];
    assert "/b"[1..] == "b";
    assert Split("/b", '/') == ["", "b"];
    assert "a/b"[1..] == "/b";
  }

  lemma NonEmptyExample()
    ensures NonEmpty(["", "a", "", "b", ""]) == ["a", "b"]
    ensures NonEmpty(["a", "b"]) == ["a", "b"]
  {
    assert NonEmpty([]) == [];
    assert NonEmpty([""]) == [];
    assert ["b", ""][1..] == [""];
    assert NonEmpty(["b", ""]) == ["b"];
    assert ["", "b", ""][1..] == ["b", ""];
    assert NonEmpty(["", "b", ""]) == ["b"];
    assert ["a", "", "b", ""][1..] == ["", "b", ""];
    assert NonEmpty(["a", "", "b", ""]) == ["a", "b"];
    assert ["", "a", "", "b", ""][1..] == ["a", "", "b", ""];
    assert ["b"][1..] == [];
    assert NonEmpty(["b"]) == ["b"];
    assert ["a", "b"][1..] == ["b"];
  }

  /** A template segment of the form `{...}`. */
  predicate IsPlaceholder(t: string) {
    |t| > 0 && t[0] == '{' && t[|t| - 1] == '}'
  }

  /** The parameter name of a placeholder: `t.strip("{}")`. */
  function Name(t: string): string {
    Strip(t, {'{', '}'})
  }

  /** The loop of `Route.match` over equally long segment lists, as a fold
      over its prefix: a placeholder binds its name to the request segment,
      a literal must be equal to it. */
  function MatchSegments(ts: seq<string>, rs: seq<string>): Option<Dict<string, string>>
    requires |ts| == |rs|
    decreases |ts|
  {
    if ts == [] then Some([])
    else
      match MatchSegments(ts[..|ts| - 1], rs[..|rs| - 1])
      case None => None
      case Some(params) =>
        var t := ts[|ts| - 1];
        var actual := rs[|rs| - 1];
        if IsPlaceholder(t) then Some(Put(params, Name(t), actual))
        else if t != actual then None
        else Some(params)
  }

  /** `Route.match` on paths. */
  function MatchPath(template: string, request: string): Option<Dict<string, string>> {
    var ts := Segments(template);
    var rs := Segments(request);
    if |ts| != |rs| then None
    else if MatchSegments(ts, rs).None? then None
    else if ts == [] && rs == [] then Some([])
    else MatchSegments(ts, rs)
  }

  /** Every literal template segment equals the request segment at the
      same place. */
  predicate LiteralsAgree(ts: seq<string>, rs: seq<string>)
    requires |ts| == |rs|
  {
    forall i :: 0 <= i < |ts| && !IsPlaceholder(ts[i]) ==> ts[i] == rs[i]
  }

  /** `LiteralsAgree` splits into the prefix and the last segment. */
  lemma LiteralsAgreeSnoc(ts: seq<string>, rs: seq<string>)
    requires |ts| == |rs| && ts != []
    ensures LiteralsAgree(ts, rs) <==>
      LiteralsAgree(ts[..|ts| - 1], rs[..|rs| - 1])
      && (IsPlaceholder(ts[|ts| - 1]) || ts[|ts| - 1] == rs[|rs| - 1])
  {
    var n := |ts| - 1;
    var tsn, rsn := ts[..n], rs[..n];
    assert forall i :: 0 <= i < n ==> tsn[i] == ts[i] && rsn[i] == rs[i];
  }

  /** Matching succeeds exactly when every literal segment equals the
      request segment at the same place. */
  lemma {:induction false} MatchSegmentsIff(ts: seq<string>, rs: seq<string>)
    requires |ts| == |rs|
    ensures MatchSegments(ts, rs).Some? <==> LiteralsAgree(ts, rs)
    decreases |ts|
  {
    if ts != [] {
      var n := |ts| - 1;
      MatchSegmentsIff(ts[..n], rs[..n]);
      LiteralsAgreeSnoc(ts, rs);
    }
  }

  /** The names of a template's placeholders. */
  function PlaceholderNames(ts: seq<string>): set<string> {
    set i | 0 <= i < |ts| && IsPlaceholder(ts[i]) :: Name(ts[i])
  }

  /** One more template segment adds its name when it is a placeholder. */
  lemma PlaceholderNamesSnoc(ts: seq<string>)
    requires ts != []
    ensures PlaceholderNames(ts) ==
      PlaceholderNames(ts[..|ts| - 1]) + (if IsPlaceholder(ts[|ts| - 1]) then {Name(ts[|ts| - 1])} else {})
  {
    var n := |ts| - 1;
    var init := ts[..n];
    assert forall i :: 0 <= i < n ==> init[i] == ts[i];
    forall x | x in PlaceholderNames(ts)
      ensures x in PlaceholderNames(init) + (if IsPlaceholder(ts[n]) then {Name(ts[n])} else {})
    {
      var i :| 0 <= i < |ts| && IsPlaceholder(ts[i]) && Name(ts[i]) == x;
      if i < n {
        assert init[i] == ts[i];
      }
    }
    forall x | x in PlaceholderNames(init)
      ensures x in PlaceholderNames(ts)
    {
      var i :| 0 <= i < n && IsPlaceholder(init[i]) && Name(init[i]) == x;
      assert ts[i] == init[i];
    }
  }

  /** The bindings are exactly the placeholder names of the template. */
  lemma {:induction false} MatchSegmentsKeys(ts: seq<string>, rs: seq<string>)
    requires |ts| == |rs| && MatchSegments(ts, rs).Some?
    ensures KeySet(MatchSegments(ts, rs).value) == PlaceholderNames(ts)
    decreases |ts|
  {
    if ts != [] {
      var n := |ts| - 1;
      MatchSegmentsKeys(ts[..n], rs[..n]);
      PlaceholderNamesSnoc(ts);
      var params := MatchSegments(ts[..n], rs[..n]).value;
      if IsPlaceholder(ts[n]) {
        assert MatchSegments(ts, rs).value == Put(params, Name(ts[n]), rs[n]);
      } else {
        assert MatchSegments(ts, rs).value == params;
      }
    }
  }

  /** A placeholder binds its name to the request segment at its place,
      unless a later placeholder of the same name overrides it. */
  lemma {:induction false} MatchSegmentsBinds(ts: seq<string>, rs: seq<string>, i: nat)
    requires |ts| == |rs| && MatchSegments(ts, rs).Some?
    requires i < |ts| && IsPlaceholder(ts[i])
    requires forall j :: i < j < |ts| && IsPlaceholder(ts[j]) ==> Name(ts[j]) != Name(ts[i])
    ensures Get(MatchSegments(ts, rs).value, Name(ts[i])) == Some(rs[i])
    decreases |ts|
  {
    var n := |ts| - 1;
    var params := MatchSegments(ts[..n], rs[..n]).value;
    if i < n {
      MatchSegmentsBinds(ts[..n], rs[..n], i);
      if IsPlaceholder(ts[n]) {
        GetPut(params, Name(ts[n]), rs[n], Name(ts[i]));
      }
    } else {
      GetPut(params, Name(ts[n]), rs[n], Name(ts[i]));
    }
  }

  /** A path matches a template exactly when both have the same number of
      segments and every literal segment agrees; then the result binds
      exactly the placeholder names. Two paths without segments give an
      empty binding. */
  lemma MatchPathIff(template: string, request: string)
    ensures MatchPath(template, request).Some? <==>
      && |Segments(template)| == |Segments(request)|
      && forall i :: 0 <= i < |Segments(template)| && !IsPlaceholder(Segments(template)[i]) ==>
           Segments(template)[i] == Segments(request)[i]
    ensures MatchPath(template, request).Some? ==>
      KeySet(MatchPath(template, request).value) ==
        PlaceholderNames(Segments(template))
    ensures Segments(template) == [] && Segments(request) == [] ==> MatchPath(template, request) == Some([])
  {
    var ts := Segments(template);
    var rs := Segments(request);
    if |ts| == |rs| {
      MatchSegmentsIff(ts, rs);
      if MatchSegments(ts, rs).Some? {
        MatchSegmentsKeys(ts, rs);
      }
    }
  }

  /** `/books/{isbn}` binds the ISBN; a literal that differs, or a
      different number of segments, does not match. */
  lemma MatchExamples()
    ensures MatchSegments(["books", "{isbn}"], ["books", "978"]) == Some([("isbn", "978")])
    ensures MatchSegments(["books", "export"], ["books", "import"]) == None
  {
    assert "{isbn}"[1..] == "isbn}";
    assert StripLeft("{isbn}", {'{', '}'}) == "isbn}";
    assert "isbn}"[..4] == "isbn";
    assert StripRight("isbn}", {'{', '}'}) == "isbn";
    assert Name("{isbn}") == "isbn";
    var empty: Dict<string, string> := [];
    assert KeySet(empty) == {};
    assert Put(empty, "isbn", "978") == [("isbn", "978")];
    assert ["books", "{isbn}"][..1] == ["books"] && ["books", "978"][..1] == ["books"];
    assert ["books", "{isbn}"][..1][..0] == [] && ["books", "978"][..1][..0] == [];
    assert MatchSegments(["books"], ["books"]) == Some([]);
    assert ["books", "export"][..1] == ["books"] && ["books", "import"][..1] == ["books"];
    assert "export" != "import" by {
      assert "export"[0] != "import"[0];
    }
  }

  /** A `None` on a prefix of the segments is final. */
  lemma {:induction false} MatchSegmentsStaysNone(ts: seq<string>, rs: seq<string>, k: nat)
    requires |ts| == |rs| && k <= |ts|
    requires MatchSegments(ts[..k], rs[..k]).None?
    ensures MatchSegments(ts, rs).None?
    decreases |ts| - k
  {
    if k < |ts| {
      assert ts[..k + 1][..k] == ts[..k] && rs[..k + 1][..k] == rs[..k];
      MatchSegmentsStaysNone(ts, rs, k + 1);
    } else {
      assert ts[..k] == ts && rs[..k] == rs;
    }
  }

  /** One more segment: the step the loop of `Route.match` takes. */
  lemma MatchSegmentsStep(ts: seq<string>, rs: seq<string>, i: nat)
    requires |ts| == |rs| && i < |ts|
    ensures MatchSegments(ts[..i + 1], rs[..i + 1]) ==
      match MatchSegments(ts[..i], rs[..i])
      case None => None
      case Some(params) =>
        if IsPlaceholder(ts[i]) then Some(Put(params, Name(ts[i]), rs[i]))
        else if ts[i] != rs[i] then None
        else Some(params)
  {
    assert ts[..i + 1][..i] == ts[..i] && rs[..i + 1][..i] == rs[..i];
  }

  /** A registered route. The endpoint is identified by a number; calling it
      is a parameter of `HandleRequest`. */
  datatype Route = Route(path: string, methods: seq<string>, endpoint: nat, statusCode: int)
  {
    /** `match`: compare segment by segment, collecting the bindings. */
    method Match(request: string) returns (r: Option<Dict<string, string>>)
      ensures r == MatchPath(path, request)
    {
      var ts := Segments(path);
      var rs := Segments(request);
      if |ts| != |rs| {
        return None;
      }
      r := ZipMatch(ts, rs);
      if r.Some? && ts == [] && rs == [] {
        return Some([]);
      }
    }
  }

  /** The loop of `match` over two equally long segment lists. */
  method ZipMatch(ts: seq<string>, rs: seq<string>) returns (r: Option<Dict<string, string>>)
    requires |ts| == |rs|
    ensures r == MatchSegments(ts, rs)
  {
    var params: Dict<string, string> := [];
    var i := 0;
    while i < |ts|
      invariant 0 <= i <= |ts|
      invariant MatchSegments(ts[..i], rs[..i]) == Some(params)
    {
      var t := ts[i];
      var actual := rs[i];
      MatchSegmentsStep(ts, rs, i);
      if IsPlaceholder(t) {
        params := Put(params, Name(t), actual);
      } else if t != actual {
        MatchSegmentsStaysNone(ts, rs, i + 1);
        return None;
      }
      i := i + 1;
    }
    assert ts[..i] == ts && rs[..i] == rs;
    r := Some(params);
  }

  /** `verb in route.methods and route.match(path) is not None` */
  predicate Accepts(route: Route, verb: string, path: string) {
    verb in route.methods && MatchPath(route.path, path).Some?
  }

  /** The first position, in order, whose element satisfies `p`. */
  function FirstWhere<T>(xs: seq<T>, p: T -> bool): (r: Option<nat>)
    ensures r.None? <==> forall i :: 0 <= i < |xs| ==> !p(xs[i])
    ensures r.Some? ==> r.value < |xs| && p(xs[r.value])
    ensures r.Some? ==> forall j :: 0 <= j < r.value ==> !p(xs[j])
    decreases |xs|
  {
    if xs == [] then None
    else if p(xs[0]) then Some(0)
    else
      match FirstWhere(xs[1..], p)
      case None => None
      case Some(k) => Some(k + 1)
  }

  /** Elements after the first satisfying one do not change it; when none
      of `a` satisfies `p`, the first of `b` is found, shifted by `|a|`. */
  lemma {:induction false} FirstWhereAppend<T>(a: seq<T>, b: seq<T>, p: T -> bool)
    ensures FirstWhere(a, p).Some? ==> FirstWhere(a + b, p) == FirstWhere(a, p)
    ensures FirstWhere(a, p).None? && FirstWhere(b, p).Some? ==>
      FirstWhere(a + b, p) == Some(|a| + FirstWhere(b, p).value)
    ensures FirstWhere(a, p).None? && FirstWhere(b, p).None? ==> FirstWhere(a + b, p).None?
    decreases |a|
  {
    if a == [] {
      assert a + b == b;
    } else {
      assert (a + b)[0] == a[0] && (a + b)[1..] == a[1..] + b;
      FirstWhereAppend(a[1..], b, p);
    }
  }

  /** `Accepts` for one request, as a test on routes. */
  function AcceptsRequest(verb: string, path: string): Route -> bool {
    (route: Route) => Accepts(route, verb, path)
  }

  /** An element satisfying `p` with none before it is the first one found. */
  lemma FirstWhereIs<T>(xs: seq<T>, p: T -> bool, i: nat)
    requires i < |xs| && p(xs[i])
    requires forall j :: 0 <= j < i ==> !p(xs[j])
    ensures FirstWhere(xs, p) == Some(i)
  {
  }

  /** The first route, in registration order, that accepts the request. */
  function FirstMatch(routes: seq<Route>, verb: string, path: string): Option<nat> {
    FirstWhere(routes, AcceptsRequest(verb, path))
  }

  /** Routes registered earlier take precedence over routes added after
      them, such as those of an included router. */
  lemma FirstMatchAppend(a: seq<Route>, b: seq<Route>, verb: string, path: string)
    ensures FirstMatch(a, verb, path).Some? ==> FirstMatch(a + b, verb, path) == FirstMatch(a, verb, path)
    ensures FirstMatch(a, verb, path).None? && FirstMatch(b, verb, path).Some? ==>
      FirstMatch(a + b, verb, path) == Some(|a| + FirstMatch(b, verb, path).value)
    ensures FirstMatch(a, verb, path).None? && FirstMatch(b, verb, path).None? ==>
      FirstMatch(a + b, verb, path).None?
  {
    FirstWhereAppend(a, b, AcceptsRequest(verb, path));
  }

  /** `prefix + path` (or `path` without a prefix), with a leading "/"
      added when missing. */
  function FullPath(prefix: string, path: string): (p: string)
    ensures |p| > 0 && p[0] == '/'
    ensures |prefix + path| > 0 && (prefix + path)[0] == '/' ==> p == prefix + path
    ensures !(|prefix + path| > 0 && (prefix + path)[0] == '/') ==> p == ['/'] + prefix + path
  {
    var full := if prefix != "" then prefix + path else path;
    assert full == prefix + path;
    var full' := if |full| > 0 && full[0] == '/' then full else if full != "" then ['/'] + full else "/";
    if full' == "" then "/" else full'
  }

  /** A route registered under a prefix with a path starting with "/" has
      the prefix's segments followed by the path's. */
  lemma FullPathSegments(prefix: string, path: string)
    requires path == "" || path[0] == '/'
    ensures Segments(FullPath(prefix, path)) == Segments(prefix) + Segments(path)
  {
    var p := FullPath(prefix, path);
    var joined := prefix + path;
    SegmentsIgnoreStrip(p);
    SegmentsIgnoreStrip(prefix);
    SegmentsIgnoreStrip(path);
    if p != joined {
      assert p == ['/'] + joined;
      LeadingSlash(joined);
    }
    JoinedSegments(prefix, path);
  }

  /** Pieces of a prefix followed by a path that starts with "/". */
  lemma JoinedSegments(prefix: string, path: string)
    requires path == "" || path[0] == '/'
    ensures NonEmpty(Split(prefix + path, '/')) == NonEmpty(Split(prefix, '/')) + NonEmpty(Split(path, '/'))
  {
    if path == "" {
      assert prefix + path == prefix;
      assert NonEmpty(Split(path, '/')) == [];
    } else {
      var rest := path[1..];
      assert prefix + path == prefix + ['/'] + rest;
      assert path == ['/'] + rest;
      SplitAppend(prefix, rest, '/');
      NonEmptyAppend(Split(prefix, '/'), Split(rest, '/'));
      LeadingSlash(rest);
    }
  }

  /** What an endpoint call ends with: a value, or an `HTTPException`. */
  datatype Outcome<T> = Returned(value: T) | Raised(status: int, detail: string)

  /** A response body: `{"detail": ...}` or the serialized endpoint result. */
  datatype Content<T> = Detail(message: string) | Body(value: T)

  datatype Answer<T> = Answer(status: int, payload: Option<Content<T>>)

  /** `APIRouter` and `FastAPI` alike: a prefix and the routes in
      registration order. The application is a router without a prefix. */
  class Router {
    const prefix: string
    var routes: seq<Route>

    constructor(prefix: string)
      ensures this.prefix == StripRight(prefix, {'/'}) && routes == []
    {
      this.prefix := StripRight(prefix, {'/'});
      routes := [];
    }

    /** `_add_route`: append a route under the full path. */
    method AddRoute(path: string, endpoint: nat, methods: seq<string>, statusCode: int)
      modifies this
      ensures routes == old(routes) + [Route(FullPath(prefix, path), methods, endpoint, statusCode)]
    {
      routes := routes + [Route(FullPath(prefix, path), methods, endpoint, statusCode)];
    }

    /** `include_router`: append the other router's routes after these. */
    method IncludeRouter(other: Router)
      modifies this
      ensures routes == old(routes) + old(other.routes)
    {
      routes := routes + other.routes;
    }

    /** `_resolve`: the first route that lists the method and matches the
        path, with its bindings; none gives no route and no bindings. */
    method Resolve(verb: string, path: string) returns (route: Option<Route>, params: Dict<string, string>)
      ensures FirstMatch(routes, verb, path).None? ==> route.None? && params == []
      ensures FirstMatch(routes, verb, path).Some? ==>
        && route == Some(routes[FirstMatch(routes, verb, path).value])
        && Some(params) == MatchPath(route.value.path, path)
    {
      var i := 0;
      while i < |routes|
        invariant 0 <= i <= |routes|
        invariant forall j :: 0 <= j < i ==> !Accepts(routes[j], verb, path)
      {
        var candidate := routes[i];
        if verb in candidate.methods {
          var found := candidate.Match(path);
          if found.Some? {
            FirstWhereIs(routes, AcceptsRequest(verb, path), i);
            return Some(candidate), found.value;
          }
        }
        i := i + 1;
      }
      return None, [];
    }

    /** The routing branches of `handle_request`: 404 when nothing resolves,
        the exception's status and detail when the endpoint raises, and
        otherwise the route's status, with no payload for a 204 route. */
    method HandleRequest<T>(verb: string, path: string, call: (Route, Dict<string, string>) -> Outcome<T>)
      returns (a: Answer<T>)
      ensures FirstMatch(routes, verb, path).None? ==> a == Answer(NotFoundStatus, Some(Detail("Not Found")))
      ensures FirstMatch(routes, verb, path).Some? ==>
        var route := routes[FirstMatch(routes, verb, path).value];
        var outcome := call(route, MatchPath(route.path, path).value);
        && (outcome.Raised? ==> a == Answer(outcome.status, Some(Detail(outcome.detail))))
        && (outcome.Returned? ==> a.status == route.statusCode)
        && (outcome.Returned? && route.statusCode == NoContent ==> a.payload == None)
        && (outcome.Returned? && route.statusCode != NoContent ==> a.payload == Some(Body(outcome.value)))
    {
      var route, params := Resolve(verb, path);
      if route.None? {
        return Answer(NotFoundStatus, Some(Detail("Not Found")));
      }
      var outcome := call(route.value, params);
      if outcome.Raised? {
        return Answer(outcome.status, Some(Detail(outcome.detail)));
      }
      var payload := Some(Body(outcome.value));
      if route.value.statusCode == NoContent {
        payload := None;
      }
      a := Answer(route.value.statusCode, payload);
    }
  }
}
