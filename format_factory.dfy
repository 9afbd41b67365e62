/** `FormatFactory.create`: a case-insensitive lookup of a format name in a
    constant table of two strategies. */
module FormatFactory {
  import opened Outcomes

  /** The two catalog formats; `create` returns a fresh strategy of one of them. */
  datatype Format = Json | Xml

  /** `str.lower()` restricted to ASCII letters. */
  function LowerChar(c: char): (d: char)
    ensures 'A' <= c <= 'Z' ==> d as int == c as int + 32
    ensures !('A' <= c <= 'Z') ==> d == c
  {
    if 'A' <= c <= 'Z' then (c as int + 32) as char else c
  }

  function Lower(s: string): (t: string)
    ensures |t| == |s|
    ensures forall i :: 0 <= i < |s| ==> t[i] == LowerChar(s[i])
  {
    if s == [] then [] else [LowerChar(s[0])] + Lower(s[1..])
  }

  /** The class-level `_strategies` table. */
  const Strategies: map<string, Format> := map["json" := Json, "xml" := Xml]

  /** `create(fmt)`: look up the lower-cased name; an unknown name is refused
      with an error that carries the caller's original spelling. */
  function Create(fmt: string): (r: Result<Format>)
    ensures r.Ok? <==> Lower(fmt) in Strategies
    ensures r.Ok? ==> r.value == Strategies[Lower(fmt)]
    ensures r.Err? ==> r.error == Unsupported(fmt)
  {
    var key := Lower(fmt);
    if key !in Strategies then Err(Unsupported(fmt)) else Ok(Strategies[key])
  }

  lemma LowerIdempotent(s: string)
    ensures Lower(Lower(s)) == Lower(s)
  {
  }

  /** Spelling differences in letter case do not matter: a name and its
      lower-case form select the same strategy, or are both refused. */
  lemma CreateIgnoresCase(fmt: string)
    ensures Create(fmt).Ok? == Create(Lower(fmt)).Ok?
    ensures Create(fmt).Ok? ==> Create(fmt).value == Create(Lower(fmt)).value
  {
    LowerIdempotent(fmt);
  }

  /** JSON is known in any letter case. */
  lemma CreateJson()
    ensures Create("json") == Ok(Json)
    ensures Create("JSON") == Ok(Json)
  {
    assert Lower("json") == "json";
    assert Lower("JSON") == "json";
  }

  /** So is XML. */
  lemma CreateXml()
    ensures Create("Xml") == Ok(Xml)
  {
    assert Lower("Xml") == "xml";
  }

  /** Any other name is refused, with the caller's spelling in the error. */
  lemma CreateYaml()
    ensures Create("yaml") == Err(Unsupported("yaml"))
    ensures Create("YAML") == Err(Unsupported("YAML"))
  {
    assert Lower("yaml") == "yaml";
    assert Lower("YAML") == "yaml";
    assert "yaml" != "json" && "yaml" != "xml" by {
      assert "yaml"[0] != "json"[0] && "yaml"[0] != "xml"[0];
    }
  }
}
