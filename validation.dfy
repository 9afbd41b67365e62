/** The validation part of the bundled Pydantic stand-in: a model declares
    its fields in order, each with a default or none and optional `min_length`
    and `ge` constraints; building a model from keyword data resolves every
    field or fails with a validation error. */
module Validation {
  import opened Outcomes
  import opened Dynamic
  import opened Dicts

  /** A field's default: `...` (required) or a value. */
  datatype Default = NoDefault | DefaultValue(value: Value)

  /** `FieldInfo(default, min_length, ge)` */
  datatype FieldInfo = FieldInfo(default: Default, minLength: Option<int>, ge: Option<int>)

  /** `Field(default=..., *, min_length=None, ge=None)` */
  function Field(default: Default := NoDefault, minLength: Option<int> := None, ge: Option<int> := None): (f: FieldInfo)
    ensures f.default == default && f.minLength == minLength && f.ge == ge
  {
    FieldInfo(default, minLength, ge)
  }

  /** Field names to their declarations, in declaration order. */
  type Fields = Dict<string, FieldInfo>

  /** Keyword arguments: unordered, as far as validation is concerned. */
  type Data = map<string, Value>

  /** The integer a value is when it is a Python `int`; `bool` is a
      subclass of `int`, so `True` and `False` are 1 and 0. */
  function AsInt(v: Value): (r: Option<int>)
    ensures r.Some? <==> v.Int? || v.Bool?
    ensures v.Int? ==> r == Some(v.i)
    ensures v.Bool? ==> r == Some(if v.b then 1 else 0)
  {
    match v
    case Int(i) => Some(i)
    case Bool(b) => Some(if b then 1 else 0)
    case _ => None
  }

  /** `_apply_constraints`: text shorter than `min_length` or an integer
      below `ge` is refused; anything else passes unchanged. */
  function ApplyConstraints(name: string, value: Value, info: FieldInfo): (r: Result<Value>)
    ensures r.Ok? ==> r.value == value
    ensures r.Err? <==>
      || (value.Str? && info.minLength.Some? && |value.s| < info.minLength.value)
      || (AsInt(value).Some? && info.ge.Some? && AsInt(value).value < info.ge.value)
    ensures r.Err? && value.Str? ==> r.error == TooShort(name, info.minLength.value)
    ensures r.Err? && !value.Str? ==> r.error == TooSmall(name, info.ge.value)
  {
    if value.Str? && info.minLength.Some? && |value.s| < info.minLength.value then
      Err(TooShort(name, info.minLength.value))
    else if AsInt(value).Some? && info.ge.Some? && AsInt(value).value < info.ge.value then
      Err(TooSmall(name, info.ge.value))
    else
      Ok(value)
  }

  /** The value a field takes before its constraints are checked: the given
      one, else the default; a required field that is absent has none. */
  function Supplied(name: string, info: FieldInfo, data: Data): (r: Option<Value>)
    ensures name in data ==> r == Some(data[name])
    ensures name !in data ==> (r.Some? <==> info.default.DefaultValue?)
    ensures name !in data && r.Some? ==> r.value == info.default.value
  {
    if name in data then Some(data[name])
    else if info.default.NoDefault? then None
    else Some(info.default.value)
  }

  /** One iteration of `__init__`'s loop. */
  function ResolveField(name: string, info: FieldInfo, data: Data): (r: Result<Value>)
    ensures Supplied(name, info, data).None? ==> r == Err(Required(name))
    ensures Supplied(name, info, data).Some? ==> r == ApplyConstraints(name, Supplied(name, info, data).value, info)
  {
    match Supplied(name, info, data)
    case None => Err(Required(name))
    case Some(value) => ApplyConstraints(name, value, info)
  }

  /** The last key of a dictionary is not among the ones before it. */
  lemma LastKeyFresh<V>(d: Dict<string, V>)
    requires d != []
    ensures d[|d| - 1].0 !in KeySet(d[..|d| - 1])
  {
  }

  /** The fields resolved in declaration order; the first field that fails
      decides the error, and a success holds one entry per field. */
  function ResolveAll(fields: Fields, data: Data): (r: Result<Dict<string, Value>>)
    ensures r.Ok? ==> KeyList(r.value) == KeyList(fields)
    decreases |fields|
  {
    if fields == [] then Ok([])
    else
      var init: Fields := fields[..|fields| - 1];
      var (name, info) := fields[|fields| - 1];
      match ResolveAll(init, data)
      case Err(e) => Err(e)
      case Ok(values) =>
        match ResolveField(name, info, data)
        case Err(e) => Err(e)
        case Ok(value) =>
          LastKeyFresh(fields);
          KeySetFacts(values);
          KeySetFacts(init);
          assert KeyList(fields) == KeyList(init) + [name];
          assert KeyList(values + [(name, value)]) == KeyList(values) + [name];
          Ok(Put(values, name, value))
  }

  /** Building succeeds exactly when every field resolves. */
  lemma {:induction false} ResolveAllSucceeds(fields: Fields, data: Data)
    ensures ResolveAll(fields, data).Ok? <==>
      forall i :: 0 <= i < |fields| ==> ResolveField(fields[i].0, fields[i].1, data).Ok?
    decreases |fields|
  {
    if fields != [] {
      var n := |fields| - 1;
      var init: Fields := fields[..n];
      ResolveAllSucceeds(init, data);
      assert forall i :: 0 <= i < n ==> init[i] == fields[i];
    }
  }

  /** On success each field holds the value it was given, or its default,
      unchanged. */
  lemma {:induction false} ResolveAllValues(fields: Fields, data: Data)
    ensures ResolveAll(fields, data).Ok? ==>
      forall i :: 0 <= i < |fields| ==>
        Some(ResolveAll(fields, data).value[i].1) == Supplied(fields[i].0, fields[i].1, data)
    decreases |fields|
  {
    if fields != [] && ResolveAll(fields, data).Ok? {
      var n := |fields| - 1;
      var init: Fields := fields[..n];
      ResolveAllValues(init, data);
      var values := ResolveAll(init, data).value;
      var (name, info) := fields[n];
      LastKeyFresh(fields);
      KeySetFacts(values);
      KeySetFacts(init);
      assert name !in KeySet(values);
      var value := ResolveField(name, info, data).value;
      var r := ResolveAll(fields, data).value;
      assert r == values + [(name, value)];
      forall i | 0 <= i < |fields|
        ensures Some(r[i].1) == Supplied(fields[i].0, fields[i].1, data)
      {
        if i < n {
          assert r[i] == values[i] && init[i] == fields[i];
        } else {
          assert r[i] == (name, value);
        }
      }
    }
  }

  /** A required field that is absent from the data is refused. */
  lemma RequiredFieldMissing(fields: Fields, data: Data, i: nat)
    requires i < |fields| && fields[i].1.default.NoDefault? && fields[i].0 !in data
    ensures ResolveAll(fields, data).Err?
  {
    ResolveAllSucceeds(fields, data);
  }

  /** Keys in the data that are not declared fields make no difference. */
  lemma {:induction false} ExtraKeysIgnored(fields: Fields, data: Data, extra: Data)
    requires forall i :: 0 <= i < |fields| ==> (fields[i].0 in data <==> fields[i].0 in extra)
    requires forall i :: 0 <= i < |fields| && fields[i].0 in data ==> data[fields[i].0] == extra[fields[i].0]
    ensures ResolveAll(fields, data) == ResolveAll(fields, extra)
    decreases |fields|
  {
    if fields != [] {
      var n := |fields| - 1;
      var init: Fields := fields[..n];
      assert forall i :: 0 <= i < n ==> init[i] == fields[i];
      ExtraKeysIgnored(init, data, extra);
      assert Supplied(fields[n].0, fields[n].1, data) == Supplied(fields[n].0, fields[n].1, extra);
    }
  }

  /** A model instance; its attributes are set once, by `Init`. */
  class Model {
    /** `__fields__`, fixed by the class declaration. */
    const fields: Fields
    /** The instance `__dict__`. */
    var attributes: Dict<string, Value>

    constructor(fields: Fields)
      ensures this.fields == fields && attributes == []
    {
      this.fields := fields;
      attributes := [];
    }

    /** `__init__`: resolve each field in declaration order, then store the
        collected values as attributes. A failure stores nothing. */
    method Init(data: Data) returns (r: Result<()>)
      modifies this
      ensures ResolveAll(fields, data).Err? ==>
        r == Err(ResolveAll(fields, data).error) && attributes == old(attributes)
      ensures ResolveAll(fields, data).Ok? ==>
        r == Ok(()) && attributes == UpdateAll(old(attributes), ResolveAll(fields, data).value)
    {
      var values: Dict<string, Value> := [];
      var i := 0;
      while i < |fields|
        invariant 0 <= i <= |fields|
        invariant ResolveAll(fields[..i], data) == Ok(values)
      {
        var (name, info) := fields[i];
        var next: Fields := fields[..i + 1];
        assert next[..i] == fields[..i] && next[i] == (name, info);
        var value := ResolveField(name, info, data);
        if value.Err? {
          assert ResolveAll(next, data) == Err(value.error);
          ResolveAllStaysErr(fields, data, i + 1);
          return Err(value.error);
        }
        values := Put(values, name, value.value);
        assert ResolveAll(next, data) == Ok(values);
        i := i + 1;
      }
      assert fields[..i] == fields;
      attributes := UpdateAll(attributes, values);
      r := Ok(());
    }

    /** `model_dump`: a copy of the attributes. */
    method ModelDump() returns (d: Dict<string, Value>)
      ensures d == attributes
    {
      d := attributes;
    }
  }

  /** `dict.update(values)`: assign each entry in order. */
  function UpdateAll(d: Dict<string, Value>, values: Dict<string, Value>): (r: Dict<string, Value>)
    ensures d == [] ==> r == values
    decreases |values|
  {
    if values == [] then d
    else
      var init: Dict<string, Value> := values[..|values| - 1];
      LastKeyFresh(values);
      Put(UpdateAll(d, init), values[|values| - 1].0, values[|values| - 1].1)
  }

  /** A failure on a prefix of the fields is final. */
  lemma {:induction false} ResolveAllStaysErr(fields: Fields, data: Data, k: nat)
    requires k <= |fields|
    requires ResolveAll(fields[..k], data).Err?
    ensures ResolveAll(fields, data) == Err(ResolveAll(fields[..k], data).error)
    decreases |fields| - k
  {
    if k < |fields| {
      var next: Fields := fields[..k + 1];
      assert next[..k] == fields[..k];
      ResolveAllStaysErr(fields, data, k + 1);
    } else {
      assert fields[..k] == fields;
    }
  }

  /** The error reported is that of the first field, in declaration
      order, that does not resolve. */
  lemma FirstFailure(fields: Fields, data: Data, k: nat)
    requires k < |fields|
    requires forall i :: 0 <= i < k ==> ResolveField(fields[i].0, fields[i].1, data).Ok?
    requires ResolveField(fields[k].0, fields[k].1, data).Err?
    ensures ResolveAll(fields, data) == Err(ResolveField(fields[k].0, fields[k].1, data).error)
  {
    var prefix: Fields := fields[..k];
    var next: Fields := fields[..k + 1];
    assert forall i :: 0 <= i < k ==> prefix[i] == fields[i];
    ResolveAllSucceeds(prefix, data);
    assert next[..k] == prefix && next[k] == fields[k];
    ResolveAllStaysErr(fields, data, k + 1);
  }

  /** Build a model from data and dump it: the resolved values, or the
      first validation error. */
  method Validate(fields: Fields, data: Data) returns (r: Result<Dict<string, Value>>)
    ensures r == ResolveAll(fields, data)
  {
    var m := new Model(fields);
    var done := m.Init(data);
    if done.Err? {
      return Err(done.error);
    }
    var d := m.ModelDump();
    r := Ok(d);
  }

  /** `BookDTO`: four non-empty text fields, an ISBN of at least three
      characters and at least one page. */
  const BookFields: Fields := [
    ("title", Field(minLength := Some(1))),
    ("author", Field(minLength := Some(1))),
    ("isbn", Field(minLength := Some(3))),
    ("publisher", Field(minLength := Some(1))),
    ("pages", Field(ge := Some(1)))]

  /** A payload with every field present and valid */
  const ValidBook: Data := map["title" := Str("T"), "author" := Str("A"), "isbn" := Str("999"),
                               "publisher" := Str("P"), "pages" := Int(50)]

  /** A well-formed book is accepted as given. */
  lemma BookAccepted()
    ensures ResolveAll(BookFields, ValidBook).Ok?
  {
    var f := BookFields;
    assert forall i :: 0 <= i < |f| ==> ResolveField(f[i].0, f[i].1, ValidBook).Ok? by {
      assert ResolveField("title", f[0].1, ValidBook).Ok?;
      assert ResolveField("author", f[1].1, ValidBook).Ok?;
      assert ResolveField("isbn", f[2].1, ValidBook).Ok?;
      assert ResolveField("publisher", f[3].1, ValidBook).Ok?;
      assert ResolveField("pages", f[4].1, ValidBook).Ok?;
    }
    ResolveAllSucceeds(f, ValidBook);
  }

  /** Zero pages is below `ge=1`. */
  lemma BookZeroPages()
    ensures ResolveAll(BookFields, ValidBook["pages" := Int(0)]) == Err(TooSmall("pages", 1))
  {
    var f := BookFields;
    var data := ValidBook["pages" := Int(0)];
    assert ResolveField(f[0].0, f[0].1, data).Ok?;
    assert ResolveField(f[1].0, f[1].1, data).Ok?;
    assert ResolveField(f[2].0, f[2].1, data).Ok?;
    assert ResolveField(f[3].0, f[3].1, data).Ok?;
    FirstFailure(f, data, 4);
  }

  /** A two-character ISBN is below `min_length=3`. */
  lemma BookShortIsbn()
    ensures ResolveAll(BookFields, ValidBook["isbn" := Str("99")]) == Err(TooShort("isbn", 3))
  {
    var f := BookFields;
    var data := ValidBook["isbn" := Str("99")];
    assert ResolveField(f[0].0, f[0].1, data).Ok?;
    assert ResolveField(f[1].0, f[1].1, data).Ok?;
    FirstFailure(f, data, 2);
  }

  /** A payload without a title is refused before anything else. */
  lemma BookMissingTitle()
    ensures ResolveAll(BookFields, ValidBook - {"title"}) == Err(Required("title"))
  {
    FirstFailure(BookFields, ValidBook - {"title"}, 0);
  }
}
