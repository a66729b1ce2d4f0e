/**
 Request-body parameter inference: `infer_type_from_value`,
 `get_param_description` and `parse_request_body_params`. The parameters of a
 JSON request body are read off the first example only, one per key.
 */
module Params {
  import opened Json
  import opened Chars

  /** Python's `isinstance(v, int)`: `bool` is a subclass of `int`, so a
      boolean passes this test as well. */
  predicate PyIsInt(v: JVal) {
    v.JBool? || v.JInt?
  }

  const TypeTags: set<string> := {"boolean", "integer", "number", "array", "object", "string"}

  /** `infer_type_from_value(value)`: the tests run in the order Python checks them, so
      the boolean test must come before the integer one. */
  function InferType(v: JVal): (r: string)
    ensures r in TypeTags
    ensures r == "boolean" <==> v.JBool?
    ensures r == "integer" <==> v.JInt?
    ensures r == "number" <==> v.JNum?
    ensures r == "array" <==> v.JArr?
    ensures r == "object" <==> v.JObj?
    ensures r == "string" <==> (v.JStr? || v.JNull?)
  {
    if v.JBool? then "boolean"
    else if PyIsInt(v) then "integer"
    else if v.JNum? then "number"
    else if v.JArr? then "array"
    else if v.JObj? then "object"
    else "string"
  }

  /** The curated descriptions of well-known parameters. */
  const Curated: map<string, string> := map[
    "model" := "The model to use for the request",
    "messages" := "Array of message objects for the conversation",
    "temperature" := "Controls randomness in the output (0-2)",
    "max_tokens" := "Maximum number of tokens to generate",
    "top_p" := "Nucleus sampling parameter (0-1)",
    "stream" := "Whether to stream the response",
    "frequency_penalty" := "Penalize frequent tokens (-2.0 to 2.0)",
    "presence_penalty" := "Penalize new tokens (-2.0 to 2.0)",
    "n" := "Number of completions to generate",
    "stop" := "Sequences where the API will stop generating",
    "user" := "Unique identifier for the end-user"
  ]

  /** The keys a body parameter is marked required for. */
  const RequiredKeys: seq<string> := ["model", "messages", "prompt", "input"]

  /** `s.replace('_', ' ')`. */
  function UnderscoresToSpaces(s: string): (r: string)
    ensures |r| == |s|
    ensures forall i :: 0 <= i < |s| ==> r[i] == (if s[i] == '_' then ' ' else s[i])
  {
    seq(|s|, i requires 0 <= i < |s| => if s[i] == '_' then ' ' else s[i])
  }

  /** `s.title()`, scanning left to right: a character that follows a cased
      character is lower-cased, any other is title-cased. */
  function TitleFrom(t: CharTable, s: string, prevCased: bool): (r: string)
    ensures |r| == |s|
  {
    if s == [] then []
    else [if prevCased then t.lower(s[0]) else t.title(s[0])] + TitleFrom(t, s[1..], t.isCased(s[0]))
  }

  /** `s.title()`: the first character of every run of cased characters is
      title-cased and the others are lower-cased; uncased characters only end
      a run. */
  function Title(t: CharTable, s: string): (r: string)
    ensures |r| == |s|
    ensures forall i :: 0 <= i < |s| ==>
      r[i] == (if i > 0 && t.isCased(s[i - 1]) then t.lower(s[i]) else t.title(s[i]))
  {
    TitlePositions(t, s, false);
    TitleFrom(t, s, false)
  }

  /** Each character of `s.title()` is determined by the character before it in
      the input: word-initial characters are title-cased, the rest lower-cased. */
  lemma {:induction false} TitlePositions(t: CharTable, s: string, prevCased: bool)
    ensures forall i :: 0 <= i < |s| ==>
      TitleFrom(t, s, prevCased)[i] ==
        (if (if i == 0 then prevCased else t.isCased(s[i - 1])) then t.lower(s[i]) else t.title(s[i]))
    decreases |s|
  {
    if s != [] {
      TitlePositions(t, s[1..], t.isCased(s[0]));
      var r := TitleFrom(t, s, prevCased);
      forall i | 1 <= i < |s|
        ensures r[i] == (if t.isCased(s[i - 1]) then t.lower(s[i]) else t.title(s[i]))
      {
        assert r[i] == TitleFrom(t, s[1..], t.isCased(s[0]))[i - 1];
        if i > 1 {
          assert s[1..][i - 2] == s[i - 1];
        }
      }
    }
  }

  /** `get_param_description(key, value)`; the value is not consulted. */
  function Describe(t: CharTable, key: string): (r: string)
    ensures key in Curated ==> r == Curated[key]
    ensures key !in Curated ==> |r| == |key| + |" parameter"| && r[|key|..] == " parameter"
  {
    if key in Curated then Curated[key]
    else Title(t, UnderscoresToSpaces(key)) + " parameter"
  }

  /** A generated description title-cases the words of the key: underscores
      become spaces, a letter after a letter is lower-cased, and any other
      character is title-cased. */
  lemma DescribeUnknown(t: CharTable, key: string)
    requires Coherent(t)
    requires key !in Curated
    ensures var r := Describe(t, key);
            forall i :: 0 <= i < |key| ==>
              r[i] == (if key[i] == '_' then ' '
                       else if i > 0 && key[i - 1] != '_' && t.isCased(key[i - 1]) then t.lower(key[i])
                       else t.title(key[i]))
  {
    var spaced := UnderscoresToSpaces(key);
    TitlePositions(t, spaced, false);
    var r := Describe(t, key);
    forall i | 0 <= i < |key|
      ensures r[i] == (if key[i] == '_' then ' '
                       else if i > 0 && key[i - 1] != '_' && t.isCased(key[i - 1]) then t.lower(key[i])
                       else t.title(key[i]))
    {
      assert r[i] == Title(t, spaced)[i];
      assert IsAscii(' ') && IsAscii('_');
      if i > 0 && key[i - 1] == '_' {
        assert !t.isCased(spaced[i - 1]);
      }
    }
  }

  /** A body parameter as `parse_request_body_params` lists it. */
  datatype Param = Param(name: string, typ: string, description: string, required: bool, example: JVal)

  function ParamOf(t: CharTable, key: string, value: JVal): (p: Param)
    ensures p.name == key && p.example == value
    ensures p.required <==> key in RequiredKeys
  {
    Param(key, InferType(value), Describe(t, key), key in RequiredKeys, value)
  }

  function ParamsOf(t: CharTable, fields: seq<(string, JVal)>): (ps: seq<Param>)
    ensures |ps| == |fields|
    ensures forall i :: 0 <= i < |fields| ==> ps[i] == ParamOf(t, fields[i].0, fields[i].1)
  {
    seq(|fields|, i requires 0 <= i < |fields| => ParamOf(t, fields[i].0, fields[i].1))
  }

  /** `parse_json_example(value)`: a string is decoded, and one that does not
      decode gives `{}`; a dict is used as it is; anything else gives `{}`. */
  function ParseExample(decode: string -> Option<JVal>, value: JVal): (r: JVal)
    ensures value.JStr? && decode(value.s).Some? ==> r == decode(value.s).value
    ensures value.JStr? && decode(value.s).None? ==> r == JObj([])
    ensures value.JObj? ==> r == value
    ensures !value.JStr? && !value.JObj? ==> r == JObj([])
  {
    match value
    case JStr(s) => decode(s).GetOr(JObj([]))
    case JObj(_) => value
    case _ => JObj([])
  }

  /** `examples[0]`: a list gives its first element, a string its first
      character; a dict has no key `0`; nothing else can be subscripted. */
  function First(examples: JVal): (r: Result<JVal>)
    requires Truthy(examples)
    ensures examples.JArr? ==> r == Ok(examples.elems[0])
    ensures examples.JStr? ==> r == Ok(JStr([examples.s[0]]))
    ensures examples.JObj? ==> r == Raise(KeyError)
    ensures !(examples.JArr? || examples.JStr? || examples.JObj?) ==> r == Raise(TypeError)
  {
    match examples
    case JArr(es) => Ok(es[0])
    case JStr(s) => Ok(JStr([s[0]]))
    case JObj(_) => Raise(KeyError)
    case _ => Raise(TypeError)
  }

  /** `parse_json_example(examples[0].get('value', '{}'))`, guarded by the
      emptiness test on the examples. */
  function FirstExample(decode: string -> Option<JVal>, examples: JVal): (r: Result<Option<JVal>>)
    ensures !Truthy(examples) ==> r == Ok(None)
    ensures Truthy(examples) && examples.JArr? && examples.elems[0].JObj? ==>
      r == Ok(Some(ParseExample(decode, GetOr(examples.elems[0].fields, "value", JStr("{}")))))
    ensures Truthy(examples) && examples.JArr? && !examples.elems[0].JObj? ==> r == Raise(AttributeError)
    ensures Truthy(examples) && examples.JStr? ==> r == Raise(AttributeError)
    ensures Truthy(examples) && examples.JObj? ==> r == Raise(KeyError)
    ensures Truthy(examples) && !(examples.JArr? || examples.JStr? || examples.JObj?) ==> r == Raise(TypeError)
  {
    if !Truthy(examples) then Ok(None)
    else match First(examples)
      case Raise(e) => Raise(e)
      case Ok(first) =>
        if !first.JObj? then Raise(AttributeError)
        else Ok(Some(ParseExample(decode, GetOr(first.fields, "value", JStr("{}")))))
  }

  /** The example object the parameters are read from, or `None` when the body
      is not a JSON body with at least one example. */
  function ExampleObject(decode: string -> Option<JVal>, body: JVal): (r: Result<Option<JVal>>)
    ensures !Truthy(body) ==> r == Ok(None)
    ensures Truthy(body) && !body.JObj? ==> r == Raise(AttributeError)
    ensures body.JObj? && Get(body.fields, "type") != Some(JStr("application/json")) ==> r == Ok(None)
    ensures body.JObj? && Get(body.fields, "type") == Some(JStr("application/json")) ==>
      r == FirstExample(decode, GetOr(body.fields, "examples", JArr([])))
    ensures r.Ok? && r.value.Some? ==> Get(body.fields, "type") == Some(JStr("application/json"))
  {
    if !Truthy(body) then Ok(None)
    else if !body.JObj? then Raise(AttributeError)
    else if Get(body.fields, "type") != Some(JStr("application/json")) then Ok(None)
    else FirstExample(decode, GetOr(body.fields, "examples", JArr([])))
  }

  /** `parse_request_body_params(request_body)`. */
  function BodyParams(t: CharTable, decode: string -> Option<JVal>, body: JVal): (r: Result<seq<Param>>)
    ensures !Truthy(body) ==> r == Ok([])
    ensures Truthy(body) && !body.JObj? ==> r == Raise(AttributeError)
    ensures body.JObj? && Get(body.fields, "type") != Some(JStr("application/json")) ==> r == Ok([])
    ensures body.JObj? && !Truthy(GetOr(body.fields, "examples", JArr([]))) ==> r == Ok([])
    ensures r.Raise? <==> ExampleObject(decode, body).Raise?
    ensures r.Ok? && r.value != [] ==>
      && body.JObj?
      && Get(body.fields, "type") == Some(JStr("application/json"))
      && Truthy(GetOr(body.fields, "examples", JArr([])))
      && var e := ExampleObject(decode, body);
         e.Ok? && e.value.Some? && e.value.value.JObj? && r.value == ParamsOf(t, e.value.value.fields)
  {
    match ExampleObject(decode, body)
    case Raise(e) => Raise(e)
    case Ok(None) => Ok([])
    case Ok(Some(obj)) => if obj.JObj? then Ok(ParamsOf(t, obj.fields)) else Ok([])
  }

  /** With a JSON body whose first example is a dict whose `value` parses to an
      object (in any key order, with any other keys, the value given as a
      string or as a dict), there is exactly one parameter per key of that
      object, in key order, typed by its value, required exactly for the
      required keys. */
  lemma BodyParamsOfObject(t: CharTable, decode: string -> Option<JVal>, bf: seq<(string, JVal)>,
                           es: seq<JVal>, fields: seq<(string, JVal)>)
    requires Get(bf, "type") == Some(JStr("application/json"))
    requires Get(bf, "examples") == Some(JArr(es))
    requires es != [] && es[0].JObj?
    requires ParseExample(decode, GetOr(es[0].fields, "value", JStr("{}"))) == JObj(fields)
    ensures var r := BodyParams(t, decode, JObj(bf));
            && r == Ok(ParamsOf(t, fields))
            && forall i :: 0 <= i < |fields| ==>
                 && r.value[i].name == fields[i].0
                 && r.value[i].typ == InferType(fields[i].1)
                 && r.value[i].description == Describe(t, fields[i].0)
                 && (r.value[i].required <==> fields[i].0 in RequiredKeys)
  {
    assert FirstExample(decode, JArr(es)) == Ok(Some(JObj(fields)));
  }

  /** A first example that parses to something other than an object (a list, a
      number, a string) yields no parameters and no error. */
  lemma BodyParamsOfNonObject(t: CharTable, decode: string -> Option<JVal>, bf: seq<(string, JVal)>,
                              es: seq<JVal>)
    requires Get(bf, "type") == Some(JStr("application/json"))
    requires Get(bf, "examples") == Some(JArr(es))
    requires es != [] && es[0].JObj?
    requires !ParseExample(decode, GetOr(es[0].fields, "value", JStr("{}"))).JObj?
    ensures BodyParams(t, decode, JObj(bf)) == Ok([])
  {
    assert FirstExample(decode, JArr(es)).Ok?;
  }

  /** Only the first example is consulted: the examples after it do not change
      the parameters. */
  lemma OnlyFirstExample(t: CharTable, decode: string -> Option<JVal>,
                         fields: seq<(string, JVal)>, es: seq<JVal>, es': seq<JVal>)
    requires es != [] && es' != [] && es[0] == es'[0]
    requires !HasKey(fields, "examples")
    ensures BodyParams(t, decode, JObj(fields + [("examples", JArr(es))]))
         == BodyParams(t, decode, JObj(fields + [("examples", JArr(es'))]))
  {
    var f1 := fields + [("examples", JArr(es))];
    var f2 := fields + [("examples", JArr(es'))];
    GetAppend(fields, "examples", JArr(es));
    GetAppend(fields, "examples", JArr(es'));
    GetAppendOther(fields, "type", "examples", JArr(es));
    GetAppendOther(fields, "type", "examples", JArr(es'));
    assert Get(f1, "type") == Get(f2, "type");
    assert GetOr(f1, "examples", JArr([])) == JArr(es);
    assert GetOr(f2, "examples", JArr([])) == JArr(es');
    assert FirstExample(decode, JArr(es)) == FirstExample(decode, JArr(es'));
    assert ExampleObject(decode, JObj(f1)) == ExampleObject(decode, JObj(f2));
  }
}
