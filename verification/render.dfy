/**
 The two decisions `generate_api_doc` makes that are more than fixed text: the
 URL shown in the request samples, and the example body synthesized from a
 response's JSON schema.
 */
module Render {
  import opened Json
  import opened Chars
  import Params

  /** The full request URL: a path that already starts with `http` is used as
      it is, anything else is appended to the configured base URL. */
  function FullUrl(baseUrl: string, path: string): (r: string)
    ensures |path| <= |r| && r[|r| - |path|..] == path
    ensures StartsWith(path, "http") ==> r == path
    ensures !StartsWith(path, "http") ==> StartsWith(r, baseUrl) && |r| == |baseUrl| + |path|
  {
    if StartsWith(path, "http") then path else baseUrl + path
  }

  /** The body printed when a response declares no schema properties. */
  const DefaultBody: JVal := JObj([("status", JStr("success"))])

  /** The placeholder value for one schema property, by its declared `type`
      (a missing type counts as `string`). */
  function Placeholder(name: string, declared: JVal): (v: JVal)
    ensures declared == JStr("string") ==> v == JStr("example_" + name)
    ensures declared == JStr("number") || declared == JStr("integer") ==> v == JInt(0)
    ensures declared == JStr("boolean") ==> v == JBool(true)
    ensures declared == JStr("array") ==> v == JArr([])
    ensures !(declared in [JStr("string"), JStr("number"), JStr("integer"), JStr("boolean"), JStr("array")])
            ==> v == JObj([])
  {
    if declared == JStr("string") then JStr("example_" + name)
    else if declared == JStr("number") || declared == JStr("integer") then JInt(0)
    else if declared == JStr("boolean") then JBool(true)
    else if declared == JStr("array") then JArr([])
    else JObj([])
  }

  /** The placeholder's inferred type agrees with the declared one, except
      that `number` gets the integer `0` and an unknown type an empty object. */
  lemma PlaceholderTypeAgrees(name: string, declared: string)
    ensures var inferred := Params.InferType(Placeholder(name, JStr(declared)));
            && (declared in ["string", "integer", "boolean", "array", "object"] ==> inferred == declared)
            && (declared == "number" ==> inferred == "integer")
            && (declared !in ["string", "number", "integer", "boolean", "array"] ==> inferred == "object")
  {
  }

  /** The placeholders for a `properties` mapping, in property order. */
  function Placeholders(props: seq<(string, JVal)>): (r: Result<seq<(string, JVal)>>)
    ensures r.Raise? <==> exists i :: 0 <= i < |props| && !props[i].1.JObj?
    ensures r.Raise? ==> r.error == AttributeError
    ensures r.Ok? ==> |r.value| == |props|
    ensures r.Ok? ==> forall i :: 0 <= i < |props| ==>
      r.value[i] == (props[i].0, Placeholder(props[i].0, GetOr(props[i].1.fields, "type", JStr("string"))))
  {
    if props == [] then Ok([])
    else if !props[0].1.JObj? then Raise(AttributeError)
    else
      var (name, info) := props[0];
      var rest := Placeholders(props[1..]);
      if rest.Raise? then
        assert exists i :: 0 <= i < |props| && !props[i].1.JObj? by {
          var i :| 0 <= i < |props[1..]| && !props[1..][i].1.JObj?;
          assert props[i + 1] == props[1..][i];
        }
        rest
      else
        Ok([(name, Placeholder(name, GetOr(info.fields, "type", JStr("string"))))] + rest.value)
  }

  /** The example body for one response's `jsonSchema`. */
  function ExampleBody(schema: JVal): (r: Result<JVal>)
    ensures r.Ok? ==> r.value.JObj?
    ensures !Truthy(schema) ==> r == Ok(DefaultBody)
    ensures Truthy(schema) && !schema.JObj? ==> r == Raise(AttributeError)
    ensures schema.JObj? && !Truthy(GetOr(schema.fields, "properties", JNull)) ==> r == Ok(DefaultBody)
    ensures schema.JObj? ==>
      var props := GetOr(schema.fields, "properties", JNull);
      && (Truthy(props) && !props.JObj? ==> r == Raise(AttributeError))
      && (Truthy(props) && props.JObj? && Placeholders(props.fields).Raise? ==> r == Raise(AttributeError))
    ensures r.Ok? && r.value != DefaultBody ==>
      && schema.JObj?
      && var props := GetOr(schema.fields, "properties", JNull);
         && props.JObj? && Placeholders(props.fields).Ok?
         && r.value == JObj(Placeholders(props.fields).value)
         && |r.value.fields| == |props.fields|
         && forall i :: 0 <= i < |props.fields| ==> r.value.fields[i].0 == props.fields[i].0
  {
    if !Truthy(schema) then Ok(DefaultBody)
    else if !schema.JObj? then Raise(AttributeError)
    else
      var props := GetOr(schema.fields, "properties", JNull);
      if !Truthy(props) then Ok(DefaultBody)
      else if !props.JObj? then Raise(AttributeError)
      else match Placeholders(props.fields)
        case Raise(e) => Raise(e)
        case Ok(fs) => Ok(JObj(fs))
  }
}
