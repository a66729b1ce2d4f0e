/**
 `extract_apis_recursive`: walks the collection tree depth first and emits one
 record per node that carries an `api` definition or a Postman-style `request`.
 Children (under `items`, or under `item` when `items` is missing or empty) are
 visited first, in list order, with the folder path extended by the node's
 name; the node's own record, if any, comes after all of theirs and carries the
 folder path the node was reached with. A node with children can still emit
 itself: the definition test does not depend on the folder test.
 */
module Extract {
  import opened Json
  import opened Chars

  /** One discovered endpoint: its display name, the `/`-joined names of the
      folders above it, and its definition in the internal `api` shape. */
  datatype ApiRecord = ApiRecord(name: string, folderPath: string, api: JVal)

  /** The folder path handed to the children of a folder named `name`. */
  function JoinPath(parent: string, name: string): (r: string)
    ensures parent == "" ==> r == name
    ensures parent != "" ==> StartsWith(r, parent + "/") && r[|parent| + 1..] == name
  {
    if parent == "" then name else parent + "/" + name
  }

  /** `q` is `p` or a path below it. */
  predicate Under(p: string, q: string) {
    p == "" || q == p || StartsWith(q, p + "/")
  }

  lemma UnderJoin(p: string, name: string, q: string)
    requires Under(JoinPath(p, name), q)
    ensures Under(p, q)
  {
    if p != "" && q != JoinPath(p, name) {
      var j := JoinPath(p, name);
      assert j == (p + "/") + name;
      assert q[..|p + "/"|] == (j + "/")[..|p + "/"|];
    }
  }

  /** `node.get('name', default)` for a name stored as a JSON string. */
  function NameOr(fields: seq<(string, JVal)>, default: string): (r: string)
    ensures Get(fields, "name").Some? && Get(fields, "name").value.JStr? ==> r == Get(fields, "name").value.s
    ensures !(Get(fields, "name").Some? && Get(fields, "name").value.JStr?) ==> r == default
  {
    match Get(fields, "name")
    case Some(JStr(s)) => s
    case _ => default
  }

  /** `item.get('items') or item.get('item')`. */
  function SubItems(fields: seq<(string, JVal)>): (r: JVal)
    ensures Truthy(GetOr(fields, "items", JNull)) ==> r == GetOr(fields, "items", JNull)
    ensures !Truthy(GetOr(fields, "items", JNull)) ==> r == GetOr(fields, "item", JNull)
  {
    var items := GetOr(fields, "items", JNull);
    if Truthy(items) then items else GetOr(fields, "item", JNull)
  }

  lemma SubItemsSmaller(fields: seq<(string, JVal)>)
    requires Truthy(SubItems(fields))
    ensures Size(SubItems(fields)) < Size(JObj(fields))
  {
    if Truthy(GetOr(fields, "items", JNull)) {
      GetSmaller(fields, "items");
    } else {
      GetSmaller(fields, "item");
    }
  }

  /** `'/'.join(parts)` for parts already known to be strings. */
  function JoinSlash(parts: seq<string>): (r: string)
    ensures parts == [] ==> r == ""
    ensures |parts| == 1 ==> r == parts[0]
  {
    if parts == [] then ""
    else if |parts| == 1 then parts[0]
    else parts[0] + "/" + JoinSlash(parts[1..])
  }

  /** Splits at every `/`; the inverse of `JoinSlash` on slash-free parts. */
  function SplitSlash(s: string): (r: seq<string>)
    ensures r != []
    decreases |s|
  {
    if s == [] then [""]
    else
      var rest := SplitSlash(s[1..]);
      if s[0] == '/' then [""] + rest else [[s[0]] + rest[0]] + rest[1..]
  }

  lemma {:induction false} SplitNoSlash(s: string)
    requires '/' !in s
    ensures SplitSlash(s) == [s]
    decreases |s|
  {
    if s != [] {
      SplitNoSlash(s[1..]);
      assert [s[0]] + s[1..] == s;
    }
  }

  lemma {:induction false} SplitPrefix(a: string, b: string)
    requires '/' !in a
    ensures SplitSlash(a + "/" + b) == [a] + SplitSlash(b)
    decreases |a|
  {
    if a == [] {
      assert a + "/" + b == "/" + b;
      assert ("/" + b)[1..] == b;
    } else {
      var s := a + "/" + b;
      assert s[1..] == a[1..] + "/" + b;
      SplitPrefix(a[1..], b);
      assert [a[0]] + a[1..] == a;
    }
  }

  /** The segments of a structured URL path can be read back from the joined
      string when none of them contains a `/`. */
  lemma {:induction false} SplitJoin(parts: seq<string>)
    requires parts != []
    requires forall i :: 0 <= i < |parts| ==> '/' !in parts[i]
    ensures SplitSlash(JoinSlash(parts)) == parts
    decreases |parts|
  {
    if |parts| == 1 {
      SplitNoSlash(parts[0]);
    } else {
      SplitJoin(parts[1..]);
      SplitPrefix(parts[0], JoinSlash(parts[1..]));
    }
  }

  /** The strings among `items`, if all of them are strings. */
  predicate AllStrings(items: seq<JVal>) {
    forall i :: 0 <= i < |items| ==> items[i].JStr?
  }

  function Strings(items: seq<JVal>): (r: seq<string>)
    requires AllStrings(items)
    ensures |r| == |items| && forall i :: 0 <= i < |items| ==> r[i] == items[i].s
  {
    seq(|items|, i requires 0 <= i < |items| => items[i].s)
  }

  /** The `path` a Postman `url` turns into: a string URL verbatim, a structured
      one as `/` followed by its path parts joined with `/`, or `/` when it has
      none. */
  function UrlPath(url: JVal): (r: Result<string>)
    ensures url.JStr? ==> r == Ok(url.s)
    ensures !url.JStr? && !url.JObj? ==> r == Raise(AttributeError)
    ensures url.JObj? && !Truthy(GetOr(url.fields, "path", JArr([]))) ==> r == Ok("/")
    ensures url.JObj? && r.Ok? ==> |r.value| >= 1 && r.value[0] == '/'
    ensures url.JObj? && Truthy(GetOr(url.fields, "path", JArr([]))) ==>
      var p := GetOr(url.fields, "path", JArr([]));
      && (r.Ok? <==> Iterate(p).Ok? && AllStrings(Iterate(p).value))
      && (r.Ok? ==> r.value == "/" + JoinSlash(Strings(Iterate(p).value)))
      && (Iterate(p).Ok? && !AllStrings(Iterate(p).value) ==> r == Raise(TypeError))
    ensures url.JObj? && GetOr(url.fields, "path", JArr([])).JArr? ==>
      var parts := GetOr(url.fields, "path", JArr([])).elems;
      parts != [] && AllStrings(parts) ==> r == Ok("/" + JoinSlash(Strings(parts)))
  {
    if url.JStr? then Ok(url.s)
    else if !url.JObj? then Raise(AttributeError)
    else
      var parts := GetOr(url.fields, "path", JArr([]));
      if !Truthy(parts) then Ok("/")
      else if Iterate(parts).Raise? then Raise(Iterate(parts).error)
      else
        var items := Iterate(parts).value;
        if AllStrings(items) then Ok("/" + JoinSlash(Strings(items))) else Raise(TypeError)
  }

  /** The request body the internal shape gives a raw Postman body. */
  function JsonBody(raw: JVal): JVal {
    JObj([("type", JStr("application/json")), ("examples", JArr([JObj([("value", raw)])]))])
  }

  /** The body of a Postman request is sent raw. */
  predicate IsRaw(body: JVal) {
    body.JObj? && body.fields != [] && Get(body.fields, "mode") == Some(JStr("raw"))
  }

  function UrlOf(request: seq<(string, JVal)>): JVal {
    GetOr(request, "url", JObj([]))
  }

  function BodyOf(request: seq<(string, JVal)>): JVal {
    GetOr(request, "body", JObj([]))
  }

  /** The query and path-variable lists, copied only from a structured URL. */
  function UrlParams(url: JVal): JVal {
    JObj([("query", if url.JObj? then GetOr(url.fields, "query", JArr([])) else JArr([])),
          ("path", if url.JObj? then GetOr(url.fields, "variable", JArr([])) else JArr([]))])
  }

  /** Converts a Postman `request` into the internal `api` shape. */
  function Convert(item: seq<(string, JVal)>, request: JVal): (r: Result<JVal>)
    ensures !request.JObj? ==> r == Raise(AttributeError)
    ensures request.JObj? ==>
      (r.Ok? <==> UrlPath(UrlOf(request.fields)).Ok?
                  && !(Truthy(BodyOf(request.fields)) && !BodyOf(request.fields).JObj?))
    ensures r.Ok? ==> r.value.JObj?
  {
    if !request.JObj? then Raise(AttributeError)
    else
      var rfs := request.fields;
      var url := UrlOf(rfs);
      var body := BodyOf(rfs);
      if UrlPath(url).Raise? then Raise(UrlPath(url).error)
      else if Truthy(body) && !body.JObj? then Raise(AttributeError)
      else
        Ok(RequestShape(GetOr(rfs, "method", JStr("GET")), UrlPath(url).value,
                        GetOr(rfs, "description", GetOr(item, "description", JStr(""))),
                        UrlParams(url), body))
  }

  /** The four members every converted request has. */
  function ShapeBase(verb: JVal, path: string, description: JVal, params: JVal): seq<(string, JVal)> {
    [("method", verb), ("path", JStr(path)), ("description", description), ("parameters", params)]
  }

  /** The internal `api` object built from the pieces of a Postman request. */
  function RequestShape(verb: JVal, path: string, description: JVal, params: JVal, body: JVal): (r: JVal)
    ensures r.JObj?
  {
    var base := ShapeBase(verb, path, description, params);
    JObj(if IsRaw(body) then base + [("requestBody", JsonBody(GetOr(body.fields, "raw", JStr("{}"))))]
         else base)
  }

  lemma ShapeBaseFields(verb: JVal, path: string, description: JVal, params: JVal)
    ensures var fs := ShapeBase(verb, path, description, params);
            && Get(fs, "method") == Some(verb)
            && Get(fs, "path") == Some(JStr(path))
            && Get(fs, "description") == Some(description)
            && Get(fs, "parameters") == Some(params)
            && !HasKey(fs, "requestBody")
  {
    var fs := ShapeBase(verb, path, description, params);
    GetAt(fs, 0);
    GetAt(fs, 1);
    GetAt(fs, 2);
    GetAt(fs, 3);
    assert forall j :: 0 <= j < |fs| ==> fs[j].0 != "requestBody";
  }

  lemma RequestShapeFields(verb: JVal, path: string, description: JVal, params: JVal, body: JVal)
    ensures var fs := RequestShape(verb, path, description, params, body).fields;
            && Get(fs, "method") == Some(verb)
            && Get(fs, "path") == Some(JStr(path))
            && Get(fs, "description") == Some(description)
            && Get(fs, "parameters") == Some(params)
            && (HasKey(fs, "requestBody") <==> IsRaw(body))
            && (IsRaw(body) ==> Get(fs, "requestBody") == Some(JsonBody(GetOr(body.fields, "raw", JStr("{}")))))
  {
    var base := ShapeBase(verb, path, description, params);
    ShapeBaseFields(verb, path, description, params);
    if IsRaw(body) {
      var rb := JsonBody(GetOr(body.fields, "raw", JStr("{}")));
      GetAppend(base, "requestBody", rb);
      GetAppendOther(base, "method", "requestBody", rb);
      GetAppendOther(base, "path", "requestBody", rb);
      GetAppendOther(base, "description", "requestBody", rb);
      GetAppendOther(base, "parameters", "requestBody", rb);
    }
  }

  /** What a converted request holds: the method (`GET` by default), the
      path, the URL's query and path variables, and a JSON request body exactly
      when the Postman body is raw, with the raw text (`{}` by default) as its
      only example. */
  lemma ConvertFields(item: seq<(string, JVal)>, request: JVal)
    requires Convert(item, request).Ok?
    ensures var rfs := request.fields;
            var fs := Convert(item, request).value.fields;
            var body := BodyOf(rfs);
            && Get(fs, "method") == Some(GetOr(rfs, "method", JStr("GET")))
            && Get(fs, "path") == Some(JStr(UrlPath(UrlOf(rfs)).value))
            && Get(fs, "description") == Some(GetOr(rfs, "description", GetOr(item, "description", JStr(""))))
            && Get(fs, "parameters") == Some(UrlParams(UrlOf(rfs)))
            && (HasKey(fs, "requestBody") <==> IsRaw(body))
            && (IsRaw(body) ==> Get(fs, "requestBody") == Some(JsonBody(GetOr(body.fields, "raw", JStr("{}")))))
  {
    var rfs := request.fields;
    var url := UrlOf(rfs);
    RequestShapeFields(GetOr(rfs, "method", JStr("GET")), UrlPath(url).value,
                       GetOr(rfs, "description", GetOr(item, "description", JStr(""))),
                       UrlParams(url), BodyOf(rfs));
  }

  /** The records a node contributes itself: from `api` if it has one (taken
      as it is), else from a converted `request`, else none. */
  function OwnRecords(item: seq<(string, JVal)>, folderPath: string): (r: Result<seq<ApiRecord>>)
    ensures HasKey(item, "api") ==>
      r == Ok([ApiRecord(NameOr(item, "Unnamed"), folderPath, Get(item, "api").value)])
    ensures !HasKey(item, "api") && !HasKey(item, "request") ==> r == Ok([])
    ensures !HasKey(item, "api") && HasKey(item, "request") ==>
      var api := Convert(item, Get(item, "request").value);
      && (r.Ok? <==> api.Ok?)
      && (api.Ok? ==> r.value == [ApiRecord(NameOr(item, "Unnamed"), folderPath, api.value)])
    ensures r.Ok? ==> |r.value| <= 1
    ensures r.Ok? && r.value == [] ==> !HasKey(item, "api") && !HasKey(item, "request")
    ensures r.Ok? ==> forall k :: 0 <= k < |r.value| ==> r.value[k].folderPath == folderPath
  {
    if HasKey(item, "api") then
      Ok([ApiRecord(NameOr(item, "Unnamed"), folderPath, Get(item, "api").value)])
    else if HasKey(item, "request") then
      match Convert(item, Get(item, "request").value)
      case Raise(e) => Raise(e)
      case Ok(api) => Ok([ApiRecord(NameOr(item, "Unnamed"), folderPath, api)])
    else Ok([])
  }

  /** The children to visit: none when the children field is unset or empty,
      else the result of iterating over it. */
  function Children(fs: seq<(string, JVal)>): (r: Result<seq<JVal>>)
    ensures !Truthy(SubItems(fs)) ==> r == Ok([])
    ensures Truthy(SubItems(fs)) ==> r == Iterate(SubItems(fs))
    ensures r.Ok? ==> forall e :: e in r.value ==> Size(e) < Size(JObj(fs))
  {
    var sub := SubItems(fs);
    if !Truthy(sub) then Ok([])
    else if Iterate(sub).Raise? then Iterate(sub)
    else
      SubItemsSmaller(fs);
      IterateNoLarger(sub);
      Iterate(sub)
  }

  /** `extract_apis_recursive(node, folder_path)`: the children's records
      (filed below the node's own folder path) followed by the node's own. */
  function ExtractNode(node: JVal, folderPath: string): (r: Result<seq<ApiRecord>>)
    ensures !node.JObj? ==> r == Raise(AttributeError)
    ensures r.Ok? ==> forall k :: 0 <= k < |r.value| ==> Under(folderPath, r.value[k].folderPath)
    ensures node.JObj? && Children(node.fields).Raise? ==> r == Raise(Children(node.fields).error)
    ensures node.JObj? && OwnRecords(node.fields, folderPath).Raise? ==> r.Raise?
    ensures r.Ok? ==>
      && node.JObj? && Children(node.fields).Ok? && OwnRecords(node.fields, folderPath).Ok?
      && var childPath := JoinPath(folderPath, NameOr(node.fields, ""));
         var below := ExtractEach(Children(node.fields).value, childPath, Size(node));
         var own := OwnRecords(node.fields, folderPath).value;
         && below.Ok? && r.value == below.value + own
         && forall k :: 0 <= k < |below.value| ==> Under(childPath, r.value[k].folderPath)
    decreases Size(node), 1
  {
    if !node.JObj? then Raise(AttributeError)
    else
      var fs := node.fields;
      if Children(fs).Raise? then Raise(Children(fs).error)
      else
        var childPath := JoinPath(folderPath, NameOr(fs, ""));
        var below := ExtractEach(Children(fs).value, childPath, Size(node));
        if below.Raise? then below
        else
          var rs := below.value;
          assert forall k :: 0 <= k < |rs| ==> Under(folderPath, rs[k].folderPath) by {
            forall k | 0 <= k < |rs|
              ensures Under(folderPath, rs[k].folderPath)
            {
              UnderJoin(folderPath, NameOr(fs, ""), rs[k].folderPath);
            }
          }
          var own := OwnRecords(fs, folderPath);
          if own.Raise? then Raise(own.error) else Ok(rs + own.value)
  }

  /** The children's records, concatenated in list order; the first child that
      raises stops the walk. */
  function ExtractEach(kids: seq<JVal>, folderPath: string, bound: nat): (r: Result<seq<ApiRecord>>)
    requires forall e :: e in kids ==> Size(e) < bound
    ensures r.Ok? ==> forall k :: 0 <= k < |r.value| ==> Under(folderPath, r.value[k].folderPath)
    decreases bound, 0, |kids|
  {
    if kids == [] then Ok([])
    else Then(ExtractNode(kids[0], folderPath), ExtractEach(kids[1..], folderPath, bound))
  }

  /** Two walks in sequence: the first error wins, else the records
      concatenate. */
  function Then<T>(x: Result<seq<T>>, y: Result<seq<T>>): (r: Result<seq<T>>)
    ensures r.Ok? <==> x.Ok? && y.Ok?
    ensures r.Ok? ==> r.value == x.value + y.value
    ensures x.Raise? ==> r == x
    ensures x.Ok? && y.Raise? ==> r == y
  {
    match x
    case Raise(e) => Raise(e)
    case Ok(first) =>
      match y
      case Raise(e) => Raise(e)
      case Ok(rest) => Ok(first + rest)
  }

  lemma ThenAssoc<T>(x: Result<seq<T>>, y: Result<seq<T>>, z: Result<seq<T>>)
    ensures Then(x, Then(y, z)) == Then(Then(x, y), z)
  {
    if x.Ok? && y.Ok? && z.Ok? {
      assert x.value + (y.value + z.value) == (x.value + y.value) + z.value;
    }
  }

  /** Walking one child is extracting that child. */
  lemma ExtractEachOne(kid: JVal, folderPath: string, bound: nat)
    requires Size(kid) < bound
    ensures ExtractEach([kid], folderPath, bound) == ExtractNode(kid, folderPath)
  {
    assert ExtractEach([kid][1..], folderPath, bound) == Ok([]);
    if ExtractNode(kid, folderPath).Ok? {
      assert ExtractNode(kid, folderPath).value + [] == ExtractNode(kid, folderPath).value;
    }
  }

  /** Walking `a + b` is walking `a`, then `b`: the records concatenate, and the
      first error (the earliest child that raises) is the one reported. */
  lemma {:induction false} ExtractEachAppend(a: seq<JVal>, b: seq<JVal>, folderPath: string, bound: nat)
    requires forall e :: e in a ==> Size(e) < bound
    requires forall e :: e in b ==> Size(e) < bound
    ensures ExtractEach(a + b, folderPath, bound)
         == Then(ExtractEach(a, folderPath, bound), ExtractEach(b, folderPath, bound))
    decreases |a|
  {
    var rb := ExtractEach(b, folderPath, bound);
    if a == [] {
      assert a + b == b;
      if rb.Ok? {
        assert [] + rb.value == rb.value;
      }
    } else {
      var ab := a + b;
      assert ab[0] == a[0];
      assert ab[1..] == a[1..] + b;
      ExtractEachAppend(a[1..], b, folderPath, bound);
      ThenAssoc(ExtractNode(a[0], folderPath), ExtractEach(a[1..], folderPath, bound), rb);
    }
  }

  /** A node carries a definition of its own. */
  predicate HasDefinition(fs: seq<(string, JVal)>) {
    HasKey(fs, "api") || HasKey(fs, "request")
  }

  /** Reference count: the nodes of the tree that carry a definition. */
  function DefCount(node: JVal): nat
    decreases Size(node), 1
  {
    match node
    case JObj(fs) =>
      var below := if Children(fs).Ok? then DefCountEach(Children(fs).value, Size(node)) else 0;
      below + (if HasDefinition(fs) then 1 else 0)
    case _ => 0
  }

  function DefCountEach(kids: seq<JVal>, bound: nat): nat
    requires forall e :: e in kids ==> Size(e) < bound
    decreases bound, 0, |kids|
  {
    if kids == [] then 0 else DefCount(kids[0]) + DefCountEach(kids[1..], bound)
  }

  /** No node is dropped and none is emitted twice: a successful walk yields
      exactly one record per node that carries a definition. */
  lemma {:induction false} ExtractCount(node: JVal, folderPath: string)
    requires ExtractNode(node, folderPath).Ok?
    ensures |ExtractNode(node, folderPath).value| == DefCount(node)
    decreases Size(node), 1
  {
    var fs := node.fields;
    ExtractEachCount(Children(fs).value, JoinPath(folderPath, NameOr(fs, "")), Size(node));
  }

  lemma {:induction false} ExtractEachCount(kids: seq<JVal>, folderPath: string, bound: nat)
    requires forall e :: e in kids ==> Size(e) < bound
    requires ExtractEach(kids, folderPath, bound).Ok?
    ensures |ExtractEach(kids, folderPath, bound).value| == DefCountEach(kids, bound)
    decreases bound, 0, |kids|
  {
    if kids != [] {
      ExtractCount(kids[0], folderPath);
      ExtractEachCount(kids[1..], folderPath, bound);
    }
  }

  /** A node with no children and neither `api` nor `request` is skipped
      silently. */
  lemma SkipsBareNode(fs: seq<(string, JVal)>, folderPath: string)
    requires !Truthy(SubItems(fs))
    requires !HasKey(fs, "api") && !HasKey(fs, "request")
    ensures ExtractNode(JObj(fs), folderPath) == Ok([])
  {
    assert ExtractEach([], JoinPath(folderPath, NameOr(fs, "")), Size(JObj(fs))) == Ok([]);
    assert ExtractNode(JObj(fs), folderPath).value == [];
  }

  /** A node without children yields exactly its own record; `api` wins over
      `request` when both are present. */
  lemma LeafEmitsItself(fs: seq<(string, JVal)>, folderPath: string)
    requires !Truthy(SubItems(fs))
    requires HasKey(fs, "api")
    ensures ExtractNode(JObj(fs), folderPath)
         == Ok([ApiRecord(NameOr(fs, "Unnamed"), folderPath, Get(fs, "api").value)])
  {
    assert ExtractEach([], JoinPath(folderPath, NameOr(fs, "")), Size(JObj(fs))) == Ok([]);
    var own := [ApiRecord(NameOr(fs, "Unnamed"), folderPath, Get(fs, "api").value)];
    assert [] + own == own;
    assert ExtractNode(JObj(fs), folderPath).value == [] + own;
  }

  /** The policy is non-exclusive: a folder that also carries a definition
      emits itself after all of its descendants, under its parent's folder path,
      and every descendant sits strictly below the folder's own path. */
  lemma FolderAlsoEmitsItself(fs: seq<(string, JVal)>, folderPath: string)
    requires Truthy(SubItems(fs)) && HasDefinition(fs)
    requires ExtractNode(JObj(fs), folderPath).Ok?
    ensures var rs := ExtractNode(JObj(fs), folderPath).value;
            && rs != []
            && rs[|rs| - 1].folderPath == folderPath
            && rs[|rs| - 1].name == NameOr(fs, "Unnamed")
            && forall k :: 0 <= k < |rs| - 1 ==>
                 Under(JoinPath(folderPath, NameOr(fs, "")), rs[k].folderPath)
  {
    assert |OwnRecords(fs, folderPath).value| == 1;
  }

  /** A children field that is set but cannot be iterated (a number or `true`)
      makes the walk raise. */
  lemma NonIterableChildrenRaise(fs: seq<(string, JVal)>, folderPath: string)
    requires Truthy(SubItems(fs))
    requires !(SubItems(fs).JArr? || SubItems(fs).JStr? || SubItems(fs).JObj?)
    ensures ExtractNode(JObj(fs), folderPath) == Raise(TypeError)
  {
  }

  /** A top-level folder holding a single endpoint and nothing else: the one
      record is the endpoint's, filed under the folder's name. */
  lemma FolderWithOneLeaf(afs: seq<(string, JVal)>, bfs: seq<(string, JVal)>,
                          folder: string, leaf: string, api: JVal)
    requires Get(bfs, "name") == Some(JStr(leaf)) && Get(bfs, "api") == Some(api)
    requires !HasKey(bfs, "items") && !HasKey(bfs, "item")
    requires Get(afs, "name") == Some(JStr(folder)) && !HasKey(afs, "items")
    requires Get(afs, "item") == Some(JArr([JObj(bfs)]))
    requires !HasDefinition(afs)
    ensures ExtractNode(JObj(afs), "") == Ok([ApiRecord(leaf, folder, api)])
  {
    var b := JObj(bfs);
    var rec := ApiRecord(leaf, folder, api);
    LeafEmitsItself(bfs, folder);
    assert Children(afs) == Ok([b]);
    ExtractEachOne(b, folder, Size(JObj(afs)));
    assert [rec] + [] == [rec];
  }

  /** A folder `A` holding one endpoint `B`: the record is named `B` and filed
      under the folder path `A`. */
  lemma FolderWithOneEndpoint(api: JVal)
    ensures var b := JObj([("name", JStr("B")), ("api", api)]);
            var a := JObj([("name", JStr("A")), ("item", JArr([b]))]);
            ExtractNode(a, "") == Ok([ApiRecord("B", "A", api)])
  {
    var bfs := [("name", JStr("B")), ("api", api)];
    var afs := [("name", JStr("A")), ("item", JArr([JObj(bfs)]))];
    GetAt(bfs, 0);
    GetAt(bfs, 1);
    GetAt(afs, 0);
    GetAt(afs, 1);
    assert !HasKey(bfs, "items") && !HasKey(bfs, "item");
    assert !HasKey(afs, "items") && !HasKey(afs, "api") && !HasKey(afs, "request");
    FolderWithOneLeaf(afs, bfs, "A", "B", api);
  }
}
