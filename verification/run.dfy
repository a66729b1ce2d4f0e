/**
 `main` after argument parsing: read the collections out of the decoded export,
 extract every endpoint, and give each one a disposition: written to
 `<category>/<sanitized name>.mdx`, skipped because its category was not
 requested, or counted as an error (invalid data, or a failure while rendering
 or writing). The run ends with a summary of the counts.
 */
module Run {
  import opened Json
  import opened Chars
  import Sanitize
  import Category
  import Extract

  /** `validate_api_data` on an extracted record's `api`: it must be set and
      have a non-empty `path`. An `api` that is set but is not an object makes
      the `path` lookup raise. */
  function Validate(api: JVal): (r: Result<bool>)
    ensures r.Raise? <==> Truthy(api) && !api.JObj?
    ensures r == Ok(true) <==> api.JObj? && Truthy(GetOr(api.fields, "path", JNull))
  {
    if !Truthy(api) then Ok(false)
    else if !api.JObj? then Raise(AttributeError)
    else Ok(Truthy(GetOr(api.fields, "path", JNull)))
  }

  /** A converted Postman request is valid exactly when its path is non-empty:
      always for a structured URL, and for a string URL unless it is empty. */
  lemma ConvertedValidates(item: seq<(string, JVal)>, request: JVal)
    requires Extract.Convert(item, request).Ok?
    ensures var url := Extract.UrlOf(request.fields);
            && (url.JObj? ==> Validate(Extract.Convert(item, request).value) == Ok(true))
            && (url.JStr? ==> (Validate(Extract.Convert(item, request).value) == Ok(true) <==> url.s != ""))
  {
    var url := Extract.UrlOf(request.fields);
    var api := Extract.Convert(item, request).value;
    Extract.ConvertFields(item, request);
    var path := Extract.UrlPath(url).value;
    ValidateByPath(api, path);
    if url.JObj? {
      assert path != "";
    }
  }

  lemma ValidateByPath(api: JVal, path: string)
    requires api.JObj? && Get(api.fields, "path") == Some(JStr(path))
    ensures Validate(api) == Ok(path != "")
  {
  }

  /** Where an endpoint's page goes, relative to the output directory: inside
      the directory of its category, a file named after the sanitized endpoint
      name with the `.mdx` extension. `SamePathIff` says the path determines
      both parts. */
  function OutputPath(t: CharTable, rec: Extract.ApiRecord): (r: string)
    ensures StartsWith(r, Category.Classify(t, rec.folderPath) + "/")
    ensures |r| == |Category.Classify(t, rec.folderPath)| + 1 + |Sanitize.Sanitize(t, rec.name)| + 4
    ensures r[|r| - 4..] == ".mdx"
    ensures r[|Category.Classify(t, rec.folderPath)| + 1..|r| - 4] == Sanitize.Sanitize(t, rec.name)
  {
    var c := Category.Classify(t, rec.folderPath);
    var n := Sanitize.Sanitize(t, rec.name);
    PagePathPrefix(c, n);
    c + "/" + n + ".mdx"
  }

  lemma PagePathPrefix(c: string, n: string)
    ensures StartsWith(c + "/" + n + ".mdx", c + "/")
  {
    assert c + "/" + n + ".mdx" == (c + "/") + (n + ".mdx");
  }

  lemma NoSlashInCategory(t: CharTable, folderPath: string)
    ensures '/' !in Category.Classify(t, folderPath)
  {
    NoSlashInNames(Category.Classify(t, folderPath));
  }

  lemma NoSlashInNames(c: string)
    requires c in Category.AllCategories()
    ensures '/' !in c
  {
    var all := Category.AllCategories();
    assert forall j :: 0 <= j < |all| ==> '/' !in all[j];
  }

  /** The position of the first `/` in `s`, or `|s|` when there is none. */
  function FirstSlash(s: string): (r: nat)
    ensures r <= |s|
  {
    if s == [] || s[0] == '/' then 0 else 1 + FirstSlash(s[1..])
  }

  lemma {:induction false} FirstSlashAfter(a: string, b: string)
    requires '/' !in a
    ensures FirstSlash(a + "/" + b) == |a|
    decreases |a|
  {
    if a != [] {
      assert (a + "/" + b)[1..] == a[1..] + "/" + b;
      FirstSlashAfter(a[1..], b);
    }
  }

  lemma SplitAtSlash(a1: string, b1: string, a2: string, b2: string)
    requires '/' !in a1 && '/' !in a2
    requires a1 + "/" + b1 == a2 + "/" + b2
    ensures a1 == a2 && b1 == b2
  {
    var s := a1 + "/" + b1;
    FirstSlashAfter(a1, b1);
    FirstSlashAfter(a2, b2);
    assert a1 == s[..|a1|] == a2;
    assert b1 == s[|a1| + 1..] == b2;
  }

  /** A page path splits back into its category directory and its file name. */
  lemma PagePathIff(c1: string, n1: string, c2: string, n2: string)
    requires '/' !in c1 && '/' !in c2
    ensures c1 + "/" + n1 + ".mdx" == c2 + "/" + n2 + ".mdx" <==> c1 == c2 && n1 == n2
  {
    if c1 + "/" + n1 + ".mdx" == c2 + "/" + n2 + ".mdx" {
      assert c1 + "/" + n1 + ".mdx" == c1 + "/" + (n1 + ".mdx");
      assert c2 + "/" + n2 + ".mdx" == c2 + "/" + (n2 + ".mdx");
      SplitAtSlash(c1, n1 + ".mdx", c2, n2 + ".mdx");
      assert n1 == (n1 + ".mdx")[..|n1|];
      assert n2 == (n2 + ".mdx")[..|n2|];
    }
  }

  /** Two endpoints get the same page exactly when they fall in the same
      category and their names sanitize to the same file name; the later one
      then overwrites the earlier. */
  lemma SamePathIff(t: CharTable, a: Extract.ApiRecord, b: Extract.ApiRecord)
    ensures OutputPath(t, a) == OutputPath(t, b) <==>
            Category.Classify(t, a.folderPath) == Category.Classify(t, b.folderPath)
            && Sanitize.Sanitize(t, a.name) == Sanitize.Sanitize(t, b.name)
  {
    NoSlashInCategory(t, a.folderPath);
    NoSlashInCategory(t, b.folderPath);
    PagePathIff(Category.Classify(t, a.folderPath), Sanitize.Sanitize(t, a.name),
                Category.Classify(t, b.folderPath), Sanitize.Sanitize(t, b.name));
  }

  /** What the main loop does with one extracted endpoint. */
  datatype Disposition =
    | Written(category: string, path: string)
    | Skipped
    | Invalid
    | Failed

  predicate IsError(d: Disposition) {
    d.Invalid? || d.Failed?
  }

  /** One iteration of the main loop. `allowed` is the requested category list
      and `rendered(rec)` says whether rendering the page and writing the file
      succeed. */
  function Dispose(t: CharTable, allowed: seq<string>, rendered: Extract.ApiRecord -> bool,
                   rec: Extract.ApiRecord): (d: Disposition)
    ensures d.Written? <==> Validate(rec.api) == Ok(true)
                            && Category.Classify(t, rec.folderPath) in allowed && rendered(rec)
    ensures d.Written? ==> d.category in allowed && d.path == OutputPath(t, rec)
                           && d.category == Category.Classify(t, rec.folderPath)
    ensures d.Skipped? <==> Validate(rec.api) == Ok(true) && Category.Classify(t, rec.folderPath) !in allowed
    ensures d.Invalid? <==> Validate(rec.api) == Ok(false)
    ensures IsError(d) <==> Validate(rec.api) != Ok(true)
                            || (Category.Classify(t, rec.folderPath) in allowed && !rendered(rec))
  {
    match Validate(rec.api)
    case Raise(_) => Failed
    case Ok(valid) =>
      if !valid then Invalid
      else
        var c := Category.Classify(t, rec.folderPath);
        if c !in allowed then Skipped
        else if !rendered(rec) then Failed
        else Written(c, OutputPath(t, rec))
  }

  function Dispositions(t: CharTable, allowed: seq<string>, rendered: Extract.ApiRecord -> bool,
                        recs: seq<Extract.ApiRecord>): (ds: seq<Disposition>)
    ensures |ds| == |recs|
    ensures forall i :: 0 <= i < |recs| ==> ds[i] == Dispose(t, allowed, rendered, recs[i])
  {
    seq(|recs|, i requires 0 <= i < |recs| => Dispose(t, allowed, rendered, recs[i]))
  }

  /** The files written, in order. */
  function WrittenPaths(ds: seq<Disposition>): seq<string> {
    if ds == [] then []
    else
      var last := ds[|ds| - 1];
      WrittenPaths(ds[..|ds| - 1]) + (if last.Written? then [last.path] else [])
  }

  /** How many pages were written under `category`. */
  function CountIn(ds: seq<Disposition>, category: string): nat {
    if ds == [] then 0
    else
      var last := ds[|ds| - 1];
      CountIn(ds[..|ds| - 1], category) + (if last.Written? && last.category == category then 1 else 0)
  }

  function CountWhere(ds: seq<Disposition>, p: Disposition -> bool): nat {
    if ds == [] then 0
    else CountWhere(ds[..|ds| - 1], p) + (if p(ds[|ds| - 1]) then 1 else 0)
  }

  function ErrorCount(ds: seq<Disposition>): nat {
    CountWhere(ds, IsError)
  }

  lemma SnocPrefix<T>(s: seq<T>, x: T)
    ensures (s + [x])[..|s|] == s && (s + [x])[|s|] == x
  {
  }

  /** What one more disposition adds to each tally. */
  lemma Step(ds: seq<Disposition>, d: Disposition)
    ensures WrittenPaths(ds + [d]) == WrittenPaths(ds) + (if d.Written? then [d.path] else [])
    ensures forall c :: CountIn(ds + [d], c) == CountIn(ds, c) + (if d.Written? && d.category == c then 1 else 0)
    ensures ErrorCount(ds + [d]) == ErrorCount(ds) + (if IsError(d) then 1 else 0)
  {
    SnocPrefix(ds, d);
  }

  /** The bookkeeping of one loop iteration: a written page bumps its
      category's counter, an error bumps the error count. */
  method Tally(d: Disposition, files: seq<string>, generated: map<string, nat>, errors: nat)
    returns (files': seq<string>, generated': map<string, nat>, errors': nat)
    requires d.Written? ==> d.category in generated
    ensures files' == files + (if d.Written? then [d.path] else [])
    ensures forall c :: c in generated' <==> c in generated
    ensures forall c :: c in generated' ==>
              generated'[c] == generated[c] + (if d.Written? && d.category == c then 1 else 0)
    ensures errors' == errors + (if IsError(d) then 1 else 0)
  {
    files', generated', errors' := files, generated, errors;
    if d.Written? {
      files' := files + [d.path];
      generated' := generated[d.category := generated[d.category] + 1];
    } else if IsError(d) {
      errors' := errors + 1;
    }
  }

  /** The counters of the main loop, accumulated over the dispositions in
      order. */
  method TallyAll(allowed: seq<string>, ds: seq<Disposition>)
    returns (files: seq<string>, generated: map<string, nat>, errors: nat)
    requires forall k :: 0 <= k < |ds| && ds[k].Written? ==> ds[k].category in allowed
    ensures files == WrittenPaths(ds)
    ensures forall c :: c in generated <==> c in allowed
    ensures forall c :: c in generated ==> generated[c] == CountIn(ds, c)
    ensures errors == ErrorCount(ds)
  {
    files := [];
    generated := map c | c in allowed :: 0;
    errors := 0;
    var i := 0;
    while i < |ds|
      invariant 0 <= i <= |ds|
      invariant files == WrittenPaths(ds[..i])
      invariant forall c :: c in generated <==> c in allowed
      invariant forall c :: c in generated ==> generated[c] == CountIn(ds[..i], c)
      invariant errors == ErrorCount(ds[..i])
    {
      assert ds[..i + 1] == ds[..i] + [ds[i]];
      Step(ds[..i], ds[i]);
      files, generated, errors := Tally(ds[i], files, generated, errors);
      i := i + 1;
    }
    assert ds[..i] == ds;
  }

  /** The main loop over all extracted endpoints: each one's disposition,
      then the pages written, the per-category counters and the error count. */
  method Generate(t: CharTable, allowed: seq<string>, rendered: Extract.ApiRecord -> bool,
                  recs: seq<Extract.ApiRecord>)
    returns (files: seq<string>, generated: map<string, nat>, errors: nat)
    ensures var ds := Dispositions(t, allowed, rendered, recs);
            && files == WrittenPaths(ds)
            && (forall c :: c in generated <==> c in allowed)
            && (forall c :: c in generated ==> generated[c] == CountIn(ds, c))
            && errors == ErrorCount(ds)
  {
    var ds := Dispositions(t, allowed, rendered, recs);
    files, generated, errors := TallyAll(allowed, ds);
  }

  /** Every endpoint gets exactly one disposition: pages written, endpoints
      skipped and errors add up to the number of endpoints. */
  lemma {:induction false} DispositionsPartition(ds: seq<Disposition>)
    ensures |WrittenPaths(ds)| + CountWhere(ds, (d: Disposition) => d.Skipped?) + ErrorCount(ds) == |ds|
    decreases |ds|
  {
    if ds != [] {
      DispositionsPartition(ds[..|ds| - 1]);
    }
  }

  /** With the default category list (all of them), no endpoint is skipped. */
  lemma DefaultSkipsNothing(t: CharTable, rendered: Extract.ApiRecord -> bool, recs: seq<Extract.ApiRecord>)
    ensures forall d :: d in Dispositions(t, Category.AllCategories(), rendered, recs) ==> !d.Skipped?
  {
  }

  /** `sum(generated.values())`, for a category list without repeats. */
  function Total(cats: seq<string>, ds: seq<Disposition>): nat {
    if cats == [] then 0 else CountIn(ds, cats[0]) + Total(cats[1..], ds)
  }

  /** How many entries of `cats` the disposition `d` counts towards. */
  function Hits(cats: seq<string>, d: Disposition): nat {
    if cats == [] then 0
    else (if d.Written? && d.category == cats[0] then 1 else 0) + Hits(cats[1..], d)
  }

  lemma {:induction false} TotalSnoc(cats: seq<string>, ds: seq<Disposition>, d: Disposition)
    ensures Total(cats, ds + [d]) == Total(cats, ds) + Hits(cats, d)
    decreases |cats|
  {
    SnocPrefix(ds, d);
    if cats != [] {
      TotalSnoc(cats[1..], ds, d);
    }
  }

  predicate Distinct(cats: seq<string>) {
    forall i, j :: 0 <= i < j < |cats| ==> cats[i] != cats[j]
  }

  lemma {:induction false} HitsOnce(cats: seq<string>, d: Disposition)
    requires Distinct(cats)
    requires d.Written? ==> d.category in cats
    ensures Hits(cats, d) == if d.Written? then 1 else 0
    decreases |cats|
  {
    if cats != [] {
      assert Distinct(cats[1..]) by {
        forall i, j | 0 <= i < j < |cats[1..]|
          ensures cats[1..][i] != cats[1..][j]
        {
          assert cats[1..][i] == cats[i + 1] && cats[1..][j] == cats[j + 1];
        }
      }
      if d.Written? && d.category == cats[0] {
        assert d.category !in cats[1..] by {
          forall j | 0 <= j < |cats[1..]|
            ensures cats[1..][j] != d.category
          {
            assert cats[1..][j] == cats[j + 1];
          }
        }
        HitsZero(cats[1..], d);
      } else {
        HitsOnce(cats[1..], d);
      }
    }
  }

  lemma {:induction false} HitsZero(cats: seq<string>, d: Disposition)
    requires !d.Written? || d.category !in cats
    ensures Hits(cats, d) == 0
    decreases |cats|
  {
    if cats != [] {
      HitsZero(cats[1..], d);
    }
  }

  /** The summary's document total, the sum of the per-category counters,
      equals the number of pages written, because every page is counted under
      exactly one requested category. */
  lemma {:induction false} SumIsTotal(cats: seq<string>, ds: seq<Disposition>)
    requires Distinct(cats)
    requires forall k :: 0 <= k < |ds| && ds[k].Written? ==> ds[k].category in cats
    ensures Total(cats, ds) == |WrittenPaths(ds)|
    decreases |ds|
  {
    if ds == [] {
      TotalEmpty(cats);
    } else {
      var init := ds[..|ds| - 1];
      var last := ds[|ds| - 1];
      assert ds == init + [last];
      SumIsTotal(cats, init);
      TotalSnoc(cats, init, last);
      HitsOnce(cats, last);
    }
  }

  lemma {:induction false} TotalEmpty(cats: seq<string>)
    ensures Total(cats, []) == 0
    decreases |cats|
  {
    if cats != [] {
      TotalEmpty(cats[1..]);
    }
  }

  /** `apifox_data.get('item', apifox_data.get('apiCollection', []))`. */
  function Collections(data: JVal): (r: Result<JVal>)
    ensures !data.JObj? ==> r == Raise(AttributeError)
    ensures data.JObj? && HasKey(data.fields, "item") ==> r == Ok(Get(data.fields, "item").value)
    ensures data.JObj? && !HasKey(data.fields, "item") && HasKey(data.fields, "apiCollection") ==>
      r == Ok(Get(data.fields, "apiCollection").value)
    ensures data.JObj? && !HasKey(data.fields, "item") && !HasKey(data.fields, "apiCollection") ==> r == Ok(JArr([]))
  {
    if !data.JObj? then Raise(AttributeError)
    else Ok(GetOr(data.fields, "item", GetOr(data.fields, "apiCollection", JArr([]))))
  }

  /** Every top-level collection walked from the empty folder path, in order;
      `ExtractAllAppend` and `ExtractAllOne` pin the result down. */
  function ExtractAll(colls: seq<JVal>): (r: Result<seq<Extract.ApiRecord>>)
    ensures colls == [] ==> r == Ok([])
    ensures r.Ok? ==> |r.value| == DefCountAll(colls)
  {
    if colls == [] then Ok([])
    else
      var first := Extract.ExtractNode(colls[0], "");
      match first
      case Raise(e) => Raise(e)
      case Ok(_) =>
        Extract.ExtractCount(colls[0], "");
        Extract.Then(first, ExtractAll(colls[1..]))
  }

  /** The walk succeeds exactly when no collection raises. */
  lemma {:induction false} ExtractAllOk(colls: seq<JVal>)
    ensures ExtractAll(colls).Ok? <==> forall i :: 0 <= i < |colls| ==> Extract.ExtractNode(colls[i], "").Ok?
    decreases |colls|
  {
    if colls != [] {
      ExtractAllOk(colls[1..]);
      assert forall i :: 1 <= i < |colls| ==> colls[1..][i - 1] == colls[i];
    }
  }

  /** Reference count: the nodes carrying a definition, over all collections. */
  function DefCountAll(colls: seq<JVal>): nat {
    if colls == [] then 0 else Extract.DefCount(colls[0]) + DefCountAll(colls[1..])
  }

  lemma ExtractAllOne(coll: JVal)
    ensures ExtractAll([coll]) == Extract.ExtractNode(coll, "")
  {
    assert [coll][1..] == [];
    if Extract.ExtractNode(coll, "").Ok? {
      assert Extract.ExtractNode(coll, "").value + [] == Extract.ExtractNode(coll, "").value;
    }
  }

  /** The records of `a + b` are those of `a` followed by those of `b`; the
      first collection that raises ends the run. */
  lemma {:induction false} ExtractAllAppend(a: seq<JVal>, b: seq<JVal>)
    ensures ExtractAll(a + b) == Extract.Then(ExtractAll(a), ExtractAll(b))
    decreases |a|
  {
    var rb := ExtractAll(b);
    if a == [] {
      assert a + b == b;
      if rb.Ok? {
        assert [] + rb.value == rb.value;
      }
    } else {
      var ab := a + b;
      assert ab[0] == a[0];
      assert ab[1..] == a[1..] + b;
      ExtractAllAppend(a[1..], b);
      Extract.ThenAssoc(Extract.ExtractNode(a[0], ""), ExtractAll(a[1..]), rb);
    }
  }

  /** `collections` read from the export, iterated, and walked: every endpoint
      the export defines, or the exception that escapes. */
  function Endpoints(data: JVal): (r: Result<seq<Extract.ApiRecord>>)
    ensures !data.JObj? ==> r == Raise(AttributeError)
    ensures r.Ok? <==>
      && data.JObj? && Iterate(Collections(data).value).Ok?
      && var items := Iterate(Collections(data).value).value;
         forall i :: 0 <= i < |items| ==> Extract.ExtractNode(items[i], "").Ok?
    ensures r.Ok? ==> |r.value| == DefCountAll(Iterate(Collections(data).value).value)
  {
    match Collections(data)
    case Raise(e) => Raise(e)
    case Ok(colls) =>
      match Iterate(colls)
      case Raise(e) => Raise(e)
      case Ok(items) =>
        ExtractAllOk(items);
        ExtractAll(items)
  }

  /** The counts written to `_summary.json` (the timestamp is left out). */
  datatype Summary = Summary(totalApis: nat, generatedDocs: nat, categories: map<string, nat>, errors: nat)

  /** How a run ends: the input could not be read or parsed (exit status 1),
      an exception escaped the extraction, nothing was found, or the pages were
      generated. */
  datatype Outcome =
    | BadInput
    | Crashed(error: PyError)
    | NoApis
    | Done(files: seq<string>, summary: Summary)

  /** The summary of a run over `recs` whose dispositions are `ds`: one
      counter per requested category, and totals in which every endpoint is
      either written, skipped or an error. */
  function Summarize(allowed: seq<string>, recs: seq<Extract.ApiRecord>, ds: seq<Disposition>): (r: Summary)
    requires |ds| == |recs|
    ensures r.totalApis == |recs|
    ensures r.generatedDocs == |WrittenPaths(ds)|
    ensures r.generatedDocs + CountWhere(ds, (d: Disposition) => d.Skipped?) + r.errors == r.totalApis
    ensures forall c :: c in r.categories <==> c in allowed
    ensures forall c :: c in r.categories ==> r.categories[c] == CountIn(ds, c)
    ensures r.errors == ErrorCount(ds)
  {
    DispositionsPartition(ds);
    Summary(|recs|, |WrittenPaths(ds)|, map c | c in allowed :: CountIn(ds, c), ErrorCount(ds))
  }

  /** `main()` from loading the export to the summary. `input` is the decoded
      file, or `None` when it is missing or is not JSON. */
  function RunMain(t: CharTable, input: Option<JVal>, allowed: seq<string>,
                   rendered: Extract.ApiRecord -> bool): (o: Outcome)
    ensures input.None? <==> o.BadInput?
    ensures input.Some? && !input.value.JObj? ==> o == Crashed(AttributeError)
    ensures input.Some? ==> (o.Crashed? <==> Endpoints(input.value).Raise?)
    ensures input.Some? ==> (o.NoApis? <==> Endpoints(input.value) == Ok([]))
    ensures input.Some? && Endpoints(input.value).Ok? ==>
      (o.NoApis? <==> DefCountAll(Iterate(Collections(input.value).value).value) == 0)
    ensures o.Done? ==>
      && input.Some? && Endpoints(input.value).Ok?
      && var recs := Endpoints(input.value).value;
         var ds := Dispositions(t, allowed, rendered, recs);
         && o.files == WrittenPaths(ds)
         && o.summary == Summarize(allowed, recs, ds)
         && o.summary.generatedDocs == |o.files|
    ensures o.Done? ==> o.summary.generatedDocs + o.summary.errors <= o.summary.totalApis
    ensures o.Done? ==> o.summary.totalApis > 0
    ensures o.Done? ==> forall k :: 0 <= k < |o.files| ==>
              InSomeCategory(allowed, o.files[k])
  {
    if input.None? then BadInput
    else
      match Endpoints(input.value)
      case Raise(e) => Crashed(e)
      case Ok(recs) =>
        if recs == [] then NoApis
        else
          var ds := Dispositions(t, allowed, rendered, recs);
          WrittenUnderAllowed(t, allowed, rendered, recs);
          Done(WrittenPaths(ds), Summarize(allowed, recs, ds))
  }

  /** `path` lies in the directory of one of the `allowed` categories. */
  predicate InSomeCategory(allowed: seq<string>, path: string) {
    exists c :: c in allowed && StartsWith(path, c + "/")
  }

  lemma WrittenUnderAllowed(t: CharTable, allowed: seq<string>, rendered: Extract.ApiRecord -> bool,
                            recs: seq<Extract.ApiRecord>)
    ensures var files := WrittenPaths(Dispositions(t, allowed, rendered, recs));
            forall k :: 0 <= k < |files| ==> InSomeCategory(allowed, files[k])
  {
    var ds := Dispositions(t, allowed, rendered, recs);
    forall k | 0 <= k < |ds| && ds[k].Written?
      ensures ds[k].category in allowed && StartsWith(ds[k].path, ds[k].category + "/")
    {
      assert ds[k].path == OutputPath(t, recs[k]);
    }
    WrittenPathsUnder(allowed, ds);
  }

  lemma {:induction false} WrittenPathsUnder(allowed: seq<string>, ds: seq<Disposition>)
    requires forall k :: 0 <= k < |ds| && ds[k].Written? ==>
               ds[k].category in allowed && StartsWith(ds[k].path, ds[k].category + "/")
    ensures forall k :: 0 <= k < |WrittenPaths(ds)| ==>
              InSomeCategory(allowed, WrittenPaths(ds)[k])
    decreases |ds|
  {
    if ds != [] {
      var init := ds[..|ds| - 1];
      var last := ds[|ds| - 1];
      assert ds == init + [last];
      Step(init, last);
      assert forall k :: 0 <= k < |init| ==> init[k] == ds[k];
      WrittenPathsUnder(allowed, init);
      forall k | 0 <= k < |WrittenPaths(ds)|
        ensures InSomeCategory(allowed, WrittenPaths(ds)[k])
      {
        if k < |WrittenPaths(init)| {
          assert WrittenPaths(ds)[k] == WrittenPaths(init)[k];
        } else {
          assert WrittenPaths(ds)[k] == last.path;
          assert last.category in allowed && StartsWith(last.path, last.category + "/");
        }
      }
    }
  }
}
