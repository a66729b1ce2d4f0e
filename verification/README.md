# generate_docs.py, modelled in Dafny

`generate_docs.py` turns an Apifox/Postman JSON export into Mintlify MDX pages,
one page per API endpoint. This project models the part of it that decides
which endpoints exist, where each page goes and how request-body parameters
are described, and proves properties of that model:

- **Json**: decoded JSON values (`JVal`), Python truthiness, `dict.get`
  (first member with the key), `for x in v` over lists, strings and dicts, and
  Python exceptions as `Result` values (`Raise(AttributeError)` and so on).
- **Chars**: the character classes and case mappings the code relies on.
  Unicode `\w`, `lower()`, `title()` and "is cased" come from a `CharTable`. The
  predicate `Coherent` pins that table to Python's behaviour on ASCII; lemmas
  that need it take it as a precondition.
- **Sanitize**: `sanitize_filename`, the page file name.
- **Category**: `get_category` and `get_all_categories`, the keyword rules
  checked in priority order.
- **Params**: `infer_type_from_value`, `get_param_description`,
  `parse_json_example` and `parse_request_body_params`.
- **Escape**: `escape_mdx_string`.
- **Render**: two pieces of `generate_api_doc`. One is the full request URL.
  The other is the placeholder example body built from a response's JSON schema.
- **Extract**: `extract_apis_recursive`, including the conversion of a Postman
  `request` into the internal `api` shape.
- **Run**: the per-endpoint loop of `main`, with validation, category filter,
  output path, counters and errors. It also covers the run as a whole, from the
  decoded export to the summary counts.

`json.loads` is a parameter `decode: string -> Option<JVal>`. Rendering a page
and writing it is a parameter `rendered: ApiRecord -> bool`, which says whether
both succeed. The base URL is a parameter.

A Postman string URL is copied into `path` verbatim; no variable in it is
substituted (`Extract.UrlPath`).

Two endpoints whose categories match and whose names sanitize to the same
segment get the same page path (`Run.SamePathIff`). The later one overwrites
the earlier, and both are counted as generated.

## Model

| member | source | states |
|---|---|---|
| Sanitize.Sanitize | generate_docs.py:61-69 | The file name is never empty and neither starts nor ends with `-`; it is the fallback `unnamed` when the lower-cased name has no word character, and otherwise its non-separator characters are exactly the word characters of the lower-cased name, in order |
| Sanitize.KeepAllowed | generate_docs.py:65 | A one-character string is kept iff its character is a word character, whitespace or `-`, and deleted otherwise; every kept character is of that kind |
| Sanitize.KeepAllowedAppend | generate_docs.py:65 | The filter works character by character: filtering `a + b` is filtering `a`, then `b` |
| Sanitize.KeepAllowedFromInput | generate_docs.py:65 | Every kept character occurs in the input |
| Sanitize.KeepAllowedWords | generate_docs.py:65 | Leaving separators aside, the filter keeps exactly the word characters of its input, in order |
| Sanitize.Collapse | generate_docs.py:67 | Each output character is `-` or a non-separator, there is no `--`, the output is empty iff the input is, it starts with `-` iff the input starts with a separator, and its non-separator characters are exactly those of the input, in order; where the hyphens go is stated by `CollapseWord` and `CollapseRun` |
| Sanitize.CollapseFromInput | generate_docs.py:67 | Every output character other than `-` occurs in the input |
| Sanitize.CollapseWord | generate_docs.py:67 | A stretch without separators passes through in place: collapsing `w + rest` gives `w` followed by the collapse of `rest` |
| Sanitize.CollapseRun | generate_docs.py:67 | A maximal run of separators (one or more, followed by the end or a non-separator) becomes exactly one `-` in place: collapsing `seps + rest` gives `-` followed by the collapse of `rest`; with `CollapseWord` this fixes the result on every input |
| Sanitize.StripHyphens | generate_docs.py:69 | The input is a run of hyphens, then the result, then another run of hyphens, and the result neither starts nor ends with `-` |
| Sanitize.StripKeepsWords | generate_docs.py:69 | Trimming removes hyphens only: the non-separator characters are unchanged |
| Sanitize.FallbackClean | generate_docs.py:62 | The fallback `unnamed` is itself a clean segment |
| Sanitize.SanitizeIsClean | generate_docs.py:61-69 | The result holds only lower-case word characters and `-`, has no `--` and no `-` at either end |
| Sanitize.CleanIsFixed | generate_docs.py:61-69 | A clean segment is left unchanged by the sanitizer |
| Sanitize.SanitizeIdempotent | generate_docs.py:61-69 | Sanitizing twice equals sanitizing once |
| Sanitize.FixedIffClean | generate_docs.py:61-69 | A string is a fixed point of the sanitizer iff it is a clean segment |
| Sanitize.NoSlash | generate_docs.py:776-777 | A sanitized name contains no `/`, so it never opens a sub-directory |
| Sanitize.SanitizeExample | generate_docs.py:61-69 | With ASCII tables, `GPT Image / Gen!!` becomes `gpt-image-gen` |
| Category.AllCategories | generate_docs.py:150-160 | Fifteen distinct names: the fourteen rule categories in rule order, then `other` |
| Category.FirstMatch | generate_docs.py:142-145 | Returns the first rule, at or after the start, with a keyword in the path, or the rule count when none matches |
| Category.Classify | generate_docs.py:117-148 | The category is always one of `get_all_categories()`, and the empty path gives `other` |
| Category.ClassifyIsFirstMatch | generate_docs.py:117-148 | The result is `other` iff the path is empty or no rule matches the lower-cased path; otherwise it is the matching rule whose predecessors all fail |
| Category.OpenAIBeatsClaude | generate_docs.py:124-126 | Any OpenAI keyword in the path gives `openai`, even when a Claude keyword is present too |
| Category.ClaudeWithoutOpenAI | generate_docs.py:126 | A Claude keyword with no OpenAI keyword gives `claude` |
| Category.ClassifyMonotone | generate_docs.py:121-145 | Appending to a folder path never moves an endpoint to a later category in priority order |
| Params.InferType | generate_docs.py:162-175 | The tag is one of the six tags; `boolean` iff the value is a bool (never `integer`), `integer` iff an int, `number` iff a float, `array`, `object`, and `string` for strings and null |
| Params.UnderscoresToSpaces | generate_docs.py:194 | Same length; each `_` becomes a space and every other character is kept |
| Params.Title | generate_docs.py:194 | Same length; a character right after a cased character is lower-cased, every other character is title-cased |
| Params.TitlePositions | generate_docs.py:194 | Each character of the title-cased text is lower-cased after a cased character and title-cased otherwise |
| Params.Describe | generate_docs.py:177-194 | A curated key gets its curated text; any other key gets text of the key's length followed by ` parameter` |
| Params.DescribeUnknown | generate_docs.py:194 | For an uncurated key, position by position: `_` becomes a space, a character after a cased non-`_` character is lower-cased, and any other is title-cased |
| Params.ParamOf | generate_docs.py:215-228 | The entry keeps the key and its value, and is required iff the key is `model`, `messages`, `prompt` or `input` |
| Params.ParamsOf | generate_docs.py:215-228 | One entry per member of the example object, in member order |
| Params.ParseExample | generate_docs.py:81-89 | A string is decoded, and one that fails to decode gives `{}`; a dict is kept; anything else gives `{}` |
| Params.First | generate_docs.py:208 | `examples[0]`: the first element of a list, the first character of a string; a dict raises `KeyError` and any other value `TypeError` |
| Params.FirstExample | generate_docs.py:204-209 | Empty or missing examples give none; a list whose first element is a dict gives the parsed `value` of that element (`{}` when absent); a first element that is not a dict, or a string list of examples, raises `AttributeError`; a dict raises `KeyError`; anything else `TypeError` |
| Params.ExampleObject | generate_docs.py:200-209 | An empty body gives no example; a set body that is not a dict raises; a body whose `type` is not `application/json` gives no example; otherwise the example is the first example of `examples` (default `[]`) |
| Params.BodyParams | generate_docs.py:196-230 | An empty body, a non-JSON type or no examples give `[]`; a set non-dict body raises; the parameters raise exactly when reading the example raises; a non-empty result is one entry per member of the example object, which the example read from a JSON body is |
| Params.BodyParamsOfObject | generate_docs.py:196-228 | For any JSON body (any member order, any other members) whose `examples` list starts with a dict whose `value` parses to an object, the parameters are one entry per key of that object, in order, with its inferred type, its description and the required flag |
| Params.BodyParamsOfNonObject | generate_docs.py:208-212 | A first example that parses to something other than an object gives no parameters and no error |
| Params.OnlyFirstExample | generate_docs.py:207-209 | Examples after the first do not change the parameters |
| Escape.EscapeQuotes | generate_docs.py:245 | Escaping never shortens the text |
| Escape.RemoveControls | generate_docs.py:247 | A control character (U+0000 to U+001F, U+007F) alone is deleted and any other character alone is kept; no output character is a control character and every one comes from the input |
| Escape.RemoveControlsAppend | generate_docs.py:247 | Deleting control characters works character by character: `a + b` gives the result for `a`, then the result for `b` |
| Escape.RemoveControlsKeepsPlain | generate_docs.py:247 | Text without control characters is unchanged |
| Escape.EscapeMdx | generate_docs.py:241-242 | Empty text gives empty text |
| Escape.EscapeQuotesEscapes | generate_docs.py:245 | After escaping, every `'` is immediately preceded by `\` |
| Escape.EscapeCommutes | generate_docs.py:245-247 | Removing control characters and escaping quotes commute |
| Escape.UnescapeEscape | generate_docs.py:245 | Removing the inserted backslashes gives back the original text |
| Escape.EscapeMdxProperties | generate_docs.py:241-249 | The output has no control character and every `'` is preceded by `\`; unescaping it gives the input minus its control characters |
| Render.FullUrl | generate_docs.py:301-304 | A path starting with `http` is kept; otherwise the URL is the base followed by the path; the path always ends the URL |
| Render.Placeholder | generate_docs.py:487-497 | `string` gives `example_<name>`, `number` and `integer` give `0`, `boolean` gives `true`, `array` gives `[]`, and any other type gives `{}` |
| Render.PlaceholderTypeAgrees | generate_docs.py:487-497 | The placeholder's inferred type is the declared type, except that `number` gives `integer` and an unknown type gives `object` |
| Render.Placeholders | generate_docs.py:486-497 | Raises `AttributeError` iff some property's info is not a dict; otherwise one placeholder per property, in order, with a missing `type` read as `string` |
| Render.ExampleBody | generate_docs.py:482-502 | No schema or no properties gives the `status: success` body; a set non-dict schema or a set non-dict `properties` raises, as does a property whose info is not a dict; any other body is exactly the placeholders of the schema's properties, in order |
| Extract.SubItems | generate_docs.py:574 | The children are `items` when that is set and non-empty, else `item` |
| Extract.JoinPath | generate_docs.py:576-577 | At the top level the children's folder path is the folder's name; below it, it is the parent path, `/`, then the name |
| Extract.NameOr | generate_docs.py:576 | A string `name` is used as it is; a missing name gives the default |
| Extract.UrlPath | generate_docs.py:592-599 | A string URL is the path verbatim; any other non-dict URL raises; a structured URL gives `/` when its `path` is unset or empty; otherwise it succeeds iff the `path` can be iterated and yields only strings (a list's elements, a string's characters, a dict's keys), giving `/` and those strings joined with `/`; a non-string part raises `TypeError` |
| Extract.SplitJoin | generate_docs.py:599 | Joined path parts without `/` split back into the same parts |
| Extract.Convert | generate_docs.py:589-620 | A non-dict request raises; otherwise the conversion succeeds iff the URL converts and the body is empty or a dict |
| Extract.RequestShapeFields | generate_docs.py:601-620 | The converted object holds the method, path, description and parameters given; it has `requestBody` iff the body is raw, with the raw text as its single example |
| Extract.ConvertFields | generate_docs.py:589-620 | The method defaults to `GET`; query and path variables are copied only from a structured URL; `requestBody` is present iff the body mode is `raw`, with `raw` (default `{}`) as its only example |
| Extract.OwnRecords | generate_docs.py:583-626 | `api` wins over `request` and is used as is; with only `request`, the node emits one record holding the converted request, and raises exactly when the conversion raises; a node with neither emits nothing; every record is filed under the path the node was reached with |
| Extract.Children | generate_docs.py:574-580 | No children when the children field is unset or empty; otherwise iterating it, every child smaller than the node |
| Extract.ExtractNode | generate_docs.py:559-628 | A non-dict node raises, as does one whose children cannot be iterated or whose own conversion raises; a successful walk returns the children's records, all filed at or below the folder's own path, followed by the node's own records |
| Extract.ExtractEach | generate_docs.py:579-580 | The children's records all lie at or below the path handed to them; no children give no records |
| Extract.Then | generate_docs.py:579-580 | Sequencing two walks: the first error wins, else the records concatenate |
| Extract.ExtractEachOne | generate_docs.py:579-580 | Walking a single child is extracting that child |
| Extract.ExtractEachAppend | generate_docs.py:579-580 | Walking `a + b` is walking `a` and then `b`: records concatenate in order and the first child that raises ends the walk |
| Extract.ExtractCount | generate_docs.py:571-628 | A successful walk emits exactly one record per node in the tree that has `api` or `request` |
| Extract.SkipsBareNode | generate_docs.py:574-628 | A node with no children and neither `api` nor `request` emits nothing |
| Extract.LeafEmitsItself | generate_docs.py:583-588 | A node with `api` and no children emits exactly its own record, named `Unnamed` by default |
| Extract.FolderAlsoEmitsItself | generate_docs.py:574-588 | A folder with a definition emits itself last, under its parent's path, after descendants filed under the folder's own path |
| Extract.NonIterableChildrenRaise | generate_docs.py:574-579 | A children field that is set but not iterable raises `TypeError` |
| Extract.FolderWithOneLeaf | generate_docs.py:574-588 | A top-level folder holding a single endpoint yields exactly that endpoint's record, filed under the folder's name |
| Extract.FolderWithOneEndpoint | generate_docs.py:574-588 | Folder `A` holding endpoint `B` yields one record named `B` under folder path `A` |
| Run.Validate | generate_docs.py:260-273 | Valid iff `api` is a dict with a non-empty `path`; a set `api` that is not a dict raises |
| Run.ConvertedValidates | generate_docs.py:592-599 | A converted request with a structured URL always validates; one with a string URL validates iff the URL is non-empty |
| Run.OutputPath | generate_docs.py:776-777 | The page path is the category directory, `/`, the sanitized endpoint name, then `.mdx`: it starts with the category and `/`, ends with `.mdx`, and what lies between is exactly the sanitized name |
| Run.SamePathIff | generate_docs.py:776-777 | Two endpoints share a page path iff they share a category and a sanitized name |
| Run.Dispose | generate_docs.py:763-794 | A page is written iff the record is valid, its category was requested and rendering succeeds, under `<category>/<name>.mdx`; skipped iff valid but not requested; an error iff invalid, raising, or failing to render |
| Run.Dispositions | generate_docs.py:763 | One disposition per endpoint, in order |
| Run.Tally | generate_docs.py:767-793 | A written page adds its path and bumps its category's counter; an error bumps the error count; nothing else changes |
| Run.TallyAll | generate_docs.py:760-794 | Folding the dispositions in order lists exactly the written paths; the counters are keyed by exactly the requested categories, each holding the number of pages written under it; the error count is the number of invalid or failed dispositions |
| Run.Generate | generate_docs.py:760-794 | The loop writes exactly the pages of the dispositions, in order; the counters hold one entry per requested category with its page count; the error count is the number of error dispositions |
| Run.DispositionsPartition | generate_docs.py:763-794 | Pages written, endpoints skipped and errors add up to the number of endpoints |
| Run.DefaultSkipsNothing | generate_docs.py:667 | With the default category list no endpoint is skipped |
| Run.SumIsTotal | generate_docs.py:805 | The sum of the per-category counters equals the number of pages written |
| Run.Summarize | generate_docs.py:760-822 | The summary counts every endpoint; its document total is the number of pages written; written, skipped and errors add up to the total; there is one counter per requested category, holding that category's page count |
| Run.Collections | generate_docs.py:738 | `item` wins over `apiCollection`; without `item`, `apiCollection` is used; neither gives `[]`; a non-dict export raises |
| Run.ExtractAll | generate_docs.py:740-741 | No collections give no endpoints; a successful extraction yields one record per node carrying a definition, over all collections |
| Run.ExtractAllOk | generate_docs.py:740-741 | The extraction succeeds iff walking every collection from the empty folder path succeeds |
| Run.ExtractAllOne | generate_docs.py:740-741 | One collection gives exactly the records of walking it from the empty folder path |
| Run.ExtractAllAppend | generate_docs.py:740-741 | The records of `a + b` are those of `a` followed by those of `b`; the first collection that raises ends the run |
| Run.Endpoints | generate_docs.py:738-741 | A non-dict export raises; the endpoints are found iff the collections iterate and every walk succeeds, and then there is one per node carrying a definition |
| Run.RunMain | generate_docs.py:714-822 | An unreadable input ends the run with status 1; an escaping exception is exactly an extraction that raises; the run stops with nothing found exactly when the extraction succeeds with no node carrying a definition; a finished run lists the pages its dispositions write, its summary is that of those dispositions, its document total is the number of pages, and every page lies under a requested category's directory |
| Run.WrittenUnderAllowed | generate_docs.py:776-777 | Every written page lies in the directory of a requested category |

## Left out

- Argument parsing, `--list-categories`, directory creation, logging, and the
  file reads and writes are I/O; `rendered` stands for "the page renders and the
  file is written". The `_summary.json` file and its timestamp are also left
  out, apart from the counts it carries.
- The `Config` class is a global holder for the base URL; the model passes the
  base URL as a parameter to `Render.FullUrl`.
- `json.loads` and `json.dumps` (`format_json`) are library serialisation;
  decoding is the `decode` parameter and encoding is not modelled.
- The MDX, cURL, Python, JavaScript and Go template text of `generate_api_doc`
  is fixed formatting. Only the URL rule and the placeholder body are modelled.
  Whether the function raises on odd input is folded into `rendered`.
- Error message texts: the model counts errors; the messages are logging.
- Unicode: `\w`, `lower()`, `title()` and "is cased" are the `CharTable`, exact
  for ASCII only. The table maps one character to one character, so case
  mappings that change the length of a string (such as `İ` lowering to two
  characters) are not modelled.
- Floats: a non-integer number keeps only whether it is zero, which is all
  truthiness and type inference look at.
- JSON objects are assumed to have distinct keys, as `json.loads` produces them;
  with a repeated key `Get` finds the first member, where a Python dict keeps the
  last value.
- Extract.NameOr: a `name` that is not a JSON string is read as absent (`""`
  for a folder, `Unnamed` for a record). The source keeps the value itself, which
  differs in three cases. Below the top level, a folder name is formatted into
  the path with `str()` (`p/5`, `p/None`), where the model gives `p/`. At the
  top level, the value itself becomes the children's folder path: `get_category`
  gives `other` for a falsy one, as the model does, but raises on `.lower()`
  for a truthy one, such as a number. A record name that is null, 0 or false
  gives `unnamed`, as in the model, but a truthy non-string one makes
  `sanitize_filename` raise, an error where the model writes `unnamed.mdx`.
- Run.Validate: the source's first test, an empty record, can never succeed for
  an extracted record, which always has three keys, so it is not modelled.
- Run.SumIsTotal: stated for a requested category list without repeats; the
  source's counter dict merges repeated names, which this lemma does not cover.
