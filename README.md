# swagger_build: a verified model of the Gitea API page builder

`debian/helpers/swagger_build.py` is the script that Debian's Gitea packaging uses to
turn the Swagger 2.0 description of the Gitea API (`swagger.v1.json`) into one static
HTML page, standing in for Swagger-UI. This project models the document-processing
part of that script in Dafny and proves what it promises:

- `gen_topics` groups the operations of `paths` by tag. Each tag maps to a
  duplicate-free list of `path^^method` keys, in first-encounter order.
- A key is split back into its path and method with `split('^^')`.
- `build_parameter_table` and `build_responses_table` build the two tables of one
  operation. `find_response` resolves a response `$ref` against the top-level
  `responses` table.
- `write_static` and `build_page` check the required members. `die` stops the run
  at the first member that is missing.
- `build_body` and `build_section` produce one section per tag. Each section holds
  one path block per key.

Modelling choices:

- **The document.** The parsed document is typed data (module `Swagger`). A JSON
  object is a sequence of `(key, value)` pairs in insertion order. `Lookup` returns
  the first pair with the key. The predicate `DistinctKeys` says that the sequence is
  a real dict; the lemmas that need it require it.
- **Iteration order.** Iterating a dict follows insertion order, as in Python 3.7 and
  later. Under Python 2, which the script's `urllib2` import points to, the orders of
  tags, keys, sections and rows would instead be the interpreter's hash order.
- **Failures.** `Failure` has three cases:
  - `Fatal(message)` for `die(message)`;
  - `KeyError(key)` for an uncaught lookup of a missing member;
  - `UnpackError(count)` for `path, method = key.split('^^')` when the split does not
    give two parts.
- **HTML output.** The templates are left abstract. A page is its header fields plus
  its sections. A section is its title plus its path blocks. A block is its method,
  its path and its two tables. A table is the "No parameters" / empty placeholder, or
  its list of rows.
- **Loops.** Each accumulating loop of the script is a Dafny method with a loop. Its postcondition
  equates the result with a specification function, and the properties are proved
  as lemmas about that function. These methods are `GenTopics`, `BuildSection`,
  `BuildBody`, `BuildParameterTable` and `BuildResponsesTable`. The innermost loop
  of `gen_topics`, over one operation's tags, is its own method `AddTags`, called
  from the loop over methods. The two required-member loops of `write_static` and
  `build_page`, which only look for the first missing name, are the recursive
  function `Page.FirstMissing`.
- **String splitting.** `str.split(sep)` is modelled once, in module `PyStrings`,
  and is used both for `^^` and for `/`.

The key round trip needs one more condition than "neither part contains `^^`". A
path that ends in `^` glues onto the separator. The key of `("/a^", "get")` is
`"/a^^^get"`, and splitting it gives `["/a", "^get"]`. `build_section` would then
look up the wrong path. `TopicKeys.KeySafe` adds the missing condition: the path
does not end in `^`. `TopicKeys.TrailingCaretMisdecodes` exhibits the failing pair.

## Model

| member | source | states |
|---|---|---|
| `Swagger.Lookup` | debian/helpers/swagger_build.py:259 | `k in obj` / `obj[k]` on a JSON object: absent exactly when no pair has the key, otherwise the value of a pair with that key |
| `Swagger.LookupMember` | debian/helpers/swagger_build.py:276 | in a dict with distinct keys, looking up the key of entry `i` gives entry `i`'s value |
| `PyStrings.IndexOf` | debian/helpers/swagger_build.py:275 | the first occurrence of the separator, or none exactly when the string does not contain it |
| `PyStrings.Split` | debian/helpers/swagger_build.py:275 | `str.split(sep)` always gives at least one piece |
| `PyStrings.SplitJoin` | debian/helpers/swagger_build.py:275 | joining the pieces of a split with the separator gives back the string |
| `PyStrings.SplitPiecesFree` | debian/helpers/swagger_build.py:336 | no piece of a split contains the separator |
| `PyStrings.SplitLastAfterSeparator` | debian/helpers/swagger_build.py:336 | the last piece of `a + "/" + b` is `b` when `b` holds no `/` |
| `TopicKeys.DecodeEncode` | debian/helpers/swagger_build.py:262-275 | splitting the key `path^^method` on `^^` gives exactly `[path, method]` when neither contains `^^` and the path does not end in `^` |
| `TopicKeys.EncodeInjective` | debian/helpers/swagger_build.py:262 | two such pairs with the same key are the same pair, so a key names one operation |
| `TopicKeys.TrailingCaretGlues` | debian/helpers/swagger_build.py:262-275 | for any `q` free of `^^` and not ending in `^`, and any `verb` without `^`, the key of `(q + "^", verb)` splits into `[q, "^" + verb]`, although neither part holds `^^` |
| `TopicKeys.TrailingCaretMisdecodes` | debian/helpers/swagger_build.py:262-275 | `("/a^", "get")` holds no `^^`, yet its key splits into `["/a", "^get"]` |
| `Topics.GenTopics` | debian/helpers/swagger_build.py:254-267 | the three nested loops over paths, methods and tags compute the grouping `GenTopicsSpec` |
| `Topics.AddTags` | debian/helpers/swagger_build.py:261-266 | the loop over one operation's tags turns the dict of the pairs met so far into the dict of those pairs followed by one `(tag, key)` pair per tag |
| `Topics.DedupProperties` | debian/helpers/swagger_build.py:263-266 | the `if x not in list: append` pattern keeps every element once and only once |
| `Topics.DedupFirstOccurrenceOrder` | debian/helpers/swagger_build.py:263-266 | it keeps the elements in the order of their first occurrences |
| `Topics.AddEffect` | debian/helpers/swagger_build.py:262-266 | one tag/key step: a new tag is appended to the order with `[key]`; a known tag gets `key` appended unless already there; other tags are unchanged |
| `Topics.GroupOrder` | debian/helpers/swagger_build.py:256-267 | the tags appear in first-encounter order of the iteration, and exactly the encountered tags are present |
| `Topics.GroupList` | debian/helpers/swagger_build.py:256-267 | each tag's list is its keys in first-encounter order, without repeats |
| `Topics.KeysForAbsentTag` | debian/helpers/swagger_build.py:264 | a tag never encountered has no keys |
| `Topics.KeysForMember` | debian/helpers/swagger_build.py:262-266 | a key is listed for a tag exactly when the iteration produced that pair |
| `Topics.MethodEntriesMember` | debian/helpers/swagger_build.py:258-262 | a pair comes from a path's methods exactly when one of its operations has `tags` holding the tag and has that key |
| `Topics.PathEntriesMember` | debian/helpers/swagger_build.py:257-262 | the same over all paths |
| `Topics.GenTopicsShape` | debian/helpers/swagger_build.py:256-267 | every tag maps to a non-empty, duplicate-free list; `key` is in the list of `tag` exactly when some operation with `tags` containing `tag` has that key |
| `Topics.OperationTopics` | debian/helpers/swagger_build.py:257-266 | for a dict of dicts with safe keys, an operation is listed under a tag exactly when its `tags` exists and holds that tag; without `tags` it is in no group |
| `Tables.ParamType` | debian/helpers/swagger_build.py:294-299 | the type is `type`, else `schema.type`, else `"undefined"` |
| `Tables.ParamRows` | debian/helpers/swagger_build.py:291-302 | one row per parameter, in order, with name, resolved type and description or `""`; a parameter without a name fails with `KeyError("name")` |
| `Tables.ParameterTable` | debian/helpers/swagger_build.py:285-310 | the fixed "No parameters" table without `parameters`; it fails, with `KeyError("name")`, exactly when a parameter lacks a name; otherwise one row per parameter, in input order, with its name, resolved type and description or `""` |
| `Tables.BuildParameterTable` | debian/helpers/swagger_build.py:285-310 | the loop builds `ParameterTable` |
| `Tables.LastSegment` | debian/helpers/swagger_build.py:336 | `needle.split('/')[-1]` holds no `/` |
| `Tables.FindResponse` | debian/helpers/swagger_build.py:334-341 | `""` without top-level `responses`; a non-empty result is the description of an entry named by the ref's last segment |
| `Tables.ResolvePointer` | debian/helpers/swagger_build.py:334-341 | for a ref `prefix/name`: `""` without `responses`, `""` when `name` is not there, otherwise that entry's description or `""` |
| `Tables.ResponseRows` | debian/helpers/swagger_build.py:319-323 | one row per status code, in order, with the code and the resolved `$ref` description or `""` |
| `Tables.ResponseTable` | debian/helpers/swagger_build.py:313-331 | the empty result exactly when `responses` is absent; otherwise one row per code, in order, a row without `$ref` getting `""` |
| `Tables.BuildResponsesTable` | debian/helpers/swagger_build.py:313-331 | the loop builds `ResponseTable` |
| `Tables.InlineDescriptionIgnored` | debian/helpers/swagger_build.py:320 | the table does not depend on an inline `description` of a response, only on codes and `$ref`s |
| `Render.RenderBlock` | debian/helpers/swagger_build.py:274-281 | a block rendered from a key shows the path and method whose key it is; rendering a key never calls `die` |
| `Render.Collect` | debian/helpers/swagger_build.py:274-281 | accumulating results succeeds exactly when all do, keeping them in order, and otherwise fails with the first failure |
| `Render.CollectErrorPersists` | debian/helpers/swagger_build.py:274-281 | an exception inside the loop ends it: the first failure is the failure of the whole loop |
| `Render.RenderSection` | debian/helpers/swagger_build.py:270-282 | one block per key, in order, exactly when every key renders; otherwise the failure of the first key that does not |
| `Render.BuildSection` | debian/helpers/swagger_build.py:270-282 | the loop builds `RenderSection` |
| `Render.SectionResult` | debian/helpers/swagger_build.py:247-250 | the section of a tag is titled with the tag and holds the blocks of its keys |
| `Render.RenderSections` | debian/helpers/swagger_build.py:241-251 | one section per tag, in order, titled with the tag and holding that tag's blocks, exactly when every tag's keys render; otherwise the first failure |
| `Render.BuildBody` | debian/helpers/swagger_build.py:241-251 | the loop over `gen_topics` builds `RenderSections` of the grouping |
| `Render.TopicsListed` | debian/helpers/swagger_build.py:246 | every tag that `gen_topics` lists has a list |
| `Render.KeyRenders` | debian/helpers/swagger_build.py:262-281 | for a dict of dicts with safe keys, the key of an operation renders that operation's path, method and tables |
| `Render.BodyRenders` | debian/helpers/swagger_build.py:241-282 | for a dict of dicts with safe keys and named parameters, `build_body` fails nowhere |
| `Page.FirstMissing` | debian/helpers/swagger_build.py:208-210 | none exactly when every required name is present; otherwise the first absent one, in list order |
| `Page.FirstMissingConcat` | debian/helpers/swagger_build.py:208-227 | checking two lists in turn reports the first missing name of the two joined |
| `Page.Checked` | debian/helpers/swagger_build.py:222-235 | once the checks pass, every member the page reads is present |
| `Page.BuildPage` | debian/helpers/swagger_build.py:221-238 | `build_page` computes `PageOf` |
| `Page.WriteStatic` | debian/helpers/swagger_build.py:206-218 | `write_static` computes `PageOf` before writing it |
| `Page.ValidationReportsFirstMissing` | debian/helpers/swagger_build.py:208-227 | the name reported is the first missing one of `info`, `basePath`, `paths`, `description`, `title`, `license`, `version` |
| `Page.FatalExactlyWhenMissing` | debian/helpers/swagger_build.py:206-238 | `die` is called with "JSON data is missing required data: NAME." exactly when a name is missing; a complete document never reaches `die` |
| `Page.PageRendersEveryTopic` | debian/helpers/swagger_build.py:221-282 | a complete, well-formed document gives a page showing `info`'s title, version and description and `basePath`; it has one section per tag in `gen_topics` order, each titled with its tag, with one block per listed key showing the path and method that key encodes |

## Left out

- `read_json` is not modelled: it reads the file and parses JSON. The model starts from
  the parsed document.
- The file writing in `write_static` and the `SWAGGER_DST` lookup are not modelled; the
  model returns the page. The `die` on `IOError` is not modelled either.
- `Page.WriteStatic`: the script opens the destination for writing, which creates or
  truncates it, before `build_page` runs. A later failure leaves an empty destination
  file. This happens for a `die` in the `info` checks and for an exception while
  rendering. The model returns only the failure and does not capture the truncated file.
- `download_json` is not modelled: it is a network fetch written to disk.
- `main` is not modelled, and neither is its `if not data` check. That check calls `die`
  with "Unable to read JSON data from file." when reading fails. It also fires when the
  parsed document is falsy, such as the empty object `{}`. Such a document never reaches
  `write_static`. `Page.WriteStatic` and `Page.FatalExactlyWhenMissing` instead report
  the missing `info` for it.
- `die` is not modelled as printing or exiting. It is the `Fatal(message)` result, and
  its default "Unknown failure." message is never reached from the modelled code.
- The `Templates` markup, the style sheet, the script and `str.format` are not
  modelled. The output is the structure those templates are filled with.
- JSON values of the wrong type are not modelled (for example `tags` not a list, or a
  number where a string is expected). The document type admits only well-typed
  members, so the `TypeError`s Python would raise are not modelled.
- Members of the document that the script never reads (`summary`, `definitions` and
  the like) are not modelled.
- The model follows Python 3 semantics for dicts and strings. Under Python 2, dicts
  iterate in hash order, while every order in the model is insertion order. Python 2's
  `json.load` also returns unicode strings, and the script formats them into byte-string
  templates and the key format. That raises `UnicodeEncodeError` for any non-ASCII path,
  tag, method, title, description, parameter or response text. The model renders such
  text as Python 3 does and does not capture that failure.
- `Tables.FindResponse`: its own contract states only the `""` cases and where a
  non-empty description comes from. The full three-case answer is
  `Tables.ResolvePointer`, for refs of the form `prefix/name`.
- `Topics.OperationTopics`: it requires a dict of dicts whose keys split back
  (`SafeKeys`). Without that, two operations could share a key, and each would then
  also appear under the other's tags.
