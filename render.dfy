/** `build_section` and `build_body`: one section per topic, one block per operation key.
  * The section and path templates are left abstract: a rendered section is its title
  * and its blocks, a rendered block the fields the path template is filled with. */
module Render {
  import opened Wrappers
  import opened Swagger
  import opened PyStrings
  import opened TopicKeys
  import opened Topics
  import opened Tables

  datatype PathBlock = PathBlock(verb: string, path: string, parameters: ParamTable, responses: RespTable)
  datatype Section = Section(title: string, blocks: seq<PathBlock>)

  /** One iteration of `build_section`: split the key, look the operation up in
    * `paths`, and build its two tables. */
  function RenderBlock(doc: Document, key: string): (r: Result<PathBlock, Failure>)
    requires doc.paths.Some?
    ensures r.Ok? ==> EncodeKey(r.value.path, r.value.verb) == key
    ensures r.Err? ==> !r.error.Fatal?
  {
    var parts := Split(key, Separator);
    if |parts| != 2 then Err(UnpackError(|parts|))
    else
      var path, verb := parts[0], parts[1];
      SplitJoin(key, Separator);
      assert Join(parts, Separator) == path + Separator + verb by {
        assert parts[1..] == [verb];
      }
      match Lookup(doc.paths.value, path)
      case None => Err(KeyError(path))
      case Some(verbs) =>
        match Lookup(verbs, verb)
        case None => Err(KeyError(verb))
        case Some(op) =>
          match ParameterTable(op)
          case Err(e) => Err(e)
          case Ok(params) => Ok(PathBlock(verb, path, params, ResponseTable(op, doc)))
  }

  /** The values of a run of results, in order, or the first failure among them. */
  function Collect<T>(results: seq<Result<T, Failure>>): (r: Result<seq<T>, Failure>)
    ensures r.Ok? <==> forall i :: 0 <= i < |results| ==> results[i].Ok?
    ensures r.Ok? ==> |r.value| == |results|
    ensures r.Ok? ==> forall i :: 0 <= i < |results| ==> r.value[i] == results[i].value
    ensures r.Err? ==> exists i :: 0 <= i < |results| && results[i] == Err(r.error)
                                   && forall k :: 0 <= k < i ==> results[k].Ok?
    decreases |results|
  {
    if results == [] then Ok([])
    else
      var init := results[..|results| - 1];
      assert forall i :: 0 <= i < |init| ==> init[i] == results[i];
      match Collect(init)
      case Err(e) => Err(e)
      case Ok(values) =>
        match results[|results| - 1]
        case Err(e) => Err(e)
        case Ok(v) => Ok(values + [v])
  }

  /** One more result adds one value, or stops at its failure. */
  lemma CollectSnoc<T>(results: seq<Result<T, Failure>>, i: int)
    requires 0 <= i < |results|
    ensures Collect(results[..i + 1]) ==
            match Collect(results[..i])
            case Err(e) => Err(e)
            case Ok(values) =>
              match results[i]
              case Err(e) => Err(e)
              case Ok(v) => Ok(values + [v])
  {
    assert results[..i + 1][..i] == results[..i];
  }

  /** Once a prefix has failed, the whole run fails the same way. */
  lemma {:induction false} CollectErrorPersists<T>(results: seq<Result<T, Failure>>, n: int)
    requires 0 <= n <= |results| && Collect(results[..n]).Err?
    ensures Collect(results) == Collect(results[..n])
    decreases |results| - n
  {
    if n < |results| {
      CollectSnoc(results, n);
      CollectErrorPersists(results, n + 1);
    } else {
      assert results[..n] == results;
    }
  }

  /** The result of each key, in order. */
  function BlockResults(doc: Document, keys: seq<string>): seq<Result<PathBlock, Failure>>
    requires doc.paths.Some?
  {
    seq(|keys|, i requires 0 <= i < |keys| => RenderBlock(doc, keys[i]))
  }

  /** What `build_section(json_data, keys)` returns: one block per key, in order, or
    * the failure of the first key that cannot be rendered. */
  function RenderSection(doc: Document, keys: seq<string>): (r: Result<seq<PathBlock>, Failure>)
    requires doc.paths.Some?
    ensures r.Ok? <==> forall i :: 0 <= i < |keys| ==> RenderBlock(doc, keys[i]).Ok?
    ensures r.Ok? ==> |r.value| == |keys|
    ensures r.Ok? ==> forall i :: 0 <= i < |keys| ==> r.value[i] == RenderBlock(doc, keys[i]).value
    ensures r.Err? ==> exists i :: 0 <= i < |keys| && RenderBlock(doc, keys[i]) == Err(r.error)
                                   && forall k :: 0 <= k < i ==> RenderBlock(doc, keys[k]).Ok?
    ensures r.Err? ==> !r.error.Fatal?
  {
    var results := BlockResults(doc, keys);
    assert forall i :: 0 <= i < |keys| ==> results[i] == RenderBlock(doc, keys[i]);
    Collect(results)
  }

  /** `build_section(json_data, keys)`: appends one block per key. */
  method BuildSection(doc: Document, keys: seq<string>) returns (r: Result<seq<PathBlock>, Failure>)
    requires doc.paths.Some?
    ensures r == RenderSection(doc, keys)
  {
    var paths := doc.paths.value;
    ghost var results := BlockResults(doc, keys);
    var blocks: seq<PathBlock> := [];
    var i := 0;
    while i < |keys|
      invariant 0 <= i <= |keys|
      invariant Collect(results[..i]) == Ok(blocks)
    {
      CollectSnoc(results, i);
      var parts := Split(keys[i], Separator);
      var block: Result<PathBlock, Failure>;
      if |parts| != 2 {
        block := Err(UnpackError(|parts|));
      } else {
        var path, verb := parts[0], parts[1];
        var verbs := Lookup(paths, path);
        if verbs.None? {
          block := Err(KeyError(path));
        } else {
          var op := Lookup(verbs.value, verb);
          if op.None? {
            block := Err(KeyError(verb));
          } else {
            var parameters := BuildParameterTable(op.value);
            if parameters.Err? {
              block := Err(parameters.error);
            } else {
              var responses := BuildResponsesTable(op.value, doc);
              block := Ok(PathBlock(verb, path, parameters.value, responses));
            }
          }
        }
      }
      assert block == RenderBlock(doc, keys[i]) == results[i];
      if block.Err? {
        CollectErrorPersists(results, i + 1);
        return Err(block.error);
      }
      blocks := blocks + [block.value];
      i := i + 1;
    }
    assert results[..i] == results;
    r := Ok(blocks);
  }

  /** Every tag of `order` has a list in `groups`. */
  predicate Listed(t: Topics) {
    forall i :: 0 <= i < |t.order| ==> t.order[i] in t.groups
  }

  /** The section of the `i`th tag, or the failure met while rendering it. */
  function SectionResult(doc: Document, t: Topics, i: int): (r: Result<Section, Failure>)
    requires doc.paths.Some? && Listed(t) && 0 <= i < |t.order|
    ensures r.Ok? <==> RenderSection(doc, t.groups[t.order[i]]).Ok?
    ensures r.Ok? ==> r.value == Section(t.order[i], RenderSection(doc, t.groups[t.order[i]]).value)
    ensures r.Err? ==> RenderSection(doc, t.groups[t.order[i]]) == Err(r.error)
  {
    match RenderSection(doc, t.groups[t.order[i]])
    case Err(e) => Err(e)
    case Ok(blocks) => Ok(Section(t.order[i], blocks))
  }

  /** The result of each tag, in order. */
  function SectionResults(doc: Document, t: Topics): seq<Result<Section, Failure>>
    requires doc.paths.Some? && Listed(t)
  {
    seq(|t.order|, i requires 0 <= i < |t.order| => SectionResult(doc, t, i))
  }

  /** What `build_body(json_data)` returns for the topics `t`: one section per tag, in
    * dict order, titled with the tag and holding the blocks of its keys, or the first
    * failure. */
  function RenderSections(doc: Document, t: Topics): (r: Result<seq<Section>, Failure>)
    requires doc.paths.Some? && Listed(t)
    ensures r.Ok? <==> forall i :: 0 <= i < |t.order| ==> RenderSection(doc, t.groups[t.order[i]]).Ok?
    ensures r.Ok? ==> |r.value| == |t.order|
    ensures r.Ok? ==> forall i :: 0 <= i < |t.order| ==>
              r.value[i] == Section(t.order[i], RenderSection(doc, t.groups[t.order[i]]).value)
    ensures r.Err? ==> exists i :: 0 <= i < |t.order| && RenderSection(doc, t.groups[t.order[i]]) == Err(r.error)
                                   && forall k :: 0 <= k < i ==> RenderSection(doc, t.groups[t.order[k]]).Ok?
    ensures r.Err? ==> !r.error.Fatal?
  {
    var results := SectionResults(doc, t);
    forall i | 0 <= i < |t.order|
      ensures results[i].Ok? <==> RenderSection(doc, t.groups[t.order[i]]).Ok?
      ensures results[i].Ok? ==> results[i].value == Section(t.order[i], RenderSection(doc, t.groups[t.order[i]]).value)
      ensures results[i].Err? ==> RenderSection(doc, t.groups[t.order[i]]) == Err(results[i].error)
    {
      assert results[i] == SectionResult(doc, t, i);
    }
    Collect(results)
  }

  /** `build_body(json_data)`: group the paths by tag, then append one section per tag,
    * in the dict's insertion order. */
  method BuildBody(doc: Document) returns (r: Result<seq<Section>, Failure>)
    requires doc.paths.Some?
    ensures Listed(GenTopicsSpec(doc.paths.value))
    ensures r == RenderSections(doc, GenTopicsSpec(doc.paths.value))
  {
    var topics := GenTopics(doc.paths.value);
    TopicsListed(doc.paths.value);
    ghost var results := SectionResults(doc, topics);
    var sb: seq<Section> := [];
    var i := 0;
    while i < |topics.order|
      invariant 0 <= i <= |topics.order|
      invariant Collect(results[..i]) == Ok(sb)
    {
      CollectSnoc(results, i);
      var tag := topics.order[i];
      var apiD := BuildSection(doc, topics.groups[tag]);
      if apiD.Err? {
        assert results[i] == Err(apiD.error);
        CollectErrorPersists(results, i + 1);
        return Err(apiD.error);
      }
      assert results[i] == Ok(Section(tag, apiD.value));
      sb := sb + [Section(tag, apiD.value)];
      i := i + 1;
    }
    assert results[..i] == results;
    r := Ok(sb);
  }

  /** Every tag that `gen_topics` lists has a group. */
  lemma TopicsListed(paths: Paths)
    ensures Listed(GenTopicsSpec(paths))
  {
    var es := PathEntries(paths);
    GroupOrder(es);
    DedupProperties(TagsOf(es));
  }

  /** The key of operation `j` of path `i` renders that operation's block: split back
    * into its path and method, both found again, and its two tables built. */
  lemma KeyRenders(doc: Document, i: int, j: int)
    requires doc.paths.Some? && DictShaped(doc.paths.value) && SafeKeys(doc.paths.value)
    requires 0 <= i < |doc.paths.value| && 0 <= j < |doc.paths.value[i].1|
    ensures var path := doc.paths.value[i].0;
            var verb := doc.paths.value[i].1[j].0;
            var op := doc.paths.value[i].1[j].1;
            RenderBlock(doc, EncodeKey(path, verb)) ==
              match ParameterTable(op)
              case Err(e) => Err(e)
              case Ok(params) => Ok(PathBlock(verb, path, params, ResponseTable(op, doc)))
  {
    var paths := doc.paths.value;
    var path := paths[i].0;
    var verbs := paths[i].1;
    var verb := verbs[j].0;
    DecodeEncode(path, verb);
    LookupMember(paths, i);
    LookupMember(verbs, j);
  }

  /** Every operation of `paths` has a name for each of its parameters. */
  predicate AllNamed(paths: Paths) {
    forall i, j :: 0 <= i < |paths| && 0 <= j < |paths[i].1| ==> Named(paths[i].1[j].1)
  }

  /** For a dict of dicts whose keys split back and whose parameters are named,
    * `build_body` fails nowhere: every key `gen_topics` lists renders. */
  lemma BodyRenders(doc: Document)
    requires doc.paths.Some? && DictShaped(doc.paths.value) && SafeKeys(doc.paths.value)
    requires AllNamed(doc.paths.value)
    ensures Listed(GenTopicsSpec(doc.paths.value))
    ensures RenderSections(doc, GenTopicsSpec(doc.paths.value)).Ok?
  {
    var paths := doc.paths.value;
    var t := GenTopicsSpec(paths);
    TopicsListed(paths);
    GenTopicsShape(paths);
    forall n | 0 <= n < |t.order|
      ensures RenderSection(doc, t.groups[t.order[n]]).Ok?
    {
      var tag := t.order[n];
      var keys := t.groups[tag];
      forall k | 0 <= k < |keys|
        ensures RenderBlock(doc, keys[k]).Ok?
      {
        assert tag in t.groups && keys[k] in t.groups[tag];
        var i, j :| EntryAt(paths, i, j, (tag, keys[k]));
        KeyRenders(doc, i, j);
      }
    }
  }
}
