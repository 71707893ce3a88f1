/** `write_static` and `build_page`: check the required members, then assemble the
  * page. Writing the page to its destination file is not part of this model. */
module Page {
  import opened Wrappers
  import opened Swagger
  import opened TopicKeys
  import opened Topics
  import opened Render

  /** The members `write_static` requires at the top level, in the order it checks them. */
  const TopLevelRequired: seq<string> := ["info", "basePath", "paths"]

  /** The members `build_page` requires in `info`, in the order it checks them. */
  const InfoRequired: seq<string> := ["description", "title", "license", "version"]

  /** The message `die` is given for a missing member `name`. */
  function MissingMessage(name: string): string {
    "JSON data is missing required data: " + name + "."
  }

  /** The page template's fields; the style sheet and script are fixed text. `license`
    * is required but not shown. */
  datatype Page = Page(title: string, version: string, baseUrl: string, description: string,
                       body: seq<Section>)

  /** A `for attr in required: if attr not in obj: die(...)` loop: the first name of
    * `required`, in order, that is not present. */
  function FirstMissing(required: seq<string>, present: set<string>): (r: Option<string>)
    ensures r.None? <==> forall i :: 0 <= i < |required| ==> required[i] in present
    ensures r.Some? ==> exists i :: 0 <= i < |required| && required[i] == r.value
                                    && r.value !in present
                                    && forall k :: 0 <= k < i ==> required[k] in present
    decreases |required|
  {
    if required == [] then None
    else if required[0] !in present then Some(required[0])
    else
      var r := FirstMissing(required[1..], present);
      assert forall i :: 0 <= i < |required[1..]| ==> required[1..][i] == required[i + 1];
      r
  }

  /** Checking two lists one after the other reports the first missing name of the two
    * lists joined. */
  lemma {:induction false} FirstMissingConcat(a: seq<string>, b: seq<string>, present: set<string>)
    ensures FirstMissing(a + b, present) ==
            if FirstMissing(a, present).Some? then FirstMissing(a, present) else FirstMissing(b, present)
    decreases |a|
  {
    if a != [] {
      assert (a + b)[0] == a[0];
      assert (a + b)[1..] == a[1..] + b;
      FirstMissingConcat(a[1..], b, present);
    } else {
      assert a + b == b;
    }
  }

  /** The name `write_static` and `build_page` report as missing, if any: first the
    * top-level members, then those of `info`. */
  function MissingMember(doc: Document): Option<string> {
    match FirstMissing(TopLevelRequired, DocumentKeys(doc))
    case Some(name) => Some(name)
    case None =>
      assert TopLevelRequired[0] in DocumentKeys(doc);
      FirstMissing(InfoRequired, InfoKeys(doc.info.value))
  }

  /** With no member missing, every field the page shows is present. */
  lemma Checked(doc: Document)
    requires MissingMember(doc).None?
    ensures doc.info.Some? && doc.basePath.Some? && doc.paths.Some?
    ensures doc.info.value.title.Some? && doc.info.value.version.Some?
    ensures doc.info.value.description.Some? && doc.info.value.license.Some?
  {
    assert TopLevelRequired[0] in DocumentKeys(doc) && TopLevelRequired[1] in DocumentKeys(doc);
    assert TopLevelRequired[2] in DocumentKeys(doc);
    var keys := InfoKeys(doc.info.value);
    assert InfoRequired[0] in keys && InfoRequired[1] in keys && InfoRequired[2] in keys && InfoRequired[3] in keys;
  }

  /** What `write_static` produces before writing: the page, the `die` message naming
    * the first missing member, or the failure met while rendering. */
  function PageOf(doc: Document): Result<Page, Failure> {
    match MissingMember(doc)
    case Some(name) => Err(Fatal(MissingMessage(name)))
    case None =>
      Checked(doc);
      var info := doc.info.value;
      var topics := GenTopicsSpec(doc.paths.value);
      TopicsListed(doc.paths.value);
      match RenderSections(doc, topics)
      case Err(e) => Err(e)
      case Ok(body) =>
        Ok(Page(info.title.value, info.version.value, doc.basePath.value, info.description.value, body))
  }

  /** `build_page(json_data)`, called once the top-level members are known present. */
  method BuildPage(doc: Document) returns (r: Result<Page, Failure>)
    requires FirstMissing(TopLevelRequired, DocumentKeys(doc)).None?
    ensures r == PageOf(doc)
  {
    assert TopLevelRequired[0] in DocumentKeys(doc);
    var info := doc.info.value;
    var missing := FirstMissing(InfoRequired, InfoKeys(info));
    if missing.Some? {
      return Err(Fatal(MissingMessage(missing.value)));
    }
    Checked(doc);
    var apiBody := BuildBody(doc);
    if apiBody.Err? {
      return Err(apiBody.error);
    }
    r := Ok(Page(info.title.value, info.version.value, doc.basePath.value, info.description.value, apiBody.value));
  }

  /** `write_static(json_data)`: check the top-level members, then build the page. */
  method WriteStatic(doc: Document) returns (r: Result<Page, Failure>)
    ensures r == PageOf(doc)
  {
    var missing := FirstMissing(TopLevelRequired, DocumentKeys(doc));
    if missing.Some? {
      return Err(Fatal(MissingMessage(missing.value)));
    }
    r := BuildPage(doc);
  }

  /** Every name checked, top level first. */
  const AllRequired: seq<string> := TopLevelRequired + InfoRequired

  /** The checked names this document has. */
  function PresentNames(doc: Document): set<string> {
    DocumentKeys(doc) + (if doc.info.Some? then InfoKeys(doc.info.value) else {})
  }

  /** Only the membership of the required names matters. */
  lemma {:induction false} FirstMissingAgree(required: seq<string>, p1: set<string>, p2: set<string>)
    requires forall i :: 0 <= i < |required| ==> (required[i] in p1 <==> required[i] in p2)
    ensures FirstMissing(required, p1) == FirstMissing(required, p2)
    decreases |required|
  {
    if required != [] {
      FirstMissingAgree(required[1..], p1, p2);
    }
  }

  /** The top-level names are present in the document exactly when they are among
    * all the names present. */
  lemma TopLevelAgree(doc: Document)
    ensures FirstMissing(TopLevelRequired, DocumentKeys(doc)) == FirstMissing(TopLevelRequired, PresentNames(doc))
  {
    var present := PresentNames(doc);
    forall i | 0 <= i < |TopLevelRequired|
      ensures TopLevelRequired[i] in DocumentKeys(doc) <==> TopLevelRequired[i] in present
    {
      if doc.info.Some? {
        assert TopLevelRequired[i] !in InfoKeys(doc.info.value);
      }
    }
    FirstMissingAgree(TopLevelRequired, DocumentKeys(doc), present);
  }

  /** The same for the names of `info`. */
  lemma InfoAgree(doc: Document)
    requires doc.info.Some?
    ensures FirstMissing(InfoRequired, InfoKeys(doc.info.value)) == FirstMissing(InfoRequired, PresentNames(doc))
  {
    var present := PresentNames(doc);
    var keys := InfoKeys(doc.info.value);
    forall i | 0 <= i < |InfoRequired|
      ensures InfoRequired[i] in keys <==> InfoRequired[i] in present
    {
      assert InfoRequired[i] !in DocumentKeys(doc);
    }
    FirstMissingAgree(InfoRequired, keys, present);
  }

  /** The checks report the first missing name of info, basePath, paths, description,
    * title, license, version, in that order. */
  lemma ValidationReportsFirstMissing(doc: Document)
    ensures MissingMember(doc) == FirstMissing(AllRequired, PresentNames(doc))
  {
    FirstMissingConcat(TopLevelRequired, InfoRequired, PresentNames(doc));
    TopLevelAgree(doc);
    if doc.info.Some? {
      InfoAgree(doc);
    } else {
      assert TopLevelRequired[0] !in DocumentKeys(doc);
    }
  }

  /** `die` ends the run exactly when a required member is missing, with the message
    * naming it; a complete document fails, if at all, only while rendering. */
  lemma FatalExactlyWhenMissing(doc: Document)
    ensures MissingMember(doc).Some? ==> PageOf(doc) == Err(Fatal(MissingMessage(MissingMember(doc).value)))
    ensures MissingMember(doc).None? ==> !(PageOf(doc).Err? && PageOf(doc).error.Fatal?)
  {
  }

  /** A complete document whose paths are a dict of dicts, whose keys split back and
    * whose parameters are named gives a page: the `info` fields and base path in the
    * header, then one section per tag in `gen_topics` order, titled with the tag, with
    * one block per listed key, the block of key `k` showing the path and method that
    * `k` encodes. */
  lemma PageRendersEveryTopic(doc: Document)
    requires MissingMember(doc).None?
    requires doc.paths.Some? && DictShaped(doc.paths.value) && SafeKeys(doc.paths.value)
    requires AllNamed(doc.paths.value)
    ensures PageOf(doc).Ok? && doc.info.Some?
    ensures var p := PageOf(doc).value;
            && p.title == doc.info.value.title.GetOr("")
            && p.version == doc.info.value.version.GetOr("")
            && p.description == doc.info.value.description.GetOr("")
            && p.baseUrl == doc.basePath.GetOr("")
    ensures var t := GenTopicsSpec(doc.paths.value);
            var body := PageOf(doc).value.body;
            && Listed(t)
            && |body| == |t.order|
            && forall n :: 0 <= n < |t.order| ==>
                 && body[n].title == t.order[n]
                 && |body[n].blocks| == |t.groups[t.order[n]]|
                 && forall k :: 0 <= k < |body[n].blocks| ==>
                      EncodeKey(body[n].blocks[k].path, body[n].blocks[k].verb) == t.groups[t.order[n]][k]
  {
    Checked(doc);
    BodyRenders(doc);
  }
}
