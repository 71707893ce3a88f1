/** The parsed Swagger 2.0 document, as far as the page builder looks at it.
  * A JSON object is a sequence of key/value pairs in insertion order, which is the
  * order in which Python iterates a dict read by `json.load`.
  * Every field the builder tests with `'x' in obj` is an `Option`. */
module Swagger {
  import opened Wrappers

  /** A JSON object: its members in insertion order. */
  type Object<V> = seq<(string, V)>

  /** Python's `obj[k]`: the member under key `k`, if any. */
  function Lookup<V>(o: Object<V>, k: string): (r: Option<V>)
    ensures r.None? <==> forall i :: 0 <= i < |o| ==> o[i].0 != k
    ensures r.Some? ==> exists i :: 0 <= i < |o| && o[i] == (k, r.value)
  {
    if o == [] then None
    else if o[0].0 == k then Some(o[0].1)
    else
      var r := Lookup(o[1..], k);
      assert forall i :: 0 <= i < |o[1..]| ==> o[1..][i] == o[i + 1];
      r
  }

  /** The keys of a dict are distinct. */
  predicate DistinctKeys<V>(o: Object<V>) {
    forall i, j :: 0 <= i < j < |o| ==> o[i].0 != o[j].0
  }

  /** In a dict, looking up a member's key finds that member. */
  lemma {:induction false} LookupMember<V>(o: Object<V>, i: int)
    requires DistinctKeys(o) && 0 <= i < |o|
    ensures Lookup(o, o[i].0) == Some(o[i].1)
  {
    if i > 0 {
      assert o[0].0 != o[i].0;
      assert DistinctKeys(o[1..]) by {
        forall a, b | 0 <= a < b < |o[1..]| ensures o[1..][a].0 != o[1..][b].0 {
          assert o[1..][a] == o[a + 1] && o[1..][b] == o[b + 1];
        }
      }
      LookupMember(o[1..], i - 1);
    }
  }

  datatype Info = Info(description: Option<string>, title: Option<string>,
                       license: Option<string>, version: Option<string>)

  /** A parameter's `schema`, of which only `type` is read. */
  datatype Schema = Schema(typeName: Option<string>)

  /** An entry of an operation's `parameters` list. */
  datatype Parameter = Parameter(name: Option<string>, description: Option<string>,
                                 typeName: Option<string>, schema: Option<Schema>)

  /** An entry of an operation's `responses` dict: `$ref` and an inline `description`. */
  datatype Response = Response(reference: Option<string>, description: Option<string>)

  /** The attributes of one method of a path. */
  datatype Operation = Operation(tags: Option<seq<string>>, parameters: Option<seq<Parameter>>,
                                 responses: Option<Object<Response>>)

  /** An entry of the document's top-level `responses` table. */
  datatype SharedResponse = SharedResponse(description: Option<string>)

  /** `paths`: path -> method -> operation. */
  type Paths = Object<Object<Operation>>

  datatype Document = Document(info: Option<Info>, basePath: Option<string>,
                               paths: Option<Paths>, responses: Option<Object<SharedResponse>>)

  /** The top-level members of the document that the builder asks about. */
  function DocumentKeys(d: Document): set<string> {
    (if d.info.Some? then {"info"} else {}) +
    (if d.basePath.Some? then {"basePath"} else {}) +
    (if d.paths.Some? then {"paths"} else {})
  }

  /** The members of `info` that the builder asks about. */
  function InfoKeys(i: Info): set<string> {
    (if i.description.Some? then {"description"} else {}) +
    (if i.title.Some? then {"title"} else {}) +
    (if i.license.Some? then {"license"} else {}) +
    (if i.version.Some? then {"version"} else {})
  }

  /** What ends a run early: `die` (exit status 1) or an uncaught Python exception. */
  datatype Failure =
    | Fatal(message: string)      // die(message)
    | KeyError(key: string)       // obj[key] on a missing key
    | UnpackError(count: nat)     // `path, method = parts` with |parts| != 2
}
