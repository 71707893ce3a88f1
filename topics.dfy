/** `gen_topics`: group the operations of `paths` by tag. The result is a dict from
  * tag to the list of keys `path^^method` of the operations carrying that tag; a
  * dict keeps its keys in insertion order, modelled by `order` beside `groups`. */
module Topics {
  import opened Swagger
  import opened TopicKeys

  /** One `(tag, key)` pair met by the three nested loops of `gen_topics`. */
  type Entry = (string, string)

  datatype Topics = Topics(order: seq<string>, groups: map<string, seq<string>>)

  const NoTopics := Topics([], map[])

  /** No element occurs twice. */
  predicate NoDuplicates(s: seq<string>) {
    forall i, j :: 0 <= i < j < |s| ==> s[i] != s[j]
  }

  /** A dict in insertion order: each tag listed once, and exactly the tags of `groups`. */
  ghost predicate Valid(t: Topics) {
    && NoDuplicates(t.order)
    && (forall tag :: tag in t.groups <==> tag in t.order)
  }

  // ---- The iteration of gen_topics, flattened --------------------------------------

  /** The pairs contributed by one operation: none without `tags`, else one per tag. */
  function OperationEntries(path: string, verb: string, op: Operation): seq<Entry> {
    if op.tags.None? then [] else TagEntries(op.tags.value, EncodeKey(path, verb))
  }

  /** Each tag paired with `key`. */
  function TagEntries(tags: seq<string>, key: string): seq<Entry> {
    seq(|tags|, i requires 0 <= i < |tags| => (tags[i], key))
  }

  /** The pairs of one path's methods, in dict order. */
  function MethodEntries(path: string, verbs: Object<Operation>): seq<Entry>
    decreases |verbs|
  {
    if verbs == [] then []
    else
      var last := verbs[|verbs| - 1];
      MethodEntries(path, verbs[..|verbs| - 1]) + OperationEntries(path, last.0, last.1)
  }

  /** All pairs of `paths`, in the order the nested loops meet them. */
  function PathEntries(paths: Paths): seq<Entry>
    decreases |paths|
  {
    if paths == [] then []
    else
      var last := paths[|paths| - 1];
      PathEntries(paths[..|paths| - 1]) + MethodEntries(last.0, last.1)
  }

  // ---- The dict updates ------------------------------------------------------------

  /** The body of the innermost loop: create the tag's list if it is new, then append
    * the key unless the list holds it already. */
  function Add(t: Topics, e: Entry): Topics {
    var (tag, key) := e;
    var t1 := if tag in t.groups then t else Topics(t.order + [tag], t.groups[tag := []]);
    if key in t1.groups[tag] then t1
    else Topics(t1.order, t1.groups[tag := t1.groups[tag] + [key]])
  }

  /** The dict after processing `es` from an empty one. */
  function Group(es: seq<Entry>): Topics
    decreases |es|
  {
    if es == [] then NoTopics else Add(Group(es[..|es| - 1]), es[|es| - 1])
  }

  /** What `gen_topics(paths)` returns. */
  function GenTopicsSpec(paths: Paths): Topics {
    Group(PathEntries(paths))
  }

  // ---- An independent description of the result ------------------------------------

  /** The elements of `s`, each at its first occurrence. */
  function Dedup(s: seq<string>): seq<string>
    decreases |s|
  {
    if s == [] then []
    else
      var d := Dedup(s[..|s| - 1]);
      if s[|s| - 1] in d then d else d + [s[|s| - 1]]
  }

  /** The tags of `es`, in order, repeats included. */
  function TagsOf(es: seq<Entry>): seq<string> {
    seq(|es|, i requires 0 <= i < |es| => es[i].0)
  }

  /** The keys that `es` pairs with `tag`, in order, repeats included. */
  function KeysFor(es: seq<Entry>, tag: string): seq<string>
    decreases |es|
  {
    if es == [] then []
    else
      var last := es[|es| - 1];
      KeysFor(es[..|es| - 1], tag) + (if last.0 == tag then [last.1] else [])
  }

  lemma {:induction false} DedupProperties(s: seq<string>)
    ensures forall x :: x in Dedup(s) <==> x in s
    ensures NoDuplicates(Dedup(s))
    decreases |s|
  {
    if s != [] {
      var init := s[..|s| - 1];
      DedupProperties(init);
      assert s == init + [s[|s| - 1]];
    }
  }

  /** The first occurrences of `Dedup(s)` come in the order of `Dedup(s)`. */
  lemma {:induction false} DedupFirstOccurrenceOrder(s: seq<string>, i: int, j: int)
    requires 0 <= i < j < |Dedup(s)|
    ensures exists p, q :: 0 <= p < q < |s| && s[p] == Dedup(s)[i] && s[q] == Dedup(s)[j]
                        && Dedup(s)[i] !in s[..p] && Dedup(s)[j] !in s[..q]
    decreases |s|
  {
    var init := s[..|s| - 1];
    var d := Dedup(init);
    DedupProperties(init);
    if j < |d| {
      DedupFirstOccurrenceOrder(init, i, j);
      var p, q :| 0 <= p < q < |init| && init[p] == d[i] && init[q] == d[j]
                  && d[i] !in init[..p] && d[j] !in init[..q];
      assert init[..p] == s[..p] && init[..q] == s[..q];
    } else {
      // d[j] is the last element, new in s; d[i] occurs in init first
      assert Dedup(s) == d + [s[|s| - 1]] && j == |d|;
      assert d[i] in d;
      assert d[i] in init;
      var p :| 0 <= p < |init| && init[p] == d[i] && (forall k :: 0 <= k < p ==> init[k] != d[i]) by {
        FirstIndex(init, d[i]);
      }
      assert s[p] == d[i];
      assert d[i] !in s[..p] by { assert s[..p] == init[..p]; }
      assert s[|s| - 1] !in s[..|s| - 1];
    }
  }

  /** Every element of a sequence has a first occurrence. */
  lemma {:induction false} FirstIndex(s: seq<string>, x: string)
    requires x in s
    ensures exists p :: 0 <= p < |s| && s[p] == x && forall k :: 0 <= k < p ==> s[k] != x
    decreases |s|
  {
    var init := s[..|s| - 1];
    if x in init {
      FirstIndex(init, x);
      var p :| 0 <= p < |init| && init[p] == x && forall k :: 0 <= k < p ==> init[k] != x;
      assert s[p] == x;
      assert forall k :: 0 <= k < p ==> s[k] == init[k];
    } else {
      assert forall k :: 0 <= k < |init| ==> s[k] == init[k];
      assert s[|s| - 1] == x;
    }
  }

  /** What one step of the innermost loop does to the dict. */
  lemma AddEffect(t: Topics, e: Entry)
    ensures Add(t, e).order == if e.0 in t.groups then t.order else t.order + [e.0]
    ensures Add(t, e).groups.Keys == t.groups.Keys + {e.0}
    ensures forall tag :: tag in t.groups && tag != e.0 ==> Add(t, e).groups[tag] == t.groups[tag]
    ensures var prior := if e.0 in t.groups then t.groups[e.0] else [];
            Add(t, e).groups[e.0] == if e.1 in prior then prior else prior + [e.1]
  {
  }

  /** The tags of the dict are those of `es`, listed at their first occurrence. */
  lemma {:induction false} GroupOrder(es: seq<Entry>)
    ensures Group(es).order == Dedup(TagsOf(es))
    ensures forall tag :: tag in Group(es).groups <==> tag in TagsOf(es)
    decreases |es|
  {
    if es != [] {
      var init, e := es[..|es| - 1], es[|es| - 1];
      GroupOrder(init);
      AddEffect(Group(init), e);
      assert TagsOf(es) == TagsOf(init) + [e.0];
      DedupProperties(TagsOf(init));
    }
  }

  /** Appending to `s` adds the element to `Dedup(s)` unless it is there already. */
  lemma DedupSnoc(s: seq<string>, x: string)
    ensures Dedup(s + [x]) == if x in Dedup(s) then Dedup(s) else Dedup(s) + [x]
  {
    assert (s + [x])[..|s|] == s;
  }

  /** Under each tag, the dict lists the keys `es` pairs with it, at their first
    * occurrence. */
  lemma {:induction false} GroupList(es: seq<Entry>, tag: string)
    requires tag in Group(es).groups
    ensures Group(es).groups[tag] == Dedup(KeysFor(es, tag))
    decreases |es|
  {
    assert es != [];
    var init, e := es[..|es| - 1], es[|es| - 1];
    var g := Group(init);
    assert Group(es) == Add(g, e);
    AddEffect(g, e);
    var ks := KeysFor(init, tag);
    if tag == e.0 {
      assert KeysFor(es, tag) == ks + [e.1];
      DedupSnoc(ks, e.1);
      if tag in g.groups {
        GroupList(init, tag);
      } else {
        GroupOrder(init);
        KeysForAbsentTag(init, tag);
      }
    } else {
      assert KeysFor(es, tag) == ks;
      GroupList(init, tag);
    }
  }

  /** A tag that `es` never mentions is paired with no key. */
  lemma {:induction false} KeysForAbsentTag(es: seq<Entry>, tag: string)
    requires tag !in TagsOf(es)
    ensures KeysFor(es, tag) == []
    decreases |es|
  {
    if es != [] {
      var init := es[..|es| - 1];
      assert TagsOf(es) == TagsOf(init) + [es[|es| - 1].0];
      KeysForAbsentTag(init, tag);
    }
  }

  // ---- gen_topics ------------------------------------------------------------------

  /** `gen_topics(paths)`: three nested loops over paths, methods and tags, updating the
    * dict in place. */
  method GenTopics(paths: Paths) returns (tags: Topics)
    ensures tags == GenTopicsSpec(paths)
  {
    tags := NoTopics;
    ghost var es: seq<Entry> := [];
    var i := 0;
    while i < |paths|
      invariant 0 <= i <= |paths|
      invariant es == PathEntries(paths[..i])
      invariant tags == Group(es)
    {
      var path, verbs := paths[i].0, paths[i].1;
      ghost var done := es;
      assert verbs[..0] == [];
      var j := 0;
      while j < |verbs|
        invariant 0 <= j <= |verbs|
        invariant es == done + MethodEntries(path, verbs[..j])
        invariant tags == Group(es)
      {
        var verb, attrs := verbs[j].0, verbs[j].1;
        if attrs.tags.Some? {
          tags := AddTags(tags, es, attrs.tags.value, EncodeKey(path, verb));
        } else {
          assert es + OperationEntries(path, verb, attrs) == es;
        }
        MethodEntriesSnoc(done, path, verbs, j);
        es := es + OperationEntries(path, verb, attrs);
        j := j + 1;
      }
      assert verbs[..j] == verbs;
      PathEntriesSnoc(paths, i);
      i := i + 1;
    }
    assert paths[..i] == paths;
  }

  /** The innermost loop of `gen_topics`, over the tags of one operation with key `key`:
    * `tags[tag] = []` for a new tag, then `tags[tag].append(key)` unless the list holds
    * `key` already. Applied to the dict of the pairs `es`, it gives the dict of `es`
    * followed by this operation's pairs. */
  method AddTags(tags: Topics, ghost es: seq<Entry>, opTags: seq<string>, key: string) returns (r: Topics)
    requires tags == Group(es)
    ensures r == Group(es + TagEntries(opTags, key))
  {
    r := tags;
    TagEntriesSnoc(es, opTags, key, 0);
    var k := 0;
    while k < |opTags|
      invariant 0 <= k <= |opTags|
      invariant r == Group(es + TagEntries(opTags[..k], key))
    {
      var tag := opTags[k];
      GroupSnoc(es + TagEntries(opTags[..k], key), (tag, key));
      TagEntriesSnoc(es, opTags, key, k + 1);
      if tag !in r.groups {
        r := Topics(r.order + [tag], r.groups[tag := []]);
      }
      if key !in r.groups[tag] {
        r := Topics(r.order, r.groups[tag := r.groups[tag] + [key]]);
      }
      k := k + 1;
    }
    assert opTags[..k] == opTags;
  }

  /** Appending one pair to the iteration appends one step to the dict updates. */
  lemma GroupSnoc(es: seq<Entry>, e: Entry)
    ensures Group(es + [e]) == Add(Group(es), e)
  {
    assert (es + [e])[..|es|] == es;
  }

  /** The pairs of the first `k` tags, then one more. */
  lemma TagEntriesSnoc(before: seq<Entry>, tags: seq<string>, key: string, k: int)
    requires 0 <= k <= |tags|
    ensures k == 0 ==> before + TagEntries(tags[..k], key) == before
    ensures k > 0 ==> before + TagEntries(tags[..k], key)
                      == (before + TagEntries(tags[..k - 1], key)) + [(tags[k - 1], key)]
  {
  }

  /** One more method of a path adds that operation's pairs. */
  lemma MethodEntriesSnoc(done: seq<Entry>, path: string, verbs: Object<Operation>, j: int)
    requires 0 <= j < |verbs|
    ensures done + MethodEntries(path, verbs[..j + 1])
            == (done + MethodEntries(path, verbs[..j])) + OperationEntries(path, verbs[j].0, verbs[j].1)
  {
    assert verbs[..j + 1][..j] == verbs[..j];
  }

  /** One more path adds the pairs of its methods. */
  lemma PathEntriesSnoc(paths: Paths, i: int)
    requires 0 <= i < |paths|
    ensures PathEntries(paths[..i + 1]) == PathEntries(paths[..i]) + MethodEntries(paths[i].0, paths[i].1)
  {
    assert paths[..i + 1][..i] == paths[..i];
  }

  // ---- What gen_topics promises ----------------------------------------------------

  /** Operation `j` of path `i` carries tag `e.0` and has key `e.1`. */
  predicate EntryAt(paths: Paths, i: int, j: int, e: Entry) {
    && 0 <= i < |paths| && 0 <= j < |paths[i].1|
    && var op := paths[i].1[j].1;
    && op.tags.Some? && e.0 in op.tags.value
    && e.1 == EncodeKey(paths[i].0, paths[i].1[j].0)
  }

  lemma {:induction false} MethodEntriesMember(paths: Paths, i: int, n: int, e: Entry)
    requires 0 <= i < |paths| && 0 <= n <= |paths[i].1|
    ensures e in MethodEntries(paths[i].0, paths[i].1[..n]) <==> exists j :: 0 <= j < n && EntryAt(paths, i, j, e)
    decreases n
  {
    var verbs := paths[i].1[..n];
    if n > 0 {
      assert verbs[..n - 1] == paths[i].1[..n - 1];
      MethodEntriesMember(paths, i, n - 1, e);
      var last := verbs[n - 1];
      assert e in OperationEntries(paths[i].0, last.0, last.1) <==> EntryAt(paths, i, n - 1, e) by {
        if EntryAt(paths, i, n - 1, e) {
          var tags := last.1.tags.value;
          var k :| 0 <= k < |tags| && tags[k] == e.0;
          assert OperationEntries(paths[i].0, last.0, last.1)[k] == e;
        }
      }
    }
  }

  lemma {:induction false} PathEntriesMember(paths: Paths, n: int, e: Entry)
    requires 0 <= n <= |paths|
    ensures e in PathEntries(paths[..n]) <==> exists i, j :: 0 <= i < n && EntryAt(paths, i, j, e)
    decreases n
  {
    if n > 0 {
      var ps := paths[..n];
      assert ps[..n - 1] == paths[..n - 1];
      var verbs := paths[n - 1].1;
      var before, here := PathEntries(paths[..n - 1]), MethodEntries(paths[n - 1].0, verbs);
      assert PathEntries(ps) == before + here;
      PathEntriesMember(paths, n - 1, e);
      MethodEntriesMember(paths, n - 1, |verbs|, e);
      assert verbs[..|verbs|] == verbs;
      if e in before + here {
        if e in before {
          var i, j :| 0 <= i < n - 1 && EntryAt(paths, i, j, e);
          assert 0 <= i < n && EntryAt(paths, i, j, e);
        } else {
          var j :| 0 <= j < |verbs| && EntryAt(paths, n - 1, j, e);
          assert 0 <= n - 1 < n && EntryAt(paths, n - 1, j, e);
        }
      }
      if exists i, j :: 0 <= i < n && EntryAt(paths, i, j, e) {
        var i, j :| 0 <= i < n && EntryAt(paths, i, j, e);
        if i < n - 1 {
          assert e in before;
        } else {
          assert e in here;
        }
      }
    }
  }

  /** The shape `gen_topics` guarantees: a dict whose lists are non-empty and free of
    * repeats, holding a key under a tag exactly when some operation with that key
    * declares that tag. */
  lemma GenTopicsShape(paths: Paths)
    ensures Valid(GenTopicsSpec(paths))
    ensures forall tag :: tag in GenTopicsSpec(paths).groups ==>
              |GenTopicsSpec(paths).groups[tag]| > 0 && NoDuplicates(GenTopicsSpec(paths).groups[tag])
    ensures forall tag, key :: (tag in GenTopicsSpec(paths).groups && key in GenTopicsSpec(paths).groups[tag])
              <==> exists i, j :: EntryAt(paths, i, j, (tag, key))
  {
    var es := PathEntries(paths);
    var t := GenTopicsSpec(paths);
    GroupOrder(es);
    DedupProperties(TagsOf(es));
    forall tag | tag in t.groups
      ensures |t.groups[tag]| > 0 && NoDuplicates(t.groups[tag])
      ensures forall key :: key in t.groups[tag] <==> (tag, key) in es
    {
      GroupList(es, tag);
      DedupProperties(KeysFor(es, tag));
      KeysForMember(es, tag);
      var k :| 0 <= k < |TagsOf(es)| && TagsOf(es)[k] == tag;
      assert es[k].1 in KeysFor(es, tag);
    }
    forall tag, key ensures (tag in t.groups && key in t.groups[tag]) <==> exists i, j :: EntryAt(paths, i, j, (tag, key)) {
      assert paths[..|paths|] == paths;
      PathEntriesMember(paths, |paths|, (tag, key));
      if (tag, key) in es {
        var k :| 0 <= k < |es| && es[k] == (tag, key);
        assert TagsOf(es)[k] == tag;
      }
    }
  }

  /** `KeysFor(es, tag)` holds exactly the keys `es` pairs with `tag`. */
  lemma {:induction false} KeysForMember(es: seq<Entry>, tag: string)
    ensures forall key :: key in KeysFor(es, tag) <==> (tag, key) in es
    decreases |es|
  {
    if es != [] {
      var init := es[..|es| - 1];
      KeysForMember(init, tag);
      assert es == init + [es[|es| - 1]];
    }
  }

  /** `paths` is a dict of dicts. */
  predicate DictShaped(paths: Paths) {
    && DistinctKeys(paths)
    && forall i :: 0 <= i < |paths| ==> DistinctKeys(paths[i].1)
  }

  /** Every path and method of `paths` can be recovered from its key. */
  predicate SafeKeys(paths: Paths) {
    forall i, j :: 0 <= i < |paths| && 0 <= j < |paths[i].1| ==> KeySafe(paths[i].0, paths[i].1[j].0)
  }

  /** An operation is listed under exactly the tags it declares: under none when it has
    * no `tags`, and under each of its distinct tags once. */
  lemma OperationTopics(paths: Paths, i: int, j: int, tag: string)
    requires DictShaped(paths) && SafeKeys(paths)
    requires 0 <= i < |paths| && 0 <= j < |paths[i].1|
    ensures var t := GenTopicsSpec(paths);
            var op := paths[i].1[j].1;
            (tag in t.groups && EncodeKey(paths[i].0, paths[i].1[j].0) in t.groups[tag])
              <==> (op.tags.Some? && tag in op.tags.value)
  {
    GenTopicsShape(paths);
    var key := EncodeKey(paths[i].0, paths[i].1[j].0);
    if exists i', j' :: EntryAt(paths, i', j', (tag, key)) {
      var i', j' :| EntryAt(paths, i', j', (tag, key));
      EncodeInjective(paths[i].0, paths[i].1[j].0, paths[i'].0, paths[i'].1[j'].0);
      assert paths[i].0 == paths[i'].0;
      assert i == i';
      assert paths[i].1[j].0 == paths[i].1[j'].0;
      assert j == j';
    } else {
      assert !EntryAt(paths, i, j, (tag, key));
    }
  }
}
