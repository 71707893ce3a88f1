/** The key under which a topic lists an operation: `'{}^^{}'.format(path, method)`,
  * split back into path and method with `key.split('^^')`. */
module TopicKeys {
  import opened Wrappers
  import opened PyStrings

  const Separator: string := "^^"

  /** The key of the operation for HTTP method `verb` on `path`. */
  function EncodeKey(path: string, verb: string): string
  {
    path + Separator + verb
  }

  /** The pairs whose key split back into themselves: neither part holds "^^", and
    * the path does not end with '^' (which would glue onto the separator). */
  predicate KeySafe(path: string, verb: string) {
    && !Contains(path, Separator)
    && !Contains(verb, Separator)
    && (|path| == 0 || path[|path| - 1] != '^')
  }

  /** Splitting the key of a safe pair gives back exactly [path, verb]. */
  lemma {:induction false} DecodeEncode(path: string, verb: string)
    requires KeySafe(path, verb)
    ensures Split(EncodeKey(path, verb), Separator) == [path, verb]
  {
    var key := EncodeKey(path, verb);
    assert OccursAt(key, Separator, |path|) by {
      assert key[|path|..|path| + 2] == Separator;
    }
    forall j: nat | j < |path| ensures !OccursAt(key, Separator, j) {
      if OccursAt(key, Separator, j) {
        assert key[j] == '^' && key[j + 1] == '^' by {
          assert key[j..j + 2] == Separator;
        }
        if j + 1 < |path| {
          assert path[j..j + 2] == key[j..j + 2];
          assert OccursAt(path, Separator, j);
        }
      }
    }
    assert IndexOf(key, Separator) == Some(|path|);
    assert key[..|path|] == path;
    assert key[|path| + 2..] == verb;
    assert IndexOf(verb, Separator).None?;
  }

  /** Distinct safe pairs get distinct keys, so a key names one operation. */
  lemma EncodeInjective(p1: string, m1: string, p2: string, m2: string)
    requires KeySafe(p1, m1) && KeySafe(p2, m2)
    requires EncodeKey(p1, m1) == EncodeKey(p2, m2)
    ensures p1 == p2 && m1 == m2
  {
    DecodeEncode(p1, m1);
    DecodeEncode(p2, m2);
  }

  /** A string whose characters after the first are never '^' holds no "^^". */
  lemma NoCaretAfterFirst(s: string)
    requires forall k :: 1 <= k < |s| ==> s[k] != '^'
    ensures !Contains(s, Separator)
  {
    forall j: nat | j <= |s| ensures !OccursAt(s, Separator, j) {
      if j + 2 <= |s| {
        assert s[j..j + 2][1] == s[j + 1];
      }
    }
  }

  /** With `q` free of "^^" and not ending in '^', no "^^" starts inside `q + rest`
    * before index `|q|`. */
  lemma NoSeparatorBefore(q: string, rest: string, j: nat)
    requires !Contains(q, Separator) && (|q| == 0 || q[|q| - 1] != '^')
    requires j < |q|
    ensures !OccursAt(q + rest, Separator, j)
  {
    var key := q + rest;
    if j + 2 <= |q| {
      assert key[j..j + 2] == q[j..j + 2];
      assert !OccursAt(q, Separator, j);
    } else if j + 2 <= |key| {
      assert key[j..j + 2][0] == q[j];
    }
  }

  /** A path ending in one '^' loses it to the method: the key of `(q + "^", verb)`
    * splits into `[q, "^" + verb]` when `q` is itself safe and `verb` holds no '^'. */
  lemma TrailingCaretGlues(q: string, verb: string)
    requires !Contains(q, Separator) && (|q| == 0 || q[|q| - 1] != '^')
    requires forall k :: 0 <= k < |verb| ==> verb[k] != '^'
    ensures !Contains(q + "^", Separator) && !Contains(verb, Separator)
    ensures Split(EncodeKey(q + "^", verb), Separator) == [q, "^" + verb]
  {
    assert EncodeKey(q + "^", verb) == EncodeKey(q, "^" + verb);
    assert forall k :: 1 <= k < |"^" + verb| ==> ("^" + verb)[k] == verb[k - 1];
    NoCaretAfterFirst("^" + verb);
    DecodeEncode(q, "^" + verb);
    NoCaretAfterFirst(verb);
    TrailingCaretFree(q);
  }

  /** `q + "^"` holds no "^^" when `q` holds none and does not end in '^'. */
  lemma TrailingCaretFree(q: string)
    requires !Contains(q, Separator) && (|q| == 0 || q[|q| - 1] != '^')
    ensures !Contains(q + "^", Separator)
  {
    forall j: nat | j <= |q| + 1 ensures !OccursAt(q + "^", Separator, j) {
      if j < |q| {
        NoSeparatorBefore(q, "^", j);
      }
    }
  }

  /** Leaving out the trailing-'^' condition breaks the round trip even though neither
    * part holds "^^": the key of ("/a^", "get") splits into ["/a", "^get"]. */
  lemma TrailingCaretMisdecodes()
    ensures !Contains("/a^", Separator) && !Contains("get", Separator)
    ensures Split(EncodeKey("/a^", "get"), Separator) == ["/a", "^get"]
  {
    NoCaretAfterFirst("/a");
    TrailingCaretGlues("/a", "get");
    assert "/a" + "^" == "/a^" && "^" + "get" == "^get";
  }
}
