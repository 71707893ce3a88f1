/** Python's `str.split(sep)` with an explicit, non-empty separator, and its inverse
  * `sep.join(parts)`. The page builder splits topic keys on "^^" and `$ref`
  * pointers on "/". */
module PyStrings {
  import opened Wrappers

  /** `sep` occurs in `s` starting at index `i`. */
  predicate OccursAt(s: string, sep: string, i: nat) {
    i + |sep| <= |s| && s[i..i + |sep|] == sep
  }

  /** Python's `sep in s`. */
  predicate Contains(s: string, sep: string) {
    exists i: nat | i <= |s| :: OccursAt(s, sep, i)
  }

  /** An occurrence in a suffix is an occurrence in the whole string, shifted. */
  lemma OccursInSuffix(s: string, sep: string, lo: nat, j: nat)
    requires lo <= |s|
    ensures OccursAt(s[lo..], sep, j) <==> OccursAt(s, sep, lo + j)
  {
    if lo + j + |sep| <= |s| {
      assert s[lo..][j..j + |sep|] == s[lo + j..lo + j + |sep|];
    }
  }

  /** An occurrence in a prefix is an occurrence in the whole string. */
  lemma OccursInPrefix(s: string, sep: string, hi: nat, j: nat)
    requires hi <= |s| && OccursAt(s[..hi], sep, j)
    ensures OccursAt(s, sep, j)
  {
    assert s[..hi][j..j + |sep|] == s[j..j + |sep|];
  }

  /** Python's `s.find(sep)`, with None for -1: the first index where `sep` occurs. */
  function IndexOf(s: string, sep: string): (r: Option<nat>)
    requires |sep| > 0
    ensures r.None? <==> !Contains(s, sep)
    ensures r.Some? ==> OccursAt(s, sep, r.value)
    ensures r.Some? ==> forall j: nat :: j < r.value ==> !OccursAt(s, sep, j)
    decreases |s|
  {
    if |s| < |sep| then None
    else if s[..|sep|] == sep then
      assert OccursAt(s, sep, 0);
      Some(0)
    else
      var r := IndexOf(s[1..], sep);
      assert !OccursAt(s, sep, 0);
      match r
      case None =>
        assert !Contains(s, sep) by {
          forall i: nat | i <= |s| ensures !OccursAt(s, sep, i) {
            if i > 0 {
              OccursInSuffix(s, sep, 1, i - 1);
            }
          }
        }
        None
      case Some(i) =>
        OccursInSuffix(s, sep, 1, i);
        assert forall j: nat :: j < i + 1 ==> !OccursAt(s, sep, j) by {
          forall j: nat | 0 < j < i + 1 ensures !OccursAt(s, sep, j) {
            OccursInSuffix(s, sep, 1, j - 1);
          }
        }
        Some(i + 1)
  }

  /** Python's `sep.join(parts)`. */
  function Join(parts: seq<string>, sep: string): string
    decreases |parts|
  {
    if |parts| == 0 then ""
    else if |parts| == 1 then parts[0]
    else parts[0] + sep + Join(parts[1..], sep)
  }

  /** The text before the first occurrence of `sep` holds no `sep`. */
  lemma BeforeFirstOccurrence(s: string, sep: string, i: nat)
    requires |sep| > 0 && i <= |s|
    requires forall j: nat :: j < i ==> !OccursAt(s, sep, j)
    ensures !Contains(s[..i], sep)
  {
    forall j: nat | j <= i ensures !OccursAt(s[..i], sep, j) {
      if OccursAt(s[..i], sep, j) {
        OccursInPrefix(s, sep, i, j);
      }
    }
  }

  /** Python's `s.split(sep)`: cut at the leftmost occurrence of `sep`, then go on
    * after it. A string without `sep` splits into itself alone. */
  function Split(s: string, sep: string): (parts: seq<string>)
    requires |sep| > 0
    ensures |parts| >= 1
    decreases |s|
  {
    match IndexOf(s, sep)
    case None => [s]
    case Some(i) => [s[..i]] + Split(s[i + |sep|..], sep)
  }

  /** A string without `sep` splits into itself alone. */
  lemma SplitWithout(s: string, sep: string)
    requires |sep| > 0 && !Contains(s, sep)
    ensures Split(s, sep) == [s]
  {
  }

  /** Joining the pieces of a split with the separator gives the string back. */
  lemma {:induction false} SplitJoin(s: string, sep: string)
    requires |sep| > 0
    ensures Join(Split(s, sep), sep) == s
    decreases |s|
  {
    var parts := Split(s, sep);
    match IndexOf(s, sep)
    case None =>
      assert parts == [s];
    case Some(i) =>
      var rest := s[i + |sep|..];
      var tail := Split(rest, sep);
      assert parts == [s[..i]] + tail;
      SplitJoin(rest, sep);
      JoinCons(s[..i], tail, sep);
      assert s[i..i + |sep|] == sep;
      assert s == s[..i] + s[i..i + |sep|] + rest;
  }

  lemma JoinCons(head: string, tail: seq<string>, sep: string)
    requires |tail| >= 1
    ensures Join([head] + tail, sep) == head + sep + Join(tail, sep)
  {
    assert ([head] + tail)[1..] == tail;
  }

  /** No piece of a split holds the separator. */
  lemma {:induction false} SplitPiecesFree(s: string, sep: string)
    requires |sep| > 0
    ensures forall k :: 0 <= k < |Split(s, sep)| ==> !Contains(Split(s, sep)[k], sep)
    decreases |s|
  {
    var parts := Split(s, sep);
    match IndexOf(s, sep)
    case None =>
      assert parts == [s];
    case Some(i) =>
      BeforeFirstOccurrence(s, sep, i);
      var tail := Split(s[i + |sep|..], sep);
      SplitPiecesFree(s[i + |sep|..], sep);
      assert parts == [s[..i]] + tail;
      forall k | 0 < k < |parts| ensures !Contains(parts[k], sep) {
        assert parts[k] == tail[k - 1];
      }
  }

  /** With a one-character separator, the last piece of `a + sep + b` is `b` when `b`
    * holds no `sep`: `pointer.split('/')[-1]` is the name after the last slash. */
  lemma {:induction false} SplitLastAfterSeparator(a: string, sep: string, b: string)
    requires |sep| == 1 && !Contains(b, sep)
    ensures var parts := Split(a + sep + b, sep); parts[|parts| - 1] == b
    decreases |a|
  {
    var s := a + sep + b;
    assert OccursAt(s, sep, |a|) by { assert s[|a|..|a| + 1] == sep; }
    assert Contains(s, sep) by { assert |a| <= |s|; }
    var i := IndexOf(s, sep).value;
    assert i <= |a|;
    var tail := Split(s[i + 1..], sep);
    var parts := Split(s, sep);
    assert parts == [s[..i]] + tail;
    assert parts[|parts| - 1] == tail[|tail| - 1];
    if i == |a| {
      assert s[i + 1..] == b;
      SplitWithout(b, sep);
    } else {
      assert s[i + 1..] == a[i + 1..] + sep + b;
      SplitLastAfterSeparator(a[i + 1..], sep, b);
    }
  }
}
