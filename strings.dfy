/**
 * The part of JavaScript's `String.prototype.split` with a non-empty string
 * separator that the controller relies on, and the `split('v=')[1]` it uses
 * to keep only the video id of a video URL.
 */
module Strings {
  import opened Wrappers

  /** `pat` occurs in `s` starting at position `k`. */
  predicate OccursAt(s: string, pat: string, k: int) {
    0 <= k && k + |pat| <= |s| && s[k..k + |pat|] == pat
  }

  predicate Contains(s: string, pat: string) {
    exists k :: 0 <= k <= |s| && OccursAt(s, pat, k)
  }

  /** `s.indexOf(pat, from)`: the first occurrence of `pat` at or after `from`. */
  function IndexFrom(s: string, pat: string, from: nat): (r: Option<nat>)
    requires |pat| > 0
    ensures r.Some? ==> from <= r.value && OccursAt(s, pat, r.value)
    ensures r.Some? ==> forall k :: from <= k < r.value ==> !OccursAt(s, pat, k)
    ensures r.None? ==> forall k :: from <= k ==> !OccursAt(s, pat, k)
    decreases |s| - from
  {
    if from + |pat| > |s| then None
    else if s[from..from + |pat|] == pat then Some(from)
    else IndexFrom(s, pat, from + 1)
  }

  /** The pieces joined back with the separator between them. */
  function Join(parts: seq<string>, sep: string): string {
    if |parts| == 0 then ""
    else if |parts| == 1 then parts[0]
    else parts[0] + sep + Join(parts[1..], sep)
  }

  /** A prefix of `s` that ends before the first occurrence of `pat` does not contain it. */
  lemma PrefixBeforeFirst(s: string, pat: string, i: nat)
    requires |pat| > 0 && i <= |s|
    requires forall k :: 0 <= k < i ==> !OccursAt(s, pat, k)
    ensures !Contains(s[..i], pat)
  {
    forall k | OccursAt(s[..i], pat, k)
      ensures false
    {
      assert s[..i][k..k + |pat|] == s[k..k + |pat|];
      assert OccursAt(s, pat, k);
    }
  }

  /** Joining a piece in front of at least one more puts one separator between. */
  lemma JoinCons(a: string, rest: seq<string>, sep: string)
    requires |rest| >= 1
    ensures Join([a] + rest, sep) == a + sep + Join(rest, sep)
  {
    assert ([a] + rest)[1..] == rest;
  }

  /** `s` is the text before position `i`, then `pat`, then the rest. */
  lemma AroundOccurrence(s: string, pat: string, i: nat)
    requires OccursAt(s, pat, i)
    ensures s == s[..i] + pat + s[i + |pat|..]
  {
    assert s[i..i + |pat|] == pat;
    assert s == s[..i] + s[i..i + |pat|] + s[i + |pat|..];
  }

  /**
   * `s.split(sep)`: the pieces between successive leftmost occurrences of
   * `sep`. Joining them back gives `s`, and no piece contains `sep`.
   */
  function Split(s: string, sep: string): (parts: seq<string>)
    requires |sep| > 0
    ensures |parts| >= 1
    ensures Join(parts, sep) == s
    ensures forall i :: 0 <= i < |parts| ==> !Contains(parts[i], sep)
    ensures |parts| == 1 <==> !Contains(s, sep)
    decreases |s|
  {
    match IndexFrom(s, sep, 0)
    case None => [s]
    case Some(i) =>
      var rest := Split(s[i + |sep|..], sep);
      PrefixBeforeFirst(s, sep, i);
      JoinCons(s[..i], rest, sep);
      AroundOccurrence(s, sep, i);
      assert Contains(s, sep) by { assert OccursAt(s, sep, i); }
      [s[..i]] + rest
  }

  /** `s.split('v=')[1]`, which is `undefined` when `s` holds no `v=`. */
  function VideoId(s: string): Option<string> {
    var parts := Split(s, "v=");
    if |parts| >= 2 then Some(parts[1]) else None
  }

  /** Where the segment that starts at `from` ends: at the next `v=`, or at the end of `s`. */
  function SegmentEnd(s: string, from: nat): (e: nat)
    ensures from <= |s| ==> from <= e <= |s|
  {
    match IndexFrom(s, "v=", from)
    case None => |s|
    case Some(j) => j
  }

  /** Searching a suffix is searching the whole string from the suffix's start. */
  lemma {:induction false} IndexFromSuffix(s: string, pat: string, d: nat, from: nat)
    requires |pat| > 0 && d <= |s|
    ensures IndexFrom(s[d..], pat, from).None? <==> IndexFrom(s, pat, d + from).None?
    ensures IndexFrom(s[d..], pat, from).Some? ==>
      IndexFrom(s, pat, d + from) == Some(d + IndexFrom(s[d..], pat, from).value)
    decreases |s| - d - from
  {
    var t := s[d..];
    if from + |pat| > |t| {
    } else {
      assert t[from..from + |pat|] == s[d + from..d + from + |pat|];
      if t[from..from + |pat|] != pat {
        IndexFromSuffix(s, pat, d, from + 1);
      }
    }
  }

  /** The first piece of a split ends at the first separator, or at the end. */
  lemma SplitHead(s: string, sep: string)
    requires |sep| > 0
    ensures IndexFrom(s, sep, 0).None? ==> Split(s, sep)[0] == s
    ensures IndexFrom(s, sep, 0).Some? ==> Split(s, sep)[0] == s[..IndexFrom(s, sep, 0).value]
  {
  }

  /** After the first separator, splitting goes on with the rest of the string. */
  lemma SplitTail(s: string, sep: string, i: nat)
    requires |sep| > 0 && IndexFrom(s, sep, 0) == Some(i)
    ensures Split(s, sep)[1..] == Split(s[i + |sep|..], sep)
  {
  }

  /** A string with a `v=` yields, as video id, the first piece of what follows it. */
  lemma VideoIdAfterFirst(s: string, i: nat)
    requires IndexFrom(s, "v=", 0) == Some(i)
    ensures VideoId(s) == Some(Split(s[i + 2..], "v=")[0])
  {
    SplitTail(s, "v=", i);
    var parts := Split(s, "v=");
    assert parts[1..] == Split(s[i + 2..], "v=");
    assert parts[1..][0] == parts[1];
  }

  /** The first piece of what follows position `d` ends where the segment from `d` ends. */
  lemma FirstPieceIsSegment(s: string, d: nat)
    requires d <= |s|
    ensures Split(s[d..], "v=")[0] == s[d..SegmentEnd(s, d)]
  {
    var t := s[d..];
    SplitHead(t, "v=");
    IndexFromSuffix(s, "v=", d, 0);
    assert d + 0 == d;
    var head := Split(t, "v=")[0];
    var e := SegmentEnd(s, d);
    if IndexFrom(t, "v=", 0).Some? {
      var j := IndexFrom(t, "v=", 0).value;
      assert e == d + j;
      assert head == t[..j] == s[d..e];
    } else {
      assert e == |s|;
      assert head == t == s[d..e];
    }
  }

  /**
   * The text between the first `v=` and the next `v=` (or the end of the
   * string); none when `s` holds no `v=`.
   */
  function SecondSegment(s: string): Option<string> {
    match IndexFrom(s, "v=", 0)
    case None => None
    case Some(i) => Some(s[i + 2..SegmentEnd(s, i + 2)])
  }

  /** The stored video body is exactly that segment. */
  lemma VideoIdIsSecondSegment(s: string)
    ensures VideoId(s) == SecondSegment(s)
  {
    var r := IndexFrom(s, "v=", 0);
    if r.Some? {
      VideoIdAt(s, r.value);
    } else {
      SplitHead(s, "v=");
    }
  }

  /** With its first `v=` at `i`, `s` yields the segment after that marker. */
  lemma VideoIdAt(s: string, i: nat)
    requires IndexFrom(s, "v=", 0) == Some(i)
    ensures VideoId(s) == Some(s[i + 2..SegmentEnd(s, i + 2)])
  {
    VideoIdAfterFirst(s, i);
    FirstPieceIsSegment(s, i + 2);
  }

  /** A string without `=` holds no `v=`. */
  lemma NoEqualsNoMarker(s: string)
    requires '=' !in s
    ensures !Contains(s, "v=")
  {
    forall k | 0 <= k && k + 2 <= |s|
      ensures !OccursAt(s, "v=", k)
    {
      assert s[k..k + 2][1] == s[k + 1];
    }
  }

  /** Joining two marker-free strings with `v=` makes that the only `v=`. */
  lemma NoMarkerAround(page: string, id: string, k: int)
    requires !Contains(page, "v=") && !Contains(id, "v=")
    requires 0 <= k < |page| || |page| + 2 <= k
    ensures !OccursAt(page + "v=" + id, "v=", k)
  {
    var s, m := page + "v=" + id, |page|;
    if k + 2 <= m {
      assert s[k..k + 2] == page[k..k + 2];
      assert !OccursAt(page, "v=", k);
    } else if k < m {
      assert s[k..k + 2][1] == s[m] == 'v';
    } else if k + 2 <= |s| {
      var j := k - (m + 2);
      assert s[k..k + 2] == id[j..j + 2];
      assert !OccursAt(id, "v=", j);
    }
  }

  /** A URL whose only `v=` is its marker keeps what follows the marker. */
  lemma VideoIdOfWatchUrl(page: string, id: string)
    requires !Contains(page, "v=") && !Contains(id, "v=")
    ensures VideoId(page + "v=" + id) == Some(id)
  {
    var s := page + "v=" + id;
    var m := |page|;
    VideoIdIsSecondSegment(s);
    assert s[m..m + 2] == "v=";
    assert OccursAt(s, "v=", m);
    forall k | 0 <= k < m || m + 2 <= k
      ensures !OccursAt(s, "v=", k)
    {
      NoMarkerAround(page, id, k);
    }
    assert IndexFrom(s, "v=", 0) == Some(m);
    assert SegmentEnd(s, m + 2) == |s|;
    assert s[m + 2..] == id;
  }

  /** A typical watch URL keeps only its id. */
  lemma VideoIdExample()
    ensures VideoId("https://yt.com/watch?v=ABC123") == Some("ABC123")
  {
    var page, id := "https://yt.com/watch?", "ABC123";
    NoEqualsNoMarker(page);
    NoEqualsNoMarker(id);
    assert page + "v=" + id == "https://yt.com/watch?v=ABC123";
    VideoIdOfWatchUrl(page, id);
  }

  /** An id may itself hold a `v`. */
  lemma VideoIdWithVExample()
    ensures VideoId("https://yt.com/watch?v=vX9") == Some("vX9")
  {
    var page, id := "https://yt.com/watch?", "vX9";
    NoEqualsNoMarker(page);
    NoEqualsNoMarker(id);
    assert page + "v=" + id == "https://yt.com/watch?v=vX9";
    VideoIdOfWatchUrl(page, id);
  }
}
