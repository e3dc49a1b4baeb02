/**
  The few Python string builtins the provider code relies on: substring
  search (`in`, `str.split(sep, 1)`) and `str.strip()`.  The code base is
  Python 2 (it uses `xrange`), so strings are byte strings and `strip()`
  removes the six ASCII whitespace characters.
 */
module Text {
  import opened Base

  /** `pat` occurs in `s` starting at index `i`. */
  predicate OccursAt(s: string, pat: string, i: int) {
    0 <= i && i + |pat| <= |s| && s[i..i + |pat|] == pat
  }

  /** Index of the first occurrence of `pat` in `s` at or after `from`. */
  function FindFrom(s: string, pat: string, from: nat): (r: Option<nat>)
    ensures r.Some? ==> from <= r.value && OccursAt(s, pat, r.value)
    ensures r.Some? ==> forall k :: from <= k < r.value ==> !OccursAt(s, pat, k)
    ensures r.None? ==> forall k :: from <= k ==> !OccursAt(s, pat, k)
    decreases |s| - from
  {
    if from + |pat| > |s| then None
    else if s[from..from + |pat|] == pat then Some(from)
    else FindFrom(s, pat, from + 1)
  }

  /** Python's `s.find(pat)`, as an option instead of -1. */
  function Find(s: string, pat: string): (r: Option<nat>)
    ensures r.Some? ==> OccursAt(s, pat, r.value) && forall k :: 0 <= k < r.value ==> !OccursAt(s, pat, k)
    ensures r.None? ==> forall k :: !OccursAt(s, pat, k)
  {
    FindFrom(s, pat, 0)
  }

  /** Python's `pat in s`. */
  predicate Contains(s: string, pat: string)
    ensures Contains(s, pat) <==> exists k :: OccursAt(s, pat, k)
  {
    Find(s, pat).Some?
  }

  /**
    Python's `s.split(sep, 1)`: one part when `sep` does not occur, otherwise
    the text before the first occurrence and everything after it.  (Python
    refuses an empty separator.)
   */
  function SplitOnce(s: string, sep: string): (parts: seq<string>)
    requires sep != ""
    ensures |parts| == 1 <==> !Contains(s, sep)
    ensures |parts| == 1 ==> parts[0] == s
    ensures |parts| == 2 ==> s == parts[0] + sep + parts[1]
    ensures |parts| == 2 ==> forall k :: 0 <= k < |parts[0]| ==> !OccursAt(s, sep, k)
    ensures |parts| == 1 || |parts| == 2
  {
    match Find(s, sep)
    case None => [s]
    case Some(i) =>
      assert s == s[..i] + sep + s[i + |sep|..];
      [s[..i], s[i + |sep|..]]
  }

  /** A string built around a first occurrence of `sep` splits back into its two sides. */
  lemma SplitOnceAtFirst(s: string, sep: string, before: string, after: string)
    requires sep != "" && s == before + sep + after
    requires forall k :: 0 <= k < |before| ==> !OccursAt(s, sep, k)
    ensures SplitOnce(s, sep) == [before, after]
  {
    assert s[|before|..|before| + |sep|] == sep;
    assert OccursAt(s, sep, |before|);
    var parts := SplitOnce(s, sep);
    var i := |parts[0]|;
    assert OccursAt(s, sep, i) by {
      assert s[i..i + |sep|] == (parts[0] + sep + parts[1])[i..i + |sep|];
    }
    assert i == |before|;
    assert parts[0] == s[..i] == before;
    assert parts[1] == s[i + |sep|..] == after;
  }

  /** The characters Python 2's `str.strip()` removes. */
  predicate IsSpace(c: char) {
    c == ' ' || c == '\t' || c == '\n' || c == '\r' || c == '\U{000B}' || c == '\U{000C}'
  }

  predicate AllSpace(s: string) {
    forall k :: 0 <= k < |s| ==> IsSpace(s[k])
  }

  /** Neither end of `r` is whitespace. */
  predicate Trimmed(r: string) {
    r == [] || (!IsSpace(r[0]) && !IsSpace(r[|r| - 1]))
  }

  /** Length of the longest all-whitespace prefix. */
  function LeadingSpaces(s: string): (n: nat)
    ensures n <= |s| && AllSpace(s[..n])
    ensures n < |s| ==> !IsSpace(s[n])
  {
    if s == [] || !IsSpace(s[0]) then 0
    else
      var n := 1 + LeadingSpaces(s[1..]);
      assert s[..n] == [s[0]] + s[1..][..n - 1];
      n
  }

  /** Length of the longest all-whitespace suffix. */
  function TrailingSpaces(s: string): (n: nat)
    ensures n <= |s| && AllSpace(s[|s| - n..])
    ensures n < |s| ==> !IsSpace(s[|s| - n - 1])
  {
    if s == [] || !IsSpace(s[|s| - 1]) then 0
    else
      var front := s[..|s| - 1];
      var n := 1 + TrailingSpaces(front);
      assert s[|s| - n..] == front[|front| - (n - 1)..] + [s[|s| - 1]];
      n
  }

  /**
    Python 2's `s.strip()`: `s` without its whitespace prefix and suffix, so
    `s` is the result surrounded by whitespace only.
   */
  function Strip(s: string): (r: string)
    ensures Trimmed(r)
    ensures exists i :: 0 <= i <= |s| - |r| && s[i..i + |r|] == r && AllSpace(s[..i]) && AllSpace(s[i + |r|..])
  {
    var lead := LeadingSpaces(s);
    if lead == |s| then
      assert s[0..0] == [] && s[..0] == [] && s[0..] == s[..lead];
      []
    else
      var last := |s| - TrailingSpaces(s);
      assert lead < last;
      assert s[lead..last][..] == s[lead..last];
      s[lead..last]
  }

  /**
    `Strip` is the only way to peel whitespace off both ends: whatever
    trimmed core `r` a string is built around, `Strip` returns exactly `r`.
   */
  lemma StripUnique(a: string, r: string, b: string)
    requires AllSpace(a) && AllSpace(b) && Trimmed(r)
    ensures Strip(a + r + b) == r
  {
    var s := a + r + b;
    if r == [] {
      assert AllSpace(s) by {
        forall k | 0 <= k < |s| ensures IsSpace(s[k]) {
          if k < |a| { assert s[k] == a[k]; } else { assert s[k] == b[k - |a|]; }
        }
      }
    } else {
      assert s[..|a|] == a;
      assert s[|a|] == r[0];
      var lead := LeadingSpaces(s);
      assert lead == |a|;
      assert s[|s| - |b|..] == b;
      assert s[|s| - |b| - 1] == r[|r| - 1];
      var trail := TrailingSpaces(s);
      assert trail == |b|;
      assert s[|a|..|s| - |b|] == r;
    }
  }

  /** Stripping twice is stripping once. */
  lemma StripIdempotent(s: string)
    ensures Strip(Strip(s)) == Strip(s)
  {
    var r := Strip(s);
    assert AllSpace([]);
    assert [] + r + [] == r;
    StripUnique([], r, []);
  }

  /** No line break in `s` (what a `.` of Python's `re` refuses). */
  predicate NoNewline(s: string) {
    forall k :: 0 <= k < |s| ==> s[k] != '\n'
  }
}
