/**
  The part of Python's `fnmatch.fnmatch` that repository filters use: `*`
  matches any run of characters (slashes included), `?` any one character,
  and every other character itself.  Bracket classes are not modelled.
 */
module Glob {

  /** Does the whole of `name` match the shell-style `pattern`? */
  predicate Matches(pattern: string, name: string)
    decreases |pattern| + |name|
  {
    if pattern == [] then name == []
    else if pattern[0] == '*' then
      Matches(pattern[1..], name) || (name != [] && Matches(pattern, name[1..]))
    else
      name != [] && (pattern[0] == '?' || pattern[0] == name[0]) && Matches(pattern[1..], name[1..])
  }

  /** A pattern without wildcards. */
  predicate Literal(pattern: string) {
    forall k :: 0 <= k < |pattern| ==> pattern[k] != '*' && pattern[k] != '?'
  }

  /** The default filter `"*"` lets every name through. */
  lemma {:induction false} StarMatchesAll(name: string)
    ensures Matches("*", name)
  {
    if name != [] {
      StarMatchesAll(name[1..]);
    }
  }

  /** A pattern without wildcards matches exactly the name spelled the same. */
  lemma {:induction false} LiteralMatchesItself(pattern: string, name: string)
    requires Literal(pattern)
    ensures Matches(pattern, name) <==> name == pattern
  {
    if pattern != [] && name != [] {
      LiteralMatchesItself(pattern[1..], name[1..]);
    }
  }

  /** A pattern ending in `*` matches every name that extends its literal prefix. */
  lemma {:induction false} PrefixStarMatches(prefix: string, rest: string)
    requires Literal(prefix)
    ensures Matches(prefix + "*", prefix + rest)
  {
    if prefix == [] {
      assert prefix + "*" == "*" && prefix + rest == rest;
      StarMatchesAll(rest);
    } else {
      assert (prefix + "*")[1..] == prefix[1..] + "*";
      assert (prefix + rest)[1..] == prefix[1..] + rest;
      PrefixStarMatches(prefix[1..], rest);
    }
  }
}
