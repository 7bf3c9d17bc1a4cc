/**
 * The escaping step of `highlightText`: every regular-expression
 * metacharacter in the query is preceded by a backslash before the query is
 * compiled into a pattern, so the pattern matches the query literally.
 */
module Highlight {
  import opened Wrappers

  /** The characters of the class `[.*+?^${}()|[\]\\]`. */
  const Metacharacters: set<char> :=
    {'.', '*', '+', '?', '^', '$', '{', '}', '(', ')', '|', '[', ']', '\\'}

  /** `s.replace(/[.*+?^${}()|[\]\\]/g, '\\$&')`. */
  function EscapeRegExp(s: string): (r: string)
    ensures |s| <= |r| <= 2 * |s|
    ensures r == [] <==> s == []
    decreases |s|
  {
    if s == [] then []
    else (if s[0] in Metacharacters then ['\\', s[0]] else [s[0]]) + EscapeRegExp(s[1..])
  }

  /** The text a pattern made only of plain characters and escaped
      metacharacters matches, or None when the pattern holds a bare
      metacharacter or any other escape. */
  function LiteralOf(pattern: string): Option<string>
    decreases |pattern|
  {
    if pattern == [] then Some([])
    else if pattern[0] == '\\' then
      if |pattern| >= 2 && pattern[1] in Metacharacters then
        match LiteralOf(pattern[2..])
        case Some(rest) => Some([pattern[1]] + rest)
        case None => None
      else None
    else if pattern[0] in Metacharacters then None
    else
      match LiteralOf(pattern[1..])
      case Some(rest) => Some([pattern[0]] + rest)
      case None => None
  }

  /** The escaped query is a literal pattern for exactly the query. */
  lemma {:induction false} EscapeIsLiteral(s: string)
    ensures LiteralOf(EscapeRegExp(s)) == Some(s)
    decreases |s|
  {
    if s != [] {
      EscapeIsLiteral(s[1..]);
      var e := EscapeRegExp(s);
      if s[0] in Metacharacters {
        assert e[2..] == EscapeRegExp(s[1..]);
      } else {
        assert e[1..] == EscapeRegExp(s[1..]);
      }
      assert s == [s[0]] + s[1..];
    }
  }

  /** Escaping is needed: a query holding a metacharacter is not a literal
      pattern as it stands. */
  lemma UnescapedIsNotLiteral(s: string, i: nat)
    requires i < |s| && s[i] in Metacharacters && s[i] != '\\'
    requires forall j :: 0 <= j < i ==> s[j] !in Metacharacters
    ensures LiteralOf(s) == None
    decreases i
  {
    if i > 0 {
      UnescapedIsNotLiteral(s[1..], i - 1);
    }
  }
}
