/** `escapeRegExp` (image-handler.ts and converter.ts each carry an identical copy)
    and the meaning of the pattern it builds. */
module RegexEscape {

  /** The characters that `escapeRegExp` prefixes with a backslash:
      `. * + ? ^ $ { } ( ) | [ ] \`, which are exactly ECMAScript's SyntaxCharacters. */
  predicate IsSyntaxChar(c: char) {
    c in ".*+?^${}()|[]\\"
  }

  /** A regular expression built only from escaped syntax characters (`\(`) and plain
      characters; each such atom matches exactly one character. */
  predicate IsLiteralPattern(p: string)
    decreases |p|
  {
    if p == [] then true
    else if p[0] == '\\' then |p| >= 2 && IsSyntaxChar(p[1]) && IsLiteralPattern(p[2..])
    else !IsSyntaxChar(p[0]) && IsLiteralPattern(p[1..])
  }

  /** The one string a literal pattern matches. */
  function LiteralText(p: string): string
    requires IsLiteralPattern(p)
    decreases |p|
  {
    if p == [] then []
    else if p[0] == '\\' then [p[1]] + LiteralText(p[2..])
    else [p[0]] + LiteralText(p[1..])
  }

  /** `str.replace(/[.*+?^${}()|[\]\\]/g, '\\$&')`: the result is a literal pattern that
      matches exactly `s`, so a pattern built around it matches the original path
      character for character. */
  function EscapeRegExp(s: string): (r: string)
    ensures IsLiteralPattern(r) && LiteralText(r) == s
    ensures |s| <= |r| <= 2 * |s|
    decreases |s|
  {
    if s == [] then []
    else
      var rest := EscapeRegExp(s[1..]);
      var head := if IsSyntaxChar(s[0]) then ['\\', s[0]] else [s[0]];
      assert (head + rest)[|head|..] == rest;
      head + rest
  }

  /** Text without syntax characters is its own pattern. */
  lemma {:induction false} EscapeKeepsPlainText(s: string)
    requires forall k :: 0 <= k < |s| ==> !IsSyntaxChar(s[k])
    ensures EscapeRegExp(s) == s
    decreases |s|
  {
    if s != [] {
      EscapeKeepsPlainText(s[1..]);
    }
  }

  /** Escaping is injective: different paths give different patterns. */
  lemma EscapeInjective(s: string, t: string)
    requires EscapeRegExp(s) == EscapeRegExp(t)
    ensures s == t
  {
  }
}
