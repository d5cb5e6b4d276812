/** Option, the stock wrapper for a value that may be absent. */
module Wrappers {
  datatype Option<+T> = None | Some(value: T)
}

/**
 * The pieces of JavaScript string and regular-expression semantics the engine
 * relies on: the character classes `\s`, `[\w-]` and `.`, `String.prototype.indexOf`
 * and `String.prototype.replace` with a string pattern.
 */
module Strings {

  /** The characters a regular-expression `.` does not match. */
  predicate IsLineTerminator(c: char) {
    c == '\n' || c == '\r' || c == '\U{2028}' || c == '\U{2029}'
  }

  /** The regular-expression class `\s`. */
  predicate IsSpace(c: char) {
    || c == '\t' || c == '\n' || c == '\U{000B}' || c == '\U{000C}' || c == '\r' || c == ' '
    || c == '\U{00A0}' || c == '\U{1680}' || ('\U{2000}' <= c <= '\U{200A}')
    || c == '\U{2028}' || c == '\U{2029}' || c == '\U{202F}' || c == '\U{205F}'
    || c == '\U{3000}' || c == '\U{FEFF}'
  }

  /** The class `[\w-]`; under the `i` flag it still holds only these ASCII characters. */
  predicate IsNameChar(c: char) {
    ('a' <= c <= 'z') || ('A' <= c <= 'Z') || ('0' <= c <= '9') || c == '_' || c == '-'
  }

  /** A variable name: what `[\w-]+` matches. */
  predicate IsName(s: string) {
    |s| > 0 && forall i :: 0 <= i < |s| ==> IsNameChar(s[i])
  }

  predicate NoLineTerminator(s: string) {
    forall i :: 0 <= i < |s| ==> !IsLineTerminator(s[i])
  }

  predicate NoDollar(s: string) {
    forall i :: 0 <= i < |s| ==> s[i] != '$'
  }

  /** `c` matches the lower-case ASCII letter `lower` under the `i` flag. */
  predicate SameLetter(c: char, lower: char)
    requires 'a' <= lower <= 'z'
  {
    c == lower || c as int == lower as int - 32
  }

  /** `w` occurs in `s` at position `i`. */
  predicate OccursAt(s: string, w: string, i: int) {
    0 <= i && i + |w| <= |s| && s[i..i + |w|] == w
  }

  function IndexOfFrom(s: string, w: string, i: nat): (r: int)
    requires i <= |s|
    ensures r == -1 || (i <= r && OccursAt(s, w, r))
    ensures forall j :: i <= j && (r == -1 || j < r) ==> !OccursAt(s, w, j)
    decreases |s| - i
  {
    if OccursAt(s, w, i) then i
    else if i == |s| then -1
    else IndexOfFrom(s, w, i + 1)
  }

  /** `s.indexOf(w)`: the first position where `w` occurs, or -1. */
  function IndexOf(s: string, w: string): (r: int)
    ensures r == -1 || OccursAt(s, w, r)
    ensures forall j :: 0 <= j && (r == -1 || j < r) ==> !OccursAt(s, w, j)
  {
    IndexOfFrom(s, w, 0)
  }

  /**
   * The replacement text `str.replace(matched, replacement)` inserts when `matched`
   * was found at `position`: `$$` becomes `$`, `$&` the matched text, `` $` `` the
   * text before it and `$'` the text after it; everything else is literal (a string
   * pattern has no capture groups, so `$1` and `$<` stay as they are).
   */
  function Expand(replacement: string, matched: string, str: string, position: nat): string
    requires position + |matched| <= |str|
    decreases |replacement|
  {
    if replacement == [] then []
    else if replacement[0] == '$' && |replacement| >= 2 then
      var rest := Expand(replacement[2..], matched, str, position);
      if replacement[1] == '$' then "$" + rest
      else if replacement[1] == '&' then matched + rest
      else if replacement[1] == '`' then str[..position] + rest
      else if replacement[1] == '\'' then str[position + |matched|..] + rest
      else "$" + Expand(replacement[1..], matched, str, position)
    else [replacement[0]] + Expand(replacement[1..], matched, str, position)
  }

  /** `str.replace(pattern, replacement)` with a string pattern: only the first occurrence is replaced. */
  function ReplaceFirst(str: string, pattern: string, replacement: string): (r: string)
    ensures IndexOf(str, pattern) == -1 ==> r == str
  {
    var i := IndexOf(str, pattern);
    if i == -1 then str
    else str[..i] + Expand(replacement, pattern, str, i) + str[i + |pattern|..]
  }

  /** A replacement without `$` is inserted literally. */
  lemma {:induction false} ExpandLiteral(replacement: string, matched: string, str: string, position: nat)
    requires position + |matched| <= |str|
    requires NoDollar(replacement)
    ensures Expand(replacement, matched, str, position) == replacement
    decreases |replacement|
  {
    if replacement != [] {
      ExpandLiteral(replacement[1..], matched, str, position);
    }
  }

  /**
   * Replacing the first occurrence of a pattern by a `$`-free text: when the pattern
   * first occurs at `i`, the result is the text around it with the replacement spliced in.
   */
  lemma ReplaceFirstAt(str: string, pattern: string, replacement: string, i: nat)
    requires OccursAt(str, pattern, i)
    requires forall j :: 0 <= j < i ==> !OccursAt(str, pattern, j)
    requires NoDollar(replacement)
    ensures ReplaceFirst(str, pattern, replacement) == str[..i] + replacement + str[i + |pattern|..]
  {
    var k := IndexOf(str, pattern);
    assert k == i;
    ExpandLiteral(replacement, pattern, str, i);
  }

  /** `"$name".replace('$', '')` is the name, which is how a `$other` reference is read. */
  lemma {:induction false} DropSigil(name: string)
    ensures ReplaceFirst("$" + name, "$", "") == name
  {
    assert OccursAt("$" + name, "$", 0);
    assert IndexOf("$" + name, "$") == 0;
  }
}
