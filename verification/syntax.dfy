/**
 * Declarations and the pure recognisers that pull variable syntax out of them
 * (index.js: getHoistedProp, getValueVariables, getVariables, getHoistedDefault,
 * getHoistedVariable, hasVariables, getInlineDefaults and the pattern of
 * replaceValues). Each regular expression of the source is a dedicated scanner.
 */
module Syntax {
  import opened Wrappers
  import opened Strings

  /** A declaration node: property, the raw text between property and value (`: `), value. */
  datatype Decl = Decl(prop: string, between: string, value: string)

  /** A name and the text assigned to it, i.e. a one-key object `{ [name]: value }`. */
  datatype Binding = Binding(name: string, value: string)

  /** `node.toString()` of a declaration. */
  function Render(node: Decl): string {
    node.prop + node.between + node.value
  }

  /** `getHoistedProp`: `^\$(.*?)$` on the property; an empty capture counts as none. */
  function HoistedProp(prop: string): (r: Option<string>)
    ensures r.Some? <==> |prop| > 1 && prop[0] == '$' && NoLineTerminator(prop)
    ensures r.Some? ==> "$" + r.value == prop
  {
    if |prop| > 1 && prop[0] == '$' && NoLineTerminator(prop[1..]) then Some(prop[1..]) else None
  }

  /** The end of the run of name characters that starts at `i`. */
  function NameEnd(s: string, i: nat): (j: nat)
    requires i <= |s|
    ensures i <= j <= |s|
    ensures forall k :: i <= k < j ==> IsNameChar(s[k])
    ensures j == |s| || !IsNameChar(s[j])
    decreases |s| - i
  {
    if i < |s| && IsNameChar(s[i]) then NameEnd(s, i + 1) else i
  }

  /** A `$` at `i` followed by a name character: where `\$([\w-]+)` matches. */
  predicate DollarName(s: string, i: int) {
    0 <= i && i + 1 < |s| && s[i] == '$' && IsNameChar(s[i + 1])
  }

  /** The name captured at a `DollarName` position: the maximal run after the `$`. */
  function NameAt(s: string, i: nat): (n: string)
    requires DollarName(s, i)
    ensures IsName(n) && OccursAt(s, "$" + n, i)
  {
    var n := s[i + 1..NameEnd(s, i + 1)];
    assert s[i..i + 1 + |n|] == "$" + n;
    n
  }

  /** The global scan of `\$([\w-]+)` from position `i`, each match with its `$` removed. */
  function ValueVariablesFrom(s: string, i: nat): (r: seq<string>)
    requires i <= |s|
    ensures forall k :: 0 <= k < |r| ==> IsName(r[k])
    ensures (forall k :: i <= k < |s| ==> s[k] != '$') ==> r == []
    decreases |s| - i
  {
    if i == |s| then []
    else if DollarName(s, i) then
      [NameAt(s, i)] + ValueVariablesFrom(s, NameEnd(s, i + 1))
    else ValueVariablesFrom(s, i + 1)
  }

  /** `getValueVariables`: the names referenced in a value, in order, repeats kept. */
  function ValueVariables(value: string): seq<string> {
    ValueVariablesFrom(value, 0)
  }

  /** The name at every `DollarName` position from `i` on, taken position by position. */
  function NamesAtFrom(s: string, i: nat): seq<string>
    requires i <= |s|
    decreases |s| - i
  {
    if i == |s| then [] else (if DollarName(s, i) then [NameAt(s, i)] else []) + NamesAtFrom(s, i + 1)
  }

  /** No `$` stands inside a name, so the positions a name covers hold no match. */
  lemma {:induction false} NamesAtSkip(s: string, i: nat, j: nat)
    requires i <= j <= |s|
    requires forall k :: i <= k < j ==> IsNameChar(s[k])
    ensures NamesAtFrom(s, i) == NamesAtFrom(s, j)
    decreases j - i
  {
    if i < j {
      assert !DollarName(s, i);
      NamesAtSkip(s, i + 1, j);
    }
  }

  /**
   * The scan of `getValueVariables` misses no match: it lists, in order, the
   * name after every `$` that is followed by a name character.
   */
  lemma {:induction false} ValueVariablesAreNamesAt(s: string, i: nat)
    requires i <= |s|
    ensures ValueVariablesFrom(s, i) == NamesAtFrom(s, i)
    decreases |s| - i
  {
    if i < |s| {
      if DollarName(s, i) {
        var e := NameEnd(s, i + 1);
        NamesAtSkip(s, i + 1, e);
        ValueVariablesAreNamesAt(s, e);
      } else {
        ValueVariablesAreNamesAt(s, i + 1);
      }
    }
  }

  lemma {:induction false} NamesAtHas(s: string, i: nat, q: nat)
    requires i <= q && DollarName(s, q)
    ensures NameAt(s, q) in NamesAtFrom(s, i)
    decreases q - i
  {
    if i < q {
      NamesAtHas(s, i + 1, q);
    }
  }

  /** Every name written `$name` in a value is among its value variables. */
  lemma DollarNameListed(s: string, q: nat)
    requires DollarName(s, q)
    ensures NameAt(s, q) in ValueVariables(s)
  {
    ValueVariablesAreNamesAt(s, 0);
    NamesAtHas(s, 0, q);
  }

  /** `getVariables`: the hoisted property name (if any) followed by the value's references. */
  function Variables(node: Decl): seq<string> {
    (match HoistedProp(node.prop) case Some(n) => [n] case None => []) + ValueVariables(node.value)
  }

  /** `hasVariables`. */
  predicate HasVariables(value: string) {
    '$' in value
  }

  /** No line terminator in `s[a..b]`. */
  predicate LineFree(s: string, a: nat, b: nat)
    requires a <= b <= |s|
  {
    forall i :: a <= i < b ==> !IsLineTerminator(s[i])
  }

  /** The start of the line that holds position `k`. */
  function LineStart(s: string, k: nat): (p: nat)
    requires k <= |s|
    ensures p <= k && LineFree(s, p, k)
    ensures p == 0 || IsLineTerminator(s[p - 1])
  {
    if k == 0 then 0 else if IsLineTerminator(s[k - 1]) then k else LineStart(s, k - 1)
  }

  /** `!default`, in any letter case, occupies `s[e..]`. */
  predicate DefaultFlagAt(s: string, e: nat) {
    e + 8 == |s| && s[e] == '!' && SameLetter(s[e + 1], 'd') && SameLetter(s[e + 2], 'e')
    && SameLetter(s[e + 3], 'f') && SameLetter(s[e + 4], 'a') && SameLetter(s[e + 5], 'u')
    && SameLetter(s[e + 6], 'l') && SameLetter(s[e + 7], 't')
  }

  /**
   * Capture group 1 of `(.*?)\s?!default$` (flag `i`) on a value. The match
   * starts on the last line (`.` stops at line breaks), and `\s?` takes one
   * space before the flag when there is one, so the capture ends there.
   */
  function DefaultFlagCapture(v: string): Option<string> {
    if |v| >= 8 && DefaultFlagAt(v, |v| - 8) then
      var e := |v| - 8;
      var k := if e >= 1 && IsSpace(v[e - 1]) then e - 1 else e;
      Some(v[LineStart(v, k)..k])
    else None
  }

  /**
   * A capture exists exactly when the value ends with the flag, and it is the
   * whole last line before the flag and the one space that may precede it.
   */
  lemma DefaultFlagCaptureShape(v: string)
    ensures DefaultFlagCapture(v).Some? <==> |v| >= 8 && DefaultFlagAt(v, |v| - 8)
    ensures DefaultFlagCapture(v).Some? ==>
      var c := DefaultFlagCapture(v).value;
      var e := |v| - 8;
      var k := if e >= 1 && IsSpace(v[e - 1]) then e - 1 else e;
      && |c| <= k
      && v[k - |c|..k] == c
      && NoLineTerminator(c)
      && (k == |c| || IsLineTerminator(v[k - |c| - 1]))
  {
  }

  /** `getHoistedDefault`: a hoisted property whose value carries a non-empty text before `!default`. */
  function HoistedDefault(node: Decl): Option<Binding> {
    match HoistedProp(node.prop)
    case None => None
    case Some(name) =>
      match DefaultFlagCapture(node.value)
      case Some(text) => if text != "" then Some(Binding(name, text)) else None
      case None => None
  }

  /** `getHoistedVariable`: a hoisted property that is not a hoisted default, with its whole value. */
  function HoistedVariable(node: Decl): Option<Binding> {
    match HoistedProp(node.prop)
    case Some(name) => if HoistedDefault(node).None? then Some(Binding(name, node.value)) else None
    case None => None
  }

  /** A hoisted property is either a hoisted default or a bare hoisted variable, never both. */
  lemma HoistedExactlyOne(node: Decl)
    ensures HoistedProp(node.prop).Some? <==> HoistedDefault(node).Some? || HoistedVariable(node).Some?
    ensures !(HoistedDefault(node).Some? && HoistedVariable(node).Some?)
    ensures HoistedVariable(node).Some? ==> HoistedVariable(node).value == Binding(HoistedProp(node.prop).value, node.value)
  {
  }

  /**
   * `\sor\s` at position `r`. The global scans build their pattern with
   * `new RegExp(pattern, 'g')`, whose flags replace the literal's `i`, so the
   * letters match in lower case only.
   */
  predicate OrAt(s: string, r: nat) {
    r + 3 < |s| && IsSpace(s[r]) && s[r + 1] == 'o' && s[r + 2] == 'r' && IsSpace(s[r + 3])
  }

  /**
   * The lazy `.+?(?:\]|$)` once the text from `k` up to `j` has been consumed:
   * the end `j` of the shortest non-empty, line-break-free text from `k` that is
   * followed by `]` or by the end of the string.
   */
  function LazyEnd(s: string, k: nat, j: nat): (r: Option<nat>)
    requires k < j <= |s|
    requires LineFree(s, k, j - 1)
    requires forall t :: k < t < j ==> s[t] != ']'
    ensures r.Some? ==> j <= r.value <= |s| && LineFree(s, k, r.value)
    ensures r.Some? ==> r.value == |s| || s[r.value] == ']'
    ensures r.Some? ==> forall t :: k < t < r.value ==> s[t] != ']'
    decreases |s| - j
  {
    if IsLineTerminator(s[j - 1]) then None
    else if j == |s| || s[j] == ']' then Some(j)
    else LazyEnd(s, k, j + 1)
  }

  /**
   * The lazy text fails exactly when a line break comes before the first `]`
   * after the text's first character (or before the end, when there is none).
   */
  lemma {:induction false} LazyEndNone(s: string, k: nat, j: nat)
    requires k < j <= |s|
    requires LineFree(s, k, j - 1)
    requires forall t :: k < t < j ==> s[t] != ']'
    ensures LazyEnd(s, k, j).None? <==>
      exists t :: j - 1 <= t < |s| && IsLineTerminator(s[t]) && forall u :: j <= u <= t ==> s[u] != ']'
    decreases |s| - j
  {
    if IsLineTerminator(s[j - 1]) {
      assert j - 1 <= j - 1 < |s| && IsLineTerminator(s[j - 1]);
    } else if j == |s| || s[j] == ']' {
    } else {
      LazyEndNone(s, k, j + 1);
      if exists t :: j <= t < |s| && IsLineTerminator(s[t]) && forall u :: j + 1 <= u <= t ==> s[u] != ']' {
        var t :| j <= t < |s| && IsLineTerminator(s[t]) && forall u :: j + 1 <= u <= t ==> s[u] != ']';
        assert j - 1 <= t && forall u :: j <= u <= t ==> s[u] != ']';
      }
      if exists t :: j - 1 <= t < |s| && IsLineTerminator(s[t]) && forall u :: j <= u <= t ==> s[u] != ']' {
        var t :| j - 1 <= t < |s| && IsLineTerminator(s[t]) && forall u :: j <= u <= t ==> s[u] != ']';
        assert j <= t && forall u :: j + 1 <= u <= t ==> s[u] != ']';
      }
    }
  }

  /** The text of an inline default that starts at `k` (just after ` or `). */
  function DefaultText(s: string, k: nat): Option<nat>
    requires k <= |s|
  {
    if k < |s| then LazyEnd(s, k, k + 1) else None
  }

  /** One inline default found by the scan: its name, its value text and its span. */
  datatype InlineMatch = InlineMatch(name: string, value: string, start: nat, end: nat)

  /** `\[?\$([\w-]+)\sor\s(.+?)(?:\]|$)` (flags `g` only) tried at position `p`. */
  function InlineDefaultAt(s: string, p: nat): (r: Option<InlineMatch>)
    requires p < |s|
    ensures r.Some? ==> r.value.start == p < r.value.end <= |s| && IsName(r.value.name)
  {
    var q := if s[p] == '[' then p + 1 else p;
    if DollarName(s, q) then
      var r := NameEnd(s, q + 1);
      if OrAt(s, r) then
        match DefaultText(s, r + 4)
        case None => None
        case Some(j) => Some(InlineMatch(s[q + 1..r], s[r + 4..j], p, if j < |s| then j + 1 else j))
      else None
    else None
  }

  /** A line break at or after `k` that comes before any `]` after `k`. */
  predicate LineBreakBeforeBracket(s: string, k: nat) {
    exists t :: k <= t < |s| && IsLineTerminator(s[t]) && forall u :: k < u <= t ==> s[u] != ']'
  }

  /** The default text fails exactly at the end of the string or when a line break comes before its closing `]`. */
  lemma DefaultTextFails(s: string, k: nat)
    requires k <= |s|
    ensures DefaultText(s, k).None? <==> k == |s| || LineBreakBeforeBracket(s, k)
  {
    if k < |s| {
      LazyEndNone(s, k, k + 1);
    }
  }

  /**
   * An inline default matches at `p` exactly when an optional `[`, a `$name`
   * and ` or ` are followed by at least one character and no line break comes
   * before the next `]`.
   */
  lemma InlineDefaultAtMatches(s: string, p: nat)
    requires p < |s|
    ensures var q := if s[p] == '[' then p + 1 else p;
      InlineDefaultAt(s, p).Some? <==>
        (DollarName(s, q) && var n := NameEnd(s, q + 1); OrAt(s, n) && n + 4 < |s| && !LineBreakBeforeBracket(s, n + 4))
  {
    var q := if s[p] == '[' then p + 1 else p;
    if DollarName(s, q) && OrAt(s, NameEnd(s, q + 1)) {
      DefaultTextFails(s, NameEnd(s, q + 1) + 4);
    }
  }

  /**
   * The name of a match is the `$name` at its start, and its value is the default
   * text: non-empty, on one line, with no `]` after its first character, and
   * followed by the end of the string or by a `]` that the match consumes.
   */
  lemma InlineDefaultAtShape(s: string, p: nat)
    requires p < |s| && InlineDefaultAt(s, p).Some?
    ensures var m := InlineDefaultAt(s, p).value;
      var q := if s[p] == '[' then p + 1 else p;
      var n := NameEnd(s, q + 1);
      var e := n + 4 + |m.value|;
      && DollarName(s, q) && m.name == NameAt(s, q) && OrAt(s, n)
      && m.value != "" && NoLineTerminator(m.value)
      && e <= |s| && m.value == s[n + 4..e]
      && (forall t :: 0 < t < |m.value| ==> m.value[t] != ']')
      && ((e == |s| && m.end == e) || (e < |s| && s[e] == ']' && m.end == e + 1))
  {
    var q, n, j := InlineDefaultAtParts(s, p);
    DefaultTextShape(s, n + 4);
  }

  /** The positions a successful match is built from: the `$`, the name's end and the text's end. */
  lemma InlineDefaultAtParts(s: string, p: nat) returns (q: nat, n: nat, j: nat)
    requires p < |s| && InlineDefaultAt(s, p).Some?
    ensures q == (if s[p] == '[' then p + 1 else p) && DollarName(s, q)
    ensures n == NameEnd(s, q + 1) && OrAt(s, n)
    ensures n + 4 <= |s| && DefaultText(s, n + 4) == Some(j) && j <= |s|
    ensures InlineDefaultAt(s, p).value == InlineMatch(NameAt(s, q), s[n + 4..j], p, if j < |s| then j + 1 else j)
  {
    q := if s[p] == '[' then p + 1 else p;
    n := NameEnd(s, q + 1);
    j := DefaultText(s, n + 4).value;
  }

  /**
   * The default text from `k`: non-empty, on one line, with no `]` after its first
   * character, and followed by a `]` or by the end of the string.
   */
  lemma DefaultTextShape(s: string, k: nat)
    requires k <= |s| && DefaultText(s, k).Some?
    ensures var j := DefaultText(s, k).value;
      && k < j <= |s| && s[k..j] != "" && NoLineTerminator(s[k..j])
      && (forall t :: 0 < t < j - k ==> s[k..j][t] != ']')
      && (j == |s| || s[j] == ']')
  {
    var j := DefaultText(s, k).value;
    var v := s[k..j];
    forall t | 0 < t < |v| ensures v[t] != ']' {
      assert v[t] == s[k + t];
    }
    forall t | 0 <= t < |v| ensures !IsLineTerminator(v[t]) {
      assert v[t] == s[k + t];
    }
  }

  /** The global scan for inline defaults from position `i`. */
  function InlineMatchesFrom(s: string, i: nat): (r: seq<InlineMatch>)
    requires i <= |s|
    ensures forall k :: 0 <= k < |r| ==> IsName(r[k].name)
    ensures (forall k :: i <= k < |s| ==> s[k] != '$') ==> r == []
    decreases |s| - i
  {
    if i == |s| then []
    else match InlineDefaultAt(s, i)
      case Some(m) => [m] + InlineMatchesFrom(s, m.end)
      case None => InlineMatchesFrom(s, i + 1)
  }

  /**
   * `ms` is what the global scan from `i` finds: each element is the match at its
   * own start, the matches come in order without overlapping, and every position
   * where a match would start lies inside one of them (the scan skips none).
   */
  predicate InlineScan(s: string, i: nat, ms: seq<InlineMatch>) {
    InlineHits(s, i, ms) && InlineComplete(s, i, ms)
  }

  /** Each element of `ms` is the match at its own start, in order and apart. */
  predicate InlineHits(s: string, i: nat, ms: seq<InlineMatch>) {
    && (forall k :: 0 <= k < |ms| ==> i <= ms[k].start < |s| && InlineDefaultAt(s, ms[k].start) == Some(ms[k]))
    && (forall k :: 0 < k < |ms| ==> ms[k - 1].end <= ms[k].start)
  }

  /** Every position from `i` where a match starts lies inside an element of `ms`. */
  predicate InlineComplete(s: string, i: nat, ms: seq<InlineMatch>) {
    forall p :: i <= p < |s| && InlineDefaultAt(s, p).Some? ==>
      exists k :: 0 <= k < |ms| && ms[k].start <= p < ms[k].end
  }

  lemma InlineHitsCons(s: string, i: nat, m: InlineMatch, rest: seq<InlineMatch>)
    requires i < |s| && InlineDefaultAt(s, i) == Some(m)
    requires InlineHits(s, m.end, rest)
    ensures InlineHits(s, i, [m] + rest)
  {
    var r := [m] + rest;
    forall k | 0 <= k < |r| ensures i <= r[k].start < |s| && InlineDefaultAt(s, r[k].start) == Some(r[k]) {
      if k > 0 {
        assert r[k] == rest[k - 1];
      }
    }
    forall k | 0 < k < |r| ensures r[k - 1].end <= r[k].start {
      assert r[k] == rest[k - 1];
      if k > 1 {
        assert r[k - 1] == rest[k - 2];
      }
    }
  }

  lemma InlineCompleteCons(s: string, i: nat, m: InlineMatch, rest: seq<InlineMatch>)
    requires i < |s| && InlineDefaultAt(s, i) == Some(m)
    requires InlineComplete(s, m.end, rest)
    ensures InlineComplete(s, i, [m] + rest)
  {
    var r := [m] + rest;
    forall p | i <= p < |s| && InlineDefaultAt(s, p).Some?
      ensures exists k :: 0 <= k < |r| && r[k].start <= p < r[k].end
    {
      if p < m.end {
        assert r[0].start <= p < r[0].end;
      } else {
        var k :| 0 <= k < |rest| && rest[k].start <= p < rest[k].end;
        assert r[k + 1] == rest[k];
      }
    }
  }

  lemma InlineScanSkip(s: string, i: nat, ms: seq<InlineMatch>)
    requires i < |s| && InlineDefaultAt(s, i).None?
    requires InlineScan(s, i + 1, ms)
    ensures InlineScan(s, i, ms)
  {
    forall p | i <= p < |s| && InlineDefaultAt(s, p).Some?
      ensures exists k :: 0 <= k < |ms| && ms[k].start <= p < ms[k].end
    {
      assert p != i;
    }
  }

  lemma InlineMatchesFromUnfold(s: string, i: nat)
    requires i < |s|
    ensures InlineDefaultAt(s, i).Some? ==>
      InlineMatchesFrom(s, i) == [InlineDefaultAt(s, i).value] + InlineMatchesFrom(s, InlineDefaultAt(s, i).value.end)
    ensures InlineDefaultAt(s, i).None? ==> InlineMatchesFrom(s, i) == InlineMatchesFrom(s, i + 1)
  {
  }

  lemma InlineScanNone(s: string, i: nat)
    requires i < |s| && InlineDefaultAt(s, i).None?
    requires InlineScan(s, i + 1, InlineMatchesFrom(s, i + 1))
    ensures InlineScan(s, i, InlineMatchesFrom(s, i))
  {
    InlineMatchesFromUnfold(s, i);
    InlineScanSkip(s, i, InlineMatchesFrom(s, i + 1));
  }

  lemma InlineScanSome(s: string, i: nat)
    requires i < |s| && InlineDefaultAt(s, i).Some?
    requires var e := InlineDefaultAt(s, i).value.end; InlineScan(s, e, InlineMatchesFrom(s, e))
    ensures InlineScan(s, i, InlineMatchesFrom(s, i))
  {
    var m := InlineDefaultAt(s, i).value;
    InlineMatchesFromUnfold(s, i);
    InlineHitsCons(s, i, m, InlineMatchesFrom(s, m.end));
    InlineCompleteCons(s, i, m, InlineMatchesFrom(s, m.end));
  }

  /** Where the scan goes on from `i`: the end of the match at `i`, or the next position. */
  lemma InlineScanNext(s: string, i: nat) returns (e: nat)
    requires i < |s|
    ensures i < e <= |s|
    ensures InlineScan(s, e, InlineMatchesFrom(s, e)) ==> InlineScan(s, i, InlineMatchesFrom(s, i))
  {
    if InlineDefaultAt(s, i).Some? {
      e := InlineDefaultAt(s, i).value.end;
      if InlineScan(s, e, InlineMatchesFrom(s, e)) {
        InlineScanSome(s, i);
      }
    } else {
      e := i + 1;
      if InlineScan(s, e, InlineMatchesFrom(s, e)) {
        InlineScanNone(s, i);
      }
    }
  }

  lemma {:induction false} InlineMatchesFromScan(s: string, i: nat)
    requires i <= |s|
    ensures InlineScan(s, i, InlineMatchesFrom(s, i))
    decreases |s| - i
  {
    if i < |s| {
      var e := InlineScanNext(s, i);
      InlineMatchesFromScan(s, e);
    }
  }

  function InlineBindings(ms: seq<InlineMatch>): (r: seq<Binding>)
    ensures |r| == |ms|
    ensures forall k :: 0 <= k < |ms| ==> r[k] == Binding(ms[k].name, ms[k].value)
  {
    if ms == [] then [] else [Binding(ms[0].name, ms[0].value)] + InlineBindings(ms[1..])
  }

  /** The matches of `getInlineDefaults`, in order, as name/value pairs. */
  function InlineDefaults(value: string): seq<Binding> {
    InlineBindings(InlineMatchesFrom(value, 0))
  }

  /** The object `_.reduce(..., _.assign)` builds from the pairs: a later pair overwrites an earlier one. */
  function BindingsMap(bs: seq<Binding>): (m: map<string, string>)
    ensures m.Keys == set k | 0 <= k < |bs| :: bs[k].name
  {
    if bs == [] then map[]
    else BindingsMap(bs[..|bs| - 1])[bs[|bs| - 1].name := bs[|bs| - 1].value]
  }

  /** A name is bound to the value of its last pair. */
  lemma {:induction false} BindingsMapLast(bs: seq<Binding>, k: nat)
    requires k < |bs|
    requires forall j :: k < j < |bs| ==> bs[j].name != bs[k].name
    ensures bs[k].name in BindingsMap(bs) && BindingsMap(bs)[bs[k].name] == bs[k].value
    decreases |bs|
  {
    if k < |bs| - 1 {
      var init := bs[..|bs| - 1];
      assert init[k] == bs[k];
      forall j | k < j < |init| ensures init[j].name != init[k].name {
        assert init[j] == bs[j];
      }
      BindingsMapLast(init, k);
    }
  }

  function Names(bs: seq<Binding>): (r: seq<string>)
    ensures |r| == |bs| && forall k :: 0 <= k < |bs| ==> r[k] == bs[k].name
  {
    if bs == [] then [] else [bs[0].name] + Names(bs[1..])
  }

  /** One variable reference found by the pattern of `replaceValues`: its name and span. */
  datatype Reference = Reference(name: string, start: nat, end: nat)

  /**
   * `\[?\$([\w-]+)(?:(?:\sor\s(?:.+?))?(?:\]|$)|(?=\s|\)))` (flags `g` only) tried at `p`:
   * a reference with its optional ` or default` up to `]` or the end, else a bare
   * reference followed by `]`, the end, a space or `)` (the last two not consumed).
   */
  function ReferenceAt(s: string, p: nat): (r: Option<Reference>)
    requires p < |s|
    ensures r.Some? ==> r.value.start == p < r.value.end <= |s| && IsName(r.value.name)
    ensures r.Some? ==> var q := if s[p] == '[' then p + 1 else p;
      DollarName(s, q) && r.value.name == NameAt(s, q) && q + 1 + |r.value.name| <= r.value.end
  {
    var q := if s[p] == '[' then p + 1 else p;
    if DollarName(s, q) then
      var name := NameAt(s, q);
      var r := NameEnd(s, q + 1);
      var withDefault := if OrAt(s, r) then DefaultText(s, r + 4) else None;
      if withDefault.Some? then
        Some(Reference(name, p, if withDefault.value < |s| then withDefault.value + 1 else withDefault.value))
      else if r == |s| then Some(Reference(name, p, r))
      else if s[r] == ']' then Some(Reference(name, p, r + 1))
      else if IsSpace(s[r]) || s[r] == ')' then Some(Reference(name, p, r))
      else None
    else None
  }

  /**
   * A reference matches at `p` exactly when its optional `[` and `$name` are
   * followed by the end, `]`, white space or `)`.
   */
  lemma ReferenceAtMatches(s: string, p: nat)
    requires p < |s|
    ensures var q := if s[p] == '[' then p + 1 else p;
      ReferenceAt(s, p).Some? <==>
        (DollarName(s, q) &&
          var n := NameEnd(s, q + 1); n == |s| || s[n] == ']' || IsSpace(s[n]) || s[n] == ')')
  {
    var q := if s[p] == '[' then p + 1 else p;
    if DollarName(s, q) {
      var n := NameEnd(s, q + 1);
      if OrAt(s, n) {
        assert IsSpace(s[n]);
      }
    }
  }

  /** Where an inline default matches, the reference spans exactly that default. */
  lemma ReferenceAtDefaultSpan(s: string, p: nat)
    requires p < |s| && InlineDefaultAt(s, p).Some?
    ensures ReferenceAt(s, p) == Some(Reference(InlineDefaultAt(s, p).value.name, p, InlineDefaultAt(s, p).value.end))
  {
  }

  /** Where no inline default matches, no ` or ` with a default text follows the name. */
  lemma NoDefaultAfterName(s: string, p: nat, q: nat, n: nat)
    requires p < |s| && q == (if s[p] == '[' then p + 1 else p)
    requires DollarName(s, q) && n == NameEnd(s, q + 1) && InlineDefaultAt(s, p).None?
    ensures !(OrAt(s, n) && DefaultText(s, n + 4).Some?)
  {
  }

  /** Otherwise a reference ends just after its name, taking a `]` that follows. */
  lemma ReferenceAtBareEnd(s: string, p: nat)
    requires p < |s| && ReferenceAt(s, p).Some? && InlineDefaultAt(s, p).None?
    ensures var q := if s[p] == '[' then p + 1 else p;
      var n := NameEnd(s, q + 1);
      ReferenceAt(s, p).value.end == if n < |s| && s[n] == ']' then n + 1 else n
  {
    var q := if s[p] == '[' then p + 1 else p;
    assert DollarName(s, q);
    var n := NameEnd(s, q + 1);
    NoDefaultAfterName(s, p, q, n);
  }

  /**
   * A reference span of `s`: its text opens with the `$` sigil, or with `[` and
   * then the sigil.
   */
  predicate SigilOpens(s: string, m: Reference) {
    m.start < m.end <= |s|
    && (s[m.start] == '$' || (s[m.start] == '[' && m.start + 1 < m.end && s[m.start + 1] == '$'))
  }

  /** The spans are in order, do not overlap, and lie between `from` and the end of `s`. */
  predicate Ordered(s: string, from: nat, refs: seq<Reference>)
    decreases |refs|
  {
    if refs == [] then from <= |s|
    else from <= refs[0].start < refs[0].end && Ordered(s, refs[0].end, refs[1..])
  }

  /** The global scan of the `replaceValues` pattern from position `i`. */
  function ReferencesFrom(s: string, i: nat): (r: seq<Reference>)
    requires i <= |s|
    ensures Ordered(s, i, r)
    ensures forall k :: 0 <= k < |r| ==> IsName(r[k].name) && SigilOpens(s, r[k])
    decreases |s| - i
  {
    if i == |s| then []
    else match ReferenceAt(s, i)
      case Some(m) => [m] + ReferencesFrom(s, m.end)
      case None => ReferencesFrom(s, i + 1)
  }

  /**
   * `refs` is what the global scan from `i` finds: each element is the match at
   * its own start, and every position where a match would start lies inside one
   * of them (with `Ordered`, the matches come in order without overlapping).
   */
  predicate ReferenceScan(s: string, i: nat, refs: seq<Reference>) {
    ReferenceHits(s, i, refs) && ReferenceComplete(s, i, refs)
  }

  predicate ReferenceHits(s: string, i: nat, refs: seq<Reference>) {
    forall k :: 0 <= k < |refs| ==> i <= refs[k].start < |s| && ReferenceAt(s, refs[k].start) == Some(refs[k])
  }

  predicate ReferenceComplete(s: string, i: nat, refs: seq<Reference>) {
    forall p :: i <= p < |s| && ReferenceAt(s, p).Some? ==>
      exists k :: 0 <= k < |refs| && refs[k].start <= p < refs[k].end
  }

  lemma ReferenceHitsCons(s: string, i: nat, m: Reference, rest: seq<Reference>)
    requires i < |s| && ReferenceAt(s, i) == Some(m)
    requires ReferenceHits(s, m.end, rest)
    ensures ReferenceHits(s, i, [m] + rest)
  {
    var r := [m] + rest;
    forall k | 0 <= k < |r| ensures i <= r[k].start < |s| && ReferenceAt(s, r[k].start) == Some(r[k]) {
      if k > 0 {
        assert r[k] == rest[k - 1];
      }
    }
  }

  lemma ReferenceCompleteCons(s: string, i: nat, m: Reference, rest: seq<Reference>)
    requires i < |s| && ReferenceAt(s, i) == Some(m)
    requires ReferenceComplete(s, m.end, rest)
    ensures ReferenceComplete(s, i, [m] + rest)
  {
    var r := [m] + rest;
    forall p | i <= p < |s| && ReferenceAt(s, p).Some?
      ensures exists k :: 0 <= k < |r| && r[k].start <= p < r[k].end
    {
      if p < m.end {
        assert r[0].start <= p < r[0].end;
      } else {
        var k :| 0 <= k < |rest| && rest[k].start <= p < rest[k].end;
        assert r[k + 1] == rest[k];
      }
    }
  }

  lemma ReferenceScanSkip(s: string, i: nat, refs: seq<Reference>)
    requires i < |s| && ReferenceAt(s, i).None?
    requires ReferenceScan(s, i + 1, refs)
    ensures ReferenceScan(s, i, refs)
  {
    forall p | i <= p < |s| && ReferenceAt(s, p).Some?
      ensures exists k :: 0 <= k < |refs| && refs[k].start <= p < refs[k].end
    {
      assert p != i;
    }
  }

  lemma ReferencesFromUnfold(s: string, i: nat)
    requires i < |s|
    ensures ReferenceAt(s, i).Some? ==>
      ReferencesFrom(s, i) == [ReferenceAt(s, i).value] + ReferencesFrom(s, ReferenceAt(s, i).value.end)
    ensures ReferenceAt(s, i).None? ==> ReferencesFrom(s, i) == ReferencesFrom(s, i + 1)
  {
  }

  lemma ReferenceScanSome(s: string, i: nat)
    requires i < |s| && ReferenceAt(s, i).Some?
    requires var e := ReferenceAt(s, i).value.end; ReferenceScan(s, e, ReferencesFrom(s, e))
    ensures ReferenceScan(s, i, ReferencesFrom(s, i))
  {
    var m := ReferenceAt(s, i).value;
    ReferencesFromUnfold(s, i);
    ReferenceHitsCons(s, i, m, ReferencesFrom(s, m.end));
    ReferenceCompleteCons(s, i, m, ReferencesFrom(s, m.end));
  }

  lemma ReferenceScanNone(s: string, i: nat)
    requires i < |s| && ReferenceAt(s, i).None?
    requires ReferenceScan(s, i + 1, ReferencesFrom(s, i + 1))
    ensures ReferenceScan(s, i, ReferencesFrom(s, i))
  {
    ReferencesFromUnfold(s, i);
    ReferenceScanSkip(s, i, ReferencesFrom(s, i + 1));
  }

  /** Where the scan goes on from `i`: the end of the reference at `i`, or the next position. */
  lemma ReferenceScanNext(s: string, i: nat) returns (e: nat)
    requires i < |s|
    ensures i < e <= |s|
    ensures ReferenceScan(s, e, ReferencesFrom(s, e)) ==> ReferenceScan(s, i, ReferencesFrom(s, i))
  {
    var found := ReferenceAt(s, i);
    if found.Some? {
      e := found.value.end;
      if ReferenceScan(s, e, ReferencesFrom(s, e)) {
        ReferenceScanSome(s, i);
      }
    } else {
      e := i + 1;
      if ReferenceScan(s, e, ReferencesFrom(s, e)) {
        ReferenceScanNone(s, i);
      }
    }
  }

  lemma {:induction false} ReferencesFromScan(s: string, i: nat)
    requires i <= |s|
    ensures ReferenceScan(s, i, ReferencesFrom(s, i))
    decreases |s| - i
  {
    if i < |s| {
      var e := ReferenceScanNext(s, i);
      ReferencesFromScan(s, e);
    }
  }

  /** The references `replaceValues` substitutes, in order. */
  function References(value: string): seq<Reference> {
    ReferencesFrom(value, 0)
  }

  /**
   * Every name `replaceValues` substitutes and every inline default's name is
   * among the value variables, so the prefix check on `getVariables` covers them.
   */
  lemma ScannedNamesAreVariables(v: string)
    ensures forall k :: 0 <= k < |References(v)| ==> References(v)[k].name in ValueVariables(v)
    ensures forall k :: 0 <= k < |InlineDefaults(v)| ==> InlineDefaults(v)[k].name in ValueVariables(v)
  {
    var refs := References(v);
    ReferencesFromScan(v, 0);
    forall k | 0 <= k < |refs| ensures refs[k].name in ValueVariables(v) {
      var p := refs[k].start;
      var q := if v[p] == '[' then p + 1 else p;
      assert ReferenceAt(v, p) == Some(refs[k]);
      DollarNameListed(v, q);
    }
    var ms := InlineMatchesFrom(v, 0);
    InlineMatchesFromScan(v, 0);
    forall k | 0 <= k < |ms| ensures ms[k].name in ValueVariables(v) {
      var p := ms[k].start;
      var q := if v[p] == '[' then p + 1 else p;
      assert InlineDefaultAt(v, p) == Some(ms[k]);
      InlineDefaultAtShape(v, p);
      DollarNameListed(v, q);
    }
  }

  /**
   * An array index in the sense of JavaScript property keys: a canonical decimal
   * numeral below 2^32 - 1. `Object.keys` lists such keys first, in numeric order.
   */
  predicate IsArrayIndex(k: string) {
    && |k| > 0
    && (forall i :: 0 <= i < |k| ==> '0' <= k[i] <= '9')
    && (k[0] != '0' || |k| == 1)
    && DigitsValue(k) < 0xFFFF_FFFF
  }

  function DigitsValue(k: string): nat
    requires forall i :: 0 <= i < |k| ==> '0' <= k[i] <= '9'
  {
    if k == [] then 0 else 10 * DigitsValue(k[..|k| - 1]) + (k[|k| - 1] as int - '0' as int)
  }

  /** The array-index key with the smallest numeric value, if any. */
  function SmallestIndexKey(names: seq<string>): (r: Option<string>)
    ensures r.Some? ==> r.value in names && IsArrayIndex(r.value)
    ensures r.Some? ==> forall k :: k in names && IsArrayIndex(k) ==> DigitsValue(r.value) <= DigitsValue(k)
    ensures r.None? ==> forall k :: k in names ==> !IsArrayIndex(k)
  {
    if names == [] then None
    else
      var rest := SmallestIndexKey(names[1..]);
      assert forall k :: k in names ==> k == names[0] || k in names[1..];
      if !IsArrayIndex(names[0]) then rest
      else if rest.Some? && DigitsValue(rest.value) < DigitsValue(names[0]) then rest
      else Some(names[0])
  }

  /**
   * `Object.keys(found)[0]` for the object built from `names` in insertion order:
   * the smallest array-index key when there is one, otherwise the first name.
   */
  function FirstKey(names: seq<string>): (k: string)
    requires |names| > 0
    ensures k in names
    ensures (forall n :: n in names ==> !IsArrayIndex(n)) ==> k == names[0]
    ensures (exists n :: n in names && IsArrayIndex(n)) ==>
      IsArrayIndex(k) && forall n :: n in names && IsArrayIndex(n) ==> DigitsValue(k) <= DigitsValue(n)
  {
    match SmallestIndexKey(names)
    case Some(k) => k
    case None => names[0]
  }
}
