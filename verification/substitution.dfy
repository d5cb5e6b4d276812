/**
 * The substitution engine (index.js: replaceValues). The value is scanned once for
 * references; then, in order, the first textual occurrence of each matched text
 * in the value built so far is replaced by the variable's value, looked up in the
 * explicit store first and in the defaults store second.
 */
module Substitution {
  import opened Wrappers
  import opened Strings
  import opened Syntax
  import opened Errors
  import opened Handlers

  /** The value a reference resolves to: the explicit store's if truthy, else the defaults store's if truthy. */
  function Lookup(variables: map<string, string>, defaults: map<string, string>, name: string): (r: Option<string>)
    ensures r.Some? <==> Truthy(variables, name) || Truthy(defaults, name)
    ensures r.Some? ==> r.value != ""
    ensures Truthy(variables, name) ==> r == Some(variables[name])
    ensures !Truthy(variables, name) && Truthy(defaults, name) ==> r == Some(defaults[name])
  {
    if Truthy(variables, name) then Some(variables[name])
    else if Truthy(defaults, name) then Some(defaults[name])
    else None
  }

  /** Every span lies inside the value. */
  predicate WithinValue(value: string, refs: seq<Reference>) {
    forall k :: 0 <= k < |refs| ==> refs[k].start <= refs[k].end <= |value|
  }

  /** The matched text of a reference, one of the strings `value.match(/.../g)` returns. */
  function Text(value: string, m: Reference): string
    requires m.start <= m.end <= |value|
  {
    value[m.start..m.end]
  }

  /** The `_.reduce` of `replaceValues` over the remaining references, from the string built so far. */
  function SubstituteFrom(node: Decl, str: string, refs: seq<Reference>,
                          variables: map<string, string>, defaults: map<string, string>): Result<string>
    requires WithinValue(node.value, refs)
    decreases |refs|
  {
    if refs == [] then Ok(str)
    else
      var m := refs[0];
      match Lookup(variables, defaults, m.name)
      case None => Err(Failure(UndefinedVariable, m.name, GetIndex(node, m.name)))
      case Some(v) => SubstituteFrom(node, ReplaceFirst(str, Text(node.value, m), v), refs[1..], variables, defaults)
  }

  lemma ReferencesWithinValue(value: string)
    ensures WithinValue(value, References(value))
  {
  }

  /** `replaceValues` as a function of the node and the two stores: the new value, or the error. */
  function Substitute(node: Decl, variables: map<string, string>, defaults: map<string, string>): Result<string> {
    ReferencesWithinValue(node.value);
    SubstituteFrom(node, node.value, References(node.value), variables, defaults)
  }

  /** `replaceValues`: threads the value through the references, or throws on an undefined one. */
  method ReplaceValues(node: Decl, variables: VariableStore, variableDefaults: VariableStore) returns (r: Result<string>)
    ensures r == Substitute(node, variables.entries, variableDefaults.entries)
  {
    var matches := References(node.value);
    ReferencesWithinValue(node.value);
    var str := node.value;
    var i := 0;
    while i < |matches|
      invariant 0 <= i <= |matches|
      invariant SubstituteFrom(node, str, matches[i..], variables.entries, variableDefaults.entries)
             == Substitute(node, variables.entries, variableDefaults.entries)
    {
      var m := matches[i];
      assert matches[i..][0] == m && matches[i..][1..] == matches[i + 1..];
      if Truthy(variables.entries, m.name) {
        str := ReplaceFirst(str, Text(node.value, m), variables.entries[m.name]);
      } else if Truthy(variableDefaults.entries, m.name) {
        str := ReplaceFirst(str, Text(node.value, m), variableDefaults.entries[m.name]);
      } else {
        return Err(Failure(UndefinedVariable, m.name, GetIndex(node, m.name)));
      }
      i := i + 1;
    }
    r := Ok(str);
  }

  /** A name neither store holds a truthy value for. */
  predicate Unresolved(variables: map<string, string>, defaults: map<string, string>, name: string) {
    !Truthy(variables, name) && !Truthy(defaults, name)
  }

  /**
   * Substitution fails exactly when some reference resolves in neither store, and
   * then the error is `UndefinedVariable` naming the first such reference.
   */
  lemma {:induction false} SubstituteFailsIff(node: Decl, str: string, refs: seq<Reference>,
                                              variables: map<string, string>, defaults: map<string, string>)
    requires WithinValue(node.value, refs)
    ensures SubstituteFrom(node, str, refs, variables, defaults).Err? <==>
      exists k :: 0 <= k < |refs| && Unresolved(variables, defaults, refs[k].name)
    ensures SubstituteFrom(node, str, refs, variables, defaults).Err? ==>
      exists k :: && 0 <= k < |refs|
                  && Unresolved(variables, defaults, refs[k].name)
                  && (forall j :: 0 <= j < k ==> !Unresolved(variables, defaults, refs[j].name))
                  && SubstituteFrom(node, str, refs, variables, defaults).failure
                     == Failure(UndefinedVariable, refs[k].name, GetIndex(node, refs[k].name))
    decreases |refs|
  {
    if refs != [] {
      var m := refs[0];
      match Lookup(variables, defaults, m.name)
      case None =>
        assert Unresolved(variables, defaults, refs[0].name);
      case Some(v) =>
        var next := ReplaceFirst(str, Text(node.value, m), v);
        SubstituteFailsIff(node, next, refs[1..], variables, defaults);
        if SubstituteFrom(node, next, refs[1..], variables, defaults).Err? {
          var k :| && 0 <= k < |refs[1..]|
                   && Unresolved(variables, defaults, refs[1..][k].name)
                   && (forall j :: 0 <= j < k ==> !Unresolved(variables, defaults, refs[1..][j].name))
                   && SubstituteFrom(node, next, refs[1..], variables, defaults).failure
                      == Failure(UndefinedVariable, refs[1..][k].name, GetIndex(node, refs[1..][k].name));
          assert refs[k + 1] == refs[1..][k];
          assert forall j :: 1 <= j < k + 1 ==> refs[j] == refs[1..][j - 1];
        } else {
          forall k | 0 <= k < |refs| ensures !Unresolved(variables, defaults, refs[k].name) {
            if k > 0 {
              assert refs[k] == refs[1..][k - 1];
            }
          }
        }
    }
  }

  /**
   * Substitution reads the stores only through the lookups of the referenced
   * names: stores that agree on those lookups give the same result.
   */
  lemma {:induction false} SubstituteFromLookupOnly(node: Decl, str: string, refs: seq<Reference>,
                                                    variables: map<string, string>, defaults: map<string, string>,
                                                    variables': map<string, string>, defaults': map<string, string>)
    requires WithinValue(node.value, refs)
    requires forall k :: 0 <= k < |refs| ==>
      Lookup(variables, defaults, refs[k].name) == Lookup(variables', defaults', refs[k].name)
    ensures SubstituteFrom(node, str, refs, variables, defaults) == SubstituteFrom(node, str, refs, variables', defaults')
    decreases |refs|
  {
    if refs != [] {
      var m := refs[0];
      assert Lookup(variables, defaults, m.name) == Lookup(variables', defaults', m.name);
      forall k | 0 <= k < |refs[1..]|
        ensures Lookup(variables, defaults, refs[1..][k].name) == Lookup(variables', defaults', refs[1..][k].name)
      {
        assert refs[1..][k] == refs[k + 1];
      }
      match Lookup(variables, defaults, m.name)
      case None =>
      case Some(v) =>
        SubstituteFromLookupOnly(node, ReplaceFirst(str, Text(node.value, m), v), refs[1..],
                                 variables, defaults, variables', defaults');
    }
  }

  /**
   * The explicit store shadows the defaults: when every referenced name has a
   * truthy explicit value, what the defaults store holds does not matter.
   */
  lemma ExplicitShadowsDefaults(node: Decl, variables: map<string, string>,
                                defaults: map<string, string>, otherDefaults: map<string, string>)
    requires forall k :: 0 <= k < |References(node.value)| ==> Truthy(variables, References(node.value)[k].name)
    ensures Substitute(node, variables, defaults) == Substitute(node, variables, otherDefaults)
  {
    ReferencesWithinValue(node.value);
    SubstituteFromLookupOnly(node, node.value, References(node.value), variables, defaults, variables, otherDefaults);
  }

  /** The stores without their empty values. */
  function WithoutEmpty(m: map<string, string>): (r: map<string, string>)
    ensures forall k :: Truthy(m, k) <==> k in r
    ensures forall k :: k in r ==> k in m && r[k] == m[k]
  {
    map k | k in m && m[k] != "" :: m[k]
  }

  /** An empty value in either store counts as no value: removing it changes nothing. */
  lemma EmptyValuesIgnored(node: Decl, variables: map<string, string>, defaults: map<string, string>)
    ensures Substitute(node, variables, defaults) == Substitute(node, WithoutEmpty(variables), WithoutEmpty(defaults))
  {
    ReferencesWithinValue(node.value);
    var refs := References(node.value);
    forall k | 0 <= k < |refs|
      ensures Lookup(variables, defaults, refs[k].name) == Lookup(WithoutEmpty(variables), WithoutEmpty(defaults), refs[k].name)
    {
    }
    SubstituteFromLookupOnly(node, node.value, refs, variables, defaults, WithoutEmpty(variables), WithoutEmpty(defaults));
  }

  /** A value with no references is returned unchanged. */
  lemma NoReferencesNoChange(node: Decl, variables: map<string, string>, defaults: map<string, string>)
    requires References(node.value) == []
    ensures Substitute(node, variables, defaults) == Ok(node.value)
  {
  }

  /**
   * The reference definition of substitution: the value from `from` on, with each
   * matched span replaced by its resolved value, or the error for the first
   * reference that does not resolve.
   */
  function SpanSubstitute(node: Decl, from: nat, refs: seq<Reference>,
                          variables: map<string, string>, defaults: map<string, string>): Result<string>
    requires Ordered(node.value, from, refs)
    decreases |refs|
  {
    if refs == [] then Ok(node.value[from..])
    else
      var m := refs[0];
      assert m.end <= |node.value| by { OrderedEnd(node.value, from, refs); }
      match Lookup(variables, defaults, m.name)
      case None => Err(Failure(UndefinedVariable, m.name, GetIndex(node, m.name)))
      case Some(v) =>
        match SpanSubstitute(node, m.end, refs[1..], variables, defaults)
        case Err(e) => Err(e)
        case Ok(rest) => Ok(node.value[from..m.start] + v + rest)
  }

  lemma {:induction false} OrderedEnd(s: string, from: nat, refs: seq<Reference>)
    requires Ordered(s, from, refs)
    ensures from <= |s|
    ensures forall k :: 0 <= k < |refs| ==> from <= refs[k].start < refs[k].end <= |s|
    decreases |refs|
  {
    if refs != [] {
      OrderedEnd(s, refs[0].end, refs[1..]);
      forall k | 0 < k < |refs| ensures refs[0].end <= refs[k].start {
        assert refs[k] == refs[1..][k - 1];
      }
    }
  }

  /** No `$` in the value outside the reference spans from `from` on. */
  predicate GapsDollarFree(s: string, from: nat, refs: seq<Reference>)
    requires Ordered(s, from, refs)
    decreases |refs|
  {
    OrderedEnd(s, from, refs);
    if refs == [] then NoDollar(s[from..])
    else NoDollar(s[from..refs[0].start]) && GapsDollarFree(s, refs[0].end, refs[1..])
  }

  /** Every reference that resolves resolves to a text without `$`. */
  predicate ValuesDollarFree(variables: map<string, string>, defaults: map<string, string>, refs: seq<Reference>) {
    forall k :: 0 <= k < |refs| && Lookup(variables, defaults, refs[k].name).Some? ==>
      NoDollar(Lookup(variables, defaults, refs[k].name).value)
  }

  /** A text cannot occur where one of its characters disagrees with the string. */
  lemma NotOccursAt(str: string, t: string, j: nat, d: nat)
    requires d < |t| && j + d < |str| && str[j + d] != t[d]
    ensures !OccursAt(str, t, j)
  {
    if j + |t| <= |str| {
      assert str[j..j + |t|][d] == str[j + d];
    }
  }

  /** The first occurrence of a reference's text is its own span when no `$` comes before the span's sigil. */
  lemma FirstOccurrenceAtSpan(str: string, done: string, s: string, from: nat, m: Reference)
    requires from <= m.start && SigilOpens(s, m)
    requires str == done + s[from..]
    requires NoDollar(done) && NoDollar(s[from..m.start])
    ensures var i := |done| + (m.start - from);
      OccursAt(str, s[m.start..m.end], i) && forall j :: 0 <= j < i ==> !OccursAt(str, s[m.start..m.end], j)
  {
    var t := s[m.start..m.end];
    var i := |done| + (m.start - from);
    assert str[i..i + |t|] == t;
    var d := if s[m.start] == '$' then 0 else 1;
    assert t[d] == '$';
    forall j | 0 <= j < i ensures !OccursAt(str, t, j) {
      if j + d < |done| {
        assert str[j + d] == done[j + d];
      } else {
        var p := from + (j + d - |done|);
        assert str[j + d] == s[p];
        if p < m.start {
          assert s[p] == s[from..m.start][p - from];
        }
      }
      NotOccursAt(str, t, j, d);
    }
  }

  /** A result with `done` put in front of its text. */
  function Prepend(done: string, r: Result<string>): Result<string> {
    match r
    case Ok(rest) => Ok(done + rest)
    case Err(e) => Err(e)
  }

  lemma PrependTwice(done: string, more: string, r: Result<string>)
    ensures Prepend(done + more, r) == Prepend(done, Prepend(more, r))
  {
    if r.Ok? {
      assert (done + more) + r.value == done + (more + r.value);
    }
  }

  /** One step of the reduce at a span: the built prefix grows by the gap and the value. */
  lemma SpanStep(s: string, done: string, from: nat, m: Reference, v: string)
    requires from <= m.start && SigilOpens(s, m)
    requires NoDollar(done) && NoDollar(s[from..m.start]) && NoDollar(v)
    ensures ReplaceFirst(done + s[from..], Text(s, m), v) == (done + (s[from..m.start] + v)) + s[m.end..]
    ensures NoDollar(done + (s[from..m.start] + v))
  {
    var str := done + s[from..];
    FirstOccurrenceAtSpan(str, done, s, from, m);
    var i := |done| + (m.start - from);
    ReplaceFirstAt(str, Text(s, m), v, i);
    assert str[..i] == done + s[from..m.start];
    assert str[i + |Text(s, m)|..] == s[m.end..];
    var done' := done + (s[from..m.start] + v);
    assert done' == done + s[from..m.start] + v;
    forall p | 0 <= p < |done'| ensures done'[p] != '$' {
      if p < |done| {
      } else if p < |done| + (m.start - from) {
        assert done'[p] == s[from..m.start][p - |done|];
      } else {
        assert done'[p] == v[p - |done| - (m.start - from)];
      }
    }
  }

  /** One step of the reduce when the first reference resolves to `v`. */
  lemma ReduceStep(node: Decl, str: string, refs: seq<Reference>,
                   variables: map<string, string>, defaults: map<string, string>, v: string)
    requires refs != [] && WithinValue(node.value, refs)
    requires Lookup(variables, defaults, refs[0].name) == Some(v)
    ensures WithinValue(node.value, refs[1..])
    ensures SubstituteFrom(node, str, refs, variables, defaults)
         == SubstituteFrom(node, ReplaceFirst(str, Text(node.value, refs[0]), v), refs[1..], variables, defaults)
  {
  }

  /** One step of the span definition when the first reference resolves to `v`. */
  lemma SpanSubstituteStep(node: Decl, from: nat, refs: seq<Reference>,
                           variables: map<string, string>, defaults: map<string, string>, v: string)
    requires refs != [] && Ordered(node.value, from, refs)
    requires Lookup(variables, defaults, refs[0].name) == Some(v)
    ensures refs[0].end <= |node.value| && Ordered(node.value, refs[0].end, refs[1..])
    ensures SpanSubstitute(node, from, refs, variables, defaults)
         == Prepend(node.value[from..refs[0].start] + v, SpanSubstitute(node, refs[0].end, refs[1..], variables, defaults))
  {
    OrderedEnd(node.value, from, refs);
  }

  /** The side conditions of `FirstOccurrenceIsSpan` carry over to the references after the first. */
  lemma TailConditions(s: string, refs: seq<Reference>, variables: map<string, string>, defaults: map<string, string>)
    requires refs != []
    requires forall k :: 0 <= k < |refs| ==> SigilOpens(s, refs[k])
    requires ValuesDollarFree(variables, defaults, refs)
    ensures forall k :: 0 <= k < |refs[1..]| ==> SigilOpens(s, refs[1..][k])
    ensures ValuesDollarFree(variables, defaults, refs[1..])
  {
    forall k | 0 <= k < |refs[1..]| ensures SigilOpens(s, refs[1..][k]) {
      assert refs[1..][k] == refs[k + 1];
    }
    forall k | 0 <= k < |refs[1..]| && Lookup(variables, defaults, refs[1..][k].name).Some?
      ensures NoDollar(Lookup(variables, defaults, refs[1..][k].name).value)
    {
      assert refs[1..][k] == refs[k + 1];
    }
  }

  /** The inductive step of `FirstOccurrenceIsSpan`, from the step at the first span and the claim for the rest. */
  lemma SpanCase(node: Decl, done: string, from: nat, refs: seq<Reference>,
                 variables: map<string, string>, defaults: map<string, string>, v: string)
    requires refs != [] && Ordered(node.value, from, refs) && WithinValue(node.value, refs)
    requires Lookup(variables, defaults, refs[0].name) == Some(v)
    requires ReplaceFirst(done + node.value[from..], Text(node.value, refs[0]), v)
          == (done + (node.value[from..refs[0].start] + v)) + node.value[refs[0].end..]
    requires SubstituteFrom(node, (done + (node.value[from..refs[0].start] + v)) + node.value[refs[0].end..],
                            refs[1..], variables, defaults) ==
      Prepend(done + (node.value[from..refs[0].start] + v), SpanSubstitute(node, refs[0].end, refs[1..], variables, defaults))
    ensures SubstituteFrom(node, done + node.value[from..], refs, variables, defaults) ==
      Prepend(done, SpanSubstitute(node, from, refs, variables, defaults))
  {
    ReduceStep(node, done + node.value[from..], refs, variables, defaults, v);
    SpanSubstituteStep(node, from, refs, variables, defaults, v);
    PrependTwice(done, node.value[from..refs[0].start] + v, SpanSubstitute(node, refs[0].end, refs[1..], variables, defaults));
  }

  /**
   * First-occurrence replacement agrees with span replacement when every `$` of
   * the value opens a reference span and no resolved value contains `$`: then
   * each matched text is first found at its own span.
   */
  lemma {:induction false} FirstOccurrenceIsSpan(node: Decl, done: string, from: nat, refs: seq<Reference>,
                                                 variables: map<string, string>, defaults: map<string, string>)
    requires Ordered(node.value, from, refs) && WithinValue(node.value, refs)
    requires forall k :: 0 <= k < |refs| ==> SigilOpens(node.value, refs[k])
    requires NoDollar(done) && GapsDollarFree(node.value, from, refs)
    requires ValuesDollarFree(variables, defaults, refs)
    ensures SubstituteFrom(node, done + node.value[from..], refs, variables, defaults) ==
      Prepend(done, SpanSubstitute(node, from, refs, variables, defaults))
    decreases |refs|
  {
    OrderedEnd(node.value, from, refs);
    if refs != [] {
      var s := node.value;
      var m := refs[0];
      var l := Lookup(variables, defaults, m.name);
      if l.Some? {
        var v := l.value;
        assert NoDollar(v);
        SpanStep(s, done, from, m, v);
        TailConditions(s, refs, variables, defaults);
        FirstOccurrenceIsSpan(node, done + (s[from..m.start] + v), m.end, refs[1..], variables, defaults);
        SpanCase(node, done, from, refs, variables, defaults, v);
      }
    }
  }

  /**
   * When every `$` of the value opens one of its references and no resolved value
   * holds a `$`, `replaceValues` replaces each reference in place: its result is the
   * span-by-span definition.
   */
  lemma SubstituteIsSpan(node: Decl, variables: map<string, string>, defaults: map<string, string>)
    requires GapsDollarFree(node.value, 0, References(node.value))
    requires ValuesDollarFree(variables, defaults, References(node.value))
    ensures Substitute(node, variables, defaults) == SpanSubstitute(node, 0, References(node.value), variables, defaults)
  {
    var refs := References(node.value);
    ReferencesWithinValue(node.value);
    assert Substitute(node, variables, defaults) == SubstituteFrom(node, node.value, refs, variables, defaults);
    assert "" + node.value[0..] == node.value;
    FirstOccurrenceIsSpan(node, "", 0, refs, variables, defaults);
    PrependNothing(SpanSubstitute(node, 0, refs, variables, defaults));
  }

  lemma PrependNothing(r: Result<string>)
    ensures Prepend("", r) == r
  {
    if r.Ok? {
      assert "" + r.value == r.value;
    }
  }

  /** The value `"$c" $c` holds one reference, the unquoted `$c`; the quoted one is followed by a quote. */
  lemma QuotedSigilReferences()
    ensures References("\"$c\" $c") == [Reference("c", 5, 7)]
  {
    var s := "\"$c\" $c";
    assert NameEnd(s, 2) == 3 && NameEnd(s, 6) == 7;
    assert s[6..7] == "c";
    assert ReferenceAt(s, 0).None? && ReferenceAt(s, 1).None? && ReferenceAt(s, 2).None?;
    assert ReferenceAt(s, 3).None? && ReferenceAt(s, 4).None?;
    assert ReferenceAt(s, 5) == Some(Reference("c", 5, 7));
    assert ReferencesFrom(s, 5) == [Reference("c", 5, 7)];
  }

  /**
   * Without those conditions the two differ: in `"$c" $c` the quoted `$c` is no
   * reference, yet it is the first occurrence of the matched text `$c`, so
   * `replaceValues` replaces the quoted text and the reference itself stays.
   */
  lemma QuotedSigilReplacedFirst()
    ensures Substitute(Decl("color", ": ", "\"$c\" $c"), map["c" := "blue"], map[]) == Ok("\"blue\" $c")
  {
    var node := Decl("color", ": ", "\"$c\" $c");
    var s := node.value;
    var refs := References(s);
    QuotedSigilReferences();
    ReferencesWithinValue(s);
    assert Text(s, refs[0]) == "$c";
    QuotedSigilFirstOccurrence();
    ReduceStep(node, s, refs, map["c" := "blue"], map[], "blue");
    assert refs[1..] == [];
  }

  /** `"$c" $c`.replace('$c', 'blue') replaces the quoted `$c`. */
  lemma QuotedSigilFirstOccurrence()
    ensures ReplaceFirst("\"$c\" $c", "$c", "blue") == "\"blue\" $c"
  {
    var s := "\"$c\" $c";
    assert s[1..3] == "$c";
    NotOccursAt(s, "$c", 0, 0);
    ReplaceFirstAt(s, "$c", "blue", 1);
    assert s[..1] + "blue" + s[3..] == "\"blue\" $c";
  }

  /** The span definition replaces the reference itself in the same value. */
  lemma QuotedSigilSpan()
    ensures SpanSubstitute(Decl("color", ": ", "\"$c\" $c"), 0, References("\"$c\" $c"), map["c" := "blue"], map[])
         == Ok("\"$c\" blue")
  {
    var s := "\"$c\" $c";
    QuotedSigilReferences();
    assert s[0..5] + "blue" + s[7..] == "\"$c\" blue";
  }
}
