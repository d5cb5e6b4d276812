/**
 * What the engine promises, stated over the walk: which errors each policy can
 * raise, what each kind of definition writes into the stores, which declarations
 * leave the document, and that a declaration only sees what came before it.
 */
module Properties {
  import opened Wrappers
  import opened Strings
  import opened Syntax
  import opened Errors
  import opened Prefix
  import opened Handlers
  import opened Substitution
  import opened Walk

  /**
   * The errors a walk may raise under a prefix and a `requireDefault` policy: each
   * policy error only under its own policy, a missing prefix only when a prefix is
   * required, and never an invalid path (that comes from the file path, before the walk).
   */
  predicate Permitted(kind: ErrorKind, prefix: Option<string>, requireDefault: Option<string>) {
    && (kind == IllegalHoistedDefinition ==> requireDefault == Some("inline"))
    && (kind == MissingDefaultFlag ==> requireDefault == Some("flag"))
    && (kind == IllegalInlineDefinition ==> requireDefault == Some("hoisted"))
    && (kind == MissingPrefix ==> prefix.Some? && prefix.value != "")
    && kind != InvalidPath
  }

  lemma SubstituteFailsUndefined(node: Decl, variables: map<string, string>, defaults: map<string, string>)
    ensures Substitute(node, variables, defaults).Err? ==> Substitute(node, variables, defaults).failure.kind == UndefinedVariable
  {
    ReferencesWithinValue(node.value);
    SubstituteFailsIff(node, node.value, References(node.value), variables, defaults);
  }

  lemma CheckPrefixFailsPermitted(node: Decl, prefix: Option<string>, requireDefault: Option<string>)
    ensures CheckPrefix(node, prefix).Fail? ==> Permitted(CheckPrefix(node, prefix).failure.kind, prefix, requireDefault)
  {
  }

  /** Each handler raises only the errors its policy and prefix permit. */
  lemma HandlersFailPermitted(node: Decl, m: map<string, string>, prefix: Option<string>, requireDefault: Option<string>)
    ensures HoistedDefaultStep(node, m, prefix, requireDefault).Err? ==>
      Permitted(HoistedDefaultStep(node, m, prefix, requireDefault).failure.kind, prefix, requireDefault)
    ensures HoistedVariableStep(node, m, prefix, requireDefault).Err? ==>
      Permitted(HoistedVariableStep(node, m, prefix, requireDefault).failure.kind, prefix, requireDefault)
    ensures InlineDefaultsStep(node, m, prefix, requireDefault).Err? ==>
      Permitted(InlineDefaultsStep(node, m, prefix, requireDefault).failure.kind, prefix, requireDefault)
  {
    CheckPrefixFailsPermitted(node, prefix, requireDefault);
  }

  /** One declaration raises only the errors its policy and prefix permit. */
  lemma StepFailsPermitted(st: Stores, node: Decl, prefix: Option<string>, requireDefault: Option<string>)
    ensures var step := DeclStep(st, node, prefix, requireDefault);
      step.result.Err? ==> Permitted(step.result.failure.kind, prefix, requireDefault)
  {
    HandlersFailPermitted(node, st.defaults, prefix, requireDefault);
    HandlersFailPermitted(node, st.variables, prefix, requireDefault);
    match HoistedDefaultStep(node, st.defaults, prefix, requireDefault)
    case Err(_) =>
    case Ok(defaults) =>
      HandlersFailPermitted(node, defaults, prefix, requireDefault);
      match HoistedVariableStep(node, st.variables, prefix, requireDefault)
      case Err(_) =>
      case Ok(variables) =>
        match InlineDefaultsStep(node, defaults, prefix, requireDefault)
        case Err(_) =>
        case Ok(defaults') =>
          CheckPrefixFailsPermitted(node, prefix, requireDefault);
          SubstituteFailsUndefined(node, variables, defaults');
  }

  /** A walk raises only the errors its policy and prefix permit. */
  lemma {:induction false} WalkFailsPermitted(decls: seq<Decl>, st: Stores, out: seq<Decl>, prefix: Option<string>,
                                              requireDefault: Option<string>)
    ensures var run := WalkFrom(decls, st, out, prefix, requireDefault);
      run.failure.Some? ==> Permitted(run.failure.value.kind, prefix, requireDefault)
    decreases |decls|
  {
    if decls != [] {
      var step := DeclStep(st, decls[0], prefix, requireDefault);
      StepFailsPermitted(st, decls[0], prefix, requireDefault);
      if step.result.Ok? {
        WalkFailsPermitted(decls[1..], step.stores, out + (if step.result.value.Some? then [step.result.value.value] else []),
                           prefix, requireDefault);
      }
    }
  }

  /**
   * The errors of the plugin: an invalid path only when a prefix mode was asked for
   * without a file path, a missing prefix only in `file` or `folder` mode, and each
   * policy error only under its own `requireDefault` value.
   */
  lemma TransformFails(decls: seq<Decl>, filepath: Option<string>, variables: map<string, string>, options: Options)
    ensures var r := Transform(decls, filepath, variables, options).result;
      r.Err? && r.failure.kind == InvalidPath ==>
        (options.requirePrefix == Some("file") || options.requirePrefix == Some("folder")) && filepath.None?
    ensures var r := Transform(decls, filepath, variables, options).result;
      r.Err? && r.failure.kind == MissingPrefix ==>
        options.requirePrefix == Some("file") || options.requirePrefix == Some("folder")
    ensures var r := Transform(decls, filepath, variables, options).result;
      r.Err? && r.failure.kind == IllegalHoistedDefinition ==> options.requireDefault == Some("inline")
    ensures var r := Transform(decls, filepath, variables, options).result;
      r.Err? && r.failure.kind == MissingDefaultFlag ==> options.requireDefault == Some("flag")
    ensures var r := Transform(decls, filepath, variables, options).result;
      r.Err? && r.failure.kind == IllegalInlineDefinition ==> options.requireDefault == Some("hoisted")
  {
    match RequiredPrefix(filepath, options.requirePrefix)
    case Err(_) =>
    case Ok(prefix) =>
      WalkFailsPermitted(decls, Stores(variables, map[]), [], prefix, options.requireDefault);
  }

  /** A declaration's stores are those its definitions leave, and an error of theirs is its error. */
  lemma StepOfDefine(st: Stores, node: Decl, prefix: Option<string>, requireDefault: Option<string>)
    ensures DeclStep(st, node, prefix, requireDefault).stores == Define(st, node, prefix, requireDefault).stores
    ensures var defined := Define(st, node, prefix, requireDefault);
      defined.failure.Some? ==> DeclStep(st, node, prefix, requireDefault).result == Err(defined.failure.value)
  {
  }

  /**
   * `requireDefault: 'inline'` rejects every hoisted declaration, with or without
   * `!default`: with the illegal-hoisted error when the prefix check passes (a
   * hoisted default is rejected before the prefix is even looked at).
   */
  lemma InlinePolicyRejectsHoisted(st: Stores, node: Decl, prefix: Option<string>)
    requires IsHoistedDefinition(node)
    ensures var f := Define(st, node, prefix, Some("inline")).failure;
      && f.Some?
      && (f.value.kind == IllegalHoistedDefinition || f.value.kind == MissingPrefix)
    ensures var f := Define(st, node, prefix, Some("inline")).failure;
      var name := HoistedProp(node.prop).value;
      CheckPrefix(node, prefix).Pass? || HoistedDefault(node).Some? ==>
        f == Some(Failure(IllegalHoistedDefinition, name, GetIndex(node, name)))
  {
  }

  /** `requireDefault: 'flag'` rejects a hoisted variable without `!default`. */
  lemma FlagPolicyRejectsBareHoisted(st: Stores, node: Decl, prefix: Option<string>)
    requires HoistedVariable(node).Some?
    ensures var f := Define(st, node, prefix, Some("flag")).failure;
      && f.Some?
      && (f.value.kind == MissingDefaultFlag || f.value.kind == MissingPrefix)
    ensures var f := Define(st, node, prefix, Some("flag")).failure;
      var name := HoistedProp(node.prop).value;
      CheckPrefix(node, prefix).Pass? ==> f == Some(Failure(MissingDefaultFlag, name, GetIndex(node, name)))
  {
  }

  /**
   * `requireDefault: 'hoisted'` rejects a declaration with inline defaults, naming
   * the first key of the defaults object.
   */
  lemma HoistedPolicyRejectsInline(st: Stores, node: Decl, prefix: Option<string>)
    requires |InlineDefaults(node.value)| > 0
    ensures var f := Define(st, node, prefix, Some("hoisted")).failure;
      && f.Some?
      && (f.value.kind == IllegalInlineDefinition || f.value.kind == MissingPrefix)
    ensures var f := Define(st, node, prefix, Some("hoisted")).failure;
      var name := FirstKey(Names(InlineDefaults(node.value)));
      CheckPrefix(node, prefix).Pass? ==> f == Some(Failure(IllegalInlineDefinition, name, GetIndex(node, name)))
  {
    var hoisted := Some("hoisted");
    match CheckPrefix(node, prefix)
    case Fail(e) =>
      assert HoistedDefaultStep(node, st.defaults, prefix, hoisted) == Err(e);
    case Pass =>
      var defaults := st.defaults + AsMap(VariableAssignment(HoistedDefault(node), st.defaults));
      assert HoistedDefaultStep(node, st.defaults, prefix, hoisted) == Ok(defaults);
      assert HoistedVariableStep(node, st.variables, prefix, hoisted).Ok?;
      var name := FirstKey(Names(InlineDefaults(node.value)));
      assert InlineDefaultsStep(node, defaults, prefix, hoisted) == Err(Failure(IllegalInlineDefinition, name, GetIndex(node, name)));
  }

  /**
   * A hoisted variable without `!default` writes the explicit store, overwriting
   * what was there: its own value, or, when the value holds a `$`, the explicit
   * store's value for the text without that `$` (nothing when that is absent or empty).
   */
  lemma BareHoistedWritesVariables(st: Stores, node: Decl, prefix: Option<string>, requireDefault: Option<string>)
    requires IsHoistedDefinition(node) && HoistedDefault(node).None?
    requires requireDefault != Some("flag") && requireDefault != Some("inline")
    requires CheckPrefix(node, prefix).Pass?
    ensures var name := HoistedProp(node.prop).value;
      var variables := Define(st, node, prefix, requireDefault).stores.variables;
      && (node.value == "" ==> variables == st.variables)
      && (node.value != "" && NoDollar(node.value) ==> variables == st.variables[name := node.value])
    ensures var name := HoistedProp(node.prop).value;
      var variables := Define(st, node, prefix, requireDefault).stores.variables;
      var referenced := ReplaceFirst(node.value, "$", "");
      !NoDollar(node.value) ==>
        variables == if Truthy(st.variables, referenced) then st.variables[name := st.variables[referenced]] else st.variables
  {
    var name := HoistedProp(node.prop).value;
    assert HoistedVariable(node) == Some(Binding(name, node.value));
    var assignment := VariableAssignment(HoistedVariable(node), st.variables);
    assert HoistedDefaultStep(node, st.defaults, prefix, requireDefault).Ok?;
    assert HoistedVariableStep(node, st.variables, prefix, requireDefault) == Ok(st.variables + AsMap(assignment));
    if assignment.Some? {
      assert st.variables + AsMap(assignment) == st.variables[name := assignment.value.value];
    } else {
      assert st.variables + AsMap(assignment) == st.variables;
    }
  }

  /** `$name: $other` copies the explicit store's value of `other`, when it has one. */
  lemma HoistedReferenceCopies(st: Stores, prop: string, between: string, other: string, prefix: Option<string>,
                               requireDefault: Option<string>)
    requires |prop| > 0 && NoLineTerminator(prop)
    requires requireDefault != Some("flag") && requireDefault != Some("inline")
    requires HoistedDefault(Decl("$" + prop, between, "$" + other)).None?
    requires CheckPrefix(Decl("$" + prop, between, "$" + other), prefix).Pass?
    ensures var variables := Define(st, Decl("$" + prop, between, "$" + other), prefix, requireDefault).stores.variables;
      variables == if Truthy(st.variables, other) then st.variables[prop := st.variables[other]] else st.variables
  {
    var node := Decl("$" + prop, between, "$" + other);
    assert ("$" + prop)[1..] == prop;
    assert HoistedProp(node.prop) == Some(prop);
    assert node.value[0] == '$';
    DropSigil(other);
    BareHoistedWritesVariables(st, node, prefix, requireDefault);
  }

  /** A hoisted default never touches the explicit store, whatever else happens. */
  lemma HoistedDefaultKeepsVariables(st: Stores, node: Decl, prefix: Option<string>, requireDefault: Option<string>)
    requires HoistedDefault(node).Some?
    ensures Define(st, node, prefix, requireDefault).stores.variables == st.variables
  {
    assert HoistedVariable(node).None?;
    assert st.variables + AsMap(None) == st.variables;
  }

  /**
   * A hoisted `$name: text !default` (text without `$`) writes only the defaults
   * store: the text under its name, then whatever inline defaults the value holds.
   */
  lemma HoistedDefaultWritesDefaults(st: Stores, node: Decl, prefix: Option<string>, requireDefault: Option<string>)
    requires HoistedDefault(node).Some? && NoDollar(HoistedDefault(node).value.value)
    requires requireDefault != Some("inline") && requireDefault != Some("hoisted")
    requires CheckPrefix(node, prefix).Pass?
    ensures var b := HoistedDefault(node).value;
      Define(st, node, prefix, requireDefault)
        == Defined(Stores(st.variables, st.defaults[b.name := b.value] + BindingsMap(InlineDefaults(node.value))), None)
  {
    var b := HoistedDefault(node).value;
    assert b.name != "" && b.value != "";
    assert VariableAssignment(HoistedDefault(node), st.defaults) == Some(b);
    assert st.defaults + AsMap(Some(b)) == st.defaults[b.name := b.value];
    HoistedDefaultKeepsVariables(st, node, prefix, requireDefault);
  }

  /**
   * A hoisted `$name: $other !default` copies the defaults store's value of `other`,
   * when it has a non-empty one, and otherwise writes nothing under `name`; the
   * explicit store is never consulted. The value's inline defaults follow.
   */
  lemma HoistedDefaultReferenceCopies(st: Stores, node: Decl, other: string, prefix: Option<string>,
                                      requireDefault: Option<string>)
    requires HoistedDefault(node).Some? && HoistedDefault(node).value.value == "$" + other
    requires requireDefault != Some("inline") && requireDefault != Some("hoisted")
    requires CheckPrefix(node, prefix).Pass?
    ensures var n := HoistedDefault(node).value.name;
      var written := if Truthy(st.defaults, other) then st.defaults[n := st.defaults[other]] else st.defaults;
      Define(st, node, prefix, requireDefault)
        == Defined(Stores(st.variables, written + BindingsMap(InlineDefaults(node.value))), None)
  {
    HoistedDefaultReferenceStep(st.defaults, node, other, prefix, requireDefault);
    HoistedDefaultKeepsVariables(st, node, prefix, requireDefault);
  }

  /** The defaults store after `handleHoistedDefault` on `$name: $other !default`. */
  lemma HoistedDefaultReferenceStep(defaults: map<string, string>, node: Decl, other: string, prefix: Option<string>,
                                    requireDefault: Option<string>)
    requires HoistedDefault(node).Some? && HoistedDefault(node).value.value == "$" + other
    requires requireDefault != Some("inline") && CheckPrefix(node, prefix).Pass?
    ensures var n := HoistedDefault(node).value.name;
      HoistedDefaultStep(node, defaults, prefix, requireDefault)
        == Ok(if Truthy(defaults, other) then defaults[n := defaults[other]] else defaults)
  {
    var b := HoistedDefault(node).value;
    HoistedDefaultNamed(node);
    ReferenceAssignment(b.name, other, defaults);
    if Truthy(defaults, other) {
      assert defaults + AsMap(Some(Binding(b.name, defaults[other]))) == defaults[b.name := defaults[other]];
    } else {
      assert defaults + AsMap(None) == defaults;
    }
  }

  /** A hoisted default is always named. */
  lemma HoistedDefaultNamed(node: Decl)
    requires HoistedDefault(node).Some?
    ensures HoistedDefault(node).value.name != ""
  {
    assert HoistedProp(node.prop) == Some(HoistedDefault(node).value.name);
  }

  /** `getVariableAssignment` on `$other` looks `other` up in the map it is given. */
  lemma ReferenceAssignment(name: string, other: string, m: map<string, string>)
    requires name != ""
    ensures VariableAssignment(Some(Binding(name, "$" + other)), m)
         == if Truthy(m, other) then Some(Binding(name, m[other])) else None
  {
    DropSigil(other);
    assert ("$" + other)[0] == '$';
  }

  /**
   * An ordinary declaration records every inline default of its value in the
   * defaults store; a name given twice keeps the value of its last occurrence.
   */
  lemma InlineDefaultsRecorded(st: Stores, node: Decl, prefix: Option<string>, requireDefault: Option<string>)
    requires !IsHoistedDefinition(node) && requireDefault != Some("hoisted")
    requires CheckPrefix(node, prefix).Pass?
    ensures var found := InlineDefaults(node.value);
      Define(st, node, prefix, requireDefault) == Defined(Stores(st.variables, st.defaults + BindingsMap(found)), None)
    ensures var found := InlineDefaults(node.value);
      var defaults := Define(st, node, prefix, requireDefault).stores.defaults;
      forall k :: 0 <= k < |found| && (forall j :: k < j < |found| ==> found[j].name != found[k].name) ==>
        found[k].name in defaults && defaults[found[k].name] == found[k].value
  {
    var found := InlineDefaults(node.value);
    assert HoistedDefault(node).None? && HoistedVariable(node).None?;
    assert st.defaults + AsMap(None) == st.defaults;
    assert st.variables + AsMap(None) == st.variables;
    assert InlineDefaultsStep(node, st.defaults, prefix, requireDefault) == Ok(st.defaults + BindingsMap(found));
    forall k | 0 <= k < |found| && (forall j :: k < j < |found| ==> found[j].name != found[k].name)
      ensures found[k].name in st.defaults + BindingsMap(found)
      ensures (st.defaults + BindingsMap(found))[found[k].name] == found[k].value
    {
      BindingsMapLast(found, k);
    }
  }

  /** A value without `$` defines nothing, references nothing and is never rewritten. */
  lemma PlainDeclKept(st: Stores, node: Decl, prefix: Option<string>, requireDefault: Option<string>)
    requires NoDollar(node.value) && !IsHoistedDefinition(node)
    ensures DeclStep(st, node, prefix, requireDefault) == Step(st, Ok(Some(node)))
  {
    assert HoistedDefault(node).None? && HoistedVariable(node).None?;
    assert InlineDefaults(node.value) == [];
    assert Variables(node) == [];
    assert st.defaults + AsMap(None) == st.defaults;
    assert st.variables + AsMap(None) == st.variables;
    assert st.defaults + BindingsMap([]) == st.defaults;
    assert Define(st, node, prefix, requireDefault) == Defined(st, None);
  }

  /**
   * A declaration that passes is removed exactly when its property is hoisted; one
   * that stays keeps its property and its raw text, and its value too when that has no `$`.
   */
  lemma StepKeepsOrRemoves(st: Stores, node: Decl, prefix: Option<string>, requireDefault: Option<string>)
    ensures var r := DeclStep(st, node, prefix, requireDefault).result;
      r.Ok? ==> (r.value.None? <==> IsHoistedDefinition(node))
    ensures var r := DeclStep(st, node, prefix, requireDefault).result;
      r.Ok? && r.value.Some? ==> r.value.value.prop == node.prop && r.value.value.between == node.between
    ensures var r := DeclStep(st, node, prefix, requireDefault).result;
      r.Ok? && !HasVariables(node.value) ==> r.value == Kept(node)
  {
  }

  /**
   * The prefix check before the substitution never fires: the handlers have
   * already checked the same names when they all passed.
   */
  lemma SecondPrefixCheckPasses(st: Stores, node: Decl, prefix: Option<string>, requireDefault: Option<string>)
    requires Define(st, node, prefix, requireDefault).failure.None?
    ensures CheckPrefix(node, prefix).Pass?
  {
  }

  /** The properties of declarations, in order. */
  function Props(decls: seq<Decl>): (r: seq<string>)
    ensures |r| == |decls| && forall i :: 0 <= i < |decls| ==> r[i] == decls[i].prop
  {
    if decls == [] then [] else [decls[0].prop] + Props(decls[1..])
  }

  /** The properties of the declarations `removeHoistedDefinitions` leaves, in order. */
  function KeptProps(decls: seq<Decl>): seq<string> {
    if decls == [] then []
    else (if IsHoistedDefinition(decls[0]) then [] else [decls[0].prop]) + KeptProps(decls[1..])
  }

  /** The declarations `removeHoistedDefinitions` leaves, in order. */
  function KeptDecls(decls: seq<Decl>): seq<Decl> {
    if decls == [] then []
    else (if IsHoistedDefinition(decls[0]) then [] else [decls[0]]) + KeptDecls(decls[1..])
  }

  /** `d` after substitution: the same property and raw text, and the same value when that held no `$`. */
  predicate RewrittenFrom(o: Decl, d: Decl) {
    o.prop == d.prop && o.between == d.between && (!HasVariables(d.value) ==> o == d)
  }

  /** The output declarations are the kept ones after substitution, one for one and in order. */
  predicate RewrittenAll(output: seq<Decl>, kept: seq<Decl>) {
    |output| == |kept| && forall k :: 0 <= k < |kept| ==> RewrittenFrom(output[k], kept[k])
  }

  lemma RewrittenCons(output: seq<Decl>, n: nat, d: Decl, kept: seq<Decl>)
    requires n < |output| && RewrittenFrom(output[n], d) && RewrittenAll(output[n + 1..], kept)
    ensures RewrittenAll(output[n..], [d] + kept)
  {
    forall k | 0 <= k < |kept| + 1
      ensures RewrittenFrom(output[n..][k], ([d] + kept)[k])
    {
      if k > 0 {
        assert output[n..][k] == output[n + 1..][k - 1];
      }
    }
  }

  lemma AppendAssociates<T>(a: seq<T>, b: seq<T>, c: seq<T>)
    ensures (a + b) + c == a + (b + c)
  {
  }

  lemma PropsAppend(out: seq<Decl>, kept: Option<Decl>)
    ensures Props(out + (if kept.Some? then [kept.value] else [])) == Props(out) + (if kept.Some? then [kept.value.prop] else [])
  {
    if kept.None? {
      assert out + [] == out;
    }
  }

  /**
   * A walk that succeeds outputs the declarations that are not hoisted definitions,
   * in document order, each with its property and raw text, and with its value
   * when that held no `$`.
   */
  lemma {:induction false} WalkKeepsOrder(decls: seq<Decl>, st: Stores, out: seq<Decl>, prefix: Option<string>,
                                          requireDefault: Option<string>)
    ensures var run := WalkFrom(decls, st, out, prefix, requireDefault);
      run.failure.None? ==> Props(run.output) == Props(out) + KeptProps(decls)
    ensures var run := WalkFrom(decls, st, out, prefix, requireDefault);
      run.failure.None? ==>
        |out| <= |run.output| && run.output[..|out|] == out && RewrittenAll(run.output[|out|..], KeptDecls(decls))
    decreases |decls|
  {
    if decls == [] {
      assert WalkFrom(decls, st, out, prefix, requireDefault).output == out;
    } else {
      var step := DeclStep(st, decls[0], prefix, requireDefault);
      if step.result.Ok? {
        StepKeepsOrRemoves(st, decls[0], prefix, requireDefault);
        var kept := step.result.value;
        var out' := out + (if kept.Some? then [kept.value] else []);
        WalkFromStep(decls, st, out, prefix, requireDefault);
        WalkKeepsOrder(decls[1..], step.stores, out', prefix, requireDefault);
        PropsAppend(out, kept);
        var here := if kept.Some? then [kept.value.prop] else [];
        assert KeptProps(decls) == here + KeptProps(decls[1..]);
        AppendAssociates(Props(out), here, KeptProps(decls[1..]));
        var run := WalkFrom(decls, st, out, prefix, requireDefault);
        if run.failure.None? {
          KeptDeclsStep(decls, run.output, out, out', kept);
        }
      }
    }
  }

  /** One step of `WalkKeepsOrder`'s second promise: a kept declaration heads the rest of the output. */
  lemma KeptDeclsStep(decls: seq<Decl>, output: seq<Decl>, out: seq<Decl>, out': seq<Decl>, kept: Option<Decl>)
    requires decls != [] && out' == out + (if kept.Some? then [kept.value] else [])
    requires kept.None? <==> IsHoistedDefinition(decls[0])
    requires kept.Some? ==> RewrittenFrom(kept.value, decls[0])
    requires |out'| <= |output| && output[..|out'|] == out' && RewrittenAll(output[|out'|..], KeptDecls(decls[1..]))
    ensures |out| <= |output| && output[..|out|] == out && RewrittenAll(output[|out|..], KeptDecls(decls))
  {
    assert output[..|out|] == out'[..|out|];
    if kept.Some? {
      assert output[|out|] == out'[|out|];
      assert output[|out|..][1..] == output[|out'|..];
      RewrittenCons(output[|out|..], 0, decls[0], KeptDecls(decls[1..]));
    } else {
      assert out' == out;
    }
  }

  /**
   * The walk over two parts is the walk over the first, continued from its stores
   * and output: a declaration sees only what the declarations before it defined.
   */
  lemma {:induction false} WalkAppend(first: seq<Decl>, second: seq<Decl>, st: Stores, out: seq<Decl>,
                                      prefix: Option<string>, requireDefault: Option<string>)
    ensures var run := WalkFrom(first, st, out, prefix, requireDefault);
      WalkFrom(first + second, st, out, prefix, requireDefault)
        == if run.failure.Some? then run else WalkFrom(second, run.stores, run.output, prefix, requireDefault)
    decreases |first|
  {
    if first == [] {
      assert first + second == second;
    } else {
      assert (first + second)[0] == first[0] && (first + second)[1..] == first[1..] + second;
      var step := DeclStep(st, first[0], prefix, requireDefault);
      if step.result.Ok? {
        WalkAppend(first[1..], second, step.stores,
                   out + (if step.result.value.Some? then [step.result.value.value] else []), prefix, requireDefault);
      }
    }
  }

  /** A declaration that is neither hoisted nor holds a `$`. */
  predicate Plain(node: Decl) {
    NoDollar(node.value) && !IsHoistedDefinition(node)
  }

  /** A walk over plain declarations changes nothing and outputs them all. */
  lemma {:induction false} PlainWalk(decls: seq<Decl>, st: Stores, out: seq<Decl>, prefix: Option<string>,
                                     requireDefault: Option<string>)
    requires forall i :: 0 <= i < |decls| ==> Plain(decls[i])
    ensures WalkFrom(decls, st, out, prefix, requireDefault) == Run(st, out + decls, None)
    decreases |decls|
  {
    if decls == [] {
      assert out + decls == out;
    } else {
      PlainDeclKept(st, decls[0], prefix, requireDefault);
      PlainWalk(decls[1..], st, out + [decls[0]], prefix, requireDefault);
      assert (out + [decls[0]]) + decls[1..] == out + decls;
    }
  }

  /**
   * A document of plain declarations passes through unchanged, with the caller's
   * variables untouched, unless a prefix mode is asked for without a file path.
   */
  lemma PlainDocumentUnchanged(decls: seq<Decl>, filepath: Option<string>, variables: map<string, string>,
                               options: Options)
    requires forall i :: 0 <= i < |decls| ==> Plain(decls[i])
    requires filepath.Some? || (options.requirePrefix != Some("file") && options.requirePrefix != Some("folder"))
    ensures Transform(decls, filepath, variables, options) == Processed(Ok(decls), variables)
  {
    var prefix := RequiredPrefix(filepath, options.requirePrefix).value;
    PlainWalk(decls, Stores(variables, map[]), [], prefix, options.requireDefault);
    assert [] + decls == decls;
  }
}
