/**
 * The walk over a document's declarations (index.js: removeHoistedDefinitions and
 * the `walkDecls` callback of the plugin). Each declaration first feeds the two
 * stores, then has its references substituted, and is dropped from the output if
 * it is a hoisted definition. The first error ends the walk.
 */
module Walk {
  import opened Wrappers
  import opened Strings
  import opened Syntax
  import opened Errors
  import opened Prefix
  import opened Handlers
  import opened Substitution

  /** The explicit `variables` object and the document's `variableDefaults`. */
  datatype Stores = Stores(variables: map<string, string>, defaults: map<string, string>)

  /**
   * What one declaration leaves behind: the stores as they stand afterwards and
   * either the declaration to keep (`Some`), nothing when it was removed (`None`),
   * or the error it raised.
   */
  datatype Step = Step(stores: Stores, result: Result<Option<Decl>>)

  /** `removeHoistedDefinitions`: a declaration with a hoisted property is removed. */
  predicate IsHoistedDefinition(node: Decl) {
    HoistedProp(node.prop).Some?
  }

  /** The declaration as it stays in the document, if it stays. */
  function Kept(node: Decl): (r: Option<Decl>)
    ensures r.Some? <==> !IsHoistedDefinition(node)
    ensures r.Some? ==> r.value == node
  {
    if IsHoistedDefinition(node) then None else Some(node)
  }

  /** The stores after the definition handlers of one declaration, and the error that stopped them, if any. */
  datatype Defined = Defined(stores: Stores, failure: Option<Failure>)

  /**
   * The first part of the `walkDecls` callback: `handleHoistedDefault`,
   * `handleHoistedVariable` and `handleInlineDefaults` in order. A store written
   * before an error keeps what was written.
   */
  function Define(st: Stores, node: Decl, prefix: Option<string>, requireDefault: Option<string>): Defined {
    match HoistedDefaultStep(node, st.defaults, prefix, requireDefault)
    case Err(e) => Defined(st, Some(e))
    case Ok(defaults) =>
      match HoistedVariableStep(node, st.variables, prefix, requireDefault)
      case Err(e) => Defined(Stores(st.variables, defaults), Some(e))
      case Ok(variables) =>
        match InlineDefaultsStep(node, defaults, prefix, requireDefault)
        case Err(e) => Defined(Stores(variables, defaults), Some(e))
        case Ok(defaults') => Defined(Stores(variables, defaults'), None)
  }

  /**
   * The whole `walkDecls` callback on one declaration: the definitions, then (when
   * the value holds a `$`) the prefix check and the substitution, then the removal.
   */
  function DeclStep(st: Stores, node: Decl, prefix: Option<string>, requireDefault: Option<string>): Step {
    var defined := Define(st, node, prefix, requireDefault);
    var stores := defined.stores;
    if defined.failure.Some? then Step(stores, Err(defined.failure.value))
    else if HasVariables(node.value) then
      match CheckPrefix(node, prefix)
      case Fail(e) => Step(stores, Err(e))
      case Pass =>
        match Substitute(node, stores.variables, stores.defaults)
        case Err(e) => Step(stores, Err(e))
        case Ok(value) => Step(stores, Ok(Kept(node.(value := value))))
    else Step(stores, Ok(Kept(node)))
  }

  /** The state of a walk: the stores, the declarations kept so far and the error that ended it, if any. */
  datatype Run = Run(stores: Stores, output: seq<Decl>, failure: Option<Failure>)

  /** The walk over `decls` from the given stores, with `out` kept so far. */
  function WalkFrom(decls: seq<Decl>, st: Stores, out: seq<Decl>, prefix: Option<string>,
                    requireDefault: Option<string>): Run
    decreases |decls|
  {
    if decls == [] then Run(st, out, None)
    else
      var step := DeclStep(st, decls[0], prefix, requireDefault);
      match step.result
      case Err(e) => Run(step.stores, out, Some(e))
      case Ok(kept) =>
        WalkFrom(decls[1..], step.stores, out + (if kept.Some? then [kept.value] else []), prefix, requireDefault)
  }

  /** The walk takes one declaration at a time: a step that fails ends it, one that succeeds extends the output. */
  lemma WalkFromStep(decls: seq<Decl>, st: Stores, out: seq<Decl>, prefix: Option<string>,
                     requireDefault: Option<string>)
    requires decls != []
    ensures var step := DeclStep(st, decls[0], prefix, requireDefault);
      step.result.Err? ==> WalkFrom(decls, st, out, prefix, requireDefault) == Run(step.stores, out, Some(step.result.failure))
    ensures var step := DeclStep(st, decls[0], prefix, requireDefault);
      var out' := out + (if step.result.Ok? && step.result.value.Some? then [step.result.value.value] else []);
      step.result.Ok? ==> WalkFrom(decls, st, out, prefix, requireDefault) == WalkFrom(decls[1..], step.stores, out', prefix, requireDefault)
  {
  }

  /** The plugin's options: `requirePrefix` and `requireDefault` (absent when not given). */
  datatype Options = Options(requirePrefix: Option<string>, requireDefault: Option<string>)

  /** The processed document and the caller's `variables` object as the walk leaves it. */
  datatype Processed = Processed(result: Result<seq<Decl>>, variables: map<string, string>)

  /**
   * The plugin on one document: the required prefix from the file path, then the
   * walk from the caller's variables and empty defaults.
   */
  function Transform(decls: seq<Decl>, filepath: Option<string>, variables: map<string, string>,
                     options: Options): Processed
  {
    match RequiredPrefix(filepath, options.requirePrefix)
    case Err(e) => Processed(Err(e), variables)
    case Ok(prefix) =>
      var run := WalkFrom(decls, Stores(variables, map[]), [], prefix, options.requireDefault);
      Processed(if run.failure.Some? then Err(run.failure.value) else Ok(run.output), run.stores.variables)
  }

  /** The definition handlers of one declaration, changing both stores in place; `None` when all passed. */
  method HandleDefinitions(node: Decl, variables: VariableStore, variableDefaults: VariableStore,
                           prefix: Option<string>, requireDefault: Option<string>) returns (failure: Option<Failure>)
    requires variables != variableDefaults
    modifies variables, variableDefaults
    ensures Defined(Stores(variables.entries, variableDefaults.entries), failure)
         == Define(Stores(old(variables.entries), old(variableDefaults.entries)), node, prefix, requireDefault)
  {
    var outcome := HandleHoistedDefault(node, variableDefaults, prefix, requireDefault);
    if outcome.Fail? {
      return Some(outcome.failure);
    }
    outcome := HandleHoistedVariable(node, variables, prefix, requireDefault);
    if outcome.Fail? {
      return Some(outcome.failure);
    }
    outcome := HandleInlineDefaults(node, variableDefaults, prefix, requireDefault);
    if outcome.Fail? {
      return Some(outcome.failure);
    }
    failure := None;
  }

  /** The `walkDecls` callback on one declaration, changing both stores in place. */
  method HandleDecl(node: Decl, variables: VariableStore, variableDefaults: VariableStore,
                    prefix: Option<string>, requireDefault: Option<string>) returns (r: Result<Option<Decl>>)
    requires variables != variableDefaults
    modifies variables, variableDefaults
    ensures Step(Stores(variables.entries, variableDefaults.entries), r)
         == DeclStep(Stores(old(variables.entries), old(variableDefaults.entries)), node, prefix, requireDefault)
  {
    var failure := HandleDefinitions(node, variables, variableDefaults, prefix, requireDefault);
    if failure.Some? {
      return Err(failure.value);
    }
    var node := node;
    if HasVariables(node.value) {
      var checked := CheckPrefix(node, prefix);
      if checked.Fail? {
        return Err(checked.failure);
      }
      var replaced := ReplaceValues(node, variables, variableDefaults);
      if replaced.Err? {
        return Err(replaced.failure);
      }
      node := node.(value := replaced.value);
    }
    r := Ok(Kept(node));
  }

  /**
   * The plugin on one document, with the caller's `variables` object changed in
   * place: the kept declarations, with their values substituted, or the first error.
   */
  method ProcessDocument(decls: seq<Decl>, filepath: Option<string>, variables: VariableStore, options: Options)
    returns (result: Result<seq<Decl>>)
    modifies variables
    ensures Processed(result, variables.entries) == Transform(decls, filepath, old(variables.entries), options)
  {
    var required := RequiredPrefix(filepath, options.requirePrefix);
    if required.Err? {
      return Err(required.failure);
    }
    var prefix := required.value;
    var requireDefault := options.requireDefault;
    var variableDefaults := new VariableStore(map[]);
    var out: seq<Decl> := [];
    var i := 0;
    assert decls[i..] == decls;
    while i < |decls|
      invariant 0 <= i <= |decls|
      invariant fresh(variableDefaults)
      invariant WalkFrom(decls[i..], Stores(variables.entries, variableDefaults.entries), out, prefix, requireDefault)
             == WalkFrom(decls, Stores(old(variables.entries), map[]), [], prefix, requireDefault)
    {
      assert decls[i..][0] == decls[i] && decls[i..][1..] == decls[i + 1..];
      ghost var st := Stores(variables.entries, variableDefaults.entries);
      ghost var step := DeclStep(st, decls[i], prefix, requireDefault);
      WalkFromStep(decls[i..], st, out, prefix, requireDefault);
      var kept := HandleDecl(decls[i], variables, variableDefaults, prefix, requireDefault);
      assert step.stores == Stores(variables.entries, variableDefaults.entries) && step.result == kept;
      if kept.Err? {
        return Err(kept.failure);
      }
      if kept.value.Some? {
        out := out + [kept.value.value];
      } else {
        assert out + [] == out;
      }
      i := i + 1;
    }
    result := Ok(out);
  }
}
