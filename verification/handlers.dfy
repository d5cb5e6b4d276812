/**
 * The definition handlers (index.js: getVariableAssignment, handleHoistedDefault,
 * handleHoistedVariable, handleInlineDefaults). Each handler applies the
 * `requireDefault` policy, checks the prefix and folds what it found into one of
 * the two stores with `_.assign`, which changes the store in place.
 */
module Handlers {
  import opened Wrappers
  import opened Strings
  import opened Syntax
  import opened Errors
  import opened Prefix

  /** `m[k]` is truthy: present and not the empty string. */
  predicate Truthy(m: map<string, string>, k: string) {
    k in m && m[k] != ""
  }

  /**
   * `getVariableAssignment`: the binding to store, if any. A value holding a `$`
   * is read as a reference: the text without its first `$` is looked up in
   * `variables`. Nothing is stored for an empty name, an empty value or a
   * reference with no truthy value.
   */
  function VariableAssignment(found: Option<Binding>, variables: map<string, string>): (r: Option<Binding>)
    ensures r.Some? ==> found.Some? && r.value.name == found.value.name && r.value.name != "" && r.value.value != ""
    ensures found.Some? && (found.value.name == "" || found.value.value == "") ==> r.None?
    ensures found.Some? && found.value.name != "" && found.value.value != "" && NoDollar(found.value.value) ==>
      r == found
    ensures found.Some? && !NoDollar(found.value.value) ==>
      var referenced := ReplaceFirst(found.value.value, "$", "");
      (r.Some? <==> found.value.name != "" && Truthy(variables, referenced))
      && (r.Some? ==> r.value.value == variables[referenced])
  {
    match found
    case None => None
    case Some(Binding(key, valueOrReferencedVariable)) =>
      if key == "" || valueOrReferencedVariable == "" then None
      else
        var value :=
          if HasVariables(valueOrReferencedVariable) then
            var referencedVariable := ReplaceFirst(valueOrReferencedVariable, "$", "");
            if referencedVariable in variables then variables[referencedVariable] else ""
          else valueOrReferencedVariable;
        if value != "" then Some(Binding(key, value)) else None
  }

  /** The one-key object of a binding, or `null` (which `_.assign` ignores). */
  function AsMap(b: Option<Binding>): (m: map<string, string>)
    ensures b.None? ==> m == map[]
    ensures b.Some? ==> m.Keys == {b.value.name} && m[b.value.name] == b.value.value
  {
    if b.Some? then map[b.value.name := b.value.value] else map[]
  }

  /** `handleHoistedDefault` on a defaults map: the new map, or the error it raises. */
  function HoistedDefaultStep(node: Decl, defaults: map<string, string>, prefix: Option<string>,
                              requireDefault: Option<string>): Result<map<string, string>>
  {
    var found := HoistedDefault(node);
    if found.Some? && requireDefault == Some("inline") then
      Err(Failure(IllegalHoistedDefinition, found.value.name, GetIndex(node, found.value.name)))
    else match CheckPrefix(node, prefix)
      case Fail(e) => Err(e)
      case Pass => Ok(defaults + AsMap(VariableAssignment(found, defaults)))
  }

  /** `handleHoistedVariable` on the variables map: the new map, or the error it raises. */
  function HoistedVariableStep(node: Decl, variables: map<string, string>, prefix: Option<string>,
                               requireDefault: Option<string>): Result<map<string, string>>
  {
    var found := HoistedVariable(node);
    if found.Some? && requireDefault == Some("flag") then
      Err(Failure(MissingDefaultFlag, found.value.name, GetIndex(node, found.value.name)))
    else if found.Some? && requireDefault == Some("inline") then
      Err(Failure(IllegalHoistedDefinition, found.value.name, GetIndex(node, found.value.name)))
    else match CheckPrefix(node, prefix)
      case Fail(e) => Err(e)
      case Pass => Ok(variables + AsMap(VariableAssignment(found, variables)))
  }

  /** `handleInlineDefaults` on a defaults map: the new map, or the error it raises. */
  function InlineDefaultsStep(node: Decl, defaults: map<string, string>, prefix: Option<string>,
                              requireDefault: Option<string>): Result<map<string, string>>
  {
    var found := InlineDefaults(node.value);
    if |found| > 0 && requireDefault == Some("hoisted") then
      var firstProp := FirstKey(Names(found));
      Err(Failure(IllegalInlineDefinition, firstProp, GetIndex(node, firstProp)))
    else match CheckPrefix(node, prefix)
      case Fail(e) => Err(e)
      case Pass => Ok(defaults + BindingsMap(found))
  }

  /** A variable store: the caller's `variables` object, or the walk's `variableDefaults`. */
  class VariableStore {
    var entries: map<string, string>

    constructor (initial: map<string, string>)
      ensures entries == initial
    {
      entries := initial;
    }

    /** `_.assign(store, source)`: every key of `source` is written over the store's. */
    method Assign(source: map<string, string>)
      modifies this
      ensures entries == old(entries) + source
    {
      entries := entries + source;
    }
  }

  /** `handleHoistedDefault`: may throw, otherwise writes the found default into `variableDefaults`. */
  method HandleHoistedDefault(node: Decl, variableDefaults: VariableStore, prefix: Option<string>,
                              requireDefault: Option<string>) returns (outcome: Outcome)
    modifies variableDefaults
    ensures match HoistedDefaultStep(node, old(variableDefaults.entries), prefix, requireDefault)
      case Ok(m) => outcome == Pass && variableDefaults.entries == m
      case Err(e) => outcome == Fail(e) && variableDefaults.entries == old(variableDefaults.entries)
  {
    var found := HoistedDefault(node);
    if found.Some? && requireDefault == Some("inline") {
      return Fail(Failure(IllegalHoistedDefinition, found.value.name, GetIndex(node, found.value.name)));
    }
    var checked := CheckPrefix(node, prefix);
    if checked.Fail? {
      return checked;
    }
    variableDefaults.Assign(AsMap(VariableAssignment(found, variableDefaults.entries)));
    outcome := Pass;
  }

  /** `handleHoistedVariable`: may throw, otherwise writes the bare hoisted variable into `variables`. */
  method HandleHoistedVariable(node: Decl, variables: VariableStore, prefix: Option<string>,
                               requireDefault: Option<string>) returns (outcome: Outcome)
    modifies variables
    ensures match HoistedVariableStep(node, old(variables.entries), prefix, requireDefault)
      case Ok(m) => outcome == Pass && variables.entries == m
      case Err(e) => outcome == Fail(e) && variables.entries == old(variables.entries)
  {
    var found := HoistedVariable(node);
    if found.Some? && requireDefault == Some("flag") {
      return Fail(Failure(MissingDefaultFlag, found.value.name, GetIndex(node, found.value.name)));
    } else if found.Some? && requireDefault == Some("inline") {
      return Fail(Failure(IllegalHoistedDefinition, found.value.name, GetIndex(node, found.value.name)));
    }
    var checked := CheckPrefix(node, prefix);
    if checked.Fail? {
      return checked;
    }
    variables.Assign(AsMap(VariableAssignment(found, variables.entries)));
    outcome := Pass;
  }

  /** `handleInlineDefaults`: may throw, otherwise writes every inline default into `variableDefaults`. */
  method HandleInlineDefaults(node: Decl, variableDefaults: VariableStore, prefix: Option<string>,
                              requireDefault: Option<string>) returns (outcome: Outcome)
    modifies variableDefaults
    ensures match InlineDefaultsStep(node, old(variableDefaults.entries), prefix, requireDefault)
      case Ok(m) => outcome == Pass && variableDefaults.entries == m
      case Err(e) => outcome == Fail(e) && variableDefaults.entries == old(variableDefaults.entries)
  {
    var found := InlineDefaults(node.value);
    if |found| > 0 && requireDefault == Some("hoisted") {
      var firstProp := FirstKey(Names(found));
      return Fail(Failure(IllegalInlineDefinition, firstProp, GetIndex(node, firstProp)));
    }
    var checked := CheckPrefix(node, prefix);
    if checked.Fail? {
      return checked;
    }
    variableDefaults.Assign(BindingsMap(found));
    outcome := Pass;
  }
}
