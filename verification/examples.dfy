/**
 * Concrete documents from the plugin's own test cases, worked through the model:
 * the prefixes of `/foo/bar.css`, the prefix check on a hoisted name, and the
 * order of a hoisted definition and its use.
 */
module Examples {
  import opened Wrappers
  import opened Strings
  import opened Syntax
  import opened Errors
  import opened Prefix
  import opened Handlers
  import opened Substitution
  import opened Walk
  import opened Properties

  /** The last `/` of `/foo/bar.css` is at position 4. */
  lemma LastSlashOfTestPath()
    ensures LastIndex("/foo/bar.css", '/', 12) == 4
  {
    var p := "/foo/bar.css";
    assert LastIndex(p, '/', 5) == 4 && LastIndex(p, '/', 6) == 4 && LastIndex(p, '/', 7) == 4 && LastIndex(p, '/', 8) == 4;
    assert LastIndex(p, '/', 9) == 4 && LastIndex(p, '/', 10) == 4 && LastIndex(p, '/', 11) == 4;
  }

  /** In `file` mode the prefix of `/foo/bar.css` is its base name without extension, `bar`. */
  lemma FilePrefixOfTestPath()
    ensures RequiredPrefix(Some("/foo/bar.css"), Some("file")) == Ok(Some("bar"))
  {
    var p := "/foo/bar.css";
    LastSlashOfTestPath();
    assert LastSegment(p) == "bar.css";
    assert LastIndex("bar.css", '.', 4) == 3 && LastIndex("bar.css", '.', 5) == 3 && LastIndex("bar.css", '.', 6) == 3;
    assert LastIndex("bar.css", '.', 7) == 3;
    assert ExtName("bar.css") == ".css";
    assert "bar.css"[..3] == "bar";
    assert BaseNameWithoutExt(p) == "bar";
  }

  /** In `folder` mode the prefix of `/foo/bar.css` is the name of its directory, `foo`. */
  lemma FolderPrefixOfTestPath()
    ensures RequiredPrefix(Some("/foo/bar.css"), Some("folder")) == Ok(Some("foo"))
  {
    var p := "/foo/bar.css";
    LastSlashOfTestPath();
    assert DirName(p) == "/foo";
    assert LastIndex("/foo", '/', 4) == 0;
  }

  /** The capture of `red !default` is `red`: the space before the flag is left out. */
  lemma RedDefaultCapture()
    ensures DefaultFlagCapture("red !default") == Some("red")
  {
    var v := "red !default";
    assert v[3] == ' ' && IsSpace(v[3]);
    assert DefaultFlagAt(v, 4);
    assert LineStart(v, 0) == 0;
    assert LineStart(v, 1) == 0;
    assert LineStart(v, 2) == 0;
    assert LineStart(v, 3) == 0;
    assert v[0..3] == "red";
  }

  /** `$color: red !default` is a hoisted default of `red`. */
  lemma HoistedDefaultOfTest()
    ensures HoistedDefault(Decl("$color", ": ", "red !default")) == Some(Binding("color", "red"))
  {
    assert HoistedProp("$color") == Some("color");
    RedDefaultCapture();
  }

  /** `$color: red` is a bare hoisted variable. */
  lemma HoistedVariableOfTest()
    ensures HoistedVariable(Decl("$color", ": ", "red")) == Some(Binding("color", "red"))
  {
    assert HoistedProp("$color") == Some("color");
    assert DefaultFlagCapture("red").None?;
  }

  /** `$color: red` under the prefix `bar` is refused, naming `color` at index 0. */
  lemma UnprefixedHoistedName()
    ensures CheckPrefix(Decl("$color", ": ", "red"), Some("bar")) == Fail(Failure(MissingPrefix, "color", 0))
  {
    var node := Decl("$color", ": ", "red");
    var name := "color";
    assert ValueVariables("red") == [];
    assert HoistedProp("$color") == Some(name);
    assert Variables(node) == [name];
    assert name[..4][0] == 'c';
    assert !HasPrefix(name, "bar");
    assert FirstUnprefixed([name], "bar") == Some(0);
    var rendered := Render(node);
    assert rendered[1..6] == name;
    NotOccursAt(rendered, name, 0, 0);
    assert IndexOfFrom(rendered, name, 1) == 1;
  }

  /** `$bar-color: red` under the prefix `bar` passes. */
  lemma PrefixedHoistedName()
    ensures CheckPrefix(Decl("$bar-color", ": ", "red"), Some("bar")) == Pass
  {
    assert ValueVariables("red") == [];
    assert HoistedProp("$bar-color") == Some("bar-color");
    assert Variables(Decl("$bar-color", ": ", "red")) == ["bar-color"];
    assert "bar-color"[..4] == "bar-";
    assert FirstUnprefixed(["bar-color"], "bar") == None;
  }

  /** The value `$color` is one bare reference spanning the whole value. */
  lemma ColorReference()
    ensures References("$color") == [Reference("color", 0, 6)]
  {
    var s := "$color";
    assert NameEnd(s, 1) == 6;
    assert s[1..6] == "color";
    assert ReferenceAt(s, 0) == Some(Reference("color", 0, 6));
  }

  /** `$color: red` writes `red` into the explicit store, over what the caller passed. */
  lemma HoistedColorDefines(variables: map<string, string>)
    ensures Define(Stores(variables, map[]), Decl("$color", ": ", "red"), None, None)
         == Defined(Stores(variables["color" := "red"], map[]), None)
  {
    var node := Decl("$color", ": ", "red");
    assert HoistedProp("$color") == Some("color");
    assert DefaultFlagCapture("red").None?;
    assert InlineDefaults("red") == [];
    assert map[] + BindingsMap([]) == map[];
    BareHoistedWritesVariables(Stores(variables, map[]), node, None, None);
  }

  /** The value `$color` holds no inline default. */
  lemma ColorNoInlineDefault()
    ensures InlineDefaults("$color") == []
  {
    var s := "$color";
    assert InlineDefaultAt(s, 0).None? && InlineDefaultAt(s, 1).None? && InlineDefaultAt(s, 2).None?;
    assert InlineDefaultAt(s, 3).None? && InlineDefaultAt(s, 4).None? && InlineDefaultAt(s, 5).None?;
  }

  /** `color: $color` defines nothing. */
  lemma ColorUseDefinesNothing(st: Stores)
    ensures Define(st, Decl("color", ": ", "$color"), None, None) == Defined(st, None)
  {
    var node := Decl("color", ": ", "$color");
    assert HoistedProp("color").None?;
    ColorNoInlineDefault();
    assert st.defaults + BindingsMap([]) == st.defaults;
    assert st.variables + AsMap(None) == st.variables;
    assert HoistedDefaultStep(node, st.defaults, None, None) == Ok(st.defaults + AsMap(None));
    assert HoistedVariableStep(node, st.variables, None, None) == Ok(st.variables + AsMap(None));
    assert InlineDefaultsStep(node, st.defaults, None, None) == Ok(st.defaults + BindingsMap([]));
  }

  /** Substituting `$color` gives the value `color` resolves to, when it has one without `$`. */
  lemma ColorResolves(variables: map<string, string>, defaults: map<string, string>, v: string)
    requires Lookup(variables, defaults, "color") == Some(v) && NoDollar(v)
    ensures Substitute(Decl("color", ": ", "$color"), variables, defaults) == Ok(v)
  {
    var node := Decl("color", ": ", "$color");
    ColorReference();
    SubstituteIsSpan(node, variables, defaults);
    assert "$color"[0..0] + v + "$color"[6..] == v;
  }

  /** Substituting `$color` fails when `color` resolves to nothing, at index 0 (the name opens the declaration). */
  lemma ColorUndefined(variables: map<string, string>, defaults: map<string, string>)
    requires Lookup(variables, defaults, "color").None?
    ensures Substitute(Decl("color", ": ", "$color"), variables, defaults) == Err(Failure(UndefinedVariable, "color", 0))
  {
    var node := Decl("color", ": ", "$color");
    ColorReference();
    assert OccursAt(Render(node), "color", 0);
    assert IndexOf(Render(node), "color") == 0;
  }

  /** `$color: red` as a step of the walk: removed, with `red` written into the explicit store. */
  lemma HoistedColorStep(variables: map<string, string>)
    ensures DeclStep(Stores(variables, map[]), Decl("$color", ": ", "red"), None, None)
         == Step(Stores(variables["color" := "red"], map[]), Ok(None))
  {
    var node := Decl("$color", ": ", "red");
    var st := Stores(variables, map[]);
    HoistedColorDefines(variables);
    var defined := Define(st, node, None, None);
    assert defined.failure.None?;
    assert !HasVariables(node.value);
    assert IsHoistedDefinition(node);
    assert DeclStep(st, node, None, None) == Step(defined.stores, Ok(Kept(node)));
  }

  /** `color: $color` as a step of the walk, when `color` resolves. */
  lemma ColorUseStep(st: Stores, v: string)
    requires Lookup(st.variables, st.defaults, "color") == Some(v) && NoDollar(v)
    ensures DeclStep(st, Decl("color", ": ", "$color"), None, None) == Step(st, Ok(Some(Decl("color", ": ", v))))
  {
    ColorUseDefinesNothing(st);
    ColorResolves(st.variables, st.defaults, v);
    assert HasVariables("$color");
    assert HoistedProp("color").None?;
  }

  /** The walk over the use alone, with `color` defined as `red`. */
  lemma ColorUseWalk(decls: seq<Decl>)
    requires decls == [Decl("color", ": ", "$color")]
    ensures WalkFrom(decls, Stores(map["color" := "red"], map[]), [], None, None)
         == Run(Stores(map["color" := "red"], map[]), [Decl("color", ": ", "red")], None)
  {
    var st := Stores(map["color" := "red"], map[]);
    ColorUseStep(st, "red");
    WalkFromStep(decls, st, [], None, None);
    assert decls[1..] == [];
  }

  /** A walk that opens with `$color: red` goes on after it with `red` written and nothing kept. */
  lemma HoistedColorWalk(decls: seq<Decl>, variables: map<string, string>, out: seq<Decl>)
    requires decls != [] && decls[0] == Decl("$color", ": ", "red")
    ensures WalkFrom(decls, Stores(variables, map[]), out, None, None)
         == WalkFrom(decls[1..], Stores(variables["color" := "red"], map[]), out, None, None)
  {
    HoistedColorStep(variables);
    WalkFromStep(decls, Stores(variables, map[]), out, None, None);
    assert out + [] == out;
  }

  /** The walk over the hoisted definition and its use, from an explicit `color: blue`. */
  lemma HoistedBeforeUseWalk(decls: seq<Decl>)
    requires decls == [Decl("$color", ": ", "red"), Decl("color", ": ", "$color")]
    ensures WalkFrom(decls, Stores(map["color" := "blue"], map[]), [], None, None)
         == Run(Stores(map["color" := "red"], map[]), [Decl("color", ": ", "red")], None)
  {
    var rest := decls[1..];
    assert rest == [Decl("color", ": ", "$color")];
    var written := map["color" := "blue"]["color" := "red"];
    assert written == map["color" := "red"];
    HoistedColorWalk(decls, map["color" := "blue"], []);
    ColorUseWalk(rest);
  }

  /**
   * The hoisted definition before its use: the definition is removed, the use
   * resolved, and the caller's store holds the hoisted value, even over its own.
   */
  lemma HoistedBeforeUse()
    ensures Transform([Decl("$color", ": ", "red"), Decl("color", ": ", "$color")], None,
                      map["color" := "blue"], Options(None, None))
         == Processed(Ok([Decl("color", ": ", "red")]), map["color" := "red"])
  {
    var decls := [Decl("$color", ": ", "red"), Decl("color", ": ", "$color")];
    assert RequiredPrefix(None, None) == Ok(None);
    HoistedBeforeUseWalk(decls);
  }

  /** The use before the hoisted definition: `color` is not defined yet, and the walk stops there. */
  lemma UseBeforeHoisted()
    ensures Transform([Decl("color", ": ", "$color"), Decl("$color", ": ", "red")], None, map[], Options(None, None)).result
         == Err(Failure(UndefinedVariable, "color", 0))
  {
    var decls := [Decl("color", ": ", "$color"), Decl("$color", ": ", "red")];
    var st := Stores(map[], map[]);
    ColorUseDefinesNothing(st);
    ColorUndefined(map[], map[]);
    assert HasVariables("$color");
    WalkFromStep(decls, st, [], None, None);
  }

  /** The quoted `"$1"` holds no inline default. */
  lemma QuotedDollarNoInlineDefault()
    ensures InlineDefaults("\"$1\"") == []
  {
    var s := "\"$1\"";
    assert InlineDefaultAt(s, 0).None? && InlineDefaultAt(s, 1).None?;
    assert InlineDefaultAt(s, 2).None? && InlineDefaultAt(s, 3).None?;
  }

  /** In `"$1"` the name `1` is followed by a quote, which ends no reference: there is none. */
  lemma QuotedDollarNoReference()
    ensures References("\"$1\"") == []
  {
    var s := "\"$1\"";
    assert NameEnd(s, 2) == 3;
    assert !OrAt(s, 3) && !IsSpace(s[3]);
    assert ReferenceAt(s, 0).None? && ReferenceAt(s, 1).None?;
    assert ReferenceAt(s, 2).None? && ReferenceAt(s, 3).None?;
  }

  /** `content: "$1"` defines nothing. */
  lemma QuotedDollarDefinesNothing(st: Stores, node: Decl)
    requires node == Decl("content", ": ", "\"$1\"")
    ensures Define(st, node, None, None) == Defined(st, None)
  {
    assert node.prop[0] == 'c';
    assert HoistedProp(node.prop).None?;
    QuotedDollarNoInlineDefault();
    assert st.defaults + BindingsMap([]) == st.defaults;
    assert st.variables + AsMap(None) == st.variables;
    assert st.defaults + AsMap(None) == st.defaults;
  }

  /** `content: "$1"` as a step of the walk: a `$` that opens no reference is kept as it is. */
  lemma QuotedDollarStep(st: Stores, node: Decl)
    requires node == Decl("content", ": ", "\"$1\"")
    ensures DeclStep(st, node, None, None) == Step(st, Ok(Some(node)))
  {
    QuotedDollarDefinesNothing(st, node);
    QuotedDollarNoReference();
    NoReferencesNoChange(node, st.variables, st.defaults);
    assert node.prop[0] == 'c';
    assert HoistedProp(node.prop).None?;
    assert node.(value := node.value) == node;
  }

  /** `a { content: "$1"; }` passes through the plugin unchanged. */
  lemma QuotedDollarPassesThrough()
    ensures Transform([Decl("content", ": ", "\"$1\"")], Some("/foo/bar.css"), map[], Options(None, None))
         == Processed(Ok([Decl("content", ": ", "\"$1\"")]), map[])
  {
    assert RequiredPrefix(Some("/foo/bar.css"), None) == Ok(None);
    QuotedDollarWalk([Decl("content", ": ", "\"$1\"")]);
  }

  /** The walk over the one declaration. */
  lemma QuotedDollarWalk(decls: seq<Decl>)
    requires decls == [Decl("content", ": ", "\"$1\"")]
    ensures WalkFrom(decls, Stores(map[], map[]), [], None, None) == Run(Stores(map[], map[]), decls, None)
  {
    QuotedDollarStep(Stores(map[], map[]), decls[0]);
    WalkFromStep(decls, Stores(map[], map[]), [], None, None);
    assert decls[1..] == [];
  }

  /** ` OR ` in capitals is not ` or `: `$c OR red` holds no inline default. */
  lemma CapitalOrNoInlineDefault()
    ensures InlineDefaults("$c OR red") == []
  {
    var s := "$c OR red";
    assert NameEnd(s, 2) == 2;
    assert !OrAt(s, 2);
    assert InlineDefaultAt(s, 0).None? && InlineDefaultAt(s, 1).None? && InlineDefaultAt(s, 2).None?;
    assert InlineDefaultAt(s, 3).None? && InlineDefaultAt(s, 4).None? && InlineDefaultAt(s, 5).None?;
    assert InlineDefaultAt(s, 6).None? && InlineDefaultAt(s, 7).None? && InlineDefaultAt(s, 8).None?;
  }

  /** In `$c OR red` only `$c` is a reference; it ends at the space after the name. */
  lemma CapitalOrReference()
    ensures References("$c OR red") == [Reference("c", 0, 2)]
  {
    var s := "$c OR red";
    assert NameEnd(s, 2) == 2;
    assert s[1..2] == "c";
    assert !OrAt(s, 2) && IsSpace(s[2]);
    assert ReferenceAt(s, 0) == Some(Reference("c", 0, 2));
    assert ReferenceAt(s, 2).None? && ReferenceAt(s, 3).None? && ReferenceAt(s, 4).None?;
    assert ReferenceAt(s, 5).None? && ReferenceAt(s, 6).None? && ReferenceAt(s, 7).None?;
    assert ReferenceAt(s, 8).None?;
    assert ReferencesFrom(s, 2) == [];
  }

  /** `color: $c OR red` with both stores empty fails on the undefined `$c`, not with the default `red`. */
  lemma CapitalOrUndefined()
    ensures Substitute(Decl("color", ": ", "$c OR red"), map[], map[]) == Err(Failure(UndefinedVariable, "c", 0))
  {
    var node := Decl("color", ": ", "$c OR red");
    CapitalOrReference();
    assert OccursAt(Render(node), "c", 0);
    assert IndexOf(Render(node), "c") == 0;
  }

  /** The one gap of `$c OR red` after its reference holds no `$`, and `blue` none either. */
  lemma CapitalOrConditions()
    ensures GapsDollarFree("$c OR red", 0, [Reference("c", 0, 2)])
    ensures ValuesDollarFree(map["c" := "blue"], map[], [Reference("c", 0, 2)])
  {
    var v := "$c OR red";
    assert NoDollar(v[0..0]) && NoDollar(v[2..]);
    assert GapsDollarFree(v, 2, []);
    assert Lookup(map["c" := "blue"], map[], "c") == Some("blue");
  }

  /** Replacing the span of `$c` by `blue` leaves ` OR red`. */
  lemma CapitalOrSpan()
    ensures SpanSubstitute(Decl("color", ": ", "$c OR red"), 0, [Reference("c", 0, 2)], map["c" := "blue"], map[])
         == Ok("blue OR red")
  {
    var node := Decl("color", ": ", "$c OR red");
    var variables := map["c" := "blue"];
    assert Lookup(variables, map[], "c") == Some("blue");
    assert SpanSubstitute(node, 2, [], variables, map[]) == Ok(" OR red");
    assert node.value[0..0] + "blue" + " OR red" == "blue OR red";
  }

  /** Under the `hoisted` policy, `$c OR red` is not an illegal inline default. */
  lemma CapitalOrAllowedUnderHoisted(defaults: map<string, string>)
    ensures InlineDefaultsStep(Decl("color", ": ", "$c OR red"), defaults, None, Some("hoisted")) == Ok(defaults)
  {
    CapitalOrNoInlineDefault();
    assert defaults + BindingsMap([]) == defaults;
  }

  /** With `c` defined as `blue`, only `$c` is replaced and ` OR red` stays. */
  lemma CapitalOrKept()
    ensures Substitute(Decl("color", ": ", "$c OR red"), map["c" := "blue"], map[]) == Ok("blue OR red")
  {
    CapitalOrReference();
    CapitalOrConditions();
    SubstituteIsSpan(Decl("color", ": ", "$c OR red"), map["c" := "blue"], map[]);
    CapitalOrSpan();
  }

  /** The grouped defaults of a border: `[$width or 1px] solid [$color or black]`. */
  const Border: string := "[$width or 1px] solid [$color or black]"

  /** The name `width` runs from 2 to 7. */
  lemma BorderWidthName()
    ensures DollarName(Border, 1) && NameEnd(Border, 2) == 7 && Border[2..7] == "width"
  {
    var v := Border;
    assert NameEnd(v, 7) == 7;
    assert NameEnd(v, 6) == 7;
    assert NameEnd(v, 5) == 7;
    assert NameEnd(v, 4) == 7;
    assert NameEnd(v, 3) == 7;
  }

  /** The default text `1px` runs from 11 up to the `]` at 14. */
  lemma BorderWidthText()
    ensures DefaultText(Border, 11) == Some(14) && Border[11..14] == "1px"
  {
    var v := Border;
    assert LazyEnd(v, 11, 14) == Some(14);
    assert LazyEnd(v, 11, 13) == Some(14);
  }

  /** `[$width or 1px]` is an inline default of `1px` spanning the brackets. */
  lemma BorderWidthMatch()
    ensures InlineDefaultAt(Border, 0) == Some(InlineMatch("width", "1px", 0, 15))
  {
    assert Border[0] == '[';
    BorderWidthName();
    BorderOrs();
    BorderWidthText();
  }

  /** Both ` or `s of the border, after `width` and after `color`. */
  lemma BorderOrs()
    ensures OrAt(Border, 7) && OrAt(Border, 29)
  {
    assert Border[7] == ' ' && Border[8] == 'o' && Border[9] == 'r' && Border[10] == ' ';
    assert Border[29] == ' ' && Border[30] == 'o' && Border[31] == 'r' && Border[32] == ' ';
  }

  /** The name `color` runs from 24 to 29. */
  lemma BorderColorName()
    ensures DollarName(Border, 23) && NameEnd(Border, 24) == 29 && Border[24..29] == "color"
  {
    var v := Border;
    assert NameEnd(v, 29) == 29;
    assert NameEnd(v, 28) == 29;
    assert NameEnd(v, 27) == 29;
    assert NameEnd(v, 26) == 29;
    assert NameEnd(v, 25) == 29;
  }

  /** The default text `black` runs from 33 up to the `]` at 38. */
  lemma BorderColorText()
    ensures DefaultText(Border, 33) == Some(38) && Border[33..38] == "black"
  {
    var v := Border;
    assert LazyEnd(v, 33, 38) == Some(38);
    assert LazyEnd(v, 33, 37) == Some(38);
    assert LazyEnd(v, 33, 36) == Some(38);
    assert LazyEnd(v, 33, 35) == Some(38);
  }

  /** `[$color or black]` is an inline default of `black` spanning the brackets. */
  lemma BorderColorMatch()
    ensures InlineDefaultAt(Border, 22) == Some(InlineMatch("color", "black", 22, 39))
  {
    BorderColorName();
    BorderOrs();
    BorderColorText();
  }

  /** Between the groups, ` solid `, nothing matches. */
  lemma BorderGapNoMatch(p: nat)
    requires 15 <= p < 22
    ensures InlineDefaultAt(Border, p).None? && ReferenceAt(Border, p).None?
  {
    assert Border[p] != '[' && Border[p] != '$';
  }

  lemma BorderInlineMatches()
    ensures InlineMatchesFrom(Border, 0)
         == [InlineMatch("width", "1px", 0, 15), InlineMatch("color", "black", 22, 39)]
  {
    var v := Border;
    BorderWidthMatch();
    BorderColorMatch();
    BorderGapNoMatch(15);
    BorderGapNoMatch(16);
    BorderGapNoMatch(17);
    BorderGapNoMatch(18);
    BorderGapNoMatch(19);
    BorderGapNoMatch(20);
    BorderGapNoMatch(21);
    assert InlineMatchesFrom(v, 39) == [];
    assert InlineMatchesFrom(v, 22) == [InlineMatch("color", "black", 22, 39)];
    assert InlineMatchesFrom(v, 21) == InlineMatchesFrom(v, 22);
    assert InlineMatchesFrom(v, 20) == InlineMatchesFrom(v, 21);
    assert InlineMatchesFrom(v, 19) == InlineMatchesFrom(v, 20);
    assert InlineMatchesFrom(v, 18) == InlineMatchesFrom(v, 19);
    assert InlineMatchesFrom(v, 17) == InlineMatchesFrom(v, 18);
    assert InlineMatchesFrom(v, 16) == InlineMatchesFrom(v, 17);
    assert InlineMatchesFrom(v, 15) == InlineMatchesFrom(v, 16);
  }

  /** The two grouped defaults, in order. */
  lemma BorderInlineDefaults()
    ensures InlineDefaults(Border) == [Binding("width", "1px"), Binding("color", "black")]
  {
    BorderInlineMatches();
  }

  /** The references of the grouped value are exactly the two groups. */
  lemma BorderReferences()
    ensures References(Border) == [Reference("width", 0, 15), Reference("color", 22, 39)]
  {
    var v := Border;
    BorderWidthMatch();
    BorderColorMatch();
    ReferenceAtDefaultSpan(v, 0);
    ReferenceAtDefaultSpan(v, 22);
    BorderGapNoMatch(15);
    BorderGapNoMatch(16);
    BorderGapNoMatch(17);
    BorderGapNoMatch(18);
    BorderGapNoMatch(19);
    BorderGapNoMatch(20);
    BorderGapNoMatch(21);
    assert ReferencesFrom(v, 39) == [];
    assert ReferencesFrom(v, 22) == [Reference("color", 22, 39)];
    assert ReferencesFrom(v, 21) == ReferencesFrom(v, 22);
    assert ReferencesFrom(v, 20) == ReferencesFrom(v, 21);
    assert ReferencesFrom(v, 19) == ReferencesFrom(v, 20);
    assert ReferencesFrom(v, 18) == ReferencesFrom(v, 19);
    assert ReferencesFrom(v, 17) == ReferencesFrom(v, 18);
    assert ReferencesFrom(v, 16) == ReferencesFrom(v, 17);
    assert ReferencesFrom(v, 15) == ReferencesFrom(v, 16);
  }

  /** The defaults store after `border: [$width or 1px] solid [$color or black]`. */
  const BorderDefaults: map<string, string> := map["width" := "1px", "color" := "black"]

  /** The declaration records both grouped defaults and defines nothing else. */
  lemma BorderDefines(node: Decl)
    requires node == Decl("border", ": ", Border)
    ensures Define(Stores(map[], map[]), node, None, None) == Defined(Stores(map[], BorderDefaults), None)
  {
    assert HoistedProp("border").None?;
    assert CheckPrefix(node, None) == Pass;
    BorderInlineDefaults();
    InlineDefaultsRecorded(Stores(map[], map[]), node, None, None);
    assert map[] + BindingsMap([Binding("width", "1px"), Binding("color", "black")]) == BorderDefaults;
  }

  lemma BorderGap()
    ensures Border[15..22] == " solid "
  {
    var v := Border;
    assert v[15] == ' ';
    assert v[16] == 's';
    assert v[17] == 'o';
    assert v[18] == 'l';
    assert v[19] == 'i';
    assert v[20] == 'd';
    assert v[21] == ' ';
  }

  /** The gaps of the grouped value hold no `$`, and the defaults none either. */
  lemma BorderConditions()
    ensures GapsDollarFree(Border, 0, [Reference("width", 0, 15), Reference("color", 22, 39)])
    ensures ValuesDollarFree(map[], BorderDefaults, [Reference("width", 0, 15), Reference("color", 22, 39)])
  {
    var v := Border;
    BorderGap();
    assert NoDollar(v[0..0]) && NoDollar(" solid ") && NoDollar(v[39..]);
    assert GapsDollarFree(v, 39, []);
    assert GapsDollarFree(v, 15, [Reference("color", 22, 39)]);
    assert Lookup(map[], BorderDefaults, "width") == Some("1px");
    assert Lookup(map[], BorderDefaults, "color") == Some("black");
  }

  /** Each group replaced by its default leaves `1px solid black`. */
  lemma BorderSpan()
    ensures SpanSubstitute(Decl("border", ": ", Border), 0, [Reference("width", 0, 15), Reference("color", 22, 39)],
                           map[], BorderDefaults)
         == Ok("1px solid black")
  {
    var node := Decl("border", ": ", Border);
    var color := [Reference("color", 22, 39)];
    assert Lookup(map[], BorderDefaults, "width") == Some("1px");
    assert Lookup(map[], BorderDefaults, "color") == Some("black");
    assert SpanSubstitute(node, 39, [], map[], BorderDefaults) == Ok("");
    BorderGap();
    assert color[1..] == [];
    assert SpanSubstitute(node, 15, color, map[], BorderDefaults) == Ok(Border[15..22] + "black" + "");
    assert " solid " + "black" + "" == " solid black";
    assert [Reference("width", 0, 15), Reference("color", 22, 39)][1..] == color;
    assert Border[0..0] + "1px" + " solid black" == "1px solid black";
  }

  /** With nothing defined explicitly, the grouped defaults fill the value. */
  lemma BorderSubstitute(node: Decl)
    requires node == Decl("border", ": ", Border)
    ensures Substitute(node, map[], BorderDefaults) == Ok("1px solid black")
  {
    BorderReferences();
    BorderConditions();
    SubstituteIsSpan(node, map[], BorderDefaults);
    BorderSpan();
  }

  /** The declaration as a step of the walk: the defaults recorded, then the value filled from them. */
  lemma BorderStep(node: Decl)
    requires node == Decl("border", ": ", Border)
    ensures DeclStep(Stores(map[], map[]), node, None, None)
         == Step(Stores(map[], BorderDefaults), Ok(Some(Decl("border", ": ", "1px solid black"))))
  {
    assert node.prop[0] == 'b' && node.value[1] == '$';
    assert !IsHoistedDefinition(node) && HasVariables(node.value);
    BorderDefines(node);
    BorderSubstitute(node);
  }

  /** `a { border: [$width or 1px] solid [$color or black]; }` becomes `a { border: 1px solid black; }`. */
  lemma BorderGroupedDefaults()
    ensures Transform([Decl("border", ": ", Border)], None, map[], Options(None, None))
         == Processed(Ok([Decl("border", ": ", "1px solid black")]), map[])
  {
    assert RequiredPrefix(None, None) == Ok(None);
    BorderWalk([Decl("border", ": ", Border)]);
  }

  /** The walk over the one declaration. */
  lemma BorderWalk(decls: seq<Decl>)
    requires decls == [Decl("border", ": ", Border)]
    ensures WalkFrom(decls, Stores(map[], map[]), [], None, None)
         == Run(Stores(map[], BorderDefaults), [Decl("border", ": ", "1px solid black")], None)
  {
    BorderStep(decls[0]);
    WalkFromStep(decls, Stores(map[], map[]), [], None, None);
    assert decls[1..] == [];
  }
}
