/** The errors the engine raises and where they point (index.js: getIndex, node.error). */
module Errors {
  import opened Strings
  import opened Syntax

  datatype ErrorKind =
    | MissingPrefix             // a name lacks the required `<prefix>-`
    | MissingDefaultFlag        // a hoisted variable without `!default` under the `flag` policy
    | IllegalHoistedDefinition  // a hoisted definition under the `inline` policy
    | IllegalInlineDefinition   // an inline default under the `hoisted` policy
    | UndefinedVariable         // a reference that resolves in neither store
    | InvalidPath               // a prefix mode was requested but the document has no file path

  /** What an error keeps of `node.error(...)`: its kind, the variable name and the index of the name. */
  datatype Failure = Failure(kind: ErrorKind, name: string, index: nat)

  datatype Result<+T> = Ok(value: T) | Err(failure: Failure)

  datatype Outcome = Pass | Fail(failure: Failure)

  /**
   * `getIndex`: one before the first occurrence of `word` in the rendered
   * declaration, or 0 when that is not positive (also when `word` is absent).
   */
  function GetIndex(node: Decl, word: string): (r: nat)
    ensures r > 0 ==> OccursAt(Render(node), word, r + 1)
    ensures r > 0 ==> forall j :: 0 <= j <= r ==> !OccursAt(Render(node), word, j)
    ensures r == 0 && (exists j :: OccursAt(Render(node), word, j)) ==>
      OccursAt(Render(node), word, 0) || OccursAt(Render(node), word, 1)
  {
    var index := IndexOf(Render(node), word) - 1;
    if index > 0 then index else 0
  }
}

/** The prefix policy (index.js: getRequiredPrefix, checkPrefix). */
module Prefix {
  import opened Wrappers
  import opened Strings
  import opened Syntax
  import opened Errors

  /** The position of the last `c` in `s[..k]`, or -1. */
  function LastIndex(s: string, c: char, k: nat): (r: int)
    requires k <= |s|
    ensures -1 <= r < k
    ensures r >= 0 ==> s[r] == c
    ensures forall j :: r < j < k ==> s[j] != c
  {
    if k == 0 then -1 else if s[k - 1] == c then k - 1 else LastIndex(s, c, k - 1)
  }

  /** The last `/`-separated segment: `_.last(s.split('/'))`, and the base name of a path. */
  function LastSegment(s: string): (r: string)
    ensures '/' !in r
    ensures |r| <= |s| && r == s[|s| - |r|..]
    ensures |r| == |s| || s[|s| - |r| - 1] == '/'
  {
    var i := LastIndex(s, '/', |s|);
    s[i + 1..]
  }

  /** `path.extname` of a base name: from its last `.`, unless that dot opens the name or the name is `..`. */
  function ExtName(base: string): (ext: string)
    ensures ext == "" || (ext[0] == '.' && |ext| < |base| && base[|base| - |ext|..] == ext)
    ensures ext != "" ==> '.' !in ext[1..]
    ensures ext == "" <==> base == ".." || |base| <= 1 || '.' !in base[1..]
  {
    var d := LastIndex(base, '.', |base|);
    if d <= 0 || base == ".." then "" else base[d..]
  }

  /** `path.basename(p, path.extname(p))`. */
  function BaseNameWithoutExt(p: string): (r: string)
    ensures r + ExtName(LastSegment(p)) == LastSegment(p)
  {
    var base := LastSegment(p);
    var ext := ExtName(base);
    assert base == base[..|base| - |ext|] + ext;
    base[..|base| - |ext|]
  }

  /** `path.dirname(p)`: everything before the last `/`, `/` for a top-level entry, `.` without a `/`. */
  function DirName(p: string): (r: string)
    ensures '/' !in p ==> r == "."
    ensures '/' in p ==> exists i :: 0 <= i < |p| && p[i] == '/' && '/' !in p[i + 1..] && r == (if i == 0 then "/" else p[..i])
  {
    var i := LastIndex(p, '/', |p|);
    if i == -1 then "." else if i == 0 then "/" else p[..i]
  }

  /**
   * `getRequiredPrefix`: the file's base name without extension in `file` mode,
   * the last segment of its directory in `folder` mode, and none otherwise.
   * `path` throws on a missing file path, which is the `InvalidPath` failure.
   */
  function RequiredPrefix(filepath: Option<string>, requirePrefix: Option<string>): (r: Result<Option<string>>)
    ensures requirePrefix != Some("file") && requirePrefix != Some("folder") ==> r == Ok(None)
    ensures r.Err? <==> (requirePrefix == Some("file") || requirePrefix == Some("folder")) && filepath.None?
    ensures r.Ok? && r.value.Some? ==> '/' !in r.value.value
    ensures requirePrefix == Some("file") && filepath.Some? ==>
      r.Ok? && r.value.Some? && r.value.value + ExtName(LastSegment(filepath.value)) == LastSegment(filepath.value)
    ensures requirePrefix == Some("folder") && filepath.Some? ==>
      r == Ok(Some(LastSegment(DirName(filepath.value))))
  {
    if requirePrefix == Some("file") then
      if filepath.None? then Err(Failure(InvalidPath, "", 0)) else Ok(Some(BaseNameWithoutExt(filepath.value)))
    else if requirePrefix == Some("folder") then
      if filepath.None? then Err(Failure(InvalidPath, "", 0)) else Ok(Some(LastSegment(DirName(filepath.value))))
    else Ok(None)
  }

  /** `name` matches `^<prefix>\-.*?$`. */
  predicate HasPrefix(name: string, prefix: string) {
    |prefix| + 1 <= |name| && name[..|prefix| + 1] == prefix + "-"
  }

  /** The position of the first name that lacks the prefix. */
  function FirstUnprefixed(names: seq<string>, prefix: string): (r: Option<nat>)
    ensures r.Some? ==> r.value < |names| && !HasPrefix(names[r.value], prefix)
    ensures r.Some? ==> forall j :: 0 <= j < r.value ==> HasPrefix(names[j], prefix)
    ensures r.None? ==> forall j :: 0 <= j < |names| ==> HasPrefix(names[j], prefix)
  {
    if names == [] then None
    else if !HasPrefix(names[0], prefix) then Some(0)
    else match FirstUnprefixed(names[1..], prefix)
      case Some(k) => Some(k + 1)
      case None => None
  }

  /**
   * `checkPrefix`: with a non-empty prefix, every name of the declaration (hoisted
   * property, then references) must start with `<prefix>-`; the first that does
   * not is reported.
   */
  function CheckPrefix(node: Decl, prefix: Option<string>): (r: Outcome)
    ensures prefix.None? || prefix == Some("") ==> r == Pass
    ensures prefix.Some? && prefix.value != "" ==>
      (r.Fail? <==> exists j :: 0 <= j < |Variables(node)| && !HasPrefix(Variables(node)[j], prefix.value))
    ensures r.Fail? ==> prefix.Some?
    ensures r.Fail? ==>
      exists j :: && 0 <= j < |Variables(node)|
                  && r.failure.name == Variables(node)[j]
                  && !HasPrefix(Variables(node)[j], prefix.value)
                  && forall i :: 0 <= i < j ==> HasPrefix(Variables(node)[i], prefix.value)
    ensures r.Fail? ==> r.failure.kind == MissingPrefix && r.failure.index == GetIndex(node, r.failure.name)
  {
    if prefix.None? || prefix.value == "" then Pass
    else
      var names := Variables(node);
      match FirstUnprefixed(names, prefix.value)
      case None => Pass
      case Some(k) => Fail(Failure(MissingPrefix, names[k], GetIndex(node, names[k])))
  }
}
