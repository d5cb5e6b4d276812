# postcss-inline-variables, modelled in Dafny

postcss-inline-variables is a PostCSS plugin. It resolves `$name` variables in
the declarations of a stylesheet, taking one pass in document order. This project
models that engine: how variables are defined, checked, substituted and removed.

A declaration is a `Decl(prop, between, value)`. The plugin keeps two stores:

- the caller's `variables` object, which it changes in place;
- a `variableDefaults` object, which is fresh for each document.

For each declaration the walk does the following, in order:

1. It runs three definition handlers:
   - a hoisted default `$name: text !default` goes into the defaults store;
   - a bare hoisted variable `$name: text` goes into the explicit store;
   - inline defaults `$name or text` and `[$name or text]` go into the defaults store.
   Each handler applies the `requireDefault` policy (`inline`, `flag` or
   `hoisted`) and the prefix check.
2. If the value holds a `$`, it checks the prefix again and substitutes every
   reference. A reference takes the explicit store's value when that is non-empty,
   otherwise the defaults store's value. If neither exists, it is an error.
3. It removes the declaration when its property is hoisted (starts with `$`).

The first error stops the walk. The required prefix comes from the file path: the
base name without extension in `file` mode, or the directory name in `folder`
mode. When a prefix is required, every name a declaration mentions must start
with `<prefix>-`.

The regular expressions of the source are modelled as exact scanners:

- `.` stops at line terminators;
- `\s` is the JavaScript white-space set;
- the `i` flag folds ASCII letters where it applies: in the hoisted-property
  match, the `!default` match and the per-match re-parses. The two global scans
  build their pattern with `new RegExp(pattern, 'g')`, whose flags replace the
  literal's `i`, so their ` or ` matches in lower case only.

`String.prototype.replace` with a string pattern is modelled as written. It
replaces the first textual occurrence, and `$$`, `$&`, `` $` `` and `$'` in the
replacement are expanded. `Object.keys` order is modelled too: array-index keys
come first, in numeric order.

Two consequences of replacing the first occurrence are proved:

- When every `$` of a value opens a reference, and no resolved value holds a `$`,
  the substitution replaces each reference in place (`SubstituteIsSpan`).
- Otherwise it may not. In `"$c" $c` the quoted `$c` is not a reference, yet it is
  the first occurrence of the matched text. So it is the quoted one that gets
  replaced (`QuotedSigilReplacedFirst` and `QuotedSigilSpan`).

The model is layered, one module per concern:

- `Strings`: the JavaScript string primitives.
- `Syntax`: the recognisers.
- `Errors` and `Prefix`: errors, the index of an error, and the prefix policy.
- `Handlers`: the handlers. They are methods on a `VariableStore` class whose
  `entries` map they change in place. Each is proved against a `*Step` function.
- `Substitution`: `replaceValues`. It is a loop proved against the function
  `Substitute`.
- `Walk`: the walk. It is the method `ProcessDocument`, proved against the function
  `Transform`.
- `Properties`: what the walk promises.
- `Examples`: cases from the plugin's tests, worked through the model.

## Model

| member | source | states |
|---|---|---|
| Strings.IndexOf | index.js:12 | `indexOf` gives the first position where the word occurs, with no occurrence before it, or -1 when there is none |
| Strings.ReplaceFirstAt | index.js:241-243 | when a pattern first occurs at `i`, `replace` with a `$`-free text splices that text in at `i` and keeps everything else |
| Strings.ExpandLiteral | index.js:241-243 | a replacement text without `$` is inserted literally |
| Strings.DropSigil | index.js:117 | `"$name".replace('$', '')` is `name` |
| Errors.GetIndex | index.js:11-15 | the index is one before the first occurrence of the name in the rendered declaration, or 0 when that is not positive |
| Syntax.HoistedProp | index.js:38-42 | a property is hoisted exactly when it is `$` followed by at least one character and no line terminator; the name is the property without its `$` |
| Syntax.ValueVariablesAreNamesAt | index.js:49-53 | the global scan lists, in order, the name after every `$` that is followed by a name character, and skips none |
| Syntax.DollarNameListed | index.js:49-53 | every `$name` written in a value is among its value variables |
| Syntax.DefaultFlagCaptureShape | index.js:95 | a value has a `!default` capture exactly when it ends with the flag in any letter case; the capture is the rest of the last line before the flag and before the single space that may precede it |
| Syntax.HoistedExactlyOne | index.js:93-156 | a hoisted property is a hoisted default or a bare hoisted variable and never both; the bare variable carries the whole value |
| Syntax.DefaultTextFails | index.js:196 | the lazy default text after ` or ` fails exactly when nothing follows or a line break comes before the next `]` |
| Syntax.InlineDefaultAtMatches | index.js:196-197 | an inline default matches at `p` exactly when an optional `[`, `$name` and a lower-case ` or ` are followed by at least one character, with no line break before the next `]` |
| Syntax.InlineDefaultAtShape | index.js:196-197 | a match's name is the `$name` at its start and it is followed by a lower-case ` or `; the value is non-empty, on one line, holds no `]` after its first character, and is followed by the end or by a `]` the match consumes |
| Syntax.LazyEnd | index.js:196 | when the lazy default text succeeds, it ends at the first `]` after its first character or at the end of the value, and holds no line terminator (its failure: `LazyEndNone`) |
| Syntax.LazyEndNone | index.js:196 | the lazy default text fails exactly when a line terminator comes before the first `]` (or before the end, when there is none) |
| Syntax.InlineMatchesFromScan | index.js:195-197 | each inline default the global scan finds is the match at its own start; they come in order without overlap, and every position where a match starts lies inside one of them |
| Syntax.InlineBindings | index.js:199-203 | the defaults become name/value pairs, one per match, in match order |
| Syntax.BindingsMap | index.js:199-203 | the object built from the pairs has exactly their names as keys |
| Syntax.BindingsMapLast | index.js:199-203 | a name is bound to the value of its last pair, so a repeated inline default keeps its last value |
| Syntax.ReferenceAtMatches | index.js:233 | a reference matches at `p` exactly when its optional `[` and `$name` are followed by the end, `]`, white space or `)` |
| Syntax.ReferenceAtDefaultSpan | index.js:233 | where an inline default matches, the reference has its name and spans exactly that default |
| Syntax.ReferenceAtBareEnd | index.js:233 | a reference without a default ends right after its name, taking a `]` that follows |
| Syntax.ReferencesFromScan | index.js:233-234 | each reference the global scan finds is the match at its own start, and every position where a match starts lies inside one of them; with `ReferencesFrom`'s own contract they come in order without overlap |
| Syntax.ScannedNamesAreVariables | index.js:279-283 | every substituted name and every inline default's name is a value variable, so the prefix check before substitution covers them |
| Syntax.SmallestIndexKey | index.js:217 | it picks the array-index key with the smallest numeric value, or none when no key is an array index |
| Syntax.FirstKey | index.js:217 | `Object.keys(found)[0]` is one of the names: the array-index key of smallest numeric value when there is one, otherwise the first name inserted |
| Prefix.LastSegment | index.js:27 | the last segment is the suffix after the last `/` (the whole text when there is none) and holds no `/` |
| Prefix.ExtName | index.js:25 | the extension runs from the last `.` of the base name to its end; it is empty exactly when the name is `..` or has no `.` after its first character |
| Prefix.BaseNameWithoutExt | index.js:25 | the base name without extension followed by `ExtName` of the base name gives the base name |
| Prefix.DirName | index.js:27 | the directory is `.` without a `/`, `/` when the last `/` opens the path, and otherwise everything before the last `/` |
| Prefix.RequiredPrefix | index.js:23-31 | no prefix unless the mode is `file` or `folder`; it fails exactly when such a mode has no file path; in `file` mode the prefix followed by the extension is the last segment, in `folder` mode it is the last segment of the directory; a prefix holds no `/` |
| Prefix.FirstUnprefixed | index.js:80-84 | it returns the position of the first name lacking `<prefix>-`, and every earlier name has the prefix; it returns none when all names have it |
| Prefix.CheckPrefix | index.js:73-86 | it passes without a prefix. With a prefix it fails exactly when some name lacks `<prefix>-`, and it reports the first such name as `MissingPrefix` at that name's index |
| Handlers.VariableAssignment | index.js:106-126 | nothing is stored for an empty key or an empty value. A `$`-free value is stored as is. A `$` value stores the consulted map's non-empty value of the text without its first `$`, and nothing otherwise |
| Handlers.VariableStore.constructor | index.js:267 | a store starts with the entries it is given |
| Handlers.VariableStore.Assign | index.js:143 | `_.assign` writes every key of the source over the store's entries |
| Handlers.HandleHoistedDefault | index.js:135-145 | on error the defaults store is unchanged and the error is returned; otherwise the store becomes what `HoistedDefaultStep` gives |
| Handlers.HandleHoistedVariable | index.js:165-177 | on error the explicit store is unchanged and the error is returned; otherwise the store becomes what `HoistedVariableStep` gives |
| Handlers.HandleInlineDefaults | index.js:213-224 | on error the defaults store is unchanged and the error is returned; otherwise the store becomes what `InlineDefaultsStep` gives |
| Substitution.ReplaceValues | index.js:232-250 | the loop of `replace` calls gives exactly the value or the error of `Substitute` |
| Substitution.SubstituteFailsIff | index.js:236-247 | substitution fails exactly when some reference resolves in neither store, and the error is `UndefinedVariable` for the first such reference |
| Substitution.SubstituteFromLookupOnly | index.js:236-247 | the stores are read only through the lookups of the referenced names: stores that resolve those names alike give the same result |
| Substitution.ExplicitShadowsDefaults | index.js:240-243 | when every referenced name has a non-empty explicit value, the defaults store does not matter |
| Substitution.EmptyValuesIgnored | index.js:240-244 | an empty value in either store counts as no value: dropping all of them changes nothing |
| Substitution.NoReferencesNoChange | index.js:232-250 | a value without references is left as it is |
| Substitution.FirstOccurrenceIsSpan | index.js:236-247 | from any `$`-free prefix built so far, the reduce agrees with replacing each reference span in place |
| Substitution.SubstituteIsSpan | index.js:236-247 | when every `$` opens a reference and no resolved value holds `$`, each reference is replaced in place by its value |
| Substitution.QuotedSigilReferences | index.js:233-234 | in `"$c" $c` only the unquoted `$c` is a reference |
| Substitution.QuotedSigilFirstOccurrence | index.js:241 | `"$c" $c`.replace('$c', 'blue') replaces the quoted `$c` |
| Substitution.QuotedSigilReplacedFirst | index.js:236-247 | substituting `"$c" $c` with `c` = `blue` gives `"blue" $c` |
| Substitution.QuotedSigilSpan | index.js:236-247 | replacing the reference span in the same value would give `"$c" blue`, so the two differ there |
| Walk.HandleDefinitions | index.js:274-276 | the three handlers, in order, change both stores as `Define` does and return its error |
| Walk.HandleDecl | index.js:269-287 | one callback changes both stores and returns the kept, removed or failed declaration exactly as `DeclStep` does |
| Walk.ProcessDocument | index.js:263-287 | the walk over a document gives the result `Transform` gives, and leaves the caller's store as `Transform` does |
| Properties.SubstituteFailsUndefined | index.js:245 | substitution can only fail with `UndefinedVariable` |
| Properties.CheckPrefixFailsPermitted | index.js:81-83 | the prefix check only raises `MissingPrefix`, and only under a non-empty prefix |
| Properties.HandlersFailPermitted | index.js:135-224 | each handler raises only its own policy's error or a missing prefix |
| Properties.StepFailsPermitted | index.js:269-287 | one declaration raises only the errors its policy and prefix permit |
| Properties.WalkFailsPermitted | index.js:269-287 | a walk raises only the errors its policy and prefix permit |
| Properties.TransformFails | index.js:262-289 | an invalid path needs a prefix mode with no file path; a missing prefix needs `file` or `folder` mode; each policy error needs its own `requireDefault` value |
| Properties.InlinePolicyRejectsHoisted | index.js:139-172 | `inline` rejects every hoisted declaration. The error is the illegal-hoisted one when the prefix passes, and always for a hoisted default |
| Properties.FlagPolicyRejectsBareHoisted | index.js:169-170 | `flag` rejects a hoisted variable without `!default`, as `MissingDefaultFlag` when the prefix passes |
| Properties.HoistedPolicyRejectsInline | index.js:216-219 | `hoisted` rejects a value with inline defaults, naming `Object.keys`' first key, when the prefix passes |
| Properties.BareHoistedWritesVariables | index.js:165-177 | a bare hoisted `$n: v` writes `v` into the explicit store over any earlier value. A `$` value writes the store's non-empty value for the referenced name, and nothing otherwise |
| Properties.HoistedReferenceCopies | index.js:114-121 | `$n: $other` copies the explicit store's non-empty value of `other`, and otherwise writes nothing |
| Properties.HoistedDefaultKeepsVariables | index.js:152-156 | a hoisted default never changes the explicit store |
| Properties.HoistedDefaultWritesDefaults | index.js:135-145 | `$n: t !default` with a `$`-free `t` passes and writes `t` under `n` into the defaults store, followed by the value's inline defaults |
| Properties.HoistedDefaultReferenceCopies | index.js:106-145 | `$n: $other !default` copies the defaults store's non-empty value of `other` under `n`, or writes nothing under `n`; the explicit store is neither read nor written; the value's inline defaults follow |
| Properties.InlineDefaultsRecorded | index.js:213-224 | an ordinary declaration records all its inline defaults in the defaults store, and a repeated name keeps its last value |
| Properties.PlainDeclKept | index.js:184-186 | a non-hoisted declaration without `$` defines nothing and is kept unchanged |
| Properties.StepKeepsOrRemoves | index.js:256-260 | a passing declaration is removed exactly when its property is hoisted. One that stays keeps its property and text, and its value too when that holds no `$` |
| Properties.SecondPrefixCheckPasses | index.js:279-283 | the prefix check before substitution never fails once the handlers have passed |
| Properties.WalkKeepsOrder | index.js:256-287 | a successful walk outputs exactly the non-hoisted declarations, one for one and in document order, each with its property and raw text, and unchanged when its value held no `$` |
| Properties.WalkAppend | index.js:269-273 | the walk over two parts is the walk over the second, started from the first's stores, so a declaration sees only earlier definitions |
| Properties.PlainWalk | index.js:269-287 | a walk over declarations without `$` or hoisting leaves the stores alone and outputs them all |
| Properties.PlainDocumentUnchanged | index.js:263-287 | a document of declarations without `$` or hoisting passes through unchanged, with the caller's variables untouched |
| Examples.QuotedDollarNoReference | index.js:233-234 | in `"$1"` the name is followed by a quote, so the scan finds no reference |
| Examples.QuotedDollarPassesThrough | test.js:30-32 | `a { content: "$1"; }` passes through unchanged: a `$` that opens no reference is left alone |
| Examples.FilePrefixOfTestPath | test.js:44-46 | in `file` mode the prefix of `/foo/bar.css` is `bar` |
| Examples.FolderPrefixOfTestPath | test.js:48-50 | in `folder` mode the prefix of `/foo/bar.css` is `foo` |
| Examples.RedDefaultCapture | test.js:36-38 | the `!default` capture of `red !default` is `red`, without the space |
| Examples.HoistedDefaultOfTest | test.js:36-38 | `$color: red !default` is the hoisted default `color` = `red` |
| Examples.HoistedVariableOfTest | test.js:44-46 | `$color: red` is the bare hoisted variable `color` = `red` |
| Examples.UnprefixedHoistedName | test.js:44-46 | `$color: red` under prefix `bar` fails with `MissingPrefix` naming `color` at index 0 |
| Examples.PrefixedHoistedName | test.js:60-62 | `$bar-color: red` under prefix `bar` passes |
| Examples.ColorUndefined | test.js:26-28 | `color: $color` with `color` defined nowhere fails with `UndefinedVariable` naming `color` |
| Examples.HoistedBeforeUse | test.js:124-126 | `$color: red` then `color: $color`, with the caller's `color` set to `blue`, outputs `color: red` and leaves `red` in the caller's store |
| Examples.UseBeforeHoisted | index.js:270-273 | `color: $color` before `$color: red` fails, because the use sees only earlier definitions |
| Examples.CapitalOrNoInlineDefault | index.js:196-197 | `$c OR red` holds no inline default, because the global scan matches ` or ` in lower case only |
| Examples.CapitalOrReference | index.js:233-234 | in `$c OR red` the only reference is `$c`, ending at the space |
| Examples.CapitalOrUndefined | index.js:236-247 | `color: $c OR red` with both stores empty fails with `UndefinedVariable` naming `c` |
| Examples.CapitalOrKept | index.js:236-247 | with `c` = `blue`, `$c OR red` becomes `blue OR red` |
| Examples.CapitalOrAllowedUnderHoisted | index.js:214-223 | under `hoisted`, `$c OR red` raises no illegal-inline error |
| Examples.BorderInlineDefaults | test.js:108-110 | `[$width or 1px] solid [$color or black]` holds the inline defaults `width` = `1px` and `color` = `black`, in that order |
| Examples.BorderReferences | test.js:108-110 | its references are exactly the two bracketed groups |
| Examples.BorderGroupedDefaults | test.js:108-110 | `border: [$width or 1px] solid [$color or black]` with nothing defined becomes `border: 1px solid black` |

## Left out

- The PostCSS plugin wrapper and the tree API are not modelled; the walk runs over a sequence of declarations. When a later declaration fails, the source has already rewritten or removed earlier nodes in the tree. The model returns only the error for that document, together with the caller's store as the walk left it.
- Error messages, `word` options and the line and column that PostCSS derives from an index are not modelled. An error keeps its kind, the variable name and the index.
- `node.toString()` is modelled as property, `between` and value. `!important` and other raws are not modelled.
- Node's `path` module is replaced by POSIX splits on `/`. Trailing slashes, `.`/`..` segments and Windows separators are not normalised.
- In the source, a missing file path in `file` or `folder` mode makes `path` throw. The model reports this as the `InvalidPath` error.
- The source interpolates the prefix into a regular expression. The model compares it literally, so a prefix holding regular-expression metacharacters is not modelled.
- Store values are strings only; JavaScript prototype keys such as `__proto__` and non-string caller values are not modelled.
- Characters are Dafny `char`s. UTF-16 surrogate pairs and case folding beyond ASCII letters are not modelled.
