# ProcessWire Component, modelled in Dafny

A model of the core of the ProcessWire `Component` module. It covers:

- **Discovery.** Each `components/<name>/templates/template.php` under site modules and site templates registers `<name>`. Site templates win.
- **Loading.** The registry reads a component's `component.php` definition, normalises it into a descriptor and memoises the result.
- **Rendering.** The module's render pipeline runs these steps in order:
  1. merges the caller's parameters into the defaults;
  2. applies the `transform` closure;
  3. consults the `render` guard;
  4. normalises the attributes;
  5. renders directly or through the cache.

  `___transform` is a hookable method, so the pipeline's specification takes the transform step as a parameter. The module's `Render` method is proved against the step as written (`Transform`). The example is also rendered with the step its closure declares (`TransformIntended`); see "## Findings".

  The stand-alone `Component` class has a simpler `render`.
- **Helpers.** `componentAttrs`, the `Watcher` of modification times, the `Arr` toolkit of dotted-path array helpers, and the `Element` tag builder with its expression language (`{name}`, `{@name}`, `{!name}`, `{name: regex}` and optional `[...]` segments).

  An expression is evaluated by text replacement, as the source's placeholder loop does it. The text is read placeholder-first (`Parse`), which is the corrected reading of the source's first pass (see "## Findings"). Each placeholder that holds has every occurrence of its text replaced in the whole output, so text already put in is searched again. The optional segments are then filled in by `sprintf`. A second reading replaces each placeholder by its own value, node by node (`EvaluateTree`). The two agree whenever no replaced text can be mistaken for a placeholder or a directive (`EvaluateAgrees`).
- **The example component.** Its definition file and its default template.

PHP values are the datatype `Php.Value`. Arrays are ordered lists of entries with normalised keys (`Php.PArray`). The model states the PHP built-ins the core relies on as functions, with their own lemmas: `array_merge`, `array_replace`, `array_slice`, `explode`, `implode`, `trim`, `strtolower` and key normalisation.

Some things the core cannot compute by itself become parameters:

- calling a closure (a `Runtime` maps a closure handle and the arguments to a result, and too few arguments raise `ArgumentCountError`);
- PCRE matching;
- `htmlspecialchars`;
- the file and cache renderers;
- the filesystem;
- the debug flag and the superuser flag.

Code that changes state step by step is modelled as classes and methods with loops:

- `Registry` with its `components` and `loaded` maps;
- `Element`;
- `Watcher`;
- the expression cache;
- the loops in `Arr`, `componentAttrs`, `expr`, `attrs` and the template.

Each method is proved against a specification function, and the properties are lemmas about those functions.

Files:

- `php.dfy`: the PHP values and built-ins.
- `arr.dfy`: `src/Arr.php`.
- `expression.dfy` and `expression_examples.dfy`: the expression language of `src/Element.php`.
- `element.dfy`: the rest of `src/Element.php`.
- `registry.dfy`: the discovery and loading shared by `Component.module.php` and `src/Component.php`.
- `component_module.dfy`: the module's render pipeline.
- `component_library.dfy`: `src/Component.php`.
- `watcher.dfy`: `src/Watcher.php`.
- `functions_api.dfy`: `componentAttrs`.
- `example_component.dfy` and `example_template.dfy`: the example component.

## Model

| member | source | states |
|---|---|---|
| Php.Invoke | Component.module.php:146 | A closure call throws `ArgumentCountError` exactly when given fewer arguments than the closure declares; otherwise it returns what the runtime computes |
| Php.Lookup | src/Arr.php:515-526 | `$a[$k]` is missing exactly when the key is not among the keys; a found value is stored under that key |
| Php.Put | src/Arr.php:133 | `$a[$k] = $v` makes `$k` hold `$v` and leaves every other key's value alone. An existing key keeps its place; a new key goes at the end |
| Php.Remove | src/Arr.php:156 | `unset($a[$k])` removes that key only; every other entry stays |
| Php.Append | src/Arr.php:419 | `$a[] = $v` adds one entry under a fresh integer key: one past the largest integer key present, and at least 0 |
| Php.Replace | src/Element.php:230 | `array_replace($a, $b)` gives every key of `$b` the value it has in `$b` (for an array with distinct keys, as PHP builds) and leaves every other key of `$a` as it was |
| Php.ArrayMergeStrKey | Component.module.php:188 | In `array_merge(defaults, caller)` a string key takes the caller's value when the caller has it, and the default's otherwise |
| Php.ArrayMergeIntValues | src/Watcher.php:30 | `array_merge` keeps the integer-keyed values of both arrays, in order, one after the other |
| Php.Split | src/Arr.php:121 | `explode` on one character: no piece holds the separator, and the pieces joined back are the input |
| Php.SplitJoin | src/Arr.php:121 | `explode` undoes `implode` when no piece holds the separator |
| Php.NormKeyIntText | src/Arr.php:133 | Key normalisation turns the decimal text of every integer back into that integer key |
| Php.ToLower | src/Element.php:272 | `strtolower` keeps the length and lower-cases each character |
| Php.TrimIdempotent | src/Element.php:354 | `trim` applied twice is `trim` once |
| Arr.Wrap | src/Arr.php:535-542 | null wraps to the empty array, an array to itself, anything else to a one-element list |
| Arr.Get | src/Arr.php:70-97 | `get` follows the key as it is, else its dotted segments; the result is the `get` specification function |
| Arr.Has | src/Arr.php:27-50 | `has` checks the key as it is, else every dotted segment in turn; the result is the `has` specification function |
| Arr.HasGet | src/Arr.php:27-97 | On a non-empty array, `has` says exactly whether `get` finds something: a denied key yields the default, and a confirmed key's value does not depend on the default |
| Arr.Set | src/Arr.php:114-136 | A null key replaces the array; otherwise the path is walked, creating arrays as needed, and the value written at its end |
| Arr.WalkSetPath | src/Arr.php:114-136 | Walking a path just written finds the value written |
| Arr.GetSet | src/Arr.php:70-136 | After `set(a, p, v)`, `get(a, p)` is `v` for a key without a dot, and for a dotted key that is not itself a top-level key and does not start with a dot. A leading dot is excluded because `get` as written does not walk such a key (see "## Findings") |
| Arr.LeadingDotLost | src/Arr.php:84 | As written, `set` on `.a` writes `a[""]["a"]`, but `get` on `.a` returns the default |
| Arr.GetSetIntended | src/Arr.php:84-97 | With the dot test meant (`strpos(...) === false`), `get` reads back what `set` wrote for every key that is not itself a top-level key, a leading dot included |
| Arr.Del | src/Arr.php:152-173 | `del` unsets an existing key as it is, else walks the path while it meets arrays and unsets the last segment |
| Arr.DelTopLevel | src/Arr.php:154-157 | Deleting a top-level key removes it and changes no other key |
| Arr.DelUnreachable | src/Arr.php:160-170 | A path whose parent is not reachable through arrays leaves the array unchanged |
| Arr.DelPathLeaf | src/Arr.php:158-172 | When the key is not a top-level key and its path runs through arrays, `del` removes only the addressed leaf: `get` no longer finds the key, and every other key at every level on the path keeps its value |
| Arr.DelPathGone | src/Arr.php:172 | After the path is followed, the last segment has no entry left at the last level |
| Arr.DelPathKeeps | src/Arr.php:162-172 | Following and unsetting a path changes no key other than the path's own segment at each level |
| Arr.DelPathWalk | src/Arr.php:86-96 | Walking the path after `del` stops at the missing leaf |
| Arr.Pull | src/Arr.php:193-200 | `pull` returns what `get` finds and leaves the array as `del` does |
| Arr.Update | src/Arr.php:219-222 | `update` is `set` of the callback applied to what `get` finds, null by default |
| Arr.GetUpdate | src/Arr.php:219-222 | After `update(a, p, f)`, `get(a, p)` is `f` of the value before |
| Arr.UpdateKeys | src/Arr.php:602-620 | `updateKeys` applies each renaming in order: `has`, `get`, `del`, then `set` of the value or of the callback's entries |
| Arr.RenameTopLevel | src/Arr.php:602-620 | Renaming a plain key moves its value: the new key holds it, the old key is gone, and other keys are unchanged |
| Arr.RenameMissing | src/Arr.php:604-605 | A key `has` does not find leaves the array unchanged |
| Arr.MatchesAll | src/Arr.php:629-648 | The `matches` closure holds exactly when every key/value pair of the predicate matches the value |
| Arr.Every | src/Arr.php:244-255 | `every` is true exactly when every entry passes the predicate |
| Arr.Any | src/Arr.php:277-288 | `some` is true exactly when some entry passes the predicate |
| Arr.Find | src/Arr.php:356-365 | `find` returns the value of the first passing entry, or null when none passes |
| Arr.FilterKeeps | src/Arr.php:388-397 | `filter` keeps exactly the passing entries (the truthy ones without a predicate), keys kept |
| Arr.PickOmitPartition | src/Arr.php:304-334 | With distinct keys, `pick` and `omit` split the array: every entry lands in exactly one of them, according to the selector |
| Arr.Merge | src/Arr.php:414-431 | `merge` runs the loop over the second array, recursing into nested arrays; the result is the `merge` specification function |
| Arr.MergeKeepsKeys | src/Arr.php:414-431 | Merging never moves or drops a key of the first array: its keys stay a prefix of the result's keys |
| Arr.MergeUntouched | src/Arr.php:414-431 | A key only the first array has keeps its value |
| Arr.MergeStrKey | src/Arr.php:416-427 | A string key of the second array holds the recursive merge when both values are arrays, and the second's value otherwise |
| Arr.MergeAppendsList | src/Arr.php:416-419 | Merging two lists appends the second's values after the first's |
| Arr.Flatten | src/Arr.php:450-465 | `flatten` runs the loop over the items, splicing nested arrays in to the given depth |
| Arr.FlatLeaves | src/Arr.php:450-465 | Flattening to any depth keeps the scalar leaves in order: the leaves of the result are the leaves of the array |
| Arr.FlatNoArrays | src/Arr.php:450-465 | Below depth 1, flattening leaves no array in the result |
| Arr.FullFlatten | src/Arr.php:450-465 | Complete flattening (depth 0, or any depth below 1) yields exactly the leaves, in order |
| Arr.FlatOne | src/Arr.php:455-458 | Flattening to depth 1 yields exactly the top-level scalars and the values of the top-level arrays |
| Arr.Columns | src/Arr.php:484-505 | With `k` the smaller of the count and `$columns`: `k = 0` divides by zero, and a negative `k` gives no columns or a `ValueError`. Otherwise the values are cut, in order, into `k` columns whose sizes differ by at most one, the longer first |
| Arr.Balanced | src/Arr.php:488-504 | The `array_chunk` and `array_slice` branches produce `k` columns that concatenate to the input, each of the designed size |
| Arr.Splice | src/Arr.php:575-586 | The removed slice is empty unless an offset and a non-zero length are given. The array is rebuilt from what precedes the offset, the wrapped replacement and what follows |
| Arr.SplicePieces | src/Arr.php:577-582 | The part before, the removed slice and the part after make up the array itself, in order |
| Arr.SpliceStringKeys | src/Arr.php:575-586 | On distinct string keys, splicing without a replacement leaves the entries before and after the slice, keys kept |
| Expression.ParseHole | src/Element.php:302-307 | A placeholder parse spans a prefix of the text, keeps that prefix as its raw text, and has a non-empty word name |
| Expression.ParseRoundTrip | src/Element.php:282-310 | Printing a parsed expression gives back its source text: the parser loses nothing |
| Expression.ParsedReparses | src/Element.php:344-349 | Each optional segment of a parsed expression reparses from its own text, which the recursive evaluation does |
| Expression.ExtractOptionals | src/Element.php:293-299 | The first pass as written: every balanced `[...]`, including one inside a placeholder's regex, becomes a numbered `%k$s` slot; text without brackets passes unchanged |
| Expression.BracketInRegexAsWritten | src/Element.php:293-307 | As written, `{a:[0-9]+}` leaves the regex `%1$s+` |
| Expression.BracketInRegexParsed | src/Element.php:302-307 | Read placeholder-first, `{a:[0-9]+}` is one placeholder with the regex `[0-9]+` |
| Expression.BracketInRegexEvaluated | src/Element.php:320-355 | Read placeholder-first, `{a:[0-9]+}` with `a = "42"` evaluates to `42` |
| Expression.ParamValue | src/Element.php:332 | A missing parameter reads as the empty string |
| Expression.Evaluate | src/Element.php:320-355 | An expression's value never starts or ends with whitespace |
| Expression.EvaluateOneHole | src/Element.php:328-342 | A lone placeholder that holds shows the trimmed text of its value |
| Expression.EvaluateVetoed | src/Element.php:335-340 | A placeholder that fails empties the whole expression |
| Expression.ReplaceHolesFails | src/Element.php:328-342 | The placeholder loop gives up exactly when one of the level's placeholders fails |
| Expression.ReplaceFold | src/Element.php:328-338 | When every placeholder holds (and no replacement looks like a placeholder), the loop's output is the first pass's output with each placeholder's text replaced by its value |
| Expression.SprintfSlot | src/Element.php:344-352 | `sprintf` replaces the slot `%k$s` by its k-th argument |
| Expression.HoleFromRaw | src/Element.php:302-307 | A placeholder's text parses back to that same placeholder, spanning all of it |
| Expression.ParsedDetermined | src/Element.php:282-310 | Every placeholder of a parsed expression, at any depth, is what its own text parses to, so two placeholders written alike are one and the same |
| Expression.LevelAgrees | src/Element.php:328-352 | On one level whose literal text and values carry no `{` or `%`, and whose placeholders have no brace inside, the sequential `str_replace` loop and `sprintf` give each placeholder its own value and each optional segment its own value |
| Expression.EvaluateAgrees | src/Element.php:320-355 | Under the same condition, `evaluateExpression` equals replacing each placeholder by its own value, node by node |
| Expression.OptValueFromText | src/Element.php:344-349 | Evaluating an optional segment's text evaluates its parsed body |
| Expression.ReplacePlaceholders | src/Element.php:328-342 | The loop returns nothing at the first placeholder that fails. Otherwise it replaces every occurrence of each placeholder's text in the current output, in order |
| Expression.ExpressionEngine.constructor | src/Element.php:284 | The expression cache starts empty |
| Expression.ExpressionEngine.ParseExpression | src/Element.php:282-310 | A cached parse is returned as stored; a new one is stored under its text |
| Expression.ExpressionEngine.EvaluateExpression | src/Element.php:320-355 | `evaluateExpression` computes `Evaluate`: text without `{` is only trimmed. Otherwise the placeholder loop runs on the placeholder-first reading of the text (the corrected first pass, see "## Findings"), then the optional segments are evaluated and put in their slots by `sprintf`, then the result is trimmed |
| Expression.ExpressionEngine.OptionalValues | src/Element.php:344-349 | Each optional segment is evaluated from its own text, in order |
| ExpressionExamples.ParsePlain | src/Element.php:322-324 | Text with no `{` and no `[` is one literal node |
| ExpressionExamples.EvaluateSimpleHole | src/Element.php:328-342 | `{a}` shows `a`, and nothing when `a` is missing |
| ExpressionExamples.EvaluateNegatedMissing | src/Element.php:337-340 | `{!a}` with `a` missing holds, shows nothing, and the text around it stays |
| ExpressionExamples.EvaluateRegexMismatch | src/Element.php:331-340 | A value that does not match the regex vetoes the expression |
| ExpressionExamples.EvaluateOptional | src/Element.php:344-352 | An optional segment whose placeholder fails drops out alone |
| ExpressionExamples.Resubstituted | src/Element.php:336-338 | With `a = "{b}"` and `b = "x"`, `{a} {b}` evaluates to `x x`, while replacing each placeholder by its own value gives `{b} x`: text already put in is searched again by later replacements |
| Element.SelfClosingIgnoresCase | src/Element.php:247-273 | Whether an element is void does not depend on letter case |
| Element.SelfClosingExamples | src/Element.php:249-272 | `br`, `img` and `wbr` are void elements; `div` and `h1` are not |
| Element.ExprLoop | src/Element.php:218-235 | The loop of `expr` collects the non-empty results, in order |
| Element.Expr | src/Element.php:210-238 | `expr` replaces the extra parameter arrays into `params`, then joins the non-empty results with spaces, or returns null |
| Element.ExprNull | src/Element.php:210-238 | `expr` is null exactly when every entry has a falsy condition or a falsy result |
| Element.ExprPiecesEmpty | src/Element.php:218-237 | No piece remains exactly when no entry yields one |
| Element.Attrs | src/Element.php:173-200 | `attrs` runs the loop over the attributes; the result is the `attrs` specification function |
| Element.AttrsEmpty | src/Element.php:173-200 | `attrs` is empty exactly when no attribute yields a piece, and otherwise starts with a space |
| Element.EmptyValuesDropped | src/Element.php:182-184 | Null, false, `""` and `[]` are dropped |
| Element.ZeroKept | src/Element.php:182-195 | Zero, as a number or as `"0"`, is written as `key="0"` |
| Element.BareForms | src/Element.php:186-189 | `true` writes the bare key, and a numeric key writes the bare value |
| Element.Tag | src/Element.php:150-163 | `tag` renders array attributes through `attrs`, then writes the opening tag alone, or the tag with contents and closing tag |
| Element.TagCloses | src/Element.php:150-163 | The opening tag comes first; the tag is just that when it does not close, and otherwise ends with `</name>` |
| Element.Element.constructor | src/Element.php:29-37 | A new element holds the given name, attributes and contents |
| Element.Element.End | src/Element.php:88-91 | `end()` is empty exactly for a void element, and otherwise `</name>` |
| Element.Element.Attr | src/Element.php:101-108 | `attr` merges the attributes in with `Arr::merge`; name and contents unchanged |
| Element.Element.Copy | src/Element.php:119-138 | The copy is fresh: array attributes merged in, a non-array first argument taken as contents, name and contents replaced when given |
| Element.Element.Render | src/Element.php:44-81 | Renders the tag of this element, or of a copy when attributes are given (also for `__toString` and `__invoke`) |
| Registry.LastSlash | Component.module.php:89 | The index of the last `/`, or -1 when there is none |
| Registry.ComponentNameOf | Component.module.php:89-90 | `<prefix>/<name>/templates/template.php` registers under `<name>` |
| Registry.RegisterKeys | Component.module.php:88-91 | Every discovered name is registered, and nothing else is added |
| Registry.RegisterLast | Component.module.php:88-91 | A name maps to the last discovered path carrying it |
| Registry.TemplatesOverrideModules | Component.module.php:83-86 | Paths under site templates come second and override site-modules paths with the same name |
| Registry.NormaliseShape | Component.module.php:119-125 | Normalisation sets the name when unset, makes `params` an array and writes `template`; other keys unchanged |
| Registry.LoadShape | Component.module.php:107-125 | A loaded descriptor carries its name (the definition's own when set), array parameters, the registered template and the definition path; other keys are the definition's |
| Registry.LoadMissing | Component.module.php:111-119 | Without a definition file the descriptor is empty |
| Registry.LoadComponent | Component.module.php:107-125 | The loading steps compute the descriptor the load function defines |
| Registry.NormaliseSteps | Component.module.php:119-125 | The normalisation steps compute the normalisation function |
| Registry.Registry.constructor | Component.module.php:63-66 | Discovery registers every path, and nothing is loaded yet |
| Registry.Registry.SetComponents | Component.module.php:78-92 | `setComponents` registers every discovered path in turn |
| Registry.Registry.GetComponent | Component.module.php:99-131 | Returns the memoised descriptor of a registered name, loaded and remembered on first use. An unregistered name gives `[]` and is not remembered. The memo never disagrees with a fresh load |
| ComponentModule.Module.constructor | Component.module.php:63-66 | `init` discovers the components; nothing is loaded |
| ComponentModule.Module.Render | Component.module.php:180-222 | `___render` loads the descriptor through the memo and renders it as `RenderSpec` says. The registered components stay the same, and the only change to `loaded` is the descriptor of a registered name, so a second render of the same name uses the same descriptor |
| ComponentModule.RenderDescriptor | Component.module.php:184-221 | The steps after loading, with the transform called as written, compute the render function: merge, transform, guard, functions, attributes, then the cache or the file renderer |
| ComponentModule.RenderPrepared | Component.module.php:188-221 | For any transform step, a descriptor that passes transform and guard is rendered, directly or through the cache |
| ComponentModule.CallerParamsWin | Component.module.php:188 | The merged parameters take the caller's value on a string key; keys only the defaults have survive |
| ComponentModule.TransformCases | Component.module.php:143-149 | As written: with no transform closure the parameters pass unchanged; a closure declaring two parameters throws `ArgumentCountError`; a one-parameter closure's array result replaces them |
| ComponentModule.TransformIntendedCases | Component.module.php:143-149 | Called with parameters and descriptor, a closure of up to two parameters runs and its array result replaces the parameters |
| ComponentModule.GetAttrsShape | Component.module.php:151-164 | `___getAttrs` sets `id` to `""` and `class` to `[]` when unset, wraps a string class in a list, and changes nothing else |
| ComponentModule.GuardVetoes | Component.module.php:184-203 | An empty descriptor or a guard that says no renders `""`, whatever the attributes, cache settings and renderers |
| ComponentModule.GuardSeesMergedParams | Component.module.php:188-203 | With no transform, the guard closure gets the defaults merged with the caller's parameters, and a falsy answer renders nothing |
| ComponentModule.PreparedIs | Component.module.php:188-207 | A successful preparation hands on the merged, transformed descriptor with the `fn`, attribute and `renderReady` steps applied |
| ComponentModule.PreparedVars | Component.module.php:188-207 | The template receives the transformed parameters, a null `fn`, the normalised attributes, and the descriptor's name and template |
| ComponentModule.CacheGate | Component.module.php:209-221 | Outside the cache gate the cache renderer is never consulted |
| ComponentModule.DebugBypassesCache | Component.module.php:209-211 | Debug mode or a superuser always renders directly |
| ComponentModule.CacheName | Component.module.php:214-218 | Inside the gate the cache renderer is used under the key `name-cacheName` |
| ComponentLibrary.Library.constructor | src/Component.php:15-18 | Construction discovers the components; nothing is loaded |
| ComponentLibrary.Library.Render | src/Component.php:80-103 | `render` loads the descriptor through the memo and renders it as `RenderSpec` says. The registered components stay the same, and the only change to `loaded` is the descriptor of a registered name, so a second render of the same name uses the same descriptor |
| ComponentLibrary.RenderDescriptor | src/Component.php:84-102 | The steps after loading compute the library's render function |
| ComponentLibrary.GuardSeesCallerParams | src/Component.php:92-98 | The guard closure gets the caller's parameters alone, so rejecting them renders nothing whatever the defaults say |
| ComponentLibrary.RenderResult | src/Component.php:90-102 | The output is empty when the guard says no, and otherwise what the renderer makes of the merged descriptor |
| ComponentLibrary.VarsShape | src/Component.php:88-100 | The template gets the merged parameters (caller wins), the descriptor's functions renumbered by `array_merge` or none, and the template |
| ComponentLibrary.UnknownRendersNothing | src/Component.php:82-86 | An unknown component renders `""` |
| Watcher.Unique | src/Watcher.php:61 | `array_unique` keeps exactly the values that occur |
| Watcher.MaxOf | src/Watcher.php:69 | `max` is an element that no element exceeds |
| Watcher.TimesFail | src/Watcher.php:62-67 | The loop of `modified` fails exactly on an array or an object |
| Watcher.TimesAre | src/Watcher.php:62-67 | The collected times are exactly those of the entries: integers, and the times of existing files |
| Watcher.ModifiedIsMax | src/Watcher.php:56-70 | `modified()` is the time of some watched entry, and no entry's time exceeds it |
| Watcher.ModifiedFails | src/Watcher.php:56-70 | `modified()` fails exactly when an entry is an array or an object, or when no entry has a time |
| Watcher.DuplicateIgnored | src/Watcher.php:61 | Watching an entry again does not change `modified()` |
| Watcher.ModifiedMonotone | src/Watcher.php:56-70 | Watching more entries never makes `modified()` earlier |
| Watcher.IntegersOnly | src/Watcher.php:62-69 | With only integers watched, `modified()` is their maximum |
| Watcher.WatchArray | src/Watcher.php:29-30 | An array is merged in, with its integer-keyed values after the list's own |
| Watcher.WatchBool | src/Watcher.php:16-20 | `true` becomes the stamp 1, `false` is ignored, and null is refused by the parameter type |
| Watcher.WatchOne | src/Watcher.php:31-33 | A path with `/` or a non-zero integer is appended as one entry |
| Watcher.Watcher.constructor | src/Watcher.php:14 | A new watcher watches nothing |
| Watcher.Watcher.Watch | src/Watcher.php:16-54 | `watch` updates the list as the watch function says and returns the watcher; on an error the list is unchanged |
| Watcher.Watcher.Modified | src/Watcher.php:56-70 | `modified()` computes the modification-time function of the list |
| FunctionsApi.Texts | FunctionsAPI.php:19 | `implode` gives one text per value, and fails exactly when a value is an object |
| FunctionsApi.ComponentAttrs | FunctionsAPI.php:12-24 | The loop computes the `componentAttrs` function, error cases included |
| FunctionsApi.AttrsEmpty | FunctionsAPI.php:23 | Only the empty array gives `""`; otherwise the output starts with two spaces |
| FunctionsApi.PiecesConcat | FunctionsAPI.php:15-22 | The attributes of two arrays are those of the first followed by those of the second |
| FunctionsApi.AttrsFail | FunctionsAPI.php:15-22 | `componentAttrs` fails exactly when a value is an object, or an array holding one |
| FunctionsApi.OneAttribute | FunctionsAPI.php:16-21 | A scalar is written as `key="text"`, with booleans as ` true` or ` false` |
| FunctionsApi.ArrayAttribute | FunctionsAPI.php:18-21 | An array is written as its values joined by spaces, keys ignored |
| ExampleComponent.DefaultsTable | components/example/component.php:6-18 | Defaults: theme `default`, tag `h1`, empty content, and every style parameter falsy |
| ExampleComponent.DefinitionTable | components/example/component.php:5-49 | The definition file returns the defaults, a two-parameter transform closure, a one-parameter guard closure, and no name |
| ExampleComponent.TransformWraps | components/example/component.php:36-41 | The transform wraps the content in `<span>` exactly when content and `line` are truthy, and changes no other key |
| ExampleComponent.TransformKeepsDecision | components/example/component.php:36-49 | The transform never changes whether the guard renders |
| ExampleComponent.GuardIsContent | components/example/component.php:47-49 | The guard renders exactly when the content is truthy |
| ExampleComponent.Loaded | components/example/component.php:5-49 | The loaded example descriptor has the defaults as parameters, both closures and its registered name |
| ExampleComponent.AsWrittenTransformFails | Component.module.php:146 | As written, rendering the example fails with `ArgumentCountError` for every caller, whatever the attributes, cache settings and renderers |
| ExampleComponent.IntendedTransformRuns | components/example/component.php:36-41 | Called as declared, the transform runs on the defaults merged with the caller's parameters |
| ExampleComponent.ExampleRenders | Component.module.php:180-222 | With the transform step called as declared (`TransformIntended`), the example renders `""` when the merged parameters have no content. Otherwise the template gets the transformed parameters |
| ExampleTemplate.TemplateDefault | components/example/templates/template-default.php:24-56 | The template's steps compute the template function: the classes added in order, then the heading echoed |
| ExampleTemplate.AddedIsAddAll | components/example/templates/template-default.php:24-54 | Running the eight conditions appends exactly the wanted classes, in order |
| ExampleTemplate.AddAllToList | components/example/templates/template-default.php:25-53 | On a class list, the appends keep the classes already there, add the new ones after them, and change no other attribute |
| ExampleTemplate.NothingWanted | components/example/templates/template-default.php:24-54 | With all eight style parameters falsy, no class is added |
| ExampleTemplate.DefaultsAddNothing | components/example/templates/template-default.php:24-54 | With the defaults, no class is added |
| ExampleTemplate.NothingAddedIff | components/example/templates/template-default.php:24-54 | No class is added exactly when all eight parameters are falsy |
| ExampleTemplate.ClassesAre | components/example/templates/template-default.php:24-54 | Every truthy parameter adds its class, and every added class belongs to a truthy parameter |
| ExampleTemplate.AllStylesOrder | components/example/templates/template-default.php:24-54 | With every style on, the eight classes come once each, in the template's fixed order |
| ExampleTemplate.HeadingTags | components/example/templates/template-default.php:56 | The heading opens and closes the same tag, with the content just before the closing tag |
| ExampleTemplate.TemplateTags | components/example/templates/template-default.php:56 | The output opens with `<tag` and ends with the content followed by `</tag>` |

## Left out

- These are parameters: PCRE matching (`preg_match`), `htmlspecialchars`, the file renderer, the cache renderer, file existence, modification times, the definition files, the debug flag, the superuser flag, and the code of closures.
- A definition file is an array or a closure returning one. `require` of arbitrary PHP is not modelled.
- Expression.Sprintf: only the directives `%k$s` and `%%` are read, and any other `%` is copied. PHP 8's `sprintf` also reads other directives, and raises `ValueError` or `ArgumentCountError` when it cannot fill one. The model does not.
- Arr.Columns: works on the list of values, so keys are dropped. `array_chunk` renumbers the keys anyway, but `array_slice` in the remainder branch keeps string keys, which the model loses.
- Expression.Evaluate: the text is read placeholder-first (`Parse`), the corrected reading of the first pass. The source's bracket-first pass (`ExtractOptionals`) differs when a placeholder's regex holds `[`, and the model does not prove that the two readings agree on the other texts.
- Expression.Evaluate: an array parameter is put in as the text `Array` and a closure as `Closure`. PHP 8's `str_replace` and `preg_match` raise `TypeError` on such a value, so the model has no error path for it.
- Expression.EvaluateOneHole: for an array or closure value the model shows `Array` or `Closure`, where PHP 8 raises `TypeError`.
- Element.Expr: an array or closure condition or value is written as text, where PHP 8's `str_contains` and `str_replace` raise `TypeError`. `(array)` of a closure is `[]` in PHP, but `Arr.Wrap` gives a one-element list.
- Element.Attrs: a closure value is written as `Closure`, where `htmlspecialchars` or `implode` raises an error in PHP 8.
- Element.BareForms: a closure under a numeric key is written as `Closure`, where `implode` raises an error in PHP 8.
- Element.Tag: closure contents or attributes are written as `Closure`, where `join` and string interpolation raise an error in PHP 8.
- Element.IsNumericText: PHP 8's `is_numeric` also accepts leading and trailing whitespace (`" 5"`, `"5 "`) and exponents. The model rejects them, so such an attribute key is not numeric here.
- Arr.UpdateKeys: `is_callable` is decided by the caller. In PHP a string that names a function (`'count'`) is a callback, but the model reads every `To` string as a key path, so callers must pass such a string as `Via`. The `Predicate` and `Selector` datatypes of `pick`, `omit`, `every`, `some`, `find` and `filter` make the same choice.
- Php.Append: PHP keeps a hidden next-free-index counter in each array, and `unset` does not lower it. From PHP 8.3, an array whose largest integer key is negative also continues from that key (`[-5 => 'x']` then `$a[] = 'y'` uses -4). The model computes the key from the keys present (one past the largest, at least 0), so an array passed in after an `unset` of its last integer key, or with only negative integer keys, gets a smaller key here than in PHP.
- Arr.Set, Arr.Update, Arr.UpdateKeys: the by-reference array is always an array here. PHP also accepts `null`, which becomes an array on the first write. It raises an error on other scalars, and writes a character into a string for an integer segment.
- Arr.MatchesAll: PHP's loose `!=` is modelled as strict inequality.
- Floating-point values are not modelled: numbers are integers, and numeric strings are recognised by their text only.
- ArrayAccess objects are not modelled: `accessible` holds for arrays only.
- Watcher.Watcher.Watch: the `Page` and `Template` branches are not modelled. A string without `/` calls `loadComponent`, which the module does not define, so it is modelled as a thrown error.
- Watcher.Unique: `array_unique` compares values after string conversion. The model compares values by equality.
- Watcher.ModifiedSpec: `max` of an empty list raises `ValueError`, modelled as a thrown error.
- ProcessWire hooks are not modelled: the `___` methods are the plain steps.
- `___applyFunctions` registers hook methods. Only its null result, stored into `fn`, is modelled.
- The `TemplateFile::attrs` hook that `ready` installs is not modelled. It calls `componentAttrs`, which is modelled.
- The `component()` wrapper in FunctionsAPI.php and `templates/template.php` of the example are not modelled.
- `getComponents`, `getModuleInfo` and the module configuration are not modelled. They only return stored data.
- Concurrency is not modelled: PHP requests are single-threaded.
- The static expression cache is a field of `ExpressionEngine`, shared by the calls that receive it.
- Converting a closure to a string is an error in PHP. `FunctionsApi` and `Watcher` model it as a thrown error. `Expression` and `Element` write a closure as the text `Closure` and an array as `Array`; the lines above that start with their members name what that leaves out.

## Findings

| source | as written | input that shows it | evidently intended | confidence | as-written member | corrected member |
|---|---|---|---|---|---|---|
| src/Element.php:293-307 | Optional `[...]` segments are cut out before placeholders are read, so a character class inside a placeholder's regex becomes a `%1$s` slot | `{a:[0-9]+}` with `a = "42"`: the regex becomes `%1$s+`, no number matches, and the expression is empty | Placeholders (with their regex) read first, so `{a:[0-9]+}` shows `42` | not executed; high that the regex is altered | Expression.BracketInRegexAsWritten | Expression.BracketInRegexEvaluated |
| Component.module.php:146 | `___transform` calls the closure with the parameters alone, but the shipped definition declares `function (array $params, array $component)` | The example component with any parameters: PHP raises `ArgumentCountError` for a user closure given too few arguments | The closure is called with the parameters and the descriptor (the step `TransformIntended`, which a hook on `___transform` can install), and the example renders when it has content | not executed; high | ExampleComponent.AsWrittenTransformFails | ExampleComponent.ExampleRenders |
| src/Arr.php:84 | `!strpos($key, '.')` treats a key whose first dot is at position 0 as a key without dots, so `get` does not walk it (`has` at src/Arr.php:37 has the same test) | `set(a, ".a", 1)` writes `a[""]["a"] = 1`; then `get(a, ".a")` returns the default | The path is walked whenever the key holds a dot (`strpos(...) === false` for "no dot"), so `get` reads back what `set` wrote | not executed; medium that a leading dot is meant to address the empty key | Arr.LeadingDotLost | Arr.GetSetIntended |

`Arr.Get` and `Arr.Has` follow the source's dot test as written. No other part of the core calls them, so the corrected `Arr.GetIntended` is used only by `Arr.GetSetIntended`.
