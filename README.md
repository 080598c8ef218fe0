# ran — a model of the resolution and templating engine

`ran` is a command-line launcher. Each app is a TOML definition file below an
`apps` directory. A definition holds a binary, its arguments and an optional
environment table. A configuration file holds four things:
- an `interactive` flag;
- an optional `editor`;
- an `alias` table mapping names to queries;
- `vars` and `env` tables.

Launching an app takes four steps:
1. The query is resolved to a definition file. Aliases are followed first. Then
   apps are matched by full name or by the last `/` segment of their name.
2. The definition's runner chain is followed. A binary `@name` means "run on the
   app `name`, with my arguments injected at its `%!`".
3. The command-line arguments are merged in the same way.
4. The environments are layered, and every `%key%` placeholder in the binary, the
   arguments and the environment values is expanded from the configuration.

This project models that engine in Dafny and proves what it promises. It also
models the configuration commands (`config get/set/unset`, `alias get/set/unset`,
`var get/set/unset`) on an in-memory configuration, and the text of the errors.

Modules and files:
- `Wrappers` (wrappers.dfy): `Option`.
- `Seqs` (seqs.dfy): first-index search and distinctness.
- `Strings` (strings.dfy): `split`, `last`, `trim`, `trim_matches`, `replace`
  and `to_lowercase`, with ASCII semantics.
- `Errors` (errors.dfy): `LauncherError`, its text, `Result` and the model's
  `Outcome` (success, failure, or the step bound ran out).
- `Configs` (configs.dfy): `Config`.
- `Utils` (utils.dfy): `sandwich_args`, `sanitize_app_name`, `parse_bool`.
- `Expand` (expand.dfy): the namespace resolver, one `replace_all` pass, and the
  five-pass `expand_vars` loop. It is parameterised by a `Variant` so that it covers
  both the `editor` resolver of src/utils.rs and the `terminal_runner` resolver of
  src/helpers.rs.
- `Helpers` (helpers.dfy): what differs in the src/helpers.rs variant.
- `Launch` (launcher.dfy): `resolve_alias_chain`, `find_app_inner`/`find_app`
  with the choice among matches of `app_resolver`, and the argument, environment
  and expansion part of `launch_app`.
- `Apps` (apps.dfy): the `App` record, `resolve_recursive`, the name derivation of
  `find_all`, and argument quoting for display.
- `Commands` (commands.dfy): key dispatch for the configuration commands, and a
  `ConfigStore` class whose methods change the stored configuration.

Modelling choices:
- The regular expression `%([^%]+)%` under `replace_all` is a hand-written
  scanner, `Expand.Pass`. At a `%`, the next `%` closes a placeholder unless it
  follows at once. With no next `%`, or with an empty key, the first `%` is kept
  and the scan resumes after it.
- `find_app_inner` and `resolve_recursive` recurse without bound in the source.
  An alias `a -> "/a"` and a self-running app are two inputs on which they never
  return. The model gives each a step bound (`fuel`) and a distinct `OutOfFuel`
  outcome. Lemmas show that more fuel changes nothing once a result is reached,
  and that those two inputs run out on every bound.
- The finder's trimming is handed to the finder as a function parameter. The
  finder used by the rest of the model (`FindApp`) passes `Normalise`, which trims
  whitespace and then `/`.
- Reading and parsing a definition file is a function parameter,
  `Context.load`, from a path to an app or an error.
- Whether standard output is a terminal, and the answer of the selection prompt,
  are inputs (`Launch.Terminal`).

## Model

| member | source | states |
|---|---|---|
| Utils.Sandwich | src/utils.rs:87-108 | The definition of `sandwich_args` on values: the child replaces the first `%!` of the parent, or is appended. Its properties are the rows below. |
| Utils.SandwichArgs | src/utils.rs:87-108 | The loop that finds the first `%!` and builds the result computes `Sandwich`. |
| Utils.SandwichAtMarker | src/utils.rs:89-101 | With the first `%!` at `p`, the result is the parent before `p`, the whole child, then the parent after `p`. Later `%!` elements are kept unchanged after the child. |
| Utils.SandwichWithoutMarker | src/utils.rs:102-107 | Without `%!`, the child is appended: the result is `parent + child`, of length `|parent| + |child|`. |
| Utils.SandwichElements | src/utils.rs:87-108 | As a multiset, the result is the parent plus the child, less one marker exactly when the parent had one. |
| Utils.SandwichIsInjectChild | src/utils.rs:87-108 | The merge equals an independent element-by-element definition that replaces the first marker. |
| Utils.SandwichNests | src/utils.rs:87-108 | Merging twice equals merging once with the inner merge, when the middle list has its own marker. This is what a two-level runner chain relies on. |
| Utils.SanitizeAppName | src/utils.rs:21-23 | The shape of every result: no space, no backslash, and no `/` at either end. What is kept is stated by the three lemmas below. |
| Utils.SanitizeKeepsClean | src/utils.rs:21-23 | A name with no space, no backslash, and neither whitespace nor `/` at either end sanitises to itself. |
| Utils.SanitizeSpace | src/utils.rs:22 | Two such clean names `a` and `b`, joined by one space, sanitise to `a_b`: the space becomes `_`. |
| Utils.SanitizeBackslash | src/utils.rs:22 | Two such clean names joined by a backslash sanitise to `a/b`. |
| Utils.ParseBool | src/utils.rs:47-53 | The definition of `parse_bool` on values. Its properties are the rows below. |
| Utils.ParseBoolWords | src/utils.rs:47-53 | `1 true yes y on` read as true and `0 false no n off` read as false; no word is in both lists. |
| Utils.ParseBoolTable | src/utils.rs:47-53 | The whole table, each way: after lower-casing and trimming, the result is `Some(true)` exactly for a word of the first list, `Some(false)` exactly for a word of the second, and `None` exactly for any other text. |
| Utils.ParseBoolNormalises | src/utils.rs:47-48 | `parse_bool` gives the same answer after lower-casing or trimming its input. |
| Utils.ParseBoolText | src/utils.rs:47-53 | The text of a boolean (`true`/`false`) parses back to that boolean. |
| Utils.LowerTrim | src/utils.rs:48 | Lower-casing and trimming commute, so the order in `parse_bool` does not matter. |
| Expand.Resolve | src/utils.rs:118-157 | The definition of the key resolver on values. Its properties are the `Resolve*` rows below. |
| Expand.Pass | src/utils.rs:113-160 | The definition of one `replace_all` pass on values. Its properties are the `Pass*` rows below. |
| Expand.ExpandVars | src/utils.rs:112-166 | The five-pass loop with its early `break` computes `Expanded`, the bounded iteration of `Pass` that stops at the first pass that changes nothing. |
| Expand.ExpandFromStopsAtFirstFixpoint | src/utils.rs:116-164 | The expansion is the text after some `k <= 5` passes. Each of those passes changed the text. When `k < 5`, the next pass changes nothing. |
| Expand.StableText | src/utils.rs:162 | Once a pass changes nothing, the text is returned as it is. |
| Expand.PassChanges | src/utils.rs:162-163 | A pass that changes the text uses up one pass and expansion continues from its result. |
| Expand.PassPlain | src/utils.rs:113-117 | A text with no `%` is copied unchanged by a pass. |
| Expand.PassPlainPrefix | src/utils.rs:113-117 | A `%`-free prefix is copied, and the scan resumes after it. |
| Expand.PassSpan | src/utils.rs:113-118 | `%key%` at the front is replaced by the key's substitution. The scan resumes after the closing `%`, so the substituted text is not rescanned in the same pass. |
| Expand.PassDoublePercent | src/utils.rs:113 | At `%%`, the first `%` is kept and the scan goes on from the second. |
| Expand.PassUnclosed | src/utils.rs:113 | A `%` with no closing `%` is kept together with the rest of the text. |
| Expand.PassAfterEmptySpan | src/utils.rs:113 | `%%a%` becomes `%` followed by the value of `a`. |
| Expand.PassAlternates | src/utils.rs:113 | In `%a%b%c%`, only `a` and `c` are keys; `b` is copied. |
| Expand.PassSingle | src/utils.rs:113-118 | A lone placeholder passes to exactly its substitution. |
| Expand.UnresolvedStaysVerbatim | src/utils.rs:154-159 | A key that does not resolve stays in the text as `%key%`, after one pass and after the whole expansion. |
| Expand.ResolvedSpan | src/utils.rs:121-159 | A key that resolves is replaced by its value. A value with no `%` is the final text. |
| Expand.ResolveBare | src/utils.rs:154 | A bare key `k` reads `vars[k]`, and is missing when `vars` lacks it. |
| Expand.ResolveVars | src/utils.rs:126 | `config.vars.k` reads `vars[k]`. |
| Expand.ResolveAlias | src/utils.rs:125 | `config.alias.k` reads `alias[k]`. |
| Expand.ResolveEnv | src/utils.rs:127 | `config.env.k` reads `env[k]`. |
| Expand.ResolveEntryKey | src/utils.rs:125-127 | A three-segment `config` key reads the table named by its middle segment. |
| Expand.ResolveInteractive | src/utils.rs:123 | `config.interactive` is `true` or `false` after the flag. |
| Expand.ResolveEditor | src/utils.rs:124 | `config.editor` is the editor, and is missing when none is set. |
| Expand.OtherShapesUnresolved | src/utils.rs:121-156 | `vars.k` (two segments) and any key of four or more segments do not resolve. |
| Expand.TwoLevelIndirection | src/utils.rs:116-164 | With `a = "%b%"` and `b = v` (no `%` in `v`), the first pass turns `%a%` into `%b%` and the expansion gives `v`. |
| Expand.SelfReference | src/utils.rs:116-164 | With `a = "%a%"`, `%a%` is a fixed point at once. |
| Expand.NoPlaceholder | src/utils.rs:116-164 | A text with no `%` expands to itself. |
| Helpers.TerminalRunnerResolves | src/helpers.rs:120 | In the src/helpers.rs variant, `config.terminal_runner` always resolves, to the runner string. |
| Helpers.EachVariantLacksTheOtherKey | src/helpers.rs:119-151 | `config.editor` does not resolve in the src/helpers.rs variant; `config.terminal_runner` does not resolve in the src/utils.rs one. |
| Helpers.VariantsAgreeElsewhere | src/helpers.rs:119-151 | The two resolvers agree on every other key: the flag, the three tables and bare keys. |
| Launch.ResolveAliasChain | src/launcher.rs:28-43 | On success, the chain starts at the given name. Each element is an alias of the next. The last element is no alias. There are no repeats, and the length is at most the number of aliases plus one. On failure the error is `CircularAlias`: a repeat-free path closed by the first repeated name. |
| Launch.FullChainUnique | src/launcher.rs:28-43 | There is at most one complete chain from a name. |
| Launch.CycleReportUnique | src/launcher.rs:35-37 | There is at most one cycle report from a name. |
| Launch.FullChainExcludesCycle | src/launcher.rs:34-42 | A name has a complete chain or a cycle report, never both. |
| Launch.TwoAliasCycle | src/launcher.rs:35-37 | `a -> b`, `b -> a` gives exactly `[a, b, a]`, and no complete chain. |
| Launch.SelfAlias | src/launcher.rs:35-37 | `a -> a` gives exactly `[a, a]`, and no complete chain. |
| Launch.MatchingPaths | src/launcher.rs:61-67 | The candidate list holds one path per app whose full name or leaf equals the query, and exactly the paths of those apps. |
| Launch.SelectApp | src/launcher.rs:61-76 | The definition, on values, of the choice among the matches, with the non-interactive branch of `app_resolver`. Its properties are stated by `Launch.SelectAppOutcomes`. |
| Launch.SelectAppOutcomes | src/launcher.rs:69-76 | With no candidate the result is `AppNotFound(query)`, and only then. One candidate gives its path. Two or more, with interactivity off or no terminal, give `AmbiguousQuery(query, all candidate paths)`. A cancelled prompt gives `cancelled.`. A found path is always a candidate's path. |
| Launch.FindStep | src/launcher.rs:46-76 | The definition of one call of `find_app_inner` up to its recursive call. Its properties are the rows below. |
| Launch.FindAppInner | src/launcher.rs:46-77 | The definition of `find_app_inner` with a step bound. Its properties are the rows below. |
| Launch.FindApp | src/launcher.rs:80-82 | The definition of `find_app`: the finder with an empty stack. |
| Launch.FindAppOutcomes | src/launcher.rs:46-77 | A found path is the path of a registered app. A failure is `AppNotFound`, `AmbiguousQuery`, `CircularAlias` or the cancelled prompt. |
| Launch.FindAppFuel | src/launcher.rs:46-77 | Once the finder has a result, a larger step bound gives the same result. |
| Launch.EmptyQuery | src/launcher.rs:52-53 | A query that is empty after trimming fails with `AppNotFound("")`, whatever apps exist. |
| Launch.SlashesOnly | src/launcher.rs:52 | A query made only of `/` (such as `///`, or the empty query) is empty after trimming. |
| Launch.AliasFirst | src/launcher.rs:55-59 | If the trimmed query is an alias, its target is looked up with the trimmed query pushed on the stack, even when an app of that name exists. |
| Launch.QueryOnStack | src/launcher.rs:47-51 | A raw query already on the stack fails with `CircularAlias(stack + [query])`. |
| Launch.PlainQuery | src/launcher.rs:52-76 | A query that is not an alias goes straight to the matching of names. |
| Launch.FindAppCycle | src/launcher.rs:46-59 | With `a -> b`, `b -> a`, `find_app(a)` fails with `CircularAlias([a, b, a])`. |
| Launch.SlashAliasNeverEnds | src/launcher.rs:47-58 | With `a -> "/a"`, the raw query `/a` is never on the stack, which holds `a`. The finder never returns, and every step bound runs out. |
| Launch.NormaliseLeadingSlash | src/launcher.rs:52 | A name with no padding and no `/` at its ends normalises to itself, and so does the same name behind one `/`. |
| Launch.LayeredEnv | src/launcher.rs:129-131 | The launch environment has the keys of the command line, the configuration and the app together. |
| Launch.EnvPrecedence | src/launcher.rs:129-131 | Per key, the resolved app's value wins, then the configuration's, then the command line's. |
| Launch.ExpandAll | src/launcher.rs:136-138 | Each argument is expanded on its own, and the order and count are kept. |
| Launch.ExpandArgs | src/launcher.rs:136-138 | The argument loop computes `ExpandAll`. |
| Launch.ExpandEnv | src/launcher.rs:140-142 | The keys are kept, and each value is its own expansion. |
| Launch.AssembleLaunch | src/launcher.rs:126-142 | The binary is expanded. The arguments are the expansion of the command-line arguments merged into the resolved ones at `%!`. The environment is the layered one with every value, not key, expanded. |
| Apps.Layer | src/app.rs:162-172 | The definition of the second half of `resolve_recursive` on values. Its properties are stated by `Apps.LayerArgs` and `Apps.LayerEnv`. |
| Apps.LayerParts | src/app.rs:162-172 | The in-place argument and environment updates compute `Layer`. |
| Apps.LayerArgs | src/app.rs:163-167 | Both branches of the argument rule are the merge: the runner's arguments as parent and the app's as child. With no runner arguments, the result is the app's own. |
| Apps.LayerEnv | src/app.rs:170-172 | The app's variables override the runner's, and the runner's other variables survive. No other key appears, and the binary is unchanged. |
| Apps.LayerOutcome | src/app.rs:160-174 | A failure or bound-out of the base is passed through unchanged, and a success keeps the base's binary. |
| Apps.ResolveRecursive | src/app.rs:145-175 | The definition of `resolve_recursive` with a step bound. Its properties are the rows below. |
| Apps.LiteralBin | src/app.rs:146-172 | A binary without `@` resolves to itself, the app's own arguments, and the app's variables (none without a table). |
| Apps.EmptyRunnerName | src/app.rs:147-148 | The binary `@` fails with `InvalidApp("", Some("app name cannot be empty!"))`. |
| Apps.RunnerBin | src/app.rs:150-160 | `@name` loads `name` through the finder and layers this app on its resolution. Any failure to find, read or resolve the runner is returned unchanged. |
| Apps.RunnerStep | src/app.rs:150-174 | One step of the runner chain: the app layered over its runner's resolution. |
| Apps.LoadApp | src/launcher.rs:85-89 | The definition of `load_app`: find, then read. Its properties are stated by `Apps.LoadAppOutcomes`. |
| Apps.LoadAppOutcomes | src/launcher.rs:85-89 | A loaded app is the content of the file of a registered app. Loading fails exactly as finding or reading fails, and runs out exactly when the finder does. |
| Apps.ResolvedBinIsLiteral | src/app.rs:145-175 | A chain resolves exactly when following the runners reaches an app that is not a runner (`ChainEnd`). The resolved binary is then that last app's binary, which does not start with `@`. |
| Apps.TwoRunners | src/app.rs:145-175 | An app on `@b` whose runner `b` runs on `@c`, a literal app, resolves to `c`'s binary. The arguments are `c`'s with `b`'s merged in, and this app's merged into that. The variables are `c`'s, overridden by `b`'s, overridden by this app's. |
| Apps.ResolveFuel | src/app.rs:145-175 | Once the chain is resolved, a larger step bound gives the same result. |
| Apps.SelfRunner | src/app.rs:150-152 | An app whose runner name finds the app itself never resolves: every bound runs out. |
| Apps.RunnerWithMarker | src/app.rs:163-164 | A runner with arguments `-a %! -z` under an app with arguments `own` gives the runner's binary with `-a`, `own`, `-z`. |
| Apps.AppName | src/app.rs:124-135 | A derived name has no backslash and neither starts nor ends with `/`. |
| Apps.AppNameRoundTrip | src/app.rs:124-135 | A clean name is the derived name of its own `.toml` file. |
| Apps.FindAll | src/app.rs:101-142 | The registry loop computes `Registry`, the map from each derived name to its file. |
| Apps.RegistryEntries | src/app.rs:123-138 | The registry holds exactly the derived names of the files. Each name maps to the last file with that name. |
| Apps.QuoteArg | src/app.rs:63-69 | The definition of the quoting of one argument. Its properties are stated by `Apps.QuoteRoundTrip` and `Apps.QuotedShape`. |
| Apps.DisplayArgs | src/app.rs:61-71 | The definition of the argument line of the app's table. Its properties are stated by `Apps.PlainArgs`. |
| Apps.QuoteRoundTrip | src/app.rs:63-69 | A shown argument can be read back exactly. |
| Apps.PlainArgs | src/app.rs:61-71 | Arguments without a space or a double quote are shown as they are, one space apart. |
| Apps.QuotedShape | src/app.rs:64-65 | A quoted argument starts and ends with `"`, and every `"` inside is escaped by a backslash. |
| Commands.ParseKey | src/main.rs:152-170 | The definition of the key dispatch on the segments of a key. Its properties are the rows below. |
| Commands.KeyRoundTrip | src/main.rs:152-170 | Every writable key's text is read back as that key. |
| Commands.KeyTextUnique | src/main.rs:152-170 | A text that is read as a key is the text of that key, so a key has one spelling. |
| Commands.UnknownShapes | src/main.rs:170 | Three or more segments, or a first segment `config`, are not keys: `vars.a.b` and `config.vars.a` are refused. |
| Commands.GetValue | src/main.rs:147-171 | The definition of `config get`. Its properties are stated by `Commands.GetValueMeaning`. |
| Commands.GetValueMeaning | src/main.rs:147-171 | `config get` fails with `invalid key` exactly for unknown shapes. The flag reads as `true` or `false`, and that text parses back to the flag. The editor or `not specified` is returned. A table entry is read exactly when present. When absent: `AliasNotFound(k)` for aliases, `custom variable "k" is not defined` for vars, and `environment variable "k" is not defined in config.env` for env. |
| Commands.SetValue | src/main.rs:179-203 | The definition of `config set` as written. Its properties are the rows below. |
| Commands.SetNewEntryFails | src/main.rs:187-200 | As written, `config set` of `alias.k`, `vars.k` or `env.k` for a new `k` fails with `could not set <section>.k to "v"`. The intended meaning inserts the entry into that table. |
| Commands.SetAgreesOnExisting | src/main.rs:183-203 | As written and as intended, `config set` agree unless it creates a table entry. |
| Commands.GetAfterSet | src/main.rs:183-203 | After `config set`, the key reads back the value set (for the flag, the value as parsed). Every other field and entry is unchanged. |
| Commands.SetInteractiveRefuses | src/main.rs:184 | A flag value that does not parse is refused with the `parse error` message. |
| Commands.UnsetValue | src/main.rs:209-230 | The definition of `config unset`. Its properties are stated by `Commands.GetAfterUnset`. |
| Commands.GetAfterUnset | src/main.rs:213-230 | After `config unset`: the flag is whether output is a terminal, the editor reads `not specified`, and a table entry reads as missing. Every other field and entry is unchanged. |
| Commands.InvalidKeyEverywhere | src/main.rs:152-229 | A key of another shape is refused alike by get, set and unset. |
| Commands.VarGetIsConfigGet | src/main.rs:288 | `var get k` is `config get vars.k`. |
| Commands.ConfigStore.Set | src/main.rs:179-207 | A successful `config set` (with the intended meaning) writes the new configuration. A failed one reports the error and writes nothing. |
| Commands.ConfigStore.Unset | src/main.rs:209-234 | A successful `config unset` writes the new configuration. A failed one reports the error and writes nothing. |
| Commands.ConfigStore.SetAlias | src/main.rs:258-263 | `alias set` inserts or overwrites unconditionally; nothing else changes. |
| Commands.ConfigStore.UnsetAlias | src/main.rs:265-270 | `alias unset` removes the alias if present; nothing else changes. |
| Commands.ConfigStore.SetVar | src/main.rs:291-296 | `var set` inserts or overwrites unconditionally; nothing else changes. |
| Commands.ConfigStore.UnsetVar | src/main.rs:298-303 | `var unset` removes the variable if present; nothing else changes. |
| Commands.ConfigStore.AliasGet | src/main.rs:254-256 | `alias get` gives the complete chain joined by ` -> ` and trimmed, or the cycle report. |
| Commands.AliasSetThenGet | src/main.rs:258-270 | After `alias set k v`, `config get alias.k` gives `v`. After `alias unset k`, it gives `AliasNotFound(k)`. |
| Errors.Render | src/error.rs:29-60 | The definition of the `Display` text of every error. Its properties are the rows below; for the messages without a lemma the definition itself is the statement. |
| Errors.RenderReason | src/error.rs:33-46 | `InvalidApp` and `InvalidConfig` add ` -- reason` exactly when there is a reason. |
| Errors.RenderCycle | src/error.rs:50 | For the cycles `[a, b, a]` and `[a, a]`, the message is `infinite recursion in alias expansion: ` followed by the names joined by ` -> `. The general format is the definition of `Errors.Render`. |
| Errors.RenderAmbiguous | src/error.rs:55 | For two candidates `p1` and `p2`, the message is `multiple results for query "q": p1, p2`. The general format is the definition of `Errors.Render`. |
| Errors.RenderNamesRecoverable | src/error.rs:47-49 | The text of `AppNotFound`, `ConfigNotFound` and `AliasNotFound` determines the name or path it was raised for. |
| Errors.RenderKindsDiffer | src/error.rs:47-49 | Those three kinds of message never coincide. |

## Left out

- Process spawning and waiting in `launch_app` (src/launcher.rs:144-163) are operating-system effects and are not modelled. In the source, background mode spawns the command without its environment: the layered environment is computed but never applied.
- The lookup of the launched app's name by path (src/launcher.rs:121) serves only the printed message and is not modelled.
- Files, TOML and directories are not modelled: reading definition and configuration files, `Launcher::init`, the directory walk of `find_all`, `new_app`, `new_config`, `edit_config` and `open_in_editor`. `find_all` is modelled from the list of relative paths it visits. A definition read is the `Context.load` parameter. A configuration write is a change of `ConfigStore.stored`.
- Display tables and terminal sizing are not modelled (`make_box`, `generate_rows`, `wrap_rows`, `Display` of `App` and `Config`). Only the argument quoting in the app's table is modelled.
- `app delete` confirmation, `alias list` and `var list` are not modelled.
- The selection prompt of `app_resolver` is not modelled. Its answer is the input `Terminal.answer`, and an index is taken modulo the number of candidates. A prompt failure (`DialoguerError`) is not modelled.
- `Apps.Registry` (and `Apps.FindAll`): the registry maps each name to the definition's path relative to the apps directory. The source stores the full path below `root/apps`, and that full path is what `AmbiguousQuery` lists and `load_app` reads. A fixed root does not change any property stated here.
- `Errors.Render`: the messages of `InvalidAlias`, `NoCommandGiven`, `Other` and the foreign-error kinds are stated only by the definition. The lemmas prove the reason suffix, the cycle and candidate lists for the instances named above, and that the not-found messages identify their argument.
- `Launch.SelectApp`: the candidate order is a hash map's iteration order in the source. The model fixes some order and proves only set properties of the list: the count, and which paths it holds.
- `Launch.FindApp`, `Apps.ResolveRecursive`: these are bounded by fuel, where the source recurses without bound. `OutOfFuel` marks the inputs on which the source does not return.
- The errors that wrap a foreign error (`IoError`, `DialoguerError`, `ParseError`, `SerializationError`) carry the foreign error's text as an uninterpreted string.
- `to_lowercase` and `trim` are ASCII.
- `expand_vars` in src/helpers.rs and src/utils.rs is one function with a `Variant`. The second copies of `sandwich_args`, `sanitize_app_name` and `parse_bool` in src/helpers.rs are the same code and are modelled once. src/helpers.rs writes the cancelled-prompt message as `Cancelled.` where src/utils.rs writes `cancelled.`; the model uses src/utils.rs.
- A `%vars.k%` placeholder (two segments) is not resolved by the code, which only knows `%k%` and `%config.vars.k%`. The model follows the code (`Expand.OtherShapesUnresolved`).
- The commented-out `apps.*` namespace of `expand_vars` is not modelled.
- `Commands.ConfigStore.Set` follows the intended meaning of `config set` (see Findings). The as-written behaviour is `Commands.SetValue`.

## Findings

| source | as written | input that shows it | evidently intended | confidence | as-written member | corrected member |
|---|---|---|---|---|---|---|
| src/main.rs:187-200 | `config set alias.k v` (likewise `vars.k`, `env.k`) inserts with `HashMap::insert` and turns a `None` result into an error. `insert` returns `None` exactly when `k` was not there before, so setting a new entry fails with `could not set alias.k to "v"`. | a configuration whose `alias` table has no `k`, with the key `alias.k` (or a `vars`/`env` table without `k`, with `vars.k`/`env.k`) | the entry is set whether or not it existed, as `alias set` and `var set` do | not executed | Commands.SetNewEntryFails | Commands.SetValueIntended |
