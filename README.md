# import-meta-env: the populate command and the Vite plugin's rewrites

This project models two parts of import-meta-env.

The first is the Rust `import-meta-env` command (`packages/cli-rs`). It fills a build's placeholder `"__import_meta_env_placeholder__"` / `'__import_meta_env_placeholder__'` with a JSON object of the public environment variables. The model covers:

- argument checks: the example file, glob validity, at least one match;
- resolving the example file's keys against the environment;
- serde_json serialisation;
- the loop over variant × pattern × path that restores `<path>.bak`, backs the file up and rewrites it.

The second is the production and development `transform` hooks of the Vite plugin (`packages/vite/src/index.ts`). They hide the six Vite-inlined keys behind a 256-character sentinel `unique`, replace every other `import.meta.env`, and restore the hidden keys. Around them the model also covers the `import` line added to a module, `transformIndexHtml`, `resolveId` and `load`.

Modules, one per file:

- `Wrappers`: `Option` and `Result`.
- `Strings`: `StartsWith`, `EndsWith`, `Contains` and `Join`.
- `Scanner`: the leftmost, non-overlapping, left-to-right rewriting shared by Rust `str::replace`, `Regex::replace_all` and JavaScript `replace` with a `g` regex. It comes with lemmas on splitting, skipping and "the output holds no occurrence of q".
- `Pattern`: fixed-length patterns made of literal characters and the JavaScript `.` wildcard, plus replace-all and replace-first.
- `Json`: serde_json string escaping (section 7 of RFC 8259), the one-line object `{"k":"v",...}`, and a reader that proves the round trip.
- `Rewriter`: the two variants, the arrow regular expression `=>([\s]*)<variant>` (Rust `\s` as Unicode White_Space) and the plain replacement.
- `Cli`: `cli.rs`.
- `Populate`: `main.rs`. The specification functions `Step`/`Entries`/`Globs`/`Passes` cover the loop. The `Populator` class holds the file system as a mutable `map<string, string>` and runs the same loop imperatively, proved equal to those functions. The lemmas cover backup, restore, disposable mode, `.bak` exclusion and re-runs.
- `VitePlugin` and `ViteProperties`: `index.ts` and what its rewrites do to any module.

The command's stated job is to populate the environment variables into the build (`packages/cli-rs/src/cli.rs:4`), that is, to fill every placeholder it finds. The code runs the variant loop outermost, and its restore and backup checks look only at the current variant. The model follows the code. `Populate.BothVariantsLeaveDouble` shows that a file holding both variants keeps `"__import_meta_env_placeholder__"` unfilled. `Populate.StepBoth`, with its lemma `Populate.StepBothReplacesAll`, is a per-file step that fills both (see Findings).

## Model

| member | source | states |
|---|---|---|
| `Cli.FromFlags` | packages/cli-rs/src/cli.rs:7-28 | each optional flag falls back to its declared default; `--disposable` is a switch |
| `Cli.Defaults` | packages/cli-rs/src/cli.rs:9-27 | with no optional flag: env `.env`, outputs exactly `dist/**/*`, `.next/**/*`, `.nuxt/**/*`, `.output/**/*`, `build/**/*` in that order, disposable off |
| `Cli.AssertExampleArg` | packages/cli-rs/src/cli.rs:35-38 | succeeds iff the example file is readable; otherwise fails with `Failed to load example file: <path>` |
| `Cli.AssertOutputArg` | packages/cli-rs/src/cli.rs:40-54 | the loop summing match counts returns exactly the verdict: glob error if any pattern is invalid, not-found if every pattern matches nothing, else success |
| `Cli.AssertCliArg` | packages/cli-rs/src/cli.rs:30-33 | the example check comes first; its failure wins over any output failure |
| `Cli.NotFoundIff` | packages/cli-rs/src/cli.rs:40-54 | the not-found failure happens iff every pattern is valid and the total match count is zero |
| `Cli.NotFoundMessage` | packages/cli-rs/tests/cli.rs:76-86 | the tests' example: the patterns `foo/**` and `bar/**`, matching nothing, give `Output file not found: foo/**, bar/**` (the general form is the function `Cli.OutputError`, cli.rs:48-53) |
| `Json.SerializeRoundTrip` | packages/cli-rs/src/main.rs:31-32 | the serialised object reads back as the members in iteration order, and these denote exactly the resolved map |
| `Json.SerializeEmpty` | packages/cli-rs/src/main.rs:21-32 | the object text is `{}` iff the resolved map is empty |
| `Json.SerializeSingle` | packages/cli-rs/src/main.rs:31-32 | a one-entry map whose name and value need no escaping is written `{"k":"v"}` |
| `Json.SerializeDollar` | packages/cli-rs/src/main.rs:81-82 | serialisation introduces no `$`, so the text spliced into the replacement template holds none unless a key or value does |
| `Populate.PublicEnv` | packages/cli-rs/src/main.rs:21-30 | the resolved map's keys are exactly the example keys set in the environment, each with its environment value |
| `Populate.ResolvePublicEnv` | packages/cli-rs/src/main.rs:13-30 | the two loops (collect the keys, then insert those with a value) compute exactly `PublicEnv` |
| `Populate.AllUnsetIsEmpty` | packages/cli-rs/src/main.rs:21-32 | when no example key is set, the serialised map is `{}` |
| `Populate.ResolvedRoundTrip` | packages/cli-rs/src/main.rs:21-32 | reading the serialised map back gives each set example key its environment value and nothing else |
| `Populate.Populator.ProcessPath` | packages/cli-rs/src/main.rs:46-84 | the loop body on the mutable file map: skip `.bak`, restore, read-or-fail, back up, populate, write; the new state equals `Step` of the old files |
| `Populate.Populator.ProcessEntries` | packages/cli-rs/src/main.rs:44-88 | iterating one glob's items, unreadable ones skipped and stopping at the first failure, equals `Entries` |
| `Populate.Populator.ProcessGlobs` | packages/cli-rs/src/main.rs:43-89 | the patterns in order, each expanded against the files as they then are, an invalid one failing, equals `Globs` |
| `Populate.Populator.ProcessAll` | packages/cli-rs/src/main.rs:39-90 | the variant loop is outermost (double-quoted first) and re-expands the globs per variant; equals `PopulateFiles` |
| `Populate.Run` | packages/cli-rs/src/main.rs:8-93 | argument checks first, failing with their message before any file changes; otherwise the file loop with the serialised resolved map |
| `Populate.StepRestores` | packages/cli-rs/src/main.rs:62-68 | not disposable, with a backup holding the variant: the output becomes the backup populated, whatever it held, and the backup is unchanged |
| `Populate.StepBacksUp` | packages/cli-rs/src/main.rs:70-78 | without a backup holding the variant, a file holding it has its exact pre-populate contents written to `<path>.bak`, then is populated |
| `Populate.StepLeavesPlain` | packages/cli-rs/src/main.rs:62-84 | a file without the variant, and with no backup holding it, is written back byte-identical and no backup is made |
| `Populate.StepDisposable` | packages/cli-rs/src/main.rs:63-84 | in disposable mode no backup is consulted or written, and the file is populated as it stands |
| `Populate.PopulateFrame` | packages/cli-rs/src/main.rs:47-78 | over a whole run, finished or failed: nothing is deleted; only `.bak` files are created, never in disposable mode; existing backups keep their contents in disposable mode; no `.bak.bak` is ever created or changed |
| `Populate.BackupsUntouched` | packages/cli-rs/src/main.rs:47-55 | a pattern reaching only `.bak` files (and unreadable items) leaves every file as it was |
| `Populate.SingleFile` | packages/cli-rs/src/main.rs:39-90 | a run whose one pattern reaches one file (and perhaps its backups) is the double-quoted step on it followed by the single-quoted step |
| `Populate.BothVariantsLeaveDouble` | packages/cli-rs/src/main.rs:39-84 | not disposable, a file with both variants is restored in the single-quoted pass: the backup holds the original and the output still contains the double-quoted placeholder |
| `Populate.BothReplaced` | packages/cli-rs/src/main.rs:34-83 | populating with both variants in turn leaves neither variant in the text |
| `Populate.BothVariantsDisposable` | packages/cli-rs/src/main.rs:39-84 | in disposable mode a file with both variants has both replaced |
| `Populate.FirstRun` | packages/cli-rs/src/main.rs:62-84 | a first run on a one-variant template backs it up verbatim and populates it |
| `Populate.RestoredRun` | packages/cli-rs/src/main.rs:62-84 | a backup holding one variant decides the run: the output is the backup populated and the backup is unchanged |
| `Populate.Rerun` | packages/cli-rs/src/main.rs:62-84 | for a fresh template (exactly one variant in the file, and no backup holding a variant) and maps that are braced, `$`-free and hold neither variant, a second run with any such map equals a first run with that map: output and backup never compound earlier values |
| `Populate.RerunIdempotent` | packages/cli-rs/src/main.rs:62-84 | for a fresh template (exactly one variant in the file, and no backup holding a variant) and a braced, `$`-free map holding neither variant, running twice with the same inputs leaves the output and its `.bak` as one run did |
| `Populate.FooBarJson` | packages/cli-rs/tests/cli.rs:117-137 | `FOO=bar` serialises to `{"FOO":"bar"}` |
| `Populate.QuoteVariantsAgree` | packages/cli-rs/tests/cli.rs:173-196 | `const foo = <either variant>.FOO;` becomes `const foo = <map>.FOO;` for any serialised map without `$`, `{"FOO":"bar"}` among them |
| `Populate.ArrowExample` | packages/cli-rs/tests/cli.rs:239-274 | `() =>`, blank lines, then a variant becomes `() =>`, the same blank lines, then the map in parentheses, for any serialised map without `$` that does not hold the variant |
| `Populate.ArrowFooJson` | packages/cli-rs/tests/cli.rs:239-274 | with `{"FOO":"foo"}`, `() =>`, blank lines and either variant become `() =>`, the same blank lines and `({"FOO":"foo"})` |
| `Populate.StepBothReplacesAll` | packages/cli-rs/src/main.rs:62-84 | with the corrected step, a file with both variants keeps neither, its template is in the backup, and a re-run changes nothing |
| `Rewriter.VariantsDiffer` | packages/cli-rs/src/main.rs:34-37 | the two variants are quoted tokens, each opening with a quote character the other lacks |
| `Rewriter.SpaceRun` | packages/cli-rs/src/main.rs:40-41 | the greedy `[\s]*`: the longest whitespace prefix of the text |
| `Rewriter.ArrowWrap` | packages/cli-rs/src/main.rs:81-82 | `=>` + whitespace `w` (newlines included) + variant becomes `=>` + the same `w` + `(` + json + `)`, and the scan goes on after it |
| `Rewriter.ArrowPopulated` | packages/cli-rs/src/main.rs:81-83 | after both rewrites, `=>`, whitespace and the variant become `=>`, the same whitespace and the map in parentheses, and nothing else changes; for any map that does not hold the variant (`{"FOO":"foo"}` included) and any text around it without the variant's quote, `=` and arrows included (`const f = () => …`) |
| `Rewriter.PlainSubstitution` | packages/cli-rs/src/main.rs:81-83 | a placeholder not preceded by `=>` and whitespace becomes the bare serialised map and the text around it is kept; `>` elsewhere (comparisons, JSX, HTML) is allowed |
| `Rewriter.PopulateUnchanged` | packages/cli-rs/src/main.rs:81-84 | a text without the variant is returned byte-identical |
| `Rewriter.PopulateRemoves` | packages/cli-rs/src/main.rs:81-83 | after the populate step no occurrence of the variant is left, when the map's text does not contain it |
| `Rewriter.PopulateKeepsAbsent` | packages/cli-rs/src/main.rs:81-83 | populating one variant creates no occurrence of a variant that was absent |
| `Rewriter.PopulateKeepsPresent` | packages/cli-rs/src/main.rs:81-83 | populating one variant carries any occurrence of the other variant through |
| `Pattern.ReplaceFirst` | packages/vite/src/index.ts:141 | `replace` with a string replaces only the first occurrence; with none the text is unchanged |
| `VitePlugin.Unique` | packages/vite/src/index.ts:12-20 | the sentinel has 256 characters, begins with `import_meta_env_unique_id_`, and the rest is `x` |
| `VitePlugin.PreserveViteBuiltInEnv` | packages/vite/src/index.ts:61-68 | the loop over the six keys hides each key's matches behind `unique.<KEY>` in turn, as `Preserve` |
| `VitePlugin.RestoreViteBuiltInEnv` | packages/vite/src/index.ts:70-77 | the loop over the six keys brings each hidden key back, as `Restore` |
| `VitePlugin.DevTransform` | packages/vite/src/index.ts:50-59 | the virtual id and `node_modules` ids are returned unchanged; others are rewritten with the environment's JSON |
| `VitePlugin.DevelopmentTransform` | packages/vite/src/index.ts:50-77 | the imperative transform, reassigning `code`, equals `DevTransform` |
| `VitePlugin.PrependImport` | packages/vite/src/index.ts:138-141 | the result begins with the import line |
| `VitePlugin.LineClose` | packages/vite/src/index.ts:144 | the lazy `.*?\>`: the first `>` on the same line, or none before a line terminator |
| `VitePlugin.ScriptTag` | packages/vite/src/index.ts:144 | the leftmost `<script` whose line has a `>` after it |
| `VitePlugin.AfterScriptTagAt` | packages/vite/src/index.ts:143-146 | the import goes on a new line right after the first `<script …>` tag's `>`; the rest of the code is kept |
| `VitePlugin.ProdTransform` | packages/vite/src/index.ts:136-166 | the virtual id and `node_modules` ids are returned unchanged |
| `VitePlugin.ProductionTransform` | packages/vite/src/index.ts:136-166 | the imperative transform equals `ProdTransform` |
| `VitePlugin.ResolveId` | packages/vite/src/index.ts:105-117 | throws iff `ssr`; both `import-meta-env` and the virtual id resolve to the virtual id; otherwise nothing |
| `VitePlugin.Load` | packages/vite/src/index.ts:118-135 | only the virtual id loads: a hash-check line first, ending with `const e = __import_meta_env_placeholder__;` and `export default e;` |
| `ViteProperties.KeyRefKept` | packages/vite/src/index.ts:149-163 | every `import.meta.env.K` for an inline key K survives both transforms' rewrite, and the text on either side is rewritten independently |
| `ViteProperties.EnvRefReplaced` | packages/vite/src/index.ts:54 | any other `import.meta.env` becomes the replacement (JSON in dev, `unique` in production) |
| `ViteProperties.OtherKeyReplaced` | packages/vite/src/index.ts:54 | `import.meta.env.NAME` becomes the replacement followed by `.NAME`, for any name that does not start with an inline key and in which no further `import.meta.env` (dots as wildcards) or sentinel starts; lower-case names such as `VITE_api_key` included |
| `ViteProperties.LongerKeyKept` | packages/vite/src/index.ts:61-77 | a name that merely begins with an inline key is kept whole, for any tail in which no `import.meta.env` (dots as wildcards) or sentinel starts: `import.meta.env.DEVICE` is preserved via `DEV` |
| `ViteProperties.InertUnchanged` | packages/vite/src/index.ts:50-77 | text in which no pattern can match is left as it is |
| `ViteProperties.LineSplit` | packages/vite/src/index.ts:149-163 | no pattern spans a line terminator, so the rewrite works line by line |
| `ViteProperties.ImportSealed` | packages/vite/src/index.ts:139-163 | the import statement the build adds is never rewritten, and the rewrite splits around it |
| `ViteProperties.ProdJsResult` | packages/vite/src/index.ts:136-166 | a script module's result is the import line, then the rewrite of its code with the first earlier import line removed |
| `ViteProperties.ProdVueResult` | packages/vite/src/index.ts:142-166 | a Vue component gets the import line right after its first `<script …>` tag, and the text on each side is rewritten apart |
| `ViteProperties.PrependIdempotent` | packages/vite/src/index.ts:138-141 | prepending twice equals prepending once: the import line is never duplicated |
| `ViteProperties.JsVueExclusive` | packages/vite/src/index.ts:193-197 | no id is both a script id and a Vue id |
| `ViteProperties.ScriptId` | packages/vite/src/index.ts:193-197 | `src/main.ts` is a script id and not a Vue id |
| `ViteProperties.TemplateId` | packages/vite/src/index.ts:193-195 | an id containing `?vue&type=template` is never a script id, whatever it ends in |
| `ViteProperties.HtmlRemovesSentinel` | packages/vite/src/index.ts:167-170 | the page `transformIndexHtml` returns holds no sentinel |
| `ViteProperties.HtmlRoundTrip` | packages/vite/src/index.ts:156-170 | turning `import.meta.env` into `unique` is undone by `transformIndexHtml` on text that held no sentinel |
| `ViteProperties.WildcardDots` | packages/vite/src/index.ts:64 | as written, `import_meta_env_MODE` (no `import.meta.env`, no sentinel) comes out as `import.meta.env.MODE` |
| `ViteProperties.FixedUnchanged` | packages/vite/src/index.ts:64 | with the dots escaped, text holding neither `import.meta.env` nor the sentinel is left unchanged |
| `ViteProperties.AstralNotWildcard` | packages/vite/src/index.ts:64 | a `.` of a key pattern takes one UTF-16 code unit, so `import😀meta😀env😀MODE` is not matched as `import.meta.env.MODE` |

## Left out

- Glob expansion is the parameter `Expand`: a pattern and the existing paths give `None` for invalid syntax, or the iterator's items. Rust's lazy directory walk is taken to expand against the files present when each pattern starts.
- Parsing of the example file and the env file (dotenv), and the process environment. The example keys are a `seq<string>` and the post-load environment is a `map`; precedence between the env file and existing variables is dotenv's concern.
- The iteration order of serde_json's `HashMap` is the parameter `order`, which must list each key once.
- Populate.Run: requires that no resolved key or value contain `$`. In the arrow template `=>$1(<json>)` a `$` would be read as a group reference, and template expansion is not modelled.
- VitePlugin.DevTransform: requires `'$' !in json`, for the same reason with `String.prototype.replace`.
- VitePlugin.DevelopmentTransform: requires `'$' !in json`, as `DevTransform` does.
- Write failures (`Failed to backup file`, `Failed to write output file`) are not modelled: writes always succeed. A read failure of a matched path is modelled as the path being absent from the file map. This covers a directory, a vanished file, and non-UTF-8 contents.
- A matched path whose name is not valid UTF-8 makes `into_string().unwrap()` panic (main.rs:47-51 and 57-59). The model's paths are `string`s, so such a name and its panic cannot be expressed.
- `std::fs::copy` onto a matched path that has vanished would recreate it. The model copies only onto a readable file.
- Panics and exit codes are `Failed` outcomes carrying the message. Clap parsing, `--help` and `--version` are left out.
- Vite's `config`, `configResolved`, `apply` and `closeBundle` hooks are left out. So are logging and `picocolors`. `getPackageManagerExecCommand` and `./env`'s `resolve` are not part of this model. `JSON.stringify(env)` is the parameter `json`. `object-hash` is the parameter `hashValue` of `Load`.
- Strings are sequences of Unicode scalar values, while JavaScript strings are sequences of UTF-16 code units. The regex `.` is modelled as one code unit: any character below U+10000 other than a line terminator. This is exact for the plugin's patterns, where every `.` is followed by a literal ASCII character. A lone surrogate in a module's text cannot be expressed.
- `isTransformingJs` and `isTransformingVue` ignore their `code` argument, so the model omits it.

## Findings

| source | as written | input that shows it | evidently intended | confidence | as-written member | corrected member |
|---|---|---|---|---|---|---|
| packages/cli-rs/src/main.rs:39-84 | the variant loop is outermost; restore and backup check only the current variant | a file holding both `"__import_meta_env_placeholder__"` and `'__import_meta_env_placeholder__'`, with no backup | both variants replaced in one pass per file, restore and backup on either variant | medium; not executed | `Populate.BothVariantsLeaveDouble` | `Populate.StepBothReplacesAll` |
| packages/vite/src/index.ts:64 | the key expression built from the template `import.meta.env.${key}` leaves its dots unescaped, so each matches any UTF-16 code unit other than a line terminator | `import_meta_env_MODE` is rewritten to `import.meta.env.MODE` | literal dots, as in `/import\.meta\.env/g` on line 54 | medium; not executed | `ViteProperties.WildcardDots` | `ViteProperties.FixedUnchanged` |
