# execli task selection and context, in Dafny

execli runs a tree of titled tasks from the command line. Command tasks
run a shell command, regular tasks run a function, and parent tasks run
their children, one after the other or concurrently. Users narrow a run
with `--skip`, `--only` and `--tag`, can ask for a `--dry-run`, and the
tasks share a context that grows as the run descends.

This project models the sequential, deterministic part of that engine and
proves its properties:

- the flat title table built from the tree (`buildFlatTasks`) and its
  duplicate-title check;
- the static filter walk (`buildStaticallySkippedTasks`), which marks tasks
  `skip`, `only` or `tag`;
- the `skip()` function each kind of task gets:
  - how a task's own skip result is normalised;
  - the order in which reasons are reported;
  - the parent rule "All children are skipped";
- the output-line guard, the dry-run title of a command task and the
  concurrency option of a parent's children;
- the context:
  - the user's view of it;
  - the holder with `add`, `addSecret`, `copy` and `get`, as a class;
  - a parent task's own holder;
  - `hideSecrets`;
- command rendering and error formatting: `ExecError`, `toDetailedError`,
  `getEnvironmentString`, `getCommandString` and the command echo of `exec`;
- the option choices of `getInternalOptions` and `coerceSlugToTitle`;
- the older engine of `src/run.ts`, kept in a module of its own.

Modules, one per file:

| module | covers |
|---|---|
| `Wrappers` | `Option` and `Result` |
| `PlainObjects` | what `in` and a key read see on a table created as `{}` |
| `Strings` | JavaScript `split`/`join` on strings, replace-all, occurrence |
| `StringLists` | duplicate-free string lists and "add unless present" |
| `Ordering` | the default string order of `Array.prototype.sort` and a sort by it |
| `Context` | the context and secret redaction |
| `TaskTree` | the task tree, positions in it, title uniqueness, dispatch |
| `Flatten` | `buildFlatTasks` |
| `StaticSkip` | `buildStaticallySkippedTasks` |
| `SkipRules` | the `skip()` functions, output lines and the children's concurrency option |
| `Exec` | error formatting and command rendering |
| `Commands` | the internal options |
| `LegacyRun` | the older engine |

Platform-dependent and foreign pieces are parameters:

- `process.platform` is a `Platform` value.
- `os.EOL` follows from the platform.
- `path.relative(process.cwd(), ·)` is a function parameter.
- `slugify(title.toLowerCase())` is a function parameter.
- `isInteractive()` is a boolean parameter.

The user's `skip`, `addContext` and `run` functions become given functions
or their given outcomes.

## Model

| member | source | states |
|---|---|---|
| Context.GetUserContext | src/context.ts:23-44 | the user's view holds every key of the context except `$0`, `_`, `dry-run`, `dryRun`, `from`, `only`, `secrets`, `skip`, `tag` and `until` (so `debug` stays), each with its value |
| Context.Merge | src/context.ts:60-69 | merging inserts or overwrites every added key except `debug` and the internal keys, and every other key keeps its current value |
| Context.ContextHolder.constructor | src/context.ts:54-57 | a new holder starts from the initial context, with `secrets` defaulting to `[]` |
| Context.ContextHolder.Get | src/context.ts:77-79 | the snapshot holds the fields and `secrets` |
| Context.ContextHolder.Add | src/context.ts:60-70 | the fields become the merge of the old fields with the added context; the secrets are unchanged |
| Context.ContextHolder.AddSecret | src/context.ts:71-73 | the secret is appended at the end of `secrets`; nothing else changes |
| Context.ContextHolder.Copy | src/context.ts:74-76 | the copy is a new holder whose snapshot equals the original's |
| Context.CopiesAreIndependent | src/context.ts:57-79 | after a copy, `add` and `addSecret` on either holder leave the other's fields and secrets as they were |
| Context.ParentContext | src/tasks.ts:471-601 | the parent's own holder starts as a copy, and the given holder is left unchanged; with neither `addContext` nor `background`, or in a dry run, its snapshot equals the given one; otherwise the secrets `addContext` reports are appended in order, the context it returns is merged, and then the groups captured by the background process are merged |
| Context.Mask | src/context.ts:94 | the mask is `min(20, length)` asterisks |
| Context.HideSecrets | src/context.ts:85-98 | the loop applies each secret's split/join to the text in list order |
| Context.EmptySecretIsNoOp | src/context.ts:92-94 | an empty secret leaves the text as it is |
| Context.HideSecretReplacesAll | src/context.ts:92-94 | for a non-empty secret, split-then-join replaces every non-overlapping occurrence, left to right, by the mask |
| Context.RedactionKeepsAbsent | src/context.ts:91-95 | a non-empty string without `*` that is absent from the text is still absent after redaction |
| Context.RedactedHidesSecrets | src/context.ts:85-98 | no non-empty secret without `*` occurs in the redacted text |
| Context.StarredSecretCanSurvive | src/context.ts:91-95 | a secret holding `*` can be recreated by a later mask: redacting `xy` with `x*` then `y` yields `x*` |
| TaskTree.Dispatch | src/tasks.ts:620-634 | a task with `command` is a command task, else one with `run` is a regular task, else it is a parent |
| TaskTree.DispatchFollowsDeclaration | src/tasks.ts:355-363 | each declared kind of task is dispatched to its own constructor |
| Flatten.BuildFlatTasks | src/tasks.ts:133-158 | the walk succeeds exactly when the tree's titles are pairwise different and not yet filed; the table then gains exactly the tree's entries; otherwise the error names a title of the tree that is already filed or sits at two places in the tree |
| Flatten.IndexKeys | src/tasks.ts:143-155 | the titles filed are exactly the titles of the tree |
| Flatten.IndexByPath | src/tasks.ts:143-155 | each task's entry names its parent's title (none for the root), lists a parent's child titles in declaration order, and carries a leaf's tags |
| Flatten.ParentOfIsLastAncestor | src/tasks.ts:151-155 | the parent title filed for a task is its nearest ancestor's title, and the root has none |
| PlainObjects.InPlainObject | src/tasks.ts:139 | on a table created as `{}`, `in` finds the own keys and every name inherited from `Object.prototype`, and nothing else |
| PlainObjects.ReadPlainObject | src/commands.ts:79 | reading a key of such a table gives the own value for an own key, the inherited member for an inherited name, and nothing otherwise |
| Flatten.LoneConstructorRejectedAsWritten | src/tasks.ts:136-141 | a single task titled `constructor` has no repeated title, yet the guard as written refuses it |
| StaticSkip.BuildStaticallySkippedTasks | src/tasks.ts:170-209 | the walk over the flat table adds to the marks exactly the marks the tree resolver gives the subtree |
| StaticSkip.StaticallySkippedTasks | src/tasks.ts:662-672 | starting from the root, it fails exactly when a title repeats; otherwise it yields the resolver's marks for the whole tree |
| StaticSkip.Resolve | src/tasks.ts:170-209 | only titles of the tree are marked, and a task listed in `--skip` is marked `skip` with nothing below it |
| StaticSkip.ResolveByPath | src/tasks.ts:179-206 | the mark the walk leaves on a task is fixed by its own title and tags and its ancestors' titles: none below a `--skip` title, `skip` on a listed task, none on other parents, and on leaves `only` or `tag` as `--only` and `--tag` decide |
| StaticSkip.SkipMarkIff | src/tasks.ts:185-186 | a task is marked `skip` exactly when it is listed in `--skip` and no ancestor is |
| StaticSkip.NothingMarkedBelowSkip | src/tasks.ts:185-196 | nothing below a task listed in `--skip` gets a mark |
| StaticSkip.ParentsOnlyMarkedSkip | src/tasks.ts:187-196 | a parent can only be marked `skip` |
| StaticSkip.OnlyMarkIff | src/tasks.ts:197-198 | a leaf is marked `only` exactly when `--only` is given, neither it nor an ancestor is listed there, and `--skip` spares it and its ancestors |
| StaticSkip.TagMarkIff | src/tasks.ts:199-205 | a leaf is marked `tag` exactly when it is not marked `skip` or `only`, a tag filter is given, and none of the requested tags is its own; under a tag filter an untagged leaf is always marked |
| SkipRules.SkipReasonInjective | src/tasks.ts:211-212 | different options give different reasons |
| SkipRules.Normalize | src/tasks.ts:238-246 | `true` becomes "Tasked skipped itself", a string is kept, anything else passes through, and truthiness is preserved |
| SkipRules.NormalizeIdempotent | src/tasks.ts:238-246 | normalising an already normalised result changes nothing |
| SkipRules.Or | src/tasks.ts:254-255 | `a \|\| b` is truthy exactly when either is, and it is `a` when `a` is truthy |
| SkipRules.OnlyOrTagReason | src/tasks.ts:214-226 | an `only` or `tag` mark gives its reason; any other mark or none gives a falsy value |
| SkipRules.OwnSkip | src/tasks.ts:228-236 | a task without a predicate gives `undefined` |
| SkipRules.OwnSkipIgnoresInternalKeys | src/tasks.ts:228-236 | the predicate sees the user's context only, so changing an internal key cannot change its answer |
| SkipRules.SkippableSkip | src/tasks.ts:340-353 | the wrapped skip is truthy exactly when the task is marked `skip` or the inner skip is truthy; a `skip` mark gives the `--skip` reason; `true` never comes out of a synchronous result |
| SkipRules.CommandSkip | src/tasks.ts:249-255 | a marked command task reports its mark's reason; an unmarked one reports its own normalised result |
| SkipRules.RegularSkip | src/tasks.ts:393-406 | a dry run gives the dry-run reason unless the task is marked `skip`; otherwise a mark gives its reason, and an unmarked task its own normalised result |
| SkipRules.StaticParentSkipReason | src/tasks.ts:424-444 | a parent has a static reason exactly when it is marked or all its children are statically skipped; the reason is never empty; a mark gives its own reason, and an unmarked parent whose children are all statically skipped gives "All children are skipped" |
| SkipRules.ParentSkip | src/tasks.ts:446-469 | a parent reports its static reason when it has one, and otherwise its own normalised result |
| SkipRules.TaskSkip | src/tasks.ts:340-469 | any task is skipped exactly when it is statically skipped, or it is a regular task in a dry run, or its own predicate is truthy; `true` never comes out of a synchronous result |
| SkipRules.SkipMarkWins | src/tasks.ts:346-349 | a `skip` mark yields "Skipped by --skip option" before anything else is consulted |
| SkipRules.MarkedTaskSkipped | src/tasks.ts:340-353 | every statically marked task is skipped |
| SkipRules.LeafSkipIff | src/tasks.ts:340-406 | a command or regular task is skipped exactly when it is marked, or it is regular and the run is dry, or its own predicate is truthy |
| SkipRules.LeafReasonOrder | src/tasks.ts:396-406 | the dry run is reported first for a regular task, then an `only`/`tag` mark, then the task's own normalised result |
| SkipRules.ParentSkipIff | src/tasks.ts:451-469 | a parent is skipped exactly when it is statically skipped or its own predicate is truthy |
| SkipRules.AllChildrenSkippedIff | src/tasks.ts:433-439 | the `every` holds exactly when each child is statically skipped |
| SkipRules.StaticallySkippedIffCovered | src/tasks.ts:424-444 | a task is statically skipped exactly when every path from it to a leaf passes a marked task |
| SkipRules.OpenLeafKeepsParent | src/tasks.ts:452-468 | a parent with an unmarked path to a leaf reports only its own predicate's result |
| SkipRules.LineBreakIffLineFeed | src/tasks.ts:333 | `/\r?\n/` matches exactly the lines that hold a line feed |
| SkipRules.OutputLine | src/tasks.ts:330-338 | a line is shown exactly when it holds no line feed; otherwise the error quotes it |
| SkipRules.AddDetailsToTaskTitle | src/tasks.ts:257-258 | the title and the details can be read back from the result |
| SkipRules.CommandOutcomeOf | src/tasks.ts:319-326 | in a dry run the command is not run: the title shows `$ ` and the command, and the reason is the dry-run reason |
| SkipRules.ChildrenConcurrency | src/tasks.ts:484 | under `debug` the option is `false`; otherwise it is the parent's setting, flag or number, and it is truthy exactly when that setting is |
| Exec.Trim | src/exec.ts:43-44 | the result is the infix of the input without the white space at both ends, and it has none at either end |
| Exec.TrimIdempotent | src/exec.ts:43-44 | trimming twice trims no more |
| Exec.NewExecError | src/exec.ts:40-45 | the message is "Command failed", `error` is kept as given, and both outputs are trimmed |
| Exec.DetailLines | src/exec.ts:49-56 | the error comes first; with outputs, "STDOUT:" and stdout follow only if stdout is non-empty, then "STDERR:" and stderr only if stderr is non-empty |
| Exec.ToDetailedError | src/exec.ts:47-58 | without outputs the message is exactly the `error` string |
| Exec.DetailedErrorLines | src/exec.ts:47-58 | when no part holds an end of line, the message splits back into its lines |
| Exec.EnvironmentStringShape | src/exec.ts:101-123 | with no variables the prefix is empty; on POSIX each `k=v` is followed by a space; on win32 each `SET k=v` is followed by `&&` |
| Exec.EnvironmentString | src/exec.ts:101-123 | no variables give no prefix; otherwise the prefix ends in `&&` on win32 and in a space elsewhere |
| Exec.CommandLineRoundTrip | src/exec.ts:134-136 | parts without spaces are joined so that splitting on spaces gives them back |
| Exec.CdPrefix | src/exec.ts:133 | the `cd <relative> && ` prefix appears exactly when a non-empty `cwd` is set |
| Exec.CommandStringHidesSecrets | src/exec.ts:125-137 | no non-empty secret without `*` shows in the rendered command |
| Exec.CommandString | src/exec.ts:125-137 | with no secrets the rendered command is the plain one |
| Exec.PlainCommandRoundTrip | src/exec.ts:125-137 | with no secrets, no `cwd` and no `env`, the rendered command is the parts joined by spaces |
| Exec.ExecEcho | src/exec.ts:144-149 | a silent command emits nothing; otherwise the rendered command is emitted as one line, which fails exactly when it holds a line feed |
| Commands.GetInternalOptions | src/commands.ts:52-117 | fails exactly when two titles share a slug, naming the first repeated slug; otherwise it builds the slug table and the sorted titles, and the sorted, duplicate-free union of all tags; defaults are `debug = !interactive`, `dryRun = false` and empty arrays |
| Commands.ClashStep | src/commands.ts:63-65 | after a clash-free prefix, a title's slug clashes exactly when it is already in the table |
| Commands.SlugMapLookup | src/commands.ts:67 | without clashes, each title's slug leads back to that title |
| Commands.SlugMapKeys | src/commands.ts:58-67 | the table's keys are exactly the slugs of the titles seen |
| Commands.CoerceSlugToTitle | src/commands.ts:78-79 | with the table's own keys only (the corrected reading): the length is kept, and each element is either kept or replaced by the title its slug maps to |
| Commands.CoerceKnownSlug | src/commands.ts:78-79 | the slug of a task with a non-empty title is replaced by that title |
| Commands.CoerceUnknown | src/commands.ts:78-79 | with the corrected reading, an element that is no task's slug is kept |
| Commands.CoerceIntoTitles | src/commands.ts:76-79 | with the corrected reading, titles and slugs come out as titles, so they are among the `--only`/`--skip` choices |
| Commands.CapitalisedConstructorRejectedAsWritten | src/commands.ts:56-65 | a single task titled `Constructor` passes the title check and has no slug clash, yet the slug guard as written refuses it |
| Commands.CoerceAsWritten | src/commands.ts:78-79 | as written, an element that is an inherited name and no own key becomes the inherited member, never a string; every other element is coerced as the corrected reading does |
| Commands.ToStringCoercedAsWritten | src/commands.ts:79 | for a task titled `toString`, no slug clashes and the corrected coercion yields the title, a choice, while the coercion as written yields `Object.prototype.toString` |
| StringLists.AddMissing | src/commands.ts:69-73 | the loop adds each tag not yet present, in order |
| StringLists.AppendNewFacts | src/run.ts:242-246 | the list stays duplicate-free, keeps its old contents as a prefix, and ends with exactly the old and the new elements |
| Ordering.Sort | src/commands.ts:76 | the result is sorted and a permutation of the input |
| LegacyRun.ShouldSkipByOnlyOrTagOption | src/run.ts:22-33 | skip when the task is not whitelisted, `only` is non-empty and the title is not in it; or when the task has tags, `tag` is non-empty and no requested tag is among them; an untagged task answers only to the first clause |
| LegacyRun.SkippableSkip | src/run.ts:45-59 | skipped exactly when the inner skip is truthy or the title is in `--skip` |
| LegacyRun.InnerSkip | src/run.ts:61-154 | a truthy own predicate always skips; a parent or a required regular task answers to its own predicate only; a command task without a truthy predicate follows the filters |
| LegacyRun.TaskSkipped | src/run.ts:45-154 | a task is skipped exactly when its own predicate is truthy, it is in `--skip`, it is a command task the filters exclude, or it is an optional regular task in a dry run or excluded by the filters |
| LegacyRun.ChildWhitelisted | src/run.ts:145 | a whitelisted parent passes the whitelist on, a parent listed in `--only` starts it, and nothing else does |
| LegacyRun.SkipListAlwaysSkips | src/run.ts:57 | a task listed in `--skip` is skipped, whatever its kind |
| LegacyRun.RequiredIgnoresFilters | src/run.ts:104-127 | a required regular task is skipped exactly when its own predicate is truthy or it is in `--skip` |
| LegacyRun.DryRunSkipsOptionalRegular | src/run.ts:117-120 | a regular task that is not required is skipped in a dry run |
| LegacyRun.ParentIgnoresFilters | src/run.ts:135-140 | a parent is skipped exactly when its own predicate is truthy or it is in `--skip` |
| LegacyRun.CommandFollowsFilters | src/run.ts:61-80 | a command task with no predicate, outside `--skip`, is skipped exactly when the filters say so |
| LegacyRun.UntaggedLeafContrast | src/run.ts:31-33 | under `--tag` an untagged leaf runs here, while the newer walk marks it `tag` |
| LegacyRun.RunsConcurrently | src/run.ts:150 | children run concurrently only when the parent asks for it and `debug` is off |
| LegacyRun.ConcurrencyAgrees | src/run.ts:150 | for a flag, the older engine's decision matches `!debug && concurrent` of the newer one |
| LegacyRun.WhitelistIffAncestorInOnly | src/run.ts:142-146 | a task is built as whitelisted exactly when one of its ancestors is listed in `--only` |
| LegacyRun.OnlyClauseByPath | src/run.ts:28-30 | an untagged leaf built from the root is filtered out exactly when `--only` is given and neither it nor an ancestor is listed |
| LegacyRun.AddAllTitleSlugsAndTags | src/run.ts:219-248 | the recursive walk yields exactly the pre-order slug test's outcome, with the leaves' tags added in order unless already present |
| LegacyRun.AddChildren | src/run.ts:237-240 | the walk over the children in order yields the slug test over their titles and their leaves' tags |
| LegacyRun.SlugPassFailsIff | src/run.ts:229-235 | with non-empty titles, the test fails exactly when a slug is already filed or two titles share a slug |
| LegacyRun.CollectedFailsIffSlugRepeats | src/run.ts:229-235 | from an empty table, a tree with non-empty titles is refused exactly when two titles share a slug |
| LegacyRun.EmptyTitleNeverBlocks | src/run.ts:231 | an empty title leaves a falsy entry, so a later title with the same slug passes |
| LegacyRun.CollectedTags | src/run.ts:241-246 | the tag list stays duplicate-free, keeps its earlier tags first, and ends with exactly those and the leaves' tags |
| LegacyRun.SlugPassTable | src/run.ts:235 | after the test, the table's keys are the earlier keys and the titles' slugs; each new key leads to a title with that slug, each earlier key keeps its value |
| LegacyRun.LegacyCoerceIntoTitles | src/run.ts:256-258 | with the corrected reading, titles and slugs come out of the coercion as titles of the tree |
| LegacyRun.SlugTruthyAsWritten | src/run.ts:231-233 | as written, the test fires on an own key with a non-empty title and on every name `{}` inherits, whose members are all truthy |
| LegacyRun.LegacyConstructorRejectedAsWritten | src/run.ts:229-233 | a single task titled `Constructor` passes the slug test, yet the test as written refuses it |
| LegacyRun.LegacyToStringCoercedAsWritten | src/run.ts:256-258 | a lone task titled `toString` passes the slug test even as written, the corrected coercion turns `toString` into its title, and the coercion as written turns it into `Object.prototype.toString` |

## Left out

- Running tasks is left out: the Listr scheduling and renderers, the writes to `taskWrapper.title`/`.skip`/`.output`, console logging in `handleError`, and the Listr wiring of concurrency. These belong to an external scheduler and UI. The decisions they act on are modelled: the skip results, the dry-run title, the `concurrent` option of a parent's children (src/tasks.ts:484 and src/run.ts:150) and the output-line guard.
- Spawning subprocesses is left out: execa, piping, converting execa errors, and the background-process support in src/background-process.ts. These are I/O and concurrency.
- Context.ParentContext takes the groups the background process captures as given. Starting and stopping that process (src/tasks.ts:488-572) is left out, and so is a failed start. A start that fails adds nothing.
- The `Proxy` probing of user getters during a dry run (src/tasks.ts:260-317) is left out. It depends on JavaScript proxy semantics and arbitrary user code. A command task's rendered command is taken as given.
- CPU counting, the yargs CLI wiring and bundling (src/get-cpu-count.ts, src/cli.ts, src/compile.ts) are left out: OS queries, dynamic imports and the file system.
- `--from`, `--until`, rollback and a concurrency option are left out. The context type names `from` and `until`, and `getUserContext` strips them, but no code in the modelled files computes them.
- Promises are left out: a task's own skip result is taken as already resolved. The source normalises only synchronous results (src/tasks.ts:238-246) and hands a Promise to Listr unchanged, so an async `true` reaches Listr as `true`. "`true` never comes out" in `SkippableSkip`, `CommandSkip`, `RegularSkip` and `TaskSkip` holds for synchronous results only.
- StaticSkip.BuildStaticallySkippedTasks requires the tree's titles to be unique. Every caller first runs `buildFlatTasks`, which throws otherwise. Under that requirement the NOP branch for an already marked title is never taken.
- Context.RedactedHidesSecrets is stated only for non-empty secrets without `*`. A later mask can recreate a secret that holds `*`, as `StarredSecretCanSurvive` shows.
- Exec.CommandStringHidesSecrets has the same restriction, for the same reason.
- Context.ContextHolder: the initial `secrets`, when present, is taken to be a list of strings. Another truthy value would be kept as it is by the source.
- Context.Mask: the mask has one `*` per character of the secret, at most 20. The source uses `secret.length`, which counts UTF-16 code units, so a secret outside the Basic Multilingual Plane, such as "😀", gets `**` there and `*` here.
- Ordering.Sort compares characters by code point. JavaScript compares UTF-16 code units, which agrees only within the Basic Multilingual Plane.
- Commands.GetInternalOptions takes `Object.entries(flatTasks)` as an ordered list of distinct titles. The engine's own reordering of integer-like keys is not modelled; it only decides which repeated slug the error names.
- Commands.CoerceIntoTitles assumes `slugify("") == ""`. It is stated, like `CoerceUnknown` and `CoerceKnownSlug`, of the corrected coercion. The coercion as written is `CoerceAsWritten`, listed under Findings.
- LegacyRun.LegacyCoerceIntoTitles assumes `slugify("") == ""`. It is stated of the corrected coercion.
- LegacyRun.SlugPassFailsIff is stated for non-empty titles. Empty titles behave as `EmptyTitleNeverBlocks` shows.
- The older `getInternalOptions` of src/run.ts:250-295 has the same shape as the one in src/commands.ts. Only its walk and its coercion are modelled. Its `debug` default reads `process.env.CI`.
- The corrected engine reads its tables by own keys everywhere: `Flatten`, `StaticSkip`, `SkipRules` and `Commands`. The source reads plain `{}` tables at src/tasks.ts:139, 183, 347, 428 and 437 and at src/commands.ts:63 and 79. Once the guard at src/tasks.ts:139 lets a title such as `constructor` through, the other reads differ from the model on it. For example, `staticallySkippedTasks["constructor"]` is truthy at src/tasks.ts:183, 428 and 437. Only src/tasks.ts:139, src/commands.ts:63 and 79 and src/run.ts:231 and 258 are modelled as written.
- TaskTree.Dispatch and Flatten disagree on a task that declares both `command` and `children`. Dispatch classifies it as a command task, while `buildFlatTasks` lists its children. The model's `Task` cannot hold both, so that case is not modelled.

## Findings

| source | as written | input that shows it | evidently intended | confidence | as-written member | corrected member |
|---|---|---|---|---|---|---|
| src/tasks.ts:139 | `task.title in flatTasks` tests a table created as `{}`, so `in` also finds the names `Object.prototype` provides | a tree of one task titled `constructor` (or `toString`, `valueOf`, …) is refused with "Two tasks have the same title" | only titles filed earlier count as taken; the reads of the same tables at src/tasks.ts:183, 347, 428 and 437 would need own-key lookups too | high; not executed | Flatten.LoneConstructorRejectedAsWritten | Flatten.BuildFlatTasks |
| src/commands.ts:63 | `slug in slugToTitle` tests a table created as `{}` | a single task titled `Constructor`, whose slug is `constructor`, is refused with "Two tasks have the same title slug" | only slugs recorded earlier count as taken | high; not executed | Commands.CapitalisedConstructorRejectedAsWritten | Commands.GetInternalOptions |
| src/run.ts:231 | `slugToTitle[slug]` on a `{}` table returns the inherited, truthy `constructor` | a single task titled `Constructor` is refused with "Two tasks have the same title slug" | only titles recorded earlier count as taken | high; not executed | LegacyRun.LegacyConstructorRejectedAsWritten | LegacyRun.AddAllTitleSlugsAndTags |
| src/commands.ts:79 | `slugToTitle[element] \|\| element` reads a `{}` table, so an inherited name that is no own key becomes the inherited member | a task titled `toString` (slug `tostring`) with `--only toString`: the element becomes `Object.prototype.toString`, which is no choice. This is reached once the guard of src/tasks.ts:139 lets the title through | an element that is no own key is kept | medium; not executed | Commands.ToStringCoercedAsWritten | Commands.CoerceIntoTitles |
| src/run.ts:258 | the same coercion on the older engine's `{}` table | a lone task titled `toString`, which passes the slug test of src/run.ts:231, and `--only toString`: the element becomes `Object.prototype.toString`, which is no choice | an element that is no own key is kept | high; not executed | LegacyRun.LegacyToStringCoercedAsWritten | LegacyRun.LegacyCoerceIntoTitles |
