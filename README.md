# Dependency checker: layering rules, in Dafny

This project models the core of `dependency-checker`, a Gradle plugin. The
plugin checks the dependency graph of a multi-module build against an
ordered list of architectural layers. Every module belongs to a layer
through the `layerModules` map. A project dependency on a module whose
layer comes *later* in `sortLayers` than the current module's layer is a
violation. For each violation the task records a line
`cur (L) --> dep (L)` in an insertion-ordered set, and the report turns
each line into a table row with two cells.

Files:

- `wrappers.dfy`: `Option`, which stands for Kotlin's nullable types.
- `kotlin_strings.dfy`: the Kotlin library string operations the plugin
  uses:
  - `indexOf` (`Find`);
  - `split` on one delimiter (`Split`, with `Join` as its inverse);
  - `trim` (`Trim`, with `Char.isWhitespace` written out as a character set).
- `dependency_checker_helper.dfy`:
  - `extractProjectInfo`, which strips Gradle's `project '...'` decoration;
  - the per-violation row logic of `generateHtml`.
- `dependency_check_task.dfy`:
  - `resolveLayer` and `isCrossLayerViolation` as functions;
  - the Gradle graph as plain data (`Configuration`, `Dependency`);
  - the task as a class whose `InitConfig` and `Check` methods change its
    two private fields;
  - `check()`'s two nested loops as methods, proved against the
    specification functions `Candidates`, `AllCandidates` and `Violations`.

Modelling choices:

- `layerModules` is a Kotlin `LinkedHashMap`, and `find` returns its first
  matching entry in insertion order. The map is therefore a sequence of
  `LayerEntry` values.
- The violation set is a `LinkedHashSet`. It is a sequence without repeats:
  `SetAdd` appends a new line and ignores a known one.
- `resolveLayer` takes a `String?`. A `null` module resolves to no layer.
- `extractProjectInfo` is declared `String?` but always returns a value.
  The model returns `Option` and proves `Some`.
- `sortLayers` and `layerModules` are `lateinit` properties that the plugin
  always sets before the task runs. The constructor takes all three
  settings. It starts `sortLayersList` as the empty list and
  `crossLogicLayer` as `None`.

What the proofs show about the rules:

- The cross-layer exemption fires when
  `curIdx >= crossIdx && depIdx <= crossIdx`. That already implies
  `depIdx <= curIdx`, where the plain rule also says "allowed". So the
  cross layer never changes the verdict. The contract of
  `IsCrossLayerViolation` states the verdict with no reference to the cross
  layer, and `CrossBranchAgrees` states it on bare integers, `-1` included.
- A layer name missing from `sortLayers` is at index `-1`. When the
  configured cross-layer module cannot be placed in any layer, `initConfig`
  leaves the cross layer `null` and the plain rule applies directly. When
  it resolves to a layer that is not in `sortLayers`, the code still takes
  the exemption branch with index `-1` instead of skipping it. The outcome
  is the same as skipping it, because of the point above.

## Model

| member | source | states |
|---|---|---|
| KotlinStrings.Find | src/main/java/com/hermes/dependency/checker/DependencyCheckerHelper.kt:30 | the first position where the delimiter occurs: it occurs there, nowhere earlier, and `None` exactly when it does not occur at all |
| KotlinStrings.FindFirst | src/main/java/com/hermes/dependency/checker/DependencyCheckerHelper.kt:30 | any position that is an occurrence with none before it is what `Find` returns |
| KotlinStrings.Split | src/main/java/com/hermes/dependency/checker/DependencyCheckerHelper.kt:4 | `split` gives at least one piece; it gives two or more exactly when the delimiter occurs; no piece contains the delimiter |
| KotlinStrings.SplitJoin | src/main/java/com/hermes/dependency/checker/DependencyCheckerHelper.kt:30 | joining the pieces of a split with the delimiter gives back the original string |
| KotlinStrings.SplitFirstTwo | src/main/java/com/hermes/dependency/checker/DependencyCheckerHelper.kt:4-5 | at the first occurrence `i`, piece 0 is the text before `i` and piece 1 runs from after the delimiter to the next occurrence or the end |
| KotlinStrings.FirstPiece | src/main/java/com/hermes/dependency/checker/DependencyCheckerHelper.kt:30-32 | the first piece of a split is a prefix that holds no occurrence and is followed by one or by the end |
| KotlinStrings.ContainsChar | src/main/java/com/hermes/dependency/checker/DependencyCheckerHelper.kt:4 | splitting on a one-character string finds an occurrence exactly when the character is in the input |
| KotlinStrings.NoOccurrenceAcross | src/main/java/com/hermes/dependency/checker/DependencyCheckerHelper.kt:30 | a character outside the delimiter, glued between two strings that hold no occurrence, creates none |
| KotlinStrings.IsWhitespace | src/main/java/com/hermes/dependency/checker/DependencyCheckerHelper.kt:31-32 | `Char.isWhitespace`, the test `trim()` uses: the space counts; letters, digits and the characters `:-_>()'` of paths, layer names and the line template do not |
| KotlinStrings.TrimStart | src/main/java/com/hermes/dependency/checker/DependencyCheckerHelper.kt:31 | the result is empty or starts with a non-whitespace character |
| KotlinStrings.TrimStartSuffix | src/main/java/com/hermes/dependency/checker/DependencyCheckerHelper.kt:31 | the result is a suffix of the input, and what was dropped is all whitespace |
| KotlinStrings.TrimEnd | src/main/java/com/hermes/dependency/checker/DependencyCheckerHelper.kt:31 | the result is empty or ends with a non-whitespace character |
| KotlinStrings.TrimEndPrefix | src/main/java/com/hermes/dependency/checker/DependencyCheckerHelper.kt:31 | the result is a prefix of the input, and what was dropped is all whitespace |
| KotlinStrings.Trim | src/main/java/com/hermes/dependency/checker/DependencyCheckerHelper.kt:31-32 | `trim()` leaves no whitespace at either end |
| KotlinStrings.TrimCore | src/main/java/com/hermes/dependency/checker/DependencyCheckerHelper.kt:31-32 | trimming whitespace around a core with visible ends gives exactly the core |
| DependencyCheckerHelper.ExtractProjectInfo | src/main/java/com/hermes/dependency/checker/DependencyCheckerHelper.kt:3-6 | never `null`; an input without a quote comes back unchanged; the result never contains a quote |
| DependencyCheckerHelper.ExtractBetweenQuotes | src/main/java/com/hermes/dependency/checker/DependencyCheckerHelper.kt:4-5 | with a first quote at `i`, the result is the text after it up to the second quote, or to the end of the input when there is only one quote |
| DependencyCheckerHelper.ExtractDisplayName | src/main/java/com/hermes/dependency/checker/DependencyCheckerHelper.kt:3-6 | the display name `project '<path>'` gives back `<path>` |
| DependencyCheckerHelper.ExtractIdempotent | src/main/java/com/hermes/dependency/checker/DependencyCheckerHelper.kt:4-5 | extracting twice is the same as extracting once |
| DependencyCheckerHelper.ViolationRow | src/main/java/com/hermes/dependency/checker/DependencyCheckerHelper.kt:30-32 | a line without `-->` gives the trimmed line and an empty second cell, not an error; the cells never start or end with whitespace |
| DependencyCheckerHelper.ViolationRowCells | src/main/java/com/hermes/dependency/checker/DependencyCheckerHelper.kt:30-32 | with the first arrow at `i`, cell one is the trimmed text before it and cell two the trimmed text after it, up to the next arrow |
| DependencyCheckerHelper.TableRows | src/main/java/com/hermes/dependency/checker/DependencyCheckerHelper.kt:28-39 | exactly one row per violation line, in the set's iteration order |
| DependencyCheck.IndexOf | src/main/java/com/hermes/dependency/checker/DependencyCheckTask.kt:101-102 | `indexOf` is -1 exactly when the layer is absent; otherwise the layer is at that index and nowhere before it |
| DependencyCheck.ResolveLayer | src/main/java/com/hermes/dependency/checker/DependencyCheckTask.kt:90-94 | some layer exactly when the module is non-null and in some entry's set; the layer is the key of the first entry, in map order, whose set contains the module |
| DependencyCheck.ResolveContainingLayer | src/main/java/com/hermes/dependency/checker/DependencyCheckTask.kt:90-94 | when no module is in two layers, a module resolves to the layer that contains it |
| DependencyCheck.IsCrossLayerViolation | src/main/java/com/hermes/dependency/checker/DependencyCheckTask.kt:96-112 | false when either layer is null; otherwise exactly `indexOf(dep) > indexOf(cur)`, with or without a cross layer; never a violation between equal layers; always one from a layer outside the ordering to a layer in it |
| DependencyCheck.CrossBranchAgrees | src/main/java/com/hermes/dependency/checker/DependencyCheckTask.kt:103-111 | for all indexes, `-1` included, the cross-layer branch returns what the plain rule returns |
| DependencyCheck.LaterLayerViolates | src/main/java/com/hermes/dependency/checker/DependencyCheckTask.kt:101-111 | in an ordering without repeats, depending on a later layer is a violation and depending on an earlier one is not |
| DependencyCheck.ViolationLine | src/main/java/com/hermes/dependency/checker/DependencyCheckTask.kt:48-54 | the violation line starts with the current module, ends with the dependency's layer and `)`, has the length of its four parts plus the 11 template characters, and holds the arrow right after `cur (L) ` |
| DependencyCheck.EdgeViolation | src/main/java/com/hermes/dependency/checker/DependencyCheckTask.kt:37-55 | a non-project dependency contributes no line |
| DependencyCheck.EdgeViolationOfPaths | src/main/java/com/hermes/dependency/checker/DependencyCheckTask.kt:40-55 | for `project '<path>'` display names, the verdict is taken on the layers of the two paths, and the line is `cur (L) --> dep (L)` built from the bare paths |
| DependencyCheck.ExampleResolves | src/main/java/com/hermes/dependency/checker/DependencyCheckTask.kt:90-94 | on the layers `L1 < L2 < L3`, `:core` is in `L1`, `:app` in `L3`, and `:root` in none |
| DependencyCheck.ExampleVerdicts | src/main/java/com/hermes/dependency/checker/DependencyCheckTask.kt:96-112 | `L1` may not depend on `L3`; `L3` may depend on `L1`, with or without `L2` as cross layer |
| DependencyCheck.ViolationLineExample | src/main/java/com/hermes/dependency/checker/DependencyCheckTask.kt:49-53 | the line for `:core` in `L1` depending on `:app` in `L3` is `:core (L1) --> :app (L3)` |
| DependencyCheck.LayeringExampleViolation | src/main/java/com/hermes/dependency/checker/DependencyCheckTask.kt:40-55 | `project ':core'` depending on `project ':app'` yields that line |
| DependencyCheck.LayeringExampleAllowed | src/main/java/com/hermes/dependency/checker/DependencyCheckTask.kt:40-55 | `project ':app'` depending on `project ':core'` yields no line, with or without `L2` as cross layer |
| DependencyCheck.SetAdd | src/main/java/com/hermes/dependency/checker/DependencyCheckTask.kt:48 | adding to the set keeps every element, adds the new one, and keeps the set free of repeats |
| DependencyCheck.AddAll | src/main/java/com/hermes/dependency/checker/DependencyCheckTask.kt:33-58 | adding a run of lines gives the union, keeps the earlier elements in front, and keeps the set free of repeats |
| DependencyCheck.AddAllAppend | src/main/java/com/hermes/dependency/checker/DependencyCheckTask.kt:33-58 | adding two runs one after the other is adding their concatenation |
| DependencyCheck.Violations | src/main/java/com/hermes/dependency/checker/DependencyCheckTask.kt:31 | duplicate violation lines collapse: the set holds no line twice |
| DependencyCheck.CandidatesMembership | src/main/java/com/hermes/dependency/checker/DependencyCheckTask.kt:36-56 | a line comes from a list of dependencies exactly when some dependency in it produces that line |
| DependencyCheck.AllCandidatesMembership | src/main/java/com/hermes/dependency/checker/DependencyCheckTask.kt:33-58 | a line comes from the configurations exactly when some resolvable configuration produces it; unresolvable ones contribute nothing |
| DependencyCheck.ViolationsMembership | src/main/java/com/hermes/dependency/checker/DependencyCheckTask.kt:33-58 | a line is in the violation set exactly when some project dependency of some resolvable configuration produces it |
| DependencyCheck.ProjectDependencies | src/main/java/com/hermes/dependency/checker/DependencyCheckTask.kt:37-39 | the filter keeps exactly the project dependencies |
| DependencyCheck.OnlyProjectDependenciesCount | src/main/java/com/hermes/dependency/checker/DependencyCheckTask.kt:37-39 | dropping every non-project dependency changes no line and no line's position |
| DependencyCheck.FormattedViolationRow | src/main/java/com/hermes/dependency/checker/DependencyCheckerHelper.kt:30-32 | the row of a line built by `check()` has `cur (L)` as its first cell and `dep (L)` as its second |
| DependencyCheck.SplitAtArrow | src/main/java/com/hermes/dependency/checker/DependencyCheckerHelper.kt:30-32 | a line `a --> b`, with no arrow in `a` or `b` and both already trimmed, gives the row `(a, b)` |
| DependencyCheck.DependencyCheckTask.constructor | src/main/java/com/hermes/dependency/checker/DependencyCheckTask.kt:16-27 | the three settings are stored; the cross layer starts as `null` |
| DependencyCheck.DependencyCheckTask.InitConfig | src/main/java/com/hermes/dependency/checker/DependencyCheckTask.kt:64-69 | `sortLayersList` becomes `sortLayers`; the cross layer becomes the layer of the cross-layer module when one is configured, and is unchanged otherwise |
| DependencyCheck.DependencyCheckTask.Check | src/main/java/com/hermes/dependency/checker/DependencyCheckTask.kt:30-62 | after `initConfig`, the violation set is `Violations` of the configured rules; a report is made only when the set is not empty, and its rows are the table rows of the set |
| DependencyCheck.DependencyCheckTask.CheckConfigurations | src/main/java/com/hermes/dependency/checker/DependencyCheckTask.kt:33-58 | the outer loop builds exactly `Violations`, skipping configurations that cannot be resolved |
| DependencyCheck.DependencyCheckTask.CheckDependencies | src/main/java/com/hermes/dependency/checker/DependencyCheckTask.kt:36-56 | the inner loop adds exactly the lines of the configuration's dependencies to the set, in order |

## Left out

- The Gradle plugin wiring (`DependencyCheckerPlugin.kt`) and the extension class (`DependencyLayerExtension.kt`). They only register the task and assign the extension's three settings to it; the task then shares the extension's list and map, which nothing changes during a run. The task's constructor stands for that step.
- `generateReport` is left out: directory and file creation, writing the file, and logging are file I/O. `Check` returns the rows the report would hold in place of writing it.
- The fixed HTML and CSS text around the rows of `generateHtml`. It does not depend on the violations.
- The `println` debug lines do not change behaviour.
- Gradle's API (`project.configurations`, `isCanBeResolved`, `dependencyProject.displayName`) becomes input data: a sequence of configurations, each with a resolvable flag and a sequence of dependencies that are project dependencies or not.
- Forbid lists and per-layer cross layers. No modelled file implements them.
- `lateinit` access before initialisation: the plugin always sets the settings, so an uninitialised-property exception is not modelled.
- FormattedViolationRow: proved only when the module names and layers hold no `-->` and the module names start with a non-whitespace character. Other names can make the report split a line elsewhere.
