# Package updater step and project item matcher

This project models two parts of the ASP.NET migration tool in Dafny.

**`PackageUpdaterStep`** is the migration step that updates a project's
NuGet package references.

- Initialize loads the package maps from a JSON file. It then reports the step
  *Incomplete* in two cases:
  - some package reference is contained in a map (it is outdated). The detail
    string gives the count.
  - the analyzer package `AspNetMigrator.Analyzers` is not referenced.
- Otherwise Initialize reports the step *Complete*.
- Apply opens the project tree and edits it in place, in this order:
  1. It removes every outdated package reference.
  2. It removes each item group that this leaves without children.
  3. It collects the `NetCorePackages` of the map that made each reference outdated.
  4. It appends each distinct collected package as a new `PackageReference`
     with `Version` metadata. They go to the first item group that still holds a
     package reference, or to a new item group at the end.
  5. It appends a reference to the analyzer package if none is present, ignoring case.
  6. It saves the project.

**`ProjectItemMatcher`** decides whether a project item's path matches in one of two ways:

- by a suffix, which is compared ignoring case;
- by a regular expression, which is applied to the path's file name only.

A default matcher throws `NotImplementedException`. A null input throws
`ArgumentNullException`.

How the model is organised:

- Modules:
  - `Runtime` holds the option, result and exception values.
  - `Text` holds ASCII case folding, `EndsWith` ignoring case, and decimal formatting.
  - `MsBuild` holds the project tree and the `ProjectRootElement` editing API.
  - `PackageMaps` holds the maps and the first-match lookup.
  - `PackageRewrite` holds the tree Apply saves, stated as functions.
  - `RewriteProperties` holds what is proved about that tree.
  - `PackageUpdater` holds the step class and its imperative Apply.
  - `StepProperties` relates Initialize to Apply.
  - `ProjectItemMatching` holds the matcher.
- Apply is a method with loops over a `ProjectRootElement` object.
  - It is proved to save exactly `Rewrite(...)`.
  - `Rewrite` is the functional definition, and the properties are proved about it.
- Initialize is a method that updates the step's `packageMaps` field.
  - Its outcome is `InitializeOutcome(...)`.
- The matcher is a value type in the source, so it is modelled as a datatype with pure functions.

A mismatch between the two phases is stated and proved:

- Initialize looks for the analyzer reference under its exact spelling
  (`p.Name.Equals(AnalyzerPackageName)`, at `PackageUpdaterStep.cs:197`).
- Apply accepts any spelling that differs only in case (`OrdinalIgnoreCase`, at `PackageUpdaterStep.cs:123`).
- `StepProperties.CaseMismatchNeverConverges` shows that a project in which nothing
  is outdated and which references the analyzer only as, say,
  `ASPNETMIGRATOR.ANALYZERS` is reported incomplete.
  Apply then saves that project unchanged.
- The model keeps both comparisons as written.

## Model

| member | source | states |
|---|---|---|
| ProjectItemMatching.NewFromRegex | src/common/Microsoft.DotNet.UpgradeAssistant.Abstractions/ProjectItemMatcher.cs:20-23 | the matcher built from a regex matches by that regex; a null regex leaves the default matcher |
| ProjectItemMatching.NewFromString | src/common/Microsoft.DotNet.UpgradeAssistant.Abstractions/ProjectItemMatcher.cs:30-33 | the matcher built from a string matches by that suffix; a null string leaves the default matcher |
| ProjectItemMatching.ImplicitFromRegex | src/common/Microsoft.DotNet.UpgradeAssistant.Abstractions/ProjectItemMatcher.cs:50-51 | the implicit conversion from a regex yields the regex matcher (default for null) |
| ProjectItemMatching.ImplicitFromString | src/common/Microsoft.DotNet.UpgradeAssistant.Abstractions/ProjectItemMatcher.cs:53-54 | the implicit conversion from a string yields the suffix matcher (default for null) |
| ProjectItemMatching.GetFileNameIsLastSegment | src/common/Microsoft.DotNet.UpgradeAssistant.Abstractions/ProjectItemMatcher.cs:44 | the file name is the suffix of the path after its last directory separator: it holds no separator and, unless it is the whole path, a separator precedes it |
| ProjectItemMatching.Match | src/common/Microsoft.DotNet.UpgradeAssistant.Abstractions/ProjectItemMatcher.cs:35-48 | the result is `ArgumentNullException("input")` exactly when the input is null; a regex matcher returns the engine's answer for its own regex on the input's file name |
| ProjectItemMatching.NullInputRejected | src/common/Microsoft.DotNet.UpgradeAssistant.Abstractions/ProjectItemMatcher.cs:37-40 | the null check comes before the variant check, so a default matcher also rejects a null input |
| ProjectItemMatching.DefaultMatcherThrows | src/common/Microsoft.DotNet.UpgradeAssistant.Abstractions/ProjectItemMatcher.cs:46 | a default matcher, or one built from a null argument, throws `NotImplementedException` for every non-null input |
| ProjectItemMatching.SuffixMatchIff | src/common/Microsoft.DotNet.UpgradeAssistant.Abstractions/ProjectItemMatcher.cs:45 | a suffix matcher matches exactly when the input is at least as long as the suffix and its last characters equal the suffix ignoring case |
| ProjectItemMatching.SuffixMatchIgnoresCase | src/common/Microsoft.DotNet.UpgradeAssistant.Abstractions/ProjectItemMatcher.cs:45 | changing the letter case of input or suffix never changes a suffix matcher's answer |
| ProjectItemMatching.SuffixMatchOfUpperCased | src/common/Microsoft.DotNet.UpgradeAssistant.Abstractions/ProjectItemMatcher.cs:45 | upper-casing both input and suffix gives the same answer |
| ProjectItemMatching.EmptySuffixMatchesAll | src/common/Microsoft.DotNet.UpgradeAssistant.Abstractions/ProjectItemMatcher.cs:45 | the empty suffix matches every non-null input |
| ProjectItemMatching.LongerSuffixNeverMatches | src/common/Microsoft.DotNet.UpgradeAssistant.Abstractions/ProjectItemMatcher.cs:45 | a suffix longer than the input never matches |
| ProjectItemMatching.RegexMatchSeesFileNameOnly | src/common/Microsoft.DotNet.UpgradeAssistant.Abstractions/ProjectItemMatcher.cs:44 | two paths with the same file name get the same regex answer |
| ProjectItemMatching.FileNameIgnoresDirectory | src/common/Microsoft.DotNet.UpgradeAssistant.Abstractions/ProjectItemMatcher.cs:44 | prefixing a directory and a separator to a path does not change its file name |
| ProjectItemMatching.RegexMatchAsksEngine | src/common/Microsoft.DotNet.UpgradeAssistant.Abstractions/ProjectItemMatcher.cs:20-44 | the matcher built from a regex asks the engine, for that regex, about the name after the path's last separator |
| ProjectItemMatching.RegexMatchIgnoresDirectory | src/common/Microsoft.DotNet.UpgradeAssistant.Abstractions/ProjectItemMatcher.cs:44 | a regex matcher gives the same answer for a path and for any path moved into another directory |
| Text.EndsWithIgnoreCaseIff | src/common/Microsoft.DotNet.UpgradeAssistant.Abstractions/ProjectItemMatcher.cs:45 | the recursive suffix test agrees with comparing the last characters of the input to the suffix ignoring case |
| Text.EndsWithIgnoreCaseRespectsCase | src/common/Microsoft.DotNet.UpgradeAssistant.Abstractions/ProjectItemMatcher.cs:45 | changing the letter case of the input or of the suffix does not change the suffix test |
| Text.UpperIdempotent | src/common/Microsoft.DotNet.UpgradeAssistant.Abstractions/ProjectItemMatcher.cs:45 | case folding is idempotent and a string equals its upper-cased form ignoring case |
| Text.NatToString | src/AspNetMigrator.DefaultPackageUpdater/PackageUpdaterStep.cs:193 | the count in the detail string is a non-empty run of decimal digits whose value (`DecimalValue`) is the count, with no leading zero (a single digit when zero) |
| PackageMaps.FirstMatchIff | src/AspNetMigrator.DefaultPackageUpdater/PackageUpdaterStep.cs:78 | a map is found exactly when some loaded map contains the reference |
| PackageMaps.FirstMatchIsFirst | src/AspNetMigrator.DefaultPackageUpdater/PackageUpdaterStep.cs:78 | the map found contains the reference and no earlier map in load order does |
| PackageRewrite.VersionOfNone | src/AspNetMigrator.DefaultPackageUpdater/PackageUpdaterStep.cs:77 | the version is null exactly when no metadata child is named `Version` ignoring case |
| PackageRewrite.VersionOfFirst | src/AspNetMigrator.DefaultPackageUpdater/PackageUpdaterStep.cs:77 | otherwise it is the value of the first child named `Version` ignoring case |
| PackageRewrite.FirstPackageReferenceGroup | src/AspNetMigrator.DefaultPackageUpdater/PackageUpdaterStep.cs:101 | the index found is of the first item group that has a package reference; none means no group has one |
| PackageRewrite.TargetGroup | src/AspNetMigrator.DefaultPackageUpdater/PackageUpdaterStep.cs:101-111 | the group that receives new references exists in the tree after a new group was appended if needed |
| PackageRewrite.ReferenceItems | src/AspNetMigrator.DefaultPackageUpdater/PackageUpdaterStep.cs:117-119 | each added package becomes one `PackageReference` item named after it with its version as `Version` metadata, in order |
| MsBuild.FlattenConcat | src/AspNetMigrator.DefaultPackageUpdater/PackageUpdaterStep.cs:74 | `project.Items` of a tree made of two parts is the items of the first part then those of the second |
| MsBuild.FlattenAppendToGroup | src/AspNetMigrator.DefaultPackageUpdater/PackageUpdaterStep.cs:118 | appending to a group inserts the new items in `project.Items` right after that group's items |
| RewriteProperties.OutdatedIff | src/AspNetMigrator.DefaultPackageUpdater/PackageUpdaterStep.cs:74-80 | an item is removed exactly when it is a package reference (type ignoring case) and some loaded map contains its name and version |
| RewriteProperties.KeptIff | src/AspNetMigrator.DefaultPackageUpdater/PackageUpdaterStep.cs:71-98 | the removal keeps exactly the items that are not outdated |
| RewriteProperties.KeepItemsAllCurrent | src/AspNetMigrator.DefaultPackageUpdater/PackageUpdaterStep.cs:71-98 | with nothing outdated the removal keeps every item and collects no replacement |
| RewriteProperties.ReplacementsFromMaps | src/AspNetMigrator.DefaultPackageUpdater/PackageUpdaterStep.cs:96 | every collected replacement is a `NetCorePackages` entry of a loaded map |
| RewriteProperties.PruneAround | src/AspNetMigrator.DefaultPackageUpdater/PackageUpdaterStep.cs:85-93 | a group is dropped exactly when it had children and lost all of them, and keeps its surviving items otherwise; the other groups are unaffected |
| RewriteProperties.PruneFlatten | src/AspNetMigrator.DefaultPackageUpdater/PackageUpdaterStep.cs:71-98 | the items of the tree after removal are the kept items, in their original order |
| RewriteProperties.PruneAllCurrent | src/AspNetMigrator.DefaultPackageUpdater/PackageUpdaterStep.cs:71-98 | with nothing outdated the removal leaves the tree unchanged, empty groups included |
| RewriteProperties.NoMapsRemovesNothing | src/AspNetMigrator.DefaultPackageUpdater/PackageUpdaterStep.cs:71-98 | with no package maps loaded the removal leaves the tree unchanged and collects no replacement |
| RewriteProperties.DistinctElements | src/AspNetMigrator.DefaultPackageUpdater/PackageUpdaterStep.cs:114 | `Distinct` adds no reference, and each reference of its input is kept or equals, under the given equality, one that is |
| RewriteProperties.DistinctCovers | src/AspNetMigrator.DefaultPackageUpdater/PackageUpdaterStep.cs:114 | a reference equal to a kept one equals one of the input; under a reflexive equality each input reference equals a kept one |
| RewriteProperties.DistinctNoDuplicates | src/AspNetMigrator.DefaultPackageUpdater/PackageUpdaterStep.cs:114 | no kept reference equals a later kept one under the given equality |
| RewriteProperties.DistinctKeepsFirstOccurrence | src/AspNetMigrator.DefaultPackageUpdater/PackageUpdaterStep.cs:114 | `Distinct` keeps the order of first occurrences |
| RewriteProperties.DistinctKeepsFirstOfEquals | src/AspNetMigrator.DefaultPackageUpdater/PackageUpdaterStep.cs:114 | under a transitive equality each kept reference is the first of its equals in the input |
| RewriteProperties.DistinctKeepsUnmatched | src/AspNetMigrator.DefaultPackageUpdater/PackageUpdaterStep.cs:114 | a reference that equals no other reference of the input is kept |
| RewriteProperties.DistinctIgnoringNameCase | src/AspNetMigrator.DefaultPackageUpdater/PackageUpdaterStep.cs:114 | which references merge depends on the equality: ignoring name case, `Foo@1.0` and `foo@1.0` merge and two versions stay; structurally both spellings stay |
| RewriteProperties.AddedOnce | src/AspNetMigrator.DefaultPackageUpdater/PackageUpdaterStep.cs:113-120 | each added item is added once; only collected replacements are added, and each collected one equals an added one |
| RewriteProperties.RewriteAppendsNewItems | src/AspNetMigrator.DefaultPackageUpdater/PackageUpdaterStep.cs:100-133 | all new items, the replacements and then the analyzer if missing, go to the end of one target group |
| RewriteProperties.RewritePlacement | src/AspNetMigrator.DefaultPackageUpdater/PackageUpdaterStep.cs:100-111 | the target is the first group still holding a package reference, else a new group appended at the end |
| RewriteProperties.PackageReferenceSitsInGroup | src/AspNetMigrator.DefaultPackageUpdater/PackageUpdaterStep.cs:101-102 | if any package reference is left, some group holds one, so no new group is created |
| RewriteProperties.NewGroupNeverEmpty | src/AspNetMigrator.DefaultPackageUpdater/PackageUpdaterStep.cs:102-107 | a created group always receives a reference to the analyzer package, name ignoring case: a replacement that is one, or else the analyzer item |
| RewriteProperties.AnalyzerPresentAfterRewrite | src/AspNetMigrator.DefaultPackageUpdater/PackageUpdaterStep.cs:122-129 | after apply the project references the analyzer package |
| RewriteProperties.AnalyzerAddedOnlyIfAbsent | src/AspNetMigrator.DefaultPackageUpdater/PackageUpdaterStep.cs:123 | the analyzer item is added exactly when no reference to it, name ignoring case, is left after the replacements |
| RewriteProperties.RewriteFlattenSplit | src/AspNetMigrator.DefaultPackageUpdater/PackageUpdaterStep.cs:71-133 | the saved items are the kept items with the new items inserted at one position |
| RewriteProperties.RewriteContents | src/AspNetMigrator.DefaultPackageUpdater/PackageUpdaterStep.cs:71-133 | the saved project holds exactly the kept items plus the new items; nothing is filtered against what is already there |
| RewriteProperties.AnalyzerCountAfterRewrite | src/AspNetMigrator.DefaultPackageUpdater/PackageUpdaterStep.cs:122-133 | when no map touches the analyzer package, apply keeps the existing analyzer references and adds one only when there were none |
| RewriteProperties.RepeatedApplyKeepsOneAnalyzer | src/AspNetMigrator.DefaultPackageUpdater/PackageUpdaterStep.cs:122-133 | when no map contains the analyzer package and none offers it as a replacement, applying any number of times leaves a project with at most one analyzer reference with exactly one |
| RewriteProperties.RewriteLeavesNothingOutdated | src/AspNetMigrator.DefaultPackageUpdater/PackageUpdaterStep.cs:71-133 | when replacements and the analyzer are never outdated, nothing in the saved project is outdated |
| RewriteProperties.NothingOutdatedRewrite | src/AspNetMigrator.DefaultPackageUpdater/PackageUpdaterStep.cs:71-133 | on a project with nothing outdated, apply changes nothing exactly when the analyzer is already referenced |
| RewriteProperties.RewriteIdempotent | src/AspNetMigrator.DefaultPackageUpdater/PackageUpdaterStep.cs:52-144 | applying twice saves the same tree as applying once, when replacements and the analyzer are never outdated |
| PackageUpdater.PathCombine | src/AspNetMigrator.DefaultPackageUpdater/PackageUpdaterStep.cs:43 | `Path.Combine` keeps the second path at the end and the first at the start unless the second is rooted |
| PackageUpdater.ResolveMapPath | src/AspNetMigrator.DefaultPackageUpdater/PackageUpdaterStep.cs:39-43 | the map path is the configured name, `PackageMap.json` by default, as given when fully qualified, as given when rooted or the assembly directory is empty, and otherwise the assembly directory, a separator unless one side already has one, and the name |
| PackageUpdater.PackageUpdaterStep.constructor | src/AspNetMigrator.DefaultPackageUpdater/PackageUpdaterStep.cs:26-47 | the step holds the resolved map path, its title and description, the given reference comparisons, and no package maps |
| PackageUpdater.PackageUpdaterStep.Initialize | src/AspNetMigrator.DefaultPackageUpdater/PackageUpdaterStep.cs:146-211 | the outcome is `InitializeOutcome`, and the maps are replaced exactly when the map file loaded |
| PackageUpdater.PackageUpdaterStep.Apply | src/AspNetMigrator.DefaultPackageUpdater/PackageUpdaterStep.cs:52-144 | the outcome and the saved tree are `ApplySpec`: on success the tree saved is `Rewrite` of the opened one |
| PackageUpdater.PackageUpdaterStep.RemoveOutdatedReferences | src/AspNetMigrator.DefaultPackageUpdater/PackageUpdaterStep.cs:71-98 | the loop leaves the tree pruned and returns the replacements of the removed references in scan order |
| PackageUpdater.PackageUpdaterStep.RemoveOutdatedItems | src/AspNetMigrator.DefaultPackageUpdater/PackageUpdaterStep.cs:74-97 | one group's scan removes its outdated items, removes the group exactly when that empties it, and returns their replacements |
| PackageUpdater.PackageUpdaterStep.AppendReplacements | src/AspNetMigrator.DefaultPackageUpdater/PackageUpdaterStep.cs:113-120 | the loop over `Distinct()`, under the step's reference equality, appends one item per kept reference, in order, to the end of the target group |
| StepProperties.OutdatedItemsIff | src/AspNetMigrator.DefaultPackageUpdater/PackageUpdaterStep.cs:183-188 | Initialize's outdated list holds exactly the items Apply treats as outdated |
| StepProperties.OutdatedCountMatchesRemovals | src/AspNetMigrator.DefaultPackageUpdater/PackageUpdaterStep.cs:190-193 | the count Initialize reports equals the number of items Apply removes |
| StepProperties.InspectCompleteIff | src/AspNetMigrator.DefaultPackageUpdater/PackageUpdaterStep.cs:188-204 | an opened project is complete exactly when nothing is outdated and the analyzer is referenced under its exact name |
| StepProperties.InitializeCompleteMeansApplyChangesNothing | src/AspNetMigrator.DefaultPackageUpdater/PackageUpdaterStep.cs:203-204 | when Initialize reports complete, Apply succeeds and saves the project unchanged |
| StepProperties.ApplyFailsWhereInitializeFails | src/AspNetMigrator.DefaultPackageUpdater/PackageUpdaterStep.cs:153-175 | whenever Initialize fails, Apply saves nothing and does not report success |
| StepProperties.InvalidProjectFailsAlike | src/AspNetMigrator.DefaultPackageUpdater/PackageUpdaterStep.cs:139-143 | an invalid project fails both calls with `Invalid project: <path>` |
| StepProperties.ApplySavesIffComplete | src/AspNetMigrator.DefaultPackageUpdater/PackageUpdaterStep.cs:59-68 | Apply saves exactly when it reports success, which is exactly when the context is given, the map file exists and the project opens |
| StepProperties.ApplyThenInspectComplete | src/AspNetMigrator.DefaultPackageUpdater/PackageUpdaterStep.cs:188-204 | after Apply, Initialize finds the project complete, under the stated conditions on the maps and the analyzer's spelling |
| StepProperties.ApplyThenInitializeComplete | src/AspNetMigrator.DefaultPackageUpdater/PackageUpdaterStep.cs:146-211 | a successful Apply followed by Initialize on the saved project reports the step complete, under the same conditions |
| StepProperties.CaseMismatchNeverConverges | src/AspNetMigrator.DefaultPackageUpdater/PackageUpdaterStep.cs:197 | a project in which nothing is outdated and whose analyzer reference differs from the constant only in case is reported incomplete yet left unchanged by Apply |
| StepProperties.UpperCaseAnalyzerProjectNeverConverges | src/AspNetMigrator.DefaultPackageUpdater/PackageUpdaterStep.cs:123 | the concrete project with `ASPNETMIGRATOR.ANALYZERS` and no maps shows that mismatch |

## Left out

- Logging, `async`/`await` and cancellation tokens are not modelled. File reading and saving are not modelled either.
  - The map file and the project file are given as values: `MapFile`, and `ProjectFile` inside the context.
  - The saved tree is a result of Apply.
- `NuGetPackageMap.ContainsReference` and the JSON deserializer are not part of this model.
  - `ContainsReference` is a function parameter of the step.
  - A loaded map file is a sequence of maps.
- `Regex.IsMatch` is a function parameter (`RegexEngine`).
  - `Regex` keeps only its pattern. Options such as `RegexOptions.IgnoreCase` are part of the engine parameter.
- `PackageUpdaterStep.constructor`:
  - The `ArgumentNullException`s for null options or logger are not modelled. A Dafny constructor cannot fail.
  - `Path.IsPathFullyQualified`, `Path.IsPathRooted` and the directory separator are platform rules, given as parameters (`PathRules`).
  - The assembly directory is given as a string.
- The map file holding JSON `null` is folded into `MapMalformed`: Initialize keeps the previous maps and raises `JsonMalformed`.
  - The source stores the null in `_packageMaps`. `_packageMaps.Count()` at `PackageUpdaterStep.cs:167` then throws `ArgumentNullException`.
  - The field stays null, so a later Apply on a project with package references throws at `PackageUpdaterStep.cs:78`.
- Case-insensitive comparison (`OrdinalIgnoreCase`) is modelled by ASCII upper-casing only. Unicode case mapping is left out.
- `ProjectItemMatching.GetFileName` treats `/` and `\` as separators. It ignores volume prefixes such as `C:`.
- The project tree is the sequence of top-level item groups.
  - Item groups nested in `Choose` or `Target` elements are left out.
  - Children other than items are left out.
  - `project.Items` is the items of all groups in document order.
- The MSBuild objects' identity is not modelled. Apply edits the tree through its `ProjectRootElement` by group and item index.
- Removing the current item while enumerating `project.Items` is assumed to continue with the next item. The model's loop visits every item of the opened tree exactly once.
- `PackageUpdater.PackageUpdaterStep.Apply`: a project file that does not exist is treated like an invalid one. `ProjectRootElement.Open` then raises `InvalidProjectFileException`.
- `NuGetReference.Equals`, used by `Distinct()`, is not part of this model.
  - It is a parameter of the step (`ReferenceEquality`). Lemmas that need it reflexive say so.
  - `RewriteProperties.DistinctIgnoringNameCase` shows the result for a name-case-insensitive equality and for structural equality.
- A replacement with a null version is not modelled. Versions of replacement packages are strings.
- Two behaviours of the code kept as written:
  - Replacements are de-duplicated by `Distinct()` under `NuGetReference.Equals` only. No separate comparison of package names ignoring case is made.
  - Replacements are not filtered against references already in the project.
