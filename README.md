# Bower project model for the Brackets Bower extension

This project models the core of the Brackets extension that manages Bower
packages. It covers four parts:

- **The Bower project** (`src/bower/project/Project.js`). This object holds the
  project root, the active directory inside it, and the table of the project's
  packages keyed by name. It has the mutators that file, remove and replace
  packages, announcing each change to the package manager. It has the queries
  the panel asks. It also decides whether a fresh dependency listing replaces
  the table after bower.json changed.
- **The older Bower project** (`src/bower/ProjectManager.js`). It keeps the same
  table, updates a package's version in place, signals changes as module
  events, and has its own `_setActiveDir`.
- **The project manager** (`src/project/ProjectManager.js`). It computes the
  status of the project against bower.json (untracked and missing packages).
  It plans the prune-then-install synchronisation. It has the rules that move
  the active directory on selection, rename and delete.
- **The package factory** (`src/bower/PackageFactory.js`). It defines the package
  record with its current and latest version and the `hasUpdates` test, which
  compares versions component by component. It also defines `create`, which
  builds packages from Bower's keyed listing. JavaScript's `split(".")` and
  `parseInt(s, 0)` are modelled, since the test depends on them.

Some parts of the source are objects whose fields change. Those are Dafny
classes with `modifies` clauses:

- both `BowerProject` classes;
- the module-level `_bowerProject` variable, as a `Manager` class.

Each class's `forEach` loops are value-level methods. Each such method is
proved against a specification function in module `PackageTable`. For example,
`FilePackages` is proved against `Put`, `Installed` and `Updated`, and
`RemoveNames` against `Keep` and `Found`. The table invariant `TableOk` is
proved to be preserved by every mutator.

The table is a JavaScript object, so its enumeration order matters to
`getPackagesArray`, `_.some` and `_.filter`. Each class therefore keeps
`order`, the key insertion order, beside the `packages` map:

- a new key is appended;
- overwriting a key keeps its place;
- `delete` removes the key.

Notifications to listeners are recorded in a ghost `events` log. The
asynchronous outcomes of other modules are parameters:

- the listing that `listProjectDependencies` resolves with;
- whether `prune` and `installFromBowerJson` succeed.

## Model

| member | source | states |
|---|---|---|
| Paths.Contains | src/project/ProjectManager.js:321-326 | the literal regular-expression match holds exactly when the text occurs at some position of the path |
| Paths.IsExcluded | src/project/ProjectManager.js:321-326 | a path is excluded exactly when `node_modules` or `bower_components` occurs somewhere in it |
| Paths.ShortPath | src/bower/project/Project.js:67-81 | the short active directory is a suffix of the directory: empty when it is the root itself (or shorter than the root), otherwise as long as the directory minus the root |
| Paths.ShortPathRoundTrip | src/bower/project/Project.js:67-81 | for a directory under the root, the short active directory is exactly what follows the root: root + short path gives the directory back, and its length is the difference |
| Paths.EffectivePath | src/bower/project/Project.js:98-100 | `activeDir \|\| rootPath`: a non-empty active directory wins; a null or empty one falls back to the root |
| Packages.Where | src/bower/project/Project.js:247-251 | `_.filter` keeps exactly the elements that pass the test and never grows the input |
| Packages.Any | src/bower/project/Project.js:221-227 | `_.some` is true exactly when some element passes the test |
| Packages.AnyIffWhereNonEmpty | src/bower/project/Project.js:221-251 | `_.some(test)` holds exactly when `_.filter(test)` is non-empty, relating `hasUninstalledPackages` to `getUninstalledPackages` |
| Packages.DisjointFiltersBounded | src/project/ProjectManager.js:380-386 | two filters with tests that never both hold select, together, at most as many packages as there are |
| PackageTable.PutKeys | src/bower/project/Project.js:122-130 | after filing, the keys are the old keys plus the incoming names |
| PackageTable.PutLastWins | src/bower/project/Project.js:122-130 | the last incoming package with a given name is the one left in the table |
| PackageTable.PutElsewhere | src/bower/project/Project.js:122-130 | a name no incoming package carries keeps its entry, or stays absent |
| PackageTable.PutKeysMatch | src/bower/project/Project.js:129 | filing keeps every package under its own name |
| PackageTable.FilePackages | src/bower/project/Project.js:122-130 | the `forEach` of `addPackages`: the new table, the installed list (names that were not keys) and the updated list (names that were), and the key order grown by the installed names |
| PackageTable.FileKeepsTable | src/bower/project/Project.js:122-130 | filing preserves the table invariant: the key order lists every key exactly once and each package sits under its own name |
| PackageTable.ClassifyInterleaves | src/bower/project/Project.js:122-135 | installed and updated together are the input, in input order, each package in exactly one of them |
| PackageTable.InstalledNames | src/bower/project/Project.js:122-130 | the installed names are exactly the incoming names that were not keys, without repeats |
| PackageTable.FoundExactly | src/bower/project/Project.js:146-161 | the removed packages are exactly the table's packages under requested names, each once, at most one per requested name |
| PackageTable.KeepContents | src/bower/project/Project.js:156 | deleting keys leaves exactly the other keys, still without repeats |
| PackageTable.KeepTwice | src/bower/project/Project.js:150-158 | deleting two groups of keys one after the other deletes their union |
| PackageTable.KeepAbsent | src/bower/project/Project.js:150-158 | deleting keys that are not there leaves the order unchanged |
| PackageTable.KeepOnlyPresent | src/bower/project/Project.js:150-158 | skipping names that are not keys is the same as deleting all requested names |
| PackageTable.RemoveNames | src/bower/project/Project.js:146-158 | the `forEach` of `removePackages`: the table minus the requested names, the order without them, and the packages found, in request order |
| PackageTable.DeleteKeepsTable | src/bower/project/Project.js:150-158 | deleting keys preserves the table invariant |
| PackageTable.OrderSize | src/bower/project/Project.js:201-203 | a repeat-free key order holding exactly the keys is as long as the key set, so `Object.keys(...).length` is the table size |
| PackageTable.ListingCoversTable | src/bower/project/Project.js:177-185 | the listing holds each package of the table exactly once and nothing else |
| Project.BowerProject.constructor | src/bower/project/Project.js:37-53 | a new project has no active directory, no short path and an empty table |
| Project.BowerProject.SetActiveDir | src/bower/project/Project.js:67-81 | the setter stores the directory and its short form ("" for the root itself, else the slice after the root's length); `getPath` then gives the directory, or the root if it is empty |
| Project.BowerProject.SetPackages | src/bower/project/Project.js:106-110 | the table is exactly the new packages, keyed by name, the last one of each name winning; one addition is announced |
| Project.BowerProject.AddPackages | src/bower/project/Project.js:116-140 | the table is filed with the packages; returns and announces the installed and updated lists; keeps the invariant |
| Project.BowerProject.RemovePackages | src/bower/project/Project.js:146-161 | the requested keys are gone, the others untouched, the packages actually removed are announced in request order |
| Project.BowerProject.UpdatePackage | src/bower/project/Project.js:191-195 | the package replaces (or adds) the entry under its name, nothing else changes, the update is announced |
| Project.BowerProject.GetPackagesArray | src/bower/project/Project.js:177-185 | the packages in key order, as many as there are keys, each table entry exactly once |
| Project.BowerProject.GetPackageByName | src/bower/project/Project.js:168-170 | a package is found exactly when a listed package has that name, and the one found is listed under that name |
| Project.BowerProject.HasPackages | src/bower/project/Project.js:201-203 | true exactly when the table is non-empty |
| Project.BowerProject.HasPackage | src/bower/project/Project.js:209-213 | true exactly when a listed package has that name and is installed |
| Project.BowerProject.HasUninstalledPackages | src/bower/project/Project.js:221-227 | true exactly when `getUninstalledPackages` is non-empty |
| Project.BowerProject.HasExtraPackages | src/bower/project/Project.js:235-241 | true exactly when some filed package is not tracked |
| Project.BowerProject.GetUninstalledPackages | src/bower/project/Project.js:247-251 | exactly the filed packages that are missing |
| Project.BowerProject.GetExtraneousPackages | src/bower/project/Project.js:257-261 | exactly the filed packages whose `extraneous` is set |
| Project.BowerProject.NotifyBowerJsonChanged | src/bower/project/Project.js:273-295 | a failed listing changes nothing; otherwise the table becomes the listing exactly when `ReactionTo` says Replace, and is untouched otherwise |
| Project.ScanForModification | src/bower/project/Project.js:284-288 | the `_.some` callback: `true` only when some listed package has an unequal counterpart; a throw only when some listed name has no counterpart |
| Project.ReactionTo | src/bower/project/Project.js:281-293 | the table is replaced only when the counts differ or some listed package does not match; keeping it or aborting needs equal counts |
| Project.ScanFindsNothingIffAllMatch | src/bower/project/Project.js:284-288 | the `_.some` scan finds no modification exactly when every listed package has an equal counterpart |
| Project.ScanThrowsIffAbsentFirst | src/bower/project/Project.js:284-288 | the scan throws exactly when it meets a package without a counterpart before any unequal one |
| Project.ReactionKeepsIffAllMatch | src/bower/project/Project.js:281-293 | the table is kept exactly when the counts agree and every package matches; the callback aborts exactly when an unknown name comes first |
| Project.IntendedReaction | src/bower/project/Project.js:281-293 | the corrected decision never aborts, and keeping the table means the listing has exactly the table's names |
| Project.SameNamesWhenAllMatch | src/bower/project/Project.js:281-293 | an equal-sized listing whose every package matches (and whose names do not repeat) names exactly the table's keys |
| Project.ReactionAgreesUnlessAborted | src/bower/project/Project.js:281-293 | whenever the scan does not throw, the source decides as intended |
| Project.RenamedListingIsDropped | src/bower/project/Project.js:281-293 | a same-sized listing that renames `jquery` to `lodash` aborts instead of replacing the table |
| BowerProjectManager.BowerProject.constructor | src/bower/ProjectManager.js:67-78 | a new project has no active directory, no short path and an empty table |
| BowerProjectManager.BowerProject.SetActiveDir | src/bower/ProjectManager.js:92-106 | the setter stores the directory and its short form relative to the root |
| BowerProjectManager.BowerProject.SetPackages | src/bower/ProjectManager.js:122-126 | the table is exactly the new packages, the last of each name winning; one signal |
| BowerProjectManager.BowerProject.AddPackages | src/bower/ProjectManager.js:132-140 | each package is filed under its name, other entries are unchanged, new names are appended to the key order, one signal |
| BowerProjectManager.BowerProject.RemovePackages | src/bower/ProjectManager.js:146-161 | the requested keys are gone and the packages removed are signalled in request order |
| BowerProjectManager.BowerProject.UpdatePackageVersion | src/bower/ProjectManager.js:192-198 | an unknown name throws a TypeError and changes nothing; otherwise only that package's version changes, and the update is signalled |
| BowerProjectManager.BowerProject.GetPackagesArray | src/bower/ProjectManager.js:177-185 | the packages in key order, each table entry exactly once |
| BowerProjectManager.BowerProject.GetPackageByName | src/bower/ProjectManager.js:168-170 | a package is found exactly when a listed package has that name, and the one found is listed under that name |
| BowerProjectManager.BowerProject.HasPackages | src/bower/ProjectManager.js:204-206 | true exactly when the table is non-empty |
| BowerProjectManager.BowerProject.HasPackage | src/bower/ProjectManager.js:212-216 | true exactly when a listed package has that name and is installed |
| BowerProjectManager.BowerProject.HasUninstalledPackages | src/bower/ProjectManager.js:224-230 | as written: true exactly when some filed package IS installed |
| BowerProjectManager.BowerProject.HasUninstalledPackagesIntended | src/bower/ProjectManager.js:218-223 | as documented: true exactly when `getUninstalledPackages` is non-empty |
| BowerProjectManager.BowerProject.HasExtraPackages | src/bower/ProjectManager.js:238-244 | true exactly when `getExtraneousPackages` is non-empty |
| BowerProjectManager.BowerProject.GetUninstalledPackages | src/bower/ProjectManager.js:250-254 | exactly the filed packages that are not installed |
| BowerProjectManager.BowerProject.GetExtraneousPackages | src/bower/ProjectManager.js:260-264 | exactly the filed packages whose `extraneous` is set |
| BowerProjectManager.BowerProject.AllInstalledIsMisreported | src/bower/ProjectManager.js:218-230 | with every package installed, the check says "uninstalled" while there is none |
| BowerProjectManager.BowerProject.NoneInstalledIsMisreported | src/bower/ProjectManager.js:218-230 | with no package installed, the check says "none uninstalled" while all are |
| BowerProjectManager.InstalledJqueryIsMisreported | src/bower/ProjectManager.js:224-230 | the table holding only an installed `jquery` is reported as having uninstalled packages |
| BowerProjectManager.Manager.SetActiveDir | src/bower/ProjectManager.js:331-343 | an excluded path changes nothing; with no project the assignment throws; otherwise the directory is set and announced with its short form, then the project is announced as loading; the project's own signal log and table are untouched |
| ProjectManager.SplitByStatus | src/project/ProjectManager.js:380-386 | untracked is the not-tracked packages, missing the other missing ones, both in order, together no more than the packages |
| ProjectManager.Manager.SetActiveDir | src/project/ProjectManager.js:321-333 | an excluded path changes nothing; with no project the assignment throws; otherwise the directory is set and announced with its short form, then the project is announced as loading |
| ProjectManager.Manager.ConfigureBowerProject | src/project/ProjectManager.js:279-281 | the synchronous start of the reload: exactly one PROJECT_LOADING signal is logged and the project is kept |
| BowerProjectManager.Manager.ConfigureBowerProject | src/bower/ProjectManager.js:300-302 | the synchronous start of the reload: exactly one PROJECT_LOADING signal is logged and the project is kept |
| ProjectManager.Manager.UpdateActiveDirToSelection | src/project/ProjectManager.js:340-356 | no project: nothing; nothing selected: TypeError; else the selected folder, or the file's parent folder, goes through `_setActiveDir`: unless excluded, it becomes the active directory with its short form relative to the root and is announced, followed by PROJECT_LOADING, the table, key order and the project's signals untouched |
| ProjectManager.Manager.FileNameChange | src/project/ProjectManager.js:480-485 | renaming the active directory moves it to the new name with its short form (unless excluded), announced and followed by PROJECT_LOADING, leaving the table, key order and the project's signals as they were; any other rename changes nothing |
| ProjectManager.Manager.PathDeleted | src/project/ProjectManager.js:490-494 | deleting the active directory moves it back to the root (unless the root itself is excluded), with short path "", announced and followed by PROJECT_LOADING, leaving the table, key order and the project's signals as they were; any other deletion changes nothing |
| ProjectManager.Manager.CheckProjectStatus | src/project/ProjectManager.js:364-399 | TypeError exactly without a project; else untracked and missing are disjoint, each exactly the filed packages of its kind, and status is 1 exactly when either is non-empty |
| ProjectManager.Manager.SynchronizeWithBowerJson | src/project/ProjectManager.js:406-427 | prune always runs first; install runs exactly when prune succeeded and some package is missing; a failed prune rejects with its error; a failed install leaves the promise pending |
| PackageFactory.Split | src/bower/PackageFactory.js:74-75 | `split` gives one more piece than there are separators |
| PackageFactory.SplitJoin | src/bower/PackageFactory.js:74-75 | joining the pieces with the separator gives the string back |
| PackageFactory.SplitPiecesFree | src/bower/PackageFactory.js:74-75 | no piece holds the separator |
| PackageFactory.SplitAppend | src/bower/PackageFactory.js:74-75 | splitting `a.b` is splitting `a` and `b` and concatenating |
| PackageFactory.SplitWithoutSeparator | src/bower/PackageFactory.js:74-75 | a string without the separator is one piece |
| PackageFactory.JoinSplit | src/bower/PackageFactory.js:74-75 | splitting joined separator-free pieces gives the pieces back |
| PackageFactory.ParseIntNeedsDigit | src/bower/PackageFactory.js:79-80 | `parseInt(s, 0)` gives a number only when `s` holds a digit; otherwise NaN |
| PackageFactory.TrimStart | src/bower/PackageFactory.js:79-80 | `parseInt` skips leading white space: what remains is a suffix of the input that does not start with white space |
| PackageFactory.LeadingDigits | src/bower/PackageFactory.js:79-80 | `parseInt` reads the longest prefix of digits of the radix |
| PackageFactory.DecimalValue | src/bower/PackageFactory.js:79-80 | the digits of a number read back as that number |
| PackageFactory.DecimalRoundTrip | src/bower/PackageFactory.js:79-80 | `parseInt(String(n) + rest, 0)` is `n` when `rest` starts with no digit (and not with `x` after a lone `0`) |
| PackageFactory.ParseDecimalDigits | src/bower/PackageFactory.js:79-80 | a run of decimal digits followed by a non-digit parses to its value; leading zeros do not make it octal, and a lone `0` followed by `x` is excluded since that is a hexadecimal prefix |
| PackageFactory.UndefinedIsNaN | src/bower/PackageFactory.js:80 | `parseInt(undefined, 0)` is NaN |
| PackageFactory.SingleDigitParses | src/bower/PackageFactory.js:79-80 | a one-digit component parses to that digit |
| PackageFactory.ScanComponents | src/bower/PackageFactory.js:76-87 | the `some` loop returns true exactly when some current component has a greater counterpart in the latest version |
| PackageFactory.HasUpdates | src/bower/PackageFactory.js:73-88 | `hasUpdates` is `HasUpdatesSpec` of the two version strings |
| PackageFactory.HasUpdatesSpec | src/bower/PackageFactory.js:73-88 | a package at its latest version reports no update |
| PackageFactory.MissingComponentNeverCounts | src/bower/PackageFactory.js:79-82 | a latest-version component past its end is `undefined`, never greater |
| PackageFactory.ExtraLatestComponentsIgnored | src/bower/PackageFactory.js:78-85 | components of the latest version beyond the current version's length do not affect the answer |
| PackageFactory.NewerFromWitness | src/bower/PackageFactory.js:78-85 | whenever the left-to-right comparison finds the latest newer, some component is greater |
| PackageFactory.IsNewer | src/bower/PackageFactory.js:73-88 | every real update is reported by the source's test |
| PackageFactory.IsNewerIrreflexive | src/bower/PackageFactory.js:73-88 | the corrected test finds no version newer than itself |
| PackageFactory.IsNewerAsymmetric | src/bower/PackageFactory.js:73-88 | the corrected test never finds each of two versions newer than the other |
| PackageFactory.DowngradeReportedAsUpdate | src/bower/PackageFactory.js:78-85 | current `2.0.0` against latest `1.5.0` is reported as an update, though the latest is older |
| PackageFactory.Create | src/bower/PackageFactory.js:90-102 | one package per key in key order, with name, `pkgMeta.version` and `update.latest`; a TypeError exactly when some entry lacks `pkgMeta` or `update` |

## Left out

- The asynchronous part of `_configureBowerProject` (everything after its PROJECT_LOADING signal), `_loadBowerJson`, `listProjectDependencies`, `checkForUpdates`, `createBowerJson`, `synchronizeWithProject`, `_projectOpen` and the other promise chains are not modelled. They orchestrate asynchronous calls into modules outside this model. Where a modelled operation consumes their result, the result is a parameter.
- ProjectManager.Manager.ConfigureBowerProject and BowerProjectManager.Manager.ConfigureBowerProject model only what `_configureBowerProject` does before its first asynchronous call: the PROJECT_LOADING signal, sent right after ACTIVE_DIR_CHANGED. The synchronous call to `ConfigurationManager.loadBowerRc` (a module outside this model), the later PROJECT_READY signal and the reload of the packages are not modelled. This applies wherever `_setActiveDir` runs: both SetActiveDir members and ProjectManager.Manager.UpdateActiveDirToSelection, FileNameChange and PathDeleted.
- Paths.ShortPath slices by the root's length in Unicode characters. JavaScript's `rootPath.length` counts UTF-16 code units, so for a root that holds characters outside the Basic Multilingual Plane the source's short path differs.
- The older module's `updateActiveDirToSelection` and its `fileNameChange`/`pathDeleted` listeners are not modelled separately. They are textually the same as the newer module's, which are modelled.
- JavaScript sorts integer-like object keys (such as `"1"`) ahead of the others. The key order modelled is plain insertion order.
- BowerProjectManager.BowerProject.UpdatePackageVersion does not model aliasing. The source mutates the shared package object. The model replaces the table's entry, so a caller holding the same object does not see the new version.
- `parseInt` results are unbounded integers. JavaScript doubles lose precision above 2^53, and that is not modelled.
- `isInstalled`, `isMissing`, `isNotTracked`, `isEqualTo` and `extraneous` belong to a Package module that is not part of this model. The first three tests (`isInstalled`, `isMissing`, `isNotTracked`) and `extraneous` are unconstrained fields of `Pkg`; `isEqualTo` is a function parameter.
- `hasBowerJson`, `activeBowerJson` and `getBowerJsonDependencies` are not modelled. The project class in src/project/Project.js is not part of this model: ProjectManager.Manager holds the `BowerProject` class of src/bower/project/Project.js in its place, which has the same fields, setter and package table. `checkProjectStatus` discards the errors it builds, so its result does not depend on `hasBowerJson` while a project exists.
- Reading `_bowerProject` before `initialize` (when it is `undefined`, not `null`) is not modelled. The project is either absent (null) or present.
- `Package.prototype.fromRawData` has an empty body and is not modelled.
- Project.BowerProject.AddPackages, Project.BowerProject.RemovePackages, Project.BowerProject.HasPackage and Project.BowerProject.GetPackageByName treat a name inherited from `Object.prototype` (such as `constructor` or `toString`) as absent from the table. In the source, `this._packages[name]` finds the inherited member for such a name: `addPackages` reports the package as updated, `removePackages` reports a removal it does not make, and `hasPackage` throws.
- BowerProjectManager.BowerProject.UpdatePackageVersion likewise treats an inherited name such as `constructor` as unknown and throws. The source finds the inherited member, sets `version` on it and signals the update. The older module's `addPackages`, `removePackages`, `hasPackage` and `getPackageByName` have the same gap.
- Project.BowerProject.NotifyBowerJsonChanged takes one snapshot of the table. The source reads the count when the call starts (src/bower/project/Project.js:277) but looks packages up and calls `setPackages` later, when the listing resolves. A mutator that runs in between is not modelled.
- BowerProjectManager.Manager and BowerProjectManager.BowerProject keep separate signal logs. The source sends all of them through the one `exports.trigger` stream, so the relative order of `ACTIVE_DIR_CHANGED` and the dependency signals is not modelled.
- PackageFactory.Create takes versions as strings. A `pkgMeta` without `version` (giving `undefined`) is not modelled.
- In src/bower/project/Project.js, `hasExtraPackages` tests `isNotTracked()` while `getExtraneousPackages` filters on `extraneous`. Both are modelled as written, with no claim that they agree.

## Findings

| source | as written | input that shows it | evidently intended | confidence | as-written member | corrected member |
|---|---|---|---|---|---|---|
| src/bower/ProjectManager.js:224-230 | `hasUninstalledPackages` returns `_.some(packages, pkg => pkg.isInstalled)` | a table holding only `jquery`, installed: reports uninstalled packages while `getUninstalledPackages()` is empty | some package is not installed, as the doc comment at lines 218-223 says, i.e. `getUninstalledPackages()` is non-empty | medium, not executed | BowerProjectManager.BowerProject.HasUninstalledPackages, BowerProjectManager.InstalledJqueryIsMisreported | BowerProjectManager.BowerProject.HasUninstalledPackagesIntended |
| src/bower/PackageFactory.js:78-85 | the `some` loop reports an update as soon as any latest component is greater than the current one, even after a smaller earlier component | current `2.0.0`, latest `1.5.0`: reported as an update | compare from the left and stop at the first component that differs | medium, not executed | PackageFactory.HasUpdatesSpec, PackageFactory.DowngradeReportedAsUpdate | PackageFactory.IsNewer, PackageFactory.IsNewerAsymmetric |
| src/bower/project/Project.js:281-293 | with equal counts, `getPackageByName(pkg.name).isEqualTo(pkg)` is called for a name the table does not hold | table `{jquery}`, listing `[lodash]`: `undefined.isEqualTo` throws and the table is never replaced | a listing with a package the table lacks differs and replaces the table | medium, not executed | Project.ReactionTo, Project.RenamedListingIsDropped | Project.IntendedReaction, Project.ReactionAgreesUnlessAborted |
