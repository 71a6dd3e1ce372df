# laravel-slim, modelled in Dafny

laravel-slim is a Laravel package that defines two Artisan commands. Each
turns a freshly generated Laravel 11 skeleton into a slimmer project:

- `slim:console` (`SlimConsoleCommand`) makes a console-only application;
- `slim:api` (`SlimApiCommand`) makes an API-only application. It is
  defined but not registered: the service provider registers only
  `slim:console`.

Each command runs an eligibility gate first: the project must look exactly
like a fresh skeleton. Then it deletes a fixed list of paths, patches a few
files with literal `str_replace` edits, and reports success.

The model treats the project directory as an immutable value,
`map<Path, Node>`. A `Path` is the list of segments below the base path, and
a `Node` is `File(content)` or `Dir`. Every step is a pure function from one
tree to the next. Each `File` facade call the commands make is a definition
with its own contract, in `FileSystem`:

| facade call | model |
|---|---|
| `exists` | `Exists` |
| `missing` | `Missing` |
| `isFile` | `IsFile` |
| `isDirectory` | `IsDirectory` |
| `get` | `Get` |
| `delete` | `DeleteFile` |
| `deleteDirectory` | `DeleteDirectory` |
| `replaceInFile` | `ReplaceInFile` |
| `replace` and `copy` | `Put` |
| `append` | `Append` |

A call that raises in PHP returns `None`. A command run then ends as
`Crashed`. Examples of raising calls: reading something that is not a file,
patching a missing file, writing into a missing directory.

Modules:

- `Text`:
  - PHP `str_replace` on one search (`ReplaceAll`) and on an array of searches (`StrReplace`), with a single replacement or a parallel array;
  - `Str::contains`, `Str::remove`, `PHP_EOL`;
  - an independent description of a replacement as split-then-join.
- `FileSystem`: the tree and the facade calls.
- `Paths`:
  - the project layout (`app_path`, `bootstrapPath`, `config_path`, `databasePath`, `public_path`, `resource_path`), which a project may relocate;
  - the fixed `base_path(...)` paths.
- `Preconditions`: the shared gate `WithCheck::check`, as a list of rules evaluated fail-fast.
- `WithDelete`: `WithDelete::delete` and its `Deleted <path>` line.
- `Runs`: how a command run ends, and the two messages both commands print.
- `SlimConsoleCommand` and `SlimApiCommand`: the two commands.

## Model

| member | source | states |
|---|---|---|
| FileSystem.ReplaceInFile | src/Console/SlimConsoleCommand.php:100-111 | raises exactly when the target is not a file; otherwise only that file changes, and its content is the `str_replace` of the searches, no path appears or disappears |
| FileSystem.Put | src/Console/SlimApiCommand.php:109-112 | succeeds exactly when the target is not a directory and its directory exists; the file then holds exactly the given content and every other path is as before |
| FileSystem.Append | src/Console/SlimApiCommand.php:119-122 | same success condition as writing; the file's new content is its old content (empty when missing) followed by the data, whose old content stays a prefix |
| FileSystem.DeleteDirectory | src/Console/SlimConsoleCommand.php:40-45 | the directory and everything below it are gone, paths elsewhere are untouched, and a path that is not a directory is left alone |
| FileSystem.DeleteFile | src/Console/SlimConsoleCommand.php:47-55 | a file is unlinked and nothing else changes; a directory or a missing path is left alone |
| FileSystem.Get | src/Console/Concerns/WithCheck.php:16 | reading succeeds exactly when the path is a file, and gives its content |
| FileSystem.DeleteDirectoryKeepsWellFormed | src/Console/Concerns/WithDelete.php:16-17 | a recursive directory removal leaves every remaining entry's ancestors in place |
| FileSystem.PutKeepsWellFormed | src/Console/SlimApiCommand.php:117 | writing a file into an existing directory keeps every entry's ancestors directories |
| Text.RemoveLength | src/Console/SlimApiCommand.php:90-96 | removing a literal shortens the text by its length times its non-overlapping match count, and leaves it unchanged exactly when the literal does not occur |
| Text.RemovalCanCreateMatch | src/Console/SlimConsoleCommand.php:100-111 | removal can assemble a new occurrence: removing `ab` from `aabb` leaves `ab`, so a removed literal may still occur afterwards |
| Text.ReplaceAllIsJoinOfSplit | src/Console/SlimConsoleCommand.php:116-126 | a replacement equals cutting the text at every non-overlapping occurrence and joining the pieces with the replacement |
| Text.JoinSplit | src/Console/SlimConsoleCommand.php:116-126 | cutting at a separator and joining with it gives back the text |
| Text.SplitPartsAvoidSeparator | src/Console/SlimConsoleCommand.php:116-126 | no piece between matches contains the separator, so matching is non-overlapping |
| Text.SplitCutsLeftmost | src/Console/SlimConsoleCommand.php:116-126 | every cut is at the leftmost occurrence: no piece followed by the start of the separator contains the separator, so no earlier match was skipped |
| Text.SplitCount | src/Console/SlimConsoleCommand.php:116-126 | there is one more piece than there are matches |
| Text.ReplaceAllLength | src/Console/SlimApiCommand.php:73-83 | a replacement changes the length by the length difference times the match count |
| Text.ReplaceAllWithoutMatch | src/Console/SlimApiCommand.php:90-96 | a search that does not occur leaves the text unchanged |
| Text.ReplaceAll | src/Console/SlimApiCommand.php:73-96 | `str_replace` with an empty search, or with a search replaced by itself, leaves the text unchanged |
| Text.Contains | src/Console/Concerns/WithCheck.php:16-31 | `Str::contains` finds only a non-empty needle no longer than the text |
| Text.Remove | src/Console/Concerns/WithDelete.php:22 | `Str::remove` never lengthens the text and leaves it as it is when the literal does not occur |
| Text.CountPositiveIffContains | src/Console/Concerns/WithCheck.php:16-33 | a non-empty literal has a match exactly when `Str::contains` finds it |
| Text.InsertAfterEach | src/Console/SlimApiCommand.php:75-79 | replacing a marker by the marker plus an insertion puts the insertion right after every occurrence, and the text grows by the insertion once per occurrence |
| Text.StrReplaceConcat | src/Console/SlimConsoleCommand.php:100-126 | the searches of an array are applied in order: a search list split at any point acts as its first part followed by its second part, with the replacement array shifted past the first part |
| Text.StrReplaceConcatSingle | src/Console/SlimConsoleCommand.php:100-111 | with one replacement string for all searches, splitting the search list needs no shift |
| Text.StrReplaceWithoutMatch | src/Console/SlimApiCommand.php:90-96 | searches none of which occur leave the text unchanged |
| Text.SingleIsRepeatedEach | src/Console/SlimConsoleCommand.php:109 | one replacement string for many searches is the same as an array repeating it |
| Text.EachIgnoresExtra | src/Console/SlimConsoleCommand.php:121-124 | replacements are paired with searches by index; extra replacements play no part |
| Text.RemovalStep | src/Console/SlimConsoleCommand.php:100-111 | in a list of removals, each shortens the text left by the earlier ones by its length times its match count there, and is a no-op exactly when it does not occur there |
| Text.StrReplace | src/Console/SlimConsoleCommand.php:100-111 | a list of removals (one empty replacement string for every search) never lengthens the text |
| Paths.FixedPathsDistinct | src/Console/SlimApiCommand.php:117-121 | the web, API and auth route files and the example test are different paths |
| Paths.AppFileIsNotWritten | src/Console/SlimApiCommand.php:95 | the bootstrap file, whatever the layout, is not `routes/auth.php`, `routes/api.php`, `routes/web.php` or the example test |
| Paths.UserModelIsNotWritten | src/Console/SlimApiCommand.php:82 | the user model is none of the other files the API command writes |
| Paths.PestConfigIsNotPatched | src/Console/SlimApiCommand.php:103 | `tests/Pest.php` is neither the bootstrap file nor the user model, whatever the layout, so the patches before the Pest test do not change its answer |
| Preconditions.Check | src/Console/Concerns/WithCheck.php:10-70 | answers `true` exactly when all thirteen conditions hold; raises exactly when the providers file exists but `bootstrap/app.php` is not a file; a missing providers file answers `false` without reading anything |
| Preconditions.Evaluate | src/Console/Concerns/WithCheck.php:10-70 | only an unreadable bootstrap file makes the evaluation raise, so rules that never read it always give a verdict |
| Preconditions.EvaluateIsConjunction | src/Console/Concerns/WithCheck.php:10-70 | fail-fast evaluation of the rules answers whether every rule holds |
| Preconditions.RuleOrderIrrelevant | src/Console/Concerns/WithCheck.php:10-70 | any rearrangement of the rules gives the same verdict; order decides only when the bootstrap file is read |
| Preconditions.HoldsForMembers | src/Console/Concerns/WithCheck.php:10-70 | rules drawn from a list that holds throughout hold too |
| Preconditions.ApiRulesMeanEligible | src/Console/Concerns/WithCheck.php:12-67 | the thirteen rules, one by one, say what eligibility says |
| WithDelete.Delete | src/Console/Concerns/WithDelete.php:10-23 | a missing path changes nothing and reports nothing; otherwise one `Deleted` line; afterwards the path is absent, a directory's contents are gone, a file is the only entry removed, and everything else is unchanged |
| WithDelete.DeleteTwice | src/Console/Concerns/WithDelete.php:12-22 | deleting again changes nothing and reports nothing |
| WithDelete.DeleteRemovesSubtree | src/Console/Concerns/WithDelete.php:16-19 | in a well-formed tree the path and everything below it are absent afterwards, and the tree stays well-formed |
| WithDelete.DeleteKeepsWellFormed | src/Console/Concerns/WithDelete.php:16-20 | deleting anything keeps a well-formed tree well-formed |
| WithDelete.DeleteAll | src/Console/SlimApiCommand.php:47-57 | after the deletions every target is absent, only removals happened, paths outside the targets are unchanged, and each reported line names one of the targets; which targets are reported, and in what order, is stated by `WithDelete.DeleteAllReportsPresent` and `WithDelete.DeleteAllReportsInOrder` |
| WithDelete.DeleteAllReportsPresent | src/Console/Concerns/WithDelete.php:12-22 | a first target that exists is reported on the first line, and every target still present when its turn comes (no earlier target was it or lay above it) gets its `Deleted` line |
| WithDelete.DeleteAllReportsInOrder | src/Console/Concerns/WithDelete.php:12-22 | the reported lines name targets that existed before the deletions, each target at most once, in the order of the targets: nothing is reported for a path that was already missing |
| WithDelete.DeleteAllOfAbsent | src/Console/Concerns/WithDelete.php:12-14 | deleting paths that are all absent changes nothing and reports nothing |
| WithDelete.DeleteAllTwice | src/Console/Concerns/WithDelete.php:12-22 | running the same deletions again leaves the tree as it was and reports nothing |
| WithDelete.DeleteAllKeepsWellFormed | src/Console/SlimApiCommand.php:47-57 | the deletions keep a well-formed tree well-formed |
| WithDelete.DeletedLine | src/Console/Concerns/WithDelete.php:22 | the line starts with `Deleted ` and is never longer than that prefix plus the absolute path |
| WithDelete.DeletedLineShowsRelativePath | src/Console/Concerns/WithDelete.php:22 | when the relative path does not itself contain the base path and a slash, the line names exactly the path relative to the project |
| WithDelete.DeletedLineAtFilesystemRoot | src/Console/Concerns/WithDelete.php:22 | `Str::remove` strips every occurrence: with an empty base path both slashes of a two-segment path disappear from the line |
| WithDelete.WebRoutesLineAtFilesystemRoot | src/Console/Concerns/WithDelete.php:22 | a project at the filesystem root reports its web routes as `Deleted routesweb.php` |
| WithDelete.RemoveAround | src/Console/Concerns/WithDelete.php:22 | removing slashes from `a/b` where `a` has none keeps `a` and removes the slashes of `b` |
| WithDelete.RemoveSlashes | src/Console/Concerns/WithDelete.php:22 | a text without slashes is unchanged by removing slashes |
| SlimConsoleCommand.ConsoleCheck | src/Console/SlimConsoleCommand.php:65-96 | answers `true` exactly when all seven conditions hold; raises exactly when the providers file exists but `bootstrap/app.php` is not a file |
| SlimConsoleCommand.ConsoleRulesMeanEligible | src/Console/SlimConsoleCommand.php:67-93 | the seven rules, one by one, say what console eligibility says |
| SlimConsoleCommand.ApiGateImpliesConsoleGate | src/Console/SlimConsoleCommand.php:65-96 | with the bootstrap directory and `databasePath()` in their default places, a project the shared gate accepts passes the console gate |
| SlimConsoleCommand.ApiInstalledPassesConsoleGate | src/Console/SlimConsoleCommand.php:65-96 | a skeleton that already has `routes/api.php` (and all else in place) passes the console gate |
| SlimConsoleCommand.ApiInstalledFailsSharedGate | src/Console/Concerns/WithCheck.php:43-45 | the same project fails the shared gate with `false` |
| SlimConsoleCommand.ConsoleGateIsNarrower | src/Console/SlimConsoleCommand.php:65-96 | the converse fails: a project with `routes/api.php` passes the console gate and fails the shared one |
| SlimConsoleCommand.DeleteDirectories | src/Console/SlimConsoleCommand.php:40-45 | no target is a directory afterwards, only removals happened, and paths outside the targets are unchanged |
| SlimConsoleCommand.DeleteFiles | src/Console/SlimConsoleCommand.php:47-55 | no target is a file afterwards, only removals happened, and other paths are unchanged |
| SlimConsoleCommand.RemoveScaffolding | src/Console/SlimConsoleCommand.php:40-55 | afterwards no directory target is a directory and no file target is a file, only removals happened, and every path outside the directory targets that is not a file target is unchanged |
| SlimConsoleCommand.DeleteDirectoriesKeepsWellFormed | src/Console/SlimConsoleCommand.php:40-45 | the directory removals keep a well-formed tree well-formed |
| SlimConsoleCommand.DeleteFilesKeepsWellFormed | src/Console/SlimConsoleCommand.php:47-55 | the file removals keep a well-formed tree well-formed |
| SlimConsoleCommand.ReplaceBootstrap | src/Console/SlimConsoleCommand.php:98-112 | raises unless `bootstrap/app.php` is a file; the four lines are removed one after another from the running result; the file never grows and no other path changes |
| SlimConsoleCommand.BootstrapRemovalSteps | src/Console/SlimConsoleCommand.php:100-111 | each of the four removals is a no-op where its line does not occur, and otherwise shrinks the text by the line's length per occurrence |
| SlimConsoleCommand.ReplaceExampleTest | src/Console/SlimConsoleCommand.php:114-127 | raises unless the example test is a file; `get('/')` becomes `artisan('inspire')`, then `assertStatus(200)` becomes `assertOk()`; no other path changes |
| SlimConsoleCommand.ExampleTestPatch | src/Console/SlimConsoleCommand.php:114-127 | the example test patch is cutting at every request to `/` and joining with the console command, then cutting at every status assertion and joining with `assertOk()` |
| SlimConsoleCommand.ExampleTestPatchLength | src/Console/SlimConsoleCommand.php:116-125 | each request to `/` grows the test by ten characters and each status assertion left afterwards shrinks it by seven |
| SlimConsoleCommand.TestPatchInOrder | src/Console/SlimConsoleCommand.php:116-125 | the two searches apply one after the other, the second to the result of the first |
| SlimConsoleCommand.Convert | src/Console/SlimConsoleCommand.php:40-58 | succeeds exactly when `bootstrap/app.php` and the example test are files after the deletions; then the key set is that of the tree after the deletions, every other path is as it was, the bootstrap file holds its old content with the four lines removed, and the example test holds its old content with both replacements made |
| SlimConsoleCommand.Handle | src/Console/SlimConsoleCommand.php:32-63 | a rejected project is left as it was, with exit code 1 and the rejection message; a raising gate crashes; exit code 1 happens only for a project the gate rejects, which is then left as it was; an eligible project exits with 0 exactly when both patched files are still files after the deletions; on exit code 0 no directory target is still a directory and no file target is still a file (a file at a directory target survives, as does a directory at a file target), every path outside the targets other than the two patched files is unchanged, those two hold exactly their patched contents, and the output is the success message |
| SlimConsoleCommand.ConvertKeepsRemovals | src/Console/SlimConsoleCommand.php:40-58 | the two patches keep every deletion and change nothing else |
| SlimConsoleCommand.PatchedFilesSurviveDeletions | src/Console/SlimConsoleCommand.php:40-58 | in the default layout the deletions leave `bootstrap/app.php` and the example test as they were |
| SlimConsoleCommand.SkeletonConverts | tests/Feature/SlimTest.php:36-46 | an eligible default skeleton with its example test, `public`, `resources` and `routes/web.php` converts with exit code 0, and those three are gone afterwards |
| SlimConsoleCommand.RerunRejected | src/Console/SlimConsoleCommand.php:40-55 | a converted project fails the console gate with `false`, since `routes/web.php` is gone when it was not a directory, and `database`, `public` or `resources` is gone when it was one; so a second run exits with 1 and changes nothing |
| SlimConsoleCommand.ConversionKeepsWellFormed | src/Console/SlimConsoleCommand.php:40-58 | a run keeps a well-formed project well-formed |
| SlimConsoleCommand.ConversionRemovesTargets | src/Console/SlimConsoleCommand.php:40-55 | in a well-formed skeleton, every target is absent after success, and nothing below a directory target survives |
| SlimApiCommand.ReplaceUser | src/Console/SlimApiCommand.php:69-84 | raises unless the user model is a file; its content becomes the two replacements made in order; no other path changes |
| SlimApiCommand.PatchUserInserts | src/Console/SlimApiCommand.php:73-83 | the Sanctum import lands right after every Notifiable import and the trait is added to every trait line, as cut-and-join; exact length growth; a model with neither line is unchanged |
| SlimApiCommand.ReplaceBootstrap | src/Console/SlimApiCommand.php:86-97 | raises unless `bootstrap/app.php` is a file; every web routes line is removed; the file shrinks by the line length per occurrence and is unchanged exactly when it has none |
| SlimApiCommand.ReplaceExampleTest | src/Console/SlimApiCommand.php:99-113 | a Pest project is left as it is; otherwise the example test becomes exactly the stub, raising when its directory is missing or it is a directory |
| SlimApiCommand.Auth | src/Console/SlimApiCommand.php:115-123 | `routes/auth.php` becomes exactly the stub, and `routes/api.php` becomes its old content (empty when missing) followed by the require line, so it ends with it; raises unless `routes` is a directory and neither target is one |
| SlimApiCommand.Patch | src/Console/SlimApiCommand.php:59-62 | succeeds exactly when the user model and bootstrap file are files, unless Pest is in use the example test is not a directory and its directory exists, `routes` is a directory and neither route target is one; then every path the command does not write is unchanged, the user model and bootstrap file hold their patched old contents, a Pest project's example test is untouched and otherwise is the stub, `routes/auth.php` is the stub, `routes/api.php` is its old content followed by the require line, and only those three written paths can appear |
| SlimApiCommand.RewriteSteps | src/Console/SlimApiCommand.php:69-97 | the two rewrites keep the key set, change only the user model and bootstrap file, and give each its patched old content |
| SlimApiCommand.WriteSteps | src/Console/SlimApiCommand.php:99-123 | the three writes add at most the example test and the two route files, change nothing else, and give each its exact content |
| SlimApiCommand.Convert | src/Console/SlimApiCommand.php:47-66 | succeeds exactly when the tree after the deletions can be patched; then the patched files hold the contents `Patch` states, every path outside the targets that the command does not write is unchanged, the project is converted, and the output is exactly the deletion lines, the three `Replace` lines, the Pest skip when `tests/Pest.php` exists, then the success message |
| SlimApiCommand.PatchConverts | src/Console/SlimApiCommand.php:47-62 | patches made as `Patch` states recreate none of the deleted front-end paths |
| SlimApiCommand.Handle | src/Console/SlimApiCommand.php:36-67 | a rejected project is left as it was, before `install:api` runs, with exit code 1 and the rejection message; a raising gate crashes; exit code 1 happens only for a project the gate rejects, which is then left as it was; an eligible project exits with 0 exactly when the tree left by `install:api`, `migrate` and the deletions can be patched; on exit code 0 the project is converted with the contents, frame and exact output `Convert` states |
| SlimApiCommand.RerunRejected | src/Console/SlimApiCommand.php:117-121 | a converted project has `routes/api.php` and a readable bootstrap file, so the shared gate answers `false`, and a second run exits with 1 whatever `install:api` would do |
| SlimApiCommand.ConvertKeepsWellFormed | src/Console/SlimApiCommand.php:47-62 | starting from a well-formed tree, the conversion keeps it well-formed |
| SlimApiCommand.PatchKeepsWellFormed | src/Console/SlimApiCommand.php:59-62 | the four patches keep a well-formed tree well-formed |
| SlimApiCommand.ResourcesGone | src/Console/SlimApiCommand.php:49 | nothing below the resources directory survives a conversion |

## Left out

- `install:api` and `migrate` (src/Console/SlimApiCommand.php:44-45) are opaque Artisan calls. They are the `external` parameter of `SlimApiCommand.Handle`, and nothing is assumed about what they do.
- The two stub files are parameters (`SlimApiCommand.Stubs`), because they are copied verbatim. The package-relative read of `stubs/api/ExampleTest.php` is assumed to succeed.
- `SlimServiceProvider` only registers `SlimConsoleCommand` with Artisan. It has no logic to model.
- Output is modelled only for these lines:
  - the `Deleted` line of `delete`;
  - the `Replace` lines of the API command;
  - the Pest skip line;
  - the rejection and success messages.
- Terminal colour tags are dropped. The output of `install:api` and `migrate` is not modelled.
- tests/Feature/SlimTest.php:40 expects a line `Delete routes/web.php`. The console command never prints it: `SlimConsoleCommand.Handle` states that a successful run prints only the success message.
- A run that raises is `Crashed`. The partly converted tree it leaves behind is not modelled, because the commands do not handle the exceptions.
- `install:api` and `migrate` are taken never to raise, and their exit codes are ignored, as in the source.
- `PHP_EOL` is `"\n"`. The multi-line literal of src/Console/SlimConsoleCommand.php:105-107 is taken to use line feeds.
- `File::exists` and `File::missing` on an empty path are not modelled: the base path itself is not an entry of the tree.
- Patching a missing file is not a no-op: `File::replaceInFile` reads the file first, so it raises (`FileSystem.ReplaceInFile`).
- Removing a marker takes out every non-overlapping occurrence in one pass:
  - the length drops by the marker's length times the match count (`Text.RemoveLength`);
  - a new occurrence can remain afterwards (`Text.RemovalCanCreateMatch`).
- SlimConsoleCommand.RerunRejected: requires that `routes/web.php` was not a directory, or that one of `database`, `public` and `resources` was. Otherwise `File::delete` leaves the `routes/web.php` directory and `File::deleteDirectory` leaves the other three, which are files, so every path the second gate requires is still there.
- SlimConsoleCommand.ConversionRemovesTargets: requires a well-formed tree whose targets have the kind the command expects. `File::deleteDirectory` leaves a file in place, and `File::delete` leaves a directory.
- SlimApiCommand.Handle: states that the resources directory is gone only when it is none of the three files the command writes, which is always the case in the default layout.
