# Portainer AngularJS → React migration tracker, modelled in Dafny

The tracker measures how far the Portainer front end has moved from AngularJS to React.

## How the tracker works

**The per-file classifier.** `analyzeFileContent` is the core.
- It derives a module key from a file's directory.
- It counts the file as one of three things:
  - an AngularJS template (any `.html`);
  - an AngularJS file (a path or content rule of the AngularJS rule set);
  - a React file (a `.tsx`/`.jsx` extension, or a React import together with an export shape or a JSX tag).
- A hybrid file counts as AngularJS.

**Scans.** A scan folds the classifier over the files of a directory tree.
- The fold starts from the all-zero state that `createResults` builds.
- The walk prunes `node_modules`, `dist` and `build`.
- It analyses only the `.js`, `.ts`, `.tsx` and `.html` suffixes.
- `printSummary` lists the modules of the map it is given, by decreasing AngularJS count.

**Side reports.**
- **Most-changed templates.** This list reads `git log | sort | uniq -c | sort -nr` output. It keeps the files that still exist at HEAD and stops at a limit.
- **History series.** This series walks a `git log` listing oldest first. It samples one snapshot per `interval` days, measured from the last successful sample, and appends new snapshots to the existing ones.
- **Dashboard lists.** Module cards are ordered by a fixed rank table. The directory list shows the 15 largest directories.

## Modules

Everything is a pure function over immutable values, with one exception. The loop of the most-changed list is a method, with loop invariants.

| module | file | models |
|---|---|---|
| `Wrappers` | wrappers.dfy | `Option` and `Result` |
| `Text` | text.dfy | JavaScript whitespace, `trim`, `split` and `join` on one character, suffix tests |
| `Types` | types.dfy | the records the analyzer builds |
| `Config` | config.dfy | the excluded directory names and the analysed suffixes |
| `Patterns` | patterns.dfy | every path and content rule (details below) |
| `FileAnalyzer` | file_analyzer.dfy | module-key derivation, classification, the counter update, a scan as a fold |
| `ResultsManager` | results_manager.dfy | the zero state and the printed summary |
| `LocalScanner` | local_scanner.dfy | the walk over an in-memory directory tree |
| `Sorting` | sorting.dfy | a stable insertion sort by an integer key (JavaScript's `Array.prototype.sort` is stable) |
| `GitHistory` | git_history.dfy | `getMostChangedHtmlFiles` |
| `History` | history.dfy | `analyzeCommit` and `generateHistoryFromGit` |
| `ModuleBreakdown` | module_breakdown.dfy | the module cards' filter, sort and title |
| `DirectoryList` | directory_list.dfy | the top-15 directory list |

**How `Patterns` models the rules.**
- Each path rule is a suffix test.
- Deterministic content rules are scanners. These are the JSX tag, the export shape, `@ngInject` and `import angular`. Each scanner is proved equal to a literal reading of its regular expression.
- The React import and the six `angular.module(...)` registration rules contain a backtracking `.*`. These are written as bounded existentials.

**Oracles.** Git, the clock and the file system are outside the model. They arrive as parameters:
- `git log` output is an `Option<string>`; `None` means the command threw.
- `git cat-file -e` is a predicate on paths.
- A checkout is the `app` tree it leaves, or a failure.
- `new Date(text).getTime()` is a partial function to integer milliseconds. `None` stands for an Invalid Date.
- A directory is a tree whose entry order is `readdirSync`'s order.

## Model

| member | source | states |
|---|---|---|
| FileAnalyzer.RelativePath | src/analyzer/file-analyzer.ts:19 | without a base directory the path is used as is; under `baseDir/` the result is the remainder that rebuilds the full path |
| FileAnalyzer.DirnameSegments | src/analyzer/file-analyzer.ts:20 | `dirname` of a path keeps all segments but the last; it reports `.` for a bare file name and `/` only for a single leading separator |
| FileAnalyzer.ModuleOfSegments | src/analyzer/file-analyzer.ts:19-29 | the module key in terms of the path's segments: `react/<second>` when the directory starts with `react` and has a second segment, otherwise the first segment, and `.` for a file with no directory part |
| FileAnalyzer.ModuleKeyOfReactFeature | src/analyzer/file-analyzer.ts:25-26 | a file under `react/portainer/` belongs to module `react/portainer` |
| FileAnalyzer.ModuleKeyOfReactRoot | src/analyzer/file-analyzer.ts:25-28 | a file directly under `react/` belongs to module `react` |
| FileAnalyzer.ModuleKeyOfFeatureDirectory | src/analyzer/file-analyzer.ts:27-28 | a file under `docker/` belongs to module `docker` |
| FileAnalyzer.ModuleKeyOfTopLevelFile | src/analyzer/file-analyzer.ts:28 | a file with no directory belongs to module `.` |
| FileAnalyzer.Analyze | src/analyzer/file-analyzer.ts:13-84 | one call keeps the source, adds exactly its own module key to the map, leaves every other module alone, decreases no counter, moves at most one category, and moves the React total exactly as its module's React count |
| FileAnalyzer.Record | src/analyzer/file-analyzer.ts:31-83 | the counter update seeds the module entry, then bumps at most one category; the React total moves together with the module's React count |
| FileAnalyzer.RecordByKind | src/analyzer/file-analyzer.ts:36-83 | the update moves exactly the counters of the chosen category: the template total, the module's AngularJS count, or the React total with the module's React count |
| FileAnalyzer.AnalyzeByKind | src/analyzer/file-analyzer.ts:36-83 | the classifier moves exactly the counters of the category the rules select, with templates first and AngularJS before React |
| FileAnalyzer.AnalyzeTemplate | src/analyzer/file-analyzer.ts:31-40 | an `.html` path adds one template and no React file; every existing module keeps its counts; its own module is at most seeded with zeros |
| FileAnalyzer.AnalyzeAngularJSWins | src/analyzer/file-analyzer.ts:58-83 | a non-template file matching any AngularJS rule adds one to its module's AngularJS count, even when it is also React; no React counter or summary total moves |
| FileAnalyzer.AnalyzeReactExtension | src/analyzer/file-analyzer.ts:46-79 | a `.tsx`/`.jsx` file with no AngularJS match is counted as React whatever its content |
| FileAnalyzer.AnalyzeEmptyReactFile | src/analyzer/file-analyzer.ts:46-79 | an empty `.tsx`/`.jsx` file is counted as React |
| FileAnalyzer.AnalyzeImportOnly | src/analyzer/file-analyzer.ts:47-56 | without the extension, a React import with neither an export shape nor a JSX tag is not counted as React |
| FileAnalyzer.AnalyzeTotals | src/analyzer/file-analyzer.ts:76-83 | one call raises the sum of module React counts by one exactly for a React file, and the sum of module AngularJS counts by one exactly for an AngularJS file |
| FileAnalyzer.AnalyzeKeepsReactTotals | src/analyzer/file-analyzer.ts:76-79 | the invariant "React total = sum of module React counts" is preserved by every call |
| FileAnalyzer.ScanCounts | src/analyzer/file-analyzer.ts:36-83 | after a scan the template total, the React total and both per-module sums have grown by the numbers of template, React and AngularJS files scanned; the React invariant is kept |
| FileAnalyzer.ScanKeys | src/analyzer/file-analyzer.ts:31-34 | a scan gains exactly the module keys of the scanned files |
| Patterns.TemplateExcludesScriptRules | src/analyzer/patterns.ts:21-36 | no `.html` path satisfies a controller, service or directive rule or the React extension rule |
| Patterns.FileKindRulesNeedJs | src/analyzer/patterns.ts:22-24 | the controller, service and directive rules need `.js`; a `.ts`, `.tsx` or `.jsx` path matches none of them |
| Patterns.NgInjectScanIsRegex | src/analyzer/patterns.ts:31 | the `@ngInject` scanner accepts at an index exactly when `/*`, optional whitespace, `@ngInject`, optional whitespace and `*/` occur there |
| Patterns.AngularImportScanIsRegex | src/analyzer/patterns.ts:32 | the `import angular from 'angular'` scanner accepts exactly the regular expression's matches, with either quote |
| Patterns.ReactExportScanIsRegex | src/analyzer/patterns.ts:38 | the export scanner accepts exactly `export`, whitespace, an optional `default` plus whitespace, then `function` or `const` |
| Patterns.JsxScanIsRegex | src/analyzer/patterns.ts:39 | the JSX scanner accepts exactly `<`, an upper-case ASCII letter, ASCII letters or digits, then whitespace, `>` or `/` |
| Patterns.LowercaseTagsNeverMatch | src/analyzer/patterns.ts:39 | a text whose every `<` is followed by something other than an upper-case letter never matches the JSX rule |
| Patterns.JsxTagExamples | src/analyzer/patterns.ts:39 | `<Widget>` and `<Widget/>` are JSX |
| Patterns.JsxNonTagExamples | src/analyzer/patterns.ts:39 | `<div>` and a tag name that runs to the end of the text are not JSX |
| ResultsManager.CreateResults | src/analyzer/results-manager.ts:11-22 | the starting state has the given source, both totals zero, no modules and no most-changed list |
| ResultsManager.ScanFromZero | src/analyzer/results-manager.ts:11-22 | a whole scan from the zero state has totals equal to the per-category file counts and exactly the scanned files' module keys; the React totals agree |
| ResultsManager.ModuleProgress | src/analyzer/results-manager.ts:64-66 | a module with no files reports 0 without dividing; otherwise progress times the file total is 100 times the React files, between 0 and 100 |
| ResultsManager.ModuleProgressExtremes | src/analyzer/results-manager.ts:64-66 | progress is 100 exactly when no AngularJS file is left and some React file exists, and 0 exactly when there is no React file |
| ResultsManager.EntriesOfLines | src/analyzer/results-manager.ts:63-69 | the printed module lines give back exactly the entries they were printed from |
| ResultsManager.SortedModules | src/analyzer/results-manager.ts:59-61 | the summary order is a permutation of the entries in non-increasing AngularJS count |
| ResultsManager.PrintSummary | src/analyzer/results-manager.ts:35-71 | the report shows the remaining templates (= template total) against the 391 baseline and the React total; its module lines are a permutation of the entries in non-increasing AngularJS order, each with its own progress |
| ResultsManager.PrintSummaryStable | src/analyzer/results-manager.ts:59-61 | modules with equal AngularJS counts keep their `Object.entries` order |
| ResultsManager.ListingCoversModules | src/analyzer/results-manager.ts:59-63 | listed from a module map's entries, the summary names every module of the map with its own stats, and nothing else |
| LocalScanner.AnalyzeLocal | src/analyzer/local-scanner.ts:37-45 | a missing root fails before any file is classified; only a directory root succeeds; a successful scan equals the classifier folded over the eligible files in walk order, with the root as base directory |
| LocalScanner.WalkIsFold | src/analyzer/local-scanner.ts:14-32 | the walk equals the classifier folded once over each eligible file (no excluded directory above it, an analysed suffix), in walk order, with the scan's base directory |
| LocalScanner.VisitIsFold | src/analyzer/local-scanner.ts:21-30 | one entry of the walk equals the fold over its eligible files |
| LocalScanner.ExcludedSubtreeIneligible | src/analyzer/local-scanner.ts:21-25 | nothing below an excluded directory is eligible, at any depth |
| LocalScanner.ExcludedDirectorySkipped | src/analyzer/local-scanner.ts:21-25 | an excluded directory is skipped with everything below it |
| LocalScanner.ExclusionIsForDirectoriesOnly | src/analyzer/local-scanner.ts:21-29 | a file named `dist.js` is classified like any other `.js` file |
| LocalScanner.AnalysedSuffixes | src/analyzer/local-scanner.ts:27 | a file is analysed if and only if its name ends with `.js`, `.ts`, `.tsx` or `.html` |
| LocalScanner.JsxFilesNotAnalysed | src/analyzer/local-scanner.ts:27 | a `.jsx` file is never analysed |
| Sorting.SortBy | src/analyzer/results-manager.ts:59-61 | the sort returns a permutation of its input in ascending key order |
| Sorting.Insert | src/analyzer/results-manager.ts:59-61 | inserting into a sorted list keeps it sorted and adds exactly the new element |
| Sorting.SortByStable | src/components/DirectoryList.tsx:6-7 | elements with equal keys keep their input order |
| Sorting.SortBySorted | src/components/DirectoryList.tsx:6-7 | an already sorted list is returned unchanged |
| Sorting.SortByIdempotent | src/components/DirectoryList.tsx:6-7 | sorting twice is sorting once |
| GitHistory.DecimalString | src/analyzer/git-history.ts:38 | the count numeral `uniq -c` prints is a non-empty run of digits with no leading zero, and `parseInt` reads back its value |
| GitHistory.NonBlank | src/analyzer/git-history.ts:29-32 | the kept lines are exactly the lines that do not trim to nothing |
| GitHistory.NonBlankConcat | src/analyzer/git-history.ts:29-32 | filtering a concatenation filters each part, so the kept lines stay in their order |
| GitHistory.EntryScanIsRegex | src/analyzer/git-history.ts:36 | a trimmed line is accepted exactly when it is digits, whitespace, then a non-empty remainder with no line terminator |
| GitHistory.EntryShapeScans | src/analyzer/git-history.ts:36-39 | a matching line yields the entry whose count is the decimal value of its digits and whose path is the remainder |
| GitHistory.ParseRow | src/analyzer/git-history.ts:36-39 | parsing a printed `<count> <path>` row, with any leading padding, gives back its entry |
| GitHistory.MostChangedHtmlFiles | src/analyzer/git-history.ts:14-70 | a failed git command gives the empty list; otherwise the result is the first `max(limit, 1)` entries, in output order, that parse and exist at HEAD |
| GitHistory.TakeCandidates | src/analyzer/git-history.ts:35-59 | the loop collects the candidates in order and stops right after the push that reaches the limit |
| GitHistory.KeptSplit | src/analyzer/git-history.ts:50-53 | where the loop stops, it has collected a prefix of all the candidates |
| GitHistory.KeptOfEntries | src/analyzer/git-history.ts:42-57 | lines that all parse give their entries that exist at HEAD, in order |
| GitHistory.LinesOfOutput | src/analyzer/git-history.ts:29-32 | the lines of a printed output are its rows, the first one without padding |
| GitHistory.CandidatesOfOutput | src/analyzer/git-history.ts:29-57 | end to end, the output `uniq -c` prints for some entries yields exactly those entries that exist at HEAD, in order |
| History.NonEmpty | src/analyzer/generate-history.ts:122 | only empty log lines are dropped; whitespace-only lines stay |
| History.NonEmptyConcat | src/analyzer/generate-history.ts:122 | filtering a concatenation filters each part, so the kept log lines stay in their order |
| History.CommitOfLogLine | src/analyzer/generate-history.ts:123-126 | splitting a printed `%H %aI` line at spaces gives back its hash and timestamp |
| History.ParseLogOfLog | src/analyzer/generate-history.ts:114-126 | parsing a printed log listing gives back its commits, in git's order |
| History.Reverse | src/analyzer/generate-history.ts:133 | the loop visits the commits in reverse log order, oldest first |
| History.ReverseAround | src/analyzer/generate-history.ts:133 | reversing puts the commits older than a given one before it |
| History.AnalyzeCommit | src/analyzer/generate-history.ts:28-64 | a snapshot exists exactly when the checkout succeeds and leaves an `app` directory; it carries the commit's timestamp and the template and React counts of a fresh scan of `app` |
| History.DueInMilliseconds | src/analyzer/generate-history.ts:135-140 | after a first sample, a commit is due exactly when its date is at least `interval` days of milliseconds after the mark |
| History.Sample | src/analyzer/generate-history.ts:133-158 | every sample is a listed commit with the date and snapshot its analysis gave |
| History.NotDueSkipped | src/analyzer/generate-history.ts:135-140 | a commit that is not due is passed over without being analysed |
| History.FailuresInvisible | src/analyzer/generate-history.ts:144-152 | commits whose analysis fails add no snapshot and leave the mark where it was |
| History.FirstSuccessSampled | src/analyzer/generate-history.ts:133-152 | with nothing sampled yet, the loop finishes without throwing and the first commit whose analysis succeeds is the first sample |
| History.SampleAfterFirst | src/analyzer/generate-history.ts:135-143 | once a sample exists the loop never throws: an Invalid Date fails the gate's comparison and never reaches `formatDate` |
| History.SampleSpaced | src/analyzer/generate-history.ts:135-152 | every sample passed the gate against the previous successful sample, or the starting mark |
| History.SpacedAfterMark | src/analyzer/generate-history.ts:100-139 | for a non-negative interval, every sample is at least the interval after the starting mark |
| History.SpacedIncreasing | src/analyzer/generate-history.ts:135-152 | for a positive interval, sample dates strictly increase |
| History.StartMark | src/analyzer/generate-history.ts:98-111 | a full run starts with no mark; an incremental run throws exactly when the last existing snapshot's date is invalid, and otherwise starts from that date |
| History.GenerateHistory | src/analyzer/generate-history.ts:72-178 | the existing snapshots are always a prefix of the result; each throw the catch handles returns them unchanged, as stated by History.GitFailureKeepsExisting, History.InvalidLastDateKeepsExisting and History.InvalidSampleDateKeepsExisting |
| History.GitFailureKeepsExisting | src/analyzer/generate-history.ts:174-177 | when git's log or the branch handling throws, the existing snapshots come back unchanged |
| History.InvalidLastDateKeepsExisting | src/analyzer/generate-history.ts:100-177 | when the last existing snapshot's date is invalid, `toISOString` throws and the existing snapshots come back unchanged |
| History.InvalidSampleDateKeepsExisting | src/analyzer/generate-history.ts:133-177 | when `formatDate` throws inside the loop, the existing snapshots come back unchanged, and this can only happen in a full run |
| History.SampledDates | src/analyzer/generate-history.ts:119-152 | a new snapshot's timestamp parses to the date of the commit it came from |
| History.IncrementalGap | src/analyzer/generate-history.ts:100-168 | in an incremental run with a non-negative interval, every new snapshot has a valid date at least `interval` days after the last existing snapshot |
| History.NewDatesIncrease | src/analyzer/generate-history.ts:135-168 | for a positive interval, the new snapshots' dates strictly increase |
| History.OldestSuccessFirst | src/analyzer/generate-history.ts:119-152 | in a full run over a printed log, when the oldest commits fail and the next succeeds, a run whose branch is restored is nonempty and starts with that commit's snapshot |
| History.FreshRunIsSamples | src/analyzer/generate-history.ts:98-168 | with no snapshots yet and the branch restored, the result is exactly the run's samples |
| ModuleBreakdown.Retained | src/components/ModuleBreakdown.tsx:20 | every retained module has an AngularJS or a React file |
| ModuleBreakdown.RetainedCounts | src/components/ModuleBreakdown.tsx:20 | filtering keeps each visible entry as often as it occurs and drops every other |
| ModuleBreakdown.SortedModules | src/components/ModuleBreakdown.tsx:19-25 | the cards are a permutation of the visible entries, in non-decreasing rank |
| ModuleBreakdown.SortedModulesAreVisibleEntries | src/components/ModuleBreakdown.tsx:19-25 | each visible entry is shown exactly as often as the input holds it; nothing else is shown |
| ModuleBreakdown.SortedModulesStable | src/components/ModuleBreakdown.tsx:21-25 | modules of equal rank keep their input order |
| ModuleBreakdown.RankTable | src/components/ModuleBreakdown.tsx:7-23 | docker < kubernetes < portainer < edge < azure < agent < react < `.`, and every unconfigured key ranks after all of them |
| ModuleBreakdown.ConfiguredFirst | src/components/ModuleBreakdown.tsx:21-25 | configured modules come before every unconfigured one (such as `react/portainer`) |
| ModuleBreakdown.DisplayName | src/components/ModuleBreakdown.tsx:48 | a configured module shows its configured name; the raw key is shown exactly when none is configured |
| DirectoryList.Ranked | src/components/DirectoryList.tsx:6-7 | all entries, permuted into non-increasing count order |
| DirectoryList.TopDirectories | src/components/DirectoryList.tsx:6-8 | at most 15 entries, all of them when there are at most 15, in non-increasing count order |
| DirectoryList.TopDirectoriesSplit | src/components/DirectoryList.tsx:6-8 | shown plus omitted entries are the input, each once; exactly min(n, 15) are shown; no omitted count exceeds a shown one |
| DirectoryList.RankedStable | src/components/DirectoryList.tsx:6-7 | directories with equal counts keep their input order |
| DirectoryList.DirectoryLabel | src/components/DirectoryList.tsx:23 | no row is blank: the empty key is shown as `(root)`, every other key as itself |

## Left out

- **The `/g` flag on the AngularJS content rules** (src/analyzer/patterns.ts:25-32).
  - With that flag, `.test` carries `lastIndex` from one file to the next. A match can therefore be missed after an earlier match.
  - The model treats every rule as a pure predicate.
- **`Results.timestamp` and other clock reads.** This covers `new Date().toISOString()`, the "four years ago" `--since` date and the `generated` field of the history file.
- **The overall migration percentage.** `toFixed(1)` strings and the float percentage are left out. Module progress is modelled as an exact rational.
- **`path.relative` and `path.dirname` in general.**
  - Paths are relative, with single `/` separators.
  - A file outside `baseDir` keeps its own path.
  - `..` segments, repeated or trailing slashes and absolute paths are not modelled.
- **Prototype keys of plain objects.** `MODULE_CONFIG["constructor"]` and a module named `__proto__` are not modelled; maps hold only real keys.
- **Listing order.** `Object.entries` order and `readdirSync` order are taken as inputs: an entry sequence and a tree's child order.
- **Symbolic links and `statSync` errors.** A failing `readdirSync` on a plain-file root is modelled as a `NotADirectory` error.
- **`parseInt` above 2^53.** Counts are unbounded naturals.
- **`src/analyzer/github-scanner.ts`.** It is a network client that feeds the same classifier.
- **Command-line plumbing.** This covers `main()` in generate-history.ts, both `analyze.ts` files, JSON reading and writing, `process.exit` and console logging.
- **Git itself.** Process execution and git itself are oracles: log output, checkout results, `cat-file` existence and whether the branch is restored.
- **The `printSummary` call sites.** Both entry points (src/analyzer/analyze.ts:45 and analyze.ts:42) pass `results.byDirectory`, a field `createResults` never builds. `Object.entries(undefined)` then throws at src/analyzer/results-manager.ts:59 and no module listing prints. The call sites are not modelled; ResultsManager.PrintSummary models `printSummary` given a real module map.
- **`src/types.ts`.** It declares a `Summary` and a `Results` that `createResults` never builds, so the record shapes follow file-analyzer.ts and results-manager.ts instead.
- **The React components' markup.** Only the list logic of ModuleBreakdown.tsx and DirectoryList.tsx is modelled.
- History.Due: compares with exact real division. The source's floating-point division of millisecond differences is not modelled. A non-integer or NaN `sampleInterval` is not modelled either: intervals are integers.
- History.IncrementalGap: stated for a non-negative interval only. For a negative interval the gate admits commits older than the last snapshot, and the lemma says nothing about them.
- History.GitFailureKeepsExisting: the git failures are folded into the log `Option` and one `restores` flag. The flag covers both reading the current branch and checking it out again, so which of the two commands failed is not distinguished.
- GitHistory.MostChangedHtmlFiles: `limit` is an integer. A NaN or fractional limit is not modelled.
