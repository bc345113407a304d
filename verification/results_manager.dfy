/** The aggregation state's starting point and the console summary printed
    after a scan: totals against the fixed baseline, then one line per
    module in decreasing order of AngularJS files. */
module ResultsManager {
  import opened Wrappers
  import opened Types
  import opened Sorting
  import FA = FileAnalyzer

  /** `createResults(source)`: the all-zero state. */
  function CreateResults(source: Source): (r: Results)
    ensures r.source == source
    ensures r.summary.totalAngularJSTemplates == 0 && r.summary.totalReactFiles == 0
    ensures r.byModule == map[]
    ensures r.mostChangedHtmlFiles.None?
  {
    Results(source, Summary(0, 0), map[], None)
  }

  /** A whole scan is the classifier folded from `createResults`: the
      totals are exactly the per-category file counts, the module map holds
      exactly the scanned files' module keys, and the React totals agree. */
  lemma ScanFromZero(source: Source, files: seq<FA.SourceFile>, baseDir: string)
    ensures var r := FA.AnalyzeAll(CreateResults(source), files, baseDir);
            && r.source == source
            && r.mostChangedHtmlFiles.None?
            && r.summary.totalAngularJSTemplates == FA.CountKind(files, FA.Template)
            && r.summary.totalReactFiles == FA.CountKind(files, FA.React)
            && FA.Total(r.byModule, FA.AngularJSFiles) == FA.CountKind(files, FA.AngularJS)
            && FA.Total(r.byModule, FA.ReactFiles) == FA.CountKind(files, FA.React)
            && r.byModule.Keys == FA.ModuleKeys(files, baseDir)
            && FA.ReactTotalsAgree(r)
  {
    var zero := CreateResults(source);
    assert FA.Total(zero.byModule, FA.AngularJSFiles) == 0;
    assert FA.Total(zero.byModule, FA.ReactFiles) == 0;
    FA.ScanCounts(zero, files, baseDir);
    FA.ScanKeys(zero, files, baseDir);
  }

  /** The template count the migration started from. */
  const BaselineAngularJSTemplates: nat := 391

  /** A module's migrated share in percent, before `toFixed(1)`: the React
      share of its files, or 0 when it has none (no division happens). */
  function ModuleProgress(stats: ModuleStats): (p: real)
    ensures stats.angularJSFiles + stats.reactFiles == 0 ==> p == 0.0
    ensures stats.angularJSFiles + stats.reactFiles > 0 ==>
              p * (stats.angularJSFiles + stats.reactFiles) as real == stats.reactFiles as real * 100.0
    ensures 0.0 <= p <= 100.0
  {
    var total := stats.angularJSFiles + stats.reactFiles;
    if total > 0 then stats.reactFiles as real / total as real * 100.0 else 0.0
  }

  /** Fully migrated (100) exactly when no AngularJS file is left and some
      React file exists; untouched (0) exactly when no React file exists. */
  lemma ModuleProgressExtremes(stats: ModuleStats)
    ensures ModuleProgress(stats) == 100.0 <==> stats.angularJSFiles == 0 && stats.reactFiles > 0
    ensures ModuleProgress(stats) == 0.0 <==> stats.reactFiles == 0
  {
    var total := stats.angularJSFiles + stats.reactFiles;
    var p := ModuleProgress(stats);
    if total > 0 {
      assert p * total as real == stats.reactFiles as real * 100.0;
      if p == 100.0 {
        assert total as real * 100.0 == stats.reactFiles as real * 100.0;
      }
    }
  }

  /** The comparator `(a, b) => b.angularJSFiles - a.angularJSFiles` as an
      ascending key. */
  function ByAngularJSDescending(e: (string, ModuleStats)): int {
    -(e.1.angularJSFiles as int)
  }

  /** One printed module line. */
  datatype ModuleLine = ModuleLine(name: string, stats: ModuleStats, progress: real)

  /** What `printSummary` prints: remaining templates against the baseline,
      the React total, and the module lines. The overall percentage string
      is not modelled. */
  datatype SummaryReport = SummaryReport(
    remainingTemplates: nat,
    baseline: nat,
    totalReactFiles: nat,
    modules: seq<ModuleLine>)

  function Line(e: (string, ModuleStats)): ModuleLine {
    ModuleLine(e.0, e.1, ModuleProgress(e.1))
  }

  function Lines(es: seq<(string, ModuleStats)>): (ls: seq<ModuleLine>)
    ensures |ls| == |es|
    ensures forall i :: 0 <= i < |es| ==> ls[i] == Line(es[i])
    decreases |es|
  {
    if es == [] then [] else [Line(es[0])] + Lines(es[1..])
  }

  /** The `(module, stats)` pair a line prints. */
  function Entries(ls: seq<ModuleLine>): (es: seq<(string, ModuleStats)>)
    ensures |es| == |ls|
    ensures forall i :: 0 <= i < |ls| ==> es[i] == (ls[i].name, ls[i].stats)
    decreases |ls|
  {
    if ls == [] then [] else [(ls[0].name, ls[0].stats)] + Entries(ls[1..])
  }

  lemma {:induction false} EntriesOfLines(es: seq<(string, ModuleStats)>)
    ensures Entries(Lines(es)) == es
  {
    var ls := Lines(es);
    assert forall i :: 0 <= i < |es| ==> Entries(ls)[i] == es[i];
  }

  /** The module order of the summary: stable, by decreasing AngularJS
      count. */
  function SortedModules(entries: seq<(string, ModuleStats)>): (r: seq<(string, ModuleStats)>)
    ensures multiset(r) == multiset(entries)
    ensures forall i, j :: 0 <= i < j < |r| ==> r[i].1.angularJSFiles >= r[j].1.angularJSFiles
  {
    var sorted := SortBy(entries, ByAngularJSDescending);
    assert forall i, j :: 0 <= i < j < |sorted| ==>
             ByAngularJSDescending(sorted[i]) <= ByAngularJSDescending(sorted[j]);
    sorted
  }

  /** `printSummary(summary, byModule)` with `entries` the module map's
      entries in `Object.entries` order. The module lines are a permutation
      of the entries, in non-increasing AngularJS order, each with its own
      progress. */
  function PrintSummary(summary: Summary, entries: seq<(string, ModuleStats)>): (r: SummaryReport)
    ensures r.remainingTemplates == summary.totalAngularJSTemplates
    ensures r.baseline == BaselineAngularJSTemplates
    ensures r.totalReactFiles == summary.totalReactFiles
    ensures |r.modules| == |entries|
    ensures multiset(Entries(r.modules)) == multiset(entries)
    ensures forall i, j :: 0 <= i < j < |r.modules| ==>
              r.modules[i].stats.angularJSFiles >= r.modules[j].stats.angularJSFiles
    ensures forall i :: 0 <= i < |r.modules| ==> r.modules[i].progress == ModuleProgress(r.modules[i].stats)
  {
    var sorted := SortedModules(entries);
    EntriesOfLines(sorted);
    SummaryReport(summary.totalAngularJSTemplates, BaselineAngularJSTemplates, summary.totalReactFiles, Lines(sorted))
  }

  /** Modules with equal AngularJS counts keep their `Object.entries`
      order. */
  lemma PrintSummaryStable(summary: Summary, entries: seq<(string, ModuleStats)>, k: int)
    ensures WithKey(Entries(PrintSummary(summary, entries).modules), ByAngularJSDescending, k)
            == WithKey(entries, ByAngularJSDescending, k)
  {
    EntriesOfLines(SortedModules(entries));
    SortByStable(entries, ByAngularJSDescending, k);
  }

  /** `entries` enumerates the module map: every entry is one of the map's,
      no key twice, and every key of the map occurs. */
  ghost predicate EntriesOf(entries: seq<(string, ModuleStats)>, m: map<string, ModuleStats>) {
    && (forall i :: 0 <= i < |entries| ==> entries[i].0 in m && m[entries[i].0] == entries[i].1)
    && (forall i, j :: 0 <= i < j < |entries| ==> entries[i].0 != entries[j].0)
    && (forall k :: k in m ==> exists i :: 0 <= i < |entries| && entries[i].0 == k)
  }

  lemma SameElements<T>(a: seq<T>, b: seq<T>, i: nat)
    requires multiset(a) == multiset(b) && i < |a|
    ensures exists j :: 0 <= j < |b| && b[j] == a[i]
  {
    assert a[i] in multiset(a);
    assert a[i] in b;
  }

  /** Printed from the entries of a module map, the listing names every
      module of the map with its own stats, and nothing else. */
  lemma ListingCoversModules(summary: Summary, m: map<string, ModuleStats>, entries: seq<(string, ModuleStats)>)
    requires EntriesOf(entries, m)
    ensures var ls := PrintSummary(summary, entries).modules;
            && (forall i :: 0 <= i < |ls| ==> ls[i].name in m && m[ls[i].name] == ls[i].stats)
            && (forall k :: k in m ==> exists i :: 0 <= i < |ls| && ls[i].name == k)
  {
    var ls := PrintSummary(summary, entries).modules;
    var es := Entries(ls);
    forall i | 0 <= i < |ls|
      ensures ls[i].name in m && m[ls[i].name] == ls[i].stats
    {
      SameElements(es, entries, i);
    }
    forall k | k in m
      ensures exists i :: 0 <= i < |ls| && ls[i].name == k
    {
      var j :| 0 <= j < |entries| && entries[j].0 == k;
      SameElements(entries, es, j);
      var i :| 0 <= i < |es| && es[i] == entries[j];
      assert ls[i].name == k;
    }
  }
}
