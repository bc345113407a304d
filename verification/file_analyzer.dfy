/** The per-file classifier of `src/analyzer/file-analyzer.ts` and the
    aggregation it performs, as a pure function from the old aggregation
    state to the new one; a scan is this function folded over a sequence of
    files. */
module FileAnalyzer {
  import opened Text
  import opened Types
  import P = Patterns

  // ---------------------------------------------------------------------
  // Module key

  /** `baseDir ? relative(baseDir, filePath) : filePath`, for a file that
      lies under `baseDir` (the only shape the directory walk produces). */
  function RelativePath(baseDir: string, filePath: string): (r: string)
    ensures baseDir == "" ==> r == filePath
    ensures baseDir != "" && StartsWith(filePath, baseDir + "/") ==> baseDir + "/" + r == filePath
  {
    if baseDir == "" then filePath
    else if StartsWith(filePath, baseDir + "/") then filePath[|baseDir| + 1..]
    else filePath
  }

  /** `path.dirname` on a relative path with single `/` separators. */
  function Dirname(p: string): string {
    var parts := Split(p, '/');
    if |parts| == 1 then "."
    else
      var d := Join(parts[..|parts| - 1], '/');
      if d == "" then "/" else d
  }

  /** The module key of a directory: `react/<second>` under `react`, else
      the first segment, else `.`. */
  function ModuleKey(directory: string): string {
    var parts := Split(directory, '/');
    if parts[0] == "react" && |parts| > 1 then parts[0] + "/" + parts[1]
    else if parts[0] == "" then "."
    else parts[0]
  }

  function ModuleOf(relativePath: string): string {
    ModuleKey(Dirname(relativePath))
  }

  /** `dirname` keeps every segment but the last; it reports `/` only for
      a path whose sole separator is its first character. */
  lemma DirnameSegments(p: string)
    ensures var parts := Split(p, '/');
            |parts| == 1 ==> Dirname(p) == "."
    ensures var parts := Split(p, '/');
            |parts| > 1 ==>
              || (Dirname(p) == "/" && |parts| == 2 && parts[0] == "")
              || Split(Dirname(p), '/') == parts[..|parts| - 1]
  {
    var parts := Split(p, '/');
    if |parts| > 1 {
      var front := parts[..|parts| - 1];
      if |front| > 1 {
        JoinHasSeparator(front, '/');
        SplitJoin(front, '/');
      } else if front[0] != "" {
        SplitJoin(front, '/');
      }
    }
  }

  /** The module key read off the segments of the relative path itself:
      `dirname` followed by `split("/")` sees the path's segments minus the
      file name. */
  lemma ModuleOfSegments(p: string)
    ensures var parts := Split(p, '/');
            ModuleOf(p) ==
              if |parts| == 1 then "."
              else if parts[0] == "react" && |parts| > 2 then "react/" + parts[1]
              else if parts[0] == "" then "."
              else parts[0]
  {
    DirnameSegments(p);
    var parts := Split(p, '/');
    var n := |parts|;
    var d := Dirname(p);
    if n > 1 {
      if d == "/" && n == 2 && parts[0] == "" {
        RootModuleKey();
      } else {
        ModuleKeyOfParts(d, parts[..n - 1]);
      }
    }
  }

  lemma RootModuleKey()
    ensures ModuleKey("/") == "."
  {
    SplitCons("", '/', "");
    assert Split("/", '/') == ["", ""];
  }

  lemma ModuleKeyOfParts(d: string, front: seq<string>)
    requires Split(d, '/') == front
    ensures ModuleKey(d) ==
              if front[0] == "react" && |front| > 1 then "react/" + front[1]
              else if front[0] == "" then "."
              else front[0]
  {
  }

  lemma JoinHasSeparator(parts: seq<string>, sep: char)
    requires |parts| > 1
    ensures sep in Join(parts, sep)
  {
    assert Join(parts, sep)[|parts[0]|] == sep;
  }

  /** Module keys of the documented example layouts: a first-level feature
      directory, a React feature directory, `react` itself, and the root. */
  lemma ModuleKeyOfFeatureDirectory()
    ensures ModuleOf("docker/foo.controller.js") == "docker"
  {
    var parts := ["docker", "foo.controller.js"];
    assert Join(parts, '/') == "docker/foo.controller.js";
    SplitJoin(parts, '/');
    ModuleOfSegments("docker/foo.controller.js");
  }

  lemma ModuleKeyOfReactFeature()
    ensures ModuleOf("react/portainer/Widget.tsx") == "react/portainer"
  {
    assert "react/" + "portainer" == "react/portainer";
    ReactFeatureSegments();
    ModuleOfSegments("react/portainer/Widget.tsx");
  }

  lemma ReactFeatureSegments()
    ensures Split("react/portainer/Widget.tsx", '/') == ["react", "portainer", "Widget.tsx"]
  {
    var parts := ["react", "portainer", "Widget.tsx"];
    assert parts[1..][1..] == ["Widget.tsx"];
    assert Join(parts, '/') == "react/portainer/Widget.tsx";
    SplitJoin(parts, '/');
  }

  lemma ModuleKeyOfReactRoot()
    ensures ModuleOf("react/Widget.tsx") == "react"
  {
    var parts := ["react", "Widget.tsx"];
    assert Join(parts, '/') == "react/Widget.tsx";
    SplitJoin(parts, '/');
    ModuleOfSegments("react/Widget.tsx");
  }

  lemma ModuleKeyOfTopLevelFile()
    ensures ModuleOf("foo.html") == "."
  {
    SplitJoin(["foo.html"], '/');
    ModuleOfSegments("foo.html");
  }

  // ---------------------------------------------------------------------
  // Classification

  /** Extension `.tsx`/`.jsx`, or a React import together with an export
      shape or a JSX tag. */
  predicate IsReactFile(filePath: string, content: string) {
    || P.ReactFileExtension(filePath)
    || (P.ReactImport(content) && (P.ReactExport(content) || P.JsxSyntax(content)))
  }

  /** Any AngularJS path or content rule, each used only for whether it
      matches. */
  predicate IsAngularJSFile(filePath: string, content: string) {
    || P.ControllerFile(filePath)
    || P.ServiceFile(filePath)
    || P.DirectiveFile(filePath)
    || P.AngularImport(content)
    || P.Components(content)
    || P.DirectiveRegistrations(content)
    || P.ControllerRegistrations(content)
    || P.ServiceRegistrations(content)
    || P.FactoryRegistrations(content)
    || P.Filters(content)
    || P.NgInject(content)
  }

  /** The category a file lands in. */
  datatype Kind = Template | AngularJS | React | Unclassified

  /** The classification as a tagged value: the template rule first, then
      AngularJS before React. */
  function Classify(content: string, filePath: string): Kind {
    KindOf(P.HtmlTemplate(filePath), IsReactFile(filePath, content), IsAngularJSFile(filePath, content))
  }

  /** Templates first, then AngularJS before React. */
  function KindOf(template: bool, react: bool, angular: bool): Kind {
    if template then Template else if angular then AngularJS else if react then React else Unclassified
  }

  // ---------------------------------------------------------------------
  // The classifier

  /** The counter update of `analyzeFileContent` once the file's category
      is known: seed the module entry with zeros, then bump the template
      total, the module's AngularJS count, or the React total together
      with the module's React count. */
  function Record(results: Results, key: string, kind: Kind): (r: Results)
    ensures && r.source == results.source
            && r.mostChangedHtmlFiles == results.mostChangedHtmlFiles
            && r.byModule.Keys == results.byModule.Keys + {key}
            && (forall m :: m in results.byModule && m != key ==> r.byModule[m] == results.byModule[m])
    ensures var before := StatsOf(results.byModule, key);
            var after := r.byModule[key];
            var dTemplates := r.summary.totalAngularJSTemplates - results.summary.totalAngularJSTemplates;
            var dAngular := after.angularJSFiles - before.angularJSFiles;
            var dReact := after.reactFiles - before.reactFiles;
            && dTemplates >= 0 && dAngular >= 0 && dReact >= 0
            && dTemplates + dAngular + dReact <= 1
            && r.summary.totalReactFiles - results.summary.totalReactFiles == dReact
  {
    var seeded := if key in results.byModule then results.byModule
                  else results.byModule[key := ModuleStats(0, 0)];
    var stats := seeded[key];
    match kind
    case Template =>
      results.(
        summary := results.summary.(totalAngularJSTemplates := results.summary.totalAngularJSTemplates + 1),
        byModule := seeded)
    case React =>
      results.(
        summary := results.summary.(totalReactFiles := results.summary.totalReactFiles + 1),
        byModule := seeded[key := stats.(reactFiles := stats.reactFiles + 1)])
    case AngularJS =>
      results.(byModule := seeded[key := stats.(angularJSFiles := stats.angularJSFiles + 1)])
    case Unclassified =>
      results.(byModule := seeded)
  }

  /** A module entry after one file of category `kind`. */
  function Bump(stats: ModuleStats, kind: Kind): ModuleStats {
    ModuleStats(
      stats.angularJSFiles + (if kind == AngularJS then 1 else 0),
      stats.reactFiles + (if kind == React then 1 else 0))
  }

  /** `analyzeFileContent(content, filePath, results, baseDir)`: derive the
      module key, evaluate the rules, record the outcome. Every call leaves
      the source alone, adds at most its own module key, changes no other
      module, decreases no counter and moves at most one category (the
      React total always together with its module's React count). */
  function Analyze(results: Results, content: string, filePath: string, baseDir: string): (r: Results)
    ensures var key := ModuleOf(RelativePath(baseDir, filePath));
            && r.source == results.source
            && r.mostChangedHtmlFiles == results.mostChangedHtmlFiles
            && r.byModule.Keys == results.byModule.Keys + {key}
            && (forall m :: m in results.byModule && m != key ==> r.byModule[m] == results.byModule[m])
    ensures var key := ModuleOf(RelativePath(baseDir, filePath));
            var before := StatsOf(results.byModule, key);
            var after := r.byModule[key];
            var dTemplates := r.summary.totalAngularJSTemplates - results.summary.totalAngularJSTemplates;
            var dAngular := after.angularJSFiles - before.angularJSFiles;
            var dReact := after.reactFiles - before.reactFiles;
            && dTemplates >= 0 && dAngular >= 0 && dReact >= 0
            && dTemplates + dAngular + dReact <= 1
            && r.summary.totalReactFiles - results.summary.totalReactFiles == dReact
  {
    Record(results, ModuleOf(RelativePath(baseDir, filePath)), Classify(content, filePath))
  }

  /** `Record` moves exactly the counters of the selected category. */
  lemma RecordByKind(results: Results, key: string, kind: Kind)
    ensures var r := Record(results, key, kind);
            && r.summary.totalAngularJSTemplates == results.summary.totalAngularJSTemplates + (if kind == Template then 1 else 0)
            && r.summary.totalReactFiles == results.summary.totalReactFiles + (if kind == React then 1 else 0)
            && r.byModule == results.byModule[key := Bump(StatsOf(results.byModule, key), kind)]
  {
    if key in results.byModule && kind !in {AngularJS, React} {
      assert results.byModule[key := StatsOf(results.byModule, key)] == results.byModule;
    }
  }

  /** A template bumps only the template total; every existing module entry
      is untouched and at most a zero entry appears for its key. */
  lemma AnalyzeTemplate(results: Results, content: string, filePath: string, baseDir: string)
    requires P.HtmlTemplate(filePath)
    ensures var r := Analyze(results, content, filePath, baseDir);
            var key := ModuleOf(RelativePath(baseDir, filePath));
            && r.summary.totalAngularJSTemplates == results.summary.totalAngularJSTemplates + 1
            && r.summary.totalReactFiles == results.summary.totalReactFiles
            && (forall m :: m in results.byModule ==> r.byModule[m] == results.byModule[m])
            && r.byModule[key] == StatsOf(results.byModule, key)
  {
  }

  /** A file matching any AngularJS rule counts for its module as AngularJS,
      even when it is also React; no React counter moves. */
  lemma AnalyzeAngularJSWins(results: Results, content: string, filePath: string, baseDir: string)
    requires !P.HtmlTemplate(filePath) && IsAngularJSFile(filePath, content)
    ensures var r := Analyze(results, content, filePath, baseDir);
            var key := ModuleOf(RelativePath(baseDir, filePath));
            && r.byModule[key].angularJSFiles == StatsOf(results.byModule, key).angularJSFiles + 1
            && r.byModule[key].reactFiles == StatsOf(results.byModule, key).reactFiles
            && r.summary == results.summary
  {
  }

  /** A `.tsx`/`.jsx` file with no AngularJS match is React whatever its
      content. */
  lemma AnalyzeReactExtension(results: Results, content: string, filePath: string, baseDir: string)
    requires P.ReactFileExtension(filePath) && !IsAngularJSFile(filePath, content)
    ensures var r := Analyze(results, content, filePath, baseDir);
            var key := ModuleOf(RelativePath(baseDir, filePath));
            && r.summary.totalReactFiles == results.summary.totalReactFiles + 1
            && r.byModule[key].reactFiles == StatsOf(results.byModule, key).reactFiles + 1
            && r.byModule[key].angularJSFiles == StatsOf(results.byModule, key).angularJSFiles
            && r.summary.totalAngularJSTemplates == results.summary.totalAngularJSTemplates
  {
    if P.HtmlTemplate(filePath) {
      P.TemplateExcludesScriptRules(filePath);
    }
  }

  /** In particular an empty `.tsx`/`.jsx` file is React: no content rule
      matches the empty string and no AngularJS path rule matches those
      extensions. */
  lemma AnalyzeEmptyReactFile(results: Results, filePath: string, baseDir: string)
    requires P.ReactFileExtension(filePath)
    ensures var r := Analyze(results, "", filePath, baseDir);
            r.summary.totalReactFiles == results.summary.totalReactFiles + 1
  {
    P.FileKindRulesNeedJs(filePath);
    AnalyzeReactExtension(results, "", filePath, baseDir);
  }

  /** A React import alone does not make a file React: without the
      extension it also needs an export shape or a JSX tag. */
  lemma AnalyzeImportOnly(results: Results, content: string, filePath: string, baseDir: string)
    requires !P.ReactFileExtension(filePath)
    requires !P.ReactExport(content) && !P.JsxSyntax(content)
    ensures var r := Analyze(results, content, filePath, baseDir);
            var key := ModuleOf(RelativePath(baseDir, filePath));
            && r.summary.totalReactFiles == results.summary.totalReactFiles
            && r.byModule[key].reactFiles == StatsOf(results.byModule, key).reactFiles
  {
    assert !IsReactFile(filePath, content);
    assert Classify(content, filePath) != React;
    AnalyzeByKind(results, content, filePath, baseDir);
  }

  /** The classifier moves exactly the counters its file's `Kind` names. */
  lemma AnalyzeByKind(results: Results, content: string, filePath: string, baseDir: string)
    ensures var r := Analyze(results, content, filePath, baseDir);
            var key := ModuleOf(RelativePath(baseDir, filePath));
            var kind := Classify(content, filePath);
            && r.summary.totalAngularJSTemplates == results.summary.totalAngularJSTemplates + (if kind == Template then 1 else 0)
            && r.summary.totalReactFiles == results.summary.totalReactFiles + (if kind == React then 1 else 0)
            && r.byModule == results.byModule[key := Bump(StatsOf(results.byModule, key), kind)]
  {
    RecordByKind(results, ModuleOf(RelativePath(baseDir, filePath)), Classify(content, filePath));
  }

  // ---------------------------------------------------------------------
  // Totals over the module map

  datatype Counter = AngularJSFiles | ReactFiles

  function Count(s: ModuleStats, c: Counter): nat {
    match c
    case AngularJSFiles => s.angularJSFiles
    case ReactFiles => s.reactFiles
  }

  /** The sum of one counter over every module entry. */
  ghost function Total(m: map<string, ModuleStats>, c: Counter): nat
    decreases |m|
  {
    if m.Keys == {} then 0
    else
      var k :| k in m.Keys;
      Count(m[k], c) + Total(m - {k}, c)
  }

  lemma {:induction false} TotalRemove(m: map<string, ModuleStats>, k: string, c: Counter)
    requires k in m
    ensures Total(m, c) == Count(m[k], c) + Total(m - {k}, c)
    decreases |m|
  {
    var k' :| k' in m.Keys && Total(m, c) == Count(m[k'], c) + Total(m - {k'}, c);
    if k' != k {
      var rest := (m - {k'}) - {k};
      assert rest == (m - {k}) - {k'};
      TotalRemove(m - {k'}, k, c);
      TotalRemove(m - {k}, k', c);
    }
  }

  /** Replacing one entry changes the total by the difference of that
      entry's counter. */
  lemma TotalUpdate(m: map<string, ModuleStats>, k: string, v: ModuleStats, c: Counter)
    ensures Total(m[k := v], c) == Total(m, c) - Count(StatsOf(m, k), c) + Count(v, c)
  {
    TotalRemove(m[k := v], k, c);
    assert m[k := v] - {k} == m - {k};
    if k in m {
      TotalRemove(m, k, c);
    } else {
      assert m - {k} == m;
    }
  }

  /** The aggregation invariant: the React total is the sum of the
      per-module React counts. */
  ghost predicate ReactTotalsAgree(results: Results) {
    results.summary.totalReactFiles == Total(results.byModule, ReactFiles)
  }

  lemma AnalyzeKeepsReactTotals(results: Results, content: string, filePath: string, baseDir: string)
    requires ReactTotalsAgree(results)
    ensures ReactTotalsAgree(Analyze(results, content, filePath, baseDir))
  {
    AnalyzeTotals(results, content, filePath, baseDir);
  }

  /** How one call moves the two per-module totals. */
  lemma AnalyzeTotals(results: Results, content: string, filePath: string, baseDir: string)
    ensures var r := Analyze(results, content, filePath, baseDir);
            var kind := Classify(content, filePath);
            && Total(r.byModule, ReactFiles) == Total(results.byModule, ReactFiles) + (if kind == React then 1 else 0)
            && Total(r.byModule, AngularJSFiles) == Total(results.byModule, AngularJSFiles) + (if kind == AngularJS then 1 else 0)
  {
    RecordTotals(results, ModuleOf(RelativePath(baseDir, filePath)), Classify(content, filePath));
  }

  lemma RecordTotals(results: Results, key: string, kind: Kind)
    ensures var r := Record(results, key, kind);
            && Total(r.byModule, ReactFiles) == Total(results.byModule, ReactFiles) + (if kind == React then 1 else 0)
            && Total(r.byModule, AngularJSFiles) == Total(results.byModule, AngularJSFiles) + (if kind == AngularJS then 1 else 0)
  {
    var v := Bump(StatsOf(results.byModule, key), kind);
    RecordByKind(results, key, kind);
    TotalUpdate(results.byModule, key, v, ReactFiles);
    TotalUpdate(results.byModule, key, v, AngularJSFiles);
  }

  // ---------------------------------------------------------------------
  // A scan: the classifier folded over files

  /** One `(content, path)` pair handed to the classifier. */
  datatype SourceFile = SourceFile(content: string, path: string)

  function AnalyzeAll(results: Results, files: seq<SourceFile>, baseDir: string): Results
    decreases |files|
  {
    if files == [] then results
    else AnalyzeAll(Analyze(results, files[0].content, files[0].path, baseDir), files[1..], baseDir)
  }

  lemma {:induction false} AnalyzeAllConcat(results: Results, a: seq<SourceFile>, b: seq<SourceFile>, baseDir: string)
    ensures AnalyzeAll(results, a + b, baseDir) == AnalyzeAll(AnalyzeAll(results, a, baseDir), b, baseDir)
    decreases |a|
  {
    if a == [] {
      assert a + b == b;
    } else {
      assert (a + b)[1..] == a[1..] + b;
      AnalyzeAllConcat(Analyze(results, a[0].content, a[0].path, baseDir), a[1..], b, baseDir);
    }
  }

  function CountKind(files: seq<SourceFile>, kind: Kind): nat
    decreases |files|
  {
    if files == [] then 0
    else (if Classify(files[0].content, files[0].path) == kind then 1 else 0) + CountKind(files[1..], kind)
  }

  function ModuleKeys(files: seq<SourceFile>, baseDir: string): set<string>
    decreases |files|
  {
    if files == [] then {}
    else {ModuleOf(RelativePath(baseDir, files[0].path))} + ModuleKeys(files[1..], baseDir)
  }

  /** A scan's counters are the per-kind file counts: every template adds
      one template, every AngularJS file one to its module, every React-only
      file one to the total and one to its module; and the React invariant
      holds throughout. */
  lemma {:induction false} ScanCounts(results: Results, files: seq<SourceFile>, baseDir: string)
    ensures var r := AnalyzeAll(results, files, baseDir);
            && r.summary.totalAngularJSTemplates == results.summary.totalAngularJSTemplates + CountKind(files, Template)
            && r.summary.totalReactFiles == results.summary.totalReactFiles + CountKind(files, React)
            && Total(r.byModule, AngularJSFiles) == Total(results.byModule, AngularJSFiles) + CountKind(files, AngularJS)
            && Total(r.byModule, ReactFiles) == Total(results.byModule, ReactFiles) + CountKind(files, React)
            && (ReactTotalsAgree(results) ==> ReactTotalsAgree(r))
    decreases |files|
  {
    if files != [] {
      var f := files[0];
      AnalyzeByKind(results, f.content, f.path, baseDir);
      AnalyzeTotals(results, f.content, f.path, baseDir);
      ScanCounts(Analyze(results, f.content, f.path, baseDir), files[1..], baseDir);
    }
  }

  /** A scan keeps the source and gains exactly the module keys of the
      scanned files. */
  lemma {:induction false} ScanKeys(results: Results, files: seq<SourceFile>, baseDir: string)
    ensures var r := AnalyzeAll(results, files, baseDir);
            && r.source == results.source
            && r.mostChangedHtmlFiles == results.mostChangedHtmlFiles
            && r.byModule.Keys == results.byModule.Keys + ModuleKeys(files, baseDir)
    decreases |files|
  {
    if files != [] {
      var f := files[0];
      ScanKeys(Analyze(results, f.content, f.path, baseDir), files[1..], baseDir);
    }
  }
}
