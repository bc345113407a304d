/** The record shapes the analyzer builds and the dashboard reads. */
module Types {
  import opened Wrappers

  /** Where a scan read its files from (`"local" | "github"`). */
  datatype Source = Local | GitHub

  /** Per-module counters. */
  datatype ModuleStats = ModuleStats(angularJSFiles: nat, reactFiles: nat)

  /** The two summary-level counters; there is no summary-level AngularJS
      file counter. */
  datatype Summary = Summary(totalAngularJSTemplates: nat, totalReactFiles: nat)

  /** One entry of the most-changed template list. */
  datatype HtmlFileChange = HtmlFileChange(path: string, commitCount: nat)

  /** The aggregation state of one scan. The wall-clock `timestamp` field is
      not modelled. */
  datatype Results = Results(
    source: Source,
    summary: Summary,
    byModule: map<string, ModuleStats>,
    mostChangedHtmlFiles: Option<seq<HtmlFileChange>>)

  /** One point of the history series. `timestamp` is `None` when the git
      log line carried no second field (the JavaScript value is
      `undefined`). */
  datatype HistorySnapshot = HistorySnapshot(
    timestamp: Option<string>,
    angularJSTemplates: nat,
    reactFiles: nat)

  /** The stats a module has, or the zero entry the classifier would seed. */
  function StatsOf(byModule: map<string, ModuleStats>, key: string): ModuleStats {
    if key in byModule then byModule[key] else ModuleStats(0, 0)
  }
}
