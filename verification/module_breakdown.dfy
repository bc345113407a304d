/** The dashboard's module cards (`ModuleBreakdown`): the modules with any
    classified file, in the order of a fixed rank table, each titled with its
    configured name. Only the list logic is modelled, not the markup. */
module ModuleBreakdown {
  import opened Types
  import opened Sorting

  /** A configured module: its display name and its rank. */
  datatype ModuleInfo = ModuleInfo(name: string, order: int)

  /** The module table. */
  const ModuleConfig: map<string, ModuleInfo> := map[
    "docker" := ModuleInfo("Docker", 1),
    "kubernetes" := ModuleInfo("Kubernetes", 2),
    "portainer" := ModuleInfo("Portainer", 3),
    "edge" := ModuleInfo("Edge", 4),
    "azure" := ModuleInfo("Azure", 5),
    "agent" := ModuleInfo("Agent", 6),
    "react" := ModuleInfo("React", 7),
    "." := ModuleInfo("Root", 8)
  ]

  /** The rank of a module without a configuration. */
  const UnconfiguredOrder: int := 999

  /** `MODULE_CONFIG[key]?.order ?? 999`. */
  function Rank(key: string): int {
    if key in ModuleConfig then ModuleConfig[key].order else UnconfiguredOrder
  }

  function RankOf(e: (string, ModuleStats)): int {
    Rank(e.0)
  }

  /** A module shown on the dashboard: it has an AngularJS or a React file. */
  predicate Visible(e: (string, ModuleStats)) {
    e.1.angularJSFiles > 0 || e.1.reactFiles > 0
  }

  /** The `filter` step: the visible entries, in their order. */
  function Retained(entries: seq<(string, ModuleStats)>): (r: seq<(string, ModuleStats)>)
    ensures forall i :: 0 <= i < |r| ==> Visible(r[i])
    decreases |entries|
  {
    if entries == [] then []
    else (if Visible(entries[0]) then [entries[0]] else []) + Retained(entries[1..])
  }

  /** Retaining keeps each visible entry as often as it occurs and drops
      every other. */
  lemma {:induction false} RetainedCounts(entries: seq<(string, ModuleStats)>, e: (string, ModuleStats))
    ensures multiset(Retained(entries))[e] == if Visible(e) then multiset(entries)[e] else 0
    decreases |entries|
  {
    if entries != [] {
      RetainedCounts(entries[1..], e);
      assert entries == [entries[0]] + entries[1..];
    }
  }

  /** `sortedModules`: the visible entries, stably sorted by rank. */
  function SortedModules(entries: seq<(string, ModuleStats)>): (r: seq<(string, ModuleStats)>)
    ensures multiset(r) == multiset(Retained(entries))
    ensures forall i, j :: 0 <= i < j < |r| ==> Rank(r[i].0) <= Rank(r[j].0)
  {
    var sorted := SortBy(Retained(entries), RankOf);
    assert forall i, j :: 0 <= i < j < |sorted| ==> RankOf(sorted[i]) <= RankOf(sorted[j]);
    sorted
  }

  /** The listing holds exactly the visible entries, each as often as the
      input holds it. */
  lemma SortedModulesAreVisibleEntries(entries: seq<(string, ModuleStats)>, e: (string, ModuleStats))
    ensures multiset(SortedModules(entries))[e] == if Visible(e) then multiset(entries)[e] else 0
  {
    RetainedCounts(entries, e);
  }

  /** Modules of equal rank keep their input order. */
  lemma SortedModulesStable(entries: seq<(string, ModuleStats)>, k: int)
    ensures WithKey(SortedModules(entries), RankOf, k) == WithKey(Retained(entries), RankOf, k)
  {
    SortByStable(Retained(entries), RankOf, k);
  }

  /** The table's ranks: docker < kubernetes < portainer < edge < azure <
      agent < react < `.`, and an unconfigured key after all of them. */
  lemma RankTable(key: string)
    ensures Rank("docker") < Rank("kubernetes") < Rank("portainer") < Rank("edge")
            < Rank("azure") < Rank("agent") < Rank("react") < Rank(".")
    ensures key !in ModuleConfig ==> forall k :: k in ModuleConfig ==> Rank(k) < Rank(key)
  {
  }

  /** Configured modules come before every unconfigured one (for instance
      a `react/<feature>` key). */
  lemma ConfiguredFirst(entries: seq<(string, ModuleStats)>)
    ensures var r := SortedModules(entries);
            forall i, j :: 0 <= i < j < |r| && r[i].0 !in ModuleConfig ==> r[j].0 !in ModuleConfig
  {
    var r := SortedModules(entries);
    forall i, j | 0 <= i < j < |r| && r[i].0 !in ModuleConfig ensures r[j].0 !in ModuleConfig {
      RankTable(r[i].0);
      assert Rank(r[i].0) <= Rank(r[j].0);
    }
  }

  /** `MODULE_CONFIG[moduleKey]?.name || moduleKey`: the raw key is shown
      exactly for an unconfigured module (no configured name equals its
      key). */
  function DisplayName(key: string): (name: string)
    ensures name == key <==> key !in ModuleConfig
    ensures key in ModuleConfig ==> name == ModuleConfig[key].name
  {
    if key in ModuleConfig && ModuleConfig[key].name != "" then ModuleConfig[key].name else key
  }
}
