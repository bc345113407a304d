/** The dashboard's "top directories" list (`DirectoryList`): the directory
    counts in descending order, cut to the first fifteen. Only the list logic
    is modelled, not the markup. */
module DirectoryList {
  import opened Sorting

  /** How many directories the list shows. */
  const ShownDirectories: nat := 15

  /** The comparator `(a, b) => b[1] - a[1]`: ascending by the negated count. */
  function ByCountDescending(e: (string, int)): int {
    -e.1
  }

  /** All entries in the list's order. */
  function Ranked(entries: seq<(string, int)>): (r: seq<(string, int)>)
    ensures multiset(r) == multiset(entries) && |r| == |entries|
    ensures forall i, j :: 0 <= i < j < |r| ==> r[i].1 >= r[j].1
  {
    var sorted := SortBy(entries, ByCountDescending);
    assert forall i, j :: 0 <= i < j < |sorted| ==> ByCountDescending(sorted[i]) <= ByCountDescending(sorted[j]);
    sorted
  }

  function Cut(n: nat): nat {
    if n <= ShownDirectories then n else ShownDirectories
  }

  /** `sortedDirs`: `.slice(0, 15)` of the ranked entries. */
  function TopDirectories(entries: seq<(string, int)>): (r: seq<(string, int)>)
    ensures |r| <= ShownDirectories
    ensures |entries| <= ShownDirectories ==> multiset(r) == multiset(entries)
    ensures forall i, j :: 0 <= i < j < |r| ==> r[i].1 >= r[j].1
  {
    var ranked := Ranked(entries);
    assert |entries| <= ShownDirectories ==> ranked[..Cut(|entries|)] == ranked;
    ranked[..Cut(|entries|)]
  }

  /** The entries the slice leaves out. */
  function OmittedDirectories(entries: seq<(string, int)>): seq<(string, int)> {
    Ranked(entries)[Cut(|entries|)..]
  }

  /** Shown and omitted entries together are the input, each entry once;
      fifteen are shown whenever there are that many; and nothing omitted
      outranks anything shown. */
  lemma TopDirectoriesSplit(entries: seq<(string, int)>)
    ensures multiset(TopDirectories(entries)) + multiset(OmittedDirectories(entries)) == multiset(entries)
    ensures |TopDirectories(entries)| == if |entries| <= ShownDirectories then |entries| else ShownDirectories
    ensures forall a, b :: a in TopDirectories(entries) && b in OmittedDirectories(entries) ==> b.1 <= a.1
  {
    var ranked := Ranked(entries);
    var n := Cut(|entries|);
    assert ranked == ranked[..n] + ranked[n..];
    forall a, b | a in ranked[..n] && b in ranked[n..] ensures b.1 <= a.1 {
      var i :| 0 <= i < n && ranked[i] == a;
      var j :| 0 <= j < |ranked| - n && ranked[n..][j] == b;
      assert ranked[n + j] == b;
    }
  }

  /** Directories with equal counts keep their input order. */
  lemma RankedStable(entries: seq<(string, int)>, k: int)
    ensures WithKey(Ranked(entries), ByCountDescending, k) == WithKey(entries, ByCountDescending, k)
  {
    SortByStable(entries, ByCountDescending, k);
  }

  /** `dir || '(root)'`: the empty key is shown as `(root)`, every other key
      as itself, so no row is ever blank. */
  function DirectoryLabel(dir: string): (text: string)
    ensures text != []
    ensures dir == [] ==> text == "(root)"
    ensures dir != [] ==> text == dir
  {
    if dir == "" then "(root)" else dir
  }
}
