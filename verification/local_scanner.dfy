/** The local scan: a recursive walk over a directory tree that prunes the
    excluded directory names and hands every file with one of the
    configured suffixes to the classifier, with the scan root as base
    directory. The file system is an in-memory tree; `readdirSync`'s listing
    order is the order of each directory's entry sequence. */
module LocalScanner {
  import opened Wrappers
  import opened Text
  import opened Types
  import Config
  import P = Patterns
  import FA = FileAnalyzer

  /** One directory entry, classified as `statSync` would. */
  datatype Entry = File(name: string, content: string) | Dir(name: string, entries: seq<Entry>)

  /** `path.join(dir, name)` for a relative `name` without separators. */
  function JoinPath(dir: string, name: string): string {
    dir + "/" + name
  }

  predicate Excluded(name: string) {
    name in Config.ExcludedDirectories
  }

  /** `exts.some(ext => name.endsWith(ext))`. */
  predicate AnyEndsWith(name: string, exts: seq<string>)
    decreases |exts|
  {
    |exts| > 0 && (EndsWith(name, exts[0]) || AnyEndsWith(name, exts[1..]))
  }

  predicate Analysed(name: string) {
    AnyEndsWith(name, Config.FileExtensions)
  }

  /** `walkDirectory(dir, baseDir, results)` over the listing `entries` of
      `dir`, one entry after the other. */
  function Walk(dir: string, entries: seq<Entry>, baseDir: string, results: Results): Results
    decreases entries
  {
    if entries == [] then results
    else Walk(dir, entries[1..], baseDir, Visit(dir, entries[0], baseDir, results))
  }

  /** One loop iteration: a directory is skipped when its name is excluded
      and walked otherwise; a file is classified when its name has an
      analysed suffix. */
  function Visit(dir: string, e: Entry, baseDir: string, results: Results): Results
    decreases e
  {
    match e
    case Dir(name, children) =>
      if Excluded(name) then results else Walk(JoinPath(dir, name), children, baseDir, results)
    case File(name, content) =>
      if Analysed(name) then FA.Analyze(results, content, JoinPath(dir, name), baseDir) else results
  }

  datatype ScanError = DirectoryNotFound(path: string) | NotADirectory(path: string)

  /** `analyzeLocal(appPath, results)`: `root` is what exists at `appPath`.
      A missing root fails before anything is classified; a plain file fails
      when it is listed; a directory is walked with itself as base. */
  function AnalyzeLocal(appPath: string, root: Option<Entry>, results: Results): (r: Result<Results, ScanError>)
    ensures root.None? <==> r == Failure(DirectoryNotFound(appPath))
    ensures r.Success? <==> root.Some? && root.value.Dir?
    ensures r.Success? ==>
              r.value == FA.AnalyzeAll(results, Sources(appPath, Eligibles(AllFiles([], root.value.entries))), appPath)
  {
    match root
    case None => Failure(DirectoryNotFound(appPath))
    case Some(File(_, _)) => Failure(NotADirectory(appPath))
    case Some(Dir(_, entries)) =>
      WalkIsFold(appPath, [], entries, appPath, results);
      Success(Walk(appPath, entries, appPath, results))
  }

  // ---------------------------------------------------------------------
  // The reference reading: every file of the tree, then a filter

  /** A file of the tree with the names of the directories above it, from
      the root down. */
  datatype FoundFile = FoundFile(dirs: seq<string>, name: string, content: string)

  /** Every file below `entries`, pruned or not, in walk order. */
  function AllFiles(prefix: seq<string>, entries: seq<Entry>): seq<FoundFile>
    decreases entries
  {
    if entries == [] then [] else FilesOf(prefix, entries[0]) + AllFiles(prefix, entries[1..])
  }

  /** Every file of one entry. */
  function FilesOf(prefix: seq<string>, e: Entry): seq<FoundFile>
    decreases e
  {
    match e
    case Dir(name, children) => AllFiles(prefix + [name], children)
    case File(name, content) => [FoundFile(prefix, name, content)]
  }

  /** A file is classified exactly when no directory above it has an
      excluded name and its own name has an analysed suffix. */
  predicate Eligible(f: FoundFile) {
    (forall i :: 0 <= i < |f.dirs| ==> !Excluded(f.dirs[i])) && Analysed(f.name)
  }

  function Eligibles(fs: seq<FoundFile>): (r: seq<FoundFile>)
    ensures forall i :: 0 <= i < |r| ==> Eligible(r[i])
    decreases |fs|
  {
    if fs == [] then []
    else (if Eligible(fs[0]) then [fs[0]] else []) + Eligibles(fs[1..])
  }

  /** The path of the directory `ds` below `root`. */
  function DirPath(root: string, ds: seq<string>): string
    decreases |ds|
  {
    if ds == [] then root else JoinPath(DirPath(root, ds[..|ds| - 1]), ds[|ds| - 1])
  }

  /** The `(content, path)` pairs the classifier receives. */
  function Sources(root: string, fs: seq<FoundFile>): (r: seq<FA.SourceFile>)
    ensures |r| == |fs|
    decreases |fs|
  {
    if fs == [] then []
    else [FA.SourceFile(fs[0].content, JoinPath(DirPath(root, fs[0].dirs), fs[0].name))] + Sources(root, fs[1..])
  }

  lemma {:induction false} EligiblesConcat(a: seq<FoundFile>, b: seq<FoundFile>)
    ensures Eligibles(a + b) == Eligibles(a) + Eligibles(b)
    decreases |a|
  {
    if a == [] {
      assert a + b == b;
    } else {
      assert (a + b)[1..] == a[1..] + b;
      EligiblesConcat(a[1..], b);
    }
  }

  lemma {:induction false} SourcesConcat(root: string, a: seq<FoundFile>, b: seq<FoundFile>)
    ensures Sources(root, a + b) == Sources(root, a) + Sources(root, b)
    decreases |a|
  {
    if a == [] {
      assert a + b == b;
    } else {
      assert (a + b)[1..] == a[1..] + b;
      SourcesConcat(root, a[1..], b);
    }
  }

  /** Every file found below `prefix` has `prefix` in front of its
      directories. */
  lemma {:induction false} AllFilesUnder(prefix: seq<string>, entries: seq<Entry>)
    ensures forall f | f in AllFiles(prefix, entries) :: |prefix| <= |f.dirs| && f.dirs[..|prefix|] == prefix
    decreases entries
  {
    if entries != [] {
      FilesOfUnder(prefix, entries[0]);
      AllFilesUnder(prefix, entries[1..]);
    }
  }

  lemma {:induction false} FilesOfUnder(prefix: seq<string>, e: Entry)
    ensures forall f | f in FilesOf(prefix, e) :: |prefix| <= |f.dirs| && f.dirs[..|prefix|] == prefix
    decreases e
  {
    match e {
      case Dir(name, children) =>
        AllFilesUnder(prefix + [name], children);
        forall f | f in AllFiles(prefix + [name], children)
          ensures |prefix| <= |f.dirs| && f.dirs[..|prefix|] == prefix
        {
          assert f.dirs[..|prefix|] == f.dirs[..|prefix| + 1][..|prefix|];
        }
      case File(_, _) =>
    }
  }

  /** Below an excluded directory nothing is eligible. */
  lemma ExcludedSubtreeIneligible(prefix: seq<string>, name: string, children: seq<Entry>)
    requires Excluded(name)
    ensures Eligibles(AllFiles(prefix + [name], children)) == []
  {
    var fs := AllFiles(prefix + [name], children);
    AllFilesUnder(prefix + [name], children);
    forall f | f in fs ensures !Eligible(f) {
      assert f.dirs[|prefix|] == (prefix + [name])[|prefix|];
    }
    NoneEligible(fs);
  }

  lemma {:induction false} NoneEligible(fs: seq<FoundFile>)
    requires forall f | f in fs :: !Eligible(f)
    ensures Eligibles(fs) == []
    decreases |fs|
  {
    if fs != [] {
      assert forall f | f in fs[1..] :: f in fs;
      NoneEligible(fs[1..]);
    }
  }

  lemma FoldConcat(root: string, a: seq<FoundFile>, b: seq<FoundFile>, baseDir: string, results: Results)
    ensures FA.AnalyzeAll(results, Sources(root, Eligibles(a + b)), baseDir)
            == FA.AnalyzeAll(FA.AnalyzeAll(results, Sources(root, Eligibles(a)), baseDir), Sources(root, Eligibles(b)), baseDir)
  {
    EligiblesConcat(a, b);
    SourcesConcat(root, Eligibles(a), Eligibles(b));
    FA.AnalyzeAllConcat(results, Sources(root, Eligibles(a)), Sources(root, Eligibles(b)), baseDir);
  }

  lemma DirPathSnoc(root: string, ds: seq<string>, name: string)
    ensures DirPath(root, ds + [name]) == JoinPath(DirPath(root, ds), name)
  {
    assert (ds + [name])[..|ds|] == ds;
  }

  /** The walk is the classifier folded over the eligible files in walk
      order, each with its full path and the scan's base directory. */
  lemma {:induction false} WalkIsFold(root: string, prefix: seq<string>, entries: seq<Entry>, baseDir: string, results: Results)
    requires forall i :: 0 <= i < |prefix| ==> !Excluded(prefix[i])
    ensures Walk(DirPath(root, prefix), entries, baseDir, results)
            == FA.AnalyzeAll(results, Sources(root, Eligibles(AllFiles(prefix, entries))), baseDir)
    decreases entries
  {
    if entries != [] {
      var here := FilesOf(prefix, entries[0]);
      var rest := AllFiles(prefix, entries[1..]);
      FoldConcat(root, here, rest, baseDir, results);
      VisitIsFold(root, prefix, entries[0], baseDir, results);
      var next := FA.AnalyzeAll(results, Sources(root, Eligibles(here)), baseDir);
      WalkIsFold(root, prefix, entries[1..], baseDir, next);
    }
  }

  lemma {:induction false} VisitIsFold(root: string, prefix: seq<string>, e: Entry, baseDir: string, results: Results)
    requires forall i :: 0 <= i < |prefix| ==> !Excluded(prefix[i])
    ensures Visit(DirPath(root, prefix), e, baseDir, results)
            == FA.AnalyzeAll(results, Sources(root, Eligibles(FilesOf(prefix, e))), baseDir)
    decreases e
  {
    match e {
      case Dir(name, children) =>
        if Excluded(name) {
          ExcludedSubtreeIneligible(prefix, name, children);
        } else {
          DirPathSnoc(root, prefix, name);
          WalkIsFold(root, prefix + [name], children, baseDir, results);
        }
      case File(name, content) =>
        var found := [FoundFile(prefix, name, content)];
        assert Eligibles(found) == if Analysed(name) then found else [];
    }
  }

  // ---------------------------------------------------------------------
  // Consequences

  /** An excluded directory is skipped with everything below it, at any
      depth of the walk. */
  lemma ExcludedDirectorySkipped(dir: string, name: string, children: seq<Entry>, rest: seq<Entry>, baseDir: string, results: Results)
    requires Excluded(name)
    ensures Walk(dir, [Dir(name, children)] + rest, baseDir, results) == Walk(dir, rest, baseDir, results)
  {
    assert ([Dir(name, children)] + rest)[1..] == rest;
  }

  /** The exclusion list names directories only: a file called `dist.js`
      is classified like any other `.js` file. */
  lemma ExclusionIsForDirectoriesOnly(dir: string, content: string, rest: seq<Entry>, baseDir: string, results: Results)
    ensures Walk(dir, [File("dist.js", content)] + rest, baseDir, results)
            == Walk(dir, rest, baseDir, FA.Analyze(results, content, JoinPath(dir, "dist.js"), baseDir))
  {
    AnalysedSuffixes("dist.js");
    assert EndsWith("dist.js", ".js");
    assert ([File("dist.js", content)] + rest)[1..] == rest;
    assert Visit(dir, File("dist.js", content), baseDir, results)
           == FA.Analyze(results, content, JoinPath(dir, "dist.js"), baseDir);
  }

  /** `.jsx` is not among the analysed suffixes, so such files never reach
      the classifier. */
  lemma JsxFilesNotAnalysed(name: string)
    requires EndsWith(name, ".jsx")
    ensures !Analysed(name)
  {
    P.SuffixesClash(name, ".jsx", ".js", 0);
    P.SuffixesClash(name, ".jsx", ".ts", 0);
    P.SuffixesClash(name, ".jsx", ".tsx", 2);
    P.SuffixesClash(name, ".jsx", ".html", 0);
    assert Config.FileExtensions[1..][1..][1..][1..] == [];
  }

  /** Exactly the four configured suffixes are analysed. */
  lemma AnalysedSuffixes(name: string)
    ensures Analysed(name) <==>
              EndsWith(name, ".js") || EndsWith(name, ".ts") || EndsWith(name, ".tsx") || EndsWith(name, ".html")
  {
    var exts := Config.FileExtensions;
    assert exts[1..] == [".ts", ".tsx", ".html"];
    assert exts[1..][1..] == [".tsx", ".html"];
    assert exts[1..][1..][1..] == [".html"];
    assert exts[1..][1..][1..][1..] == [];
  }
}
