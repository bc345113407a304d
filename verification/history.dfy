/** The history series behind the dashboard chart (`generateHistoryFromGit`):
    the commits of a `git log --format="%H %aI"` listing, walked oldest
    first, and one snapshot for each commit that is at least `interval` days
    after the last successfully analysed one. Git is an oracle: its log
    arrives as an `Option` (`None` when the command throws), a checkout as
    the `app` tree it leaves behind, and `new Date(...)` as a function from
    timestamp text to integer milliseconds (`None` for an Invalid Date). */
module History {
  import opened Wrappers
  import opened Text
  import opened Types
  import FA = FileAnalyzer
  import RM = ResultsManager
  import LS = LocalScanner

  /** `1000 * 60 * 60 * 24`. */
  const DayMs: int := 86400000

  /** One listed commit: `%H`, then `%aI` (absent when the line carries no
      space). */
  datatype Commit = Commit(hash: string, timestamp: Option<string>)

  // ---------------------------------------------------------------------
  // Parsing the log

  /** `const [hash, timestamp] = line.split(" ")`. */
  function CommitOf(line: string): Commit {
    var parts := Split(line, ' ');
    Commit(parts[0], if |parts| >= 2 then Some(parts[1]) else None)
  }

  /** `filter((line) => line)`: only empty lines go; whitespace-only lines
      stay. */
  function NonEmpty(lines: seq<string>): (r: seq<string>)
    ensures forall i :: 0 <= i < |r| ==> r[i] != []
    ensures forall x :: x in r <==> x in lines && x != []
    decreases |lines|
  {
    if lines == [] then []
    else (if lines[0] != [] then [lines[0]] else []) + NonEmpty(lines[1..])
  }

  /** Filtering a concatenation filters each part: the kept lines stay in
      their order. */
  lemma {:induction false} NonEmptyConcat(a: seq<string>, b: seq<string>)
    ensures NonEmpty(a + b) == NonEmpty(a) + NonEmpty(b)
    decreases |a|
  {
    if a == [] {
      assert a + b == b;
    } else {
      assert (a + b)[0] == a[0];
      assert (a + b)[1..] == a[1..] + b;
      NonEmptyConcat(a[1..], b);
    }
  }

  function Commits(lines: seq<string>): (cs: seq<Commit>)
    ensures |cs| == |lines|
    ensures forall i :: 0 <= i < |lines| ==> cs[i] == CommitOf(lines[i])
  {
    seq(|lines|, i requires 0 <= i < |lines| => CommitOf(lines[i]))
  }

  /** The commits of a log listing, in the order git prints them (newest
      first). */
  function ParseLog(log: string): seq<Commit> {
    Commits(NonEmpty(Split(Trim(log), '\n')))
  }

  /** A hash or a timestamp as git prints them: non-empty, no whitespace. */
  predicate Token(s: string) {
    s != [] && forall i :: 0 <= i < |s| ==> !IsWhitespace(s[i])
  }

  predicate Printable(c: Commit) {
    Token(c.hash) && c.timestamp.Some? && Token(c.timestamp.value)
  }

  /** The line `--format="%H %aI"` prints for a commit. */
  function LogLine(c: Commit): string
    requires c.timestamp.Some?
  {
    c.hash + " " + c.timestamp.value
  }

  function LogLines(cs: seq<Commit>): (ls: seq<string>)
    requires forall i :: 0 <= i < |cs| ==> Printable(cs[i])
    ensures |ls| == |cs|
    ensures forall i :: 0 <= i < |cs| ==> Printable(cs[i]) && ls[i] == LogLine(cs[i])
  {
    seq(|cs|, i requires 0 <= i < |cs| && Printable(cs[i]) => LogLine(cs[i]))
  }

  /** A line splits back into its hash and timestamp. */
  lemma CommitOfLogLine(c: Commit)
    requires Printable(c)
    ensures CommitOf(LogLine(c)) == c
  {
    var ts := c.timestamp.value;
    assert forall m :: 0 <= m < |c.hash| ==> c.hash[m] != ' ';
    assert forall m :: 0 <= m < |ts| ==> ts[m] != ' ';
    SplitCons(c.hash, ' ', ts);
    assert LogLine(c) == c.hash + [' '] + ts;
  }

  /** A printed line holds no newline and is not empty. */
  lemma LogLineShape(c: Commit)
    requires Printable(c)
    ensures '\n' !in LogLine(c) && LogLine(c) != []
    ensures !IsWhitespace(LogLine(c)[0]) && !IsWhitespace(LogLine(c)[|LogLine(c)| - 1])
  {
    var l := LogLine(c);
    var ts := c.timestamp.value;
    assert l[0] == c.hash[0];
    assert l[|l| - 1] == ts[|ts| - 1];
    forall m | 0 <= m < |l| ensures l[m] != '\n' {
      if m < |c.hash| {
        assert l[m] == c.hash[m];
      } else if m > |c.hash| {
        assert l[m] == ts[m - |c.hash| - 1];
      }
    }
  }

  lemma {:induction false} NonEmptyKeepsAll(xs: seq<string>)
    requires forall i :: 0 <= i < |xs| ==> xs[i] != []
    ensures NonEmpty(xs) == xs
    decreases |xs|
  {
    if xs != [] {
      NonEmptyKeepsAll(xs[1..]);
    }
  }

  /** Every printed line is a non-empty line without whitespace at its
      ends. */
  lemma LogLinesShape(cs: seq<Commit>)
    requires forall i :: 0 <= i < |cs| ==> Printable(cs[i])
    ensures forall i :: 0 <= i < |cs| ==>
              var l := LogLines(cs)[i];
              '\n' !in l && l != [] && !IsWhitespace(l[0]) && !IsWhitespace(l[|l| - 1])
  {
    forall i | 0 <= i < |cs|
      ensures var l := LogLines(cs)[i]; '\n' !in l && l != [] && !IsWhitespace(l[0]) && !IsWhitespace(l[|l| - 1])
    {
      LogLineShape(cs[i]);
    }
  }

  /** A printed listing has nothing for `trim` to remove. */
  lemma LogTrims(cs: seq<Commit>)
    requires |cs| >= 1
    requires forall i :: 0 <= i < |cs| ==> Printable(cs[i])
    ensures Trim(Join(LogLines(cs), '\n')) == Join(LogLines(cs), '\n')
  {
    var ls := LogLines(cs);
    var log := Join(ls, '\n');
    LogLinesShape(cs);
    JoinHead(ls[0], ls[1..], '\n');
    assert ls == [ls[0]] + ls[1..];
    assert log[0] == ls[0][0];
    JoinEndsWithLast(ls, '\n');
    assert [] + log == log;
    TrimPadded([], log);
  }

  /** Parsing a printed listing gives back its commits, in order. */
  lemma ParseLogOfLog(cs: seq<Commit>)
    requires |cs| >= 1
    requires forall i :: 0 <= i < |cs| ==> Printable(cs[i])
    ensures ParseLog(Join(LogLines(cs), '\n')) == cs
  {
    var ls := LogLines(cs);
    LogTrims(cs);
    LogLinesShape(cs);
    SplitJoin(ls, '\n');
    NonEmptyKeepsAll(ls);
    forall i | 0 <= i < |cs| ensures CommitOf(ls[i]) == cs[i] {
      CommitOfLogLine(cs[i]);
    }
  }

  /** `allCommits.reverse()`. */
  function Reverse<T>(xs: seq<T>): (r: seq<T>)
    ensures |r| == |xs|
    ensures forall i :: 0 <= i < |xs| ==> r[i] == xs[|xs| - 1 - i]
    decreases |xs|
  {
    if xs == [] then [] else Reverse(xs[1..]) + [xs[0]]
  }

  lemma ReverseConcat<T>(a: seq<T>, b: seq<T>)
    ensures Reverse(a + b) == Reverse(b) + Reverse(a)
  {
    var l := Reverse(a + b);
    var r := Reverse(b) + Reverse(a);
    assert |l| == |r|;
    forall i | 0 <= i < |l| ensures l[i] == r[i] {
      if i < |b| {
        assert r[i] == b[|b| - 1 - i];
      } else {
        assert r[i] == Reverse(a)[i - |b|];
      }
    }
  }

  lemma ReverseAround<T>(a: seq<T>, x: T, b: seq<T>)
    ensures Reverse(a + [x] + b) == Reverse(b) + [x] + Reverse(a)
  {
    ReverseConcat(a + [x], b);
    ReverseConcat(a, [x]);
    assert Reverse([x]) == [x];
  }

  // ---------------------------------------------------------------------
  // Analysing one commit

  /** What `git checkout <hash>` leaves: a failure (the command throws), or
      the working tree's `app` entry, if any. */
  datatype Checkout = CheckoutFailed | CheckedOut(app: Option<LS.Entry>)

  /** The files of a checked-out `app` directory that a scan classifies. */
  function AppSources(repo: string, app: LS.Entry): seq<FA.SourceFile>
    requires app.Dir?
  {
    var appPath := LS.JoinPath(repo, "app");
    LS.Sources(appPath, LS.Eligibles(LS.AllFiles([], app.entries)))
  }

  /** `analyzeCommit`: check the commit out and scan `<repo>/app` from a
      fresh local result. A failed checkout, a missing `app` or an `app`
      that is not a directory gives no snapshot; otherwise the snapshot
      carries the commit's own timestamp text and the scan's two totals. */
  function AnalyzeCommit(repo: string, c: Commit, checkout: string -> Checkout): (r: Option<HistorySnapshot>)
    ensures r.Some? <==> checkout(c.hash).CheckedOut? && checkout(c.hash).app.Some? && checkout(c.hash).app.value.Dir?
    ensures r.Some? ==>
              var files := AppSources(repo, checkout(c.hash).app.value);
              && r.value.timestamp == c.timestamp
              && r.value.angularJSTemplates == FA.CountKind(files, FA.Template)
              && r.value.reactFiles == FA.CountKind(files, FA.React)
  {
    match checkout(c.hash)
    case CheckoutFailed => None
    case CheckedOut(app) =>
      if app.None? then None
      else
        var appPath := LS.JoinPath(repo, "app");
        match LS.AnalyzeLocal(appPath, app, RM.CreateResults(Local)) {
          case Failure(_) => None
          case Success(results) =>
            RM.ScanFromZero(Local, AppSources(repo, app.value), appPath);
            Some(HistorySnapshot(c.timestamp, results.summary.totalAngularJSTemplates, results.summary.totalReactFiles))
        }
  }

  // ---------------------------------------------------------------------
  // Sampling

  /** `new Date(timestamp).getTime()`; an absent timestamp is an Invalid
      Date. */
  function DateOf(timestamp: Option<string>, parseDate: string -> Option<int>): Option<int> {
    if timestamp.Some? then parseDate(timestamp.value) else None
  }

  /** The sampling gate: nothing sampled yet, or `(date - mark) / DayMs >=
      interval`. An Invalid Date makes the difference NaN, and a NaN
      comparison is false. */
  predicate Due(mark: Option<int>, date: Option<int>, interval: int) {
    mark.None? || (date.Some? && (date.value - mark.value) as real / DayMs as real >= interval as real)
  }

  /** The gate in whole milliseconds. */
  lemma DueInMilliseconds(mark: int, date: int, interval: int)
    ensures Due(Some(mark), Some(date), interval) <==> date - mark >= interval * DayMs
  {
    var x := (date - mark) as real;
    var d := DayMs as real;
    assert x / d * d == x;
    if x / d >= interval as real {
      assert x >= interval as real * d;
    } else {
      assert x < interval as real * d;
    }
  }

  /** A sampled commit with its date and snapshot. */
  datatype Sampled = Sampled(commit: Commit, date: int, snapshot: HistorySnapshot)

  /** The loop over the commits, oldest first. `mark` is the date of the last
      successful sample; a commit that passes the gate is formatted for the
      progress line (which throws on an Invalid Date: `None`, the whole run
      fails) and then analysed; only a successful analysis moves the mark. */
  function Sample(commits: seq<Commit>, mark: Option<int>, interval: int,
                  dateOf: Commit -> Option<int>, analyze: Commit -> Option<HistorySnapshot>)
    : (r: Option<seq<Sampled>>)
    ensures r.Some? ==> forall p :: p in r.value ==>
              p.commit in commits && dateOf(p.commit) == Some(p.date) && analyze(p.commit) == Some(p.snapshot)
    decreases |commits|
  {
    if commits == [] then Some([])
    else
      var c := commits[0];
      var d := dateOf(c);
      if !Due(mark, d, interval) then Sample(commits[1..], mark, interval, dateOf, analyze)
      else if d.None? then None
      else
        match analyze(c) {
          case None => Sample(commits[1..], mark, interval, dateOf, analyze)
          case Some(s) =>
            match Sample(commits[1..], d, interval, dateOf, analyze) {
              case None => None
              case Some(rest) => Some([Sampled(c, d.value, s)] + rest)
            }
        }
  }

  /** A commit that is not due is passed over: whatever its analysis would
      give cannot show in the result. */
  lemma NotDueSkipped(c: Commit, rest: seq<Commit>, mark: Option<int>, interval: int,
                      dateOf: Commit -> Option<int>, analyze: Commit -> Option<HistorySnapshot>)
    requires !Due(mark, dateOf(c), interval)
    ensures Sample([c] + rest, mark, interval, dateOf, analyze) == Sample(rest, mark, interval, dateOf, analyze)
  {
    assert ([c] + rest)[1..] == rest;
  }

  /** Commits whose analysis fails leave no trace: no snapshot, and the mark
      stays where it was (provided their date can be formatted whenever they
      pass the gate). */
  lemma {:induction false} FailuresInvisible(fails: seq<Commit>, rest: seq<Commit>, mark: Option<int>, interval: int,
                                             dateOf: Commit -> Option<int>, analyze: Commit -> Option<HistorySnapshot>)
    requires forall i :: 0 <= i < |fails| ==> analyze(fails[i]).None? && (dateOf(fails[i]).Some? || mark.Some?)
    ensures Sample(fails + rest, mark, interval, dateOf, analyze) == Sample(rest, mark, interval, dateOf, analyze)
    decreases |fails|
  {
    if fails == [] {
      assert fails + rest == rest;
    } else {
      assert (fails + rest)[0] == fails[0];
      assert (fails + rest)[1..] == fails[1..] + rest;
      FailuresInvisible(fails[1..], rest, mark, interval, dateOf, analyze);
      assert Sample(fails + rest, mark, interval, dateOf, analyze)
             == Sample(fails[1..] + rest, mark, interval, dateOf, analyze);
    }
  }

  /** With nothing sampled yet, the first commit whose analysis succeeds is
      the first sample. */
  lemma FirstSuccessSampled(fails: seq<Commit>, c: Commit, rest: seq<Commit>, interval: int,
                            dateOf: Commit -> Option<int>, analyze: Commit -> Option<HistorySnapshot>)
    requires forall i :: 0 <= i < |fails| ==> analyze(fails[i]).None? && dateOf(fails[i]).Some?
    requires dateOf(c).Some? && analyze(c).Some?
    ensures var r := Sample(fails + [c] + rest, None, interval, dateOf, analyze);
            r.Some? && |r.value| >= 1 && r.value[0] == Sampled(c, dateOf(c).value, analyze(c).value)
  {
    assert fails + [c] + rest == fails + ([c] + rest);
    FailuresInvisible(fails, [c] + rest, None, interval, dateOf, analyze);
    assert ([c] + rest)[1..] == rest;
    SampleAfterFirst(rest, dateOf(c).value, interval, dateOf, analyze);
  }

  /** Once a sample exists the loop never throws: an Invalid Date makes the
      gate's comparison false, so such a commit never reaches `formatDate`. */
  lemma {:induction false} SampleAfterFirst(commits: seq<Commit>, m: int, interval: int,
                                            dateOf: Commit -> Option<int>, analyze: Commit -> Option<HistorySnapshot>)
    ensures Sample(commits, Some(m), interval, dateOf, analyze).Some?
    decreases |commits|
  {
    if commits != [] {
      var d := dateOf(commits[0]);
      SampleAfterFirst(commits[1..], m, interval, dateOf, analyze);
      if d.Some? {
        SampleAfterFirst(commits[1..], d.value, interval, dateOf, analyze);
      }
    }
  }

  /** Every sample passed the gate against the sample before it (or against
      the starting mark). */
  ghost predicate Spaced(mark: Option<int>, ps: seq<Sampled>, interval: int)
    decreases |ps|
  {
    ps == [] || (Due(mark, Some(ps[0].date), interval) && Spaced(Some(ps[0].date), ps[1..], interval))
  }

  lemma {:induction false} SampleSpaced(commits: seq<Commit>, mark: Option<int>, interval: int,
                                        dateOf: Commit -> Option<int>, analyze: Commit -> Option<HistorySnapshot>)
    ensures var r := Sample(commits, mark, interval, dateOf, analyze); r.Some? ==> Spaced(mark, r.value, interval)
    decreases |commits|
  {
    if commits != [] {
      SampleSpaced(commits[1..], mark, interval, dateOf, analyze);
      SampleSpaced(commits[1..], dateOf(commits[0]), interval, dateOf, analyze);
    }
  }

  /** For a non-negative interval every sample is at least `interval` days
      after the starting mark. */
  lemma {:induction false} SpacedAfterMark(m: int, ps: seq<Sampled>, interval: int)
    requires interval >= 0 && Spaced(Some(m), ps, interval)
    ensures forall i :: 0 <= i < |ps| ==> ps[i].date - m >= interval * DayMs
    decreases |ps|
  {
    if ps != [] {
      DueInMilliseconds(m, ps[0].date, interval);
      SpacedAfterMark(ps[0].date, ps[1..], interval);
      forall i | 1 <= i < |ps| ensures ps[i].date - m >= interval * DayMs {
        assert ps[1..][i - 1] == ps[i];
      }
    }
  }

  /** For a positive interval the sample dates strictly increase. */
  lemma {:induction false} SpacedIncreasing(mark: Option<int>, ps: seq<Sampled>, interval: int)
    requires interval > 0 && Spaced(mark, ps, interval)
    ensures forall i, j :: 0 <= i < j < |ps| ==> ps[i].date < ps[j].date
    decreases |ps|
  {
    if ps != [] {
      SpacedIncreasing(Some(ps[0].date), ps[1..], interval);
      SpacedAfterMark(ps[0].date, ps[1..], interval);
      forall i, j | 0 <= i < j < |ps| ensures ps[i].date < ps[j].date {
        assert ps[1..][j - 1] == ps[j];
        if i > 0 {
          assert ps[1..][i - 1] == ps[i];
        }
      }
    }
  }

  // ---------------------------------------------------------------------
  // The whole run

  /** The git side of one run: the log listing (`None` when `git log`
      throws), `new Date`, the checkouts, and whether reading the current
      branch and checking it out again at the end both succeed. */
  datatype Git = Git(
    log: Option<string>,
    parseDate: string -> Option<int>,
    checkout: string -> Checkout,
    restores: bool)

  /** The mark the loop starts from: nothing for a full run; the last
      existing snapshot's date for an incremental one, where formatting an
      Invalid Date for the `--since` argument throws (`None`). */
  function StartMark(existing: seq<HistorySnapshot>, parseDate: string -> Option<int>): (r: Option<Option<int>>)
    ensures existing == [] ==> r == Some(None)
    ensures existing != [] ==>
              && (r.None? <==> DateOf(existing[|existing| - 1].timestamp, parseDate).None?)
              && (r.Some? ==> r.value == DateOf(existing[|existing| - 1].timestamp, parseDate))
  {
    if existing == [] then Some(None)
    else
      var d := DateOf(existing[|existing| - 1].timestamp, parseDate);
      if d.None? then None else Some(d)
  }

  function Snapshots(ps: seq<Sampled>): (r: seq<HistorySnapshot>)
    ensures |r| == |ps|
    ensures forall i :: 0 <= i < |ps| ==> r[i] == ps[i].snapshot
  {
    seq(|ps|, i requires 0 <= i < |ps| => ps[i].snapshot)
  }

  /** `commit.date` for every commit of a run. */
  function CommitDates(git: Git): Commit -> Option<int> {
    (c: Commit) => DateOf(c.timestamp, git.parseDate)
  }

  /** `analyzeCommit` for every commit of a run. */
  function Analyzer(repo: string, git: Git): Commit -> Option<HistorySnapshot> {
    (c: Commit) => AnalyzeCommit(repo, c, git.checkout)
  }

  /** The samples of a run that gets as far as the loop. */
  function RunSamples(repo: string, interval: int, mark: Option<int>, log: string, git: Git): Option<seq<Sampled>> {
    Sample(Reverse(ParseLog(log)), mark, interval, CommitDates(git), Analyzer(repo, git))
  }

  /** `generateHistoryFromGit`: the existing snapshots followed by the new
      samples, or the existing snapshots alone when anything throws. */
  function GenerateHistory(repo: string, interval: int, existing: seq<HistorySnapshot>, git: Git)
    : (r: seq<HistorySnapshot>)
    ensures |existing| <= |r| && r[..|existing|] == existing
  {
    var start := StartMark(existing, git.parseDate);
    if start.None? || git.log.None? || !git.restores then existing
    else
      match RunSamples(repo, interval, start.value, git.log.value, git) {
        case None => existing
        case Some(ps) => existing + Snapshots(ps)
      }
  }

  /** The date a snapshot's own timestamp stands for. */
  function SnapshotDate(s: HistorySnapshot, parseDate: string -> Option<int>): Option<int> {
    DateOf(s.timestamp, parseDate)
  }

  /** Any failure of git returns the existing snapshots untouched. */
  lemma GitFailureKeepsExisting(repo: string, interval: int, existing: seq<HistorySnapshot>, git: Git)
    requires git.log.None? || !git.restores
    ensures GenerateHistory(repo, interval, existing, git) == existing
  {
  }

  /** An incremental run whose last snapshot carries an Invalid Date throws
      while formatting the `--since` date, and returns the existing
      snapshots. */
  lemma InvalidLastDateKeepsExisting(repo: string, interval: int, existing: seq<HistorySnapshot>, git: Git)
    requires existing != [] && SnapshotDate(existing[|existing| - 1], git.parseDate).None?
    ensures GenerateHistory(repo, interval, existing, git) == existing
  {
  }

  /** A due commit with an Invalid Date throws in `formatDate`, and the run
      returns the existing snapshots; this can only happen in a full run,
      before anything is sampled. */
  lemma InvalidSampleDateKeepsExisting(repo: string, interval: int, existing: seq<HistorySnapshot>, git: Git)
    requires StartMark(existing, git.parseDate).Some? && git.log.Some?
    requires RunSamples(repo, interval, StartMark(existing, git.parseDate).value, git.log.value, git).None?
    ensures GenerateHistory(repo, interval, existing, git) == existing
    ensures existing == []
  {
    var start := StartMark(existing, git.parseDate);
    if start.value.Some? {
      SampleAfterFirst(Reverse(ParseLog(git.log.value)), start.value.value, interval, CommitDates(git), Analyzer(repo, git));
    }
  }

  /** A new snapshot's timestamp parses to the date of the commit it was
      sampled from. */
  lemma SampledDates(repo: string, interval: int, mark: Option<int>, log: string, git: Git)
    ensures var r := RunSamples(repo, interval, mark, log, git);
            r.Some? ==> forall i :: 0 <= i < |r.value| ==>
              SnapshotDate(r.value[i].snapshot, git.parseDate) == Some(r.value[i].date)
  {
    var r := RunSamples(repo, interval, mark, log, git);
    if r.Some? {
      forall i | 0 <= i < |r.value| ensures SnapshotDate(r.value[i].snapshot, git.parseDate) == Some(r.value[i].date) {
        var p := r.value[i];
        assert p in r.value;
        assert AnalyzeCommit(repo, p.commit, git.checkout) == Some(p.snapshot);
      }
    }
  }

  /** Every new snapshot carries a valid date; in an incremental run with a
      non-negative interval, each is at least `interval` days after the last
      existing snapshot. */
  lemma IncrementalGap(repo: string, interval: int, existing: seq<HistorySnapshot>, git: Git)
    requires existing != [] && interval >= 0
    ensures var r := GenerateHistory(repo, interval, existing, git);
            forall i :: |existing| <= i < |r| ==>
              && SnapshotDate(existing[|existing| - 1], git.parseDate).Some?
              && SnapshotDate(r[i], git.parseDate).Some?
              && SnapshotDate(r[i], git.parseDate).value - SnapshotDate(existing[|existing| - 1], git.parseDate).value
                 >= interval * DayMs
  {
    var r := GenerateHistory(repo, interval, existing, git);
    var start := StartMark(existing, git.parseDate);
    if r != existing {
      var ps := RunSamples(repo, interval, start.value, git.log.value, git).value;
      assert r == existing + Snapshots(ps);
      var m := start.value.value;
      SampleSpaced(Reverse(ParseLog(git.log.value)), start.value, interval, CommitDates(git), Analyzer(repo, git));
      SpacedAfterMark(m, ps, interval);
      SampledDates(repo, interval, start.value, git.log.value, git);
      forall i | |existing| <= i < |r|
        ensures SnapshotDate(r[i], git.parseDate) == Some(ps[i - |existing|].date)
      {
        assert r[i] == ps[i - |existing|].snapshot;
      }
    }
  }

  /** For a positive interval the new snapshots' dates strictly increase. */
  lemma NewDatesIncrease(repo: string, interval: int, existing: seq<HistorySnapshot>, git: Git)
    requires interval > 0
    ensures var r := GenerateHistory(repo, interval, existing, git);
            forall i, j :: |existing| <= i < j < |r| ==>
              && SnapshotDate(r[i], git.parseDate).Some?
              && SnapshotDate(r[j], git.parseDate).Some?
              && SnapshotDate(r[i], git.parseDate).value < SnapshotDate(r[j], git.parseDate).value
  {
    var r := GenerateHistory(repo, interval, existing, git);
    var start := StartMark(existing, git.parseDate);
    if r != existing {
      var ps := RunSamples(repo, interval, start.value, git.log.value, git).value;
      assert r == existing + Snapshots(ps);
      SampleSpaced(Reverse(ParseLog(git.log.value)), start.value, interval, CommitDates(git), Analyzer(repo, git));
      SpacedIncreasing(start.value, ps, interval);
      SampledDates(repo, interval, start.value, git.log.value, git);
      forall i | |existing| <= i < |r|
        ensures SnapshotDate(r[i], git.parseDate) == Some(ps[i - |existing|].date)
      {
        assert r[i] == ps[i - |existing|].snapshot;
      }
    }
  }

  /** Oldest first: in a full run over a printed log, when the oldest
      commits fail to analyse and the next one succeeds, that one is the
      first snapshot (git prints the newest commit first). */
  lemma OldestSuccessFirst(repo: string, interval: int, git: Git,
                           newer: seq<Commit>, c: Commit, failedOlder: seq<Commit>)
    requires var cs := newer + [c] + failedOlder; forall i :: 0 <= i < |cs| ==> Printable(cs[i])
    requires git.log == Some(Join(LogLines(newer + [c] + failedOlder), '\n'))
    requires forall i :: 0 <= i < |failedOlder| ==>
               AnalyzeCommit(repo, failedOlder[i], git.checkout).None?
               && DateOf(failedOlder[i].timestamp, git.parseDate).Some?
    requires DateOf(c.timestamp, git.parseDate).Some? && AnalyzeCommit(repo, c, git.checkout).Some?
    ensures var r := GenerateHistory(repo, interval, [], git);
            git.restores ==> r != [] && r[0] == AnalyzeCommit(repo, c, git.checkout).value
  {
    var cs := newer + [c] + failedOlder;
    ParseLogOfLog(cs);
    ReverseAround(newer, c, failedOlder);
    var dateOf := CommitDates(git);
    var analyze := Analyzer(repo, git);
    var fails := Reverse(failedOlder);
    forall i | 0 <= i < |fails| ensures analyze(fails[i]).None? && dateOf(fails[i]).Some? {
      assert fails[i] == failedOlder[|failedOlder| - 1 - i];
    }
    FirstSuccessSampled(fails, c, Reverse(newer), interval, dateOf, analyze);
    assert RunSamples(repo, interval, None, git.log.value, git)
        == Sample(fails + [c] + Reverse(newer), None, interval, dateOf, analyze);
    if git.restores {
      FreshRunIsSamples(repo, interval, git);
    }
  }

  /** With no snapshots yet, a run whose branch is restored yields exactly its
      samples. */
  lemma FreshRunIsSamples(repo: string, interval: int, git: Git)
    requires git.log.Some? && git.restores
    requires RunSamples(repo, interval, None, git.log.value, git).Some?
    ensures GenerateHistory(repo, interval, [], git)
         == Snapshots(RunSamples(repo, interval, None, git.log.value, git).value)
  {
    assert StartMark([], git.parseDate) == Some(None);
    assert [] + Snapshots(RunSamples(repo, interval, None, git.log.value, git).value)
        == Snapshots(RunSamples(repo, interval, None, git.log.value, git).value);
  }
}
