/** The "most changed templates" list: the output of
    `git log --name-only -- '*.html' | sort | uniq -c | sort -nr` parsed line by
    line into (count, path) pairs, keeping the files that still exist at HEAD
    and stopping once `limit` of them have been collected. Running git is
    outside the model: its output arrives as an `Option` (`None` when the
    command fails) and the `git cat-file -e` existence check as a predicate. */
module GitHistory {
  import opened Wrappers
  import opened Text
  import opened Types

  /** The value of a character `\d` matches. */
  function DigitValue(c: char): nat
    requires IsDigit(c)
  {
    (c as int) - ('0' as int)
  }

  predicate AllDigits(s: string) {
    forall i :: 0 <= i < |s| ==> IsDigit(s[i])
  }

  /** `parseInt(ds, 10)` on a run of decimal digits. */
  function DecimalValue(ds: string): nat
    requires AllDigits(ds)
    decreases |ds|
  {
    if ds == [] then 0
    else DecimalValue(ds[..|ds| - 1]) * 10 + DigitValue(ds[|ds| - 1])
  }

  /** The decimal numeral `uniq -c` prints for a count: no leading zeros. */
  function DecimalString(n: nat): (s: string)
    ensures s != [] && AllDigits(s)
    ensures s[0] != '0' || s == "0"
    ensures DecimalValue(s) == n
  {
    var last := ('0' as int + n % 10) as char;
    if n < 10 then [last]
    else
      var front := DecimalString(n / 10);
      var s := front + [last];
      assert s[..|s| - 1] == front;
      s
  }

  /** The lines kept for parsing: the trimmed output split at newlines,
      blank lines dropped, order kept. */
  function Lines(output: string): seq<string> {
    NonBlank(Split(Trim(output), '\n'))
  }

  function NonBlank(xs: seq<string>): (r: seq<string>)
    ensures forall i :: 0 <= i < |r| ==> Trim(r[i]) != []
    ensures forall x :: x in r <==> x in xs && Trim(x) != []
    decreases |xs|
  {
    if xs == [] then []
    else (if Trim(xs[0]) != [] then [xs[0]] else []) + NonBlank(xs[1..])
  }

  /** Filtering a concatenation filters each part: the kept lines stay in
      their order. */
  lemma {:induction false} NonBlankConcat(a: seq<string>, b: seq<string>)
    ensures NonBlank(a + b) == NonBlank(a) + NonBlank(b)
    decreases |a|
  {
    if a == [] {
      assert a + b == b;
    } else {
      assert (a + b)[0] == a[0];
      assert (a + b)[1..] == a[1..] + b;
      NonBlankConcat(a[1..], b);
    }
  }

  /** Parses one line against `^(\d+)\s+(.+)$` after trimming it. The digit
      run is followed by whitespace, so it is the whole greedy `\d+`; the
      greedy `\s+` then stops at the first non-whitespace character, and the
      path is the rest of the line, which `.` must be able to match. */
  function ParseEntry(line: string): Option<HtmlFileChange> {
    var t := Trim(line);
    var d := Skip(t, 0, Digit);
    var k := SkipWs(t, d);
    if 0 < d < k < |t| && NoLineBreak(t, k, |t|) then
      assert AllDigits(t[..d]) by {
        forall i | 0 <= i < d ensures IsDigit(t[..d][i]) {
          assert InClass(t[i], Digit);
        }
      }
      Some(HtmlFileChange(t[k..], DecimalValue(t[..d])))
    else None
  }

  /** The regular expression's match: digits `t[..d]`, whitespace
      `t[d..k]`, then at least one character other than a line
      terminator up to the end. */
  ghost predicate EntryAt(t: string, d: nat, k: nat) {
    0 < d < k < |t| && Run(t, 0, d, Digit) && WsRun(t, d, k) && NoLineBreak(t, k, |t|)
  }

  ghost predicate EntryShape(t: string) {
    exists d: nat, k: nat :: EntryAt(t, d, k)
  }

  /** A line the scanner accepts matches the expression. */
  lemma EntryScans(line: string)
    requires ParseEntry(line).Some?
    ensures var t := Trim(line); EntryAt(t, Skip(t, 0, Digit), SkipWs(t, Skip(t, 0, Digit)))
  {
  }

  /** A line that matches the expression is accepted, with the count read
      from the digits and the path starting after the longest whitespace
      run (where the greedy `\s+` leaves off). */
  lemma EntryShapeScans(line: string, d: nat, k: nat)
    requires EntryAt(Trim(line), d, k)
    ensures var t := Trim(line);
      && k <= SkipWs(t, d) < |t|
      && AllDigits(t[..d])
      && ParseEntry(line) == Some(HtmlFileChange(t[SkipWs(t, d)..], DecimalValue(t[..d])))
  {
    var t := Trim(line);
    assert !InClass(t[d], Digit) by { assert InClass(t[d], Space); }
    SkipUnique(t, 0, d, Digit);
    SkipCovers(t, d, k, Space);
    var k' := SkipWs(t, d);
    assert AllDigits(t[..d]) by {
      forall i | 0 <= i < d ensures IsDigit(t[..d][i]) {
        assert InClass(t[i], Digit);
      }
    }
    assert !InClass(t[|t| - 1], Space);
    assert k' < |t|;
    assert NoLineBreak(t, k', |t|) by {
      forall m | k' <= m < |t| ensures !IsLineTerminator(t[m]) {
        assert k <= m;
      }
    }
  }

  /** The scanner and the regular expression accept the same lines. */
  lemma EntryScanIsRegex(line: string)
    ensures ParseEntry(line).Some? <==> EntryShape(Trim(line))
  {
    var t := Trim(line);
    if ParseEntry(line).Some? {
      EntryScans(line);
      var d := Skip(t, 0, Digit);
      assert EntryAt(t, d, SkipWs(t, d));
    }
    if EntryShape(t) {
      var d: nat, k: nat :| EntryAt(t, d, k);
      EntryShapeScans(line, d, k);
    }
  }

  /** A path `uniq -c` can print whole: non-empty, no line terminator, and
      no whitespace at either end (which `trim` would cut). */
  predicate PrintablePath(p: string) {
    p != [] && !IsWhitespace(p[0]) && !IsWhitespace(p[|p| - 1]) && NoLineBreak(p, 0, |p|)
  }

  /** The line `uniq -c` prints for an entry: padding, the count, a space
      and the path. */
  function Row(pad: string, e: HtmlFileChange): string {
    pad + DecimalString(e.commitCount) + " " + e.path
  }

  /** The trimmed row: the digits, one space, then the path. */
  lemma RowCore(ds: string, path: string)
    requires ds != [] && AllDigits(ds) && PrintablePath(path)
    ensures var t := ds + " " + path; var d := |ds|;
      && EntryAt(t, d, d + 1) && SkipWs(t, d) == d + 1 && t[..d] == ds && t[d + 1..] == path
  {
    var head := ds + " ";
    var t := head + path;
    var d := |ds|;
    assert Run(t, 0, d, Digit) by {
      forall m | 0 <= m < d ensures InClass(t[m], Digit) {
        assert t[m] == ds[m];
      }
    }
    assert t[d] == ' ';
    assert WsRun(t, d, d + 1);
    assert NoLineBreak(t, d + 1, |t|) by {
      forall m | d + 1 <= m < |t| ensures !IsLineTerminator(t[m]) {
        assert t[m] == path[m - |head|];
        assert !IsLineTerminator(path[m - |head|]);
      }
    }
    assert t[d + 1] == path[0];
    SkipWsUnique(t, d, d + 1);
    assert t[..d] == ds;
    assert t[d + 1..] == path;
  }

  /** Trimming a row leaves the count and the path. */
  lemma RowTrims(pad: string, e: HtmlFileChange)
    requires WsRun(pad, 0, |pad|) && PrintablePath(e.path)
    ensures Trim(Row(pad, e)) == DecimalString(e.commitCount) + " " + e.path
  {
    var ds := DecimalString(e.commitCount);
    var core := ds + " " + e.path;
    assert Row(pad, e) == pad + core;
    assert core[0] == ds[0];
    assert core[|core| - 1] == e.path[|e.path| - 1];
    TrimPadded(pad, core);
  }

  /** A row ends with the last character of its path. */
  lemma RowEnds(pad: string, e: HtmlFileChange)
    requires PrintablePath(e.path)
    ensures var r := Row(pad, e); r != [] && !IsWhitespace(r[|r| - 1])
  {
    var r := Row(pad, e);
    assert r[|r| - 1] == e.path[|e.path| - 1];
  }

  /** A row's characters: no newline unless its padding has one, and a
      first non-blank character that is the first digit of the count. */
  lemma RowShape(pad: string, e: HtmlFileChange)
    requires WsRun(pad, 0, |pad|) && PrintablePath(e.path)
    ensures '\n' !in pad ==> '\n' !in Row(pad, e)
    ensures Trim(Row(pad, e)) != []
    ensures Row(pad, e) == pad + Row([], e)
    ensures Row([], e) != [] && !IsWhitespace(Row([], e)[0])
  {
    var ds := DecimalString(e.commitCount);
    RowTrims(pad, e);
    assert Row([], e) == ds + " " + e.path;
    assert Row([], e)[0] == ds[0];
    assert '\n' !in e.path by {
      if '\n' in e.path {
        var m :| 0 <= m < |e.path| && e.path[m] == '\n';
        assert IsLineTerminator(e.path[m]);
      }
    }
  }

  /** Parsing a printed row gives back its entry. */
  lemma ParseRow(pad: string, e: HtmlFileChange)
    requires WsRun(pad, 0, |pad|)
    requires PrintablePath(e.path)
    ensures ParseEntry(Row(pad, e)) == Some(e)
  {
    var ds := DecimalString(e.commitCount);
    RowTrims(pad, e);
    RowCore(ds, e.path);
    EntryShapeScans(Row(pad, e), |ds|, |ds| + 1);
  }

  /** Every line parsed; the loop reads them in this order. */
  function ParseAll(lines: seq<string>): (ps: seq<Option<HtmlFileChange>>)
    ensures |ps| == |lines|
    ensures forall i :: 0 <= i < |lines| ==> ps[i] == ParseEntry(lines[i])
  {
    seq(|lines|, i requires 0 <= i < |lines| => ParseEntry(lines[i]))
  }

  /** The parsed entries whose file still exists at HEAD, in order. */
  function Kept(ps: seq<Option<HtmlFileChange>>, existsAtHead: string -> bool): (r: seq<HtmlFileChange>)
    ensures |r| <= |ps|
    decreases |ps|
  {
    if ps == [] then []
    else
      var rest := Kept(ps[1..], existsAtHead);
      if ps[0].Some? && existsAtHead(ps[0].value.path) then [ps[0].value] + rest else rest
  }

  /** The candidates a git output offers, before the limit applies. */
  function Candidates(lines: seq<string>, existsAtHead: string -> bool): seq<HtmlFileChange> {
    Kept(ParseAll(lines), existsAtHead)
  }

  lemma {:induction false} KeptConcat(a: seq<Option<HtmlFileChange>>, b: seq<Option<HtmlFileChange>>,
                                      existsAtHead: string -> bool)
    ensures Kept(a + b, existsAtHead) == Kept(a, existsAtHead) + Kept(b, existsAtHead)
    decreases |a|
  {
    if a == [] {
      assert a + b == b;
    } else {
      assert (a + b)[0] == a[0];
      assert (a + b)[1..] == a[1..] + b;
      KeptConcat(a[1..], b, existsAtHead);
    }
  }

  function Min(a: int, b: int): int { if a <= b then a else b }
  function Max(a: int, b: int): int { if a >= b then a else b }

  /** The loop of `getMostChangedHtmlFiles`: a failed git command gives the
      empty list; otherwise the first `limit` candidates in output order. The
      limit is checked only after a push, so a limit below one still lets
      the first candidate through. */
  method MostChangedHtmlFiles(output: Option<string>, existsAtHead: string -> bool, limit: int)
    returns (r: seq<HtmlFileChange>)
    ensures output.None? ==> r == []
    ensures output.Some? ==>
              var c := Candidates(Lines(output.value), existsAtHead);
              r == c[..Min(|c|, Max(limit, 1))]
  {
    if output.None? {
      return [];
    }
    r := TakeCandidates(ParseAll(Lines(output.value)), existsAtHead, limit);
  }

  /** The loop over the parsed lines, stopping after `limit` pushes. */
  method TakeCandidates(ps: seq<Option<HtmlFileChange>>, existsAtHead: string -> bool, limit: int)
    returns (r: seq<HtmlFileChange>)
    ensures var c := Kept(ps, existsAtHead); r == c[..Min(|c|, Max(limit, 1))]
  {
    r := [];
    var i := 0;
    while i < |ps|
      invariant 0 <= i <= |ps|
      invariant r == Kept(ps[..i], existsAtHead)
      invariant |r| < Max(limit, 1)
    {
      KeptSnoc(ps, i, existsAtHead);
      var m := ps[i];
      if m.Some? && existsAtHead(m.value.path) {
        r := r + [m.value];
        if |r| >= limit {
          KeptSplit(ps, i + 1, existsAtHead);
          return;
        }
      }
      i := i + 1;
    }
    assert ps[..i] == ps;
  }

  /** The loop's step: one more line adds at most its own entry. */
  lemma KeptSnoc(ps: seq<Option<HtmlFileChange>>, i: nat, existsAtHead: string -> bool)
    requires i < |ps|
    ensures Kept(ps[..i + 1], existsAtHead)
            == Kept(ps[..i], existsAtHead)
               + (if ps[i].Some? && existsAtHead(ps[i].value.path) then [ps[i].value] else [])
  {
    assert ps[..i + 1] == ps[..i] + [ps[i]];
    KeptConcat(ps[..i], [ps[i]], existsAtHead);
    assert [ps[i]][1..] == [];
  }

  /** Where the loop stops, it has collected a prefix of all candidates. */
  lemma KeptSplit(ps: seq<Option<HtmlFileChange>>, j: nat, existsAtHead: string -> bool)
    requires j <= |ps|
    ensures Kept(ps, existsAtHead) == Kept(ps[..j], existsAtHead) + Kept(ps[j..], existsAtHead)
  {
    assert ps[..j] + ps[j..] == ps;
    KeptConcat(ps[..j], ps[j..], existsAtHead);
  }

  /** The entries of `es` that exist at HEAD, in order. */
  function Existing(es: seq<HtmlFileChange>, existsAtHead: string -> bool): seq<HtmlFileChange>
    decreases |es|
  {
    if es == [] then []
    else (if existsAtHead(es[0].path) then [es[0]] else []) + Existing(es[1..], existsAtHead)
  }

  /** The rows `uniq -c` prints for `es`, each with its own padding. */
  function Rows(pads: seq<string>, es: seq<HtmlFileChange>): (rows: seq<string>)
    requires |pads| == |es|
    ensures |rows| == |es|
    ensures forall i :: 0 <= i < |es| ==> rows[i] == Row(pads[i], es[i])
    decreases |es|
  {
    if es == [] then [] else [Row(pads[0], es[0])] + Rows(pads[1..], es[1..])
  }

  /** Padding of a row: whitespace other than a newline. */
  predicate Padding(pad: string) {
    WsRun(pad, 0, |pad|) && '\n' !in pad
  }

  /** Candidates of printed rows are the rows' existing entries. */
  /** Lines that all parse give their entries that exist at HEAD. */
  lemma {:induction false} KeptOfEntries(ps: seq<Option<HtmlFileChange>>, es: seq<HtmlFileChange>,
                                         existsAtHead: string -> bool)
    requires |ps| == |es|
    requires forall i :: 0 <= i < |es| ==> ps[i] == Some(es[i])
    ensures Kept(ps, existsAtHead) == Existing(es, existsAtHead)
    decreases |es|
  {
    if es != [] {
      KeptOfEntries(ps[1..], es[1..], existsAtHead);
    }
  }

  /** Every printed row is one line that does not trim to nothing. */
  lemma RowsAreLines(pads: seq<string>, es: seq<HtmlFileChange>)
    requires |pads| == |es|
    requires forall i :: 0 <= i < |es| ==> Padding(pads[i]) && PrintablePath(es[i].path)
    ensures forall k :: 0 <= k < |es| ==> '\n' !in Rows(pads, es)[k] && Trim(Rows(pads, es)[k]) != []
  {
    forall k | 0 <= k < |es| ensures '\n' !in Rows(pads, es)[k] && Trim(Rows(pads, es)[k]) != [] {
      RowShape(pads[k], es[k]);
    }
  }

  /** Trimming a printed output removes just the first row's padding. */
  lemma OutputTrims(pads: seq<string>, es: seq<HtmlFileChange>)
    requires |pads| == |es| >= 1
    requires forall i :: 0 <= i < |es| ==> Padding(pads[i]) && PrintablePath(es[i].path)
    ensures Trim(Join(Rows(pads, es), '\n')) == Join(Rows([[]] + pads[1..], es), '\n')
  {
    var pads' := [[]] + pads[1..];
    var trimmed := Rows(pads', es);
    var core := Row([], es[0]);
    var rest := Rows(pads[1..], es[1..]);
    var tail := Join(trimmed, '\n');
    RowShape(pads[0], es[0]);
    assert Rows(pads, es) == [pads[0] + core] + rest;
    assert pads'[1..] == pads[1..];
    assert trimmed == [core] + rest;
    JoinPadded(pads[0], core, rest, '\n');
    JoinHead(core, rest, '\n');
    assert tail[0] == core[0];
    var last := trimmed[|es| - 1];
    assert last == Row(pads'[|es| - 1], es[|es| - 1]);
    RowEnds(pads'[|es| - 1], es[|es| - 1]);
    JoinEndsWithLast(trimmed, '\n');
    assert tail[|tail| - 1] == last[|last| - 1];
    TrimPadded(pads[0], tail);
  }

  /** The lines of a printed output: its rows, the first without padding. */
  lemma LinesOfOutput(pads: seq<string>, es: seq<HtmlFileChange>)
    requires |pads| == |es| >= 1
    requires forall i :: 0 <= i < |es| ==> Padding(pads[i]) && PrintablePath(es[i].path)
    ensures Lines(Join(Rows(pads, es), '\n')) == Rows([[]] + pads[1..], es)
  {
    var pads' := [[]] + pads[1..];
    var trimmed := Rows(pads', es);
    OutputTrims(pads, es);
    forall i | 0 <= i < |es| ensures Padding(pads'[i]) {
      if i == 0 {
        assert pads'[0] == [];
      } else {
        assert pads'[i] == pads[i];
      }
    }
    RowsAreLines(pads', es);
    SplitJoin(trimmed, '\n');
    NonBlankKeepsAll(trimmed);
  }

  /** End to end: the whole printed output yields the existing entries in
      the order git printed them. */
  lemma CandidatesOfOutput(pads: seq<string>, es: seq<HtmlFileChange>, existsAtHead: string -> bool)
    requires |pads| == |es| >= 1
    requires forall i :: 0 <= i < |es| ==> Padding(pads[i]) && PrintablePath(es[i].path)
    ensures Candidates(Lines(Join(Rows(pads, es), '\n')), existsAtHead) == Existing(es, existsAtHead)
  {
    LinesOfOutput(pads, es);
    var pads' := [[]] + pads[1..];
    var lines := Rows(pads', es);
    forall i | 0 <= i < |es| ensures ParseEntry(lines[i]) == Some(es[i]) {
      ParseRow(pads'[i], es[i]);
    }
    KeptOfEntries(ParseAll(lines), es, existsAtHead);
  }

  lemma {:induction false} NonBlankKeepsAll(xs: seq<string>)
    requires forall i :: 0 <= i < |xs| ==> Trim(xs[i]) != []
    ensures NonBlank(xs) == xs
    decreases |xs|
  {
    if xs != [] {
      NonBlankKeepsAll(xs[1..]);
    }
  }
}
