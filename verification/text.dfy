/** String helpers shared by the pattern rules and the parsers: JavaScript's
    whitespace classes, suffix tests, `split` / `join` on one separator
    character, and `trim`. */
module Text {

  /** The characters JavaScript's `\s` class matches; `String.prototype.trim`
      removes exactly this set from both ends. */
  predicate IsWhitespace(c: char) {
    || c == '\t' || c == '\n' || c == '\U{000B}' || c == '\U{000C}' || c == '\r'
    || c == ' ' || c == '\U{00A0}' || c == '\U{1680}'
    || ('\U{2000}' <= c <= '\U{200A}')
    || c == '\U{2028}' || c == '\U{2029}' || c == '\U{202F}' || c == '\U{205F}'
    || c == '\U{3000}' || c == '\U{FEFF}'
  }

  /** The characters JavaScript's `.` does not match. */
  predicate IsLineTerminator(c: char) {
    c == '\n' || c == '\r' || c == '\U{2028}' || c == '\U{2029}'
  }

  predicate IsDigit(c: char) { '0' <= c <= '9' }
  predicate IsUpper(c: char) { 'A' <= c <= 'Z' }
  predicate IsLower(c: char) { 'a' <= c <= 'z' }
  predicate IsAlnum(c: char) { IsUpper(c) || IsLower(c) || IsDigit(c) }
  predicate IsQuote(c: char) { c == '\'' || c == '"' }

  /** `lit` occurs in `s` starting at index `i`. */
  predicate HasAt(s: string, i: nat, lit: string) {
    i + |lit| <= |s| && s[i..i + |lit|] == lit
  }

  predicate StartsWith(s: string, prefix: string) {
    HasAt(s, 0, prefix)
  }

  predicate EndsWith(s: string, suffix: string) {
    |suffix| <= |s| && s[|s| - |suffix|..] == suffix
  }

  /** The character classes a greedy regex repetition runs over. */
  datatype CharClass = Space | Alnum | Digit

  predicate InClass(c: char, cls: CharClass) {
    match cls
    case Space => IsWhitespace(c)
    case Alnum => IsAlnum(c)
    case Digit => IsDigit(c)
  }

  /** Every character of `s[a..b]` belongs to `cls`. */
  predicate Run(s: string, a: nat, b: nat, cls: CharClass) {
    a <= b <= |s| && forall m {:trigger InClass(s[m], cls)} :: a <= m < b ==> InClass(s[m], cls)
  }

  /** Every character of `s[a..b]` is whitespace. */
  predicate WsRun(s: string, a: nat, b: nat) {
    Run(s, a, b, Space)
  }

  /** No character of `s[a..b]` is a line terminator. */
  predicate NoLineBreak(s: string, a: nat, b: nat) {
    a <= b <= |s| && forall m {:trigger IsLineTerminator(s[m])} :: a <= m < b ==> !IsLineTerminator(s[m])
  }

  /** The end of the `cls` run starting at `i`: where a greedy `cls*`
      stops. */
  function Skip(s: string, i: nat, cls: CharClass): (j: nat)
    requires i <= |s|
    ensures Run(s, i, j, cls)
    ensures j == |s| || !InClass(s[j], cls)
    decreases |s| - i
  {
    if i < |s| && InClass(s[i], cls) then Skip(s, i + 1, cls) else i
  }

  function SkipWs(s: string, i: nat): (j: nat)
    requires i <= |s|
    ensures WsRun(s, i, j)
    ensures j == |s| || !IsWhitespace(s[j])
  {
    Skip(s, i, Space)
  }

  /** A run that ends at a character outside its class is the one `Skip`
      finds: a greedy repetition followed by a character it cannot consume
      never needs to backtrack. */
  lemma {:induction false} SkipUnique(s: string, i: nat, j: nat, cls: CharClass)
    requires Run(s, i, j, cls) && j < |s| && !InClass(s[j], cls)
    ensures Skip(s, i, cls) == j
    decreases j - i
  {
    if i < j {
      SkipUnique(s, i + 1, j, cls);
    }
  }

  /** A greedy repetition consumes at least every run it can. */
  lemma {:induction false} SkipCovers(s: string, i: nat, j: nat, cls: CharClass)
    requires Run(s, i, j, cls)
    ensures j <= Skip(s, i, cls)
    decreases j - i
  {
    if i < j {
      assert InClass(s[i], cls);
      SkipCovers(s, i + 1, j, cls);
    }
  }

  lemma SkipWsUnique(s: string, i: nat, j: nat)
    requires WsRun(s, i, j) && j < |s| && !IsWhitespace(s[j])
    ensures SkipWs(s, i) == j
  {
    SkipUnique(s, i, j, Space);
  }

  /** The start of the whitespace run that ends at `j` (scanning left). */
  function SkipWsBack(s: string, j: nat): (i: nat)
    requires j <= |s|
    ensures WsRun(s, i, j)
    ensures i == 0 || !IsWhitespace(s[i - 1])
    decreases j
  {
    if j > 0 && IsWhitespace(s[j - 1]) then SkipWsBack(s, j - 1) else j
  }

  /** `String.prototype.trim`. */
  function Trim(s: string): (r: string)
    ensures |r| <= |s|
    ensures r == [] || (!IsWhitespace(r[0]) && !IsWhitespace(r[|r| - 1]))
    ensures exists a: nat, b: nat :: a <= b <= |s| && WsRun(s, 0, a) && WsRun(s, b, |s|) && r == s[a..b]
  {
    var a := SkipWs(s, 0);
    if a == |s| then
      assert WsRun(s, |s|, |s|);
      []
    else
      var b := SkipWsBack(s, |s|);
      assert a < b;
      s[a..b]
  }

  /** Trimming a trimmed string changes nothing. */
  lemma TrimIdempotent(s: string)
    ensures Trim(Trim(s)) == Trim(s)
  {
    var t := Trim(s);
    if t != [] {
      assert SkipWs(t, 0) == 0 by { assert !InClass(t[0], Space); }
      assert SkipWsBack(t, |t|) == |t|;
    }
  }

  /** Leading whitespace in front of a string that neither starts nor ends
      with whitespace is exactly what `trim` removes. */
  lemma TrimPadded(pad: string, core: string)
    requires WsRun(pad, 0, |pad|)
    requires core != [] && !IsWhitespace(core[0]) && !IsWhitespace(core[|core| - 1])
    ensures Trim(pad + core) == core
  {
    var s := pad + core;
    assert s[|pad|] == core[0];
    assert forall m :: 0 <= m < |pad| ==> s[m] == pad[m];
    assert WsRun(s, 0, |pad|) by {
      forall m | 0 <= m < |pad| ensures InClass(s[m], Space) {
        assert InClass(pad[m], Space);
      }
    }
    SkipWsUnique(s, 0, |pad|);
    assert s[|s| - 1] == core[|core| - 1];
    assert SkipWsBack(s, |s|) == |s|;
    assert s[|pad|..|s|] == core;
  }

  /** Index of the first occurrence of `c`. */
  function IndexOf(s: string, c: char): (i: nat)
    requires c in s
    ensures i < |s| && s[i] == c && c !in s[..i]
  {
    if s[0] == c then 0 else IndexOf(s[1..], c) + 1
  }

  /** `parts.join(sep)`. */
  function Join(parts: seq<string>, sep: char): string
    requires |parts| >= 1
  {
    if |parts| == 1 then parts[0] else parts[0] + [sep] + Join(parts[1..], sep)
  }

  /** Joining puts the last piece at the end. */
  lemma {:induction false} JoinEndsWithLast(parts: seq<string>, sep: char)
    requires |parts| >= 1 && parts[|parts| - 1] != []
    ensures var j := Join(parts, sep); var l := parts[|parts| - 1]; |j| >= |l| && j[|j| - 1] == l[|l| - 1]
    decreases |parts|
  {
    if |parts| > 1 {
      JoinEndsWithLast(parts[1..], sep);
    }
  }

  /** Joining puts the first piece at the front. */
  lemma JoinHead(head: string, rest: seq<string>, sep: char)
    ensures Join([head] + rest, sep) == if rest == [] then head else head + [sep] + Join(rest, sep)
  {
    assert ([head] + rest)[1..] == rest;
  }

  /** Padding in front of the first piece is padding in front of the
      joined string. */
  lemma JoinPadded(pad: string, head: string, rest: seq<string>, sep: char)
    ensures Join([pad + head] + rest, sep) == pad + Join([head] + rest, sep)
  {
    JoinHead(pad + head, rest, sep);
    JoinHead(head, rest, sep);
  }

  /** `s.split(sep)` for a one-character separator: the maximal pieces
      between separators, empty pieces included. */
  function Split(s: string, sep: char): (parts: seq<string>)
    ensures |parts| >= 1
    ensures forall k :: 0 <= k < |parts| ==> sep !in parts[k]
    ensures Join(parts, sep) == s
    decreases |s|
  {
    if sep !in s then [s]
    else
      var i := IndexOf(s, sep);
      var rest := Split(s[i + 1..], sep);
      assert s == s[..i] + [sep] + s[i + 1..];
      [s[..i]] + rest
  }

  /** Splitting a joined list recovers the list, provided no piece holds
      the separator. */
  lemma {:induction false} SplitJoin(parts: seq<string>, sep: char)
    requires |parts| >= 1
    requires forall k :: 0 <= k < |parts| ==> sep !in parts[k]
    ensures Split(Join(parts, sep), sep) == parts
    decreases |parts|
  {
    if |parts| == 1 {
    } else {
      var s := Join(parts, sep);
      var p := parts[0];
      assert s == p + [sep] + Join(parts[1..], sep);
      assert s[|p|] == sep;
      assert s[..|p|] == p;
      assert sep in s;
      IndexOfAfter(p, sep, Join(parts[1..], sep));
      assert s[|p| + 1..] == Join(parts[1..], sep);
      SplitJoin(parts[1..], sep);
    }
  }

  lemma IndexOfAfter(p: string, sep: char, rest: string)
    requires sep !in p
    ensures sep in p + [sep] + rest
    ensures IndexOf(p + [sep] + rest, sep) == |p|
    decreases |p|
  {
    var s := p + [sep] + rest;
    assert s[|p|] == sep;
    if p != [] {
      assert s[1..] == p[1..] + [sep] + rest;
      IndexOfAfter(p[1..], sep, rest);
    }
  }

  /** A separator-free head splits off as the first piece. */
  lemma SplitCons(head: string, sep: char, rest: string)
    requires sep !in head
    ensures Split(head + [sep] + rest, sep) == [head] + Split(rest, sep)
  {
    var s := head + [sep] + rest;
    IndexOfAfter(head, sep, rest);
    assert s[..|head|] == head;
    assert s[|head| + 1..] == rest;
  }
}
