/** The rule library of `src/analyzer/patterns.ts`: the AngularJS and React
    signals, each a pure predicate over a file path or a file's content.

    Path rules are `$`-anchored suffix tests. Content rules report whether
    the regular expression matches anywhere (`RegExp.prototype.test`). For
    the rules whose regular expression is deterministic (every greedy
    repetition is followed by a character it cannot consume) the model is a
    scanner at one start index, proved equal to the existential reading of
    the regular expression. The rules with a backtracking `.*` are written
    as bounded existentials directly. */
module Patterns {
  import opened Text

  // ---------------------------------------------------------------------
  // Path rules

  /** `htmlTemplate: /\.html$/` */
  predicate HtmlTemplate(path: string) { EndsWith(path, ".html") }

  /** `controllers: /\.controller\.js$/` */
  predicate ControllerFile(path: string) { EndsWith(path, ".controller.js") }

  /** `services: /\.service\.js$/` */
  predicate ServiceFile(path: string) { EndsWith(path, ".service.js") }

  /** `directives: /\.directive\.js$/` */
  predicate DirectiveFile(path: string) { EndsWith(path, ".directive.js") }

  /** `fileExtension: /\.(tsx|jsx)$/` */
  predicate ReactFileExtension(path: string) {
    EndsWith(path, ".tsx") || EndsWith(path, ".jsx")
  }

  lemma SuffixCharAt(path: string, suffix: string, k: nat)
    requires EndsWith(path, suffix) && k < |suffix|
    ensures path[|path| - 1 - k] == suffix[|suffix| - 1 - k]
  {
    assert path[|path| - |suffix|..][|suffix| - 1 - k] == path[|path| - 1 - k];
  }

  /** A template path never satisfies a script-file rule: the template rule
      ends in `l`, the `.js` rules in `s` and the React extensions in `x`. */
  lemma TemplateExcludesScriptRules(path: string)
    requires HtmlTemplate(path)
    ensures !ControllerFile(path) && !ServiceFile(path) && !DirectiveFile(path)
    ensures !ReactFileExtension(path)
  {
    SuffixesClash(path, ".html", ".controller.js", 0);
    SuffixesClash(path, ".html", ".service.js", 0);
    SuffixesClash(path, ".html", ".directive.js", 0);
    SuffixesClash(path, ".html", ".tsx", 0);
    SuffixesClash(path, ".html", ".jsx", 0);
  }

  /** Two suffixes that differ at the same distance from the end cannot
      both end one path. */
  lemma SuffixesClash(path: string, a: string, b: string, k: nat)
    requires EndsWith(path, a) && k < |a| && k < |b|
    requires a[|a| - 1 - k] != b[|b| - 1 - k]
    ensures !EndsWith(path, b)
  {
    SuffixCharAt(path, a, k);
    if EndsWith(path, b) {
      SuffixCharAt(path, b, k);
    }
  }

  /** The file-kind rules are `.js`-only: the same names with a `.ts`
      extension match none of them, and a React extension excludes all
      three. */
  lemma FileKindRulesNeedJs(path: string)
    requires EndsWith(path, ".ts") || ReactFileExtension(path)
    ensures !ControllerFile(path) && !ServiceFile(path) && !DirectiveFile(path)
  {
    var k := if EndsWith(path, ".ts") then 1 else 0;
    var ext := if EndsWith(path, ".ts") then ".ts" else if EndsWith(path, ".tsx") then ".tsx" else ".jsx";
    SuffixesClash(path, ext, ".controller.js", k);
    SuffixesClash(path, ext, ".service.js", k);
    SuffixesClash(path, ext, ".directive.js", k);
  }

  // ---------------------------------------------------------------------
  // Registration rules: angular\.module\(['"].*?['"]\)\.<kind>\(
  //
  // The lazy `.*?` only affects which match is reported, not whether one
  // exists, so `.test` is the existence of a start `i` and a closing quote
  // `j` with no line terminator in between.

  /** One match of the registration rule for `kind`, opening at `i` and
      closing its module-name quote at `j`. */
  predicate RegistrationAt(s: string, i: nat, j: nat, kind: string) {
    && HasAt(s, i, "angular.module(")
    && i + 16 <= j < |s|
    && IsQuote(s[i + 15])
    && NoLineBreak(s, i + 16, j)
    && IsQuote(s[j])
    && HasAt(s, j + 1, ")." + kind + "(")
  }

  predicate Registration(s: string, kind: string) {
    exists i: nat, j: nat | i < j < |s| :: RegistrationAt(s, i, j, kind)
  }

  predicate Components(s: string) { Registration(s, "component") }
  predicate DirectiveRegistrations(s: string) { Registration(s, "directive") }
  predicate ControllerRegistrations(s: string) { Registration(s, "controller") }
  predicate ServiceRegistrations(s: string) { Registration(s, "service") }
  predicate FactoryRegistrations(s: string) { Registration(s, "factory") }
  predicate Filters(s: string) { Registration(s, "filter") }

  // ---------------------------------------------------------------------
  // ngInject: \/\*\s*@ngInject\s*\*\/

  /** The scanner: greedy whitespace after the comment opener and after `@ngInject`. */
  predicate NgInjectAt(s: string, i: nat) {
    && HasAt(s, i, "/*")
    && var j := SkipWs(s, i + 2);
    && HasAt(s, j, "@ngInject")
    && var k := SkipWs(s, j + 9);
    && HasAt(s, k, "*/")
  }

  /** The regular expression read literally: some whitespace runs. */
  ghost predicate NgInjectShape(s: string, i: nat) {
    exists j: nat, k: nat :: NgInjectShapeAt(s, i, j, k)
  }

  ghost predicate NgInjectShapeAt(s: string, i: nat, j: nat, k: nat) {
    && HasAt(s, i, "/*") && WsRun(s, i + 2, j)
    && HasAt(s, j, "@ngInject") && WsRun(s, j + 9, k)
    && HasAt(s, k, "*/")
  }

  lemma NgInjectScans(s: string, i: nat, j: nat, k: nat)
    requires NgInjectShapeAt(s, i, j, k)
    ensures NgInjectAt(s, i)
  {
    WsThenWord(s, i + 2, j, "@ngInject");
    WsThenWord(s, j + 9, k, "*/");
  }

  lemma NgInjectScanIsRegex(s: string, i: nat)
    ensures NgInjectAt(s, i) <==> NgInjectShape(s, i)
  {
    if NgInjectShape(s, i) {
      var j: nat, k: nat :| NgInjectShapeAt(s, i, j, k);
      NgInjectScans(s, i, j, k);
    }
    if NgInjectAt(s, i) {
      var j := SkipWs(s, i + 2);
      assert NgInjectShapeAt(s, i, j, SkipWs(s, j + 9));
    }
  }

  predicate NgInject(s: string) {
    exists i: nat | i < |s| :: NgInjectAt(s, i)
  }

  // ---------------------------------------------------------------------
  // Shared tail of both import rules: \s+from\s+['"]<name>['"]

  /** A non-empty whitespace run from `a`, then a quoted `name` with either
      quote character on each side. */
  predicate QuotedAfterWs(s: string, a: nat, name: string)
    requires a <= |s|
  {
    var l := SkipWs(s, a);
    && l > a && l + |name| + 1 < |s|
    && IsQuote(s[l]) && HasAt(s, l + 1, name) && IsQuote(s[l + |name| + 1])
  }

  ghost predicate QuotedShape(s: string, a: nat, name: string) {
    exists l: nat :: QuotedAt(s, a, l, name)
  }

  /** The regex tail read literally, with the whitespace run ending at `l`. */
  predicate QuotedAt(s: string, a: nat, l: nat, name: string) {
    && a < l && WsRun(s, a, l) && l + |name| + 1 < |s|
    && IsQuote(s[l]) && HasAt(s, l + 1, name) && IsQuote(s[l + |name| + 1])
  }

  lemma QuotedScans(s: string, a: nat, l: nat, name: string)
    requires QuotedAt(s, a, l, name)
    ensures QuotedAfterWs(s, a, name)
  {
    SkipWsUnique(s, a, l);
  }

  lemma QuotedShapes(s: string, a: nat, name: string)
    requires a <= |s| && QuotedAfterWs(s, a, name)
    ensures QuotedShape(s, a, name)
  {
    assert QuotedAt(s, a, SkipWs(s, a), name);
  }

  lemma QuotedScanIsRegex(s: string, a: nat, name: string)
    requires a <= |s|
    ensures QuotedAfterWs(s, a, name) <==> QuotedShape(s, a, name)
  {
    if QuotedShape(s, a, name) {
      var l: nat :| QuotedAt(s, a, l, name);
      QuotedScans(s, a, l, name);
    }
    if QuotedAfterWs(s, a, name) {
      QuotedShapes(s, a, name);
    }
  }

  /** A non-empty whitespace run from `a`, then `word`, then
      `QuotedAfterWs`: the scanner reading of `\s+<word>\s+['"]<name>['"]`. */
  predicate WordThenQuoted(s: string, a: nat, word: string, name: string)
    requires a <= |s|
  {
    var k := SkipWs(s, a);
    && k > a && HasAt(s, k, word) && QuotedAfterWs(s, k + |word|, name)
  }

  /** The same, with the whitespace run ending at `k` and the tail read
      literally. */
  ghost predicate WordThenQuotedAt(s: string, a: nat, k: nat, word: string, name: string) {
    a < k && WsRun(s, a, k) && HasAt(s, k, word) && QuotedShape(s, k + |word|, name)
  }

  lemma WordThenQuotedScans(s: string, a: nat, k: nat, word: string, name: string)
    requires WordThenQuotedAt(s, a, k, word, name)
    requires |word| > 0 && !IsWhitespace(word[0])
    ensures WordThenQuoted(s, a, word, name)
  {
    WsThenWord(s, a, k, word);
    var l: nat :| QuotedAt(s, k + |word|, l, name);
    QuotedScans(s, k + |word|, l, name);
  }

  lemma WordThenQuotedShapes(s: string, a: nat, word: string, name: string)
    requires a <= |s| && WordThenQuoted(s, a, word, name)
    ensures WordThenQuotedAt(s, a, SkipWs(s, a), word, name)
  {
    QuotedShapes(s, SkipWs(s, a) + |word|, name);
  }

  /** A whitespace run followed by a word that starts with a non-space
      character ends where the greedy scan stops. */
  lemma WsThenWord(s: string, a: nat, j: nat, word: string)
    requires a <= j && WsRun(s, a, j) && HasAt(s, j, word)
    requires |word| > 0 && !IsWhitespace(word[0])
    ensures SkipWs(s, a) == j
  {
    HasAtFirst(s, j, word);
    SkipWsUnique(s, a, j);
  }

  lemma HasAtFirst(s: string, i: nat, lit: string)
    requires HasAt(s, i, lit) && |lit| > 0
    ensures i < |s| && s[i] == lit[0]
  {
    assert s[i..i + |lit|][0] == s[i];
  }

  // ---------------------------------------------------------------------
  // AngularJS import: import\s+angular\s+from\s+['"]angular['"]

  /** The scanner: greedy whitespace runs between the four words. */
  predicate AngularImportAt(s: string, i: nat) {
    && HasAt(s, i, "import")
    && var j := SkipWs(s, i + 6);
    && j > i + 6 && HasAt(s, j, "angular") && WordThenQuoted(s, j + 7, "from", "angular")
  }

  /** The regular expression read literally. */
  ghost predicate AngularImportShape(s: string, i: nat) {
    exists j: nat, k: nat :: AngularImportShapeAt(s, i, j, k)
  }

  ghost predicate AngularImportShapeAt(s: string, i: nat, j: nat, k: nat) {
    && HasAt(s, i, "import") && i + 6 < j && WsRun(s, i + 6, j)
    && HasAt(s, j, "angular") && WordThenQuotedAt(s, j + 7, k, "from", "angular")
  }

  lemma AngularImportScans(s: string, i: nat, j: nat, k: nat)
    requires AngularImportShapeAt(s, i, j, k)
    ensures AngularImportAt(s, i)
  {
    WsThenWord(s, i + 6, j, "angular");
    WordThenQuotedScans(s, j + 7, k, "from", "angular");
  }

  lemma AngularImportShapes(s: string, i: nat)
    requires AngularImportAt(s, i)
    ensures AngularImportShape(s, i)
  {
    var j := SkipWs(s, i + 6);
    WordThenQuotedShapes(s, j + 7, "from", "angular");
    assert AngularImportShapeAt(s, i, j, SkipWs(s, j + 7));
  }

  lemma AngularImportScanIsRegex(s: string, i: nat)
    ensures AngularImportAt(s, i) <==> AngularImportShape(s, i)
  {
    if AngularImportShape(s, i) {
      var j: nat, k: nat :| AngularImportShapeAt(s, i, j, k);
      AngularImportScans(s, i, j, k);
    }
    if AngularImportAt(s, i) {
      AngularImportShapes(s, i);
    }
  }

  predicate AngularImport(s: string) {
    exists i: nat | i < |s| :: AngularImportAt(s, i)
  }

  // ---------------------------------------------------------------------
  // React import: import\s+.*\s+from\s+['"]react['"]
  //
  // `.*` may consume whitespace, so the gap between `import` and `from` is
  // any stretch made of a whitespace run, a line-break-free middle and a
  // second whitespace run.

  predicate ImportGap(s: string, a: nat, b: nat) {
    exists x: nat, y: nat | a < x <= y < b :: WsRun(s, a, x) && NoLineBreak(s, x, y) && WsRun(s, y, b)
  }

  predicate ReactImportAt(s: string, i: nat, f: nat) {
    && HasAt(s, i, "import")
    && i + 6 < f
    && ImportGap(s, i + 6, f)
    && HasAt(s, f, "from")
    && QuotedAfterWs(s, f + 4, "react")
  }

  predicate ReactImport(s: string) {
    exists i: nat, f: nat | i < f < |s| :: ReactImportAt(s, i, f)
  }

  // ---------------------------------------------------------------------
  // React export: export\s+(default\s+)?(function|const)

  predicate KeywordAt(s: string, j: nat) {
    HasAt(s, j, "function") || HasAt(s, j, "const")
  }

  predicate ReactExportAt(s: string, i: nat) {
    && HasAt(s, i, "export")
    && var j := SkipWs(s, i + 6);
    && j > i + 6
    && (|| KeywordAt(s, j)
        || (&& HasAt(s, j, "default")
            && var k := SkipWs(s, j + 7);
            && k > j + 7 && KeywordAt(s, k)))
  }

  /** The regular expression read literally. */
  ghost predicate ReactExportShape(s: string, i: nat) {
    exists j: nat :: ReactExportShapeAt(s, i, j)
  }

  ghost predicate ReactExportShapeAt(s: string, i: nat, j: nat) {
    && HasAt(s, i, "export") && i + 6 < j && WsRun(s, i + 6, j)
    && (KeywordAt(s, j) || exists k: nat :: DefaultThenKeyword(s, j, k))
  }

  /** `default`, a non-empty whitespace run ending at `k`, a keyword. */
  predicate DefaultThenKeyword(s: string, j: nat, k: nat) {
    HasAt(s, j, "default") && j + 7 < k && WsRun(s, j + 7, k) && KeywordAt(s, k)
  }

  lemma KeywordStartsSolid(s: string, j: nat)
    requires KeywordAt(s, j)
    ensures j < |s| && !IsWhitespace(s[j])
  {
    if HasAt(s, j, "function") { HasAtFirst(s, j, "function"); } else { HasAtFirst(s, j, "const"); }
  }

  lemma ReactExportScans(s: string, i: nat, j: nat)
    requires ReactExportShapeAt(s, i, j)
    ensures ReactExportAt(s, i)
  {
    if KeywordAt(s, j) {
      KeywordStartsSolid(s, j);
      SkipWsUnique(s, i + 6, j);
    } else {
      var k: nat :| DefaultThenKeyword(s, j, k);
      WsThenWord(s, i + 6, j, "default");
      KeywordStartsSolid(s, k);
      SkipWsUnique(s, j + 7, k);
    }
  }

  lemma ReactExportShapes(s: string, i: nat)
    requires ReactExportAt(s, i)
    ensures ReactExportShape(s, i)
  {
    var j := SkipWs(s, i + 6);
    if !KeywordAt(s, j) {
      assert DefaultThenKeyword(s, j, SkipWs(s, j + 7));
    }
    assert ReactExportShapeAt(s, i, j);
  }

  lemma ReactExportScanIsRegex(s: string, i: nat)
    ensures ReactExportAt(s, i) <==> ReactExportShape(s, i)
  {
    if ReactExportShape(s, i) {
      var j: nat :| ReactExportShapeAt(s, i, j);
      ReactExportScans(s, i, j);
    }
    if ReactExportAt(s, i) {
      ReactExportShapes(s, i);
    }
  }

  predicate ReactExport(s: string) {
    exists i: nat | i < |s| :: ReactExportAt(s, i)
  }

  // ---------------------------------------------------------------------
  // JSX tag: <[A-Z][A-Za-z0-9]*[\s>/]

  predicate IsTagEnd(c: char) { IsWhitespace(c) || c == '>' || c == '/' }

  predicate JsxAt(s: string, i: nat) {
    && i + 2 <= |s|
    && s[i] == '<' && IsUpper(s[i + 1])
    && var k := Skip(s, i + 2, Alnum);
    && k < |s| && IsTagEnd(s[k])
  }

  ghost predicate JsxShape(s: string, i: nat) {
    exists k: nat ::
      && i + 2 <= k < |s|
      && s[i] == '<' && IsUpper(s[i + 1])
      && Run(s, i + 2, k, Alnum) && IsTagEnd(s[k])
  }

  lemma JsxScanIsRegex(s: string, i: nat)
    ensures JsxAt(s, i) <==> JsxShape(s, i)
  {
    if JsxShape(s, i) {
      var k: nat :|
        && i + 2 <= k < |s|
        && s[i] == '<' && IsUpper(s[i + 1])
        && Run(s, i + 2, k, Alnum) && IsTagEnd(s[k]);
      SkipUnique(s, i + 2, k, Alnum);
    }
    if JsxAt(s, i) {
      var k := Skip(s, i + 2, Alnum);
      assert i + 2 <= k;
    }
  }

  predicate JsxSyntax(s: string) {
    exists i: nat | i < |s| :: JsxAt(s, i)
  }

  /** A tag whose first letter is not an upper-case ASCII letter, such as
      `<div>`, is never JSX to this rule. */
  lemma LowercaseTagsNeverMatch(s: string)
    requires forall i :: 0 <= i < |s| - 1 && s[i] == '<' ==> !IsUpper(s[i + 1])
    ensures !JsxSyntax(s)
  {
  }

  /** A capitalised tag name followed by `>` or `/` is JSX. */
  lemma JsxTagExamples()
    ensures JsxSyntax("<Widget>")
    ensures JsxSyntax("<Widget/>")
  {
    assert JsxAt("<Widget>", 0) by { assert Skip("<Widget>", 2, Alnum) == 7 by { SkipUnique("<Widget>", 2, 7, Alnum); } }
    assert JsxAt("<Widget/>", 0) by { assert Skip("<Widget/>", 2, Alnum) == 7 by { SkipUnique("<Widget/>", 2, 7, Alnum); } }
  }

  /** A lower-case tag, and a tag name that runs to the end of the text,
      are not. */
  lemma JsxNonTagExamples()
    ensures !JsxSyntax("<div>")
    ensures !JsxSyntax("<Widget")
  {
    LowercaseTagsNeverMatch("<div>");
    forall i: nat | i < |"<Widget"| ensures !JsxAt("<Widget", i) {
      if i == 0 {
        assert Skip("<Widget", 2, Alnum) == 7;
      }
    }
  }
}
