/**
 * The offline site crawler: which URLs it refuses (`should_skip`), how it tidies the
 * extracted page text (`normalize_text`), how it names the file a page is saved to
 * (`safe_filename`), and its breadth-first crawl loop (`main`).
 */
module Scrape {
  import opened Wrappers
  import opened Text

  // ---------------------------------------------------------------------------
  // should_skip
  // ---------------------------------------------------------------------------

  /**
   * One entry of the skip list: a literal anchored with `$` (it must end the URL), or a
   * literal that may occur anywhere.
   */
  datatype Pattern = AtEnd(lit: string) | Anywhere(lit: string)

  /** The skip list, in its source order. */
  const SkipPatterns: seq<Pattern> := [
    AtEnd(".png"), AtEnd(".jpg"), AtEnd(".jpeg"), AtEnd(".gif"), AtEnd(".webp"), AtEnd(".svg"),
    AtEnd(".pdf"), AtEnd(".zip"), AtEnd(".mp4"), AtEnd(".mp3"), Anywhere(".woff"), Anywhere(".woff2"),
    Anywhere("/wp-admin"), Anywhere("/admin"), Anywhere("/login"), Anywhere("/account")
  ]

  /**
   * `re.search(p, u)`. Python's `$` matches at the very end of the text and also just
   * before a newline that ends it.
   */
  predicate Search(p: Pattern, u: string) {
    match p
    case AtEnd(lit) => EndsWith(u, lit) || EndsWith(u, lit + "\n")
    case Anywhere(lit) => Contains(u, lit)
  }

  /** `should_skip(url)`: some pattern of the skip list is found in the lower-cased URL. */
  predicate ShouldSkip(url: string) {
    exists i | 0 <= i < |SkipPatterns| :: Search(SkipPatterns[i], Lower(url))
  }

  /** The file extensions that end a skipped URL. */
  const SkippedExtensions: seq<string> :=
    [".png", ".jpg", ".jpeg", ".gif", ".webp", ".svg", ".pdf", ".zip", ".mp4", ".mp3"]

  /** The pieces that make a URL skipped wherever they occur (`.woff2` contains `.woff`). */
  const SkippedParts: seq<string> := [".woff", "/wp-admin", "/admin", "/login", "/account"]

  lemma ContainsLonger(u: string, short: string, long: string)
    requires short <= long && Contains(u, long)
    ensures Contains(u, short)
  {
    var k :| 0 <= k <= |u| - |long| && OccursAt(u, long, k);
    assert u[k..k + |short|] == u[k..k + |long|][..|short|];
    assert OccursAt(u, short, k);
  }

  /** Some pattern of the skip list is found in u. */
  predicate AnySkipPattern(u: string) {
    exists i | 0 <= i < |SkipPatterns| :: Search(SkipPatterns[i], u)
  }

  /** The same condition, written with the extension and part lists. */
  predicate SkippedForm(u: string) {
    || (exists e | e in SkippedExtensions :: EndsWith(u, e) || EndsWith(u, e + "\n"))
    || (exists p | p in SkippedParts :: Contains(u, p))
  }

  lemma PatternGivesForm(u: string, i: nat)
    requires i < |SkipPatterns| && Search(SkipPatterns[i], u)
    ensures SkippedForm(u)
  {
    if i < 10 {
      assert SkipPatterns[i] == AtEnd(SkippedExtensions[i]);
      assert SkippedExtensions[i] in SkippedExtensions;
    } else if i == 11 {
      ContainsLonger(u, ".woff", ".woff2");
      assert SkippedParts[0] in SkippedParts;
    } else {
      var j := if i == 10 then 0 else i - 11;
      assert SkipPatterns[i] == Anywhere(SkippedParts[j]);
      assert SkippedParts[j] in SkippedParts;
    }
  }

  lemma ExtensionGivesPattern(u: string, i: nat)
    requires i < |SkippedExtensions|
    requires EndsWith(u, SkippedExtensions[i]) || EndsWith(u, SkippedExtensions[i] + "\n")
    ensures AnySkipPattern(u)
  {
    assert SkipPatterns[i] == AtEnd(SkippedExtensions[i]);
    assert Search(SkipPatterns[i], u);
  }

  lemma PartGivesPattern(u: string, i: nat)
    requires i < |SkippedParts| && Contains(u, SkippedParts[i])
    ensures AnySkipPattern(u)
  {
    var j := if i == 0 then 10 else i + 11;
    assert SkipPatterns[j] == Anywhere(SkippedParts[i]);
    assert Search(SkipPatterns[j], u);
  }

  lemma FormGivesPattern(u: string)
    requires SkippedForm(u)
    ensures AnySkipPattern(u)
  {
    if exists e | e in SkippedExtensions :: EndsWith(u, e) || EndsWith(u, e + "\n") {
      var e :| e in SkippedExtensions && (EndsWith(u, e) || EndsWith(u, e + "\n"));
      var i :| 0 <= i < |SkippedExtensions| && SkippedExtensions[i] == e;
      ExtensionGivesPattern(u, i);
    } else {
      var p :| p in SkippedParts && Contains(u, p);
      var i :| 0 <= i < |SkippedParts| && SkippedParts[i] == p;
      PartGivesPattern(u, i);
    }
  }

  /**
   * A URL is skipped exactly when, lower-cased, it ends with one of the extensions
   * (possibly followed by one final newline) or contains one of the parts.
   */
  lemma ShouldSkipIff(url: string)
    ensures var u := Lower(url);
      ShouldSkip(url) <==>
        (exists e | e in SkippedExtensions :: EndsWith(u, e) || EndsWith(u, e + "\n"))
        || (exists p | p in SkippedParts :: Contains(u, p))
  {
    var u := Lower(url);
    if ShouldSkip(url) {
      var i :| 0 <= i < |SkipPatterns| && Search(SkipPatterns[i], u);
      PatternGivesForm(u, i);
    }
    if SkippedForm(u) {
      FormGivesPattern(u);
    }
  }

  /** The decision ignores case: a URL is skipped exactly when its lower-cased form is. */
  lemma ShouldSkipIgnoresCase(url: string)
    ensures ShouldSkip(url) <==> ShouldSkip(Lower(url))
  {
    LowerIdempotent(url);
  }

  // ---------------------------------------------------------------------------
  // normalize_text
  // ---------------------------------------------------------------------------

  /** The characters of the class `[ \t]`. */
  predicate IsBlank(c: char) {
    c == ' ' || c == '\t'
  }

  /**
   * `re.sub(r"[ \t]+", " ", s)`, read left to right: a blank opens a run that becomes one
   * space; inRun says the characters just before s were such a run.
   */
  function CollapseBlanksFrom(s: string, inRun: bool): string {
    if s == [] then []
    else if IsBlank(s[0]) then (if inRun then [] else " ") + CollapseBlanksFrom(s[1..], true)
    else [s[0]] + CollapseBlanksFrom(s[1..], false)
  }

  function CollapseBlanks(s: string): string {
    CollapseBlanksFrom(s, false)
  }

  /**
   * `re.sub(r"\n{3,}", "\n\n", s)`, read left to right: of every run of newlines only the
   * first two are kept; run counts the newlines just before s.
   */
  function CollapseNewlinesFrom(s: string, run: nat): string {
    if s == [] then []
    else if s[0] == '\n' then (if run < 2 then "\n" else []) + CollapseNewlinesFrom(s[1..], run + 1)
    else [s[0]] + CollapseNewlinesFrom(s[1..], 0)
  }

  function CollapseNewlines(s: string): string {
    CollapseNewlinesFrom(s, 0)
  }

  /** `normalize_text(s)`. */
  function NormalizeText(s: string): string {
    Strip(CollapseNewlines(CollapseBlanks(s)))
  }

  /** n blanks, for stating what a run becomes. */
  predicate AllBlank(s: string) {
    forall k :: 0 <= k < |s| ==> IsBlank(s[k])
  }

  /** `"\n" * n` */
  function Newlines(n: nat): (r: string)
    ensures |r| == n && forall k :: 0 <= k < n ==> r[k] == '\n'
  {
    if n == 0 then [] else "\n" + Newlines(n - 1)
  }

  lemma {:induction false} CollapseBlanksRunTail(b: string, rest: string)
    requires AllBlank(b)
    ensures CollapseBlanksFrom(b + rest, true) == CollapseBlanksFrom(rest, true)
    decreases |b|
  {
    if b != [] {
      assert (b + rest)[0] == b[0] && (b + rest)[1..] == b[1..] + rest;
      CollapseBlanksRunTail(b[1..], rest);
    } else {
      assert b + rest == rest;
    }
  }

  /**
   * What the regular expression does to one match: a non-empty run of spaces and tabs,
   * followed by a non-blank character or the end, becomes a single space.
   */
  lemma CollapseBlanksRun(b: string, rest: string)
    requires b != [] && AllBlank(b)
    requires rest == [] || !IsBlank(rest[0])
    ensures CollapseBlanks(b + rest) == " " + CollapseBlanks(rest)
  {
    assert (b + rest)[1..] == b[1..] + rest;
    CollapseBlanksRunTail(b[1..], rest);
    assert CollapseBlanksFrom(rest, true) == CollapseBlanksFrom(rest, false);
  }

  lemma {:induction false} CollapseNewlinesRunFrom(n: nat, run: nat, rest: string)
    ensures CollapseNewlinesFrom(Newlines(n) + rest, run)
         == Newlines(if run >= 2 then 0 else Min(n, 2 - run)) + CollapseNewlinesFrom(rest, run + n)
    decreases n
  {
    if n > 0 {
      NewlinesUnfold(n, run, rest);
      CollapseNewlinesRunFrom(n - 1, run + 1, rest);
      var m := if run + 1 >= 2 then 0 else Min(n - 1, 2 - (run + 1));
      var m' := if run >= 2 then 0 else Min(n, 2 - run);
      if run < 2 {
        assert m' == m + 1;
      } else {
        assert m == 0 && m' == 0 && [] + Newlines(0) == Newlines(0);
      }
      RunPrefix(CollapseNewlinesFrom(Newlines(n) + rest, run), CollapseNewlinesFrom(Newlines(n - 1) + rest, run + 1),
                if run < 2 then "\n" else [], m, m', CollapseNewlinesFrom(rest, run + n));
    } else {
      assert Newlines(n) + rest == rest;
    }
  }

  lemma RunPrefix(a: string, b: string, pre: string, m: nat, m': nat, x: string)
    requires a == pre + b && b == Newlines(m) + x && pre + Newlines(m) == Newlines(m')
    ensures a == Newlines(m') + x
  {
    assert a == (pre + Newlines(m)) + x;
  }

  lemma NewlinesUnfold(n: nat, run: nat, rest: string)
    requires n > 0
    ensures CollapseNewlinesFrom(Newlines(n) + rest, run)
         == (if run < 2 then "\n" else []) + CollapseNewlinesFrom(Newlines(n - 1) + rest, run + 1)
  {
    assert (Newlines(n) + rest)[0] == '\n';
    assert (Newlines(n) + rest)[1..] == Newlines(n - 1) + rest;
  }

  /**
   * What the regular expression does to one match: a run of n newlines, followed by
   * another character or the end, keeps min(n, 2) of them.
   */
  lemma CollapseNewlinesRun(n: nat, rest: string)
    requires rest == [] || rest[0] != '\n'
    ensures CollapseNewlines(Newlines(n) + rest) == Newlines(Min(n, 2)) + CollapseNewlines(rest)
  {
    CollapseNewlinesRunFrom(n, 0, rest);
    assert CollapseNewlinesFrom(rest, n) == CollapseNewlinesFrom(rest, 0);
  }

  predicate NoTab(s: string) {
    forall k :: 0 <= k < |s| ==> s[k] != '\t'
  }

  predicate NoDoubleSpace(s: string) {
    forall k :: 0 <= k < |s| - 1 ==> !(s[k] == ' ' && s[k + 1] == ' ')
  }

  predicate NoTripleNewline(s: string) {
    forall k :: 0 <= k < |s| - 2 ==> !(s[k] == '\n' && s[k + 1] == '\n' && s[k + 2] == '\n')
  }

  /** The text normalize_text promises: no tab, no two spaces in a row, no three newlines in a row. */
  predicate Tidy(s: string) {
    NoTab(s) && NoDoubleSpace(s) && NoTripleNewline(s)
  }

  /** The number of newlines s starts with. */
  function LeadingNewlines(s: string): (n: nat)
    ensures n <= |s| && forall k :: 0 <= k < n ==> s[k] == '\n'
    ensures n < |s| ==> s[n] != '\n'
  {
    if |s| > 0 && s[0] == '\n' then 1 + LeadingNewlines(s[1..]) else 0
  }

  lemma {:induction false} CollapseBlanksTidy(s: string, inRun: bool)
    ensures var r := CollapseBlanksFrom(s, inRun);
      NoTab(r) && NoDoubleSpace(r) && (inRun && r != [] ==> r[0] != ' ')
    decreases |s|
  {
    if s != [] {
      CollapseBlanksTidy(s[1..], IsBlank(s[0]));
    }
  }

  /** The invariant that CollapseNewlinesTidy proves of r = CollapseNewlinesFrom(s, run). */
  predicate NewlinesTidyAt(s: string, run: nat, r: string) {
    && Tidy(r)
    && LeadingNewlines(r) + Min(run, 2) <= 2
    && (r != [] && r[0] == ' ' ==> s != [] && (s[0] == ' ' || (s[0] == '\n' && run >= 2)))
  }

  /** A kept newline in front of a result that starts with at most one newline. */
  lemma NewlineStep(s: string, run: nat, r': string)
    requires s != [] && s[0] == '\n' && run < 2
    requires NewlinesTidyAt(s[1..], run + 1, r')
    ensures NewlinesTidyAt(s, run, "\n" + r')
  {
    var r := "\n" + r';
    assert r[1..] == r';
    assert forall k :: 1 <= k < |r| ==> r[k] == r'[k - 1];
  }

  /** Another character in front of a result computed from a fresh run. */
  lemma OtherStep(s: string, r': string)
    requires s != [] && s[0] != '\n' && NoTab(s) && NoDoubleSpace(s)
    requires NewlinesTidyAt(s[1..], 0, r')
    ensures NewlinesTidyAt(s, 0, [s[0]] + r')
  {
    var r := [s[0]] + r';
    assert r[1..] == r';
    assert |s| > 1 ==> !(s[0] == ' ' && s[1] == ' ');
    assert forall k :: 1 <= k < |r| ==> r[k] == r'[k - 1];
  }

  /** A dropped newline: the result is the rest's result. */
  lemma DropStep(s: string, run: nat, r: string)
    requires s != [] && s[0] == '\n' && run >= 2
    requires NewlinesTidyAt(s[1..], run + 1, r)
    ensures NewlinesTidyAt(s, run, r)
  {
  }

  lemma {:induction false} CollapseNewlinesTidy(s: string, run: nat)
    requires NoTab(s) && NoDoubleSpace(s)
    ensures NewlinesTidyAt(s, run, CollapseNewlinesFrom(s, run))
    decreases |s|
  {
    if s == [] {
      return;
    }
    var next := if s[0] == '\n' then run + 1 else 0;
    var r' := CollapseNewlinesFrom(s[1..], next);
    assert NoTab(s[1..]) && NoDoubleSpace(s[1..]) by {
      assert forall k :: 0 <= k < |s| - 1 ==> s[1..][k] == s[k + 1];
    }
    CollapseNewlinesTidy(s[1..], next);
    if s[0] != '\n' {
      assert CollapseNewlinesFrom(s, run) == [s[0]] + r';
      OtherStep(s, r');
    } else if run < 2 {
      assert CollapseNewlinesFrom(s, run) == "\n" + r';
      NewlineStep(s, run, r');
    } else {
      assert CollapseNewlinesFrom(s, run) == r';
      DropStep(s, run, r');
    }
  }

  lemma TidySlice(s: string, i: nat, j: nat)
    requires i <= j <= |s| && Tidy(s)
    ensures Tidy(s[i..j])
  {
    var t := s[i..j];
    assert forall k :: 0 <= k < |t| ==> t[k] == s[i + k];
  }

  /**
   * The result of normalize_text has no tab, no two adjacent spaces, no three
   * consecutive newlines, and no whitespace at either end.
   */
  lemma NormalizeTextTidy(s: string)
    ensures Tidy(NormalizeText(s)) && IsStripped(NormalizeText(s))
  {
    var b := CollapseBlanks(s);
    CollapseBlanksTidy(s, false);
    var n := CollapseNewlines(b);
    CollapseNewlinesTidy(b, 0);
    var i, j := StripIsSlice(n);
    TidySlice(n, i, j);
    StripIsStripped(n);
  }

  lemma {:induction false} CollapseBlanksKeepsTidy(s: string, inRun: bool)
    requires NoTab(s) && NoDoubleSpace(s)
    requires inRun && s != [] ==> s[0] != ' '
    ensures CollapseBlanksFrom(s, inRun) == s
    decreases |s|
  {
    if s != [] {
      assert |s| > 1 ==> !(s[0] == ' ' && s[1] == ' ');
      CollapseBlanksKeepsTidy(s[1..], IsBlank(s[0]));
    }
  }

  lemma {:induction false} CollapseNewlinesKeepsTidy(s: string, run: nat)
    requires NoTripleNewline(s) && LeadingNewlines(s) + run <= 2
    ensures CollapseNewlinesFrom(s, run) == s
    decreases |s|
  {
    if s != [] {
      if s[0] == '\n' {
        CollapseNewlinesKeepsTidy(s[1..], run + 1);
      } else {
        NoTripleLeading(s[1..]);
        CollapseNewlinesKeepsTidy(s[1..], 0);
      }
    }
  }

  lemma NoTripleLeading(s: string)
    requires NoTripleNewline(s)
    ensures LeadingNewlines(s) <= 2
  {
    if |s| > 2 {
      assert !(s[0] == '\n' && s[1] == '\n' && s[2] == '\n');
    }
  }

  /** normalize_text is idempotent: normalising normalised text changes nothing. */
  lemma NormalizeTextIdempotent(s: string)
    ensures NormalizeText(NormalizeText(s)) == NormalizeText(s)
  {
    var t := NormalizeText(s);
    NormalizeTextTidy(s);
    CollapseBlanksKeepsTidy(t, false);
    NoTripleLeading(t);
    CollapseNewlinesKeepsTidy(t, 0);
    StripStripped(t);
  }

  // ---------------------------------------------------------------------------
  // safe_filename
  // ---------------------------------------------------------------------------

  /** The characters a file name may keep: the class `[a-zA-Z0-9_-]`. */
  predicate IsNameChar(c: char) {
    ('a' <= c <= 'z') || ('A' <= c <= 'Z') || ('0' <= c <= '9') || c == '_' || c == '-'
  }

  /** The characters the path clean-up keeps: the class `[a-zA-Z0-9/_-]`. */
  predicate IsPathChar(c: char) {
    IsNameChar(c) || c == '/'
  }

  /**
   * `re.sub(r"[^a-zA-Z0-9/_-]+", "-", s)`, read left to right: every run of other
   * characters becomes one dash; inRun says the characters just before s were such a run.
   */
  function DashOthersFrom(s: string, inRun: bool): (r: string)
    ensures forall k :: 0 <= k < |r| ==> IsPathChar(r[k])
  {
    if s == [] then []
    else if !IsPathChar(s[0]) then (if inRun then [] else "-") + DashOthersFrom(s[1..], true)
    else [s[0]] + DashOthersFrom(s[1..], false)
  }

  function DashOthers(s: string): string {
    DashOthersFrom(s, false)
  }

  /** `s.replace("/", "__")`. */
  function ReplaceSlashes(s: string): string {
    if s == [] then []
    else (if s[0] == '/' then "__" else [s[0]]) + ReplaceSlashes(s[1..])
  }

  /**
   * `safe_filename(url)` on the URL's path: strip slashes, use `home` for an empty path,
   * turn every run of other characters into a dash, strip dashes, turn each slash into
   * two underscores, and add `.md`.
   */
  function SafeFilename(path: string): string {
    var trimmed := StripChar(path, '/');
    var p := if trimmed == [] then "home" else trimmed;
    ReplaceSlashes(StripChar(DashOthers(p), '-')) + ".md"
  }

  lemma {:induction false} ReplaceSlashesNameChars(s: string)
    requires forall k :: 0 <= k < |s| ==> IsPathChar(s[k])
    ensures forall k :: 0 <= k < |ReplaceSlashes(s)| ==> IsNameChar(ReplaceSlashes(s)[k])
    decreases |s|
  {
    if s != [] {
      ReplaceSlashesNameChars(s[1..]);
    }
  }

  /**
   * A saved page's file name ends in `.md`, and what comes before contains only
   * letters, digits, underscores and dashes, so no slash.
   */
  lemma SafeFilenameShape(path: string)
    ensures var r := SafeFilename(path);
      && EndsWith(r, ".md")
      && forall k :: 0 <= k < |r| - 3 ==> IsNameChar(r[k]) && r[k] != '/'
  {
    var trimmed := StripChar(path, '/');
    var p := if trimmed == [] then "home" else trimmed;
    var stem := StripChar(DashOthers(p), '-');
    StripCharPathChars(DashOthers(p));
    ReplaceSlashesNameChars(stem);
    WithExtension(ReplaceSlashes(stem));
  }

  /** Stripping dashes keeps a string within `[a-zA-Z0-9/_-]`. */
  lemma StripCharPathChars(d: string)
    requires forall k :: 0 <= k < |d| ==> IsPathChar(d[k])
    ensures forall k :: 0 <= k < |StripChar(d, '-')| ==> IsPathChar(StripChar(d, '-')[k])
  {
    var i, j := StripCharIsSlice(d, '-');
    var stem := StripChar(d, '-');
    assert forall k :: 0 <= k < |stem| ==> stem[k] == d[i + k];
  }

  lemma WithExtension(name: string)
    requires forall k :: 0 <= k < |name| ==> IsNameChar(name[k])
    ensures var r := name + ".md";
      && EndsWith(r, ".md")
      && forall k :: 0 <= k < |r| - 3 ==> IsNameChar(r[k]) && r[k] != '/'
  {
    var r := name + ".md";
    assert r[|r| - 3..] == ".md";
    assert forall k :: 0 <= k < |r| - 3 ==> r[k] == name[k];
  }

  lemma {:induction false} StripCharAll(s: string, c: char)
    requires forall k :: 0 <= k < |s| ==> s[k] == c
    ensures StripChar(s, c) == []
  {
    var i, j := StripCharIsSlice(s, c);
  }

  /** An empty path, or one of slashes only, is the home page: `home.md`. */
  lemma SafeFilenameHome(path: string)
    requires forall k :: 0 <= k < |path| ==> path[k] == '/'
    ensures SafeFilename(path) == "home.md"
  {
    StripCharAll(path, '/');
    assert DashOthers("home") == "home";
    assert StripChar("home", '-') == "home";
    assert ReplaceSlashes("home") == "home";
  }

  lemma {:induction false} DashOthersAllOthers(s: string, inRun: bool)
    requires forall k :: 0 <= k < |s| ==> !IsPathChar(s[k])
    ensures DashOthersFrom(s, inRun) == if s == [] || inRun then [] else "-"
    decreases |s|
  {
    if s != [] {
      DashOthersAllOthers(s[1..], true);
    }
  }

  /**
   * A non-empty path made only of characters outside `[a-zA-Z0-9/_-]` gives `.md`: the
   * `home` default is applied before the clean-up that leaves nothing.
   */
  lemma SafeFilenameAllOthers(path: string)
    requires path != [] && forall k :: 0 <= k < |path| ==> !IsPathChar(path[k])
    ensures SafeFilename(path) == ".md"
  {
    assert !IsPathChar(path[0]) && !IsPathChar(path[|path| - 1]);
    StripCharKeeps(path, '/');
    DashOthersAllOthers(path, false);
    StripCharAll("-", '-');
  }

  lemma {:induction false} DashOthersKeeps(s: string, inRun: bool)
    requires forall k :: 0 <= k < |s| ==> IsPathChar(s[k])
    ensures DashOthersFrom(s, inRun) == s
    decreases |s|
  {
    if s != [] {
      DashOthersKeeps(s[1..], false);
    }
  }

  lemma StripCharKeeps(s: string, c: char)
    requires s != [] && s[0] != c && s[|s| - 1] != c
    ensures StripChar(s, c) == s
  {
    var i, j := StripCharIsSlice(s, c);
  }

  /**
   * A path that is already clean (only `[a-zA-Z0-9/_-]`, neither starting nor ending
   * with a slash or a dash) keeps its characters; only its slashes become `__`.
   */
  lemma SafeFilenameClean(path: string)
    requires path != [] && forall k :: 0 <= k < |path| ==> IsPathChar(path[k])
    requires path[0] != '/' && path[0] != '-' && path[|path| - 1] != '/' && path[|path| - 1] != '-'
    ensures SafeFilename(path) == ReplaceSlashes(path) + ".md"
  {
    StripCharKeeps(path, '/');
    DashOthersKeeps(path, false);
    StripCharKeeps(path, '-');
  }

  // ---------------------------------------------------------------------------
  // The crawl loop of main
  // ---------------------------------------------------------------------------

  /** What fetching a URL and extracting its page gives: the normalised text and the links. */
  datatype Page = Page(text: string, links: seq<string>)

  /** `_manifest.json`: the base URL, the number of saved files and the files. */
  datatype Manifest = Manifest(base: string, count: nat, files: seq<string>)

  /** `KB_SCRAPE_MAX_PAGES` when the environment does not set it. */
  const DefaultMaxPages: int := 60

  /** Pages whose text is shorter than this are not saved. */
  const MinPageChars: nat := 200

  /** The page at u was fetched and is long enough to be saved. */
  predicate Saves(site: string -> Option<Page>, u: string) {
    site(u).Some? && |site(u).value.text| >= MinPageChars
  }

  /** The page at u is saved, under the file name f. */
  predicate SavedAs(site: string -> Option<Page>, pathOf: string -> string, u: string, f: string) {
    Saves(site, u) && f == SafeFilename(pathOf(u))
  }

  /** The files saved while visiting the URLs vs in order. */
  function SavedFiles(vs: seq<string>, site: string -> Option<Page>, pathOf: string -> string): seq<string> {
    if vs == [] then []
    else
      var u := vs[|vs| - 1];
      SavedFiles(vs[..|vs| - 1], site, pathOf) + (if Saves(site, u) then [SafeFilename(pathOf(u))] else [])
  }

  /** u is a link on one of the fetched pages of vs. */
  predicate LinkedFrom(vs: seq<string>, site: string -> Option<Page>, u: string) {
    exists j | 0 <= j < |vs| :: site(vs[j]).Some? && u in site(vs[j]).value.links
  }

  predicate Distinct(s: seq<string>) {
    forall i, j | 0 <= i < j < |s| :: s[i] != s[j]
  }

  lemma LinkedFromSnoc(vs: seq<string>, site: string -> Option<Page>, x: string, u: string)
    ensures LinkedFrom(vs + [x], site, u) <==>
      LinkedFrom(vs, site, u) || (site(x).Some? && u in site(x).value.links)
  {
    var ws := vs + [x];
    if LinkedFrom(vs, site, u) {
      var j :| 0 <= j < |vs| && site(vs[j]).Some? && u in site(vs[j]).value.links;
      assert ws[j] == vs[j];
    }
    if site(x).Some? && u in site(x).value.links {
      assert ws[|vs|] == x;
    }
    if LinkedFrom(ws, site, u) {
      var j :| 0 <= j < |ws| && site(ws[j]).Some? && u in site(ws[j]).value.links;
      if j < |vs| {
        assert ws[j] == vs[j];
      }
    }
  }

  lemma LinkedFromPrefix(vs: seq<string>, x: string, site: string -> Option<Page>, u: string)
    requires LinkedFrom(vs, site, u)
    ensures LinkedFrom(vs + [x], site, u)
  {
    LinkedFromSnoc(vs, site, x, u);
  }

  /**
   * The invariant of the crawl loop, over the seen set, the queue, the saved files and
   * the URLs visited so far (in the order they were added to `seen`).
   */
  ghost predicate CrawlInv(base: string, maxPages: int, site: string -> Option<Page>, pathOf: string -> string,
                     seen: set<string>, q: seq<string>, saved: seq<string>, visited: seq<string>)
  {
    && VisitedInv(base, maxPages, seen, visited)
    && QueueInv(base, site, seen, q, visited)
    && saved == SavedFiles(visited, site, pathOf)
  }

  /**
   * The seen set holds exactly the visited URLs, each once; there are at most maxPages
   * of them, none skipped, and the first is the base URL.
   */
  ghost predicate VisitedInv(base: string, maxPages: int, seen: set<string>, visited: seq<string>) {
    && (forall u :: u in seen <==> u in visited)
    && |seen| == |visited| && Distinct(visited)
    && |visited| <= Max(maxPages, 0)
    && (forall i | 0 <= i < |visited| :: !ShouldSkip(visited[i]))
    && (visited != [] ==> visited[0] == base)
  }

  /**
   * Every visit after the first and every queued URL is a link of a visited page, and
   * every unskipped link of a visited page (and the base URL) is seen or queued.
   */
  ghost predicate QueueInv(base: string, site: string -> Option<Page>, seen: set<string>, q: seq<string>,
                           visited: seq<string>) {
    && (visited == [] ==> q == [base] || q == [])
    && (forall i | 0 < i < |visited| :: LinkedFrom(visited[..i], site, visited[i]))
    && (visited != [] ==> forall k | 0 <= k < |q| :: LinkedFrom(visited, site, q[k]))
    && (base in seen || ShouldSkip(base) || base in q)
    && (forall u :: LinkedFrom(visited, site, u) && !ShouldSkip(u) ==> u in seen || u in q)
  }

  /** Popping a URL that is already seen or is skipped keeps the invariant. */
  lemma PopDiscarded(base: string, maxPages: int, site: string -> Option<Page>, pathOf: string -> string,
                     seen: set<string>, q: seq<string>, saved: seq<string>, visited: seq<string>)
    requires CrawlInv(base, maxPages, site, pathOf, seen, q, saved, visited)
    requires q != [] && (q[0] in seen || ShouldSkip(q[0]))
    ensures CrawlInv(base, maxPages, site, pathOf, seen, q[1..], saved, visited)
  {
    PopKeepsQueueInv(base, site, seen, q, visited);
  }

  lemma PopKeepsQueueInv(base: string, site: string -> Option<Page>, seen: set<string>, q: seq<string>,
                         visited: seq<string>)
    requires QueueInv(base, site, seen, q, visited)
    requires q != [] && (q[0] in seen || ShouldSkip(q[0]))
    ensures QueueInv(base, site, seen, q[1..], visited)
  {
    assert visited != [] ==> forall k | 0 <= k < |q| - 1 :: q[1..][k] == q[k + 1];
    forall u | LinkedFrom(visited, site, u) && !ShouldSkip(u)
      ensures u in seen || u in q[1..]
    {
      if u !in seen {
        var k :| 0 <= k < |q| && q[k] == u;
        assert k != 0;
        assert q[1..][k - 1] == u;
      }
    }
  }

  /**
   * The visit of one new URL, the body of the loop of `main` after the checks: add it
   * to `seen`, save its page when the text is long enough, and queue its links that
   * are neither seen nor skipped.
   */
  method Visit(base: string, maxPages: int, site: string -> Option<Page>, pathOf: string -> string,
               seen: set<string>, q: seq<string>, saved: seq<string>, ghost visited: seq<string>)
    returns (seen': set<string>, q': seq<string>, saved': seq<string>, ghost visited': seq<string>)
    requires CrawlInv(base, maxPages, site, pathOf, seen, q, saved, visited)
    requires q != [] && q[0] !in seen && !ShouldSkip(q[0]) && |seen| < maxPages
    ensures CrawlInv(base, maxPages, site, pathOf, seen', q', saved', visited')
    ensures seen' == seen + {q[0]} && |seen'| == |seen| + 1 && visited' == visited + [q[0]]
    ensures q' == q[1..] + (if site(q[0]).Some? then NewLinks(site(q[0]).value.links, seen + {q[0]}) else [])
    ensures saved' == saved + (if Saves(site, q[0]) then [SafeFilename(pathOf(q[0]))] else [])
  {
    var url := q[0];
    seen' := seen + {url};
    visited' := visited + [url];
    SavedFilesSnoc(visited, url, site, pathOf);
    saved' := saved;
    q' := q[1..];
    if site(url).Some? {
      var page := site(url).value;
      if |page.text| >= MinPageChars {
        saved' := saved + [SafeFilename(pathOf(url))];
      }
      q' := QueueLinks(page.links, seen', q[1..]);
      VisitLinks(q, page.links, seen', q');
    }
    VisitKeepsInv(base, maxPages, site, pathOf, seen, q, saved, visited, seen', q', saved', visited');
  }

  /** What queueing the new links of the visited page gives the rest of the visit. */
  lemma VisitLinks(q: seq<string>, links: seq<string>, seen': set<string>, q': seq<string>)
    requires q != [] && q' == q[1..] + NewLinks(links, seen')
    ensures q[1..] <= q' && AllIn(q'[|q| - 1..], links)
    ensures forall u | u in links :: u in seen' || ShouldSkip(u) || u in q'
  {
    NewLinksFacts(links, seen');
    var added := NewLinks(links, seen');
    assert q'[|q| - 1..] == added;
    forall k | 0 <= k < |added| ensures added[k] in links {
      assert added[k] in added;
    }
  }

  /**
   * The links of a page that the visit queues, in page order: those neither seen nor
   * skipped, a link that occurs twice on the page queued twice.
   */
  function NewLinks(links: seq<string>, seen: set<string>): seq<string> {
    if links == [] then []
    else
      var u := links[|links| - 1];
      NewLinks(links[..|links| - 1], seen) + (if u !in seen && !ShouldSkip(u) then [u] else [])
  }

  /**
   * A URL is among the queued links exactly when it is a link of the page that is
   * neither seen nor skipped; there are no more of them than links.
   */
  lemma {:induction false} NewLinksFacts(links: seq<string>, seen: set<string>)
    ensures forall u :: u in NewLinks(links, seen) <==> u in links && u !in seen && !ShouldSkip(u)
    ensures |NewLinks(links, seen)| <= |links|
    decreases |links|
  {
    if links != [] {
      var init := links[..|links| - 1];
      NewLinksFacts(init, seen);
      assert links == init + [links[|links| - 1]];
    }
  }

  /**
   * The inner loop of the visit: append to the queue each link that is neither seen
   * nor skipped, in the order of the page.
   */
  method QueueLinks(links: seq<string>, seen: set<string>, q: seq<string>) returns (q': seq<string>)
    ensures q' == q + NewLinks(links, seen)
  {
    q' := q;
    for j := 0 to |links|
      invariant q' == q + NewLinks(links[..j], seen)
    {
      assert links[..j + 1][..j] == links[..j];
      var u := links[j];
      if u !in seen && !ShouldSkip(u) {
        q' := q' + [u];
      }
    }
    assert links[..|links|] == links;
  }

  /** The facts behind Visit's postcondition, once its new state is computed. */
  lemma VisitKeepsInv(base: string, maxPages: int, site: string -> Option<Page>, pathOf: string -> string,
                      seen: set<string>, q: seq<string>, saved: seq<string>, visited: seq<string>,
                      seen': set<string>, q': seq<string>, saved': seq<string>, visited': seq<string>)
    requires CrawlInv(base, maxPages, site, pathOf, seen, q, saved, visited)
    requires q != [] && q[0] !in seen && !ShouldSkip(q[0]) && |seen| < maxPages
    requires seen' == seen + {q[0]} && visited' == visited + [q[0]]
    requires saved' == SavedFiles(visited', site, pathOf)
    requires q[1..] <= q'
    requires site(q[0]).None? ==> q' == q[1..]
    requires site(q[0]).Some? ==> AllIn(q'[|q| - 1..], site(q[0]).value.links)
    requires site(q[0]).Some? ==> forall u | u in site(q[0]).value.links :: u in seen' || ShouldSkip(u) || u in q'
    ensures CrawlInv(base, maxPages, site, pathOf, seen', q', saved', visited')
    ensures |seen'| == |seen| + 1
  {
    var url := q[0];
    VisitKeepsVisitedInv(base, maxPages, seen, visited, url);
    VisitKeepsQueueInv(base, site, seen, q, visited, q');
  }

  lemma VisitKeepsVisitedInv(base: string, maxPages: int, seen: set<string>, visited: seq<string>, url: string)
    requires VisitedInv(base, maxPages, seen, visited)
    requires url !in seen && !ShouldSkip(url) && |seen| < maxPages
    requires visited == [] ==> url == base
    ensures VisitedInv(base, maxPages, seen + {url}, visited + [url])
    ensures |seen + {url}| == |seen| + 1
  {
    VisitDistinct(visited, url, seen);
  }

  lemma VisitKeepsQueueInv(base: string, site: string -> Option<Page>, seen: set<string>, q: seq<string>,
                           visited: seq<string>, q': seq<string>)
    requires QueueInv(base, site, seen, q, visited)
    requires q != [] && q[1..] <= q'
    requires site(q[0]).None? ==> q' == q[1..]
    requires site(q[0]).Some? ==> AllIn(q'[|q| - 1..], site(q[0]).value.links)
    requires site(q[0]).Some? ==> forall u | u in site(q[0]).value.links :: u in seen + {q[0]} || ShouldSkip(u) || u in q'
    ensures QueueInv(base, site, seen + {q[0]}, q', visited + [q[0]])
  {
    var url := q[0];
    assert visited == [] ==> |q| == 1;
    VisitQueueLinked(visited, url, q, q', site);
    assert visited != [] ==> LinkedFrom(visited, site, q[0]);
    VisitHistory(visited, url, site);
    VisitClosure(visited, url, seen, q, q', site);
  }

  /** Every element of xs is in ys. */
  predicate AllIn(xs: seq<string>, ys: seq<string>) {
    forall k | 0 <= k < |xs| :: xs[k] in ys
  }

  lemma VisitQueueLinked(visited: seq<string>, url: string, q: seq<string>, q': seq<string>,
                         site: string -> Option<Page>)
    requires q != [] && q[0] == url && q[1..] <= q'
    requires visited == [] ==> |q| == 1
    requires visited != [] ==> forall k | 0 <= k < |q| :: LinkedFrom(visited, site, q[k])
    requires site(url).None? ==> q' == q[1..]
    requires site(url).Some? ==> AllIn(q'[|q| - 1..], site(url).value.links)
    ensures forall k | 0 <= k < |q'| :: LinkedFrom(visited + [url], site, q'[k])
  {
    forall k | 0 <= k < |q'| ensures LinkedFrom(visited + [url], site, q'[k]) {
      LinkedFromSnoc(visited, site, url, q'[k]);
      if k < |q| - 1 {
        assert q'[k] == q[1..][k] == q[k + 1];
        assert LinkedFrom(visited, site, q[k + 1]);
      } else {
        assert q'[k] == q'[|q| - 1..][k - (|q| - 1)];
      }
    }
  }

  lemma VisitDistinct(visited: seq<string>, url: string, seen: set<string>)
    requires forall u :: u in seen <==> u in visited
    requires Distinct(visited) && url !in seen
    ensures Distinct(visited + [url])
  {
    forall i | 0 <= i < |visited| ensures visited[i] != url {
      assert visited[i] in seen;
    }
  }

  lemma VisitHistory(visited: seq<string>, url: string, site: string -> Option<Page>)
    requires forall i | 0 < i < |visited| :: LinkedFrom(visited[..i], site, visited[i])
    requires visited != [] ==> LinkedFrom(visited, site, url)
    ensures var vs := visited + [url];
      forall i | 0 < i < |vs| :: LinkedFrom(vs[..i], site, vs[i])
  {
    var vs := visited + [url];
    forall i | 0 < i < |vs|
      ensures LinkedFrom(vs[..i], site, vs[i])
    {
      if i < |visited| {
        assert vs[..i] == visited[..i];
      } else {
        assert vs[..i] == visited;
      }
    }
  }

  lemma VisitClosure(visited: seq<string>, url: string, seen: set<string>, q: seq<string>,
                     q': seq<string>, site: string -> Option<Page>)
    requires q != [] && q[0] == url && q[1..] <= q'
    requires forall u :: LinkedFrom(visited, site, u) && !ShouldSkip(u) ==> u in seen || u in q
    requires site(url).Some? ==> forall u | u in site(url).value.links :: u in seen + {url} || ShouldSkip(u) || u in q'
    ensures forall u :: LinkedFrom(visited + [url], site, u) && !ShouldSkip(u) ==> u in seen + {url} || u in q'
  {
    forall u | LinkedFrom(visited + [url], site, u) && !ShouldSkip(u)
      ensures u in seen + {url} || u in q'
    {
      LinkedFromSnoc(visited, site, url, u);
      if u !in seen + {url} && LinkedFrom(visited, site, u) {
        var k :| 0 <= k < |q| && q[k] == u;
        assert q'[k - 1] == u;
      }
    }
  }

  /**
   * The reference crawl: the URLs the loop of `main` visits, in order, from the state
   * (seen, q) after visiting visited. The head of the queue is popped; it is dropped
   * when seen or skipped, otherwise it is visited and the page's new links are queued
   * at the back.
   */
  function CrawlRef(maxPages: int, site: string -> Option<Page>, seen: set<string>, q: seq<string>,
                    visited: seq<string>): seq<string>
    decreases Max(maxPages, 0) - |seen|, |q|
  {
    if q == [] || |seen| >= maxPages then visited
    else if q[0] in seen || ShouldSkip(q[0]) then CrawlRef(maxPages, site, seen, q[1..], visited)
    else
      var url := q[0];
      var seen' := seen + {url};
      assert |seen'| == |seen| + 1;
      CrawlRef(maxPages, site, seen',
               q[1..] + (if site(url).Some? then NewLinks(site(url).value.links, seen') else []),
               visited + [url])
  }

  /**
   * The loop of `main`: a breadth-first crawl from base over a FIFO queue, with a seen
   * set and a bound of maxPages visited URLs. site(u) is what fetching u and extracting
   * its text and links gives (None: fetching, extracting or writing the page raised,
   * so nothing is saved or queued; a `get_links` that raises after the page is saved
   * is a page with no links); pathOf(u) is the URL's path,
   * from which the saved file is named. visited lists the URLs added to `seen`, in order.
   */
  method Crawl(base: string, maxPages: int, site: string -> Option<Page>, pathOf: string -> string)
    returns (manifest: Manifest, ghost visited: seq<string>)
    ensures Distinct(visited) && |visited| <= Max(maxPages, 0)
    ensures forall i | 0 <= i < |visited| :: !ShouldSkip(visited[i])
    ensures visited != [] ==> visited[0] == base
    ensures forall i | 0 < i < |visited| :: LinkedFrom(visited[..i], site, visited[i])
    ensures |visited| < maxPages ==> base in visited || ShouldSkip(base)
    ensures |visited| < maxPages ==>
      forall u :: LinkedFrom(visited, site, u) && !ShouldSkip(u) ==> u in visited
    ensures manifest.base == base && manifest.files == SavedFiles(visited, site, pathOf)
    ensures manifest.count == |manifest.files|
    ensures visited == CrawlRef(maxPages, site, {}, [base], [])
  {
    var seen: set<string> := {};
    var q := [base];
    var saved: seq<string> := [];
    visited := [];
    while q != [] && |seen| < maxPages
      invariant CrawlInv(base, maxPages, site, pathOf, seen, q, saved, visited)
      invariant CrawlRef(maxPages, site, seen, q, visited) == CrawlRef(maxPages, site, {}, [base], [])
      decreases maxPages - |seen|, |q|
    {
      if q[0] in seen || ShouldSkip(q[0]) {
        PopDiscarded(base, maxPages, site, pathOf, seen, q, saved, visited);
        q := q[1..];
        continue;
      }
      seen, q, saved, visited := Visit(base, maxPages, site, pathOf, seen, q, saved, visited);
    }
    manifest := Manifest(base, |saved|, saved);
  }
  lemma SavedFilesSnoc(vs: seq<string>, url: string, site: string -> Option<Page>, pathOf: string -> string)
    ensures SavedFiles(vs + [url], site, pathOf)
         == SavedFiles(vs, site, pathOf) + (if Saves(site, url) then [SafeFilename(pathOf(url))] else [])
  {
    assert (vs + [url])[..|vs|] == vs;
  }

  /**
   * A file is in the manifest exactly when it is the name of a visited page that was
   * fetched and has at least MinPageChars characters of text.
   */
  lemma {:induction false} SavedFilesIff(vs: seq<string>, site: string -> Option<Page>,
                                         pathOf: string -> string, f: string)
    ensures f in SavedFiles(vs, site, pathOf) <==> exists u | u in vs :: SavedAs(site, pathOf, u, f)
    decreases |vs|
  {
    if vs != [] {
      var init := vs[..|vs| - 1];
      var last := vs[|vs| - 1];
      SavedFilesIff(init, site, pathOf, f);
      assert vs == init + [last];
      SavedFilesSnoc(init, last, site, pathOf);
      SavedFilesIffStep(init, last, site, pathOf, f);
    }
  }

  /** One step of SavedFilesIff: the visit of one more URL. */
  lemma SavedFilesIffStep(init: seq<string>, last: string, site: string -> Option<Page>,
                          pathOf: string -> string, f: string)
    requires f in SavedFiles(init, site, pathOf) <==> exists u | u in init :: SavedAs(site, pathOf, u, f)
    requires SavedFiles(init + [last], site, pathOf)
          == SavedFiles(init, site, pathOf) + (if Saves(site, last) then [SafeFilename(pathOf(last))] else [])
    ensures f in SavedFiles(init + [last], site, pathOf) <==> exists u | u in init + [last] :: SavedAs(site, pathOf, u, f)
  {
    var vs := init + [last];
    if f in SavedFiles(vs, site, pathOf) {
      if f in SavedFiles(init, site, pathOf) {
        var u :| u in init && SavedAs(site, pathOf, u, f);
        assert u in vs;
      } else {
        assert SavedAs(site, pathOf, last, f);
        assert last in vs;
      }
    }
    if exists u | u in vs :: SavedAs(site, pathOf, u, f) {
      var u :| u in vs && SavedAs(site, pathOf, u, f);
      if u != last {
        assert u in init;
      }
    }
  }

  /** No more files are saved than URLs are visited, so the manifest count is at most maxPages. */
  lemma {:induction false} SavedFilesBound(vs: seq<string>, site: string -> Option<Page>, pathOf: string -> string)
    ensures |SavedFiles(vs, site, pathOf)| <= |vs|
    decreases |vs|
  {
    if vs != [] {
      SavedFilesBound(vs[..|vs| - 1], site, pathOf);
    }
  }
}
