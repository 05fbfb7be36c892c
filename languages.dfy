/**
 * The registry of languages indexed by name (lib/language_identifier/languages.rb):
 * deriving a language name from a seed file name, the seed file-name filter,
 * and ingesting texts into the language of a given name.
 *
 * File reading and directory listing are replaced by their results: a file is
 * given by its path and its contents (a zero-size file has empty contents), a
 * directory by the list of its entries, each a name and the contents of the
 * file of that name.
 */
module Languages {
  import opened Wrappers
  import L = Language

  // ---------------------------------------------------------------------------
  // File.basename(path, ".*")
  // ---------------------------------------------------------------------------

  /** path without its trailing slashes. */
  function ChompSlashes(path: string): (r: string)
    ensures |r| <= |path| && r == path[..|r|]
    ensures r == [] || r[|r| - 1] != '/'
    ensures forall j :: |r| <= j < |path| ==> path[j] == '/'
  {
    if path != [] && path[|path| - 1] == '/' then ChompSlashes(path[..|path| - 1]) else path
  }

  /** What follows the last slash of path: all of path when it has none. */
  function AfterLastSlash(path: string): (r: string)
    ensures |r| <= |path| && r == path[|path| - |r|..]
    ensures forall j :: 0 <= j < |r| ==> r[j] != '/'
    ensures |r| < |path| ==> path[|path| - |r| - 1] == '/'
  {
    if path == [] || path[|path| - 1] == '/' then []
    else AfterLastSlash(path[..|path| - 1]) + [path[|path| - 1]]
  }

  /** File.basename(path): the last component; a path of slashes alone gives "/". */
  function BaseName(path: string): string {
    var c := ChompSlashes(path);
    if path != [] && c == [] then "/" else AfterLastSlash(c)
  }

  /** The index of the last dot of b, if any. */
  function LastDot(b: string): (r: Option<nat>)
    ensures r.Some? ==> r.value < |b| && b[r.value] == '.'
    ensures r.Some? ==> forall j :: r.value < j < |b| ==> b[j] != '.'
    ensures r.None? ==> forall j :: 0 <= j < |b| ==> b[j] != '.'
  {
    if b == [] then None
    else if b[|b| - 1] == '.' then Some(|b| - 1)
    else LastDot(b[..|b| - 1])
  }

  /** The first d characters of b are dots. */
  predicate LeadingDots(b: string, d: nat) {
    forall j :: 0 <= j < d && j < |b| ==> b[j] == '.'
  }

  /**
   * Where the extension of a base name starts: at its last dot, unless that dot
   * belongs to the dots the name starts with (".bashrc", ".."), which never
   * start an extension; at the end when there is no extension.
   */
  function ExtensionStart(b: string): (i: nat)
    ensures i <= |b|
    ensures i < |b| ==> b[i] == '.' && !LeadingDots(b, i) && forall j :: i < j < |b| ==> b[j] != '.'
    ensures i == |b| ==> forall j, j' :: 0 <= j < j' < |b| && b[j] != '.' ==> b[j'] != '.'
  {
    match LastDot(b)
    case None => |b|
    case Some(d) => if LeadingDots(b, d) then |b| else d
  }

  /** `File.basename(path, ".*")`: the last path component with its last extension removed. */
  function LanguageName(path: string): string {
    var b := BaseName(path);
    b[..ExtensionStart(b)]
  }

  /** The directory part of a path does not matter to its last component. */
  lemma {:induction false} AfterLastSlashOfEntry(dir: string, e: string)
    requires dir == [] || dir[|dir| - 1] == '/'
    requires forall j :: 0 <= j < |e| ==> e[j] != '/'
    ensures AfterLastSlash(dir + e) == e
    decreases |e|
  {
    var p := dir + e;
    if e == [] {
      assert p == dir;
    } else {
      var e' := e[..|e| - 1];
      assert p[|p| - 1] == e[|e| - 1];
      assert p[..|p| - 1] == dir + e';
      AfterLastSlashOfEntry(dir, e');
      assert AfterLastSlash(p) == AfterLastSlash(dir + e') + [e[|e| - 1]];
      assert e == e' + [e[|e| - 1]];
    }
  }

  /** An entry read from a directory keeps its own name. */
  lemma BaseNameOfEntry(dir: string, e: string)
    requires dir == [] || dir[|dir| - 1] == '/'
    requires e != [] && forall j :: 0 <= j < |e| ==> e[j] != '/'
    ensures BaseName(dir + e) == e
  {
    AfterLastSlashOfEntry(dir, e);
  }

  /** The language of a seed file does not depend on the directory it is read from. */
  lemma LanguageNameIgnoresDirectory(dir: string, e: string)
    requires dir == [] || dir[|dir| - 1] == '/'
    requires e != [] && forall j :: 0 <= j < |e| ==> e[j] != '/'
    ensures LanguageName(dir + e) == LanguageName(e)
  {
    BaseNameOfEntry(dir, e);
    BaseNameOfEntry([], e);
    assert [] + e == e;
  }

  /** A seed file "NAME.ext", in any directory, holds language NAME ("ENGLISH.1" holds ENGLISH). */
  lemma LanguageNameOfSeed(dir: string, w: string, ext: string)
    requires dir == [] || dir[|dir| - 1] == '/'
    requires w != [] && w[0] != '.'
    requires forall j :: 0 <= j < |w| ==> w[j] != '/'
    requires forall j :: 0 <= j < |ext| ==> ext[j] != '/' && ext[j] != '.'
    ensures LanguageName(dir + w + "." + ext) == w
  {
    var e := w + "." + ext;
    assert dir + w + "." + ext == dir + e;
    NoSlashInSeed(w, ext);
    BaseNameOfEntry(dir, e);
    ExtensionOfSeed(w, ext);
    assert LanguageName(dir + e) == e[..|w|];
    assert e[..|w|] == w;
  }

  lemma NoSlashInSeed(w: string, ext: string)
    requires forall j :: 0 <= j < |w| ==> w[j] != '/'
    requires forall j :: 0 <= j < |ext| ==> ext[j] != '/'
    ensures var e := w + "." + ext; e != [] && forall j :: 0 <= j < |e| ==> e[j] != '/'
  {
    var e := w + "." + ext;
    forall j | 0 <= j < |e| ensures e[j] != '/' {
      if j < |w| { assert e[j] == w[j]; } else if j > |w| { assert e[j] == ext[j - |w| - 1]; }
    }
  }

  /** The extension of "NAME.ext" starts at the dot after NAME. */
  lemma ExtensionOfSeed(w: string, ext: string)
    requires w != [] && w[0] != '.'
    requires forall j :: 0 <= j < |ext| ==> ext[j] != '.'
    ensures ExtensionStart(w + "." + ext) == |w|
  {
    var e := w + "." + ext;
    var wd := w + ".";
    assert e == wd + ext;
    assert wd[|wd| - 1] == '.';
    assert LastDot(wd) == Some(|w|);
    LastDotSkips(wd, ext);
    assert !LeadingDots(e, |w|) by {
      assert e[0] == w[0];
    }
  }

  /** Characters after the last dot do not move it. */
  lemma {:induction false} LastDotSkips(x: string, ext: string)
    requires forall j :: 0 <= j < |ext| ==> ext[j] != '.'
    ensures LastDot(x + ext) == LastDot(x)
    decreases |ext|
  {
    if ext == [] {
      assert x + ext == x;
    } else {
      var p := x + ext;
      var ext' := ext[..|ext| - 1];
      assert p[|p| - 1] == ext[|ext| - 1];
      assert p[..|p| - 1] == x + ext';
      LastDotSkips(x, ext');
    }
  }

  // ---------------------------------------------------------------------------
  // The seed file-name filter: filename =~ /^[A-Z]+.\d/
  // ---------------------------------------------------------------------------

  predicate IsUpper(c: char) {
    'A' <= c <= 'Z'
  }

  predicate IsDigit(c: char) {
    '0' <= c <= '9'
  }

  predicate AllUpper(t: string) {
    forall j :: 0 <= j < |t| ==> IsUpper(t[j])
  }

  /**
   * `[A-Z]+.\d` matches at the start of s: one or more capitals, then any
   * character but a line feed (the dot is not escaped), then a digit.
   */
  ghost predicate SeedPatternAt(s: string) {
    exists k :: 1 <= k && k + 1 < |s| && AllUpper(s[..k]) && s[k] != '\n' && IsDigit(s[k + 1])
  }

  /** The pattern matches at s either with a single capital, or one capital further on. */
  lemma SeedPatternCases(s: string)
    ensures SeedPatternAt(s) <==>
      |s| >= 3 && IsUpper(s[0]) && ((s[1] != '\n' && IsDigit(s[2])) || SeedPatternAt(s[1..]))
  {
    if |s| >= 3 && IsUpper(s[0]) && !(s[1] != '\n' && IsDigit(s[2])) && SeedPatternAt(s[1..]) {
      var t := s[1..];
      var k :| 1 <= k && k + 1 < |t| && AllUpper(t[..k]) && t[k] != '\n' && IsDigit(t[k + 1]);
      assert AllUpper(s[..k + 1]) by {
        forall j | 0 <= j < k + 1 ensures IsUpper(s[j]) {
          if j > 0 { assert t[..k][j - 1] == s[j]; }
        }
      }
      assert s[k + 1] == t[k] && s[k + 2] == t[k + 1];
    }
    if |s| >= 3 && IsUpper(s[0]) && s[1] != '\n' && IsDigit(s[2]) {
      assert AllUpper(s[..1]);
    }
    if SeedPatternAt(s) {
      var k :| 1 <= k && k + 1 < |s| && AllUpper(s[..k]) && s[k] != '\n' && IsDigit(s[k + 1]);
      assert s[..k][0] == s[0];
      if k > 1 {
        var t := s[1..];
        assert AllUpper(t[..k - 1]) by {
          forall j | 0 <= j < k - 1 ensures IsUpper(t[j]) {
            assert s[..k][j + 1] == t[j];
          }
        }
        assert t[k - 1] == s[k] && t[k] == s[k + 1];
      }
    }
  }

  /** Matching `[A-Z]+.\d` at the start of s, trying ever longer runs of capitals. */
  function MatchesSeedAt(s: string): (r: bool)
    ensures r <==> SeedPatternAt(s)
  {
    SeedPatternCases(s);
    |s| >= 3 && IsUpper(s[0]) && ((s[1] != '\n' && IsDigit(s[2])) || MatchesSeedAt(s[1..]))
  }

  /** The pattern matches at a position p of s that starts a line (the line-start anchor `^`). */
  ghost predicate SeedPatternOnLine(s: string, atLineStart: bool, p: int) {
    0 <= p < |s| && (if p == 0 then atLineStart else s[p - 1] == '\n') && SeedPatternAt(s[p..])
  }

  /** The pattern matches at some line start of s. */
  ghost predicate SeedPatternOnSomeLine(s: string, atLineStart: bool) {
    exists p :: SeedPatternOnLine(s, atLineStart, p)
  }

  /** A line start where the pattern matches is either the start of s or one in its tail. */
  lemma SeedLineCases(s: string, atLineStart: bool)
    requires s != []
    ensures SeedPatternOnSomeLine(s, atLineStart) <==>
      (atLineStart && SeedPatternAt(s)) || SeedPatternOnSomeLine(s[1..], s[0] == '\n')
  {
    assert s[0..] == s;
    var nl := s[0] == '\n';
    if SeedPatternOnSomeLine(s[1..], nl) {
      var p :| SeedPatternOnLine(s[1..], nl, p);
      assert s[1..][p..] == s[p + 1..];
      assert SeedPatternOnLine(s, atLineStart, p + 1);
    }
    if atLineStart && SeedPatternAt(s) {
      assert SeedPatternOnLine(s, atLineStart, 0);
    }
    if exists p :: SeedPatternOnLine(s, atLineStart, p) {
      var p :| SeedPatternOnLine(s, atLineStart, p);
      if p > 0 {
        assert s[1..][p - 1..] == s[p..];
        assert SeedPatternOnLine(s[1..], nl, p - 1);
      }
    }
  }

  /** Scanning s for a line start where the pattern matches; atLineStart says whether s itself starts a line. */
  function SeedLineFrom(s: string, atLineStart: bool): (r: bool)
    ensures r <==> SeedPatternOnSomeLine(s, atLineStart)
    decreases |s|
  {
    if s == [] then false
    else
      SeedLineCases(s, atLineStart);
      (atLineStart && MatchesSeedAt(s)) || SeedLineFrom(s[1..], s[0] == '\n')
  }

  /** `filename =~ /^[A-Z]+.\d/`: the pattern matches at the start of some line of name. */
  function SeedFileName(name: string): (r: bool)
    ensures r <==> exists p :: SeedPatternOnLine(name, true, p)
  {
    SeedLineFrom(name, true)
  }

  /** A run of k capitals at the start of a line, then a character that is not a line feed, then a digit. */
  lemma SeedAtLine(s: string, p: nat, k: nat)
    requires p < |s| && (p == 0 || s[p - 1] == '\n')
    requires 1 <= k && p + k + 1 < |s|
    requires forall j :: p <= j < p + k ==> IsUpper(s[j])
    requires s[p + k] != '\n' && IsDigit(s[p + k + 1])
    ensures SeedFileName(s)
  {
    var t := s[p..];
    assert AllUpper(t[..k]) by {
      forall j | 0 <= j < k ensures IsUpper(t[..k][j]) {
        assert t[..k][j] == s[p + j];
      }
    }
    assert t[k] == s[p + k] && t[k + 1] == s[p + k + 1];
    assert SeedPatternAt(t);
    assert SeedPatternOnLine(s, true, p);
  }

  /** A seed name such as "ENGLISH.1" passes the filter. */
  lemma EnglishSeedPasses()
    ensures SeedFileName("ENGLISH.1")
  {
    SeedAtLine("ENGLISH.1", 0, 7);
  }

  /** The entries "." and ".." of every directory do not pass the filter. */
  lemma DotEntriesFail()
    ensures !SeedFileName(".") && !SeedFileName("..")
  {
  }

  /** A name without a digit never passes the filter. */
  lemma NoDigitNoSeed(s: string)
    requires forall j :: 0 <= j < |s| ==> !IsDigit(s[j])
    ensures !SeedFileName(s)
  {
    forall p | 0 <= p < |s| ensures !SeedPatternOnLine(s, true, p) {
      var t := s[p..];
      forall k | 0 <= k < |t| ensures !IsDigit(t[k]) {
        assert t[k] == s[p + k];
      }
    }
  }

  /**
   * The dot in the filter is not escaped, so it matches any character but a
   * line feed: "ENGLISH_1" passes.
   */
  lemma UnescapedDotPasses()
    ensures SeedFileName("ENGLISH_1")
  {
    SeedAtLine("ENGLISH_1", 0, 7);
  }

  /** The caret matches after any line feed, so a second line "FR-2" passes. */
  lemma SecondLinePasses()
    ensures SeedFileName("x\nFR-2")
  {
    SeedAtLine("x\nFR-2", 2, 2);
  }

  // ---------------------------------------------------------------------------
  // The registry's words, as values
  // ---------------------------------------------------------------------------

  /** The words of every registered language, by name. */
  type Dicts = map<string, set<string>>

  /** The words of `name`, or none when it has no entry yet. */
  function WordsOf(reg: Dicts, name: string): set<string> {
    if name in reg then reg[name] else {}
  }

  /** What became of the text given to add_words_to_language. */
  datatype Outcome = Skipped | Added | Refused(error: L.IllegalLanguageError)

  datatype Step = Step(reg: Dicts, outcome: Outcome)

  /**
   * add_words_to_language(name, text) on the words of the registry: the entry
   * for name is created first, whatever the text; a nil or empty text is then
   * skipped, an illegal one refused, and a legal one adds its downcased tokens.
   */
  function Ingest(reg: Dicts, name: string, text: Option<string>): (r: Step)
    ensures r.reg.Keys == reg.Keys + {name}
    ensures forall n :: n in reg && n != name ==> r.reg[n] == reg[n]
    ensures r.outcome == Skipped <==> text.None? || text.value == []
    ensures r.outcome.Refused? <==> text.Some? && text.value != [] && L.IllegalChar(text.value)
    ensures r.outcome.Refused? ==> r.outcome.error == L.IllegalLanguageError(text.value)
    ensures r.outcome != Added ==> r.reg[name] == WordsOf(reg, name)
    ensures r.outcome == Added ==> r.reg[name] == WordsOf(reg, name) + L.LowerSet(L.Tokens(text.value))
  {
    var words := WordsOf(reg, name);
    if text.None? || text.value == [] then Step(reg[name := words], Skipped)
    else match L.EachWord(text.value)
      case Failure(e) => Step(reg[name := words], Refused(e))
      case Success(tokens) => Step(reg[name := words + L.LowerSet(tokens)], Added)
  }

  lemma IngestSkipped(reg: Dicts, name: string, text: Option<string>)
    requires text.None? || text.value == []
    ensures Ingest(reg, name, text) == Step(reg[name := WordsOf(reg, name)], Skipped)
  {
  }

  lemma IngestRefused(reg: Dicts, name: string, text: string)
    requires text != [] && L.IllegalChar(text)
    ensures Ingest(reg, name, Some(text)) == Step(reg[name := WordsOf(reg, name)], Refused(L.IllegalLanguageError(text)))
  {
  }

  lemma IngestAdded(reg: Dicts, name: string, text: string)
    requires text != [] && !L.IllegalChar(text)
    ensures Ingest(reg, name, Some(text)) == Step(reg[name := WordsOf(reg, name) + L.LowerSet(L.Tokens(text))], Added)
  {
  }

  /**
   * add_words_from_file(path) when the file holds `contents`: a zero-size file
   * is left alone, otherwise its text goes to the language its name gives.
   */
  function IngestFile(reg: Dicts, path: string, contents: string): Step {
    if contents == [] then Step(reg, Skipped) else Ingest(reg, LanguageName(path), Some(contents))
  }

  /** The result of ingesting a list of seed entries: the words, and the error that stopped it, if any. */
  datatype Build = Build(reg: Dicts, failure: Option<L.IllegalLanguageError>)

  /** An entry that passes the seed filter and is not empty: one that adds a language. */
  predicate Qualifies(entry: (string, string)) {
    SeedFileName(entry.0) && entry.1 != []
  }

  /**
   * The loop over a directory's entries: every entry whose name passes the seed
   * filter is ingested as the file dir + name, in order; an illegal text raises
   * and the entries after it are never read.
   */
  function Seeds(reg: Dicts, dir: string, entries: seq<(string, string)>): Build
    decreases |entries|
  {
    if entries == [] then Build(reg, None)
    else if !SeedFileName(entries[0].0) then Seeds(reg, dir, entries[1..])
    else
      var s := IngestFile(reg, dir + entries[0].0, entries[0].1);
      if s.outcome.Refused? then Build(s.reg, Some(s.outcome.error))
      else Seeds(s.reg, dir, entries[1..])
  }

  /** The languages the qualifying entries of a directory name. */
  function SeedNames(dir: string, entries: seq<(string, string)>): set<string> {
    set i | 0 <= i < |entries| && Qualifies(entries[i]) :: LanguageName(dir + entries[i].0)
  }

  lemma SeedNamesCons(dir: string, entries: seq<(string, string)>)
    requires entries != []
    ensures SeedNames(dir, entries)
         == (if Qualifies(entries[0]) then {LanguageName(dir + entries[0].0)} else {})
            + SeedNames(dir, entries[1..])
  {
    var rest := entries[1..];
    forall n | n in SeedNames(dir, entries)
      ensures n in (if Qualifies(entries[0]) then {LanguageName(dir + entries[0].0)} else {}) + SeedNames(dir, rest)
    {
      var i :| 0 <= i < |entries| && Qualifies(entries[i]) && n == LanguageName(dir + entries[i].0);
      if i > 0 {
        assert rest[i - 1] == entries[i];
      }
    }
    forall n | n in SeedNames(dir, rest) ensures n in SeedNames(dir, entries) {
      var i :| 0 <= i < |rest| && Qualifies(rest[i]) && n == LanguageName(dir + rest[i].0);
      assert entries[i + 1] == rest[i];
    }
  }

  /** Every qualifying entry holds legal text. */
  predicate AllLegal(entries: seq<(string, string)>) {
    forall i :: 0 <= i < |entries| && Qualifies(entries[i]) ==> !L.IllegalChar(entries[i].1)
  }

  lemma AllLegalCons(entries: seq<(string, string)>)
    requires entries != []
    ensures AllLegal(entries) <==> (Qualifies(entries[0]) ==> !L.IllegalChar(entries[0].1)) && AllLegal(entries[1..])
  {
    var rest := entries[1..];
    if AllLegal(entries) {
      forall i | 0 <= i < |rest| && Qualifies(rest[i]) ensures !L.IllegalChar(rest[i].1) {
        assert entries[i + 1] == rest[i];
      }
    }
    if (Qualifies(entries[0]) ==> !L.IllegalChar(entries[0].1)) && AllLegal(rest) {
      forall i | 0 <= i < |entries| && Qualifies(entries[i]) ensures !L.IllegalChar(entries[i].1) {
        if i > 0 { assert entries[i] == rest[i - 1]; }
      }
    }
  }

  /** Building from seeds succeeds exactly when every qualifying entry is legal. */
  lemma {:induction false} SeedsSucceedIff(reg: Dicts, dir: string, entries: seq<(string, string)>)
    ensures Seeds(reg, dir, entries).failure.None? <==> AllLegal(entries)
    decreases |entries|
  {
    if entries != [] {
      AllLegalCons(entries);
      var e := entries[0];
      if !SeedFileName(e.0) {
        SeedsSucceedIff(reg, dir, entries[1..]);
      } else {
        var s := IngestFile(reg, dir + e.0, e.1);
        if !s.outcome.Refused? {
          SeedsSucceedIff(s.reg, dir, entries[1..]);
        }
      }
    }
  }

  /**
   * Only qualifying entries ever add a language, even when the build stops
   * early; a successful build registers exactly the languages they name.
   */
  lemma {:induction false} SeedsKeys(reg: Dicts, dir: string, entries: seq<(string, string)>)
    ensures Seeds(reg, dir, entries).reg.Keys <= reg.Keys + SeedNames(dir, entries)
    ensures Seeds(reg, dir, entries).failure.None? ==>
              Seeds(reg, dir, entries).reg.Keys == reg.Keys + SeedNames(dir, entries)
    decreases |entries|
  {
    if entries != [] {
      var e := entries[0];
      SeedNamesCons(dir, entries);
      if !SeedFileName(e.0) {
        SeedsKeys(reg, dir, entries[1..]);
      } else {
        var s := IngestFile(reg, dir + e.0, e.1);
        if !s.outcome.Refused? {
          SeedsKeys(s.reg, dir, entries[1..]);
        }
      }
    }
  }

  /** Building from seeds never forgets a language nor a word it already had, even when it stops early. */
  lemma {:induction false} SeedsKeepWords(reg: Dicts, dir: string, entries: seq<(string, string)>)
    ensures forall n :: n in reg ==> n in Seeds(reg, dir, entries).reg && reg[n] <= Seeds(reg, dir, entries).reg[n]
    decreases |entries|
  {
    if entries != [] {
      var e := entries[0];
      if !SeedFileName(e.0) {
        SeedsKeepWords(reg, dir, entries[1..]);
      } else {
        var s := IngestFile(reg, dir + e.0, e.1);
        if !s.outcome.Refused? {
          SeedsKeepWords(s.reg, dir, entries[1..]);
        }
      }
    }
  }

  /**
   * After a successful build, the language of each qualifying entry holds every
   * token of that entry's text, downcased.
   */
  lemma {:induction false} SeedsHoldTokens(reg: Dicts, dir: string, entries: seq<(string, string)>, i: nat)
    requires i < |entries| && Qualifies(entries[i])
    requires Seeds(reg, dir, entries).failure.None?
    ensures LanguageName(dir + entries[i].0) in Seeds(reg, dir, entries).reg
    ensures L.LowerSet(L.Tokens(entries[i].1)) <= Seeds(reg, dir, entries).reg[LanguageName(dir + entries[i].0)]
    decreases |entries|
  {
    var e := entries[0];
    var rest := entries[1..];
    var next := if SeedFileName(e.0) then IngestFile(reg, dir + e.0, e.1).reg else reg;
    assert Seeds(reg, dir, entries) == Seeds(next, dir, rest);
    if i > 0 {
      assert entries[i] == rest[i - 1];
      SeedsHoldTokens(next, dir, rest, i - 1);
    } else {
      SeedsKeepWords(next, dir, rest);
    }
  }

  /** The downcased tokens of the qualifying entries that give language n. */
  ghost function SeedWords(dir: string, entries: seq<(string, string)>, n: string): set<string> {
    set i, w | 0 <= i < |entries| && Qualifies(entries[i]) && LanguageName(dir + entries[i].0) == n
                 && w in L.LowerSet(L.Tokens(entries[i].1)) :: w
  }

  /** The words an entry gives language n, if it qualifies and names n. */
  ghost function EntryWords(dir: string, e: (string, string), n: string): set<string> {
    if Qualifies(e) && LanguageName(dir + e.0) == n then L.LowerSet(L.Tokens(e.1)) else {}
  }

  lemma SeedWordsCons(dir: string, entries: seq<(string, string)>, n: string)
    requires entries != []
    ensures SeedWords(dir, entries, n) == EntryWords(dir, entries[0], n) + SeedWords(dir, entries[1..], n)
  {
    var rest := entries[1..];
    forall w | w in SeedWords(dir, entries, n)
      ensures w in EntryWords(dir, entries[0], n) + SeedWords(dir, rest, n)
    {
      var i :| 0 <= i < |entries| && Qualifies(entries[i]) && LanguageName(dir + entries[i].0) == n
               && w in L.LowerSet(L.Tokens(entries[i].1));
      if i > 0 {
        assert rest[i - 1] == entries[i];
      }
    }
    forall w | w in SeedWords(dir, rest, n) ensures w in SeedWords(dir, entries, n) {
      var i :| 0 <= i < |rest| && Qualifies(rest[i]) && LanguageName(dir + rest[i].0) == n
               && w in L.LowerSet(L.Tokens(rest[i].1));
      assert entries[i + 1] == rest[i];
    }
    forall w | w in EntryWords(dir, entries[0], n) ensures w in SeedWords(dir, entries, n) {
      assert Qualifies(entries[0]) && LanguageName(dir + entries[0].0) == n;
      assert w in L.LowerSet(L.Tokens(entries[0].1));
    }
  }

  /** Ingesting a seed entry that passes the filter and is not refused gives language n exactly its entry words. */
  lemma IngestFileWords(reg: Dicts, dir: string, e: (string, string), n: string)
    requires SeedFileName(e.0)
    requires !IngestFile(reg, dir + e.0, e.1).outcome.Refused?
    ensures WordsOf(IngestFile(reg, dir + e.0, e.1).reg, n) == WordsOf(reg, n) + EntryWords(dir, e, n)
  {
  }

  /**
   * After a successful build, each language holds exactly the words it had
   * before and the downcased tokens of the qualifying entries that name it.
   */
  lemma {:induction false} SeedsWordsExact(reg: Dicts, dir: string, entries: seq<(string, string)>, n: string)
    requires Seeds(reg, dir, entries).failure.None?
    ensures WordsOf(Seeds(reg, dir, entries).reg, n) == WordsOf(reg, n) + SeedWords(dir, entries, n)
    decreases |entries|
  {
    if entries == [] {
      assert SeedWords(dir, entries, n) == {};
    } else {
      var e := entries[0];
      var rest := entries[1..];
      SeedWordsCons(dir, entries, n);
      if !SeedFileName(e.0) {
        assert EntryWords(dir, e, n) == {};
        SeedsWordsExact(reg, dir, rest, n);
      } else {
        var s := IngestFile(reg, dir + e.0, e.1);
        IngestFileWords(reg, dir, e, n);
        SeedsWordsExact(s.reg, dir, rest, n);
      }
    }
  }

  /** A file named after its language in capitals, a dot and a digit, is a seed of that language. */
  lemma SeedEntry(dir: string, w: string, f: string)
    requires dir == [] || dir[|dir| - 1] == '/'
    requires w != [] && AllUpper(w)
    requires f == w + ".1"
    ensures SeedFileName(f) && LanguageName(dir + f) == w
  {
    var ext := "1";
    assert f == w + "." + ext;
    assert dir + f == dir + w + "." + ext;
    SeedAtLine(f, 0, |w|);
    LanguageNameOfSeed(dir, w, ext);
  }

  /** When every file qualifies, the languages are those the file names give. */
  lemma SeedNamesOfFiles(dir: string, files: seq<(string, string)>, w: seq<string>)
    requires |files| == |w|
    requires forall i :: 0 <= i < |files| ==> Qualifies(files[i]) && LanguageName(dir + files[i].0) == w[i]
    ensures SeedNames(dir, files) == set n | n in w
  {
    forall n | n in SeedNames(dir, files) ensures n in w {
      var i :| 0 <= i < |files| && Qualifies(files[i]) && n == LanguageName(dir + files[i].0);
      assert n == w[i];
    }
    forall n | n in w ensures n in SeedNames(dir, files) {
      var i :| 0 <= i < |w| && n == w[i];
      assert n == LanguageName(dir + files[i].0);
    }
  }

  /** The entries "." and ".." that head every directory listing are passed over. */
  lemma SeedsSkipDotEntries(reg: Dicts, dir: string, files: seq<(string, string)>)
    ensures Seeds(reg, dir, [(".", ""), ("..", "")] + files) == Seeds(reg, dir, files)
  {
    var entries := [(".", ""), ("..", "")] + files;
    DotEntriesFail();
    assert entries[0].0 == "." && entries[1].0 == "..";
    assert entries[1..][1..] == files;
  }

  /**
   * A directory holding "." and "..", and seed files named after their
   * languages in capitals followed by ".1" (ENGLISH.1, FRENCH.1, ...) with
   * non-empty legal texts, builds exactly the languages those files name.
   */
  lemma SeedsOfDirectory(dir: string, w: seq<string>, texts: seq<string>)
    requires dir == [] || dir[|dir| - 1] == '/'
    requires |w| == |texts|
    requires forall i :: 0 <= i < |w| ==> w[i] != [] && AllUpper(w[i])
    requires forall i :: 0 <= i < |texts| ==> texts[i] != [] && !L.IllegalChar(texts[i])
    ensures var entries := [(".", ""), ("..", "")] + seq(|w|, i requires 0 <= i < |w| => (w[i] + ".1", texts[i]));
      && Seeds(map[], dir, entries).failure.None?
      && Seeds(map[], dir, entries).reg.Keys == set n | n in w
  {
    var files := seq(|w|, i requires 0 <= i < |w| => (w[i] + ".1", texts[i]));
    SeedsSkipDotEntries(map[], dir, files);
    SeedFiles(dir, w, texts, files);
    SeedNamesOfFiles(dir, files, w);
    SeedsSucceedIff(map[], dir, files);
    SeedsKeys(map[], dir, files);
    var empty: Dicts := map[];
    assert empty.Keys == {};
  }

  /** Every file of such a directory qualifies, names its language and holds legal text. */
  lemma SeedFiles(dir: string, w: seq<string>, texts: seq<string>, files: seq<(string, string)>)
    requires dir == [] || dir[|dir| - 1] == '/'
    requires |w| == |texts| == |files|
    requires forall i :: 0 <= i < |w| ==> w[i] != [] && AllUpper(w[i])
    requires forall i :: 0 <= i < |texts| ==> texts[i] != [] && !L.IllegalChar(texts[i])
    requires forall i :: 0 <= i < |files| ==> files[i] == (w[i] + ".1", texts[i])
    ensures forall i :: 0 <= i < |files| ==> Qualifies(files[i]) && LanguageName(dir + files[i].0) == w[i]
    ensures AllLegal(files)
  {
    forall i | 0 <= i < |files|
      ensures Qualifies(files[i]) && LanguageName(dir + files[i].0) == w[i]
    {
      SeedEntry(dir, w[i], files[i].0);
    }
  }

  // ---------------------------------------------------------------------------
  // A map from names to Language objects
  // ---------------------------------------------------------------------------

  /**
   * Each registered language carries the name it is filed under (so no two
   * names share one object) and keeps its words downcased.
   */
  ghost predicate WellFormed(m: map<string, L.Language>)
    reads m.Values
  {
    forall n :: n in m ==> m[n].name == n && m[n].Valid()
  }

  /** The words of each registered language. */
  ghost function DictsOf(m: map<string, L.Language>): Dicts
    reads m.Values
  {
    map n | n in m :: m[n].dict
  }

  /** Changing the words of one language changes only its entry. */
  lemma DictsOfUpdate(m: map<string, L.Language>, m0: Dicts, name: string)
    requires m.Keys == m0.Keys + {name}
    requires forall n :: n in m && n != name ==> m[n].dict == m0[n]
    ensures DictsOf(m) == m0[name := m[name].dict]
  {
  }

  // ---------------------------------------------------------------------------
  // Languages
  // ---------------------------------------------------------------------------

  class Languages {
    var languages: map<string, L.Language>

    ghost predicate Valid()
      reads this, languages.Values
    {
      WellFormed(languages)
    }

    ghost function Dicts(): Dicts
      reads this, languages.Values
    {
      DictsOf(languages)
    }

    constructor ()
      ensures Valid()
      ensures languages == map[]
    {
      languages := map[];
    }

    /**
     * `add_words_to_language`: looks up or creates the language of that name
     * (`||=`), then adds the text's words unless the text is nil or empty.
     * Returns the language, or nil when the text was skipped.
     */
    method AddWordsToLanguage(name: string, text: Option<string>)
      returns (r: Result<Option<L.Language>, L.IllegalLanguageError>)
      requires Valid()
      modifies this, languages.Values
      ensures Valid()
      ensures forall n :: n in old(languages) ==> n in languages && languages[n] == old(languages[n])
      ensures name in languages && (name !in old(languages) ==> fresh(languages[name]))
      ensures languages.Keys == old(languages.Keys) + {name}
      ensures var s := Ingest(old(Dicts()), name, text);
        && Dicts() == s.reg
        && (s.outcome == Skipped ==> r == Success(None))
        && (s.outcome == Added ==> r == Success(Some(languages[name])))
        && (s.outcome.Refused? ==> r == Failure(s.outcome.error))
    {
      ghost var reg0 := Dicts();
      var lang := Entry(name);
      if text.None? || text.value == [] {
        r := Success(None);
        IngestSkipped(reg0, name, text);
      } else {
        r := Feed(name, lang, text.value, reg0);
        if r.Success? {
          IngestAdded(reg0, name, text.value);
        } else {
          IngestRefused(reg0, name, text.value);
        }
      }
    }

    /** Adding a non-empty text to the registered language `lang`, filed under name. */
    method Feed(name: string, lang: L.Language, text: string, ghost reg0: Dicts)
      returns (r: Result<Option<L.Language>, L.IllegalLanguageError>)
      requires Valid() && name in languages && languages[name] == lang
      requires Dicts() == reg0[name := lang.dict]
      modifies lang
      ensures Valid()
      ensures L.IllegalChar(text) ==> r == Failure(L.IllegalLanguageError(text)) && lang.dict == old(lang.dict)
      ensures !L.IllegalChar(text) ==> r == Success(Some(lang)) && lang.dict == old(lang.dict) + L.LowerSet(L.Tokens(text))
      ensures Dicts() == reg0[name := lang.dict]
    {
      assert Dicts().Keys == languages.Keys;
      assert forall n :: n in languages && n != name ==> n in reg0 && languages[n].dict == Dicts()[n] == reg0[n];
      var added := lang.AddWords(text);
      assert forall n :: n in languages && n != name ==> languages[n] != lang;
      DictsOfUpdate(languages, reg0, name);
      match added
      case Success(_) => r := Success(Some(lang));
      case Failure(e) => r := Failure(e);
    }

    /** `@languages[name] ||= Language.new(name)`: the entry for name, created empty if missing. */
    method Entry(name: string) returns (lang: L.Language)
      requires Valid()
      modifies this
      ensures Valid()
      ensures languages == old(languages)[name := lang]
      ensures name in old(languages) ==> lang == old(languages[name])
      ensures name !in old(languages) ==> fresh(lang)
      ensures lang.dict == WordsOf(old(Dicts()), name)
      ensures Dicts() == old(Dicts())[name := lang.dict]
    {
      if name in languages {
        lang := languages[name];
      } else {
        lang := new L.Language(name);
        languages := languages[name := lang];
      }
    }

    /**
     * `add_words_from_file`: a zero-size file is left alone (nil, no entry);
     * otherwise its contents go to the language named after the file.
     */
    method AddWordsFromFile(path: string, contents: string)
      returns (r: Result<Option<L.Language>, L.IllegalLanguageError>)
      requires Valid()
      modifies this, languages.Values
      ensures Valid()
      ensures forall n :: n in old(languages) ==> n in languages && languages[n] == old(languages[n])
      ensures forall n :: n in languages && n !in old(languages) ==> fresh(languages[n])
      ensures contents == [] ==> languages == old(languages)
      ensures var s := IngestFile(old(Dicts()), path, contents);
        && Dicts() == s.reg
        && (s.outcome == Skipped ==> r == Success(None))
        && (s.outcome == Added ==> r == Success(Some(languages[LanguageName(path)])))
        && (s.outcome.Refused? ==> r == Failure(s.outcome.error))
    {
      if contents == [] {
        r := Success(None);
      } else {
        r := AddWordsToLanguage(LanguageName(path), Some(contents));
      }
    }

    /**
     * `Languages.build_with_seeds(dir)`: a new registry fed every entry of the
     * directory whose name passes the seed filter; an illegal text raises, and
     * the registry being built is lost.
     */
    static method BuildWithSeeds(dir: string, entries: seq<(string, string)>)
      returns (r: Result<Languages, L.IllegalLanguageError>)
      ensures var b := Seeds(map[], dir, entries);
        && (b.failure.None? ==> r.Success? && fresh(r.value) && r.value.Valid() && r.value.Dicts() == b.reg)
        && (b.failure.Some? ==> r == Failure(b.failure.value))
    {
      var langs := new Languages();
      for i := 0 to |entries|
        invariant fresh(langs) && langs.Valid()
        invariant forall l :: l in langs.languages.Values ==> fresh(l)
        invariant Seeds(map[], dir, entries) == Seeds(langs.Dicts(), dir, entries[i..])
      {
        assert entries[i..][0] == entries[i] && entries[i..][1..] == entries[i + 1..];
        if SeedFileName(entries[i].0) {
          var res := langs.AddWordsFromFile(dir + entries[i].0, entries[i].1);
          if res.Failure? {
            return Failure(res.error);
          }
        }
      }
      assert entries[|entries|..] == [];
      r := Success(langs);
    }
  }
}
