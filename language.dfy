/**
 * One language: a name and a case-insensitive set of words
 * (lib/language_identifier/language.rb), with the character check and the
 * word scanner that feed it.
 */
module Language {
  import opened Wrappers

  // ---------------------------------------------------------------------------
  // Characters
  // ---------------------------------------------------------------------------

  /** The class [a-zA-Z]. */
  predicate IsLetter(c: char) {
    'a' <= c <= 'z' || 'A' <= c <= 'Z'
  }

  /** Ruby's \s from Ruby 2.2 on: space, tab, line feed, vertical tab, form feed, carriage return. */
  predicate IsSpace(c: char) {
    c == ' ' || c == '\t' || c == '\n' || c == '\U{000B}' || c == '\U{000C}' || c == '\r'
  }

  /** The punctuation marks a language text may contain. */
  predicate IsPunctuation(c: char) {
    c == '.' || c == ',' || c == ':' || c == ';' || c == '?'
  }

  /** A character that IllegalCharacters, [^a-zA-Z\-\s\.,:;?], does not match. */
  predicate IsLegalChar(c: char) {
    IsLetter(c) || c == '-' || IsSpace(c) || IsPunctuation(c)
  }

  /** A character that separates words: neither a letter nor a hyphen. */
  predicate IsDelimiter(c: char) {
    !IsLetter(c) && c != '-'
  }

  // ---------------------------------------------------------------------------
  // Validation: Language.illegal_char?
  // ---------------------------------------------------------------------------

  /** `s =~ IllegalCharacters`: the index of the leftmost illegal character, or nil. */
  function FirstIllegal(s: string): (r: Option<nat>)
    ensures r.Some? ==> r.value < |s| && !IsLegalChar(s[r.value])
    ensures r.Some? ==> forall j :: 0 <= j < r.value ==> IsLegalChar(s[j])
    ensures r.None? ==> forall j :: 0 <= j < |s| ==> IsLegalChar(s[j])
  {
    if s == [] then None
    else if !IsLegalChar(s[0]) then Some(0)
    else match FirstIllegal(s[1..])
      case None => None
      case Some(i) => Some(i + 1)
  }

  /** Language.illegal_char?: some character of s is outside the legal set. */
  function IllegalChar(s: string): (r: bool)
    ensures r <==> exists i :: 0 <= i < |s| && !IsLegalChar(s[i])
  {
    FirstIllegal(s).Some?
  }

  // ---------------------------------------------------------------------------
  // Scanning: String#scan with WordPattern = [a-zA-Z]+-?[a-zA-Z]+
  // ---------------------------------------------------------------------------

  predicate AllLetters(t: string) {
    forall j :: 0 <= j < |t| ==> IsLetter(t[j])
  }

  /** t is matched in full by WordPattern: two or more letters, or letters, one hyphen, letters. */
  predicate IsWord(t: string) {
    || (|t| >= 2 && AllLetters(t))
    || exists k :: 0 < k < |t| - 1 && t[k] == '-' && AllLetters(t[..k]) && AllLetters(t[k + 1..])
  }

  /** The length of the run of letters at the start of s. */
  function LetterRun(s: string): (n: nat)
    ensures n <= |s|
    ensures forall j :: 0 <= j < n ==> IsLetter(s[j])
    ensures n < |s| ==> !IsLetter(s[n])
  {
    if s != [] && IsLetter(s[0]) then 1 + LetterRun(s[1..]) else 0
  }

  /** A run of letters is never shorter than a prefix made of letters. */
  lemma {:induction false} LetterRunCovers(s: string, j: nat)
    requires j <= |s| && AllLetters(s[..j])
    ensures j <= LetterRun(s)
  {
  }

  /** A word made of letters that starts s lies within its leading run of letters. */
  lemma LettersPrefixShape(s: string, k: nat)
    requires 2 <= k <= |s| && AllLetters(s[..k])
    ensures 2 <= k <= LetterRun(s)
  {
    LetterRunCovers(s, k);
  }

  /** A hyphenated word that starts s has its hyphen where the leading run of letters ends. */
  lemma HyphenPrefixShape(s: string, k: nat, j: nat)
    requires k <= |s| && 0 < j < k - 1 && s[j] == '-'
    requires AllLetters(s[..j]) && AllLetters(s[j + 1..k])
    ensures var n := LetterRun(s); j == n && k - (n + 1) <= LetterRun(s[n + 1..])
  {
    LetterRunCovers(s, j);
    var n := LetterRun(s);
    assert j == n;
    var rest := s[n + 1..];
    assert rest[..k - (n + 1)] == s[j + 1..k];
    LetterRunCovers(rest, k - (n + 1));
  }

  /**
   * Where a word that starts s can end: within the leading run of letters, or
   * after the hyphen that ends that run and inside the letters that follow it.
   */
  lemma WordPrefixShape(s: string, k: nat)
    requires k <= |s| && IsWord(s[..k])
    ensures var n := LetterRun(s);
      || (2 <= k <= n)
      || (0 < n && n + 1 < k && s[n] == '-' && k - (n + 1) <= LetterRun(s[n + 1..]))
  {
    var t := s[..k];
    if |t| >= 2 && AllLetters(t) {
      LettersPrefixShape(s, k);
    } else {
      var j :| 0 < j < |t| - 1 && t[j] == '-' && AllLetters(t[..j]) && AllLetters(t[j + 1..]);
      assert t[..j] == s[..j] && t[j + 1..] == s[j + 1..k];
      HyphenPrefixShape(s, k, j);
    }
  }

  /** After the leading run of n letters come a hyphen and another letter. */
  predicate HyphenFollows(s: string, n: nat) {
    n + 1 < |s| && s[n] == '-' && IsLetter(s[n + 1])
  }

  /** Without a letter pair or a letter-hyphen-letter at its start, no prefix of s is a word. */
  lemma NoWordPrefix(s: string)
    requires LetterRun(s) == 0 || (LetterRun(s) == 1 && !HyphenFollows(s, 1))
    ensures forall k :: 0 <= k <= |s| ==> !IsWord(s[..k])
  {
    forall k | 0 <= k <= |s| && IsWord(s[..k]) ensures false {
      WordPrefixShape(s, k);
    }
  }

  /** The leading run of letters, when no hyphen continues it, is the longest word prefix. */
  lemma LettersMatch(s: string)
    requires LetterRun(s) >= 2 && !HyphenFollows(s, LetterRun(s))
    ensures IsWord(s[..LetterRun(s)])
    ensures forall k :: LetterRun(s) < k <= |s| ==> !IsWord(s[..k])
  {
    forall k | LetterRun(s) < k <= |s| && IsWord(s[..k]) ensures false {
      WordPrefixShape(s, k);
    }
  }

  /** Letters, one hyphen and letters make a word. */
  lemma HyphenWord(t: string, n: nat)
    requires 0 < n < |t| - 1 && t[n] == '-'
    requires AllLetters(t[..n]) && AllLetters(t[n + 1..])
    ensures IsWord(t)
  {
  }

  /** Letters, the hyphen after them and the letters after that make a word. */
  lemma HyphenMatchIsWord(s: string, n: nat, m: nat)
    requires n == LetterRun(s) && n > 0 && HyphenFollows(s, n) && m == LetterRun(s[n + 1..])
    ensures IsWord(s[..n + 1 + m])
  {
    var rest := s[n + 1..];
    var t := s[..n + 1 + m];
    assert AllLetters(t[..n]) by {
      assert t[..n] == s[..n];
    }
    assert AllLetters(t[n + 1..]) by {
      assert t[n + 1..] == rest[..m];
    }
    HyphenWord(t, n);
  }

  /** No word prefix goes past the letters after the hyphen. */
  lemma HyphenMatchIsLongest(s: string, n: nat, m: nat)
    requires n == LetterRun(s) && n > 0 && HyphenFollows(s, n) && m == LetterRun(s[n + 1..])
    ensures forall k :: n + 1 + m < k <= |s| ==> !IsWord(s[..k])
  {
    forall k | n + 1 + m < k <= |s| && IsWord(s[..k]) ensures false {
      WordPrefixShape(s, k);
    }
  }

  /**
   * The length of the match of WordPattern at the start of s, as Ruby's
   * backtracking matcher finds it: the leading letters, and a hyphen and the
   * letters after it when there are any.
   */
  function MatchLength(s: string): (r: Option<nat>)
    ensures r.Some? ==> 2 <= r.value <= |s|
  {
    var n := LetterRun(s);
    if n == 0 then None
    else if HyphenFollows(s, n) then
      assert IsLetter(s[n + 1..][0]);
      Some(n + 1 + LetterRun(s[n + 1..]))
    else if n >= 2 then Some(n)
    else None
  }

  /** The match is the longest prefix of s that is a word, and there is none when it fails. */
  lemma MatchLengthLongest(s: string)
    ensures MatchLength(s).Some? ==> IsWord(s[..MatchLength(s).value])
    ensures MatchLength(s).Some? ==> forall k :: MatchLength(s).value < k <= |s| ==> !IsWord(s[..k])
    ensures MatchLength(s).None? ==> forall k :: 0 <= k <= |s| ==> !IsWord(s[..k])
  {
    var n := LetterRun(s);
    if n == 0 {
      NoWordPrefix(s);
    } else if HyphenFollows(s, n) {
      var m := LetterRun(s[n + 1..]);
      HyphenMatchIsWord(s, n, m);
      HyphenMatchIsLongest(s, n, m);
    } else if n >= 2 {
      LettersMatch(s);
    } else {
      NoWordPrefix(s);
    }
  }

  /**
   * `s.scan(WordPattern)`: leftmost, non-overlapping matches; after a match the
   * scan resumes where it ended, after a failed position it moves on by one.
   */
  function Tokens(s: string): (ts: seq<string>)
    ensures forall i :: 0 <= i < |ts| ==> IsWord(ts[i])
    decreases |s|
  {
    if s == [] then []
    else
      MatchLengthLongest(s);
      match MatchLength(s)
      case Some(k) => [s[..k]] + Tokens(s[k..])
      case None => Tokens(s[1..])
  }

  /**
   * A word is at least two characters long, begins and ends with a letter, and
   * holds letters and at most one hyphen; so it has no whitespace or punctuation.
   */
  lemma WordShape(t: string)
    requires IsWord(t)
    ensures |t| >= 2 && IsLetter(t[0]) && IsLetter(t[|t| - 1])
    ensures forall j :: 0 <= j < |t| ==> IsLetter(t[j]) || t[j] == '-'
    ensures forall j, j' :: 0 <= j < |t| && 0 <= j' < |t| && t[j] == '-' && t[j'] == '-' ==> j == j'
    ensures forall j :: 0 <= j < |t| ==> !IsSpace(t[j]) && !IsPunctuation(t[j])
  {
    if !(|t| >= 2 && AllLetters(t)) {
      var k :| 0 < k < |t| - 1 && t[k] == '-' && AllLetters(t[..k]) && AllLetters(t[k + 1..]);
      forall j | 0 <= j < |t| && j != k ensures IsLetter(t[j]) {
        if j < k { assert t[..k][j] == t[j]; } else { assert t[k + 1..][j - k - 1] == t[j]; }
      }
      assert t[..k][0] == t[0];
      assert t[k + 1..][|t| - k - 2] == t[|t| - 1];
    }
  }

  lemma {:induction false} LetterRunStops(a: string, t: string)
    requires t != [] && !IsLetter(t[0])
    ensures LetterRun(a + t) == LetterRun(a)
    decreases |a|
  {
    if a != [] {
      assert (a + t)[1..] == a[1..] + t;
      LetterRunStops(a[1..], t);
    }
  }

  /** A delimiter ends any match that starts before it. */
  lemma MatchLengthStops(a: string, c: char, b: string)
    requires IsDelimiter(c)
    ensures MatchLength(a + [c] + b) == MatchLength(a)
  {
    assert a + [c] + b == a + ([c] + b);
    MatchLengthStopsAt(a, [c] + b);
  }

  /** The same, for any text t that starts with a delimiter. */
  lemma MatchLengthStopsAt(a: string, t: string)
    requires t != [] && IsDelimiter(t[0])
    ensures MatchLength(a + t) == MatchLength(a)
  {
    var s := a + t;
    LetterRunStops(a, t);
    var n := LetterRun(a);
    assert HyphenFollows(s, n) <==> HyphenFollows(a, n) by {
      if n + 1 < |a| {
        assert s[n] == a[n] && s[n + 1] == a[n + 1];
      } else if n + 1 == |a| {
        assert s[n + 1] == t[0];
      } else {
        assert s[n] == t[0];
      }
    }
    if HyphenFollows(a, n) {
      assert s[n + 1..] == a[n + 1..] + t;
      LetterRunStops(a[n + 1..], t);
    }
  }

  /** Scanning is compositional across a delimiter: no match ever spans one. */
  lemma {:induction false} TokensSplitAtDelimiter(a: string, c: char, b: string)
    requires IsDelimiter(c)
    ensures Tokens(a + [c] + b) == Tokens(a) + Tokens(b)
    decreases |a|
  {
    var s := a + [c] + b;
    if a == [] {
      assert s == [c] + b;
      assert s[1..] == b;
    } else {
      MatchLengthStops(a, c, b);
      match MatchLength(a)
      case Some(k) =>
        assert s[..k] == a[..k];
        assert s[k..] == a[k..] + [c] + b;
        TokensSplitAtDelimiter(a[k..], c, b);
      case None =>
        assert s[1..] == a[1..] + [c] + b;
        TokensSplitAtDelimiter(a[1..], c, b);
    }
  }

  /** Leading delimiters yield no word. */
  lemma {:induction false} TokensSkipDelimiters(d: string, b: string)
    requires forall j :: 0 <= j < |d| ==> IsDelimiter(d[j])
    ensures Tokens(d + b) == Tokens(b)
    decreases |d|
  {
    if d != [] {
      assert d + b == [] + [d[0]] + (d[1..] + b);
      TokensSplitAtDelimiter([], d[0], d[1..] + b);
      assert Tokens([]) == [];
      TokensSkipDelimiters(d[1..], b);
    } else {
      assert d + b == b;
    }
  }

  /** A whole run of two or more letters is one word. */
  lemma TokensOfLetters(w: string)
    requires |w| >= 2 && AllLetters(w)
    ensures Tokens(w) == [w]
  {
    LetterRunCovers(w, |w|);
    assert w[..|w|] == w;
    assert w[|w|..] == [];
  }

  /** A single letter alone is dropped. */
  lemma TokensOfSingleLetter(c: char)
    ensures Tokens([c]) == []
  {
    assert [c][1..] == [];
  }

  /** Only delimiters. */
  predicate AllDelimiters(d: string) {
    forall j :: 0 <= j < |d| ==> IsDelimiter(d[j])
  }

  /** The words ws written one after another, seps[i] between ws[i] and ws[i + 1]. */
  function Joined(ws: seq<string>, seps: seq<string>): string
    requires |ws| == |seps| + 1
    decreases |seps|
  {
    if seps == [] then ws[0] else ws[0] + seps[0] + Joined(ws[1..], seps[1..])
  }

  /**
   * Words of two or more letters, joined by non-empty runs of delimiters and
   * followed by delimiters only, scan back to exactly those words.
   */
  lemma {:induction false} TokensOfJoined(ws: seq<string>, seps: seq<string>, tail: string)
    requires |ws| == |seps| + 1
    requires forall i :: 0 <= i < |ws| ==> |ws[i]| >= 2 && AllLetters(ws[i])
    requires forall i :: 0 <= i < |seps| ==> seps[i] != [] && AllDelimiters(seps[i])
    requires AllDelimiters(tail)
    ensures Tokens(Joined(ws, seps) + tail) == ws
    decreases |seps|
  {
    TokensOfLetters(ws[0]);
    if seps == [] {
      assert ws == [ws[0]];
      if tail == [] {
        assert ws[0] + tail == ws[0];
      } else {
        assert ws[0] + tail == ws[0] + [tail[0]] + (tail[1..] + []);
        TokensSplitAtDelimiter(ws[0], tail[0], tail[1..] + []);
        TokensSkipDelimiters(tail[1..], []);
      }
    } else {
      var rest := Joined(ws[1..], seps[1..]) + tail;
      var d := seps[0];
      assert Joined(ws, seps) + tail == ws[0] + [d[0]] + (d[1..] + rest);
      TokensSplitAtDelimiter(ws[0], d[0], d[1..] + rest);
      TokensSkipDelimiters(d[1..], rest);
      TokensOfJoined(ws[1..], seps[1..], tail);
      assert ws == [ws[0]] + ws[1..];
    }
  }

  /** Letters, a hyphen and letters, ended by a non-letter, are matched as one word. */
  lemma HyphenatedMatch(a: string, b: string, t: string)
    requires a != [] && b != [] && AllLetters(a) && AllLetters(b)
    requires t == [] || !IsLetter(t[0])
    ensures MatchLength(a + "-" + b + t) == Some(|a| + 1 + |b|)
  {
    var s := a + "-" + b + t;
    assert s == a + ("-" + b + t);
    LetterRunOf(a, "-" + b + t);
    assert s[|a| + 1..] == b + t;
    LetterRunOf(b, t);
  }

  /**
   * Two letter runs joined by a hyphen form one word, and the scan resumes after
   * it: with a second hyphen, "ab-cd-ef" scans as "ab-cd" and then "ef".
   */
  lemma TokensOfHyphenChain(a: string, b: string, c: string)
    requires a != [] && b != [] && |c| >= 2 && AllLetters(a) && AllLetters(b) && AllLetters(c)
    ensures Tokens(a + "-" + b + "-" + c) == [a + "-" + b, c]
  {
    var s := a + "-" + b + "-" + c;
    var k := |a| + 1 + |b|;
    assert s == a + "-" + b + ("-" + c);
    HyphenatedMatch(a, b, "-" + c);
    assert s[..k] == a + "-" + b;
    var t := s[k..];
    assert t == "-" + c;
    assert MatchLength(t) == None;
    assert t[1..] == c;
    TokensOfLetters(c);
  }

  /** The run of letters at the start of w + t is w, when t does not go on with a letter. */
  lemma LetterRunOf(w: string, t: string)
    requires AllLetters(w) && (t == [] || !IsLetter(t[0]))
    ensures LetterRun(w + t) == |w|
  {
    assert (w + t)[..|w|] == w;
    LetterRunCovers(w + t, |w|);
  }

  // ---------------------------------------------------------------------------
  // Case: String#downcase (ASCII letters)
  // ---------------------------------------------------------------------------

  function LowerChar(c: char): char {
    if 'A' <= c <= 'Z' then (c as int + 32) as char else c
  }

  /** `s.downcase`. */
  function Lower(s: string): (r: string) {
    seq(|s|, i requires 0 <= i < |s| => LowerChar(s[i]))
  }

  /** Two characters are the same letter in either case, or the same character. */
  predicate SameCharIgnoringCase(a: char, b: char) {
    a == b || (IsLetter(a) && IsLetter(b) && (a as int - b as int == 32 || b as int - a as int == 32))
  }

  /** a is b written in some other casing. */
  predicate EqualIgnoringCase(a: string, b: string) {
    |a| == |b| && forall i :: 0 <= i < |a| ==> SameCharIgnoringCase(a[i], b[i])
  }

  /** Two strings are casings of each other exactly when they downcase alike. */
  lemma EqualIgnoringCaseIff(a: string, b: string)
    ensures EqualIgnoringCase(a, b) <==> Lower(a) == Lower(b)
  {
    if Lower(a) == Lower(b) {
      forall i | 0 <= i < |a| ensures SameCharIgnoringCase(a[i], b[i]) {
        assert Lower(a)[i] == Lower(b)[i];
      }
    }
    if EqualIgnoringCase(a, b) {
      forall i | 0 <= i < |a| ensures Lower(a)[i] == Lower(b)[i] {
        assert SameCharIgnoringCase(a[i], b[i]);
      }
    }
  }

  /** Recasing keeps letters letters and every other character as it is. */
  lemma {:induction false} RecasedPrefix(a: string, b: string, k: nat)
    requires EqualIgnoringCase(a, b) && k <= |a|
    ensures EqualIgnoringCase(a[..k], b[..k])
  {
    forall j | 0 <= j < k ensures SameCharIgnoringCase(a[..k][j], b[..k][j]) {
      assert a[..k][j] == a[j] && b[..k][j] == b[j];
    }
  }

  lemma {:induction false} RecasedSuffix(a: string, b: string, k: nat)
    requires EqualIgnoringCase(a, b) && k <= |a|
    ensures EqualIgnoringCase(a[k..], b[k..])
  {
    forall j | 0 <= j < |a| - k ensures SameCharIgnoringCase(a[k..][j], b[k..][j]) {
      assert a[k..][j] == a[k + j] && b[k..][j] == b[k + j];
    }
  }

  /** A recased string has the same run of letters at its start. */
  lemma {:induction false} LetterRunRecased(a: string, b: string)
    requires EqualIgnoringCase(a, b)
    ensures LetterRun(a) == LetterRun(b)
    decreases |a|
  {
    if a != [] {
      assert SameCharIgnoringCase(a[0], b[0]);
      RecasedSuffix(a, b, 1);
      LetterRunRecased(a[1..], b[1..]);
    }
  }

  /** A recased string has a match of the same length at its start. */
  lemma MatchLengthRecased(a: string, b: string)
    requires EqualIgnoringCase(a, b)
    ensures MatchLength(a) == MatchLength(b)
  {
    LetterRunRecased(a, b);
    var n := LetterRun(a);
    HyphenFollowsRecased(a, b, n);
    if n > 0 && HyphenFollows(a, n) {
      RecasedSuffix(a, b, n + 1);
      LetterRunRecased(a[n + 1..], b[n + 1..]);
    }
  }

  /** A hyphen and a letter follow position n of a string, and of any recasing of it, alike. */
  lemma HyphenFollowsRecased(a: string, b: string, n: nat)
    requires EqualIgnoringCase(a, b)
    ensures HyphenFollows(a, n) <==> HyphenFollows(b, n)
  {
    if n + 1 < |a| {
      assert SameCharIgnoringCase(a[n], b[n]) && SameCharIgnoringCase(a[n + 1], b[n + 1]);
    }
  }

  /**
   * Recasing a text recases its tokens: the same number of them, each the
   * same word in another casing.
   */
  lemma {:induction false} TokensRecased(a: string, b: string)
    requires EqualIgnoringCase(a, b)
    ensures |Tokens(a)| == |Tokens(b)|
    ensures forall i :: 0 <= i < |Tokens(a)| ==> EqualIgnoringCase(Tokens(a)[i], Tokens(b)[i])
    decreases |a|
  {
    if a != [] {
      MatchLengthRecased(a, b);
      match MatchLength(a)
      case Some(k) =>
        RecasedPrefix(a, b, k);
        RecasedSuffix(a, b, k);
        TokensRecased(a[k..], b[k..]);
        assert Tokens(a) == [a[..k]] + Tokens(a[k..]);
        assert Tokens(b) == [b[..k]] + Tokens(b[k..]);
      case None =>
        RecasedSuffix(a, b, 1);
        TokensRecased(a[1..], b[1..]);
    }
  }

  /** Recasing a text does not make it legal or illegal. */
  lemma IllegalCharRecased(a: string, b: string)
    requires EqualIgnoringCase(a, b)
    ensures IllegalChar(a) <==> IllegalChar(b)
  {
    assert forall i :: 0 <= i < |a| ==> SameCharIgnoringCase(a[i], b[i]);
  }

  /** Downcasing twice is downcasing once. */
  lemma LowerIdempotent(s: string)
    ensures Lower(Lower(s)) == Lower(s)
  {
  }

  /** The downcased tokens, as a set. */
  function LowerSet(ts: seq<string>): set<string> {
    set t | t in ts :: Lower(t)
  }

  // ---------------------------------------------------------------------------
  // Language
  // ---------------------------------------------------------------------------

  /** IllegalLanguageError, carrying the rejected text. */
  datatype IllegalLanguageError = IllegalLanguageError(text: string)

  /**
   * Language.each_word: the text is checked in full before any word is handed
   * out, so either every token is yielded or none is.
   */
  function EachWord(text: string): (r: Result<seq<string>, IllegalLanguageError>)
    ensures r.Failure? <==> exists i :: 0 <= i < |text| && !IsLegalChar(text[i])
    ensures r.Failure? ==> r.error == IllegalLanguageError(text)
    ensures r.Success? ==> forall i :: 0 <= i < |r.value| ==> IsWord(r.value[i]) && !IllegalChar(r.value[i])
  {
    TokensLegal(text);
    if IllegalChar(text) then Failure(IllegalLanguageError(text)) else Success(Tokens(text))
  }

  /** Every token is a word made of legal characters. */
  lemma TokensLegal(s: string)
    ensures forall i :: 0 <= i < |Tokens(s)| ==> IsWord(Tokens(s)[i]) && !IllegalChar(Tokens(s)[i])
  {
    forall i | 0 <= i < |Tokens(s)| ensures !IllegalChar(Tokens(s)[i]) {
      WordShape(Tokens(s)[i]);
    }
  }

  /** Whether w is in a set of downcased words, in any casing. */
  lemma IncludesIff(dict: set<string>, word: string)
    requires forall w :: w in dict ==> Lower(w) == w
    ensures Lower(word) in dict <==> exists w :: w in dict && EqualIgnoringCase(w, word)
  {
    if Lower(word) in dict {
      LowerIdempotent(word);
      EqualIgnoringCaseIff(Lower(word), word);
    }
    forall w | w in dict && EqualIgnoringCase(w, word) ensures Lower(word) in dict {
      EqualIgnoringCaseIff(w, word);
    }
  }

  class Language {
    var name: string
    var dict: set<string>

    /** Every stored word is in lower case. */
    ghost predicate Valid()
      reads this
    {
      forall w :: w in dict ==> Lower(w) == w
    }

    constructor (name: string)
      ensures Valid()
      ensures this.name == name && dict == {}
    {
      this.name := name;
      dict := {};
    }

    /** `add`: stores the downcased word and returns the language itself. */
    method Add(word: string) returns (self: Language)
      requires Valid()
      modifies this
      ensures Valid()
      ensures self == this && name == old(name)
      ensures dict == old(dict) + {Lower(word)}
    {
      LowerIdempotent(word);
      dict := dict + {Lower(word)};
      self := this;
    }

    /** `include?`: membership ignoring case. */
    function Includes(word: string): (r: bool)
      reads this
      requires Valid()
      ensures r <==> exists w :: w in dict && EqualIgnoringCase(w, word)
    {
      IncludesIff(dict, word);
      Lower(word) in dict
    }

    /**
     * `add_words`: adds every token of the text, downcased, or raises
     * IllegalLanguageError and adds nothing.
     */
    method AddWords(text: string) returns (r: Result<Language, IllegalLanguageError>)
      requires Valid()
      modifies this
      ensures Valid() && name == old(name)
      ensures r.Failure? <==> IllegalChar(text)
      ensures r.Failure? ==> r.error == IllegalLanguageError(text) && dict == old(dict)
      ensures r.Success? ==> r.value == this && dict == old(dict) + LowerSet(Tokens(text))
    {
      match EachWord(text)
      case Failure(e) =>
        r := Failure(e);
      case Success(words) =>
        for i := 0 to |words|
          invariant Valid() && name == old(name)
          invariant dict == old(dict) + LowerSet(words[..i])
        {
          assert LowerSet(words[..i + 1]) == LowerSet(words[..i]) + {Lower(words[i])} by {
            assert words[..i + 1] == words[..i] + [words[i]];
          }
          var _ := Add(words[i]);
        }
        assert words[..|words|] == words;
        r := Success(this);
    }
  }

  // ---------------------------------------------------------------------------
  // Properties of add and add_words
  // ---------------------------------------------------------------------------

  /** After add(w), include?(v) holds for every casing v of w. */
  lemma AddedWordIncludedInAnyCasing(dict: set<string>, w: string, v: string)
    requires EqualIgnoringCase(v, w)
    ensures Lower(v) in dict + {Lower(w)}
  {
    EqualIgnoringCaseIff(v, w);
  }

  /** add is idempotent modulo case: adding a second casing of a word changes nothing. */
  lemma AddIdempotentModuloCase(dict: set<string>, w: string, v: string)
    requires EqualIgnoringCase(v, w)
    ensures dict + {Lower(w)} + {Lower(v)} == dict + {Lower(w)}
  {
    EqualIgnoringCaseIff(v, w);
  }

  /** add("Hello") then add("HELLO") on a new language gives one word. */
  lemma AddHelloTwice()
    ensures |{} + {Lower("Hello")} + {Lower("HELLO")}| == 1
  {
    assert EqualIgnoringCase("HELLO", "Hello");
    AddIdempotentModuloCase({}, "Hello", "HELLO");
  }

  /** "ab-cd-ef" scans as "ab-cd" and then "ef". */
  lemma ScanHyphenChain()
    ensures Tokens("ab-cd-ef") == ["ab-cd", "ef"]
  {
    assert "ab-cd-ef" == "ab" + "-" + "cd" + "-" + "ef";
    assert "ab" + "-" + "cd" == "ab-cd";
    TokensOfHyphenChain("ab", "cd", "ef");
  }

  /** "Hello, bob. how are you" scans as its five words. */
  lemma ScanHelloBob()
    ensures Tokens("Hello, bob. how are you") == ["Hello", "bob", "how", "are", "you"]
  {
    var ws := ["Hello", "bob", "how", "are", "you"];
    var seps := [", ", ". ", " ", " "];
    assert "Hello, bob. how are you" == Joined(ws, seps) + [];
    TokensOfJoined(ws, seps, []);
  }

  /** add_words("Hello, bob. how are you") adds five distinct words, among them hello, bob and how. */
  lemma AddWordsHelloBob()
    ensures LowerSet(Tokens("Hello, bob. how are you")) == {"hello", "bob", "how", "are", "you"}
    ensures |LowerSet(Tokens("Hello, bob. how are you"))| == 5
  {
    ScanHelloBob();
    LowerSetHelloBob();
    FiveDistinctWords();
  }

  lemma LowerSetHelloBob()
    ensures LowerSet(["Hello", "bob", "how", "are", "you"]) == {"hello", "bob", "how", "are", "you"}
  {
    assert Lower("Hello") == "hello" && Lower("bob") == "bob" && Lower("how") == "how";
    assert Lower("are") == "are" && Lower("you") == "you";
  }

  lemma FiveDistinctWords()
    ensures |{"hello", "bob", "how", "are", "you"}| == 5
  {
    assert "hello"[1] != "how"[1];
  }

  /** "Hello, Bob." scans as "Hello", "Bob". */
  lemma ScanHelloBobComma()
    ensures Tokens("Hello, Bob.") == ["Hello", "Bob"]
  {
    TokensOfJoined(["Hello", "Bob"], [", "], ".");
    assert "Hello, Bob." == Joined(["Hello", "Bob"], [", "]) + ".";
  }

  /** "Hello Bob?" scans as "Hello", "Bob". */
  lemma ScanHelloBobQuestion()
    ensures Tokens("Hello Bob?") == ["Hello", "Bob"]
  {
    TokensOfJoined(["Hello", "Bob"], [" "], "?");
    assert "Hello Bob?" == Joined(["Hello", "Bob"], [" "]) + "?";
  }

  /** The character check rejects a dollar sign. */
  lemma IllegalDollar()
    ensures IllegalChar("Nyuu-seihin$") && IllegalChar("Hello bob$")
  {
    assert !IsLegalChar("Nyuu-seihin$"[11]);
    assert !IsLegalChar("Hello bob$"[9]);
  }

  /** The character check holds of a concatenation exactly when it holds of a part. */
  lemma IllegalCharAppend(a: string, b: string)
    ensures IllegalChar(a + b) <==> IllegalChar(a) || IllegalChar(b)
  {
    if IllegalChar(a + b) {
      var i :| 0 <= i < |a + b| && !IsLegalChar((a + b)[i]);
      if i >= |a| { assert b[i - |a|] == (a + b)[i]; }
    }
    if IllegalChar(a) {
      var i :| 0 <= i < |a| && !IsLegalChar(a[i]);
      assert (a + b)[i] == a[i];
    }
    if IllegalChar(b) {
      var i :| 0 <= i < |b| && !IsLegalChar(b[i]);
      assert (a + b)[|a| + i] == b[i];
    }
  }

  /** The character check accepts letters and hyphens. */
  lemma LegalHyphenated()
    ensures !IllegalChar("full-time")
  {
  }

  /** The character check accepts spaces and question marks. */
  lemma LegalQuestion()
    ensures !IllegalChar("Pan wa doko desuka?")
  {
    var s := "Pan wa doko desuka?";
    assert forall i :: 0 <= i < |s| ==> IsLetter(s[i]) || s[i] == ' ' || s[i] == '?';
  }
}
