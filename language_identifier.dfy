/**
 * The language identifier (lib/language_identifier/language_identifier.rb):
 * it keeps its own map of languages by name, builds them from the seed files,
 * and guesses the language of a text by counting, for each language, how many
 * of the text's words that language knows.
 *
 * The seed directory is given by its entries (name and contents of each file);
 * the file a name refers to lives under "./lib/seeds/", but only its contents
 * matter here.
 */
module LanguageIdentifier {
  import opened Wrappers
  import L = Language
  import opened Languages

  /** What the guess answers when no language knows any word of the text. */
  const Unknown: string := "UNKNOWN"

  // ---------------------------------------------------------------------------
  // Scores
  // ---------------------------------------------------------------------------

  /** How many of the tokens, downcased, are among words: the weight of a language. */
  function Tally(tokens: seq<string>, words: set<string>): (n: nat)
    ensures n <= |tokens|
  {
    if tokens == [] then 0
    else Tally(tokens[..|tokens| - 1], words) + (if L.Lower(tokens[|tokens| - 1]) in words then 1 else 0)
  }

  /** A language weighs nothing exactly when it knows none of the tokens. */
  lemma {:induction false} TallyZeroIff(tokens: seq<string>, words: set<string>)
    ensures Tally(tokens, words) == 0 <==> forall i :: 0 <= i < |tokens| ==> L.Lower(tokens[i]) !in words
    decreases |tokens|
  {
    if tokens != [] {
      var init := tokens[..|tokens| - 1];
      TallyZeroIff(init, words);
      assert forall i :: 0 <= i < |init| ==> init[i] == tokens[i];
    }
  }

  /** A language weighs the whole length exactly when it knows every token. */
  lemma {:induction false} TallyFullIff(tokens: seq<string>, words: set<string>)
    ensures Tally(tokens, words) == |tokens| <==> forall i :: 0 <= i < |tokens| ==> L.Lower(tokens[i]) in words
    decreases |tokens|
  {
    if tokens != [] {
      var init := tokens[..|tokens| - 1];
      TallyFullIff(init, words);
      assert forall i :: 0 <= i < |init| ==> init[i] == tokens[i];
    }
  }

  /** One more word adds one to the weight of a language that knows it. */
  lemma TallyStep(tokens: seq<string>, word: string, words: set<string>)
    ensures Tally(tokens + [word], words) == Tally(tokens, words) + (if L.Lower(word) in words then 1 else 0)
  {
    assert (tokens + [word])[..|tokens|] == tokens;
  }

  /** The weight of a text is the sum of the weights of its parts. */
  lemma {:induction false} TallyAppend(a: seq<string>, b: seq<string>, words: set<string>)
    ensures Tally(a + b, words) == Tally(a, words) + Tally(b, words)
    decreases |b|
  {
    if b == [] {
      assert a + b == a;
    } else {
      var b' := b[..|b| - 1];
      assert (a + b)[..|a + b| - 1] == a + b';
      assert (a + b)[|a + b| - 1] == b[|b| - 1];
      TallyAppend(a, b', words);
    }
  }

  /** Learning more words never lowers a language's weight. */
  lemma {:induction false} TallyMonotone(tokens: seq<string>, w1: set<string>, w2: set<string>)
    requires w1 <= w2
    ensures Tally(tokens, w1) <= Tally(tokens, w2)
    decreases |tokens|
  {
    if tokens != [] {
      TallyMonotone(tokens[..|tokens| - 1], w1, w2);
    }
  }

  /** The weight does not depend on the case the text is written in. */
  lemma {:induction false} TallyIgnoresCase(a: seq<string>, b: seq<string>, words: set<string>)
    requires |a| == |b|
    requires forall i :: 0 <= i < |a| ==> L.EqualIgnoringCase(a[i], b[i])
    ensures Tally(a, words) == Tally(b, words)
    decreases |a|
  {
    if a != [] {
      L.EqualIgnoringCaseIff(a[|a| - 1], b[|b| - 1]);
      TallyIgnoresCase(a[..|a| - 1], b[..|b| - 1], words);
    }
  }

  /** A language trained on a text knows every word of it: the text scores its full length. */
  lemma TrainedTextScoresFully(words: set<string>, text: string)
    ensures Tally(L.Tokens(text), words + L.LowerSet(L.Tokens(text))) == |L.Tokens(text)|
  {
    var ts := L.Tokens(text);
    assert forall i :: 0 <= i < |ts| ==> L.Lower(ts[i]) in L.LowerSet(ts);
    TallyFullIff(ts, words + L.LowerSet(ts));
  }

  // ---------------------------------------------------------------------------
  // What a guess may answer
  // ---------------------------------------------------------------------------

  /**
   * g is an acceptable guess for the tokens: a language of greatest weight when
   * some language has a positive weight (any of them on a tie: the weights are
   * sorted with an unstable sort), and "UNKNOWN" otherwise.
   */
  ghost predicate IsGuess(reg: Dicts, tokens: seq<string>, g: string) {
    if exists n :: n in reg && Tally(tokens, reg[n]) > 0 then
      g in reg && forall n :: n in reg ==> Tally(tokens, reg[n]) <= Tally(tokens, reg[g])
    else
      g == Unknown
  }

  /** With no language called UNKNOWN, the answer is UNKNOWN exactly when no language knows a word of the text. */
  lemma GuessUnknownIff(reg: Dicts, tokens: seq<string>, g: string)
    requires Unknown !in reg
    requires IsGuess(reg, tokens, g)
    ensures g == Unknown <==> forall n :: n in reg ==> Tally(tokens, reg[n]) == 0
  {
  }

  /** A language that outweighs every other one is the only possible answer. */
  lemma GuessUnique(reg: Dicts, tokens: seq<string>, best: string, g: string)
    requires best in reg && Tally(tokens, reg[best]) > 0
    requires forall n :: n in reg && n != best ==> Tally(tokens, reg[n]) < Tally(tokens, reg[best])
    ensures IsGuess(reg, tokens, g) <==> g == best
  {
    if IsGuess(reg, tokens, g) {
      assert g in reg && Tally(tokens, reg[best]) <= Tally(tokens, reg[g]);
    }
  }

  /** Writing the text in another case does not change what may be answered. */
  lemma GuessIgnoresCase(reg: Dicts, a: seq<string>, b: seq<string>, g: string)
    requires |a| == |b|
    requires forall i :: 0 <= i < |a| ==> L.EqualIgnoringCase(a[i], b[i])
    ensures IsGuess(reg, a, g) <==> IsGuess(reg, b, g)
  {
    forall n | n in reg ensures Tally(a, reg[n]) == Tally(b, reg[n]) {
      TallyIgnoresCase(a, b, reg[n]);
    }
  }

  /** A text written in another case weighs the same in every language. */
  lemma TextTallyIgnoresCase(a: string, b: string, words: set<string>)
    requires L.EqualIgnoringCase(a, b)
    ensures Tally(L.Tokens(a), words) == Tally(L.Tokens(b), words)
  {
    L.TokensRecased(a, b);
    TallyIgnoresCase(L.Tokens(a), L.Tokens(b), words);
  }

  /**
   * A text written in another case is legal or illegal alike, and has the
   * same acceptable answers.
   */
  lemma TextGuessIgnoresCase(reg: Dicts, a: string, b: string, g: string)
    requires L.EqualIgnoringCase(a, b)
    ensures L.IllegalChar(a) <==> L.IllegalChar(b)
    ensures L.Tokens(a) == [] <==> L.Tokens(b) == []
    ensures IsGuess(reg, L.Tokens(a), g) <==> IsGuess(reg, L.Tokens(b), g)
  {
    L.IllegalCharRecased(a, b);
    L.TokensRecased(a, b);
    GuessIgnoresCase(reg, L.Tokens(a), L.Tokens(b), g);
  }

  /**
   * A text whose words one language was trained on, and no other language
   * knows, is guessed to be in that language and nothing else.
   */
  lemma TrainedLanguageIsGuessed(reg: Dicts, name: string, text: string, g: string)
    requires name in reg && L.Tokens(text) != []
    requires L.LowerSet(L.Tokens(text)) <= reg[name]
    requires forall n :: n in reg && n != name ==> Tally(L.Tokens(text), reg[n]) == 0
    ensures IsGuess(reg, L.Tokens(text), g) <==> g == name
  {
    var ts := L.Tokens(text);
    assert L.Lower(ts[0]) in L.LowerSet(ts);
    TallyZeroIff(ts, reg[name]);
    GuessUnique(reg, ts, name, g);
  }

  /**
   * A text none of whose words any language knows (the romanised Chinese
   * "Zhao Shang Hao" against European seeds) is answered with UNKNOWN only.
   */
  lemma UnknownText(reg: Dicts, tokens: seq<string>, g: string)
    requires forall n :: n in reg ==> Tally(tokens, reg[n]) == 0
    ensures IsGuess(reg, tokens, g) <==> g == Unknown
  {
  }

  /** One entry of the seed directory, read from the identifier's own location. */
  lemma SeedsStep(reg: Dicts, entries: seq<(string, string)>)
    requires entries != []
    ensures Seeds(reg, [], entries) ==
      if !SeedFileName(entries[0].0) then Seeds(reg, [], entries[1..])
      else
        var s := IngestFile(reg, entries[0].0, entries[0].1);
        if s.outcome.Refused? then Build(s.reg, Some(s.outcome.error)) else Seeds(s.reg, [], entries[1..])
  {
    assert [] + entries[0].0 == entries[0].0;
  }

  /** Why a guess fails. */
  datatype GuessError =
    | Illegal(error: L.IllegalLanguageError)  // the text holds a character outside the legal set
    | NoWeights                              // no language was weighed: no words, or no languages (nil[0] in the code)

  // ---------------------------------------------------------------------------
  // Identifier
  // ---------------------------------------------------------------------------

  class Identifier {
    var languages: map<string, L.Language>

    ghost predicate Valid()
      reads this, languages.Values
    {
      WellFormed(languages)
    }

    ghost function Dicts(): Dicts
      reads this, languages.Values
    {
      DictsOf(languages)
    }

    /** `languages`: the map of languages, empty until something is added (`@languages ||= {}`). */
    constructor ()
      ensures Valid()
      ensures languages == map[]
    {
      languages := map[];
    }

    /** `language(name)`: the language of that name, created empty if missing (`||=`). */
    method Language(name: string) returns (lang: L.Language)
      requires Valid()
      modifies this
      ensures Valid()
      ensures languages == old(languages)[name := lang]
      ensures name in old(languages) ==> lang == old(languages[name])
      ensures name !in old(languages) ==> fresh(lang)
      ensures lang.dict == WordsOf(old(Dicts()), name)
      ensures Dicts() == old(Dicts())[name := lang.dict]
    {
      if name in languages {
        lang := languages[name];
      } else {
        lang := new L.Language(name);
        languages := languages[name := lang];
      }
    }

    /** Adding a non-empty text to the registered language `lang`, filed under name. */
    method Feed(name: string, lang: L.Language, text: string, ghost reg0: Dicts)
      returns (r: Result<Option<L.Language>, L.IllegalLanguageError>)
      requires Valid() && name in languages && languages[name] == lang
      requires Dicts() == reg0[name := lang.dict]
      modifies lang
      ensures Valid()
      ensures L.IllegalChar(text) ==> r == Failure(L.IllegalLanguageError(text)) && lang.dict == old(lang.dict)
      ensures !L.IllegalChar(text) ==> r == Success(Some(lang)) && lang.dict == old(lang.dict) + L.LowerSet(L.Tokens(text))
      ensures Dicts() == reg0[name := lang.dict]
    {
      assert Dicts().Keys == languages.Keys;
      assert forall n :: n in languages && n != name ==> n in reg0 && languages[n].dict == Dicts()[n] == reg0[n];
      var added := lang.AddWords(text);
      assert forall n :: n in languages && n != name ==> languages[n] != lang;
      DictsOfUpdate(languages, reg0, name);
      match added
      case Success(_) => r := Success(Some(lang));
      case Failure(e) => r := Failure(e);
    }

    /**
     * `build_language_with_file(filename)`: unless the file is empty, adds its
     * contents to the language its name gives (created on demand).
     */
    method BuildLanguageWithFile(filename: string, contents: string)
      returns (r: Result<Option<L.Language>, L.IllegalLanguageError>)
      requires Valid()
      modifies this, languages.Values
      ensures Valid()
      ensures forall n :: n in old(languages) ==> n in languages && languages[n] == old(languages[n])
      ensures forall n :: n in languages && n !in old(languages) ==> fresh(languages[n])
      ensures contents == [] ==> languages == old(languages)
      ensures var s := IngestFile(old(Dicts()), filename, contents);
        && Dicts() == s.reg
        && (s.outcome == Skipped ==> r == Success(None))
        && (s.outcome == Added ==> r == Success(Some(languages[LanguageName(filename)])))
        && (s.outcome.Refused? ==> r == Failure(s.outcome.error))
    {
      if contents == [] {
        r := Success(None);
      } else {
        var name := LanguageName(filename);
        ghost var reg0 := Dicts();
        var lang := Language(name);
        r := Feed(name, lang, contents, reg0);
        if r.Success? {
          IngestAdded(reg0, name, contents);
        } else {
          IngestRefused(reg0, name, contents);
        }
      }
    }

    /**
     * `build_languages_from_seeds`: feeds this identifier every seed entry whose
     * name passes the filter; an illegal text raises, leaving the languages
     * built so far in place.
     */
    method BuildLanguagesFromSeeds(entries: seq<(string, string)>)
      returns (r: Result<Identifier, L.IllegalLanguageError>)
      requires Valid()
      modifies this, languages.Values
      ensures Valid()
      ensures forall n :: n in old(languages) ==> n in languages && languages[n] == old(languages[n])
      ensures var b := Seeds(old(Dicts()), [], entries);
        && Dicts() == b.reg
        && (b.failure.None? ==> r == Success(this))
        && (b.failure.Some? ==> r == Failure(b.failure.value))
    {
      for i := 0 to |entries|
        invariant Valid()
        invariant forall n :: n in old(languages) ==> n in languages && languages[n] == old(languages[n])
        invariant forall l :: l in languages.Values ==> l in old(languages.Values) || fresh(l)
        invariant Seeds(old(Dicts()), [], entries) == Seeds(Dicts(), [], entries[i..])
      {
        ghost var prev := Dicts();
        SeedsStep(prev, entries[i..]);
        assert entries[i..][0] == entries[i] && entries[i..][1..] == entries[i + 1..];
        if SeedFileName(entries[i].0) {
          var res := BuildLanguageWithFile(entries[i].0, entries[i].1);
          if res.Failure? {
            return Failure(res.error);
          }
        }
      }
      assert entries[|entries|..] == [];
      r := Success(this);
    }

    /**
     * `guess_language_for_str(text)`: weighs every language by the number of
     * the text's words it knows and answers a heaviest one, or UNKNOWN when
     * every weight is zero. Changes nothing.
     */
    method GuessLanguageForStr(text: string) returns (r: Result<string, GuessError>)
      requires Valid()
      ensures r.Failure? && r.error.Illegal? <==> L.IllegalChar(text)
      ensures r.Failure? && r.error.Illegal? ==> r.error.error == L.IllegalLanguageError(text)
      ensures r == Failure(NoWeights) <==> !L.IllegalChar(text) && (L.Tokens(text) == [] || languages == map[])
      ensures r.Success? ==> IsGuess(Dicts(), L.Tokens(text), r.value)
    {
      match L.EachWord(text)
      case Failure(e) =>
        r := Failure(Illegal(e));
      case Success(words) =>
        var weights := Weigh(words);
        assert Dicts().Keys == languages.Keys;
        if weights == map[] {
          r := Failure(NoWeights);
        } else {
          var best := Heaviest(weights);
          r := Success(if weights[best] > 0 then best else Unknown);
        }
    }

    /**
     * The loops over the words and the languages: the weight of every language
     * (none at all when there are no words).
     */
    method Weigh(words: seq<string>) returns (weights: map<string, nat>)
      requires Valid()
      ensures weights.Keys == if words == [] then {} else Dicts().Keys
      ensures forall n :: n in weights ==> weights[n] == Tally(words, Dicts()[n])
    {
      ghost var reg := Dicts();
      weights := map[];
      for i := 0 to |words|
        invariant weights.Keys == if i == 0 then {} else reg.Keys
        invariant forall n :: n in weights ==> weights[n] == Tally(words[..i], reg[n])
      {
        var next := WeighWord(weights, words[i]);
        forall n | n in next
          ensures next[n] == Tally(words[..i + 1], reg[n])
        {
          assert words[..i + 1] == words[..i] + [words[i]];
          TallyStep(words[..i], words[i], reg[n]);
        }
        weights := next;
      }
      assert words[..|words|] == words;
    }

    /**
     * One pass of the inner loop: every language gets a weight (`||= 0`), and
     * gains one when it knows the word.
     */
    method WeighWord(weights: map<string, nat>, word: string) returns (after: map<string, nat>)
      requires Valid()
      requires weights.Keys <= Dicts().Keys
      ensures after.Keys == Dicts().Keys
      ensures forall n :: n in after ==>
        (after[n] == (if n in weights then weights[n] else 0) + (if L.Lower(word) in Dicts()[n] then 1 else 0))
    {
      ghost var reg := Dicts();
      L.LowerIdempotent(word);
      after := weights;
      var pending := languages.Keys;
      while pending != {}
        invariant pending <= reg.Keys && after.Keys <= reg.Keys
        invariant forall n :: n in reg && n !in pending ==> n in after
        invariant forall n :: n in after ==>
          (after[n] == (if n in weights then weights[n] else 0) + (if n in pending || L.Lower(word) !in reg[n] then 0 else 1))
        invariant forall n :: n in pending ==> (n in after <==> n in weights)
        decreases |pending|
      {
        var name :| name in pending;
        var language := languages[name];
        assert language.dict == reg[name];
        var w := if name in after then after[name] else 0;
        var knows := language.Includes(L.Lower(word));
        after := after[name := if knows then w + 1 else w];
        pending := pending - {name};
      }
    }

    /** `sort { |a, b| a[1] <=> b[1] }.last[0]`: a name of greatest weight. */
    static method Heaviest(weights: map<string, nat>) returns (best: string)
      requires weights != map[]
      ensures best in weights
      ensures forall n :: n in weights ==> weights[n] <= weights[best]
    {
      best :| best in weights;
      var rest := weights.Keys - {best};
      while rest != {}
        invariant best in weights && rest <= weights.Keys
        invariant forall n :: n in weights && n !in rest ==> weights[n] <= weights[best]
        decreases |rest|
      {
        var n :| n in rest;
        if weights[n] > weights[best] {
          best := n;
        }
        rest := rest - {n};
      }
    }
  }
}
