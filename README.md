# language_identifier in Dafny

A model of a small word-overlap language classifier, written in Ruby, together with proofs about that model.

- **Language.** Each `Language` is a named set of lower-case words.
- **Training.** Training a language on a text has two steps. First the whole text is checked against the legal character set: Latin letters, hyphen, white space and `. , : ; ?`. Then every word of the text, downcased, is added to the set. A word is what `/[a-zA-Z]+-?[a-zA-Z]+/` matches, scanning leftmost-longest.
- **Registry.** A `Languages` registry maps names to languages and creates them lazily. It can be built from a seed directory. In that directory only entries whose names match `/^[A-Z]+.\d/` are read, and a file's language name is its base name without its last extension.
- **Identifier.** The identifier keeps its own registry, weighs each language by how many of a text's words it knows, and answers a heaviest language. When every weight is zero it answers `"UNKNOWN"`.

The project has four modules:

- **`Wrappers`** (`wrappers.dfy`): `Option` and `Result`. They stand for Ruby's `nil` and for a raised exception.
- **`Language`** (`language.dfy`), modelling `lib/language_identifier/language.rb`:
  - the character classes and the legality check;
  - the token scanner, written as a function on `seq<char>`, which is proved to return exactly the leftmost-longest matches of the word pattern;
  - downcasing;
  - `class Language`, with its `dict` set updated in place by `Add` and `AddWords`.
- **`Languages`** (`languages.dfy`), modelling `lib/language_identifier/languages.rb`. It contains:
  - `File.basename(path, ".*")`;
  - the seed-name filter, with Ruby's `^` meaning the start of any line and an unescaped `.`;
  - a pure specification of the registry as a map from names to word sets: `Ingest`, `IngestFile` and `Seeds`;
  - `class Languages`, whose methods are proved against that specification.
- **`LanguageIdentifier`** (`language_identifier.dfy`), modelling `lib/language_identifier/language_identifier.rb`. It contains:
  - the per-language weight `Tally`;
  - the specification of an acceptable answer, `IsGuess`;
  - `class Identifier`, whose guess is computed by the same nested loops as the source and proved to answer an acceptable guess.

Ruby's `Dir.foreach`, `File.read` and `File.zero?` are not modelled. A seed directory is given as the sequence of its entries, one (file name, contents) pair each, in listing order. A file counts as zero-size exactly when its contents are empty. Raised errors are `Failure` values. A guess on a text with no words, or against an empty registry, is the error `NoWeights`: in Ruby, `.sort.last` is then `nil`, and `nil[0]` raises.

Three behaviours of the code are easy to misread, and the model keeps them as written:

- **Seed-name filter.** The `.` in `/^[A-Z]+.\d/` (lib/language_identifier/languages.rb:15, lib/language_identifier/language_identifier.rb:36) is unescaped, so any character other than a line feed passes between the capitals and the digit, and `^` also matches after a line feed inside the name. See `UnescapedDotPasses` and `SecondLinePasses`.
- **Empty text.** In `add_words_to_language`, the `||=` at lib/language_identifier/languages.rb:25 runs before the `unless` at line 26, so a nil or empty text still creates an empty entry for its name. See `Ingest` and `Languages.Languages.AddWordsToLanguage`.
- **Name types.** The rspec expects Symbol names such as `:ENGLISH` (spec/lib/language_identifier/language_identifier_spec.rb:49-53), while lib/language_identifier/language_identifier.rb:53 keys its languages by `String` and lib/language_identifier/languages.rb:31 by `Symbol`. Both are `string` here.

Ruby's `\s` is taken as it is from Ruby 2.2 on, where it includes the vertical tab.

## Model

| member | source | states |
|---|---|---|
| Language.IsLetter | lib/language_identifier/language.rb:10-11 | the class `[a-zA-Z]`: ASCII letters only |
| Language.IsSpace | lib/language_identifier/language.rb:10 | `\s` as Ruby reads it from 2.2 on: space, tab, line feed, vertical tab, form feed and carriage return, nothing else |
| Language.IsPunctuation | lib/language_identifier/language.rb:10 | the five marks the class `[^a-zA-Z\-\s\.,:;?]` lets through: `. , : ; ?` |
| Language.IsLegalChar | lib/language_identifier/language.rb:10 | a character that `IllegalCharacters` does not match: a letter, `-`, a `\s` character or one of `. , : ; ?` |
| Language.FirstIllegal | lib/language_identifier/language.rb:10 | the position of the first character outside the legal set, or none when every character is legal |
| Language.IllegalChar | lib/language_identifier/language.rb:41-43 | `illegal_char?` holds exactly when some character of the text is outside letters, `-`, white space and `. , : ; ?` |
| Language.IllegalCharAppend | lib/language_identifier/language.rb:41-43 | a concatenation is illegal exactly when one of its parts is |
| Language.IllegalDollar | spec/lib/language_identifier/language_spec.rb:6-8 | "Nyuu-seihin$" (language_spec.rb:7) and "Hello bob$" (language_spec.rb:53) are illegal |
| Language.LegalHyphenated | spec/lib/language_identifier/language_spec.rb:10-11 | "full-time" is legal |
| Language.LegalQuestion | spec/lib/language_identifier/language_spec.rb:12 | "Pan wa doko desuka?" is legal: spaces and a question mark are allowed |
| Language.IsWord | lib/language_identifier/language.rb:11 | a full match of `[a-zA-Z]+-?[a-zA-Z]+`: since `-?` is optional, either two letters or more, or a non-empty run of letters, one hyphen and a non-empty run of letters |
| Language.LetterRun | lib/language_identifier/language.rb:11 | the length of the leading run of letters: all letters before it, a non-letter (or the end) at it |
| Language.LetterRunCovers | lib/language_identifier/language.rb:11 | any all-letter prefix lies within the leading run |
| Language.LettersPrefixShape | lib/language_identifier/language.rb:11 | a letter-only word at the start lies within the leading run |
| Language.HyphenPrefixShape | lib/language_identifier/language.rb:11 | a hyphenated word at the start has its hyphen right after the leading run |
| Language.WordPrefixShape | lib/language_identifier/language.rb:11 | a word at the start is either inside the leading run, or that run, a hyphen and part of the next run |
| Language.NoWordPrefix | lib/language_identifier/language.rb:11 | with fewer than two leading letters and no letter-hyphen-letter, no prefix matches the word pattern |
| Language.LettersMatch | lib/language_identifier/language.rb:11 | without a following hyphen and letter, the leading run (two letters or more) is the longest match |
| Language.HyphenWord | lib/language_identifier/language.rb:11 | letters, one hyphen, letters form a word |
| Language.HyphenMatchIsWord | lib/language_identifier/language.rb:11 | leading run, hyphen and the next run form a word |
| Language.HyphenMatchIsLongest | lib/language_identifier/language.rb:11 | no longer prefix than that hyphenated word matches |
| Language.MatchLength | lib/language_identifier/language.rb:11 | the length of the match at the start of s: at least 2 and within s |
| Language.MatchLengthLongest | lib/language_identifier/language.rb:11 | that match is the longest prefix that is a word, and when there is none no prefix is a word |
| Language.Tokens | lib/language_identifier/language.rb:38 | `scan(WordPattern)`: every token matches the word pattern |
| Language.WordShape | lib/language_identifier/language.rb:11 | a token is at least two characters, begins and ends with a letter, is letters apart from at most one hyphen, and holds no white space or punctuation |
| Language.LetterRunStops | lib/language_identifier/language.rb:11 | a non-letter ends the leading run |
| Language.MatchLengthStops | lib/language_identifier/language.rb:11 | a delimiter ends the match: what follows it does not change the match |
| Language.MatchLengthStopsAt | lib/language_identifier/language.rb:11 | the same, for any text that starts with a delimiter |
| Language.TokensSplitAtDelimiter | lib/language_identifier/language.rb:38 | the tokens of a + delimiter + b are the tokens of a followed by those of b |
| Language.TokensSkipDelimiters | lib/language_identifier/language.rb:38 | leading delimiters produce no tokens |
| Language.TokensOfLetters | lib/language_identifier/language.rb:38 | a run of two letters or more is one token |
| Language.TokensOfSingleLetter | lib/language_identifier/language.rb:11 | a single letter is no token |
| Language.TokensOfJoined | lib/language_identifier/language.rb:38 | letter words separated by delimiters scan back to exactly those words, in order |
| Language.HyphenatedMatch | lib/language_identifier/language.rb:11 | letters-hyphen-letters followed by a non-letter is matched in full |
| Language.TokensOfHyphenChain | lib/language_identifier/language.rb:38 | for letter runs a, b and c, with c of two letters or more, "a-b-c" scans as "a-b" then "c": a second hyphen is not taken |
| Language.LetterRunOf | lib/language_identifier/language.rb:11 | the leading run of letters w followed by a non-letter is w |
| Language.ScanHyphenChain | lib/language_identifier/language.rb:11 | "ab-cd-ef" scans as "ab-cd", "ef" |
| Language.ScanHelloBob | spec/lib/language_identifier/language_spec.rb:44 | "Hello, bob. how are you" scans as its five words |
| Language.ScanHelloBobComma | spec/lib/language_identifier/language_spec.rb:18 | "Hello, Bob." scans as "Hello", "Bob" |
| Language.ScanHelloBobQuestion | spec/lib/language_identifier/language_spec.rb:22-23 | "Hello Bob?" scans as "Hello", "Bob" |
| Language.EqualIgnoringCaseIff | lib/language_identifier/language.rb:20 | two strings are casings of each other exactly when they downcase alike |
| Language.LowerIdempotent | lib/language_identifier/language.rb:20 | downcasing twice is downcasing once |
| Language.Lower | lib/language_identifier/language.rb:20 | `String#downcase` on ASCII: each capital replaced by its small letter, everything else kept. No ensures; EqualIgnoringCaseIff (two strings are casings of each other exactly when they downcase alike) and LowerIdempotent carry its properties |
| Language.LetterRunRecased | lib/language_identifier/language.rb:11 | a recased string has the same leading run of letters |
| Language.HyphenFollowsRecased | lib/language_identifier/language.rb:11 | a hyphen and a letter follow a position of a string exactly when they follow it in a recasing |
| Language.MatchLengthRecased | lib/language_identifier/language.rb:11 | a recased string has a match of the same length |
| Language.TokensRecased | lib/language_identifier/language.rb:38 | a recased text scans to as many tokens, each a recasing of the original one |
| Language.IllegalCharRecased | lib/language_identifier/language.rb:41-43 | a recased text is illegal exactly when the original is |
| Language.EachWord | lib/language_identifier/language.rb:36-39 | fails with IllegalLanguageError(text) exactly when some character of the text is outside the legal set; otherwise every word given is a word of the pattern made of legal characters |
| Language.TokensLegal | lib/language_identifier/language.rb:38 | every token is a word and holds no illegal character |
| Language.IncludesIff | lib/language_identifier/language.rb:24-26 | in a lower-case set, the downcased word is present exactly when some stored word is a casing of it |
| Language.Language.constructor | lib/language_identifier/language.rb:14-17 | the name given and an empty set |
| Language.Language.Add | lib/language_identifier/language.rb:19-22 | returns self, keeps the name, the set becomes the old one plus the downcased word |
| Language.Language.Includes | lib/language_identifier/language.rb:24-26 | true exactly when some stored word is a casing of the word |
| Language.Language.AddWords | lib/language_identifier/language.rb:29-32 | fails exactly on illegal text, then with the set unchanged; otherwise returns self with the set grown by exactly the downcased tokens |
| Language.AddedWordIncludedInAnyCasing | spec/lib/language_identifier/language_spec.rb:33 | after add(w), every casing v of w is included |
| Language.AddIdempotentModuloCase | lib/language_identifier/language.rb:20 | adding another casing of a word adds nothing |
| Language.AddHelloTwice | spec/lib/language_identifier/language_spec.rb:37 | add("Hello").add("HELLO") leaves one word |
| Language.AddWordsHelloBob | spec/lib/language_identifier/language_spec.rb:44-48 | "Hello, bob. how are you" adds hello, bob, how, are, you: five words |
| Language.LowerSetHelloBob | spec/lib/language_identifier/language_spec.rb:44-48 | the downcased words of that sentence |
| Language.FiveDistinctWords | spec/lib/language_identifier/language_spec.rb:48 | those words are five distinct ones |
| Languages.ChompSlashes | lib/language_identifier/languages.rb:31 | the path without its trailing slashes |
| Languages.AfterLastSlash | lib/language_identifier/languages.rb:31 | the slash-free suffix after the last slash |
| Languages.LastDot | lib/language_identifier/languages.rb:31 | the index of the last dot, or none |
| Languages.BaseName | lib/language_identifier/languages.rb:31 | `File.basename(path)`: the trailing slashes dropped, then the last component; a path of slashes alone gives "/". No ensures; ChompSlashes and AfterLastSlash state the two steps, BaseNameOfEntry that an entry read from a directory keeps its name |
| Languages.ExtensionStart | lib/language_identifier/languages.rb:31 | where `".*"` strips: a dot that is not part of a leading run of dots, with no dot after it; the end when there is none |
| Languages.LanguageName | lib/language_identifier/languages.rb:31 | `File.basename(path, ".*")`: the base name cut at ExtensionStart. No ensures; LanguageNameOfSeed ("NAME.ext" gives NAME), LanguageNameIgnoresDirectory and SeedEntry carry its properties |
| Languages.AfterLastSlashOfEntry | lib/language_identifier/languages.rb:15 | the directory joined to an entry name does not change the last component |
| Languages.BaseNameOfEntry | lib/language_identifier/languages.rb:31 | the base name of directory + entry is the entry |
| Languages.LanguageNameIgnoresDirectory | lib/language_identifier/languages.rb:31 | the language name of directory + entry is that of the entry |
| Languages.LanguageNameOfSeed | spec/lib/language_identifier/languages_spec.rb:11-16 | "NAME.ext", in any directory, is language NAME ("ENGLISH.1" gives ENGLISH) |
| Languages.NoSlashInSeed | lib/language_identifier/languages.rb:31 | a seed name holds no slash |
| Languages.ExtensionOfSeed | lib/language_identifier/languages.rb:31 | the extension of "NAME.ext" starts at the dot after NAME |
| Languages.LastDotSkips | lib/language_identifier/languages.rb:31 | a dot-free suffix does not move the last dot |
| Languages.IsUpper | lib/language_identifier/languages.rb:15 | the class `[A-Z]`: ASCII capitals only |
| Languages.IsDigit | lib/language_identifier/languages.rb:15 | `\d`: an ASCII digit `0`-`9` |
| Languages.SeedPatternAt | lib/language_identifier/languages.rb:15 | `[A-Z]+.\d` (also language_identifier.rb:36) matches at the start of s: one capital or more, then one character other than a line feed (the unescaped `.`), then an ASCII digit |
| Languages.SeedPatternCases | lib/language_identifier/languages.rb:15 | `[A-Z]+.\d` matches at a position with one capital, or with one capital more further on |
| Languages.MatchesSeedAt | lib/language_identifier/languages.rb:15 | true exactly when `[A-Z]+.\d` matches at the start of s |
| Languages.SeedLineCases | lib/language_identifier/languages.rb:15 | a matching line start is the first position or one in the tail |
| Languages.SeedLineFrom | lib/language_identifier/languages.rb:15 | true exactly when the pattern matches at some line start |
| Languages.SeedFileName | lib/language_identifier/languages.rb:15 | `=~ /^[A-Z]+.\d/`: true exactly when the pattern matches at the start of some line of the name |
| Languages.SeedAtLine | lib/language_identifier/languages.rb:15 | capitals at a line start, a non-line-feed and a digit pass the filter |
| Languages.EnglishSeedPasses | spec/lib/language_identifier/languages_spec.rb:11 | "ENGLISH.1" passes |
| Languages.DotEntriesFail | lib/language_identifier/languages.rb:14-15 | "." and ".." do not pass |
| Languages.NoDigitNoSeed | spec/lib/language_identifier/languages_spec.rb:45 | a name without a digit never passes |
| Languages.UnescapedDotPasses | lib/language_identifier/languages.rb:15 | "ENGLISH_1" passes: the dot is unescaped |
| Languages.SecondLinePasses | lib/language_identifier/languages.rb:15 | "x\nFR-2" passes: the caret matches after a line feed |
| Languages.Ingest | lib/language_identifier/languages.rb:24-27 | the entry for the name always exists afterwards, other names are unchanged; nil or empty text adds nothing, illegal text raises with the words unchanged, legal text adds exactly its downcased tokens |
| Languages.IngestFile | lib/language_identifier/languages.rb:30-33 | `add_words_from_file` on the pure registry: a zero-size file changes nothing and creates no entry; otherwise Ingest of the contents under LanguageName(path). No ensures; Ingest states the outcome, and Languages.Languages.AddWordsFromFile is proved against it |
| Languages.SeedNamesCons | lib/language_identifier/languages.rb:14-16 | the languages named by a listing: those of the first entry, if it qualifies, and of the rest |
| Languages.Seeds | lib/language_identifier/languages.rb:12-18 | the loop of `build_with_seeds` on the pure registry: entries whose names pass SeedFileName are ingested in listing order, and the first illegal text stops the loop with its error. No ensures; SeedsSucceedIff, SeedsKeys, SeedsKeepWords, SeedsHoldTokens, SeedsWordsExact and SeedsOfDirectory carry its properties |
| Languages.AllLegalCons | lib/language_identifier/languages.rb:14-16 | every qualifying entry is legal: the first one and the rest |
| Languages.SeedsSucceedIff | lib/language_identifier/languages.rb:12-18 | build_with_seeds succeeds exactly when every entry that passes the filter and is not empty holds legal text |
| Languages.SeedsKeys | lib/language_identifier/languages.rb:12-18 | only qualifying entries add names; on success exactly the names they give are added |
| Languages.SeedsKeepWords | lib/language_identifier/languages.rb:12-18 | no existing language or word is lost, even when an error stops the build |
| Languages.SeedWords | lib/language_identifier/languages.rb:12-18 | the words a listing gives language n: the downcased tokens of every entry that passes the filter, is not empty and names n. A definition without ensures; SeedsWordsExact uses it |
| Languages.EntryWords | lib/language_identifier/languages.rb:14-15 | the words one entry gives language n: its downcased tokens when it qualifies and names n, otherwise none. A definition without ensures |
| Languages.SeedWordsCons | lib/language_identifier/languages.rb:14-16 | the words a listing gives n: those of the first entry and those of the rest |
| Languages.IngestFileWords | lib/language_identifier/languages.rb:24-33 | ingesting a qualifying entry that is not refused gives n exactly its old words plus that entry's words |
| Languages.SeedsWordsExact | lib/language_identifier/languages.rb:12-18 | after a successful build, each language n holds exactly its old words plus the downcased tokens of the qualifying entries that name it, and no other word |
| Languages.SeedsHoldTokens | lib/language_identifier/languages.rb:15 | after a successful build every qualifying entry's downcased tokens are in its language |
| Languages.SeedEntry | lib/language_identifier/languages.rb:15 | "CAPITALS.1" passes the filter and names language CAPITALS |
| Languages.SeedNamesOfFiles | lib/language_identifier/languages.rb:14-16 | when every file qualifies, the languages are those the file names give |
| Languages.SeedsSkipDotEntries | lib/language_identifier/languages.rb:14-15 | the "." and ".." entries add nothing |
| Languages.SeedsOfDirectory | spec/lib/language_identifier/languages_spec.rb:40-46 | a directory of "NAME.1" files with legal texts builds, with exactly those names as languages; no other (CHINSESE) |
| Languages.DictsOfUpdate | lib/language_identifier/languages.rb:25-26 | changing one language's words changes only that entry of the registry's words |
| Languages.Languages.constructor | lib/language_identifier/languages.rb:20-22 | an empty registry |
| Languages.Languages.AddWordsToLanguage | lib/language_identifier/languages.rb:24-27 | follows Ingest: existing entries keep their objects, one entry per name, the text's words go to that name only; returns nil, the language, or the error |
| Languages.Languages.Feed | lib/language_identifier/languages.rb:26 | add_words on the registered language: its words grow by the tokens or the error is returned with them unchanged, other languages unchanged |
| Languages.Languages.Entry | lib/language_identifier/languages.rb:25 | `@languages[name] ||= Language.new(name)`: the existing object, or a fresh empty one inserted |
| Languages.Languages.AddWordsFromFile | lib/language_identifier/languages.rb:30-33 | follows IngestFile: keyed by base name minus extension, an empty file touches nothing |
| Languages.Languages.BuildWithSeeds | lib/language_identifier/languages.rb:12-18 | a fresh registry whose words are those Seeds gives, or the error that stopped it |
| LanguageIdentifier.Tally | lib/language_identifier/language_identifier.rb:20-25 | the number of token occurrences whose downcase a language knows, at most the number of tokens |
| LanguageIdentifier.TallyZeroIff | lib/language_identifier/language_identifier.rb:23 | a weight is zero exactly when the language knows none of the tokens |
| LanguageIdentifier.TallyFullIff | lib/language_identifier/language_identifier.rb:23 | a weight is the number of tokens exactly when the language knows all of them |
| LanguageIdentifier.TallyStep | lib/language_identifier/language_identifier.rb:23 | one more word adds one exactly when the language knows it |
| LanguageIdentifier.TallyAppend | lib/language_identifier/language_identifier.rb:20-25 | the weight of a concatenation is the sum of the weights, repeats counted |
| LanguageIdentifier.TallyMonotone | lib/language_identifier/language_identifier.rb:23 | knowing more words never lowers a weight |
| LanguageIdentifier.TallyIgnoresCase | lib/language_identifier/language_identifier.rb:23 | recasing each word of a word sequence does not change its weight |
| LanguageIdentifier.TextTallyIgnoresCase | lib/language_identifier/language_identifier.rb:20-25 | a text written in another case weighs the same in every language |
| LanguageIdentifier.TrainedTextScoresFully | spec/lib/language_identifier/language_identifier_spec.rb:14-28 | a language trained on a text knows all its tokens |
| LanguageIdentifier.IsGuess | lib/language_identifier/language_identifier.rb:27-28 | the acceptable answers: when some language weighs more than 0, any language of greatest weight (Ruby's unstable sort may return any of them on a tie); otherwise "UNKNOWN". No ensures; GuessUnknownIff, GuessUnique, UnknownText and TrainedLanguageIsGuessed carry its properties |
| LanguageIdentifier.GuessUnknownIff | lib/language_identifier/language_identifier.rb:28 | with no language called UNKNOWN, the answer is UNKNOWN exactly when every weight is 0 |
| LanguageIdentifier.GuessUnique | lib/language_identifier/language_identifier.rb:27-28 | a language outweighing all others is the one acceptable answer |
| LanguageIdentifier.GuessIgnoresCase | lib/language_identifier/language_identifier.rb:23 | recasing each word of a word sequence does not change what may be answered |
| LanguageIdentifier.TextGuessIgnoresCase | lib/language_identifier/language_identifier.rb:17-29 | a text written in another case is legal exactly when the original is, has words exactly when it does, and has the same acceptable answers |
| LanguageIdentifier.TrainedLanguageIsGuessed | spec/lib/language_identifier/language_identifier_spec.rb:14-28 | a text one language was trained on, unknown to the others, is answered with that language only |
| LanguageIdentifier.UnknownText | spec/lib/language_identifier/language_identifier_spec.rb:29-32 | a text no language knows is answered UNKNOWN only |
| LanguageIdentifier.Identifier.constructor | lib/language_identifier/language_identifier.rb:42-44 | starts with no languages (`@languages ||= {}`) |
| LanguageIdentifier.Identifier.Language | lib/language_identifier/language_identifier.rb:47-49 | the existing language of that name, or a fresh empty one inserted; nothing else changes |
| LanguageIdentifier.Identifier.Feed | lib/language_identifier/language_identifier.rb:54 | add_words on the registered language; other languages unchanged |
| LanguageIdentifier.Identifier.BuildLanguageWithFile | lib/language_identifier/language_identifier.rb:52-55 | follows IngestFile: an empty file creates no entry; otherwise the base-name language gains the tokens or the error is returned |
| LanguageIdentifier.Identifier.BuildLanguagesFromSeeds | lib/language_identifier/language_identifier.rb:34-39 | the words become those Seeds gives; on an error the languages built so far stay; returns self |
| LanguageIdentifier.Identifier.GuessLanguageForStr | lib/language_identifier/language_identifier.rb:17-29 | illegal text raises its error; no words or no languages is NoWeights; otherwise an acceptable guess (a heaviest language, UNKNOWN when all weigh 0); nothing changes |
| LanguageIdentifier.Identifier.Weigh | lib/language_identifier/language_identifier.rb:19-25 | every language's weight is its Tally over the words; no weights at all without words |
| LanguageIdentifier.Identifier.WeighWord | lib/language_identifier/language_identifier.rb:21-24 | every language gets a weight, one more exactly when it knows the word |
| LanguageIdentifier.Identifier.Heaviest | lib/language_identifier/language_identifier.rb:27 | a name of greatest weight |

## Left out

- File and directory access (`File.read`, `File.zero?`, `Dir.foreach`): a listing is a sequence of (name, contents) pairs, and zero size means empty contents.
- `guess_language_for_file` (lib/language_identifier/language_identifier.rb:11-13): only reads a file and calls the guess on its contents.
- `initiliaze` (lib/language_identifier/language_identifier.rb:7-9): the name is misspelled, so Ruby never calls it.
- The `Forwardable` and `Enumerable` delegators (`each`, `size`, `include?`, `[]`): the set and the map are used directly.
- `String#words` and `String#illegal_language?`, used in spec/lib/language_identifier/language_spec.rb:4-26: their source is not part of this model. Only the behaviour that `Language.each_word` shares with them is covered.
- features/step_definitions/identifying_language_steps.rb: it drives a class whose source is not part of this model.
- The error message: Ruby interpolates `$~`, the last match data, which is nil in that frame. The error carries only the text.
- `downcase` is modelled on ASCII only. Words that come from a text are unaffected, because a text with a non-ASCII letter is illegal. But `add` and `include?` check no characters: a non-ASCII word given to them directly, such as "É", is downcased by Ruby from 2.4 on and kept as it is by `Language.Language.Add` and `Language.Language.Includes`.
- The Symbol keys of `Languages` (lib/language_identifier/languages.rb:31): all names are strings.
- LanguageIdentifier.Identifier.GuessLanguageForStr: which heaviest language Ruby's unstable sort returns on a tie is not modelled. The contract allows any of them.
- Languages.Languages.BuildWithSeeds: a raise in Ruby discards the registry built so far, so a failure returns only the error.
