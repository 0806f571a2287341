# Classical Tamil text rewriting, modelled in Dafny

This project models the text-rewriting core of a classical-Tamil
text-to-speech app (`app.py`):

- `preprocess_classical_tamil`, a rewriter that runs four passes in a fixed
  order. First a virama "normalisation" that replaces the virama by itself.
  Then five sandhi rules that split fused compounds into two words. Then three
  phonetic simplifications. Last, per-word suffix rewrites of classical verb
  endings, after which the words are joined with single spaces.
- `replace_old_tamil_words`, which replaces words found in a dictionary, one
  whitespace word at a time, after stripping the punctuation
  `.,!?;:"()[]{}` from both ends for the lookup.
- The pure part of `main`. Blank input is ignored. The two stages run in order,
  each only when its option is on. The result counts as changed when it
  differs from the input. When word replacement is on and the text changed,
  a report lists `"c → mapping[c]"` for each distinct input word whose
  stripped form `c` is a dictionary key.

Modules, one per file:

- `Text` (`text.dfy`) holds the Python primitives. It defines whitespace
  exactly as `str.isspace()` does, `str.split()` as `Split`, `' '.join` as
  `Join`, and literal `str.replace`/`re.sub` as `ReplaceAll`. It also proves
  the facts about them that the rest needs: split/join round trips, word and
  whitespace counts under replacement, and adjacent pairs that replacement
  cannot create.
- `Preprocess` (`preprocess.dfy`) holds the rule tables, copied in dictionary
  order. `PreprocessClassicalTamil` is a method with the source's loops, and
  it is proved equal to the specification function `Preprocessed`. The
  lemmas prove the listed properties of `Preprocessed`.
- `Substitution` (`substitution.dfy`) holds `Strip`, and the method
  `ReplaceOldTamilWords` with the source's loop, proved equal to `Replaced`.
  Its lemmas cover pass-through, the trailing-punctuation case and the
  leading-punctuation quirk.
- `Pipeline` (`pipeline.dfy`) holds the stage composition `Processed`, the
  report loop `ReplacementsMade` over the set of input words, and `HandleText`
  for one request.

The dictionary `TAMIL_WORD_MAPPING` is the parameter `m: map<string, string>`.
Python's `\w` is the parameter `isWord: char -> bool`.

Two behaviours of the code are easy to misread, and the model keeps both:

- The sandhi patterns are not anchored. app.py:25-26 replaces each pattern
  wherever it occurs, even inside a longer word, and so does `SandhiSplit`.
- The tail appended to a replaced word is `word[len(clean_word):]`
  (app.py:66, 70). That is the word's trailing punctuation only when the word
  has no leading punctuation. `"(x)"` becomes `mapping["x"] + "x)"`.
  `LeadingPunctuationQuirk` proves this as written.

## Model

| member | source | states |
|---|---|---|
| `Text.Split` | app.py:45 | every piece of `str.split()` is a non-empty, whitespace-free word, and the first piece starts with the text's first character when that is not whitespace |
| `Text.SplitKeepsContent` | app.py:45 | concatenating the pieces of `str.split()` gives exactly the non-whitespace characters of the text, in order |
| `Text.SplitJoin` | app.py:45-56 | splitting words joined with single spaces gives back the same words |
| `Text.SplitEmptyIffBlank` | app.py:45 | `str.split()` gives no words exactly when the text is empty or all whitespace |
| `Text.JoinEnds` | app.py:56 | joining words gives the empty string only for no words, and starts and ends with the first and last word's characters |
| `Text.JoinSingleSpaced` | app.py:56 | joined words are separated by single spaces, with no leading or trailing whitespace |
| `Text.SingleSpacedIffJoinSplit` | app.py:45-56 | `' '.join(s.split()) == s` exactly when `s` is single-spaced |
| `Text.IsSpace` | app.py:45 | definition: the 29 code points Python's `str.isspace()` accepts, on which `str.split()` splits and by which `strip()` judges blank input |
| `Text.Join` | app.py:56 | definition: Python's `' '.join`, the words with one `' '` between consecutive words |
| `Text.ReplaceAll` | app.py:13 | definition: `str.replace`, and `re.sub` with a pattern that has no metacharacters: every non-overlapping occurrence, scanned left to right, is replaced |
| `Text.SplitSkipsBlankPrefix` | app.py:45 | leading whitespace contributes no piece to `str.split()` |
| `Text.SplitFirstRun` | app.py:45 | for text starting with a non-whitespace character, the first piece is its maximal whitespace-free prefix and the rest are the split of what follows |
| `Text.SplitMaximalRun` | app.py:45 | after the leading whitespace, the first piece is the maximal whitespace-free run, ending at whitespace or the end of the text, and the other pieces are the split of what follows; so consecutive pieces were separated by whitespace and no piece can be extended |
| `Text.ReplaceAllSelf` | app.py:13 | replacing the virama (or any pattern) by itself returns the text unchanged |
| `Text.ReplaceAllLength` | app.py:25-26 | each replacement changes the length by the replacement's length minus the pattern's |
| `Text.ReplaceAllNoOccurrence` | app.py:25-26 | a pattern that does not occur leaves the text unchanged |
| `Text.HeadAbsentNoOccurrence` | app.py:25-26 | a pattern whose first character is absent from the text does not occur in it |
| `Text.ReplaceAllWhole` | app.py:25-26 | replacing a whole text by `rep` gives `rep` |
| `Text.BlankHasNoOccurrence` | app.py:25-26 | a pattern starting with a non-whitespace character never occurs in blank text |
| `Text.CountSpacesConcat` | app.py:17-26 | whitespace counts add up over concatenation |
| `Text.ReplaceAllCountSpaces` | app.py:25-26 | each replacement changes the whitespace count by the replacement's count minus the pattern's |
| `Text.ReplaceAllAddsSpaces` | app.py:25-26 | a replacement with one more whitespace character than its pattern adds one per replacement |
| `Text.ReplaceAllSplitCount` | app.py:25-26 | replacing a word-internal pattern by one word keeps the word count; replacing it by two words adds one word per replacement |
| `Text.ReplaceAllNoPair` | app.py:35-36 | replacing the pair `xy` (or any pattern, when the text has no `xy`) by a replacement that cannot form `xy` with its neighbours leaves no `xy` |
| `Preprocess.SandhiRule` | app.py:17-23 | definition: a sandhi row replaces a fused compound by its two words with one space between them; `SANDHI_RULES` holds the five rows of `sandhi_patterns` in dictionary order, code point for code point |
| `Preprocess.ApplyRules` | app.py:25-36 | definition: the text after every row of a table has been applied in order, each to the output of the one before; `PHONETIC_RULES` holds the three rows of `phonetic_normalizations` in dictionary order |
| `Preprocess.SuffixMatches` | app.py:39-43 | definition: `re.sub(r'(\w+)X$', ...)` finds a match in a word exactly when the word ends with `X` and the character before `X` is a word character; `SUFFIX_RULES` holds the three rows of `classical_verb_patterns` in dictionary order |
| `Preprocess.RewriteSuffix` | app.py:51-52 | definition: `re.sub(r'(\w+)X$', r'\1Y', word)` replaces the matched `X` at the end of the word by `Y` once, and otherwise returns the word as it was |
| `Preprocess.Preprocessed` | app.py:8-56 | definition: the virama step, the sandhi table, the phonetic table, then each whitespace word rewritten by the suffix rules and the words joined with single spaces |
| `Preprocess.PreprocessClassicalTamil` | app.py:8-56 | the method with the source's loops returns `Preprocessed(text)`: the virama step, the sandhi and phonetic table loops, then the rewritten words joined with single spaces |
| `Preprocess.ApplyRuleTable` | app.py:25-26 | one table loop returns the text after every row has been applied in the table's order |
| `Preprocess.RewriteWord` | app.py:48-54 | the inner loop returns the word after the three suffix rules in order |
| `Preprocess.RuleTablesValid` | app.py:17-36 | every sandhi and phonetic pattern and every phonetic replacement is a non-empty, whitespace-free word |
| `Preprocess.SandhiRuleShape` | app.py:17-23 | a sandhi replacement splits into exactly its two words and holds one whitespace character |
| `Preprocess.SandhiRulesShape` | app.py:17-23 | every sandhi replacement is two words with one space between them |
| `Preprocess.TokenHasNoSpaces` | app.py:17-23 | a whitespace-free pattern counts no whitespace |
| `Preprocess.SandhiRulesAddOneSpace` | app.py:17-23 | every sandhi replacement holds one whitespace character more than its pattern |
| `Preprocess.ApplyRulesSplitCount` | app.py:25-36 | a table of word-internal patterns keeps the word count when every replacement is one word, and adds one word per replacement when every one is two |
| `Preprocess.ApplyRulesCountSpaces` | app.py:25-26 | a table whose replacements each add one whitespace character adds one per replacement made |
| `Preprocess.ApplyRulesBlank` | app.py:25-36 | the rule tables leave blank text as it is, making no replacement |
| `Preprocess.ApplyRulesThree` | app.py:35-36 | a three-row table applies its rows in order |
| `Preprocess.ApplyRulesFive` | app.py:25-26 | a five-row table applies its rows in order |
| `Preprocess.SandhiSplitCounts` | app.py:17-26 | the sandhi pass adds exactly one word and one whitespace character per replacement |
| `Preprocess.KandumExample` | app.py:19 | the sandhi pass turns `கண்டும்` into `கண்டு உம்` |
| `Preprocess.PhoneticKeepsWordCount` | app.py:29-36 | the phonetic pass keeps the number of words |
| `Preprocess.PhoneticRemovesRetroflex` | app.py:29-36 | after the phonetic pass no `ழ்` remains |
| `Preprocess.ModernizeWordSteps` | app.py:39-52 | the suffix rules are applied to a word in table order |
| `Preprocess.UmeBecomesUm` | app.py:40 | a word ending in `ுமே` after a word character ends in `ும்` instead |
| `Preprocess.VeBecomesVadhu` | app.py:41 | a word ending in `வே` after a word character ends in `வது` instead |
| `Preprocess.TheBecomesThathe` | app.py:42 | a word ending in `தே` after a word character ends in `ததே` instead |
| `Preprocess.ModernizeWordUnchanged` | app.py:39-52 | a word is left unchanged exactly when no suffix rule matches it |
| `Preprocess.ModernizeWordNotIdempotent` | app.py:42 | the `ததே` output ends in `தே` again, so when `த` is a word character a second pass extends it to `தததே`: preprocessing is not idempotent |
| `Preprocess.ModernizeWordToken` | app.py:48-54 | the suffix rewrites turn a word into a non-empty, whitespace-free word |
| `Preprocess.RewriteSuffixToken` | app.py:51-52 | one suffix rewrite keeps a word non-empty and whitespace-free |
| `Preprocess.PreprocessedShape` | app.py:45-56 | the result is single-spaced; its words are the suffix rewrites of the words after the sandhi and phonetic passes; it has as many words as the input plus one per sandhi replacement; blank input gives `""` |
| `Preprocess.KandumFirstRows` | app.py:18-19 | the second sandhi row is `கண்டும்` → `கண்டு உம்`, and the first row's pattern does not start inside `கண்டும்` |
| `Preprocess.KandumLaterRows` | app.py:20-22 | the last three sandhi patterns do not occur in `கண்டு உம்` |
| `Preprocess.PreprocessedSettled` | app.py:8-56 | text whose sandhi split is untouched by the phonetic pass, already single-spaced and free of suffix matches preprocesses to that split |
| `Preprocess.KandumPreprocessed` | app.py:8-56 | the whole rewriter turns `கண்டும்` into `கண்டு உம்` |
| `Preprocess.KandumPhonetic` | app.py:29-36 | the phonetic pass leaves `கண்டு உம்` unchanged |
| `Preprocess.KandumPhoneticRows` | app.py:29-33 | no phonetic pattern occurs in `கண்டு உம்` |
| `Preprocess.KandumWords` | app.py:45-56 | `கண்டு உம்` splits into `கண்டு` and `உம்`, which join back to it |
| `Preprocess.KandumWordsKept` | app.py:39-54 | no suffix rule rewrites `கண்டு` or `உம்` |
| `Substitution.IsPunct` | app.py:65 | definition: the 13 characters `.,!?;:"()[]{}` that `strip` removes |
| `Substitution.Strip` | app.py:65 | `word.strip('.,!?;:"()[]{}')`: what is left is no longer than the word (its exact shape is stated by `StripSpec` and `StripEnds`) |
| `Substitution.Piece` | app.py:65-72 | definition: what the loop appends for one word, the mapped value of the stripped form followed by `word[len(clean_word):]` when the stripped form is a key, and the word itself otherwise |
| `Substitution.Replaced` | app.py:58-74 | definition: the pieces of the whitespace words, joined with single spaces |
| `Substitution.LeadLen` | app.py:65 | the leading punctuation run is maximal: all punctuation, followed by a non-punctuation character or the end |
| `Substitution.TrailLen` | app.py:65 | the trailing punctuation run is maximal: all punctuation, preceded by a non-punctuation character or the start |
| `Substitution.TrailStopsAfterLead` | app.py:65 | when a word is not all punctuation, its trailing run ends after its leading run |
| `Substitution.StripSpec` | app.py:65 | `strip` leaves the infix that follows the leading punctuation run, with only punctuation before and after it |
| `Substitution.StripEnds` | app.py:65 | what `strip` leaves is empty or neither starts nor ends with punctuation |
| `Substitution.StripTrailingMark` | app.py:65 | a word without punctuation at its ends strips to itself, and so does that word followed by a punctuation mark |
| `Substitution.ReplaceOldTamilWords` | app.py:58-74 | the method with the source's loop returns `Replaced(text, m)`: one piece per whitespace word, joined with single spaces |
| `Substitution.PiecesSnoc` | app.py:63-72 | each iteration appends the piece for the next word |
| `Substitution.PieceCases` | app.py:65-72 | a word whose stripped form is not a key passes through verbatim; a word with no leading punctuation whose stripped form is a key becomes the mapped value followed by exactly the stripped trailing punctuation |
| `Substitution.LeadingPunctuationQuirk` | app.py:65-70 | `"(" + x + ")"` for a key `x` becomes the mapped value followed by the last character of `x` and `")"`, not the mapped value followed by `")"` |
| `Substitution.QuirkExample` | app.py:65-70 | `(அ)` becomes the value of `அ` followed by `அ)` |
| `Substitution.ReplacedWordwise` | app.py:60-74 | with one-word dictionary values, the output splits into exactly one piece per input word, in order, and is single-spaced |
| `Substitution.PieceToken` | app.py:65-72 | with one-word dictionary values, each piece is a non-empty, whitespace-free word |
| `Substitution.UnmappedUnchanged` | app.py:60-74 | single-spaced text in which no stripped word is a key comes back unchanged |
| `Pipeline.Processed` | app.py:152-160 | definition: preprocessing when its option is on, then word replacement when its option is on, in that order |
| `Pipeline.Line` | app.py:182 | definition: one report entry, `f"{clean_orig} → {mapping[clean_orig]}"` |
| `Pipeline.ReportLines` | app.py:178-182 | definition: the entries for the words in a visiting order, one for each word whose stripped form is a key, in that order |
| `Pipeline.ReplacementsMade` | app.py:176-182 | the report loop visits every distinct input word once, and its entries equal, up to order, those of every other visiting order |
| `Pipeline.HandleText` | app.py:146-182 | blank input shows nothing; otherwise the processed text is the enabled stages in order, changed means it differs from the input, and the report is made only when word replacement is on and the text changed |
| `Pipeline.ReportLinesConcat` | app.py:178-182 | the entries for two runs of words are the entries of the first run followed by those of the second |
| `Pipeline.ReportLinesSingle` | app.py:179-182 | one word gives an entry exactly when its stripped form is a key |
| `Pipeline.ReportRemoveAt` | app.py:176-182 | removing one word removes its entry, if it has one, from the report |
| `Pipeline.ReportOrderIrrelevant` | app.py:176-182 | the report's entries, up to order, do not depend on the order the words are visited in |
| `Pipeline.EnumerationsArePermutations` | app.py:176 | two visiting orders of the same set of words are permutations of each other |
| `Pipeline.DistinctMultiset` | app.py:176 | a visiting order holds each word once |
| `Pipeline.KeyWordsSnoc` | app.py:178-182 | one more word adds itself to the words that have entries exactly when its stripped form is a key |
| `Pipeline.ReportCount` | app.py:176-182 | the report has one entry per distinct input word whose stripped form is a key |
| `Pipeline.ReportMembership` | app.py:178-182 | every such word has its `"c → mapping[c]"` entry, and every entry comes from such a word |
| `Pipeline.SourcesSnoc` | app.py:178-182 | one more word joins the words whose entry is a given line exactly when its stripped form is a key with that entry |
| `Pipeline.ReportMultiplicity` | app.py:176-182 | each entry occurs in the report exactly as often as there are distinct input words whose stripped form is a key and whose entry it is |
| `Pipeline.ReportRepeats` | app.py:176-182 | `அ` and `அ.` are distinct words with the same stripped form, so the report holds the same entry twice |
| `Pipeline.ProcessedShape` | app.py:152-160 | with both options off the text is returned as it was; with preprocessing on, the result is single-spaced and has the input's word count plus one per sandhi replacement (with one-word dictionary values if replacement follows); with replacement on and one-word values, it is single-spaced |

## Left out

- Text-to-speech (`text_to_speech_tamil`, app.py:76-90) and `premium_tts_service.py` are left out. They are network calls to speech services.
- The Streamlit interface in `main` is left out: widgets, session state, the audio player and the download button. So are the status messages `main` prints around the text, such as the processing descriptions and the "no changes were needed" notice. Only the processed text, the changed flag and the report entries are modelled.
- The report is modelled as a list of entries. Joining the entries with `", "` into one message is UI formatting and is left out.
- `db_manager.py` and `openai_tamil_translator.py` are not part of this model. They do database and network I/O.
- The contents of `TAMIL_WORD_MAPPING` are not part of this model, because its module is not available. The dictionary is the parameter `m`.
- Python's Unicode classification behind `\w` is left out. It is the parameter `isWord`. Python's whitespace, in contrast, is written out exactly as `str.isspace()` defines it.
- The `$` in the suffix patterns also matches before a final newline. Words from `str.split()` never contain a newline, so `SuffixMatches` tests the end of the word only.
- `re.IGNORECASE` on the sandhi patterns is left out. Tamil has no letter case, so it changes nothing.
- Pipeline.ReplacementsMade: the visiting order of Python's set iteration is not modelled. The method chooses an order, and its contract fixes the entries only up to order, which is all the source determines.
- Preprocess.ApplyRulesSplitCount: stated only for tables whose replacements are all one word or all two words. Those are the only shapes the source's tables have.
- Substitution.ReplacedWordwise: the word-count promise is stated only for dictionaries whose values are single words. A value that is empty or holds whitespace changes the word count, and the dictionary's contents are not available.
