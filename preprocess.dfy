/** `preprocess_classical_tamil` (app.py): four passes in a fixed order over
    the text: a virama normalisation, the sandhi splits, the phonetic
    simplifications, and per-word suffix rewrites after which the words are
    joined again with single spaces.

    The sandhi and phonetic patterns are literal Tamil strings with no regular
    expression metacharacters, so each `re.sub` is a left-to-right,
    non-overlapping replace-all (`Text.ReplaceAll`); Tamil has no letter case,
    so `re.IGNORECASE` changes nothing. Python's `\w` is the parameter
    `isWord`. */
module Preprocess {
  import opened Text

  /** One row of a rule table: a literal pattern and its replacement. */
  datatype Rule = Rule(pat: string, rep: string)

  /** U+0BCD TAMIL SIGN VIRAMA. */
  const VIRAMA: string := "\U{0BCD}"

  /** A sandhi row replaces a fused compound by its two words separated by one space. */
  function SandhiRule(fused: string, first: string, second: string): Rule {
    Rule(fused, first + " " + second)
  }

  /** `sandhi_patterns`, in dictionary order. */
  const SANDHI_RULES: seq<Rule> := [
    SandhiRule("தல்லும்", "தான்", "அல்லும்"),
    SandhiRule("கண்டும்", "கண்டு", "உம்"),
    SandhiRule("செய்தும்", "செய்து", "உம்"),
    SandhiRule("வந்தும்", "வந்து", "உம்"),
    SandhiRule("போனும்", "போன", "உம்")
  ]

  /** `phonetic_normalizations`, in dictionary order. */
  const PHONETIC_RULES: seq<Rule> := [
    Rule("ழ்", "ள்"),
    Rule("ற்ற", "ட்ட"),
    Rule("ன்ன", "ண்ண")
  ]

  /** `classical_verb_patterns`, in dictionary order: the row `Rule(X, Y)` stands
      for `re.sub(r'(\w+)X$', r'\1Y', word)`. */
  const SUFFIX_RULES: seq<Rule> := [
    Rule("ுமே", "ும்"),
    Rule("வே", "வது"),
    Rule("தே", "ததே")
  ]

  predicate ValidRules(rules: seq<Rule>) {
    forall i :: 0 <= i < |rules| ==> rules[i].pat != []
  }

  /** The text after every row of `rules` has been applied in order, each to the
      output of the one before. */
  function ApplyRules(rules: seq<Rule>, s: string): string
    requires ValidRules(rules)
    decreases |rules|
  {
    if rules == [] then s
    else
      var last := rules[|rules| - 1];
      ReplaceAll(ApplyRules(rules[..|rules| - 1], s), last.pat, last.rep)
  }

  /** How many replacements applying `rules` in order makes. */
  function Replacements(rules: seq<Rule>, s: string): nat
    requires ValidRules(rules)
    decreases |rules|
  {
    if rules == [] then 0
    else
      var prefix := rules[..|rules| - 1];
      Replacements(prefix, s) + Occurrences(ApplyRules(prefix, s), rules[|rules| - 1].pat)
  }

  function SandhiSplit(s: string): string {
    ApplyRules(SANDHI_RULES, s)
  }

  function SandhiReplacements(s: string): nat {
    Replacements(SANDHI_RULES, s)
  }

  function PhoneticNormalize(s: string): string {
    ApplyRules(PHONETIC_RULES, s)
  }

  /** Whether `re.sub(r'(\w+)X$', ...)` finds a match in the word `w`, for
      `X == rule.pat`: `w` ends with `X` and the character just before `X` is a
      word character. (`w` holds no newline, so `$` is the end of `w`.) */
  predicate SuffixMatches(w: string, rule: Rule, isWord: char -> bool) {
    |w| > |rule.pat| && w[|w| - |rule.pat|..] == rule.pat && isWord(w[|w| - |rule.pat| - 1])
  }

  /** `re.sub(r'(\w+)X$', r'\1Y', w)`: the match, if any, is replaced once. */
  function RewriteSuffix(w: string, rule: Rule, isWord: char -> bool): string {
    if SuffixMatches(w, rule, isWord) then w[..|w| - |rule.pat|] + rule.rep else w
  }

  /** The word after every row of `rules` has been applied in order. */
  function RewriteSuffixes(rules: seq<Rule>, w: string, isWord: char -> bool): string
    decreases |rules|
  {
    if rules == [] then w
    else RewriteSuffix(RewriteSuffixes(rules[..|rules| - 1], w, isWord), rules[|rules| - 1], isWord)
  }

  function ModernizeWord(w: string, isWord: char -> bool): string {
    RewriteSuffixes(SUFFIX_RULES, w, isWord)
  }

  function ModernizeWords(ws: seq<string>, isWord: char -> bool): seq<string> {
    seq(|ws|, i requires 0 <= i < |ws| => ModernizeWord(ws[i], isWord))
  }

  /** What `preprocess_classical_tamil(text)` returns. */
  function Preprocessed(text: string, isWord: char -> bool): string {
    var words := Split(PhoneticNormalize(SandhiSplit(ReplaceAll(text, VIRAMA, VIRAMA))));
    Join(ModernizeWords(words, isWord))
  }

  // ---------------------------------------------------------------------------
  // the rewriter

  /** One rule-table loop of `preprocess_classical_tamil`: rebinds the text once
      per row, in the table's order. */
  method ApplyRuleTable(rules: seq<Rule>, text: string) returns (t: string)
    requires ValidRules(rules)
    ensures t == ApplyRules(rules, text)
  {
    t := text;
    for i := 0 to |rules|
      invariant t == ApplyRules(rules[..i], text)
    {
      assert rules[..i + 1][..i] == rules[..i];
      t := ReplaceAll(t, rules[i].pat, rules[i].rep);
    }
    assert rules[..|rules|] == rules;
  }

  /** The inner loop of `preprocess_classical_tamil`: rebinds the word once per
      suffix rule. */
  method RewriteWord(w: string, isWord: char -> bool) returns (word: string)
    ensures word == ModernizeWord(w, isWord)
  {
    word := w;
    for j := 0 to |SUFFIX_RULES|
      invariant word == RewriteSuffixes(SUFFIX_RULES[..j], w, isWord)
    {
      assert SUFFIX_RULES[..j + 1][..j] == SUFFIX_RULES[..j];
      word := RewriteSuffix(word, SUFFIX_RULES[j], isWord);
    }
    assert SUFFIX_RULES[..|SUFFIX_RULES|] == SUFFIX_RULES;
  }

  /** `preprocess_classical_tamil`: the virama step, the two rule-table loops,
      then the per-word loop that collects the rewritten words and joins them
      with single spaces. */
  method PreprocessClassicalTamil(text: string, isWord: char -> bool) returns (result: string)
    ensures result == Preprocessed(text, isWord)
  {
    RuleTablesValid();
    var t := ReplaceAll(text, VIRAMA, VIRAMA);
    t := ApplyRuleTable(SANDHI_RULES, t);
    t := ApplyRuleTable(PHONETIC_RULES, t);

    var words := Split(t);
    var normalizedWords: seq<string> := [];
    for k := 0 to |words|
      invariant normalizedWords == ModernizeWords(words[..k], isWord)
    {
      var word := RewriteWord(words[k], isWord);
      normalizedWords := normalizedWords + [word];
    }
    assert words[..|words|] == words;
    result := Join(normalizedWords);
  }

  // ---------------------------------------------------------------------------
  // the rule tables

  /** Every sandhi and phonetic pattern is a non-empty token; every sandhi
      replacement is two tokens joined by one space, and every phonetic
      replacement is a single token. */
  lemma RuleTablesValid()
    ensures ValidRules(SANDHI_RULES) && ValidRules(PHONETIC_RULES) && ValidRules(SUFFIX_RULES)
    ensures forall i :: 0 <= i < |SANDHI_RULES| ==> IsToken(SANDHI_RULES[i].pat)
    ensures forall i :: 0 <= i < |PHONETIC_RULES| ==> IsToken(PHONETIC_RULES[i].pat)
    ensures forall i :: 0 <= i < |PHONETIC_RULES| ==> IsToken(PHONETIC_RULES[i].rep)
  {
  }

  /** A sandhi replacement `first + " " + second` of two tokens is non-empty,
      has non-whitespace ends, splits into exactly the two words and holds one
      whitespace character. */
  lemma SandhiRuleShape(fused: string, first: string, second: string)
    requires IsToken(first) && IsToken(second)
    ensures var rep := SandhiRule(fused, first, second).rep;
      rep != [] && !IsSpace(rep[0]) && !IsSpace(rep[|rep| - 1])
      && Split(rep) == [first, second] && CountSpaces(rep) == 1
  {
    var rep := first + " " + second;
    assert Join([first, second]) == rep by {
      assert [first, second][1..] == [second];
    }
    SplitJoin([first, second]);
    CountSpacesConcat(first + " ", second);
    CountSpacesConcat(first, " ");
    TokenHasNoSpaces(first);
    TokenHasNoSpaces(second);
  }

  lemma {:induction false} TokenHasNoSpaces(t: string)
    requires NoSpace(t)
    ensures CountSpaces(t) == 0
    decreases |t|
  {
    if t != [] {
      assert NoSpace(t[1..]) by {
        forall i | 0 <= i < |t[1..]| ensures !IsSpace(t[1..][i]) { assert t[1..][i] == t[i + 1]; }
      }
      TokenHasNoSpaces(t[1..]);
    }
  }

  /** Every sandhi replacement is two tokens joined by one space. */
  lemma SandhiRulesShape()
    ensures forall i :: 0 <= i < |SANDHI_RULES| ==>
      var rep := SANDHI_RULES[i].rep;
      rep != [] && !IsSpace(rep[0]) && !IsSpace(rep[|rep| - 1])
      && |Split(rep)| == 2 && CountSpaces(rep) == 1
  {
    forall i | 0 <= i < |SANDHI_RULES|
      ensures var rep := SANDHI_RULES[i].rep;
        rep != [] && !IsSpace(rep[0]) && !IsSpace(rep[|rep| - 1])
        && |Split(rep)| == 2 && CountSpaces(rep) == 1
    {
      if i == 0 {
        SandhiRuleShape("தல்லும்", "தான்", "அல்லும்");
      } else if i == 1 {
        SandhiRuleShape("கண்டும்", "கண்டு", "உம்");
      } else if i == 2 {
        SandhiRuleShape("செய்தும்", "செய்து", "உம்");
      } else if i == 3 {
        SandhiRuleShape("வந்தும்", "வந்து", "உம்");
      } else {
        SandhiRuleShape("போனும்", "போன", "உம்");
      }
    }
  }

  // ---------------------------------------------------------------------------
  // the sandhi and phonetic passes

  /** A table whose patterns are tokens and whose replacements are each `n`
      tokens (`n` is 1 or 2) joined by whitespace keeps the number of words of
      the text when `n == 1` and adds one word per replacement when `n == 2`. */
  lemma {:induction false} ApplyRulesSplitCount(rules: seq<Rule>, s: string, n: nat)
    requires ValidRules(rules)
    requires n == 1 || n == 2
    requires forall i :: 0 <= i < |rules| ==>
      IsToken(rules[i].pat) && rules[i].rep != [] && !IsSpace(rules[i].rep[0])
      && !IsSpace(rules[i].rep[|rules[i].rep| - 1]) && |Split(rules[i].rep)| == n
    ensures |Split(ApplyRules(rules, s))| == |Split(s)| + (if n == 1 then 0 else Replacements(rules, s))
    decreases |rules|
  {
    if rules != [] {
      var prefix := rules[..|rules| - 1];
      var last := rules[|rules| - 1];
      ApplyRulesSplitCount(prefix, s, n);
      ReplaceAllSplitCount(ApplyRules(prefix, s), last.pat, last.rep);
    }
  }

  /** Each replacement that a table whose replacements each hold one more
      whitespace character than their patterns makes adds one whitespace
      character to the text. */
  lemma {:induction false} ApplyRulesCountSpaces(rules: seq<Rule>, s: string)
    requires ValidRules(rules)
    requires forall i :: 0 <= i < |rules| ==> CountSpaces(rules[i].rep) == CountSpaces(rules[i].pat) + 1
    ensures CountSpaces(ApplyRules(rules, s)) == CountSpaces(s) + Replacements(rules, s)
    decreases |rules|
  {
    if rules != [] {
      var prefix := rules[..|rules| - 1];
      var last := rules[|rules| - 1];
      assert forall i :: 0 <= i < |prefix| ==> prefix[i] == rules[i];
      ApplyRulesCountSpaces(prefix, s);
      ReplaceAllAddsSpaces(ApplyRules(prefix, s), last.pat, last.rep);
    }
  }

  /** Every sandhi replacement holds one whitespace character more than its pattern. */
  lemma SandhiRulesAddOneSpace()
    ensures ValidRules(SANDHI_RULES)
    ensures forall i :: 0 <= i < |SANDHI_RULES| ==>
      CountSpaces(SANDHI_RULES[i].rep) == CountSpaces(SANDHI_RULES[i].pat) + 1
  {
    RuleTablesValid();
    SandhiRulesShape();
    forall i | 0 <= i < |SANDHI_RULES|
      ensures CountSpaces(SANDHI_RULES[i].pat) == 0
    {
      TokenHasNoSpaces(SANDHI_RULES[i].pat);
    }
  }

  /** The sandhi pass splits one word in two per replacement: the text gains
      exactly one word and one whitespace character for each replacement. */
  lemma SandhiSplitCounts(s: string)
    ensures |Split(SandhiSplit(s))| == |Split(s)| + SandhiReplacements(s)
    ensures CountSpaces(SandhiSplit(s)) == CountSpaces(s) + SandhiReplacements(s)
  {
    RuleTablesValid();
    SandhiRulesShape();
    ApplyRulesSplitCount(SANDHI_RULES, s, 2);
    SandhiRulesAddOneSpace();
    ApplyRulesCountSpaces(SANDHI_RULES, s);
  }

  /** The phonetic pass rewrites inside words only: the number of words is unchanged. */
  lemma PhoneticKeepsWordCount(s: string)
    ensures |Split(PhoneticNormalize(s))| == |Split(s)|
  {
    RuleTablesValid();
    forall i | 0 <= i < |PHONETIC_RULES|
      ensures |Split(PHONETIC_RULES[i].rep)| == 1
    {
      SplitOfToken(PHONETIC_RULES[i].rep);
    }
    ApplyRulesSplitCount(PHONETIC_RULES, s, 1);
  }

  /** A three-row table applies its rows in order. */
  lemma ApplyRulesThree(rules: seq<Rule>, s: string)
    requires ValidRules(rules) && |rules| == 3
    ensures ApplyRules(rules, s)
         == ReplaceAll(ReplaceAll(ReplaceAll(s, rules[0].pat, rules[0].rep), rules[1].pat, rules[1].rep), rules[2].pat, rules[2].rep)
  {
    assert rules[..1][..0] == [];
    assert ApplyRules(rules[..1], s) == ReplaceAll(s, rules[0].pat, rules[0].rep);
    assert rules[..2][..1] == rules[..1];
    assert rules[..3][..2] == rules[..2];
    assert rules[..3] == rules;
  }

  /** A table whose patterns start with non-whitespace leaves blank text as it is. */
  lemma {:induction false} ApplyRulesBlank(rules: seq<Rule>, s: string)
    requires ValidRules(rules)
    requires forall i :: 0 <= i < |rules| ==> !IsSpace(rules[i].pat[0])
    requires IsBlank(s)
    ensures ApplyRules(rules, s) == s && Replacements(rules, s) == 0
    decreases |rules|
  {
    if rules != [] {
      var prefix := rules[..|rules| - 1];
      var last := rules[|rules| - 1];
      ApplyRulesBlank(prefix, s);
      BlankHasNoOccurrence(s, last.pat);
      ReplaceAllNoOccurrence(s, last.pat, last.rep);
    }
  }

  /** A five-row table applies its rows in order. */
  lemma ApplyRulesFive(rules: seq<Rule>, s: string)
    requires ValidRules(rules) && |rules| == 5
    ensures ApplyRules(rules, s)
         == ReplaceAll(ReplaceAll(ApplyRules(rules[..3], s), rules[3].pat, rules[3].rep), rules[4].pat, rules[4].rep)
  {
    assert rules[..4][..3] == rules[..3];
    assert rules[..5][..4] == rules[..4];
    assert rules[..5] == rules;
  }

  /** After the phonetic pass no `ழ்` (LLLA followed by VIRAMA) is left. */
  lemma PhoneticRemovesRetroflex(s: string)
    ensures NoPair(PhoneticNormalize(s), 'ழ', '்')
  {
    RuleTablesValid();
    var r0, r1, r2 := PHONETIC_RULES[0], PHONETIC_RULES[1], PHONETIC_RULES[2];
    var s1 := ReplaceAll(s, r0.pat, r0.rep);
    var s2 := ReplaceAll(s1, r1.pat, r1.rep);
    ApplyRulesThree(PHONETIC_RULES, s);
    ReplaceAllNoPair(s, r0.pat, r0.rep, 'ழ', '்');
    ReplaceAllNoPair(s1, r1.pat, r1.rep, 'ழ', '்');
    ReplaceAllNoPair(s2, r2.pat, r2.rep, 'ழ', '்');
  }

  // ---------------------------------------------------------------------------
  // the suffix rewrites

  lemma ModernizeWordSteps(w: string, isWord: char -> bool)
    ensures ModernizeWord(w, isWord)
         == RewriteSuffix(RewriteSuffix(RewriteSuffix(w, SUFFIX_RULES[0], isWord), SUFFIX_RULES[1], isWord), SUFFIX_RULES[2], isWord)
  {
    var rules := SUFFIX_RULES;
    assert rules[..1][..0] == [];
    assert RewriteSuffixes(rules[..1], w, isWord) == RewriteSuffix(w, rules[0], isWord);
    assert rules[..2][..1] == rules[..1];
    assert rules[..3][..2] == rules[..2];
    assert rules[..3] == rules;
  }

  /** A word ending in `ுமே` after a word character ends in `ும்` instead. */
  lemma UmeBecomesUm(w: string, isWord: char -> bool)
    requires |w| > 3 && w[|w| - 3..] == "ுமே" && isWord(w[|w| - 4])
    ensures ModernizeWord(w, isWord) == w[..|w| - 3] + "ும்"
  {
    ModernizeWordSteps(w, isWord);
    var w1 := w[..|w| - 3] + "ும்";
    assert RewriteSuffix(w, SUFFIX_RULES[0], isWord) == w1;
    assert w1[|w1| - 1] == '்';
    assert !SuffixMatches(w1, SUFFIX_RULES[1], isWord) by {
      if |w1| > 2 { assert w1[|w1| - 2..][1] == '்'; }
    }
    assert !SuffixMatches(w1, SUFFIX_RULES[2], isWord) by {
      if |w1| > 2 { assert w1[|w1| - 2..][1] == '்'; }
    }
  }

  /** A word ending in `வே` after a word character ends in `வது` instead. */
  lemma VeBecomesVadhu(w: string, isWord: char -> bool)
    requires |w| > 2 && w[|w| - 2..] == "வே" && isWord(w[|w| - 3])
    ensures ModernizeWord(w, isWord) == w[..|w| - 2] + "வது"
  {
    ModernizeWordSteps(w, isWord);
    assert !SuffixMatches(w, SUFFIX_RULES[0], isWord) by {
      if |w| > 3 { assert w[|w| - 3..][1] == w[|w| - 2..][0] == 'வ'; }
    }
    var w2 := w[..|w| - 2] + "வது";
    assert RewriteSuffix(w, SUFFIX_RULES[1], isWord) == w2;
    assert !SuffixMatches(w2, SUFFIX_RULES[2], isWord) by {
      assert w2[|w2| - 2..][1] == 'ு';
    }
  }

  /** A word ending in `தே` after a word character ends in `ததே` instead. */
  lemma TheBecomesThathe(w: string, isWord: char -> bool)
    requires |w| > 2 && w[|w| - 2..] == "தே" && isWord(w[|w| - 3])
    ensures ModernizeWord(w, isWord) == w[..|w| - 2] + "ததே"
  {
    ModernizeWordSteps(w, isWord);
    assert !SuffixMatches(w, SUFFIX_RULES[0], isWord) by {
      if |w| > 3 { assert w[|w| - 3..][1] == w[|w| - 2..][0] == 'த'; }
    }
    assert !SuffixMatches(w, SUFFIX_RULES[1], isWord) by {
      assert w[|w| - 2..][0] == 'த';
    }
  }

  /** A word is left as it is exactly when no suffix rule matches it. */
  lemma ModernizeWordUnchanged(w: string, isWord: char -> bool)
    ensures ModernizeWord(w, isWord) == w <==>
      !SuffixMatches(w, SUFFIX_RULES[0], isWord)
      && !SuffixMatches(w, SUFFIX_RULES[1], isWord)
      && !SuffixMatches(w, SUFFIX_RULES[2], isWord)
  {
    ModernizeWordSteps(w, isWord);
    if SuffixMatches(w, SUFFIX_RULES[0], isWord) {
      UmeBecomesUm(w, isWord);
      var r := ModernizeWord(w, isWord);
      assert r[|r| - 1] == '்' && w[|w| - 1] == w[|w| - 3..][2] == 'ே';
    } else if SuffixMatches(w, SUFFIX_RULES[1], isWord) {
      VeBecomesVadhu(w, isWord);
    } else if SuffixMatches(w, SUFFIX_RULES[2], isWord) {
      TheBecomesThathe(w, isWord);
    }
  }

  /** The `ததே` a `தே` word becomes still ends in `தே`, now after `த`: when `த`
      is a word character the rewrite fires again on its own output, so
      preprocessing is not idempotent. */
  lemma ModernizeWordNotIdempotent(w: string, isWord: char -> bool)
    requires |w| > 2 && w[|w| - 2..] == "தே" && isWord(w[|w| - 3])
    requires isWord('த')
    ensures ModernizeWord(ModernizeWord(w, isWord), isWord) == w[..|w| - 2] + "தததே"
    ensures ModernizeWord(ModernizeWord(w, isWord), isWord) != ModernizeWord(w, isWord)
  {
    TheBecomesThathe(w, isWord);
    var w1 := ModernizeWord(w, isWord);
    assert w1[|w1| - 2..] == "தே" && w1[|w1| - 3] == 'த';
    TheBecomesThathe(w1, isWord);
    assert w1[..|w1| - 2] == w[..|w| - 2] + "த";
  }

  /** The suffix rewrites turn a token into a token. */
  lemma ModernizeWordToken(w: string, isWord: char -> bool)
    requires IsToken(w)
    ensures IsToken(ModernizeWord(w, isWord))
  {
    ModernizeWordSteps(w, isWord);
    var w1 := RewriteSuffix(w, SUFFIX_RULES[0], isWord);
    var w2 := RewriteSuffix(w1, SUFFIX_RULES[1], isWord);
    RewriteSuffixToken(w, SUFFIX_RULES[0], isWord);
    RewriteSuffixToken(w1, SUFFIX_RULES[1], isWord);
    RewriteSuffixToken(w2, SUFFIX_RULES[2], isWord);
  }

  lemma RewriteSuffixToken(w: string, rule: Rule, isWord: char -> bool)
    requires IsToken(w) && NoSpace(rule.rep)
    ensures IsToken(RewriteSuffix(w, rule, isWord))
  {
    if SuffixMatches(w, rule, isWord) {
      var n := |w| - |rule.pat|;
      var r := w[..n] + rule.rep;
      forall i | 0 <= i < |r| ensures !IsSpace(r[i]) {
        if i < n { assert r[i] == w[i]; } else { assert r[i] == rule.rep[i - n]; }
      }
    }
  }

  // ---------------------------------------------------------------------------
  // the whole rewriter

  /** `preprocess_classical_tamil` returns its words joined by single spaces,
      with no leading or trailing whitespace; each word is the suffix rewrite
      of the word at the same place after the sandhi and phonetic passes; there
      are as many words as in the input plus one per sandhi replacement; and
      blank input gives the empty string. */
  lemma PreprocessedShape(text: string, isWord: char -> bool)
    ensures SingleSpaced(Preprocessed(text, isWord))
    ensures Split(Preprocessed(text, isWord))
         == ModernizeWords(Split(PhoneticNormalize(SandhiSplit(text))), isWord)
    ensures |Split(Preprocessed(text, isWord))| == |Split(text)| + SandhiReplacements(text)
    ensures IsBlank(text) ==> Preprocessed(text, isWord) == []
  {
    ReplaceAllSelf(text, VIRAMA);
    var sandhi := SandhiSplit(text);
    var words := Split(PhoneticNormalize(sandhi));
    var modern := ModernizeWords(words, isWord);
    forall k | 0 <= k < |modern| ensures IsToken(modern[k]) {
      ModernizeWordToken(words[k], isWord);
    }
    JoinSingleSpaced(modern);
    SplitJoin(modern);
    SandhiSplitCounts(text);
    PhoneticKeepsWordCount(sandhi);
    if IsBlank(text) {
      SplitEmptyIffBlank(text);
      RuleTablesValid();
      ApplyRulesBlank(SANDHI_RULES, text);
    }
  }

  /** The example of the sandhi table: `கண்டும்` becomes `கண்டு உம்`. */
  lemma KandumExample()
    ensures SandhiSplit("கண்டும்") == "கண்டு உம்"
  {
    RuleTablesValid();
    var rules := SANDHI_RULES;
    var s: string := "கண்டும்";
    var t: string := "கண்டு உம்";
    ApplyRulesFive(rules, s);
    ApplyRulesThree(rules[..3], s);
    assert rules[..3][0] == rules[0] && rules[..3][1] == rules[1] && rules[..3][2] == rules[2];
    KandumFirstRows(s, t);
    KandumLaterRows(t);
    HeadAbsentNoOccurrence(s, rules[0].pat);
    ReplaceAllNoOccurrence(s, rules[0].pat, rules[0].rep);
    ReplaceAllWhole(s, rules[1].rep);
    ReplaceAllNoOccurrence(t, rules[2].pat, rules[2].rep);
    ReplaceAllNoOccurrence(t, rules[3].pat, rules[3].rep);
    ReplaceAllNoOccurrence(t, rules[4].pat, rules[4].rep);
  }

  lemma KandumFirstRows(s: string, t: string)
    requires s == "கண்டும்" && t == "கண்டு உம்"
    ensures SANDHI_RULES[1] == Rule(s, t)
    ensures forall i :: 0 <= i < |s| ==> s[i] != SANDHI_RULES[0].pat[0]
  {
  }

  lemma KandumLaterRows(t: string)
    requires t == "கண்டு உம்"
    ensures Occurrences(t, SANDHI_RULES[2].pat) == 0
    ensures Occurrences(t, SANDHI_RULES[3].pat) == 0
    ensures Occurrences(t, SANDHI_RULES[4].pat) == 0
  {
    HeadAbsentNoOccurrence(t, "செய்தும்");
    HeadAbsentNoOccurrence(t, "வந்தும்");
    HeadAbsentNoOccurrence(t, "போனும்");
  }

  /** A text whose sandhi split `t` is a fixed point of the phonetic pass, is
      already single-spaced and has no word a suffix rule rewrites,
      preprocesses to `t`. */
  lemma PreprocessedSettled(text: string, t: string, isWord: char -> bool)
    requires SandhiSplit(text) == t && PhoneticNormalize(t) == t
    requires Join(Split(t)) == t
    requires forall k :: 0 <= k < |Split(t)| ==> ModernizeWord(Split(t)[k], isWord) == Split(t)[k]
    ensures Preprocessed(text, isWord) == t
  {
    ReplaceAllSelf(text, VIRAMA);
    assert ModernizeWords(Split(t), isWord) == Split(t);
  }

  /** The whole rewriter turns `கண்டும்` into `கண்டு உம்`: after the sandhi split
      the phonetic rules find nothing and neither word takes a suffix rewrite. */
  lemma KandumPreprocessed(isWord: char -> bool)
    ensures Preprocessed("கண்டும்", isWord) == "கண்டு உம்"
  {
    var t: string := "கண்டு உம்";
    KandumExample();
    KandumPhonetic(t);
    KandumWords(t);
    KandumWordsKept(isWord);
    PreprocessedSettled("கண்டும்", t, isWord);
  }

  lemma KandumWords(t: string)
    requires t == "கண்டு உம்"
    ensures Split(t) == ["கண்டு", "உம்"]
    ensures Join(["கண்டு", "உம்"]) == t
  {
    var a: string, b: string := "கண்டு", "உம்";
    SandhiRuleShape("கண்டும்", a, b);
    assert [a, b][1..] == [b];
    assert a + " " + b == t;
  }

  lemma KandumPhonetic(t: string)
    requires t == "கண்டு உம்"
    ensures PhoneticNormalize(t) == t
  {
    RuleTablesValid();
    ApplyRulesThree(PHONETIC_RULES, t);
    KandumPhoneticRows(t);
    ReplaceAllNoOccurrence(t, PHONETIC_RULES[0].pat, PHONETIC_RULES[0].rep);
    ReplaceAllNoOccurrence(t, PHONETIC_RULES[1].pat, PHONETIC_RULES[1].rep);
    ReplaceAllNoOccurrence(t, PHONETIC_RULES[2].pat, PHONETIC_RULES[2].rep);
  }

  lemma KandumPhoneticRows(t: string)
    requires t == "கண்டு உம்"
    ensures Occurrences(t, PHONETIC_RULES[0].pat) == 0
    ensures Occurrences(t, PHONETIC_RULES[1].pat) == 0
    ensures Occurrences(t, PHONETIC_RULES[2].pat) == 0
  {
    HeadAbsentNoOccurrence(t, "ழ்");
    HeadAbsentNoOccurrence(t, "ற்ற");
    HeadAbsentNoOccurrence(t, "ன்ன");
  }

  lemma KandumWordsKept(isWord: char -> bool)
    ensures ModernizeWord("கண்டு", isWord) == "கண்டு"
    ensures ModernizeWord("உம்", isWord) == "உம்"
  {
    ModernizeWordUnchanged("கண்டு", isWord);
    ModernizeWordUnchanged("உம்", isWord);
  }
}
