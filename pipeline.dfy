/** The pure part of `main` (app.py): for non-blank input, the text goes
    through `preprocess_classical_tamil` and then `replace_old_tamil_words`,
    each only when its option is on; the result counts as changed when it
    differs from the input; and, when word replacement is on and the text
    changed, a report lists `"c → mapping[c]"` for every distinct input word
    whose stripped form `c` is a dictionary key. The words are visited in set
    iteration order, which nothing fixes, so the report is specified up to
    order. */
module Pipeline {
  import opened Text
  import opened Preprocess
  import opened Substitution

  /** The two checkboxes: advanced preprocessing and modern word replacement. */
  datatype Options = Options(preprocess: bool, modernWords: bool)

  /** What `main` shows for one input text. */
  datatype Outcome =
    | Blank
    | Shown(processed: string, changed: bool, replacements: seq<string>)

  /** The text after the enabled stages, in their fixed order. */
  function Processed(text: string, opts: Options, isWord: char -> bool, m: map<string, string>): string {
    var afterPreprocess := if opts.preprocess then Preprocessed(text, isWord) else text;
    if opts.modernWords then Replaced(afterPreprocess, m) else afterPreprocess
  }

  /** One report entry: `f"{c} → {mapping[c]}"`. */
  function Line(c: string, v: string): string {
    c + " → " + v
  }

  /** The report entries for the words of `order`, visited in that order. */
  function ReportLines(order: seq<string>, m: map<string, string>): seq<string>
    decreases |order|
  {
    if order == [] then []
    else
      var w := order[|order| - 1];
      var c := Strip(w);
      ReportLines(order[..|order| - 1], m) + (if c in m then [Line(c, m[c])] else [])
  }

  /** `order` lists every element of `words` exactly once: one possible set
      iteration order. */
  ghost predicate IsEnumeration(order: seq<string>, words: set<string>) {
    (forall w :: w in order <==> w in words)
    && (forall i, j :: 0 <= i < j < |order| ==> order[i] != order[j])
  }

  function WordSet(text: string): set<string> {
    set w | w in Split(text)
  }

  /** The report loop: visits the distinct words of the original text in an
      order the method chooses, appending an entry for each one whose stripped
      form is a key. Whatever the order, the entries are those of every other
      enumeration of the same words, up to order. */
  method ReplacementsMade(text: string, m: map<string, string>) returns (lines: seq<string>, ghost order: seq<string>)
    ensures IsEnumeration(order, WordSet(text))
    ensures lines == ReportLines(order, m)
    ensures forall o :: IsEnumeration(o, WordSet(text)) ==>
      multiset(ReportLines(o, m)) == multiset(lines)
  {
    var originalWords := WordSet(text);
    var remaining := originalWords;
    lines := [];
    order := [];
    while remaining != {}
      invariant forall w :: w in order <==> w in originalWords && w !in remaining
      invariant remaining <= originalWords
      invariant forall i, j :: 0 <= i < j < |order| ==> order[i] != order[j]
      invariant lines == ReportLines(order, m)
      decreases remaining
    {
      var w :| w in remaining;
      var cleanOrig := Strip(w);
      if cleanOrig in m {
        lines := lines + [Line(cleanOrig, m[cleanOrig])];
      }
      assert (order + [w])[..|order|] == order;
      order := order + [w];
      remaining := remaining - {w};
    }
    forall o | IsEnumeration(o, originalWords)
      ensures multiset(ReportLines(o, m)) == multiset(lines)
    {
      EnumerationsArePermutations(o, order, originalWords);
      ReportOrderIrrelevant(o, order, m);
    }
  }

  /** `main` for one input text: blank input shows nothing; otherwise the
      processed text, whether it differs from the input, and the report, which
      is made only when word replacement is on and the text changed. */
  method HandleText(text: string, opts: Options, isWord: char -> bool, m: map<string, string>) returns (out: Outcome)
    ensures IsBlank(text) <==> out == Blank
    ensures out.Shown? ==> out.processed == Processed(text, opts, isWord, m)
    ensures out.Shown? ==> (out.changed <==> out.processed != text)
    ensures out.Shown? && !(opts.modernWords && out.changed) ==> out.replacements == []
    ensures out.Shown? && opts.modernWords && out.changed ==>
      forall o :: IsEnumeration(o, WordSet(text)) ==>
        multiset(ReportLines(o, m)) == multiset(out.replacements)
  {
    if IsBlank(text) {
      return Blank;
    }
    var processed := text;
    if opts.preprocess {
      processed := PreprocessClassicalTamil(processed, isWord);
    }
    if opts.modernWords {
      processed := ReplaceOldTamilWords(processed, m);
    }
    var changed := processed != text;
    var replacements: seq<string> := [];
    if changed && opts.modernWords {
      ghost var order;
      replacements, order := ReplacementsMade(text, m);
    }
    return Shown(processed, changed, replacements);
  }

  // ---------------------------------------------------------------------------
  // the report

  lemma {:induction false} ReportLinesConcat(a: seq<string>, b: seq<string>, m: map<string, string>)
    ensures ReportLines(a + b, m) == ReportLines(a, m) + ReportLines(b, m)
    decreases |b|
  {
    if b == [] {
      assert a + b == a;
    } else {
      var b' := b[..|b| - 1];
      assert (a + b)[..|a + b| - 1] == a + b';
      ReportLinesConcat(a, b', m);
    }
  }

  lemma ReportLinesSingle(w: string, m: map<string, string>)
    ensures ReportLines([w], m) == (if Strip(w) in m then [Line(Strip(w), m[Strip(w)])] else [])
  {
    assert [w][..0] == [];
  }

  lemma MultisetCancel(a: multiset<string>, b: multiset<string>, x: string)
    requires a + multiset{x} == b + multiset{x}
    ensures a == b
  {
    assert forall y :: a[y] == (a + multiset{x})[y] - (if y == x then 1 else 0);
    assert forall y :: b[y] == (b + multiset{x})[y] - (if y == x then 1 else 0);
  }

  /** Removing the word at index `k` removes it from the words and its entry, if
      any, from the report's entries. */
  lemma ReportRemoveAt(o: seq<string>, k: nat, m: map<string, string>)
    requires k < |o|
    ensures multiset(o) == multiset(o[..k] + o[k + 1..]) + multiset{o[k]}
    ensures multiset(ReportLines(o, m))
         == multiset(ReportLines(o[..k] + o[k + 1..], m)) + multiset(ReportLines([o[k]], m))
  {
    var a, x, b := o[..k], o[k], o[k + 1..];
    assert o == a + [x] + b;
    ReportLinesConcat(a + [x], b, m);
    ReportLinesConcat(a, [x], m);
    ReportLinesConcat(a, b, m);
  }

  /** The report's entries, up to order, do not depend on the order in which the
      words are visited. */
  lemma {:induction false} ReportOrderIrrelevant(o1: seq<string>, o2: seq<string>, m: map<string, string>)
    requires multiset(o1) == multiset(o2)
    ensures multiset(ReportLines(o1, m)) == multiset(ReportLines(o2, m))
    decreases |o1|
  {
    if o1 != [] {
      var n := |o1| - 1;
      var x := o1[n];
      assert x in multiset(o2) by {
        assert x in o1;
      }
      var k :| 0 <= k < |o2| && o2[k] == x;
      ReportRemoveAt(o1, n, m);
      ReportRemoveAt(o2, k, m);
      assert o1[..n] + o1[n + 1..] == o1[..n];
      MultisetCancel(multiset(o1[..n]), multiset(o2[..k] + o2[k + 1..]), x);
      ReportOrderIrrelevant(o1[..n], o2[..k] + o2[k + 1..], m);
    }
  }

  /** Two enumerations of the same set are permutations of each other. */
  lemma EnumerationsArePermutations(o1: seq<string>, o2: seq<string>, words: set<string>)
    requires IsEnumeration(o1, words) && IsEnumeration(o2, words)
    ensures multiset(o1) == multiset(o2)
  {
    DistinctMultiset(o1);
    DistinctMultiset(o2);
  }

  /** A sequence without repeats holds each of its elements once. */
  lemma {:induction false} DistinctMultiset(o: seq<string>)
    requires forall i, j :: 0 <= i < j < |o| ==> o[i] != o[j]
    ensures forall w :: multiset(o)[w] == if w in o then 1 else 0
    decreases |o|
  {
    if o != [] {
      var n := |o| - 1;
      assert o == o[..n] + [o[n]];
      DistinctMultiset(o[..n]);
      assert o[n] !in o[..n];
      forall w ensures multiset(o)[w] == if w in o then 1 else 0 {
        assert w in o <==> w in o[..n] || w == o[n];
      }
    }
  }

  /** The distinct words of `order` whose stripped form is a key. */
  ghost function KeyWords(order: seq<string>, m: map<string, string>): set<string> {
    set w | w in order && Strip(w) in m
  }

  lemma KeyWordsSnoc(prefix: seq<string>, x: string, m: map<string, string>)
    ensures KeyWords(prefix + [x], m) == KeyWords(prefix, m) + (if Strip(x) in m then {x} else {})
  {
    assert forall w :: w in prefix + [x] <==> w in prefix || w == x;
  }

  /** The report has one entry per distinct word whose stripped form is a key. */
  lemma {:induction false} ReportCount(order: seq<string>, m: map<string, string>)
    requires forall i, j :: 0 <= i < j < |order| ==> order[i] != order[j]
    ensures |ReportLines(order, m)| == |KeyWords(order, m)|
    decreases |order|
  {
    if order != [] {
      var n := |order| - 1;
      var x := order[n];
      var prefix := order[..n];
      ReportCount(prefix, m);
      assert order == prefix + [x];
      KeyWordsSnoc(prefix, x, m);
      assert x !in KeyWords(prefix, m);
    }
  }

  /** Every entry of the report comes from a word whose stripped form is a key,
      and every such word has its entry. */
  lemma {:induction false} ReportMembership(order: seq<string>, m: map<string, string>)
    ensures forall w :: w in order && Strip(w) in m ==> Line(Strip(w), m[Strip(w)]) in ReportLines(order, m)
    ensures forall l :: l in ReportLines(order, m) ==>
      exists w :: w in order && Strip(w) in m && l == Line(Strip(w), m[Strip(w)])
    decreases |order|
  {
    if order != [] {
      var n := |order| - 1;
      var x := order[n];
      var prefix := order[..n];
      ReportMembership(prefix, m);
      assert forall w :: w in order <==> w in prefix || w == x by {
        assert order == prefix + [x];
      }
    }
  }

  /** The distinct words of `order` whose entry is `l`. */
  ghost function Sources(order: seq<string>, m: map<string, string>, l: string): set<string> {
    set w | w in order && Strip(w) in m && Line(Strip(w), m[Strip(w)]) == l
  }

  lemma SourcesSnoc(prefix: seq<string>, x: string, m: map<string, string>, l: string)
    ensures Sources(prefix + [x], m, l)
         == Sources(prefix, m, l) + (if Strip(x) in m && Line(Strip(x), m[Strip(x)]) == l then {x} else {})
  {
    assert forall w :: w in prefix + [x] <==> w in prefix || w == x;
  }

  /** Each entry occurs in the report exactly as often as there are distinct
      words whose stripped form is a key and whose entry it is. */
  lemma {:induction false} ReportMultiplicity(order: seq<string>, m: map<string, string>, l: string)
    requires forall i, j :: 0 <= i < j < |order| ==> order[i] != order[j]
    ensures multiset(ReportLines(order, m))[l]
         == |set w | w in order && Strip(w) in m && Line(Strip(w), m[Strip(w)]) == l|
    decreases |order|
  {
    if order != [] {
      var n := |order| - 1;
      var x := order[n];
      var prefix := order[..n];
      ReportMultiplicity(prefix, m, l);
      assert order == prefix + [x];
      SourcesSnoc(prefix, x, m, l);
      assert x !in Sources(prefix, m, l);
    }
  }

  /** Two words that differ only in punctuation give the same entry twice: the
      report can hold repeats. */
  lemma ReportRepeats(m: map<string, string>)
    requires "அ" in m
    ensures ReportLines(["அ", "அ."], m) == [Line("அ", m["அ"]), Line("அ", m["அ"])]
  {
    StripTrailingMark("அ", '.');
    assert "அ" + ['.'] == "அ.";
    var o: seq<string> := ["அ", "அ."];
    assert o[..1] == ["அ"] && o[1] == "அ.";
    ReportLinesSingle("அ", m);
    assert ReportLines(o, m) == ReportLines(["அ"], m) + [Line("அ", m["அ"])];
  }

  // ---------------------------------------------------------------------------
  // the composition

  /** With both options off the text is shown as it was, unchanged; with
      preprocessing on, the result is joined by single spaces and, with
      single-word dictionary values, has as many words as the input plus one
      per sandhi replacement, whether or not word replacement follows. */
  lemma ProcessedShape(text: string, opts: Options, isWord: char -> bool, m: map<string, string>)
    ensures !opts.preprocess && !opts.modernWords ==> Processed(text, opts, isWord, m) == text
    ensures opts.preprocess && (!opts.modernWords || TokenValues(m)) ==>
      SingleSpaced(Processed(text, opts, isWord, m))
      && |Split(Processed(text, opts, isWord, m))| == |Split(text)| + SandhiReplacements(text)
    ensures opts.modernWords && TokenValues(m) ==>
      SingleSpaced(Processed(text, opts, isWord, m))
  {
    var afterPreprocess := if opts.preprocess then Preprocessed(text, isWord) else text;
    if opts.preprocess {
      PreprocessedShape(text, isWord);
    }
    if opts.modernWords && TokenValues(m) {
      ReplacedWordwise(afterPreprocess, m);
    }
  }
}
