/** `replace_old_tamil_words` (app.py): each whitespace word whose punctuation-
    stripped form is a key of the dictionary is replaced by the dictionary's
    value followed by the word's characters from index `len(stripped)` on; the
    words are joined again with single spaces. The dictionary is the parameter
    `m`. */
module Substitution {
  import opened Text

  /** The characters stripped before the lookup: `.,!?;:"()[]{}`. */
  predicate IsPunct(c: char) {
    c == '.' || c == ',' || c == '!' || c == '?' || c == ';' || c == ':' || c == '"'
    || c == '(' || c == ')' || c == '[' || c == ']' || c == '{' || c == '}'
  }

  /** Length of the run of punctuation at the front of `w`. */
  function LeadLen(w: string): (n: nat)
    ensures n <= |w|
    ensures forall i :: 0 <= i < n ==> IsPunct(w[i])
    ensures n < |w| ==> !IsPunct(w[n])
    decreases |w|
  {
    if w == [] || !IsPunct(w[0]) then 0 else 1 + LeadLen(w[1..])
  }

  /** Length of the run of punctuation at the back of `w`. */
  function TrailLen(w: string): (n: nat)
    ensures n <= |w|
    ensures forall i :: |w| - n <= i < |w| ==> IsPunct(w[i])
    ensures n < |w| ==> !IsPunct(w[|w| - 1 - n])
    decreases |w|
  {
    if w == [] || !IsPunct(w[|w| - 1]) then 0 else 1 + TrailLen(w[..|w| - 1])
  }

  /** `w.strip(PUNCTUATION)`. */
  function Strip(w: string): (c: string)
    ensures |c| <= |w|
  {
    var lead := LeadLen(w);
    if lead == |w| then [] else w[lead..|w| - TrailLen(w)]
  }

  /** When `w` is not all punctuation, its trailing run ends after its leading run. */
  lemma TrailStopsAfterLead(w: string)
    requires LeadLen(w) < |w|
    ensures LeadLen(w) + TrailLen(w) < |w|
  {
    var lead := LeadLen(w);
    assert !IsPunct(w[lead]);
  }

  /** `Strip(w)` is the infix of `w` left once the punctuation runs at both ends
      are removed: it sits right after the leading run, and only punctuation
      precedes and follows it. */
  lemma StripSpec(w: string)
    ensures var c := Strip(w);
      LeadLen(w) + |c| <= |w| && c == w[LeadLen(w)..LeadLen(w) + |c|]
      && (forall i :: 0 <= i < LeadLen(w) ==> IsPunct(w[i]))
      && (forall i :: LeadLen(w) + |c| <= i < |w| ==> IsPunct(w[i]))
  {
    if LeadLen(w) < |w| {
      TrailStopsAfterLead(w);
    }
  }

  /** Stripping is maximal: what is left is empty or neither starts nor ends
      with punctuation. */
  lemma StripEnds(w: string)
    ensures var c := Strip(w);
      c != [] ==> !IsPunct(c[0]) && !IsPunct(c[|c| - 1])
  {
    var lead := LeadLen(w);
    if lead < |w| {
      TrailStopsAfterLead(w);
      var trail := TrailLen(w);
      var c := Strip(w);
      assert c[0] == w[lead];
      assert c[|c| - 1] == w[|w| - 1 - trail];
    }
  }

  /** A word with no punctuation at its ends is its own stripped form, and so is
      that word followed by one punctuation character. */
  lemma StripTrailingMark(x: string, p: char)
    requires x != [] && !IsPunct(x[0]) && !IsPunct(x[|x| - 1])
    requires IsPunct(p)
    ensures Strip(x) == x
    ensures Strip(x + [p]) == x
  {
    var w := x + [p];
    assert w[0] == x[0];
    assert w[..|w| - 1] == x;
    assert TrailLen(w) == 1;
  }

  /** What the loop appends for one word. */
  function Piece(w: string, m: map<string, string>): string {
    var c := Strip(w);
    if c in m then m[c] + w[|c|..] else w
  }

  function Pieces(ws: seq<string>, m: map<string, string>): seq<string> {
    seq(|ws|, i requires 0 <= i < |ws| => Piece(ws[i], m))
  }

  /** What `replace_old_tamil_words(text)` returns. */
  function Replaced(text: string, m: map<string, string>): string {
    Join(Pieces(Split(text), m))
  }

  lemma PiecesSnoc(ws: seq<string>, k: nat, m: map<string, string>)
    requires k < |ws|
    ensures Pieces(ws[..k + 1], m) == Pieces(ws[..k], m) + [Piece(ws[k], m)]
  {
    var a, b := Pieces(ws[..k + 1], m), Pieces(ws[..k], m) + [Piece(ws[k], m)];
    assert |a| == |b|;
    forall i | 0 <= i < |a| ensures a[i] == b[i] {
      assert ws[..k + 1][i] == ws[i];
    }
  }

  /** `replace_old_tamil_words`: one piece per whitespace word, collected in a
      list and joined with single spaces. */
  method ReplaceOldTamilWords(text: string, m: map<string, string>) returns (result: string)
    ensures result == Replaced(text, m)
  {
    var words := Split(text);
    var replacedWords: seq<string> := [];
    for k := 0 to |words|
      invariant replacedWords == Pieces(words[..k], m)
    {
      var word := words[k];
      var cleanWord := Strip(word);
      var punctuation := word[|cleanWord|..];
      PiecesSnoc(words, k, m);
      if cleanWord in m {
        replacedWords := replacedWords + [m[cleanWord] + punctuation];
      } else {
        replacedWords := replacedWords + [word];
      }
    }
    assert words[..|words|] == words;
    result := Join(replacedWords);
  }

  // ---------------------------------------------------------------------------
  // properties

  /** Every dictionary value is a single whitespace word. */
  predicate TokenValues(m: map<string, string>) {
    forall c :: c in m ==> IsToken(m[c])
  }

  /** A word whose stripped form is not a key passes through verbatim; a word
      with no leading punctuation whose stripped form `c` is a key becomes the
      value of `c` followed by exactly the punctuation stripped from its end. */
  lemma PieceCases(w: string, m: map<string, string>)
    ensures Strip(w) !in m ==> Piece(w, m) == w
    ensures (w == [] || !IsPunct(w[0])) && Strip(w) in m ==>
      var c := Strip(w);
      w == c + w[|c|..] && Piece(w, m) == m[c] + w[|c|..]
      && (forall i :: |c| <= i < |w| ==> IsPunct(w[i]))
  {
    if w != [] && !IsPunct(w[0]) {
      assert LeadLen(w) == 0;
    }
  }

  /** The leading-punctuation quirk: `"(" + x + ")"`, with `x` a key that
      neither starts nor ends with punctuation, becomes the value of `x`
      followed by the LAST CHARACTER OF `x` and `")"`, because the appended tail
      starts at index `len(x)` of the whole word, not after `x`. The `"("` is
      dropped and the tail is not the trailing punctuation `")"`. */
  lemma LeadingPunctuationQuirk(x: string, m: map<string, string>)
    requires x != [] && !IsPunct(x[0]) && !IsPunct(x[|x| - 1])
    requires x in m
    ensures Strip("(" + x + ")") == x
    ensures Piece("(" + x + ")", m) == m[x] + [x[|x| - 1]] + ")"
    ensures Piece("(" + x + ")", m) != m[x] + ")"
  {
    var w := "(" + x + ")";
    assert IsPunct(w[0]) && IsPunct(w[|w| - 1]);
    assert w[1..] == x + ")";
    assert LeadLen(x + ")") == 0;
    assert LeadLen(w) == 1;
    assert w[..|w| - 1] == "(" + x;
    assert ("(" + x)[|"(" + x| - 1] == x[|x| - 1];
    assert TrailLen("(" + x) == 0;
    assert TrailLen(w) == 1;
    assert w[1..|w| - 1] == x;
    assert w[|x|..] == [x[|x| - 1]] + ")";
  }

  /** The same quirk on a one-character key, spelled out: `(அ)` becomes the
      value of `அ` followed by `அ)`. */
  lemma QuirkExample(m: map<string, string>)
    requires "அ" in m
    ensures Piece("(அ)", m) == m["அ"] + "அ)"
  {
    assert "(அ)" == "(" + "அ" + ")";
    assert !IsPunct('அ');
    LeadingPunctuationQuirk("அ", m);
  }

  /** With single-word dictionary values, every piece is a word: the output
      splits back into exactly one piece per input word, in order, and is
      joined by single spaces. */
  lemma ReplacedWordwise(text: string, m: map<string, string>)
    requires TokenValues(m)
    ensures Split(Replaced(text, m)) == Pieces(Split(text), m)
    ensures |Split(Replaced(text, m))| == |Split(text)|
    ensures SingleSpaced(Replaced(text, m))
  {
    var ws := Split(text);
    var ps := Pieces(ws, m);
    forall k | 0 <= k < |ps| ensures IsToken(ps[k]) {
      PieceToken(ws[k], m);
    }
    SplitJoin(ps);
    JoinSingleSpaced(ps);
  }

  lemma PieceToken(w: string, m: map<string, string>)
    requires IsToken(w) && TokenValues(m)
    ensures IsToken(Piece(w, m))
  {
    var c := Strip(w);
    if c in m {
      var r := m[c] + w[|c|..];
      forall i | 0 <= i < |r| ensures !IsSpace(r[i]) {
        if i < |m[c]| { assert r[i] == m[c][i]; } else { assert r[i] == w[i - |m[c]| + |c|]; }
      }
    }
  }

  /** Text already joined by single spaces in which no word's stripped form is a
      key comes back unchanged. */
  lemma UnmappedUnchanged(text: string, m: map<string, string>)
    requires SingleSpaced(text)
    requires forall k :: 0 <= k < |Split(text)| ==> Strip(Split(text)[k]) !in m
    ensures Replaced(text, m) == text
  {
    var ws := Split(text);
    assert Pieces(ws, m) == ws;
    JoinSplitOfSingleSpaced(text);
  }
}
