/** The Python string primitives the rewriter is built from: whitespace as
    `str.isspace()` sees it, `str.split()` with no argument, `' '.join`, and
    the literal replace-all performed by `str.replace` and by `re.sub` when the
    pattern has no metacharacters. Strings are sequences of code points. */
module Text {

  /** Python's `str.isspace()`: the code points `str.split()` splits on. */
  predicate IsSpace(c: char) {
    c == ' ' || ('\t' <= c <= '\r') || ('\U{1C}' <= c <= '\U{1F}')
    || c == '\U{85}' || c == '\U{A0}' || c == '\U{1680}'
    || ('\U{2000}' <= c <= '\U{200A}') || c == '\U{2028}' || c == '\U{2029}'
    || c == '\U{202F}' || c == '\U{205F}' || c == '\U{3000}'
  }

  predicate NoSpace(s: string) {
    forall i :: 0 <= i < |s| ==> !IsSpace(s[i])
  }

  /** Empty, or whitespace only: what `s.strip() == ""` tests. */
  predicate IsBlank(s: string) {
    forall i :: 0 <= i < |s| ==> IsSpace(s[i])
  }

  /** A piece as `str.split()` yields it: non-empty and free of whitespace. */
  predicate IsToken(t: string) {
    t != [] && NoSpace(t)
  }

  predicate AllTokens(ts: seq<string>) {
    forall k :: 0 <= k < |ts| ==> IsToken(ts[k])
  }

  /** The non-whitespace characters of `s`, in order. */
  function NonSpace(s: string): string
    decreases |s|
  {
    if s == [] then [] else (if IsSpace(s[0]) then [] else [s[0]]) + NonSpace(s[1..])
  }

  function Concat(ts: seq<string>): string
    decreases |ts|
  {
    if ts == [] then [] else ts[0] + Concat(ts[1..])
  }

  /** Python's `s.split()`: the maximal whitespace-free runs of `s`, in order.
      Every piece is a token, and the first starts where `s` does when `s`
      starts with a non-whitespace character. */
  function Split(s: string): (ts: seq<string>)
    ensures AllTokens(ts)
    ensures s != [] && !IsSpace(s[0]) ==> ts != [] && ts[0][0] == s[0]
    decreases |s|
  {
    if s == [] then []
    else
      var rest := Split(s[1..]);
      if IsSpace(s[0]) then rest
      else if |s| > 1 && !IsSpace(s[1]) then [[s[0]] + rest[0]] + rest[1..]
      else [[s[0]]] + rest
  }

  /** Python's `' '.join(ts)`. */
  function Join(ts: seq<string>): string
    decreases |ts|
  {
    if ts == [] then [] else if |ts| == 1 then ts[0] else ts[0] + " " + Join(ts[1..])
  }

  /** What `' '.join(s.split())` produces: no leading or trailing whitespace,
      and every whitespace character is a single ' ' between two
      non-whitespace characters. */
  predicate SingleSpaced(s: string) {
    forall i :: 0 <= i < |s| && IsSpace(s[i]) ==>
      s[i] == ' ' && 0 < i < |s| - 1 && !IsSpace(s[i - 1]) && !IsSpace(s[i + 1])
  }

  // ---------------------------------------------------------------------------
  // split and join

  /** The pieces of `s.split()` hold exactly the non-whitespace characters of `s`, in order. */
  lemma {:induction false} SplitKeepsContent(s: string)
    ensures Concat(Split(s)) == NonSpace(s)
    decreases |s|
  {
    if s != [] {
      var rest := Split(s[1..]);
      SplitKeepsContent(s[1..]);
      if !IsSpace(s[0]) {
        if |s| > 1 && !IsSpace(s[1]) {
          var ts := [[s[0]] + rest[0]] + rest[1..];
          assert ts[1..] == rest[1..];
          assert Concat(rest) == rest[0] + Concat(rest[1..]);
        } else {
          var ts := [[s[0]]] + rest;
          assert ts[1..] == rest;
        }
      }
    }
  }

  /** Prepending one character adds a piece exactly when it starts one. */
  lemma SplitConsCount(c: char, z: string)
    ensures |Split([c] + z)| == |Split(z)| + (if !IsSpace(c) && (z == [] || IsSpace(z[0])) then 1 else 0)
  {
    assert ([c] + z)[1..] == z;
  }

  lemma SplitHeadCount(s: string)
    requires s != []
    ensures |Split(s)| == |Split(s[1..])| + (if !IsSpace(s[0]) && (|s| == 1 || IsSpace(s[1])) then 1 else 0)
  {
  }

  /** Concatenation adds the piece counts, less one when a piece straddles the seam. */
  lemma {:induction false} SplitConcatCount(x: string, y: string)
    ensures |Split(x + y)| == |Split(x)| + |Split(y)|
      - (if x != [] && y != [] && !IsSpace(x[|x| - 1]) && !IsSpace(y[0]) then 1 else 0)
    decreases |x|
  {
    if x != [] {
      var c, x' := x[0], x[1..];
      assert x + y == [c] + (x' + y);
      assert x == [c] + x';
      SplitConsCount(c, x' + y);
      SplitConsCount(c, x');
      if x' == [] {
        assert x' + y == y;
        assert x[|x| - 1] == c;
      } else {
        SplitConcatCount(x', y);
        assert (x' + y)[0] == x'[0];
        assert x[|x| - 1] == x'[|x'| - 1];
      }
    } else {
      assert x + y == y;
    }
  }

  /** Cutting `s` at `k` splits its pieces, less one when a piece straddles the cut. */
  lemma SplitAt(s: string, k: nat)
    requires k <= |s|
    ensures |Split(s)| == |Split(s[..k])| + |Split(s[k..])|
      - (if 0 < k < |s| && !IsSpace(s[k - 1]) && !IsSpace(s[k]) then 1 else 0)
  {
    assert s[..k] + s[k..] == s;
    SplitConcatCount(s[..k], s[k..]);
  }

  /** A token followed by nothing or by whitespace is a piece of its own. */
  lemma {:induction false} SplitTokenThen(t: string, y: string)
    requires IsToken(t)
    requires y == [] || IsSpace(y[0])
    ensures Split(t + y) == [t] + Split(y)
    decreases |t|
  {
    var s := t + y;
    assert s[1..] == t[1..] + y;
    if |t| > 1 {
      SplitTokenThen(t[1..], y);
      assert s[1] == t[1];
      assert [s[0]] + t[1..] == t;
    } else {
      assert t == [s[0]];
    }
  }

  lemma SplitOfToken(t: string)
    requires IsToken(t)
    ensures Split(t) == [t]
  {
    SplitTokenThen(t, []);
    assert t + [] == t;
  }

  /** Python: `' '.join(ts).split() == ts` whenever every element of `ts` is a token. */
  lemma {:induction false} SplitJoin(ts: seq<string>)
    requires AllTokens(ts)
    ensures Split(Join(ts)) == ts
    decreases |ts|
  {
    if |ts| == 1 {
      SplitTokenThen(ts[0], []);
      assert ts[0] + [] == ts[0];
    } else if |ts| > 1 {
      var tail := Join(ts[1..]);
      SplitJoin(ts[1..]);
      assert ts[0] + " " + tail == ts[0] + (" " + tail);
      SplitTokenThen(ts[0], " " + tail);
      assert (" " + tail)[1..] == tail;
      assert ts == [ts[0]] + ts[1..];
    }
  }

  /** `s.split()` is empty exactly when `s` is blank. */
  lemma {:induction false} SplitEmptyIffBlank(s: string)
    ensures Split(s) == [] <==> IsBlank(s)
    decreases |s|
  {
    if s != [] {
      SplitEmptyIffBlank(s[1..]);
      if IsBlank(s) {
        assert IsBlank(s[1..]) by {
          forall i | 0 <= i < |s[1..]| ensures IsSpace(s[1..][i]) { assert s[1..][i] == s[i + 1]; }
        }
      } else if IsSpace(s[0]) {
        assert !IsBlank(s[1..]) by {
          var i :| 0 <= i < |s| && !IsSpace(s[i]);
          assert s[1..][i - 1] == s[i];
        }
      }
    }
  }

  /** A join of tokens is non-empty exactly when there are tokens, and it
      starts with the first token's first character and ends with the last
      token's last character. */
  lemma {:induction false} JoinEnds(ts: seq<string>)
    requires AllTokens(ts)
    ensures Join(ts) == [] <==> ts == []
    ensures ts != [] ==> Join(ts)[0] == ts[0][0]
    ensures ts != [] ==> Join(ts)[|Join(ts)| - 1] == ts[|ts| - 1][|ts[|ts| - 1]| - 1]
    decreases |ts|
  {
    if |ts| > 1 {
      JoinEnds(ts[1..]);
    }
  }

  /** `' '.join` of tokens is single-spaced. */
  lemma {:induction false} JoinSingleSpaced(ts: seq<string>)
    requires AllTokens(ts)
    ensures SingleSpaced(Join(ts))
    decreases |ts|
  {
    if |ts| == 1 {
      assert IsToken(ts[0]);
    } else if |ts| > 1 {
      var t := ts[0];
      var tail := Join(ts[1..]);
      JoinSingleSpaced(ts[1..]);
      JoinEnds(ts[1..]);
      assert IsToken(t);
      var s := t + " " + tail;
      assert forall i :: 0 <= i < |t| ==> s[i] == t[i];
      forall i | 0 <= i < |s| && IsSpace(s[i])
        ensures s[i] == ' ' && 0 < i < |s| - 1 && !IsSpace(s[i - 1]) && !IsSpace(s[i + 1])
      {
        if i == |t| {
          assert s[i - 1] == t[|t| - 1];
          assert s[i + 1] == tail[0];
        } else if i > |t| {
          var j := i - |t| - 1;
          assert s[i] == tail[j];
          if j > 0 { assert s[i - 1] == tail[j - 1]; }
          assert s[i + 1] == tail[j + 1];
        }
      }
    }
  }

  /** Index of the first whitespace character of `s`, or `|s|` if none. */
  function FirstSpace(s: string): (k: nat)
    ensures k <= |s|
    ensures NoSpace(s[..k])
    ensures k < |s| ==> IsSpace(s[k])
    decreases |s|
  {
    if s == [] then 0
    else if IsSpace(s[0]) then 0
    else
      var k := 1 + FirstSpace(s[1..]);
      assert forall i :: 0 < i < k ==> s[..k][i] == s[1..][..k - 1][i - 1];
      k
  }

  /** What follows the first whitespace character of a single-spaced string is single-spaced. */
  lemma SingleSpacedAfter(s: string, k: nat)
    requires SingleSpaced(s)
    requires k < |s| && IsSpace(s[k])
    ensures SingleSpaced(s[k + 1..])
  {
    var rest := s[k + 1..];
    forall i | 0 <= i < |rest| && IsSpace(rest[i])
      ensures rest[i] == ' ' && 0 < i < |rest| - 1 && !IsSpace(rest[i - 1]) && !IsSpace(rest[i + 1])
    {
      assert rest[i] == s[k + 1 + i];
      if i > 0 { assert rest[i - 1] == s[k + i]; }
      if i + 1 < |rest| { assert rest[i + 1] == s[k + 2 + i]; }
    }
  }

  /** A token ended by whitespace is the first piece; the rest is split after the whitespace. */
  lemma SplitAtSpace(s: string, k: nat)
    requires k < |s| && IsSpace(s[k])
    requires IsToken(s[..k])
    ensures Split(s) == [s[..k]] + Split(s[k + 1..])
  {
    assert s == s[..k] + s[k..];
    SplitTokenThen(s[..k], s[k..]);
    assert s[k..][1..] == s[k + 1..];
  }

  lemma {:induction false} JoinSplitOfSingleSpaced(s: string)
    requires SingleSpaced(s)
    ensures Join(Split(s)) == s
    decreases |s|
  {
    if s != [] {
      var k := FirstSpace(s);
      assert IsToken(s[..k]) by {
        assert !IsSpace(s[0]);
      }
      if k == |s| {
        assert s[..k] == s;
        SplitOfToken(s);
      } else {
        SingleSpacedAfter(s, k);
        JoinSplitOfSingleSpaced(s[k + 1..]);
        JoinSplitStep(s, k);
      }
    }
  }

  /** The step of `JoinSplitOfSingleSpaced`: a single-spaced string is its first
      word, one space, and a rest that already joins back from its split. */
  lemma JoinSplitStep(s: string, k: nat)
    requires SingleSpaced(s)
    requires k < |s| && IsSpace(s[k]) && IsToken(s[..k])
    requires Join(Split(s[k + 1..])) == s[k + 1..]
    ensures Join(Split(s)) == s
  {
    var t, rest := s[..k], s[k + 1..];
    assert k < |s| - 1 && !IsSpace(s[k + 1]);
    SplitAtSpace(s, k);
    assert Split(rest) != [] by { assert rest[0] == s[k + 1]; }
    assert s == t + " " + rest by { assert s[k] == ' '; }
  }

  /** A string is single-spaced exactly when `' '.join(s.split())` gives it back. */
  lemma SingleSpacedIffJoinSplit(s: string)
    ensures SingleSpaced(s) <==> Join(Split(s)) == s
  {
    if SingleSpaced(s) {
      JoinSplitOfSingleSpaced(s);
    }
    if Join(Split(s)) == s {
      JoinSingleSpaced(Split(s));
    }
  }

  /** Leading whitespace contributes no piece. */
  lemma {:induction false} SplitSkipsBlankPrefix(s: string, k: nat)
    requires k <= |s| && IsBlank(s[..k])
    ensures Split(s) == Split(s[k..])
    decreases k
  {
    if k > 0 {
      assert IsSpace(s[..k][0]);
      var t := s[1..];
      assert IsBlank(t[..k - 1]) by {
        forall i | 0 <= i < k - 1 ensures IsSpace(t[i]) {
          assert t[i] == s[..k][i + 1];
        }
      }
      SplitSkipsBlankPrefix(t, k - 1);
      assert t[k - 1..] == s[k..];
    }
  }

  /** A string starting with a non-whitespace character: its first piece is
      its maximal whitespace-free prefix, and the rest is split after it. */
  lemma SplitFirstRun(u: string)
    requires u != [] && !IsSpace(u[0])
    ensures var f := FirstSpace(u);
      Split(u) == [u[..f]] + Split(u[f..])
  {
    var f := FirstSpace(u);
    assert IsToken(u[..f]);
    if f == |u| {
      assert u[..f] == u;
      SplitOfToken(u);
    } else {
      SplitAtSpace(u, f);
      assert u[f..][1..] == u[f + 1..];
    }
  }

  /** `str.split()` piece by piece: after the leading whitespace `s[..k]`, the
      first piece is the maximal whitespace-free run `u[..f]` of `u == s[k..]`,
      which ends at the end of `s` or at whitespace, and the other pieces are
      the split of what follows it. With `SplitEmptyIffBlank` this determines
      every piece: consecutive pieces were separated by whitespace in `s`, and
      no piece can be extended. */
  lemma SplitMaximalRun(s: string, k: nat)
    requires k < |s| && IsBlank(s[..k]) && !IsSpace(s[k])
    ensures var u := s[k..]; var f := FirstSpace(u);
      0 < f && (f == |u| || IsSpace(u[f]))
      && Split(s) == [u[..f]] + Split(u[f..])
  {
    SplitSkipsBlankPrefix(s, k);
    assert s[k..][0] == s[k];
    SplitFirstRun(s[k..]);
  }

  // ---------------------------------------------------------------------------
  // literal replace-all

  lemma MulSucc(n: int, d: int)
    ensures (1 + n) * d == d + n * d
  {
  }

  /** Number of non-overlapping occurrences of `pat` found scanning left to right. */
  function Occurrences(s: string, pat: string): nat
    requires pat != []
    decreases |s|
  {
    if |s| < |pat| then 0
    else if s[..|pat|] == pat then 1 + Occurrences(s[|pat|..], pat)
    else Occurrences(s[1..], pat)
  }

  /** `s.replace(pat, rep)`, equally `re.sub(pat, rep, s)` for a pattern with no
      metacharacters: every non-overlapping occurrence of `pat`, found scanning
      left to right, is replaced by `rep`. */
  function ReplaceAll(s: string, pat: string, rep: string): string
    requires pat != []
    decreases |s|
  {
    if |s| < |pat| then s
    else if s[..|pat|] == pat then rep + ReplaceAll(s[|pat|..], pat, rep)
    else [s[0]] + ReplaceAll(s[1..], pat, rep)
  }

  /** Each replacement changes the length by `|rep| - |pat|`. */
  lemma {:induction false} ReplaceAllLength(s: string, pat: string, rep: string)
    requires pat != []
    ensures |ReplaceAll(s, pat, rep)| == |s| + Occurrences(s, pat) * (|rep| - |pat|)
    decreases |s|
  {
    if |s| >= |pat| {
      if s[..|pat|] == pat {
        ReplaceAllLength(s[|pat|..], pat, rep);
        MulSucc(Occurrences(s[|pat|..], pat), |rep| - |pat|);
      } else {
        ReplaceAllLength(s[1..], pat, rep);
      }
    }
  }

  /** Replacing a pattern by itself changes nothing. */
  lemma {:induction false} ReplaceAllSelf(s: string, pat: string)
    requires pat != []
    ensures ReplaceAll(s, pat, pat) == s
    decreases |s|
  {
    if |s| >= |pat| {
      if s[..|pat|] == pat {
        ReplaceAllSelf(s[|pat|..], pat);
        assert s == s[..|pat|] + s[|pat|..];
      } else {
        ReplaceAllSelf(s[1..], pat);
        assert s == [s[0]] + s[1..];
      }
    }
  }

  /** Without an occurrence of the pattern the text passes through unchanged. */
  lemma {:induction false} ReplaceAllNoOccurrence(s: string, pat: string, rep: string)
    requires pat != []
    requires Occurrences(s, pat) == 0
    ensures ReplaceAll(s, pat, rep) == s
    decreases |s|
  {
    if |s| >= |pat| {
      ReplaceAllNoOccurrence(s[1..], pat, rep);
      assert s == [s[0]] + s[1..];
    }
  }

  /** A pattern whose first character appears nowhere in `s` does not occur in `s`. */
  lemma {:induction false} HeadAbsentNoOccurrence(s: string, pat: string)
    requires pat != []
    requires forall i :: 0 <= i < |s| ==> s[i] != pat[0]
    ensures Occurrences(s, pat) == 0
    decreases |s|
  {
    if |s| >= |pat| {
      assert s[..|pat|][0] == s[0];
      assert forall i :: 0 <= i < |s[1..]| ==> s[1..][i] == s[i + 1];
      HeadAbsentNoOccurrence(s[1..], pat);
    }
  }

  /** Replacing a whole string by `rep` gives `rep`. */
  lemma ReplaceAllWhole(s: string, rep: string)
    requires s != []
    ensures ReplaceAll(s, s, rep) == rep
  {
    assert s[..|s|] == s;
    assert s[|s|..] == [];
  }

  /** A pattern that starts with a non-whitespace character never occurs in blank text. */
  lemma BlankHasNoOccurrence(s: string, pat: string)
    requires pat != [] && !IsSpace(pat[0])
    requires IsBlank(s)
    ensures Occurrences(s, pat) == 0
  {
    HeadAbsentNoOccurrence(s, pat);
  }

  function CountSpaces(s: string): nat
    decreases |s|
  {
    if s == [] then 0 else (if IsSpace(s[0]) then 1 else 0) + CountSpaces(s[1..])
  }

  lemma {:induction false} CountSpacesConcat(a: string, b: string)
    ensures CountSpaces(a + b) == CountSpaces(a) + CountSpaces(b)
    decreases |a|
  {
    if a != [] {
      assert (a + b)[1..] == a[1..] + b;
      assert (a + b)[0] == a[0];
      CountSpacesConcat(a[1..], b);
    } else {
      assert a + b == b;
    }
  }

  /** Every replacement adds the whitespace of `rep` and removes that of `pat`. */
  lemma {:induction false} ReplaceAllCountSpaces(s: string, pat: string, rep: string)
    requires pat != []
    ensures CountSpaces(ReplaceAll(s, pat, rep))
         == CountSpaces(s) + Occurrences(s, pat) * (CountSpaces(rep) - CountSpaces(pat))
    decreases |s|
  {
    if |s| >= |pat| {
      if s[..|pat|] == pat {
        var u := s[|pat|..];
        ReplaceAllCountSpaces(u, pat, rep);
        CountSpacesConcat(rep, ReplaceAll(u, pat, rep));
        assert s == pat + u;
        CountSpacesConcat(pat, u);
        MulSucc(Occurrences(u, pat), CountSpaces(rep) - CountSpaces(pat));
      } else {
        ReplaceAllCountSpaces(s[1..], pat, rep);
        assert ([s[0]] + ReplaceAll(s[1..], pat, rep))[1..] == ReplaceAll(s[1..], pat, rep);
      }
    }
  }

  /** A replacement holding one whitespace character more than its pattern
      adds one whitespace character per replacement. */
  lemma ReplaceAllAddsSpaces(s: string, pat: string, rep: string)
    requires pat != []
    requires CountSpaces(rep) == CountSpaces(pat) + 1
    ensures CountSpaces(ReplaceAll(s, pat, rep)) == CountSpaces(s) + Occurrences(s, pat)
  {
    ReplaceAllCountSpaces(s, pat, rep);
    var n, d := Occurrences(s, pat), CountSpaces(rep) - CountSpaces(pat);
    assert n * d == n;
  }

  /** With `pat` and `rep` both starting with a non-whitespace character, the
      replacement is empty exactly when the text is, and starts with whitespace
      exactly when the text does. */
  lemma ReplaceAllFront(s: string, pat: string, rep: string)
    requires pat != [] && !IsSpace(pat[0])
    requires rep != [] && !IsSpace(rep[0])
    ensures ReplaceAll(s, pat, rep) == [] <==> s == []
    ensures s != [] ==> (IsSpace(ReplaceAll(s, pat, rep)[0]) <==> IsSpace(s[0]))
  {
    if |s| >= |pat| && s[..|pat|] == pat {
      assert s[0] == pat[0];
    }
  }

  /** A text that starts with the token `t` has one piece more than what follows
      `t`, unless that rest starts with a piece `t` runs into. */
  lemma SplitAfterToken(s: string, t: string)
    requires IsToken(t)
    requires |s| >= |t| && s[..|t|] == t
    ensures |Split(s)| == 1 + |Split(s[|t|..])| - (if |s| > |t| && !IsSpace(s[|t|]) then 1 else 0)
  {
    var u := s[|t|..];
    assert s == t + u;
    SplitOfToken(t);
    SplitConcatCount(t, u);
  }

  /** One replacement step of `ReplaceAllSplitCount`: `s` starts with `pat`. */
  lemma SplitCountMatchStep(s: string, pat: string, rep: string)
    requires IsToken(pat)
    requires rep != [] && !IsSpace(rep[0]) && !IsSpace(rep[|rep| - 1])
    requires |s| >= |pat| && s[..|pat|] == pat
    requires |Split(rep)| == 1 || |Split(rep)| == 2
    requires |Split(ReplaceAll(s[|pat|..], pat, rep))|
          == |Split(s[|pat|..])| + (if |Split(rep)| == 1 then 0 else Occurrences(s[|pat|..], pat))
    ensures |Split(ReplaceAll(s, pat, rep))|
         == |Split(s)| + (if |Split(rep)| == 1 then 0 else Occurrences(s, pat))
  {
    var u := s[|pat|..];
    var ru := ReplaceAll(u, pat, rep);
    var b := if u != [] && !IsSpace(u[0]) then 1 else 0;
    assert Occurrences(s, pat) == 1 + Occurrences(u, pat);
    SplitAfterToken(s, pat);
    assert |Split(ReplaceAll(s, pat, rep))| == |Split(rep)| + |Split(ru)| - b by {
      assert ReplaceAll(s, pat, rep) == rep + ru;
      ReplaceAllFront(u, pat, rep);
      SplitConcatCount(rep, ru);
    }
  }

  /** One kept-character step of `ReplaceAllSplitCount`: `s` does not start with `pat`. */
  lemma SplitCountKeepStep(s: string, pat: string, rep: string)
    requires IsToken(pat)
    requires rep != [] && !IsSpace(rep[0])
    requires |s| >= |pat| && s[..|pat|] != pat
    requires |Split(ReplaceAll(s[1..], pat, rep))|
          == |Split(s[1..])| + (if |Split(rep)| == 1 then 0 else Occurrences(s[1..], pat))
    ensures |Split(ReplaceAll(s, pat, rep))|
         == |Split(s)| + (if |Split(rep)| == 1 then 0 else Occurrences(s, pat))
  {
    var s' := s[1..];
    var rs := ReplaceAll(s', pat, rep);
    ReplaceAllFront(s', pat, rep);
    var b := if !IsSpace(s[0]) && (s' == [] || IsSpace(s'[0])) then 1 else 0;
    assert |Split(s)| == |Split(s')| + b by {
      SplitHeadCount(s);
      if |s| > 1 { assert s'[0] == s[1]; }
    }
    assert |Split(ReplaceAll(s, pat, rep))| == |Split(rs)| + b by {
      assert ReplaceAll(s, pat, rep) == [s[0]] + rs;
      SplitConsCount(s[0], rs);
    }
    assert Occurrences(s, pat) == Occurrences(s', pat);
  }

  /** Let `pat` be a token and `rep` one or two tokens (joined by whitespace).
      Replacing `pat` by `rep` throughout `s` leaves the number of pieces of
      `s.split()` unchanged when `rep` is one token, and adds one piece per
      replacement when it is two. */
  lemma {:induction false} ReplaceAllSplitCount(s: string, pat: string, rep: string)
    requires IsToken(pat)
    requires rep != [] && !IsSpace(rep[0]) && !IsSpace(rep[|rep| - 1])
    requires |Split(rep)| == 1 || |Split(rep)| == 2
    ensures |Split(ReplaceAll(s, pat, rep))|
         == |Split(s)| + (if |Split(rep)| == 1 then 0 else Occurrences(s, pat))
    decreases |s|
  {
    if |s| >= |pat| {
      if s[..|pat|] == pat {
        ReplaceAllSplitCount(s[|pat|..], pat, rep);
        SplitCountMatchStep(s, pat, rep);
      } else {
        ReplaceAllSplitCount(s[1..], pat, rep);
        SplitCountKeepStep(s, pat, rep);
      }
    }
  }

  // ---------------------------------------------------------------------------
  // adjacent pairs

  /** No `x` in `s` is immediately followed by `y`. */
  predicate NoPair(s: string, x: char, y: char) {
    forall i :: 0 <= i < |s| - 1 ==> !(s[i] == x && s[i + 1] == y)
  }

  lemma NoPairConcat(a: string, b: string, x: char, y: char)
    requires NoPair(a, x, y) && NoPair(b, x, y)
    requires a == [] || b == [] || !(a[|a| - 1] == x && b[0] == y)
    ensures NoPair(a + b, x, y)
  {
    var s := a + b;
    forall i | 0 <= i < |s| - 1 ensures !(s[i] == x && s[i + 1] == y) {
      if i + 1 < |a| {
        assert s[i] == a[i] && s[i + 1] == a[i + 1];
      } else if i + 1 == |a| {
        assert s[i] == a[|a| - 1] && s[i + 1] == b[0];
      } else {
        assert s[i] == b[i - |a|] && s[i + 1] == b[i - |a| + 1];
      }
    }
  }

  lemma NoPairTail(s: string, x: char, y: char)
    requires NoPair(s, x, y)
    requires s != []
    ensures NoPair(s[1..], x, y)
  {
    forall i | 0 <= i < |s[1..]| - 1 ensures !(s[1..][i] == x && s[1..][i + 1] == y) {
      assert s[1..][i] == s[i + 1] && s[1..][i + 1] == s[i + 2];
    }
  }

  /** Replacing the two-character pattern `xy` by a non-empty `rep` that does not
      start with `y`, does not end with `x` and holds no `xy` leaves no `xy`
      behind; the same replacement of any other pattern keeps `xy` out of a
      text that had none. The result begins with `y` only if the text did. */
  lemma {:induction false} ReplaceAllNoPair(s: string, pat: string, rep: string, x: char, y: char)
    requires pat != []
    requires pat == [x, y] || NoPair(s, x, y)
    requires rep != [] && rep[0] != y && rep[|rep| - 1] != x && NoPair(rep, x, y)
    ensures NoPair(ReplaceAll(s, pat, rep), x, y)
    ensures ReplaceAll(s, pat, rep) != [] && ReplaceAll(s, pat, rep)[0] == y ==> s != [] && s[0] == y
    decreases |s|
  {
    var r := ReplaceAll(s, pat, rep);
    if |s| >= |pat| {
      if s[..|pat|] == pat {
        var u := s[|pat|..];
        if pat != [x, y] {
          assert u == s[|pat|..];
          forall i | 0 <= i < |u| - 1 ensures !(u[i] == x && u[i + 1] == y) {
            assert u[i] == s[|pat| + i] && u[i + 1] == s[|pat| + i + 1];
          }
        }
        ReplaceAllNoPair(u, pat, rep, x, y);
        NoPairConcat(rep, ReplaceAll(u, pat, rep), x, y);
      } else {
        var s' := s[1..];
        if pat != [x, y] { NoPairTail(s, x, y); }
        ReplaceAllNoPair(s', pat, rep, x, y);
        var rs := ReplaceAll(s', pat, rep);
        if s[0] == x && |s| > 1 {
          assert s[1] != y by {
            if pat == [x, y] { assert s[..|pat|] == [s[0], s[1]]; }
          }
          assert s'[0] == s[1];
        }
        NoPairConcat([s[0]], rs, x, y);
      }
    }
  }
}
