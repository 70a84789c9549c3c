/** The normaliser `Tokenizer.tokenize` of scripts/MoveData.py: lower-casing,
    the optional "+++" framing, contraction expansion, cleanup of a fixed
    character class, isolation of punctuation runs, whitespace splitting and
    apostrophe stripping. */
module Tokenizer {
  import opened Strings

  /** The outcome of `tokenize`: a token list, or the `IndexError` raised when
      the input holds exactly one "+++" (the list of middle segments is empty
      and its element 0 is taken). */
  datatype Outcome = Tokens(tokens: seq<string>) | IndexError

  const Delimiter: string := "+++"

  /** The characters that the cleanup pass turns into spaces. */
  const CleanupClass: set<char> := {
    '*', '"', '\U{201C}', '\U{201D}', '\n', '\\', '\U{2026}', '+', '-', '/', '=',
    '(', ')', '\U{2018}', '\U{2022}', ':', '[', ']', '|', '\U{2019}', ';'
  }

  /** The characters whose runs are isolated as tokens of their own. */
  const PunctuationMarks: set<char> := {'.', '!', ',', '?', '$', '#'}

  // ---------------------------------------------------------------- the passes

  /** One `re.sub` of a literal pattern. */
  datatype Rewrite = Rewrite(pat: string, rep: string)

  /** The contraction rewrites, in the order the source applies them ("'re"
      appears twice). */
  const Contractions: seq<Rewrite> := [
    Rewrite("i'm", "i am"), Rewrite("he's", "he is"), Rewrite("she's", "she is"),
    Rewrite("it's", "it is"), Rewrite("that's", "that is"), Rewrite("what's", "what is"),
    Rewrite("where's", "where is"), Rewrite("how's", "how is"), Rewrite("'ll", " will"),
    Rewrite("'ve", " have"), Rewrite("'re", " are"), Rewrite("'d", " would"),
    Rewrite("'re", " are"), Rewrite("won't", "will not"), Rewrite("can't", "cannot"),
    Rewrite("n't", " not"), Rewrite("n'", "ng"), Rewrite("'bout", "about"),
    Rewrite("'til", "until")
  ]

  predicate ValidRewrites(rules: seq<Rewrite>) {
    forall k :: 0 <= k < |rules| ==> rules[k].pat != []
  }

  /** Applies the rewrites one after the other, each to the whole string. */
  function ApplyRewrites(s: string, rules: seq<Rewrite>): string
    requires ValidRewrites(rules)
    decreases |rules|
  {
    if rules == [] then s
    else ApplyRewrites(ReplaceAll(s, rules[0].pat, rules[0].rep), rules[1..])
  }

  /** Rewrites that find nothing to replace can be passed over. */
  lemma {:induction false} ApplyRewritesSkip(s: string, rules: seq<Rewrite>, n: nat)
    requires ValidRewrites(rules) && n <= |rules|
    requires forall k :: 0 <= k < n ==> ReplaceAll(s, rules[k].pat, rules[k].rep) == s
    ensures ApplyRewrites(s, rules) == ApplyRewrites(s, rules[n..])
    decreases n
  {
    if n > 0 {
      assert ReplaceAll(s, rules[0].pat, rules[0].rep) == s;
      assert rules[1..][n - 1..] == rules[n..];
      ApplyRewritesSkip(s, rules[1..], n - 1);
    }
  }

  /** Rules whose pattern holds a character the string lacks are passed
      over; `absent[k]` names that character for rule `k`, and `bad` gathers
      the characters the string avoids. */
  lemma ApplyRewritesAbsent(s: string, rules: seq<Rewrite>, absent: string, bad: set<char>)
    requires ValidRewrites(rules) && |absent| <= |rules| && Avoids(s, bad)
    requires forall k :: 0 <= k < |absent| ==> absent[k] in rules[k].pat && absent[k] in bad
    ensures ApplyRewrites(s, rules) == ApplyRewrites(s, rules[|absent|..])
  {
    forall k | 0 <= k < |absent| ensures ReplaceAll(s, rules[k].pat, rules[k].rep) == s {
      AvoidsLacks(s, bad, absent[k]);
      ReplaceAllMissing(s, rules[k].pat, rules[k].rep, absent[k]);
    }
    ApplyRewritesSkip(s, rules, |absent|);
  }

  /** The first rule is applied to the whole string, then the rest. */
  lemma ApplyRewritesFirst(s: string, rules: seq<Rewrite>)
    requires ValidRewrites(rules) && rules != []
    ensures ApplyRewrites(s, rules)
         == ApplyRewrites(ReplaceAll(s, rules[0].pat, rules[0].rep), rules[1..])
  {
  }

  /** A rule that finds nothing to replace can be passed over. */
  lemma ApplyRewritesPass(s: string, rules: seq<Rewrite>, n: nat)
    requires ValidRewrites(rules) && n < |rules|
    requires ReplaceAll(s, rules[n].pat, rules[n].rep) == s
    ensures ValidRewrites(rules[n..]) && ValidRewrites(rules[n + 1..])
    ensures ApplyRewrites(s, rules[n..]) == ApplyRewrites(s, rules[n + 1..])
  {
    ApplyRewritesFirst(s, rules[n..]);
    assert rules[n..][1..] == rules[n + 1..];
  }

  lemma ContractionsValid()
    ensures ValidRewrites(Contractions)
    ensures forall i :: 0 <= i <= |Contractions| ==> ValidRewrites(Contractions[i..])
    ensures forall k :: 0 <= k < |Contractions| ==> '\'' in Contractions[k].pat
    ensures forall k :: 0 <= k < |Contractions| ==> ' ' !in Contractions[k].pat
  {
    ContractionsApostrophe();
    ContractionsNoSpace();
  }

  lemma ContractionsApostrophe()
    ensures forall k :: 0 <= k < |Contractions| ==> '\'' in Contractions[k].pat
  {
  }

  lemma ContractionsNoSpace()
    ensures forall k :: 0 <= k < |Contractions| ==> ' ' !in Contractions[k].pat
  {
  }

  function ExpandContractions(s: string): string {
    ContractionsValid();
    ApplyRewrites(s, Contractions)
  }

  /** No pattern holds a space, so text cut before a space is rewritten
      side by side. */
  lemma {:induction false} ApplyRewritesSplit(a: string, b: string, rules: seq<Rewrite>)
    requires ValidRewrites(rules) && forall k :: 0 <= k < |rules| ==> ' ' !in rules[k].pat
    requires b != [] && b[0] == ' '
    ensures ApplyRewrites(a + b, rules) == ApplyRewrites(a, rules) + ApplyRewrites(b, rules)
    decreases |rules|
  {
    if rules != [] {
      var r := rules[0];
      ReplaceAllSplit(a, b, r.pat, r.rep);
      ReplaceAllHead(b, r.pat, r.rep);
      ApplyRewritesSplit(ReplaceAll(a, r.pat, r.rep), ReplaceAll(b, r.pat, r.rep), rules[1..]);
      ApplyRewritesFirst(a + b, rules);
      ApplyRewritesFirst(a, rules);
      ApplyRewritesFirst(b, rules);
    }
  }

  lemma ExpandContractionsSplit(a: string, b: string)
    requires b != [] && b[0] == ' '
    ensures ExpandContractions(a + b) == ExpandContractions(a) + ExpandContractions(b)
  {
    ContractionsValid();
    ApplyRewritesSplit(a, b, Contractions);
  }

  /** Every character of the cleanup class becomes a space; every other
      character is kept where it is. */
  function ClearClass(s: string): (r: string)
    ensures |r| == |s| && Avoids(r, CleanupClass)
    ensures forall i :: 0 <= i < |s| && s[i] in CleanupClass ==> r[i] == ' '
    ensures forall i :: 0 <= i < |s| && s[i] !in CleanupClass ==> r[i] == s[i]
  {
    seq(|s|, i requires 0 <= i < |s| => if s[i] in CleanupClass then ' ' else s[i])
  }

  /** Text without a cleanup character is left as it is. */
  lemma ClearClassNoop(s: string)
    requires Avoids(s, CleanupClass)
    ensures ClearClass(s) == s
  {
  }

  /** The six isolation passes, in source order. */
  function IsolatePunctuation(s: string): string {
    var s := IsolateRuns(s, '.');
    var s := IsolateRuns(s, '!');
    var s := IsolateRuns(s, ',');
    var s := IsolateRuns(s, '?');
    var s := IsolateRuns(s, '$');
    IsolateRuns(s, '#')
  }

  /** A leading space survives the isolation passes. */
  lemma IsolatePunctuationHead(s: string)
    requires s != [] && s[0] == ' '
    ensures IsolatePunctuation(s) != [] && IsolatePunctuation(s)[0] == ' '
  {
  }

  /** Runs of a mark never span a space, so text cut before a space is
      isolated side by side. */
  lemma IsolatePunctuationSplit(a: string, b: string)
    requires b != [] && b[0] == ' '
    ensures IsolatePunctuation(a + b) == IsolatePunctuation(a) + IsolatePunctuation(b)
  {
    var a1, b1 := IsolateRuns(a, '.'), IsolateRuns(b, '.');
    IsolateRunsSplit(a, b, '.');
    var a2, b2 := IsolateRuns(a1, '!'), IsolateRuns(b1, '!');
    IsolateRunsSplit(a1, b1, '!');
    var a3, b3 := IsolateRuns(a2, ','), IsolateRuns(b2, ',');
    IsolateRunsSplit(a2, b2, ',');
    var a4, b4 := IsolateRuns(a3, '?'), IsolateRuns(b3, '?');
    IsolateRunsSplit(a3, b3, '?');
    var a5, b5 := IsolateRuns(a4, '$'), IsolateRuns(b4, '$');
    IsolateRunsSplit(a4, b4, '$');
    IsolateRunsSplit(a5, b5, '#');
  }

  /** Text without punctuation marks is left as it is. */
  lemma IsolatePunctuationNoop(s: string)
    requires Avoids(s, PunctuationMarks)
    ensures IsolatePunctuation(s) == s
  {
    IsolateRunsAvoid(s, '.', PunctuationMarks);
    IsolateRunsAvoid(s, '!', PunctuationMarks);
    IsolateRunsAvoid(s, ',', PunctuationMarks);
    IsolateRunsAvoid(s, '?', PunctuationMarks);
    IsolateRunsAvoid(s, '$', PunctuationMarks);
    IsolateRunsAvoid(s, '#', PunctuationMarks);
  }

  /** Text whose only punctuation mark is `c` is changed by the pass for `c`
      alone. */
  lemma IsolatePunctuationSingle(s: string, c: char)
    requires c in PunctuationMarks && Avoids(s, PunctuationMarks - {c})
    ensures IsolatePunctuation(s) == IsolateRuns(s, c)
  {
    var others := PunctuationMarks - {c};
    var t := IsolateRuns(s, c);
    IsolateRunsAvoids(s, c, others);
    if c == '.' {
      IsolateRunsAvoid(t, '!', others);
      IsolateRunsAvoid(t, ',', others);
      IsolateRunsAvoid(t, '?', others);
      IsolateRunsAvoid(t, '$', others);
      IsolateRunsAvoid(t, '#', others);
    } else if c == '!' {
      IsolateRunsAvoid(s, '.', others);
      IsolateRunsAvoid(t, ',', others);
      IsolateRunsAvoid(t, '?', others);
      IsolateRunsAvoid(t, '$', others);
      IsolateRunsAvoid(t, '#', others);
    } else if c == ',' {
      IsolateRunsAvoid(s, '.', others);
      IsolateRunsAvoid(s, '!', others);
      IsolateRunsAvoid(t, '?', others);
      IsolateRunsAvoid(t, '$', others);
      IsolateRunsAvoid(t, '#', others);
    } else if c == '?' {
      IsolateRunsAvoid(s, '.', others);
      IsolateRunsAvoid(s, '!', others);
      IsolateRunsAvoid(s, ',', others);
      IsolateRunsAvoid(t, '$', others);
      IsolateRunsAvoid(t, '#', others);
    } else if c == '$' {
      IsolateRunsAvoid(s, '.', others);
      IsolateRunsAvoid(s, '!', others);
      IsolateRunsAvoid(s, ',', others);
      IsolateRunsAvoid(s, '?', others);
      IsolateRunsAvoid(t, '#', others);
    } else {
      IsolateRunsAvoid(s, '.', others);
      IsolateRunsAvoid(s, '!', others);
      IsolateRunsAvoid(s, ',', others);
      IsolateRunsAvoid(s, '?', others);
      IsolateRunsAvoid(s, '$', others);
    }
  }

  /** Isolated text cut before a space splits into the words of each side. */
  lemma IsolatedWordsSplit(a: string, b: string)
    requires b != [] && b[0] == ' '
    ensures Words(IsolatePunctuation(a + b)) == Words(IsolatePunctuation(a)) + Words(IsolatePunctuation(b))
  {
    IsolatePunctuationSplit(a, b);
    IsolatePunctuationHead(b);
    WordsSplit(IsolatePunctuation(a), IsolatePunctuation(b));
  }

  /** The string passes after contraction expansion, up to `strip()`. */
  function Cleanup(s: string): string {
    Strip(IsolatePunctuation(CollapseSpaces(ClearClass(s))))
  }

  /** A token keeps its apostrophes unless it holds more than one; then every
      leading and trailing apostrophe is removed, and what is left neither
      starts nor ends with one. */
  function StripQuotes(t: string): (r: string)
    ensures Count(t, '\'') <= 1 ==> r == t
    ensures Count(t, '\'') > 1 ==> StrippedOf(r, t, '\'')
  {
    if Count(t, '\'') > 1 then StripChar(t, '\'') else t
  }

  /** The list comprehension over the split words. */
  function StripAll(ws: seq<string>): (ts: seq<string>)
    ensures |ts| == |ws|
    ensures forall k :: 0 <= k < |ws| ==> ts[k] == StripQuotes(ws[k])
  {
    seq(|ws|, k requires 0 <= k < |ws| => StripQuotes(ws[k]))
  }

  /** Everything `tokenize` does to the segment it tokenises. */
  function TokenizeSegment(s: string): seq<string> {
    StripAll(Words(Cleanup(ExpandContractions(s))))
  }

  /** `if first: sentence.insert(0, first)` and `if last: sentence.append(last)`. */
  function NonEmptyAsList(s: string): seq<string> {
    if s != [] then [s] else []
  }

  /** `tokenize(sentence)`; `TokenizeFraming` states its outcome. */
  function Tokenize(sentence: string): Outcome {
    var s := Lower(sentence);
    if !Contains(s, Delimiter) then Tokens(TokenizeSegment(s))
    else
      var parts := SplitOn(s, Delimiter);
      if |parts| < 3 then IndexError
      else Tokens(NonEmptyAsList(parts[0]) + TokenizeSegment(parts[1]) + NonEmptyAsList(parts[|parts| - 1]))
  }

  // ---------------------------------------------------------------- "+++" framing

  /** The outcome of `tokenize` in terms of the "+++" pieces of the lower-cased
      input: one piece (no delimiter) is tokenised whole; two pieces (exactly
      one delimiter) fail; with three or more, the first and the last piece are
      kept verbatim when non-empty, the second is tokenised, and the pieces in
      between are dropped. The pieces are the text between delimiters: joined
      back they give the lower-cased input, and none holds the delimiter. */
  lemma TokenizeFraming(sentence: string, s: string, parts: seq<string>)
    requires s == Lower(sentence) && parts == SplitOn(s, Delimiter)
    ensures JoinWith(parts, Delimiter) == s
    ensures forall k :: 0 <= k < |parts| ==> !Contains(parts[k], Delimiter)
    ensures |parts| == 1 ==> Tokenize(sentence) == Tokens(TokenizeSegment(s))
    ensures |parts| == 2 <==> Tokenize(sentence) == IndexError
    ensures |parts| >= 3 ==>
      Tokenize(sentence) == Tokens(NonEmptyAsList(parts[0]) + TokenizeSegment(parts[1])
                                   + NonEmptyAsList(parts[|parts| - 1]))
  {
    SplitOnJoin(s, Delimiter);
    SplitOnPieces(s, Delimiter);
    TokenizeByPieces(sentence, s, parts);
    TokenizeFails(sentence, s, parts);
  }

  lemma TokenizeByPieces(sentence: string, s: string, parts: seq<string>)
    requires s == Lower(sentence) && parts == SplitOn(s, Delimiter)
    ensures |parts| == 1 ==> Tokenize(sentence) == Tokens(TokenizeSegment(s))
    ensures |parts| >= 3 ==>
      Tokenize(sentence) == Tokens(NonEmptyAsList(parts[0]) + TokenizeSegment(parts[1])
                                   + NonEmptyAsList(parts[|parts| - 1]))
  {
    SplitOnPieces(s, Delimiter);
  }

  lemma TokenizeFails(sentence: string, s: string, parts: seq<string>)
    requires s == Lower(sentence) && parts == SplitOn(s, Delimiter)
    ensures |parts| == 2 <==> Tokenize(sentence) == IndexError
  {
    SplitOnPieces(s, Delimiter);
  }

  /** The outcome for an input with exactly two "+++". */
  lemma TokenizeThreePieces(sentence: string, first: string, middle: string, last: string)
    requires SplitOn(Lower(sentence), Delimiter) == [first, middle, last]
    ensures Tokenize(sentence)
         == Tokens(NonEmptyAsList(first) + TokenizeSegment(middle) + NonEmptyAsList(last))
  {
    TokenizeFraming(sentence, Lower(sentence), [first, middle, last]);
  }

  /** With no "+++" in the input the verbatim framing never applies. */
  lemma TokenizeWithoutDelimiter(sentence: string)
    requires !Contains(Lower(sentence), Delimiter)
    ensures Tokenize(sentence).Tokens?
    ensures Tokenize(sentence).tokens == TokenizeSegment(Lower(sentence))
  {
  }

  // ---------------------------------------------------------------- what the tokens look like

  /** A token from the tokenised segment: no whitespace, no character of the
      cleanup class, and a punctuation mark only as that mark alone. */
  predicate CleanToken(t: string) {
    && NoSpace(t)
    && Avoids(t, CleanupClass)
    && forall c :: c in PunctuationMarks && c in t ==> t == [c]
  }

  /** A string with no cleanup-class character in which every punctuation mark
      stands between whitespace. */
  predicate CleanText(s: string) {
    Avoids(s, CleanupClass) && forall c :: c in PunctuationMarks ==> Isolated(s, c)
  }

  lemma CleanTextSlice(s: string, i: nat, j: nat)
    requires CleanText(s) && i <= j <= |s|
    ensures CleanText(s[i..j])
  {
    AvoidsSlice(s, CleanupClass, i, j);
    forall c | c in PunctuationMarks ensures Isolated(s[i..j], c) {
      IsolatedSlice(s, c, i, j);
    }
  }

  /** One isolation pass: the new mark becomes isolated, the marks already
      isolated stay so, and no cleanup-class character appears. */
  lemma IsolationStep(s: string, c: char, done: set<char>)
    requires c in PunctuationMarks && c !in done && done <= PunctuationMarks
    requires Avoids(s, CleanupClass) && forall d :: d in done ==> Isolated(s, d)
    ensures Avoids(IsolateRuns(s, c), CleanupClass)
    ensures forall d :: d in done + {c} ==> Isolated(IsolateRuns(s, c), d)
  {
    IsolateRunsAvoids(s, c, CleanupClass);
    IsolateRunsIsolates(s, c);
    forall d | d in done ensures Isolated(IsolateRuns(s, c), d) {
      IsolateRunsKeeps(s, c, d);
    }
  }

  /** After the six passes every punctuation mark is isolated. */
  lemma IsolatePunctuationClean(s: string)
    requires Avoids(s, CleanupClass)
    ensures CleanText(IsolatePunctuation(s))
  {
    var s1 := IsolateRuns(s, '.');
    IsolationStep(s, '.', {});
    var s2 := IsolateRuns(s1, '!');
    IsolationStep(s1, '!', {'.'});
    var s3 := IsolateRuns(s2, ',');
    IsolationStep(s2, ',', {'.', '!'});
    var s4 := IsolateRuns(s3, '?');
    IsolationStep(s3, '?', {'.', '!', ','});
    var s5 := IsolateRuns(s4, '$');
    IsolationStep(s4, '$', {'.', '!', ',', '?'});
    IsolationStep(s5, '#', {'.', '!', ',', '?', '$'});
    assert {'.', '!', ',', '?', '$'} + {'#'} == PunctuationMarks;
  }

  /** The text handed to `split()` is clean. */
  lemma CleanupClean(s: string)
    ensures CleanText(Cleanup(s))
  {
    var t := CollapseSpaces(ClearClass(s));
    CollapseSpacesAvoids(ClearClass(s), CleanupClass);
    IsolatePunctuationClean(t);
    var u := IsolatePunctuation(t);
    var i, j :| 0 <= i <= j <= |u| && Strip(u) == u[i..j];
    CleanTextSlice(u, i, j);
  }

  /** A word of clean text stays clean through apostrophe stripping. */
  lemma StripQuotesClean(w: string)
    requires NoSpace(w) && CleanText(w)
    ensures CleanToken(StripQuotes(w))
  {
    var t := StripQuotes(w);
    if Count(w, '\'') <= 1 {
      WordClean(w);
    } else {
      var i, j :| 0 <= i <= j <= |w| && t == w[i..j];
      CleanSliceOfWord(w, i, j);
    }
  }

  /** A whitespace-free word of clean text is a clean token. */
  lemma WordClean(w: string)
    requires NoSpace(w) && CleanText(w)
    ensures CleanToken(w)
  {
    forall c | c in PunctuationMarks && c in w ensures w == [c] {
      IsolatedWord(w, c);
    }
  }

  /** Part of a whitespace-free word of clean text is a clean token. */
  lemma CleanSliceOfWord(w: string, i: nat, j: nat)
    requires NoSpace(w) && CleanText(w) && i <= j <= |w|
    ensures CleanToken(w[i..j])
  {
    var t := w[i..j];
    assert NoSpace(t) by {
      forall k | 0 <= k < |t| ensures !IsSpace(t[k]) { assert t[k] == w[i + k]; }
    }
    AvoidsSlice(w, CleanupClass, i, j);
    forall c | c in PunctuationMarks && c in t ensures t == [c] {
      var k :| 0 <= k < |t| && t[k] == c;
      assert w[i + k] == c;
      IsolatedWord(w, c);
    }
  }

  /** Tokens of the tokenised segment hold no whitespace and no cleanup-class
      character, and a token that holds one of `. ! , ? $ #` is exactly that
      character, so a run such as "..." yields a single token. */
  lemma SegmentTokensClean(s: string)
    ensures forall k :: 0 <= k < |TokenizeSegment(s)| ==> CleanToken(TokenizeSegment(s)[k])
  {
    var text := Cleanup(ExpandContractions(s));
    CleanupClean(ExpandContractions(s));
    WordsTokensClean(text);
  }

  /** The stripped words of clean text are clean tokens. */
  lemma WordsTokensClean(text: string)
    requires CleanText(text)
    ensures forall k :: 0 <= k < |StripAll(Words(text))| ==> CleanToken(StripAll(Words(text))[k])
  {
    var ws := Words(text);
    WordsAreSlices(text);
    forall k | 0 <= k < |ws| ensures CleanToken(StripQuotes(ws[k])) {
      SliceTokenClean(text, ws[k]);
    }
  }

  lemma SliceTokenClean(text: string, w: string)
    requires CleanText(text) && IsSliceOf(w, text) && NoSpace(w)
    ensures CleanToken(StripQuotes(w))
  {
    var i, j :| 0 <= i <= j <= |text| && w == text[i..j];
    CleanTextSlice(text, i, j);
    StripQuotesClean(w);
  }

  /** Every token of a successful `tokenize` is clean, except the verbatim
      first and last "+++" pieces. */
  lemma TokenizeTokensClean(sentence: string, s: string, parts: seq<string>)
    requires s == Lower(sentence) && parts == SplitOn(s, Delimiter)
    ensures Tokenize(sentence).Tokens? && |parts| == 1 ==>
      forall k :: 0 <= k < |Tokenize(sentence).tokens| ==> CleanToken(Tokenize(sentence).tokens[k])
    ensures Tokenize(sentence).Tokens? && |parts| >= 2 ==>
      var tokens := Tokenize(sentence).tokens;
      var pre := NonEmptyAsList(parts[0]);
      var post := NonEmptyAsList(parts[|parts| - 1]);
      && |tokens| == |pre| + |TokenizeSegment(parts[1])| + |post|
      && forall k :: |pre| <= k < |tokens| - |post| ==> CleanToken(tokens[k])
  {
    TokenizeByPieces(sentence, s, parts);
    if |parts| == 1 {
      SegmentTokensClean(s);
    } else if |parts| == 2 {
      TokenizeFails(sentence, s, parts);
    } else {
      SegmentTokensClean(parts[1]);
      FramedClean(Tokenize(sentence), NonEmptyAsList(parts[0]), TokenizeSegment(parts[1]),
                  NonEmptyAsList(parts[|parts| - 1]));
    }
  }

  lemma FramedClean(out: Outcome, pre: seq<string>, seg: seq<string>, post: seq<string>)
    requires out == Tokens(pre + seg + post)
    requires forall k :: 0 <= k < |seg| ==> CleanToken(seg[k])
    ensures |out.tokens| == |pre| + |seg| + |post|
    ensures forall k :: |pre| <= k < |out.tokens| - |post| ==> CleanToken(out.tokens[k])
  {
    MiddleClean(pre, seg, post);
  }

  lemma MiddleClean(pre: seq<string>, seg: seq<string>, post: seq<string>)
    requires forall k :: 0 <= k < |seg| ==> CleanToken(seg[k])
    ensures forall k :: |pre| <= k < |pre| + |seg| ==> CleanToken((pre + seg + post)[k])
  {
    forall k | |pre| <= k < |pre| + |seg| ensures CleanToken((pre + seg + post)[k]) {
      assert (pre + seg + post)[k] == seg[k - |pre|];
    }
  }

  // ---------------------------------------------------------------- plain text passes through

  /** No rule finds anything in a string without apostrophes. */
  lemma ContractionsFromNoApostrophe(s: string, n: nat)
    requires Avoids(s, {'\''}) && n <= |Contractions|
    ensures ValidRewrites(Contractions[n..])
    ensures ApplyRewrites(s, Contractions[n..]) == s
  {
    ContractionsValid();
    AvoidsLacks(s, {'\''}, '\'');
    var rules := Contractions[n..];
    forall k | 0 <= k < |rules| ensures ReplaceAll(s, rules[k].pat, rules[k].rep) == s {
      assert rules[k] == Contractions[n + k];
      ReplaceAllMissing(s, rules[k].pat, rules[k].rep, '\'');
    }
    ApplyRewritesSkip(s, rules, |rules|);
    assert rules[|rules|..] == [];
  }

  /** Every contraction pattern holds an apostrophe, so text without one is not
      rewritten. */
  lemma ExpandContractionsNoApostrophe(s: string)
    requires Avoids(s, {'\''})
    ensures ExpandContractions(s) == s
  {
    ContractionsFromNoApostrophe(s, 0);
    assert Contractions[0..] == Contractions;
  }

  /** Without cleanup-class characters or double spaces, only the isolation
      passes change the words. */
  lemma CleanupIsolates(s: string)
    requires Avoids(s, CleanupClass) && NoDoubleSpace(s)
    ensures Words(Cleanup(s)) == Words(IsolatePunctuation(s))
  {
    ClearClassNoop(s);
    CollapseSpacesNoop(s);
    WordsStrip(IsolatePunctuation(s));
  }

  /** Text with no cleanup character and no punctuation mark goes through the
      cleanup passes with the same words; runs of spaces only shrink. */
  lemma CleanupPlain(s: string)
    requires Avoids(s, CleanupClass) && Avoids(s, PunctuationMarks)
    ensures Words(Cleanup(s)) == Words(s)
  {
    ClearClassNoop(s);
    var t := CollapseSpaces(s);
    CollapseSpacesAvoids(s, PunctuationMarks);
    CollapseSpacesWords(s);
    IsolatePunctuationNoop(t);
    WordsStrip(t);
  }

  /** Text without a punctuation mark keeps, through the cleanup passes, the
      words it has once its cleanup-class characters are spaces, however
      many spaces that leaves between them. */
  lemma CleanupWithoutMarks(s: string)
    requires Avoids(s, PunctuationMarks)
    ensures Words(Cleanup(s)) == Words(ClearClass(s))
  {
    var t := ClearClass(s);
    assert Avoids(t, PunctuationMarks) by {
      forall i | 0 <= i < |t| ensures t[i] !in PunctuationMarks {
        if s[i] !in CleanupClass { assert s[i] !in PunctuationMarks; }
      }
    }
    CollapseSpacesAvoids(t, PunctuationMarks);
    CollapseSpacesWords(t);
    IsolatePunctuationNoop(CollapseSpaces(t));
    WordsStrip(CollapseSpaces(t));
  }

  /** Text without punctuation marks and apostrophes tokenises into the
      words left once its cleanup-class characters are spaces. */
  lemma SegmentWithoutMarks(s: string)
    requires Avoids(s, PunctuationMarks) && Avoids(s, {'\''})
    ensures TokenizeSegment(s) == Words(ClearClass(s))
  {
    ExpandContractionsNoApostrophe(s);
    CleanupWithoutMarks(s);
    var t := ClearClass(s);
    AvoidsLacks(s, {'\''}, '\'');
    assert '\'' !in t by {
      forall i | 0 <= i < |t| ensures t[i] != '\'' {
        if s[i] !in CleanupClass { assert s[i] != '\''; }
      }
    }
    WordsLack(t, '\'');
    StripAllNoApostrophe(Words(t));
  }

  /** Text that expands to plain text tokenises into the words of that text. */
  lemma SegmentOfPlainText(s: string, e: string)
    requires ExpandContractions(s) == e
    requires Avoids(e, CleanupClass) && Avoids(e, PunctuationMarks)
    requires Avoids(e, {'\''})
    ensures TokenizeSegment(s) == Words(e)
  {
    AvoidsLacks(e, {'\''}, '\'');
    CleanupPlain(e);
    var ws := Words(e);
    WordsAreSlices(e);
    forall k | 0 <= k < |ws| ensures '\'' !in ws[k] {
      var i, j :| 0 <= i <= j <= |e| && ws[k] == e[i..j];
      SliceLacks(e, '\'', i, j);
    }
    StripAllNoApostrophe(ws);
  }

  /** Text whose words no pass of the segment tokeniser changes: no
      cleanup-class character, no punctuation mark and no apostrophe. */
  predicate PlainText(s: string) {
    Avoids(s, CleanupClass) && Avoids(s, PunctuationMarks) && Avoids(s, {'\''})
  }

  /** The words of a string lacking a character lack it too. */
  lemma WordsLack(s: string, x: char)
    requires x !in s
    ensures forall k :: 0 <= k < |Words(s)| ==> x !in Words(s)[k]
  {
    var ws := Words(s);
    WordsAreSlices(s);
    forall k | 0 <= k < |ws| ensures x !in ws[k] {
      var i, j :| 0 <= i <= j <= |s| && ws[k] == s[i..j];
      SliceLacks(s, x, i, j);
    }
  }

  /** A run of one punctuation mark, of any length `n >= 1`, inside plain
      text is a single token holding the mark once, and the text on either
      side keeps its words. */
  lemma SegmentRunOneToken(a: string, n: nat, c: char, b: string)
    requires c in PunctuationMarks && n >= 1
    requires PlainText(a) && PlainText(b)
    ensures TokenizeSegment(a + seq(n, _ => c) + b) == Words(a) + [[c]] + Words(b)
  {
    var run: string := seq(n, _ => c);
    var s := a + run + b;
    RunTextClean(a, run, b, c);
    ExpandContractionsNoApostrophe(s);
    RunCleanupWords(a, n, c, b);
    RunWordsKept(a, c, b);
  }

  /** Helper: the cleanup passes keep the words of each side, collapsing
      their runs of spaces, and turn the run into the word `[c]`. */
  lemma RunCleanupWords(a: string, n: nat, c: char, b: string)
    requires c in PunctuationMarks && n >= 1
    requires PlainText(a) && PlainText(b)
    ensures Words(Cleanup(a + seq(n, _ => c) + b)) == Words(a) + [[c]] + Words(b)
  {
    var run: string := seq(n, _ => c);
    var s := a + run + b;
    RunTextClean(a, run, b, c);
    ClearClassNoop(s);
    CollapseSpacesRun(a, run, b, c);
    CollapsedPlain(a);
    CollapsedPlain(b);
    RunCollapsedWords(CollapseSpaces(a), n, c, CollapseSpaces(b));
    CollapseSpacesWords(a);
    CollapseSpacesWords(b);
  }

  /** Helper: after the space collapse only the isolation of `c` changes
      the words. */
  lemma RunCollapsedWords(a: string, n: nat, c: char, b: string)
    requires c in PunctuationMarks && n >= 1
    requires PlainText(a) && PlainText(b)
    ensures Words(Strip(IsolatePunctuation(a + seq(n, _ => c) + b))) == Words(a) + [[c]] + Words(b)
  {
    var run: string := seq(n, _ => c);
    var t := a + run + b;
    RunTextClean(a, run, b, c);
    WordsStrip(IsolatePunctuation(t));
    IsolatePunctuationSingle(t, c);
    RunIsolatedWords(a, n, c, b);
  }

  /** Helper: collapsing spaces keeps text plain. */
  lemma CollapsedPlain(s: string)
    requires PlainText(s)
    ensures PlainText(CollapseSpaces(s))
  {
    CollapseSpacesAvoids(s, CleanupClass);
    CollapseSpacesAvoids(s, PunctuationMarks);
    CollapseSpacesAvoids(s, {'\''});
  }

  /** Helper: a run of a mark, which holds no space, separates the two sides
      of the space collapse. */
  lemma CollapseSpacesRun(a: string, run: string, b: string, c: char)
    requires c != ' ' && |run| >= 1 && forall i :: 0 <= i < |run| ==> run[i] == c
    ensures CollapseSpaces(a + run + b) == CollapseSpaces(a) + run + CollapseSpaces(b)
  {
    assert ' ' !in run by {
      forall i | 0 <= i < |run| ensures run[i] != ' ' { assert run[i] == c; }
    }
    assert a + run + b == a + (run + b);
    CollapseSpacesSplit(a, run + b);
    CollapseSpacesPrefix(run, b);
  }

  /** Helper: plain text around a run of one mark holds no cleanup-class
      character, no apostrophe and no other mark. */
  lemma RunTextClean(a: string, run: string, b: string, c: char)
    requires c in PunctuationMarks && PlainText(a) && PlainText(b)
    requires |run| >= 1 && forall i :: 0 <= i < |run| ==> run[i] == c
    ensures var s := a + run + b;
      && Avoids(s, CleanupClass) && Avoids(s, {'\''}) && Avoids(s, PunctuationMarks - {c})
  {
    var s := a + run + b;
    assert c !in CleanupClass && c != '\'' && c != ' ';
    forall i | 0 <= i < |s| ensures s[i] !in CleanupClass && s[i] != '\'' && s[i] !in PunctuationMarks - {c} {
      if i < |a| { assert s[i] == a[i]; }
      else if i < |a| + |run| { assert s[i] == run[i - |a|]; }
      else { assert s[i] == b[i - |a| - |run|]; }
    }
  }

  /** Helper: isolating the mark turns the run into the word `[c]` between
      the words of each side. */
  lemma RunIsolatedWords(a: string, n: nat, c: char, b: string)
    requires c in PunctuationMarks && n >= 1
    requires PlainText(a) && PlainText(b)
    ensures Words(IsolateRuns(a + seq(n, _ => c) + b, c)) == Words(a) + [[c]] + Words(b)
  {
    var run: string := seq(n, _ => c);
    RunIsolated(a, run, c, b);
    assert !IsSpace(c);
    WordsSplit(a, [' ', c, ' '] + b);
    WordsIsolated(c, b);
  }

  /** Helper: the isolation pass leaves the plain text on both sides as it is
      and turns the run into " c ". */
  lemma RunIsolated(a: string, run: string, c: char, b: string)
    requires c in PunctuationMarks && PlainText(a) && PlainText(b)
    requires |run| >= 1 && forall i :: 0 <= i < |run| ==> run[i] == c
    ensures IsolateRuns(a + run + b, c) == a + ([' ', c, ' '] + b)
  {
    var s := a + run + b;
    assert s[..|a|] == a && s[|a|..] == run + b;
    AvoidsLacks(a, PunctuationMarks, c);
    AvoidsLacks(b, PunctuationMarks, c);
    IsolateRunsSkip(s, c, |a|);
    IsolateRunsRunOf(run, b, c);
    IsolateRunsMissing(b, c);
  }

  /** Helper: none of these words holds an apostrophe, so the token
      comprehension keeps them. */
  lemma RunWordsKept(a: string, c: char, b: string)
    requires c in PunctuationMarks && PlainText(a) && PlainText(b)
    ensures StripAll(Words(a) + [[c]] + Words(b)) == Words(a) + [[c]] + Words(b)
  {
    var ws := Words(a) + [[c]] + Words(b);
    AvoidsLacks(a, {'\''}, '\'');
    AvoidsLacks(b, {'\''}, '\'');
    WordsLack(a, '\'');
    WordsLack(b, '\'');
    forall k | 0 <= k < |ws| ensures '\'' !in ws[k] {
      if k < |Words(a)| { assert ws[k] == Words(a)[k]; }
      else if k > |Words(a)| { assert ws[k] == Words(b)[k - |Words(a)| - 1]; }
    }
    StripAllNoApostrophe(ws);
  }

  /** The same for a whole sentence: lower-cased to plain text around one run
      of a mark, it tokenises into the words before the run, the mark once,
      and the words after it. */
  lemma TokenizeRunOneToken(sentence: string, a: string, n: nat, c: char, b: string)
    requires c in PunctuationMarks && n >= 1
    requires PlainText(a) && PlainText(b)
    requires Lower(sentence) == a + seq(n, _ => c) + b
    ensures Tokenize(sentence) == Tokens(Words(a) + [[c]] + Words(b))
  {
    var s := Lower(sentence);
    assert '+' in CleanupClass && '+' !in PunctuationMarks;
    RunLacks(a, n, c, b, '+');
    TokenizeUnframed(sentence, s);
    SegmentRunOneToken(a, n, c, b);
  }

  /** A character kept out of the text on both sides and different from the
      run's character is not in the whole. */
  lemma RunLacks(a: string, n: nat, c: char, b: string, x: char)
    requires x in CleanupClass && x != c
    requires PlainText(a) && PlainText(b)
    ensures x !in a + seq(n, _ => c) + b
  {
    var s := a + seq(n, _ => c) + b;
    forall i | 0 <= i < |s| ensures s[i] != x {
      if i < |a| { assert s[i] == a[i]; }
      else if i < |a| + n { assert s[i] == c; }
      else { assert s[i] == b[i - |a| - n]; }
    }
  }

  /** Without "+++" in the lower-cased input, `tokenize` is the segment
      tokeniser applied to it. */
  lemma TokenizeUnframed(sentence: string, s: string)
    requires Lower(sentence) == s && '+' !in s
    ensures Tokenize(sentence) == Tokens(TokenizeSegment(s))
  {
    MissingChar(s, Delimiter, '+');
  }

  /** Words without an apostrophe are not stripped. */
  lemma StripAllNoApostrophe(ws: seq<string>)
    requires forall k :: 0 <= k < |ws| ==> '\'' !in ws[k]
    ensures StripAll(ws) == ws
  {
  }
}
