/** Worked inputs for `Tokenizer.Tokenize`. Each is proved through small
    steps, one pass at a time, with the rewriting lemmas of `Strings`; the
    steps are kept apart so that no single proof has to evaluate the whole
    pipeline on a literal. */
module TokenizerExamples {
  import opened Strings
  import opened Tokenizer

  // ---------------------------------------------------------------- "Won't"

  lemma WontLetters()
    ensures Avoids("won't", {'d', 'h', 'i', 'l', 'r', 's', 'v'})
  {
  }

  lemma ExpandWontPrefix(s: string)
    requires Avoids(s, {'d', 'h', 'i', 'l', 'r', 's', 'v'})
    ensures ValidRewrites(Contractions)
    ensures ApplyRewrites(s, Contractions) == ApplyRewrites(s, Contractions[13..])
  {
    ContractionsValid();
    ApplyRewritesAbsent(s, Contractions, "ihsihhhhlvrdr", {'d', 'h', 'i', 'l', 'r', 's', 'v'});
  }

  lemma ExpandWontMatch()
    ensures ValidRewrites(Contractions[13..])
    ensures ApplyRewrites("won't", Contractions[13..]) == ApplyRewrites("will not", Contractions[14..])
  {
    ContractionsValid();
    ReplaceAllAt("won't", "won't", "will not");
    assert ReplaceAll("won't", "won't", "will not") == "will not";
    ApplyRewritesFirst("won't", Contractions[13..]);
  }

  lemma PlainWillNot()
    ensures Avoids("will not", CleanupClass) && Avoids("will not", PunctuationMarks)
    ensures Avoids("will not", {'\''})
  {
  }

  lemma WordsWillNot()
    ensures Words("will not") == ["will", "not"]
  {
    assert Spaced(["will", "not"], ["", " ", ""]) == "will not";
    WordsSpaced(["will", "not"], ["", " ", ""]);
  }

  lemma SegmentWont()
    ensures TokenizeSegment("won't") == ["will", "not"]
  {
    WontLetters();
    ExpandWontPrefix("won't");
    ExpandWontMatch();
    PlainWillNot();
    ContractionsFromNoApostrophe("will not", 14);
    SegmentOfPlainText("won't", "will not");
    WordsWillNot();
  }

  /** A contraction rewritten as two words. */
  lemma TokenizeWont()
    ensures Tokenize("Won't") == Tokens(["will", "not"])
  {
    assert Lower("Won't") == "won't";
    TokenizeUnframed("Won't", "won't");
    SegmentWont();
  }

  // ---------------------------------------------------------------- "Can't"

  lemma CantLetters()
    ensures Avoids("can't", {'d', 'h', 'i', 'l', 'r', 's', 'v', 'w'})
  {
  }

  lemma ExpandCantPrefix(s: string)
    requires Avoids(s, {'d', 'h', 'i', 'l', 'r', 's', 'v', 'w'})
    ensures ValidRewrites(Contractions)
    ensures ApplyRewrites(s, Contractions) == ApplyRewrites(s, Contractions[14..])
  {
    ContractionsValid();
    ApplyRewritesAbsent(s, Contractions, "ihsihwwhlvrdrw", {'d', 'h', 'i', 'l', 'r', 's', 'v', 'w'});
  }

  lemma ExpandCantMatch()
    ensures ValidRewrites(Contractions[14..])
    ensures ApplyRewrites("can't", Contractions[14..]) == ApplyRewrites("cannot", Contractions[15..])
  {
    ContractionsValid();
    ReplaceAllAt("can't", "can't", "cannot");
    assert ReplaceAll("can't", "can't", "cannot") == "cannot";
    ApplyRewritesFirst("can't", Contractions[14..]);
  }

  lemma PlainCannot()
    ensures Avoids("cannot", CleanupClass) && Avoids("cannot", PunctuationMarks)
    ensures Avoids("cannot", {'\''})
  {
  }

  lemma WordsCannot()
    ensures Words("cannot") == ["cannot"]
  {
    assert Spaced(["cannot"], ["", ""]) == "cannot";
    WordsSpaced(["cannot"], ["", ""]);
  }

  lemma SegmentCant()
    ensures TokenizeSegment("can't") == ["cannot"]
  {
    CantLetters();
    ExpandCantPrefix("can't");
    ExpandCantMatch();
    PlainCannot();
    ContractionsFromNoApostrophe("cannot", 15);
    SegmentOfPlainText("can't", "cannot");
    WordsCannot();
  }

  /** The whole-word rule for "can't" fires before the general "n't" rule. */
  lemma TokenizeCant()
    ensures Tokenize("Can't") == Tokens(["cannot"])
  {
    assert Lower("Can't") == "can't";
    TokenizeUnframed("Can't", "can't");
    SegmentCant();
  }

  // ---------------------------------------------------------------- "a - b"

  lemma ClearDash()
    ensures Avoids("a - b", PunctuationMarks) && Avoids("a - b", {'\''})
    ensures ClearClass("a - b") == "a   b"
  {
    var r := ClearClass("a - b");
    assert "a - b"[2] in CleanupClass;
    assert r == "a   b";
  }

  lemma WordsDash()
    ensures Words("a   b") == ["a", "b"]
  {
    assert Spaced(["a", "b"], ["", "   ", ""]) == "a   b";
    WordsSpaced(["a", "b"], ["", "   ", ""]);
  }

  /** A dash becomes a space next to the spaces around it; the run of three
      spaces collapses, and the two words remain. */
  lemma SegmentDash()
    ensures TokenizeSegment("a - b") == ["a", "b"]
  {
    ClearDash();
    SegmentWithoutMarks("a - b");
    WordsDash();
  }

  lemma TokenizeDash()
    ensures Tokenize("a - b") == Tokens(["a", "b"])
  {
    assert Lower("a - b") == "a - b";
    TokenizeUnframed("a - b", "a - b");
    SegmentDash();
  }

  // ---------------------------------------------------------------- "nothin'"

  lemma NothinLetters()
    ensures Avoids("nothin'", {'a', 'c', 'd', 'e', 'l', 'm', 'r', 's', 'v', 'w'})
  {
  }

  lemma ExpandNothinPrefix(s: string)
    requires Avoids(s, {'a', 'c', 'd', 'e', 'l', 'm', 'r', 's', 'v', 'w'})
    ensures ValidRewrites(Contractions)
    ensures ApplyRewrites(s, Contractions) == ApplyRewrites(s, Contractions[15..])
  {
    ContractionsValid();
    ApplyRewritesAbsent(s, Contractions, "messawwwlvrdrwc", {'a', 'c', 'd', 'e', 'l', 'm', 'r', 's', 'v', 'w'});
  }

  lemma ReplaceNtInOthin()
    ensures ReplaceAll("othin'", "n't", " not") == "othin'"
  {
    assert "othin'"[..4] == "othi";
    ReplaceAllSkip("othin'", "n't", " not", 4);
    assert "othin'"[4..] == "n'";
  }

  /** The n at 0 starts "not" and the n at 5 is followed by the apostrophe
      only, so "n't" finds nothing. */
  lemma ReplaceNtInNothin()
    ensures ReplaceAll("nothin'", "n't", " not") == "nothin'"
  {
    Mismatch("nothin'", "n't", 1);
    ReplaceAllNotAt("nothin'", "n't", " not");
    ReplaceNtInOthin();
  }

  lemma ReplaceNInOthin()
    ensures ReplaceAll("othin'", "n'", "ng") == "othing"
  {
    assert "othin'"[..4] == "othi";
    ReplaceAllSkip("othin'", "n'", "ng", 4);
    assert "othin'"[4..] == "n'";
    ReplaceAllAt("n'", "n'", "ng");
  }

  lemma ReplaceNInNothin()
    ensures ReplaceAll("nothin'", "n'", "ng") == "nothing"
  {
    Mismatch("nothin'", "n'", 1);
    ReplaceAllNotAt("nothin'", "n'", "ng");
    ReplaceNInOthin();
  }

  lemma ExpandNothinMatch()
    ensures ValidRewrites(Contractions[15..])
    ensures ApplyRewrites("nothin'", Contractions[15..]) == ApplyRewrites("nothing", Contractions[17..])
  {
    ContractionsValid();
    ReplaceNtInNothin();
    ApplyRewritesFirst("nothin'", Contractions[15..]);
    assert Contractions[15..][1..] == Contractions[16..];
    ReplaceNInNothin();
    ApplyRewritesFirst("nothin'", Contractions[16..]);
    assert Contractions[16..][1..] == Contractions[17..];
  }

  lemma PlainNothing()
    ensures Avoids("nothing", CleanupClass) && Avoids("nothing", PunctuationMarks)
    ensures Avoids("nothing", {'\''})
  {
  }

  lemma WordsNothing()
    ensures Words("nothing") == ["nothing"]
  {
    assert Spaced(["nothing"], ["", ""]) == "nothing";
    WordsSpaced(["nothing"], ["", ""]);
  }

  lemma SegmentNothin()
    ensures TokenizeSegment("nothin'") == ["nothing"]
  {
    NothinLetters();
    ExpandNothinPrefix("nothin'");
    ExpandNothinMatch();
    PlainNothing();
    ContractionsFromNoApostrophe("nothing", 17);
    SegmentOfPlainText("nothin'", "nothing");
    WordsNothing();
  }

  /** The dropped final g of a gerund is restored by the "n'" rule. */
  lemma TokenizeNothin()
    ensures Tokenize("nothin'") == Tokens(["nothing"])
  {
    assert Lower("nothin'") == "nothin'";
    TokenizeUnframed("nothin'", "nothin'");
    SegmentNothin();
  }

  // ---------------------------------------------------------------- "I'm fine, aren't you?"

  // The lower-cased sentence is cut before each space into "i'm", " fine,",
  // " aren't" and " you?". No rewrite pattern and no punctuation run spans a
  // space, so each piece is expanded and isolated on its own.

  lemma ReplaceImInIm()
    ensures ReplaceAll("i'm", "i'm", "i am") == "i am"
  {
    ReplaceAllAt("i'm", "i'm", "i am");
    assert "i'm"[3..] == [];
  }

  lemma IAmLetters()
    ensures Avoids("i am", {'\''})
  {
  }

  lemma ExpandIm()
    ensures ExpandContractions("i'm") == "i am"
  {
    ContractionsValid();
    ReplaceImInIm();
    ApplyRewritesFirst("i'm", Contractions);
    IAmLetters();
    ContractionsFromNoApostrophe("i am", 1);
  }

  lemma ExpandArenPrefix(s: string)
    requires Avoids(s, {'h', 'i', 'l', 's', 'v'})
    ensures ValidRewrites(Contractions) && ValidRewrites(Contractions[10..])
    ensures ApplyRewrites(s, Contractions) == ApplyRewrites(s, Contractions[10..])
  {
    ContractionsValid();
    ApplyRewritesAbsent(s, Contractions, "ihsihhhhlv", {'h', 'i', 'l', 's', 'v'});
  }

  /** The apostrophe of "aren't" is followed by t, not by "re". */
  lemma ReplaceReInAren(s: string, r: Rewrite)
    requires s == " aren't" && r == Rewrite("'re", " are")
    ensures ReplaceAll(s, r.pat, r.rep) == s
  {
    assert s[..5] == " aren" && s[5..] == "'t";
    ReplaceAllSkip(s, r.pat, r.rep, 5);
  }

  /** Both "'re" rules find nothing in " aren't", nor does "'d". */
  lemma ExpandArenRe(s: string)
    requires s == " aren't"
    ensures ValidRewrites(Contractions[10..]) && ValidRewrites(Contractions[13..])
    ensures ApplyRewrites(s, Contractions[10..]) == ApplyRewrites(s, Contractions[13..])
  {
    ContractionsValid();
    ReplaceReInAren(s, Contractions[10]);
    ApplyRewritesPass(s, Contractions, 10);
    ArenLetters(s);
    ExpandArenD(s);
    ReplaceReInAren(s, Contractions[12]);
    ApplyRewritesPass(s, Contractions, 12);
  }

  lemma ExpandArenD(s: string)
    requires Avoids(s, {'d'})
    ensures ValidRewrites(Contractions[11..]) && ValidRewrites(Contractions[12..])
    ensures ApplyRewrites(s, Contractions[11..]) == ApplyRewrites(s, Contractions[12..])
  {
    ContractionsValid();
    ApplyRewritesAbsent(s, Contractions[11..], "d", {'d'});
    assert Contractions[11..][1..] == Contractions[12..];
  }

  lemma ExpandArenWontCant(s: string)
    requires Avoids(s, {'c', 'w'})
    ensures ValidRewrites(Contractions[13..]) && ValidRewrites(Contractions[15..])
    ensures ApplyRewrites(s, Contractions[13..]) == ApplyRewrites(s, Contractions[15..])
  {
    ContractionsValid();
    ApplyRewritesAbsent(s, Contractions[13..], "wc", {'c', 'w'});
    assert Contractions[13..][2..] == Contractions[15..];
  }

  lemma ReplaceNtInAren(s: string, r: Rewrite)
    requires s == " aren't" && r == Rewrite("n't", " not")
    ensures ReplaceAll(s, r.pat, r.rep) == " are not"
  {
    var t := s[4..];
    assert s[..4] == " are" && t == "n't";
    ReplaceAllSkip(s, r.pat, r.rep, 4);
    ReplaceAllAt(t, r.pat, r.rep);
    assert t[3..] == [];
  }

  lemma AreNotLetters()
    ensures Avoids(" are not", {'\''})
  {
  }

  lemma ExpandArenTail(s: string)
    requires s == " aren't"
    ensures ValidRewrites(Contractions[15..])
    ensures ApplyRewrites(s, Contractions[15..]) == " are not"
  {
    ContractionsValid();
    ReplaceNtInAren(s, Contractions[15]);
    ApplyRewritesFirst(s, Contractions[15..]);
    assert Contractions[15..][1..] == Contractions[16..];
    AreNotLetters();
    ContractionsFromNoApostrophe(" are not", 16);
  }

  lemma ArenLetters(s: string)
    requires s == " aren't"
    ensures Avoids(s, {'h', 'i', 'l', 's', 'v'}) && Avoids(s, {'d'}) && Avoids(s, {'c', 'w'})
  {
  }

  lemma ExpandAren(s: string)
    requires s == " aren't"
    ensures ExpandContractions(s) == " are not"
  {
    ArenLetters(s);
    ExpandArenPrefix(s);
    ExpandArenRe(s);
    ExpandArenWontCant(s);
    ExpandArenTail(s);
  }

  lemma ExpandFine()
    ensures ExpandContractions(" fine,") == " fine,"
  {
    ExpandContractionsNoApostrophe(" fine,");
  }

  lemma ExpandYou()
    ensures ExpandContractions(" you?") == " you?"
  {
    ExpandContractionsNoApostrophe(" you?");
  }

  lemma ExpandSentence(s: string, p1: string, p2: string, p3: string, p4: string)
    requires p1 == "i'm" && p2 == " fine," && p3 == " aren't" && p4 == " you?"
    requires s == p1 + (p2 + (p3 + p4))
    ensures ExpandContractions(s) == "i am" + (" fine," + (" are not" + " you?"))
  {
    ExpandContractionsSplit(p3, p4);
    ExpandContractionsSplit(p2, p3 + p4);
    ExpandContractionsSplit(p1, p2 + (p3 + p4));
    ExpandIm();
    ExpandFine();
    ExpandAren(p3);
    ExpandYou();
  }

  lemma PlainSentence(e: string, q1: string, q2: string, q3: string, q4: string)
    requires q1 == "i am" && q2 == " fine," && q3 == " are not" && q4 == " you?"
    requires e == q1 + (q2 + (q3 + q4))
    ensures Avoids(e, CleanupClass) && NoDoubleSpace(e)
  {
    assert Avoids(q1, CleanupClass) && NoDoubleSpace(q1);
    assert Avoids(q2, CleanupClass) && NoDoubleSpace(q2);
    assert Avoids(q3, CleanupClass) && NoDoubleSpace(q3);
    assert Avoids(q4, CleanupClass) && NoDoubleSpace(q4);
    AvoidsConcat(q3, q4, CleanupClass);
    AvoidsConcat(q2, q3 + q4, CleanupClass);
    AvoidsConcat(q1, q2 + (q3 + q4), CleanupClass);
    NoDoubleSpaceConcat(q3, q4);
    NoDoubleSpaceConcat(q2, q3 + q4);
    NoDoubleSpaceConcat(q1, q2 + (q3 + q4));
  }

  lemma IsolateIAm()
    ensures IsolatePunctuation("i am") == "i am"
  {
    assert Avoids("i am", PunctuationMarks);
    IsolatePunctuationNoop("i am");
  }

  lemma SplitIAm()
    ensures Words("i am") == ["i", "am"]
  {
    assert Spaced(["i", "am"], ["", " ", ""]) == "i am";
    WordsSpaced(["i", "am"], ["", " ", ""]);
  }

  lemma WordsIAm()
    ensures Words(IsolatePunctuation("i am")) == ["i", "am"]
  {
    IsolateIAm();
    SplitIAm();
  }

  /** A mark at the very end, after text without it, becomes " c ". */
  lemma IsolateTrailingMark(w: string, c: char)
    requires c !in w
    ensures IsolateRuns(w + [c], c) == w + [' ', c, ' ']
  {
    var s := w + [c];
    assert s[..|w|] == w && s[|w|..] == [c];
    IsolateRunsSkip(s, c, |w|);
    assert DropRun([c], c) == [];
  }

  lemma IsolateCommaInFine()
    ensures IsolateRuns(" fine,", ',') == " fine , "
  {
    assert " fine," == " fine" + [','];
    IsolateTrailingMark(" fine", ',');
    assert " fine" + [' ', ',', ' '] == " fine , ";
  }

  lemma IsolateFine()
    ensures IsolatePunctuation(" fine,") == " fine , "
  {
    assert Avoids(" fine,", PunctuationMarks - {','});
    IsolatePunctuationSingle(" fine,", ',');
    IsolateCommaInFine();
  }

  lemma SplitFine()
    ensures Words(" fine , ") == ["fine", ","]
  {
    assert Spaced(["fine", ","], [" ", " ", " "]) == " fine , ";
    WordsSpaced(["fine", ","], [" ", " ", " "]);
  }

  lemma WordsFine()
    ensures Words(IsolatePunctuation(" fine,")) == ["fine", ","]
  {
    IsolateFine();
    SplitFine();
  }

  lemma IsolateAreNot()
    ensures IsolatePunctuation(" are not") == " are not"
  {
    assert Avoids(" are not", PunctuationMarks);
    IsolatePunctuationNoop(" are not");
  }

  lemma SplitAreNot()
    ensures Words(" are not") == ["are", "not"]
  {
    assert Spaced(["are", "not"], [" ", " ", ""]) == " are not";
    WordsSpaced(["are", "not"], [" ", " ", ""]);
  }

  lemma WordsAreNot()
    ensures Words(IsolatePunctuation(" are not")) == ["are", "not"]
  {
    IsolateAreNot();
    SplitAreNot();
  }

  lemma IsolateQuestionInYou()
    ensures IsolateRuns(" you?", '?') == " you ? "
  {
    assert " you?" == " you" + ['?'];
    IsolateTrailingMark(" you", '?');
    assert " you" + [' ', '?', ' '] == " you ? ";
  }

  lemma IsolateYou()
    ensures IsolatePunctuation(" you?") == " you ? "
  {
    assert Avoids(" you?", PunctuationMarks - {'?'});
    IsolatePunctuationSingle(" you?", '?');
    IsolateQuestionInYou();
  }

  lemma SplitYou()
    ensures Words(" you ? ") == ["you", "?"]
  {
    assert Spaced(["you", "?"], [" ", " ", " "]) == " you ? ";
    WordsSpaced(["you", "?"], [" ", " ", " "]);
  }

  lemma WordsYou()
    ensures Words(IsolatePunctuation(" you?")) == ["you", "?"]
  {
    IsolateYou();
    SplitYou();
  }

  lemma WordsSentence(e: string, q1: string, q2: string, q3: string, q4: string)
    requires q1 == "i am" && q2 == " fine," && q3 == " are not" && q4 == " you?"
    requires e == q1 + (q2 + (q3 + q4))
    ensures Words(Cleanup(e)) == ["i", "am"] + (["fine", ","] + (["are", "not"] + ["you", "?"]))
  {
    PlainSentence(e, q1, q2, q3, q4);
    CleanupIsolates(e);
    IsolatedWordsSplit(q3, q4);
    IsolatedWordsSplit(q2, q3 + q4);
    IsolatedWordsSplit(q1, q2 + (q3 + q4));
    WordsIAm();
    WordsFine();
    WordsAreNot();
    WordsYou();
  }

  lemma SentencePieces(s: string)
    requires s == "i'm fine, aren't you?"
    ensures s == "i'm" + (" fine," + (" aren't" + " you?"))
  {
  }

  lemma SegmentSentence(s: string, e: string)
    requires s == "i'm fine, aren't you?" && e == "i am" + (" fine," + (" are not" + " you?"))
    ensures TokenizeSegment(s) == ["i", "am", "fine", ",", "are", "not", "you", "?"]
  {
    SentencePieces(s);
    ExpandSentence(s, "i'm", " fine,", " aren't", " you?");
    WordsSentence(e, "i am", " fine,", " are not", " you?");
    SentenceWords();
    StripSentenceWords();
  }

  lemma SentenceWords()
    ensures ["i", "am"] + (["fine", ","] + (["are", "not"] + ["you", "?"]))
         == ["i", "am", "fine", ",", "are", "not", "you", "?"]
  {
  }

  lemma StripSentenceWords()
    ensures StripAll(["i", "am", "fine", ",", "are", "not", "you", "?"])
         == ["i", "am", "fine", ",", "are", "not", "you", "?"]
  {
    SentenceWordsLackApostrophe();
    StripAllNoApostrophe(["i", "am", "fine", ",", "are", "not", "you", "?"]);
  }

  lemma SentenceWordsLackApostrophe()
    ensures var ws := ["i", "am", "fine", ",", "are", "not", "you", "?"];
      forall k :: 0 <= k < |ws| ==> '\'' !in ws[k]
  {
  }

  lemma LowerSentence()
    ensures Lower("I'm fine, aren't you?") == "i'm fine, aren't you?"
    ensures '+' !in "i'm fine, aren't you?"
  {
  }

  /** Contractions inside a sentence, with two punctuation marks split off. */
  lemma TokenizeSentence()
    ensures Tokenize("I'm fine, aren't you?") == Tokens(["i", "am", "fine", ",", "are", "not", "you", "?"])
  {
    LowerSentence();
    TokenizeUnframed("I'm fine, aren't you?", "i'm fine, aren't you?");
    SegmentSentence("i'm fine, aren't you?", "i am" + (" fine," + (" are not" + " you?")));
  }

  // ---------------------------------------------------------------- "Wait..."

  lemma IsolateStopRun(d: string)
    requires d == "..."
    ensures IsolateRuns(d, '.') == " . "
  {
    IsolateRunsAtRun(d, '.');
    DropRunAll(d, '.');
  }

  lemma IsolateStopsIn(s: string, w: string, d: string)
    requires s == w + d && w == "wait" && d == "..."
    ensures IsolateRuns(s, '.') == "wait . "
  {
    assert Avoids(w, {'.'});
    AvoidsLacks(w, {'.'}, '.');
    assert s[..|w|] == w && s[|w|..] == d;
    IsolateRunsSkip(s, '.', |w|);
    IsolateStopRun(d);
  }

  lemma IsolateStops()
    ensures IsolateRuns("wait...", '.') == "wait . "
  {
    IsolateStopsIn("wait...", "wait", "...");
  }

  lemma IsolateEllipsis()
    ensures IsolatePunctuation("wait...") == "wait . "
  {
    assert Avoids("wait...", PunctuationMarks - {'.'});
    IsolatePunctuationSingle("wait...", '.');
    IsolateStops();
  }

  lemma PlainEllipsis()
    ensures Avoids("wait...", CleanupClass) && NoDoubleSpace("wait...")
  {
  }

  lemma SplitEllipsis()
    ensures Words("wait . ") == ["wait", "."]
  {
    assert Spaced(["wait", "."], ["", " ", " "]) == "wait . ";
    WordsSpaced(["wait", "."], ["", " ", " "]);
  }

  lemma CleanupEllipsis()
    ensures Words(Cleanup("wait...")) == ["wait", "."]
  {
    PlainEllipsis();
    CleanupIsolates("wait...");
    IsolateEllipsis();
    SplitEllipsis();
  }

  lemma ExpandEllipsis()
    ensures ExpandContractions("wait...") == "wait..."
  {
    ExpandContractionsNoApostrophe("wait...");
  }

  lemma StripEllipsisWords()
    ensures StripAll(["wait", "."]) == ["wait", "."]
  {
    StripAllNoApostrophe(["wait", "."]);
  }

  lemma SegmentEllipsis()
    ensures TokenizeSegment("wait...") == ["wait", "."]
  {
    ExpandEllipsis();
    CleanupEllipsis();
    StripEllipsisWords();
  }

  /** A run of full stops becomes one token. */
  lemma TokenizeEllipsis()
    ensures Tokenize("Wait...") == Tokens(["wait", "."])
  {
    assert Lower("Wait...") == "wait...";
    TokenizeUnframed("Wait...", "wait...");
    SegmentEllipsis();
  }

  // ---------------------------------------------------------------- "+++" framing

  lemma SplitOneDelimiter()
    ensures SplitOn("a+++b", Delimiter) == ["a", "b"]
  {
    assert "a+++b" == "a" + Delimiter + "b";
    SplitOnFirst("a", "b", Delimiter);
    SplitOnNone("b", Delimiter);
  }

  /** A single "+++" leaves no middle segment to take. */
  lemma TokenizeOneDelimiter()
    ensures Tokenize("a+++b") == IndexError
  {
    assert Lower("a+++b") == "a+++b";
    assert OccursAt("a+++b", Delimiter, 1);
    SplitOneDelimiter();
  }

  lemma LowerFramed()
    ensures Lower("Ok+++I'm+++Won't") == "ok" + Delimiter + "i'm" + Delimiter + "won't"
  {
  }

  lemma SplitFramedTail(t: string)
    requires t == "i'm" + Delimiter + "won't"
    ensures SplitOn(t, Delimiter) == ["i'm", "won't"]
  {
    SplitOnFirst("i'm", "won't", Delimiter);
    SplitOnNone("won't", Delimiter);
  }

  lemma SplitFramed(s: string)
    requires s == "ok" + Delimiter + "i'm" + Delimiter + "won't"
    ensures Contains(s, Delimiter)
    ensures SplitOn(s, Delimiter) == ["ok", "i'm", "won't"]
  {
    assert OccursAt(s, Delimiter, 2);
    var t := "i'm" + Delimiter + "won't";
    assert s == "ok" + Delimiter + t;
    SplitOnFirst("ok", t, Delimiter);
    SplitFramedTail(t);
  }

  lemma CleanupIAm()
    ensures Words(Cleanup("i am")) == ["i", "am"]
  {
    assert Avoids("i am", CleanupClass) && NoDoubleSpace("i am");
    CleanupIsolates("i am");
    WordsIAm();
  }

  lemma StripIAm()
    ensures StripAll(["i", "am"]) == ["i", "am"]
  {
    StripAllNoApostrophe(["i", "am"]);
  }

  lemma SegmentIm()
    ensures TokenizeSegment("i'm") == ["i", "am"]
  {
    ExpandIm();
    CleanupIAm();
    StripIAm();
  }

  lemma FramedPieces(sentence: string, s: string)
    requires sentence == "Ok+++I'm+++Won't" && s == "ok" + Delimiter + "i'm" + Delimiter + "won't"
    ensures SplitOn(Lower(sentence), Delimiter) == ["ok", "i'm", "won't"]
  {
    LowerFramed();
    SplitFramed(s);
  }

  lemma FramedTokens()
    ensures NonEmptyAsList("ok") + ["i", "am"] + NonEmptyAsList("won't") == ["ok", "i", "am", "won't"]
  {
  }

  /** With three pieces only the middle one is tokenised: the last piece keeps
      its contraction. */
  lemma TokenizeFramed()
    ensures Tokenize("Ok+++I'm+++Won't") == Tokens(["ok", "i", "am", "won't"])
  {
    FramedPieces("Ok+++I'm+++Won't", "ok" + Delimiter + "i'm" + Delimiter + "won't");
    TokenizeThreePieces("Ok+++I'm+++Won't", "ok", "i'm", "won't");
    SegmentIm();
    FramedTokens();
  }

  // ---------------------------------------------------------------- delimiters that overlap

  /** Four plus signs: the scan takes the first three as the separator and
      leaves one `+` as the second piece. */
  lemma SplitFourPlus()
    ensures SplitOn("++++", Delimiter) == ["", "+"]
  {
    assert "++++" == [] + Delimiter + "+";
    assert Leftmost([], Delimiter) by {
      assert [] + Delimiter[..2] == "++";
      assert forall i: nat :: !OccursAt("++", Delimiter, i);
    }
    SplitOnLeading([], "+", Delimiter);
    assert forall i: nat :: !OccursAt("+", Delimiter, i);
    SplitOnWhole("+", Delimiter);
  }

  lemma LeftmostPlusB()
    ensures Leftmost("+b", Delimiter)
  {
    var t := "+b" + Delimiter[..2];
    assert t == "+b++";
    forall i: nat | i <= |t| ensures !OccursAt(t, Delimiter, i) {
      if i == 0 {
        assert t[0..3][1] == 'b';
      } else if i == 1 {
        assert t[1..4][0] == 'b';
      }
    }
  }

  /** In `"a++++b+++c"` the first separator is the leftmost `+++`, so the
      fourth `+` opens the second piece. */
  lemma SplitOverlapping()
    ensures SplitOn("a++++b+++c", Delimiter) == ["a", "+b", "c"]
  {
    var rest := "+b" + Delimiter + "c";
    assert "a++++b+++c" == "a" + Delimiter + rest;
    SplitOnFirst("a", rest, Delimiter);
    LeftmostPlusB();
    SplitOnLeading("+b", "c", Delimiter);
    SplitOnNone("c", Delimiter);
  }
}
