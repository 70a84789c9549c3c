/** Literal string rewriting, splitting and stripping, as the normaliser uses them.
    Each function stands for one Python string or `re` primitive applied to a
    literal pattern: `re.sub` with a literal, `re.sub` with `c+`, `str.split`,
    `str.strip`, `str.lower` (ASCII only) and `str.count`. */
module Strings {

  /** Python's `str.isspace()` characters (what `split()` and `strip()` remove). */
  predicate IsSpace(c: char) {
    c == ' ' || c == '\t' || c == '\n' || c == '\r' || c == '\U{000B}' || c == '\U{000C}'
    || ('\U{001C}' <= c <= '\U{001F}') || c == '\U{0085}' || c == '\U{00A0}' || c == '\U{1680}'
    || ('\U{2000}' <= c <= '\U{200A}') || c == '\U{2028}' || c == '\U{2029}'
    || c == '\U{202F}' || c == '\U{205F}' || c == '\U{3000}'
  }

  /** No character of `s` is whitespace. */
  predicate NoSpace(s: string) {
    forall i :: 0 <= i < |s| ==> !IsSpace(s[i])
  }

  // ---------------------------------------------------------------- lower()

  function LowerChar(c: char): char {
    if 'A' <= c <= 'Z' then (c as int + 32) as char else c
  }

  /** ASCII lower-casing of every character. */
  function Lower(s: string): (r: string)
    ensures |r| == |s|
    ensures forall i :: 0 <= i < |s| ==> r[i] == LowerChar(s[i])
    ensures forall i :: 0 <= i < |r| ==> !('A' <= r[i] <= 'Z')
  {
    seq(|s|, i requires 0 <= i < |s| => LowerChar(s[i]))
  }

  /** Lower-casing a second time changes nothing. */
  lemma LowerIdempotent(s: string)
    ensures Lower(Lower(s)) == Lower(s)
  {
  }

  // ---------------------------------------------------------------- occurrences

  /** `pat` starts at position `i` of `s`. */
  predicate OccursAt(s: string, pat: string, i: nat)
  {
    i + |pat| <= |s| && s[i..i + |pat|] == pat
  }

  /** Python's `pat in s`. */
  predicate Contains(s: string, pat: string)
  {
    exists i: nat | i <= |s| :: OccursAt(s, pat, i)
  }

  // ---------------------------------------------------------------- re.sub(literal, rep, s)

  /** Replaces every occurrence of the literal `pat`, scanning left to right and
      never overlapping two replaced occurrences, as `re.sub` does for a pattern
      without metacharacters. */
  function ReplaceAll(s: string, pat: string, rep: string): string
    requires pat != []
    decreases |s|
  {
    if |s| < |pat| then s
    else if s[..|pat|] == pat then rep + ReplaceAll(s[|pat|..], pat, rep)
    else [s[0]] + ReplaceAll(s[1..], pat, rep)
  }

  /** The literal `re.sub` is `rep.join(s.split(pat))`: it replaces exactly
      the separators that the left-to-right split cuts at, and keeps every
      piece between them. */
  lemma {:induction false} ReplaceAllJoin(s: string, pat: string, rep: string)
    requires pat != []
    ensures ReplaceAll(s, pat, rep) == JoinWith(SplitOn(s, pat), rep)
    decreases |s|
  {
    if |s| < |pat| {
    } else if s[..|pat|] == pat {
      var tail := SplitOn(s[|pat|..], pat);
      ReplaceAllJoin(s[|pat|..], pat, rep);
      assert SplitOn(s, pat) == [[]] + tail;
      assert ([[]] + tail)[1..] == tail;
    } else {
      ReplaceAllJoin(s[1..], pat, rep);
      JoinCons(SplitOn(s, pat), SplitOn(s[1..], pat), s[0], ReplaceAll(s[1..], pat, rep), rep);
    }
  }

  /** A string without the pattern is left unchanged. */
  lemma {:induction false} ReplaceAllAbsent(s: string, pat: string, rep: string)
    requires pat != []
    requires !Contains(s, pat)
    ensures ReplaceAll(s, pat, rep) == s
    decreases |s|
  {
    if |s| >= |pat| {
      assert !OccursAt(s, pat, 0);
      forall i: nat | i <= |s| - 1 ensures !OccursAt(s[1..], pat, i) {
        OccursShift(s, pat, i);
      }
      ReplaceAllAbsent(s[1..], pat, rep);
    }
  }

  lemma OccursShift(s: string, pat: string, i: nat)
    requires |s| >= 1
    ensures OccursAt(s[1..], pat, i) <==> OccursAt(s, pat, i + 1)
  {
    if i + |pat| <= |s| - 1 {
      assert s[1..][i..i + |pat|] == s[i + 1..i + 1 + |pat|];
    }
  }

  /** Every occurrence of `pat` shows each of its characters in `s`. */
  lemma OccursContains(s: string, pat: string, i: nat, c: char)
    ensures OccursAt(s, pat, i) && c in pat ==> c in s
  {
    if OccursAt(s, pat, i) && c in pat {
      var k :| 0 <= k < |pat| && pat[k] == c;
      assert s[i + k] == s[i..i + |pat|][k];
    }
  }

  /** A pattern with a character that `s` lacks does not occur in `s`. */
  lemma MissingChar(s: string, pat: string, c: char)
    requires c in pat && c !in s
    ensures !Contains(s, pat)
  {
    forall i: nat | i <= |s| ensures !OccursAt(s, pat, i) {
      OccursContains(s, pat, i, c);
    }
  }

  /** A pattern with a character that `s` lacks leaves `s` unchanged. */
  lemma ReplaceAllMissing(s: string, pat: string, rep: string, c: char)
    requires pat != [] && c in pat && c !in s
    ensures ReplaceAll(s, pat, rep) == s
  {
    MissingChar(s, pat, c);
    ReplaceAllAbsent(s, pat, rep);
  }

  /** How a prefix relates to the prefix of the tail. */
  lemma PrefixOfTail<T>(s: seq<T>, k: nat)
    requires 0 < k <= |s|
    ensures s[..k][0] == s[0] && s[1..][..k - 1] == s[..k][1..k]
    ensures s[1..][k - 1..] == s[k..] && s[..k] == [s[0]] + s[1..][..k - 1]
  {
  }

  /** The scan passes over a prefix that lacks the pattern's first character. */
  lemma {:induction false} ReplaceAllSkip(s: string, pat: string, rep: string, k: nat)
    requires pat != [] && k <= |s| && pat[0] !in s[..k]
    ensures ReplaceAll(s, pat, rep) == s[..k] + ReplaceAll(s[k..], pat, rep)
    decreases k
  {
    if k > 0 {
      var t := s[1..];
      PrefixOfTail(s, k);
      Mismatch(s, pat, 0);
      ReplaceAllNotAt(s, pat, rep);
      SliceLacks(s[..k], pat[0], 1, k);
      ReplaceAllSkip(t, pat, rep, k - 1);
      SeqAssoc([s[0]], t[..k - 1], ReplaceAll(s[k..], pat, rep));
    }
  }

  /** An occurrence at the front is replaced. */
  lemma ReplaceAllAt(s: string, pat: string, rep: string)
    requires pat != [] && OccursAt(s, pat, 0)
    ensures ReplaceAll(s, pat, rep) == rep + ReplaceAll(s[|pat|..], pat, rep)
  {
  }

  /** An occurrence never spans the boundary before a character the pattern
      lacks, so the two sides are rewritten separately. */
  lemma {:induction false} ReplaceAllSplit(a: string, b: string, pat: string, rep: string)
    requires pat != [] && (b == [] || b[0] !in pat)
    ensures ReplaceAll(a + b, pat, rep) == ReplaceAll(a, pat, rep) + ReplaceAll(b, pat, rep)
    decreases |a|
  {
    var s := a + b;
    if a == [] {
      assert s == b;
    } else if OccursAt(a, pat, 0) {
      var t := a[|pat|..];
      assert s[..|pat|] == a[..|pat|] && s[|pat|..] == t + b;
      ReplaceAllAt(s, pat, rep);
      ReplaceAllAt(a, pat, rep);
      ReplaceAllSplit(t, b, pat, rep);
      SeqAssoc(rep, ReplaceAll(t, pat, rep), ReplaceAll(b, pat, rep));
    } else {
      var t := a[1..];
      assert !OccursAt(s, pat, 0) by {
        if |a| < |pat| <= |s| {
          assert s[..|pat|][|a|] == b[0];
        } else if |pat| <= |a| {
          assert s[..|pat|] == a[..|pat|];
        }
      }
      assert s[1..] == t + b;
      ReplaceAllNotAt(s, pat, rep);
      ReplaceAllNotAt(a, pat, rep);
      ReplaceAllSplit(t, b, pat, rep);
      SeqAssoc([a[0]], ReplaceAll(t, pat, rep), ReplaceAll(b, pat, rep));
    }
  }

  /** A differing character rules out an occurrence at the front. */
  lemma Mismatch(s: string, pat: string, k: nat)
    requires k < |s| && k < |pat| && s[k] != pat[k]
    ensures !OccursAt(s, pat, 0)
  {
    if |pat| <= |s| {
      assert s[0..|pat|][k] == s[k];
    }
  }

  /** A front character that does not start an occurrence is kept. */
  lemma ReplaceAllNotAt(s: string, pat: string, rep: string)
    requires pat != [] && s != [] && !OccursAt(s, pat, 0)
    ensures ReplaceAll(s, pat, rep) == [s[0]] + ReplaceAll(s[1..], pat, rep)
  {
  }

  /** A front character outside the pattern stays at the front. */
  lemma ReplaceAllHead(s: string, pat: string, rep: string)
    requires pat != [] && s != [] && s[0] !in pat
    ensures ReplaceAll(s, pat, rep) != [] && ReplaceAll(s, pat, rep)[0] == s[0]
  {
    Mismatch(s, pat, 0);
    ReplaceAllNotAt(s, pat, rep);
  }

  // ---------------------------------------------------------------- re.sub(r"c+", " c ", s)

  /** `s` without its leading run of `c`. */
  function DropRun(s: string, c: char): (r: string)
    ensures |r| <= |s| && r == s[|s| - |r|..]
    ensures r == [] || r[0] != c
    ensures s != [] && s[0] == c ==> |r| < |s|
    ensures s != [] && s[0] != c ==> r == s
  {
    if s != [] && s[0] == c then DropRun(s[1..], c) else s
  }

  /** Replaces every maximal run of `c` by the three characters " c ", as
      `re.sub(r"\c+", " c ", s)`. The first character of the result is a space
      when `s` starts with `c` and the first character of `s` otherwise, and so
      is never `c` unless `c` is a space. */
  function IsolateRuns(s: string, c: char): (r: string)
    ensures (r == []) == (s == [])
    ensures r != [] ==> r[0] == (if s[0] == c then ' ' else s[0])
    decreases |s|
  {
    if s == [] then []
    else if s[0] == c then [' ', c, ' '] + IsolateRuns(DropRun(s, c), c)
    else [s[0]] + IsolateRuns(s[1..], c)
  }

  /** `s` holds no character of `bad`. */
  predicate Avoids(s: string, bad: set<char>) {
    forall i :: 0 <= i < |s| ==> s[i] !in bad
  }

  /** A character of `bad` does not occur in a string that avoids `bad`. */
  lemma AvoidsLacks(s: string, bad: set<char>, c: char)
    requires Avoids(s, bad) && c in bad
    ensures c !in s
  {
    forall i | 0 <= i < |s| ensures s[i] != c {
    }
  }

  lemma AvoidsSlice(s: string, bad: set<char>, i: nat, j: nat)
    requires Avoids(s, bad) && i <= j <= |s|
    ensures Avoids(s[i..j], bad)
  {
    var t := s[i..j];
    forall k | 0 <= k < |t| ensures t[k] !in bad {
      assert t[k] == s[i + k];
    }
  }

  lemma SliceLacks(s: string, c: char, i: nat, j: nat)
    requires c !in s && i <= j <= |s|
    ensures c !in s[i..j]
  {
    forall k | 0 <= k < j - i ensures s[i..j][k] != c {
      assert s[i..j][k] == s[i + k];
    }
  }

  lemma AvoidsConcat(a: string, b: string, bad: set<char>)
    requires Avoids(a, bad) && Avoids(b, bad)
    ensures Avoids(a + b, bad)
  {
    var ab := a + b;
    forall k | 0 <= k < |ab| ensures ab[k] !in bad {
      if k < |a| { assert ab[k] == a[k]; } else { assert ab[k] == b[k - |a|]; }
    }
  }

  /** Isolation adds only spaces, so it brings in no character of a set
      without the space. */
  lemma {:induction false} IsolateRunsAvoids(s: string, c: char, bad: set<char>)
    requires Avoids(s, bad) && ' ' !in bad
    ensures Avoids(IsolateRuns(s, c), bad)
    decreases |s|
  {
    if s == [] {
    } else if s[0] == c {
      var rest := DropRun(s, c);
      AvoidsSuffix(s, rest, bad);
      IsolateRunsAvoids(rest, c, bad);
      AvoidsAtRun(s, c, bad);
    } else {
      AvoidsSuffix(s, s[1..], bad);
      IsolateRunsAvoids(s[1..], c, bad);
      AvoidsAtOther(s, c, bad);
    }
  }

  lemma AvoidsAtRun(s: string, c: char, bad: set<char>)
    requires s != [] && s[0] == c && c !in bad && ' ' !in bad
    requires Avoids(IsolateRuns(DropRun(s, c), c), bad)
    ensures Avoids(IsolateRuns(s, c), bad)
  {
    IsolateRunsAtRun(s, c);
    AvoidsIsolated(IsolateRuns(s, c), c, IsolateRuns(DropRun(s, c), c), bad);
  }

  lemma AvoidsIsolated(w: string, c: char, t: string, bad: set<char>)
    requires w == [' ', c, ' '] + t && c !in bad && ' ' !in bad && Avoids(t, bad)
    ensures Avoids(w, bad)
  {
    var p := [' ', c, ' '];
    assert Avoids(p, bad) by {
      forall k | 0 <= k < 3 ensures p[k] !in bad {
      }
    }
    AvoidsConcat(p, t, bad);
  }

  lemma AvoidsAtOther(s: string, c: char, bad: set<char>)
    requires s != [] && s[0] != c && s[0] !in bad
    requires Avoids(IsolateRuns(s[1..], c), bad)
    ensures Avoids(IsolateRuns(s, c), bad)
  {
    IsolateRunsAtOther(s, c);
    AvoidsJoined(IsolateRuns(s, c), [s[0]], IsolateRuns(s[1..], c), bad);
  }

  lemma AvoidsSuffix(s: string, r: string, bad: set<char>)
    requires Avoids(s, bad) && |r| <= |s| && r == s[|s| - |r|..]
    ensures Avoids(r, bad)
  {
    forall k | 0 <= k < |r| ensures r[k] !in bad {
      assert r[k] == s[|s| - |r| + k];
    }
  }

  lemma AvoidsJoined(w: string, p: string, t: string, bad: set<char>)
    requires w == p + t && Avoids(p, bad) && Avoids(t, bad)
    ensures Avoids(w, bad)
  {
    AvoidsConcat(p, t, bad);
  }

  /** A run of `c` that fills `s` is dropped entirely. */
  lemma {:induction false} DropRunAll(s: string, c: char)
    requires forall i :: 0 <= i < |s| ==> s[i] == c
    ensures DropRun(s, c) == []
    decreases |s|
  {
    if s != [] { DropRunAll(s[1..], c); }
  }

  /** A string without `c` is unchanged by isolating `c`. */
  lemma {:induction false} IsolateRunsMissing(s: string, c: char)
    requires c !in s
    ensures IsolateRuns(s, c) == s
    decreases |s|
  {
    if s != [] {
      assert s == [s[0]] + s[1..];
      IsolateRunsMissing(s[1..], c);
    }
  }

  /** A string that avoids a set holding `c` has no run of `c` to isolate. */
  lemma IsolateRunsAvoid(s: string, c: char, bad: set<char>)
    requires Avoids(s, bad) && c in bad
    ensures IsolateRuns(s, c) == s
  {
    AvoidsLacks(s, bad, c);
    IsolateRunsMissing(s, c);
  }

  /** Dropping a run stops at the first character that is not `c`. */
  lemma {:induction false} DropRunSplit(a: string, b: string, c: char)
    requires b == [] || b[0] != c
    ensures DropRun(a + b, c) == DropRun(a, c) + b
    decreases |a|
  {
    if a == [] {
      assert a + b == b;
    } else if a[0] == c {
      assert (a + b)[1..] == a[1..] + b;
      DropRunSplit(a[1..], b, c);
    }
  }

  /** A run of `c` never spans the boundary before another character, so the
      two sides are isolated separately. */
  lemma {:induction false} IsolateRunsSplit(a: string, b: string, c: char)
    requires b == [] || b[0] != c
    ensures IsolateRuns(a + b, c) == IsolateRuns(a, c) + IsolateRuns(b, c)
    decreases |a|
  {
    if a == [] {
      assert a + b == b;
    } else if a[0] == c {
      IsolateRunsSplit(DropRun(a, c), b, c);
      IsolateRunsSplitRun(a, b, c);
    } else {
      IsolateRunsSplit(a[1..], b, c);
      IsolateRunsSplitOther(a, b, c);
    }
  }

  lemma IsolateRunsSplitRun(a: string, b: string, c: char)
    requires a != [] && a[0] == c && (b == [] || b[0] != c)
    requires IsolateRuns(DropRun(a, c) + b, c) == IsolateRuns(DropRun(a, c), c) + IsolateRuns(b, c)
    ensures IsolateRuns(a + b, c) == IsolateRuns(a, c) + IsolateRuns(b, c)
  {
    var head, r := [' ', c, ' '], DropRun(a, c);
    IsolateRunsAtRun(a + b, c);
    IsolateRunsAtRun(a, c);
    DropRunSplit(a, b, c);
    SeqAssoc(head, IsolateRuns(r, c), IsolateRuns(b, c));
  }

  /** A run of `n >= 1` copies of `c`, followed by text that does not continue
      the run, becomes the three characters " c " however long it is. */
  lemma IsolateRunsRun(n: nat, c: char, b: string)
    requires n >= 1 && (b == [] || b[0] != c)
    ensures IsolateRuns(seq(n, _ => c) + b, c) == [' ', c, ' '] + IsolateRuns(b, c)
  {
    IsolateRunsRunOf(seq(n, _ => c), b, c);
  }

  lemma IsolateRunsRunOf(run: string, b: string, c: char)
    requires |run| >= 1 && (forall i :: 0 <= i < |run| ==> run[i] == c) && (b == [] || b[0] != c)
    ensures IsolateRuns(run + b, c) == [' ', c, ' '] + IsolateRuns(b, c)
  {
    DropRunSplit(run, b, c);
    DropRunAll(run, c);
    assert DropRun(run, c) + b == b;
    assert (run + b)[0] == c;
    IsolateRunsAtRun(run + b, c);
  }

  lemma IsolateRunsAtRun(s: string, c: char)
    requires s != [] && s[0] == c
    ensures IsolateRuns(s, c) == [' ', c, ' '] + IsolateRuns(DropRun(s, c), c)
  {
  }

  lemma IsolateRunsSplitOther(a: string, b: string, c: char)
    requires a != [] && a[0] != c
    requires IsolateRuns(a[1..] + b, c) == IsolateRuns(a[1..], c) + IsolateRuns(b, c)
    ensures IsolateRuns(a + b, c) == IsolateRuns(a, c) + IsolateRuns(b, c)
  {
    var x, t := a[0], a[1..];
    ConsSplit(a, b);
    IsolateRunsCons(x, t + b, c);
    IsolateRunsCons(x, t, c);
    SeqAssoc([x], IsolateRuns(t, c), IsolateRuns(b, c));
  }

  lemma ConsSplit<T>(a: seq<T>, b: seq<T>)
    requires a != []
    ensures a == [a[0]] + a[1..] && a + b == [a[0]] + (a[1..] + b)
  {
  }

  /** A character other than `c` is copied to the front. */
  lemma IsolateRunsCons(x: char, u: string, c: char)
    requires x != c
    ensures IsolateRuns([x] + u, c) == [x] + IsolateRuns(u, c)
  {
    assert ([x] + u)[0] == x && ([x] + u)[1..] == u;
  }

  lemma ConsConcat<T>(whole: seq<T>, x: T, p: seq<T>, q: seq<T>, front: seq<T>)
    requires whole == [x] + (p + q) && front == [x] + p
    ensures whole == front + q
  {
  }

  lemma IsolateRunsAtOther(s: string, c: char)
    requires s != [] && s[0] != c
    ensures IsolateRuns(s, c) == [s[0]] + IsolateRuns(s[1..], c)
  {
  }

  /** The isolation pass copies a prefix that holds no `c`. */
  lemma {:induction false} IsolateRunsSkip(s: string, c: char, k: nat)
    requires k <= |s| && c !in s[..k]
    ensures IsolateRuns(s, c) == s[..k] + IsolateRuns(s[k..], c)
    decreases k
  {
    if k > 0 {
      var t := s[1..];
      PrefixOfTail(s, k);
      IsolateRunsAtOther(s, c);
      SliceLacks(s[..k], c, 1, k);
      IsolateRunsSkip(t, c, k - 1);
      SeqAssoc([s[0]], t[..k - 1], IsolateRuns(s[k..], c));
    }
  }

  /** Each `c` is surrounded by whitespace or by the ends of `s`: the
      neighbours `x`, `y` of adjacent positions never put `c` next to a
      character that is not whitespace. */
  predicate SpacedPair(x: char, y: char, c: char) {
    (x == c ==> IsSpace(y)) && (y == c ==> IsSpace(x))
  }

  predicate Isolated(s: string, c: char) {
    forall i :: 0 <= i < |s| - 1 ==> SpacedPair(s[i], s[i + 1], c)
  }

  lemma IsolatedConcat(a: string, b: string, c: char)
    requires Isolated(a, c) && Isolated(b, c)
    requires a == [] || b == [] || SpacedPair(a[|a| - 1], b[0], c)
    ensures Isolated(a + b, c)
  {
    var ab := a + b;
    forall i | 0 <= i < |ab| - 1 ensures SpacedPair(ab[i], ab[i + 1], c) {
      if i + 1 < |a| {
        assert ab[i] == a[i] && ab[i + 1] == a[i + 1];
      } else if i + 1 == |a| {
        assert ab[i] == a[|a| - 1] && ab[i + 1] == b[0];
      } else {
        assert ab[i] == b[i - |a|] && ab[i + 1] == b[i - |a| + 1];
      }
    }
  }

  lemma IsolatedSlice(s: string, c: char, i: nat, j: nat)
    requires Isolated(s, c) && i <= j <= |s|
    ensures Isolated(s[i..j], c)
  {
    var t := s[i..j];
    forall k | 0 <= k < |t| - 1 ensures SpacedPair(t[k], t[k + 1], c) {
      assert t[k] == s[i + k] && t[k + 1] == s[i + k + 1];
    }
  }

  /** A word (no whitespace) in which `c` is isolated and occurs is `c` alone. */
  lemma IsolatedWord(w: string, c: char)
    requires Isolated(w, c) && NoSpace(w) && c in w
    ensures w == [c]
  {
    var k :| 0 <= k < |w| && w[k] == c;
    Neighbours(w, c, k);
  }

  lemma Neighbours(w: string, c: char, k: nat)
    requires Isolated(w, c) && k < |w|
    ensures k + 1 < |w| ==> SpacedPair(w[k], w[k + 1], c)
    ensures 0 < k ==> SpacedPair(w[k - 1], w[k], c)
  {
  }

  /** `re.sub(r"\c+", " c ", s)` leaves every `c` isolated. */
  lemma {:induction false} IsolateRunsIsolates(s: string, c: char)
    requires !IsSpace(c)
    ensures Isolated(IsolateRuns(s, c), c)
    decreases |s|
  {
    if s == [] {
    } else if s[0] == c {
      var rest := DropRun(s, c);
      IsolateRunsIsolates(rest, c);
      IsolatedConcat([' ', c, ' '], IsolateRuns(rest, c), c);
    } else {
      IsolateRunsIsolates(s[1..], c);
      IsolatedConcat([s[0]], IsolateRuns(s[1..], c), c);
    }
  }

  /** Isolating `c` keeps each other non-whitespace character `d` isolated. */
  lemma {:induction false} IsolateRunsKeeps(s: string, c: char, d: char)
    requires d != c && !IsSpace(d) && Isolated(s, d)
    ensures Isolated(IsolateRuns(s, c), d)
    decreases |s|
  {
    if s == [] {
    } else if s[0] == c {
      var rest := DropRun(s, c);
      IsolatedSlice(s, d, |s| - |rest|, |s|);
      IsolateRunsKeeps(rest, c, d);
      IsolatedConcat([' ', c, ' '], IsolateRuns(rest, c), d);
    } else {
      IsolatedSlice(s, d, 1, |s|);
      IsolateRunsKeeps(s[1..], c, d);
      if |s| > 1 { assert SpacedPair(s[0], s[1], d); }
      IsolatedConcat([s[0]], IsolateRuns(s[1..], c), d);
    }
  }

  // ---------------------------------------------------------------- re.sub(r"[ ]+", " ", s)

  /** Collapses every run of spaces (the character ' ' only) into one space. */
  function CollapseSpaces(s: string): (r: string)
    ensures (r == []) == (s == [])
    ensures r != [] ==> r[0] == s[0]
    decreases |s|
  {
    if s == [] then []
    else if s[0] == ' ' then [' '] + CollapseSpaces(DropRun(s, ' '))
    else [s[0]] + CollapseSpaces(s[1..])
  }

  /** No two adjacent spaces remain. */
  predicate NoDoubleSpace(s: string) {
    forall i :: 0 <= i < |s| - 1 ==> !(s[i] == ' ' && s[i + 1] == ' ')
  }

  lemma NoDoubleSpaceConcat(a: string, b: string)
    requires NoDoubleSpace(a) && NoDoubleSpace(b)
    requires a == [] || b == [] || a[|a| - 1] != ' ' || b[0] != ' '
    ensures NoDoubleSpace(a + b)
  {
    var ab := a + b;
    forall i | 0 <= i < |ab| - 1 ensures !(ab[i] == ' ' && ab[i + 1] == ' ') {
      if i + 1 < |a| {
        assert ab[i] == a[i] && ab[i + 1] == a[i + 1];
      } else if i + 1 == |a| {
        assert ab[i] == a[|a| - 1] && ab[i + 1] == b[0];
      } else {
        assert ab[i] == b[i - |a|] && ab[i + 1] == b[i - |a| + 1];
      }
    }
  }

  /** `re.sub(r"[ ]+", " ", s)` leaves no two adjacent spaces. */
  lemma {:induction false} CollapseSpacesSingle(s: string)
    ensures NoDoubleSpace(CollapseSpaces(s))
    decreases |s|
  {
    if s == [] {
    } else if s[0] == ' ' {
      var rest := DropRun(s, ' ');
      CollapseSpacesSingle(rest);
      NoDoubleSpaceConcat([' '], CollapseSpaces(rest));
    } else {
      CollapseSpacesSingle(s[1..]);
      NoDoubleSpaceConcat([s[0]], CollapseSpaces(s[1..]));
    }
  }

  lemma CollapseSpacesAtSpace(s: string)
    requires s != [] && s[0] == ' '
    ensures CollapseSpaces(s) == [' '] + CollapseSpaces(DropRun(s, ' '))
  {
  }

  lemma CollapseSpacesAtOther(s: string)
    requires s != [] && s[0] != ' '
    ensures CollapseSpaces(s) == [s[0]] + CollapseSpaces(s[1..])
  {
  }

  /** Collapsing removes characters only, so it brings in nothing. */
  lemma {:induction false} CollapseSpacesAvoids(s: string, bad: set<char>)
    requires Avoids(s, bad)
    ensures Avoids(CollapseSpaces(s), bad)
    decreases |s|
  {
    if s != [] {
      var rest := if s[0] == ' ' then DropRun(s, ' ') else s[1..];
      if s[0] == ' ' {
        CollapseSpacesAtSpace(s);
      } else {
        CollapseSpacesAtOther(s);
      }
      AvoidsSlice(s, bad, |s| - |rest|, |s|);
      CollapseSpacesAvoids(rest, bad);
      AvoidsSlice(s, bad, 0, 1);
      assert s[0..1] == [s[0]];
      AvoidsConcat([s[0]], CollapseSpaces(rest), bad);
    }
  }

  /** A string without two adjacent spaces is left unchanged. */
  lemma {:induction false} CollapseSpacesNoop(s: string)
    requires NoDoubleSpace(s)
    ensures CollapseSpaces(s) == s
    decreases |s|
  {
    if s != [] {
      var t := s[1..];
      assert NoDoubleSpace(t) by {
        forall i | 0 <= i < |t| - 1 ensures !(t[i] == ' ' && t[i + 1] == ' ') {
          assert t[i] == s[i + 1] && t[i + 1] == s[i + 2];
        }
      }
      CollapseSpacesNoop(t);
      if s[0] == ' ' {
        assert t == [] || t[0] != ' ';
        assert DropRun(t, ' ') == t;
        assert DropRun(s, ' ') == t;
        assert CollapseSpaces(s) == [' '] + CollapseSpaces(t);
      } else {
        assert CollapseSpaces(s) == [s[0]] + CollapseSpaces(t);
      }
      assert s == [s[0]] + t;
    }
  }

  /** Text without a space collapses to itself in front of whatever follows. */
  lemma {:induction false} CollapseSpacesPrefix(w: string, t: string)
    requires ' ' !in w
    ensures CollapseSpaces(w + t) == w + CollapseSpaces(t)
    decreases |w|
  {
    if w == [] {
      assert w + t == t;
    } else {
      assert (w + t)[1..] == w[1..] + t;
      CollapseSpacesPrefix(w[1..], t);
      assert [w[0]] + (w[1..] + CollapseSpaces(t)) == w + CollapseSpaces(t);
    }
  }

  /** A run of spaces never spans the boundary before another character, so
      the two sides are collapsed separately. */
  lemma {:induction false} CollapseSpacesSplit(a: string, b: string)
    requires b == [] || b[0] != ' '
    ensures CollapseSpaces(a + b) == CollapseSpaces(a) + CollapseSpaces(b)
    decreases |a|
  {
    if a == [] {
      assert a + b == b;
    } else if a[0] == ' ' {
      var d := DropRun(a, ' ');
      DropRunSplit(a, b, ' ');
      CollapseSpacesSplit(d, b);
      CollapseSpacesAtSpace(a + b);
      CollapseSpacesAtSpace(a);
      JoinAfter([' '], CollapseSpaces(d), CollapseSpaces(b), CollapseSpaces(a + b), CollapseSpaces(a));
    } else {
      var d := a[1..];
      assert (a + b)[1..] == d + b;
      CollapseSpacesSplit(d, b);
      CollapseSpacesAtOther(a + b);
      CollapseSpacesAtOther(a);
      JoinAfter([a[0]], CollapseSpaces(d), CollapseSpaces(b), CollapseSpaces(a + b), CollapseSpaces(a));
    }
  }

  /** Helper: the same head in front of both sides of a split. */
  lemma JoinAfter(h: string, x: string, y: string, whole: string, left: string)
    requires whole == h + (x + y) && left == h + x
    ensures whole == left + y
  {
  }

  /** A leading whitespace character does not change the words. */
  lemma WordsAfterSpace(x: char, t: string)
    requires IsSpace(x)
    ensures Words([x] + t) == Words(t)
  {
    assert ([x] + t)[1..] == t;
  }

  /** Dropping a leading run of spaces does not change the words. */
  lemma {:induction false} WordsDropRun(s: string)
    ensures Words(DropRun(s, ' ')) == Words(s)
    decreases |s|
  {
    if s != [] && s[0] == ' ' {
      WordsDropRun(s[1..]);
    }
  }

  /** `re.sub(r"[ ]+", " ", s)` keeps the words of `s`: only runs of spaces
      shrink, and they are still whitespace between the same words. */
  lemma {:induction false} CollapseSpacesWords(s: string)
    ensures Words(CollapseSpaces(s)) == Words(s)
    decreases |s|
  {
    if s == [] {
    } else if s[0] == ' ' {
      var r := DropRun(s, ' ');
      CollapseSpacesAtSpace(s);
      WordsAfterSpace(' ', CollapseSpaces(r));
      CollapseSpacesWords(r);
      WordsDropRun(s);
    } else if IsSpace(s[0]) {
      CollapseSpacesAtOther(s);
      WordsAfterSpace(s[0], CollapseSpaces(s[1..]));
      CollapseSpacesWords(s[1..]);
    } else {
      var n := WordLength(s);
      var w, t := s[..n], s[n..];
      assert s == w + t;
      assert ' ' !in w by {
        forall i | 0 <= i < |w| ensures w[i] != ' ' { assert !IsSpace(w[i]); }
      }
      CollapseSpacesPrefix(w, t);
      CollapseSpacesWords(t);
      WordsSplit(w, CollapseSpaces(t));
      WordsSplit(w, t);
    }
  }

  // ---------------------------------------------------------------- strip()

  /** `lstrip()`: a suffix of `s` that does not start with whitespace and
      whose dropped prefix is all whitespace. */
  function StripLeft(s: string): (r: string)
    ensures |r| <= |s| && r == s[|s| - |r|..]
    ensures r == [] || !IsSpace(r[0])
    ensures forall i :: 0 <= i < |s| - |r| ==> IsSpace(s[i])
  {
    if s != [] && IsSpace(s[0]) then StripLeft(s[1..]) else s
  }

  /** `rstrip()`: a prefix of `s` that does not end with whitespace and whose
      dropped suffix is all whitespace. */
  function StripRight(s: string): (r: string)
    ensures |r| <= |s| && r == s[..|r|]
    ensures r == [] || !IsSpace(r[|r| - 1])
    ensures forall i :: |r| <= i < |s| ==> IsSpace(s[i])
  {
    if s != [] && IsSpace(s[|s| - 1]) then StripRight(s[..|s| - 1]) else s
  }

  /** `r` is the slice of `s` left once all leading and all trailing
      whitespace is removed: what is cut off is whitespace, and `r` neither
      starts nor ends with whitespace. */
  predicate Trimmed(r: string, s: string) {
    (exists i, j :: (0 <= i <= j <= |s| && r == s[i..j]
      && (forall k :: 0 <= k < i ==> IsSpace(s[k]))
      && (forall k :: j <= k < |s| ==> IsSpace(s[k]))))
    && (r == [] || (!IsSpace(r[0]) && !IsSpace(r[|r| - 1])))
  }

  /** `strip()`: a slice of `s` that neither starts nor ends with whitespace;
      `StripTrims` shows that what it cuts off is whitespace. */
  function Strip(s: string): (r: string)
    ensures exists i, j :: 0 <= i <= j <= |s| && r == s[i..j]
    ensures r == [] || (!IsSpace(r[0]) && !IsSpace(r[|r| - 1]))
  {
    var l := StripLeft(s);
    var r := StripRight(l);
    assert r == s[|s| - |l|..|s| - |l| + |r|];
    r
  }

  /** `strip()` removes exactly the leading and the trailing whitespace. */
  lemma StripTrims(s: string)
    ensures Trimmed(Strip(s), s)
  {
    var l := StripLeft(s);
    TrimBothSides(s, l, StripRight(l));
  }

  /** Stripping the left, then the right, of `s`. */
  lemma TrimBothSides(s: string, l: string, r: string)
    requires |l| <= |s| && l == s[|s| - |l|..] && (l == [] || !IsSpace(l[0]))
    requires forall k :: 0 <= k < |s| - |l| ==> IsSpace(s[k])
    requires |r| <= |l| && r == l[..|r|] && (r == [] || !IsSpace(r[|r| - 1]))
    requires forall k :: |r| <= k < |l| ==> IsSpace(l[k])
    ensures Trimmed(r, s)
  {
    var i := |s| - |l|;
    assert r == s[i..i + |r|];
    assert r != [] ==> r[0] == l[0];
    forall k | i + |r| <= k < |s| ensures IsSpace(s[k]) {
      assert s[k] == l[k - i];
    }
    TrimmedAt(r, s, i, i + |r|);
  }

  lemma TrimmedAt(r: string, s: string, i: nat, j: nat)
    requires i <= j <= |s| && r == s[i..j]
    requires forall k :: 0 <= k < i ==> IsSpace(s[k])
    requires forall k :: j <= k < |s| ==> IsSpace(s[k])
    requires r == [] || (!IsSpace(r[0]) && !IsSpace(r[|r| - 1]))
    ensures Trimmed(r, s)
  {
  }

  // ---------------------------------------------------------------- strip(c)

  /** `s.lstrip(c)`: drops the leading run of `c`. */
  function StripCharLeft(s: string, c: char): (r: string)
    ensures |r| <= |s| && r == s[|s| - |r|..]
    ensures r == [] || r[0] != c
    ensures forall k :: 0 <= k < |s| - |r| ==> s[k] == c
  {
    if s != [] && s[0] == c then StripCharLeft(s[1..], c) else s
  }

  /** `s.rstrip(c)`: drops the trailing run of `c`. */
  function StripCharRight(s: string, c: char): (r: string)
    ensures |r| <= |s| && r == s[..|r|]
    ensures r == [] || r[|r| - 1] != c
    ensures forall k :: |r| <= k < |s| ==> s[k] == c
  {
    if s != [] && s[|s| - 1] == c then StripCharRight(s[..|s| - 1], c) else s
  }

  /** `r` is the slice of `s` left once every leading and every trailing `c`
      is removed: what is cut off is all `c`, and `r` neither starts nor ends
      with `c`. */
  predicate StrippedOf(r: string, s: string, c: char) {
    (exists i, j :: (0 <= i <= j <= |s| && r == s[i..j]
      && (forall k :: 0 <= k < i ==> s[k] == c)
      && (forall k :: j <= k < |s| ==> s[k] == c)))
    && (r == [] || (r[0] != c && r[|r| - 1] != c))
  }

  /** `s.strip(c)` for one character. */
  function StripChar(s: string, c: char): (r: string)
    ensures StrippedOf(r, s, c)
  {
    StripCharStrips(s, c);
    StripCharRight(StripCharLeft(s, c), c)
  }

  lemma StripCharStrips(s: string, c: char)
    ensures StrippedOf(StripCharRight(StripCharLeft(s, c), c), s, c)
  {
    var l := StripCharLeft(s, c);
    StripBothSides(s, l, StripCharRight(l, c), c);
  }

  /** Stripping the left, then the right, of `s`. */
  lemma StripBothSides(s: string, l: string, r: string, c: char)
    requires |l| <= |s| && l == s[|s| - |l|..] && (l == [] || l[0] != c)
    requires forall k :: 0 <= k < |s| - |l| ==> s[k] == c
    requires |r| <= |l| && r == l[..|r|] && (r == [] || r[|r| - 1] != c)
    requires forall k :: |r| <= k < |l| ==> l[k] == c
    ensures StrippedOf(r, s, c)
  {
    var i := |s| - |l|;
    assert r == s[i..i + |r|];
    assert r != [] ==> r[0] == l[0];
    forall k | i + |r| <= k < |s| ensures s[k] == c {
      assert s[k] == l[k - i];
    }
    StrippedAt(r, s, c, i, i + |r|);
  }

  lemma StrippedAt(r: string, s: string, c: char, i: nat, j: nat)
    requires i <= j <= |s| && r == s[i..j]
    requires forall k :: 0 <= k < i ==> s[k] == c
    requires forall k :: j <= k < |s| ==> s[k] == c
    requires r == [] || (r[0] != c && r[|r| - 1] != c)
    ensures StrippedOf(r, s, c)
  {
  }

  /** Python's `s.count(c)` for a single character. */
  function Count(s: string, c: char): (n: nat)
    ensures n <= |s|
    ensures n == 0 <==> c !in s
  {
    if s == [] then 0 else (if s[0] == c then 1 else 0) + Count(s[1..], c)
  }

  /** Counting over a concatenation adds the counts of the two parts. */
  lemma {:induction false} CountConcat(a: string, b: string, c: char)
    ensures Count(a + b, c) == Count(a, c) + Count(b, c)
    decreases |a|
  {
    if a != [] {
      assert (a + b)[1..] == a[1..] + b;
      CountConcat(a[1..], b, c);
    } else {
      assert a + b == b;
    }
  }

  /** A single character counts once if it is `c` and not at all otherwise;
      with `CountConcat` this fixes `Count` on every string. */
  lemma CountOne(x: char, c: char)
    ensures Count([x], c) == if x == c then 1 else 0
  {
  }

  // ---------------------------------------------------------------- split() and split(sep)

  /** The length of the leading run of non-whitespace characters. */
  function WordLength(s: string): (n: nat)
    ensures n <= |s|
    ensures forall i :: 0 <= i < n ==> !IsSpace(s[i])
    ensures n < |s| ==> IsSpace(s[n])
  {
    if s == [] || IsSpace(s[0]) then 0 else 1 + WordLength(s[1..])
  }

  /** Python's `s.split()`: the maximal runs of non-whitespace characters, in
      order. Every word is non-empty and holds no whitespace. */
  function Words(s: string): (ws: seq<string>)
    ensures forall k :: 0 <= k < |ws| ==> ws[k] != [] && NoSpace(ws[k])
    decreases |s|
  {
    if s == [] then []
    else if IsSpace(s[0]) then Words(s[1..])
    else
      var n := WordLength(s);
      [s[..n]] + Words(s[n..])
  }

  /** `w` occurs in `s` as a contiguous slice. */
  predicate IsSliceOf(w: string, s: string) {
    exists i, j :: 0 <= i <= j <= |s| && w == s[i..j]
  }

  /** A slice of a suffix is a slice of the whole. */
  lemma SliceOfSuffix(w: string, s: string, m: nat)
    requires m <= |s| && IsSliceOf(w, s[m..])
    ensures IsSliceOf(w, s)
  {
    var i, j :| 0 <= i <= j <= |s| - m && w == s[m..][i..j];
    forall k | 0 <= k < j - i ensures w[k] == s[i + m..j + m][k] {
      assert w[k] == s[m..][i + k] == s[i + m + k];
    }
    assert w == s[i + m..j + m];
  }

  /** Every word of `s` is a slice of `s`. */
  lemma {:induction false} WordsAreSlices(s: string)
    ensures forall k :: 0 <= k < |Words(s)| ==> IsSliceOf(Words(s)[k], s)
    decreases |s|
  {
    if s == [] {
    } else if IsSpace(s[0]) {
      var t := s[1..];
      WordsAreSlices(t);
      var ws := Words(s);
      assert ws == Words(t);
      forall k | 0 <= k < |ws| ensures IsSliceOf(ws[k], s) {
        SliceOfSuffix(ws[k], s, 1);
      }
    } else {
      var n := WordLength(s);
      var t := s[n..];
      WordsAreSlices(t);
      var ws := Words(s);
      assert ws == [s[..n]] + Words(t);
      forall k | 0 <= k < |ws| ensures IsSliceOf(ws[k], s) {
        if k == 0 {
          assert ws[0] == s[0..n];
        } else {
          assert ws[k] == Words(t)[k - 1];
          SliceOfSuffix(ws[k], s, n);
        }
      }
    }
  }

  lemma {:induction false} WordLengthAppend(w: string, rest: string)
    requires NoSpace(w) && (rest == [] || IsSpace(rest[0]))
    ensures WordLength(w + rest) == |w|
    decreases |w|
  {
    if w == [] {
    } else {
      assert (w + rest)[1..] == w[1..] + rest;
      WordLengthAppend(w[1..], rest);
    }
  }

  /** A word followed by whitespace (or the end) is the first word. */
  lemma WordsCons(w: string, rest: string)
    requires w != [] && NoSpace(w) && (rest == [] || IsSpace(rest[0]))
    ensures Words(w + rest) == [w] + Words(rest)
  {
    WordLengthAppend(w, rest);
    assert (w + rest)[..|w|] == w;
    assert (w + rest)[|w|..] == rest;
  }

  /** A string whose first `n` characters form a word. */
  lemma WordsAt(s: string, n: nat)
    requires 0 < n <= |s| && NoSpace(s[..n]) && (n == |s| || IsSpace(s[n]))
    ensures Words(s) == [s[..n]] + Words(s[n..])
  {
    WordsCons(s[..n], s[n..]);
    assert s[..n] + s[n..] == s;
  }

  predicate AllSpace(g: string) {
    forall i :: 0 <= i < |g| ==> IsSpace(g[i])
  }

  /** Words never span whitespace, so text cut before a whitespace character
      splits into the words of each side. */
  lemma {:induction false} WordsSplit(a: string, b: string)
    requires b == [] || IsSpace(b[0])
    ensures Words(a + b) == Words(a) + Words(b)
    decreases |a|
  {
    if a == [] {
      assert a + b == b;
    } else if IsSpace(a[0]) {
      WordsSplit(a[1..], b);
      WordsSplitSpace(a, b);
    } else {
      var n := WordLength(a);
      var w, t := a[..n], a[n..];
      assert a == w + t;
      WordsSplit(t, b);
      WordsSplitWord(w, t, b);
    }
  }

  lemma WordsSplitSpace(a: string, b: string)
    requires a != [] && IsSpace(a[0])
    requires Words(a[1..] + b) == Words(a[1..]) + Words(b)
    ensures Words(a + b) == Words(a) + Words(b)
  {
    assert (a + b)[1..] == a[1..] + b;
    WordsAtSpace(a + b);
    WordsAtSpace(a);
  }

  lemma WordsAtSpace(s: string)
    requires s != [] && IsSpace(s[0])
    ensures Words(s) == Words(s[1..])
  {
  }

  lemma WordsSplitWord(w: string, t: string, b: string)
    requires w != [] && NoSpace(w) && (t == [] || IsSpace(t[0])) && (b == [] || IsSpace(b[0]))
    requires Words(t + b) == Words(t) + Words(b)
    ensures Words((w + t) + b) == Words(w + t) + Words(b)
  {
    SeqAssoc(w, t, b);
    HeadSpace(t, b);
    WordsCons(w, t);
    WordsCons(w, t + b);
    SeqAssoc([w], Words(t), Words(b));
  }

  lemma HeadSpace(t: string, b: string)
    requires (t == [] || IsSpace(t[0])) && (b == [] || IsSpace(b[0]))
    ensures t + b == [] || IsSpace((t + b)[0])
  {
  }

  lemma SeqAssoc<T>(p: seq<T>, q: seq<T>, r: seq<T>)
    ensures p + (q + r) == (p + q) + r
  {
  }

  /** A non-space character between two spaces is a word of its own. */
  lemma WordsIsolated(c: char, t: string)
    requires !IsSpace(c)
    ensures Words([' ', c, ' '] + t) == [[c]] + Words(t)
  {
    var s := [' ', c, ' '] + t;
    WordsAtSpace(s);
    assert s[1..] == [c] + ([' '] + t);
    WordsCons([c], [' '] + t);
    WordsAtSpace([' '] + t);
    assert ([' '] + t)[1..] == t;
  }

  /** After isolating a mark that is not whitespace, a run of it of any length
      `n >= 1` is the single word `[c]`. */
  lemma WordsOfRun(n: nat, c: char, b: string)
    requires n >= 1 && !IsSpace(c) && (b == [] || b[0] != c)
    ensures Words(IsolateRuns(seq(n, _ => c) + b, c)) == [[c]] + Words(IsolateRuns(b, c))
  {
    IsolateRunsRun(n, c, b);
    WordsIsolated(c, IsolateRuns(b, c));
  }

  /** Leading whitespace does not change the words. */
  lemma {:induction false} WordsLeadingSpace(g: string, t: string)
    requires AllSpace(g)
    ensures Words(g + t) == Words(t)
    decreases |g|
  {
    if g == [] {
      assert g + t == t;
    } else {
      assert (g + t)[1..] == g[1..] + t;
      WordsLeadingSpace(g[1..], t);
    }
  }

  /** The text `gaps[0] + ws[0] + gaps[1] + ... + ws[n-1] + gaps[n]`. */
  function Spaced(ws: seq<string>, gaps: seq<string>): string
    requires |gaps| == |ws| + 1
    decreases |ws|
  {
    if ws == [] then gaps[0] else gaps[0] + ws[0] + Spaced(ws[1..], gaps[1..])
  }

  /** Words laid out with whitespace between them are recovered by `split()`,
      however wide each gap is. */
  lemma {:induction false} WordsSpaced(ws: seq<string>, gaps: seq<string>)
    requires |gaps| == |ws| + 1
    requires forall k :: 0 <= k < |ws| ==> ws[k] != [] && NoSpace(ws[k])
    requires forall k :: 0 <= k < |gaps| ==> AllSpace(gaps[k])
    requires forall k :: 0 < k < |ws| ==> gaps[k] != []
    ensures Words(Spaced(ws, gaps)) == ws
    decreases |ws|
  {
    if ws == [] {
      WordsLeadingSpace(gaps[0], []);
      assert gaps[0] + [] == gaps[0];
    } else {
      var rest := Spaced(ws[1..], gaps[1..]);
      WordsSpaced(ws[1..], gaps[1..]);
      assert rest == [] || IsSpace(rest[0]) by {
        if |ws| == 1 {
          assert rest == gaps[1];
        } else {
          assert rest == gaps[1] + ws[1] + Spaced(ws[2..], gaps[2..]);
        }
      }
      WordsCons(ws[0], rest);
      assert Spaced(ws, gaps) == gaps[0] + (ws[0] + rest);
      WordsLeadingSpace(gaps[0], ws[0] + rest);
    }
  }

  /** Trailing whitespace does not change the words. */
  lemma {:induction false} WordsTrailingSpace(t: string, u: string)
    requires forall i :: 0 <= i < |u| ==> IsSpace(u[i])
    ensures Words(t + u) == Words(t)
    decreases |t| + |u|
  {
    if t == [] {
      if u != [] {
        assert u[1..] == [] + u[1..];
        WordsTrailingSpace([], u[1..]);
        assert [] + u == u;
      }
    } else if IsSpace(t[0]) {
      assert (t + u)[1..] == t[1..] + u;
      WordsTrailingSpace(t[1..], u);
    } else {
      var n := WordLength(t);
      assert t == t[..n] + t[n..];
      assert NoSpace(t[..n]);
      assert t[n..] == [] || IsSpace(t[n..][0]);
      WordsCons(t[..n], t[n..]);
      assert t + u == t[..n] + (t[n..] + u);
      assert t[n..] + u == [] || IsSpace((t[n..] + u)[0]);
      WordsCons(t[..n], t[n..] + u);
      WordsTrailingSpace(t[n..], u);
    }
  }

  /** `split()` ignores what `strip()` removes. */
  lemma WordsStrip(s: string)
    ensures Words(Strip(s)) == Words(s)
  {
    WordsStripLeft(s);
    WordsStripRight(StripLeft(s));
  }

  lemma {:induction false} WordsStripLeft(s: string)
    ensures Words(StripLeft(s)) == Words(s)
    decreases |s|
  {
    if s != [] && IsSpace(s[0]) { WordsStripLeft(s[1..]); }
  }

  lemma {:induction false} WordsStripRight(s: string)
    ensures Words(StripRight(s)) == Words(s)
    decreases |s|
  {
    if s != [] && IsSpace(s[|s| - 1]) {
      var t := s[..|s| - 1];
      WordsStripRight(t);
      assert s == t + [s[|s| - 1]];
      WordsTrailingSpace(t, [s[|s| - 1]]);
    }
  }

  /** The characters of `s` that are not whitespace, in order. */
  function NonSpace(s: string): string {
    if s == [] then [] else (if IsSpace(s[0]) then [] else [s[0]]) + NonSpace(s[1..])
  }

  /** Concatenation of a sequence of strings. */
  function Concat(ss: seq<string>): string {
    if ss == [] then [] else ss[0] + Concat(ss[1..])
  }

  lemma {:induction false} NonSpaceOfWord(s: string, n: nat)
    requires n <= |s| && forall i :: 0 <= i < n ==> !IsSpace(s[i])
    ensures NonSpace(s) == s[..n] + NonSpace(s[n..])
    decreases n
  {
    if n > 0 {
      NonSpaceOfWord(s[1..], n - 1);
      assert s[1..][n - 1..] == s[n..];
      assert [s[0]] + s[1..][..n - 1] == s[..n];
    }
  }

  /** `split()` loses exactly the whitespace: its words, put back together,
      are the non-whitespace characters of `s`. */
  lemma {:induction false} WordsConcat(s: string)
    ensures Concat(Words(s)) == NonSpace(s)
    decreases |s|
  {
    if s == [] {
    } else if IsSpace(s[0]) {
      WordsConcat(s[1..]);
    } else {
      var n := WordLength(s);
      WordsConcat(s[n..]);
      NonSpaceOfWord(s, n);
      assert Words(s) == [s[..n]] + Words(s[n..]);
      assert Words(s)[1..] == Words(s[n..]);
    }
  }

  /** Python's `s.split(sep)`: the pieces between the occurrences of `sep`, found
      left to right without overlap; there is always at least one piece. */
  function SplitOn(s: string, sep: string): (parts: seq<string>)
    requires sep != []
    ensures |parts| >= 1
    decreases |s|
  {
    if |s| < |sep| then [s]
    else if s[..|sep|] == sep then [[]] + SplitOn(s[|sep|..], sep)
    else
      var rest := SplitOn(s[1..], sep);
      [[s[0]] + rest[0]] + rest[1..]
  }

  /** No occurrence of `sep` starts inside `p`, even one that would run on
      into a separator written after `p`: `p` is a piece the left-to-right
      scan cuts off at the first separator that follows it. */
  predicate Leftmost(p: string, sep: string)
    requires sep != []
  {
    !Contains(p + sep[..|sep| - 1], sep)
  }

  /** A string without the separator is one piece. */
  lemma {:induction false} SplitOnWhole(a: string, sep: string)
    requires sep != [] && !Contains(a, sep)
    ensures SplitOn(a, sep) == [a]
    decreases |a|
  {
    if |a| >= |sep| {
      assert !OccursAt(a, sep, 0);
      forall i: nat | i <= |a| - 1 ensures !OccursAt(a[1..], sep, i) {
        OccursShift(a, sep, i);
      }
      SplitOnWhole(a[1..], sep);
      assert [a[0]] + a[1..] == a;
    }
  }

  /** A string without the separator's first character is one piece. */
  lemma SplitOnNone(a: string, sep: string)
    requires sep != [] && sep[0] !in a
    ensures SplitOn(a, sep) == [a]
  {
    MissingChar(a, sep, sep[0]);
    SplitOnWhole(a, sep);
  }

  /** Text in which no separator starts before `sep` is the first piece. */
  lemma {:induction false} SplitOnLeading(a: string, b: string, sep: string)
    requires sep != [] && Leftmost(a, sep)
    ensures SplitOn(a + sep + b, sep) == [a] + SplitOn(b, sep)
    decreases |a|
  {
    var s := a + sep + b;
    var front := sep[..|sep| - 1];
    if a == [] {
      assert s == sep + b;
      assert s[..|sep|] == sep && s[|sep|..] == b;
    } else {
      assert s[..|sep|] != sep by {
        assert (a + front)[..|sep|] == s[..|sep|];
        assert !OccursAt(a + front, sep, 0);
      }
      assert s[1..] == a[1..] + sep + b;
      assert Leftmost(a[1..], sep) by {
        assert a[1..] + front == (a + front)[1..];
        forall i: nat | i <= |a[1..] + front| ensures !OccursAt(a[1..] + front, sep, i) {
          OccursShift(a + front, sep, i);
        }
      }
      SplitOnLeading(a[1..], b, sep);
      assert [a[0]] + a[1..] == a;
    }
  }

  /** Text before the first separator, when it lacks the separator's first
      character, is the first piece. */
  lemma SplitOnFirst(a: string, b: string, sep: string)
    requires sep != [] && sep[0] !in a
    ensures SplitOn(a + sep + b, sep) == [a] + SplitOn(b, sep)
  {
    LeftmostLacking(a, sep);
    SplitOnLeading(a, b, sep);
  }

  /** A separator can only start at one of its own first characters. */
  lemma LeftmostLacking(a: string, sep: string)
    requires sep != [] && sep[0] !in a
    ensures Leftmost(a, sep)
  {
    var t := a + sep[..|sep| - 1];
    forall i: nat | i <= |t| ensures !OccursAt(t, sep, i) {
      if i + |sep| <= |t| {
        assert t[i..i + |sep|][0] == a[i];
      }
    }
  }

  /** `sep.join(parts)`. */
  function JoinWith(parts: seq<string>, sep: string): string
    requires |parts| >= 1
  {
    if |parts| == 1 then parts[0] else parts[0] + sep + JoinWith(parts[1..], sep)
  }

  /** Joining the pieces back with the separator gives the original string. */
  lemma {:induction false} SplitOnJoin(s: string, sep: string)
    requires sep != []
    ensures JoinWith(SplitOn(s, sep), sep) == s
    decreases |s|
  {
    if |s| < |sep| {
    } else if s[..|sep|] == sep {
      SplitOnJoin(s[|sep|..], sep);
      JoinLeadingSep(SplitOn(s, sep), SplitOn(s[|sep|..], sep), s, sep);
    } else {
      SplitOnJoin(s[1..], sep);
      JoinCons(SplitOn(s, sep), SplitOn(s[1..], sep), s[0], s[1..], sep);
      assert s == [s[0]] + s[1..];
    }
  }

  lemma JoinLeadingSep(parts: seq<string>, tail: seq<string>, s: string, sep: string)
    requires |sep| <= |s| && s[..|sep|] == sep
    requires |tail| >= 1 && parts == [[]] + tail && JoinWith(tail, sep) == s[|sep|..]
    ensures JoinWith(parts, sep) == s
  {
    assert parts[1..] == tail;
    calc {
      JoinWith(parts, sep);
      [] + sep + JoinWith(tail, sep);
      sep + s[|sep|..];
      { assert s == s[..|sep|] + s[|sep|..]; }
      s;
    }
  }

  lemma JoinCons(parts: seq<string>, rest: seq<string>, x: char, t: string, sep: string)
    requires |rest| >= 1 && parts == [[x] + rest[0]] + rest[1..] && JoinWith(rest, sep) == t
    ensures JoinWith(parts, sep) == [x] + t
  {
    if |rest| > 1 {
      var r, j := rest[0], JoinWith(rest[1..], sep);
      assert parts[1..] == rest[1..];
      assert JoinWith(parts, sep) == ([x] + r) + sep + j;
      assert t == r + sep + j;
      SeqAssoc4([x], r, sep, j);
    }
  }

  lemma SeqAssoc4<T>(a: seq<T>, b: seq<T>, c: seq<T>, d: seq<T>)
    ensures a + b + c + d == a + (b + c + d)
  {
  }

  lemma OccursDrop(s: string, pat: string, n: nat, i: nat)
    requires n <= |s|
    ensures OccursAt(s[n..], pat, i) <==> OccursAt(s, pat, i + n)
  {
    if i + |pat| <= |s| - n {
      assert s[n..][i..i + |pat|] == s[i + n..i + n + |pat|];
    }
  }

  /** The separator is found in `s` exactly when `split` yields two or more
      pieces, and no piece contains the separator. */
  lemma {:induction false} SplitOnPieces(s: string, sep: string)
    requires sep != []
    ensures Contains(s, sep) <==> |SplitOn(s, sep)| >= 2
    ensures forall k :: 0 <= k < |SplitOn(s, sep)| ==> !Contains(SplitOn(s, sep)[k], sep)
    decreases |s|
  {
    var parts := SplitOn(s, sep);
    if |s| < |sep| {
      assert forall i: nat :: !OccursAt(s, sep, i);
    } else if s[..|sep|] == sep {
      SplitOnPieces(s[|sep|..], sep);
      assert OccursAt(s, sep, 0);
      assert !Contains([], sep) by { assert forall i: nat :: !OccursAt([], sep, i); }
      assert parts[1..] == SplitOn(s[|sep|..], sep);
    } else {
      var rest := SplitOn(s[1..], sep);
      SplitOnPieces(s[1..], sep);
      SplitOnJoin(s[1..], sep);
      ContainsTail(s, sep);
      PiecesCons(s, sep, rest, parts);
    }
  }

  /** Without an occurrence at the front, `s` contains `sep` exactly when its
      tail does. */
  lemma ContainsTail(s: string, sep: string)
    requires sep != [] && |s| >= |sep| && s[..|sep|] != sep
    ensures Contains(s, sep) <==> Contains(s[1..], sep)
  {
    assert !OccursAt(s, sep, 0);
    forall i: nat ensures OccursAt(s[1..], sep, i) <==> OccursAt(s, sep, i + 1) {
      OccursShift(s, sep, i);
    }
    if Contains(s, sep) {
      var i: nat :| OccursAt(s, sep, i);
      assert i >= 1;
      assert OccursAt(s[1..], sep, i - 1);
    }
    if Contains(s[1..], sep) {
      var i: nat :| OccursAt(s[1..], sep, i);
      assert OccursAt(s, sep, i + 1);
    }
  }

  /** Helper: the pieces of the tail, with the first character put in front
      of the first one, keep both facts of `SplitOnPieces`. */
  lemma PiecesCons(s: string, sep: string, rest: seq<string>, parts: seq<string>)
    requires sep != [] && |s| >= |sep| && s[..|sep|] != sep
    requires |rest| >= 1 && JoinWith(rest, sep) == s[1..]
    requires parts == [[s[0]] + rest[0]] + rest[1..]
    requires Contains(s, sep) <==> Contains(s[1..], sep)
    requires Contains(s[1..], sep) <==> |rest| >= 2
    requires forall k :: 0 <= k < |rest| ==> !Contains(rest[k], sep)
    ensures Contains(s, sep) <==> |parts| >= 2
    ensures forall k :: 0 <= k < |parts| ==> !Contains(parts[k], sep)
  {
    PieceNotContained(s, sep, rest);
    forall k | 0 <= k < |parts| ensures !Contains(parts[k], sep) {
      if k > 0 { assert parts[k] == rest[k]; }
    }
  }

  /** Every piece but the last is cut at the first separator after it: no
      occurrence of `sep` starts inside it. */
  lemma {:induction false} SplitOnLeftmost(s: string, sep: string)
    requires sep != []
    ensures forall k :: 0 <= k < |SplitOn(s, sep)| - 1 ==> Leftmost(SplitOn(s, sep)[k], sep)
    decreases |s|
  {
    var parts := SplitOn(s, sep);
    var front := sep[..|sep| - 1];
    if |s| < |sep| {
    } else if s[..|sep|] == sep {
      SplitOnLeftmost(s[|sep|..], sep);
      assert Leftmost([], sep) by {
        assert [] + front == front;
        assert forall i: nat :: !OccursAt(front, sep, i);
      }
      assert parts[1..] == SplitOn(s[|sep|..], sep);
      forall k | 0 <= k < |parts| - 1 ensures Leftmost(parts[k], sep) {
        if k > 0 { assert parts[k] == SplitOn(s[|sep|..], sep)[k - 1]; }
      }
    } else {
      var rest := SplitOn(s[1..], sep);
      SplitOnLeftmost(s[1..], sep);
      if |rest| >= 2 {
        SplitOnJoin(s[1..], sep);
        LeadingPieceLeftmost(s, sep, rest);
        forall k | 0 <= k < |parts| - 1 ensures Leftmost(parts[k], sep) {
          if k > 0 { assert parts[k] == rest[k]; }
        }
      }
    }
  }

  /** Helper: the first piece of `s[1..]`, extended by `s[0]`, stays leftmost
      when `s` does not start with the separator. */
  lemma LeadingPieceLeftmost(s: string, sep: string, rest: seq<string>)
    requires sep != [] && |s| >= |sep| && s[..|sep|] != sep
    requires |rest| >= 2 && JoinWith(rest, sep) == s[1..]
    requires Leftmost(rest[0], sep)
    ensures Leftmost([s[0]] + rest[0], sep)
  {
    var w := rest[0] + sep[..|sep| - 1];
    assert s[1..] == rest[0] + sep + JoinWith(rest[1..], sep);
    assert s[1..][..|w|] == w;
    ConsPrefixNotAt(s, w, sep);
    ConsNotContained(s[0], w, sep);
    assert [s[0]] + rest[0] + sep[..|sep| - 1] == [s[0]] + w;
  }

  /** The pieces are determined: any list whose pieces but the last are
      leftmost and whose last piece holds no separator is what `split(sep)`
      returns for the text it joins to. */
  lemma {:induction false} SplitOnUnique(parts: seq<string>, sep: string)
    requires sep != [] && |parts| >= 1
    requires forall k :: 0 <= k < |parts| - 1 ==> Leftmost(parts[k], sep)
    requires !Contains(parts[|parts| - 1], sep)
    ensures SplitOn(JoinWith(parts, sep), sep) == parts
    decreases |parts|
  {
    if |parts| == 1 {
      SplitOnWhole(parts[0], sep);
    } else {
      var tail := parts[1..];
      assert forall k :: 0 <= k < |tail| - 1 ==> tail[k] == parts[k + 1];
      SplitOnUnique(tail, sep);
      SplitOnLeading(parts[0], JoinWith(tail, sep), sep);
      assert [parts[0]] + tail == parts;
    }
  }

  /** `split(sep)` characterised: `parts` is the result for `s` exactly when
      the pieces join back to `s`, every piece but the last is leftmost, and
      the last holds no separator. */
  lemma SplitOnCharacterised(s: string, sep: string, parts: seq<string>)
    requires sep != [] && |parts| >= 1
    ensures SplitOn(s, sep) == parts <==>
      && JoinWith(parts, sep) == s
      && (forall k :: 0 <= k < |parts| - 1 ==> Leftmost(parts[k], sep))
      && !Contains(parts[|parts| - 1], sep)
  {
    SplitOnJoin(s, sep);
    SplitOnLeftmost(s, sep);
    SplitOnPieces(s, sep);
    if && JoinWith(parts, sep) == s
       && (forall k :: 0 <= k < |parts| - 1 ==> Leftmost(parts[k], sep))
       && !Contains(parts[|parts| - 1], sep)
    {
      SplitOnUnique(parts, sep);
    }
  }

  /** Helper: the first piece of `s[1..]`, extended by `s[0]`, holds no separator
      when `s` does not start with one. */
  lemma PieceNotContained(s: string, sep: string, rest: seq<string>)
    requires sep != [] && |s| >= |sep| && s[..|sep|] != sep
    requires |rest| >= 1 && JoinWith(rest, sep) == s[1..]
    requires !Contains(rest[0], sep)
    ensures !Contains([s[0]] + rest[0], sep)
  {
    JoinWithPrefix(rest, sep);
    ConsPrefixNotAt(s, rest[0], sep);
    ConsNotContained(s[0], rest[0], sep);
  }

  lemma ConsPrefixNotAt(s: string, w: string, sep: string)
    requires |s| >= |sep| && s[..|sep|] != sep
    requires |w| < |s| && s[1..][..|w|] == w
    ensures !OccursAt([s[0]] + w, sep, 0)
  {
    var head := [s[0]] + w;
    assert head == s[..|head|];
    if |head| >= |sep| {
      assert head[..|sep|] == s[..|sep|];
    }
  }

  lemma JoinWithPrefix(parts: seq<string>, sep: string)
    requires |parts| >= 1
    ensures |parts[0]| <= |JoinWith(parts, sep)|
    ensures JoinWith(parts, sep)[..|parts[0]|] == parts[0]
  {
    if |parts| > 1 {
      assert JoinWith(parts, sep) == parts[0] + (sep + JoinWith(parts[1..], sep));
    }
  }

  /** A character put in front of a string without the separator adds an
      occurrence only at the front. */
  lemma ConsNotContained(x: char, w: string, sep: string)
    requires !Contains(w, sep) && !OccursAt([x] + w, sep, 0)
    ensures !Contains([x] + w, sep)
  {
    var head := [x] + w;
    forall i: nat | 1 <= i <= |head| && OccursAt(head, sep, i) ensures false {
      assert head[i..i + |sep|] == w[i - 1..i - 1 + |sep|];
      assert OccursAt(w, sep, i - 1);
    }
  }
}
