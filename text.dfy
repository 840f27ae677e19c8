/**
 * The regular-expression text cleanup applied to a job description
 * (job_analyzer.py:131-141), written as recursive string functions, one per
 * `re.sub` call, together with the case-insensitive substring test used for
 * skill mentions.
 */
module Text {
  import opened Wrappers

  /** Python's `str.isspace`, which is also the class `\s` matches in a str pattern. */
  predicate IsSpace(c: char)
  {
    ('\t' <= c <= '\r') || ('\U{1C}' <= c <= ' ') || c == '\U{85}' || c == '\U{A0}'
    || c == '\U{1680}' || ('\U{2000}' <= c <= '\U{200A}') || c == '\U{2028}' || c == '\U{2029}'
    || c == '\U{202F}' || c == '\U{205F}' || c == '\U{3000}'
  }

  /**
   * Whether text character `c` matches pattern character `p` under
   * `re.IGNORECASE`, for the lower-case ASCII patterns used here: `c` lowers
   * to `p` (ASCII upper case, U+0130 for `i`, the Kelvin sign for `k`), or is
   * one of the extra case pairs Python adds (dotless i, long s).
   */
  predicate FoldsTo(c: char, p: char)
  {
    c == p
    || ('A' <= c <= 'Z' && c as int + 32 == p as int)
    || (p == 'i' && (c == '\U{130}' || c == '\U{131}'))
    || (p == 's' && c == '\U{17F}')
    || (p == 'k' && c == '\U{212A}')
  }

  predicate StartsWith(s: string, p: string)
  {
    |p| <= |s| && s[..|p|] == p
  }

  predicate StartsWithFolded(s: string, p: string)
  {
    |p| <= |s| && forall j :: 0 <= j < |p| ==> FoldsTo(s[j], p[j])
  }

  /** Every whitespace character of `s` is a plain space. */
  predicate PlainSpacesOnly(s: string)
  {
    forall c :: c in s && IsSpace(c) ==> c == ' '
  }

  /** No two adjacent spaces. */
  predicate NoDoubleSpace(s: string)
  {
    forall i :: 0 <= i < |s| - 1 ==> !(s[i] == ' ' && s[i + 1] == ' ')
  }

  /** Neither the first nor the last character is whitespace. */
  predicate Trimmed(s: string)
  {
    s == [] || (!IsSpace(s[0]) && !IsSpace(s[|s| - 1]))
  }

  /** The characters of `s` that are not whitespace, in order. */
  function NonSpace(s: string): string
  {
    if s == [] then []
    else if IsSpace(s[0]) then NonSpace(s[1..])
    else [s[0]] + NonSpace(s[1..])
  }

  lemma {:induction false} NonSpaceAppend(a: string, b: string)
    ensures NonSpace(a + b) == NonSpace(a) + NonSpace(b)
  {
    if a == [] {
      assert a + b == b;
    } else {
      assert (a + b)[0] == a[0];
      assert (a + b)[1..] == a[1..] + b;
      NonSpaceAppend(a[1..], b);
    }
  }

  /** Length of the run of whitespace at the start of `s`. */
  function SpaceRun(s: string): (n: nat)
    ensures n <= |s|
    ensures forall j :: 0 <= j < n ==> IsSpace(s[j])
    ensures n < |s| ==> !IsSpace(s[n])
  {
    if s != [] && IsSpace(s[0]) then 1 + SpaceRun(s[1..]) else 0
  }

  lemma SpaceRunNonSpace(s: string, n: nat)
    requires n <= SpaceRun(s)
    ensures NonSpace(s[..n]) == []
  {
    if n > 0 {
      assert s[..n][1..] == s[1..][..n - 1];
      SpaceRunNonSpace(s[1..], n - 1);
    }
  }

  // ---------------------------------------------------------------------
  // Step 1: re.sub(r'\s+', ' ', text)
  // ---------------------------------------------------------------------

  /** Replaces every maximal run of whitespace by one plain space. */
  function CollapseSpaces(s: string): (r: string)
    decreases |s|
    ensures |r| <= |s|
    ensures PlainSpacesOnly(r) && NoDoubleSpace(r)
    ensures s != [] ==> r != [] && (r[0] == ' ' <==> IsSpace(s[0]))
    ensures s != [] && !IsSpace(s[0]) ==> r[0] == s[0]
    ensures NonSpace(r) == NonSpace(s)
  {
    if s == [] then []
    else if IsSpace(s[0]) then
      var rest := s[SpaceRun(s)..];
      SpaceRunNonSpace(s, SpaceRun(s));
      assert s == s[..SpaceRun(s)] + rest;
      NonSpaceAppend(s[..SpaceRun(s)], rest);
      NonSpaceAppend(" ", CollapseSpaces(rest));
      " " + CollapseSpaces(rest)
    else
      assert s == [s[0]] + s[1..];
      NonSpaceAppend([s[0]], s[1..]);
      NonSpaceAppend([s[0]], CollapseSpaces(s[1..]));
      [s[0]] + CollapseSpaces(s[1..])
  }

  /** The last character is a space iff the input ends with whitespace, and is kept otherwise. */
  lemma {:induction false} CollapseSpacesLast(s: string)
    decreases |s|
    ensures s != [] ==> (CollapseSpaces(s) != []
      && (CollapseSpaces(s)[|CollapseSpaces(s)| - 1] == ' ' <==> IsSpace(s[|s| - 1])))
    ensures s != [] && !IsSpace(s[|s| - 1]) ==> CollapseSpaces(s)[|CollapseSpaces(s)| - 1] == s[|s| - 1]
  {
    if s != [] {
      var rest := if IsSpace(s[0]) then s[SpaceRun(s)..] else s[1..];
      assert CollapseSpaces(s) == (if IsSpace(s[0]) then " " else [s[0]]) + CollapseSpaces(rest);
      if rest != [] {
        CollapseSpacesLast(rest);
        assert rest[|rest| - 1] == s[|s| - 1];
      }
    }
  }

  /** Text that already has only single plain spaces is left alone, and only such text is. */
  lemma {:induction false} CollapseSpacesFixpoint(s: string)
    ensures CollapseSpaces(s) == s <==> PlainSpacesOnly(s) && NoDoubleSpace(s)
  {
    if PlainSpacesOnly(s) && NoDoubleSpace(s) && s != [] {
      CollapseSpacesFixpoint(s[1..]);
      assert PlainSpacesOnly(s[1..]) && NoDoubleSpace(s[1..]) by {
        forall i | 0 <= i < |s[1..]| - 1 ensures !(s[1..][i] == ' ' && s[1..][i + 1] == ' ') {
          assert s[1..][i] == s[i + 1] && s[1..][i + 1] == s[i + 2];
        }
      }
      if IsSpace(s[0]) {
        assert SpaceRun(s) == 1 by {
          assert s[0] == ' ';
          if |s| > 1 {
            assert s[1] != ' ';
            assert !IsSpace(s[1]);
          }
        }
      }
    }
  }

  lemma CollapseSpacesIdempotent(s: string)
    ensures CollapseSpaces(CollapseSpaces(s)) == CollapseSpaces(s)
  {
    CollapseSpacesFixpoint(CollapseSpaces(s));
  }

  /** Length of the run of non-whitespace characters at the start of `s`. */
  function WordRun(s: string): (n: nat)
    ensures n <= |s|
    ensures s != [] && !IsSpace(s[0]) ==> n > 0
  {
    if s != [] && !IsSpace(s[0]) then 1 + WordRun(s[1..]) else 0
  }

  /** The maximal runs of non-whitespace characters of `s`, in order. */
  function Words(s: string): seq<string>
    decreases |s|
  {
    var t := s[SpaceRun(s)..];
    if t == [] then [] else [t[..WordRun(t)]] + Words(t[WordRun(t)..])
  }

  /** Whitespace in front of a text does not change its words. */
  lemma SpaceConsWords(c: char, x: string)
    requires IsSpace(c)
    ensures Words([c] + x) == Words(x)
  {
    var s := [c] + x;
    assert s[1..] == x;
    assert s[SpaceRun(s)..] == x[SpaceRun(x)..];
  }

  /** A non-whitespace character in front of a text opens its first word, or a word of its own. */
  lemma WordCons(c: char, x: string)
    requires !IsSpace(c)
    ensures x == [] || IsSpace(x[0]) ==> Words([c] + x) == [[c]] + Words(x)
    ensures x != [] && !IsSpace(x[0]) ==> Words(x) != [] && Words([c] + x) == [[c] + Words(x)[0]] + Words(x)[1..]
  {
    var s := [c] + x;
    assert s[1..] == x;
    assert s[0..] == s && x[0..] == x;
    var w := WordRun(x);
    assert s[..1 + w] == [c] + x[..w];
    assert s[1 + w..] == x[w..];
  }

  /** Leading whitespace does not change the words of a text. */
  lemma WordsSkipSpace(s: string)
    ensures Words(s) == Words(s[SpaceRun(s)..])
  {
    var t := s[SpaceRun(s)..];
    assert SpaceRun(t) == 0;
    assert t[0..] == t;
  }

  /** Collapsing whitespace keeps every word: the maximal non-whitespace runs are the same. */
  lemma {:induction false} CollapseSpacesWords(s: string)
    decreases |s|
    ensures Words(CollapseSpaces(s)) == Words(s)
  {
    if s != [] && IsSpace(s[0]) {
      var rest := s[SpaceRun(s)..];
      assert CollapseSpaces(s) == " " + CollapseSpaces(rest);
      CollapseSpacesWords(rest);
      SpaceConsWords(' ', CollapseSpaces(rest));
      WordsSkipSpace(s);
    } else if s != [] {
      var rest := s[1..];
      assert CollapseSpaces(s) == [s[0]] + CollapseSpaces(rest);
      CollapseSpacesWords(rest);
      WordConsSame(s[0], CollapseSpaces(rest), rest);
      WordsFirst(s);
    }
  }

  lemma WordsFirst(s: string)
    requires s != []
    ensures Words(s) == Words([s[0]] + s[1..])
  {
    assert s == [s[0]] + s[1..];
  }

  /** Texts with the same words that agree on opening with whitespace keep the same words under a common first character. */
  lemma WordConsSame(c: char, x: string, y: string)
    requires Words(x) == Words(y) && (x == [] <==> y == [])
    requires x != [] && y != [] ==> (IsSpace(x[0]) <==> IsSpace(y[0]))
    ensures Words([c] + x) == Words([c] + y)
  {
    if IsSpace(c) {
      SpaceConsWords(c, x);
      SpaceConsWords(c, y);
    } else {
      WordCons(c, x);
      WordCons(c, y);
    }
  }

  /** `r` is `s` with some characters deleted. */
  predicate IsSubsequence(r: string, s: string)
    decreases |s|
  {
    r == [] || (s != [] && ((r[0] == s[0] && IsSubsequence(r[1..], s[1..])) || IsSubsequence(r, s[1..])))
  }

  lemma {:induction false} SubsequenceDrop(r: string, s: string, k: nat)
    requires k <= |s| && IsSubsequence(r, s[k..])
    ensures IsSubsequence(r, s)
  {
    if k > 0 {
      assert s[1..][k - 1..] == s[k..];
      SubsequenceDrop(r, s[1..], k - 1);
    }
  }

  // ---------------------------------------------------------------------
  // Step 2: re.sub(r'(Show\s*more|See\s*more|Show\s*less)', '', text, flags=re.IGNORECASE)
  // ---------------------------------------------------------------------

  /**
   * Length of a case-insensitive match of `w1\s*w2` at the start of `s`, or 0.
   * Taking the whole whitespace run is exact: no whitespace character folds
   * to a letter, so backtracking into `\s*` never helps.
   */
  function GapMatch(s: string, w1: string, w2: string): (n: nat)
    ensures n <= |s|
  {
    if StartsWithFolded(s, w1) then
      var k := |w1| + SpaceRun(s[|w1|..]);
      if w2 != [] && StartsWithFolded(s[k..], w2) then k + |w2| else 0
    else 0
  }

  /** Length of the UI phrase the alternation matches at the start of `s`, or 0. */
  function PhraseLen(s: string): (n: nat)
    ensures n <= |s|
  {
    var a := GapMatch(s, "show", "more");
    if a > 0 then a
    else
      var b := GapMatch(s, "see", "more");
      if b > 0 then b else GapMatch(s, "show", "less")
  }

  /** Some position of `s` starts a UI phrase. */
  predicate HasUiPhrase(s: string)
  {
    exists i :: 0 <= i < |s| && PhraseLen(s[i..]) > 0
  }

  /** A UI phrase starts at position `i` of `s`. */
  predicate PhraseAt(s: string, i: nat)
  {
    i < |s| && PhraseLen(s[i..]) > 0
  }

  /** One left-to-right pass deleting every UI phrase it meets. */
  function DeleteUiPhrases(s: string): (r: string)
    decreases |s|
    ensures |r| <= |s|
    ensures forall c :: c in r ==> c in s
    ensures IsSubsequence(r, s)
  {
    if s == [] then []
    else if PhraseLen(s) > 0 then
      var r := DeleteUiPhrases(s[PhraseLen(s)..]);
      SubsequenceDrop(r, s, PhraseLen(s));
      r
    else
      var r := [s[0]] + DeleteUiPhrases(s[1..]);
      assert r[1..] == DeleteUiPhrases(s[1..]);
      r
  }

  /**
   * The pass keeps the text in front of the first UI phrase, drops that
   * phrase and resumes right after it.
   */
  lemma DeleteUiPhrasesFirst(s: string, i: nat)
    requires PhraseAt(s, i) && forall j :: 0 <= j < i ==> !PhraseAt(s, j)
    ensures DeleteUiPhrases(s) == s[..i] + DeleteUiPhrases(s[i + PhraseLen(s[i..])..])
  {
    DeleteUiPhrasesKeep(s, i);
    assert s[i..][PhraseLen(s[i..])..] == s[i + PhraseLen(s[i..])..];
  }

  /** The pass copies any prefix in which no UI phrase starts. */
  lemma {:induction false} DeleteUiPhrasesKeep(s: string, i: nat)
    requires i <= |s| && forall j :: 0 <= j < i ==> !PhraseAt(s, j)
    ensures DeleteUiPhrases(s) == s[..i] + DeleteUiPhrases(s[i..])
  {
    if i > 0 {
      var s' := s[1..];
      DeleteUiPhrasesCopy(s);
      NoPhraseShift(s, i);
      DeleteUiPhrasesKeep(s', i - 1);
      assert s'[i - 1..] == s[i..];
      KeepPrefixStep(s, i, DeleteUiPhrases(s[i..]));
    } else {
      assert s[0..] == s;
    }
  }

  lemma KeepPrefixStep(s: string, i: nat, tail: string)
    requires 0 < i <= |s|
    ensures [s[0]] + (s[1..][..i - 1] + tail) == s[..i] + tail
  {
    assert s[..i] == [s[0]] + s[1..][..i - 1];
  }

  lemma DeleteUiPhrasesCopy(s: string)
    requires s != [] && !PhraseAt(s, 0)
    ensures DeleteUiPhrases(s) == [s[0]] + DeleteUiPhrases(s[1..])
  {
    assert s[0..] == s;
  }

  lemma NoPhraseShift(s: string, i: nat)
    requires 0 < i <= |s| && forall j :: 0 <= j < i ==> !PhraseAt(s, j)
    ensures forall j :: 0 <= j < i - 1 ==> !PhraseAt(s[1..], j)
  {
    forall j | 0 <= j < i - 1 ensures !PhraseAt(s[1..], j) {
      assert !PhraseAt(s, j + 1);
      assert s[1..][j..] == s[j + 1..];
    }
  }

  /** The pass changes exactly the texts in which some UI phrase occurs. */
  lemma {:induction false} DeleteUiPhrasesFixpoint(s: string)
    ensures DeleteUiPhrases(s) == s <==> !HasUiPhrase(s)
  {
    if s != [] && PhraseLen(s) == 0 {
      DeleteUiPhrasesFixpoint(s[1..]);
      if HasUiPhrase(s) {
        var i :| 0 <= i < |s| && PhraseLen(s[i..]) > 0;
        assert i > 0;
        assert s[1..][i - 1..] == s[i..];
        assert HasUiPhrase(s[1..]);
      }
      if HasUiPhrase(s[1..]) {
        var i :| 0 <= i < |s[1..]| && PhraseLen(s[1..][i..]) > 0;
        assert s[1..][i..] == s[i + 1..];
        assert HasUiPhrase(s);
      }
      if DeleteUiPhrases(s) == s {
        assert DeleteUiPhrases(s[1..]) == DeleteUiPhrases(s)[1..];
      }
    } else if s != [] {
      assert PhraseLen(s[0..]) > 0 by { assert s[0..] == s; }
    }
  }

  // ---------------------------------------------------------------------
  // Step 3: re.sub(r'\s*\.\s*\.\s*\.\s*', '... ', text)
  // ---------------------------------------------------------------------

  /** The first non-whitespace character of `s` follows its leading whitespace run. */
  lemma {:induction false} NonSpaceSkip(s: string)
    ensures SpaceRun(s) == |s| ==> NonSpace(s) == []
    ensures SpaceRun(s) < |s| ==> NonSpace(s) == [s[SpaceRun(s)]] + NonSpace(s[SpaceRun(s) + 1..])
  {
    if s != [] && IsSpace(s[0]) {
      NonSpaceSkip(s[1..]);
      var a := SpaceRun(s[1..]);
      if a < |s[1..]| {
        assert s[1..][a + 1..] == s[a + 2..];
      }
    }
  }

  /** k dots. */
  function Dots(k: nat): (d: string)
    ensures |d| == k
  {
    if k == 0 then [] else ['.'] + Dots(k - 1)
  }

  lemma DotsThree()
    ensures Dots(3) == "..."
  {
    assert Dots(1) == ".";
    assert Dots(2) == "..";
  }

  /**
   * Length of a match of `(\s*\.){k}\s*` at the start of `s`. There is one
   * exactly when the first k non-whitespace characters are dots; it takes
   * the whole whitespace run after the last dot.
   */
  function DotsMatch(s: string, k: nat): (m: Option<nat>)
    decreases k
    ensures m.Some? ==> m.value <= |s| && NonSpace(s[..m.value]) == Dots(k)
    ensures m.Some? ==> m.value == |s| || !IsSpace(s[m.value])
    ensures m.Some? && k > 0 ==> m.value > 0
  {
    var a := SpaceRun(s);
    SpaceRunNonSpace(s, a);
    if k == 0 then
      Some(a)
    else if a < |s| && s[a] == '.' then
      match DotsMatch(s[a + 1..], k - 1)
      case None => None
      case Some(n) =>
        DotStep(s, a, n);
        LeadingDot(s[a + 1..][..n], k);
        assert s[a + 1..][n..] == s[a + 1 + n..];
        Some(a + 1 + n)
    else
      None
  }

  /** There is a match exactly when the first k non-whitespace characters are dots. */
  lemma {:induction false} DotsMatchExact(s: string, k: nat)
    decreases k
    ensures DotsMatch(s, k).Some? <==> StartsWith(NonSpace(s), Dots(k))
  {
    if k > 0 {
      var a := SpaceRun(s);
      NonSpaceSkip(s);
      if a < |s| && s[a] == '.' {
        assert DotsMatch(s, k).Some? == DotsMatch(s[a + 1..], k - 1).Some?;
        DotsMatchExact(s[a + 1..], k - 1);
        LeadingDot(NonSpace(s[a + 1..]), k);
      } else {
        assert DotsMatch(s, k).None?;
        if a < |s| {
          assert Dots(k)[0] == '.';
        }
      }
    }
  }

  /** A text starting with a dot starts with k dots iff its rest starts with k - 1. */
  lemma LeadingDot(tail: string, k: nat)
    requires k > 0
    ensures StartsWith(['.'] + tail, Dots(k)) <==> StartsWith(tail, Dots(k - 1))
  {
    var t := ['.'] + tail;
    if |tail| >= k - 1 {
      assert t[..k] == ['.'] + tail[..k - 1];
      if t[..k] == Dots(k) {
        assert tail[..k - 1] == t[..k][1..];
      }
    }
  }

  /** The contract of `DotsMatch` determines the match length. */
  lemma DotsMatchUnique(s: string, k: nat, m: nat)
    requires m <= |s| && NonSpace(s[..m]) == Dots(k)
    requires m == |s| || !IsSpace(s[m])
    ensures DotsMatch(s, k) == Some(m)
  {
    assert s == s[..m] + s[m..];
    NonSpaceAppend(s[..m], s[m..]);
    assert NonSpace(s)[..k] == NonSpace(s[..m]);
    DotsMatchExact(s, k);
    var n := DotsMatch(s, k).value;
    if n < m {
      NonSpaceGrows(s, n, m);
    } else if m < n {
      NonSpaceGrows(s, m, n);
    }
  }

  /** A prefix that reaches past a non-whitespace character has more non-whitespace characters. */
  lemma NonSpaceGrows(s: string, i: nat, j: nat)
    requires i < j <= |s| && !IsSpace(s[i])
    ensures |NonSpace(s[..i])| < |NonSpace(s[..j])|
  {
    assert s[..j] == s[..i] + s[i..j];
    NonSpaceAppend(s[..i], s[i..j]);
    assert s[i..j] == [s[i]] + s[i + 1..j];
    NonSpaceAppend([s[i]], s[i + 1..j]);
  }

  /** Skipping spaces and one dot keeps only that dot before what follows. */
  lemma DotStep(s: string, a: nat, n: nat)
    requires a < |s| && s[a] == '.' && a + 1 + n <= |s|
    requires NonSpace(s[..a]) == []
    ensures NonSpace(s[..a + 1 + n]) == ['.'] + NonSpace(s[a + 1..][..n])
  {
    var dot, rest := [s[a]], s[a + 1..][..n];
    assert s[..a + 1 + n] == s[..a] + (dot + rest);
    NonSpaceAppend(s[..a], dot + rest);
    NonSpaceAppend(dot, rest);
    assert NonSpace(dot) == ['.'] by {
      assert dot[1..] == [];
    }
  }

  /** Replacing a matched ellipsis by "... " keeps the non-space characters. */
  lemma EllipsisStep(s: string, n: nat, rest: string)
    requires n <= |s| && NonSpace(s[..n]) == Dots(3)
    requires NonSpace(rest) == NonSpace(s[n..])
    ensures NonSpace("... " + rest) == NonSpace(s)
  {
    assert NonSpace(s) == NonSpace(s[..n]) + NonSpace(s[n..]) by {
      assert s == s[..n] + s[n..];
      NonSpaceAppend(s[..n], s[n..]);
    }
    NonSpaceAppend("... ", rest);
    EllipsisNonSpace();
  }

  lemma EllipsisNonSpace()
    ensures NonSpace("... ") == Dots(3)
  {
    assert NonSpace(" ") == [];
    assert NonSpace("... ") == ['.', '.', '.'] + NonSpace(" ");
    DotsThree();
  }

  /** Keeping the first character and rewriting the rest keeps the non-space characters. */
  lemma KeepFirstStep(s: string, rest: string)
    requires s != [] && NonSpace(rest) == NonSpace(s[1..])
    ensures NonSpace([s[0]] + rest) == NonSpace(s)
  {
    assert s == [s[0]] + s[1..];
    NonSpaceAppend([s[0]], s[1..]);
    NonSpaceAppend([s[0]], rest);
  }

  /** Rewrites every ellipsis, with any whitespace around and between its dots, to "... ". */
  function NormalizeEllipses(s: string): (r: string)
    decreases |s|
    ensures NonSpace(r) == NonSpace(s)
    ensures forall c :: c in r ==> c in s || c == '.' || c == ' '
  {
    if s == [] then []
    else
      match DotsMatch(s, 3)
      case Some(n) =>
        var rest := NormalizeEllipses(s[n..]);
        EllipsisStep(s, n, rest);
        "... " + rest
      case None =>
        var rest := NormalizeEllipses(s[1..]);
        KeepFirstStep(s, rest);
        [s[0]] + rest
  }
  /** A text whose first three non-whitespace characters are dots comes out opening with "... ". */
  lemma EllipsisAtStart(s: string)
    requires |NonSpace(s)| >= 3 && NonSpace(s)[..3] == "..."
    ensures StartsWith(NormalizeEllipses(s), "... ")
  {
    DotsThree();
    assert s != [];
    DotsMatchExact(s, 3);
    var r := NormalizeEllipses(s);
    assert r == "... " + NormalizeEllipses(s[DotsMatch(s, 3).value..]);
    assert r[..4] == "... ";
  }

  /** Where no three dots follow one another once whitespace is ignored, nothing is rewritten. */
  lemma {:induction false} NoEllipsisUnchanged(s: string)
    requires !Contains(NonSpace(s), "...")
    ensures NormalizeEllipses(s) == s
    decreases |s|
  {
    if s != [] {
      var ns := NonSpace(s);
      assert ns[0..] == ns;
      assert !StartsWith(ns[0..], "...");
      DotsThree();
      DotsMatchExact(s, 3);
      assert DotsMatch(s, 3).None?;
      assert s == [s[0]] + s[1..];
      NonSpaceAppend([s[0]], s[1..]);
      ContainsSuffix(NonSpace([s[0]]), NonSpace(s[1..]), "...");
      NoEllipsisUnchanged(s[1..]);
    }
  }
  /** An ellipsis match starts at position `i` of `s`. */
  predicate EllipsisAt(s: string, i: nat)
  {
    i < |s| && DotsMatch(s[i..], 3).Some?
  }

  /**
   * The rewrite keeps the text in front of the first ellipsis, replaces that
   * match by "... " and resumes right after it.
   */
  lemma NormalizeEllipsesFirst(s: string, i: nat, n: nat)
    requires i < |s| && DotsMatch(s[i..], 3) == Some(n)
    requires forall j :: 0 <= j < i ==> !EllipsisAt(s, j)
    ensures NormalizeEllipses(s) == s[..i] + ("... " + NormalizeEllipses(s[i + n..]))
  {
    NormalizeEllipsesKeep(s, i);
    NormalizeEllipsesAt(s[i..], n);
    assert s[i..][n..] == s[i + n..];
  }

  lemma NormalizeEllipsesAt(t: string, n: nat)
    requires t != [] && DotsMatch(t, 3) == Some(n)
    ensures NormalizeEllipses(t) == "... " + NormalizeEllipses(t[n..])
  {
  }

  /** The rewrite copies any prefix in which no ellipsis match starts. */
  lemma {:induction false} NormalizeEllipsesKeep(s: string, i: nat)
    requires i <= |s| && forall j :: 0 <= j < i ==> !EllipsisAt(s, j)
    ensures NormalizeEllipses(s) == s[..i] + NormalizeEllipses(s[i..])
  {
    if i > 0 {
      var s' := s[1..];
      NormalizeEllipsesCopy(s);
      NoEllipsisShift(s, i);
      NormalizeEllipsesKeep(s', i - 1);
      assert s'[i - 1..] == s[i..];
      KeepPrefixStep(s, i, NormalizeEllipses(s[i..]));
    } else {
      assert s[0..] == s;
    }
  }

  lemma NormalizeEllipsesCopy(s: string)
    requires s != [] && !EllipsisAt(s, 0)
    ensures NormalizeEllipses(s) == [s[0]] + NormalizeEllipses(s[1..])
  {
    assert s[0..] == s;
  }

  lemma NoEllipsisShift(s: string, i: nat)
    requires 0 < i <= |s| && forall j :: 0 <= j < i ==> !EllipsisAt(s, j)
    ensures forall j :: 0 <= j < i - 1 ==> !EllipsisAt(s[1..], j)
  {
    forall j | 0 <= j < i - 1 ensures !EllipsisAt(s[1..], j) {
      assert !EllipsisAt(s, j + 1);
      assert s[1..][j..] == s[j + 1..];
    }
  }

  // ---------------------------------------------------------------------
  // Step 4: re.sub(r'(\+|\s+Show\s+more\s+Show\s+less\s+)', '', text)
  // ---------------------------------------------------------------------

  /** Length of a case-sensitive match of `\s+w1\s+w2 ... \s+wk\s+` at the start of `s`. */
  function SpacedWords(s: string, words: seq<string>): (m: Option<nat>)
    decreases |words|
    ensures m.Some? ==> 0 < m.value <= |s|
  {
    var a := SpaceRun(s);
    if a == 0 then None
    else if words == [] then Some(a)
    else if StartsWith(s[a..], words[0]) then
      match SpacedWords(s[a + |words[0]|..], words[1..])
      case None => None
      case Some(n) => Some(a + |words[0]| + n)
    else None
  }

  /** Length of the artifact the alternation matches at the start of `s`, or 0. */
  function ArtifactLen(s: string): (n: nat)
    ensures n <= |s|
    ensures s != [] && s[0] == '+' ==> n > 0
  {
    if s != [] && s[0] == '+' then 1
    else
      match SpacedWords(s, ["Show", "more", "Show", "less"])
      case Some(n) => n
      case None => 0
  }

  /** Deletes every `+` and every spaced "Show more Show less" left over. */
  function DeleteArtifacts(s: string): (r: string)
    decreases |s|
    ensures |r| <= |s|
    ensures '+' !in r
    ensures forall c :: c in r ==> c in s
    ensures IsSubsequence(r, s)
  {
    if s == [] then []
    else if ArtifactLen(s) > 0 then
      var r := DeleteArtifacts(s[ArtifactLen(s)..]);
      SubsequenceDrop(r, s, ArtifactLen(s));
      r
    else
      var r := [s[0]] + DeleteArtifacts(s[1..]);
      assert r[1..] == DeleteArtifacts(s[1..]);
      r
  }

  /** Some position of `s` starts a `+` or a spaced "Show more Show less". */
  predicate HasArtifact(s: string)
  {
    exists i :: 0 <= i < |s| && ArtifactLen(s[i..]) > 0
  }

  /** The pass changes exactly the texts in which some artifact occurs. */
  lemma {:induction false} DeleteArtifactsFixpoint(s: string)
    ensures DeleteArtifacts(s) == s <==> !HasArtifact(s)
  {
    if s != [] && ArtifactLen(s) == 0 {
      DeleteArtifactsFixpoint(s[1..]);
      if HasArtifact(s) {
        var i :| 0 <= i < |s| && ArtifactLen(s[i..]) > 0;
        assert i > 0;
        assert s[1..][i - 1..] == s[i..];
        assert HasArtifact(s[1..]);
      }
      if HasArtifact(s[1..]) {
        var i :| 0 <= i < |s[1..]| && ArtifactLen(s[1..][i..]) > 0;
        assert s[1..][i..] == s[i + 1..];
        assert HasArtifact(s);
      }
      if DeleteArtifacts(s) == s {
        assert DeleteArtifacts(s[1..]) == DeleteArtifacts(s)[1..];
      }
    } else if s != [] {
      assert ArtifactLen(s[0..]) > 0 by { assert s[0..] == s; }
    }
  }
  /** An artifact starts at position `i` of `s`. */
  predicate ArtifactAt(s: string, i: nat)
  {
    i < |s| && ArtifactLen(s[i..]) > 0
  }

  /**
   * The pass keeps the text in front of the first artifact, drops that
   * artifact and resumes right after it.
   */
  lemma DeleteArtifactsFirst(s: string, i: nat)
    requires ArtifactAt(s, i) && forall j :: 0 <= j < i ==> !ArtifactAt(s, j)
    ensures DeleteArtifacts(s) == s[..i] + DeleteArtifacts(s[i + ArtifactLen(s[i..])..])
  {
    DeleteArtifactsKeep(s, i);
    assert s[i..][ArtifactLen(s[i..])..] == s[i + ArtifactLen(s[i..])..];
  }

  /** The pass copies any prefix in which no artifact starts. */
  lemma {:induction false} DeleteArtifactsKeep(s: string, i: nat)
    requires i <= |s| && forall j :: 0 <= j < i ==> !ArtifactAt(s, j)
    ensures DeleteArtifacts(s) == s[..i] + DeleteArtifacts(s[i..])
  {
    if i > 0 {
      var s' := s[1..];
      DeleteArtifactsCopy(s);
      NoArtifactShift(s, i);
      DeleteArtifactsKeep(s', i - 1);
      assert s'[i - 1..] == s[i..];
      KeepPrefixStep(s, i, DeleteArtifacts(s[i..]));
    } else {
      assert s[0..] == s;
    }
  }

  lemma DeleteArtifactsCopy(s: string)
    requires s != [] && !ArtifactAt(s, 0)
    ensures DeleteArtifacts(s) == [s[0]] + DeleteArtifacts(s[1..])
  {
    assert s[0..] == s;
  }

  lemma NoArtifactShift(s: string, i: nat)
    requires 0 < i <= |s| && forall j :: 0 <= j < i ==> !ArtifactAt(s, j)
    ensures forall j :: 0 <= j < i - 1 ==> !ArtifactAt(s[1..], j)
  {
    forall j | 0 <= j < i - 1 ensures !ArtifactAt(s[1..], j) {
      assert !ArtifactAt(s, j + 1);
      assert s[1..][j..] == s[j + 1..];
    }
  }

  // ---------------------------------------------------------------------
  // Step 5: str.strip()
  // ---------------------------------------------------------------------

  /** Length of the run of whitespace at the end of `s`. */
  function TrailingSpaceRun(s: string): (n: nat)
    ensures n <= |s|
    ensures forall j :: |s| - n <= j < |s| ==> IsSpace(s[j])
    ensures n < |s| ==> !IsSpace(s[|s| - 1 - n])
  {
    if s != [] && IsSpace(s[|s| - 1]) then 1 + TrailingSpaceRun(s[..|s| - 1]) else 0
  }

  /** `r` is `s` with a whitespace-only prefix and a whitespace-only suffix cut off. */
  predicate InnerSlice(r: string, s: string)
  {
    exists a, b :: 0 <= a <= b <= |s| && r == s[a..b]
      && (forall j :: 0 <= j < a ==> IsSpace(s[j])) && (forall j :: b <= j < |s| ==> IsSpace(s[j]))
  }

  /** Python's `str.strip()`: drops leading and trailing whitespace. */
  function Strip(s: string): (r: string)
    ensures Trimmed(r)
    ensures forall c :: c in r ==> c in s
    ensures Trimmed(s) ==> r == s
    ensures InnerSlice(r, s)
  {
    var a := SpaceRun(s);
    var b := if a == |s| then a else |s| - TrailingSpaceRun(s);
    s[a..b]
  }

  /** The contract of `Strip` determines its result. */
  lemma StripUnique(s: string, r: string)
    requires Trimmed(r) && InnerSlice(r, s)
    ensures r == Strip(s)
  {
    var a, b :| 0 <= a <= b <= |s| && r == s[a..b]
      && (forall j :: 0 <= j < a ==> IsSpace(s[j])) && (forall j :: b <= j < |s| ==> IsSpace(s[j]));
    var a' := SpaceRun(s);
    if a == b {
      assert forall j :: 0 <= j < |s| ==> IsSpace(s[j]);
      assert a' == |s|;
    } else {
      assert s[a] == r[0] && s[b - 1] == r[|r| - 1];
      assert a' == a;
      var t := TrailingSpaceRun(s);
      assert |s| - t == b;
    }
  }

  /** Stripping removes only whitespace. */
  lemma StripKeepsNonSpace(s: string)
    ensures NonSpace(Strip(s)) == NonSpace(s)
  {
    var a := SpaceRun(s);
    SpaceRunNonSpace(s, a);
    if a == |s| {
      assert Strip(s) == [];
      assert s[..a] == s;
    } else {
      var b := |s| - TrailingSpaceRun(s);
      assert Strip(s) == s[a..b];
      DropTrailingSpace(s);
      KeepMiddle(s, a, b);
    }
  }

  /** Dropping a prefix without non-whitespace characters from a prefix that has them all. */
  lemma KeepMiddle(s: string, a: nat, b: nat)
    requires a <= b <= |s| && NonSpace(s[..a]) == [] && NonSpace(s[..b]) == NonSpace(s)
    ensures NonSpace(s[a..b]) == NonSpace(s)
  {
    assert s[..b] == s[..a] + s[a..b];
    NonSpaceAppend(s[..a], s[a..b]);
    assert NonSpace(s[..a]) + NonSpace(s[a..b]) == NonSpace(s[a..b]);
  }

  lemma DropLeadingSpace(s: string)
    ensures NonSpace(s[SpaceRun(s)..]) == NonSpace(s)
  {
    var a := SpaceRun(s);
    assert s == s[..a] + s[a..];
    SpaceRunNonSpace(s, a);
    NonSpaceAppend(s[..a], s[a..]);
  }

  lemma {:induction false} DropTrailingSpace(t: string)
    ensures NonSpace(t[..|t| - TrailingSpaceRun(t)]) == NonSpace(t)
  {
    if t != [] && IsSpace(t[|t| - 1]) {
      var p := t[..|t| - 1];
      DropTrailingSpace(p);
      assert t[..|t| - TrailingSpaceRun(t)] == p[..|p| - TrailingSpaceRun(p)];
      assert NonSpace(t) == NonSpace(p) by {
        var last := [t[|t| - 1]];
        assert t == p + last;
        NonSpaceAppend(p, last);
        assert NonSpace(last) == [];
      }
    } else {
      assert t[..|t|] == t;
    }
  }

  // ---------------------------------------------------------------------
  // The whole chain
  // ---------------------------------------------------------------------

  /**
   * The cleanup of job_analyzer.py:134-141. The result has no outer
   * whitespace, no `+`, and no whitespace other than plain spaces. It may still
   * contain a UI phrase or a double space (see the lemmas below).
   */
  function CleanDescription(s: string): (r: string)
    ensures Trimmed(r) && PlainSpacesOnly(r) && '+' !in r
  {
    var collapsed := CollapseSpaces(s);
    var unphrased := DeleteUiPhrases(collapsed);
    var ellipsed := NormalizeEllipses(unphrased);
    var unplussed := DeleteArtifacts(ellipsed);
    assert PlainSpacesOnly(unplussed);
    Strip(unplussed)
  }

  // ---------------------------------------------------------------------
  // Substring tests
  // ---------------------------------------------------------------------

  /** Python's `sub in s`. */
  function Contains(s: string, sub: string): (b: bool)
    ensures b <==> exists i :: 0 <= i <= |s| && StartsWith(s[i..], sub)
  {
    if StartsWith(s, sub) then
      assert StartsWith(s[0..], sub) by { assert s[0..] == s; }
      true
    else if s == [] then false
    else
      var b := Contains(s[1..], sub);
      assert forall i :: 1 <= i <= |s| ==> s[i..] == s[1..][i - 1..];
      assert s[0..] == s;
      b
  }

  /** A case-insensitive `sub in s`, for a lower-case pattern, as `re.search(sub, s, re.IGNORECASE)`. */
  function ContainsFolded(s: string, sub: string): (b: bool)
    ensures b <==> exists i :: 0 <= i <= |s| && StartsWithFolded(s[i..], sub)
  {
    if StartsWithFolded(s, sub) then
      assert StartsWithFolded(s[0..], sub) by { assert s[0..] == s; }
      true
    else if s == [] then false
    else
      var b := ContainsFolded(s[1..], sub);
      assert forall i :: 1 <= i <= |s| ==> s[i..] == s[1..][i - 1..];
      assert s[0..] == s;
      b
  }

  /** An occurrence in a suffix is an occurrence in the whole. */
  lemma ContainsSuffix(a: string, b: string, sub: string)
    ensures Contains(b, sub) ==> Contains(a + b, sub)
  {
    if Contains(b, sub) {
      var i :| 0 <= i <= |b| && StartsWith(b[i..], sub);
      assert (a + b)[|a| + i..] == b[i..];
    }
  }
}
