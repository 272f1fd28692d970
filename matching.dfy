/** The shortcut-matching engine of src/matching.js: text normalization, the
    window of one or two words before the cursor, the key, text and
    abbreviation tests, and the filter over the shortcut list. */
module Matching {
  import opened JsStrings
  import opened Sequences

  /** A user-defined shortcut: the trigger `key` and the expansion `text`. */
  datatype Shortcut = Shortcut(key: string, text: string)

  // ---------------------------------------------------------------------------
  // normalizeText

  /** The characters `/[^a-z0-9\s]/gi` does not delete. */
  predicate IsKept(c: char) {
    IsAsciiUpper(c) || IsAsciiLower(c) || IsAsciiDigit(c) || IsWhitespace(c)
  }

  /** The characters normalized text is made of. */
  predicate IsNormal(c: char) {
    IsAsciiLower(c) || IsAsciiDigit(c) || IsWhitespace(c)
  }

  /** `text.replace(/[^a-z0-9\s]/gi, '')`. */
  function StripSpecial(s: string): (r: string)
    ensures |r| <= |s|
    ensures forall i :: 0 <= i < |r| ==> IsKept(r[i])
  {
    if s == [] then [] else (if IsKept(s[0]) then [s[0]] else []) + StripSpecial(s[1..])
  }

  /** `normalizeText`: strip everything but ASCII letters, digits and
      whitespace, then lower-case. */
  function NormalizeText(s: string): (r: string)
    ensures |r| <= |s|
    ensures forall i :: 0 <= i < |r| ==> IsNormal(r[i])
  {
    Lower(StripSpecial(s))
  }

  lemma {:induction false} StripSpecialAppend(a: string, b: string)
    ensures StripSpecial(a + b) == StripSpecial(a) + StripSpecial(b)
    decreases |a|
  {
    if a != [] {
      assert (a + b)[0] == a[0] && (a + b)[1..] == a[1..] + b;
      StripSpecialAppend(a[1..], b);
    } else {
      assert a + b == b;
    }
  }

  /** Normalization works character by character: the normalization of a
      concatenation is the concatenation of the normalizations. */
  lemma NormalizeAppend(a: string, b: string)
    ensures NormalizeText(a + b) == NormalizeText(a) + NormalizeText(b)
  {
    StripSpecialAppend(a, b);
    var sa, sb := StripSpecial(a), StripSpecial(b);
    assert Lower(sa + sb) == Lower(sa) + Lower(sb);
  }

  /** A single character survives normalization, lower-cased, exactly when
      it is an ASCII letter, a digit or whitespace. */
  lemma NormalizeChar(c: char)
    ensures NormalizeText([c]) == if IsKept(c) then [LowerChar(c)] else []
  {
    assert [c][1..] == [];
  }

  lemma {:induction false} StripSpecialKeepsKept(s: string)
    requires forall i :: 0 <= i < |s| ==> IsKept(s[i])
    ensures StripSpecial(s) == s
    decreases |s|
  {
    if s != [] {
      StripSpecialKeepsKept(s[1..]);
    }
  }

  /** Text that is already normalized is left unchanged. */
  lemma NormalizeFixesNormal(s: string)
    requires forall i :: 0 <= i < |s| ==> IsNormal(s[i])
    ensures NormalizeText(s) == s
  {
    StripSpecialKeepsKept(s);
  }

  /** `normalizeText` is idempotent. */
  lemma NormalizeIdempotent(s: string)
    ensures NormalizeText(NormalizeText(s)) == NormalizeText(s)
  {
    NormalizeFixesNormal(NormalizeText(s));
  }

  /** Normalization never introduces a character: a character missing from
      the input, and unaffected by lower-casing, is missing from the output. */
  lemma {:induction false} NormalizeIntroducesNothing(s: string, c: char)
    requires !IsAsciiLower(c) && c !in s
    ensures c !in NormalizeText(s)
    decreases |s|
  {
    if s != [] {
      NormalizeIntroducesNothing(s[1..], c);
      assert s == [s[0]] + s[1..];
      NormalizeAppend([s[0]], s[1..]);
      NormalizeChar(s[0]);
    }
  }

  // ---------------------------------------------------------------------------
  // The window before the cursor

  /** `text.substring(0, cursorPosition)`. */
  function TextBefore(text: string, cursor: int): (r: string)
    ensures StartsWith(text, r)
    ensures |r| == Clamp(cursor, |text|)
  {
    text[..Clamp(cursor, |text|)]
  }

  /** Whether the whole of `m` matches `(?:[^\s]+\s+)?[^\s]*`: either it has
      no whitespace, or a non-empty token is followed by one whitespace run
      and then by non-whitespace only. */
  predicate MatchesWindowPattern(m: string) {
    NoWhitespace(m) ||
    (var a := RunEnd(m, false, 0);
     var b := RunEnd(m, true, a);
     0 < a < b && RunEnd(m, false, b) == |m|)
  }

  /** Where the trailing token of `p` starts. */
  function TokenStart(p: string): nat
    ensures TokenStart(p) <= |p|
  {
    RunStart(p, false, |p|)
  }

  /** Where the whitespace run before the trailing token starts. */
  function GapStart(p: string): nat
    ensures GapStart(p) <= TokenStart(p)
  {
    RunStart(p, true, TokenStart(p))
  }

  /** Where the token before that whitespace run starts. */
  function PrevStart(p: string): nat
    ensures PrevStart(p) <= GapStart(p)
  {
    RunStart(p, false, GapStart(p))
  }

  /** Whether the optional group `(?:[^\s]+\s+)` takes part in the match:
      a non-empty token followed by a non-empty whitespace run. */
  predicate HasTwoTokens(p: string) {
    PrevStart(p) < GapStart(p) < TokenStart(p)
  }

  /** What `/(?:[^\s]+\s+)?[^\s]*$/` matches in `p`: the trailing token,
      preceded by the whitespace run before it and the token before that
      whenever such a token exists. */
  function RegexWindow(p: string): (m: string)
    ensures EndsWith(p, m)
  {
    if HasTwoTokens(p) then p[PrevStart(p)..] else p[TokenStart(p)..]
  }

  /** A string with two whitespace runs, a non-whitespace character at `j`
      between whitespace at `i` and at `l`, does not match the window
      pattern, which allows one run only. */
  lemma PatternSingleGap(m: string, i: nat, j: nat, l: nat)
    requires i < j < l < |m| && IsWhitespace(m[i]) && !IsWhitespace(m[j]) && IsWhitespace(m[l])
    ensures !MatchesWindowPattern(m)
  {
  }

  /** A string that starts with whitespace does not match the window pattern. */
  lemma PatternStartsWithToken(m: string)
    requires m != [] && IsWhitespace(m[0])
    ensures !MatchesWindowPattern(m)
  {
  }

  /** A token of length `a`, then whitespace up to `b`, then non-whitespace
      to the end: the pattern's two-word shape. */
  lemma TwoTokenPattern(m: string, a: nat, b: nat)
    requires 0 < a < b <= |m|
    requires forall i :: 0 <= i < a ==> !IsWhitespace(m[i])
    requires forall i :: a <= i < b ==> IsWhitespace(m[i])
    requires forall i :: b <= i < |m| ==> !IsWhitespace(m[i])
    ensures MatchesWindowPattern(m)
  {
    RunEndUnique(m, false, 0, a);
    RunEndUnique(m, true, a, b);
    RunEndUnique(m, false, b, |m|);
  }

  /** With a token before the whitespace run, the window has the pattern's
      two-word shape. */
  lemma TwoTokenWindowMatches(p: string)
    requires HasTwoTokens(p)
    ensures MatchesWindowPattern(RegexWindow(p))
  {
    var t0, g, t1 := PrevStart(p), GapStart(p), TokenStart(p);
    var m := p[t0..];
    assert RegexWindow(p) == m;
    forall i | 0 <= i < |m|
      ensures IsWhitespace(m[i]) == (g - t0 <= i < t1 - t0)
    {
      assert m[i] == p[t0 + i];
      TwoTokenClasses(p, t0 + i);
    }
    TwoTokenPattern(m, g - t0, t1 - t0);
  }

  /** From the start of a two-word window on, the text is whitespace exactly
      between the gap start and the trailing token. */
  lemma TwoTokenClasses(p: string, j: nat)
    requires PrevStart(p) <= j < |p|
    ensures IsWhitespace(p[j]) == (GapStart(p) <= j < TokenStart(p))
  {
    if j < GapStart(p) {
      assert !IsWhitespace(p[j]);
    } else if j < TokenStart(p) {
      assert IsWhitespace(p[j]);
    } else {
      assert !IsWhitespace(p[j]);
    }
  }

  /** When the window has two tokens, any longer suffix reaches back over
      the whitespace before the first token, so it starts with whitespace
      or has two whitespace runs. */
  lemma TwoTokenWindowLeftmost(p: string, j: nat)
    requires HasTwoTokens(p)
    requires j < |p| - |RegexWindow(p)|
    ensures !MatchesWindowPattern(p[j..])
  {
    TwoTokenBoundaries(p);
    SuffixOverGap(p, j, PrevStart(p), GapStart(p));
  }

  /** A suffix starting at `j` that covers whitespace at `t0 - 1`, a token
      character at `t0` and whitespace at `g` starts with whitespace or has
      two whitespace runs. */
  lemma SuffixOverGap(p: string, j: nat, t0: nat, g: nat)
    requires j < t0 <= g < |p|
    requires IsWhitespace(p[t0 - 1]) && !IsWhitespace(p[t0]) && IsWhitespace(p[g])
    ensures !MatchesWindowPattern(p[j..])
  {
    var x := p[j..];
    var i0 := t0 - 1 - j;
    assert x[i0] == p[t0 - 1];
    if i0 == 0 {
      PatternStartsWithToken(x);
    } else {
      assert x[i0 + 1] == p[t0];
      assert x[g - j] == p[g];
      PatternSingleGap(x, i0, i0 + 1, g - j);
    }
  }

  /** Around a two-word window: whitespace just before it, its first
      character a token character, and whitespace at the gap start. */
  lemma TwoTokenBoundaries(p: string)
    requires HasTwoTokens(p)
    ensures |RegexWindow(p)| == |p| - PrevStart(p)
    ensures PrevStart(p) > 0 ==> IsWhitespace(p[PrevStart(p) - 1])
    ensures !IsWhitespace(p[PrevStart(p)]) && IsWhitespace(p[GapStart(p)])
  {
  }

  /** When the window is just the trailing token, it has no whitespace, so
      it matches the pattern's one-word shape. */
  lemma OneTokenWindowMatches(p: string)
    requires !HasTwoTokens(p)
    ensures MatchesWindowPattern(RegexWindow(p))
  {
    var t1 := TokenStart(p);
    var m := p[t1..];
    assert RegexWindow(p) == m;
    forall i | 0 <= i < |m|
      ensures !IsWhitespace(m[i])
    {
      assert m[i] == p[t1 + i];
    }
  }

  /** When the window is just the trailing token, everything before it is
      whitespace, so any longer suffix starts with whitespace. */
  lemma OneTokenWindowLeftmost(p: string, j: nat)
    requires !HasTwoTokens(p)
    requires j < |p| - |RegexWindow(p)|
    ensures !MatchesWindowPattern(p[j..])
  {
    OnlyWhitespaceBeforeToken(p);
    var x := p[j..];
    assert x[0] == p[j];
    PatternStartsWithToken(x);
  }

  /** Without a two-word window, everything before the trailing token is
      whitespace. */
  lemma OnlyWhitespaceBeforeToken(p: string)
    requires !HasTwoTokens(p)
    ensures forall i :: 0 <= i < TokenStart(p) ==> IsWhitespace(p[i])
  {
  }

  /** The regex window is the match the leftmost-first regex engine returns:
      it matches the pattern, and no suffix of `p` that starts earlier does. */
  lemma RegexWindowIsLeftmostMatch(p: string)
    ensures MatchesWindowPattern(RegexWindow(p))
    ensures forall j :: 0 <= j < |p| - |RegexWindow(p)| ==> !MatchesWindowPattern(p[j..])
  {
    if HasTwoTokens(p) {
      TwoTokenWindowMatches(p);
    } else {
      OneTokenWindowMatches(p);
    }
    forall j | 0 <= j < |p| - |RegexWindow(p)|
      ensures !MatchesWindowPattern(p[j..])
    {
      if HasTwoTokens(p) {
        TwoTokenWindowLeftmost(p, j);
      } else {
        OneTokenWindowLeftmost(p, j);
      }
    }
  }

  /** The window ends with the same token as the text it is taken from. */
  lemma RegexWindowLastToken(p: string)
    ensures LastToken(RegexWindow(p)) == LastToken(p)
  {
    LastTokenOfSuffix(p, if HasTwoTokens(p) then PrevStart(p) else TokenStart(p));
  }

  /** The window starts with a token unless it is empty. */
  lemma RegexWindowStart(p: string)
    ensures RegexWindow(p) == [] || !IsWhitespace(RegexWindow(p)[0])
  {
    var t0, g, t1 := PrevStart(p), GapStart(p), TokenStart(p);
    var m := RegexWindow(p);
    assert m != [] ==> m[0] == p[|p| - |m|];
  }

  /** When the text before the cursor ends in a token, trimming the
      lower-cased window changes nothing and its last token is that token. */
  lemma WindowEndingInToken(p: string)
    requires LastToken(p) != []
    ensures Trim(Lower(RegexWindow(p))) == Lower(RegexWindow(p))
    ensures LastToken(Lower(RegexWindow(p))) == Lower(LastToken(p))
    ensures TrimEnd(p) == p
  {
    WindowEndsLikeText(p);
    TrimLowerUnchanged(RegexWindow(p));
    RegexWindowLastToken(p);
    LowerLastToken(RegexWindow(p));
    TrimEndOfTokenEnded(p);
  }

  /** Text that ends in a token has no trailing whitespace to trim. */
  lemma TrimEndOfTokenEnded(p: string)
    requires p != [] && !IsWhitespace(p[|p| - 1])
    ensures TrimEnd(p) == p
  {
    RunStartUnique(p, true, |p|, |p|);
    assert p[..|p|] == p;
  }

  /** When the text ends in a token, the window is not empty, starts with a
      token and ends with the text's last character. */
  lemma WindowEndsLikeText(p: string)
    requires LastToken(p) != []
    ensures var m := RegexWindow(p);
      m != [] && !IsWhitespace(m[0]) && m[|m| - 1] == p[|p| - 1] && !IsWhitespace(p[|p| - 1])
  {
    RegexWindowStart(p);
    RegexWindowLastToken(p);
    var m := RegexWindow(p);
    var k := TokenStart(p);
    assert k < |p| && !IsWhitespace(p[|p| - 1]);
    assert LastToken(m) == m[RunStart(m, false, |m|)..];
    assert m == p[|p| - |m|..];
    assert m[|m| - 1] == p[|p| - 1];
  }

  /** When the text before the cursor ends in whitespace, the trimmed
      window is the last token before that whitespace. */
  lemma WindowEndingInWhitespace(p: string)
    requires LastToken(p) == []
    ensures Trim(Lower(RegexWindow(p))) == Lower(LastToken(TrimEnd(p)))
  {
    assert TokenStart(p) == |p|;
    TrimEndLastToken(p);
    if HasTwoTokens(p) {
      TwoTokenWindowTrimmed(p);
    } else {
      EmptyWindow(p);
      assert p[PrevStart(p)..GapStart(p)] == [];
      EmptyTrimLower();
    }
  }

  lemma EmptyTrimLower()
    ensures Trim(Lower([])) == Lower([])
  {
    TrimSlice([], 0, 0);
  }

  /** A two-word window ending in whitespace trims to its first word. */
  lemma TwoTokenWindowTrimmed(p: string)
    requires HasTwoTokens(p) && TokenStart(p) == |p|
    ensures Trim(Lower(RegexWindow(p))) == Lower(p[PrevStart(p)..GapStart(p)])
  {
    TrimLowerTokenThenSpace(p, PrevStart(p), GapStart(p));
  }

  /** Without a two-word window, text ending in whitespace is whitespace
      only, and the window is empty. */
  lemma EmptyWindow(p: string)
    requires !HasTwoTokens(p) && TokenStart(p) == |p|
    ensures RegexWindow(p) == []
    ensures PrevStart(p) == GapStart(p)
  {
    if GapStart(p) == |p| && p != [] {
      assert false;
    }
  }

  /** With trailing whitespace removed, the last token is the one that
      starts at `PrevStart` and ends where that whitespace began. */
  lemma TrimEndLastToken(p: string)
    requires LastToken(p) == []
    ensures LastToken(TrimEnd(p)) == p[PrevStart(p)..GapStart(p)]
  {
    var g := GapStart(p);
    var q := TrimEnd(p);
    assert q == p[..g];
    forall i | 0 <= i < g
      ensures q[i] == p[i]
    {
    }
    RunStartUnique(q, false, g, PrevStart(p));
  }

  /** What `findMatchingShortcuts` derives from the text before the cursor. */
  datatype Window = Window(
    before: string,
    lastWords: string,
    lastWord: string,
    normalizedLastWords: string,
    normalizedLastWord: string)

  /** `lastWords`: the regex window, lower-cased and trimmed. */
  function WindowText(before: string): string {
    Trim(Lower(RegexWindow(before)))
  }

  /** `lastWords.split(/\s+/).pop()`. */
  function LastPiece(lastWords: string): (r: string)
    ensures NoWhitespace(r)
  {
    var pieces := Split(lastWords);
    pieces[|pieces| - 1]
  }

  /** The first half of `findMatchingShortcuts`: cut the text at the cursor,
      take the regex window, lower-case and trim it, and keep the last piece
      of its whitespace split as the last word. */
  function ExtractWindow(text: string, cursor: int): (w: Window)
    ensures StartsWith(text, w.before) && |w.before| == Clamp(cursor, |text|)
    ensures w.normalizedLastWords == NormalizeText(w.lastWords)
    ensures w.normalizedLastWord == NormalizeText(w.lastWord)
  {
    var before := TextBefore(text, cursor);
    var lastWords := WindowText(before);
    var lastWord := LastPiece(lastWords);
    Window(before, lastWords, lastWord, NormalizeText(lastWords), NormalizeText(lastWord))
  }

  /** The last piece of the split is the last token, so it has no whitespace. */
  lemma LastPieceIsLastToken(lastWords: string)
    ensures LastPiece(lastWords) == LastToken(lastWords)
    ensures NoWhitespace(LastPiece(lastWords))
  {
    SplitLast(lastWords);
    LastTokenNoWhitespace(lastWords);
  }

  /** Text before the cursor that ends in a token: the window is the
      lower-cased regex match, and its last word is that token, lower-cased. */
  lemma WindowTextEndingInToken(p: string)
    requires LastToken(p) != []
    ensures WindowText(p) == Lower(RegexWindow(p))
    ensures LastToken(WindowText(p)) == Lower(LastToken(TrimEnd(p)))
  {
    WindowEndingInToken(p);
  }

  /** Text before the cursor that ends in whitespace: the window is the last
      token before that whitespace, lower-cased, and is its own last word. */
  lemma WindowTextEndingInWhitespace(p: string)
    requires LastToken(p) == []
    ensures WindowText(p) == Lower(LastToken(TrimEnd(p)))
    ensures LastToken(WindowText(p)) == WindowText(p)
  {
    WindowEndingInWhitespace(p);
    var t := LastToken(TrimEnd(p));
    LastTokenNoWhitespace(t);
    assert NoWhitespace(Lower(t));
    LastTokenOfToken(Lower(t));
  }

  /** The words of the window in terms of the text before the cursor: the
      last word is the last token once trailing whitespace is dropped, it is
      the final token of the window, and the window is either that word
      alone (when the text ends in whitespace) or the lower-cased regex
      match (when it ends in a token). */
  lemma WindowWords(text: string, cursor: int)
    ensures var w := ExtractWindow(text, cursor);
      && w.lastWord == Lower(LastToken(TrimEnd(w.before)))
      && w.lastWord == LastToken(w.lastWords)
      && NoWhitespace(w.lastWord)
      && (LastToken(w.before) != [] ==> w.lastWords == Lower(RegexWindow(w.before)))
      && (LastToken(w.before) == [] ==> w.lastWords == w.lastWord)
  {
    var p := TextBefore(text, cursor);
    LastPieceIsLastToken(WindowText(p));
    if LastToken(p) != [] {
      WindowTextEndingInToken(p);
    } else {
      WindowTextEndingInWhitespace(p);
    }
  }

  /** A string without whitespace is its own last token. */
  lemma LastTokenOfToken(s: string)
    requires NoWhitespace(s)
    ensures LastToken(s) == s
  {
    RunStartUnique(s, false, |s|, 0);
  }

  // ---------------------------------------------------------------------------
  // The three tests

  /** The key test: a one-character key must end the raw text before the
      cursor; any other key must contain, once lower-cased, the normalized
      last word, which itself must have at least two raw characters. */
  predicate KeyMatch(s: Shortcut, w: Window) {
    if |s.key| == 1 then |s.key| > 0 && EndsWith(w.before, s.key)
    else |w.lastWord| >= 2 && Includes(Lower(s.key), w.normalizedLastWord)
  }

  /** The text test, run only on a normalized window of two characters or
      more: a one-word window must start the normalized expansion, a window
      holding a space must occur in it. */
  predicate TextMatch(s: Shortcut, w: Window) {
    var target := NormalizeText(s.text);
    |w.normalizedLastWords| >= 2 &&
    ((!Includes(w.normalizedLastWords, " ") && |w.normalizedLastWord| >= 2
      && StartsWith(target, w.normalizedLastWord))
     || (Includes(w.normalizedLastWords, " ") && Includes(target, w.normalizedLastWords)))
  }

  /** The first letter of a word once normalized, if any. */
  function Initial(word: string): (r: string)
    ensures |r| <= 1
    ensures |r| == 1 <==> NormalizeText(word) != []
    ensures |r| == 1 ==> r[0] == NormalizeText(word)[0]
  {
    var n := NormalizeText(word);
    if |n| > 0 then [n[0]] else []
  }

  /** The normalized first letters of the words, in order, skipping the
      words that normalize to nothing. */
  function FirstLetters(words: seq<string>): (r: string)
    ensures |r| <= |words|
  {
    if words == [] then [] else FirstLetters(words[..|words| - 1]) + Initial(words[|words| - 1])
  }

  /** The first letters of the words of `text.split(/\s+/)`. */
  function Initials(text: string): string {
    FirstLetters(Split(text))
  }

  /** The abbreviation test: a normalized last word of three characters or
      more, with no space in the window, whose letters appear in order among
      the initials of the expansion. */
  predicate AbbreviationMatch(s: Shortcut, w: Window) {
    |w.normalizedLastWord| >= 3 && !Includes(w.normalizedLastWords, " ")
    && IsSubsequence(w.normalizedLastWord, Initials(s.text))
  }

  /** How many letters of `target` a left-to-right scan of `letters`
      matches, taking each letter that equals the next unmatched one. */
  function GreedyCount(target: string, letters: string): (n: nat)
    ensures n <= |target|
  {
    if letters == [] then 0
    else
      var k := GreedyCount(target, letters[..|letters| - 1]);
      if k < |target| && letters[|letters| - 1] == target[k] then k + 1 else k
  }

  /** What the greedy scan matches is a subsequence of the letters. */
  lemma {:induction false} GreedySound(target: string, letters: string)
    ensures IsSubsequence(target[..GreedyCount(target, letters)], letters)
    decreases |letters|
  {
    if letters != [] {
      var rest := letters[..|letters| - 1];
      var k := GreedyCount(target, rest);
      GreedySound(target, rest);
      if k < |target| && letters[|letters| - 1] == target[k] {
        assert target[..k + 1][..k] == target[..k];
      }
    }
  }

  /** No prefix of `target` longer than what the greedy scan matches is a
      subsequence of the letters. */
  lemma {:induction false} GreedyComplete(target: string, letters: string, j: nat)
    requires j <= |target| && IsSubsequence(target[..j], letters)
    ensures j <= GreedyCount(target, letters)
    decreases |letters|
  {
    if j > 0 {
      var rest := letters[..|letters| - 1];
      var a := target[..j];
      if a[j - 1] == letters[|letters| - 1] && IsSubsequence(a[..j - 1], rest) {
        assert a[..j - 1] == target[..j - 1];
        GreedyComplete(target, rest, j - 1);
      } else {
        GreedyComplete(target, rest, j);
      }
    }
  }

  /** The greedy scan matches all of `target` exactly when `target` is a
      subsequence of the letters. */
  lemma GreedyIffSubsequence(target: string, letters: string)
    ensures GreedyCount(target, letters) == |target| <==> IsSubsequence(target, letters)
  {
    GreedySound(target, letters);
    assert target[..|target|] == target;
    if IsSubsequence(target, letters) {
      GreedyComplete(target, letters, |target|);
    }
  }

  /** One more word advances the greedy count by at most its initial. */
  lemma ScanStep(target: string, words: seq<string>, i: nat)
    requires i < |words|
    ensures var k := GreedyCount(target, FirstLetters(words[..i]));
      var n := NormalizeText(words[i]);
      GreedyCount(target, FirstLetters(words[..i + 1]))
        == if |n| > 0 && k < |target| && n[0] == target[k] then k + 1 else k
  {
    FirstLettersStep(words, i);
    GreedyStep(target, FirstLetters(words[..i]), Initial(words[i]));
  }

  /** The first letters of one more word are those of the words before,
      followed by its initial. */
  lemma FirstLettersStep(words: seq<string>, i: nat)
    requires i < |words|
    ensures FirstLetters(words[..i + 1]) == FirstLetters(words[..i]) + Initial(words[i])
  {
    assert words[..i + 1][..i] == words[..i];
  }

  /** Scanning at most one more letter advances the greedy count by one
      exactly when that letter is the next one wanted. */
  lemma GreedyStep(target: string, letters: string, more: string)
    requires |more| <= 1
    ensures var k := GreedyCount(target, letters);
      GreedyCount(target, letters + more)
        == if |more| == 1 && k < |target| && more[0] == target[k] then k + 1 else k
  {
    if more == [] {
      assert letters + more == letters;
    } else {
      assert (letters + more)[..|letters|] == letters;
    }
  }

  lemma PrefixStep(s: string, k: nat)
    requires k < |s|
    ensures s[..k + 1] == s[..k] + [s[k]]
  {
  }

  lemma PrefixIsWhole(s: string, k: nat)
    requires k <= |s|
    ensures s[..k] == s <==> k == |s|
  {
    if s[..k] == s {
      assert |s[..k]| == k;
    }
  }

  /** The abbreviation loop: walk the words of the expansion, and whenever
      a word's normalized first letter is the next letter of the normalized
      last word, record it; succeed when every letter was recorded. */
  method AbbreviationScan(normalizedLastWord: string, text: string) returns (matched: bool)
    ensures matched == IsSubsequence(normalizedLastWord, Initials(text))
  {
    var words := Split(text);
    var letterIndex := 0;
    var matchedLetters := "";
    for i := 0 to |words|
      invariant letterIndex <= |normalizedLastWord|
      invariant matchedLetters == normalizedLastWord[..letterIndex]
      invariant letterIndex == GreedyCount(normalizedLastWord, FirstLetters(words[..i]))
    {
      var normalizedWord := NormalizeText(words[i]);
      ScanStep(normalizedLastWord, words, i);
      if |normalizedWord| > 0 && letterIndex < |normalizedLastWord|
         && normalizedWord[0] == normalizedLastWord[letterIndex]
      {
        PrefixStep(normalizedLastWord, letterIndex);
        matchedLetters := matchedLetters + [normalizedWord[0]];
        letterIndex := letterIndex + 1;
      }
    }
    assert words[..|words|] == words;
    PrefixIsWhole(normalizedLastWord, letterIndex);
    matched := matchedLetters == normalizedLastWord;
    GreedyIffSubsequence(normalizedLastWord, Initials(text));
  }

  // ---------------------------------------------------------------------------
  // The filter

  /** Whether a shortcut is suggested for the window. */
  predicate IsMatch(s: Shortcut, w: Window) {
    KeyMatch(s, w) || TextMatch(s, w) || AbbreviationMatch(s, w)
  }

  /** `shortcuts.filter(...)`: the matching shortcuts, in list order. */
  function FilterMatches(shortcuts: seq<Shortcut>, w: Window): (r: seq<Shortcut>)
    ensures |r| <= |shortcuts|
    ensures forall s :: s in r ==> s in shortcuts && IsMatch(s, w)
  {
    if shortcuts == [] then []
    else
      var last := shortcuts[|shortcuts| - 1];
      FilterMatches(shortcuts[..|shortcuts| - 1], w) + (if IsMatch(last, w) then [last] else [])
  }

  /** The filter keeps the list order: its result is a subsequence of the list. */
  lemma {:induction false} FilterKeepsOrder(shortcuts: seq<Shortcut>, w: Window)
    ensures IsSubsequence(FilterMatches(shortcuts, w), shortcuts)
    decreases |shortcuts|
  {
    if shortcuts != [] {
      var rest := shortcuts[..|shortcuts| - 1];
      var last := shortcuts[|shortcuts| - 1];
      FilterKeepsOrder(rest, w);
      var r := FilterMatches(shortcuts, w);
      if IsMatch(last, w) {
        assert r[..|r| - 1] == FilterMatches(rest, w);
      } else {
        assert r == FilterMatches(rest, w);
        SubsequenceSkipLast(r, shortcuts);
      }
    }
  }

  /** The filter keeps every matching entry as often as it occurs in the
      list, and no other entry. */
  lemma {:induction false} FilterCounts(shortcuts: seq<Shortcut>, w: Window)
    ensures forall s ::
              multiset(FilterMatches(shortcuts, w))[s] == (if IsMatch(s, w) then multiset(shortcuts)[s] else 0)
    decreases |shortcuts|
  {
    if shortcuts != [] {
      var rest := shortcuts[..|shortcuts| - 1];
      var last := shortcuts[|shortcuts| - 1];
      FilterCounts(rest, w);
      assert shortcuts == rest + [last];
    }
  }

  /** `findMatchingShortcuts(shortcuts, text, cursorPosition)`. */
  function FindMatchingShortcuts(shortcuts: seq<Shortcut>, text: string, cursor: int): (r: seq<Shortcut>)
    ensures |r| <= |shortcuts|
    ensures forall s :: s in r ==> s in shortcuts && IsMatch(s, ExtractWindow(text, cursor))
  {
    var w := ExtractWindow(text, cursor);
    FilterMatches(shortcuts, w)
  }

  // ---------------------------------------------------------------------------
  // Properties of findMatchingShortcuts

  /** The result keeps the list order, and holds exactly the list's entries
      that pass one of the three tests, each as often as in the list. */
  lemma FindMatchingShortcutsSpec(shortcuts: seq<Shortcut>, text: string, cursor: int)
    ensures var r := FindMatchingShortcuts(shortcuts, text, cursor);
      var w := ExtractWindow(text, cursor);
      && IsSubsequence(r, shortcuts)
      && (forall s :: multiset(r)[s] == (if IsMatch(s, w) then multiset(shortcuts)[s] else 0))
      && (forall s :: s in r <==> s in shortcuts && IsMatch(s, w))
  {
    var w := ExtractWindow(text, cursor);
    FilterKeepsOrder(shortcuts, w);
    FilterCounts(shortcuts, w);
    var r := FilterMatches(shortcuts, w);
    forall s
      ensures s in r <==> s in shortcuts && IsMatch(s, w)
    {
      assert s in r <==> multiset(r)[s] > 0;
      assert s in shortcuts <==> multiset(shortcuts)[s] > 0;
    }
  }

  /** Only the text before the clamped cursor matters: two inputs that agree
      on it get the same suggestions. */
  lemma OnlyTextBeforeCursorMatters(shortcuts: seq<Shortcut>, text1: string, cursor1: int, text2: string, cursor2: int)
    requires TextBefore(text1, cursor1) == TextBefore(text2, cursor2)
    ensures FindMatchingShortcuts(shortcuts, text1, cursor1) == FindMatchingShortcuts(shortcuts, text2, cursor2)
  {
  }

  /** Lower-casing keeps every run in place, so the regex window of the
      lower-cased text is the lower-cased regex window. */
  lemma RegexWindowLower(p: string)
    ensures RegexWindow(Lower(p)) == Lower(RegexWindow(p))
  {
    LowerPositions(p);
    var start := if HasTwoTokens(p) then PrevStart(p) else TokenStart(p);
    LowerSuffix(p, start);
  }

  /** The token and gap positions of a text and of its lower-cased form agree. */
  lemma LowerPositions(p: string)
    ensures TokenStart(Lower(p)) == TokenStart(p)
    ensures GapStart(Lower(p)) == GapStart(p)
    ensures PrevStart(Lower(p)) == PrevStart(p)
  {
    LowerRuns(p, false, |p|);
    LowerRuns(p, true, TokenStart(p));
    LowerRuns(p, false, GapStart(p));
  }

  /** Lower-casing commutes with taking a suffix. */
  lemma LowerSuffix(p: string, start: nat)
    requires start <= |p|
    ensures Lower(p)[start..] == Lower(p[start..])
  {
    LowerSlice(p, start, |p|);
    assert p[start..|p|] == p[start..];
  }

  /** `lastWords` is the same for two texts that agree once lower-cased. */
  lemma WindowTextIgnoresCase(p1: string, p2: string)
    requires Lower(p1) == Lower(p2)
    ensures WindowText(p1) == WindowText(p2)
  {
    RegexWindowLower(p1);
    RegexWindowLower(p2);
  }

  /** The tests other than the one-character key test read only the
      window's lower-cased words and their normalizations. */
  lemma IsMatchOfWords(s: Shortcut, w1: Window, w2: Window)
    requires |s.key| != 1
    requires w1.lastWord == w2.lastWord && w1.normalizedLastWord == w2.normalizedLastWord
    requires w1.normalizedLastWords == w2.normalizedLastWords
    ensures IsMatch(s, w1) == IsMatch(s, w2)
  {
  }

  /** Matching ignores case, except for the one-character key test, which
      compares the raw text: two texts whose parts before the cursor agree
      once lower-cased suggest the same shortcuts of any other key length. */
  lemma MatchIgnoresCase(s: Shortcut, text1: string, cursor1: int, text2: string, cursor2: int)
    requires |s.key| != 1
    requires Lower(TextBefore(text1, cursor1)) == Lower(TextBefore(text2, cursor2))
    ensures IsMatch(s, ExtractWindow(text1, cursor1)) == IsMatch(s, ExtractWindow(text2, cursor2))
  {
    var w1, w2 := ExtractWindow(text1, cursor1), ExtractWindow(text2, cursor2);
    WindowTextIgnoresCase(w1.before, w2.before);
    assert w1.lastWords == w2.lastWords;
    IsMatchOfWords(s, w1, w2);
  }

  /** The key test in terms of the text before the cursor: a one-character
      key must end it, exactly and case-sensitively; any other key must
      contain, lower-cased, the normalized last word before any trailing
      whitespace, and that word must have two characters or more. */
  lemma KeyTest(s: Shortcut, text: string, cursor: int)
    ensures var before := TextBefore(text, cursor);
      var word := LastToken(TrimEnd(before));
      var w := ExtractWindow(text, cursor);
      && (|s.key| == 1 ==> (KeyMatch(s, w) <==> EndsWith(before, s.key)))
      && (|s.key| != 1 ==>
            (KeyMatch(s, w) <==> |word| >= 2 && Includes(Lower(s.key), NormalizeText(Lower(word)))))
  {
    var w := ExtractWindow(text, cursor);
    WindowWords(text, cursor);
    KeyMatchOfWord(s, w, LastToken(TrimEnd(w.before)));
  }

  /** The key test of a window whose last word is `word`, lower-cased. */
  lemma KeyMatchOfWord(s: Shortcut, w: Window, word: string)
    requires w.lastWord == Lower(word) && w.normalizedLastWord == NormalizeText(w.lastWord)
    ensures |s.key| == 1 ==> (KeyMatch(s, w) <==> EndsWith(w.before, s.key))
    ensures |s.key| != 1 ==>
      (KeyMatch(s, w) <==> |word| >= 2 && Includes(Lower(s.key), NormalizeText(Lower(word))))
  {
  }

  /** `includes('')` holds for every string. */
  lemma IncludesEmpty(s: string)
    ensures Includes(s, [])
  {
    assert s[..0] == [];
  }

  /** A last word of two characters or more that normalizes to nothing
      (punctuation such as `!!`) makes every key whose length is not 1 pass
      the key test. */
  lemma PunctuationWordMatchesEveryLongKey(s: Shortcut, text: string, cursor: int)
    requires |s.key| != 1
    requires var word := LastToken(TrimEnd(TextBefore(text, cursor)));
      |word| >= 2 && NormalizeText(Lower(word)) == []
    ensures KeyMatch(s, ExtractWindow(text, cursor))
  {
    KeyTest(s, text, cursor);
    IncludesEmpty(Lower(s.key));
  }

  /** The window of an empty regex match is empty, and so is its last word. */
  lemma EmptyWindowWords(p: string)
    requires RegexWindow(p) == []
    ensures WindowText(p) == [] && LastPiece(WindowText(p)) == []
  {
    EmptyTrimLower();
    assert Lower([]) == [];
    LastPieceOfEmpty();
  }

  lemma LastPieceOfEmpty()
    ensures LastPiece([]) == []
  {
    assert Split([]) == [[]];
  }

  /** With an empty window only one-character keys ending the text can pass. */
  lemma EmptyWindowMatches(s: Shortcut, text: string, cursor: int)
    requires RegexWindow(TextBefore(text, cursor)) == []
    ensures IsMatch(s, ExtractWindow(text, cursor))
      <==> |s.key| == 1 && EndsWith(TextBefore(text, cursor), s.key)
  {
    var w := ExtractWindow(text, cursor);
    EmptyWindowWords(w.before);
    assert w.lastWords == [] && w.lastWord == [];
    assert |w.normalizedLastWords| == 0 && |w.normalizedLastWord| == 0;
    assert !TextMatch(s, w);
    assert !AbbreviationMatch(s, w);
  }

  /** A filter in which no entry passes is empty. */
  lemma NothingMatches(shortcuts: seq<Shortcut>, w: Window)
    requires forall s :: s in shortcuts ==> !IsMatch(s, w)
    ensures FilterMatches(shortcuts, w) == []
  {
    FilterCounts(shortcuts, w);
    var r := FilterMatches(shortcuts, w);
    assert multiset(r) == multiset{};
  }

  /** An empty text before the cursor (empty text, or cursor at or before
      its start) gives no suggestions at all. */
  lemma EmptyPrefixMatchesNothing(shortcuts: seq<Shortcut>, text: string, cursor: int)
    requires Clamp(cursor, |text|) == 0
    ensures FindMatchingShortcuts(shortcuts, text, cursor) == []
  {
    var w := ExtractWindow(text, cursor);
    forall s | s in shortcuts
      ensures !IsMatch(s, w)
    {
      EmptyPrefixRejects(s, text, cursor);
    }
    NothingMatches(shortcuts, w);
  }

  lemma EmptyPrefixRejects(s: Shortcut, text: string, cursor: int)
    requires Clamp(cursor, |text|) == 0
    ensures !IsMatch(s, ExtractWindow(text, cursor))
  {
    var before := TextBefore(text, cursor);
    assert |before| == 0;
    WhitespaceOnlyWindow(before);
    EmptyWindowMatches(s, text, cursor);
    assert !EndsWith(before, s.key) || s.key == [];
  }

  /** Text made of whitespace only, or no text at all, leaves the regex
      window empty. */
  lemma WhitespaceOnlyWindow(p: string)
    requires AllWhitespace(p)
    ensures RegexWindow(p) == []
  {
    RunStartUnique(p, false, |p|, |p|);
    RunStartUnique(p, true, |p|, 0);
    assert !HasTwoTokens(p);
  }

  /** A whitespace-only text before the cursor suggests exactly the
      shortcuts whose key is its last whitespace character. */
  lemma WhitespacePrefixMatchesOnlyThatKey(shortcuts: seq<Shortcut>, text: string, cursor: int)
    requires var before := TextBefore(text, cursor); before != [] && AllWhitespace(before)
    ensures var before := TextBefore(text, cursor);
      forall s :: s in FindMatchingShortcuts(shortcuts, text, cursor)
        <==> s in shortcuts && s.key == [before[|before| - 1]]
  {
    FindMatchingShortcutsSpec(shortcuts, text, cursor);
    forall s
      ensures IsMatch(s, ExtractWindow(text, cursor))
        <==> s.key == [TextBefore(text, cursor)[|TextBefore(text, cursor)| - 1]]
    {
      WhitespacePrefixMatch(s, text, cursor);
    }
  }

  lemma WhitespacePrefixMatch(s: Shortcut, text: string, cursor: int)
    requires var before := TextBefore(text, cursor); before != [] && AllWhitespace(before)
    ensures var before := TextBefore(text, cursor);
      IsMatch(s, ExtractWindow(text, cursor)) <==> s.key == [before[|before| - 1]]
  {
    var before := TextBefore(text, cursor);
    WhitespaceOnlyWindow(before);
    EmptyWindowMatches(s, text, cursor);
    assert before[|before| - 1..] == [before[|before| - 1]];
  }

  /** Without an ASCII space before the cursor the window holds no space,
      so the two-word text test can never pass: words separated by tabs or
      newlines go through the prefix test. */
  lemma NoSpaceMeansOneWordWindow(s: Shortcut, text: string, cursor: int)
    requires ' ' !in TextBefore(text, cursor)
    ensures var w := ExtractWindow(text, cursor);
      && !Includes(w.normalizedLastWords, " ")
      && (TextMatch(s, w) <==>
            (|w.normalizedLastWords| >= 2 && |w.normalizedLastWord| >= 2
             && StartsWith(NormalizeText(s.text), w.normalizedLastWord)))
  {
    var w := ExtractWindow(text, cursor);
    SpaceFreeWindow(w.before);
    NormalizeIntroducesNothing(w.lastWords, ' ');
    IncludesChar(w.normalizedLastWords, ' ');
  }

  /** A window cut from text without an ASCII space holds none either. */
  lemma SpaceFreeWindow(p: string)
    requires ' ' !in p
    ensures ' ' !in WindowText(p)
  {
    var m := RegexWindow(p);
    assert ' ' !in m by {
      assert forall i :: 0 <= i < |m| ==> m[i] == p[|p| - |m| + i];
    }
    SpaceFreeTrimLower(m);
  }

  // ---------------------------------------------------------------------------
  // The `;em` examples

  /** A word typed after whitespace (or at the start) is the last word. */
  lemma LastWordAfterSpace(prefix: string, word: string)
    requires prefix == [] || IsWhitespace(prefix[|prefix| - 1])
    requires word != [] && NoWhitespace(word)
    ensures LastToken(TrimEnd(prefix + word)) == word
  {
    var s := prefix + word;
    assert s[|s| - 1] == word[|word| - 1];
    TrimEndOfTokenEnded(s);
    LastTokenAfterSpace(prefix, word);
  }

  lemma LastTokenAfterSpace(prefix: string, word: string)
    requires prefix == [] || IsWhitespace(prefix[|prefix| - 1])
    requires NoWhitespace(word)
    ensures LastToken(prefix + word) == word
  {
    var s := prefix + word;
    assert forall i :: |prefix| <= i < |s| ==> s[i] == word[i - |prefix|];
    assert prefix != [] ==> s[|prefix| - 1] == prefix[|prefix| - 1];
    RunStartUnique(s, false, |s|, |prefix|);
    assert s[|prefix|..] == word;
  }

  /** `;e` normalizes to `e`. */
  lemma SemicolonENormalizes()
    ensures NormalizeText(Lower(";e")) == "e"
  {
    assert Lower(";e") == ";e";
    NormalizeAppend(";", "e");
    NormalizeChar(';');
    NormalizeChar('e');
  }

  /** The key `;em`, lower-cased, contains `e`. */
  lemma KeyContainsE()
    ensures Includes(Lower(";em"), "e")
  {
    var k := Lower(";em");
    assert k[1] == 'e';
    assert k[1..2] == "e";
    IncludesSlice(k, "e", 1);
  }

  /** Typing `;e` as a new word suggests the shortcut keyed `;em`. */
  lemma PartialKeyMatches(prefix: string)
    requires prefix == [] || IsWhitespace(prefix[|prefix| - 1])
    ensures KeyMatch(Shortcut(";em", "example@email.com"), ExtractWindow(prefix + ";e", |prefix + ";e"|))
  {
    var text := prefix + ";e";
    assert TextBefore(text, |text|) == text;
    LastWordAfterSpace(prefix, ";e");
    SemicolonENormalizes();
    KeyContainsE();
    KeyTest(Shortcut(";em", "example@email.com"), text, |text|);
  }

  /** A lone `;` does not suggest the shortcut keyed `;em`: the word is too
      short for the key test, and it normalizes to nothing, which fails the
      text and abbreviation tests of an expansion without a space. */
  lemma LoneSemicolonMissesKey(prefix: string)
    requires prefix == [] || IsWhitespace(prefix[|prefix| - 1])
    ensures !IsMatch(Shortcut(";em", "example@email.com"), ExtractWindow(prefix + ";", |prefix + ";"|))
  {
    var text := prefix + ";";
    var s := Shortcut(";em", "example@email.com");
    LoneSemicolonFailsKeyTest(prefix);
    LoneSemicolonWordNormalizesToNothing(prefix);
    ExampleTextHasNoSpace();
    EmptyWordMissesSpacelessText(s, ExtractWindow(text, |text|));
  }

  /** A lone `;` is too short a word to pass the key test of `;em`. */
  lemma LoneSemicolonFailsKeyTest(prefix: string)
    requires prefix == [] || IsWhitespace(prefix[|prefix| - 1])
    ensures !KeyMatch(Shortcut(";em", "example@email.com"), ExtractWindow(prefix + ";", |prefix + ";"|))
  {
    var text := prefix + ";";
    var s := Shortcut(";em", "example@email.com");
    assert TextBefore(text, |text|) == text;
    LastWordAfterSpace(prefix, ";");
    assert |LastToken(TrimEnd(text))| == 1;
    assert |s.key| == 3;
    ShortWordFailsLongKey(s, text, |text|);
  }

  /** After a lone `;`, the normalized last word is empty. */
  lemma LoneSemicolonWordNormalizesToNothing(prefix: string)
    requires prefix == [] || IsWhitespace(prefix[|prefix| - 1])
    ensures ExtractWindow(prefix + ";", |prefix + ";"|).normalizedLastWord == []
  {
    var text := prefix + ";";
    assert TextBefore(text, |text|) == text;
    LastWordAfterSpace(prefix, ";");
    WindowWords(text, |text|);
    SemicolonNormalizes();
  }

  /** The expansion `example@email.com` has no space once normalized. */
  lemma ExampleTextHasNoSpace()
    ensures ' ' !in NormalizeText("example@email.com")
  {
    assert ' ' !in "example@email.com";
    NormalizeIntroducesNothing("example@email.com", ' ');
  }

  /** `;` normalizes to nothing. */
  lemma SemicolonNormalizes()
    ensures NormalizeText(Lower(";")) == ""
  {
    assert Lower(";") == ";";
    NormalizeChar(';');
  }

  /** A last word that normalizes to nothing fails the abbreviation test and
      the one-word text test; it passes the two-word text test only when the
      normalized expansion holds a space. */
  lemma EmptyWordMissesSpacelessText(s: Shortcut, w: Window)
    requires w.normalizedLastWord == [] && ' ' !in NormalizeText(s.text)
    ensures !TextMatch(s, w) && !AbbreviationMatch(s, w)
  {
    if Includes(w.normalizedLastWords, " ") && Includes(NormalizeText(s.text), w.normalizedLastWords) {
      IncludesChar(w.normalizedLastWords, ' ');
      IncludesMember(NormalizeText(s.text), w.normalizedLastWords, ' ');
    }
  }

  /** A last word shorter than two characters fails every key whose length
      is not 1. */
  lemma ShortWordFailsLongKey(s: Shortcut, text: string, cursor: int)
    requires |s.key| != 1 && |LastToken(TrimEnd(TextBefore(text, cursor)))| < 2
    ensures !KeyMatch(s, ExtractWindow(text, cursor))
  {
    KeyTest(s, text, cursor);
  }

  // ---------------------------------------------------------------------------
  // The `hbt` examples

  /** A word that starts with an ASCII letter has that letter, lower-cased,
      as its initial. */
  lemma InitialOfLetter(c: char, rest: string)
    requires IsAsciiUpper(c) || IsAsciiLower(c)
    ensures Initial([c] + rest) == [LowerChar(c)]
  {
    NormalizeAppend([c], rest);
    NormalizeChar(c);
  }

  /** The first letters of leading words come first among the first
      letters of all the words. */
  lemma {:induction false} FirstLettersOfPrefix(words: seq<string>, k: nat)
    requires k <= |words|
    ensures IsSubsequence(FirstLetters(words[..k]), FirstLetters(words))
    decreases |words|
  {
    if k == |words| {
      assert words[..k] == words;
      SubsequenceReflexive(FirstLetters(words));
    } else {
      var n := |words|;
      var shorter := words[..n - 1];
      assert shorter[..k] == words[..k];
      FirstLettersOfPrefix(shorter, k);
      SubsequenceAppend(FirstLetters(words[..k]), FirstLetters(shorter), Initial(words[n - 1]));
    }
  }

  /** Words whose initials spell `target`, one letter per word, have
      `target` as their first letters. */
  lemma {:induction false} LeadingInitials(target: string, words: seq<string>, j: nat)
    requires j <= |target| <= |words|
    requires forall i :: 0 <= i < |target| ==> Initial(words[i]) == [target[i]]
    ensures FirstLetters(words[..j]) == target[..j]
  {
    if j > 0 {
      LeadingInitials(target, words, j - 1);
      InitialsStep(target, words, j - 1);
    } else {
      assert words[..0] == [];
    }
  }

  lemma InitialsStep(target: string, words: seq<string>, j: nat)
    requires j < |target| && j < |words|
    requires FirstLetters(words[..j]) == target[..j]
    requires Initial(words[j]) == [target[j]]
    ensures FirstLetters(words[..j + 1]) == target[..j + 1]
  {
    FirstLettersStep(words, j);
    PrefixStep(target, j);
  }

  /** An abbreviation made of the initials of the expansion's first words
      passes the scan, whatever words follow (`hbt` against "Happy Birthday
      To You"). */
  lemma AbbreviationOfLeadingWords(target: string, words: seq<string>)
    requires |target| <= |words|
    requires forall i :: 0 <= i < |target| ==> Initial(words[i]) == [target[i]]
    ensures IsSubsequence(target, FirstLetters(words))
  {
    LeadingInitials(target, words, |target|);
    assert target[..|target|] == target;
    FirstLettersOfPrefix(words, |target|);
  }

  /** Each word gives at most one letter, so an abbreviation longer than
      the expansion's word count never passes (`hbt` against "Happy
      Birthday"). */
  lemma AbbreviationNeedsEnoughWords(target: string, words: seq<string>)
    requires |words| < |target|
    ensures !IsSubsequence(target, FirstLetters(words))
  {
    if IsSubsequence(target, FirstLetters(words)) {
      SubsequenceLength(target, FirstLetters(words));
    }
  }
}
