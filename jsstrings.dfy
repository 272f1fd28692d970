/** The JavaScript string operations the engine relies on, over sequences of
    characters: the `\s` class, ASCII lower-casing, `trim`, `split(/\s+/)`,
    `startsWith`, `endsWith`, `includes` and `substring`'s cursor clamping. */
module JsStrings {

  /** Membership in JavaScript's `\s` class, which is also the set of
      characters that `String.prototype.trim` removes. */
  predicate IsWhitespace(c: char) {
    c == ' ' || c == '\t' || c == '\n' || c == '\U{B}' || c == '\U{C}' || c == '\r'
    || c == '\U{A0}' || c == '\U{1680}' || ('\U{2000}' <= c <= '\U{200A}')
    || c == '\U{2028}' || c == '\U{2029}' || c == '\U{202F}' || c == '\U{205F}'
    || c == '\U{3000}' || c == '\U{FEFF}'
  }

  predicate IsAsciiUpper(c: char) { 'A' <= c <= 'Z' }
  predicate IsAsciiLower(c: char) { 'a' <= c <= 'z' }
  predicate IsAsciiDigit(c: char) { '0' <= c <= '9' }

  predicate NoWhitespace(s: string) { forall i :: 0 <= i < |s| ==> !IsWhitespace(s[i]) }
  predicate AllWhitespace(s: string) { forall i :: 0 <= i < |s| ==> IsWhitespace(s[i]) }

  /** `toLowerCase` on one character, restricted to ASCII letters. */
  function LowerChar(c: char): (d: char)
    ensures !IsAsciiUpper(d)
    ensures IsWhitespace(d) == IsWhitespace(c)
    ensures IsAsciiUpper(c) ==> IsAsciiLower(d)
    ensures IsAsciiLower(d) || IsAsciiDigit(d) ==> d == c || IsAsciiUpper(c)
  {
    if IsAsciiUpper(c) then (c as int + 32) as char else c
  }

  /** `s.toLowerCase()`, character by character. */
  function Lower(s: string): (r: string)
    ensures |r| == |s|
    ensures forall i :: 0 <= i < |s| ==> r[i] == LowerChar(s[i])
  {
    seq(|s|, i requires 0 <= i < |s| => LowerChar(s[i]))
  }

  /** Lower-casing commutes with slicing. */
  lemma LowerSlice(s: string, a: nat, b: nat)
    requires a <= b <= |s|
    ensures Lower(s)[a..b] == Lower(s[a..b])
  {
  }

  /** Where the maximal run of whitespace (`white`) or of non-whitespace
      (`!white`) characters that ends at position `end` of `s` starts. */
  function RunStart(s: string, white: bool, end: nat): (start: nat)
    requires end <= |s|
    ensures start <= end
    ensures forall i :: start <= i < end ==> IsWhitespace(s[i]) == white
    ensures start > 0 ==> IsWhitespace(s[start - 1]) != white
    decreases end
  {
    if end == 0 || IsWhitespace(s[end - 1]) != white then end else RunStart(s, white, end - 1)
  }

  /** Where the maximal run of whitespace (`white`) or of non-whitespace
      (`!white`) characters that starts at position `start` of `s` ends. */
  function RunEnd(s: string, white: bool, start: nat): (end: nat)
    requires start <= |s|
    ensures start <= end <= |s|
    ensures forall i :: start <= i < end ==> IsWhitespace(s[i]) == white
    ensures end < |s| ==> IsWhitespace(s[end]) != white
    decreases |s| - start
  {
    if start == |s| || IsWhitespace(s[start]) != white then start else RunEnd(s, white, start + 1)
  }

  /** A position with the properties of `RunStart` is `RunStart`. */
  lemma RunStartUnique(s: string, white: bool, end: nat, start: nat)
    requires start <= end <= |s|
    requires forall i :: start <= i < end ==> IsWhitespace(s[i]) == white
    requires start > 0 ==> IsWhitespace(s[start - 1]) != white
    ensures RunStart(s, white, end) == start
  {
  }

  /** A position with the properties of `RunEnd` is `RunEnd`. */
  lemma RunEndUnique(s: string, white: bool, start: nat, end: nat)
    requires start <= end <= |s|
    requires forall i :: start <= i < end ==> IsWhitespace(s[i]) == white
    requires end < |s| ==> IsWhitespace(s[end]) != white
    ensures RunEnd(s, white, start) == end
  {
  }

  /** Lower-casing never turns whitespace into non-whitespace or back, so a
      string and its lower-cased form have the same runs. */
  lemma LowerRuns(s: string, white: bool, k: nat)
    requires k <= |s|
    ensures RunStart(Lower(s), white, k) == RunStart(s, white, k)
    ensures RunEnd(Lower(s), white, k) == RunEnd(s, white, k)
  {
    var l := Lower(s);
    assert forall i :: 0 <= i < |s| ==> IsWhitespace(l[i]) == IsWhitespace(s[i]);
    var a, b := RunStart(s, white, k), RunEnd(s, white, k);
    assert a > 0 ==> IsWhitespace(l[a - 1]) != white;
    assert b < |s| ==> IsWhitespace(l[b]) != white;
    RunStartUnique(Lower(s), white, k, RunStart(s, white, k));
    RunEndUnique(Lower(s), white, k, RunEnd(s, white, k));
  }

  /** The maximal run of non-whitespace characters at the end of `s`: what
      `s.match(/[^\s]*$/)[0]` returns. */
  function LastToken(s: string): string {
    s[RunStart(s, false, |s|)..]
  }

  /** The last token has no whitespace in it. */
  lemma LastTokenNoWhitespace(s: string)
    ensures NoWhitespace(LastToken(s))
  {
    var k := RunStart(s, false, |s|);
    assert forall i :: 0 <= i < |s| - k ==> LastToken(s)[i] == s[k + i];
  }

  /** Lower-casing commutes with taking the last token. */
  lemma LowerLastToken(s: string)
    ensures LastToken(Lower(s)) == Lower(LastToken(s))
  {
    LowerRuns(s, false, |s|);
  }

  /** A suffix that contains the whole last token ends with that token. */
  lemma LastTokenOfSuffix(s: string, a: nat)
    requires a <= RunStart(s, false, |s|)
    ensures LastToken(s[a..]) == LastToken(s)
  {
    var k := RunStart(s, false, |s|);
    var m := s[a..];
    assert |m| == |s| - a;
    RunStartOfSuffix(s, false, a, |s|);
    assert RunStart(m, false, |m|) == k - a;
    SuffixOfSuffix(s, a, k);
  }

  lemma SuffixOfSuffix(s: string, a: nat, k: nat)
    requires a <= k <= |s|
    ensures s[a..][k - a..] == s[k..]
  {
  }

  /** Runs that end inside a suffix and start no earlier than it are the
      same runs, shifted. */
  lemma {:induction false} RunStartOfSuffix(s: string, white: bool, a: nat, end: nat)
    requires end <= |s| && a <= RunStart(s, white, end)
    ensures RunStart(s[a..], white, end - a) == RunStart(s, white, end) - a
    decreases end
  {
    if end > a {
      assert s[a..][end - a - 1] == s[end - 1];
      if IsWhitespace(s[end - 1]) == white {
        RunStartOfSuffix(s, white, a, end - 1);
      }
    }
  }

  /** `s` without its trailing whitespace. */
  function TrimEnd(s: string): (r: string)
    ensures |r| <= |s|
    ensures r == [] || !IsWhitespace(r[|r| - 1])
    ensures AllWhitespace(s[|r|..])
  {
    s[..RunStart(s, true, |s|)]
  }

  /** `s` without its leading whitespace. */
  function TrimStart(s: string): (r: string)
    ensures |r| <= |s|
    ensures r == [] || !IsWhitespace(r[0])
    ensures AllWhitespace(s[..|s| - |r|])
  {
    s[RunEnd(s, true, 0)..]
  }

  /** `s.trim()`. */
  function Trim(s: string): (r: string)
    ensures |r| <= |s|
    ensures r == [] || (!IsWhitespace(r[0]) && !IsWhitespace(r[|r| - 1]))
  {
    TrimStart(TrimEnd(s))
  }

  /** Trimming the end keeps a prefix, trimming the start a suffix. */
  lemma TrimKeepsAffix(s: string)
    ensures StartsWith(s, TrimEnd(s))
    ensures EndsWith(s, TrimStart(s))
  {
  }

  /** `trim` keeps exactly the slice between leading and trailing whitespace. */
  lemma TrimSlice(s: string, a: nat, b: nat)
    requires a <= b <= |s|
    requires forall i :: 0 <= i < a ==> IsWhitespace(s[i])
    requires forall i :: b <= i < |s| ==> IsWhitespace(s[i])
    requires a < b ==> !IsWhitespace(s[a]) && !IsWhitespace(s[b - 1])
    ensures Trim(s) == s[a..b]
  {
    if a == b {
      RunStartUnique(s, true, |s|, 0);
    } else {
      RunStartUnique(s, true, |s|, b);
      var t := s[..b];
      assert forall i :: 0 <= i < b ==> t[i] == s[i];
      RunEndUnique(t, true, 0, a);
    }
  }

  /** `trim` leaves a string alone when it neither starts nor ends with whitespace. */
  lemma TrimUnchanged(s: string)
    requires s == [] || (!IsWhitespace(s[0]) && !IsWhitespace(s[|s| - 1]))
    ensures Trim(s) == s
  {
    TrimSlice(s, 0, |s|);
  }

  /** Lower-casing keeps a string that neither starts nor ends with
      whitespace unchanged by `trim`. */
  lemma TrimLowerUnchanged(s: string)
    requires s == [] || (!IsWhitespace(s[0]) && !IsWhitespace(s[|s| - 1]))
    ensures Trim(Lower(s)) == Lower(s)
  {
    TrimUnchanged(Lower(s));
  }

  /** A token from `a` to `b` followed only by whitespace trims, once
      lower-cased, to the lower-cased token. */
  lemma TrimLowerTokenThenSpace(s: string, a: nat, b: nat)
    requires a < b <= |s|
    requires forall i :: a <= i < b ==> !IsWhitespace(s[i])
    requires forall i :: b <= i < |s| ==> IsWhitespace(s[i])
    ensures Trim(Lower(s[a..])) == Lower(s[a..b])
  {
    var m := s[a..];
    forall i | 0 <= i < |m|
      ensures IsWhitespace(m[i]) == (b - a <= i)
    {
      assert m[i] == s[a + i];
    }
    TrimSlice(Lower(m), 0, b - a);
    LowerSlice(m, 0, b - a);
    assert m[0..b - a] == s[a..b];
  }

  /** Lower-casing and trimming introduce no ASCII space. */
  lemma SpaceFreeTrimLower(s: string)
    requires ' ' !in s
    ensures ' ' !in Trim(Lower(s))
  {
    var l := Lower(s);
    assert ' ' !in l by {
      forall i | 0 <= i < |l|
        ensures l[i] != ' '
      {
        assert s[i] != ' ';
      }
    }
    var t := TrimEnd(l);
    NotInSlice(l, ' ', 0, RunStart(l, true, |l|));
    NotInSlice(t, ' ', RunEnd(t, true, 0), |t|);
    assert t[RunEnd(t, true, 0)..|t|] == Trim(l);
  }

  /** A character missing from a string is missing from each of its slices. */
  lemma NotInSlice(s: string, c: char, a: nat, b: nat)
    requires a <= b <= |s| && c !in s
    ensures c !in s[a..b]
  {
  }

  /** `s.split(/\s+/)` scanning from position `start`, which is the start of
      `s` or just after a whitespace run. */
  function SplitFrom(s: string, start: nat): (r: seq<string>)
    requires start <= |s|
    ensures |r| >= 1
    ensures forall i :: 0 <= i < |r| ==> NoWhitespace(r[i])
    decreases |s| - start
  {
    var e := RunEnd(s, false, start);
    if e == |s| then [s[start..]] else [s[start..e]] + SplitFrom(s, RunEnd(s, true, e))
  }

  /** `s.split(/\s+/)`: the pieces between maximal whitespace runs; a leading
      or trailing run yields an empty first or last piece, and the empty
      string yields one empty piece. */
  function Split(s: string): (r: seq<string>)
    ensures |r| >= 1
    ensures forall i :: 0 <= i < |r| ==> NoWhitespace(r[i])
  {
    SplitFrom(s, 0)
  }

  /** The last piece a split from `start` produces is the last token. */
  lemma {:induction false} SplitFromLast(s: string, start: nat)
    requires start <= |s| && (start == 0 || IsWhitespace(s[start - 1]))
    ensures var r := SplitFrom(s, start); r[|r| - 1] == LastToken(s)
    decreases |s| - start
  {
    var e := RunEnd(s, false, start);
    if e == |s| {
      RunStartUnique(s, false, |s|, start);
    } else {
      var next := RunEnd(s, true, e);
      NextRunEnds(s, e);
      SplitFromStep(s, start, next);
      SplitFromLast(s, next);
    }
  }

  /** A whitespace run that starts at a whitespace character is not empty. */
  lemma NextRunEnds(s: string, e: nat)
    requires e < |s| && IsWhitespace(s[e])
    ensures e < RunEnd(s, true, e) && IsWhitespace(s[RunEnd(s, true, e) - 1])
  {
  }

  /** A split that goes on past the first piece ends as the split of the
      rest does. */
  lemma SplitFromStep(s: string, start: nat, next: nat)
    requires start <= |s| && RunEnd(s, false, start) < |s|
    requires next == RunEnd(s, true, RunEnd(s, false, start))
    ensures SplitFrom(s, start)[|SplitFrom(s, start)| - 1]
      == SplitFrom(s, next)[|SplitFrom(s, next)| - 1]
  {
  }

  /** A run found in a suffix is the same run, shifted. */
  lemma RunEndShift(s: string, white: bool, a: nat, k: nat)
    requires a <= k <= |s|
    ensures RunEnd(s, white, k) == a + RunEnd(s[a..], white, k - a)
  {
    var t := s[a..];
    var e := RunEnd(t, white, k - a);
    assert forall i :: k - a <= i < e ==> t[i] == s[a + i];
    assert e < |t| ==> t[e] == s[a + e];
    RunEndUnique(s, white, k, a + e);
  }

  /** Splitting from `k` reads only the text from `k` on, so it gives the
      same pieces in any suffix that starts at or before `k`. */
  lemma {:induction false} SplitFromShift(s: string, a: nat, k: nat)
    requires a <= k <= |s|
    ensures SplitFrom(s, k) == SplitFrom(s[a..], k - a)
    decreases |s| - k
  {
    var t := s[a..];
    var e := RunEnd(s, false, k);
    RunEndShift(s, false, a, k);
    SliceShift(s, a, k, e);
    if e < |s| {
      var next := RunEnd(s, true, e);
      RunEndShift(s, true, a, e);
      SplitFromShift(s, a, next);
      SplitStepShift(s, a, k, e, next);
    } else {
      assert s[k..] == t[k - a..];
    }
  }

  /** Slices of a suffix are slices of the string, shifted. */
  lemma SliceShift(s: string, a: nat, k: nat, e: nat)
    requires a <= k <= e <= |s|
    ensures s[a..][k - a..e - a] == s[k..e]
  {
  }

  /** One step of the split, read in a suffix. */
  lemma SplitStepShift(s: string, a: nat, k: nat, e: nat, next: nat)
    requires a <= k <= e < |s|
    requires e == RunEnd(s, false, k) && next == RunEnd(s, true, e)
    requires e - a == RunEnd(s[a..], false, k - a) && next - a == RunEnd(s[a..], true, e - a)
    requires s[a..][k - a..e - a] == s[k..e]
    requires SplitFrom(s, next) == SplitFrom(s[a..], next - a)
    ensures SplitFrom(s, k) == SplitFrom(s[a..], k - a)
  {
    SplitFromUnfold(s, k);
    SplitFromUnfold(s[a..], k - a);
  }

  /** A split that does not stop at its first piece goes on after the
      whitespace run that ends it. */
  lemma SplitFromUnfold(s: string, k: nat)
    requires k <= |s| && RunEnd(s, false, k) < |s|
    ensures SplitFrom(s, k)
      == [s[k..RunEnd(s, false, k)]] + SplitFrom(s, RunEnd(s, true, RunEnd(s, false, k)))
  {
  }

  /** A string without whitespace splits into itself alone; the empty
      string splits into one empty piece. */
  lemma SplitWord(w: string)
    requires NoWhitespace(w)
    ensures Split(w) == [w]
  {
    RunEndUnique(w, false, 0, |w|);
    assert w[0..] == w;
  }

  /** A word, then a whitespace run, then text that does not start with
      whitespace: the word is the first piece and the rest split as before. */
  lemma SplitCons(w: string, ws: string, rest: string)
    requires w != [] && NoWhitespace(w)
    requires ws != [] && AllWhitespace(ws)
    requires rest == [] || !IsWhitespace(rest[0])
    ensures Split(w + ws + rest) == [w] + Split(rest)
  {
    var s := w + ws + rest;
    var a := |w| + |ws|;
    assert forall i :: 0 <= i < |w| ==> s[i] == w[i];
    assert forall i :: |w| <= i < a ==> s[i] == ws[i - |w|];
    assert rest != [] ==> s[a] == rest[0];
    RunEndUnique(s, false, 0, |w|);
    RunEndUnique(s, true, |w|, a);
    assert s[0..|w|] == w;
    assert s[a..] == rest;
    SplitFromShift(s, a, a);
  }

  /** Leading whitespace gives an empty first piece. */
  lemma SplitLeadingWhitespace(ws: string, rest: string)
    requires ws != [] && AllWhitespace(ws)
    requires rest == [] || !IsWhitespace(rest[0])
    ensures Split(ws + rest) == [""] + Split(rest)
  {
    var s := ws + rest;
    var a := |ws|;
    assert forall i :: 0 <= i < a ==> s[i] == ws[i];
    assert rest != [] ==> s[a] == rest[0];
    RunEndUnique(s, false, 0, 0);
    RunEndUnique(s, true, 0, a);
    assert s[0..0] == "";
    assert s[a..] == rest;
    SplitFromShift(s, a, a);
  }

  /** `s.split(/\s+/).pop()` is the trailing run of non-whitespace of `s`. */
  lemma SplitLast(s: string)
    ensures Split(s)[|Split(s)| - 1] == LastToken(s)
  {
    SplitFromLast(s, 0);
  }

  predicate StartsWith(s: string, prefix: string) {
    |prefix| <= |s| && s[..|prefix|] == prefix
  }

  predicate EndsWith(s: string, suffix: string) {
    |suffix| <= |s| && s[|s| - |suffix|..] == suffix
  }

  /** `s.includes(t)`: `t` starts at some offset of `s`. */
  predicate Includes(s: string, t: string)
    decreases |s|
  {
    StartsWith(s, t) || (s != [] && Includes(s[1..], t))
  }

  /** A one-character search string is included exactly when that character occurs. */
  lemma {:induction false} IncludesChar(s: string, c: char)
    ensures Includes(s, [c]) <==> c in s
    decreases |s|
  {
    if s != [] {
      IncludesChar(s[1..], c);
      assert s == [s[0]] + s[1..];
    }
  }

  /** `includes` finds `t` inside `s` exactly when `t` is a slice of `s`. */
  lemma {:induction false} IncludesSlice(s: string, t: string, i: nat)
    requires i + |t| <= |s| && s[i..i + |t|] == t
    ensures Includes(s, t)
    decreases i
  {
    if i > 0 {
      IncludesSlice(s[1..], t, i - 1);
    }
  }

  /** Every character of a string that `includes` finds occurs in the
      string searched. */
  lemma {:induction false} IncludesMember(s: string, t: string, c: char)
    requires Includes(s, t) && c in t
    ensures c in s
    decreases |s|
  {
    if StartsWith(s, t) {
      assert t == s[..|t|];
    } else {
      IncludesMember(s[1..], t, c);
    }
  }

  /** `text.substring(0, cursor)` and `text.substring(cursor)` clamp the
      cursor to `[0, len]`. */
  function Clamp(cursor: int, len: nat): (c: nat)
    ensures c <= len
    ensures 0 <= cursor <= len ==> c == cursor
    ensures cursor < 0 ==> c == 0
    ensures cursor > len ==> c == len
  {
    if cursor < 0 then 0 else if cursor > len then len else cursor
  }
}
