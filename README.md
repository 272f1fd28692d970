# Autofill shortcut matching, in Dafny

This project models the core of a browser extension that expands typed
shortcuts into saved text. The user keeps a list of shortcuts, each a
`{key, text}` pair. While they type, the extension looks at the text before
the cursor and suggests every shortcut that matches it. Choosing a suggestion
replaces the typed key, or the word being typed, with the shortcut's text.

The model has four modules:

- `Matching` (`matching.dfy`) models `src/matching.js`:
  - `normalizeText`;
  - the window of one or two words before the cursor, which the regex
    `/(?:[^\s]+\s+)?[^\s]*$/` selects (modelled on token positions rather than
    as a regex), lower-cased, trimmed and split;
  - the key, text and abbreviation tests;
  - the filter `findMatchingShortcuts`.

  The abbreviation loop is a method, `AbbreviationScan`. It is proved equal to
  "the normalized last word is a subsequence of the initials of the
  expansion's words".
- `Content` (`content.dfy`) models `src/content.js`:
  - the text edit that `applySuggestion` computes, as the pure function
    `PlanReplacement`;
  - the suggestion box and its `selectedIndex`, as the class `SuggestionBox`.
    Its methods focus and follow the input, show, hide, navigate, hover,
    click, apply and handle keys, and each one's contract states the whole
    new state.
- `JsStrings` (`jsstrings.dfy`) holds the JavaScript string primitives the
  core relies on:
  - the `\s` character class;
  - ASCII `toLowerCase`;
  - `trim`;
  - `split(/\s+/)`;
  - `endsWith`, `startsWith` and `includes`;
  - the clamping `substring`.
- `Sequences` (`sequences.dfy`) defines order-preserving subsequences. The
  filter's result is one, and so is the abbreviation test.

`findMatchingShortcuts` in `src/matching.js` is the engine modelled. The copy
of the matcher inlined in `handleInput` (`src/content.js:112-169`) is not
modelled, because it differs from the engine. Of `handleInput` only its first
and final steps are modelled. `SuggestionBox.Focus` records the input, its
value and its cursor (`src/content.js:95-97`). `SuggestionBox.Refresh` shows
the matches, or hides the box when there are none. The matches are a
parameter of `Refresh`.

The code puts the new cursor at `textBeforeKey.length + selectedText.length`.
For a `;em` key after "My email is ", expanded to `example@email.com`, that is
12 + 17 = 29, which `EmailKeyExample` proves.

## Model

| member | source | states |
|---|---|---|
| Matching.NormalizeText | src/matching.js:15-17 | normalized text is never longer than its input and holds only lower-case ASCII letters, digits and whitespace |
| Matching.NormalizeAppend | src/matching.js:15-17 | normalization works character by character: normalizing a concatenation concatenates the normalizations, so the kept characters stay in order |
| Matching.NormalizeChar | src/matching.js:15-17 | one character survives, lower-cased, exactly when it is an ASCII letter, a digit or whitespace; the strip runs before the lower-casing |
| Matching.NormalizeFixesNormal | src/matching.js:15-17 | text made only of lower-case letters, digits and whitespace is left unchanged |
| Matching.NormalizeIdempotent | src/matching.js:15-17 | normalizing twice gives the same result as normalizing once |
| Matching.NormalizeIntroducesNothing | src/matching.js:15-17 | a character absent from the input that is not a lower-case letter is absent from the output |
| Matching.TextBefore | src/matching.js:28 | `substring(0, cursor)` is a prefix of the text whose length is the cursor clamped to `[0, length]` |
| Matching.RegexWindow | src/matching.js:31 | the regex match is a suffix of the text before the cursor |
| Matching.RegexWindowIsLeftmostMatch | src/matching.js:31 | the window matches `(?:[^\s]+\s+)?[^\s]*` in full, whatever the text; and no suffix of the text that starts before the window matches it, so the window is the match a leftmost regex search returns |
| Matching.TwoTokenWindowMatches | src/matching.js:31 | a window with a token before its whitespace run has the pattern's two-word shape |
| Matching.RegexWindowLastToken | src/matching.js:31 | the window ends with the same non-whitespace run as the text before the cursor |
| Matching.RegexWindowStart | src/matching.js:31 | the window is empty or starts with a non-whitespace character |
| Matching.WindowText | src/matching.js:31-32 | defined as the regex window, lower-cased, then trimmed: `lastWords` |
| Matching.LastPiece | src/matching.js:33 | the last piece of `split(/\s+/)`, which holds no whitespace |
| Matching.ExtractWindow | src/matching.js:28-37 | the window's text before the cursor is the clamped prefix, and its normalized fields are the normalizations of `lastWords` and `lastWord` |
| Matching.LastPieceIsLastToken | src/matching.js:33 | the last piece of `split(/\s+/)` is the trailing non-whitespace run, so it holds no whitespace |
| JsStrings.SplitLast | src/matching.js:33 | `split(/\s+/).pop()` is the trailing non-whitespace run of the string |
| JsStrings.IsWhitespace | src/matching.js:31 | defined as membership in the `\s` class: the ECMAScript white space and line terminator characters |
| JsStrings.LowerChar | src/matching.js:16 | `toLowerCase` of one character: never an upper-case ASCII letter; upper-case letters become lower-case; whitespace stays whitespace and nothing else becomes whitespace |
| JsStrings.Lower | src/matching.js:32 | `toLowerCase`: same length, each character lower-cased by `LowerChar` |
| JsStrings.TrimEnd | src/matching.js:32 | no longer than the string, empty or ending in a non-whitespace character, with only whitespace in the string after it |
| JsStrings.TrimStart | src/matching.js:32 | no longer than the string, empty or starting with a non-whitespace character, with only whitespace in the string before it |
| JsStrings.TrimKeepsAffix | src/matching.js:32 | trimming the end keeps a prefix of the string, trimming the start a suffix |
| JsStrings.Trim | src/matching.js:32 | `trim`: no longer than the string, and empty or starting and ending with a non-whitespace character |
| JsStrings.SplitFrom | src/matching.js:33 | the pieces of `split(/\s+/)` from a piece boundary on: at least one piece, none holding whitespace |
| JsStrings.Split | src/matching.js:33 | `split(/\s+/)`: at least one piece, none holding whitespace; `SplitWord`, `SplitCons` and `SplitLeadingWhitespace` give its pieces |
| JsStrings.SplitFromShift | src/matching.js:33 | splitting from a position gives the same pieces in any suffix that starts at or before it |
| JsStrings.SplitWord | src/matching.js:33 | a string without whitespace splits into itself alone; the empty string into one empty piece |
| JsStrings.SplitCons | src/matching.js:33 | a word, a whitespace run, then text not starting with whitespace: the word is the first piece, followed by the pieces of the rest |
| JsStrings.SplitLeadingWhitespace | src/matching.js:33 | leading whitespace gives an empty first piece, followed by the pieces of the rest |
| JsStrings.EndsWith | src/matching.js:43 | defined as `endsWith`: the suffix is no longer than the string and equals its tail |
| JsStrings.StartsWith | src/matching.js:56 | defined as `startsWith`: the prefix is no longer than the string and equals its head |
| JsStrings.Includes | src/matching.js:45 | defined as `includes`: the search string starts at some offset of the string |
| JsStrings.Clamp | src/matching.js:28 | `substring`'s clamp of the cursor: within `[0, len]`, the cursor itself when in range, 0 below it and `len` above it |
| Matching.WindowTextEndingInToken | src/matching.js:31-33 | when the text before the cursor ends in a token, `lastWords` is the lower-cased regex match and its last token is that token lower-cased |
| Matching.WindowTextEndingInWhitespace | src/matching.js:31-33 | when the text before the cursor ends in whitespace, `lastWords` is the last token before that whitespace, lower-cased, and is its own last word |
| Matching.WindowWords | src/matching.js:28-37 | `lastWord` is the lower-cased last token once trailing whitespace is dropped; it is the final token of `lastWords` and holds no whitespace; `lastWords` is the lower-cased regex match or, after whitespace, that word alone |
| Matching.RegexWindowLower | src/matching.js:31-32 | lower-casing keeps whitespace runs in place, so the regex window of the lower-cased text is the lower-cased regex window |
| Matching.WindowTextIgnoresCase | src/matching.js:31-32 | texts before the cursor that agree once lower-cased give the same `lastWords` |
| Matching.MatchIgnoresCase | src/matching.js:28-85 | for every key whose length is not 1, two texts whose parts before the cursor agree once lower-cased give the same verdict; only the one-character key test compares the raw text |
| Matching.OnlyTextBeforeCursorMatters | src/matching.js:28 | two inputs with the same text before the (clamped) cursor get the same suggestions |
| Matching.KeyMatch | src/matching.js:41-46 | defined as the key test: a one-character key must end the raw text before the cursor; any other key needs a raw last word of two characters or more that the lower-cased key contains once normalized |
| Matching.TextMatch | src/matching.js:49-63 | defined as the text test: with a normalized window of two characters or more, a window without a space must have a normalized last word of two or more characters that starts the normalized expansion, and a window with a space must occur in the normalized expansion |
| Matching.AbbreviationMatch | src/matching.js:66-83 | defined as the abbreviation test: a normalized last word of three characters or more, no space in the window, and the word a subsequence of the expansion's initials |
| Matching.IsMatch | src/matching.js:85 | defined as the disjunction of the key, text and abbreviation tests |
| Matching.KeyTest | src/matching.js:42-46 | a one-character key passes exactly when the raw text before the cursor ends with it (case-sensitive); any other key passes exactly when the raw last word has two or more characters and the lower-cased key contains the normalized last word |
| Matching.PunctuationWordMatchesEveryLongKey | src/matching.js:44-46 | a last word of two or more characters that normalizes to nothing, such as `!!`, makes every key whose length is not 1 pass |
| Matching.PartialKeyMatches | src/matching.js:44-46 | typing `;e` as a new word passes the key test of the key `;em` |
| Matching.ShortWordFailsLongKey | src/matching.js:44-46 | a last word shorter than two characters fails every key whose length is not 1 |
| Matching.LoneSemicolonMissesKey | src/matching.js:39-85 | typing a lone `;` as a new word does not suggest the `;em` shortcut expanding to `example@email.com`: all three tests fail |
| Matching.LoneSemicolonFailsKeyTest | src/matching.js:44-46 | typing a lone `;` as a new word fails the key test of `;em` |
| Matching.EmptyWordMissesSpacelessText | src/matching.js:52-83 | a last word that normalizes to nothing fails the abbreviation test, and the text test too when the normalized expansion has no space |
| Matching.SemicolonENormalizes | src/matching.js:15-17 | `;e` normalizes to `e` |
| Matching.NoSpaceMeansOneWordWindow | src/matching.js:52-63 | without an ASCII space before the cursor, the window has no space, so only the prefix test can pass; tab- or newline-separated words go through it |
| Matching.EmptyWindowMatches | src/matching.js:39-85 | with an empty window, a shortcut passes exactly when its key is one character that ends the text before the cursor |
| Matching.Initial | src/matching.js:73-75 | a word gives one letter exactly when its normalization is not empty, and that letter is the first normalized character |
| Matching.InitialOfLetter | src/matching.js:73-75 | a word starting with an ASCII letter gives that letter, lower-cased |
| Matching.GreedyCount | src/matching.js:72-80 | the number of letters the scan matches never exceeds the length of the last word |
| Matching.GreedySound | src/matching.js:72-80 | the letters the scan matches are a subsequence of the initials |
| Matching.GreedyComplete | src/matching.js:72-80 | no longer prefix of the last word is a subsequence of the initials |
| Matching.GreedyIffSubsequence | src/matching.js:72-82 | the scan reaches the end of the last word exactly when the last word is a subsequence of the initials |
| Matching.ScanStep | src/matching.js:73-79 | one more word advances the scan by one exactly when its normalized first letter is the next letter wanted |
| Matching.AbbreviationScan | src/matching.js:67-83 | the loop, with `matchedLetters` kept equal to the matched prefix, succeeds exactly when the normalized last word is a subsequence of the initials of the expansion's words |
| Matching.AbbreviationOfLeadingWords | src/matching.js:67-83 | letters that are the initials of the expansion's first words always pass the scan, whatever words follow (`hbt` against "Happy Birthday To You") |
| Matching.AbbreviationNeedsEnoughWords | src/matching.js:67-83 | more letters than the expansion has words never pass (`hbt` against "Happy Birthday") |
| Matching.FilterMatches | src/matching.js:39-86 | `filter`: never longer than the list, and every entry it keeps is in the list and passes `IsMatch` |
| Matching.FilterKeepsOrder | src/matching.js:39-85 | the filter's result is an order-preserving subsequence of the list |
| Matching.FilterCounts | src/matching.js:39-85 | the result holds each passing entry exactly as often as the list does, and no failing entry |
| Matching.FindMatchingShortcuts | src/matching.js:26-87 | the filter applied to the window of the text before the cursor: never longer than the list, and every entry it returns is in the list and passes one of the three tests for that window |
| Matching.FindMatchingShortcutsSpec | src/matching.js:26-87 | the result keeps the list order, and an entry is in it exactly when it is in the list and passes one of the three tests, with the same count as in the list |
| Matching.NothingMatches | src/matching.js:39-85 | a list in which no entry passes gives an empty result |
| Matching.EmptyPrefixMatchesNothing | src/matching.js:28-46 | an empty text before the cursor (empty text, or cursor at or before 0) gives no suggestions for any list |
| Matching.WhitespacePrefixMatchesOnlyThatKey | src/matching.js:28-46 | text before the cursor made only of whitespace suggests exactly the listed shortcuts whose key is its last whitespace character |
| Content.FirstSuffixKey | src/content.js:311 | `find` returns the first shortcut in list order whose key the text before the cursor ends with; none earlier ends it |
| Content.SliceDropLast | src/content.js:318 | `slice(0, -n)` drops the last `n` characters when `0 < n <= length`, and gives the empty string when `n` is 0 |
| Content.KeptBefore | src/content.js:311-325 | what is kept of the text before the cursor is a prefix of it |
| Content.PlanReplacement | src/content.js:304-327 | the new text is the kept prefix, then the chosen expansion, then the text after the cursor unchanged; the new cursor sits right after the expansion |
| Content.EditParts | src/content.js:316-327 | the new text is the kept part, the expansion and the text after the cursor, in that order |
| Content.KeyBranchReplacesKey | src/content.js:316-320 | when the first matching key is not empty, exactly that key is replaced: `before[..|before|-|key|] + selected + after`, with the cursor at `|before| - |key| + |selected|` |
| Content.FallbackReplacesLastToken | src/content.js:321-327 | with no matching key and a trailing token of length L, exactly those L characters are replaced, with the cursor at `|before| - L + |selected|` |
| Content.FallbackWithoutTokenWipesPrefix | src/content.js:323-327 | with no matching key and text before the cursor that ends in whitespace or is empty, `slice(0, -0)` discards the whole text before the cursor and the cursor lands at `|selected|` |
| Content.EmptyKeyWipesPrefix | src/content.js:311-320 | an empty key is a suffix of every text, so `find` always finds a key; once an empty key is the one found, the whole text before the cursor is discarded |
| Content.SpanIndependentOfSelection | src/content.js:304-311 | the span replaced depends on the text and the shortcut list, never on which suggestion is chosen |
| Content.KeyAtEnd | src/content.js:316-320 | text that ends with the only key, `;em`, becomes the text before the key followed by the expansion, with the cursor right after the expansion |
| Content.EmailKeyExample | src/content.js:316-320 | applying `example@email.com` to "My email is ;em" gives "My email is example@email.com" with the cursor at 29 |
| Content.NextIndex | src/content.js:276-287 | with no suggestions the index stays; otherwise the result is in `[0, n)`, Down from `n-1` wraps to 0, Up from 0 or -1 goes to `n-1`, and every other move is exactly one step |
| Content.NavigationInverse | src/content.js:280-284 | Up undoes Down and Down undoes Up on every valid selection |
| Content.DownTimesWraps | src/content.js:283 | pressing Down `k <= n` times moves `k` places on, wrapping past the end |
| Content.DownCycle | src/content.js:283 | pressing Down `n` times returns to the starting suggestion |
| Content.SuggestionTexts | src/content.js:219-241 | one suggestion per match, in order, showing the match's text |
| Content.SuggestionBox.constructor | src/content.js:1-21 | the box starts hidden and empty, with no selection and no input; its copy of the input is empty with the cursor at 0 |
| Content.SuggestionBox.Focus | src/content.js:95-97 | the input becomes the current one, with its value and cursor; the selection is untouched |
| Content.SuggestionBox.InputChanged | src/content.js:305-306 | the current input's value and cursor change outside `handleInput`; `applySuggestion` reads them live, so the box's copy follows; the box and selection do not change |
| Content.SuggestionBox.Show | src/content.js:215-243 | the box shows one suggestion per match, is displayed, and selects the first |
| Content.SuggestionBox.Refresh | src/content.js:171-177 | matches are shown with the first selected; no matches hide the box and clear the selection |
| Content.SuggestionBox.Hide | src/content.js:271-274 | the box is hidden and the selection is -1; the suggestions stay in the box |
| Content.SuggestionBox.Navigate | src/content.js:276-287 | the selection becomes `NextIndex` of the old one and stays valid; nothing else changes |
| Content.SuggestionBox.Hover | src/content.js:235-238 | moving the mouse over a suggestion selects it |
| Content.SuggestionBox.Apply | src/content.js:301-334 | without an input or with the selection at -1, nothing changes; otherwise the input takes `PlanReplacement`'s text and cursor for the selected suggestion, and the box is hidden with the selection back at -1 |
| Content.SuggestionBox.Click | src/content.js:230-233 | a click selects the suggestion and applies it: with an input, the input takes `PlanReplacement`'s text and cursor and the box is hidden with no selection; without one, only the selection moves to the clicked suggestion |
| Content.SuggestionBox.KeyDown | src/content.js:55-80 | the suggestions and the input never change their identity; while the box is hidden, and for any other key, nothing changes; the arrows move the selection by `NextIndex` and leave the input alone; Escape hides and clears the selection, leaving the input alone; Tab with suggestions, an input and a selection writes `PlanReplacement`'s text and cursor and hides the box, and otherwise changes nothing |
| Content.SelectionLifecycle | src/content.js:301-334 | after show, the first suggestion is selected and applying it writes its replacement; applying again with the selection cleared leaves the input's value as it was |

## Left out

- Building, styling and positioning the suggestion box are not modelled: the
  caret coordinates, viewport clamping and highlighting
  (`src/content.js:1-17`, `181-213`, `243-269`, `289-299`). They are layout
  read from the browser.
- Storage is not modelled: the `chrome.storage.sync` loading and the
  `onChanged` listener (`src/content.js:24-33`). The shortcut list is a
  parameter.
- Most event wiring is not modelled; it is browser I/O:
  - the `input`, `click` and `keyup` listeners that decide when
    `handleInput` runs (`src/content.js:36-53`);
  - the outside-click listener's test of the click target
    (`src/content.js:81-87`); the hiding it then does is `Hide`;
  - `selectionEnd`, which `setSelectionRange` also sets
    (`src/content.js:331`); only the cursor, `selectionStart`, is modelled;
  - the `input` event that `applySuggestion` dispatches
    (`src/content.js:332`), which runs the matcher again.

  The keydown listener (`src/content.js:55-80`) is modelled, as
  `SuggestionBox.KeyDown`.
- The inlined matcher in `handleInput` (`src/content.js:112-169`) is not
  modelled. It is a diverging copy of `findMatchingShortcuts` with its own
  extra rules.
- `src/popup.js` is not part of this model. Its only rule, dropping entries
  with an empty key or text, is not a precondition here: the model takes any key, and
  `EmptyKeyWipesPrefix` shows what an empty one does.
- Unicode is not modelled:
  - `toLowerCase` is modelled for ASCII letters only, so other letters keep
    their case;
  - strings are sequences of characters, not UTF-16 code units;
  - the `\s` class is modelled in full (the ECMAScript whitespace and line
    terminators).
- Matching.AbbreviationOfLeadingWords and Matching.AbbreviationNeedsEnoughWords
  state the "Happy Birthday" examples over the list of words, not over the
  literal sentence and its `split`.
- The box's copy of the input's value and cursor changes through `Focus`
  (`handleInput`, `src/content.js:95-97`), through `InputChanged` and
  through `applySuggestion` itself. Which DOM element is current is not
  modelled beyond `hasInput`: a change to an input other than the current
  one does not reach the box.
- Content.SuggestionBox.Show requires at least one match, as its only
  caller does (`src/content.js:171-174`). With no matches, the source would
  select index 0 in an empty box.
