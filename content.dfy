/** The suggestion box of src/content.js: the text edit that applying a
    suggestion performs, and the selection state that the keyboard and the
    mouse move around. */
module Content {
  import opened JsStrings
  import opened Matching

  // ---------------------------------------------------------------------------
  // The replacement computed by applySuggestion

  /** `shortcuts.find(s => before.endsWith(s.key))`, as the index of the
      shortcut found, or `|shortcuts|` when there is none. */
  function FirstSuffixKey(shortcuts: seq<Shortcut>, before: string): (i: nat)
    ensures i <= |shortcuts|
    ensures i < |shortcuts| ==> EndsWith(before, shortcuts[i].key)
    ensures forall j :: 0 <= j < i ==> !EndsWith(before, shortcuts[j].key)
  {
    if shortcuts == [] then 0
    else if EndsWith(before, shortcuts[0].key) then 0
    else 1 + FirstSuffixKey(shortcuts[1..], before)
  }

  /** `s.slice(0, -n)`: the end index `-n` counts from the end of `s`, except
      that `-0` is `0`, so dropping nothing yields the empty string. */
  function SliceDropLast(s: string, n: nat): (r: string)
    ensures n == 0 ==> r == []
    ensures 0 < n <= |s| ==> s == r + s[|s| - n..]
    ensures n > |s| ==> r == []
  {
    if n == 0 || n > |s| then [] else s[..|s| - n]
  }

  /** What is kept of the text before the cursor: everything but the first
      shortcut key it ends with, or, when no key matches, everything but
      the trailing run of non-whitespace. */
  function KeptBefore(shortcuts: seq<Shortcut>, before: string): (kept: string)
    ensures StartsWith(before, kept)
  {
    var i := FirstSuffixKey(shortcuts, before);
    if i < |shortcuts| then SliceDropLast(before, |shortcuts[i].key|)
    else SliceDropLast(before, |LastToken(before)|)
  }

  /** The new value of the input and the new cursor position. */
  datatype Edit = Edit(newText: string, newCursor: nat)

  /** The edit `applySuggestion` makes when `selected` is the chosen
      expansion and the input holds `text` with the cursor at `cursor`. */
  function PlanReplacement(shortcuts: seq<Shortcut>, text: string, cursor: int, selected: string): (e: Edit)
    ensures |selected| <= e.newCursor <= |e.newText|
    ensures e.newText[e.newCursor..] == text[Clamp(cursor, |text|)..]
    ensures e.newText[e.newCursor - |selected|..e.newCursor] == selected
    ensures e.newText[..e.newCursor - |selected|] == KeptBefore(shortcuts, TextBefore(text, cursor))
  {
    var c := Clamp(cursor, |text|);
    var kept := KeptBefore(shortcuts, text[..c]);
    var newText := kept + selected + text[c..];
    Edit(newText, |kept| + |selected|)
  }

  /** Key branch: when the first key the text before the cursor ends with
      is not empty, exactly that key is replaced by the expansion. */
  lemma KeyBranchReplacesKey(shortcuts: seq<Shortcut>, text: string, cursor: int, selected: string)
    requires var i := FirstSuffixKey(shortcuts, TextBefore(text, cursor));
      i < |shortcuts| && shortcuts[i].key != []
    ensures var before := TextBefore(text, cursor);
      var key := shortcuts[FirstSuffixKey(shortcuts, before)].key;
      var e := PlanReplacement(shortcuts, text, cursor, selected);
      && e.newText == before[..|before| - |key|] + selected + text[|before|..]
      && e.newCursor == |before| - |key| + |selected|
  {
    var before := TextBefore(text, cursor);
    var key := shortcuts[FirstSuffixKey(shortcuts, before)].key;
    var e := PlanReplacement(shortcuts, text, cursor, selected);
    assert before == KeptBefore(shortcuts, before) + key;
    EditParts(shortcuts, text, cursor, selected);
  }

  /** The new text is the kept part, the expansion and the text after the
      cursor, in that order. */
  lemma EditParts(shortcuts: seq<Shortcut>, text: string, cursor: int, selected: string)
    ensures var e := PlanReplacement(shortcuts, text, cursor, selected);
      e.newText == KeptBefore(shortcuts, TextBefore(text, cursor)) + selected + text[Clamp(cursor, |text|)..]
  {
    var e := PlanReplacement(shortcuts, text, cursor, selected);
    var k := e.newCursor - |selected|;
    assert e.newText == e.newText[..k] + e.newText[k..e.newCursor] + e.newText[e.newCursor..];
  }

  /** Fallback branch with a non-empty trailing token: exactly that token
      is replaced by the expansion. */
  lemma FallbackReplacesLastToken(shortcuts: seq<Shortcut>, text: string, cursor: int, selected: string)
    requires var before := TextBefore(text, cursor);
      FirstSuffixKey(shortcuts, before) == |shortcuts| && LastToken(before) != []
    ensures var before := TextBefore(text, cursor);
      var l := |LastToken(before)|;
      var e := PlanReplacement(shortcuts, text, cursor, selected);
      && e.newText == before[..|before| - l] + selected + text[|before|..]
      && e.newCursor == |before| - l + |selected|
  {
    EditParts(shortcuts, text, cursor, selected);
  }

  /** Fallback branch when the text before the cursor ends in whitespace or
      is empty: `slice(0, -0)` is empty, so the whole text before the
      cursor is discarded rather than nothing being removed. */
  lemma FallbackWithoutTokenWipesPrefix(shortcuts: seq<Shortcut>, text: string, cursor: int, selected: string)
    requires var before := TextBefore(text, cursor);
      FirstSuffixKey(shortcuts, before) == |shortcuts| && LastToken(before) == []
    ensures var e := PlanReplacement(shortcuts, text, cursor, selected);
      && e.newText == selected + text[Clamp(cursor, |text|)..]
      && e.newCursor == |selected|
  {
    EditParts(shortcuts, text, cursor, selected);
  }

  /** An empty key is a suffix of every text, so once it is the first key
      found, the whole text before the cursor is discarded as well. */
  lemma EmptyKeyWipesPrefix(shortcuts: seq<Shortcut>, text: string, cursor: int, selected: string)
    requires exists j :: 0 <= j < |shortcuts| && shortcuts[j].key == []
    ensures FirstSuffixKey(shortcuts, TextBefore(text, cursor)) < |shortcuts|
    ensures var i := FirstSuffixKey(shortcuts, TextBefore(text, cursor));
      shortcuts[i].key == [] ==>
        PlanReplacement(shortcuts, text, cursor, selected).newText == selected + text[Clamp(cursor, |text|)..]
  {
    var before := TextBefore(text, cursor);
    var j :| 0 <= j < |shortcuts| && shortcuts[j].key == [];
    assert EndsWith(before, shortcuts[j].key);
    EditParts(shortcuts, text, cursor, selected);
  }

  /** Which span is replaced depends on the text and the shortcut list,
      never on the expansion chosen. */
  lemma SpanIndependentOfSelection(shortcuts: seq<Shortcut>, text: string, cursor: int, a: string, b: string)
    ensures var ea := PlanReplacement(shortcuts, text, cursor, a);
      var eb := PlanReplacement(shortcuts, text, cursor, b);
      ea.newText[..ea.newCursor - |a|] == eb.newText[..eb.newCursor - |b|]
  {
    EditParts(shortcuts, text, cursor, a);
    EditParts(shortcuts, text, cursor, b);
  }

  /** A text that ends with the only key, `;em`, has that key replaced by
      the expansion, with the cursor right after it. */
  lemma KeyAtEnd(prefix: string, expansion: string)
    ensures var text := prefix + ";em";
      PlanReplacement([Shortcut(";em", expansion)], text, |text|, expansion)
        == Edit(prefix + expansion, |prefix| + |expansion|)
  {
    var text := prefix + ";em";
    var shortcuts := [Shortcut(";em", expansion)];
    assert TextBefore(text, |text|) == text;
    assert text[|text| - 3..] == ";em";
    assert FirstSuffixKey(shortcuts, text) == 0;
    KeyBranchReplacesKey(shortcuts, text, |text|, expansion);
    assert text[..|text| - 3] == prefix;
    assert text[|text|..] == [];
  }

  /** Typing `;em` after "My email is " and applying its expansion leaves
      "My email is example@email.com" with the cursor at its end, 29. */
  lemma EmailKeyExample()
    ensures var prefix, expansion := "My email is ", "example@email.com";
      PlanReplacement([Shortcut(";em", expansion)], prefix + ";em", |prefix + ";em"|, expansion)
        == Edit(prefix + expansion, 29)
  {
    var prefix, expansion := "My email is ", "example@email.com";
    KeyAtEnd(prefix, expansion);
    assert |prefix| == 12 && |expansion| == 17;
  }

  // ---------------------------------------------------------------------------
  // The selected index

  /** The two arrow keys that move the selection. */
  datatype Direction = Up | Down

  /** The index `navigateSuggestions` selects among `count` suggestions:
      nothing moves without suggestions; otherwise the index moves by one
      and wraps around at both ends. */
  function NextIndex(index: int, count: nat, dir: Direction): (r: int)
    ensures count == 0 ==> r == index
    ensures count > 0 && -1 <= index < count ==> 0 <= r < count
    ensures count > 0 && dir == Down && index == count - 1 ==> r == 0
    ensures count > 0 && dir == Up && index <= 0 ==> r == count - 1
    ensures count > 0 && 0 < index < count ==> dir == Up ==> r == index - 1
    ensures count > 0 && -1 <= index < count - 1 ==> dir == Down ==> r == index + 1
  {
    if count == 0 then index
    else match dir
      case Up => if index <= 0 then count - 1 else index - 1
      case Down => if index >= count - 1 then 0 else index + 1
  }

  /** Up undoes Down and Down undoes Up, on every valid selection. */
  lemma NavigationInverse(index: int, count: nat)
    requires 0 <= index < count
    ensures NextIndex(NextIndex(index, count, Down), count, Up) == index
    ensures NextIndex(NextIndex(index, count, Up), count, Down) == index
  {
  }

  /** Moving down `k` times from `index`. */
  function DownTimes(index: int, count: nat, k: nat): int {
    if k == 0 then index else NextIndex(DownTimes(index, count, k - 1), count, Down)
  }

  /** Moving down `k` times, for `k` up to the number of suggestions,
      visits the index `k` places further on, wrapping past the end. */
  lemma {:induction false} DownTimesWraps(index: int, count: nat, k: nat)
    requires 0 <= index < count && k <= count
    ensures DownTimes(index, count, k) == if index + k < count then index + k else index + k - count
  {
    if k > 0 {
      DownTimesWraps(index, count, k - 1);
    }
  }

  /** Pressing Down as many times as there are suggestions comes back to
      the starting one. */
  lemma DownCycle(index: int, count: nat)
    requires 0 <= index < count
    ensures DownTimes(index, count, count) == index
  {
    DownTimesWraps(index, count, count);
  }

  /** The expansion texts of the matches, one suggestion per match, in order. */
  function SuggestionTexts(matches: seq<Shortcut>): (r: seq<string>)
    ensures |r| == |matches|
    ensures forall i :: 0 <= i < |matches| ==> r[i] == matches[i].text
  {
    if matches == [] then [] else [matches[0].text] + SuggestionTexts(matches[1..])
  }

  /** The keys the suggestion box reacts to while it is shown. */
  datatype Key = ArrowUp | ArrowDown | Tab | Escape | OtherKey

  /** The suggestion box with the input it serves: the suggestions shown
      (they stay in the box after it is hidden), whether it is displayed,
      the selected index (-1 for none), and the focused input's value and
      cursor. */
  class SuggestionBox {
    var options: seq<string>
    var visible: bool
    var selectedIndex: int
    var hasInput: bool
    var value: string
    var selectionStart: int

    /** The selected index is -1 or designates one of the suggestions. */
    predicate Valid()
      reads this
    {
      -1 <= selectedIndex < |options|
    }

    /** The state when the content script starts: an empty hidden box, no
        selection, no input. */
    constructor ()
      ensures Valid()
      ensures options == [] && !visible && selectedIndex == -1 && !hasInput
      ensures value == "" && selectionStart == 0
    {
      options := [];
      visible := false;
      selectedIndex := -1;
      hasInput := false;
      value := "";
      selectionStart := 0;
    }

    /** `currentInput = inputElement`: an input reports its value and cursor. */
    method Focus(text: string, cursor: int)
      requires Valid()
      modifies this
      ensures Valid()
      ensures hasInput && value == text && selectionStart == cursor
      ensures options == old(options) && visible == old(visible) && selectedIndex == old(selectedIndex)
    {
      hasInput := true;
      value := text;
      selectionStart := cursor;
    }

    /** The focused input changes without `handleInput` running, as when
        the caret moves by Home, End or the mouse: `applySuggestion` reads
        the element's live value and cursor, so they change here too. With
        no current input nothing is tracked. */
    method InputChanged(text: string, cursor: int)
      requires Valid()
      modifies this
      ensures Valid()
      ensures hasInput ==> value == text && selectionStart == cursor
      ensures !hasInput ==> value == old(value) && selectionStart == old(selectionStart)
      ensures options == old(options) && visible == old(visible) && selectedIndex == old(selectedIndex)
      ensures hasInput == old(hasInput)
    {
      if hasInput {
        value := text;
        selectionStart := cursor;
      }
    }

    /** `showSuggestions`: one suggestion per match, the first one selected. */
    method Show(matches: seq<Shortcut>)
      requires |matches| > 0
      modifies this
      ensures Valid()
      ensures options == SuggestionTexts(matches) && visible && selectedIndex == 0
      ensures hasInput == old(hasInput) && value == old(value) && selectionStart == old(selectionStart)
    {
      options := SuggestionTexts(matches);
      selectedIndex := 0;
      visible := true;
    }

    /** The end of `handleInput`: show the matches, or hide the box when
        there are none. */
    method Refresh(matches: seq<Shortcut>)
      modifies this
      ensures Valid()
      ensures |matches| > 0 ==> options == SuggestionTexts(matches) && visible && selectedIndex == 0
      ensures |matches| == 0 ==> options == old(options) && !visible && selectedIndex == -1
      ensures hasInput == old(hasInput) && value == old(value) && selectionStart == old(selectionStart)
    {
      if |matches| > 0 {
        Show(matches);
      } else {
        Hide();
      }
    }

    /** `hideSuggestions`: hide the box and drop the selection. */
    method Hide()
      modifies this
      ensures Valid()
      ensures !visible && selectedIndex == -1
      ensures options == old(options) && hasInput == old(hasInput)
      ensures value == old(value) && selectionStart == old(selectionStart)
    {
      visible := false;
      selectedIndex := -1;
    }

    /** `navigateSuggestions`: move the selection, wrapping around. */
    method Navigate(dir: Direction)
      requires Valid()
      modifies this
      ensures Valid()
      ensures selectedIndex == NextIndex(old(selectedIndex), |options|, dir)
      ensures |options| > 0 ==> 0 <= selectedIndex
      ensures options == old(options) && visible == old(visible) && hasInput == old(hasInput)
      ensures value == old(value) && selectionStart == old(selectionStart)
    {
      if |options| == 0 {
        return;
      }
      if dir == Up {
        selectedIndex := if selectedIndex <= 0 then |options| - 1 else selectedIndex - 1;
      } else {
        selectedIndex := if selectedIndex >= |options| - 1 then 0 else selectedIndex + 1;
      }
    }

    /** The mouse moving over the suggestion at `index` selects it. */
    method Hover(index: nat)
      requires Valid() && index < |options|
      modifies this
      ensures Valid()
      ensures selectedIndex == index
      ensures options == old(options) && visible == old(visible) && hasInput == old(hasInput)
      ensures value == old(value) && selectionStart == old(selectionStart)
    {
      selectedIndex := index;
    }

    /** `applySuggestion`: nothing happens without an input or a selection;
        otherwise the selected expansion replaces the span before the
        cursor, the cursor lands after it, and the box is hidden. */
    method Apply(shortcuts: seq<Shortcut>)
      requires Valid()
      modifies this
      ensures Valid()
      ensures options == old(options) && hasInput == old(hasInput)
      ensures !old(hasInput) || old(selectedIndex) == -1 ==>
        visible == old(visible) && selectedIndex == old(selectedIndex)
        && value == old(value) && selectionStart == old(selectionStart)
      ensures old(hasInput) && old(selectedIndex) != -1 ==>
        var e := PlanReplacement(shortcuts, old(value), old(selectionStart), old(options[selectedIndex]));
        value == e.newText && selectionStart == e.newCursor && !visible && selectedIndex == -1
    {
      if !hasInput || selectedIndex == -1 {
        return;
      }
      var e := PlanReplacement(shortcuts, value, selectionStart, options[selectedIndex]);
      value := e.newText;
      selectionStart := e.newCursor;
      Hide();
    }

    /** A click on the suggestion at `index` selects and applies it. */
    method Click(index: nat, shortcuts: seq<Shortcut>)
      requires Valid() && index < |options|
      modifies this
      ensures Valid()
      ensures options == old(options) && hasInput == old(hasInput)
      ensures !old(hasInput) ==>
        visible == old(visible) && value == old(value) && selectionStart == old(selectionStart)
        && selectedIndex == index
      ensures old(hasInput) ==>
        var e := PlanReplacement(shortcuts, old(value), old(selectionStart), old(options[index]));
        value == e.newText && selectionStart == e.newCursor && !visible && selectedIndex == -1
    {
      Hover(index);
      Apply(shortcuts);
    }

    /** The keydown handler: ignored while the box is hidden; the arrows
        navigate, Tab applies when there are suggestions, Escape hides. */
    method KeyDown(key: Key, shortcuts: seq<Shortcut>)
      requires Valid()
      modifies this
      ensures Valid()
      ensures options == old(options) && hasInput == old(hasInput)
      ensures !old(visible) || key == OtherKey ==>
        visible == old(visible) && selectedIndex == old(selectedIndex)
        && value == old(value) && selectionStart == old(selectionStart)
      ensures old(visible) && key in {ArrowUp, ArrowDown} ==>
        selectedIndex == NextIndex(old(selectedIndex), |options|, if key == ArrowUp then Up else Down)
        && visible && value == old(value) && selectionStart == old(selectionStart)
      ensures old(visible) && key == Escape ==>
        !visible && selectedIndex == -1 && value == old(value) && selectionStart == old(selectionStart)
      ensures old(visible) && key == Tab && (|options| == 0 || !old(hasInput) || old(selectedIndex) == -1) ==>
        visible && selectedIndex == old(selectedIndex)
        && value == old(value) && selectionStart == old(selectionStart)
      ensures old(visible) && key == Tab && |options| > 0 && old(hasInput) && old(selectedIndex) != -1 ==>
        var e := PlanReplacement(shortcuts, old(value), old(selectionStart), old(options[selectedIndex]));
        value == e.newText && selectionStart == e.newCursor && !visible && selectedIndex == -1
    {
      if !visible {
        return;
      }
      match key {
        case ArrowUp => Navigate(Up);
        case ArrowDown => Navigate(Down);
        case Tab =>
          if |options| > 0 {
            Apply(shortcuts);
          }
        case Escape => Hide();
        case OtherKey =>
      }
    }
  }

  /** The lifecycle of the selection: once shown, a suggestion is selected;
      applying it, or hiding the box, clears the selection, and applying
      with no selection changes nothing. */
  method SelectionLifecycle(matches: seq<Shortcut>, shortcuts: seq<Shortcut>, text: string, cursor: int)
    returns (applied: string, again: string)
    requires |matches| > 0
    ensures applied == PlanReplacement(shortcuts, text, cursor, matches[0].text).newText
    ensures again == applied
  {
    var box := new SuggestionBox();
    box.Focus(text, cursor);
    box.Show(matches);
    assert box.selectedIndex == 0 && box.options[0] == matches[0].text;
    box.Apply(shortcuts);
    assert box.selectedIndex == -1 && !box.visible;
    applied := box.value;
    box.Apply(shortcuts);
    again := box.value;
  }
}
