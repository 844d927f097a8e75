/** The editing state of the calculator: the input line, its cursor and selection, the
    result preview, the scroll position of the display, and the history panel. Every
    transition here is a function of the old state; the `Calculator` class applies them. */
module Editing {
  import opened Runtime
  import opened Evaluator

  const MaxCharsPerLine: nat := 22
  const LineHeight: nat := 40
  /** The height of `display_rect`. */
  const DisplayHeight: nat := 100
  const ItemPadding: nat := 10
  const AnimationSpeed: nat := 15
  /** The window width, which is also the panel's hidden offset. */
  const Width: nat := 400

  /** The lines of the display that fit in it: `display_rect.height // LINE_HEIGHT`. */
  function VisibleLines(): (n: nat)
    ensures n == 2
  {
    DisplayHeight / LineHeight
  }

  /** The lines joined back together. */
  function Concat(lines: seq<string>): string
  {
    if lines == [] then [] else lines[0] + Concat(lines[1..])
  }

  /** `wrap_text`: the text cut into pieces of `width` characters, the last possibly
      shorter; an empty text is one empty line. */
  function WrapText(text: string, width: nat): (lines: seq<string>)
    requires width > 0
    ensures |lines| > 0
    decreases |text|
  {
    if |text| <= width then [text]
    else [text[..width]] + WrapText(text[width..], width)
  }

  /** The lines join back into the text; all but the last are full, and the last is empty
      only for an empty text. */
  lemma {:induction false} WrapTextShape(text: string, width: nat)
    requires width > 0
    ensures var lines := WrapText(text, width);
      Concat(lines) == text
      && (forall i | 0 <= i < |lines| - 1 :: |lines[i]| == width)
      && (0 < |lines[|lines| - 1]| <= width || text == [])
    decreases |text|
  {
    if |text| > width {
      WrapTextShape(text[width..], width);
      var rest := WrapText(text[width..], width);
      var lines := WrapText(text, width);
      assert lines == [text[..width]] + rest;
      assert lines[1..] == rest;
      assert text[..width] + text[width..] == text;
      forall i | 0 <= i < |lines| - 1 ensures |lines[i]| == width {
        if i > 0 {
          assert lines[i] == rest[i - 1];
        }
      }
    }
  }

  /** The number of wrapped lines is the length divided by the width, rounded up, and at
      least one. */
  lemma {:induction false} WrapCount(text: string, width: nat)
    requires width > 0
    ensures var k := |WrapText(text, width)|;
      if text == [] then k == 1 else (k - 1) * width < |text| <= k * width
    decreases |text|
  {
    if |text| > width {
      WrapCount(text[width..], width);
      var k := |WrapText(text[width..], width)|;
      assert |WrapText(text, width)| == k + 1;
      assert (k + 1) * width == k * width + width;
      assert k * width == (k - 1) * width + width;
    }
  }

  /** `max(0, x)` */
  function Max0(x: int): (n: nat)
    ensures n >= x && (n == x || n == 0)
  {
    if x >= 0 then x else 0
  }

  /** `text[:k]` for a non-negative `k`: Python clamps the bound to the length. */
  function Take(s: string, k: nat): (t: string)
    ensures |t| == if k <= |s| then k else |s|
    ensures t == s[..|t|]
  {
    if k <= |s| then s[..k] else s
  }

  /** `text[k:]` for a non-negative `k`, clamped the same way. */
  function Drop(s: string, k: nat): (t: string)
    ensures Take(s, k) + t == s
  {
    if k <= |s| then s[k..] else []
  }

  /** `text[a:b]` for `a <= b`, clamped the same way. */
  function Slice(s: string, a: nat, b: nat): (t: string)
    requires a <= b
    ensures Take(s, a) + t + Drop(s, b) == s
  {
    var x := Take(s, a);
    var y := Take(s, b);
    assert y[..|x|] == x;
    y[|x|..]
  }

  /** `text[:a] + t + text[b:]`. */
  function Splice(s: string, a: nat, b: nat, t: string): string
  {
    Take(s, a) + t + Drop(s, b)
  }

  /** Everything the editing operations read or write. `selStart`/`selEnd` are
      `select_start`/`select_end`, `None` when unset. */
  datatype EditState = EditState(
    input: string,
    cursor: nat,
    selStart: Option<nat>,
    selEnd: Option<nat>,
    preview: string,
    scroll: nat)

  /** `get_selected_range`: the two ends in order, or nothing when either is unset. */
  function SelectedRange(st: EditState): (r: Option<(nat, nat)>)
    ensures r.Some? <==> st.selStart.Some? && st.selEnd.Some?
    ensures r.Some? ==>
      (r.value.0 <= r.value.1
       && ((r.value.0 == st.selStart.value && r.value.1 == st.selEnd.value)
           || (r.value.0 == st.selEnd.value && r.value.1 == st.selStart.value)))
  {
    if st.selStart.None? || st.selEnd.None? then None
    else
      var a, b := st.selStart.value, st.selEnd.value;
      Some(if a <= b then (a, b) else (b, a))
  }

  /** The text `t` written over the selection, or at the cursor when there is none; the
      cursor ends after the written text and the selection is cleared. An empty selection
      is still a selection: the text goes where it starts, not at the cursor. */
  function InsertText(st: EditState, t: string): EditState
  {
    match SelectedRange(st)
    case Some((a, b)) =>
      st.(input := Splice(st.input, a, b, t), cursor := a + |t|, selStart := None, selEnd := None)
    case None =>
      st.(input := Splice(st.input, st.cursor, st.cursor, t), cursor := st.cursor + |t|,
          selStart := None, selEnd := None)
  }

  /** The `CE` button, and backspace without a selection: the character before the cursor
      goes and the cursor steps back over it. */
  function DeleteBefore(st: EditState): EditState
  {
    if st.cursor > 0 then
      st.(input := Take(st.input, st.cursor - 1) + Drop(st.input, st.cursor), cursor := st.cursor - 1)
    else st
  }

  /** Typing a text where the cursor is, with nothing selected, and deleting the character
      before the cursor restores the input, when the text is one character: backspace undoes
      a keystroke. */
  lemma InsertThenDelete(st: EditState, c: char)
    requires SelectedRange(st).None? && st.cursor <= |st.input|
    ensures var after := DeleteBefore(InsertText(st, [c]));
      after.input == st.input && after.cursor == st.cursor
  {
    var s := st.input;
    var k := st.cursor;
    var inserted := InsertText(st, [c]).input;
    assert inserted == s[..k] + [c] + s[k..];
    assert Take(inserted, k) == s[..k];
    assert Drop(inserted, k + 1) == s[k..];
    assert s[..k] + s[k..] == s;
  }

  /** Inserting a text keeps everything before and after the replaced range: the input is
      the part before, the text, and the part after. */
  lemma InsertKeepsRest(st: EditState, t: string)
    requires SelectedRange(st).None? && st.cursor <= |st.input|
    ensures var after := InsertText(st, t);
      after.input[..st.cursor] == st.input[..st.cursor]
      && after.input[st.cursor..st.cursor + |t|] == t
      && after.input[st.cursor + |t|..] == st.input[st.cursor..]
      && after.cursor == st.cursor + |t|
  {
    var k := st.cursor;
    var after := InsertText(st, t).input;
    assert after == st.input[..k] + t + st.input[k..];
  }

  /** The `√` button: the selection wrapped in `√(...)` with the cursor after the `)`, or
      `√()` at the cursor with the cursor between the parentheses. */
  function RootButton(st: EditState): EditState
  {
    match SelectedRange(st)
    case Some((a, b)) =>
      st.(input := Take(st.input, a) + "√(" + Slice(st.input, a, b) + ")" + Drop(st.input, b),
          cursor := a + 2 + (b - a) + 1, selStart := None, selEnd := None)
    case None =>
      st.(input := Splice(st.input, st.cursor, st.cursor, "√()"), cursor := st.cursor + 2,
          selStart := None, selEnd := None)
  }

  /** Wrapping a selection inside the input keeps the selected text and moves the cursor
      just after the closing parenthesis. */
  lemma RootWrapsSelection(st: EditState)
    requires SelectedRange(st).Some?
    requires SelectedRange(st).value.1 <= |st.input|
    ensures var (a, b) := SelectedRange(st).value;
      var after := RootButton(st);
      after.input == st.input[..a] + "√(" + st.input[a..b] + ")" + st.input[b..]
      && after.input[after.cursor - 1] == ')'
      && after.input[a + 2..after.cursor - 1] == st.input[a..b]
  {
    var (a, b) := SelectedRange(st).value;
    var after := RootButton(st);
    assert Take(st.input, a) == st.input[..a];
    assert Slice(st.input, a, b) == st.input[a..b];
    assert Drop(st.input, b) == st.input[b..];
    assert after.cursor == a + 2 + (b - a) + 1;
    WrappedParts(st.input[..a], st.input[a..b], st.input[b..]);
  }

  /** Where the parts of `p + "√(" + g + ")" + q` sit. */
  lemma WrappedParts(p: string, g: string, q: string)
    ensures var w := p + "√(" + g + ")" + q;
      w[|p| + 2 + |g|] == ')' && w[|p| + 2..|p| + 2 + |g|] == g
  {
    var w := p + "√(" + g + ")" + q;
    assert w == (p + "√(") + g + (")" + q);
  }

  /** The `=` button and the return key without their history update: the reply text
      becomes the preview and the cursor goes to the end; a reply that never comes leaves
      the state as it was. */
  function Submit(st: EditState, reply: Reply): EditState
  {
    if reply.Hangs? then st else st.(preview := reply.text, cursor := |st.input|)
  }

  /** `handle_button_click(label)`, given the reply `evaluate_expression` gives the input. */
  function ButtonClick(st: EditState, caption: string, reply: Reply): EditState
  {
    if caption == "AC" then st.(input := "", preview := "", cursor := 0)
    else if caption == "CE" then DeleteBefore(st)
    else if caption == "=" then (if st.input != "" then Submit(st, reply) else st)
    else if caption == "√" then RootButton(st)
    else InsertText(st, caption)
  }

  /** A digit or operator button inserts its label: without a selection at the cursor,
      with one over it; either way the selection is gone and the cursor follows the caption. */
  lemma LabelInserts(st: EditState, caption: string, reply: Reply)
    requires caption !in {"AC", "CE", "=", "√"}
    ensures var after := ButtonClick(st, caption, reply);
      after.selStart.None? && after.selEnd.None?
      && (SelectedRange(st).None? ==>
            after.input == Take(st.input, st.cursor) + caption + Drop(st.input, st.cursor)
            && after.cursor == st.cursor + |caption|)
      && (SelectedRange(st).Some? ==>
            var (a, b) := SelectedRange(st).value;
            after.input == Take(st.input, a) + caption + Drop(st.input, b)
            && after.cursor == a + |caption|)
  {
  }

  /** `AC` empties the input and the preview but keeps a selection: a later label then
      replaces a range of the empty input and leaves the cursor past its end. */
  lemma ClearKeepsSelection(st: EditState, reply: Reply)
    requires st.selStart == Some(1) && st.selEnd == Some(3)
    ensures var cleared := ButtonClick(st, "AC", reply);
      var typed := ButtonClick(cleared, "7", reply);
      cleared.input == "" && cleared.selStart == Some(1)
      && typed.input == "7" && typed.cursor == 2 > |typed.input|
  {
    var cleared := ButtonClick(st, "AC", reply);
    assert Take(cleared.input, 1) == "" && Drop(cleared.input, 3) == "";
  }

  /** Python's `str.isprintable` for one character: not a control, format or private-use
      character, not a line or paragraph separator, and not a space other than the ordinary
      one. */
  predicate IsPrintableChar(c: char)
  {
    var k := c as int;
    !(k < 0x20 || 0x7f <= k <= 0xa0 || k == 0xad
      || 0x600 <= k <= 0x605 || k == 0x61c || k == 0x6dd || k == 0x70f || 0x890 <= k <= 0x891
      || k == 0x8e2 || k == 0x1680 || k == 0x180e || 0x2000 <= k <= 0x200f
      || 0x2028 <= k <= 0x202f || 0x205f <= k <= 0x206f || k == 0x3000 || 0xe000 <= k <= 0xf8ff
      || k == 0xfeff || 0xfff9 <= k <= 0xfffb || k == 0x110bd || k == 0x110cd
      || 0x13430 <= k <= 0x1343f || 0x1bca0 <= k <= 0x1bca3 || 0x1d173 <= k <= 0x1d17a
      || k == 0xe0001 || 0xe0020 <= k <= 0xe007f || 0xf0000 <= k)
  }

  /** `str.isprintable`: true of the empty string. */
  predicate IsPrintable(s: string)
  {
    forall i | 0 <= i < |s| :: IsPrintableChar(s[i])
  }

  /** The keys `handle_input_event` tells apart. */
  datatype Key = Backspace | Return | LeftArrow | RightArrow | LetterB | LetterC | LetterV | OtherKey

  /** A key press: the key, the text it types (`event.unicode`), the modifiers held, and the
      clipboard text a paste would read. */
  datatype KeyEvent = KeyEvent(
    key: Key, unicode: string, ctrl: bool, shift: bool, meta: bool, clipboard: string)

  /** The display lines `handle_input_event` computes before it acts: the input, then the
      preview after `= `. */
  function DisplayLines(st: EditState): (lines: seq<string>)
    ensures |lines| >= 1
  {
    WrapText(st.input, MaxCharsPerLine)
    + (if st.preview != "" then WrapText("= " + st.preview, MaxCharsPerLine) else [])
  }

  /** A typed text: over a non-empty selection, or else at the cursor (an empty selection
      is ignored here, unlike for buttons); the cursor moves one place past where the text
      starts whatever its length, and the selection is cleared. */
  function TypeText(st: EditState, u: string): EditState
  {
    var range := SelectedRange(st);
    if range.Some? && range.value.0 != range.value.1 then
      st.(input := Splice(st.input, range.value.0, range.value.1, u), cursor := range.value.0 + 1,
          selStart := None, selEnd := None)
    else
      st.(input := Splice(st.input, st.cursor, st.cursor, u), cursor := st.cursor + 1,
          selStart := None, selEnd := None)
  }

  /** Backspace: a non-empty selection is deleted and the cursor goes to where it started;
      otherwise the character before the cursor goes, and the selection, if any, stays. */
  function BackspaceKey(st: EditState): EditState
  {
    match SelectedRange(st)
    case Some((a, b)) =>
      if a != b then st.(input := Splice(st.input, a, b, ""), cursor := a, selStart := None, selEnd := None)
      else DeleteBefore(st)
    case None => DeleteBefore(st)
  }

  /** The return key: `Submit`, and the selection cleared and the display scrolled to its
      last line. */
  function ReturnKey(st: EditState, reply: Reply): EditState
  {
    if st.input == "" || reply.Hangs? then st
    else
      Submit(st, reply).(selStart := None, selEnd := None,
                         scroll := Max0(|DisplayLines(st)| - VisibleLines() + 1))
  }

  /** Backspace over a non-empty selection removes exactly the selected text, puts the
      cursor where the selection started and clears it; over an empty one it deletes the
      character before the cursor like no selection at all, and the selection stays. */
  lemma BackspaceSelection(st: EditState)
    requires SelectedRange(st).Some?
    ensures var (a, b) := SelectedRange(st).value;
      var after := BackspaceKey(st);
      (a != b ==>
         after.input == Take(st.input, a) + Drop(st.input, b)
         && after.cursor == a && SelectedRange(after).None?
         && after.preview == st.preview && after.scroll == st.scroll)
      && (a == b ==> after == DeleteBefore(st) && after.selStart == st.selStart && after.selEnd == st.selEnd)
  {
    var (a, b) := SelectedRange(st).value;
    assert Take(st.input, a) + "" + Drop(st.input, b) == Take(st.input, a) + Drop(st.input, b);
  }

  /** Typing a character with nothing selected and pressing backspace gives back the input
      and the cursor: the key undoes the keystroke. */
  lemma TypeThenBackspace(st: EditState, c: char)
    requires SelectedRange(st).None? && st.cursor <= |st.input|
    ensures var after := BackspaceKey(TypeText(st, [c]));
      after.input == st.input && after.cursor == st.cursor && SelectedRange(after).None?
  {
    assert TypeText(st, [c]) == InsertText(st, [c]);
    InsertThenDelete(st, c);
  }

  /** After return, the view starts at the last of the display lines computed before the
      key, so that line is visible; the cursor is at the end of the input, the reply is the
      preview and nothing is selected. */
  lemma ReturnScrollsToEnd(st: EditState, reply: Reply)
    requires st.input != "" && !reply.Hangs?
    ensures var after := ReturnKey(st, reply);
      var last := |DisplayLines(st)| - 1;
      after.scroll <= last < after.scroll + VisibleLines()
      && after.scroll == last
      && after.input == st.input && after.cursor == |st.input| && after.preview == reply.text
      && SelectedRange(after).None?
  {
  }

  /** Shift-arrow: the selection is anchored where it started (or at the cursor) and ends at
      the moved cursor; a plain arrow moves the cursor and drops the selection. */
  function MoveCursor(st: EditState, to: nat, extend: bool): EditState
  {
    if extend then
      st.(selStart := if st.selStart.None? then Some(st.cursor) else st.selStart,
          cursor := to, selEnd := Some(to))
    else st.(cursor := to, selStart := None, selEnd := None)
  }

  /** The `elif` chain of the key-down branch of `handle_input_event`, after the panel key,
      given the reply `evaluate_expression` would give the input. */
  function KeyEdit(st: EditState, ev: KeyEvent, reply: Reply): EditState
  {
    if ev.key == LetterC && ev.ctrl then st
    else if ev.key == LetterV && ev.ctrl then InsertText(st, ev.clipboard)
    else if ev.key == Backspace then BackspaceKey(st)
    else if ev.key == Return || ev.unicode == "=" then ReturnKey(st, reply)
    else if IsPrintable(ev.unicode) then
      if ev.ctrl || ev.meta then st
      else TypeText(st, ev.unicode)
    else if ev.key == LeftArrow then MoveCursor(st, if st.cursor > 0 then st.cursor - 1 else 0, ev.shift)
    else if ev.key == RightArrow then
      MoveCursor(st, if st.cursor + 1 <= |st.input| then st.cursor + 1 else |st.input|, ev.shift)
    else st
  }

  /** The key-down events that reach the return branch of `handle_input_event`: the return
      key or a typed `=`, when no earlier branch (copy, paste, backspace) takes the event. */
  predicate Submits(ev: KeyEvent)
  {
    ev.key != LeftArrow && ev.key != RightArrow
    && !(ev.key == LetterC && ev.ctrl) && !(ev.key == LetterV && ev.ctrl) && ev.key != Backspace
    && (ev.key == Return || ev.unicode == "=")
  }

  /** `update_scroll_to_cursor`: scroll up to the cursor's line when it is above the view,
      down just far enough when it is below. */
  function ScrollToCursor(st: EditState): (r: EditState)
    ensures r == st.(scroll := r.scroll)
    ensures r.scroll <= st.cursor / MaxCharsPerLine < r.scroll + VisibleLines()
    ensures st.scroll <= st.cursor / MaxCharsPerLine < st.scroll + VisibleLines() ==> r == st
  {
    var line := st.cursor / MaxCharsPerLine;
    if line < st.scroll then st.(scroll := line)
    else if line >= st.scroll + VisibleLines() then
      st.(scroll := Max0(line - VisibleLines() + 1))
    else st
  }

  /** Scrolling to the cursor twice is scrolling once. */
  lemma ScrollIdempotent(st: EditState)
    ensures ScrollToCursor(ScrollToCursor(st)) == ScrollToCursor(st)
  {
    var r := ScrollToCursor(st);
    assert r.cursor == st.cursor;
  }

  /** A key-down event that does not close the history panel: the edit, with the arrow keys
      reachable, then the scroll. */
  function KeyDown(st: EditState, ev: KeyEvent, reply: Reply): EditState
  {
    ScrollToCursor(KeyEditIntended(st, ev, reply))
  }

  /** As written, a key-down whose event types no text (pygame gives the arrow keys, shift
      and the other keys without a character an empty `unicode`) and that no earlier branch
      takes reaches the printable branch, since the empty string is printable. Without
      control or meta held, it deletes a non-empty selection, inserts nothing, moves the
      cursor one place right of where the text would go and clears the selection. */
  lemma EmptyKeyAsWritten(st: EditState, ev: KeyEvent, reply: Reply)
    requires ev.unicode == "" && ev.key != Backspace && ev.key != Return
    requires !(ev.key == LetterC && ev.ctrl) && !(ev.key == LetterV && ev.ctrl)
    requires st.cursor <= |st.input|
    ensures var after := KeyEdit(st, ev, reply);
      var range := SelectedRange(st);
      ((ev.ctrl || ev.meta) ==> after == st)
      && (!(ev.ctrl || ev.meta) ==>
            SelectedRange(after).None?
            && (range.Some? && range.value.0 != range.value.1 ==>
                  after.input == Take(st.input, range.value.0) + Drop(st.input, range.value.1)
                  && after.cursor == range.value.0 + 1)
            && (range.None? || range.value.0 == range.value.1 ==>
                  after.input == st.input && after.cursor == st.cursor + 1))
  {
    assert Splice(st.input, st.cursor, st.cursor, "") == st.input;
    var range := SelectedRange(st);
    if range.Some? {
      var (a, b) := range.value;
      assert Take(st.input, a) + "" + Drop(st.input, b) == Take(st.input, a) + Drop(st.input, b);
    }
  }

  /** The arrow keys as written: with nothing selected the text stays and the cursor moves
      one place right, whichever arrow it was; over a non-empty selection the arrow deletes
      the selected text. */
  lemma ArrowKeyAsWritten(st: EditState, left: bool, reply: Reply)
    requires st.cursor <= |st.input|
    ensures var ev := KeyEvent(if left then LeftArrow else RightArrow, "", false, false, false, "");
      var after := KeyEdit(st, ev, reply);
      var range := SelectedRange(st);
      (range.None? || range.value.0 == range.value.1 ==> after.input == st.input && after.cursor == st.cursor + 1)
      && (range.Some? && range.value.0 != range.value.1 ==>
            after.input == Take(st.input, range.value.0) + Drop(st.input, range.value.1)
            && after.cursor == range.value.0 + 1)
  {
    EmptyKeyAsWritten(st, KeyEvent(if left then LeftArrow else RightArrow, "", false, false, false, ""), reply);
  }

  /** The key handling with both corrections: the arrow branches ahead of the printable one,
      and the printable branch taken only by an event that types some text. */
  function KeyEditIntended(st: EditState, ev: KeyEvent, reply: Reply): EditState
  {
    if ev.key == LeftArrow then MoveCursor(st, if st.cursor > 0 then st.cursor - 1 else 0, ev.shift)
    else if ev.key == RightArrow then
      MoveCursor(st, if st.cursor + 1 <= |st.input| then st.cursor + 1 else |st.input|, ev.shift)
    else if ev.key == LetterC && ev.ctrl then st
    else if ev.key == LetterV && ev.ctrl then InsertText(st, ev.clipboard)
    else if ev.key == Backspace then BackspaceKey(st)
    else if ev.key == Return || ev.unicode == "=" then ReturnKey(st, reply)
    else if ev.unicode != "" && IsPrintable(ev.unicode) then
      if ev.ctrl || ev.meta then st
      else TypeText(st, ev.unicode)
    else st
  }

  /** With the correction, a key-down that types no text and that no branch handles (shift,
      the keys without a character) changes nothing, so a selection survives the shift press
      that starts a shift-arrow. A key that types text does what it did as written. */
  lemma EmptyKeyIntended(st: EditState, ev: KeyEvent, reply: Reply)
    requires ev.key != LeftArrow && ev.key != RightArrow
    ensures (ev.unicode == "" && ev.key != Backspace && ev.key != Return && !(ev.key == LetterV && ev.ctrl))
      ==> KeyEditIntended(st, ev, reply) == st
    ensures ev.unicode != "" ==> KeyEditIntended(st, ev, reply) == KeyEdit(st, ev, reply)
  {
  }

  /** A shift press followed by shift-right, with the correction: the selection runs from the
      cursor to one place right of it, and the text is kept. */
  lemma ShiftThenArrow(st: EditState, reply: Reply)
    requires st.cursor < |st.input| && SelectedRange(st).None? && st.selStart.None?
    ensures var shift := KeyEvent(OtherKey, "", false, true, false, "");
      var right := KeyEvent(RightArrow, "", false, true, false, "");
      var after := KeyEditIntended(KeyEditIntended(st, shift, reply), right, reply);
      after.input == st.input && SelectedRange(after) == Some((st.cursor, st.cursor + 1))
  {
  }

  /** With the arrow branches first, left moves the cursor one place left and right one
      place right, within the input, keeping the text; shift extends the selection from
      where it was anchored to the new cursor. */
  lemma ArrowKeysIntended(st: EditState, ev: KeyEvent, reply: Reply)
    requires ev.key == LeftArrow || ev.key == RightArrow
    requires st.cursor <= |st.input|
    ensures var after := KeyEditIntended(st, ev, reply);
      after.input == st.input && after.cursor <= |after.input|
      && (ev.key == LeftArrow ==> after.cursor == if st.cursor == 0 then 0 else st.cursor - 1)
      && (ev.key == RightArrow ==> after.cursor == if st.cursor == |st.input| then st.cursor else st.cursor + 1)
      && (ev.shift ==>
            (after.selEnd == Some(after.cursor)
             && after.selStart == (if st.selStart.None? then Some(st.cursor) else st.selStart)))
      && (!ev.shift ==> SelectedRange(after).None?)
  {
  }

  /** The sliding history panel: `history_view_offset` (0 when shown, `Width` when hidden),
      `showing_history` and `history_animation` (1 opening, -1 closing, 0 still). */
  datatype Panel = Panel(viewOffset: int, showing: bool, animation: int)

  /** The panel stays on screen or just off it, moves in one of its two directions or not
      at all, and once it has stopped it is either fully shown or fully hidden. */
  predicate PanelValid(p: Panel)
  {
    0 <= p.viewOffset <= Width && -1 <= p.animation <= 1
    && (p.animation == 0 ==> (p.viewOffset == 0 && p.showing) || (p.viewOffset == Width && !p.showing))
  }

  /** `update_history_animation`, once per frame. */
  function Animate(p: Panel): (r: Panel)
    ensures PanelValid(p) ==> PanelValid(r)
    ensures r.animation == 0 ==> r.showing == (r.viewOffset == 0) || r == p
  {
    if p.animation == 1 then
      var off := if p.viewOffset - AnimationSpeed >= 0 then p.viewOffset - AnimationSpeed else 0;
      if off == 0 then Panel(off, true, 0) else p.(viewOffset := off)
    else if p.animation == -1 then
      var off := if p.viewOffset + AnimationSpeed <= Width then p.viewOffset + AnimationSpeed else Width;
      if off == Width then Panel(off, false, 0) else p.(viewOffset := off)
    else p
  }

  /** `n` frames of animation. */
  function AnimateFrames(p: Panel, n: nat): Panel
    decreases n
  {
    if n == 0 then p else AnimateFrames(Animate(p), n - 1)
  }

  /** After `show_history`, the panel is fully shown and still within `offset / 15` frames,
      rounded up. */
  lemma {:induction false} ShowArrives(p: Panel, n: nat)
    requires p.animation == 1 && 0 <= p.viewOffset && n * AnimationSpeed >= p.viewOffset
    ensures AnimateFrames(p, n) == Panel(0, true, 0) || (n == 0 && p.viewOffset == 0)
    decreases n
  {
    if n > 0 {
      var q := Animate(p);
      if q.animation == 1 {
        ShowArrives(q, n - 1);
      } else {
        FramesStill(q, n - 1);
      }
    }
  }

  /** After `hide_history`, the panel is fully hidden and still within
      `(Width - offset) / 15` frames, rounded up. */
  lemma {:induction false} HideArrives(p: Panel, n: nat)
    requires p.animation == -1 && p.viewOffset <= Width && n * AnimationSpeed >= Width - p.viewOffset
    ensures AnimateFrames(p, n) == Panel(Width, false, 0) || (n == 0 && p.viewOffset == Width)
    decreases n
  {
    if n > 0 {
      var q := Animate(p);
      if q.animation == -1 {
        HideArrives(q, n - 1);
      } else {
        FramesStill(q, n - 1);
      }
    }
  }

  /** A panel that is not moving stays as it is. */
  lemma {:induction false} FramesStill(p: Panel, n: nat)
    requires p.animation == 0
    ensures AnimateFrames(p, n) == p
    decreases n
  {
    if n > 0 {
      FramesStill(p, n - 1);
    }
  }

  /** The vertical space one history entry takes: its wrapped lines, its padding and a
      5-pixel gap. */
  function ItemHeight(item: HistoryItem): (h: nat)
    ensures h >= 2 * LineHeight + 2 * ItemPadding + 5
  {
    (|WrapText(item.expression, MaxCharsPerLine)| + |WrapText("= " + item.result, MaxCharsPerLine)|)
      * LineHeight + ItemPadding * 2 + 5
  }

  /** The top of entry `index`: the heights of the entries above it. */
  function ItemTop(history: seq<HistoryItem>, index: nat): (y: nat)
    requires index <= |history|
    ensures y >= (2 * LineHeight + 2 * ItemPadding + 5) * index
  {
    if index == 0 then 0 else ItemTop(history, index - 1) + ItemHeight(history[index - 1])
  }

  /** Entries are stacked without overlap: each starts at least 105 pixels below the one
      before it, so the tops strictly increase with the index. */
  lemma {:induction false} ItemTopIncreasing(history: seq<HistoryItem>, i: nat, j: nat)
    requires i < j <= |history|
    ensures ItemTop(history, j) >= ItemTop(history, i) + (j - i) * 105
    decreases j
  {
    if j > i + 1 {
      ItemTopIncreasing(history, i, j - 1);
    }
  }
}
