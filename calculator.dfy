/** The `Calculator` object: its editing fields, its history list and its history panel,
    updated in place by the evaluator, the buttons, the keyboard and the animation. Each
    method is proved against the state transition of the `Editing` module it performs. */
module CalculatorApp {
  import opened Runtime
  import opened Text
  import opened SimpleEval
  import opened Formatting
  import opened Evaluator
  import opened Editing

  class Calculator {
    /** `math.sqrt`, `str(float)`, `**` and the two number formats. */
    const lib: MathLib
    /** The passes each loop of the evaluator may take before it is taken to hang. */
    const fuel: nat

    var currentInput: string
    var cursorPos: nat
    var selectStart: Option<nat>
    var selectEnd: Option<nat>
    var resultPreview: string
    var scrollOffset: nat
    var historyList: seq<HistoryItem>
    var historyViewOffset: int
    var showingHistory: bool
    var historyAnimation: int

    /** The editing fields as one value. */
    function Edit(): EditState
      reads this
    {
      EditState(currentInput, cursorPos, selectStart, selectEnd, resultPreview, scrollOffset)
    }

    /** The panel fields as one value. */
    function PanelState(): Panel
      reads this
    {
      Panel(historyViewOffset, showingHistory, historyAnimation)
    }

    /** The panel is in a consistent position, and every history entry holds an expression
        with the result `evaluate_expression` gives it. */
    ghost predicate Valid()
      reads this
    {
      PanelValid(PanelState()) && Recorded(lib, fuel, historyList)
    }

    /** `__init__`: an empty input, no history, the panel hidden. */
    constructor(lib: MathLib, fuel: nat)
      ensures this.lib == lib && this.fuel == fuel
      ensures Edit() == EditState("", 0, None, None, "", 0)
      ensures PanelState() == Panel(Width, false, 0) && historyList == []
      ensures Valid()
    {
      this.lib := lib;
      this.fuel := fuel;
      currentInput := "";
      cursorPos := 0;
      selectStart := None;
      selectEnd := None;
      resultPreview := "";
      scrollOffset := 0;
      historyList := [];
      historyViewOffset := Width;
      showingHistory := false;
      historyAnimation := 0;
    }

    /** `evaluate_expression(expr)`: the reply, and on success the expression and its
        result put at the front of the history. */
    method EvaluateExpression(expr: string) returns (reply: Reply)
      requires Valid()
      modifies this
      ensures Valid()
      ensures reply == Evaluate(lib, expr, fuel)
      ensures reply.Formatted? ==> historyList == [HistoryItem(expr, reply.text)] + old(historyList)
      ensures !reply.Formatted? ==> historyList == old(historyList)
      ensures Edit() == old(Edit()) && PanelState() == old(PanelState())
    {
      var invalid := Validate(expr);
      if invalid.Some? {
        return Message(invalid.value);
      }
      var rooted := RunLoop(RootPassOf(lib), '√', expr, fuel);
      if rooted.Raised? {
        return Message(FaultMessage(rooted.fault));
      } else if rooted.Diverged? {
        return Hangs;
      }
      var unwrapped := RunLoop(ParenPassOf(lib), '(', rooted.value, fuel);
      if unwrapped.Raised? {
        return Message(FaultMessage(unwrapped.fault));
      } else if unwrapped.Diverged? {
        return Hangs;
      }
      var result := EvaluateSimple(lib, unwrapped.value, fuel);
      if result.Raised? {
        return Message(FaultMessage(result.fault));
      } else if result.Diverged? {
        return Hangs;
      } else if result.value.None? {
        return Message(FaultMessage(TypeError));
      }
      var formatted := Format(lib, result.value.value);
      historyList := [HistoryItem(expr, formatted)] + historyList;
      return Formatted(formatted);
    }

    /** `handle_button_click(label)`. */
    method HandleButtonClick(caption: string)
      requires Valid()
      modifies this
      ensures Valid()
      ensures var reply := Evaluate(lib, old(currentInput), fuel);
        Edit() == ButtonClick(old(Edit()), caption, reply)
        && (if caption == "=" && old(currentInput) != "" && reply.Formatted?
            then historyList == [HistoryItem(old(currentInput), reply.text)] + old(historyList)
            else historyList == old(historyList))
      ensures PanelState() == old(PanelState())
    {
      if caption == "=" {
        PressEquals();
      } else {
        PressButton(caption);
      }
    }

    /** Every button but `=`: these never evaluate, so the reply does not matter. */
    method PressButton(caption: string)
      requires caption != "="
      modifies this
      ensures forall reply :: Edit() == ButtonClick(old(Edit()), caption, reply)
      ensures historyList == old(historyList) && PanelState() == old(PanelState())
    {
      if caption == "AC" {
        currentInput := "";
        resultPreview := "";
        cursorPos := 0;
      } else if caption == "CE" {
        if cursorPos > 0 {
          currentInput := Take(currentInput, cursorPos - 1) + Drop(currentInput, cursorPos);
          cursorPos := cursorPos - 1;
        }
      } else if caption == "√" {
        PressRoot();
      } else {
        Paste(caption);
      }
    }

    /** The `=` button: evaluate a non-empty input and show the reply. */
    method PressEquals()
      requires Valid()
      modifies this
      ensures Valid()
      ensures var reply := Evaluate(lib, old(currentInput), fuel);
        Edit() == (if old(currentInput) != "" then Submit(old(Edit()), reply) else old(Edit()))
        && (if old(currentInput) != "" && reply.Formatted?
            then historyList == [HistoryItem(old(currentInput), reply.text)] + old(historyList)
            else historyList == old(historyList))
      ensures PanelState() == old(PanelState())
    {
      if currentInput != "" {
        var reply := EvaluateExpression(currentInput);
        ShowReply(reply);
      }
    }

    /** The reply of the `=` button: shown in the preview with the cursor at the end of the
        input, unless the evaluation never returns. */
    method ShowReply(reply: Reply)
      modifies this
      ensures Edit() == Submit(old(Edit()), reply)
      ensures historyList == old(historyList) && PanelState() == old(PanelState())
    {
      if !reply.Hangs? {
        resultPreview := reply.text;
        cursorPos := |currentInput|;
      }
    }

    /** The `√` button: wrap the selection in `√(...)`, or put `√()` at the cursor. */
    method PressRoot()
      modifies this
      ensures Edit() == RootButton(old(Edit()))
      ensures historyList == old(historyList) && PanelState() == old(PanelState())
    {
      var range := SelectedRange(Edit());
      if range.Some? {
        var (a, b) := range.value;
        currentInput := Take(currentInput, a) + "√(" + Slice(currentInput, a, b) + ")" + Drop(currentInput, b);
        cursorPos := a + 2 + (b - a) + 1;
      } else {
        currentInput := Take(currentInput, cursorPos) + "√()" + Drop(currentInput, cursorPos);
        cursorPos := cursorPos + 2;
      }
      selectStart, selectEnd := None, None;
    }

    /** `update_scroll_to_cursor`. */
    method UpdateScrollToCursor()
      modifies this
      ensures Edit() == ScrollToCursor(old(Edit()))
      ensures historyList == old(historyList) && PanelState() == old(PanelState())
    {
      var line := cursorPos / MaxCharsPerLine;
      var visible := DisplayHeight / LineHeight;
      if line < scrollOffset {
        scrollOffset := line;
      } else if line >= scrollOffset + visible {
        scrollOffset := Max0(line - visible + 1);
      }
    }

    /** The key-down branch of `handle_input_event`: the `b` key closes an open or moving
        history panel and does nothing else; any other key goes through the `elif` chain
        (the return branch, which evaluates, or one of the others) and then scrolls the
        display to the cursor. */
    method HandleKeyDown(ev: KeyEvent)
      requires Valid()
      modifies this
      ensures Valid()
      ensures var closes := (old(showingHistory) || old(historyAnimation) != 0) && ev.key == LetterB;
        var reply := Evaluate(lib, old(currentInput), fuel);
        (closes ==> Edit() == old(Edit()) && PanelState() == old(PanelState()).(animation := -1))
        && (!closes ==> Edit() == KeyDown(old(Edit()), ev, reply) && PanelState() == old(PanelState()))
        && (if !closes && Submits(ev) && old(currentInput) != "" && reply.Formatted?
            then historyList == [HistoryItem(old(currentInput), reply.text)] + old(historyList)
            else historyList == old(historyList))
    {
      if (showingHistory || historyAnimation != 0) && ev.key == LetterB {
        HideHistory();
        return;
      }
      if Submits(ev) {
        PressReturn();
      } else {
        ApplyKey(ev);
      }
      UpdateScrollToCursor();
    }

    /** The branches of the `elif` chain other than the return branch, with the arrow keys
        tested first and the printable branch taken only by an event that types text; none
        of them evaluates, so the reply does not matter. */
    method ApplyKey(ev: KeyEvent)
      requires !Submits(ev)
      modifies this
      ensures forall reply :: Edit() == KeyEditIntended(old(Edit()), ev, reply)
      ensures historyList == old(historyList) && PanelState() == old(PanelState())
    {
      if ev.key == LeftArrow {
        MoveTo(if cursorPos > 0 then cursorPos - 1 else 0, ev.shift);
      } else if ev.key == RightArrow {
        MoveTo(if cursorPos + 1 <= |currentInput| then cursorPos + 1 else |currentInput|, ev.shift);
      } else if ev.key == LetterC && ev.ctrl {
        // Copying reads the selection and changes nothing here.
      } else if ev.key == LetterV && ev.ctrl {
        Paste(ev.clipboard);
      } else if ev.key == Backspace {
        PressBackspace();
      } else if ev.unicode != "" && IsPrintable(ev.unicode) {
        if !(ev.ctrl || ev.meta) {
          Type(ev.unicode);
        }
      }
    }

    /** A text over the selection, or at the cursor: a button's label, or the clipboard
        text on control-V. */
    method Paste(pasted: string)
      modifies this
      ensures Edit() == InsertText(old(Edit()), pasted)
      ensures historyList == old(historyList) && PanelState() == old(PanelState())
    {
      var range := SelectedRange(Edit());
      if range.Some? {
        var (a, b) := range.value;
        currentInput := Take(currentInput, a) + pasted + Drop(currentInput, b);
        cursorPos := a + |pasted|;
      } else {
        currentInput := Take(currentInput, cursorPos) + pasted + Drop(currentInput, cursorPos);
        cursorPos := cursorPos + |pasted|;
      }
      selectStart, selectEnd := None, None;
    }

    /** The backspace key. */
    method PressBackspace()
      modifies this
      ensures Edit() == BackspaceKey(old(Edit()))
      ensures historyList == old(historyList) && PanelState() == old(PanelState())
    {
      var range := SelectedRange(Edit());
      if range.Some? && range.value.0 != range.value.1 {
        var (a, b) := range.value;
        currentInput := Take(currentInput, a) + Drop(currentInput, b);
        cursorPos := a;
        selectStart, selectEnd := None, None;
      } else if cursorPos > 0 {
        currentInput := Take(currentInput, cursorPos - 1) + Drop(currentInput, cursorPos);
        cursorPos := cursorPos - 1;
      }
    }

    /** The return key, or a typed `=`: evaluate a non-empty input, show the reply, and
        scroll to the last line the display had before. */
    method PressReturn()
      requires Valid()
      modifies this
      ensures Valid()
      ensures var reply := Evaluate(lib, old(currentInput), fuel);
        Edit() == ReturnKey(old(Edit()), reply)
        && (if old(currentInput) != "" && reply.Formatted?
            then historyList == [HistoryItem(old(currentInput), reply.text)] + old(historyList)
            else historyList == old(historyList))
      ensures PanelState() == old(PanelState())
    {
      if currentInput != "" {
        var reply := EvaluateExpression(currentInput);
        ShowReturnReply(reply);
      }
    }

    /** The reply of the return key: shown as by the `=` button, the selection cleared, and
        the display scrolled by the lines it had before the reply. */
    method ShowReturnReply(reply: Reply)
      requires currentInput != ""
      modifies this
      ensures Edit() == ReturnKey(old(Edit()), reply)
      ensures historyList == old(historyList) && PanelState() == old(PanelState())
    {
      var lines := DisplayLines(Edit());
      if !reply.Hangs? {
        resultPreview := reply.text;
        cursorPos := |currentInput|;
        selectStart, selectEnd := None, None;
        scrollOffset := Max0(|lines| - DisplayHeight / LineHeight + 1);
      }
    }

    /** A printable key: its text over a non-empty selection or at the cursor, the cursor
        one place further. */
    method Type(u: string)
      modifies this
      ensures Edit() == TypeText(old(Edit()), u)
      ensures historyList == old(historyList) && PanelState() == old(PanelState())
    {
      var range := SelectedRange(Edit());
      if range.Some? && range.value.0 != range.value.1 {
        var (a, b) := range.value;
        currentInput := Take(currentInput, a) + u + Drop(currentInput, b);
        cursorPos := a + 1;
      } else {
        currentInput := Take(currentInput, cursorPos) + u + Drop(currentInput, cursorPos);
        cursorPos := cursorPos + 1;
      }
      selectStart, selectEnd := None, None;
    }

    /** An arrow key: the cursor to `to`, extending the selection when shift is held. */
    method MoveTo(to: nat, extend: bool)
      modifies this
      ensures Edit() == MoveCursor(old(Edit()), to, extend)
      ensures historyList == old(historyList) && PanelState() == old(PanelState())
    {
      if extend {
        if selectStart.None? {
          selectStart := Some(cursorPos);
        }
        cursorPos := to;
        selectEnd := Some(cursorPos);
      } else {
        cursorPos := to;
        selectStart, selectEnd := None, None;
      }
    }

    /** `show_history`: the panel starts sliding in. */
    method ShowHistory()
      modifies this
      ensures PanelState() == old(PanelState()).(animation := 1)
      ensures Edit() == old(Edit()) && historyList == old(historyList)
    {
      historyAnimation := 1;
    }

    /** `hide_history`: the panel starts sliding out. */
    method HideHistory()
      modifies this
      ensures PanelState() == old(PanelState()).(animation := -1)
      ensures Edit() == old(Edit()) && historyList == old(historyList)
    {
      historyAnimation := -1;
    }

    /** `update_history_animation`: one frame of the slide. */
    method UpdateHistoryAnimation()
      requires Valid()
      modifies this
      ensures Valid()
      ensures PanelState() == Animate(old(PanelState()))
      ensures Edit() == old(Edit()) && historyList == old(historyList)
    {
      if historyAnimation == 1 {
        historyViewOffset := if historyViewOffset - AnimationSpeed >= 0 then historyViewOffset - AnimationSpeed else 0;
        if historyViewOffset == 0 {
          historyAnimation := 0;
          showingHistory := true;
        }
      } else if historyAnimation == -1 {
        historyViewOffset := if historyViewOffset + AnimationSpeed <= Width then historyViewOffset + AnimationSpeed else Width;
        if historyViewOffset == Width {
          historyAnimation := 0;
          showingHistory := false;
        }
      }
    }

    /** `get_history_item_y_pos(index)`: the top of entry `index` in the history panel, the
        heights of the entries above it added up; `None` for the `IndexError` an index past
        the end of the list raises. A negative index gives 0, as an empty `range` does. */
    method GetHistoryItemYPos(index: int) returns (y: Option<nat>)
      ensures index > |historyList| <==> y.None?
      ensures y.Some? ==> y.value == ItemTop(historyList, Max0(index))
    {
      var pos: nat := 0;
      var i: nat := 0;
      while i < index
        invariant i <= Max0(index) && i <= |historyList|
        invariant pos == ItemTop(historyList, i)
        decreases index - i
      {
        if i >= |historyList| {
          return None;
        }
        var exprLines := |WrapText(historyList[i].expression, MaxCharsPerLine)|;
        var resultLines := |WrapText("= " + historyList[i].result, MaxCharsPerLine)|;
        pos := pos + (exprLines + resultLines) * LineHeight + ItemPadding * 2 + 5;
        i := i + 1;
      }
      return Some(pos);
    }
  }
}
