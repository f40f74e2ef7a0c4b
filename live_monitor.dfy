/**
 * The monitor the application actually wires up: an append-only text screen.
 * Backspace drops the last character, Enter appends a hard break, an allowed
 * single character is appended, and every edit makes the caret fully opaque
 * again. The caret sits after the last character: its column is the length of
 * the last hard line and its row follows from the number of hard lines.
 */
module LiveMonitor {
  import opened Strings
  import opened MonitorCommon

  /** The content after the keydown handler has seen `key`. */
  function Typed(content: string, key: string): (r: string)
  {
    if key == "Backspace" then content[..if |content| - 1 > 0 then |content| - 1 else 0]
    else if key == "Enter" then content + [HardBreak]
    else if IsInsertable(key) then content + key
    else content
  }

  /** Whether the keydown handler reaches `updateContent` for `key`. */
  predicate Edits(key: string)
  {
    key == "Backspace" || key == "Enter" || IsInsertable(key)
  }

  /** The two numbers caret placement is computed from: the length of the last hard line and the number of hard lines. */
  function CaretCell(content: string): (cell: (nat, nat))
    ensures cell.1 >= 1
  {
    var lines := Split(content, HardBreak);
    (|lines[|lines| - 1]|, |lines|)
  }

  // ---------------------------------------------------------------------------
  // what one key does

  /** Backspace removes exactly the last character, and leaves empty content empty. */
  lemma BackspaceDropsLast(content: string)
    ensures |content| > 0 ==> Typed(content, "Backspace") + [content[|content| - 1]] == content
    ensures |content| == 0 ==> Typed(content, "Backspace") == ""
  {
  }

  /** A typed character or a hard break is undone by one Backspace. */
  lemma {:induction false} TypedThenErased(content: string, key: string)
    requires key == "Enter" || IsInsertable(key)
    ensures Typed(Typed(content, key), "Backspace") == content
  {
    var grown := Typed(content, key);
    assert |grown| == |content| + 1;
    assert grown[..|content|] == content;
  }

  /** Keys other than Backspace, Enter and one allowed character leave the content alone. */
  lemma OtherKeysIgnored(content: string, key: string)
    requires !Edits(key)
    ensures Typed(content, key) == content
  {
  }

  // ---------------------------------------------------------------------------
  // where the caret goes

  /** A typed character moves the caret one column right on the same row. */
  lemma {:induction false} CaretAfterCharacter(content: string, key: string)
    requires IsInsertable(key)
    ensures CaretCell(Typed(content, key)).0 == CaretCell(content).0 + 1
    ensures CaretCell(Typed(content, key)).1 == CaretCell(content).1
  {
    KeyClassIsPrintableAscii(key[0]);
    assert key == [key[0]];
    SplitAppendChar(content, key[0], HardBreak);
  }

  /** Enter moves the caret to column 0 of a new row. */
  lemma {:induction false} CaretAfterEnter(content: string)
    ensures CaretCell(Typed(content, "Enter")) == (0, CaretCell(content).1 + 1)
  {
    SplitAppendSep(content, HardBreak);
  }

  /** Backspace moves the caret one column left, or back to the end of the previous row when it erases a hard break. */
  lemma {:induction false} CaretAfterBackspace(content: string)
    requires |content| > 0
    ensures var shorter := Typed(content, "Backspace");
            content[|content| - 1] != HardBreak ==>
              CaretCell(shorter) == (CaretCell(content).0 - 1, CaretCell(content).1)
    ensures var shorter := Typed(content, "Backspace");
            content[|content| - 1] == HardBreak ==>
              CaretCell(content) == (0, CaretCell(shorter).1 + 1)
  {
    var shorter := Typed(content, "Backspace");
    var last := content[|content| - 1];
    assert shorter + [last] == content;
    if last == HardBreak {
      SplitAppendSep(shorter, HardBreak);
    } else {
      SplitAppendChar(shorter, last, HardBreak);
    }
  }

  /**
   * The monitor's state: the text, whether the caret mesh exists yet, the cell
   * it was last placed at, the caret material's opacity, and how often a
   * redraw was asked for.
   */
  class Monitor {
    var content: string
    var caretShown: bool
    var caretAt: (nat, nat)
    var opacity: real
    var renderRequests: nat

    /** The caret is fully visible or fully hidden, and once it exists it sits at the cell the content dictates. */
    ghost predicate Valid()
      reads this
    {
      && (opacity == 0.0 || opacity == 1.0)
      && (caretShown ==> caretAt == CaretCell(content))
    }

    /** The seed text, no caret until the font has loaded; a fresh caret material starts fully opaque. */
    constructor ()
      ensures Valid()
      ensures content == Seed && !caretShown && opacity == 1.0 && renderRequests == 0
    {
      content := Seed;
      caretShown := false;
      caretAt := (0, 0);
      opacity := 1.0;
      renderRequests := 0;
    }

    /** The font-load callback: create the caret, then draw the screen, which places it. */
    method FontLoaded()
      requires Valid()
      modifies this
      ensures Valid()
      ensures caretShown && caretAt == CaretCell(content) && opacity == 1.0
      ensures content == old(content) && renderRequests == old(renderRequests)
    {
      DisplayCaret();
      DrawScreen();
    }

    /** Create the caret mesh and start it blinking from full opacity. */
    method DisplayCaret()
      modifies this
      ensures caretShown && opacity == 1.0
      ensures content == old(content) && caretAt == old(caretAt) && renderRequests == old(renderRequests)
    {
      caretShown := true;
      AnimateBlink();
    }

    /** Redraw the text and place the caret. */
    method DrawScreen()
      modifies this
      ensures caretShown ==> caretAt == CaretCell(content)
      ensures !caretShown ==> caretAt == old(caretAt)
      ensures content == old(content) && caretShown == old(caretShown)
      ensures opacity == old(opacity) && renderRequests == old(renderRequests)
    {
      PositionCaret();
    }

    /** Place the caret after the last character, if it exists yet. */
    method PositionCaret()
      modifies this
      ensures caretShown ==> caretAt == CaretCell(content)
      ensures !caretShown ==> caretAt == old(caretAt)
      ensures content == old(content) && caretShown == old(caretShown)
      ensures opacity == old(opacity) && renderRequests == old(renderRequests)
    {
      if caretShown {
        var lines := Split(content, HardBreak);
        caretAt := (|lines[|lines| - 1]|, |lines|);
      }
    }

    /** Restart the blink at full opacity. */
    method AnimateBlink()
      modifies this
      ensures opacity == 1.0
      ensures content == old(content) && caretShown == old(caretShown) && caretAt == old(caretAt)
      ensures renderRequests == old(renderRequests)
    {
      opacity := 1.0;
    }

    /** Replace the text, redraw it, and restart the blink: the caret ends fully opaque. No render is requested. */
    method UpdateContent(text: string)
      modifies this
      ensures Valid()
      ensures content == text && opacity == 1.0
      ensures caretShown == old(caretShown) && renderRequests == old(renderRequests)
    {
      content := text;
      DrawScreen();
      AnimateBlink();
    }

    /** The keydown handler. */
    method HandleKeyDown(key: string)
      requires Valid()
      modifies this
      ensures Valid()
      ensures content == Typed(old(content), key)
      ensures opacity == if Edits(key) then 1.0 else old(opacity)
      ensures caretShown == old(caretShown) && renderRequests == old(renderRequests)
    {
      if key == "Backspace" {
        var keep := if |content| - 1 > 0 then |content| - 1 else 0;
        UpdateContent(content[..keep]);
        return;
      }
      if key == "Enter" {
        UpdateContent(content + [HardBreak]);
        return;
      }
      if !IsInsertable(key) {
        return;
      }
      UpdateContent(content + key);
    }

    /** One blink tick: toggle the caret between opaque and transparent and ask for a render. */
    method BlinkCaret()
      requires Valid()
      modifies this
      ensures Valid()
      ensures opacity == Blinked(old(opacity)) && opacity != old(opacity)
      ensures content == old(content) && caretShown == old(caretShown) && caretAt == old(caretAt)
      ensures renderRequests == old(renderRequests) + 1
    {
      opacity := Blinked(opacity);
      renderRequests := renderRequests + 1;
    }
  }
}
