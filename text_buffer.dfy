/**
 * The wrapping text screen: one string of content whose hard lines are
 * separated by '\n' and soft-wrapped at a fixed print width with U+2028.
 * A (row, column) cursor addresses a hard line and a character offset in
 * that line with its soft breaks removed. Typing edits the cursor's hard line
 * and re-wraps it; Enter appends a hard break at the very end of the content.
 */
module TextBuffer {
  import opened Strings
  import opened MonitorCommon
  import LiveMonitor

  /** The number of characters per visual line. */
  const PrintWidth: nat := 55

  // ---------------------------------------------------------------------------
  // wrapLine: `line.match(/.{1,w}/g)?.join("\u2028") ?? ""`

  /** Length of the greedy `.{1,w}` attempt at the start of `s`: the leading non-terminators, at most `w` of them. */
  function Run(s: string, w: nat): (n: nat)
    ensures n <= w && n <= |s|
    ensures TerminatorFree(s[..n])
    ensures n < w && n < |s| ==> IsLineTerminator(s[n])
  {
    if |s| == 0 || w == 0 || IsLineTerminator(s[0]) then 0
    else
      var n := 1 + Run(s[1..], w - 1);
      assert s[..n] == [s[0]] + s[1..][..n - 1];
      n
  }

  /**
   * The successive matches of the global regular expression `.{1,w}`: at a
   * line terminator the match fails and the search moves on one character.
   */
  function Matches(s: string, w: nat): (ms: seq<string>)
    requires w >= 1
    ensures forall i :: 0 <= i < |ms| ==> 1 <= |ms[i]| <= w && TerminatorFree(ms[i])
    decreases |s|
  {
    if |s| == 0 then []
    else if IsLineTerminator(s[0]) then Matches(s[1..], w)
    else
      var n := Run(s, w);
      [s[..n]] + Matches(s[n..], w)
  }

  /** `wrapLine(line, w)`; no match at all gives the empty string. */
  function WrapLine(line: string, w: nat): (r: string)
    requires w >= 1
  {
    Join(Matches(line, w), SoftBreak)
  }

  /** Number of soft breaks wrapping puts into a line of `n` characters. */
  function SoftRows(n: nat, w: nat): (r: nat)
    requires w >= 1
  {
    if n == 0 then 0 else (n - 1) / w
  }

  /** On a line without terminators each match takes `w` characters, or all that are left. */
  lemma MatchesStep(s: string, w: nat)
    requires w >= 1 && TerminatorFree(s) && |s| > 0
    ensures var n := if |s| <= w then |s| else w;
            && TerminatorFree(s[n..])
            && Matches(s, w) == [s[..n]] + Matches(s[n..], w)
  {
    var n := Run(s, w);
    assert !IsLineTerminator(s[0]);
    assert n == w || n == |s|;
    forall i | 0 <= i < |s[n..]| ensures !IsLineTerminator(s[n..][i]) {
      assert s[n..][i] == s[n + i];
    }
  }

  /** The chunks of a line without terminators spell the line. */
  lemma {:induction false} MatchesConcat(s: string, w: nat)
    requires w >= 1 && TerminatorFree(s)
    ensures Concat(Matches(s, w)) == s
    decreases |s|
  {
    if |s| > 0 {
      var n := if |s| <= w then |s| else w;
      MatchesStep(s, w);
      MatchesConcat(s[n..], w);
      ConcatCons(s[..n], Matches(s[n..], w));
      assert s[..n] + s[n..] == s;
    }
  }

  /** Every chunk of a line without terminators except the last is exactly `w` long. */
  lemma {:induction false} MatchesFull(s: string, w: nat)
    requires w >= 1 && TerminatorFree(s)
    ensures var ms := Matches(s, w);
            forall i :: 0 <= i < |ms| - 1 ==> |ms[i]| == w
    decreases |s|
  {
    if |s| > 0 {
      var n := if |s| <= w then |s| else w;
      MatchesStep(s, w);
      MatchesFull(s[n..], w);
      var ms := Matches(s, w);
      if n == |s| {
        assert s[n..] == [];
        assert |ms| == 1;
      } else {
        forall i | 0 <= i < |ms| - 1 ensures |ms[i]| == w {
          if i > 0 {
            assert ms[i] == Matches(s[n..], w)[i - 1];
          }
        }
      }
    }
  }

  /** A line of `n > 0` characters without terminators falls into `SoftRows(n, w) + 1` chunks. */
  lemma {:induction false} MatchesCount(s: string, w: nat)
    requires w >= 1 && TerminatorFree(s)
    ensures |Matches(s, w)| == if |s| == 0 then 0 else SoftRows(|s|, w) + 1
    decreases |s|
  {
    if |s| > 0 {
      var n := if |s| <= w then |s| else w;
      MatchesStep(s, w);
      MatchesCount(s[n..], w);
      if n == |s| {
        assert s[n..] == [];
      } else {
        DivStep(|s| - 1 - w, w);
      }
    }
  }

  lemma DivStep(a: int, w: nat)
    requires a >= 0 && w >= 1
    ensures (a + w) / w == a / w + 1
  {
    var q, r := a / w, a % w;
    assert a == q * w + r && 0 <= r < w;
    assert a + w == (q + 1) * w + r by {
      assert (q + 1) * w == q * w + w;
    }
    DivUnique(a + w, w, q + 1, r);
  }

  lemma DivUnique(n: int, w: int, q: int, r: int)
    requires w > 0 && 0 <= r < w && n == q * w + r
    ensures n / w == q
  {
    var q', r' := n / w, n % w;
    assert n == q' * w + r' && 0 <= r' < w;
    assert (q - q') * w == r' - r by {
      assert (q - q') * w == q * w - q' * w;
    }
    if q > q' {
      assert (q - q') * w >= w by { MulAtLeast(q - q', w); }
    } else if q < q' {
      assert (q' - q) * w >= w by { MulAtLeast(q' - q, w); }
    }
  }

  lemma MulAtLeast(k: int, w: int)
    requires k >= 1 && w > 0
    ensures k * w >= w
  {
    assert k * w == (k - 1) * w + w;
    assert (k - 1) * w >= 0;
  }

  /** Wrapping never puts a hard break into a line. */
  lemma {:induction false} WrapLineHasNoHardBreak(line: string, w: nat)
    requires w >= 1
    ensures HardBreak !in WrapLine(line, w)
  {
    var ms := Matches(line, w);
    assert forall i :: 0 <= i < |ms| ==> HardBreak !in ms[i];
    JoinAvoids(ms, SoftBreak, HardBreak);
  }

  /** Removing the soft breaks from a wrapped line gives the line back. */
  lemma {:induction false} WrapRoundTrip(line: string, w: nat)
    requires w >= 1 && TerminatorFree(line)
    ensures Without(WrapLine(line, w), SoftBreak) == line
  {
    var ms := Matches(line, w);
    assert forall i :: 0 <= i < |ms| ==> SoftBreak !in ms[i];
    WithoutJoin(ms, SoftBreak);
    MatchesConcat(line, w);
  }

  /** Re-wrapping an already wrapped line, after stripping its soft breaks, changes nothing. */
  lemma {:induction false} WrapIdempotent(line: string, w: nat)
    requires w >= 1 && TerminatorFree(line)
    ensures WrapLine(Without(WrapLine(line, w), SoftBreak), w) == WrapLine(line, w)
  {
    WrapRoundTrip(line, w);
  }

  /** A wrapped line holds one soft break per full chunk before the last, and no other line break. */
  lemma {:induction false} WrapLineBreaks(line: string, w: nat)
    requires w >= 1 && TerminatorFree(line)
    ensures Breaks(WrapLine(line, w)) == SoftRows(|line|, w)
  {
    var ms := Matches(line, w);
    MatchesCount(line, w);
    if |ms| > 0 {
      BreaksJoin(ms, SoftBreak);
      NoBreaksIn(ms);
    }
  }

  lemma {:induction false} NoBreaksIn(parts: seq<string>)
    requires forall i :: 0 <= i < |parts| ==> TerminatorFree(parts[i])
    ensures BreaksIn(parts) == 0
  {
    if |parts| > 0 {
      NoBreaks(parts[0]);
      NoBreaksIn(parts[1..]);
    }
  }

  lemma {:induction false} NoBreaks(s: string)
    requires TerminatorFree(s)
    ensures Breaks(s) == 0
  {
    if |s| > 0 {
      assert !IsLineTerminator(s[0]);
      NoBreaks(s[1..]);
    }
  }

  /** A line that fits in the width is left as it is. */
  lemma {:induction false} WrapShortLine(line: string, w: nat)
    requires w >= 1 && TerminatorFree(line) && |line| <= w
    ensures WrapLine(line, w) == line
  {
    if |line| > 0 {
      MatchesStep(line, w);
      assert line[|line|..] == [];
      assert line[..|line|] == line;
    }
  }

  /** Four characters at width 3 fall into a full chunk and the rest. */
  lemma MatchesExample(s: string)
    requires |s| == 4 && TerminatorFree(s)
    ensures Matches(s, 3) == [s[..3], s[3..]]
  {
    MatchesStep(s, 3);
    var rest := s[3..];
    assert Matches(rest, 3) == [rest] by {
      MatchesStep(rest, 3);
      assert rest[1..] == "" && rest[..1] == rest;
    }
  }

  /** Four characters at width 3 become a full chunk, a soft break, and the rest. */
  lemma WrapExample(s: string)
    requires |s| == 4 && TerminatorFree(s)
    ensures WrapLine(s, 3) == s[..3] + [SoftBreak] + s[3..]
  {
    MatchesExample(s);
    var chunks := [s[..3], s[3..]];
    assert chunks[1..] == [s[3..]];
    assert Join(chunks[1..], SoftBreak) == s[3..];
  }

  // ---------------------------------------------------------------------------
  // the editor: hard lines and a (row, column) cursor

  /** The content split at hard breaks, with the cursor's row and column. */
  datatype Editor = Editor(lines: seq<string>, row: int, col: int)

  /** A hard line with its soft breaks removed: what the column counts in. */
  function Text(line: string): (r: string)
  {
    Without(line, SoftBreak)
  }

  /** The row is a hard line and the column lies within its text. */
  predicate CursorInRange(e: Editor)
  {
    0 <= e.row < |e.lines| && 0 <= e.col <= |Text(e.lines[e.row])|
  }

  /** A hard line as wrapping leaves it: its text has no line break of any kind and wraps to the line itself. */
  predicate Wrapped(line: string, w: nat)
    requires w >= 1
  {
    TerminatorFree(Text(line)) && line == WrapLine(Text(line), w)
  }

  /** The editor invariant: the cursor is in range and every hard line is in wrapped form. */
  predicate ValidEditor(e: Editor, w: nat)
  {
    && w >= 1
    && CursorInRange(e)
    && forall i :: 0 <= i < |e.lines| ==> Wrapped(e.lines[i], w)
  }

  /** The cursor sits after the last character of the last hard line. */
  predicate AtEnd(e: Editor)
  {
    |e.lines| >= 1 && e.row == |e.lines| - 1 && e.col == |Text(e.lines[e.row])|
  }

  /** The content the editor stands for. */
  function Content(e: Editor): (r: string)
  {
    Join(e.lines, HardBreak)
  }

  /** `#handleInsert(text)`: splice `text` into the cursor's line at the column, re-wrap, advance the column. */
  function InsertStep(e: Editor, text: string, w: nat): (r: Editor)
    requires w >= 1 && CursorInRange(e)
  {
    var line := Text(e.lines[e.row]);
    var draft := line[..e.col] + text + line[e.col..];
    Editor(e.lines[e.row := WrapLine(draft, w)], e.row, e.col + |text|)
  }

  /**
   * `#handleBackspace()`: with the column past 0, remove the character before
   * it and re-wrap; at column 0, move to the end of the previous line (of
   * line 0 when already there) and keep only the hard lines up to it.
   */
  function BackspaceStep(e: Editor, w: nat): (r: Editor)
    requires w >= 1 && CursorInRange(e)
  {
    if e.col > 0 then
      var line := Text(e.lines[e.row]);
      var draft := line[..e.col - 1] + line[e.col..];
      Editor(e.lines[e.row := WrapLine(draft, w)], e.row, e.col - 1)
    else
      var row := if e.row - 1 > 0 then e.row - 1 else 0;
      Editor(e.lines[..row + 1], row, |Text(e.lines[row])|)
  }

  /** Enter: a hard break at the end of the whole content, and the cursor at column 0 of the next row. */
  function EnterStep(e: Editor): (r: Editor)
  {
    Editor(e.lines + [""], e.row + 1, 0)
  }

  /** `handleKeyInput(key)`. */
  function KeyStep(e: Editor, key: string, w: nat): (r: Editor)
    requires w >= 1 && CursorInRange(e)
  {
    if key == "Backspace" then BackspaceStep(e, w)
    else if key == "Enter" then EnterStep(e)
    else if IsInsertable(key) then InsertStep(e, key, w)
    else e
  }

  lemma TerminatorFreeSlices(s: string, i: int, j: int)
    requires TerminatorFree(s) && 0 <= i <= j <= |s|
    ensures TerminatorFree(s[i..j]) && TerminatorFree(s[..i]) && TerminatorFree(s[j..])
  {
    assert forall k :: 0 <= k < j - i ==> s[i..j][k] == s[i + k];
    assert forall k :: 0 <= k < |s| - j ==> s[j..][k] == s[j + k];
  }

  lemma TerminatorFreeConcat(a: string, b: string)
    requires TerminatorFree(a) && TerminatorFree(b)
    ensures TerminatorFree(a + b)
  {
    assert forall k :: |a| <= k < |a| + |b| ==> (a + b)[k] == b[k - |a|];
  }

  /** A line produced by wrapping a terminator-free draft is in wrapped form, with the draft as its text. */
  lemma {:induction false} WrappedDraft(draft: string, w: nat)
    requires w >= 1 && TerminatorFree(draft)
    ensures Text(WrapLine(draft, w)) == draft
    ensures Wrapped(WrapLine(draft, w), w)
    ensures HardBreak !in WrapLine(draft, w)
  {
    WrapRoundTrip(draft, w);
    WrapLineHasNoHardBreak(draft, w);
  }

  /**
   * Inserting terminator-free text keeps the invariant, the row and the
   * hard-line count, advances the column by the text's length, splices the
   * text into the row's text, and leaves every other hard line as it was.
   */
  lemma {:induction false} InsertKeepsValid(e: Editor, text: string, w: nat)
    requires ValidEditor(e, w) && TerminatorFree(text)
    ensures var e' := InsertStep(e, text, w);
            var line := Text(e.lines[e.row]);
            && ValidEditor(e', w)
            && |e'.lines| == |e.lines|
            && Text(e'.lines[e.row]) == line[..e.col] + text + line[e.col..]
            && e'.row == e.row && e'.col == e.col + |text|
            && forall i :: 0 <= i < |e.lines| && i != e.row ==> e'.lines[i] == e.lines[i]
  {
    var line := Text(e.lines[e.row]);
    assert Wrapped(e.lines[e.row], w);
    TerminatorFreeSlices(line, e.col, e.col);
    TerminatorFreeConcat(line[..e.col], text);
    TerminatorFreeConcat(line[..e.col] + text, line[e.col..]);
    WrappedDraft(line[..e.col] + text + line[e.col..], w);
  }

  /** Backspace keeps the invariant; past column 0 it removes exactly the character before the cursor. */
  lemma {:induction false} BackspaceKeepsValid(e: Editor, w: nat)
    requires ValidEditor(e, w)
    ensures var e' := BackspaceStep(e, w);
            var line := Text(e.lines[e.row]);
            && ValidEditor(e', w)
            && (e.col > 0 ==> |e'.lines| == |e.lines| && Text(e'.lines[e.row]) == line[..e.col - 1] + line[e.col..])
  {
    if e.col > 0 {
      var line := Text(e.lines[e.row]);
      assert Wrapped(e.lines[e.row], w);
      TerminatorFreeSlices(line, e.col - 1, e.col);
      TerminatorFreeConcat(line[..e.col - 1], line[e.col..]);
      WrappedDraft(line[..e.col - 1] + line[e.col..], w);
    }
  }

  /** Enter keeps the invariant: the new last line is empty, which is its own wrapped form. */
  lemma EnterKeepsValid(e: Editor, w: nat)
    requires ValidEditor(e, w)
    ensures ValidEditor(EnterStep(e), w)
  {
    assert Text("") == "";
    assert Matches("", w) == [];
  }

  /** Every key keeps the row a valid hard-line index and the column within that line's text. */
  lemma {:induction false} KeyStepKeepsValid(e: Editor, key: string, w: nat)
    requires ValidEditor(e, w)
    ensures ValidEditor(KeyStep(e, key, w), w)
  {
    if key == "Backspace" {
      BackspaceKeepsValid(e, w);
    } else if key == "Enter" {
      EnterKeepsValid(e, w);
    } else if IsInsertable(key) {
      InsertableHasNoBreak(key);
      InsertKeepsValid(e, key, w);
    }
  }

  /** Inserting one character and then pressing Backspace restores the lines and the cursor exactly. */
  lemma {:induction false} InsertThenBackspace(e: Editor, text: string, w: nat)
    requires ValidEditor(e, w) && TerminatorFree(text) && |text| == 1
    ensures CursorInRange(InsertStep(e, text, w))
    ensures BackspaceStep(InsertStep(e, text, w), w) == e
  {
    assert Wrapped(e.lines[e.row], w);
    UndoInsert(e, text, w);
  }

  /** `InsertThenBackspace` for the cursor's line alone. */
  lemma {:induction false} UndoInsert(e: Editor, text: string, w: nat)
    requires w >= 1 && CursorInRange(e) && Wrapped(e.lines[e.row], w) && TerminatorFree(text) && |text| == 1
    ensures CursorInRange(InsertStep(e, text, w))
    ensures BackspaceStep(InsertStep(e, text, w), w) == e
  {
    var line := Text(e.lines[e.row]);
    var draft := line[..e.col] + text + line[e.col..];
    TerminatorFreeSlices(line, e.col, e.col);
    TerminatorFreeConcat(line[..e.col], text);
    TerminatorFreeConcat(line[..e.col] + text, line[e.col..]);
    WrappedDraft(draft, w);
    var e' := InsertStep(e, text, w);
    assert e'.lines[e.row] == WrapLine(draft, w);
    assert draft[..e.col] + draft[e.col + 1..] == line;
    assert e'.lines[e.row := e.lines[e.row]] == e.lines;
  }

  /** Starting at the end of the text, every key leaves the cursor at the end of the text. */
  lemma {:induction false} KeyStepKeepsAtEnd(e: Editor, key: string, w: nat)
    requires ValidEditor(e, w) && AtEnd(e)
    ensures AtEnd(KeyStep(e, key, w))
  {
    if key == "Backspace" {
      BackspaceKeepsValid(e, w);
    } else if key == "Enter" {
      assert Text("") == "";
    } else if IsInsertable(key) {
      InsertableHasNoBreak(key);
      InsertKeepsValid(e, key, w);
    }
  }

  /** In a reachable state, Backspace at the origin changes nothing: the only line is empty. */
  lemma BackspaceAtOriginReachable(e: Editor, w: nat)
    requires ValidEditor(e, w) && AtEnd(e) && e.row == 0 && e.col == 0
    ensures BackspaceStep(e, w) == e
  {
    assert e.lines[..1] == e.lines;
  }

  /** Away from the end, Backspace at the origin is not a no-op: the later hard lines go and the cursor jumps to the end of line 0. */
  lemma BackspaceAtOriginTruncates(e: Editor, w: nat)
    requires ValidEditor(e, w) && e.row == 0 && e.col == 0 && |e.lines| > 1
    ensures var e' := BackspaceStep(e, w);
            && e'.lines == [e.lines[0]] && e'.row == 0 && e'.col == |Text(e.lines[0])|
            && e' != e
  {
  }

  /** The text of the whole buffer with the soft breaks taken out. */
  function Unwrapped(e: Editor): (r: string)
  {
    Without(Content(e), SoftBreak)
  }

  /**
   * From a state with the cursor at the end, the wrapping editor is the
   * append-only editor with soft breaks added: its unwrapped text evolves
   * exactly as the live monitor's content does on the same key.
   */
  lemma {:induction false} KeyStepRefinesLiveMonitor(e: Editor, key: string, w: nat)
    requires ValidEditor(e, w) && AtEnd(e)
    ensures Unwrapped(KeyStep(e, key, w)) == LiveMonitor.Typed(Unwrapped(e), key)
  {
    if key == "Backspace" {
      BackspaceRefines(e, w);
    } else if key == "Enter" {
      EnterRefines(e);
    } else if IsInsertable(key) {
      InsertableHasNoBreak(key);
      assert Wrapped(e.lines[|e.lines| - 1], w);
      InsertRefines(e, key, w);
    }
  }

  /** The unwrapped text is the join of the hard lines' texts. */
  lemma UnwrappedIsJoinOfTexts(e: Editor)
    ensures Unwrapped(e) == Join(WithoutEach(e.lines, SoftBreak), HardBreak)
  {
    WithoutJoinEach(e.lines, HardBreak, SoftBreak);
  }

  /** Replacing the last hard line changes the unwrapped text only in that line's text. */
  lemma UnwrapLastLine(lines: seq<string>, line: string)
    requires |lines| >= 1
    ensures var n := |lines|;
            Without(Join(lines[n - 1 := line], HardBreak), SoftBreak)
              == Join(WithoutEach(lines, SoftBreak)[..n - 1] + [Text(line)], HardBreak)
  {
    var n := |lines|;
    WithoutJoinEach(lines[n - 1 := line], HardBreak, SoftBreak);
    assert WithoutEach(lines[n - 1 := line], SoftBreak) == WithoutEach(lines, SoftBreak)[..n - 1] + [Text(line)];
  }

  lemma {:induction false} InsertRefines(e: Editor, text: string, w: nat)
    requires w >= 1 && AtEnd(e) && TerminatorFree(Text(e.lines[|e.lines| - 1])) && TerminatorFree(text)
    ensures Unwrapped(InsertStep(e, text, w)) == Unwrapped(e) + text
  {
    var n := |e.lines|;
    var line := Text(e.lines[n - 1]);
    var draft := line + text;
    assert line[..e.col] + text + line[e.col..] == draft;
    TerminatorFreeConcat(line, text);
    WrappedDraft(draft, w);
    assert InsertStep(e, text, w).lines == e.lines[n - 1 := WrapLine(draft, w)];
    UnwrapLastLine(e.lines, WrapLine(draft, w));
    JoinAppendToLast(WithoutEach(e.lines, SoftBreak), text, HardBreak);
    UnwrappedIsJoinOfTexts(e);
  }

  lemma {:induction false} EnterRefines(e: Editor)
    requires |e.lines| >= 1
    ensures Unwrapped(EnterStep(e)) == Unwrapped(e) + [HardBreak]
  {
    var texts, texts' := WithoutEach(e.lines, SoftBreak), WithoutEach(e.lines + [""], SoftBreak);
    UnwrappedIsJoinOfTexts(e);
    UnwrappedIsJoinOfTexts(EnterStep(e));
    assert texts' == texts + [""];
    JoinAppendEmpty(texts, HardBreak);
  }

  lemma {:induction false} BackspaceRefines(e: Editor, w: nat)
    requires ValidEditor(e, w) && AtEnd(e)
    ensures Unwrapped(BackspaceStep(e, w)) == LiveMonitor.Typed(Unwrapped(e), "Backspace")
  {
    if e.col > 0 {
      assert Wrapped(e.lines[|e.lines| - 1], w);
      EraseCharRefines(e, w);
    } else if |e.lines| > 1 {
      EraseBreakRefines(e, w);
    } else {
      assert e.lines[..1] == e.lines;
      assert WithoutEach(e.lines, SoftBreak) == [""];
      UnwrappedIsJoinOfTexts(e);
    }
  }

  lemma {:induction false} EraseCharRefines(e: Editor, w: nat)
    requires w >= 1 && AtEnd(e) && e.col > 0 && TerminatorFree(Text(e.lines[|e.lines| - 1]))
    ensures LiveMonitor.Typed(Unwrapped(e), "Backspace") == Unwrapped(BackspaceStep(e, w))
  {
    var line := Text(e.lines[|e.lines| - 1]);
    var shorter := Join(WithoutEach(e.lines, SoftBreak)[..|e.lines| - 1] + [line[..|line| - 1]], HardBreak);
    UnwrappedAfterErase(e, w, line[..|line| - 1]);
    assert line == line[..|line| - 1] + [line[|line| - 1]];
    UnwrappedBeforeErase(e, line[..|line| - 1], line[|line| - 1]);
    assert (shorter + [line[|line| - 1]])[..|shorter|] == shorter;
  }

  /** After erasing at the end, the unwrapped text joins the earlier lines' texts and the last text without its final character. */
  lemma {:induction false} UnwrappedAfterErase(e: Editor, w: nat, kept: string)
    requires w >= 1 && AtEnd(e) && e.col > 0 && TerminatorFree(Text(e.lines[|e.lines| - 1]))
    requires kept == Text(e.lines[|e.lines| - 1])[..e.col - 1]
    ensures Unwrapped(BackspaceStep(e, w)) == Join(WithoutEach(e.lines, SoftBreak)[..|e.lines| - 1] + [kept], HardBreak)
  {
    var n := |e.lines|;
    var line := Text(e.lines[n - 1]);
    assert line[..e.col - 1] + line[e.col..] == kept;
    TerminatorFreeSlices(line, 0, e.col - 1);
    WrappedDraft(kept, w);
    assert BackspaceStep(e, w).lines == e.lines[n - 1 := WrapLine(kept, w)];
    UnwrapLastLine(e.lines, WrapLine(kept, w));
  }

  /** Before erasing, the unwrapped text is that same join followed by the last text's final character. */
  lemma {:induction false} UnwrappedBeforeErase(e: Editor, kept: string, last: char)
    requires |e.lines| >= 1 && Text(e.lines[|e.lines| - 1]) == kept + [last]
    ensures Unwrapped(e) == Join(WithoutEach(e.lines, SoftBreak)[..|e.lines| - 1] + [kept], HardBreak) + [last]
  {
    var texts := WithoutEach(e.lines, SoftBreak);
    assert texts[|e.lines| - 1] == kept + [last];
    DropFromLastPart(texts, kept, last);
    UnwrappedIsJoinOfTexts(e);
  }

  /** Dropping the final character of the last part drops the final character of the join. */
  lemma DropFromLastPart(texts: seq<string>, kept: string, last: char)
    requires |texts| >= 1 && texts[|texts| - 1] == kept + [last]
    ensures Join(texts, HardBreak) == Join(texts[..|texts| - 1] + [kept], HardBreak) + [last]
  {
    var n := |texts|;
    var parts := texts[..n - 1] + [kept];
    assert parts[..n - 1] + [parts[n - 1] + [last]] == texts;
    JoinAppendToLast(parts, [last], HardBreak);
  }

  lemma {:induction false} EraseBreakRefines(e: Editor, w: nat)
    requires ValidEditor(e, w) && AtEnd(e) && e.col == 0 && |e.lines| > 1
    ensures Unwrapped(e) == Unwrapped(BackspaceStep(e, w)) + [HardBreak]
  {
    var n := |e.lines|;
    var e' := BackspaceStep(e, w);
    assert e'.lines == e.lines[..n - 1];
    var texts, texts' := WithoutEach(e.lines, SoftBreak), WithoutEach(e'.lines, SoftBreak);
    UnwrappedIsJoinOfTexts(e);
    UnwrappedIsJoinOfTexts(e');
    assert forall i :: 0 <= i < n - 1 ==> texts'[i] == texts[i];
    assert texts == texts' + [""];
    JoinAppendEmpty(texts', HardBreak);
  }

  // ---------------------------------------------------------------------------
  // positionCaret: the caret's visual row and display column

  /** JavaScript's `%` for a positive divisor: the remainder takes the sign of the dividend. */
  function JsRem(a: int, b: int): (r: int)
    requires b > 0
    ensures a >= 0 ==> r == a % b
    ensures a >= 0 ==> 0 <= r < b
    ensures a < 0 ==> -b < r <= 0
  {
    if a >= 0 then a % b else -((-a) % b)
  }

  /** The remainder is odd in the dividend: negating the dividend negates the remainder. */
  lemma JsRemOdd(a: int, b: int)
    requires b > 0
    ensures JsRem(-a, b) == -JsRem(a, b)
  {
  }

  /** The column the caret is drawn at: `((col - 1) % w) + 1` with JavaScript's `%`. */
  function DisplayColumn(col: int, w: nat): (r: int)
    requires w >= 1
  {
    JsRem(col - 1, w) + 1
  }

  /** The visual row: one per hard or soft break anywhere in the content. */
  function VisualRow(content: string): (r: nat)
  {
    Breaks(content)
  }

  /** Past column 0 the display column lies in 1..w and agrees with the ordinary remainder. */
  lemma DisplayColumnRange(col: int, w: nat)
    requires w >= 1 && col >= 1
    ensures 1 <= DisplayColumn(col, w) <= w
    ensures DisplayColumn(col, w) == (col - 1) % w + 1
  {
  }

  /** At the end of a full visual line the caret stays on it: columns 1..w are shown as themselves. */
  lemma DisplayColumnWithinWidth(col: int, w: nat)
    requires w >= 1 && 1 <= col <= w
    ensures DisplayColumn(col, w) == col
  {
  }

  /** Column 0 is shown as 0, except at width 1 where the negative zero remainder makes it 1. */
  lemma DisplayColumnAtZero(w: nat)
    requires w >= 1
    ensures w >= 2 ==> DisplayColumn(0, w) == 0
    ensures w == 1 ==> DisplayColumn(0, w) == 1
  {
  }

  /** Moving a whole visual line further along the hard line does not change the display column. */
  lemma {:induction false} DisplayColumnPeriodic(col: int, w: nat)
    requires w >= 1 && col >= 1
    ensures DisplayColumn(col + w, w) == DisplayColumn(col, w)
  {
    DivStep(col - 1, w);
  }

  /** The display column of a cursor at the end of a wrapped text is the length of its last visual line. */
  lemma {:induction false} LastChunkLength(line: string, w: nat)
    requires w >= 1 && TerminatorFree(line) && |line| >= 1
    ensures |Matches(line, w)| >= 1
    ensures |Matches(line, w)[|Matches(line, w)| - 1]| == DisplayColumn(|line|, w)
    decreases |line|
  {
    MatchesStep(line, w);
    if |line| <= w {
      assert line[|line|..] == [];
      assert Matches(line[|line|..], w) == [];
      DisplayColumnWithinWidth(|line|, w);
    } else {
      LastChunkLength(line[w..], w);
      DisplayColumnPeriodic(|line| - w, w);
    }
  }

  /** Sum of the soft breaks wrapping puts into each hard line. */
  function SoftRowsIn(lines: seq<string>, w: nat): (r: nat)
    requires w >= 1
  {
    if |lines| == 0 then 0 else SoftRows(|Text(lines[0])|, w) + SoftRowsIn(lines[1..], w)
  }

  lemma {:induction false} BreaksInWrapped(lines: seq<string>, w: nat)
    requires w >= 1 && forall i :: 0 <= i < |lines| ==> Wrapped(lines[i], w)
    ensures BreaksIn(lines) == SoftRowsIn(lines, w)
  {
    if |lines| > 0 {
      assert Wrapped(lines[0], w);
      WrapLineBreaks(Text(lines[0]), w);
      BreaksInWrapped(lines[1..], w);
    }
  }

  /** The visual row counts every hard line but the last, plus every soft line break wrapping made. */
  lemma {:induction false} VisualRowOfValid(e: Editor, w: nat)
    requires ValidEditor(e, w)
    ensures VisualRow(Content(e)) == |e.lines| - 1 + SoftRowsIn(e.lines, w)
  {
    BreaksJoin(e.lines, HardBreak);
    BreaksInWrapped(e.lines, w);
  }

  /** The cell the caret is placed at: visual row and display column. */
  function CaretCell(content: string, col: int, w: nat): (cell: (int, int))
    requires w >= 1
  {
    (VisualRow(content), DisplayColumn(col, w))
  }

  // ---------------------------------------------------------------------------
  // the wrapping monitor object

  /** The wrapping monitor: content, a two-element cursor, the caret's placement and opacity. */
  class Monitor {
    var content: string
    var cursor: array<int>
    const printWidth: nat := PrintWidth
    var caretShown: bool
    var caretAt: (int, int)
    var opacity: real
    var renderRequests: nat

    /** The content read as hard lines together with the cursor. */
    function State(): (r: Editor)
      reads this, cursor
      requires cursor.Length == 2
    {
      Editor(Split(content, HardBreak), cursor[0], cursor[1])
    }

    ghost predicate Valid()
      reads this, cursor
    {
      && cursor.Length == 2
      && ValidEditor(State(), printWidth)
      && (opacity == 0.0 || opacity == 1.0)
      && (caretShown ==> caretAt == CaretCell(content, cursor[1], printWidth))
    }

    /** The states the object can reach: valid, with the cursor at the end of the text. */
    ghost predicate Reachable()
      reads this, cursor
    {
      Valid() && AtEnd(State())
    }

    /** The seed text, one hard line, and the cursor set to its end. */
    constructor ()
      ensures Reachable()
      ensures content == Seed && State() == Editor([Seed], 0, |Seed|)
      ensures !caretShown && opacity == 1.0 && renderRequests == 0
      ensures fresh(cursor)
    {
      content := Seed;
      cursor := new int[2];
      caretShown := false;
      caretAt := (0, 0);
      opacity := 1.0;
      renderRequests := 0;
      new;
      SeedFits();
      PlaceCursorAtEnd();
    }

    /** Set the cursor to the end of the content: the last hard line, after its last character. */
    method PlaceCursorAtEnd()
      requires TerminatorFree(content) && |content| <= printWidth
      requires !caretShown && opacity == 1.0
      modifies this
      ensures Reachable()
      ensures State() == Editor([content], 0, |content|) && fresh(cursor)
      ensures content == old(content) && caretShown == old(caretShown)
      ensures opacity == old(opacity) && renderRequests == old(renderRequests)
    {
      var lines := Split(content, HardBreak);
      ShortLineIsWrapped(content, printWidth);
      cursor := new int[2];
      cursor[0], cursor[1] := |lines| - 1, |lines[|lines| - 1]|;
    }

    /** The font-load callback: create the caret, then draw the content, which places it. */
    method FontLoaded()
      requires Valid()
      modifies this
      ensures Valid()
      ensures caretShown && caretAt == CaretCell(content, cursor[1], printWidth) && opacity == 1.0
      ensures content == old(content) && cursor == old(cursor) && renderRequests == old(renderRequests)
    {
      RenderCaret();
      RenderContent();
    }

    /** Create the caret mesh and start it blinking from full opacity. */
    method RenderCaret()
      modifies this
      ensures caretShown && opacity == 1.0
      ensures content == old(content) && cursor == old(cursor) && caretAt == old(caretAt)
      ensures renderRequests == old(renderRequests)
    {
      caretShown := true;
      AnimateBlink();
    }

    /** Redraw the text (soft breaks shown as line breaks) and place the caret. */
    method RenderContent()
      requires cursor.Length == 2
      modifies this
      ensures content == old(content) && cursor == old(cursor) && caretShown == old(caretShown)
      ensures caretShown ==> caretAt == CaretCell(content, cursor[1], printWidth)
      ensures !caretShown ==> caretAt == old(caretAt)
      ensures opacity == old(opacity) && renderRequests == old(renderRequests)
    {
      PositionCaret();
    }

    /** Place the caret, if it exists yet, at the visual row and display column. */
    method PositionCaret()
      requires cursor.Length == 2
      modifies this
      ensures content == old(content) && cursor == old(cursor) && caretShown == old(caretShown)
      ensures caretShown ==> caretAt == (Breaks(content), JsRem(cursor[1] - 1, printWidth) + 1)
      ensures !caretShown ==> caretAt == old(caretAt)
      ensures opacity == old(opacity) && renderRequests == old(renderRequests)
    {
      var row := Breaks(content);
      var col := JsRem(cursor[1] - 1, printWidth) + 1;
      if caretShown {
        caretAt := (row, col);
      }
    }

    /** Restart the blink at full opacity. */
    method AnimateBlink()
      modifies this
      ensures opacity == 1.0
      ensures content == old(content) && cursor == old(cursor)
      ensures caretShown == old(caretShown) && caretAt == old(caretAt)
      ensures renderRequests == old(renderRequests)
    {
      opacity := 1.0;
    }

    /** Replace the content, redraw, and restart the blink at full opacity. No render is requested. */
    method UpdateContent(text: string)
      requires cursor.Length == 2
      modifies this
      ensures content == text && cursor == old(cursor) && opacity == 1.0
      ensures caretShown == old(caretShown) && renderRequests == old(renderRequests)
      ensures caretShown ==> caretAt == CaretCell(text, cursor[1], printWidth)
    {
      content := text;
      RenderContent();
      AnimateBlink();
    }

    /** `#handleBackspace()`. */
    method HandleBackspace()
      requires Valid()
      modifies this, cursor
      ensures Valid()
      ensures State() == BackspaceStep(old(State()), printWidth)
      ensures cursor == old(cursor) && opacity == 1.0
      ensures caretShown == old(caretShown) && renderRequests == old(renderRequests)
    {
      var lines := Split(content, HardBreak);
      var row, col := cursor[0], cursor[1];
      ghost var after := BackspaceStep(State(), printWidth);
      BackspaceKeepsValid(State(), printWidth);
      HardLinesRoundTrip(after, printWidth);
      if col > 0 {
        cursor[1] := col - 1;
        var line := Without(lines[row], SoftBreak);
        var draft := line[..col - 1] + line[col..];
        var edited := lines[row := WrapLine(draft, printWidth)];
        assert edited == after.lines;
        UpdateContent(Join(edited, HardBreak));
      } else {
        var up := if 0 > row - 1 then 0 else row - 1;
        cursor[0] := up;
        cursor[1] := |Without(lines[up], SoftBreak)|;
        var kept := lines[..up + 1];
        assert kept == after.lines;
        UpdateContent(Join(kept, HardBreak));
      }
    }

    /** `#handleInsert(text)`. */
    method HandleInsert(text: string)
      requires Valid() && TerminatorFree(text)
      modifies this, cursor
      ensures Valid()
      ensures State() == InsertStep(old(State()), text, printWidth)
      ensures cursor == old(cursor) && opacity == 1.0
      ensures caretShown == old(caretShown) && renderRequests == old(renderRequests)
    {
      var row, col := cursor[0], cursor[1];
      var lines := Split(content, HardBreak);
      var line := Without(lines[row], SoftBreak);
      var draft := line[..col] + text + line[col..];
      var edited := lines[row := WrapLine(draft, printWidth)];
      ghost var before := State();
      InsertKeepsValid(before, text, printWidth);
      WrapLineHasNoHardBreak(draft, printWidth);
      SplitJoin(edited, HardBreak);
      cursor[1] := cursor[1] + |text|;
      UpdateContent(Join(edited, HardBreak));
    }

    /** Enter: a fresh cursor at column 0 of the next row, and a hard break at the very end of the content. */
    method HandleEnter()
      requires Valid()
      modifies this
      ensures Valid() && fresh(cursor)
      ensures State() == EnterStep(old(State()))
      ensures opacity == 1.0
      ensures caretShown == old(caretShown) && renderRequests == old(renderRequests)
    {
      var row := cursor[0];
      ghost var before := State();
      EnterKeepsValid(before, printWidth);
      cursor := new int[2];
      cursor[0], cursor[1] := row + 1, 0;
      SplitAppendSep(content, HardBreak);
      UpdateContent(content + [HardBreak]);
    }

    /**
     * `handleKeyInput(key)`: the object follows the editor step for the key,
     * keeps its invariant and reachability, and with soft breaks taken out its
     * content changes exactly as the live monitor's does.
     */
    method HandleKeyInput(key: string)
      requires Valid()
      modifies this, cursor
      ensures Valid()
      ensures State() == KeyStep(old(State()), key, printWidth)
      ensures old(Reachable()) ==> Reachable()
      ensures old(Reachable()) ==> Without(content, SoftBreak) == LiveMonitor.Typed(old(Without(content, SoftBreak)), key)
      ensures opacity == if LiveMonitor.Edits(key) then 1.0 else old(opacity)
      ensures caretShown == old(caretShown) && renderRequests == old(renderRequests)
    {
      ghost var before := State();
      ghost var wasAtEnd := AtEnd(before);
      JoinSplit(content, HardBreak);
      if key == "Backspace" {
        HandleBackspace();
      } else if key == "Enter" {
        HandleEnter();
      } else if IsInsertable(key) {
        InsertableHasNoBreak(key);
        HandleInsert(key);
      }
      JoinSplit(content, HardBreak);
      if wasAtEnd {
        KeyStepKeepsAtEnd(before, key, printWidth);
        KeyStepRefinesLiveMonitor(before, key, printWidth);
      }
    }

    /** One blink tick: toggle the caret between opaque and transparent and ask for a render. */
    method BlinkCaret()
      requires Valid()
      modifies this
      ensures Valid()
      ensures opacity == Blinked(old(opacity)) && opacity != old(opacity)
      ensures content == old(content) && cursor == old(cursor) && caretAt == old(caretAt)
      ensures renderRequests == old(renderRequests) + 1
    {
      opacity := Blinked(opacity);
      renderRequests := renderRequests + 1;
    }
  }

  /** Joining valid hard lines and splitting the result again gives the same lines. */
  lemma HardLinesRoundTrip(e: Editor, w: nat)
    requires ValidEditor(e, w)
    ensures Split(Content(e), HardBreak) == e.lines
  {
    forall i | 0 <= i < |e.lines|
      ensures HardBreak !in e.lines[i]
    {
      assert Wrapped(e.lines[i], w);
      WrapLineHasNoHardBreak(Text(e.lines[i]), w);
    }
    SplitJoin(e.lines, HardBreak);
  }

  /** The seed text has no line terminator and fits in one visual line. */
  lemma SeedFits()
    ensures TerminatorFree(Seed) && |Seed| <= PrintWidth
  {
  }

  /** A short line without terminators is one hard line that wrapping leaves alone. */
  lemma {:induction false} ShortLineIsWrapped(line: string, w: nat)
    requires w >= 1 && TerminatorFree(line) && |line| <= w
    ensures Split(line, HardBreak) == [line]
    ensures Text(line) == line && Wrapped(line, w)
  {
    assert HardBreak !in line && SoftBreak !in line by {
      assert forall i :: 0 <= i < |line| ==> !IsLineTerminator(line[i]);
    }
    SplitNoSep(line, HardBreak);
    WithoutAbsent(line, SoftBreak);
    WrapShortLine(line, w);
  }
}
