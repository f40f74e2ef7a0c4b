# keyboard-demo core in Dafny

This project models the logic of a 3D keyboard demo: a keyboard model whose
keys move down and up, and a monitor that shows what is typed.

**Keyboard.** Key meshes are registered under the event code at the end of
their name (`Row1-KeyA` is stored as `KeyA`). Physical `keydown`/`keyup`
events press and release keys by code. A click walks from the meshes under
the pointer up to a key of a keyboard row. It presses that key and gives
the key's character to the input listeners. The next pointer-up releases
the key.

**Monitors.** There are two.
- The wrapping monitor in `src/objects/monitor.ts` keeps a `(row, column)`
  cursor. It soft-wraps every hard line at 55 characters with U+2028.
- The monitor in `src/lib/monitor.ts` is append-only.

Both monitors accept the same keys, start from the same seed text, and
blink the caret between opacity 1 and 0.

Modules:

- `Wrappers`: `Option`.
- `Strings`: the JavaScript string operations the source relies on.
  - `split`/`join` on one character.
  - Removing every occurrence of a character.
  - Counting line breaks.
  - `startsWith`.
  - `replace` with a string pattern, which replaces only the first occurrence.
  - ASCII lower-casing.
  - Line terminators as the regular-expression `.` sees them: `\n`, `\r`,
    U+2028 and U+2029.
- `MonitorCommon`: the key filter `/^[\w`~!@#$%^&*()_+-=\[\]{}\\|'"<>? ]$/`,
  the seed text and the blink step. `+-=` in that class is a range, so the
  class is exactly printable ASCII.
- `LiveMonitor`: `src/lib/monitor.ts` as a class `Monitor`. The pure
  function `Typed` states what one key does to the content.
- `TextBuffer`: `src/objects/monitor.ts`.
  - `wrapLine`, with JavaScript's global-regex semantics.
  - An `Editor` value (hard lines, row, column) and the pure step functions
    `InsertStep`, `BackspaceStep`, `EnterStep` and `KeyStep`.
  - The caret's row and column, with JavaScript's truncating `%`.
  - A class `Monitor` whose content string, cursor array and caret state
    the methods update in place. Each method is proved against the step
    functions.
- `Keyboard`: `src/objects/keyboard.ts`.
  - The key-name decoder `ToKeyCharacter`.
  - Registration as a fold, `RegisterAll`.
  - The ancestor walk `FindKey`, proved against the recursive `FirstKey`
    and the self-to-root chain `Ancestry`.
  - A class `Keyboard` with the code map, the down keys, the pressing set,
    the pending pointer-up releases and the listeners.

The wrapping monitor's constructor puts the cursor at the end of the last
hard line. Every key keeps it there (`KeyStepKeepsAtEnd`). While it stays
there, the wrapping monitor with soft breaks removed types exactly what the
append-only monitor types (`KeyStepRefinesLiveMonitor`, and the last
clause of `TextBuffer.Monitor.HandleKeyInput`).

## Model

| member | source | states |
|---|---|---|
| MonitorCommon.KeyClassIsPrintableAscii | src/objects/monitor.ts:231 | a character passes the key class exactly when it lies between ' ' and '~', because `+-=` is a range |
| MonitorCommon.InsertableHasNoBreak | src/objects/monitor.ts:231 | a key that passes the filter is one character and never a line break, "Backspace" or "Enter" |
| MonitorCommon.Blinked | src/objects/monitor.ts:165-173 | a blink tick gives opacity 0 or 1; 1 becomes 0 and 0 becomes 1 |
| MonitorCommon.BlinkTwiceRestores | src/lib/monitor.ts:160-167 | two blink ticks restore an opacity of 0 or 1 |
| Strings.RemoveFirstAtStart | src/objects/keyboard.ts:157 | `replace(p, "")` on a string that starts with `p` drops exactly that prefix |
| Strings.RemoveFirstAbsent | src/objects/keyboard.ts:157 | `replace(p, "")` leaves a string unchanged when `p` does not occur in it |
| Strings.Lower | src/objects/keyboard.ts:157 | lower-casing keeps the length and maps each character on its own, 'A'-'Z' to 'a'-'z' |
| LiveMonitor.CaretCell | src/lib/monitor.ts:125-132 | the caret is placed from the length of the last hard line and the number of hard lines, which is at least one |
| LiveMonitor.BackspaceDropsLast | src/lib/monitor.ts:64-68 | Backspace removes exactly the last character; empty content stays empty |
| LiveMonitor.TypedThenErased | src/lib/monitor.ts:64-78 | a typed character or hard break is undone by one Backspace |
| LiveMonitor.OtherKeysIgnored | src/lib/monitor.ts:76-78 | a key other than Backspace, Enter or one allowed character leaves the content unchanged |
| LiveMonitor.CaretAfterCharacter | src/lib/monitor.ts:125-132 | after a typed character the caret is one column further right on the same row |
| LiveMonitor.CaretAfterEnter | src/lib/monitor.ts:125-132 | after Enter the caret is at column 0 of one more row |
| LiveMonitor.CaretAfterBackspace | src/lib/monitor.ts:125-132 | Backspace moves the caret one column left, or, after erasing a hard break, to the end of the row above |
| LiveMonitor.Monitor.constructor | src/lib/monitor.ts:15 | the seed text, no caret yet, opacity 1, no renders |
| LiveMonitor.Monitor.FontLoaded | src/lib/monitor.ts:54-58 | after the font loads, the caret exists, sits at the cell the content dictates, and is fully opaque |
| LiveMonitor.Monitor.DisplayCaret | src/lib/monitor.ts:134-143 | creating the caret starts the blink at opacity 1 and leaves the text alone |
| LiveMonitor.Monitor.DrawScreen | src/lib/monitor.ts:82-116 | a redraw places an existing caret at the cell the content dictates |
| LiveMonitor.Monitor.PositionCaret | src/lib/monitor.ts:125-132 | an existing caret goes to the end of the last hard line; without a caret nothing moves |
| LiveMonitor.Monitor.AnimateBlink | src/lib/monitor.ts:145-153 | a blink restart sets opacity 1 and nothing else |
| LiveMonitor.Monitor.UpdateContent | src/lib/monitor.ts:118-123 | the content becomes the new text, the caret follows it, and opacity ends at 1 |
| LiveMonitor.Monitor.HandleKeyDown | src/lib/monitor.ts:61-79 | the content becomes `Typed(old content, key)`; opacity is reset to 1 exactly when the key edits |
| LiveMonitor.Monitor.BlinkCaret | src/lib/monitor.ts:160-167 | one tick flips opacity between 0 and 1 and asks for exactly one render |
| TextBuffer.Run | src/objects/monitor.ts:236-240 | a `.{1,w}` attempt takes at most `w` characters, none a line terminator, and stops early only at a terminator |
| TextBuffer.Matches | src/objects/monitor.ts:236-240 | every match of the global `.{1,w}` holds 1 to `w` characters and no line terminator |
| TextBuffer.MatchesConcat | src/objects/monitor.ts:236-240 | on a line without terminators the matches concatenate back to the line |
| TextBuffer.MatchesFull | src/objects/monitor.ts:236-240 | on a line without terminators every match except the last has exactly `w` characters |
| TextBuffer.MatchesCount | src/objects/monitor.ts:236-240 | a line of `n > 0` characters yields `(n-1)/w + 1` matches, and an empty line none |
| TextBuffer.WrapLineHasNoHardBreak | src/objects/monitor.ts:236-240 | a wrapped line never contains '\n' |
| TextBuffer.WrapRoundTrip | src/objects/monitor.ts:236-240 | removing U+2028 from a wrapped terminator-free line gives the line back |
| TextBuffer.WrapIdempotent | src/objects/monitor.ts:204-213 | unwrapping and re-wrapping a wrapped line gives the same wrapped line |
| TextBuffer.WrapLineBreaks | src/objects/monitor.ts:236-240 | wrapping a line of `n` characters inserts `(n-1)/w` soft breaks, none for an empty line |
| TextBuffer.WrapShortLine | src/objects/monitor.ts:236-240 | a terminator-free line of at most `w` characters wraps to itself; the empty line wraps to "" |
| TextBuffer.WrapExample | src/objects/monitor.ts:236-240 | four terminator-free characters at width 3 wrap to the first three, U+2028, and the fourth |
| TextBuffer.WrappedDraft | src/objects/monitor.ts:204-213 | a re-wrapped draft unwraps to the draft, is in wrapped form and holds no hard break |
| TextBuffer.InsertKeepsValid | src/objects/monitor.ts:204-216 | insertion keeps the cursor in range and every line wrapped; it adds `\|text\|` to the column, keeps the row and the line count, splices the text into the row's text at the column, and leaves every other hard line unchanged |
| TextBuffer.BackspaceKeepsValid | src/objects/monitor.ts:181-202 | Backspace keeps the cursor in range and every line wrapped |
| TextBuffer.EnterKeepsValid | src/objects/monitor.ts:223-228 | Enter keeps the cursor in range and every line wrapped |
| TextBuffer.KeyStepKeepsValid | src/objects/monitor.ts:218-233 | every key keeps the editor invariant |
| TextBuffer.InsertThenBackspace | src/objects/monitor.ts:181-216 | inserting one character and then pressing Backspace restores the editor exactly |
| TextBuffer.KeyStepKeepsAtEnd | src/objects/monitor.ts:218-233 | a cursor at the end of the last hard line stays there after any key |
| TextBuffer.BackspaceAtOriginReachable | src/objects/monitor.ts:190-199 | with the cursor at the end of the text at (0,0), so the only hard line is empty, Backspace changes nothing |
| TextBuffer.BackspaceAtOriginTruncates | src/objects/monitor.ts:190-199 | for every valid editor at (0,0) with later hard lines, Backspace drops them and moves to the end of line 0, so the editor changes |
| TextBuffer.KeyStepRefinesLiveMonitor | src/objects/monitor.ts:218-233 | from a cursor at the end, every key changes the unwrapped content exactly as the append-only monitor changes its content |
| TextBuffer.InsertRefines | src/objects/monitor.ts:204-216 | at the end, insertion appends the text to the unwrapped content |
| TextBuffer.EnterRefines | src/objects/monitor.ts:223-228 | Enter appends a hard break to the unwrapped content |
| TextBuffer.BackspaceRefines | src/objects/monitor.ts:181-202 | at the end, Backspace removes the last character of the unwrapped content |
| TextBuffer.EraseCharRefines | src/objects/monitor.ts:183-189 | with the column past 0, Backspace removes the last unwrapped character |
| TextBuffer.EraseBreakRefines | src/objects/monitor.ts:190-199 | at column 0 below the first line, Backspace removes the final hard break |
| TextBuffer.JsRem | src/objects/monitor.ts:141 | truncating `%`: it agrees with the mathematical remainder on non-negative operands and is zero or negative on negative ones |
| TextBuffer.JsRemOdd | src/objects/monitor.ts:141 | truncating `%` is odd in its left operand |
| TextBuffer.DisplayColumnRange | src/objects/monitor.ts:138-141 | for a positive column the display column lies in 1..w and equals `(col-1) % w + 1` |
| TextBuffer.DisplayColumnWithinWidth | src/objects/monitor.ts:138-141 | a column from 1 to w is displayed unchanged; the caret does not roll over at the width |
| TextBuffer.DisplayColumnAtZero | src/objects/monitor.ts:141 | column 0 is displayed at 0 when the width is at least 2, since `-1 % w` is -1 |
| TextBuffer.DisplayColumnPeriodic | src/objects/monitor.ts:138-141 | the display column repeats with period w |
| TextBuffer.LastChunkLength | src/objects/monitor.ts:138-141 | at the end of a non-empty line, the display column is the length of its last visual row |
| TextBuffer.BreaksInWrapped | src/objects/monitor.ts:137 | the wrapped lines together hold as many soft breaks as their wrapping adds |
| TextBuffer.VisualRowOfValid | src/objects/monitor.ts:137 | the caret row counts every hard break plus every soft break of the wrapped lines |
| TextBuffer.Monitor.constructor | src/objects/monitor.ts:53-56 | the seed text, cursor at the end of its single line, no caret, opacity 1 |
| TextBuffer.Monitor.PlaceCursorAtEnd | src/objects/monitor.ts:53-56 | the cursor is set to (last hard line, its length), which establishes the editor invariant |
| TextBuffer.Monitor.FontLoaded | src/objects/monitor.ts:47-50 | after the font loads, the caret exists, sits at (visual row, display column), and is fully opaque |
| TextBuffer.Monitor.RenderCaret | src/objects/monitor.ts:125-134 | creating the caret starts the blink at opacity 1 and leaves text and cursor alone |
| TextBuffer.Monitor.RenderContent | src/objects/monitor.ts:82-116 | a redraw places an existing caret at (visual row, display column) |
| TextBuffer.Monitor.PositionCaret | src/objects/monitor.ts:136-148 | the caret row counts every '\n' and U+2028 in the content; the column is `((col-1) % 55) + 1` with truncating `%` |
| TextBuffer.Monitor.AnimateBlink | src/objects/monitor.ts:150-158 | a blink restart sets opacity 1 and nothing else |
| TextBuffer.Monitor.UpdateContent | src/objects/monitor.ts:118-123 | the content becomes the text, the cursor is kept, the caret follows, and opacity ends at 1 |
| TextBuffer.Monitor.HandleBackspace | src/objects/monitor.ts:181-202 | the split content and cursor become `BackspaceStep` of the old ones, and the invariant holds |
| TextBuffer.Monitor.HandleInsert | src/objects/monitor.ts:204-216 | the split content and cursor become `InsertStep` of the old ones, and the invariant holds |
| TextBuffer.Monitor.HandleEnter | src/objects/monitor.ts:223-228 | a new cursor at (row+1, 0) and a hard break appended to the content |
| TextBuffer.Monitor.HandleKeyInput | src/objects/monitor.ts:218-233 | the state becomes `KeyStep` of the old state; from a cursor at the end it stays at the end, and the unwrapped content changes as the append-only monitor's does |
| TextBuffer.Monitor.BlinkCaret | src/objects/monitor.ts:165-173 | one tick flips opacity between 0 and 1 and asks for exactly one render |
| Keyboard.FirstDashMatch | src/objects/keyboard.ts:152 | the leftmost dash followed by no line terminator up to the end, where `-(.*)$` matches |
| Keyboard.KeySuffix | src/objects/keyboard.ts:152-154 | a code, when present, is non-empty and terminator-free, and the name ends in '-' followed by it |
| Keyboard.NoDashNoCode | src/objects/keyboard.ts:152-154 | a name without '-' carries no code |
| Keyboard.CodeAfterFirstDash | src/objects/keyboard.ts:152-154 | the code is everything after the first dash; nothing after it means no code |
| Keyboard.ToKeyCharacter | src/objects/keyboard.ts:151-176 | there is a character exactly when the name carries a code |
| Keyboard.LetterKey | src/objects/keyboard.ts:156-158 | `…-KeyA` to `…-KeyZ` give the lower-case letter |
| Keyboard.DigitKey | src/objects/keyboard.ts:156-158 | `…-Digit0` to `…-Digit9` give the digit |
| Keyboard.PunctuationKey | src/objects/keyboard.ts:160-174 | a punctuation code gives the character the table lists for it |
| Keyboard.PunctuationCodeShape | src/objects/keyboard.ts:160-174 | the table's codes are ASCII words of at least five letters and never start with "Key" or "Digit" |
| Keyboard.OtherKey | src/objects/keyboard.ts:160-175 | any other code, such as `Enter` or `ShiftLeft`, is returned unchanged |
| Keyboard.BareKeyIsEmpty | src/objects/keyboard.ts:156-158 | the code "Key" gives the empty string |
| Keyboard.ClickedCharactersAreTypeable | src/objects/keyboard.ts:127-132 | letter, digit and punctuation keys give one character that the monitors' key filter accepts |
| Keyboard.RegisterAllKeepsRegistered | src/objects/keyboard.ts:30-47 | every stored key has computed positions and a name carrying the code it is stored under |
| Keyboard.RegisterFailsOnNameless | src/objects/keyboard.ts:32-33 | the load callback aborts exactly when some key has no name |
| Keyboard.RegisterLastWins | src/objects/keyboard.ts:30-47 | each code maps to the last key carrying it, other codes keep their mesh, and exactly the keys with a code get positions |
| Keyboard.Climb | src/objects/keyboard.ts:105-112 | the climb from one hit yields only a node whose parent's name starts with "Row" |
| Keyboard.ClimbFindsFirstRowKey | src/objects/keyboard.ts:105-112 | the climb yields the first row key on the self-to-root chain, or null when the chain has none |
| Keyboard.FirstKey | src/objects/keyboard.ts:102-116 | the result is always a row key |
| Keyboard.FirstKeyIsFirstSuccess | src/objects/keyboard.ts:102-116 | the result comes from the first hit whose climb succeeds, and is null exactly when no climb succeeds |
| Keyboard.FindKey | src/objects/keyboard.ts:93-117 | the nested loops return exactly `FirstKey(hits)` |
| Keyboard.Keyboard.constructor | src/objects/keyboard.ts:8-11 | an empty code map, no pressed keys, no listeners |
| Keyboard.Keyboard.KeyObject | src/objects/keyboard.ts:85-87 | the lookup finds a mesh exactly when the code is stored; the mesh found is the stored one, has computed positions, and carries that code in its name |
| Keyboard.Keyboard.SetupModel | src/objects/keyboard.ts:22-52 | the map and the positioned keys become `RegisterAll` over the rows in order; one render, or none when a nameless key aborts |
| Keyboard.Keyboard.RegisterRow | src/objects/keyboard.ts:31-46 | one row's keys are registered in order; a nameless key marks the load aborted, and later keys change nothing |
| Keyboard.Keyboard.PressObject | src/objects/keyboard.ts:54-62 | a key with computed positions goes down with one render; any other throws and changes nothing |
| Keyboard.Keyboard.ReleaseObject | src/objects/keyboard.ts:64-72 | a key with computed positions goes up with one render; any other throws and changes nothing |
| Keyboard.Keyboard.PressKey | src/objects/keyboard.ts:74-78 | an unknown code changes nothing and asks for no render; a stored code puts its key down and renders once |
| Keyboard.Keyboard.ReleaseKey | src/objects/keyboard.ts:80-82 | an unknown code changes nothing and asks for no render; a stored code puts its key up and renders once |
| Keyboard.Keyboard.OnInput | src/objects/keyboard.ts:144-146 | the listener joins the listener set |
| Keyboard.Keyboard.PointerDown | src/objects/keyboard.ts:119-141 | no key hit changes nothing; a hit key joins the pressing set and is pressed; its non-empty character reaches the listeners; a release is registered unless pressing or decoding threw |
| Keyboard.Keyboard.PointerUp | src/objects/keyboard.ts:134-139 | each pending release runs once: its key leaves the pressing set and goes up; one render per release |

## Left out

- Rendering is left out: three.js scenes, meshes, geometry, materials, fonts, the camera and the renderer. A render request is a counter. Key positions are reduced to whether a key has computed positions and whether it is down. Caret coordinates are the integer (row, column) they are computed from. Floating-point screen coordinates are not modelled.
- Asynchronous loading is left out. The model-load and font-load callbacks are methods the caller invokes. The rows of "Keys" are a parameter; a missing "Keys" object is an empty row list.
- Raycasting and pointer coordinates are left out. `FindKey` and `PointerDown` take the hit list in ray order as a parameter.
- Timers are left out: `setInterval`, `clearInterval` and the stored interval id. Each blink tick is a call to `BlinkCaret`. `stopBlink` has no observable effect in the model.
- DOM listener registration is left out. The keydown, keyup, pointerdown and pointerup handlers are methods. Listener callbacks are opaque identifiers, and a delivered character is recorded once, not once per listener. Set iteration order is not modelled.
- `console.log` is left out.
- `src/main.ts`, `src/scenes/keyboard.ts` and the build setup are not part of this model.
- Strings are sequences of characters, not UTF-16 code units. Lower-casing is ASCII only; locale rules are not modelled.
- A code that names an `Object.prototype` property (such as `constructor`) would hit the prototype in the code map and the punctuation table. This is not modelled: both are plain maps.
- Scene-graph nodes are immutable values, so a node is identified by its value and re-parenting is not modelled.
- TextBuffer.Monitor.PlaceCursorAtEnd: requires a terminator-free content of at most one print width. That is what makes the cursor init establish the invariant. The constructor calls it only on the seed text.
- TextBuffer.Monitor.HandleInsert: requires the inserted text to be terminator-free. `handleKeyInput` only inserts keys that pass the filter.
- TextBuffer.Monitor.HandleKeyInput: connects to the append-only monitor only from a cursor at the end of the content. That is every state reachable from the constructor.
- Three behaviours of the code to note. The model follows the code in each:
  - Backspace at (0,0) is not always a no-op. When later hard lines exist, it drops them and moves the cursor to the end of line 0 (`BackspaceAtOriginTruncates`). On a single non-empty line, it moves the cursor to the end of that line. Both cases need a cursor that is not at the end of the last hard line. The constructor and the keys never produce such a state (`KeyStepKeepsAtEnd`), so in every reachable state Backspace at (0,0) is a no-op (`BackspaceAtOriginReachable`).
  - The caret row counts every hard and soft break in the whole content, not only those before the cursor. In every reachable state the cursor is at the end of the content, so the two counts are equal.
  - The constructor measures the last hard line with its soft breaks. Backspace measures it without them. The seed has none, so the two agree.
