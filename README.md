# Tab navigator overlay, modelled in Dafny

This project models the tab navigator overlay of wezterm's GUI front end
(`src/frontend/gui/overlay.rs`). The navigator is a blocking routine that
owns a virtual terminal handle for as long as it runs. It shows the tabs of
a window as a numbered list and highlights the selected line in reverse
video. It moves the selection with `k`/Up and `j`/Down. On Enter it asks
the UI thread to activate the selected tab and stops. On Escape it stops
with no effect. It also stops when the input stream ends.

Files:

- `terminal.dfy`, module `Termwiz`: the termwiz change vocabulary
  (`Title`, `ClearScreen`, `CursorPosition`, `Text`, `AllAttributes`,
  `Attribute(Reverse(b))`) and the input events. It also holds an abstract
  terminal handle, class `Terminal`. The handle records every rendered batch
  and hands out poll results from a given sequence. It rejects batches after
  an optional limit, which stands for a torn-down display sink.
- `overlay.dfy`, module `Overlay`: the navigator itself.
  - `InitialIndex` gives the starting selection.
  - `SaturatingDec` and `ClampedInc` are the two moves.
  - `RenderChanges` and `Render` are the nested `render`.
  - `Loop` and `Navigate` specify the polling loop one poll result at a
    time.
  - `TabNavigator` is the imperative loop over a `Terminal`. It is proved to
    end in exactly the state `Navigate` describes.
- `navigator_properties.dfy`, module `NavigatorProperties`: what the
  navigator promises, proved about `Frame`, `Loop` and `Navigate`.

The Enter branch spawns a closure onto the main thread. The model replaces
that closure with a returned request, `Activation(window, index)`. The way a
run ends is an `Exit`:

- `Cancelled`, `Confirmed` and `InputEnded` stand for `Ok(())`.
- `RenderFailed` stands for the error that `?` propagates when the terminal
  rejects a batch: the title batch (line 89) or a frame from `render`.
- `Underflow` stands for the arithmetic-overflow panic of `tab_list.len() - 1`
  when Down is pressed on an empty list.

The code does not guard against an empty list; the model follows the code
(see `Underflow`).

## Model

| member | source | states |
|---|---|---|
| `Overlay.FindTab` | src/frontend/gui/overlay.rs:50-52 | the found position holds the tab id and no earlier entry does; None only when no entry has the id |
| `Overlay.InitialIndex` | src/frontend/gui/overlay.rs:50-53 | the starting selection is the first position whose id is the current tab id, or 0 when the id is not listed; on a non-empty list it is in range |
| `Overlay.SaturatingDec` | src/frontend/gui/overlay.rs:103 | the Up move never goes below 0 and never wraps: it takes one off a positive selection and keeps 0 at 0 |
| `Overlay.ClampedInc` | src/frontend/gui/overlay.rs:114 | the Down move underflows exactly on an empty list; otherwise the result is at most one past the selection and at most `len - 1`, and equals one of the two |
| `Overlay.Classify` | src/frontend/gui/overlay.rs:94-138 | an event is a move up exactly when it is the key `k` or Up, a move down exactly when it is `j` or Down, a cancel exactly when it is Escape, and a confirm exactly when it is Enter; modifiers are not looked at and every other event is ignored |
| `Overlay.DecimalString` | src/frontend/gui/overlay.rs:79 | the line number is written as a non-empty string of decimal digits, with no leading zero unless the number is 0 |
| `Overlay.Label` | src/frontend/gui/overlay.rs:79 | a list line is four characters longer than its number's digits and its title together |
| `Overlay.LabelLayout` | src/frontend/gui/overlay.rs:79 | a list line reads: the number in decimal, `". "`, the title, then CR LF |
| `Overlay.Line` | src/frontend/gui/overlay.rs:75-83 | an entry's changes are its label alone, or, for the selected entry, the label between `Reverse(true)` and `Reverse(false)` |
| `Overlay.Frame` | src/frontend/gui/overlay.rs:61-84 | a frame is four header changes (clear screen, cursor home, the instructions, default attributes), then one change per entry, plus two when the selection is in range |
| `Overlay.RenderChanges` | src/frontend/gui/overlay.rs:61-84 | the vector pushed in the loop is exactly the frame: header, then one line per entry, with the selected one bracketed by reverse video |
| `Overlay.Render` | src/frontend/gui/overlay.rs:55-87 | `render` appends exactly one frame for the given selection to the terminal's log when the terminal accepts it, and otherwise fails and changes nothing |
| `Overlay.Loop` | src/frontend/gui/overlay.rs:93-140 | the polling loop leaves a rest no longer than the input, and only ever appends to the log: the log it started with is a prefix of the log it ends with (that the rest is a suffix of the input is `LoopLeavesSuffix`, used by `LoopConsumesPrefix`) |
| `Overlay.Navigate` | src/frontend/gui/overlay.rs:50-142 | a whole run leaves some of the input unconsumed, at most all of it, and keeps every batch rendered before it as a prefix of the log |
| `Overlay.TabNavigator` | src/frontend/gui/overlay.rs:40-143 | the polling loop leaves the terminal's log, the unconsumed input, the activation request and the exit exactly as `Navigate` specifies |
| `Termwiz.Terminal.Render` | src/frontend/gui/overlay.rs:86 | the terminal handle records an accepted batch after those already rendered, and rejects it without a change once its limit is reached |
| `Termwiz.Terminal.PollInput` | src/frontend/gui/overlay.rs:93 | polling hands out the next poll result and removes it, and reports the end of the stream once the input is exhausted |
| `NavigatorProperties.DecimalRoundTrip` | src/frontend/gui/overlay.rs:79 | the printed line number reads back as the number printed |
| `NavigatorProperties.LabelNumber` | src/frontend/gui/overlay.rs:79 | each list line starts with the decimal form of its 1-based number |
| `NavigatorProperties.FrameLayout` | src/frontend/gui/overlay.rs:61-84 | a frame starts with ClearScreen, CursorPosition(0,0), the instruction text and default attributes; its texts are the instructions followed by one label per entry, in list order; reverse video is switched on once when the selection is in range and never otherwise |
| `NavigatorProperties.FrameLines` | src/frontend/gui/overlay.rs:74-84 | where each change of a frame sits: with the selection out of range, entry `i`'s label is change `4 + i`; with it in range, `Reverse(true)`, the selected label and `Reverse(false)` are changes `4 + active` to `6 + active`, the labels before them are at `4 + i` and those after at `6 + i` |
| `NavigatorProperties.FrameHighlightRoundTrip` | src/frontend/gui/overlay.rs:74-83 | reading the reverse-video line back from a rendered frame gives the selection for every selection in range, and no line when it is out of range |
| `NavigatorProperties.LoopConsumesPrefix` | src/frontend/gui/overlay.rs:93-140 | the loop consumes a prefix of the input; every consumed poll result but the last is a move or an ignored event; the last one explains the exit (Escape, Enter, end or error of the stream, a move whose render was rejected, Down on an empty list) |
| `NavigatorProperties.TerminatorDecides` | src/frontend/gui/overlay.rs:117-136 | the first Escape or Enter ends the run (unless a render failed or Down underflowed before it), and no poll result after it is consumed |
| `NavigatorProperties.RequestOnlyOnConfirm` | src/frontend/gui/overlay.rs:123-136 | an activation is requested exactly when the run ends on Enter, and it carries the window and the selection at that moment; Escape and the end of input request none |
| `NavigatorProperties.SelectionStaysInRange` | src/frontend/gui/overlay.rs:95-116 | on a non-empty list a selection that starts in `[0, len-1]` stays there through any input, and Down never underflows |
| `NavigatorProperties.UnlimitedNeverFails` | src/frontend/gui/overlay.rs:104-115 | with a terminal that accepts every batch, the loop never ends in a render failure |
| `NavigatorProperties.OneRenderPerMove` | src/frontend/gui/overlay.rs:93-140 | the loop only appends to the log, and what it appends is, in order, the frame of the selection after each consumed move (`Renders`); the move whose render is rejected, Down on an empty list and every other poll result add nothing |
| `NavigatorProperties.RendersOnePerMove` | src/frontend/gui/overlay.rs:103-115 | on a non-empty list every move renders exactly one frame: the frames for a sequence of poll results number as many as its moves |
| `NavigatorProperties.ScreenShowsSelection` | src/frontend/gui/overlay.rs:103-115 | if the last batch showed the selection before the loop, the last batch shows the final selection after it, unless the final render was rejected |
| `NavigatorProperties.IgnoredEventsChangeNothing` | src/frontend/gui/overlay.rs:138 | events the navigator does not act on leave the selection, the log and the outcome as if they had not been polled |
| `NavigatorProperties.UpPresses` | src/frontend/gui/overlay.rs:95-105 | `n` presses of k/Up move the selection to `max(idx - n, 0)` and render once each, even at 0 |
| `NavigatorProperties.DownPresses` | src/frontend/gui/overlay.rs:106-116 | on a non-empty list, `n` presses of j/Down move the selection to `min(idx + n, len - 1)` and render once each |
| `NavigatorProperties.EmptyListDownUnderflows` | src/frontend/gui/overlay.rs:103-116 | on an empty list, after any Up presses and ignored events (the selection staying 0), the first Down panics on `len() - 1`: nothing after it is consumed and no activation is requested |
| `NavigatorProperties.NavigatorStarts` | src/frontend/gui/overlay.rs:89-91 | a run whose first two batches are accepted renders, after the batches already in the log, the batch `[Title("Tab Navigator")]` and then a full frame at the initial selection |
| `NavigatorProperties.NavigatorSelection` | src/frontend/gui/overlay.rs:50-136 | on a non-empty list a whole run keeps the selection in range and never panics; it returns `Ok(())` unless a render failed; it requests an activation exactly when it ends on Enter, and that activation names a listed position in this window |
| `NavigatorProperties.NavigatorShowsSelection` | src/frontend/gui/overlay.rs:89-115 | after a run on a non-empty list that did not fail to render, the last batch highlights the final selection |

## Left out

- `start_overlay` (src/frontend/gui/overlay.rs:13-38) is left out: it spawns a worker thread, builds a future and schedules the overlay's teardown on the UI thread. That is cross-thread sequencing. Its collaborators (`allocate`, `spawn_into_new_thread`, `TermWindow::schedule_cancel_overlay`) are not part of this model.
- The body of the closure spawned on Enter (src/frontend/gui/overlay.rs:127-135) is left out: the `Mux` lookup, the "no such window" error and `set_active` run later on the UI thread against a global that is not part of this model. The model returns the request `Activation(window, index)` in its place.
- termwiz internals are not part of this model: `TermWizTerminal::render` only records the batch, and `poll_input` hands out a given finite sequence of poll results. Blocking, screen contents and timing are not modelled.
- A render failure is modelled abstractly: the terminal accepts a fixed number of batches and rejects every later one.
- `CellAttributes` is reduced to its reverse-video flag, the only attribute the navigator sets.
- Key modifiers are carried on key events but, as in the source's `..` patterns, never looked at.
- `Overlay.ClampedInc`: `len() - 1` on an empty list is modelled as the panic that Rust raises with overflow checks on, which is the default for debug builds. A build with overflow checks off wraps `len() - 1` to `usize::MAX` instead; on an empty list every Down then adds one to the selection (1, 2, 3, …), and that is not modelled.
- `usize` overflow of `idx + 1` is not modelled, because the selection never exceeds the list length.
