# termline: the selection cursor and the key loop, in Dafny

termline is a terminal dashboard. It shows a list of 24 fixed tasks next to
two static text panels. The keyboard moves a selection cursor through the
list, and `q` quits. This project models the part of `src/main.rs` that has
behaviour of its own:

- `stateful_list.dfy`, module `ListCursor`: the `StatefulList` cursor, a
  fixed `items` sequence and an optional `selected` index. `Next` and
  `Previous` move the selection and wrap around at either end. The index
  each one picks is the pure function `NextIndex` or `PreviousIndex`, and
  both methods call it. Lemmas prove the wraparound arithmetic against
  `(i + 1) % len` and `(i - 1) % len`. They also prove that the two moves
  undo each other, that `k` moves travel `k` places modulo the length, and
  that `len` moves return to the start.
- `app.dfy`, module `Application`: the `App` class, with its title, its
  `shouldQuit` flag and a cursor over the 24 task names. It has the
  handlers `OnUp`, `OnDown`, `OnKey` and `OnTick`.
- `main_loop.dfy`, module `MainLoop`: the body of `main`'s event loop.
  `Dispatch` is one turn of the loop and `Run` is a whole sequence of
  events. `EventLoop` is the imperative loop over an `App`, proved equal
  to `Run`, and `RunMain` runs it on a new application.

Panics are preconditions. `next` evaluates `items.len() - 1` whenever
something is selected, and `previous` evaluates it when index 0 is
selected. On an empty list both underflow, which panics in a debug build.
The methods require exactly that this does not happen (`NextPanics`,
`PreviousPanics`); they do not require a non-empty list. `App` always
holds 24 items, so its handlers never panic.

Two facts about the code are worth stating on their own.
- `next` and `previous` have no empty-list guard (src/main.rs:18, 24, 33,
  38). On an empty list `next` with any selection and `previous` with
  index 0 selected panic, and with nothing selected both select index 0,
  which names no item.
  `EmptyListIsUnguarded` states this.
- The exit on a set `should_quit` (src/main.rs:255-257) skips the terminal
  teardown that the `Char('q')` branch performs (src/main.rs:237-243). The
  model records it as `Exit(_, false)`. That exit cannot be reached: line
  236 takes `Char('q')` before `on_key` could see it, so nothing in the loop
  ever sets the flag (`NewAppNeverQuitsByFlag`).

## Model

| member | source | states |
|---|---|---|
| `ListCursor.NextIndex` | src/main.rs:15-27 | on a non-empty list the new index is in range; with no selection it is 0; from a valid index `i` it is `(i + 1) % len`, so `len - 1` wraps to 0 |
| `ListCursor.PreviousIndex` | src/main.rs:29-41 | from an in-range selection on a non-empty list the new index is in range; with no selection it is 0; from a valid index `i` it is `(i + len - 1) % len`, so 0 wraps to `len - 1` |
| `ListCursor.PreviousUndoesNext` | src/main.rs:15-41 | from any valid selection, `previous` after `next` restores it |
| `ListCursor.NextUndoesPrevious` | src/main.rs:15-41 | from any valid selection, `next` after `previous` restores it |
| `ListCursor.EmptyListIsUnguarded` | src/main.rs:15-41 | on an empty list `next` with a selection and `previous` from index 0 panic, and from no selection both select an index that names no item |
| `ListCursor.NextTimes` | src/main.rs:15-27 | after at least one `next` on a non-empty list the selection is present and in range |
| `ListCursor.PreviousTimes` | src/main.rs:29-41 | any number of `previous` calls keep an in-range selection in range |
| `ListCursor.NextTimesAdvances` | src/main.rs:15-27 | `k` calls of `next` from index `i` select `(i + k) % len` |
| `ListCursor.NextTimesLengthIsIdentity` | src/main.rs:15-27 | `len` calls of `next` return a valid selection to where it started |
| `ListCursor.PreviousTimesRetreats` | src/main.rs:29-41 | `k` calls of `previous` from index `i` select `(i - k) mod len` |
| `ListCursor.PreviousTimesLengthIsIdentity` | src/main.rs:29-41 | `len` calls of `previous` return a valid selection to where it started |
| `ListCursor.NextTimesShift` | src/main.rs:15-27 | `a + b` calls of `next` are `a` calls followed by `b` calls |
| `ListCursor.TwentyFourItemWalk` | src/main.rs:15-48 | on 24 items with nothing selected, the first `next` selects 0, the 24th selects 23 and the 25th wraps to 0; `previous` from 0 selects 23 |
| `ListCursor.StatefulList.WithItems` | src/main.rs:8-13 | `with_items` keeps exactly the given items and selects nothing |
| `ListCursor.StatefulList.Next` | src/main.rs:15-27 | the new selection is `NextIndex` of the old one, and on a non-empty list it is in range; the items are unchanged |
| `ListCursor.StatefulList.Previous` | src/main.rs:29-41 | the new selection is `PreviousIndex` of the old one, and it stays in range on a non-empty list; the items are unchanged |
| `Application.App.New` | src/main.rs:44-62 | `App::new` keeps the title, does not quit, holds the 24 fixed tasks and selects nothing |
| `Application.App.OnUp` | src/main.rs:64-66 | `on_up` is `previous` on the tasks, keeps the selection in range and leaves `should_quit` alone |
| `Application.App.OnDown` | src/main.rs:68-70 | `on_down` is `next` on the tasks, leaves the selection in range and leaves `should_quit` alone |
| `Application.App.OnKey` | src/main.rs:72-79 | `'q'` sets `should_quit` whatever the prior state; any other character changes nothing; the flag never goes back to false; the list is untouched |
| `Application.App.OnTick` | src/main.rs:81-83 | `on_tick` changes nothing |
| `MainLoop.Dispatch` | src/main.rs:234-257 | one turn of the loop, forwarding every event other than `'q'` to its handler through the helper `Handle`: the loop ends after an event exactly when the key was `'q'` or `should_quit` is set; only the `'q'` exit restores the terminal; `'q'` leaves the state as it was; dispatch never changes the quit flag; a valid selection stays valid |
| `MainLoop.DispatchMovesOnlyOnArrows` | src/main.rs:235-253 | `Up` is `previous`, `Down` is `next`, and every other key and `Tick` leave the state unchanged |
| `MainLoop.Run` | src/main.rs:232-258 | a run that ends consumes between one event and all of them, and its last event is `'q'` or the flag was already set; the quit flag is what it was at the start |
| `MainLoop.RunStopsAtFirstQuitKey` | src/main.rs:232-258 | starting without the quit flag, the loop ends exactly when a `'q'` arrives; it ends at the first `'q'` and restores the terminal first |
| `MainLoop.NewAppNeverQuitsByFlag` | src/main.rs:228-258 | from a new application the quit flag is never set, so every exit goes through the `'q'` branch with teardown |
| `MainLoop.RunKeepsSelectionInRange` | src/main.rs:232-258 | however many events are processed, a valid selection stays valid |
| `MainLoop.EventLoop` | src/main.rs:232-258 | the imperative loop over an `App` returns what `Run` gives from the app's starting state, and leaves the app in the state that result names |
| `MainLoop.RunMain` | src/main.rs:228-258 | `main` on a new application gives what `Run` gives from the initial state, and it leaves the loop exactly when a `'q'` arrives |

## Left out

- Rendering (`draw`, `draw_term_output`, `draw_term_input`, src/main.rs:97-173). It lays out and styles widgets of the external `tui` library and has no behaviour of its own to state. The model also drops the draw call at the top of each loop turn.
- `ListState` state other than the selected index, such as the scroll offset that the rendering library keeps.
- Terminal setup and teardown through crossterm (raw mode, alternate screen, mouse capture, showing the cursor), together with their I/O errors. The quit branch is modelled as "teardown, then leave the loop" (`teardown == true`), and the teardown always succeeds.
- The input thread, the `mpsc` channel and the 200 ms tick timing (src/main.rs:206-226). They are concurrency and wall-clock time. The loop consumes a finite sequence of events instead. A run that uses up the sequence without quitting is `Running`, which stands for the real loop blocking in `recv`. A failed `recv` is not modelled.
- Key modifiers and the other crossterm key codes. Only `Char`, `Up` and `Down` are told apart. Every other code is `Other`, and the loop ignores it.
- The `title` string beyond being stored, and the static paragraph texts: they are display data.
- `usize` width: indices are `nat`. This loses nothing, because `i + 1` is only computed when `i < len - 1`.
- ListCursor.StatefulList.Next and ListCursor.StatefulList.Previous model the debug-build panic on an empty list as a precondition. A release build would wrap `len - 1` to `usize::MAX` instead, and that is not modelled.
