# pomoCLI timer state machine in Dafny

pomoCLI is a terminal Pomodoro timer built on the bubbletea framework. Its core is one
state value, `model`, and three operations on it, all in `main.go`:

- `initialModel` builds the starting state. Study lasts 3 s, a break 2 s and a big break 10 s.
- `Update` takes the state and a message (a key press or a clock tick). It returns the next
  state and a command for the runtime: none, quit, or "send a tick in one second".
- `View` turns the state into the status text.

This project models these operations as pure functions over a `Model` datatype and proves
what they do, one transition at a time and over any sequence of messages.

Files:

- `goint.dfy` (module `GoInt`): Go's truncating `%` and int64 wrap-around.
- `timer.dfy` (module `Timer`): the state, the messages and commands, `InitialModel`,
  `Update`, and one lemma per branch of `Update`.
- `session.dfy` (module `Session`): `Run` feeds a message sequence through `Update`.
  The module holds the invariant that every sequence keeps, and the study/break rhythm that
  ticks alone produce from the starting state.
- `render.dfy` (module `Render`): `View`, Go's `%v` printing of the cycle count, and a reader
  that recovers the phase from the status text.

Durations are `time.Duration` values: whole nanoseconds, held in an `int`. The tick period
is `1_000_000_000`.

The model follows the code as written, including these quirks:

- Key `s` rebuilds the state without `totalTime` and `bigBreakTime`, so both become zero.
- A big break lasts the literal ten seconds. The `bigBreakTime` field is ignored.
- The cycle count goes up when the timer starts and when a break ends. It does not go up
  when a study period ends. So the first break comes after cycle 1, and the first big break
  after the fourth study period (cycle 4).
- A tick does not check `running` and always sets it. Nothing ever sets `running` back to false.
- `elapsedTime` never changes, and `Update` never reads `totalTime`. The session never ends
  on its own: every tick asks for another tick.
- A study period of `n` seconds takes `n + 1` ticks. The first `n` ticks count
  `remaining` down to zero, and the next tick switches phase. So after `s` it takes four
  ticks, not three, to reach the first break (`Session.FirstBreak`).

The code does not implement these features, so the model leaves them out:
25/5/15-minute periods (the code has 3 s, 2 s and 10 s), an elapsed-time total, stopping
when `totalTime` runs out, a percent-complete value, and ignoring ticks while the timer is idle.

The only run-time panic in `Update` is `elapsedTime % breakTime` when `breakTime` is zero.
`Timer.Panics` names that case, and `Update` requires that it does not arise. The function
`Run` requires `breakTime != 0`. That is enough because no transition changes `breakTime`.

## Model

| member | source | states |
|---|---|---|
| `GoInt.Rem` | main.go:67 | Go's remainder: the dividend minus the result is a multiple of the divisor, the result is smaller in magnitude than the divisor, and its sign follows the dividend (non-negative for a non-negative dividend, non-positive for a non-positive one) |
| `GoInt.RemIsUnique` | main.go:67 | those properties fix the remainder uniquely: any value that has them equals `Rem` |
| `GoInt.RemZeroIffDivides` | main.go:64 | the test `cycle % 4 == 0` holds exactly when `cycle` is a multiple of 4, for negative values too |
| `GoInt.RemOfNonNegative` | main.go:67 | for a non-negative `elapsedTime` and a positive `breakTime`, Go's remainder equals the Euclidean one |
| `GoInt.RemKeepsMultiple` | main.go:67 | for a non-negative dividend and a positive divisor, the remainder of two whole-second durations is a whole-second duration |
| `GoInt.Wrap64` | main.go:113 | the int64 result of an overflowing multiplication is in int64 range, equals the exact value when that fits, and is congruent to it modulo 2^64 |
| `Timer.PhaseOf` | main.go:87-98 | the phase the status shows: idle exactly when not running; study exactly when running and not on a break; big break exactly when on a break with a cycle count that is a multiple of 4 (negative counts included); ordinary break otherwise |
| `Timer.Panics` | main.go:67 | `Update` can crash only on a tick, with a zero `breakTime`, on a cycle count that is not a multiple of 4; with a non-zero `breakTime` it never crashes |
| `Timer.InitialModel` | main.go:28-42 | the starting state is idle and not on a break; `remaining` equals `studyTime`, which is 3 s; `breakTime` is 2 s and `bigBreakTime` 10 s; elapsed time and cycle count are 0; `totalTime` is the argument |
| `Timer.TotalTimeFromMinutes` | main.go:113 | the minutes typed become a Duration in int64 range: the exact product with one minute when that fits, and the wrapped product otherwise |
| `Timer.Update` | main.go:43-75 | no transition changes `studyTime`, `breakTime` or `elapsedTime`; the cycle count never falls and rises by at most one; the command is quit exactly for keys `q`/`ctrl+c`; it is a tick exactly for a tick or a start, so there is no stop on `totalTime`; a message with no tick command leaves the state unchanged; a tick command leaves the timer running |
| `Timer.QuitKeepsState` | main.go:47-48 | `q` or `ctrl+c` returns the state unchanged with the quit command, from any state; a second quit changes nothing more |
| `Timer.StartBeginsStudy` | main.go:49-53 | `s` on an idle timer starts a study period: full `studyTime`, cycle count one higher, tick command; it keeps `studyTime`, `breakTime` and `elapsedTime` and zeroes `totalTime` and `bigBreakTime` |
| `Timer.IgnoredMessages` | main.go:44-74 | `s` while running, any other non-quit key, and any other message leave the state unchanged and issue no command |
| `Timer.TickCountsDown` | main.go:72 | a tick with time left takes exactly one tick interval off `remaining` and sets `running`; nothing else changes; it returns the tick command |
| `Timer.BreakEnds` | main.go:57-61 | a tick at the end of a break starts a study period with a full `studyTime` and the cycle count one higher; nothing else changes |
| `Timer.StudyEnds` | main.go:63-69 | a tick at the end of a study period starts a break and keeps the cycle count; the break is big exactly when the count is a multiple of 4, and then lasts 10 s; otherwise it lasts `breakTime - elapsedTime % breakTime`, which is in (0, `breakTime`] when `breakTime > 0` and `elapsedTime >= 0` |
| `Timer.CycleStep` | main.go:49-61 | the cycle count rises exactly when the timer is started or a break ends (both directions) |
| `Session.Run` | main.go:43-75 | over any message sequence, `studyTime`, `breakTime` and `elapsedTime` stay fixed; the cycle count never falls and grows by at most the number of messages; a running timer stays running |
| `Session.UpdateKeepsWellFormed` | main.go:56-72 | from any `WellFormed` state, one transition leads to a `WellFormed` state. `WellFormed` means: `studyTime` and `breakTime` are positive whole seconds; `elapsedTime` is a non-negative whole-second value; the cycle count is non-negative; and `remaining` is a whole-second value in [0, max(`studyTime`, `breakTime`, 10 s)] |
| `Session.RunKeepsWellFormed` | main.go:43-75 | the same invariant holds after any sequence of messages |
| `Session.Reachable` | main.go:28-75 | every state reachable from `initialModel` has study time 3 s, break time 2 s, elapsed time 0, `remaining` a whole-second value in [0 s, 10 s], and a cycle count between 0 and the number of messages |
| `Session.RunningPersists` | main.go:53-72 | once running, the timer is never idle again, whatever the messages |
| `Session.CountDown` | main.go:72 | k ticks on k whole seconds bring `remaining` to exactly zero and change nothing else except setting `running` |
| `Session.StudyPeriod` | main.go:63-72 | a study period lasts four ticks and is followed by a break that is big (10 s) exactly when the cycle count is a multiple of 4, and is 2 s otherwise |
| `Session.BreakPeriod` | main.go:57-72 | a 2 s break lasts three ticks and a big break eleven; each is followed by study on the next cycle |
| `Session.Rounds` | main.go:57-72 | left to tick, the timer runs study, then one break, then study again; after n such rounds it is studying on cycle c + n |
| `Session.Start` | main.go:28-53 | `s` on the starting state begins study period 1 |
| `Session.FirstBreak` | main.go:28-72 | `s` and four ticks reach the first break: cycle 1, 2 s, an ordinary break |
| `Session.FirstBigBreak` | main.go:28-72 | `s` and 25 ticks reach the first big break: cycle 4, 10 s |
| `Render.NatDigits` | main.go:90-95 | the cycle count prints as one or more decimal digits, with no leading zero |
| `Render.Decimal` | main.go:90-95 | `%v` prints an int as at least one character: a leading `-` exactly for a negative value, and decimal digits everywhere else |
| `Render.DecimalRoundTrip` | main.go:90-95 | the printed cycle count, minus sign included, reads back to the same integer |
| `Render.NatDigitsRoundTrip` | main.go:90-95 | the digits of a natural number read back to that number |
| `Render.View` | main.go:85-101 | the text always ends with `"\nPress q to quit."`; an idle timer shows exactly the start prompt and that footer; a running one starts with the rule line and its phase label and ends with `, Elapsed: <cycle> cycles` and the footer |
| `Render.ViewShowsPhase` | main.go:85-101 | the label shown can be read back as the phase: the start prompt when not running; "Big Break time!" on a break whose cycle count is a multiple of 4; "Break time!" on any other break; "Study time!" while studying. This holds whatever the duration formatter prints |

## Left out

- The bubbletea runtime is not part of this model: `Init`, `tea.NewProgram`, `p.Run` and
  the timer behind `tea.Tick`. A tick request is only the value `TickCmd`. The runtime
  stops at the first quit command; `Session.Run` does not stop there and feeds every
  message to `Update`, so it covers more sequences than the program ever processes.
  `RunAppend`, `RunKeepsWellFormed`, `Reachable` and `RunningPersists` quantify over all
  message sequences, so they cover each prefix that ends at a quit. The scenario lemmas
  (`CountDown`, `StudyPeriod`, `BreakPeriod`, `Rounds`, `Start`, `FirstBreak`,
  `FirstBigBreak`) are about fixed sequences of `s` and ticks that contain no quit, so the
  program processes them in full.
- `main`'s prompt, `fmt.Scan`, its error message and `os.Exit` are I/O. Only the
  minutes-to-Duration product is modelled (`Timer.TotalTimeFromMinutes`).
- `Render.View`: Go's `Duration.String()` formatting of `remaining` is a function parameter.
  The model says nothing about the text it produces.
- The in-place `m.cycle += 1` on the receiver before the new state is built is modelled only
  through the returned value. The runtime adopts the returned state, so the aliasing has no
  visible effect.
- Integers are unbounded. `Session.Reachable` shows that every duration `Update` computes
  (`remaining`, `studyTime`, `breakTime`, `elapsedTime`) stays within [0 s, 10 s] in every
  reachable state, so none of them overflows int64. `totalTime` keeps the value typed at the
  prompt until `s` zeroes it; it is produced by `TotalTimeFromMinutes`, which wraps. The cycle count grows by
  at most one per message, so it could overflow only after 2^63 messages. Int64 overflow
  is modelled only in `TotalTimeFromMinutes`.
- Features the code does not implement are not modelled: ending the session when
  `totalTime` is reached, accumulating `elapsedTime`, a percent-complete value, using
  `bigBreakTime` for the big break, and ignoring ticks while idle.
- `Timer.Update`: Go's divide-by-zero panic at `elapsedTime % breakTime` is not modelled as
  an outcome. `Update` requires `!Panics(m, msg)` instead. This does not matter for the
  program: `Session.Reachable` shows that `breakTime` is 2 s in every reachable state, and
  `Timer.Panics` shows that no panic is possible when `breakTime` is non-zero.
