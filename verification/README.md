# Bubble game, stopwatch and counter — a Dafny model

This project models the rule-driven logic of two small Compose demo screens:

- **The bubble-popping game** (`w06`). A `GameState` record holds the bubbles on
  the field in spawn order, the score, the seconds left and a game-over flag.
  Four transitions act on it: the one-second countdown tick, the spawn tick that
  adds a random bubble, the tap handler that pops the topmost bubble under the
  finger, and the Restart button of the game-over dialog. Module `BubbleGame`
  holds the state and the transitions; module `GameRuns` applies sequences of
  events and states what holds along any of them.
- **The counter and stopwatch screen** (`w05`). Module `TimeFormat` models
  `formatTime`, the millisecond to `HH:MM:SS` display. Module `Stopwatch` models
  the Start, Stop and Reset buttons and the one-second tick while running.
  Module `Counter` models Increase and Reset on a 32-bit count.

Randomness and timing are parameters. A spawn receives the new bubble, or the
random draws it is built from (`BubbleGame.NewBubble`). Each elapsed second of a
timer is one explicit `Tick` call. Coordinates and radii are Dafny `real`s. The
tap test compares the squared distance with the squared radius, and
`BubbleGame.HitMeansInsideRadius` proves that this is the same as comparing the
Euclidean distance with the radius.

Two behaviours of the code are kept as written, although a reader might expect otherwise:

- Bubble ids come from `Random.nextInt()` and need not be unique. A hit removes
  every bubble that carries the hit bubble's id, so one tap can pop more than one
  bubble (`BubbleGame.Tap`, `GameRuns.BubbleAccounting`). With distinct ids,
  exactly one bubble is popped (`BubbleGame.TapDistinctIds`).
- The tap handler does not check the game-over flag. A tap after the game is
  over still pops and scores in the model; in the app the modal dialog covers
  the field.

The countdown effect restarts at each decrement. The last decrement, to 0, is
followed in the same run of the loop by setting the game-over flag. One
`BubbleGame.Tick` therefore lowers the clock by one and, when that reaches 0,
ends the game in the same step.

## Model

| member | source | states |
|---|---|---|
| BubbleGame.Initial | w06/src/main/java/com/example/w06/MainActivity.kt:28-33 | a fresh game has no bubbles, score 0, 30 seconds, is not over, and satisfies the reachable-state invariant |
| BubbleGame.Restart | w06/src/main/java/com/example/w06/MainActivity.kt:137-138 | Restart yields the fresh-game state whatever the prior state was |
| BubbleGame.Tick | w06/src/main/java/com/example/w06/MainActivity.kt:65-73 | a tick acts only while not over with time left; it lowers the clock by exactly 1, never below 0, ends the game exactly when the clock reaches 0, and keeps bubbles and score |
| BubbleGame.NewBubble | w06/src/main/java/com/example/w06/MainActivity.kt:79-92 | from draws in [0, 1), a spawned bubble has x in [0, 800), y in [0, 1600), radius in [40, 100) and alpha 220 |
| BubbleGame.Spawn | w06/src/main/java/com/example/w06/MainActivity.kt:76-94 | while not over, exactly one bubble is appended after the unchanged earlier ones; once over, nothing changes; score and time are never touched |
| BubbleGame.HitMeansInsideRadius | w06/src/main/java/com/example/w06/MainActivity.kt:111-116 | a tap hits a bubble iff the Euclidean distance to its centre is strictly less than the radius, so a tap on the rim misses |
| BubbleGame.LastHit | w06/src/main/java/com/example/w06/MainActivity.kt:111-116 | the search returns the last position in spawn order whose bubble is hit, or nothing iff no bubble is hit |
| BubbleGame.RemoveId | w06/src/main/java/com/example/w06/MainActivity.kt:120 | the filter keeps exactly the bubbles with another id, and shrinks the list iff some bubble carries the id |
| BubbleGame.RemoveIdConcat | w06/src/main/java/com/example/w06/MainActivity.kt:120 | filtering distributes over concatenation, so the survivors keep their relative order |
| BubbleGame.RemoveIdAbsent | w06/src/main/java/com/example/w06/MainActivity.kt:120 | filtering out an id nobody carries leaves the list unchanged |
| BubbleGame.Tap | w06/src/main/java/com/example/w06/MainActivity.kt:109-123 | a miss leaves the state unchanged; a hit adds exactly 1 to the score and shortens the list; no bubble appears; time and game-over flag are kept |
| BubbleGame.TapRemovesLastHit | w06/src/main/java/com/example/w06/MainActivity.kt:111-121 | on a hit, the new list is the old one with every bubble sharing the id of the last hit bubble removed, and the score is one higher |
| BubbleGame.TapLastMatchWins | w06/src/main/java/com/example/w06/MainActivity.kt:111-121 | of two overlapping bubbles under the tap with different ids, the later-spawned one is popped and the earlier one survives |
| BubbleGame.TapDistinctIds | w06/src/main/java/com/example/w06/MainActivity.kt:117-121 | when ids are distinct, a hit removes exactly the hit bubble and nothing else |
| GameRuns.Step | w06/src/main/java/com/example/w06/MainActivity.kt:65-138 | every transition keeps the invariant (clock in [0, 30], over iff clock is 0, score non-negative); apart from restart, the score rises by at most 1, the clock falls by at most 1, and game-over is never cleared |
| GameRuns.Run | w06/src/main/java/com/example/w06/MainActivity.kt:62-138 | any sequence of events from a state meeting the invariant ends in a state meeting it |
| GameRuns.RunMonotone | w06/src/main/java/com/example/w06/MainActivity.kt:65-123 | without a restart the clock never rises, the score never falls, and a finished game stays finished |
| GameRuns.BubbleAccounting | w06/src/main/java/com/example/w06/MainActivity.kt:76-123 | without a restart, bubbles left plus points scored never exceed bubbles at the start plus spawn ticks |
| GameRuns.GameOverIsFinal | w06/src/main/java/com/example/w06/MainActivity.kt:65-94 | once over, only a restart revives the game: the clock stays at 0, and every bubble left was already on the field when the game ended |
| GameRuns.Countdown | w06/src/main/java/com/example/w06/MainActivity.kt:65-73 | n ticks lower the clock by n, stopping at 0, and end the game exactly when the clock runs out, keeping bubbles and score |
| GameRuns.ThirtyTicksEndTheGame | w06/src/main/java/com/example/w06/MainActivity.kt:28-33 | a fresh game left alone for 30 ticks is over with score 0 and clock 0, and was still running after 29 |
| GameRuns.PopScenario | w06/src/main/java/com/example/w06/MainActivity.kt:109-123 | a radius-50 bubble at (100, 100) tapped at (120, 120) is popped and scores 1 |
| TimeFormat.Split | w05/src/main/java/com/example/w051/MainActivity.kt:110-113 | hours*3600 + minutes*60 + seconds equals the whole seconds of ms, with minutes and seconds in [0, 60) |
| TimeFormat.Pad2 | w05/src/main/java/com/example/w051/MainActivity.kt:114 | a `%02d` field is at least two digits, exactly two iff the number is below 100, reads back as the number, and starts with 0 only as padding of a single digit |
| TimeFormat.FormatTime | w05/src/main/java/com/example/w051/MainActivity.kt:109-115 | the display is digits, ':', two digits, ':', two digits; the three fields read back as the hours, minutes and seconds of the split; the hours field has no leading zero beyond padding; the display is exactly 8 characters long iff hours < 100 |
| TimeFormat.ParseFormatTime | w05/src/main/java/com/example/w051/MainActivity.kt:109-115 | reading the display back yields exactly the whole seconds of ms |
| TimeFormat.FormatTimeSameDisplay | w05/src/main/java/com/example/w051/MainActivity.kt:109-115 | two times show the same display iff they have the same number of whole seconds |
| TimeFormat.FormatTimeTruncates | w05/src/main/java/com/example/w051/MainActivity.kt:110 | the sub-second part never shows: formatTime(ms) equals formatTime(ms - ms % 1000) |
| TimeFormat.FormatTimeLength | w05/src/main/java/com/example/w051/MainActivity.kt:111-114 | below 100 hours the display is exactly 8 characters |
| Stopwatch.Initial | w05/src/main/java/com/example/w051/MainActivity.kt:71-72 | the watch starts stopped at time 0 |
| Stopwatch.Start | w05/src/main/java/com/example/w051/MainActivity.kt:92 | Start sets running and keeps the time |
| Stopwatch.Stop | w05/src/main/java/com/example/w051/MainActivity.kt:95 | Stop clears running and keeps the time |
| Stopwatch.Reset | w05/src/main/java/com/example/w051/MainActivity.kt:98-101 | Reset stops the watch and sets the time to 0 whatever it was |
| Stopwatch.Tick | w05/src/main/java/com/example/w051/MainActivity.kt:75-80 | a tick adds exactly 1000 ms while running and changes nothing when stopped; the time stays a whole non-negative number of seconds |
| Stopwatch.Step | w05/src/main/java/com/example/w051/MainActivity.kt:75-103 | every button and tick keeps the time a whole non-negative number of seconds, and only Reset lowers it |
| Stopwatch.RunTicks | w05/src/main/java/com/example/w051/MainActivity.kt:75-80 | n ticks add exactly n*1000 ms to a running watch and nothing to a stopped one |
| Stopwatch.RunMonotone | w05/src/main/java/com/example/w051/MainActivity.kt:75-103 | without Reset the elapsed time never decreases |
| Stopwatch.TickDisplay | w05/src/main/java/com/example/w051/MainActivity.kt:75-82 | after a tick the display reads one second more iff the watch is running |
| Counter.Increase | w05/src/main/java/com/example/w051/MainActivity.kt:58 | Increase adds exactly 1 below the largest 32-bit value and wraps to the smallest at it |
| Counter.Reset | w05/src/main/java/com/example/w051/MainActivity.kt:61 | Reset sets the count to 0 whatever it was |
| Counter.IncreaseIsWrappedAdd | w05/src/main/java/com/example/w051/MainActivity.kt:58 | Increase is addition of 1 in 32-bit two's-complement arithmetic |
| Counter.Wrap | w05/src/main/java/com/example/w051/MainActivity.kt:58 | the 32-bit value congruent to an integer modulo 2^32 |
| Counter.CountsPresses | w05/src/main/java/com/example/w051/MainActivity.kt:58-61 | after Reset, n presses of Increase show n, for any n that fits in 32 bits |
| Counter.PressesAreWrappedAdd | w05/src/main/java/com/example/w051/MainActivity.kt:58 | n presses of Increase add n modulo 2^32 |

## Left out

- The static profile screen (`w04`): it has no logic.
- All Compose UI: layout, `Canvas` drawing, the game-over `AlertDialog`, theming, `onCreate` and the previews.
- Coroutine timing (`LaunchedEffect`, `delay`, effect restart on key change): each elapsed interval is one explicit `Tick` or spawn call, so partial seconds lost when the stopwatch is stopped and restarted are not modelled.
- BubbleGame.Spawn: a spawn delay that ends after the game-over write but before the effect is cancelled by recomposition still appends a bubble in the app; the model treats every spawn after game-over as a no-op, so GameRuns.GameOverIsFinal holds of the model but is not guaranteed by the app's timing.
- Stopwatch.Tick: a tick delay that ends after a Stop or Reset but before the effect is cancelled by recomposition still adds 1000 ms in the app; the model lets a tick act only on a running watch, so Stopwatch.Reset and Stopwatch.Stop are not undone by such an in-flight tick.
- `Random`: the new bubble, or the draws it is built from, is a parameter.
- IEEE `Float` and `hypot`: positions and radii are exact reals, so rounding at the top of the draw ranges is not modelled.
- `String.format` locale details: the fields are rendered as plain ASCII decimal digits.
- TimeFormat.FormatTime: negative millisecond counts are not modelled; the stopwatch never produces them.
- BubbleGame.Tap: the score is an unbounded integer, not a 32-bit `Int`; it cannot approach the limit in a 30-second game.
- Stopwatch.Tick: the time is an unbounded integer, not a 64-bit `Long`; wrap-around would take millions of years of running.
