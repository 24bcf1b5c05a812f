# Snake game engine — a Dafny model

This project models the simulation core of a browser snake game (`code.js`):
the latched arrow-key flags, the snake's movement tick with its boundary and
self-collision checks, the per-frame apple check with growth and respawn, the
one-shot game-over sound flag, and the retry button that rebuilds the round.
Everything runs on integer grid cells; drawing, sound playback, the DOM and the
timers are left to the caller.

Modules:

- `Grid` (`grid.dfy`) — cell positions, the floor divisions giving columns and
  rows from the canvas size (cells are 25 pixels), the in-field test used by the
  boundary check, and the positions random apple placement can produce.
- `Keys` (`keys.dfy`) — the four arrow flags as a map, the key names, the
  opposite arrow, and `Latch`, the specification of a key press.
- `SnakeRules` (`snake.dfy`) — the pure rules of one tick: `Shifted` (the tail
  after recording the head), `Step` (the head after the latched flags),
  `Collision`, and lemmas about them.
- `Apples` (`apples.dfy`) — `EatFrom`/`Eat`, the exact walk the frame makes over
  the apple list (`forEach` with `splice` and `push`), and lemmas about it.
- `Game` (`game.dfy`) — the class `Session`, holding the page's global state
  (`keys`, `isGameOver`, `gameOverSoundPlayed`) and the game's snake and apples,
  with methods for page load, key presses, ticks, frames and retry, each proved
  against the functions above. `Valid()` is the invariant every operation keeps:
  exactly one arrow flag set, `|tail| <= length`, `length >= 3`, five apples, and
  the game-over sound only marked played while the round is over.

Canvas width and height are parameters of the operations that read them. The
positions `Math.random` would give new apples are supplied by the caller, and
must be positions `floor(random() * cols)`, `floor(random() * rows)` can take.
The eat sounds and the game-over sound are returned by the frame operation as a
count and a flag.

Behaviour of the code that is easy to miss:

- The apple check runs on every frame, also once the round is over.
- Two apples on the head's cell at neighbouring indices are not both eaten in
  one frame: after a removal the next apple shifts into the index just visited
  (`Apples.AdjacentApplesSkipped`). A pushed replacement that lands on the head
  can be reached at the last index and eaten in the same frame
  (`Apples.PushedAppleEatenSameFrame`).
- A tail shorter than `length` is not trimmed: moving left from (5, 5) with tail
  [(6, 5), (7, 5)] and length 3 gives tail [(5, 5), (6, 5), (7, 5)]
  (`SnakeRules.LeftTickExample`).
- The starting tail already holds the head's cell, so the tail holds duplicates
  after the first tick (`SnakeRules.FirstTick`).
- A tick with no flag set ends the round, since the head meets its own previous
  cell (`SnakeRules.NoDirectionEndsRound`). No reachable state has no flag set,
  though: exactly one flag is held from page load on.
- The reversal guard compares a press only with the arrow held at that moment.
  Two presses between ticks, a perpendicular arrow and then the reverse, latch
  the reverse, and the next tick ends the round on the segment behind the head
  (`SnakeRules.TwoPressReversal`).

## Model

| member | source | states |
|---|---|---|
| `Grid.Cells` | code.js:177-178 | the column (row) count is the largest whole number of 25-pixel cells that fits in the width (height) |
| `Grid.InBounds` | code.js:179-191 | the head is inside the field when 0 <= x <= cols - 1 and 0 <= y <= rows - 1, the negation of the boundary test; `SpawnableInBounds`, `EdgeStepEndsRound` |
| `Grid.Spawnable` | code.js:119-120 | the positions `floor(random() * n)` can take per axis: 0 .. n - 1, or only 0 when n is 0; `SpawnableInBounds` |
| `Grid.SpawnableInBounds` | code.js:117-120 | a randomly placed apple is inside the field exactly when the field has at least one column and one row |
| `Keys.ArrowNamed` | code.js:97 | a key name selects an arrow flag only when it is that arrow's name; every other name selects none |
| `Keys.Opposite` | code.js:99-112 | the refused arrow is the reverse on the same axis (up/down, left/right) |
| `Keys.Cleared` | code.js:91-93 | clearing leaves the four flags present and none set |
| `Keys.Only` | code.js:101-102 | after clearing and setting one flag, exactly that flag is set |
| `Keys.Latch` | code.js:99-112 | a press of the reverse of the held arrow changes nothing; any other arrow press leaves exactly that flag set |
| `Keys.ExactlyOne` | code.js:82 | exactly one flag is set, the flags are `Only(a)` for some arrow; kept by `LatchKeepsExactlyOne` and part of `Session.Valid` |
| `Keys.LatchKeepsExactlyOne` | code.js:99-112 | pressing any arrow while exactly one flag is held leaves exactly one held |
| `Keys.LatchKeepsAtMostOne` | code.js:82-112 | no key press leaves two flags set |
| `Keys.LatchWhileHolding` | code.js:99-112 | holding one arrow, pressing it again keeps it, pressing its reverse keeps it, pressing a perpendicular arrow switches to that arrow |
| `SnakeRules.Shifted` | code.js:182-183 | the new tail starts with the previous head, continues with the old tail in order, and drops the old last entry only when the tail would exceed the length; a tail within the length stays within it |
| `SnakeRules.Step` | code.js:185-188 | the head after every set flag has moved it one cell on its axis; `StepIsUnitMove`, `StepWithoutDirection` |
| `SnakeRules.Collision` | code.js:190-200 | the round ends when the new head is outside the field or equal to some segment of the updated tail; `NoDirectionEndsRound`, `EdgeStepEndsRound`, `HitsTail` |
| `SnakeRules.StepIsUnitMove` | code.js:185-188 | with one flag set the head moves one cell: up y-1, down y+1, left x-1, right x+1, the other coordinate unchanged |
| `SnakeRules.StepWithoutDirection` | code.js:185-188 | with no flag set the head does not move |
| `SnakeRules.NoDirectionEndsRound` | code.js:182-200 | a tick with no flag set always ends the round, by self-collision with the just-recorded head |
| `SnakeRules.EdgeStepEndsRound` | code.js:190-193 | a step from an edge cell off that edge (x -1, x cols, y -1, y rows) ends the round |
| `SnakeRules.FirstTick` | code.js:166-193 | from the starting layout moving up, the tail repeats the start cell and the round continues exactly when the field has at least 11 columns and 15 rows |
| `SnakeRules.LeftTickExample` | code.js:182-193 | moving left from (5,5) with tail [(6,5),(7,5)] and length 3 gives head (4,5), tail [(5,5),(6,5),(7,5)], and no collision on a 10 by 10 field |
| `SnakeRules.TwoPressReversal` | code.js:99-112 | with `a` held, a perpendicular press and then the reverse of `a` latch the reverse, and the next tick lands the head on the previous head, ending the round |
| `Apples.EatFrom` | code.js:277-284 | the frame walk from index k: an apple on the head is spliced out, the next supplied position is pushed, the count grows by one, and the index moves on in every case; `EatKeepsSize`, `EatKeepsOrder`, `EatsSomeIff` |
| `Apples.Eat` | code.js:277-284 | the whole frame walk from index 0 over the five apples; `EatKeepsSize`, `EatKeepsOrder`, `EatsSomeIff`, `AdjacentApplesSkipped`, `PushedAppleEatenSameFrame` |
| `Apples.EatKeepsSize` | code.js:277-284 | a frame keeps the number of apples and eats at most one apple per visited index |
| `Apples.EatKeepsOrder` | code.js:277-284 | apples away from the head are never removed and keep their relative order, followed by the pushed replacements in order |
| `Apples.EatsSomeIff` | code.js:277-284 | a frame eats at least one apple exactly when some apple lies on the head |
| `Apples.AdjacentApplesSkipped` | code.js:277-284 | of two neighbouring apples on the head only the first is eaten in one frame |
| `Apples.PushedAppleEatenSameFrame` | code.js:277-284 | a replacement pushed onto the head's cell is eaten in the same frame once it is reached |
| `Game.HitsTail` | code.js:195-201 | the scan reports a hit exactly when the head's cell is one of the tail segments |
| `Game.Session.constructor` | code.js:246-257 | page load gives the starting snake (10,15), length 3, tail [(10,15),(10,16),(10,17)], the five apples, only the up flag set, and both round flags false |
| `Game.Session.NewGame` | code.js:246-254 | a new game has the starting snake layout and the five apples in the order supplied |
| `Game.Session.ResetKeys` | code.js:91-93 | every flag is cleared |
| `Game.Session.Hold` | code.js:101-102 | clearing then setting one flag leaves exactly that flag set |
| `Game.Session.KeyDown` | code.js:96-113 | the flags become `Latch` of the old flags for an arrow name and stay unchanged for any other name; the invariant (at most one flag) is kept |
| `Game.Session.RecordHead` | code.js:182-183 | the tail becomes `Shifted` of the old tail with the current head |
| `Game.Session.StepHead` | code.js:185-188 | the head becomes `Step` of the old head under the latched flags |
| `Game.Session.Move` | code.js:176-202 | tail and head are updated as above and the round is over afterwards exactly when it was over before or the new head is outside the field or on a tail segment |
| `Game.Session.Tick` | code.js:260-262 | a tick of a finished round changes nothing; otherwise it is one `Move`, which moves the head exactly one cell in the latched direction, and a round never returns from over |
| `Game.Session.Score` | code.js:274 | the score shown is the length minus 3, never negative since the length starts at 3 and only grows |
| `Game.Session.EatApples` | code.js:277-284 | apples and eat count are those of the frame walk `Eat`, and the length grows by exactly the number eaten |
| `Game.Session.Animate` | code.js:265-297 | the apple check as above, then the game-over sound plays exactly when the round is over and it has not played yet, after which it counts as played |
| `Game.Session.Retry` | code.js:65-76 | retry restores the starting snake, takes five new apples, leaves only the up flag set and clears both round flags |

## Left out

- Drawing: the field grid, snake, apples, score text and game-over overlay are
  canvas output; the score is kept as `Session.Score`, the length minus 3.
- Sound playback: the frame returns how many eat sounds and whether the
  game-over sound would play; playback and its failures are not modelled.
- The retry button's creation, positioning and resize listener are DOM glue;
  only its click effect is modelled (`Session.Retry`).
- `resizeCanvas` and the canvas size: width and height are parameters, so a
  resize between ticks is a different argument to the next call.
- The 100 ms timer and the animation-frame loop: `Tick` and `Animate` are
  separate operations the caller invokes in any interleaving.
- `Math.random`: replaced by positions supplied by the caller, restricted to
  those random placement can produce.
