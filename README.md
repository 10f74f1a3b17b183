# Minesweeper engine — a verified Dafny model

This project models the game engine inside `app.js` of a browser minesweeper, without
the page around it. The engine has these parts:

- a 20 x 20 grid of cells, each with a bomb, an exposed and a flag bit;
- mine placement: 40 bombs seeded by rejection sampling, giving up after 1000 draws;
- adjacency queries: the clamped 3x3 window, the neighbour list, the neighbouring-bomb
  count and the "alone" test (no bomb around);
- the cascading reveal `sweepFromBox`, a recursive depth-first flood fill that uses the
  exposed bit as its visited set;
- the click handler: a meta-click toggles a flag, a plain click exposes the cell, a
  bomb loses the game and builds a new one, anything else starts the cascade.

Layout, one module per component:

- `geometry.dfy` (`Geometry`): cell positions, the board bounds, `BoundingIndices`, a
  reference definition of the neighbour list, and `GetNeighbors`, the source's
  window-scanning loop, proved equal to that definition.
- `rules.dfy` (`Rules`): the rules over plain sets of cells. It holds bomb counts,
  aloneness, the distinct cells of a run of draws, the contract of a cascading reveal
  (`SweepResult`) and flag toggling, with the lemmas about them.
- `board.dfy` (`Board.Grid`): the mutable grid, a class over three `array2<bool>`
  (bomb, exposed, flag). Its methods update these arrays in place and are specified
  through the set views `Bombs()`, `Exposed()` and `Flagged()`.
- `game.dfy` (`Game`): building a game (`Bootstrap`) and handling one click
  (`HandleClick`).

Randomness is a parameter. `Math.random` is replaced by a sequence of drawn cells,
supplied in the order the placement loop consumes them. At least 1000 draws are
supplied, the most the loop can consume. Every click carries a second such sequence;
only a click on a bomb uses it, to build the new game.

The cascade's contract `SweepResult(bombs, p, before, after, order)` says:

- if `p` is not alone, nothing changes;
- otherwise the cells added to the exposed set are exactly the cells of `order`;
- each of them was unexposed, is alone, and is a neighbour of `p` or of an earlier cell
  of `order`;
- afterwards every alone neighbour of `p`, and of every added cell, is exposed.

The first three points bound what the cascade may expose: only what is reachable from
`p` through alone cells. The last point says what it must expose. Numbered cells at the
border of the revealed region are not exposed by the cascade. The source behaves this
way and the model keeps it.

## Model

| member | source | states |
|---|---|---|
| `Geometry.Clamp` | app.js:113-117 | one axis of the window runs from `max(x-1,0)` to `min(x+1,19)`, and holds exactly the on-board indices within distance one of `x` |
| `Geometry.BoundingIndices` | app.js:112-129 | `0 <= min <= r <= max <= 19` on each axis; a cell is in the window and is not `(r,c)` exactly when it is a neighbour of `(r,c)` |
| `Geometry.NeighborsShape` | app.js:135-149 | the neighbour list holds exactly the on-board cells of the 3x3 block around `p` other than `p`, in strictly increasing row-major order, so without duplicates |
| `Geometry.NeighborCount` | app.js:135-149 | a corner cell has 3 neighbours, another edge cell 5, an interior cell 8 |
| `Geometry.GetNeighbors` | app.js:135-149 | the double loop over the clamped window, skipping the cell itself, returns exactly the reference neighbour list |
| `Rules.CountIn` | app.js:151-155 | the length of a list filtered by "is a bomb" is at most the list's length, and is zero exactly when no listed cell is a bomb |
| `Rules.CountInDistinct` | app.js:151-155 | over a list without repeats, the filtered length is the number of distinct listed cells that hold a bomb |
| `Rules.BombCountIsBombsAround` | app.js:151-155 | the neighbouring-bomb count is exactly the number of neighbours of the cell that hold a bomb |
| `Rules.BombCount` | app.js:151-155 | the neighbouring-bomb count is at most the neighbour count (at most 8), and is zero exactly when the cell is alone |
| `Rules.ElemsStep` | app.js:99-109 | one more draw adds its cell to the drawn cells, and increases their number by at most one |
| `Rules.StopsOnce` | app.js:95-110 | placement stops after one draw only: the first draw that brings the distinct cells drawn to 40 |
| `Rules.PlacedFromUnique` | app.js:95-110 | the draws decide the bombs: placement stops at a unique draw, so two successful placements from the same draws leave the same bomb set |
| `Rules.ElemsMonotone` | app.js:95-110 | a longer run of draws holds every cell of a shorter one, and at least as many distinct cells |
| `Rules.SweepStep` | app.js:160-165 | one loop step (expose an unexposed alone neighbour, sweep from it) keeps the loop's invariant: the cells added so far were reached from the start through alone cells, and each one's alone neighbours are exposed |
| `Rules.SweepExposesNoBomb` | app.js:157-166 | no cell the cascade exposes holds a bomb, because each is a neighbour of an alone cell |
| `Rules.SweepIdempotent` | app.js:157-166 | a second cascade from the same cell exposes nothing new |
| `Rules.PlainClickIdempotent` | app.js:214-224 | a second plain click on a safe cell leaves the exposed set as the first click left it |
| `Rules.Toggled` | app.js:209 | toggling changes the flag of the target cell and of no other cell |
| `Rules.ToggleTwice` | app.js:208-212 | toggling the same cell twice restores the flags |
| `Board.Grid.constructor` | app.js:23-61 | a new grid has the board's size, with no bomb, no exposed cell and no flag |
| `Board.Grid.PlaceBombs` | app.js:91-110 | the bombs are the distinct cells of the draws used, a draw on an existing bomb places nothing, and placement stops at the first draw that brings the count to 40; it fails (with `tries` at 1001) exactly when the first 1000 draws hold fewer than 40 distinct cells |
| `Board.Grid.SetBomb` | app.js:108-109 | placing a bomb on a bomb-free cell adds that cell and raises the bomb count by one |
| `Board.Grid.NeighboringBombs` | app.js:151-155 | the count read from the bomb array equals the count over the bomb set |
| `Board.Grid.CountBombs` | app.js:152-154 | filtering a list of cells by the bomb array gives the same count as filtering by the bomb set |
| `Board.Grid.IsAlone` | app.js:131-133 | the cell's bomb count is zero exactly when no neighbour holds a bomb |
| `Board.Grid.IsExposed` | app.js:36-38 | reads the exposed bit of a cell, which is membership in the exposed set |
| `Board.Grid.IsBomb` | app.js:39-41 | reads the bomb bit of a cell, which is membership in the bomb set |
| `Board.Grid.Expose` | app.js:33-35 | exposing adds the cell to the exposed set and changes nothing else |
| `Board.Grid.ToggleFlag` | app.js:209 | the flagged set becomes the toggled one; bombs and exposure are untouched |
| `Board.Grid.SweepFromBox` | app.js:157-166 | the cascade meets `SweepResult`: it changes nothing if the start is not alone, only ever adds alone cells reached from the start, never exposes a bomb, leaves bombs and flags alone, and ends with every alone neighbour of the start and of every added cell exposed; it terminates because each recursive call follows the exposure of a hidden cell |
| `Game.Bootstrap` | app.js:20-110 | a new game succeeds exactly when the first 1000 draws hold 40 distinct cells. It is then a fresh grid with fresh arrays, nothing exposed and nothing flagged, whose bombs are the distinct cells of the draws up to and including the first draw that brings the count to 40 |
| `Game.HandleClick` | app.js:206-224 | no click removes a bomb or hides an exposed cell. A meta-click toggles only the target's flag. A plain click exposes the target whatever its flag. On a bomb, the game is lost and a new game is built from fresh draws, as `Game.Bootstrap` states: fresh grid and arrays, bombs placed from those draws. Otherwise the cascade from the target follows, exposing no bomb |

## Left out

- Page building and teardown, `renderGrid`, the per-cell `element()` lookup, cell
  text and CSS classes (app.js:1-7, 12-16, 51-57, 63-75, 169-189, 223): presentation
  only.
- Reading `data-row`/`data-col` from the click target, the guard on missing
  attributes, and `stopPropagation` (app.js:194-204, 227, 231): event plumbing. The
  click is modelled as a cell position and a meta-key bit.
- `confirm(...)` and the page reload on a lost game (app.js:217-218): browser I/O.
  Losing is modelled as building a new game.
- `Math.random` inside `rand` (app.js:78-80): replaced by a sequence of draws, each
  on the board. Nothing is said about how the draws are distributed.
- The unused counters `totalFlags`, `flagsUsed`, `flaggedMines` and `unflaggedMines`
  (app.js:83-89): they carry no behaviour.
- The per-cell closures (`neighbors`, `neighboringBombs`, `isAlone` on each cell,
  app.js:42-50) become members of the grid. A cell keeps no `row`/`col` fields of its
  own: its position is its index in the arrays. Grid construction uses array
  initialisers instead of the source's nested `push` loops.
- The `flag` field, which the source adds to a cell on its first toggle, is a bit
  that starts out false. That is the same as the source's initial `undefined`.
- Game.Bootstrap: the exception the source throws when placement gives up
  (app.js:97) is returned as `Err(PlacementFailure)`. This covers the first game's
  build as the page loads.
- Game.HandleClick: the same exception, thrown when the new game's placement gives up,
  is returned as `Lost(Err(PlacementFailure))`. Which handler stays attached
  to the page after a loss is not modelled.
- Board.Grid.SweepFromBox: the proof uses the exposure order as a ghost result, not
  the call stack. The recursion depth is not bounded by the model.
