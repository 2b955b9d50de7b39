# Connect-Four scene state, modelled in Dafny

This project models the in-memory game state of the Connect-Four scene in
`connect-four/src`. It covers two parts:

- **The board and its token-drop engine** (`game-scene.ts`). The scene owns
  a `width × height` grid of `{ player }` cells, where player 0 means empty.
  It also owns a cursor record that moves over the columns and a token record
  that holds the drop's busy flag. Dropping into a column scans it from the
  floor (the highest row index) towards row 0 for the first empty cell. The
  fall is animated, and the completion callback commits the cell as player 1.
  While the token is falling, further drops are ignored. The cursor works the
  same way with its own busy flag.
- **The player rotation** (`player-data.ts`). A counter over `1..|tints|`
  that wraps back to 1, plus a tint lookup at `activePlayer - 1`.

Files:

- `board.dfy`, module `Board`: the grid as a value (`seq<seq<Token>>`,
  column by column). It defines the landing-row scan (`LandingRowFrom`,
  `LandingRow`), the commit of one cell (`Place`) and a whole drop (`Drop`).
  It also defines occupancy counts and the gravity predicate `Settled`: in
  every column, the occupied cells form one block that ends at the floor row.
  The lemmas prove what drops do to these.
- `game_scene.dfy`, module `Scene`: class `GameScene`. Its `tokens` field is
  an `array2<Token>` updated in place. Its `cursor` and `tokenData` fields are
  records, and the methods reassign their fields. Each animated action is two
  methods:
  - a request method (`MoveCursorTo`, `DropToken`) that sets the busy flag
    and computes the target;
  - a completion method (`CompleteCursorMove`, `CompleteTokenFall`) that runs
    the body of the closure the scene hands to its tween.

  The closure in flight is stored, with the values it captured, in
  `cursorTween` / `tokenTween`. The object invariant `Valid()` says four
  things:
  - each busy flag is set exactly when its animation is in flight;
  - the cursor, and the cursor's pending target, stay within
    `[minX, maxX]`;
  - a pending fall targets the landing row of its column;
  - the grid satisfies gravity.

  `Tokens()` gives the array's contents as a `Board.Grid`. The methods state
  the new grid in terms of the old one.
- `player_data.dfy`, module `Players`: class `PlayerData`. The tint table is
  a `const` field, so nothing can modify it after construction. `Successor`
  and `Rotate` are the value-level partners of `NextPlayer`.

The code fixes these choices, and the model keeps them:
- the floor is row `height - 1`, not row 0;
- the landing row is the largest empty index;
- the committed player is always 1;
- there is no win detection, draw detection or turn controller, and
  `PlayerData` is not connected to the drop.

## Model

| member | source | states |
|---|---|---|
| Board.LandingRowFrom | connect-four/src/game-scene.ts:120-124 | scanning from row `i` towards row 0, the result is -1 or an empty row of index at most `i`, and every row with index between the result and `i` is occupied |
| Board.LandingRow | connect-four/src/game-scene.ts:120-126 | the landing row is the largest index of an empty cell, every larger index is occupied, and it is negative exactly when every cell of the column is occupied |
| Board.LandingRowUnique | connect-four/src/game-scene.ts:120-124 | any row that is empty (or -1) with only occupied cells beneath it is the landing row, so the loop's exit value equals it |
| Board.SettledAboveLanding | connect-four/src/game-scene.ts:120-124 | under gravity, every cell from row 0 down to the landing row is empty |
| Board.Place | connect-four/src/game-scene.ts:129 | committing one cell keeps the number of columns and the height of every column |
| Board.Drop | connect-four/src/game-scene.ts:114-134 | a whole drop keeps the board's shape and never touches a column other than the one chosen |
| Board.ColumnCountBound | connect-four/src/game-scene.ts:120-126 | a column counts at most as many occupied cells as it has rows, and counts all of them exactly when it is full |
| Board.PlaceColumnCount | connect-four/src/game-scene.ts:129 | writing a player into an empty cell adds exactly one to its column's occupied count |
| Board.ReplaceColumnCount | connect-four/src/game-scene.ts:129 | replacing one column changes the board's occupied count by exactly that column's change |
| Board.PlaceCount | connect-four/src/game-scene.ts:128-131 | committing a token on an empty cell grows the board's occupied count by exactly one |
| Board.ColumnEmptyCount | connect-four/src/game-scene.ts:93-95 | a column with no occupied cell counts zero |
| Board.NothingOccupiedCount | connect-four/src/game-scene.ts:90-96 | a board with no occupied cell counts zero |
| Board.EmptyGridFacts | connect-four/src/game-scene.ts:85-96 | the initial grid has `width` columns of `height` cells, no occupied cell, and satisfies gravity |
| Board.DropPreservesSettled | connect-four/src/game-scene.ts:120-129 | if every column's occupied cells form one block ending at the floor, this still holds after a drop |
| Board.DropCount | connect-four/src/game-scene.ts:126-134 | a drop into a column with an empty cell adds exactly one token; a drop into a full column leaves the board unchanged |
| Board.RoomMeansLanding | connect-four/src/game-scene.ts:120-126 | a column with fewer occupied cells than rows has a landing row |
| Board.DropRepeatFills | connect-four/src/game-scene.ts:114-134 | `k` drops into a column with room for them stack exactly `k` more tokens there and keep gravity |
| Board.FullColumnRejects | connect-four/src/game-scene.ts:120-134 | after `height` drops into an empty column, the column has no landing row and one more drop leaves the board unchanged |
| Board.DropAllCount | connect-four/src/game-scene.ts:114-134 | after any sequence of drops, the board holds exactly one more token per accepted (not full-column) drop |
| Scene.GameScene.constructor | connect-four/src/game-scene.ts:31-52 | the scene starts with board rectangle (3, 5, 7, 7), the cursor over the first column, an empty settled grid with zero tokens, and neither actor moving |
| Scene.GameScene.InitializeCursor | connect-four/src/game-scene.ts:73-81 | the cursor is placed at the board's left column, one row above the board, with `minX`/`maxX` the board's edges, tile 31, not moving |
| Scene.GameScene.InitializeTokens | connect-four/src/game-scene.ts:85-96 | a fresh `width × height` array whose every cell has player 0 (the empty grid), fall duration 400, not moving |
| Scene.GameScene.IsValidCursorPosition | connect-four/src/game-scene.ts:99-101 | holds exactly when `boardRect.x <= x <= boardRect.x + width - 1`, and then `x - boardRect.x` is a column index in `[0, width)` |
| Scene.GameScene.MoveCursorTo | connect-four/src/game-scene.ts:103-107 | ignored while the cursor is moving; otherwise the cursor becomes busy and its pending move lands it exactly on `newX`; the invariant (cursor within `[minX, maxX]`) is kept |
| Scene.GameScene.CompleteCursorMove | connect-four/src/game-scene.ts:107-110 | the cursor moves by the captured distance, stays within `[minX, maxX]`, and is no longer busy |
| Scene.GameScene.DropToken | connect-four/src/game-scene.ts:114-134 | while a token is moving nothing changes; otherwise the grid is unchanged and either the busy flag is set with a pending fall to the column's landing row, or (full column) the busy flag ends false and no fall is pending |
| Scene.GameScene.CompleteTokenFall | connect-four/src/game-scene.ts:128-131 | exactly the pending cell becomes player 1 and every other cell keeps its value; the grid equals one `Drop` of the old grid; the token count grows by one; gravity is kept; the busy flag is cleared |
| Scene.GameScene.OnPointerMove | connect-four/src/game-scene.ts:54-59 | an off-board column or a busy cursor changes nothing; otherwise the cursor stays where it is but becomes busy, and the pending move captures the distance to that column |
| Scene.GameScene.OnPointerUp | connect-four/src/game-scene.ts:61-66 | an off-board column or a busy token changes nothing; otherwise, in the clicked board column, a fall to its landing row becomes pending with the busy flag set, or for a full column nothing is pending and the flag ends false; the grid and fall duration are unchanged |
| Players.Successor | connect-four/src/player-data.ts:18-23 | for `1 <= p <= n` the next player is `p % n + 1`, always within `1..n`, and is `p + 1` below the last player |
| Players.RotateClimbs | connect-four/src/player-data.ts:18-23 | while no wrap happens, `k` turns move the active player up by `k` |
| Players.RotateSplits | connect-four/src/player-data.ts:18-23 | `a + b` turns are `a` turns followed by `b` turns |
| Players.FullRotation | connect-four/src/player-data.ts:18-23 | `n` turns of a rotation of `n` players return to the starting player |
| Players.PlayerData.constructor | connect-four/src/player-data.ts:5-8 | a new rotation has active player 1 and the two-entry tint table `[0x3643f4, 0x3bebff]` |
| Players.PlayerData.GetActivePlayer | connect-four/src/player-data.ts:10-12 | a read-only query whose result is a player number within `1..|tints|` |
| Players.PlayerData.GetTint | connect-four/src/player-data.ts:14-16 | a read-only query whose index is in bounds and whose result is an entry of the tint table; with the default table, it is the first tint exactly for player 1 |
| Players.PlayerData.NextPlayer | connect-four/src/player-data.ts:18-23 | the active player becomes `activePlayer + 1`, or 1 after the last player, i.e. `activePlayer % |tints| + 1`; only `activePlayer` changes and the range invariant is kept |

## Left out

- Rendering and the Phaser scene life cycle (`preload`, tile map and layer creation, `fill`, `putTileAt`, the `super` call): presentation only. The constructor stands for `init` followed by the `initializeCursor`/`initializeTokens` calls of `create`.
- `moveTile`: the tween's easing, duration and pixel positions are presentation and timing. Its `tile && tile.index >= 0` guard depends on layer contents, so the model assumes every accepted move's completion callback eventually runs, once, as the completion methods.
- The `duration` parameters of `moveCursorTo` and `dropToken`, and the local `y = cursor.y + 1` of `dropToken`: they only feed the tween.
- Pointer wiring and `worldToTileXY`: the column under the pointer is an integer parameter of `OnPointerMove` / `OnPointerUp`.
- The empty `update` method and `app.ts`: no logic.
- `token-data.ts` is not part of this model; `TokenData` is the record `{ fallDuration, isMoving }`. `board-cursor.ts` supplies the fields of the `BoardCursor` record.
- The cursor and token records are record values that the methods reassign field by field. This equals in-place update because only the scene refers to them; aliasing of these records is not modelled.
- MoveCursorTo, DropToken: they require a valid column, because their only callers (the pointer handlers, `game-scene.ts:56` and `:63`) check `isValidCursorPosition` first, so an off-board column never reaches them. Called directly with one, `moveCursorTo` would move the cursor outside `[minX, maxX]`, and `dropToken` would set `isMoving` and then fail on the undefined `tokens[tokenX]`, leaving every later drop blocked; the model does not cover those direct calls.
- Win detection, draw detection and a turn controller: the code has none, and `PlayerData` is not called from the drop.
- JavaScript numbers are doubles; the model uses unbounded integers. All values stay small here.
- GetActivePlayer: states the range of the result rather than its equality with the field, which would only restate the body.
