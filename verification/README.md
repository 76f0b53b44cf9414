# Bricks: a verified model of the board and match engine

Bricks is a two-player tiling game. Players place 2-cell bricks on a
rows × cols grid. One player places only horizontal bricks and the other only
vertical ones. A player who has no legal spot left for their orientation loses.

This project models the game's engine in Dafny:

- `geometry.dfy` (module `Geometry`): grid coordinates (`Placement`), the two
  orientations, and brick geometry. The head is the left cell of a horizontal
  brick and the top cell of a vertical one. The tail is at (r, c+1) or (r+1, c).
- `gameboard.dfy` (module `GameBoard`): the board as an immutable value. It
  holds the grid size, the set of occupied cells and the placed bricks in
  placement order. The module defines the invariant `Wf`, `isValid`,
  `placeBrickAt`, `availablePlacements` (a row-major scan) and `currentBricks`.
- `boardobject.dfy` (module `BoardObject`): the board as a mutable object,
  like the `GameBoard` class in GameBoard.java. It keeps an `array2<bool>` occupancy bitmap and a
  brick list. Every method is proved against the value model, and
  `BoardCopy` returns a deep copy that shares no mutable state.
- `game.dfy` (module `Game`): a match is a board plus the turn counter
  `turnCtr`. The module models `reset`, `placeBrick` (with atomic rejection),
  `arePlacementsAvailable` and `winner`.

The integer orientation codes −1/1/0 become the enumeration
`Orientation = Horizontal | Vertical`. The winner becomes
`Winner = Player(Orientation) | NoWinner`.

The board methods in `GameBoard.java` are assignment stubs: their bodies
return `true`, an empty list or `null`. The model implements the behaviour
their doc comments describe instead.

Behaviour worth noting:

- `GameBoard(int rows, int cols)` (GameBoard.java:32) declares no error, so
  `NewBoard` accepts any dimensions. A non-positive dimension gives a grid
  with no cells.
- An empty 3 × 5 board offers rows · (cols − 1) = 12 horizontal and
  (rows − 1) · cols = 10 vertical placements (`Game.ResetPlacementCounts`).
- `winner` checks for horizontal placements first (Game.java:95-96). So when
  neither orientation can move, Vertical is reported.

## Model

| member | source | states |
|---|---|---|
| Geometry.Tail | wnewsom-bricks/src/GameBoard.java:10-11 | The tail lies one column right of a horizontal head and one row below a vertical head, and differs from the head. |
| GameBoard.NewBoard | wnewsom-bricks/src/GameBoard.java:25-34 | A new board keeps the given dimensions and has no bricks of either orientation. It satisfies the board invariant. A placement is valid on it exactly when both cells are on the grid. |
| GameBoard.IsValid | wnewsom-bricks/src/GameBoard.java:69-83 | A placement is valid only when the head and the tail (right of a horizontal head, below a vertical one) both lie on the board and neither cell is occupied. |
| GameBoard.IsValidIffFootprintFree | wnewsom-bricks/src/GameBoard.java:69-83 | A placement is valid exactly when every cell of its footprint (head and tail) is on the board and unoccupied. |
| GameBoard.PlaceBrickAt | wnewsom-bricks/src/GameBoard.java:37-46 | Fails with InvalidPlacement exactly when the placement is invalid. On success, the head is appended to that orientation's current bricks and the other orientation's bricks are unchanged. Both cells become occupied and no other cell changes. The board invariant is preserved. |
| GameBoard.PlacePreservesWf | wnewsom-bricks/src/GameBoard.java:37-44 | Adding a valid brick keeps every brick in bounds and the bricks pairwise disjoint. The occupied cells stay equal to the union of the footprints. |
| GameBoard.ValidityAfterPlacement | wnewsom-bricks/src/GameBoard.java:37-44 | After a placement, a brick fits exactly where it fitted before and does not overlap the new brick. So every overlapping placement is now invalid, and no placement becomes newly valid. |
| GameBoard.OccupiedCount | wnewsom-bricks/src/GameBoard.java:37-44 | On a well-formed board the number of occupied cells is exactly twice the number of placed bricks. |
| GameBoard.CurrentBricks | wnewsom-bricks/src/GameBoard.java:86-98 | A coordinate is listed exactly when a brick of that orientation with that head has been placed. |
| GameBoard.HeadsPartition | wnewsom-bricks/src/GameBoard.java:86-95 | Every placed brick is listed under exactly one orientation. |
| GameBoard.CoveredFromHeads | wnewsom-bricks/src/GameBoard.java:86-95 | The cells covered by the bricks equal the footprints of the horizontal heads together with those of the vertical heads. |
| GameBoard.OccupancyFromCurrentBricks | wnewsom-bricks/src/GameBoard.java:86-95 | On a well-formed board, the occupancy is rebuilt exactly from the two `currentBricks` lists. |
| GameBoard.ScanRowSpec | wnewsom-bricks/src/GameBoard.java:50-60 | The scan of one row lists its valid heads from the given column on, exactly and left to right. |
| GameBoard.ScanRowsSpec | wnewsom-bricks/src/GameBoard.java:50-60 | The scan from a row lists the valid heads in that row and all later rows, exactly and in row-major order. |
| GameBoard.AvailablePlacements | wnewsom-bricks/src/GameBoard.java:50-63 | Lists exactly the valid heads, in strictly row-major order and without duplicates. It is empty exactly when no valid head exists. |
| GameBoard.EmptyBoardPlacementCount | wnewsom-bricks/src/GameBoard.java:50-60 | An empty board offers rows·(cols−1) horizontal and (rows−1)·cols vertical placements, with negative dimensions clamped to zero. |
| BoardObject.Grid.constructor | wnewsom-bricks/src/GameBoard.java:25-34 | A new object has a fresh bitmap and is valid, and it represents exactly the empty board of the given dimensions. |
| BoardObject.Grid.IsValid | wnewsom-bricks/src/GameBoard.java:69-83 | The bitmap check returns the value-model validity of the placement and changes nothing. |
| BoardObject.Grid.PlaceBrickAt | wnewsom-bricks/src/GameBoard.java:37-46 | Fails exactly on an invalid placement and then leaves the board as it was. Otherwise the board becomes the value-model result, and the object stays valid. |
| BoardObject.Grid.CurrentBricks | wnewsom-bricks/src/GameBoard.java:86-98 | Returns the value model's heads of that orientation, in placement order. |
| BoardObject.Grid.AvailablePlacements | wnewsom-bricks/src/GameBoard.java:50-63 | The nested row-by-row scan returns the value model's available placements and changes nothing. |
| BoardObject.Grid.BoardCopy | wnewsom-bricks/src/GameBoard.java:100-109 | The copy is a fresh object with a fresh bitmap that represents the same board. |
| BoardObject.PlaceOnCopy | wnewsom-bricks/src/GameBoard.java:100-106 | Placing a brick on a copy leaves the original board, and so its current bricks and available placements, unchanged. The copy receives exactly the placement. |
| Game.Reset | wnewsom-bricks/src/Game.java:32-35 | The counter is 0 and the board is an empty 3 × 5 board with no bricks. The match invariant holds. |
| Game.PlaceBrick | wnewsom-bricks/src/Game.java:49-68 | Rejected with InvalidPlacement exactly when the placement is invalid. Otherwise the board is the board-level placement and the counter goes up by exactly one. The match invariant is preserved. |
| Game.After | wnewsom-bricks/src/Game.java:54-56 | A rejected call leaves the match (board and counter) unchanged. An accepted call adds the brick and increments the counter. |
| Game.ArePlacementsAvailable | wnewsom-bricks/src/Game.java:80-84 | True exactly when some placement of that orientation is valid. |
| Game.WinnerOf | wnewsom-bricks/src/Game.java:94-103 | Vertical exactly when no horizontal placement is valid, including when vertical is blocked too. Horizontal exactly when horizontal can move and vertical cannot. No winner exactly when both can move. |
| Game.CounterCountsBricks | wnewsom-bricks/src/Game.java:13 | Under the match invariant, the counter equals the number of horizontal plus vertical bricks. |
| Game.CounterCountsCells | wnewsom-bricks/src/Game.java:62-67 | Under the match invariant, the number of occupied cells is exactly twice the counter. |
| Game.ResetHasNoWinner | wnewsom-bricks/src/Game.java:94-102 | Right after a reset, the match has no winner. |
| Game.ResetPlacementCounts | wnewsom-bricks/src/Game.java:32-35 | An empty 3 × 5 match with counter 0, as `Reset` produces, offers 12 horizontal and 10 vertical placements. |
| Game.OneByTwoTieBreak | wnewsom-bricks/src/Game.java:94-96 | On an empty 1 × 2 board, one horizontal brick leaves no placement for either orientation. The reported winner is Vertical. |
| Game.DecidedStaysDecided | wnewsom-bricks/src/Game.java:94-102 | After a further successful placement, a decided match stays decided and a Vertical win stays a Vertical win. |

## Left out

- The Swing user interface (MainFrame.java) is not modelled: painting, mapping mouse pixels to grid cells, dialogs and button enabling. Alternation of turns is enforced there, so the engine accepts either orientation on any call.
- The random choice of the starting player and the minimax agent stub are not modelled. The agent is unimplemented in the source.
- `getTheBoard`/`setTheBoard` are left out. Replacing the board from outside breaks the counter invariant and is not part of the rules.
- `BricksApp.main` and `BRICK_SIZE` are left out as launch and pixel concerns. Only `MAX_ROWS` = 3 and `MAX_COLS` = 5 appear, as `Game.MAX_ROWS` and `Game.MAX_COLS`.
- Integer orientation codes other than −1, 0 and 1 cannot arise, because orientations are an enumeration. A null `Placement` cannot arise either.
- Coordinates and dimensions are unbounded integers. The source's stubs do not fix how a bounds check on `col + 1` behaves at Java's 32-bit limit, so 32-bit wrap-around is not modelled. `turnCtr` is a `nat`.
- Value-level boards are immutable, so copying one is plain assignment. Deep-copy independence is stated for the mutable `BoardObject.Grid`.
