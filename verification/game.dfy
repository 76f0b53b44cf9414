/**
  A match of the bricks game: one board and a counter of successful
  placements. The two orientations are the two players; the player who
  cannot place a brick of its orientation has lost.
 */
module Game {
  import opened Geometry
  import opened GameBoard

  /** Board dimensions of the standard game. */
  const MAX_ROWS: int := 3
  const MAX_COLS: int := 5

  /** The winning orientation, or none while both players can still move. */
  datatype Winner = Player(orientation: Orientation) | NoWinner

  datatype Match = Match(board: Board, turnCtr: nat)

  /** The counter counts the placed bricks, and the board is well formed. */
  predicate Inv(m: Match)
  {
    Wf(m.board) && m.turnCtr == |m.board.bricks|
  }

  /** Starts over: an empty standard-size board and a zero counter (`reset`). */
  function Reset(): (m: Match)
    ensures m.turnCtr == 0
    ensures m.board.rows == MAX_ROWS && m.board.cols == MAX_COLS
    ensures CurrentBricks(m.board, Horizontal) == [] && CurrentBricks(m.board, Vertical) == []
    ensures Inv(m)
  {
    Match(NewBoard(MAX_ROWS, MAX_COLS), 0)
  }

  /**
    A move (`placeBrick`): an invalid placement is rejected with
    InvalidPlacement and no new state; a valid one commits the brick on the
    board and advances the counter by one.
   */
  function PlaceBrick(m: Match, o: Orientation, p: Placement): (r: Result<Match>)
    ensures r.Err? <==> !IsValid(m.board, o, p)
    ensures r.Err? ==> r.error == InvalidPlacement
    ensures r.Ok? ==> PlaceBrickAt(m.board, o, p).Ok? && r.value.board == PlaceBrickAt(m.board, o, p).value
    ensures r.Ok? ==> r.value.turnCtr == m.turnCtr + 1
    ensures r.Ok? && Inv(m) ==> Inv(r.value)
  {
    if !IsValid(m.board, o, p) then
      Err(InvalidPlacement)
    else
      var b := PlaceBrickAt(m.board, o, p).value;
      assert b.bricks == m.board.bricks + [Brick(o, p)];
      Ok(Match(b, m.turnCtr + 1))
  }

  /**
    The match as the caller sees it after a `placeBrick` call: the new state,
    or the unchanged old one when the call threw.
   */
  function After(m: Match, o: Orientation, p: Placement): (m': Match)
    ensures !IsValid(m.board, o, p) ==> m' == m
    ensures IsValid(m.board, o, p) ==> m'.turnCtr == m.turnCtr + 1 && Brick(o, p) in m'.board.bricks
    ensures Inv(m) ==> Inv(m')
  {
    match PlaceBrick(m, o, p)
    case Ok(next) => next
    case Err(_) => m
  }

  /** Can a brick of orientation `o` still be placed (`arePlacementsAvailable`)? */
  function ArePlacementsAvailable(m: Match, o: Orientation): (r: bool)
    ensures r <==> exists p :: IsValid(m.board, o, p)
  {
    |AvailablePlacements(m.board, o)| > 0
  }

  /**
    The winner (`winner`). Horizontal availability is examined first: when
    neither orientation can move, Vertical is reported.
   */
  function WinnerOf(m: Match): (w: Winner)
    ensures w == Player(Vertical) <==> !(exists p :: IsValid(m.board, Horizontal, p))
    ensures w == Player(Horizontal) <==> (exists p :: IsValid(m.board, Horizontal, p)) && !(exists p :: IsValid(m.board, Vertical, p))
    ensures w == NoWinner <==> (exists p :: IsValid(m.board, Horizontal, p)) && (exists p :: IsValid(m.board, Vertical, p))
  {
    if !ArePlacementsAvailable(m, Horizontal) then Player(Vertical)
    else if !ArePlacementsAvailable(m, Vertical) then Player(Horizontal)
    else NoWinner
  }

  /** Under the invariant, the counter is the number of placed bricks of both orientations. */
  lemma CounterCountsBricks(m: Match)
    requires Inv(m)
    ensures m.turnCtr == |CurrentBricks(m.board, Horizontal)| + |CurrentBricks(m.board, Vertical)|
  {
    HeadsPartition(m.board.bricks);
  }

  /** Under the invariant, each turn taken has covered two cells. */
  lemma CounterCountsCells(m: Match)
    requires Inv(m)
    ensures |m.board.occupied| == 2 * m.turnCtr
  {
    OccupiedCount(m.board);
  }

  /** A fresh standard game has not been decided: both players can move. */
  lemma ResetHasNoWinner()
    ensures WinnerOf(Reset()) == NoWinner
  {
    var m := Reset();
    assert IsValid(m.board, Horizontal, Placement(0, 0));
    assert IsValid(m.board, Vertical, Placement(0, 0));
  }

  /** An empty standard board, as `Reset` installs, offers 12 horizontal and 10 vertical placements. */
  lemma ResetPlacementCounts(m: Match)
    requires m.board.rows == MAX_ROWS && m.board.cols == MAX_COLS
    requires Inv(m) && m.turnCtr == 0
    ensures |AvailablePlacements(m.board, Horizontal)| == 12
    ensures |AvailablePlacements(m.board, Vertical)| == 10
  {
    var b := m.board;
    assert b == NewBoard(b.rows, b.cols);
    assert NonNeg(b.rows) == 3 && NonNeg(b.rows - 1) == 2;
    assert NonNeg(b.cols) == 5 && NonNeg(b.cols - 1) == 4;
    EmptyBoardPlacementCount(b.rows, b.cols);
  }

  /**
    On an empty 1 x 2 board one horizontal brick fills the grid; then neither
    orientation can move and the tie-break reports Vertical.
   */
  lemma OneByTwoTieBreak(m: Match)
    requires m.board.rows == 1 && m.board.cols == 2
    requires Inv(m) && m.turnCtr == 0
    ensures PlaceBrick(m, Horizontal, Placement(0, 0)).Ok?
    ensures var m' := PlaceBrick(m, Horizontal, Placement(0, 0)).value;
      && AvailablePlacements(m'.board, Horizontal) == []
      && AvailablePlacements(m'.board, Vertical) == []
      && WinnerOf(m') == Player(Vertical)
  {
    assert m.board.occupied == {};
    var b := PlaceBrick(m, Horizontal, Placement(0, 0)).value.board;
    assert Placement(0, 0) in b.occupied && Placement(0, 1) in b.occupied;
    assert forall q :: !IsValid(b, Horizontal, q);
    assert forall q :: !IsValid(b, Vertical, q);
  }

  /**
    Once decided, a match stays decided: a further successful placement
    never brings back NoWinner, and a Vertical win stays a Vertical win.
   */
  lemma DecidedStaysDecided(m: Match, o: Orientation, p: Placement)
    requires WinnerOf(m) != NoWinner
    requires PlaceBrick(m, o, p).Ok?
    ensures WinnerOf(PlaceBrick(m, o, p).value) != NoWinner
    ensures WinnerOf(m) == Player(Vertical) ==> WinnerOf(PlaceBrick(m, o, p).value) == Player(Vertical)
  {
    ValidityAfterPlacement(m.board, o, p);
  }
}
