/**
  The board of the bricks game as an immutable value: the grid size, the set
  of occupied cells, and the placed bricks in placement order.

  Occupancy alone does not tell where one brick ends and the next begins, so
  the bricks are stored as well; `Wf` ties the two together.
 */
module GameBoard {
  import opened Geometry

  /** The only way a board operation can fail. */
  datatype BricksError = InvalidPlacement

  /** Success with a value, or a board error. */
  datatype Result<T> = Ok(value: T) | Err(error: BricksError)

  datatype Board = Board(rows: int, cols: int, occupied: set<Placement>, bricks: seq<Brick>)

  /** The cells of the board's grid. */
  predicate OnBoard(b: Board, p: Placement)
  {
    InGrid(b.rows, b.cols, p)
  }

  /** The union of the footprints of `s`. */
  function Covered(s: seq<Brick>): set<Placement>
  {
    if |s| == 0 then {} else Covered(s[..|s| - 1]) + Cells(s[|s| - 1])
  }

  /** No two bricks of `s` share a cell. */
  predicate Disjoint(s: seq<Brick>)
  {
    forall i, j :: 0 <= i < j < |s| ==> Cells(s[i]) !! Cells(s[j])
  }

  /**
    The board invariant: every brick lies inside the grid, no two bricks
    overlap, and the occupied cells are exactly the cells the bricks cover.
   */
  predicate Wf(b: Board)
  {
    && (forall i :: 0 <= i < |b.bricks| ==> forall c :: c in Cells(b.bricks[i]) ==> OnBoard(b, c))
    && Disjoint(b.bricks)
    && b.occupied == Covered(b.bricks)
  }

  /** Every brick of `s` contributes its footprint to `Covered(s)`. */
  lemma {:induction false} CellsInCovered(s: seq<Brick>, i: int)
    requires 0 <= i < |s|
    ensures Cells(s[i]) <= Covered(s)
    decreases |s|
  {
    if i < |s| - 1 {
      CellsInCovered(s[..|s| - 1], i);
    }
  }

  /** Covered cells of a disjoint brick list number two per brick. */
  lemma {:induction false} CoveredCount(s: seq<Brick>)
    requires Disjoint(s)
    ensures |Covered(s)| == 2 * |s|
    decreases |s|
  {
    if |s| > 0 {
      var init := s[..|s| - 1];
      var last := s[|s| - 1];
      CoveredCount(init);
      forall c | c in Covered(init)
        ensures c !in Cells(last)
      {
        var i := CoveredOwner(init, c);
        assert Cells(s[i]) !! Cells(s[|s| - 1]);
      }
      assert |Cells(last)| == 2;
    }
  }

  /** A brick of `s` covering `c`, for a covered cell `c`. */
  lemma {:induction false} CoveredOwner(s: seq<Brick>, c: Placement) returns (i: int)
    requires c in Covered(s)
    ensures 0 <= i < |s| && c in Cells(s[i])
    decreases |s|
  {
    if c in Cells(s[|s| - 1]) {
      i := |s| - 1;
    } else {
      i := CoveredOwner(s[..|s| - 1], c);
    }
  }

  /** On a well-formed board every brick occupies two cells of its own. */
  lemma OccupiedCount(b: Board)
    requires Wf(b)
    ensures |b.occupied| == 2 * |b.bricks|
  {
    CoveredCount(b.bricks);
  }

  /**
    A board with no bricks (GameBoard's constructor). Any dimensions are
    accepted; a non-positive dimension gives a grid with no cells.
   */
  function NewBoard(rows: int, cols: int): (b: Board)
    ensures b.rows == rows && b.cols == cols
    ensures Wf(b)
    ensures CurrentBricks(b, Horizontal) == [] && CurrentBricks(b, Vertical) == []
    ensures forall o, p :: IsValid(b, o, p) <==> OnBoard(b, p) && OnBoard(b, Tail(o, p))
  {
    Board(rows, cols, {}, [])
  }

  /**
    Could a brick of orientation `o` be placed with its head at `p`? The head
    must be on the board with room for the tail (to the right of a
    horizontal head, below a vertical one), and neither cell may be occupied.
   */
  predicate IsValid(b: Board, o: Orientation, p: Placement)
    ensures IsValid(b, o, p) ==> OnBoard(b, p) && OnBoard(b, Tail(o, p))
    ensures IsValid(b, o, p) ==> p !in b.occupied && Tail(o, p) !in b.occupied
  {
    && 0 <= p.row && 0 <= p.col
    && (match o
        case Horizontal => p.row < b.rows && p.col + 1 < b.cols
        case Vertical => p.row + 1 < b.rows && p.col < b.cols)
    && p !in b.occupied
    && Tail(o, p) !in b.occupied
  }

  /** `IsValid` in terms of cells: the whole footprint is free board. */
  lemma IsValidIffFootprintFree(b: Board, o: Orientation, p: Placement)
    ensures IsValid(b, o, p) <==> forall c :: c in Footprint(o, p) ==> OnBoard(b, c) && c !in b.occupied
  {
    assert p in Footprint(o, p) && Tail(o, p) in Footprint(o, p);
  }

  /**
    Commits a brick: both cells become occupied and the brick is appended to
    the placed bricks. Fails, changing nothing, if the placement is invalid.
   */
  function PlaceBrickAt(b: Board, o: Orientation, p: Placement): (r: Result<Board>)
    ensures r.Err? <==> !IsValid(b, o, p)
    ensures r.Ok? ==> r.value.rows == b.rows && r.value.cols == b.cols
    ensures r.Ok? ==> CurrentBricks(r.value, o) == CurrentBricks(b, o) + [p]
    ensures r.Ok? ==> CurrentBricks(r.value, o.Other()) == CurrentBricks(b, o.Other())
    ensures r.Ok? ==> Footprint(o, p) <= r.value.occupied
    ensures r.Ok? ==> forall c :: c !in Footprint(o, p) ==> (c in r.value.occupied <==> c in b.occupied)
    ensures r.Ok? && Wf(b) ==> Wf(r.value)
  {
    if !IsValid(b, o, p) then
      Err(InvalidPlacement)
    else
      var b' := Board(b.rows, b.cols, b.occupied + Footprint(o, p), b.bricks + [Brick(o, p)]);
      assert b'.bricks[..|b'.bricks| - 1] == b.bricks;
      PlacePreservesWf(b, o, p, b');
      Ok(b')
  }

  lemma PlacePreservesWf(b: Board, o: Orientation, p: Placement, b': Board)
    requires IsValid(b, o, p)
    requires b' == Board(b.rows, b.cols, b.occupied + Footprint(o, p), b.bricks + [Brick(o, p)])
    ensures Wf(b) ==> Wf(b')
  {
    assert b'.bricks[..|b'.bricks| - 1] == b.bricks;
    if Wf(b) {
      forall i, j | 0 <= i < j < |b'.bricks|
        ensures Cells(b'.bricks[i]) !! Cells(b'.bricks[j])
      {
        if j == |b.bricks| {
          CellsInCovered(b.bricks, i);
        }
      }
    }
  }

  /**
    After a placement, a brick fits exactly where it fitted before and does
    not overlap the new brick; in particular no overlapping brick fits.
   */
  lemma ValidityAfterPlacement(b: Board, o: Orientation, p: Placement)
    requires IsValid(b, o, p)
    ensures forall o', q :: IsValid(PlaceBrickAt(b, o, p).value, o', q) <==> IsValid(b, o', q) && Footprint(o', q) !! Footprint(o, p)
  {
  }

  /** The heads of the bricks of orientation `o` in `s`, in order. */
  function Heads(s: seq<Brick>, o: Orientation): (r: seq<Placement>)
    ensures |r| <= |s|
    ensures forall p :: p in r <==> Brick(o, p) in s
  {
    if |s| == 0 then []
    else
      var last := s[|s| - 1];
      assert s == s[..|s| - 1] + [last];
      Heads(s[..|s| - 1], o) + (if last.orientation == o then [last.head] else [])
  }

  /**
    The heads of the placed bricks of orientation `o`, in placement order
    (`currentBricks`). An empty sequence when there are none.
   */
  function CurrentBricks(b: Board, o: Orientation): (r: seq<Placement>)
    ensures forall p :: p in r <==> Brick(o, p) in b.bricks
  {
    Heads(b.bricks, o)
  }

  /** Every placed brick is counted under exactly one orientation. */
  lemma {:induction false} HeadsPartition(s: seq<Brick>)
    ensures |Heads(s, Horizontal)| + |Heads(s, Vertical)| == |s|
    decreases |s|
  {
    if |s| > 0 {
      HeadsPartition(s[..|s| - 1]);
    }
  }

  /** The cells covered by bricks of orientation `o` with the given heads. */
  function CellsOf(o: Orientation, heads: seq<Placement>): set<Placement>
  {
    if |heads| == 0 then {} else CellsOf(o, heads[..|heads| - 1]) + Footprint(o, heads[|heads| - 1])
  }

  lemma {:induction false} CellsOfAppend(o: Orientation, h: seq<Placement>, t: seq<Placement>)
    ensures CellsOf(o, h + t) == CellsOf(o, h) + CellsOf(o, t)
    decreases |t|
  {
    if |t| == 0 {
      assert h + t == h;
    } else {
      assert (h + t)[..|h + t| - 1] == h + t[..|t| - 1];
      CellsOfAppend(o, h, t[..|t| - 1]);
    }
  }

  /**
    Occupancy is recoverable from the placed bricks: the footprints of the
    horizontal heads together with those of the vertical heads are exactly
    the cells covered by the bricks.
   */
  lemma {:induction false} CoveredFromHeads(s: seq<Brick>)
    ensures Covered(s) == CellsOf(Horizontal, Heads(s, Horizontal)) + CellsOf(Vertical, Heads(s, Vertical))
    decreases |s|
  {
    if |s| > 0 {
      var last := s[|s| - 1];
      CoveredFromHeads(s[..|s| - 1]);
      CellsOfAppend(Horizontal, Heads(s[..|s| - 1], Horizontal), if last.orientation == Horizontal then [last.head] else []);
      CellsOfAppend(Vertical, Heads(s[..|s| - 1], Vertical), if last.orientation == Vertical then [last.head] else []);
      assert CellsOf(last.orientation, [last.head]) == Cells(last) by {
        assert [last.head][..0] == [];
      }
    }
  }

  /** On a well-formed board the occupancy bitmap is rebuilt from `CurrentBricks`. */
  lemma OccupancyFromCurrentBricks(b: Board)
    requires Wf(b)
    ensures b.occupied == CellsOf(Horizontal, CurrentBricks(b, Horizontal)) + CellsOf(Vertical, CurrentBricks(b, Vertical))
  {
    CoveredFromHeads(b.bricks);
  }

  /** The valid heads in row `r` from column `c` on, left to right. */
  function ScanRow(b: Board, o: Orientation, r: int, c: int): seq<Placement>
    decreases b.cols - c
  {
    if c >= b.cols then []
    else
      var here := Placement(r, c);
      (if IsValid(b, o, here) then [here] else []) + ScanRow(b, o, r, c + 1)
  }

  /** The valid heads in rows `r` and below, in row-major order. */
  function ScanRows(b: Board, o: Orientation, r: int): seq<Placement>
    decreases b.rows - r
  {
    if r >= b.rows then [] else ScanRow(b, o, r, 0) + ScanRows(b, o, r + 1)
  }

  /** The scan of a row lists, left to right, exactly its valid heads from column `c` on. */
  lemma {:induction false} ScanRowSpec(b: Board, o: Orientation, r: int, c: int)
    ensures forall q :: q in ScanRow(b, o, r, c) <==> q.row == r && c <= q.col && IsValid(b, o, q)
    ensures StrictlyRowMajor(ScanRow(b, o, r, c))
    ensures forall i :: 0 <= i < |ScanRow(b, o, r, c)| ==> ScanRow(b, o, r, c)[i].row == r
    decreases b.cols - c
  {
    if c < b.cols {
      ScanRowSpec(b, o, r, c + 1);
    }
  }

  /** The scan from row `r` lists, in row-major order, exactly the valid heads in rows `r` and below. */
  lemma {:induction false} ScanRowsSpec(b: Board, o: Orientation, r: int)
    ensures forall q :: q in ScanRows(b, o, r) <==> r <= q.row && IsValid(b, o, q)
    ensures StrictlyRowMajor(ScanRows(b, o, r))
    ensures forall i :: 0 <= i < |ScanRows(b, o, r)| ==> r <= ScanRows(b, o, r)[i].row
    decreases b.rows - r
  {
    if r < b.rows {
      ScanRowSpec(b, o, r, 0);
      ScanRowsSpec(b, o, r + 1);
    }
  }

  /**
    Every valid head for orientation `o`, scanned in row-major order
    (`availablePlacements`). Empty when no brick of that orientation fits.
   */
  function AvailablePlacements(b: Board, o: Orientation): (s: seq<Placement>)
    ensures forall q :: q in s <==> IsValid(b, o, q)
    ensures StrictlyRowMajor(s)
    ensures Distinct(s)
    ensures s == [] <==> !exists q :: IsValid(b, o, q)
  {
    ScanRowsSpec(b, o, 0);
    var s := ScanRows(b, o, 0);
    assert |s| > 0 ==> s[0] in s;
    s
  }

  /** Clamps a dimension at zero. */
  function NonNeg(x: int): nat
  {
    if x < 0 then 0 else x
  }

  lemma {:induction false} EmptyRowCount(rows: int, cols: int, o: Orientation, r: int, c: int)
    requires 0 <= r < rows && 0 <= c
    ensures |ScanRow(NewBoard(rows, cols), o, r, c)| ==
      match o
      case Horizontal => NonNeg(cols - 1 - c)
      case Vertical => if r + 1 < rows then NonNeg(cols - c) else 0
    decreases cols - c
  {
    if c < cols {
      EmptyRowCount(rows, cols, o, r, c + 1);
    }
  }

  lemma MulSucc(k: nat, w: nat)
    ensures (k + 1) * w == w + k * w
  {
  }

  lemma {:induction false} EmptyRowsCount(rows: int, cols: int, o: Orientation, r: int)
    requires 0 <= r
    ensures |ScanRows(NewBoard(rows, cols), o, r)| ==
      match o
      case Horizontal => NonNeg(rows - r) * NonNeg(cols - 1)
      case Vertical => NonNeg(rows - 1 - r) * NonNeg(cols)
    decreases rows - r
  {
    if r < rows {
      var b := NewBoard(rows, cols);
      var first := |ScanRow(b, o, r, 0)|;
      var rest := |ScanRows(b, o, r + 1)|;
      assert |ScanRows(b, o, r)| == first + rest;
      EmptyRowCount(rows, cols, o, r, 0);
      EmptyRowsCount(rows, cols, o, r + 1);
      match o
      case Horizontal =>
        MulSucc(NonNeg(rows - (r + 1)), NonNeg(cols - 1));
      case Vertical =>
        if r + 1 < rows {
          MulSucc(NonNeg(rows - 1 - (r + 1)), NonNeg(cols));
        }
    }
  }

  /**
    On an empty board there are rows * (cols - 1) horizontal and
    (rows - 1) * cols vertical placements.
   */
  lemma EmptyBoardPlacementCount(rows: int, cols: int)
    ensures |AvailablePlacements(NewBoard(rows, cols), Horizontal)| == NonNeg(rows) * NonNeg(cols - 1)
    ensures |AvailablePlacements(NewBoard(rows, cols), Vertical)| == NonNeg(rows - 1) * NonNeg(cols)
  {
    EmptyRowsCount(rows, cols, Horizontal, 0);
    EmptyRowsCount(rows, cols, Vertical, 0);
  }
}
