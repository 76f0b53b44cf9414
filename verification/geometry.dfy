/**
  Grid geometry of the bricks game: grid coordinates, the two brick
  orientations, and the two cells a brick covers.

  A brick is addressed by its head: the left cell of a horizontal brick
  and the top cell of a vertical one. The tail is the other cell.
 */
module Geometry {

  /** The two brick orientations; they double as the two players. */
  datatype Orientation = Horizontal | Vertical {
    /** The opposing orientation (the other player). */
    function Other(): (r: Orientation)
      ensures r != this
    {
      match this
      case Horizontal => Vertical
      case Vertical => Horizontal
    }
  }

  /** A zero-based (row, col) grid coordinate. */
  datatype Placement = Placement(row: int, col: int)

  /** A placed brick: its orientation and the coordinate of its head. */
  datatype Brick = Brick(orientation: Orientation, head: Placement)

  /** The second cell of a brick of orientation `o` whose head is `p`. */
  function Tail(o: Orientation, p: Placement): (t: Placement)
    ensures t != p
    ensures o.Horizontal? ==> t.row == p.row && t.col == p.col + 1
    ensures o.Vertical? ==> t.row == p.row + 1 && t.col == p.col
  {
    match o
    case Horizontal => Placement(p.row, p.col + 1)
    case Vertical => Placement(p.row + 1, p.col)
  }

  /** The two cells covered by a brick of orientation `o` with head `p`. */
  function Footprint(o: Orientation, p: Placement): set<Placement>
  {
    {p, Tail(o, p)}
  }

  /** The footprint of a placed brick. */
  function Cells(b: Brick): set<Placement>
  {
    Footprint(b.orientation, b.head)
  }

  /** Is `p` a cell of a `rows` by `cols` grid? */
  predicate InGrid(rows: int, cols: int, p: Placement)
  {
    0 <= p.row < rows && 0 <= p.col < cols
  }

  /** Row-major order on coordinates: row first, then column. */
  predicate RowMajorBefore(p: Placement, q: Placement)
  {
    p.row < q.row || (p.row == q.row && p.col < q.col)
  }

  /** The sequence is strictly increasing in row-major order. */
  predicate StrictlyRowMajor(s: seq<Placement>)
  {
    forall i, j :: 0 <= i < j < |s| ==> RowMajorBefore(s[i], s[j])
  }

  /** No coordinate occurs twice. */
  predicate Distinct(s: seq<Placement>)
  {
    forall i, j :: 0 <= i < j < |s| ==> s[i] != s[j]
  }
}
