/**
  A mutable game board with reference semantics, like the `GameBoard` class:
  an occupancy bitmap plus the list of placed bricks. Each method is tied to
  the value-level board of module GameBoard through the abstraction `Value`,
  and `BoardCopy` shows that a deep copy shares no mutable state.
 */
module BoardObject {
  import opened Geometry
  import opened GameBoard

  class Grid {
    const rows: int
    const cols: int
    /** occ[r, c] is true when cell (r, c) is covered by a brick. */
    const occ: array2<bool>
    var bricks: seq<Brick>

    /** The cells whose bitmap entry is set. */
    ghost function Occupied(): set<Placement>
      reads this, occ
    {
      set r, c | 0 <= r < occ.Length0 && 0 <= c < occ.Length1 && occ[r, c] :: Placement(r, c)
    }

    /** The board value this object represents. */
    ghost function Value(): Board
      reads this, occ
    {
      Board(rows, cols, Occupied(), bricks)
    }

    /** The bitmap has one entry per board cell. */
    predicate Shaped()
      reads this
    {
      occ.Length0 == NonNeg(rows) && occ.Length1 == NonNeg(cols)
    }

    ghost predicate Valid()
      reads this, occ
    {
      Shaped() && Wf(Value())
    }

    /** A new board with no bricks and every bitmap entry clear. */
    constructor (rows: int, cols: int)
      ensures Valid() && fresh(occ)
      ensures Value() == NewBoard(rows, cols)
    {
      this.rows := rows;
      this.cols := cols;
      occ := new bool[NonNeg(rows), NonNeg(cols)]((_, _) => false);
      bricks := [];
      new;
      assert Occupied() == {};
    }

    /** The pure query `isValid`: bounds first, then the two bitmap entries. */
    method IsValid(o: Orientation, p: Placement) returns (v: bool)
      requires Shaped()
      ensures v == GameBoard.IsValid(Value(), o, p)
    {
      var t := Tail(o, p);
      if !(0 <= p.row < NonNeg(rows) && 0 <= p.col < NonNeg(cols) && 0 <= t.row < NonNeg(rows) && 0 <= t.col < NonNeg(cols)) {
        return false;
      }
      assert (p in Occupied()) == occ[p.row, p.col];
      assert (t in Occupied()) == occ[t.row, t.col];
      v := !occ[p.row, p.col] && !occ[t.row, t.col];
    }

    /**
      `placeBrickAt`: sets both bitmap entries and records the brick, or
      reports InvalidPlacement and changes nothing.
     */
    method PlaceBrickAt(o: Orientation, p: Placement) returns (r: Result<()>)
      requires Valid()
      modifies this, occ
      ensures Valid()
      ensures r.Err? <==> !GameBoard.IsValid(old(Value()), o, p)
      ensures r.Err? ==> Value() == old(Value())
      ensures r.Ok? ==> Value() == GameBoard.PlaceBrickAt(old(Value()), o, p).value
    {
      var v := IsValid(o, p);
      if !v {
        return Err(InvalidPlacement);
      }
      ghost var next := GameBoard.PlaceBrickAt(Value(), o, p).value;
      Commit(o, p);
      assert Value() == next;
      return Ok(());
    }

    /** Records a brick whose placement has been checked. */
    method Commit(o: Orientation, p: Placement)
      requires Shaped() && GameBoard.IsValid(Value(), o, p)
      modifies this, occ
      ensures Shaped()
      ensures Value() == Board(rows, cols, old(Occupied()) + Footprint(o, p), old(bricks) + [Brick(o, p)])
    {
      Mark(p);
      Mark(Tail(o, p));
      bricks := bricks + [Brick(o, p)];
    }

    /** Sets the bitmap entry of the board cell `p`. */
    method Mark(p: Placement)
      requires 0 <= p.row < occ.Length0 && 0 <= p.col < occ.Length1
      modifies occ
      ensures Occupied() == old(Occupied()) + {p}
    {
      occ[p.row, p.col] := true;
      forall x
        ensures x in Occupied() <==> x in old(Occupied()) + {p}
      {
        if x in old(Occupied()) + {p} {
          assert 0 <= x.row < occ.Length0 && 0 <= x.col < occ.Length1 && occ[x.row, x.col];
        }
      }
    }

    /** `currentBricks`: the heads of the bricks of orientation `o`, in placement order. */
    method CurrentBricks(o: Orientation) returns (s: seq<Placement>)
      requires Valid()
      ensures s == GameBoard.CurrentBricks(Value(), o)
    {
      s := [];
      var i := 0;
      while i < |bricks|
        invariant 0 <= i <= |bricks|
        invariant s == Heads(bricks[..i], o)
      {
        assert bricks[..i + 1][..i] == bricks[..i];
        if bricks[i].orientation == o {
          s := s + [bricks[i].head];
        }
        i := i + 1;
      }
      assert bricks[..i] == bricks;
    }

    /** The valid heads of row `r`, left to right. */
    method ScanRowOf(o: Orientation, r: int) returns (s: seq<Placement>)
      requires Shaped()
      ensures s == ScanRow(Value(), o, r, 0)
    {
      ghost var b := Value();
      s := [];
      var c := 0;
      while c < cols
        invariant 0 <= c <= NonNeg(cols)
        invariant s + ScanRow(b, o, r, c) == ScanRow(b, o, r, 0)
      {
        var v := IsValid(o, Placement(r, c));
        var here := if v then [Placement(r, c)] else [];
        AppendStep(s, here, ScanRow(b, o, r, c + 1), ScanRow(b, o, r, 0));
        s := s + here;
        c := c + 1;
      }
    }

    /**
      `availablePlacements`: scans the grid row by row, left to right, and
      collects every head where a brick of orientation `o` fits.
     */
    method AvailablePlacements(o: Orientation) returns (s: seq<Placement>)
      requires Valid()
      ensures s == GameBoard.AvailablePlacements(Value(), o)
    {
      ghost var b := Value();
      s := [];
      var r := 0;
      while r < rows
        invariant 0 <= r <= NonNeg(rows)
        invariant s + ScanRows(b, o, r) == ScanRows(b, o, 0)
      {
        var row := ScanRowOf(o, r);
        AppendStep(s, row, ScanRows(b, o, r + 1), ScanRows(b, o, 0));
        s := s + row;
        r := r + 1;
      }
    }

    /** `boardCopy`: a fresh object with a fresh bitmap holding the same board. */
    method BoardCopy() returns (copy: Grid)
      requires Valid()
      ensures fresh(copy) && fresh(copy.occ)
      ensures copy.Valid() && copy.Value() == Value()
    {
      copy := new Grid(rows, cols);
      forall i, j | 0 <= i < occ.Length0 && 0 <= j < occ.Length1 {
        copy.occ[i, j] := occ[i, j];
      }
      copy.bricks := bricks;
      assert copy.Occupied() == Occupied();
    }
  }

  /**
    Look-ahead on a copy: placing a brick on a copy of `g` leaves `g` itself,
    and hence its current bricks and available placements, as it was.
   */
  method PlaceOnCopy(g: Grid, o: Orientation, p: Placement) returns (copy: Grid, r: Result<()>)
    requires g.Valid()
    ensures fresh(copy) && copy.Valid()
    ensures g.Value() == old(g.Value())
    ensures r.Ok? <==> GameBoard.IsValid(g.Value(), o, p)
    ensures r.Ok? ==> copy.Value() == GameBoard.PlaceBrickAt(g.Value(), o, p).value
  {
    copy := g.BoardCopy();
    r := copy.PlaceBrickAt(o, p);
  }

  /** One step of a left-to-right scan: moving `x` from the rest onto the prefix. */
  lemma AppendStep(s: seq<Placement>, x: seq<Placement>, rest: seq<Placement>, total: seq<Placement>)
    requires s + (x + rest) == total
    ensures (s + x) + rest == total
  {
    assert (s + x) + rest == s + (x + rest);
  }
}
