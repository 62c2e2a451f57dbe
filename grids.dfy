/**
 * Positions on a width x height grid of squares: neighbours across a
 * side, the boundary, how many squares there are, and why a set of
 * squares closed under moving to neighbours is the whole grid.
 */
module Grids {

  import opened Sides

  /** A square's coordinates: x counts columns from the left, y rows from the top. */
  datatype Pos = Pos(x: int, y: int)

  /** The square across side `s` of the square at `p`. */
  function Neighbour(p: Pos, s: Side): (q: Pos)
    ensures (q.x == p.x) != (q.y == p.y)
  {
    match s
    case Top => Pos(p.x, p.y - 1)
    case Right => Pos(p.x + 1, p.y)
    case Bottom => Pos(p.x, p.y + 1)
    case Left => Pos(p.x - 1, p.y)
  }

  predicate InBounds(w: int, h: int, p: Pos)
  {
    0 <= p.x < w && 0 <= p.y < h
  }

  /** The square across a side is one step away, along a row or a column. */
  lemma NeighbourAdjacent(p: Pos, s: Side)
    ensures var q := Neighbour(p, s);
      || (q.x == p.x && (q.y == p.y - 1 || q.y == p.y + 1))
      || (q.y == p.y && (q.x == p.x - 1 || q.x == p.x + 1))
  {
  }

  /** Crossing a side and then its opposite leads back; different sides lead to different squares. */
  lemma NeighbourInverse(p: Pos, s: Side)
    ensures Neighbour(Neighbour(p, s), Opposite(s)) == p
    ensures forall e :: e != s ==> Neighbour(p, e) != Neighbour(p, s)
    ensures Neighbour(p, s) != p
  {
  }

  /** The square at `p` lies on the grid edge that side `s` belongs to. */
  predicate OnEdge(w: int, h: int, p: Pos, s: Side)
  {
    InBounds(w, h, p) &&
    match s
    case Top => p.y == 0
    case Bottom => p.y == h - 1
    case Left => p.x == 0
    case Right => p.x == w - 1
  }

  /** A square is on the edge of side `s` exactly when that side faces off the grid. */
  lemma OnEdgeFacesOut(w: int, h: int, p: Pos, s: Side)
    requires InBounds(w, h, p)
    ensures OnEdge(w, h, p, s) <==> !InBounds(w, h, Neighbour(p, s))
  {
  }

  /** Every square of a w x h grid. */
  ghost function AllCells(w: int, h: int): (cells: set<Pos>)
    ensures forall p :: p in cells <==> InBounds(w, h, p)
  {
    set x, y | 0 <= x < w && 0 <= y < h :: Pos(x, y)
  }

  /** Column x down to row h, built one square at a time. */
  ghost function ColumnUpTo(x: int, h: int): set<Pos>
    decreases h
  {
    if h <= 0 then {} else ColumnUpTo(x, h - 1) + {Pos(x, h - 1)}
  }

  /** The first w columns, built one column at a time. */
  ghost function ColumnsUpTo(w: int, h: int): set<Pos>
    decreases w
  {
    if w <= 0 then {} else ColumnsUpTo(w - 1, h) + ColumnUpTo(w - 1, h)
  }

  lemma {:induction false} ColumnUpToHas(x: int, h: int, p: Pos)
    ensures p in ColumnUpTo(x, h) <==> p.x == x && 0 <= p.y < h
    decreases h
  {
    if h > 0 {
      ColumnUpToHas(x, h - 1, p);
    }
  }

  lemma {:induction false} ColumnsUpToHas(w: int, h: int, p: Pos)
    ensures p in ColumnsUpTo(w, h) <==> InBounds(w, h, p)
    decreases w
  {
    if w > 0 {
      ColumnsUpToHas(w - 1, h, p);
      ColumnUpToHas(w - 1, h, p);
    }
  }

  lemma {:induction false} ColumnUpToCount(x: int, h: nat)
    ensures |ColumnUpTo(x, h)| == h
  {
    if h > 0 {
      ColumnUpToCount(x, h - 1);
      ColumnUpToHas(x, h - 1, Pos(x, h - 1));
    }
  }

  lemma {:induction false} ColumnsUpToCount(w: nat, h: nat)
    ensures |ColumnsUpTo(w, h)| == w * h
  {
    if w > 0 {
      var prev, col := ColumnsUpTo(w - 1, h), ColumnUpTo(w - 1, h);
      ColumnsUpToCount(w - 1, h);
      ColumnUpToCount(w - 1, h);
      forall p | p in prev
        ensures p !in col
      {
        ColumnsUpToHas(w - 1, h, p);
        ColumnUpToHas(w - 1, h, p);
      }
      assert prev * col == {};
      assert |ColumnsUpTo(w, h)| == |prev| + |col|;
      assert (w - 1) * h + h == w * h;
    }
  }

  /** A w x h grid has w * h squares. */
  lemma AllCellsCount(w: nat, h: nat)
    ensures |AllCells(w, h)| == w * h
  {
    forall p
      ensures p in AllCells(w, h) <==> p in ColumnsUpTo(w, h)
    {
      ColumnsUpToHas(w, h, p);
    }
    assert AllCells(w, h) == ColumnsUpTo(w, h);
    ColumnsUpToCount(w, h);
  }

  /** Every square of the grid but one: w * h - 1 of them. */
  lemma AllButOneCount(w: int, h: int, cells: set<Pos>, p: Pos)
    requires InBounds(w, h, p)
    requires forall q :: q in cells <==> InBounds(w, h, q) && q != p
    ensures |cells| == w * h - 1
  {
    assert cells == AllCells(w, h) - {p};
    AllCellsCount(w, h);
  }

  /** `seen` is closed under moving from a square of the grid to a neighbour on the grid. */
  ghost predicate Closed(w: int, h: int, seen: set<Pos>)
  {
    forall p, s :: p in seen && InBounds(w, h, p) && InBounds(w, h, Neighbour(p, s)) ==> Neighbour(p, s) in seen
  }

  lemma {:induction false} FloodRow(w: int, h: int, seen: set<Pos>, p: Pos, x: int)
    requires Closed(w, h, seen) && p in seen && InBounds(w, h, p) && 0 <= x < w
    ensures Pos(x, p.y) in seen
    decreases if x < p.x then p.x - x else x - p.x
  {
    if x < p.x {
      FloodRow(w, h, seen, p, x + 1);
      assert Neighbour(Pos(x + 1, p.y), Left) == Pos(x, p.y);
    } else if x > p.x {
      FloodRow(w, h, seen, p, x - 1);
      assert Neighbour(Pos(x - 1, p.y), Right) == Pos(x, p.y);
    }
  }

  lemma {:induction false} FloodColumn(w: int, h: int, seen: set<Pos>, p: Pos, y: int)
    requires Closed(w, h, seen) && p in seen && InBounds(w, h, p) && 0 <= y < h
    ensures Pos(p.x, y) in seen
    decreases if y < p.y then p.y - y else y - p.y
  {
    if y < p.y {
      FloodColumn(w, h, seen, p, y + 1);
      assert Neighbour(Pos(p.x, y + 1), Top) == Pos(p.x, y);
    } else if y > p.y {
      FloodColumn(w, h, seen, p, y - 1);
      assert Neighbour(Pos(p.x, y - 1), Bottom) == Pos(p.x, y);
    }
  }

  /** The grid is connected: a closed set holding one square holds all of them. */
  lemma Flood(w: int, h: int, seen: set<Pos>, p: Pos)
    requires Closed(w, h, seen) && p in seen && InBounds(w, h, p)
    ensures forall q :: InBounds(w, h, q) ==> q in seen
  {
    forall q | InBounds(w, h, q)
      ensures q in seen
    {
      FloodRow(w, h, seen, p, q.x);
      FloodColumn(w, h, seen, Pos(q.x, p.y), q.y);
    }
  }

}
