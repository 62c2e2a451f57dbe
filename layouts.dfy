/**
 * A whole grid of squares as a value, keyed by position, and the shape
 * every grid the engine builds keeps: the sides facing off the grid are
 * set, and the two sides of each inner boundary agree.
 */
module Layouts {

  import opened Sides
  import opened Squares
  import opened Grids

  /** The squares of a maze by position; `g[Pos(x, y)]` is `mazeGrid[x][y]`. */
  type Grid = map<Pos, Square>

  /** The grid holds a square at every position of the w x h grid and nowhere else. */
  ghost predicate Spans(g: Grid, w: int, h: int)
  {
    forall p :: p in g <==> InBounds(w, h, p)
  }

  /** The grid holds squares at positions of the w x h grid only. */
  ghost predicate Within(g: Grid, w: int, h: int)
  {
    forall p :: p in g ==> InBounds(w, h, p)
  }

  /** A fresh w x h grid: every square a new one with walls on its edge sides. */
  ghost function InitialGrid(w: int, h: int): (g: Grid)
    ensures Spans(g, w, h)
    ensures forall p :: p in g ==> g[p] == InitialSquare(w, h, p)
  {
    map p | p in AllCells(w, h) :: InitialSquare(w, h, p)
  }

  /** The fresh grid is the only one of its size whose squares are all fresh. */
  lemma InitialGridUnique(g: Grid, w: int, h: int)
    requires Within(g, w, h)
    requires forall p :: InBounds(w, h, p) ==> p in g
    requires forall p :: p in g ==> g[p] == InitialSquare(w, h, p)
    ensures g == InitialGrid(w, h)
  {
    assert g.Keys == InitialGrid(w, h).Keys;
  }

  /** A new square: walls on the sides on the grid's edge, every other side unset. */
  function InitialSquare(w: int, h: int, p: Pos): (sq: Square)
    ensures !sq.onPath
  {
    Square(if p.y == 0 then Wall else Unset,
           if p.x == w - 1 then Wall else Unset,
           if p.y == h - 1 then Wall else Unset,
           if p.x == 0 then Wall else Unset,
           false)
  }

  /** A side of a new square is a wall exactly when it faces off the grid. */
  lemma InitialSquareSide(w: int, h: int, p: Pos, s: Side)
    requires InBounds(w, h, p)
    ensures InitialSquare(w, h, p).Get(s) == (if InBounds(w, h, Neighbour(p, s)) then Unset else Wall)
  {
  }

  /** The grid with the path mark of the square at `p` set to `b`. */
  function Mark(g: Grid, p: Pos, b: bool): (r: Grid)
    requires p in g
    ensures r.Keys == g.Keys
    ensures r[p].onPath == b
    ensures forall q, s :: q in g ==> r[q].Get(s) == g[q].Get(s)
    ensures forall q :: q in g && q != p ==> r[q] == g[q]
  {
    g[p := g[p].(onPath := b)]
  }

  /** The grid with every path mark cleared. */
  function ClearMarks(g: Grid): (r: Grid)
    ensures r.Keys == g.Keys
    ensures forall q :: q in g ==> r[q] == g[q].(onPath := false)
  {
    map q | q in g :: g[q].(onPath := false)
  }

  /**
   * Side `s` of `p` set to `t` and the facing side of the neighbour set to
   * the mirror image of `t`: one boundary changed on both of its sides.
   */
  function SetFacing(g: Grid, p: Pos, s: Side, t: SideType): (r: Grid)
    requires p in g && Neighbour(p, s) in g
    ensures r.Keys == g.Keys
    ensures r[p] == g[p].Set(s, t)
    ensures r[Neighbour(p, s)] == g[Neighbour(p, s)].Set(Opposite(s), Mirror(t))
    ensures forall q :: q in g && q != p && q != Neighbour(p, s) ==> r[q] == g[q]
  {
    NeighbourInverse(p, s);
    var q := Neighbour(p, s);
    g[p := g[p].Set(s, t)][q := g[q].Set(Opposite(s), Mirror(t))]
  }

  /**
   * The square at `q` once the entrance and the exit are set: a door in on
   * side `entry` if it is the start, a door out on the opposite side if it
   * is the end.
   */
  function WithEnds(sq: Square, q: Pos, start: Pos, end: Pos, entry: Side): Square
  {
    var entered := if q == start then sq.Set(entry, DoorIn) else sq;
    if q == end then entered.Set(Opposite(entry), DoorOut) else entered
  }

  /**
   * The entrance and the exit: a door in on side `entry` of `start` and a
   * door out on the opposite side of `end`.
   */
  function OpenEnds(g: Grid, start: Pos, end: Pos, entry: Side): (r: Grid)
    requires start in g && end in g
    ensures r.Keys == g.Keys
    ensures forall q :: q in g ==> r[q] == WithEnds(g[q], q, start, end, entry)
  {
    var entered := g[start := g[start].Set(entry, DoorIn)];
    entered[end := entered[end].Set(Opposite(entry), DoorOut)]
  }

  /**
   * No side facing off the grid is unset and only the end square has a
   * door out there.
   */
  ghost predicate Bounded(g: Grid, end: Pos)
  {
    forall p, s {:trigger Neighbour(p, s)} :: p in g && Neighbour(p, s) !in g ==>
      g[p].Get(s) != Unset && (g[p].Get(s) == DoorOut ==> p == end)
  }

  /**
   * The two sides of every inner boundary agree: unset with unset, wall
   * with wall, door out with door in.
   */
  ghost predicate Agrees(g: Grid)
  {
    forall p, s {:trigger Neighbour(p, s)} :: p in g && Neighbour(p, s) in g ==>
      g[Neighbour(p, s)].Get(Opposite(s)) == Mirror(g[p].Get(s))
  }

  ghost predicate GridShape(g: Grid, end: Pos)
  {
    Bounded(g, end) && Agrees(g)
  }

  /** Agreement read from the other side of the boundary. */
  lemma AgreesBack(g: Grid, p: Pos, s: Side)
    requires Agrees(g) && p in g && Neighbour(p, s) in g
    ensures g[p].Get(s) == Mirror(g[Neighbour(p, s)].Get(Opposite(s)))
  {
    var q := Neighbour(p, s);
    NeighbourInverse(p, s);
    OppositeInvolution(s);
    assert Neighbour(q, Opposite(s)) == p;
  }

  /** A fresh grid has the shape, whatever square is called the end. */
  lemma InitialGridShape(w: int, h: int, end: Pos)
    ensures GridShape(InitialGrid(w, h), end)
  {
    var g := InitialGrid(w, h);
    forall p, s | p in g && Neighbour(p, s) in g
      ensures g[Neighbour(p, s)].Get(Opposite(s)) == Mirror(g[p].Get(s))
    {
      NeighbourInverse(p, s);
      InitialSquareSide(w, h, p, s);
      InitialSquareSide(w, h, Neighbour(p, s), Opposite(s));
    }
  }

  /** Setting an unset inner boundary on both sides keeps the shape. */
  lemma SetFacingShape(g: Grid, end: Pos, p: Pos, s: Side, t: SideType)
    requires GridShape(g, end) && p in g && Neighbour(p, s) in g && g[p].Get(s) == Unset
    ensures GridShape(SetFacing(g, p, s, t), end)
  {
    var r := SetFacing(g, p, s, t);
    var q := Neighbour(p, s);
    NeighbourInverse(p, s);
    OppositeInvolution(s);
    forall a, e | a in r && Neighbour(a, e) !in r
      ensures r[a].Get(e) == g[a].Get(e)
    {
      NeighbourInverse(a, e);
    }
    forall a, e | a in r && Neighbour(a, e) in r
      ensures r[Neighbour(a, e)].Get(Opposite(e)) == Mirror(r[a].Get(e))
    {
      var n := Neighbour(a, e);
      NeighbourInverse(a, e);
      OppositeInvolution(e);
      if a == p && e == s {
      } else if a == q && e == Opposite(s) {
      } else {
        assert r[a].Get(e) == g[a].Get(e);
        assert r[n].Get(Opposite(e)) == g[n].Get(Opposite(e));
      }
    }
  }

  /** Path marks are not part of the shape. */
  lemma MarksKeepShape(g: Grid, r: Grid, end: Pos)
    requires GridShape(g, end) && r.Keys == g.Keys
    requires forall q, s :: q in g ==> r[q].Get(s) == g[q].Get(s)
    ensures GridShape(r, end)
  {
  }

  /** `b` lies through a door out of `a`. */
  ghost predicate Linked(g: Grid, a: Pos, b: Pos)
    requires a in g
  {
    exists s :: g[a].Get(s) == DoorOut && Neighbour(a, s) == b
  }

  /** A list of squares of `g`, each reached from the one before through a door out. */
  ghost predicate Walk(g: Grid, ps: seq<Pos>)
  {
    && (forall i :: 0 <= i < |ps| ==> ps[i] in g)
    && (forall i :: 0 <= i < |ps| - 1 ==> Linked(g, ps[i], ps[i + 1]))
  }

  /** A walk extended through a door out of its last square is a walk. */
  lemma WalkExtends(g: Grid, ps: seq<Pos>, d: Side)
    requires Walk(g, ps) && |ps| > 0 && g[ps[|ps| - 1]].Get(d) == DoorOut && Neighbour(ps[|ps| - 1], d) in g
    ensures Walk(g, ps + [Neighbour(ps[|ps| - 1], d)])
  {
    var ms := ps + [Neighbour(ps[|ps| - 1], d)];
    assert forall i :: 0 <= i < |ps| ==> ms[i] == ps[i];
    assert Linked(g, ms[|ps| - 1], ms[|ps|]);
  }

  /** `b` is reached from `a` by a walk through doors out. */
  ghost predicate Reaches(g: Grid, a: Pos, b: Pos)
  {
    exists ps :: Walk(g, ps) && |ps| > 0 && ps[0] == a && ps[|ps| - 1] == b
  }

  /** `r` has the squares of `g`, and every side `g` has set is set alike in `r`. */
  ghost predicate KeepsSet(g: Grid, r: Grid)
  {
    r.Keys == g.Keys && forall q, s :: q in g && g[q].Get(s) != Unset ==> r[q].Get(s) == g[q].Get(s)
  }

  /** A walk stays a walk while no door out is taken away. */
  lemma WalkKeeps(g: Grid, r: Grid, ps: seq<Pos>)
    requires Walk(g, ps) && KeepsSet(g, r)
    ensures Walk(r, ps)
  {
    forall i | 0 <= i < |ps| - 1
      ensures Linked(r, ps[i], ps[i + 1])
    {
      assert Linked(g, ps[i], ps[i + 1]);
      var s :| g[ps[i]].Get(s) == DoorOut && Neighbour(ps[i], s) == ps[i + 1];
      assert r[ps[i]].Get(s) == DoorOut;
    }
  }

}
