/**
 * The carver's view of a grid: which squares it has reached (they have a
 * door in), which sides of a square it may still open, how it walls off
 * the others, and what carving keeps true of the grid.
 */
module Carving {

  import opened Sides
  import opened Squares
  import opened Grids
  import opened Layouts

  /**
   * What carving keeps true: the grid has its shape, an inner side is set
   * only on a square the carver has reached, and no square has two doors in.
   */
  ghost predicate Carved(g: Grid, end: Pos)
  {
    && GridShape(g, end)
    && (forall p, s {:trigger Neighbour(p, s)} :: p in g && Neighbour(p, s) in g && g[p].Get(s) != Unset ==> g[p].HasInDoor())
    && (forall p :: p in g ==> g[p].InDoorCount() <= 1)
  }

  /** The squares the carver has not reached yet. */
  ghost function Unvisited(g: Grid): (u: set<Pos>)
    ensures forall q :: q in u <==> q in g && !g[q].HasInDoor()
  {
    set q | q in g && !g[q].HasInDoor()
  }

  /** Side `s` of `p` is unset and leads to a square already reached: it gets walled. */
  predicate Blocked(g: Grid, p: Pos, s: Side)
    requires p in g
  {
    g[p].Get(s) == Unset && Neighbour(p, s) in g && g[Neighbour(p, s)].HasInDoor()
  }

  /** Side `s` of `p` is unset and leads to a square not reached yet: a candidate door. */
  predicate Open(g: Grid, p: Pos, s: Side)
    requires p in g
  {
    g[p].Get(s) == Unset && Neighbour(p, s) in g && !g[Neighbour(p, s)].HasInDoor()
  }

  /** The candidate doors of `p`, in the order Top, Right, Bottom, Left. */
  function Candidates(g: Grid, p: Pos): (c: seq<Side>)
    requires p in g
    ensures forall s :: s in c <==> Open(g, p, s)
    ensures forall i, j :: 0 <= i < j < |c| ==> c[i] != c[j]
  {
    (if Open(g, p, Top) then [Top] else []) + (if Open(g, p, Right) then [Right] else [])
    + (if Open(g, p, Bottom) then [Bottom] else []) + (if Open(g, p, Left) then [Left] else [])
  }

  /** One side looked at by the carver's door choice: walled on both sides when blocked. */
  function CloseSide(g: Grid, p: Pos, s: Side): (r: Grid)
    requires p in g
    ensures r.Keys == g.Keys
  {
    if Blocked(g, p, s) then SetFacing(g, p, s, Wall) else g
  }

  /** The grid once the carver has looked at the four sides of `p`, Top, Right, Bottom, Left. */
  function CloseOff(g: Grid, p: Pos): (r: Grid)
    requires p in g
    ensures r.Keys == g.Keys
  {
    CloseSide(CloseSide(CloseSide(CloseSide(g, p, Top), p, Right), p, Bottom), p, Left)
  }

  /** The path mark of a square is no concern of the carver's. */
  lemma MarkKeepsCarving(g: Grid, end: Pos, p: Pos, b: bool)
    requires p in g
    ensures Carved(Mark(g, p, b), end) <==> Carved(g, end)
    ensures Unvisited(Mark(g, p, b)) == Unvisited(g)
    ensures forall q :: q in g ==> Mark(g, p, b)[q].InDoorCount() == g[q].InDoorCount()
    ensures forall s :: Blocked(Mark(g, p, b), p, s) == Blocked(g, p, s) && Open(Mark(g, p, b), p, s) == Open(g, p, s)
    ensures Candidates(Mark(g, p, b), p) == Candidates(g, p)
    ensures CloseOff(Mark(g, p, b), p) == Mark(CloseOff(g, p), p, b)
  {
    var r := Mark(g, p, b);
    assert forall q :: q in g ==> r[q].InDoorCount() == g[q].InDoorCount() && r[q].HasInDoor() == g[q].HasInDoor() by {
      forall q | q in g
        ensures r[q].InDoorCount() == g[q].InDoorCount() && r[q].HasInDoor() == g[q].HasInDoor()
      {
        assert r[q].Get(Top) == g[q].Get(Top) && r[q].Get(Right) == g[q].Get(Right);
        assert r[q].Get(Bottom) == g[q].Get(Bottom) && r[q].Get(Left) == g[q].Get(Left);
      }
    }
    if GridShape(g, end) {
      MarksKeepShape(g, r, end);
    }
    if GridShape(r, end) {
      MarksKeepShape(r, g, end);
    }
    assert Unvisited(r) == Unvisited(g);
    MarkKeepsCandidates(g, p, b);
    MarkCommutesWithCloseOff(g, p, b);
  }

  /** Marking a square on the path leaves its candidate doors alone. */
  lemma MarkKeepsCandidates(g: Grid, p: Pos, b: bool)
    requires p in g
    ensures Candidates(Mark(g, p, b), p) == Candidates(g, p)
  {
    var r := Mark(g, p, b);
    forall q | q in g
      ensures r[q].HasInDoor() == g[q].HasInDoor()
    {
      assert r[q].Get(Top) == g[q].Get(Top) && r[q].Get(Right) == g[q].Get(Right);
      assert r[q].Get(Bottom) == g[q].Get(Bottom) && r[q].Get(Left) == g[q].Get(Left);
    }
    assert Open(r, p, Top) == Open(g, p, Top) && Open(r, p, Right) == Open(g, p, Right);
    assert Open(r, p, Bottom) == Open(g, p, Bottom) && Open(r, p, Left) == Open(g, p, Left);
  }

  lemma MarkCommutesWithCloseOff(g: Grid, p: Pos, b: bool)
    requires p in g
    ensures CloseOff(Mark(g, p, b), p) == Mark(CloseOff(g, p), p, b)
  {
    var m := Mark(g, p, b);
    var g1, g2, g3 := CloseSide(g, p, Top), CloseSide(CloseSide(g, p, Top), p, Right),
                      CloseSide(CloseSide(CloseSide(g, p, Top), p, Right), p, Bottom);
    MarkCommutesWithCloseSide(g, p, b, Top);
    MarkCommutesWithCloseSide(g1, p, b, Right);
    MarkCommutesWithCloseSide(g2, p, b, Bottom);
    MarkCommutesWithCloseSide(g3, p, b, Left);
  }

  lemma MarkCommutesWithCloseSide(g: Grid, p: Pos, b: bool, s: Side)
    requires p in g
    ensures CloseSide(Mark(g, p, b), p, s) == Mark(CloseSide(g, p, s), p, b)
  {
    var m := Mark(g, p, b);
    assert m[p].HasInDoor() == g[p].HasInDoor() by {
      assert m[p].Get(Top) == g[p].Get(Top) && m[p].Get(Right) == g[p].Get(Right);
      assert m[p].Get(Bottom) == g[p].Get(Bottom) && m[p].Get(Left) == g[p].Get(Left);
    }
    assert Blocked(m, p, s) == Blocked(g, p, s);
    if Blocked(g, p, s) {
      var q := Neighbour(p, s);
      NeighbourInverse(p, s);
      var x, y := SetFacing(m, p, s, Wall), Mark(SetFacing(g, p, s, Wall), p, b);
      forall r | r in x
        ensures x[r] == y[r]
      {
        if r == p {
          assert x[p] == g[p].(onPath := b).Set(s, Wall);
        } else if r == q {
          assert x[q] == g[q].Set(Opposite(s), Wall);
        }
      }
      assert x == y;
    }
  }

  /**
   * Walling one side of `p`: the shape is kept, a blocked side becomes a
   * wall on both of its sides, no other side changes except an unset side
   * of `p` or of a reached neighbour facing it, and no door in appears or
   * disappears.
   */
  lemma CloseSideEffect(g: Grid, end: Pos, p: Pos, s: Side)
    requires GridShape(g, end) && p in g
    ensures var r := CloseSide(g, p, s);
      && GridShape(r, end)
      && (Blocked(g, p, s) ==> r[p].Get(s) == Wall && r[Neighbour(p, s)].Get(Opposite(s)) == Wall)
      && (!Blocked(g, p, s) ==> r == g)
      && (forall e :: e != s ==> r[p].Get(e) == g[p].Get(e))
      && (forall e :: e != s && Neighbour(p, e) in g ==> r[Neighbour(p, e)] == g[Neighbour(p, e)])
      && (forall q :: q in g ==> r[q].onPath == g[q].onPath && r[q].InDoorCount() == g[q].InDoorCount())
      && (forall q, e :: q in g && r[q].Get(e) != g[q].Get(e) ==>
            g[q].Get(e) == Unset && r[q].Get(e) == Wall && (q == p || (Neighbour(q, e) == p && g[q].HasInDoor())))
  {
    if Blocked(g, p, s) {
      var q := Neighbour(p, s);
      var r := SetFacing(g, p, s, Wall);
      NeighbourInverse(p, s);
      OppositeInvolution(s);
      SetFacingShape(g, end, p, s, Wall);
      assert g[q].Get(Opposite(s)) == Unset;
      SetCountsDoorsIn(g[p], s, Wall);
      SetCountsDoorsIn(g[q], Opposite(s), Wall);
      forall a, e | a in g && r[a].Get(e) != g[a].Get(e)
        ensures g[a].Get(e) == Unset && r[a].Get(e) == Wall && (a == p || (Neighbour(a, e) == p && g[a].HasInDoor()))
      {
        if a != p && a != q {
        } else if a == p {
          assert e == s;
        } else {
          assert e == Opposite(s);
        }
      }
    }
  }

  /** Walling side `s` of `p` walls it on both sides when it is blocked, and changes nothing otherwise. */
  lemma CloseSideSelf(g: Grid, p: Pos, s: Side)
    requires p in g
    ensures var r := CloseSide(g, p, s);
      && (Blocked(g, p, s) ==> r[p].Get(s) == Wall && r[Neighbour(p, s)].Get(Opposite(s)) == Wall)
      && (!Blocked(g, p, s) ==> r == g)
  {
    if Blocked(g, p, s) {
      NeighbourInverse(p, s);
    }
  }

  /** Walling side `e` of `p` leaves its side `s` and the square across `s` as they were. */
  lemma CloseSideOther(g: Grid, p: Pos, e: Side, s: Side)
    requires p in g && e != s
    ensures var r := CloseSide(g, p, e);
      && r[p].Get(s) == g[p].Get(s)
      && (Neighbour(p, s) in g ==> r[Neighbour(p, s)] == g[Neighbour(p, s)])
      && Blocked(r, p, s) == Blocked(g, p, s) && Open(r, p, s) == Open(g, p, s)
  {
    if Blocked(g, p, e) {
      NeighbourInverse(p, e);
    }
  }

  /** Walling one side of `p` keeps the grid's shape. */
  lemma CloseSideShape(g: Grid, end: Pos, p: Pos, s: Side)
    requires GridShape(g, end) && p in g
    ensures GridShape(CloseSide(g, p, s), end)
  {
    if Blocked(g, p, s) {
      SetFacingShape(g, end, p, s, Wall);
    }
  }

  /**
   * The carver's walling of `p` keeps the shape, the doors in and the path
   * marks, and changes a side only from unset to wall, on `p` or on a
   * reached neighbour facing it.
   */
  lemma CloseOffEffect(g: Grid, end: Pos, p: Pos)
    requires GridShape(g, end) && p in g
    ensures var r := CloseOff(g, p);
      && GridShape(r, end)
      && (forall q :: q in g ==> r[q].onPath == g[q].onPath && r[q].InDoorCount() == g[q].InDoorCount())
      && (forall q, e :: q in g && r[q].Get(e) != g[q].Get(e) ==>
            g[q].Get(e) == Unset && r[q].Get(e) == Wall && (q == p || (Neighbour(q, e) == p && g[q].HasInDoor())))
  {
    var g1 := CloseSide(g, p, Top);
    var g2 := CloseSide(g1, p, Right);
    var g3 := CloseSide(g2, p, Bottom);
    var r := CloseSide(g3, p, Left);
    CloseSideEffect(g, end, p, Top);
    CloseSideEffect(g1, end, p, Right);
    CloseSideEffect(g2, end, p, Bottom);
    CloseSideEffect(g3, end, p, Left);
    forall q, e | q in g && r[q].Get(e) != g[q].Get(e)
      ensures g[q].Get(e) == Unset && r[q].Get(e) == Wall && (q == p || (Neighbour(q, e) == p && g[q].HasInDoor()))
    {
      if g1[q].Get(e) != g[q].Get(e) {
        assert g[q].HasInDoor() == g1[q].HasInDoor() == g2[q].HasInDoor() == g3[q].HasInDoor();
      } else if g2[q].Get(e) != g1[q].Get(e) {
        assert g[q].HasInDoor() == g1[q].HasInDoor();
      } else if g3[q].Get(e) != g2[q].Get(e) {
        assert g[q].HasInDoor() == g1[q].HasInDoor() == g2[q].HasInDoor();
      } else {
        assert g[q].HasInDoor() == g1[q].HasInDoor() == g2[q].HasInDoor() == g3[q].HasInDoor();
      }
    }
  }

  /**
   * What the carver's walling of `p` does to the sides of `p`: every
   * blocked side becomes a wall on both of its sides, every other side is
   * left as it was, and every candidate stays a candidate.
   */
  lemma CloseOffSides(g: Grid, end: Pos, p: Pos, s: Side)
    requires GridShape(g, end) && p in g
    ensures var r := CloseOff(g, p);
      && (Blocked(g, p, s) ==> r[p].Get(s) == Wall && r[Neighbour(p, s)].Get(Opposite(s)) == Wall)
      && (!Blocked(g, p, s) ==> r[p].Get(s) == g[p].Get(s))
      && (Open(g, p, s) ==> Open(r, p, s))
  {
    var g1 := CloseSide(g, p, Top);
    var g2 := CloseSide(g1, p, Right);
    var g3 := CloseSide(g2, p, Bottom);
    var r := CloseSide(g3, p, Left);
    match s {
      case Top =>
        CloseSideSelf(g, p, Top);
        CloseSideOther(g1, p, Right, Top);
        CloseSideOther(g2, p, Bottom, Top);
        CloseSideOther(g3, p, Left, Top);
      case Right =>
        CloseSideOther(g, p, Top, Right);
        CloseSideSelf(g1, p, Right);
        CloseSideOther(g2, p, Bottom, Right);
        CloseSideOther(g3, p, Left, Right);
      case Bottom =>
        CloseSideOther(g, p, Top, Bottom);
        CloseSideOther(g1, p, Right, Bottom);
        CloseSideSelf(g2, p, Bottom);
        CloseSideOther(g3, p, Left, Bottom);
      case Left =>
        CloseSideOther(g, p, Top, Left);
        CloseSideOther(g1, p, Right, Left);
        CloseSideOther(g2, p, Bottom, Left);
        CloseSideSelf(g3, p, Left);
    }
  }

  /** A square whose four sides are set or lead to reached squares loses its unset sides. */
  lemma CloseOffFinishes(g: Grid, end: Pos, p: Pos)
    requires GridShape(g, end) && p in g && Candidates(g, p) == []
    ensures forall s :: CloseOff(g, p)[p].Get(s) != Unset
  {
    forall s
      ensures CloseOff(g, p)[p].Get(s) != Unset
    {
      CloseOffSides(g, end, p, s);
      assert !Open(g, p, s);
    }
  }

  /** Walling the sides of a reached square keeps the carving consistent and reaches nothing new. */
  lemma CloseOffCarved(g: Grid, end: Pos, p: Pos)
    requires Carved(g, end) && p in g && g[p].HasInDoor()
    ensures Carved(CloseOff(g, p), end)
    ensures Unvisited(CloseOff(g, p)) == Unvisited(g)
  {
    var r := CloseOff(g, p);
    CloseOffEffect(g, end, p);
    forall q, e | q in r && Neighbour(q, e) in r && r[q].Get(e) != Unset
      ensures r[q].HasInDoor()
    {
      if r[q].Get(e) == g[q].Get(e) {
        assert g[q].HasInDoor();
      }
    }
    assert Unvisited(r) == Unvisited(g);
  }

  /**
   * Opening the candidate door `d` of a reached square `p`: a door out on
   * `p`, a door in on the neighbour, the carving stays consistent and
   * exactly that neighbour becomes reached.
   */
  lemma OpenDoorCarved(g: Grid, end: Pos, p: Pos, d: Side)
    requires Carved(g, end) && p in g && g[p].HasInDoor() && Open(g, p, d)
    ensures var r := SetFacing(g, p, d, DoorOut);
      && Carved(r, end)
      && r[Neighbour(p, d)].Get(Opposite(d)) == DoorIn
      && Neighbour(p, d) in Unvisited(g)
      && Unvisited(r) == Unvisited(g) - {Neighbour(p, d)}
      && (forall q :: q in g ==> r[q].onPath == g[q].onPath)
      && (forall q, e :: q in g && r[q].Get(e) != g[q].Get(e) ==> g[q].Get(e) == Unset)
  {
    var q := Neighbour(p, d);
    var r := SetFacing(g, p, d, DoorOut);
    NeighbourInverse(p, d);
    OppositeInvolution(d);
    SetFacingShape(g, end, p, d, DoorOut);
    assert g[q].Get(Opposite(d)) == Unset;
    SetCountsDoorsIn(g[p], d, DoorOut);
    SetCountsDoorsIn(g[q], Opposite(d), DoorIn);
    assert g[q].InDoorCount() == 0;
    assert r[q].HasInDoor() by {
      assert r[q].Get(Opposite(d)) == DoorIn;
    }
    forall a, e | a in r && Neighbour(a, e) in r && r[a].Get(e) != Unset
      ensures r[a].HasInDoor()
    {
      if a != p && a != q {
        assert r[a] == g[a];
      }
    }
    forall a, e | a in g && r[a].Get(e) != g[a].Get(e)
      ensures g[a].Get(e) == Unset
    {
      if a == p {
        assert e == d;
      } else if a == q {
        assert e == Opposite(d);
      }
    }
    assert Unvisited(r) == Unvisited(g) - {q};
  }

  /**
   * When no square is waiting on the carver's stack and every reached
   * square has all its sides set, the carver has reached every square:
   * each has exactly one door in and is reached from the start through
   * doors out.
   */
  lemma CarveComplete(g: Grid, w: int, h: int, end: Pos, start: Pos)
    requires Spans(g, w, h) && Carved(g, end)
    requires start in g && g[start].HasInDoor() && Rooted(g, start)
    requires forall q, s :: q in g && g[q].HasInDoor() ==> g[q].Get(s) != Unset
    ensures Unvisited(g) == {}
    ensures forall q :: q in g ==> g[q].InDoorCount() == 1
    ensures forall q :: q in g ==> Reaches(g, start, q)
  {
    var seen := set q | q in g && g[q].HasInDoor();
    forall p, s | p in seen && InBounds(w, h, p) && InBounds(w, h, Neighbour(p, s))
      ensures Neighbour(p, s) in seen
    {
      var n := Neighbour(p, s);
      AgreesBack(g, n, Opposite(s));
      NeighbourInverse(p, s);
      OppositeInvolution(s);
      assert Neighbour(n, Opposite(s)) == p;
      var t := g[p].Get(s);
      assert g[n].Get(Opposite(s)) == Mirror(t);
      if t == DoorOut {
        assert g[n].Get(Opposite(s)) == DoorIn;
      } else {
        assert g[n].Get(Opposite(s)) != Unset;
      }
    }
    Flood(w, h, seen, start);
    assert Unvisited(g) == {};
    forall q | q in g
      ensures Reaches(g, start, q)
    {
      assert g[q].HasInDoor();
    }
  }

  /** A door out from `a` to `b` is a door in on `b` facing `a`. */
  lemma LinkedDoorIn(g: Grid, end: Pos, a: Pos, b: Pos)
    requires GridShape(g, end) && a in g && b in g && Linked(g, a, b)
    ensures exists e :: g[b].Get(e) == DoorIn && Neighbour(b, e) == a
  {
    var s :| g[a].Get(s) == DoorOut && Neighbour(a, s) == b;
    NeighbourInverse(a, s);
    assert g[b].Get(Opposite(s)) == DoorIn;
  }

  /** On a carved grid a square is entered through a door out of one square at most. */
  lemma OneParent(g: Grid, end: Pos, a: Pos, b: Pos, x: Pos, y: Pos)
    requires Carved(g, end) && a in g && b in g && x in g && y in g
    requires Linked(g, a, x) && Linked(g, b, y)
    ensures x == y ==> a == b
  {
    var s :| g[a].Get(s) == DoorOut && Neighbour(a, s) == x;
    var t :| g[b].Get(t) == DoorOut && Neighbour(b, t) == y;
    NeighbourInverse(a, s);
    NeighbourInverse(b, t);
    assert g[x].Get(Opposite(s)) == DoorIn;
    assert g[y].Get(Opposite(t)) == DoorIn;
    if x == y {
      OneDoorIn(g[x], Opposite(s), Opposite(t));
    }
  }

  /**
   * A walk from the start never enters a closed walk `cyc` on a carved,
   * rooted grid: the start has no door in from the grid, and a square of
   * `cyc` is entered from its predecessor in `cyc` and from nowhere else.
   */
  lemma {:induction false} WalkAvoidsCycle(g: Grid, end: Pos, start: Pos, ws: seq<Pos>, cyc: seq<Pos>, i: nat)
    requires Carved(g, end) && Rooted(g, start)
    requires Walk(g, ws) && 0 <= i < |ws| && ws[0] == start
    requires Walk(g, cyc) && |cyc| >= 2
    ensures cyc[0] == cyc[|cyc| - 1] ==> ws[i] !in cyc
    decreases i
  {
    if i > 0 {
      WalkAvoidsCycle(g, end, start, ws, cyc, i - 1);
      assert Linked(g, ws[i - 1], ws[i]);
    }
    forall k | 0 <= k < |cyc|
      ensures cyc[0] == cyc[|cyc| - 1] ==> ws[i] != cyc[k]
    {
      var pk := if k > 0 then k - 1 else |cyc| - 2;
      var x := if k > 0 then cyc[k] else cyc[|cyc| - 1];
      assert Linked(g, cyc[pk], x);
      if i == 0 {
        LinkedDoorIn(g, end, cyc[pk], x);
      } else {
        OneParent(g, end, ws[i - 1], cyc[pk], ws[i], x);
      }
    }
  }

  /**
   * A carved grid whose reached squares are reached from the start has no
   * cycle of doors out: no walk through doors out comes back to the square
   * it started from.
   */
  lemma CarvedAcyclic(g: Grid, end: Pos, start: Pos, cyc: seq<Pos>)
    requires Carved(g, end) && Rooted(g, start)
    requires Walk(g, cyc) && |cyc| >= 2
    ensures cyc[0] != cyc[|cyc| - 1]
  {
    var b := cyc[|cyc| - 1];
    assert Linked(g, cyc[|cyc| - 2], b);
    LinkedDoorIn(g, end, cyc[|cyc| - 2], b);
    assert g[b].InDoorCount() > 0;
    assert Reaches(g, start, b);
    var ws :| Walk(g, ws) && |ws| > 0 && ws[0] == start && ws[|ws| - 1] == b;
    WalkAvoidsCycle(g, end, start, ws, cyc, |ws| - 1);
  }

  /** A side of a fresh square once the entrance and exit are set: a door, a wall off the grid, or unset. */
  lemma FreshSide(w: int, h: int, start: Pos, end: Pos, entry: Side, q: Pos, s: Side)
    requires InBounds(w, h, q)
    ensures var sq := WithEnds(InitialSquare(w, h, q), q, start, end, entry);
      && !sq.onPath
      && sq.Get(s) == (if q == end && s == Opposite(entry) then DoorOut
                       else if q == start && s == entry then DoorIn
                       else if InBounds(w, h, Neighbour(q, s)) then Unset
                       else Wall)
  {
    OppositeInvolution(entry);
    InitialSquareSide(w, h, q, s);
  }

  /** Once the entrance and exit are set, only the start square has a door in, and just one. */
  lemma FreshDoorsIn(w: int, h: int, start: Pos, end: Pos, entry: Side, q: Pos)
    requires InBounds(w, h, q)
    ensures var sq := WithEnds(InitialSquare(w, h, q), q, start, end, entry);
      && !sq.onPath && sq.InDoorCount() <= 1 && (sq.HasInDoor() <==> q == start)
  {
    var sq := WithEnds(InitialSquare(w, h, q), q, start, end, entry);
    FreshSide(w, h, start, end, entry, q, Top);
    FreshSide(w, h, start, end, entry, q, Right);
    FreshSide(w, h, start, end, entry, q, Bottom);
    FreshSide(w, h, start, end, entry, q, Left);
    OppositeInvolution(entry);
    assert sq.top == DoorIn <==> q == start && entry == Top;
    assert sq.right == DoorIn <==> q == start && entry == Right;
    assert sq.bottom == DoorIn <==> q == start && entry == Bottom;
    assert sq.left == DoorIn <==> q == start && entry == Left;
  }

  /** A fresh grid with its entrance and exit has the shape: the two doors face off the grid. */
  lemma FreshMazeShape(w: int, h: int, start: Pos, end: Pos, entry: Side)
    requires OnEdge(w, h, start, entry) && OnEdge(w, h, end, Opposite(entry))
    ensures GridShape(OpenEnds(InitialGrid(w, h), start, end, entry), end)
  {
    var g := OpenEnds(InitialGrid(w, h), start, end, entry);
    OnEdgeFacesOut(w, h, start, entry);
    OnEdgeFacesOut(w, h, end, Opposite(entry));
    forall q, s | q in g && Neighbour(q, s) !in g
      ensures g[q].Get(s) != Unset && (g[q].Get(s) == DoorOut ==> q == end)
    {
      FreshSide(w, h, start, end, entry, q, s);
      OnEdgeFacesOut(w, h, q, s);
    }
    forall q, s | q in g && Neighbour(q, s) in g
      ensures g[Neighbour(q, s)].Get(Opposite(s)) == Mirror(g[q].Get(s))
    {
      var n := Neighbour(q, s);
      NeighbourInverse(q, s);
      OppositeInvolution(s);
      FreshSide(w, h, start, end, entry, q, s);
      FreshSide(w, h, start, end, entry, n, Opposite(s));
    }
  }

  /** Every square of a fresh grid with its entrance and exit: unmarked, and reached only at the start. */
  lemma FreshMazeSquares(w: int, h: int, start: Pos, end: Pos, entry: Side)
    requires OnEdge(w, h, start, entry) && OnEdge(w, h, end, Opposite(entry))
    ensures var g := OpenEnds(InitialGrid(w, h), start, end, entry);
      && Spans(g, w, h)
      && (forall q :: q in g ==> !g[q].onPath && g[q].InDoorCount() <= 1 && (g[q].HasInDoor() <==> q == start))
  {
    var g := OpenEnds(InitialGrid(w, h), start, end, entry);
    assert g.Keys == InitialGrid(w, h).Keys;
    forall q | q in g
      ensures !g[q].onPath && g[q].InDoorCount() <= 1 && (g[q].HasInDoor() <==> q == start)
    {
      FreshDoorsIn(w, h, start, end, entry, q);
    }
  }

  /**
   * A fresh grid with its entrance and exit is carved consistently: it has
   * the shape, and only the start square has a door in.
   */
  lemma FreshMazeCarved(w: int, h: int, start: Pos, end: Pos, entry: Side)
    requires OnEdge(w, h, start, entry) && OnEdge(w, h, end, Opposite(entry))
    ensures var g := OpenEnds(InitialGrid(w, h), start, end, entry);
      && Carved(g, end)
      && g[start].Get(entry) == DoorIn && g[end].Get(Opposite(entry)) == DoorOut
  {
    var g := OpenEnds(InitialGrid(w, h), start, end, entry);
    FreshMazeShape(w, h, start, end, entry);
    FreshMazeSquares(w, h, start, end, entry);
    forall q, s | q in g && Neighbour(q, s) in g && g[q].Get(s) != Unset
      ensures g[q].HasInDoor()
    {
      FreshSide(w, h, start, end, entry, q, s);
      OppositeInvolution(entry);
    }
    FreshSide(w, h, start, end, entry, start, entry);
    FreshSide(w, h, start, end, entry, end, Opposite(entry));
  }

  /** On a fresh grid only the start is reached, by itself, and its door in is the entrance, off the grid. */
  lemma FreshRooted(w: int, h: int, start: Pos, end: Pos, entry: Side)
    requires OnEdge(w, h, start, entry) && OnEdge(w, h, end, Opposite(entry))
    ensures Rooted(OpenEnds(InitialGrid(w, h), start, end, entry), start)
  {
    var g := OpenEnds(InitialGrid(w, h), start, end, entry);
    FreshMazeSquares(w, h, start, end, entry);
    assert Walk(g, [start]);
    forall q | q in g && g[q].HasInDoor()
      ensures Reaches(g, start, q)
    {
      assert q == start && Walk(g, [start]);
    }
    forall s | g[start].Get(s) == DoorIn
      ensures Neighbour(start, s) !in g
    {
      FreshSide(w, h, start, end, entry, start, s);
      OnEdgeFacesOut(w, h, start, entry);
    }
  }

  /**
   * The carver starts from a fresh grid with a stack holding the start
   * square alone: every other square is still to be reached.
   */
  lemma FreshMazeStack(w: int, h: int, start: Pos, end: Pos, entry: Side)
    requires OnEdge(w, h, start, entry) && OnEdge(w, h, end, Opposite(entry))
    ensures var g := OpenEnds(InitialGrid(w, h), start, end, entry);
      && (forall q :: q in Unvisited(g) <==> InBounds(w, h, q) && q != start)
      && |Unvisited(g)| == w * h - 1
      && Spans(g, w, h) && start in g && end in g && StackInv(g, [start])
  {
    var g := OpenEnds(InitialGrid(w, h), start, end, entry);
    FreshMazeSquares(w, h, start, end, entry);
    AllButOneCount(w, h, Unvisited(g), start);
  }

  /**
   * The carver's stack between two steps: its squares are reached, on the
   * grid and stacked once; a reached square that has left it has no unset
   * side; and the path marks are the stack, all but its newest square
   * certainly.
   */
  ghost predicate StackInv(g: Grid, stack: seq<Pos>)
  {
    && (forall i :: 0 <= i < |stack| ==> stack[i] in g && g[stack[i]].HasInDoor())
    && (forall i, j :: 0 <= i < j < |stack| ==> stack[i] != stack[j])
    && (forall q, s :: q in g && g[q].HasInDoor() && q !in stack ==> g[q].Get(s) != Unset)
    && (forall q :: q in g && g[q].onPath ==> q in stack)
    && (forall i :: 0 <= i < |stack| - 1 ==> g[stack[i]].onPath)
  }

  /** The grid after a step of the carver that finds no door from `c`: marked, walled, unmarked. */
  function Backtracked(g: Grid, c: Pos): (r: Grid)
    requires c in g
    ensures r.Keys == g.Keys
  {
    Mark(CloseOff(Mark(g, c, true), c), c, false)
  }

  /** The grid after a step of the carver that opens door `d` of `c`: marked, walled, door opened. */
  function Advanced(g: Grid, c: Pos, d: Side): (r: Grid)
    requires c in g && Neighbour(c, d) in g
    ensures r.Keys == g.Keys
  {
    SetFacing(CloseOff(Mark(g, c, true), c), c, d, DoorOut)
  }

  /**
   * Every reached square is reached from the start through doors out, and
   * every door in of the start faces off the grid: the doors out form a
   * tree hanging from the start.
   */
  ghost predicate Rooted(g: Grid, start: Pos)
  {
    && (forall q {:trigger Reaches(g, start, q)} :: q in g && g[q].HasInDoor() ==> Reaches(g, start, q))
    && (forall s {:trigger g[start].Get(s)} :: start in g && g[start].Get(s) == DoorIn ==> Neighbour(start, s) !in g)
  }

  /** Marking `c` and walling it changes sides only from unset to wall. */
  lemma WalledSides(g: Grid, end: Pos, c: Pos)
    requires GridShape(g, end) && c in g
    ensures var k := CloseOff(Mark(g, c, true), c);
      && KeepsSet(g, k)
      && (forall q, e :: q in g && k[q].Get(e) != g[q].Get(e) ==> k[q].Get(e) == Wall)
  {
    var m := Mark(g, c, true);
    MarksKeepShape(g, m, end);
    CloseOffEffect(m, end, c);
  }

  /** A step that backs out of `c` changes sides only from unset to wall. */
  lemma BacktrackedSides(g: Grid, end: Pos, c: Pos)
    requires GridShape(g, end) && c in g
    ensures KeepsSet(g, Backtracked(g, c))
    ensures forall q, e :: q in g && Backtracked(g, c)[q].Get(e) != g[q].Get(e) ==> Backtracked(g, c)[q].Get(e) == Wall
  {
    WalledSides(g, end, c);
  }

  /** A step that opens candidate door `d` of `c` changes only unset sides. */
  lemma AdvancedSides(g: Grid, end: Pos, c: Pos, d: Side)
    requires GridShape(g, end) && c in g && Open(g, c, d)
    ensures KeepsSet(g, Advanced(g, c, d))
  {
    var n := Neighbour(c, d);
    var m := Mark(g, c, true);
    var k := CloseOff(m, c);
    var r := SetFacing(k, c, d, DoorOut);
    MarksKeepShape(g, m, end);
    CloseOffEffect(m, end, c);
    CloseOffSides(m, end, c, d);
    WalledSides(g, end, c);
    assert k[c].Get(d) == Unset && k[n].Get(Opposite(d)) == Unset;
    forall q, e | q in g && g[q].Get(e) != Unset
      ensures r[q].Get(e) == g[q].Get(e)
    {
      if q == c && e == d {
        assert false;
      } else if q == n && e == Opposite(d) {
        assert false;
      }
    }
  }

  /** Walling sides keeps every reached square reached from the start. */
  lemma RootedKeeps(g: Grid, r: Grid, start: Pos)
    requires Rooted(g, start) && KeepsSet(g, r)
    requires forall q, e :: q in g && r[q].Get(e) != g[q].Get(e) ==> r[q].Get(e) == Wall
    ensures Rooted(r, start)
  {
    forall q | q in r && r[q].HasInDoor()
      ensures Reaches(r, start, q)
    {
      assert r[q].InDoorCount() > 0;
      var s :| r[q].Get(s) == DoorIn;
      assert g[q].Get(s) == DoorIn;
      assert g[q].InDoorCount() > 0;
      assert Reaches(g, start, q);
      var ps :| Walk(g, ps) && |ps| > 0 && ps[0] == start && ps[|ps| - 1] == q;
      WalkKeeps(g, r, ps);
    }
    forall s | start in r && r[start].Get(s) == DoorIn
      ensures Neighbour(start, s) !in r
    {
      assert g[start].Get(s) == DoorIn;
    }
  }

  /**
   * Opening candidate door `d` of a reached square `c` keeps every reached
   * square reached from the start: the newly reached neighbour through the
   * walk to `c` and the new door.
   */
  lemma OpenDoorRooted(g: Grid, end: Pos, start: Pos, c: Pos, d: Side)
    requires Carved(g, end) && Rooted(g, start) && c in g && g[c].HasInDoor() && Open(g, c, d)
    requires start in g && g[start].HasInDoor()
    ensures Rooted(SetFacing(g, c, d, DoorOut), start)
  {
    var n := Neighbour(c, d);
    var r := SetFacing(g, c, d, DoorOut);
    OpenDoorCarved(g, end, c, d);
    forall q | q in r && r[q].HasInDoor()
      ensures Reaches(r, start, q)
    {
      var p := if q == n then c else q;
      assert g[p].HasInDoor() by {
        if q != n {
          assert r[q].InDoorCount() > 0;
          var s :| r[q].Get(s) == DoorIn;
          assert g[q].Get(s) == DoorIn;
          assert g[q].InDoorCount() > 0;
        }
      }
      assert Reaches(g, start, p);
      var ps :| Walk(g, ps) && |ps| > 0 && ps[0] == start && ps[|ps| - 1] == p;
      WalkKeeps(g, r, ps);
      if q == n {
        WalkExtends(r, ps, d);
        assert (ps + [n])[0] == start;
      }
    }
    assert start != n;
    forall s | r[start].Get(s) == DoorIn
      ensures Neighbour(start, s) !in r
    {
      assert g[start].Get(s) == DoorIn;
    }
  }

  /** A step that backs out of `c` keeps every reached square reached from the start. */
  lemma BacktrackRooted(g: Grid, end: Pos, start: Pos, c: Pos)
    requires GridShape(g, end) && Rooted(g, start) && c in g
    ensures Rooted(Backtracked(g, c), start)
  {
    BacktrackedSides(g, end, c);
    RootedKeeps(g, Backtracked(g, c), start);
  }

  /** A step that opens candidate door `d` of `c` keeps every reached square reached from the start. */
  lemma AdvanceRooted(g: Grid, end: Pos, start: Pos, c: Pos, d: Side)
    requires Carved(g, end) && Rooted(g, start) && c in g && g[c].HasInDoor() && Open(g, c, d)
    requires start in g && g[start].HasInDoor()
    ensures Rooted(Advanced(g, c, d), start)
  {
    var m := Mark(g, c, true);
    var k := CloseOff(m, c);
    WalledSides(g, end, c);
    RootedKeeps(g, k, start);
    MarkKeepsCarving(g, end, c, true);
    CloseOffCarved(m, end, c);
    CloseOffEffect(m, end, c);
    CloseOffSides(m, end, c, d);
    assert k[c].HasInDoor() && k[start].HasInDoor() by {
      assert k[c].InDoorCount() == g[c].InDoorCount();
      assert k[start].InDoorCount() == g[start].InDoorCount();
    }
    OpenDoorRooted(k, end, start, c, d);
  }

  /**
   * A step that finds no candidate door from the top of the stack: the
   * square is left with all its sides set and popped, and carving and the
   * stack stay consistent; no square is reached.
   */
  lemma BacktrackKeeps(g: Grid, end: Pos, stack: seq<Pos>)
    requires Carved(g, end) && StackInv(g, stack) && |stack| > 0
    requires Candidates(g, stack[|stack| - 1]) == []
    ensures var c := stack[|stack| - 1];
            var r := Backtracked(g, c);
      && Carved(r, end) && StackInv(r, stack[..|stack| - 1])
      && (forall s :: r[c].Get(s) != Unset)
      && (forall q :: q in g ==> r[q].HasInDoor() == g[q].HasInDoor())
      && Unvisited(r) == Unvisited(g)
  {
    var c := stack[|stack| - 1];
    var rest := stack[..|stack| - 1];
    var m := Mark(g, c, true);
    var k := CloseOff(m, c);
    var r := Mark(k, c, false);
    assert Carved(m, end) && Unvisited(m) == Unvisited(g) && Candidates(m, c) == [] by {
      MarkKeepsCarving(g, end, c, true);
    }
    assert Carved(k, end) && Unvisited(k) == Unvisited(m) by {
      CloseOffCarved(m, end, c);
    }
    assert forall q :: q in m ==> k[q].onPath == m[q].onPath && k[q].InDoorCount() == m[q].InDoorCount() by {
      CloseOffEffect(m, end, c);
    }
    assert forall q, e :: q in m && k[q].Get(e) != m[q].Get(e) ==> m[q].Get(e) == Unset by {
      CloseOffEffect(m, end, c);
    }
    assert forall s :: k[c].Get(s) != Unset by {
      CloseOffFinishes(m, end, c);
    }
    assert Carved(r, end) && Unvisited(r) == Unvisited(k) by {
      MarkKeepsCarving(k, end, c, false);
    }
    forall q | q in g
      ensures r[q].HasInDoor() == g[q].HasInDoor()
    {
      assert q !in Unvisited(g) <==> q !in Unvisited(r);
    }
    PopStack(g, r, stack, c);
  }

  /**
   * The stack with its top square `c` popped is consistent with a grid `r`
   * that differs from `g` only by setting unset sides, with every side of
   * `c` set and the mark of `c` cleared.
   */
  lemma PopStack(g: Grid, r: Grid, stack: seq<Pos>, c: Pos)
    requires StackInv(g, stack) && |stack| > 0 && c == stack[|stack| - 1] && r.Keys == g.Keys
    requires forall q :: q in g ==> r[q].HasInDoor() == g[q].HasInDoor()
    requires forall q, s :: q in g && r[q].Get(s) != g[q].Get(s) ==> g[q].Get(s) == Unset
    requires forall s :: r[c].Get(s) != Unset
    requires !r[c].onPath
    requires forall q :: q in g && q != c ==> r[q].onPath == g[q].onPath
    ensures StackInv(r, stack[..|stack| - 1])
  {
    var rest := stack[..|stack| - 1];
    forall i | 0 <= i < |rest|
      ensures rest[i] == stack[i] && rest[i] in r && r[rest[i]].HasInDoor()
    {
    }
    forall i, j | 0 <= i < j < |rest|
      ensures rest[i] != rest[j]
    {
      assert rest[i] == stack[i] && rest[j] == stack[j];
    }
    forall q, s | q in r && r[q].HasInDoor() && q !in rest
      ensures r[q].Get(s) != Unset
    {
      if q != c {
        forall i | 0 <= i < |stack|
          ensures stack[i] != q
        {
          if i < |rest| {
            assert stack[i] == rest[i];
          }
        }
        assert q !in stack;
      }
    }
    forall q | q in r && r[q].onPath
      ensures q in rest
    {
      assert q != c && q in stack;
      var i :| 0 <= i < |stack| && stack[i] == q;
      assert rest[i] == q;
    }
    forall i | 0 <= i < |rest| - 1
      ensures r[rest[i]].onPath
    {
      assert rest[i] == stack[i] != c;
    }
  }

  /**
   * A step that opens candidate door `d` from the top of the stack: a door
   * out there and a door in on the neighbour, which is pushed; carving and
   * the stack stay consistent and exactly that neighbour becomes reached.
   */
  lemma AdvanceKeeps(g: Grid, end: Pos, stack: seq<Pos>, d: Side)
    requires Carved(g, end) && StackInv(g, stack) && |stack| > 0
    requires d in Candidates(g, stack[|stack| - 1])
    ensures var c := stack[|stack| - 1];
            var n := Neighbour(c, d);
      && n in g
      && var r := Advanced(g, c, d);
      && Carved(r, end) && StackInv(r, stack + [n])
      && r[c].Get(d) == DoorOut && r[n].Get(Opposite(d)) == DoorIn
      && n in Unvisited(g) && Unvisited(r) == Unvisited(g) - {n}
  {
    var c := stack[|stack| - 1];
    var n := Neighbour(c, d);
    var m := Mark(g, c, true);
    var k := CloseOff(m, c);
    MarkKeepsCarving(g, end, c, true);
    CloseOffCarved(m, end, c);
    CloseOffEffect(m, end, c);
    CloseOffSides(m, end, c, d);
    forall q | q in g
      ensures k[q].HasInDoor() == g[q].HasInDoor()
    {
      assert k[q].InDoorCount() == g[q].InDoorCount();
    }
    OpenDoorCarved(k, end, c, d);
    var r := SetFacing(k, c, d, DoorOut);
    var next := stack + [n];
    forall i | 0 <= i < |next|
      ensures next[i] in r && r[next[i]].HasInDoor()
    {
      if i < |stack| {
        assert next[i] == stack[i];
        assert stack[i] !in Unvisited(k);
      }
    }
    forall i, j | 0 <= i < j < |next|
      ensures next[i] != next[j]
    {
      if j == |stack| {
        assert next[i] == stack[i] && g[stack[i]].HasInDoor();
      }
    }
    forall q, s | q in r && r[q].HasInDoor() && q !in next
      ensures r[q].Get(s) != Unset
    {
      assert q !in stack && q != n;
      assert q !in Unvisited(r);
      assert g[q].Get(s) != Unset;
      assert m[q].Get(s) != Unset;
      assert k[q].Get(s) != Unset;
    }
    forall i | 0 <= i < |next| - 1
      ensures r[next[i]].onPath
    {
      assert next[i] == stack[i];
      if i < |stack| - 1 {
        assert g[stack[i]].onPath;
      }
    }
  }

  /**
   * The carver's stack as `sqnum` and `moveList` describe it: empty once
   * `sqnum` has dropped below zero, and the start square alone while the
   * list is still empty (the step pushes it before it looks).
   */
  function Stack(sqnum: int, moveList: seq<Pos>, start: Pos): seq<Pos>
  {
    if sqnum < 0 then [] else if moveList == [] then [start] else moveList
  }

  /**
   * The carver's state between two steps: the w x h grid is carved
   * consistently with the start square reached and every reached square
   * reached from it, `sqnum` indexes the top of the stack, and the stack
   * keeps `StackInv`.
   */
  ghost predicate CarveState(g: Grid, w: int, h: int, start: Pos, end: Pos, sqnum: int, moveList: seq<Pos>)
  {
    var stack := Stack(sqnum, moveList, start);
    && Spans(g, w, h) && Carved(g, end)
    && start in g && end in g && g[start].HasInDoor()
    && -1 <= sqnum && |stack| == sqnum + 1
    && (sqnum < 0 ==> moveList == [] || moveList == [start])
    && StackInv(g, stack) && Rooted(g, start)
  }

  /** Decreases with every carving step: each square is pushed once and popped once. */
  ghost function CarvePotential(g: Grid, sqnum: int, moveList: seq<Pos>, start: Pos): nat
  {
    2 * |Unvisited(g)| + |Stack(sqnum, moveList, start)|
  }

  /** Pushing the start square onto an empty list leaves the carver's stack as it was. */
  lemma StartPushedKeeps(g: Grid, w: int, h: int, start: Pos, end: Pos, sqnum: int)
    requires CarveState(g, w, h, start, end, sqnum, [])
    ensures CarveState(g, w, h, start, end, sqnum, [start])
    ensures CarvePotential(g, sqnum, [start], start) == CarvePotential(g, sqnum, [], start)
  {
  }

  /** The carver's first state: a fresh grid with its entrance and exit, and the start square to push. */
  lemma FreshCarveState(g: Grid, w: int, h: int, start: Pos, end: Pos, entry: Side)
    requires OnEdge(w, h, start, entry) && OnEdge(w, h, end, Opposite(entry))
    requires g == OpenEnds(InitialGrid(w, h), start, end, entry)
    ensures CarveState(g, w, h, start, end, 0, [])
    ensures CarvePotential(g, 0, [], start) == 2 * (w * h) - 1
  {
    assert Spans(g, w, h) && Carved(g, end) && start in g && end in g && StackInv(g, [start])
        && |Unvisited(g)| == w * h - 1 by {
      FreshMazeCarved(w, h, start, end, entry);
      FreshMazeStack(w, h, start, end, entry);
    }
    assert Rooted(g, start) by {
      FreshRooted(w, h, start, end, entry);
    }
  }

  /**
   * A step that finds no candidate door from the top square pops it: from
   * `g` to `r`, the state is kept and the potential drops by one.
   */
  lemma PopKeeps(g: Grid, r: Grid, w: int, h: int, start: Pos, end: Pos,
                 sqnum: int, moveList: seq<Pos>, sqnum': int, moveList': seq<Pos>)
    requires CarveState(g, w, h, start, end, sqnum, moveList) && sqnum >= 0
    requires Candidates(g, Stack(sqnum, moveList, start)[sqnum]) == []
    requires r == Backtracked(g, Stack(sqnum, moveList, start)[sqnum])
    requires sqnum' == sqnum - 1 && moveList' == Stack(sqnum, moveList, start)[..sqnum]
    ensures CarveState(r, w, h, start, end, sqnum', moveList')
    ensures CarvePotential(r, sqnum', moveList', start) < CarvePotential(g, sqnum, moveList, start)
  {
    var stack := Stack(sqnum, moveList, start);
    assert |stack| == sqnum + 1 && |moveList'| == sqnum;
    BacktrackKeeps(g, end, stack);
    assert Stack(sqnum', moveList', start) == moveList';
    assert Spans(r, w, h) by {
      assert r.Keys == g.Keys;
    }
    assert r[start].HasInDoor();
    assert Rooted(r, start) by {
      BacktrackRooted(g, end, start, stack[sqnum]);
    }
    assert CarvePotential(r, sqnum', moveList', start) == 2 * |Unvisited(g)| + sqnum;
  }

  /**
   * A step that opens door `d` from the top square pushes the neighbour
   * across it: from `g` to `r`, the state is kept and the potential drops
   * by one.
   */
  lemma PushKeeps(g: Grid, r: Grid, w: int, h: int, start: Pos, end: Pos,
                  sqnum: int, moveList: seq<Pos>, d: Side, sqnum': int, moveList': seq<Pos>)
    requires CarveState(g, w, h, start, end, sqnum, moveList) && sqnum >= 0
    requires Open(g, Stack(sqnum, moveList, start)[sqnum], d)
    requires r == Advanced(g, Stack(sqnum, moveList, start)[sqnum], d)
    requires sqnum' == sqnum + 1
    requires moveList' == Stack(sqnum, moveList, start) + [Neighbour(Stack(sqnum, moveList, start)[sqnum], d)]
    ensures CarveState(r, w, h, start, end, sqnum', moveList')
    ensures CarvePotential(r, sqnum', moveList', start) < CarvePotential(g, sqnum, moveList, start)
  {
    var stack := Stack(sqnum, moveList, start);
    AdvanceKeeps(g, end, stack, d);
    assert Rooted(r, start) by {
      AdvanceRooted(g, end, start, stack[sqnum], d);
    }
    assert Stack(sqnum', moveList', start) == moveList';
    assert start !in Unvisited(g);
    assert start !in Unvisited(r);
  }

}
