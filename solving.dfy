/**
 * The solver's state between two steps, on values: a depth-first walk
 * through the doors out of a carved grid, with the doors tried from each
 * square, and the measure that every step short of the end decreases.
 */
module Solving {

  import opened Sides
  import opened Squares
  import opened Grids
  import opened Layouts

  /** The doors tried so far from each square the solver has stood on. */
  type Attempts = map<Pos, seq<Side>>

  /** A list of sides in which no side occurs twice. */
  ghost predicate NoRepeats(sides: seq<Side>)
  {
    forall i, j :: 0 <= i < j < |sides| ==> sides[i] != sides[j]
  }

  /** The doors tried from `q`: none when `q` has no record yet. */
  function Tried(att: Attempts, q: Pos): seq<Side>
  {
    if q in att then att[q] else []
  }

  /** `r` is `g` with at most its path marks changed. */
  ghost predicate SameSides(g: Grid, r: Grid)
  {
    r.Keys == g.Keys && forall q, s :: q in g ==> r[q].Get(s) == g[q].Get(s)
  }

  /**
   * The solver's state between two steps: the stack `moveList`, topped at
   * index `sqnum` and equal to `path`, is a walk through doors out from the
   * start; the end is on it only on top, and then it is the current square;
   * no door is recorded as tried twice from one square.
   */
  ghost predicate SolveState(g: Grid, start: Pos, end: Pos, current: Pos, sqnum: int,
                             moveList: seq<Pos>, path: seq<Pos>, att: Attempts)
  {
    && GridShape(g, end) && start in g && end in g && current in g
    && -1 <= sqnum && |moveList| == sqnum + 1 && path == moveList
    && (sqnum >= 0 ==> moveList[0] == start)
    && Walk(g, moveList)
    && (forall i :: 0 <= i < |moveList| && moveList[i] == end ==> i == sqnum && current == end)
    && (current == end ==> sqnum >= 0 && moveList[sqnum] == end)
    && (forall q :: q in att ==> NoRepeats(att[q]))
  }

  const AllSides: set<Side> := {Top, Right, Bottom, Left}

  /** The doors out not tried yet, as square and side. */
  ghost function Untried(g: Grid, att: Attempts): set<(Pos, Side)>
  {
    set q, s | q in g && s in AllSides && g[q].Get(s) == DoorOut && s !in Tried(att, q) :: (q, s)
  }

  /**
   * Decreases with every step taken short of the end: a move forward uses
   * up an untried door, a move back shortens the stack.
   */
  ghost function SolvePotential(g: Grid, att: Attempts, sqnum: int): nat
    requires sqnum >= -1
  {
    2 * |Untried(g, att)| + (sqnum + 1)
  }

  /** The solver's choice of exit looks at the sides of a square only. */
  lemma {:induction false} FirstUsableIgnoresPath(sq: Square, b: bool, tried: seq<Side>, order: seq<Side>)
    ensures FirstUsable(sq.(onPath := b), tried, order) == FirstUsable(sq, tried, order)
    decreases |order|
  {
    if order != [] {
      FirstUsableIgnoresPath(sq, b, tried, order[1..]);
    }
  }

  /** Only the end square has a door out of the grid: any other door out leads to a square of it. */
  lemma ExitInside(g: Grid, end: Pos, c: Pos, s: Side)
    requires GridShape(g, end) && c in g && c != end && g[c].Get(s) == DoorOut
    ensures Neighbour(c, s) in g
  {
  }

  /** Changing path marks only changes neither the walk nor the untried doors. */
  lemma SameSidesKeep(g: Grid, r: Grid, start: Pos, end: Pos, current: Pos, sqnum: int,
                      moveList: seq<Pos>, path: seq<Pos>, att: Attempts)
    requires SolveState(g, start, end, current, sqnum, moveList, path, att) && SameSides(g, r)
    ensures SolveState(r, start, end, current, sqnum, moveList, path, att)
    ensures Untried(r, att) == Untried(g, att)
  {
    assert GridShape(r, end) by { MarksKeepShape(g, r, end); }
    forall i | 0 <= i < |moveList| - 1
      ensures Linked(r, moveList[i], moveList[i + 1])
    {
      assert Linked(g, moveList[i], moveList[i + 1]);
      var s :| g[moveList[i]].Get(s) == DoorOut && Neighbour(moveList[i], s) == moveList[i + 1];
      assert r[moveList[i]].Get(s) == DoorOut;
    }
  }

  /** A fresh solver: the stack holds the start square, and nothing has been tried. */
  lemma SolveStart(g: Grid, start: Pos, end: Pos)
    requires GridShape(g, end) && start in g && end in g
    ensures SameSides(g, ClearMarks(g))
    ensures SolveState(ClearMarks(g), start, end, start, 0, [start], [start], map[])
  {
    var r := ClearMarks(g);
    assert GridShape(r, end) by { MarksKeepShape(g, r, end); }
  }

  /** Recording as tried no new door leaves the untried doors as they were. */
  lemma UntriedSame(g: Grid, att: Attempts, c: Pos)
    ensures Untried(g, att[c := Tried(att, c)]) == Untried(g, att)
  {
    var att' := att[c := Tried(att, c)];
    assert forall q :: Tried(att', q) == Tried(att, q);
  }

  /** Recording door `d` of `c` as tried takes exactly that door off the untried ones. */
  lemma UntriedTake(g: Grid, att: Attempts, c: Pos, d: Side)
    requires c in g && g[c].Get(d) == DoorOut && d !in Tried(att, c)
    ensures (c, d) in Untried(g, att)
    ensures Untried(g, att[c := Tried(att, c) + [d]]) == Untried(g, att) - {(c, d)}
    ensures |Untried(g, att[c := Tried(att, c) + [d]])| == |Untried(g, att)| - 1
  {
    var att' := att[c := Tried(att, c) + [d]];
    var u, u' := Untried(g, att), Untried(g, att');
    assert d in AllSides;
    assert (c, d) in u;
    forall x | x in u'
      ensures x in u - {(c, d)}
    {
      var (q, s) := x;
      if q == c {
        assert s in Tried(att, c) + [d] ==> s in Tried(att, c) || s == d;
      }
    }
    forall x | x in u - {(c, d)}
      ensures x in u'
    {
      var (q, s) := x;
      if q == c {
        assert s in Tried(att, c) + [d] ==> s in Tried(att, c) || s == d;
      }
    }
    assert u' == u - {(c, d)};
  }

  /** A second record for the same square replaces the first (a helper that keeps `SolveFromTop`'s proof small). */
  lemma RecordTwice(att: Attempts, c: Pos, t: seq<Side>, t': seq<Side>)
    ensures att[c := t][c := t'] == att[c := t']
  {
  }

  /** Recording an untried door keeps every record of tried doors free of repeats. */
  lemma TriedStaysDistinct(att: Attempts, c: Pos, d: Side, att': Attempts)
    requires forall q :: q in att ==> NoRepeats(att[q])
    requires d !in Tried(att, c) && att' == att[c := Tried(att, c) + [d]]
    ensures forall q :: q in att' ==> NoRepeats(att'[q])
  {
    var t := Tried(att, c);
    assert t == [] || NoRepeats(att[c]);
    assert forall i :: 0 <= i < |t| ==> (t + [d])[i] == t[i];
  }

  /**
   * The first half of a step short of the end: the top square `c` of the
   * stack becomes current, is marked on the path, and gets an empty record
   * of tried doors if it has none. The state is kept and so is the measure.
   */
  lemma LookKeeps(g: Grid, r: Grid, start: Pos, end: Pos, current: Pos, sqnum: int,
                  moveList: seq<Pos>, path: seq<Pos>, att: Attempts, att': Attempts)
    requires SolveState(g, start, end, current, sqnum, moveList, path, att) && current != end && sqnum >= 0
    requires SameSides(g, r) && att' == att[moveList[sqnum] := Tried(att, moveList[sqnum])]
    ensures moveList[sqnum] != end
    ensures SolveState(r, start, end, moveList[sqnum], sqnum, moveList, path, att')
    ensures SolvePotential(r, att', sqnum) == SolvePotential(g, att, sqnum)
  {
    var c := moveList[sqnum];
    SameSidesKeep(g, r, start, end, current, sqnum, moveList, path, att);
    UntriedSame(r, att, c);
    assert forall q :: q in att' ==> NoRepeats(att'[q]);
  }

  /**
   * A step that finds no usable door out of the current square `c` on top
   * of the stack, or finds `c` already a dead end: `c` is unmarked and
   * popped from both lists, it stays the current square, and the state is
   * kept with a smaller measure.
   */
  lemma SolvePopKeeps(g: Grid, r: Grid, start: Pos, end: Pos, sqnum: int,
                      moveList: seq<Pos>, path: seq<Pos>, att: Attempts)
    requires sqnum >= 0 && |moveList| == sqnum + 1
    requires SolveState(g, start, end, moveList[sqnum], sqnum, moveList, path, att) && moveList[sqnum] != end
    requires SameSides(g, r)
    ensures SolveState(r, start, end, moveList[sqnum], sqnum - 1, moveList[..sqnum], path[..sqnum], att)
    ensures SolvePotential(r, att, sqnum - 1) < SolvePotential(g, att, sqnum)
  {
    SameSidesKeep(g, r, start, end, moveList[sqnum], sqnum, moveList, path, att);
    var rest := moveList[..sqnum];
    assert forall i :: 0 <= i < |rest| ==> rest[i] == moveList[i];
    assert Walk(r, rest);
  }

  /**
   * A step that leaves the top square `c` by its untried door out `d`: the
   * square across `d` is pushed on both lists and becomes current, `d` is
   * recorded as tried from `c`, and the state is kept with a smaller measure.
   */
  lemma SolvePushKeeps(g: Grid, start: Pos, end: Pos, sqnum: int,
                       moveList: seq<Pos>, path: seq<Pos>, att: Attempts, d: Side, att': Attempts)
    requires sqnum >= 0 && |moveList| == sqnum + 1
    requires SolveState(g, start, end, moveList[sqnum], sqnum, moveList, path, att) && moveList[sqnum] != end
    requires Usable(g[moveList[sqnum]], Tried(att, moveList[sqnum]), d)
    requires att' == att[moveList[sqnum] := Tried(att, moveList[sqnum]) + [d]]
    ensures Neighbour(moveList[sqnum], d) in g
    ensures var n := Neighbour(moveList[sqnum], d);
      SolveState(g, start, end, n, sqnum + 1, moveList + [n], path + [n], att')
    ensures SolvePotential(g, att', sqnum + 1) < SolvePotential(g, att, sqnum)
  {
    var c := moveList[sqnum];
    ExitInside(g, end, c, d);
    UntriedTake(g, att, c, d);
    WalkExtends(g, moveList, d);
    TriedStaysDistinct(att, c, d, att');
  }
}
