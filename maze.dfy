/**
 * The maze engine: a width x height grid of squares, an entrance and an
 * exit on opposite edges, a randomised depth-first carver and a
 * depth-first solver, both run one step at a time over an explicit stack.
 */
module Mazes {

  import opened Options
  import opened Sides
  import opened Squares
  import opened Grids
  import opened Layouts
  import opened Carving
  import opened Solving

  class Maze {
    const width: int
    const height: int

    /** The squares by position: `grid[Pos(x, y)]` is the square in column x, row y. */
    var grid: Grid
    var start: Pos
    var end: Pos
    var current: Pos

    /** Index of the top of the stack `moveList`. */
    var sqnum: int
    var moveList: seq<Pos>
    var path: seq<Pos>
    var doorsAttempted: map<Pos, seq<Side>>
    var deadEnds: seq<Pos>

    /**
     * A maze of the given size whose grid is not built yet; the start, end
     * and current squares are placeholders outside every grid.
     */
    constructor (width: int, height: int)
      ensures this.width == width && this.height == height
      ensures grid == map[]
      ensures sqnum == 0 && moveList == [] && path == [] && doorsAttempted == map[] && deadEnds == []
    {
      this.width := width;
      this.height := height;
      grid := map[];
      // Placeholders until `InitialiseMaze`; they coincide on purpose, since no contract reads them before then.
      start, end, current := Pos(-1, -1), Pos(-1, -1), Pos(-1, -1);
      sqnum := 0;
      moveList, path := [], [];
      doorsAttempted := map[];
      deadEnds := [];
    }

    /** The grid holds w x h squares at most: it is empty until it is built. */
    ghost predicate Sized()
      reads this
    {
      Within(grid, width, height)
    }

    /** The grid has been built: it holds exactly the w x h squares. */
    ghost predicate Built()
      reads this
    {
      Spans(grid, width, height)
    }

    // ------------------------------------------------------------------
    // Grid setup

    /**
     * Builds the grid column by column: each column is emptied and refilled
     * with fresh squares that have walls exactly on the sides facing off
     * the grid.
     */
    method InitialiseSquares()
      requires Sized()
      modifies this`grid
      ensures grid == InitialGrid(width, height)
    {
      var x := 0;
      while x < width
        invariant 0 <= x && (x <= width || x == 0)
        invariant Within(grid, width, height)
        invariant forall p :: p in grid && p.x < x ==> grid[p] == InitialSquare(width, height, p)
        invariant forall p :: InBounds(width, height, p) && p.x < x ==> p in grid
      {
        InitialiseColumn(x);
        x := x + 1;
      }
      InitialGridUnique(grid, width, height);
    }

    /** One pass of the outer loop of `InitialiseSquares`: column x emptied and refilled. */
    method InitialiseColumn(x: int)
      requires Sized() && 0 <= x < width
      modifies this`grid
      ensures Sized()
      ensures forall p :: p in grid && p.x != x ==> p in old(grid) && grid[p] == old(grid)[p]
      ensures forall p :: p in old(grid) && p.x != x ==> p in grid
      ensures forall p :: p in grid && p.x == x ==> grid[p] == InitialSquare(width, height, p)
      ensures forall p: Pos :: p.x == x && 0 <= p.y < height ==> p in grid
    {
      grid := map q | q in grid && q.x != x :: grid[q];
      var y := 0;
      while y < height
        invariant 0 <= y && (y <= height || y == 0)
        invariant Within(grid, width, height)
        invariant forall p :: p in grid && p.x != x ==> p in old(grid) && grid[p] == old(grid)[p]
        invariant forall p :: p in old(grid) && p.x != x ==> p in grid
        invariant forall p :: p in grid && p.x == x ==> p.y < y && grid[p] == InitialSquare(width, height, p)
        invariant forall p: Pos :: p.x == x && 0 <= p.y < y ==> p in grid
      {
        var sq := NewSquare(x, y);
        ghost var before := grid;
        grid := grid[Pos(x, y) := sq];
        assert forall p: Pos :: p.x == x && 0 <= p.y <= y ==> p in grid by {
          forall p: Pos | p.x == x && 0 <= p.y <= y
            ensures p in grid
          {
            if p.y < y {
              assert p in before;
            } else {
              assert p == Pos(x, y);
            }
          }
        }
        y := y + 1;
      }
    }

    /** A new square for position (x, y), off the path, walled on the sides facing off the grid. */
    method NewSquare(x: int, y: int) returns (sq: Square)
      ensures sq == InitialSquare(width, height, Pos(x, y))
    {
      sq := Square(Unset, Unset, Unset, Unset, false);
      if x == 0 {
        sq := sq.Set(Left, Wall);
      }
      if y == 0 {
        sq := sq.Set(Top, Wall);
      }
      if x == width - 1 {
        sq := sq.Set(Right, Wall);
      }
      if y == height - 1 {
        sq := sq.Set(Bottom, Wall);
      }
    }

    /** Clears the path mark of every square; nothing else changes. */
    method ResetPath()
      requires Built()
      modifies this`grid
      ensures grid == ClearMarks(old(grid))
    {
      var x := 0;
      while x < width
        invariant 0 <= x && (x <= width || x == 0)
        invariant grid.Keys == old(grid).Keys
        invariant forall p :: p in grid ==> grid[p] == if p.x < x then old(grid)[p].(onPath := false) else old(grid)[p]
      {
        var y := 0;
        while y < height
          invariant 0 <= y && (y <= height || y == 0)
          invariant grid.Keys == old(grid).Keys
          invariant forall p :: p in grid ==>
                      grid[p] == if p.x < x || (p.x == x && p.y < y) then old(grid)[p].(onPath := false) else old(grid)[p]
        {
          grid := grid[Pos(x, y) := grid[Pos(x, y)].(onPath := false)];
          y := y + 1;
        }
        x := x + 1;
      }
      assert grid == ClearMarks(old(grid));
    }

    /**
     * Picks the entrance side at random, a random square on that edge as
     * the start with a door in there, and a random square on the opposite
     * edge as the end with a door out there.
     */
    method SetStartAndExit() returns (ghost entry: Side)
      requires width >= 1 && height >= 1 && Built()
      modifies this`start, this`end, this`grid
      ensures OnEdge(width, height, start, entry) && OnEdge(width, height, end, Opposite(entry))
      ensures grid == OpenEnds(old(grid), start, end, entry)
    {
      var x, y := -1, -1;
      var startSide, roll := RandomSide();
      match startSide {
        case Top =>
          x := GetRandom(width);
          y := 0;
        case Bottom =>
          x := GetRandom(width);
          y := height - 1;
        case Left =>
          x := 0;
          y := GetRandom(height);
        case Right =>
          x := width - 1;
          y := GetRandom(height);
      }
      start := Pos(x, y);
      grid := grid[start := grid[start].Set(startSide, DoorIn)];

      var endSide := Opposite(startSide);
      match endSide {
        case Top =>
          x := GetRandom(width);
          y := 0;
        case Bottom =>
          x := GetRandom(width);
          y := height - 1;
        case Left =>
          x := 0;
          y := GetRandom(height);
        case Right =>
          x := width - 1;
          y := GetRandom(height);
      }
      end := Pos(x, y);
      grid := grid[end := grid[end].Set(endSide, DoorOut)];
      entry := startSide;
    }

    /**
     * A fresh grid with its entrance and exit, ready for carving: the
     * carver's stack will start at the start square, the only square
     * reached so far.
     */
    method InitialiseMaze() returns (ghost entry: Side)
      requires width >= 1 && height >= 1 && Sized()
      modifies this`grid, this`start, this`end, this`sqnum, this`moveList, this`path
      ensures OnEdge(width, height, start, entry) && OnEdge(width, height, end, Opposite(entry))
      ensures grid == OpenEnds(InitialGrid(width, height), start, end, entry)
      ensures sqnum == 0 && moveList == [] && path == []
      ensures CarveInv()
      ensures Potential() == 2 * (width * height) - 1
    {
      InitialiseSquares();
      entry := SetStartAndExit();
      sqnum := 0;
      moveList := [];
      path := [];
      FreshCarveState(grid, width, height, start, end, entry);
    }

    // ------------------------------------------------------------------
    // Carving

    /** The carver's stack once the start square has been pushed onto an empty one. */
    function Pending(): seq<Pos>
      reads this
    {
      Stack(sqnum, moveList, start)
    }

    ghost predicate CarveInv()
      reads this
    {
      CarveState(grid, width, height, start, end, sqnum, moveList)
    }

    ghost function Potential(): nat
      reads this
    {
      CarvePotential(grid, sqnum, moveList, start)
    }

    /**
     * One side of the carver's door choice: an unset side facing a reached
     * square is walled on both sides; one facing an unreached square is
     * added to the candidates.
     */
    method CloseOrOffer(p: Pos, s: Side, candidates: seq<Side>) returns (more: seq<Side>)
      requires GridShape(grid, end) && p in grid
      modifies this`grid
      ensures grid == CloseSide(old(grid), p, s)
      ensures more == candidates + (if Open(old(grid), p, s) then [s] else [])
    {
      more := candidates;
      if grid[p].Get(s) == Unset {
        var n := Neighbour(p, s);
        if grid[n].HasInDoor() {
          grid := SetFacing(grid, p, s, Wall);
        } else {
          more := candidates + [s];
        }
      }
    }

    /**
     * The carver's choice of the next door from `p`: every unset side whose
     * neighbour already has a door in becomes a wall on both sides, and the
     * result is a random candidate, or None when there is none.
     */
    method ChooseDoor(p: Pos) returns (door: Option<Side>)
      requires GridShape(grid, end) && p in grid
      modifies this`grid
      ensures grid == CloseOff(old(grid), p)
      ensures door.Some? ==> door.value in Candidates(old(grid), p)
      ensures door.None? <==> Candidates(old(grid), p) == []
    {
      ghost var g0 := grid;
      var candidates: seq<Side> := [];
      CloseSideShape(grid, end, p, Top);
      candidates := CloseOrOffer(p, Top, candidates);
      assert candidates == if Open(g0, p, Top) then [Top] else [];
      ghost var g1 := grid;
      CloseSideShape(grid, end, p, Right);
      candidates := CloseOrOffer(p, Right, candidates);
      ghost var g2 := grid;
      CloseSideShape(grid, end, p, Bottom);
      candidates := CloseOrOffer(p, Bottom, candidates);
      ghost var g3 := grid;
      candidates := CloseOrOffer(p, Left, candidates);
      assert Open(g1, p, Right) == Open(g0, p, Right) by {
        CloseSideOther(g0, p, Top, Right);
      }
      assert Open(g2, p, Bottom) == Open(g0, p, Bottom) by {
        CloseSideOther(g0, p, Top, Bottom);
        CloseSideOther(g1, p, Right, Bottom);
      }
      assert Open(g3, p, Left) == Open(g0, p, Left) by {
        CloseSideOther(g0, p, Top, Left);
        CloseSideOther(g1, p, Right, Left);
        CloseSideOther(g2, p, Bottom, Left);
      }
      assert candidates == Candidates(g0, p);

      if |candidates| == 0 {
        return None;
      }
      var i := GetRandom(|candidates|);
      door := Some(candidates[i]);
    }

    /**
     * The end of a carving step that found no candidate door from the top
     * square `c` (already marked and walled in): `c` is unmarked and popped.
     */
    method Retreat(c: Pos, ghost g0: Grid, ghost n0: int, ghost m0: seq<Pos>)
      requires CarveState(g0, width, height, start, end, n0, m0) && 0 <= n0 < |m0| && c == m0[n0]
      requires Candidates(g0, c) == [] && grid == CloseOff(Mark(g0, c, true), c)
      requires sqnum == n0 && moveList == m0
      modifies this`grid, this`moveList, this`sqnum
      ensures grid == Backtracked(g0, c) && sqnum == n0 - 1 && moveList == m0[..n0]
      ensures CarveInv() && Potential() < CarvePotential(g0, n0, m0, start)
    {
      grid := Mark(grid, c, false);
      moveList := moveList[..sqnum];
      sqnum := sqnum - 1;
      PopKeeps(g0, grid, width, height, start, end, n0, m0, sqnum, moveList);
    }

    /**
     * The end of a carving step that chose door `s` from the top square `c`
     * (already marked and walled in): a door out on `c` and a door in on the
     * neighbour across `s`, set together, and the neighbour pushed as the
     * current square.
     */
    method Advance(c: Pos, s: Side, ghost g0: Grid, ghost n0: int, ghost m0: seq<Pos>)
      requires CarveState(g0, width, height, start, end, n0, m0) && 0 <= n0 < |m0| && c == m0[n0]
      requires Open(g0, c, s) && grid == CloseOff(Mark(g0, c, true), c)
      requires sqnum == n0 && moveList == m0
      modifies this`grid, this`current, this`moveList, this`sqnum
      ensures Neighbour(c, s) in g0 && grid == Advanced(g0, c, s)
      ensures current == Neighbour(c, s) && sqnum == n0 + 1 && moveList == m0 + [current]
      ensures CarveInv() && Potential() < CarvePotential(g0, n0, m0, start)
    {
      grid := SetFacing(grid, c, s, DoorOut);
      current := Neighbour(c, s);
      moveList := moveList + [current];
      sqnum := sqnum + 1;
      PushKeeps(g0, grid, width, height, start, end, n0, m0, s, sqnum, moveList);
    }

    /**
     * The first half of a carving step: the top square of the stack becomes
     * current, is marked on the path, and has its sides walled or offered.
     */
    method MarkAndChoose() returns (d: Option<Side>)
      requires GridShape(grid, end) && 0 <= sqnum < |moveList| && moveList[sqnum] in grid
      modifies this`current, this`grid
      ensures current == moveList[sqnum]
      ensures grid == CloseOff(Mark(old(grid), current, true), current)
      ensures d.Some? ==> d.value in Candidates(old(grid), current)
      ensures d.None? <==> Candidates(old(grid), current) == []
    {
      ghost var g0 := grid;
      current := moveList[sqnum];
      var c := current;
      assert GridShape(Mark(g0, c, true), end) by { MarksKeepShape(g0, Mark(g0, c, true), end); }
      grid := Mark(grid, c, true);
      d := ChooseDoor(c);
      assert Candidates(Mark(g0, c, true), c) == Candidates(g0, c) by { MarkKeepsCandidates(g0, c, true); }
    }

    /**
     * A carving step from the top square `c` of a non-empty stack: `c`
     * becomes current and is marked on the path, its sides are walled or
     * offered, and then it is popped or a random door out of it is opened.
     */
    method CarveFromTop() returns (ghost door: Option<Side>)
      requires CarveInv() && 0 <= sqnum < |moveList|
      modifies this`current, this`sqnum, this`moveList, this`grid
      ensures CarveInv() && Potential() < old(Potential())
      ensures var c := old(moveList)[old(sqnum)];
              match door
              case None =>
                && Candidates(old(grid), c) == [] && grid == Backtracked(old(grid), c)
                && current == c && sqnum == old(sqnum) - 1 && moveList == old(moveList)[..old(sqnum)]
              case Some(d) =>
                && d in Candidates(old(grid), c) && grid == Advanced(old(grid), c, d)
                && current == Neighbour(c, d) && sqnum == old(sqnum) + 1
                && moveList == old(moveList) + [Neighbour(c, d)]
    {
      ghost var g0, n0, m0 := grid, sqnum, moveList;
      assert GridShape(grid, end) && moveList[sqnum] in grid by {
        assert Pending() == moveList;
      }
      var d := MarkAndChoose();
      var c := current;
      if d == None {
        Retreat(c, g0, n0, m0);
      } else {
        assert Open(g0, c, d.value);
        Advance(c, d.value, g0, n0, m0);
      }
      door := d;
    }

    /**
     * One step of the carver. The start square is pushed if the list of
     * moves is empty; then, with squares on the stack, the step carves from
     * the top square: it is marked on the path and its sides are walled or
     * offered; with no candidate it is unmarked and popped, otherwise a
     * random candidate door is opened (a door out here, a door in on the
     * neighbour) and the neighbour is pushed. Once the stack has run out
     * nothing else changes. Returns the new top index.
     */
    method StepCreate() returns (r: int, ghost door: Option<Side>)
      requires CarveInv()
      modifies this`current, this`sqnum, this`moveList, this`grid
      ensures CarveInv() && r == sqnum
      ensures KeepsSet(old(grid), grid)
      ensures old(sqnum) < 0 ==>
                && grid == old(grid) && sqnum == old(sqnum) && current == old(current)
                && moveList == (if old(moveList) == [] then [start] else old(moveList))
                && Potential() == old(Potential())
      ensures old(sqnum) >= 0 ==> Potential() < old(Potential())
      ensures old(sqnum) >= 0 ==>
                var c := old(Pending())[old(sqnum)];
                match door
                case None =>
                  && Candidates(old(grid), c) == [] && grid == Backtracked(old(grid), c)
                  && current == c && sqnum == old(sqnum) - 1 && moveList == old(Pending())[..old(sqnum)]
                case Some(d) =>
                  && d in Candidates(old(grid), c) && grid == Advanced(old(grid), c, d)
                  && current == Neighbour(c, d) && sqnum == old(sqnum) + 1
                  && moveList == old(Pending()) + [Neighbour(c, d)]
    {
      ghost var stack := Pending();
      if moveList == [] {
        StartPushedKeeps(grid, width, height, start, end, sqnum);
        moveList := moveList + [start];
      }
      door := None;
      if sqnum >= 0 {
        assert moveList == stack;
        ghost var g0, c := grid, moveList[sqnum];
        door := CarveFromTop();
        if door.None? {
          BacktrackedSides(g0, end, c);
        } else {
          AdvancedSides(g0, end, c, door.value);
        }
      }
      r := sqnum;
    }

    /**
     * Runs the carver to the end, one step at a time. It stops after at
     * most as many steps as the potential it started with, never changes a
     * side once set, and leaves every square reached from the start through
     * doors out, with exactly one door in and no cycle of doors out: the
     * maze is a spanning tree of the grid rooted at the start.
     */
    method Create() returns (ghost steps: nat)
      requires CarveInv()
      modifies this`current, this`sqnum, this`moveList, this`grid
      ensures CarveInv() && sqnum < 0
      ensures steps <= old(Potential())
      ensures KeepsSet(old(grid), grid)
      ensures Unvisited(grid) == {}
      ensures forall q :: q in grid ==> grid[q].InDoorCount() == 1
      ensures forall q :: q in grid ==> Reaches(grid, start, q)
      ensures forall ps :: Walk(grid, ps) && |ps| >= 2 ==> ps[0] != ps[|ps| - 1]
    {
      if moveList == [] {
        moveList := moveList + [start];
      }
      steps := 0;
      while sqnum >= 0
        invariant CarveInv()
        invariant steps + Potential() <= old(Potential())
        invariant KeepsSet(old(grid), grid)
        decreases Potential()
      {
        var top, door := StepCreate();
        steps := steps + 1;
      }
      CarveComplete(grid, width, height, end, start);
      forall ps | Walk(grid, ps) && |ps| >= 2
        ensures ps[0] != ps[|ps| - 1]
      {
        CarvedAcyclic(grid, end, start, ps);
      }
    }


    // ------------------------------------------------------------------
    // Solving

    ghost predicate SolveInv()
      reads this
    {
      SolveState(grid, start, end, current, sqnum, moveList, path, doorsAttempted)
    }

    ghost function SolveMeasure(): nat
      reads this
      requires SolveInv()
    {
      SolvePotential(grid, doorsAttempted, sqnum)
    }

    /**
     * The solver starts afresh: every path mark is cleared, the start square
     * is current and alone on both lists, and nothing has been tried.
     */
    method InitialiseSolver()
      requires Built()
      modifies this`grid, this`current, this`sqnum, this`moveList, this`path, this`doorsAttempted, this`deadEnds
      ensures grid == ClearMarks(old(grid)) && current == start
      ensures sqnum == 0 && moveList == [start] && path == [start]
      ensures doorsAttempted == map[] && deadEnds == []
      ensures GridShape(old(grid), end) && start in old(grid) && end in old(grid) ==> SolveInv()
    {
      ghost var g0 := grid;
      ResetPath();
      current := start;
      sqnum := 0;
      moveList := [start];
      path := [start];
      doorsAttempted := map[];
      deadEnds := [];
      if GridShape(g0, end) && start in g0 && end in g0 {
        SolveStart(g0, start, end);
      }
    }

    /**
     * The first half of a solving step short of the end: the top of the
     * stack becomes the current square and is marked on the path, an empty
     * record of tried doors is made for it if it has none, and the first
     * untried door out, scanning clockwise from the side after its door in,
     * is looked up.
     */
    method LookForExit() returns (tried: seq<Side>, out: Option<Side>)
      requires SolveInv() && current != end && sqnum >= 0
      modifies this`current, this`grid, this`doorsAttempted
      ensures current == moveList[sqnum] && grid == Mark(old(grid), current, true)
      ensures tried == Tried(old(doorsAttempted), current)
      ensures doorsAttempted == old(doorsAttempted)[current := tried]
      ensures out == FirstUsable(old(grid)[current], tried, ScanFrom(old(grid)[current].InDoor()))
      ensures SolveInv() && current != end && SolveMeasure() == old(SolveMeasure())
    {
      ghost var g0, cur0, a0 := grid, current, doorsAttempted;
      var c := moveList[sqnum];
      var g := Mark(grid, c, true);
      tried := if c in doorsAttempted then doorsAttempted[c] else [];
      out := NextOutDoorStartingFrom(g[c], g[c].InDoor(), tried);
      FirstUsableIgnoresPath(g0[c], true, tried, ScanFrom(g0[c].InDoor()));
      current := c;
      grid := g;
      if c !in doorsAttempted {
        doorsAttempted := doorsAttempted[c := tried];
      }
      LookKeeps(g0, grid, start, end, cur0, sqnum, moveList, path, a0, doorsAttempted);
    }

    /**
     * The end of a solving step that found no untried door out of the
     * current square on top of the stack, or found it a dead end already:
     * it is recorded as a dead end, unmarked and popped from both lists.
     */
    method SolveRetreat()
      requires SolveInv() && current != end && sqnum >= 0 && current == moveList[sqnum]
      modifies this`grid, this`sqnum, this`moveList, this`path, this`deadEnds
      ensures grid == Mark(old(grid), current, false) && deadEnds == old(deadEnds) + [current]
      ensures sqnum == old(sqnum) - 1 && moveList == old(moveList)[..old(sqnum)] && path == old(path)[..old(sqnum)]
      ensures SolveInv() && SameSides(old(grid), grid) && SolveMeasure() < old(SolveMeasure())
    {
      SolvePopKeeps(grid, Mark(grid, current, false), start, end, sqnum, moveList, path, doorsAttempted);
      deadEnds := deadEnds + [current];
      grid := Mark(grid, current, false);
      path := path[..|path| - 1];
      moveList := moveList[..|moveList| - 1];
      sqnum := sqnum - 1;
    }

    /**
     * The end of a solving step that found the untried door out `d` of the
     * current square on top of the stack: `d` is recorded as tried, and the
     * square across it is pushed on both lists and becomes current.
     */
    method SolveAdvance(d: Side, tried: seq<Side>)
      requires SolveInv() && current != end && sqnum >= 0 && current == moveList[sqnum]
      requires tried == Tried(doorsAttempted, current) && Usable(grid[current], tried, d)
      modifies this`current, this`sqnum, this`moveList, this`path, this`doorsAttempted
      ensures doorsAttempted == old(doorsAttempted)[old(current) := tried + [d]]
      ensures current == Neighbour(old(current), d)
      ensures sqnum == old(sqnum) + 1 && moveList == old(moveList) + [current] && path == old(path) + [current]
      ensures SolveInv() && SolveMeasure() < old(SolveMeasure())
    {
      var c := current;
      SolvePushKeeps(grid, start, end, sqnum, moveList, path, doorsAttempted, d, doorsAttempted[c := tried + [d]]);
      doorsAttempted := doorsAttempted[c := tried + [d]];
      current := Neighbour(c, d);
      path := path + [current];
      moveList := moveList + [current];
      sqnum := sqnum + 1;
    }

    /**
     * A solving step from the top square `c` of a non-empty stack when the
     * current square is not the end: with no untried door out of `c`, or
     * with `c` already a dead end, `c` is recorded as a dead end, unmarked
     * and popped; otherwise its first untried door out is recorded as tried
     * and the square across it is pushed and becomes current.
     */
    method SolveFromTop() returns (out: Option<Side>)
      requires SolveInv() && current != end && sqnum >= 0
      modifies this`grid, this`current, this`sqnum, this`moveList, this`path, this`doorsAttempted, this`deadEnds
      ensures SolveInv() && SameSides(old(grid), grid) && SolveMeasure() < old(SolveMeasure())
      ensures var c := old(moveList)[old(sqnum)];
              var tried := Tried(old(doorsAttempted), c);
        && out == FirstUsable(old(grid)[c], tried, ScanFrom(old(grid)[c].InDoor()))
        && if out.None? || c in old(deadEnds) then
             && grid == Mark(Mark(old(grid), c, true), c, false) && current == c
             && sqnum == old(sqnum) - 1 && moveList == old(moveList)[..old(sqnum)] && path == old(path)[..old(sqnum)]
             && doorsAttempted == old(doorsAttempted)[c := tried] && deadEnds == old(deadEnds) + [c]
           else
             && grid == Mark(old(grid), c, true) && current == Neighbour(c, out.value)
             && sqnum == old(sqnum) + 1 && moveList == old(moveList) + [current] && path == old(path) + [current]
             && doorsAttempted == old(doorsAttempted)[c := tried + [out.value]] && deadEnds == old(deadEnds)
    {
      var tried;
      tried, out := LookForExit();
      if out == None || current in deadEnds {
        SolveRetreat();
      } else {
        ghost var c := current;
        SolveAdvance(out.value, tried);
        RecordTwice(old(doorsAttempted), c, tried, tried + [out.value]);
      }
    }

    /**
     * One step of the solver. Short of the end, it steps from the top `c`
     * of the stack: `c` becomes current and is marked on the path, and the
     * first untried door out of `c`, scanning clockwise from its door in,
     * is the door `out` taken; with none, or with `c` already a dead end,
     * `c` is recorded as a dead end, unmarked and popped; otherwise the
     * door is recorded as tried and the square behind it pushed as the new
     * current square. On the end square, it marks it on the path. It
     * answers whether the end is reached, and then the path runs through
     * doors out from the start to the end. No side of any square changes,
     * and a step short of the end decreases the solver's measure, so the
     * solver stops.
     */
    method StepSolve() returns (done: bool, ghost out: Option<Side>)
      requires SolveInv() && (current != end ==> sqnum >= 0)
      modifies this`grid, this`current, this`sqnum, this`moveList, this`path, this`doorsAttempted, this`deadEnds
      ensures SolveInv() && SameSides(old(grid), grid)
      ensures done <==> current == end
      ensures done ==> path[0] == start && path[|path| - 1] == end && Walk(grid, path)
      ensures old(current) == end ==>
        && grid == Mark(old(grid), end, true) && current == end && sqnum == old(sqnum)
        && moveList == old(moveList) && path == old(path)
        && doorsAttempted == old(doorsAttempted) && deadEnds == old(deadEnds)
      ensures old(current) != end ==> SolveMeasure() < old(SolveMeasure())
      ensures old(current) != end ==>
        var c := old(moveList)[old(sqnum)];
        var tried := Tried(old(doorsAttempted), c);
        && out == FirstUsable(old(grid)[c], tried, ScanFrom(old(grid)[c].InDoor()))
        && if out.None? || c in old(deadEnds) then
             && grid == Mark(Mark(old(grid), c, true), c, false) && current == c
             && sqnum == old(sqnum) - 1 && moveList == old(moveList)[..old(sqnum)] && path == old(path)[..old(sqnum)]
             && doorsAttempted == old(doorsAttempted)[c := tried] && deadEnds == old(deadEnds) + [c]
           else
             && current == Neighbour(c, out.value)
             && grid == (if current == end then Mark(Mark(old(grid), c, true), end, true) else Mark(old(grid), c, true))
             && sqnum == old(sqnum) + 1 && moveList == old(moveList) + [current] && path == old(path) + [current]
             && doorsAttempted == old(doorsAttempted)[c := tried + [out.value]] && deadEnds == old(deadEnds)
    {
      out := None;
      if current != end {
        out := SolveFromTop();
      }
      if current == end {
        ghost var g1 := grid;
        grid := Mark(grid, current, true);
        SameSidesKeep(g1, grid, start, end, current, sqnum, moveList, path, doorsAttempted);
      }
      done := current == end;
    }

    /**
     * Runs the solver one step at a time until the current square is the
     * end, then marks the end on the path. The walk stops: each pass
     * decreases the solver's measure. It also stops should the stack run
     * out short of the end, where the next pass would have no top square
     * to read. It takes at most as many steps as the measure it started
     * with. No side of any square changes, and on reaching the end the path
     * runs through doors out from the start to the end.
     */
    method Solve() returns (reached: bool, ghost steps: nat)
      requires SolveInv() && (current != end ==> sqnum >= 0)
      modifies this`grid, this`current, this`sqnum, this`moveList, this`path, this`doorsAttempted, this`deadEnds
      ensures SolveInv() && SameSides(old(grid), grid)
      ensures reached <==> current == end
      ensures reached ==> grid[end].onPath && path[0] == start && path[|path| - 1] == end && Walk(grid, path)
      ensures !reached ==> sqnum < 0 && moveList == [] && path == []
      ensures steps <= old(SolveMeasure())
    {
      steps := 0;
      while current != end && sqnum >= 0
        invariant SolveInv() && SameSides(old(grid), grid)
        invariant steps + SolveMeasure() <= old(SolveMeasure())
        decreases SolveMeasure()
      {
        var out := SolveFromTop();
        steps := steps + 1;
      }
      reached := current == end;
      if reached {
        ghost var g1 := grid;
        grid := Mark(grid, current, true);
        SameSidesKeep(g1, grid, start, end, current, sqnum, moveList, path, doorsAttempted);
      }
    }
  }

}
