# Maze engine model

A Dafny model of the maze engine in `js/mazeModel.js`. A rectangular grid
of squares holds an entrance and an exit on opposite edges. A randomised
depth-first backtracker carves doors between the squares, and a
depth-first backtracker solves the result. Both run one step at a time
over an explicit stack (`moveList`, topped at index `sqnum`).

Modules, one concept each:

- `Options`: the `Option` datatype, for the sides `getNextOutDoorStartingFrom` and `chooseDoor` return or `null`.
- `Sides`: the four sides.
  - `getOpposite` is `Opposite` and `getNext` is `Next`.
  - `getRandomSide` is `RandomSide` over the random oracle `GetRandom`.
- `Squares`: `SideType` and the `Square` value.
  - The square's side map becomes four fields; `Unset` stands for a side the map has no entry for.
  - It also holds `hasInDoor`, `getInDoor` and the solver's clockwise scan `getNextOutDoorStartingFrom`.
- `Grids`: positions, `Neighbour` (the moves of `stepCreate` and `stepSolve`), bounds, edges, cell counting, and the connectedness of the grid.
- `Layouts`: the grid as a map from position to square, walks through doors out, and the value-level operations on it.
  - The operations: marking the path, clearing the marks, setting one boundary on both of its sides, opening the entrance and exit.
  - The shape every grid keeps: the two sides of each inner boundary agree, and no side facing off the grid is unset.
- `Carving`: the carver's door choice (`chooseDoor`) as functions on grids, and what carving keeps true.
  - A side facing another square is set only on a reached square, and no square has two doors in.
  - Every reached square is reached from the start through doors out, and the start's door in faces off the grid.
  - The carver's stack holds reached squares, each once, all but the newest marked on the path, and no other square is marked.
  - A potential of twice the unreached squares plus the stack length falls with every step.
- `Solving`: the solver's state between steps, and the lemmas for each kind of step.
  - The stack equals the path and is a walk through doors out from the start.
  - The end is on it only as the current square on top.
  - No door is recorded as tried twice.
  - A measure of twice the untried doors out plus the stack length falls with every step short of the end.
- `Mazes`: the class `Maze` whose methods change its fields in place as the source's `Maze` does.
  - Grid setup: `initialiseSquares`, `resetPath`, `setStartAndExit`, `initialiseMaze`.
  - Carving: `chooseDoor`, `stepCreate`, `create`.
  - Solving: `initialiseSolver`, `stepSolve`, `solve`.

What is proved:

- The carver stops after at most `2 * width * height - 1` steps.
- When it stops, every square is reached from the start through doors out and has exactly one door in, and no walk through doors out returns to the square it started from: the doors form a spanning tree of the grid rooted at the start.
- The carver never changes a side once it is set.
- Each carving step pairs a door out with a door in, or a wall with a wall, across one boundary.
- The solver never changes a side.
- Each solving step short of the end decreases the solver's measure.
- At the end, a solving step changes nothing but the end's path mark.
- Once the end is reached, the path runs through doors out from the start to the end.

The model follows the code in these details:

- A carving step returns the new `sqnum`.
- Dead ends are a list, which may hold a square twice.
- Degenerate sizes and out-of-range squares raise no error of their own in the code, which fails with a `TypeError` at the first access (js/mazeModel.js:235, 323, 493-495). Here they are preconditions.

## Model

| member | source | states |
|---|---|---|
| `Sides.Opposite` | js/mazeModel.js:25-35 | The opposite of a side is never the side itself. |
| `Sides.Next` | js/mazeModel.js:49-57 | The next side clockwise is never the side itself. |
| `Sides.SideOfRoll` | js/mazeModel.js:40-46 | Roll 0 gives Top, 1 Bottom, 2 Left, and every other roll Right. |
| `Sides.OppositeInvolution` | js/mazeModel.js:25-35 | The opposite of the opposite side is the side itself, and no side is its own opposite. |
| `Sides.OppositeIsHalfTurn` | js/mazeModel.js:25-35 | The opposite side is two clockwise steps away. |
| `Sides.NextCycles` | js/mazeModel.js:49-57 | Four clockwise steps return to the side, and one, two or three steps never do. |
| `Sides.TurnAdd` | js/mazeModel.js:49-57 | Turning n steps and then m steps is turning n + m steps. |
| `Sides.RollsAreFair` | js/mazeModel.js:37-47 | Each side is drawn by exactly one of the rolls 0, 1, 2 and 3. |
| `Sides.GetRandom` | js/mazeModel.js:1-3 | The oracle returns an integer in [0, n). |
| `Sides.RandomSide` | js/mazeModel.js:37-47 | The side drawn is the side of the roll `n` the oracle returned, with n in [0, 4). |
| `Squares.Mirror` | js/mazeModel.js:367-411 | The facing side of a door out is a door in and the reverse; a wall faces a wall and unset faces unset. |
| `Squares.Square.Get` | js/mazeModel.js:89-115 | The type of one side, as `getTop`, `getRight`, `getBottom` and `getLeft` read it (no contract). |
| `Squares.Square.HasInDoor` | js/mazeModel.js:121-123 | Some side is a door in; stated against the sides by `HasInDoorSide` (no contract of its own). |
| `Squares.HasInDoorSide` | js/mazeModel.js:121-123 | A square has a door in exactly when one of its four sides is a door in. |
| `Squares.Square.Set` | js/mazeModel.js:117-119 | Side s takes the new type; the other three sides and the path mark are unchanged. |
| `Squares.Square.InDoorCount` | js/mazeModel.js:121-123 | At most four sides are doors in, and the count is positive exactly when the square has a door in. |
| `Squares.Square.InDoor` | js/mazeModel.js:133-141 | Returns the first door in, looking at Top, Bottom, Left and Right in that order, and Right when the square has none. |
| `Squares.SetCountsDoorsIn` | js/mazeModel.js:117-119 | Setting a side that held no door in adds one door in exactly when the new type is a door in. |
| `Squares.OneDoorIn` | js/mazeModel.js:121-123 | A square with at most one door in has it on one side only. |
| `Squares.ScanFrom` | js/mazeModel.js:148-150 | The scan covers the three sides other than its starting side, clockwise from the next one. |
| `Squares.FirstUsable` | js/mazeModel.js:150-180 | The result is an untried door out in the scan order, with no untried door out before it; None exactly when the scan has none. |
| `Squares.NextOutDoorStartingFrom` | js/mazeModel.js:147-181 | The loop returns the first untried door out clockwise after `start`. It is never `start`, and it is null exactly when no other side is an untried door out. |
| `Grids.Neighbour` | js/mazeModel.js:372-404 | The square across a side differs from the square in exactly one coordinate. |
| `Grids.NeighbourAdjacent` | js/mazeModel.js:576-601 | The square across a side is one step away along its row or its column. |
| `Grids.NeighbourInverse` | js/mazeModel.js:372-411 | Crossing side s and then its opposite leads back; different sides lead to different squares. |
| `Grids.OnEdgeFacesOut` | js/mazeModel.js:304-321 | A square lies on the edge of side s exactly when side s faces off the grid. |
| `Grids.AllCells` | js/mazeModel.js:259-263 | The squares of a w x h grid are exactly the in-bounds positions. |
| `Grids.ColumnUpToHas` | js/mazeModel.js:262-263 | Column x built down to row h holds exactly the squares of that column above row h. |
| `Grids.ColumnsUpToHas` | js/mazeModel.js:260-263 | The first w columns hold exactly the in-bounds squares. |
| `Grids.ColumnUpToCount` | js/mazeModel.js:262-263 | A column of height h has h squares. |
| `Grids.ColumnsUpToCount` | js/mazeModel.js:260-263 | The first w columns of height h have w * h squares. |
| `Grids.AllCellsCount` | js/mazeModel.js:259-263 | A w x h grid has w * h squares. |
| `Grids.AllButOneCount` | js/mazeModel.js:259-263 | All squares but the start number w * h - 1: the squares the carver still has to reach. |
| `Grids.FloodRow` | js/mazeModel.js:372-404 | A set closed under neighbour moves that holds a square holds its whole row. |
| `Grids.FloodColumn` | js/mazeModel.js:372-404 | A set closed under neighbour moves that holds a square holds its whole column. |
| `Grids.Flood` | js/mazeModel.js:372-404 | The grid is connected: a set closed under neighbour moves that holds one square holds them all. |
| `Layouts.InitialGrid` | js/mazeModel.js:259-285 | The fresh grid holds exactly the w x h squares, each a fresh square. |
| `Layouts.InitialGridUnique` | js/mazeModel.js:259-285 | Any grid within w x h that holds every position, each with a fresh square, is the fresh grid. |
| `Layouts.InitialSquare` | js/mazeModel.js:263-278 | A fresh square is not on the path. |
| `Layouts.InitialSquareSide` | js/mazeModel.js:266-278 | A side of a fresh square is a wall exactly when it faces off the grid, and is unset otherwise. |
| `Layouts.Mark` | js/mazeModel.js:109-111 | Only the path mark of square p changes; every side of every square stays. |
| `Layouts.ClearMarks` | js/mazeModel.js:287-295 | Every square keeps its sides and loses its path mark. |
| `Layouts.SetFacing` | js/mazeModel.js:496-497 | Side s of p and the facing side of its neighbour are set as a pair (the mirror type across); no other square changes. |
| `Layouts.OpenEnds` | js/mazeModel.js:323-349 | The start gets a door in on the entry side, the end a door out on the opposite side, and nothing else changes. |
| `Layouts.AgreesBack` | js/mazeModel.js:367-411 | Where the boundary pairing holds, it reads the same from either side. |
| `Layouts.InitialGridShape` | js/mazeModel.js:259-285 | A fresh grid has no unset side facing off the grid and agreeing pairs on every inner boundary. |
| `Layouts.SetFacingShape` | js/mazeModel.js:492-534 | Setting an unset inner boundary on both sides keeps that shape. |
| `Layouts.MarksKeepShape` | js/mazeModel.js:109-111 | A grid differing only in path marks keeps the shape. |
| `Layouts.WalkExtends` | js/mazeModel.js:603-608 | A walk extended through a door out of its last square is a walk. |
| `Layouts.WalkKeeps` | js/mazeModel.js:367-411 | A walk through doors out stays a walk on a grid that keeps every set side. |
| `Carving.Unvisited` | js/mazeModel.js:121-123 | The unreached squares are exactly the squares with no door in. |
| `Carving.Candidates` | js/mazeModel.js:489-534 | The candidates are exactly the unset sides leading to a square with no door in, each listed once. |
| `Carving.CloseSide` | js/mazeModel.js:492-500 | Looking at one side keeps the set of squares; its effect is stated by `CloseSideSelf`, `CloseSideOther` and `CloseSideEffect`. |
| `Carving.CloseOff` | js/mazeModel.js:489-534 | Looking at all four sides keeps the set of squares; its effect is stated by `CloseOffEffect` and `CloseOffSides`. |
| `Carving.MarkKeepsCarving` | js/mazeModel.js:357-366 | A path mark changes neither the carving invariant, nor the unreached squares, nor the doors in, nor the candidates; walling commutes with marking. |
| `Carving.MarkKeepsCandidates` | js/mazeModel.js:358-360 | Marking the current square before choosing a door does not change its candidates. |
| `Carving.MarkCommutesWithCloseOff` | js/mazeModel.js:358-366 | Walling the sides of p, then marking p, gives the same grid as marking and then walling. |
| `Carving.MarkCommutesWithCloseSide` | js/mazeModel.js:358-366 | The same for one side. |
| `Carving.CloseSideEffect` | js/mazeModel.js:492-500 | Looking at one side of p keeps the shape and every door in and path mark. A blocked side becomes a wall on both sides, and otherwise nothing changes. Any changed side went from unset to wall, on p or on a reached neighbour facing it. |
| `Carving.CloseSideSelf` | js/mazeModel.js:492-500 | A blocked side becomes a wall on both of its sides; otherwise the grid is unchanged. |
| `Carving.CloseSideOther` | js/mazeModel.js:503-534 | Looking at side e of p leaves every other side s of p, the square across s, and whether s is blocked or a candidate. |
| `Carving.CloseSideShape` | js/mazeModel.js:492-500 | Looking at one side keeps the shape. |
| `Carving.CloseOffEffect` | js/mazeModel.js:489-534 | `chooseDoor`'s walling keeps the shape, the doors in and the path marks. Sides change only from unset to wall, on p or on a reached neighbour facing it. |
| `Carving.CloseOffSides` | js/mazeModel.js:489-534 | Every blocked side of p becomes a wall on both sides, every other side of p is left alone, and every candidate stays a candidate. |
| `Carving.CloseOffFinishes` | js/mazeModel.js:489-536 | With no candidate left, every side of p is set after the walling. |
| `Carving.CloseOffCarved` | js/mazeModel.js:489-534 | Walling a reached square keeps the carving invariant and reaches no new square. |
| `Carving.OpenDoorCarved` | js/mazeModel.js:367-411 | Opening a candidate door writes a door out on p and a door in on the neighbour. The invariant is kept and exactly that neighbour becomes reached. |
| `Carving.CarveComplete` | js/mazeModel.js:423-487 | With every reached square fully set, every square is reached, has exactly one door in, and is reached from the start through doors out. |
| `Carving.LinkedDoorIn` | js/mazeModel.js:367-411 | A door out from a to b is a door in on b facing a. |
| `Carving.OneParent` | js/mazeModel.js:367-411 | On a carved grid, a square is entered through a door out of one square at most. |
| `Carving.WalkAvoidsCycle` | js/mazeModel.js:352-418 | A walk from the start on a carved, rooted grid never enters a closed walk through doors out. |
| `Carving.CarvedAcyclic` | js/mazeModel.js:352-418 | A carved grid whose reached squares are reached from the start has no cycle of doors out. |
| `Carving.FreshSide` | js/mazeModel.js:259-350 | Each side of a fresh square, once the ends are set: the entrance or exit door, a wall off the grid, or unset. |
| `Carving.FreshDoorsIn` | js/mazeModel.js:297-350 | After the ends are set, only the start has a door in, and just one. |
| `Carving.FreshMazeShape` | js/mazeModel.js:297-350 | A fresh grid with its entrance and exit on the edges has the shape. |
| `Carving.FreshMazeSquares` | js/mazeModel.js:259-350 | Every square of the fresh grid is unmarked, with at most one door in, and has a door in exactly when it is the start. |
| `Carving.FreshMazeCarved` | js/mazeModel.js:297-350 | The fresh grid keeps the carving invariant, with the door in at the start and the door out at the end. |
| `Carving.FreshMazeStack` | js/mazeModel.js:205-211 | All squares but the start, w * h - 1 of them, are unreached, and the stack holding the start alone is consistent. |
| `Carving.Backtracked` | js/mazeModel.js:358-366 | A dead-end step keeps the set of squares; its effect is stated by `BacktrackKeeps`. |
| `Carving.Advanced` | js/mazeModel.js:358-414 | A forward step keeps the set of squares; its effect is stated by `AdvanceKeeps`. |
| `Carving.WalledSides` | js/mazeModel.js:358-360 | Marking and walling a square changes sides only from unset to wall; every set side stays. |
| `Carving.BacktrackedSides` | js/mazeModel.js:358-366 | A dead-end step changes sides only from unset to wall; every set side stays. |
| `Carving.AdvancedSides` | js/mazeModel.js:358-414 | A forward step changes only unset sides; every set side stays. |
| `Carving.RootedKeeps` | js/mazeModel.js:489-534 | Walling sides keeps every reached square reached from the start, and the start's door in off the grid. |
| `Carving.OpenDoorRooted` | js/mazeModel.js:367-411 | Opening a candidate door of a reached square keeps every reached square reached from the start; the new one through the walk to the square and the new door. |
| `Carving.BacktrackRooted` | js/mazeModel.js:358-366 | A dead-end step keeps every reached square reached from the start. |
| `Carving.AdvanceRooted` | js/mazeModel.js:358-414 | A forward step keeps every reached square reached from the start. |
| `Carving.FreshRooted` | js/mazeModel.js:297-350 | On a fresh grid only the start is reached, by itself, and its door in is the entrance, off the grid. |
| `Carving.BacktrackKeeps` | js/mazeModel.js:362-366 | A dead end leaves its square with every side set and popped. The invariants hold and no square is reached. |
| `Carving.PopStack` | js/mazeModel.js:362-366 | Popping a fully set, unmarked top square keeps the stack invariant. |
| `Carving.AdvanceKeeps` | js/mazeModel.js:367-414 | A forward step writes the door pair and pushes the neighbour, reaching exactly it. The invariants hold and no square is pushed twice. |
| `Carving.StartPushedKeeps` | js/mazeModel.js:353-355 | Pushing the start onto an empty list keeps the state and the potential. |
| `Carving.FreshCarveState` | js/mazeModel.js:205-211 | A fresh maze is a carving state, with the start reached from itself, and has potential 2 * w * h - 1. |
| `Carving.PopKeeps` | js/mazeModel.js:362-366 | A dead-end step keeps the state, every reached square still reached from the start, with sqnum one less and a smaller potential. |
| `Carving.PushKeeps` | js/mazeModel.js:367-414 | A forward step keeps the state, every reached square still reached from the start, with sqnum one more and the stack length `sqnum + 1`, and a smaller potential. |
| `Solving.FirstUsableIgnoresPath` | js/mazeModel.js:547-559 | Marking the current square does not change the door the scan finds. |
| `Solving.ExitInside` | js/mazeModel.js:576-603 | A door out of any square but the end leads to a square of the grid. |
| `Solving.SameSidesKeep` | js/mazeModel.js:544-617 | Changing path marks only keeps the solver's state and its untried doors. |
| `Solving.SolveStart` | js/mazeModel.js:213-224 | Clearing the marks keeps every side, and the fresh solver is a solving state. |
| `Solving.UntriedSame` | js/mazeModel.js:549-554 | An empty record for a square without one leaves the untried doors as they were. |
| `Solving.UntriedTake` | js/mazeModel.js:571 | Recording door d as tried takes exactly (c, d) off the untried doors, one fewer. |
| `Solving.RecordTwice` | js/mazeModel.js:553-571 | A second record of tried doors for the same square replaces the first; a helper for `SolveFromTop`. |
| `Solving.TriedStaysDistinct` | js/mazeModel.js:571 | Recording an untried door keeps every tried-door list free of repeats. |
| `Solving.LookKeeps` | js/mazeModel.js:546-554 | Making the top square current, marking it and giving it a record keeps the state and the measure; the top is not the end. |
| `Solving.SolvePopKeeps` | js/mazeModel.js:561-569 | A dead-end pop keeps the state, with a smaller measure. |
| `Solving.SolvePushKeeps` | js/mazeModel.js:570-609 | Leaving by an untried door out pushes a square of the grid. The state holds, the measure is smaller, and the path stays a walk through doors out. |
| `Mazes.Maze.constructor` | js/mazeModel.js:200-203 | A maze of the given size with an empty grid and empty lists. |
| `Mazes.Maze.InitialiseSquares` | js/mazeModel.js:259-285 | The grid becomes the fresh w x h grid. |
| `Mazes.Maze.InitialiseColumn` | js/mazeModel.js:261-281 | Column x is rebuilt with fresh squares; other columns are kept. |
| `Mazes.Maze.NewSquare` | js/mazeModel.js:263-278 | A fresh square: unmarked, with walls exactly on the sides facing off the grid. |
| `Mazes.Maze.ResetPath` | js/mazeModel.js:287-295 | Every path mark is cleared and nothing else changes. |
| `Mazes.Maze.SetStartAndExit` | js/mazeModel.js:297-350 | The start is on the edge of the drawn side with a door in there. The end is on the opposite edge with a door out there. Nothing else changes. |
| `Mazes.Maze.InitialiseMaze` | js/mazeModel.js:205-211 | A fresh grid with its ends, empty lists, a carving state with potential 2 * w * h - 1. |
| `Mazes.Maze.CloseOrOffer` | js/mazeModel.js:492-501 | One side of `chooseDoor`: walled on both sides when blocked, appended to the candidates when open. |
| `Mazes.Maze.ChooseDoor` | js/mazeModel.js:489-539 | The grid is walled as `CloseOff` says. The result is a candidate, null exactly when there is none. |
| `Mazes.Maze.Retreat` | js/mazeModel.js:362-366 | A dead-end step's end: the square is unmarked and popped, the state kept and the potential smaller. |
| `Mazes.Maze.Advance` | js/mazeModel.js:367-414 | A forward step's end: door pair written, neighbour current and pushed, the state kept and the potential smaller. |
| `Mazes.Maze.MarkAndChoose` | js/mazeModel.js:358-360 | The top square becomes current and is marked; its sides are walled and a candidate is chosen. |
| `Mazes.Maze.CarveFromTop` | js/mazeModel.js:357-415 | A step from the top square either backtracks (no candidate) or opens a candidate door. Either way the invariant holds and the potential falls. |
| `Mazes.Maze.StepCreate` | js/mazeModel.js:352-418 | One carving step returns the new sqnum and never changes a set side. Once sqnum is negative it changes nothing but pushing the start onto an empty list. Otherwise it pops or advances, with a smaller potential. |
| `Mazes.Maze.Create` | js/mazeModel.js:423-487 | The carver stops within its initial potential of steps and never changes a set side. Every square is reached from the start through doors out, each has exactly one door in, and no walk through doors out is closed: a spanning tree rooted at the start. |
| `Mazes.Maze.InitialiseSolver` | js/mazeModel.js:213-224 | Marks cleared, start current and alone on both lists, no doors tried, no dead ends; a solving state. |
| `Mazes.Maze.LookForExit` | js/mazeModel.js:546-559 | The top square becomes current and is marked, it gets a record if it had none, and the first untried door out after its door in is found. |
| `Mazes.Maze.SolveRetreat` | js/mazeModel.js:561-569 | The dead-end branch: the square is recorded as a dead end, unmarked and popped from both lists, with a smaller measure. |
| `Mazes.Maze.SolveAdvance` | js/mazeModel.js:570-609 | The forward branch: the door is recorded as tried, and the square across is pushed on both lists and becomes current, with a smaller measure. |
| `Mazes.Maze.SolveFromTop` | js/mazeModel.js:545-610 | A step short of the end scans the top square c for its first untried door out, found as the source's scan finds it. With none, or with c already a dead end, c is recorded as a dead end, marked and then unmarked, and popped from both lists, with its record kept. Otherwise the door is added to c's record, c stays marked, and the square across is pushed on both lists and becomes current. Sides are unchanged and the measure falls. |
| `Mazes.Maze.StepSolve` | js/mazeModel.js:544-617 | Returns true exactly when the current square is the end, and then the path is a walk through doors out from start to end. At the end it only marks the end. Short of the end it takes the top square c and its first untried door out. With none, or with c a dead end, c is recorded as a dead end, unmarked and popped. Otherwise the door is recorded, c stays marked, and the square across is pushed and becomes current, marked too when it is the end. The measure falls, and no side changes. |
| `Mazes.Maze.Solve` | js/mazeModel.js:622-690 | Runs steps within the initial measure. It reaches the end with the end marked and the path a walk from start to end, or it stops with an empty stack. No side changes. |

## Left out

- `js/main.js` and `js/mazeDraw.js`: user interface, canvas drawing, timers and the persistence of mazes as JSON. None of them is part of the engine.
- `Math.random`: the random oracle `GetRandom` picks any value in [0, n) nondeterministically, so every property holds for every sequence of draws.
- The one-argument `getNextOutDoorStartingFrom` (js/mazeModel.js:143-145) and `hasDoor` (js/mazeModel.js:129-131): dead code that would fail if called.
- `hasOutDoor`, `findInMap` and the getters: subsumed by `Square.Get` and `HasInDoor`.
- Squares as objects: squares are values in a map from position to square, so object identity becomes equality of positions. Their own `x`/`y` fields are the map key.
  - `sqrDoorsAttempted`'s shared array is a map update.
  - Because squares are values, the model shows no aliasing between `moveList`, `path` and the grid.
- `getSquare` out of range (js/mazeModel.js:234-236) is not an error path: the operations require positions on the grid, and `InitialiseMaze` requires a width and height of at least 1.
- `stepCreate` and `stepSolve` are split into helper methods. `Advance` sets the door out and the door in together, as one boundary.
- Mazes.Maze.StepSolve: requires `sqnum >= 0` short of the end. Without it, the source reads `moveList[-1]` as undefined and throws.
- Mazes.Maze.StepSolve: does not prove that a square recorded in `deadEndSqrs` never becomes current again in the same run, which is what that list memoises. It would follow from the doors forming a tree, but the solver's invariant does not carry the carver's facts about the grid.
- Mazes.Maze.Solve: stops when the stack runs out short of the end, where the source would throw as above. The model does not prove that the end is always reached on a carved maze (solver completeness).
- Mazes.Maze.Solve: its step bound is the solver's measure (twice the untried doors out, plus one). It is not stated as a function of the number of squares.
