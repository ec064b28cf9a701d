# MazeSolver in Dafny

MazeSolver is a Unity puzzle game. The player walks from a start cell to a finish
cell of a square maze and may not step on any cell twice. The game logic lives in one
class, `Maze` (Assets/Scripts/Maze.cs). That class runs three stages in turn, and all
three share the same arrays:

1. **Build.** Randomized Prim grows a maze over the n-by-n grid. The array
   `state[,]` holds the build state of each cell: OUTSIDE, FRONTIER or INSIDE.
   `avail[x, y, d]` holds the open passages. A frontier list collects the cells
   next to the tree.
2. **Place.** `LongestPath` runs two "double sweep" passes, and each pass does three
   things:
   - it zeroes the labels;
   - it runs a depth-first labelling `Dfs` from a cell;
   - it takes the first cell in row-major order with the largest label.

   The first pass, from a random cell, gives the finish (fx, fy). The second pass,
   from the finish, gives the start (sx, sy).
3. **Play.** `InitPlayer` marks the start as visited. `UpdateKey` handles one
   frame of key input at a time. It moves the player through an open passage, marks
   the visited cells, and sets `flag = -1` when a cell is entered twice. It returns
   1 once the finish is reached.

The model keeps the source's form. `Game.Maze` is a class with the two arrays, the
position and flag fields, and one method per routine of the source, each with its
loops and their invariants. Two ghost fields tie the arrays to values:

- `grid` holds the contents of `state`, cell by cell;
- `passages` holds the set of half-edges `(x, y, d)` whose `avail` entry is true.

Each method is proved against a value-level definition in one of these modules:

- `Grid`: cells, the direction tables PX/PY, `Inside`, `GetDir`.
- `Graph`: open passages, walks, distance, the rooted-tree certificate and
  `SpanningTree`.
- `Build`: one Prim iteration as the function `Grow` on a `Build` value, and the
  loop invariant `Inv`.
- `Search`: `DfsOutcome`, the relation a `Dfs` call establishes between the labels
  before and after it, and `FirstFarthest`.
- `Traversal`: one `UpdateKey` call as the function `Step` on a `Play` value.
- `Diameter`: why the double sweep finds a farthest pair. The labels of the first
  pass hang the tree from its root; the tree path between two cells, through their
  deepest common ancestor, is their distance; and a cell of greatest depth is one end
  of a longest path.

The main results are these:

- Prim ends with every cell INSIDE. The open passages form a spanning tree with
  n·n − 1 passages, open in both directions. That makes the maze connected and free
  of cycles.
- The maze is a function of the random source. `Game.Generated` runs Prim on the
  draws value by value, and `Prim`, `InitMaze` and the constructor leave exactly the
  passages and draw count it computes, so the same draws give the same maze.
- On that tree, after each `Dfs(r, 1)` every cell's label is 1 plus its distance
  from r. More generally, from all-zero labels, exactly the cells reachable from r
  get a label.
- The finish is the first cell in row-major order farthest from the random root.
  The start is the first cell farthest from the finish. On a maze of more than one
  cell, start and finish differ.
- Start and finish are a farthest pair of the whole maze: no two cells are farther
  apart, which is the longest path the source sets out to find.
- `UpdateKey` computes `Traversal.Step`. The terminal results 1 and −1 are sticky,
  and a rejected move changes nothing. While the rule holds, the visited cells form a
  simple path through open passages from the start.

Random draws come from an oracle, `rand: (nat, nat) -> nat`. The t-th draw with bound
k is `rand(t, k) % k`, and the field `drawn` counts the draws. `Random.InitState(seed)`
restarts the count at 0. A key press is a `Traversal.Keys` value, and the source's
order of the key tests gives up precedence over down, left and right.

Two behaviours of the code are easy to misread, and the model follows the code in
both:

- `GetDir` never fails. It returns 1 when u − x = −1, otherwise 3 when u − x = 1,
  otherwise 0 when v − y = −1, and 2 in every other case. The tests do not check
  that the two cells are adjacent, so (0, 0) to (1, 1) gives 3 and (0, 0) to (5, −1)
  gives 0.
- Take the 2-by-2 maze whose passages are (0,0)-(0,1) and (0,1)-(1,1), with the
  player on (0, 0) and the finish on (1, 1). The keys right, left, right return 0, −1, −1. The second move
  re-enters (0, 0), which already breaks the rule (`Traversal.ScenarioBacktrack`).

## Model

| member | source | states |
|---|---|---|
| Grid.Move | Assets/Scripts/Maze.cs:17-18 | the neighbour in direction d, offset by the tables PX = {0, −1, 0, 1} and PY = {−1, 0, 1, 0} |
| Grid.GetDir | Assets/Scripts/Maze.cs:179-184 | the direction from (x, y) to (u, v): 1, 3 or 0 by the first matching test, else 2, always a direction index |
| Grid.Inside | Assets/Scripts/Maze.cs:192-194 | the bounds test 0 ≤ x < n and 0 ≤ y < n |
| Grid.GetDirOfMove | Assets/Scripts/Maze.cs:179-184 | for each direction d, GetDir from a cell to its PX/PY neighbour in direction d is d, and GetDir back is (d + 2) % 4 |
| Grid.MoveOfGetDir | Assets/Scripts/Maze.cs:179-184 | for adjacent cells, stepping in the direction GetDir names reaches the other cell, and the two directions are opposite |
| Grid.MoveInjective | Assets/Scripts/Maze.cs:17-18 | the four PX/PY offsets lead to four different neighbours |
| Grid.InCells | Assets/Scripts/Maze.cs:192-194 | Inside holds exactly for the cells of the n-by-n grid |
| Build.Start | Assets/Scripts/Maze.cs:202-211 | the seeded build state: the set-up loop run over all four directions |
| Build.Seeded | Assets/Scripts/Maze.cs:202-211 | the set-up loop after the directions below k: the root INSIDE, and each in-bounds neighbour met so far made FRONTIER and appended to the queue |
| Build.SeededForm | Assets/Scripts/Maze.cs:202-211 | after the directions below k, the root is INSIDE, the queue is its in-bounds neighbours in those directions, in direction order, exactly those are FRONTIER, every other cell is OUTSIDE, and no passage is open |
| Build.StartForm | Assets/Scripts/Maze.cs:202-211 | after the set-up loop the root is INSIDE, its in-bounds neighbours are FRONTIER and queued in direction order, every other cell is OUTSIDE, and no passage is open |
| Build.Grow | Assets/Scripts/Maze.cs:213-238 | one Prim iteration with draws j and i: the j-th queued cell is committed and removed, its OUTSIDE neighbours become FRONTIER and are queued, and the passage to its i-th INSIDE neighbour opens when there is one |
| Build.StartInv | Assets/Scripts/Maze.cs:202-211 | after seeding, the Prim loop invariant holds: the root is INSIDE, the queue is exactly the FRONTIER cells with no duplicates, and the open passages form a one-cell tree |
| Build.StartMarked | Assets/Scripts/Maze.cs:202-211 | the root INSIDE and its in-bounds neighbours FRONTIER, on an all-OUTSIDE grid, is the state the seeding describes, and the queue is those neighbours in direction order |
| Build.GrowFacts | Assets/Scripts/Maze.cs:213-230 | the drawn cell is FRONTIER, every discovered neighbour was OUTSIDE, every candidate is INSIDE, and adj is never empty |
| Build.GrowState | Assets/Scripts/Maze.cs:213-228 | one iteration makes the drawn cell INSIDE and its OUTSIDE neighbours FRONTIER, changes no other cell, never lowers a state, and commits exactly one new cell |
| Build.GrowStateOk | Assets/Scripts/Maze.cs:213-228 | one iteration keeps every cell in one of the three states and the root INSIDE |
| Build.GrowQueue | Assets/Scripts/Maze.cs:213-228 | after one iteration the queue still holds exactly the FRONTIER cells, once each, each next to an INSIDE cell |
| Build.GrowClosure | Assets/Scripts/Maze.cs:213-228 | no INSIDE cell ever has an OUTSIDE neighbour |
| Build.GrowTree | Assets/Scripts/Maze.cs:231-238 | opening the passage to an INSIDE neighbour keeps the open passages a tree over the INSIDE cells, grown by one cell and two half-edges |
| Build.GrowKeepsInv | Assets/Scripts/Maze.cs:212-238 | one iteration of the Prim loop preserves the loop invariant |
| Build.GrowProgress | Assets/Scripts/Maze.cs:212-217 | each iteration commits a cell that was not INSIDE, so the loop runs at most n·n − 1 times |
| Build.Done | Assets/Scripts/Maze.cs:212 | when the queue is empty every cell is INSIDE and the open passages form a spanning tree with n·n − 1 passages |
| Build.Run | Assets/Scripts/Maze.cs:212-239 | the Prim loop run to its end from a build state, the t-th draw with bound k being rand(t, k) % k: the final state and the draw count |
| Build.Iterate | Assets/Scripts/Maze.cs:213-238 | one iteration of the run: draw the frontier index, then the parent index when the committed cell has INSIDE neighbours, grow, and run on |
| Build.RunStep | Assets/Scripts/Maze.cs:213-238 | under the loop invariant, with j the next draw bounded by the queue length and i the draw after it bounded by the number of INSIDE neighbours, i is a valid index and the run from the state equals the run from Grow(j, i) two draws later |
| Build.RunAdvance | Assets/Scripts/Maze.cs:212-238 | from a state with a non-empty queue, one iteration of the run takes two draws, keeps the loop invariant and commits a cell not yet INSIDE |
| Build.RunDone | Assets/Scripts/Maze.cs:212-239 | from any state satisfying the loop invariant, whatever the draws, the run ends with the queue empty, every cell INSIDE and a spanning tree open, having used no fewer draws |
| Build.RunSpans | Assets/Scripts/Maze.cs:201-240 | Prim from any in-bounds cell, whatever the draws, ends with every cell INSIDE and a spanning tree open |
| Graph.TreeSymmetric | Assets/Scripts/Maze.cs:236-237 | the passages of a rooted tree are open in both directions: avail[c, d] holds exactly when avail[c + δd, (d + 2) % 4] does |
| Graph.TreeExtend | Assets/Scripts/Maze.cs:231-237 | hanging a new cell below an adjacent tree cell keeps a rooted tree and adds exactly two half-edges |
| Graph.TreeConnected | Assets/Scripts/Maze.cs:201-240 | any two cells of a rooted tree are joined by a walk through open passages |
| Graph.TreeAcyclic | Assets/Scripts/Maze.cs:201-240 | a rooted tree has no cycle |
| Graph.PerfectMaze | Assets/Scripts/Maze.cs:62-66 | a spanning tree is symmetric, connected and acyclic |
| Search.DfsBegin | Assets/Scripts/Maze.cs:250 | labelling the start cell with the depth is the state before the direction loop |
| Search.DfsSkip | Assets/Scripts/Maze.cs:254 | a direction the loop passes over keeps the partial Dfs relation |
| Search.DfsChild | Assets/Scripts/Maze.cs:254-255 | a recursive call on an unlabelled neighbour behind an open passage extends the partial Dfs relation, with the child one level deeper |
| Search.DfsWalk | Assets/Scripts/Maze.cs:249-257 | every cell a Dfs call labels is reached from its start by a walk with label − depth steps |
| Search.DfsReach | Assets/Scripts/Maze.cs:249-257 | from all-zero labels, Dfs(r, depth) gives a positive label exactly to the cells reachable from r through open passages |
| Search.DfsDistance | Assets/Scripts/Maze.cs:249-257 | on a spanning tree, from all-zero labels, every cell's label is depth plus its distance from r |
| Search.ArgMaxFarthest | Assets/Scripts/Maze.cs:272-279 | the first row-major cell with the largest distance label is the first cell farthest from the root |
| Search.SweepFarthest | Assets/Scripts/Maze.cs:264-279 | one reset, Dfs and scan of LongestPath on a spanning tree returns the first cell farthest from its root |
| Search.FarApart | Assets/Scripts/Maze.cs:280-295 | on a maze of more than one cell, the cell farthest from a is not a |
| Diameter.HungOfDfs | Assets/Scripts/Maze.cs:249-257 | the labels of Dfs(r, 1) on a spanning tree, less one, are depths of that tree hung from r, with the Dfs call tree as parent links and every passage one of them |
| Diameter.DfsDepths | Assets/Scripts/Maze.cs:249-257 | when Dfs(r, 1) labels every cell, the labels less one are 0 at r only and one more than the parent's elsewhere |
| Diameter.DfsLinks | Assets/Scripts/Maze.cs:254-255 | every parent link of the Dfs call tree is a passage open both ways |
| Diameter.DfsOnlyLinks | Assets/Scripts/Maze.cs:254-255 | when the call tree uses every passage, every open passage is a parent link |
| Diameter.SweepHung | Assets/Scripts/Maze.cs:264-270 | after a pass from r on a spanning tree, the tree hangs from r |
| Diameter.MeetCommon | Assets/Scripts/Maze.cs:249-257 | the meeting cell of a and b is an ancestor of both |
| Diameter.MeetDeepest | Assets/Scripts/Maze.cs:249-257 | every common ancestor of a and b is no deeper than their meeting cell |
| Diameter.AncComparable | Assets/Scripts/Maze.cs:249-257 | of two ancestors of one cell, the shallower is an ancestor of the deeper |
| Diameter.DistStep | Assets/Scripts/Maze.cs:249-257 | one step through a passage lengthens the tree path from a by at most one |
| Search.WalkSlow | Assets/Scripts/Maze.cs:249-257 | a value growing by at most one per passage grows by at most the number of steps along a walk |
| Diameter.UpWalk | Assets/Scripts/Maze.cs:249-257 | climbing parent links from c to depth d is a walk of h[c] − d steps |
| Diameter.HungSymmetric | Assets/Scripts/Maze.cs:236-237 | in a hung tree every passage is open both ways |
| Diameter.TreeDistance | Assets/Scripts/Maze.cs:263-297 | in a hung tree the distance between any two cells is the length of the tree path through their meeting cell |
| Diameter.RootDistance | Assets/Scripts/Maze.cs:263-297 | in a hung tree a cell's depth is its distance from the root |
| Diameter.Spread | Assets/Scripts/Maze.cs:263-297 | seen from a cell at least as deep as a and b, the path a..b is no longer than the path from that cell to a or to b |
| Diameter.HungDoubleSweep | Assets/Scripts/Maze.cs:263-297 | on a hung tree, the first cell farthest from the root and the first cell farthest from it are a farthest pair of the maze |
| Diameter.SweepTwice | Assets/Scripts/Maze.cs:263-297 | two passes over a tree that hangs from the first start find a farthest pair |
| Traversal.Initial | Assets/Scripts/Maze.cs:393-398 | the play state after InitPlayer: the player on the start, only the start visited, flag 0 |
| Traversal.Aim | Assets/Scripts/Maze.cs:425-437 | the aimed cell, with up tested before down, left and right, and the position itself when no key is pressed |
| Traversal.Accepts | Assets/Scripts/Maze.cs:439 | a move is taken when the aimed cell differs from the position, is in the maze, and the half-edge towards it is open |
| Traversal.Enter | Assets/Scripts/Maze.cs:440-466 | an accepted move: an unvisited cell is marked; a visited one sets the flag to −1 and unmarks the cell left; the player moves either way, and the result is 1 on the finish and the flag otherwise |
| Traversal.Step | Assets/Scripts/Maze.cs:417-470 | one UpdateKey call: 1 on the finish, −1 once the flag is set, otherwise Enter for an accepted move and the unchanged state with the flag for a rejected one |
| Traversal.AimAdjacent | Assets/Scripts/Maze.cs:429-437 | the aimed cell is the position or one of its four neighbours |
| Traversal.AcceptedIsOpen | Assets/Scripts/Maze.cs:439 | an accepted move goes through an open passage |
| Traversal.InitialOk | Assets/Scripts/Maze.cs:393-398 | the initial play state is one UpdateKey can be in |
| Traversal.StepKeepsOk | Assets/Scripts/Maze.cs:417-470 | every call keeps the player in the maze, the flag in {0, −1}, and the finish unmarked unless the player stands on it |
| Traversal.ResultMeaning | Assets/Scripts/Maze.cs:417-470 | the returned value is 1 exactly on the finish, −1 exactly when the rule is broken elsewhere, 0 otherwise |
| Traversal.Sticky | Assets/Scripts/Maze.cs:419-421 | once a call returns 1 or −1, every later call returns the same value and changes nothing |
| Traversal.NoOp | Assets/Scripts/Maze.cs:439 | with no key, a wall or the edge of the maze ahead, the call changes nothing and returns the flag |
| Traversal.FreshMove | Assets/Scripts/Maze.cs:441-443 | an accepted move into an unvisited cell marks it and moves there, returning 1 on the finish and the flag otherwise |
| Traversal.Revisit | Assets/Scripts/Maze.cs:444-447 | an accepted move into a visited cell sets the flag to −1, unmarks the cell left, and still moves the player |
| Traversal.RevisitNotFinish | Assets/Scripts/Maze.cs:444-469 | a violating move never lands on the finish, so it returns −1 |
| Traversal.InitialTrail | Assets/Scripts/Maze.cs:393-398 | the initial visited set is the one-cell path at the start |
| Traversal.StepKeepsTrail | Assets/Scripts/Maze.cs:440-456 | while the rule holds, the visited cells are exactly the cells of a simple walk through open passages from the start to the player |
| Traversal.ScenarioWin | Assets/Scripts/Maze.cs:417-470 | on the 2-by-2 corner maze, right then down returns 0 and then 1 |
| Traversal.ScenarioBacktrack | Assets/Scripts/Maze.cs:417-470 | on the 2-by-2 corner maze, right, left, right returns 0, −1, −1 and leaves the player on (0, 0) with the flag −1 |
| Game.GridSize | Assets/Scripts/Maze.cs:316-329 | the difficulty codes 0, 1, 2, 3 give sides 10, 20, 30, 60, and any other code keeps the default side 10 |
| Game.Generated | Assets/Scripts/Maze.cs:359-370 | the maze the random source builds: Prim from the cell of draws 0 and 1, drawing on from draw 2, with its final state and draw count |
| Game.Placed | Assets/Scripts/Maze.cs:302-372 | the state InitMaze leaves: the passages and draw count Generated computes, a spanning tree, the finish first farthest from the cell of the last two draws, the start first farthest from the finish, the two a farthest pair and distinct when n > 1 |
| Game.Maze.Range | Assets/Scripts/Maze.cs:213 | a draw from the random source lies in [0, k) and advances the draw count by one |
| Game.Maze.constructor | Assets/Scripts/Maze.cs:118-129 | a new game has fresh arrays and the maze the random source determines (Game.Placed), a spanning tree of the chosen side, the finish farthest from some cell, the start farthest from the finish and different from it when n > 1, and only the start visited; start and finish are a farthest pair of the maze |
| Game.Maze.Init | Assets/Scripts/Maze.cs:118-129 | the same, for the set-up of an allocated scene: Game.Placed holds, only the start is visited and the flag is 0 |
| Game.Maze.InitMaze | Assets/Scripts/Maze.cs:302-372 | the passages and draw count are those Game.Generated computes from the random source, the maze is a spanning tree, and the finish is the first cell farthest from the cell of the last two draws, and start and finish are a farthest pair |
| Game.Maze.Generate | Assets/Scripts/Maze.cs:313-370 | after restarting the draws, clearing the arrays, drawing the root and running Prim, the passages form a spanning tree and they and the draw count are exactly those Game.Generated computes |
| Game.Maze.Reset | Assets/Scripts/Maze.cs:360-369 | every cell is OUTSIDE and no passage is open |
| Game.Maze.Prim | Assets/Scripts/Maze.cs:201-240 | from an all-OUTSIDE grid with no passage, every cell ends INSIDE, the passages form a symmetric spanning tree, and the final state and draw count are exactly those Build.Run computes from the root and the draws |
| Game.Maze.Seed | Assets/Scripts/Maze.cs:202-211 | the arrays and the queue after seeding are exactly those of Build.Start |
| Game.Maze.SeedDir | Assets/Scripts/Maze.cs:205-210 | an in-bounds neighbour becomes FRONTIER and is queued, and nothing changes otherwise |
| Game.Maze.GrowStep | Assets/Scripts/Maze.cs:213-238 | one loop iteration draws j, the next draw bounded by the queue length, and, when the committed cell has INSIDE neighbours, i, the draw after it bounded by their number; it uses two draws or one, and changes the arrays and queue exactly as Build.Grow(j, i) does |
| Game.Maze.Commit | Assets/Scripts/Maze.cs:213-230 | the drawn cell becomes INSIDE and leaves the queue, its OUTSIDE neighbours become FRONTIER and join it, and adj is its INSIDE neighbours |
| Game.Maze.ScanNeighbours | Assets/Scripts/Maze.cs:218-230 | adj is the INSIDE neighbours in direction order, and the OUTSIDE ones become FRONTIER and are appended to the queue |
| Game.Maze.ScanDir | Assets/Scripts/Maze.cs:220-229 | for one direction: INSIDE is collected, OUTSIDE becomes FRONTIER and is queued, FRONTIER or out of bounds is passed over |
| Game.Maze.OpenPassage | Assets/Scripts/Maze.cs:236-237 | both half-edges of the passage become open and nothing else changes |
| Game.Maze.Dfs | Assets/Scripts/Maze.cs:249-257 | the labels after the call stand in the Dfs relation to those before, and the set of unlabelled cells only shrinks |
| Game.Maze.ClearState | Assets/Scripts/Maze.cs:264-268 | every label is reset to 0 |
| Game.Maze.ScanMax | Assets/Scripts/Maze.cs:272-279 | the result has the largest label, and every cell scanned before it has a smaller one |
| Game.Maze.Sweep | Assets/Scripts/Maze.cs:264-279 | on a spanning tree the result is the first cell farthest from the root, every label is 1 plus the distance, and the tree hangs from the root |
| Game.Maze.LongestPath | Assets/Scripts/Maze.cs:263-297 | on a spanning tree the finish is the first cell farthest from a random cell, the start the first cell farthest from the finish, no two cells are farther apart than start and finish, and the two differ when n > 1 |
| Game.Maze.InitPlayer | Assets/Scripts/Maze.cs:393-398 | every cell is unvisited except the start |
| Game.Maze.UpdateKey | Assets/Scripts/Maze.cs:417-470 | the new state and the result are exactly one Traversal.Step, and the play state stays one UpdateKey can be in |
| Game.Maze.Advance | Assets/Scripts/Maze.cs:440-466 | an accepted move onto an unvisited or a visited cell, as in Traversal.Enter |
| Game.SeedAdvance | Assets/Scripts/Maze.cs:204-211 | the seeding loop's invariant carries over one direction |
| Game.ScanAdvance | Assets/Scripts/Maze.cs:219-230 | the neighbour loop's invariant carries over one direction |
| Game.CommittedSet | Assets/Scripts/Maze.cs:441-447 | marking a cell INSIDE adds it to the visited cells, and marking it OUTSIDE removes it |

## Left out

- Unity rendering is not modelled. That covers `RemoveEdge` (the walls' GameObjects), `setCeilColor` and the colours, `Instantiate`/`Destroy` of the player and the finish markers (so `InitDestination` too), the camera size, and every `Vector3` offset. None of these writes `state`, `avail`, the positions or `flag`.
- The seed handling in `InitMaze` is not modelled: the `PlayerPrefs` seed, its random choice, and the difficulty read. The generator is an oracle `rand`, and `Random.InitState` restarts its draw count. The difficulty is a constructor argument.
- Game.Maze.constructor: the arrays are allocated in the constructor, not inside `InitMaze`. Dafny arrays have a fixed size, so the side is fixed once the difficulty is known, which is also the case in the source.
- The key reads `Input.GetKeyDown` become a `Traversal.Keys` argument.
- `Debug.Log`, scene loading, `MazeController` (the per-frame driver with its timed waits) and the menu and lose screens are left out. They are I/O and UI wiring. Only the difficulty codes of the menu are used.
- Game.Maze.Sweep, Game.Maze.LongestPath: their distance and farthest-cell guarantees are stated under the hypothesis that the passages form a spanning tree, which Prim establishes.
- Game.Maze.Dfs: the recursion depth (up to n·n frames on a C# stack) is unbounded in the model.
