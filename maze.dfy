// The MazeSolver game object (Assets/Scripts/Maze.cs): the state[,] and avail[,,]
// arrays, randomized Prim, the double DFS that places start and finish, and the
// per-frame move check.  Each method is tied to the value-level definitions of
// Build, Search and Traversal through the ghost fields grid and passages.
module Game {
  import opened Grid
  import opened Graph
  import opened B = Build
  import opened Search
  import Traversal
  import Diameter

  /** Difficulty codes of the menu (Assets/Scripts/Menu.cs:17-20). */
  const EASY := 0
  const MEDIUM := 1
  const HARD := 2
  const VERY_HARD := 3

  /** The maze side for a difficulty; an unknown code keeps the default side 10. */
  function GridSize(difficulty: int): (n: int)
    ensures 10 <= n <= 60 && n % 10 == 0
    ensures difficulty !in {EASY, MEDIUM, HARD, VERY_HARD} ==> n == 10
  {
    if difficulty == EASY then 10
    else if difficulty == MEDIUM then 20
    else if difficulty == HARD then 30
    else if difficulty == VERY_HARD then 60
    else 10
  }

  /** The maze the random source builds: randomized Prim from the cell of draws 0 and 1,
      drawing on from draw 2.  The result is the final build state and draw count. */
  ghost function Generated(n: int, rand: (nat, nat) -> nat): (Build, nat)
    requires n >= 1
  {
    Run(n, Start(n, (rand(0, n) % n, rand(1, n) % n)), rand, 2)
  }

  /** The maze and its two ends as InitMaze leaves them, with E the open passages and
      t the draw count: E and t are those Generated computes from the random source,
      the passages form a spanning tree, the finish is the first cell farthest from the
      cell of the last two draws, the start is the first cell farthest from the finish,
      and the two are a farthest pair, distinct when n > 1. */
  ghost predicate Placed(n: int, rand: (nat, nat) -> nat, E: set<HalfEdge>, t: nat,
                         finish: Cell, start: Cell)
  {
    n >= 1 && t >= 2 &&
    E == Generated(n, rand).0.open && t == Generated(n, rand).1 + 2 &&
    SpanningTree(n, E) &&
    (var r := (rand(t - 2, n) % n, rand(t - 1, n) % n);
     Inside(n, r) && FirstFarthest(n, E, r, finish)) &&
    FirstFarthest(n, E, finish, start) &&
    Diameter.FarthestPair(n, E, finish, start) &&
    (n > 1 ==> start != finish)
  }

  class Maze {
    /** The maze is n by n. */
    const n: int
    /** Per cell: the Prim build state, then DFS depth labels, then visited marks. */
    const state: array2<int>
    /** avail[x, y, d]: the passage leaving (x, y) in direction d is open. */
    const avail: array3<bool>
    /** The player (start) cell and the finish cell. */
    var sx: int, sy: int, fx: int, fy: int
    /** 0 while the no-revisit rule holds, -1 once it is broken. */
    var flag: int
    /** The pseudo-random source: the t-th draw with bound k is rand(t, k) % k. */
    const rand: (nat, nat) -> nat
    var drawn: nat

    /** The contents of state, cell by cell. */
    ghost var grid: map<Cell, int>
    /** The open half-edges, the cells of avail that hold true. */
    ghost var passages: set<HalfEdge>

    ghost predicate Valid()
      reads this`grid, this`passages, state, avail
    {
      n >= 1 && state.Length0 == n && state.Length1 == n &&
      avail.Length0 == n && avail.Length1 == n && avail.Length2 == 4 &&
      Covers(n, grid) &&
      (forall x, y | 0 <= x < n && 0 <= y < n :: grid[(x, y)] == state[x, y]) &&
      (forall h | h in passages :: 0 <= h.0 < n && 0 <= h.1 < n && IsDir(h.2)) &&
      (forall x, y, d | 0 <= x < n && 0 <= y < n && 0 <= d < 4 ::
         avail[x, y, d] <==> (x, y, d) in passages)
    }

    /** The cells whose DFS label is still 0. */
    ghost function Unlabelled(): set<Cell>
      reads this`grid
    {
      set c | c in grid && grid[c] == 0
    }

    /** The cells the player has walked through (state INSIDE). */
    ghost function Visited(): set<Cell>
      reads this`grid
    {
      Committed(grid)
    }

    /** During play every cell is OUTSIDE or INSIDE. */
    ghost predicate Playing()
      reads this`grid
    {
      forall c | c in grid :: grid[c] == OUTSIDE || grid[c] == INSIDE
    }

    /** The traversal state of the game. */
    ghost function Play(): Traversal.Play
      reads this`grid, this`sx, this`sy, this`flag
    {
      Traversal.Play((sx, sy), Visited(), flag)
    }

    /** Random.Range(0, k): the next draw of the random source, in [0, k). */
    method Range(k: int) returns (r: int)
      requires k > 0
      modifies this`drawn
      ensures r == rand(old(drawn), k) % k && 0 <= r < k
      ensures drawn == old(drawn) + 1
    {
      r := rand(drawn, k) % k;
      drawn := drawn + 1;
    }

    /** A game scene of the chosen difficulty, set up by Init. */
    constructor (difficulty: int, rand: (nat, nat) -> nat)
      ensures Valid() && n == GridSize(difficulty) && fresh(state) && fresh(avail)
      ensures Placed(n, rand, passages, drawn, (fx, fy), (sx, sy))
      ensures Play() == Traversal.Initial((sx, sy)) && Playing()
      ensures Traversal.PlayOk(n, (fx, fy), Play())
    {
      this.rand := rand;
      n := GridSize(difficulty);
      state := new int[GridSize(difficulty), GridSize(difficulty)];
      avail := new bool[GridSize(difficulty), GridSize(difficulty), 4];
      sx, sy, fx, fy := 0, 0, 0, 0;
      flag := 0;
      new;
      Init();
    }

    /** Init: builds the maze, places start and finish at the two ends of a longest
        path, and puts the player on the start. */
    method Init()
      requires n >= 1 && state.Length0 == n && state.Length1 == n
      requires avail.Length0 == n && avail.Length1 == n && avail.Length2 == 4
      requires flag == 0
      modifies this`grid, this`passages, this`drawn, state, avail
      modifies this`fx, this`fy, this`sx, this`sy
      ensures Valid() && Placed(n, rand, passages, drawn, (fx, fy), (sx, sy))
      ensures Play() == Traversal.Initial((sx, sy)) && Playing()
      ensures Traversal.PlayOk(n, (fx, fy), Play())
    {
      InitMaze();
      assert flag == 0;
      InitPlayer();
      assert flag == 0;
      Traversal.InitialOk(n, (sx, sy), (fx, fy));
    }

    /** The maze part of InitMaze: restart the random source from the seed, clear the
        arrays, run Prim from a random cell, and find the two ends of a longest path.
        Draws 0 and 1 pick the root of Prim, Prim draws on, and the last two draws pick
        the start of the first sweep. */
    method InitMaze()
      requires n >= 1 && state.Length0 == n && state.Length1 == n
      requires avail.Length0 == n && avail.Length1 == n && avail.Length2 == 4
      modifies this`grid, this`passages, this`drawn, state, avail
      modifies this`fx, this`fy, this`sx, this`sy
      ensures Valid() && Placed(n, rand, passages, drawn, (fx, fy), (sx, sy))
    {
      Generate();
      LongestPath();
    }

    /** Draws the root of Prim and builds the maze from it on cleared arrays: the
        passages and the draw count are those Generated computes. */
    method Generate()
      requires n >= 1 && state.Length0 == n && state.Length1 == n
      requires avail.Length0 == n && avail.Length1 == n && avail.Length2 == 4
      modifies this`grid, this`passages, this`drawn, state, avail
      ensures Valid() && SpanningTree(n, passages)
      ensures Generated(n, rand) == (Build(grid, passages, []), drawn)
    {
      drawn := 0;
      Reset();
      var x := Range(n);
      var y := Range(n);
      assert (x, y) == (rand(0, n) % n, rand(1, n) % n) && drawn == 2;
      Prim(x, y);
    }

    /** The initialisation before Prim: every state cell OUTSIDE, every passage closed. */
    method Reset()
      requires n >= 1 && state.Length0 == n && state.Length1 == n
      requires avail.Length0 == n && avail.Length1 == n && avail.Length2 == 4
      modifies this`grid, this`passages, state, avail
      ensures Valid() && passages == {}
      ensures forall c | c in grid :: grid[c] == OUTSIDE
    {
      for i := 0 to n
        invariant forall a, b | 0 <= a < i && 0 <= b < n :: state[a, b] == OUTSIDE
        invariant forall a, b, d | 0 <= a < i && 0 <= b < n && 0 <= d < 4 :: !avail[a, b, d]
      {
        for j := 0 to n
          invariant forall a, b | 0 <= a < i && 0 <= b < n :: state[a, b] == OUTSIDE
          invariant forall a, b, d | 0 <= a < i && 0 <= b < n && 0 <= d < 4 :: !avail[a, b, d]
          invariant forall b | 0 <= b < j :: state[i, b] == OUTSIDE
          invariant forall b, d | 0 <= b < j && 0 <= d < 4 :: !avail[i, b, d]
        {
          state[i, j] := OUTSIDE;
          for k := 0 to 4
            invariant forall a, b | 0 <= a < i && 0 <= b < n :: state[a, b] == OUTSIDE
            invariant forall a, b, d | 0 <= a < i && 0 <= b < n && 0 <= d < 4 :: !avail[a, b, d]
            invariant forall b | 0 <= b <= j :: state[i, b] == OUTSIDE
            invariant forall b, d | 0 <= b < j && 0 <= d < 4 :: !avail[i, b, d]
            invariant forall d | 0 <= d < k :: !avail[i, j, d]
          {
            avail[i, j, k] := false;
          }
        }
      }
      grid := map c | c in Cells(n) :: OUTSIDE;
      passages := {};
      forall c
        ensures c in grid <==> Inside(n, c)
      {
        InCells(n, c);
      }
    }

    /** state[x, y] := v, with the ghost map following. */
    method SetCell(x: int, y: int, v: int)
      requires Valid() && Inside(n, (x, y))
      modifies this`grid, state
      ensures Valid() && grid == old(grid)[(x, y) := v]
    {
      state[x, y] := v;
      grid := grid[(x, y) := v];
    }

    /** Randomized Prim from (x0, y0) on an all-OUTSIDE maze with no passage open: every
        cell becomes INSIDE, the open passages form a spanning tree, and the final state
        and draw count are those Build.Run computes from the draws. */
    method Prim(x0: int, y0: int)
      requires Valid() && Inside(n, (x0, y0))
      requires forall c | c in grid :: grid[c] == OUTSIDE
      requires passages == {}
      modifies this`grid, this`passages, this`drawn, state, avail
      ensures Valid()
      ensures forall c | c in grid :: grid[c] == INSIDE
      ensures SpanningTree(n, passages) && Symmetric(n, passages)
      ensures Run(n, Start(n, (x0, y0)), rand, old(drawn)) == (Build(grid, passages, []), drawn)
    {
      ghost var root := (x0, y0);
      var queue := Seed(x0, y0);
      ghost var via, parent, rank := StartInv(n, root);
      ghost var goal := Run(n, Start(n, root), rand, drawn);
      while |queue| > 0
        invariant Valid()
        invariant Inv(n, Build(grid, passages, queue), root, via, parent, rank)
        invariant Run(n, Build(grid, passages, queue), rand, drawn) == goal
        decreases Cells(n) - Committed(grid)
      {
        ghost var b := Build(grid, passages, queue);
        ghost var t := drawn;
        ghost var j, i;
        queue, j, i := GrowStep(queue);
        RunStep(n, b, root, via, parent, rank, rand, t, j, i, drawn);
        GrowProgress(n, b, root, via, parent, rank, j, i);
        InCells(n, b.queue[j]);
        via, parent, rank := GrowKeepsInv(n, b, root, via, parent, rank, j, i);
      }
      Done(n, Build(grid, passages, queue), root, via, parent, rank);
      TreeSymmetric(n, passages, Cells(n), root, parent, rank);
      forall c | c in grid
        ensures grid[c] == INSIDE
      {
        InCells(n, c);
        assert c in Committed(grid);
      }
    }

    /** One iteration of the Prim loop: draw a queued cell j, commit it, and open the
        passage to its i-th INSIDE neighbour when it has one. */
    method GrowStep(queue: seq<Cell>) returns (queue': seq<Cell>, ghost j: nat, ghost i: nat)
      requires Valid() && |queue| > 0
      requires forall c | c in queue :: Inside(n, c)
      modifies this`grid, this`passages, this`drawn, state, avail
      ensures Valid() && j < |queue|
      ensures j == rand(old(drawn), |queue|) % |queue|
      ensures var adj := Candidates(n, Build(old(grid), old(passages), queue), j);
        if |adj| > 0 then i == rand(old(drawn) + 1, |adj|) % |adj| && drawn == old(drawn) + 2
        else drawn == old(drawn) + 1
      ensures var b := Build(old(grid), old(passages), queue);
        (|Candidates(n, b, j)| > 0 ==> i < |Candidates(n, b, j)|) &&
        Build(grid, passages, queue') == B.Grow(n, b, j, i)
    {
      ghost var b := Build(grid, passages, queue);
      var k := Range(|queue|);
      j := k;
      var c := queue[k];
      var adj;
      queue', adj := Commit(queue, k);
      ghost var G1 := grid;
      i := 0;
      if |adj| > 0 {
        var r := Range(|adj|);
        OpenPassage(c, adj[r]);
        i := r;
      }
      assert grid == G1;
    }

    /** The set-up of Prim: (x, y) becomes INSIDE and its in-bounds neighbours FRONTIER,
        queued in direction order. */
    method Seed(x: int, y: int) returns (queue: seq<Cell>)
      requires Valid() && Inside(n, (x, y))
      requires forall c | c in grid :: grid[c] == OUTSIDE
      modifies this`grid, state
      ensures Valid()
      ensures grid == Start(n, (x, y)).state && queue == Start(n, (x, y)).queue
    {
      ghost var root := (x, y);
      ghost var G := grid;
      SetCell(x, y, INSIDE);
      ghost var S0 := grid;
      queue := [];
      for i := 0 to 4
        invariant Valid()
        invariant queue == Nbrs(n, root, i)
        invariant grid == Mark(S0, Nbrs(n, root, i), FRONTIER)
      {
        SeedAdvance(n, S0, root, i, queue, grid);
        queue := SeedDir(x, y, i, queue);
      }
      StartMarked(n, G, root);
    }

    /** Direction i of the set-up loop: an in-bounds neighbour becomes FRONTIER and is
        queued. */
    method SeedDir(x: int, y: int, i: int, queue: seq<Cell>) returns (queue': seq<Cell>)
      requires Valid() && 0 <= i < 4
      modifies this`grid, state
      ensures Valid()
      ensures var m := Move((x, y), i);
        if Inside(n, m) then queue' == queue + [m] && grid == old(grid)[m := FRONTIER]
        else queue' == queue && grid == old(grid)
    {
      var u, v := x + PX[i], y + PY[i];
      queue' := queue;
      if Inside(n, (u, v)) {
        SetCell(u, v, FRONTIER);
        queue' := queue + [(u, v)];
      }
    }

    /** One commit of the Prim loop: the j-th queued cell becomes INSIDE and leaves the
        queue, its OUTSIDE neighbours become FRONTIER and join the queue, and its INSIDE
        neighbours are returned in direction order. */
    method Commit(queue: seq<Cell>, j: int) returns (queue': seq<Cell>, adj: seq<Cell>)
      requires Valid() && 0 <= j < |queue| && Inside(n, queue[j])
      modifies this`grid, state
      ensures Valid()
      ensures var b := Build(old(grid), passages, queue);
        adj == Candidates(n, b, j) &&
        grid == Mark(old(grid)[queue[j] := INSIDE], Discovered(n, b, j), FRONTIER) &&
        queue' == Remove(queue, j) + Discovered(n, b, j)
    {
      var x, y := queue[j].0, queue[j].1;
      assert (x, y) == queue[j];
      SetCell(x, y, INSIDE);
      queue', adj := ScanNeighbours(x, y, queue[..j] + queue[j + 1..]);
    }

    /** The neighbour loop of a commit: INSIDE neighbours of (x, y) are collected in adj,
        OUTSIDE ones become FRONTIER and are appended to the queue. */
    method ScanNeighbours(x: int, y: int, queue: seq<Cell>) returns (queue': seq<Cell>, adj: seq<Cell>)
      requires Valid() && Inside(n, (x, y))
      modifies this`grid, state
      ensures Valid()
      ensures adj == WithState(old(grid), Nbrs(n, (x, y), 4), INSIDE)
      ensures queue' == queue + WithState(old(grid), Nbrs(n, (x, y), 4), OUTSIDE)
      ensures grid == Mark(old(grid), WithState(old(grid), Nbrs(n, (x, y), 4), OUTSIDE), FRONTIER)
    {
      ghost var c := (x, y);
      ghost var S1 := grid;
      queue', adj := queue, [];
      assert Nbrs(n, c, 0) == [];
      assert WithState(S1, [], INSIDE) == [];
      assert Mark(S1, [], FRONTIER) == S1;
      for i := 0 to 4
        invariant Valid()
        invariant adj == WithState(S1, Nbrs(n, c, i), INSIDE)
        invariant queue' == queue + WithState(S1, Nbrs(n, c, i), OUTSIDE)
        invariant grid == Mark(S1, WithState(S1, Nbrs(n, c, i), OUTSIDE), FRONTIER)
      {
        ScanAdvance(n, S1, c, i, queue, queue', adj, grid);
        queue', adj := ScanDir(x, y, i, queue', adj);
      }
    }

    /** Direction i of the neighbour loop: an in-bounds INSIDE neighbour is collected, an
        OUTSIDE one becomes FRONTIER and is queued, and anything else is passed over. */
    method ScanDir(x: int, y: int, i: int, queue: seq<Cell>, adj: seq<Cell>)
      returns (queue': seq<Cell>, adj': seq<Cell>)
      requires Valid() && Inside(n, (x, y)) && 0 <= i < 4
      modifies this`grid, state
      ensures Valid()
      ensures var m := Move((x, y), i);
        if Inside(n, m) && old(grid)[m] == INSIDE then
          adj' == adj + [m] && queue' == queue && grid == old(grid)
        else if Inside(n, m) && old(grid)[m] == OUTSIDE then
          adj' == adj && queue' == queue + [m] && grid == old(grid)[m := FRONTIER]
        else adj' == adj && queue' == queue && grid == old(grid)
    {
      var u, v := x + PX[i], y + PY[i];
      queue', adj' := queue, adj;
      if Inside(n, (u, v)) {
        if state[u, v] == INSIDE {
          adj' := adj + [(u, v)];
        } else if state[u, v] == OUTSIDE {
          SetCell(u, v, FRONTIER);
          queue' := queue + [(u, v)];
        }
      }
    }

    /** Opens the passage between c and p in both directions: avail[c, GetDir(c, p)] and
        avail[p, GetDir(p, c)]. */
    method OpenPassage(c: Cell, p: Cell)
      requires Valid() && Inside(n, c) && Inside(n, p)
      modifies avail, this`passages
      ensures Valid() && passages == old(passages) + Passage(c, p)
    {
      var x, y, u, v := c.0, c.1, p.0, p.1;
      avail[x, y, GetDir(x, y, u, v)] := true;
      avail[u, v, GetDir(u, v, x, y)] := true;
      passages := passages + Passage(c, p);
    }

    /** Dfs(x, y, depth): label (x, y) with depth, then enter every unlabelled neighbour
        behind an open passage, one level deeper. */
    method Dfs(x: int, y: int, depth: int) returns (ghost dp: map<Cell, Cell>, ghost T: set<HalfEdge>)
      requires Valid() && Inside(n, (x, y)) && grid[(x, y)] == 0 && depth >= 1
      modifies this`grid, state
      ensures Valid()
      ensures DfsOutcome(n, passages, old(grid), grid, (x, y), depth, dp, T)
      ensures Unlabelled() <= old(Unlabelled())
      decreases Unlabelled()
    {
      state[x, y] := depth;
      grid := grid[(x, y) := depth];
      DfsBegin(n, passages, old(grid), (x, y), depth);
      dp, T := map[], {};
      assert (x, y) in old(Unlabelled()) && (x, y) !in Unlabelled();
      for i := 0 to 4
        invariant Valid()
        invariant DfsPartial(n, passages, old(grid), grid, (x, y), depth, dp, T, i)
        invariant Unlabelled() < old(Unlabelled())
      {
        var u, v := x + PX[i], y + PY[i];
        GetDirOfMove((x, y), i);
        if Inside(n, (u, v)) && state[u, v] == 0 && avail[x, y, i] {
          ghost var L := grid;
          assert Open(n, passages, (x, y), (u, v)) && (u, v) in L && L[(u, v)] == 0;
          var dp2, T2 := Dfs(u, v, depth + 1);
          assert DfsOutcome(n, passages, L, grid, (u, v), depth + 1, dp2, T2);
          DfsChild(n, passages, old(grid), L, grid, (x, y), depth, dp, T, dp2, T2, i, (u, v));
          dp, T := dp + dp2 + map[(u, v) := (x, y)], T + T2 + Passage((u, v), (x, y));
        } else {
          DfsSkip(n, passages, old(grid), grid, (x, y), depth, dp, T, i);
        }
      }
    }

    /** The reset loop of LongestPath and InitPlayer: every cell's state becomes 0. */
    method ClearState()
      requires Valid()
      modifies this`grid, state
      ensures Valid()
      ensures forall c | c in grid :: grid[c] == OUTSIDE
    {
      for i := 0 to n
        invariant Valid()
        invariant forall a, b | 0 <= a < i && 0 <= b < n :: grid[(a, b)] == OUTSIDE
      {
        for j := 0 to n
          invariant Valid()
          invariant forall a, b | 0 <= a < i && 0 <= b < n :: grid[(a, b)] == OUTSIDE
          invariant forall b | 0 <= b < j :: grid[(i, b)] == OUTSIDE
        {
          SetCell(i, j, OUTSIDE);
        }
      }
    }

    /** The scan of LongestPath: the first cell in row-major order with the largest state. */
    method ScanMax() returns (bi: int, bj: int)
      requires Valid()
      ensures Inside(n, (bi, bj))
      ensures forall c | c in grid && Inside(n, c) :: grid[c] <= grid[(bi, bj)]
      ensures forall c | c in grid && Inside(n, c) && Before(c, (bi, bj)) :: grid[c] < grid[(bi, bj)]
    {
      bi, bj := 0, 0;
      for i := 0 to n
        invariant Inside(n, (bi, bj)) && (bi < i || (bi, bj) == (0, 0))
        invariant forall c | Inside(n, c) && c.0 < i :: grid[c] <= grid[(bi, bj)]
        invariant forall c | Inside(n, c) && Before(c, (bi, bj)) :: grid[c] < grid[(bi, bj)]
      {
        for j := 0 to n
          invariant Inside(n, (bi, bj)) && (Before((bi, bj), (i, j)) || (bi, bj) == (0, 0))
          invariant forall c | Inside(n, c) && (c.0 < i || (c.0 == i && c.1 < j)) ::
            grid[c] <= grid[(bi, bj)]
          invariant forall c | Inside(n, c) && Before(c, (bi, bj)) :: grid[c] < grid[(bi, bj)]
        {
          if state[i, j] > state[bi, bj] {
            bi, bj := i, j;
          }
        }
      }
    }

    /** One pass of LongestPath from r: reset the labels, DFS from r with depth 1, and
        scan for the first cell with the largest label. */
    method Sweep(rx: int, ry: int) returns (bi: int, bj: int)
      requires Valid() && Inside(n, (rx, ry))
      modifies this`grid, state
      ensures Valid() && Inside(n, (bi, bj))
      ensures SpanningTree(n, passages) ==>
        FirstFarthest(n, passages, (rx, ry), (bi, bj)) &&
        forall c | Inside(n, c) :: c in grid && IsDistance(n, passages, (rx, ry), c, grid[c] - 1)
      ensures SpanningTree(n, passages) ==>
        exists p, h :: Diameter.Hung(n, passages, (rx, ry), p, h)
    {
      ClearState();
      ghost var L0 := grid;
      ghost var dp: map<Cell, Cell>, T: set<HalfEdge>;
      dp, T := Dfs(rx, ry, 1);
      bi, bj := ScanMax();
      if SpanningTree(n, passages) {
        SweepFarthest(n, passages, L0, grid, (rx, ry), dp, T, (bi, bj));
        Diameter.SweepHung(n, passages, L0, grid, (rx, ry), dp, T);
      }
    }

    /** LongestPath: the finish is the first cell farthest from a random cell, and the
        start the first cell farthest from the finish. */
    method LongestPath()
      requires Valid()
      modifies this`grid, state, this`drawn, this`fx, this`fy, this`sx, this`sy
      ensures Valid() && drawn == old(drawn) + 2
      ensures Inside(n, (fx, fy)) && Inside(n, (sx, sy))
      ensures SpanningTree(n, passages) ==>
        var r := (rand(drawn - 2, n) % n, rand(drawn - 1, n) % n);
        Inside(n, r) && FirstFarthest(n, passages, r, (fx, fy)) &&
        FirstFarthest(n, passages, (fx, fy), (sx, sy)) &&
        Diameter.FarthestPair(n, passages, (fx, fy), (sx, sy)) &&
        (n > 1 ==> (sx, sy) != (fx, fy))
    {
      var rx := Range(n);
      var ry := Range(n);
      var ui, uj := Sweep(rx, ry);
      var vi, vj := Sweep(ui, uj);
      if SpanningTree(n, passages) {
        Diameter.SweepTwice(n, passages, (rx, ry), (ui, uj), (vi, vj));
        if n > 1 {
          FarApart(n, passages, grid, (ui, uj), (vi, vj));
        }
      }
      SetEnds(ui, uj, vi, vj);
    }

    /** Records the finish (fx, fy) and the start (sx, sy). */
    method SetEnds(ui: int, uj: int, vi: int, vj: int)
      modifies this`fx, this`fy, this`sx, this`sy
      ensures fx == ui && fy == uj && sx == vi && sy == vj
    {
      fx, fy, sx, sy := ui, uj, vi, vj;
    }

    /** InitPlayer: every cell unvisited except the start cell. */
    method InitPlayer()
      requires Valid() && Inside(n, (sx, sy))
      modifies this`grid, state
      ensures Valid() && Playing()
      ensures Visited() == {(sx, sy)}
      ensures Play() == Traversal.Play((sx, sy), {(sx, sy)}, flag)
    {
      ClearState();
      SetCell(sx, sy, INSIDE);
      assert Visited() == {(sx, sy)};
    }

    /** UpdateKey with the keys pressed this frame: one step of the traversal game. */
    method UpdateKey(k: Traversal.Keys) returns (r: int)
      requires Valid() && Playing() && Traversal.PlayOk(n, (fx, fy), Play())
      modifies this`sx, this`sy, this`flag, this`grid, state
      ensures Valid() && Playing() && Traversal.PlayOk(n, (fx, fy), Play())
      ensures Traversal.Outcome(Play(), r) == Traversal.Step(n, passages, (fx, fy), old(Play()), k)
    {
      Traversal.StepKeepsOk(n, passages, (fx, fy), Play(), k);
      if sx == fx && sy == fy {
        return 1;
      }
      if flag == -1 {
        return -1;
      }
      var nx, ny := sx, sy;
      if k.up {
        nx := sx - 1;
      } else if k.down {
        nx := sx + 1;
      } else if k.left {
        ny := sy - 1;
      } else if k.right {
        ny := sy + 1;
      }
      assert (nx, ny) == Traversal.Aim((sx, sy), k);
      if (nx != sx || ny != sy) && Inside(n, (nx, ny)) && avail[sx, sy, GetDir(sx, sy, nx, ny)] {
        r := Advance(nx, ny);
      } else {
        r := flag;
      }
    }

    /** The accepted move of UpdateKey onto (nx, ny). */
    method Advance(nx: int, ny: int) returns (r: int)
      requires Valid() && Playing() && Inside(n, (sx, sy)) && Inside(n, (nx, ny))
      modifies this`sx, this`sy, this`flag, this`grid, state
      ensures Valid() && Playing()
      ensures Traversal.Outcome(Play(), r) == Traversal.Enter((fx, fy), old(Play()), (nx, ny))
    {
      if state[nx, ny] == OUTSIDE {
        CommittedSet(grid, (nx, ny), INSIDE);
        SetCell(nx, ny, INSIDE);
      } else {
        CommittedSet(grid, (sx, sy), OUTSIDE);
        SetCell(sx, sy, OUTSIDE);
        flag := -1;
      }
      sx, sy := nx, ny;
      if sx == fx && sy == fy {
        return 1;
      }
      return flag;
    }
  }

  /** The set-up loop's invariant carried across direction i. */
  lemma SeedAdvance(n: int, S0: map<Cell, int>, c: Cell, i: int, q: seq<Cell>, G: map<Cell, int>)
    requires Covers(n, S0) && 0 <= i < 4
    requires q == Nbrs(n, c, i) && G == Mark(S0, Nbrs(n, c, i), FRONTIER)
    ensures var m := Move(c, i);
      Nbrs(n, c, i + 1) == if Inside(n, m) then q + [m] else q
    ensures var m := Move(c, i);
      Mark(S0, Nbrs(n, c, i + 1), FRONTIER) == if Inside(n, m) then G[m := FRONTIER] else G
  {
    var m := Move(c, i);
    ScanStep(n, S0, c, i);
    if Inside(n, m) {
      MarkSnoc(S0, Nbrs(n, c, i), m, FRONTIER);
    }
  }

  /** The neighbour loop's invariant carried across direction i: the neighbour m in
      that direction still has its state from before the loop, and handling it as
      ScanDir does gives the invariant for the first i + 1 directions. */
  lemma ScanAdvance(n: int, S1: map<Cell, int>, c: Cell, i: int, q0: seq<Cell>,
                    q: seq<Cell>, a: seq<Cell>, G: map<Cell, int>)
    requires Covers(n, S1) && 0 <= i < 4
    requires a == WithState(S1, Nbrs(n, c, i), INSIDE)
    requires q == q0 + WithState(S1, Nbrs(n, c, i), OUTSIDE)
    requires G == Mark(S1, WithState(S1, Nbrs(n, c, i), OUTSIDE), FRONTIER)
    ensures var m := Move(c, i);
      Inside(n, m) ==> m in S1 && m in G && G[m] == S1[m]
    ensures var m := Move(c, i);
      WithState(S1, Nbrs(n, c, i + 1), INSIDE) ==
        if Inside(n, m) && m in S1 && S1[m] == INSIDE then a + [m] else a
    ensures var m := Move(c, i);
      q0 + WithState(S1, Nbrs(n, c, i + 1), OUTSIDE) ==
        if Inside(n, m) && m in S1 && S1[m] == OUTSIDE then q + [m] else q
    ensures var m := Move(c, i);
      Mark(S1, WithState(S1, Nbrs(n, c, i + 1), OUTSIDE), FRONTIER) ==
        if Inside(n, m) && m in S1 && S1[m] == OUTSIDE then G[m := FRONTIER] else G
  {
    var m := Move(c, i);
    NbrsStep(n, S1, c, i, INSIDE);
    NbrsStep(n, S1, c, i, OUTSIDE);
    ScanMark(n, S1, c, i);
    SnocAssoc(q0, WithState(S1, Nbrs(n, c, i), OUTSIDE), m);
  }

  lemma SnocAssoc(q0: seq<Cell>, W: seq<Cell>, m: Cell)
    ensures (q0 + W) + [m] == q0 + (W + [m])
  {
  }

  /** Marking the OUTSIDE neighbours of the first i + 1 directions FRONTIER marks those
      of the first i and then, when it is OUTSIDE, the neighbour in direction i, which
      the first i directions leave unchanged. */
  lemma ScanMark(n: int, S1: map<Cell, int>, c: Cell, i: int)
    requires Covers(n, S1) && 0 <= i < 4
    ensures var m, W := Move(c, i), WithState(S1, Nbrs(n, c, i), OUTSIDE);
      Inside(n, m) ==> m in S1 && m in Mark(S1, W, FRONTIER) && Mark(S1, W, FRONTIER)[m] == S1[m]
    ensures var m, W := Move(c, i), WithState(S1, Nbrs(n, c, i), OUTSIDE);
      Mark(S1, WithState(S1, Nbrs(n, c, i + 1), OUTSIDE), FRONTIER) ==
        if Inside(n, m) && m in S1 && S1[m] == OUTSIDE then Mark(S1, W, FRONTIER)[m := FRONTIER]
        else Mark(S1, W, FRONTIER)
  {
    var m, W := Move(c, i), WithState(S1, Nbrs(n, c, i), OUTSIDE);
    NbrsStep(n, S1, c, i, OUTSIDE);
    if Inside(n, m) {
      ScanStep(n, S1, c, i);
      assert m in S1 && m !in W;
      if S1[m] == OUTSIDE {
        MarkSnoc(S1, W, m, FRONTIER);
      }
    }
  }

  /** Setting one cell adds it to, or removes it from, the cells marked INSIDE. */
  lemma CommittedSet(G: map<Cell, int>, c: Cell, v: int)
    requires c in G
    ensures Committed(G[c := v]) == if v == INSIDE then Committed(G) + {c} else Committed(G) - {c}
  {
  }

  /** The neighbour scanned in direction i is new to the scan and keeps its state until then. */
  lemma ScanStep(n: int, S: map<Cell, int>, c: Cell, i: int)
    requires IsDir(i)
    ensures Move(c, i) !in Nbrs(n, c, i)
    ensures Inside(n, Move(c, i)) ==> Nbrs(n, c, i + 1) == Nbrs(n, c, i) + [Move(c, i)]
    ensures !Inside(n, Move(c, i)) ==> Nbrs(n, c, i + 1) == Nbrs(n, c, i)
  {
    GetDirOfMove(c, i);
  }
}
