// Randomized Prim on values: the tri-state build map, the open half-edges and the
// frontier queue of Maze.Prim (Assets/Scripts/Maze.cs:201-240), one loop iteration
// as a function, and the invariant every iteration keeps.
module Build {
  import opened Grid
  import opened Graph

  /** Build states of a cell (Maze.cs:41-43). */
  const OUTSIDE := 0
  const FRONTIER := 1
  const INSIDE := 2

  datatype Build = Build(state: map<Cell, int>, open: set<HalfEdge>, queue: seq<Cell>)

  /** The in-bounds neighbours of c in the directions below k, in direction order. */
  function Nbrs(n: int, c: Cell, k: nat): (r: seq<Cell>)
    requires k <= 4
    ensures NoDups(r)
    ensures forall x | x in r :: Inside(n, x) && Adjacent(c, x) && DirTo(c, x) < k
    ensures forall d | 0 <= d < k && Inside(n, Move(c, d)) :: Move(c, d) in r
  {
    if k == 0 then []
    else
      var r := Nbrs(n, c, k - 1);
      GetDirOfMove(c, k - 1);
      if Inside(n, Move(c, k - 1)) then r + [Move(c, k - 1)] else r
  }

  /** The cells of cs whose entry in S is v, in the order of cs. */
  function WithState(S: map<Cell, int>, cs: seq<Cell>, v: int): (r: seq<Cell>)
    ensures forall x :: x in r <==> x in cs && x in S && S[x] == v
    ensures NoDups(cs) ==> NoDups(r)
  {
    if cs == [] then []
    else
      var x := cs[|cs| - 1];
      var r := WithState(S, cs[..|cs| - 1], v);
      assert cs == cs[..|cs| - 1] + [x];
      if x in S && S[x] == v then r + [x] else r
  }

  /** S with every cell of cs set to v. */
  function Mark(S: map<Cell, int>, cs: seq<Cell>, v: int): map<Cell, int> {
    map x | x in S :: if x in cs then v else S[x]
  }

  function Remove(q: seq<Cell>, j: nat): seq<Cell>
    requires j < |q|
  {
    q[..j] + q[j + 1..]
  }

  /** The cells already INSIDE the tree. */
  ghost function Committed(S: map<Cell, int>): set<Cell> {
    set c | c in S && S[c] == INSIDE
  }

  /** The build state before the loop: the start cell INSIDE, its in-bounds
      neighbours FRONTIER and queued, no passage open. */
  function Start(n: int, root: Cell): Build {
    Seeded(n, root, 4)
  }

  /** The set-up loop after the directions below k: the start cell INSIDE, each in-bounds
      neighbour met so far FRONTIER and queued, every other cell OUTSIDE. */
  function Seeded(n: int, root: Cell, k: nat): Build
    requires k <= 4
  {
    if k == 0 then Build(map c | c in Cells(n) :: if c == root then INSIDE else OUTSIDE, {}, [])
    else
      var b := Seeded(n, root, k - 1);
      var m := Move(root, k - 1);
      if Inside(n, m) then Build(b.state[m := FRONTIER], {}, b.queue + [m]) else b
  }

  /** The neighbours of the drawn cell that are INSIDE (the source's adj). */
  function Candidates(n: int, b: Build, j: nat): seq<Cell>
    requires j < |b.queue|
  {
    WithState(b.state[b.queue[j] := INSIDE], Nbrs(n, b.queue[j], 4), INSIDE)
  }

  /** The neighbours of the drawn cell that are still OUTSIDE and join the frontier. */
  function Discovered(n: int, b: Build, j: nat): seq<Cell>
    requires j < |b.queue|
  {
    WithState(b.state[b.queue[j] := INSIDE], Nbrs(n, b.queue[j], 4), OUTSIDE)
  }

  /** One iteration of the Prim loop with frontier draw j and parent draw i: commit the
      j-th queued cell, push its OUTSIDE neighbours, open the passage to the i-th INSIDE one. */
  function Grow(n: int, b: Build, j: nat, i: nat): Build
    requires j < |b.queue|
    requires |Candidates(n, b, j)| > 0 ==> i < |Candidates(n, b, j)|
  {
    var c := b.queue[j];
    var adj := Candidates(n, b, j);
    var S := Mark(b.state[c := INSIDE], Discovered(n, b, j), FRONTIER);
    var E :=
      if |adj| > 0 then
        b.open + Passage(c, adj[i])
      else b.open;
    Build(S, E, Remove(b.queue, j) + Discovered(n, b, j))
  }

  /** Every cell of the maze has a build state, and the start cell is INSIDE. */
  ghost predicate StateOk(n: int, S: map<Cell, int>, root: Cell) {
    Covers(n, S) &&
    (forall c | c in S :: OUTSIDE <= S[c] <= INSIDE) &&
    Inside(n, root) && S[root] == INSIDE
  }

  /** The queue holds exactly the FRONTIER cells, once each; `via` names, for each
      queued cell, the INSIDE neighbour that queued it. */
  ghost predicate QueueOk(S: map<Cell, int>, q: seq<Cell>, via: map<Cell, Cell>) {
    (forall k | 0 <= k < |q| :: q[k] in S && S[q[k]] == FRONTIER) &&
    NoDups(q) &&
    (forall c | c in S && S[c] == FRONTIER :: c in q) &&
    (forall k | 0 <= k < |q| ::
       q[k] in via && Adjacent(q[k], via[q[k]]) && via[q[k]] in S && S[via[q[k]]] == INSIDE)
  }

  /** No INSIDE cell has an OUTSIDE neighbour. */
  ghost predicate InsideClosed(S: map<Cell, int>) {
    forall c, d | c in S && S[c] == INSIDE && IsDir(d) && Move(c, d) in S ::
      S[Move(c, d)] != OUTSIDE
  }

  /** `parent` and `rank` certify that the open passages form a tree over the INSIDE
      cells, with one passage (two half-edges) per non-root cell. */
  ghost predicate TreeOk(n: int, b: Build, root: Cell, parent: map<Cell, Cell>, rank: map<Cell, nat>) {
    RootedTree(n, b.open, Committed(b.state), root, parent, rank) &&
    (forall c | c in rank :: rank[c] < |rank|) &&
    |b.open| == 2 * |parent|
  }

  /** The invariant of the Prim loop. */
  ghost predicate Inv(n: int, b: Build, root: Cell, via: map<Cell, Cell>,
                      parent: map<Cell, Cell>, rank: map<Cell, nat>) {
    StateOk(n, b.state, root) && QueueOk(b.state, b.queue, via) &&
    InsideClosed(b.state) && TreeOk(n, b, root, parent, rank)
  }

  /** The set-up loop leaves the start cell INSIDE, the queued neighbours FRONTIER and
      every other cell of the maze OUTSIDE. */
  lemma {:induction false} SeededForm(n: int, root: Cell, k: nat)
    requires k <= 4
    ensures var nb := Nbrs(n, root, k);
      Seeded(n, root, k) ==
        Build(map c | c in Cells(n) :: if c == root then INSIDE else if c in nb then FRONTIER else OUTSIDE,
              {}, nb)
  {
    if k > 0 {
      SeededForm(n, root, k - 1);
      var m, nb, nb' := Move(root, k - 1), Nbrs(n, root, k - 1), Nbrs(n, root, k);
      if Inside(n, m) {
        GetDirOfMove(root, k - 1);
        AdjacentSymmetric(root, m);
        InCells(n, m);
        var S := Seeded(n, root, k - 1).state;
        var T := map c | c in Cells(n) :: if c == root then INSIDE else if c in nb' then FRONTIER else OUTSIDE;
        assert nb' == nb + [m];
        assert S[m := FRONTIER] == T;
      }
    }
  }

  /** Start in closed form. */
  lemma StartForm(n: int, root: Cell)
    ensures var nb := Nbrs(n, root, 4);
      Start(n, root) ==
        Build(map c | c in Cells(n) :: if c == root then INSIDE else if c in nb then FRONTIER else OUTSIDE,
              {}, nb)
  {
    SeededForm(n, root, 4);
  }

  /** The state before the loop satisfies the invariant, certified by the one-cell tree. */
  lemma StartInv(n: int, root: Cell)
    returns (via: map<Cell, Cell>, parent: map<Cell, Cell>, rank: map<Cell, nat>)
    requires Inside(n, root)
    ensures Inv(n, Start(n, root), root, via, parent, rank)
    ensures Committed(Start(n, root).state) == {root} && |rank| == 1
  {
    StartForm(n, root);
    via, parent, rank := ClosedStartInv(n, root, Start(n, root));
  }

  /** StartInv on the closed form of Start. */
  lemma ClosedStartInv(n: int, root: Cell, b: Build)
    returns (via: map<Cell, Cell>, parent: map<Cell, Cell>, rank: map<Cell, nat>)
    requires Inside(n, root)
    requires var nb := Nbrs(n, root, 4);
      b == Build(map c | c in Cells(n) :: if c == root then INSIDE else if c in nb then FRONTIER else OUTSIDE,
                 {}, nb)
    ensures Inv(n, b, root, via, parent, rank)
    ensures Committed(b.state) == {root} && |rank| == 1
  {
    var nb := Nbrs(n, root, 4);
    var S := b.state;
    forall c
      ensures c in S <==> Inside(n, c)
    {
      InCells(n, c);
    }
    assert root !in nb by {
      if root in nb {
        AdjacentSymmetric(root, root);
      }
    }
    via := map x | x in nb :: root;
    parent := map[];
    rank := map[root := 0];
    forall k | 0 <= k < |nb|
      ensures Adjacent(nb[k], root)
    {
      AdjacentSymmetric(root, nb[k]);
    }
    assert Committed(S) == {root};
    forall c, d | c in S && S[c] == INSIDE && IsDir(d) && Move(c, d) in S
      ensures S[Move(c, d)] != OUTSIDE
    {
      assert c == root;
      assert Move(root, d) in nb;
    }
  }

  /** The facts about the drawn cell, its candidates and its discovered neighbours. */
  lemma GrowFacts(n: int, b: Build, root: Cell, via: map<Cell, Cell>, j: nat)
    requires StateOk(n, b.state, root) && QueueOk(b.state, b.queue, via) && j < |b.queue|
    ensures var c := b.queue[j];
      c in b.state && b.state[c] == FRONTIER && Inside(n, c) &&
      (forall x | x in Discovered(n, b, j) ::
         x in b.state && b.state[x] == OUTSIDE && Adjacent(c, x) && x != c) &&
      (forall x | x in Candidates(n, b, j) ::
         x in b.state && b.state[x] == INSIDE && Adjacent(c, x) && x != c) &&
      NoDups(Discovered(n, b, j)) &&
      |Candidates(n, b, j)| > 0
  {
    var c := b.queue[j];
    var S1 := b.state[c := INSIDE];
    var nb := Nbrs(n, c, 4);
    forall x | x in nb
      ensures x != c
    {
      AdjacentSymmetric(c, x);
    }
    var p := via[c];
    MoveOfGetDir(c, p);
    assert Move(c, DirTo(c, p)) == p;
    assert p in nb;
    assert p in Candidates(n, b, j);
  }

  /** How one iteration changes the build state: the drawn cell becomes INSIDE, the
      discovered cells FRONTIER, and no other cell changes. */
  lemma GrowState(n: int, b: Build, root: Cell, via: map<Cell, Cell>, j: nat, i: nat)
    requires StateOk(n, b.state, root) && QueueOk(b.state, b.queue, via) && j < |b.queue|
    requires |Candidates(n, b, j)| > 0 ==> i < |Candidates(n, b, j)|
    ensures var S, S' := b.state, Grow(n, b, j, i).state;
      var c, disc := b.queue[j], Discovered(n, b, j);
      Covers(n, S') &&
      (forall x | x in S' ::
         S'[x] == (if x == c then INSIDE else if x in disc then FRONTIER else S[x])) &&
      (forall x | x in S :: S[x] <= S'[x]) &&
      Committed(S') == Committed(S) + {c} && c !in Committed(S)
  {
    GrowFacts(n, b, root, via, j);
    var S, S' := b.state, Grow(n, b, j, i).state;
    var c := b.queue[j];
    assert Committed(S') == Committed(S) + {c};
  }

  /** Removing the j-th entry keeps every other entry. */
  lemma RemoveKeeps(q: seq<Cell>, j: nat, x: Cell)
    requires j < |q| && NoDups(q)
    ensures x in Remove(q, j) <==> x in q && x != q[j]
    ensures NoDups(Remove(q, j))
  {
    var r := Remove(q, j);
    forall a, b | 0 <= a < b < |r|
      ensures r[a] != r[b]
    {
      var a' := if a < j then a else a + 1;
      var b' := if b < j then b else b + 1;
      assert r[a] == q[a'] && r[b] == q[b'];
    }
    if x in q && x != q[j] {
      var k :| 0 <= k < |q| && q[k] == x;
      if k < j {
        assert r[k] == x;
      } else {
        assert r[k - 1] == x;
      }
    }
  }

  /** Two duplicate-free sequences with no common cell concatenate without duplicates. */
  lemma ConcatNoDups(s: seq<Cell>, t: seq<Cell>)
    requires NoDups(s) && NoDups(t) && forall x | x in t :: x !in s
    ensures NoDups(s + t)
  {
    forall a, a' | 0 <= a < a' < |s + t|
      ensures (s + t)[a] != (s + t)[a']
    {
      if a' < |s| {
        assert (s + t)[a] == s[a] && (s + t)[a'] == s[a'];
      } else if a < |s| {
        assert (s + t)[a] == s[a] && (s + t)[a'] == t[a' - |s|];
        assert t[a' - |s|] in t;
      } else {
        assert (s + t)[a] == t[a - |s|] && (s + t)[a'] == t[a' - |s|];
      }
    }
  }

  /** One iteration keeps the queue exactly the FRONTIER cells, without duplicates,
      each next to an INSIDE cell. */
  lemma GrowQueue(n: int, b: Build, root: Cell, via: map<Cell, Cell>, j: nat, i: nat)
    returns (via': map<Cell, Cell>)
    requires StateOk(n, b.state, root) && QueueOk(b.state, b.queue, via) && j < |b.queue|
    requires |Candidates(n, b, j)| > 0 ==> i < |Candidates(n, b, j)|
    ensures QueueOk(Grow(n, b, j, i).state, Grow(n, b, j, i).queue, via')
  {
    GrowFacts(n, b, root, via, j);
    GrowState(n, b, root, via, j, i);
    var S, S', q := b.state, Grow(n, b, j, i).state, b.queue;
    var c, disc := q[j], Discovered(n, b, j);
    var rest := Remove(q, j);
    var q' := rest + disc;
    assert q' == Grow(n, b, j, i).queue;
    via' := via + map x | x in disc :: c;
    forall x
      ensures x in rest <==> x in q && x != c
    {
      RemoveKeeps(q, j, x);
    }
    RemoveKeeps(q, j, c);
    forall k | 0 <= k < |q'|
      ensures q'[k] in S' && S'[q'[k]] == FRONTIER
      ensures q'[k] in via' && Adjacent(q'[k], via'[q'[k]]) && via'[q'[k]] in S' && S'[via'[q'[k]]] == INSIDE
    {
      var x := q'[k];
      if k < |rest| {
        assert x in rest;
        assert x !in disc;
      } else {
        assert x in disc;
        AdjacentSymmetric(c, x);
      }
    }
    forall x | x in disc
      ensures x !in rest
    {
    }
    ConcatNoDups(rest, disc);
    forall x | x in S' && S'[x] == FRONTIER
      ensures x in q'
    {
      if x !in disc {
        assert x in rest;
      }
    }
  }

  /** One iteration keeps every neighbour of an INSIDE cell out of the OUTSIDE state. */
  lemma GrowClosure(n: int, b: Build, root: Cell, via: map<Cell, Cell>, j: nat, i: nat)
    requires StateOk(n, b.state, root) && QueueOk(b.state, b.queue, via) && j < |b.queue|
    requires InsideClosed(b.state)
    requires |Candidates(n, b, j)| > 0 ==> i < |Candidates(n, b, j)|
    ensures InsideClosed(Grow(n, b, j, i).state)
  {
    GrowState(n, b, root, via, j, i);
    var S, S' := b.state, Grow(n, b, j, i).state;
    var c := b.queue[j];
    forall x, d | x in S' && S'[x] == INSIDE && IsDir(d) && Move(x, d) in S'
      ensures S'[Move(x, d)] != OUTSIDE
    {
      var m := Move(x, d);
      if x == c {
        assert m in Nbrs(n, c, 4);
        if m != c && S[m] == OUTSIDE {
          assert m in Discovered(n, b, j);
        }
      }
    }
  }

  /** One iteration extends the tree certificate by the committed cell and its parent. */
  lemma GrowTree(n: int, b: Build, root: Cell, via: map<Cell, Cell>,
                 parent: map<Cell, Cell>, rank: map<Cell, nat>, j: nat, i: nat)
    returns (parent': map<Cell, Cell>, rank': map<Cell, nat>)
    requires StateOk(n, b.state, root) && QueueOk(b.state, b.queue, via) && j < |b.queue|
    requires TreeOk(n, b, root, parent, rank)
    requires |Candidates(n, b, j)| > 0 ==> i < |Candidates(n, b, j)|
    ensures TreeOk(n, Grow(n, b, j, i), root, parent', rank') && |rank'| == |rank| + 1
  {
    GrowFacts(n, b, root, via, j);
    GrowState(n, b, root, via, j, i);
    var c := b.queue[j];
    var p := Candidates(n, b, j)[i];
    assert p in Committed(b.state);
    var b' := Grow(n, b, j, i);
    assert b'.open == b.open + Passage(c, p);
    parent', rank' := TreeExtend(n, b.open, Committed(b.state), root, parent, rank, c, p);
    TreeOkOf(n, b', root, parent', rank', b.open + Passage(c, p), Committed(b.state) + {c});
  }

  /** TreeOk from its parts, the passages and the committed cells named apart. */
  lemma TreeOkOf(n: int, b: Build, root: Cell, parent: map<Cell, Cell>, rank: map<Cell, nat>,
                 E: set<HalfEdge>, cells: set<Cell>)
    requires b.open == E && Committed(b.state) == cells
    requires RootedTree(n, E, cells, root, parent, rank)
    requires (forall c | c in rank :: rank[c] < |rank|) && |E| == 2 * |parent|
    ensures TreeOk(n, b, root, parent, rank)
  {
  }

  /** One iteration keeps every cell of the maze in one of the three build states and
      the start cell INSIDE. */
  lemma GrowStateOk(n: int, b: Build, root: Cell, via: map<Cell, Cell>, j: nat, i: nat)
    requires StateOk(n, b.state, root) && QueueOk(b.state, b.queue, via) && j < |b.queue|
    requires |Candidates(n, b, j)| > 0 ==> i < |Candidates(n, b, j)|
    ensures StateOk(n, Grow(n, b, j, i).state, root)
  {
    GrowState(n, b, root, via, j, i);
    var S, S' := b.state, Grow(n, b, j, i).state;
    forall x | x in S'
      ensures OUTSIDE <= S'[x] <= INSIDE
    {
      assert x in S;
    }
    assert root in S;
  }

  /** One iteration preserves the invariant. */
  lemma GrowKeepsInv(n: int, b: Build, root: Cell, via: map<Cell, Cell>,
                     parent: map<Cell, Cell>, rank: map<Cell, nat>, j: nat, i: nat)
    returns (via': map<Cell, Cell>, parent': map<Cell, Cell>, rank': map<Cell, nat>)
    requires Inv(n, b, root, via, parent, rank) && j < |b.queue|
    requires |Candidates(n, b, j)| > 0 ==> i < |Candidates(n, b, j)|
    ensures Inv(n, Grow(n, b, j, i), root, via', parent', rank')
    ensures |rank'| == |rank| + 1
  {
    GrowStateOk(n, b, root, via, j, i);
    via' := GrowQueue(n, b, root, via, j, i);
    GrowClosure(n, b, root, via, j, i);
    parent', rank' := GrowTree(n, b, root, via, parent, rank, j, i);
  }

  /** One iteration commits a cell that was not yet INSIDE: the tree grows by exactly
      that cell, so the loop ends. */
  lemma GrowProgress(n: int, b: Build, root: Cell, via: map<Cell, Cell>,
                     parent: map<Cell, Cell>, rank: map<Cell, nat>, j: nat, i: nat)
    requires Inv(n, b, root, via, parent, rank) && j < |b.queue|
    requires |Candidates(n, b, j)| > 0 ==> i < |Candidates(n, b, j)|
    ensures |Candidates(n, b, j)| > 0
    ensures Committed(Grow(n, b, j, i).state) == Committed(b.state) + {b.queue[j]}
    ensures b.queue[j] !in Committed(b.state) && Inside(n, b.queue[j])
  {
    GrowFacts(n, b, root, via, j);
    GrowState(n, b, root, via, j, i);
  }

  /** When the queue is empty every cell is INSIDE: the open passages form a spanning
      tree of the n-by-n grid with n * n - 1 passages. */
  lemma Done(n: int, b: Build, root: Cell, via: map<Cell, Cell>,
             parent: map<Cell, Cell>, rank: map<Cell, nat>)
    requires Inv(n, b, root, via, parent, rank) && b.queue == []
    ensures Committed(b.state) == Cells(n)
    ensures RootedTree(n, b.open, Cells(n), root, parent, rank)
    ensures |b.open| == 2 * (n * n - 1)
  {
    var S := b.state;
    var T := Committed(S);
    forall c, d | c in T && IsDir(d) && Inside(n, Move(c, d))
      ensures Move(c, d) in T
    {
      var m := Move(c, d);
      assert m in S;
      assert S[m] != FRONTIER;
    }
    GridConnected(n, T, root);
    forall c | c in T
      ensures c in Cells(n)
    {
      InCells(n, c);
    }
    assert n >= 1;
    CellsCard(n);
    assert parent.Keys == Cells(n) - {root};
    assert |parent.Keys| == n * n - 1;
  }

  /** The Prim loop run to its end from build state b, the t-th draw with bound k being
      rand(t, k) % k.  The result is the final build state and draw count. */
  ghost function Run(n: int, b: Build, rand: (nat, nat) -> nat, t: nat): (Build, nat)
    decreases Cells(n) - Committed(b.state), 1
  {
    if |b.queue| == 0 then (b, t) else Iterate(n, b, rand, t)
  }

  /** One iteration of the run and the rest of it: draw the frontier index, then, when
      the drawn cell has INSIDE neighbours, the parent index, and grow.  An iteration
      that commits no new cell ends the run; under Inv none does (GrowProgress). */
  ghost function Iterate(n: int, b: Build, rand: (nat, nat) -> nat, t: nat): (Build, nat)
    requires |b.queue| > 0
    decreases Cells(n) - Committed(b.state), 0
  {
    var j := rand(t, |b.queue|) % |b.queue|;
    var adj := Candidates(n, b, j);
    var i := if |adj| > 0 then rand(t + 1, |adj|) % |adj| else 0;
    var t' := if |adj| > 0 then t + 2 else t + 1;
    var b' := Grow(n, b, j, i);
    if Cells(n) - Committed(b'.state) < Cells(n) - Committed(b.state) then Run(n, b', rand, t')
    else (b', t')
  }

  /** One iteration with the indices the random source draws leaves the outcome of
      the run unchanged. */
  lemma RunStep(n: int, b: Build, root: Cell, via: map<Cell, Cell>,
                parent: map<Cell, Cell>, rank: map<Cell, nat>,
                rand: (nat, nat) -> nat, t: nat, j: nat, i: nat, t': nat)
    requires Inv(n, b, root, via, parent, rank) && j < |b.queue|
    requires j == rand(t, |b.queue|) % |b.queue|
    requires var adj := Candidates(n, b, j);
      if |adj| > 0 then i == rand(t + 1, |adj|) % |adj| && t' == t + 2 else t' == t + 1
    ensures |Candidates(n, b, j)| > 0 && i < |Candidates(n, b, j)|
    ensures Run(n, b, rand, t) == Run(n, Grow(n, b, j, i), rand, t')
  {
    GrowProgress(n, b, root, via, parent, rank, j, i);
    InCells(n, b.queue[j]);
    assert Run(n, b, rand, t) == Iterate(n, b, rand, t);
  }

  /** Under the invariant the run ends with an empty queue, every cell INSIDE, and the
      open passages a spanning tree of the grid. */
  lemma {:induction false} RunDone(n: int, b: Build, root: Cell, via: map<Cell, Cell>,
                                   parent: map<Cell, Cell>, rank: map<Cell, nat>,
                                   rand: (nat, nat) -> nat, t: nat)
    requires Inv(n, b, root, via, parent, rank)
    ensures var (b', t') := Run(n, b, rand, t);
      b'.queue == [] && Committed(b'.state) == Cells(n) && SpanningTree(n, b'.open) && t <= t'
    decreases Cells(n) - Committed(b.state)
  {
    if |b.queue| == 0 {
      Done(n, b, root, via, parent, rank);
    } else {
      var b', via', parent', rank' := RunAdvance(n, b, root, via, parent, rank, rand, t);
      RunDone(n, b', root, via', parent', rank', rand, t + 2);
    }
  }

  /** One iteration of the run from a state with a non-empty queue: it draws twice, keeps
      the invariant and commits a new cell of the maze. */
  lemma RunAdvance(n: int, b: Build, root: Cell, via: map<Cell, Cell>,
                   parent: map<Cell, Cell>, rank: map<Cell, nat>,
                   rand: (nat, nat) -> nat, t: nat)
    returns (b': Build, via': map<Cell, Cell>, parent': map<Cell, Cell>, rank': map<Cell, nat>)
    requires Inv(n, b, root, via, parent, rank) && |b.queue| > 0
    ensures Inv(n, b', root, via', parent', rank')
    ensures Run(n, b, rand, t) == Run(n, b', rand, t + 2)
    ensures Cells(n) - Committed(b'.state) < Cells(n) - Committed(b.state)
  {
    var j := rand(t, |b.queue|) % |b.queue|;
    var adj := Candidates(n, b, j);
    GrowFacts(n, b, root, via, j);
    var i := rand(t + 1, |adj|) % |adj|;
    RunStep(n, b, root, via, parent, rank, rand, t, j, i, t + 2);
    GrowProgress(n, b, root, via, parent, rank, j, i);
    InCells(n, b.queue[j]);
    b' := Grow(n, b, j, i);
    via', parent', rank' := GrowKeepsInv(n, b, root, via, parent, rank, j, i);
  }

  /** Whatever the random source draws, randomized Prim from an in-bounds cell commits
      every cell and leaves a spanning tree of the grid open. */
  lemma RunSpans(n: int, root: Cell, rand: (nat, nat) -> nat, t: nat)
    requires Inside(n, root)
    ensures var (b', t') := Run(n, Start(n, root), rand, t);
      b'.queue == [] && Committed(b'.state) == Cells(n) && SpanningTree(n, b'.open) && t <= t'
  {
    var via, parent, rank := StartInv(n, root);
    RunDone(n, Start(n, root), root, via, parent, rank, rand, t);
  }

  /** Marking one more cell extends the marked map by that cell. */
  lemma MarkSnoc(S: map<Cell, int>, cs: seq<Cell>, m: Cell, v: int)
    requires m in S
    ensures Mark(S, cs + [m], v) == Mark(S, cs, v)[m := v]
  {
  }

  /** Filtering a sequence extended by one cell filters the prefix and tests that cell. */
  lemma WithStateSnoc(S: map<Cell, int>, cs: seq<Cell>, m: Cell, v: int)
    ensures WithState(S, cs + [m], v) ==
      if m in S && S[m] == v then WithState(S, cs, v) + [m] else WithState(S, cs, v)
  {
    assert (cs + [m])[..|cs|] == cs;
  }

  /** One more direction of the neighbour scan: the filtered neighbours grow by the
      neighbour in direction i exactly when it is in bounds and in state v. */
  lemma NbrsStep(n: int, S: map<Cell, int>, c: Cell, i: nat, v: int)
    requires i < 4
    ensures var m := Move(c, i);
      WithState(S, Nbrs(n, c, i + 1), v) ==
        if Inside(n, m) && m in S && S[m] == v then WithState(S, Nbrs(n, c, i), v) + [m]
        else WithState(S, Nbrs(n, c, i), v)
  {
    var m := Move(c, i);
    if Inside(n, m) {
      assert Nbrs(n, c, i + 1) == Nbrs(n, c, i) + [m];
      WithStateSnoc(S, Nbrs(n, c, i), m, v);
    }
  }

  /** The arrays after the set-up loop of Prim: the start cell INSIDE and its in-bounds
      neighbours FRONTIER on an all-OUTSIDE maze give the state Start describes. */
  lemma StartMarked(n: int, G: map<Cell, int>, root: Cell)
    requires Covers(n, G) && (forall c | c in G :: G[c] == OUTSIDE) && Inside(n, root)
    ensures Mark(G[root := INSIDE], Nbrs(n, root, 4), FRONTIER) == Start(n, root).state
    ensures Start(n, root).queue == Nbrs(n, root, 4)
  {
    var M, T := Mark(G[root := INSIDE], Nbrs(n, root, 4), FRONTIER), Start(n, root).state;
    StartForm(n, root);
    assert root !in Nbrs(n, root, 4) by {
      if root in Nbrs(n, root, 4) {
        AdjacentSymmetric(root, root);
      }
    }
    forall c
      ensures c in M <==> c in T
    {
      InCells(n, c);
    }
    assert M.Keys == T.Keys;
  }
}
