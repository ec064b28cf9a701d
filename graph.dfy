// The maze as a graph: open passages as a set of half-edges, walks over open
// passages, distance, and the rooted-tree certificate a spanning tree carries.
module Graph {
  import opened Grid

  function Source(h: HalfEdge): Cell { (h.0, h.1) }

  function Target(h: HalfEdge): Cell
    requires IsDir(h.2)
  {
    Move((h.0, h.1), h.2)
  }

  /** The passage from a to b is open: both in bounds, adjacent, and the half-edge
      leaving a towards b is recorded in E (the source's avail[a, GetDir(a, b)]). */
  predicate Open(n: int, E: set<HalfEdge>, a: Cell, b: Cell) {
    Inside(n, a) && Inside(n, b) && Adjacent(a, b) && (a.0, a.1, DirTo(a, b)) in E
  }

  /** Every half-edge joins two in-bounds cells. */
  ghost predicate WellFormed(n: int, E: set<HalfEdge>) {
    forall h | h in E :: IsDir(h.2) && Inside(n, Source(h)) && Inside(n, Target(h))
  }

  /** Every recorded half-edge is in bounds and the passage is open in both directions. */
  ghost predicate Symmetric(n: int, E: set<HalfEdge>) {
    WellFormed(n, E) &&
    forall a, b {:trigger Open(n, E, a, b)} | Open(n, E, a, b) :: Open(n, E, b, a)
  }

  lemma OpenOfHalfEdge(n: int, E: set<HalfEdge>, c: Cell, d: int)
    requires IsDir(d) && Inside(n, c) && Inside(n, Move(c, d))
    ensures Open(n, E, c, Move(c, d)) <==> (c.0, c.1, d) in E
  {
    GetDirOfMove(c, d);
  }

  /** The half-edge h, read as a passage between its two cells. */
  lemma OpenOfMember(n: int, E: set<HalfEdge>, h: HalfEdge)
    requires WellFormed(n, E) && h in E
    ensures Open(n, E, Source(h), Target(h))
  {
    assert h == (Source(h).0, Source(h).1, h.2);
    OpenOfHalfEdge(n, E, Source(h), h.2);
  }

  /** w is a walk: a non-empty sequence of in-bounds cells, each step through an open passage. */
  ghost predicate IsWalk(n: int, E: set<HalfEdge>, w: seq<Cell>) {
    |w| >= 1 && Inside(n, w[0]) &&
    forall i {:trigger w[i], w[i + 1]} | 0 <= i < |w| - 1 :: Open(n, E, w[i], w[i + 1])
  }

  /** The last step of a walk of two or more cells is open. */
  lemma LastStep(n: int, E: set<HalfEdge>, w: seq<Cell>)
    requires IsWalk(n, E, w) && |w| > 1
    ensures Open(n, E, w[|w| - 2], w[|w| - 1])
  {
    var i := |w| - 2;
    assert Open(n, E, w[i], w[i + 1]);
  }

  ghost predicate WalkFrom(n: int, E: set<HalfEdge>, w: seq<Cell>, a: Cell, b: Cell) {
    IsWalk(n, E, w) && w[0] == a && w[|w| - 1] == b
  }

  /** The fewest steps from a to b over open passages is k. */
  ghost predicate IsDistance(n: int, E: set<HalfEdge>, a: Cell, b: Cell, k: int) {
    (exists w :: WalkFrom(n, E, w, a, b) && |w| == k + 1) &&
    (forall w :: WalkFrom(n, E, w, a, b) ==> |w| >= k + 1)
  }

  /** Distances are unique. */
  lemma DistanceUnique(n: int, E: set<HalfEdge>, a: Cell, b: Cell, k: int, k': int)
    requires IsDistance(n, E, a, b, k) && IsDistance(n, E, a, b, k')
    ensures k == k'
  {
    var w :| WalkFrom(n, E, w, a, b) && |w| == k + 1;
    var w' :| WalkFrom(n, E, w', a, b) && |w'| == k' + 1;
    assert |w'| >= k + 1 && |w| >= k' + 1;
  }

  /** a and b are joined by the passage recorded for the child of the pair. */
  ghost predicate ParentEdge(parent: map<Cell, Cell>, a: Cell, b: Cell) {
    (a in parent && parent[a] == b) || (b in parent && parent[b] == a)
  }

  /** The open passages over `cells` form a tree rooted at root: every other cell has a
      parent of smaller rank joined to it by an open passage (both half-edges
      recorded), and every recorded half-edge is such a parent passage. */
  ghost predicate RootedTree(n: int, E: set<HalfEdge>, cells: set<Cell>, root: Cell,
                             parent: map<Cell, Cell>, rank: map<Cell, nat>) {
    root in cells &&
    (forall c | c in cells :: Inside(n, c)) &&
    parent.Keys == cells - {root} &&
    rank.Keys == cells &&
    (forall c | c in parent ::
       parent[c] in cells && Adjacent(c, parent[c]) && rank[parent[c]] < rank[c] &&
       Open(n, E, c, parent[c]) && Open(n, E, parent[c], c)) &&
    WellFormed(n, E) &&
    (forall a, b {:trigger ParentEdge(parent, a, b)} | Open(n, E, a, b) :: ParentEdge(parent, a, b))
  }

  /** A rooted tree's passages are symmetric. */
  lemma TreeSymmetric(n: int, E: set<HalfEdge>, cells: set<Cell>, root: Cell,
                      parent: map<Cell, Cell>, rank: map<Cell, nat>)
    requires RootedTree(n, E, cells, root, parent, rank)
    ensures Symmetric(n, E)
  {
    forall a, b | Open(n, E, a, b)
      ensures Open(n, E, b, a)
    {
      assert ParentEdge(parent, a, b);
    }
  }

  /** Both ends of an open passage of a rooted tree are tree cells joined as parent and child. */
  lemma OpenInTree(n: int, E: set<HalfEdge>, cells: set<Cell>, root: Cell,
                   parent: map<Cell, Cell>, rank: map<Cell, nat>, a: Cell, b: Cell)
    requires RootedTree(n, E, cells, root, parent, rank) && Open(n, E, a, b)
    ensures ParentEdge(parent, a, b) && a in cells && b in cells
  {
    assert ParentEdge(parent, a, b);
  }

  /** The walk from c up the parent chain to the root. */
  lemma {:induction false} WalkToRoot(n: int, E: set<HalfEdge>, cells: set<Cell>, root: Cell,
                                      parent: map<Cell, Cell>, rank: map<Cell, nat>, c: Cell)
    returns (w: seq<Cell>)
    requires RootedTree(n, E, cells, root, parent, rank) && c in cells
    ensures WalkFrom(n, E, w, c, root)
    decreases rank[c]
  {
    if c == root {
      w := [c];
    } else {
      var p := parent[c];
      var rest := WalkToRoot(n, E, cells, root, parent, rank, p);
      w := [c] + rest;
      assert Open(n, E, c, p);
      forall i | 0 <= i < |w| - 1
        ensures Open(n, E, w[i], w[i + 1])
      {
        if i > 0 {
          var j := i - 1;
          assert w[i] == rest[j] && w[i + 1] == rest[j + 1];
        }
      }
    }
  }

  /** Reversing a walk over symmetric passages gives a walk. */
  lemma ReverseWalk(n: int, E: set<HalfEdge>, w: seq<Cell>, a: Cell, b: Cell)
    returns (r: seq<Cell>)
    requires Symmetric(n, E) && WalkFrom(n, E, w, a, b)
    ensures WalkFrom(n, E, r, b, a) && |r| == |w|
  {
    r := seq(|w|, i requires 0 <= i < |w| => w[|w| - 1 - i]);
    if |w| > 1 {
      LastStep(n, E, w);
    }
    forall i | 0 <= i < |r| - 1
      ensures Open(n, E, r[i], r[i + 1])
    {
      var k := |w| - 2 - i;
      assert Open(n, E, w[k], w[k + 1]);
      assert r[i] == w[k + 1] && r[i + 1] == w[k];
    }
  }

  /** Walks a..b and b..c join into a walk a..c. */
  lemma JoinWalks(n: int, E: set<HalfEdge>, w1: seq<Cell>, w2: seq<Cell>, a: Cell, b: Cell, c: Cell)
    returns (w: seq<Cell>)
    requires WalkFrom(n, E, w1, a, b) && WalkFrom(n, E, w2, b, c)
    ensures WalkFrom(n, E, w, a, c) && |w| == |w1| + |w2| - 1
  {
    w := w1 + w2[1..];
    forall i | 0 <= i < |w| - 1
      ensures Open(n, E, w[i], w[i + 1])
    {
      if i < |w1| - 1 {
        assert w[i] == w1[i] && w[i + 1] == w1[i + 1];
      } else {
        var k := i - (|w1| - 1);
        assert w[i] == w2[k] && w[i + 1] == w2[k + 1];
      }
    }
  }

  /** A rooted tree is connected: any two of its cells are joined by a walk. */
  lemma TreeConnected(n: int, E: set<HalfEdge>, cells: set<Cell>, root: Cell,
                      parent: map<Cell, Cell>, rank: map<Cell, nat>, a: Cell, b: Cell)
    requires RootedTree(n, E, cells, root, parent, rank) && a in cells && b in cells
    ensures exists w :: WalkFrom(n, E, w, a, b)
  {
    TreeSymmetric(n, E, cells, root, parent, rank);
    var wa := WalkToRoot(n, E, cells, root, parent, rank, a);
    var wb := WalkToRoot(n, E, cells, root, parent, rank, b);
    var rb := ReverseWalk(n, E, wb, b, root);
    var w := JoinWalks(n, E, wa, rb, a, root, b);
  }

  /** A set of cells that, with every cell, holds every cell an open passage leads to. */
  ghost predicate OpenClosed(n: int, E: set<HalfEdge>, s: set<Cell>) {
    forall c, d | c in s && IsDir(d) && Open(n, E, c, Move(c, d)) :: Move(c, d) in s
  }

  lemma {:induction false} ClosedHoldsRoot(n: int, E: set<HalfEdge>, cells: set<Cell>, root: Cell,
                                           parent: map<Cell, Cell>, rank: map<Cell, nat>,
                                           s: set<Cell>, c: Cell)
    requires RootedTree(n, E, cells, root, parent, rank) && OpenClosed(n, E, s)
    requires c in s && c in cells
    ensures root in s
    decreases rank[c]
  {
    if c != root {
      var p := parent[c];
      MoveOfGetDir(c, p);
      assert Open(n, E, c, Move(c, DirTo(c, p)));
      ClosedHoldsRoot(n, E, cells, root, parent, rank, s, p);
    }
  }

  lemma {:induction false} ClosedHoldsCell(n: int, E: set<HalfEdge>, cells: set<Cell>, root: Cell,
                                           parent: map<Cell, Cell>, rank: map<Cell, nat>,
                                           s: set<Cell>, c: Cell)
    requires RootedTree(n, E, cells, root, parent, rank) && OpenClosed(n, E, s)
    requires root in s && c in cells
    ensures c in s
    decreases rank[c]
  {
    if c != root {
      var p := parent[c];
      ClosedHoldsCell(n, E, cells, root, parent, rank, s, p);
      MoveOfGetDir(p, c);
      assert Open(n, E, p, Move(p, DirTo(p, c)));
    }
  }

  /** A set closed under open passages that meets a rooted tree holds the whole tree. */
  lemma TreeClosedSet(n: int, E: set<HalfEdge>, cells: set<Cell>, root: Cell,
                      parent: map<Cell, Cell>, rank: map<Cell, nat>, s: set<Cell>, c: Cell)
    requires RootedTree(n, E, cells, root, parent, rank) && OpenClosed(n, E, s)
    requires c in s && c in cells
    ensures cells <= s
  {
    ClosedHoldsRoot(n, E, cells, root, parent, rank, s, c);
    forall e | e in cells
      ensures e in s
    {
      ClosedHoldsCell(n, E, cells, root, parent, rank, s, e);
    }
  }

  /** The index after i in a cyclic sequence of length k. */
  function Succ(i: nat, k: nat): nat {
    if i + 1 >= k then 0 else i + 1
  }

  /** w is a cycle: at least three distinct cells, each joined to the next and the last to the first. */
  ghost predicate IsCycle(n: int, E: set<HalfEdge>, w: seq<Cell>) {
    |w| >= 3 &&
    (forall i, j | 0 <= i < j < |w| :: w[i] != w[j]) &&
    (forall i {:trigger w[i]} | 0 <= i < |w| :: Open(n, E, w[i], w[Succ(i, |w|)]))
  }

  /** An index of w whose cell has the largest rank. */
  ghost function MaxRankAt(w: seq<Cell>, rank: map<Cell, nat>): (m: nat)
    requires |w| >= 1 && forall i | 0 <= i < |w| :: w[i] in rank
    ensures m < |w| && forall i | 0 <= i < |w| :: rank[w[i]] <= rank[w[m]]
  {
    if |w| == 1 then 0
    else
      var m := MaxRankAt(w[..|w| - 1], rank);
      assert forall i | 0 <= i < |w| - 1 :: w[..|w| - 1][i] == w[i];
      if rank[w[|w| - 1]] > rank[w[m]] then |w| - 1 else m
  }

  /** A rooted tree has no cycle: the top-ranked cell of a cycle would need both of
      its two cycle neighbours as its parent. */
  lemma TreeAcyclic(n: int, E: set<HalfEdge>, cells: set<Cell>, root: Cell,
                    parent: map<Cell, Cell>, rank: map<Cell, nat>, w: seq<Cell>)
    requires RootedTree(n, E, cells, root, parent, rank)
    ensures !IsCycle(n, E, w)
  {
    if IsCycle(n, E, w) {
      var k := |w|;
      forall i | 0 <= i < k
        ensures w[i] in rank
      {
        OpenInTree(n, E, cells, root, parent, rank, w[i], w[Succ(i, k)]);
      }
      var m := MaxRankAt(w, rank);
      var next := if m + 1 == k then 0 else m + 1;
      var prev := if m == 0 then k - 1 else m - 1;
      assert Succ(m, k) == next && Succ(prev, k) == m;
      OpenInTree(n, E, cells, root, parent, rank, w[m], w[next]);
      OpenInTree(n, E, cells, root, parent, rank, w[prev], w[m]);
      assert false;
    }
  }

  /** The two half-edges of the passage between c and p. */
  function Passage(c: Cell, p: Cell): set<HalfEdge> {
    {(c.0, c.1, DirTo(c, p)), (p.0, p.1, DirTo(p, c))}
  }

  /** Opening the passage to an adjacent in-bounds cell keeps every half-edge in bounds. */
  lemma ExtendWellFormed(n: int, E: set<HalfEdge>, c: Cell, p: Cell)
    requires WellFormed(n, E) && Inside(n, c) && Inside(n, p) && Adjacent(c, p)
    ensures WellFormed(n, E + Passage(c, p))
    ensures Open(n, E + Passage(c, p), c, p) && Open(n, E + Passage(c, p), p, c)
  {
    MoveOfGetDir(c, p);
    MoveOfGetDir(p, c);
    AdjacentSymmetric(c, p);
  }

  /** In a rooted tree, no half-edge leaves a cell outside the tree. */
  lemma NoEdgeFrom(n: int, E: set<HalfEdge>, cells: set<Cell>, root: Cell,
                   parent: map<Cell, Cell>, rank: map<Cell, nat>, c: Cell, d: int)
    requires RootedTree(n, E, cells, root, parent, rank) && c !in cells && IsDir(d)
    ensures (c.0, c.1, d) !in E
  {
    if (c.0, c.1, d) in E {
      OpenOfMember(n, E, (c.0, c.1, d));
      OpenInTree(n, E, cells, root, parent, rank, c, Target((c.0, c.1, d)));
      assert false;
    }
  }

  /** In a rooted tree, no half-edge enters a cell outside the tree. */
  lemma NoEdgeInto(n: int, E: set<HalfEdge>, cells: set<Cell>, root: Cell,
                   parent: map<Cell, Cell>, rank: map<Cell, nat>, c: Cell, p: Cell)
    requires RootedTree(n, E, cells, root, parent, rank) && c !in cells && Adjacent(p, c)
    ensures (p.0, p.1, DirTo(p, c)) !in E
  {
    var h := (p.0, p.1, DirTo(p, c));
    if h in E {
      OpenOfMember(n, E, h);
      MoveOfGetDir(p, c);
      OpenInTree(n, E, cells, root, parent, rank, p, c);
      assert false;
    }
  }

  /** Every open passage after the extension is a parent link of the extended tree. */
  lemma ExtendParentEdges(n: int, E: set<HalfEdge>, cells: set<Cell>, root: Cell,
                          parent: map<Cell, Cell>, rank: map<Cell, nat>, c: Cell, p: Cell)
    requires RootedTree(n, E, cells, root, parent, rank)
    requires c !in cells && Adjacent(c, p)
    ensures forall a, b {:trigger ParentEdge(parent[c := p], a, b)} |
      Open(n, E + Passage(c, p), a, b) :: ParentEdge(parent[c := p], a, b)
  {
    var E' := E + Passage(c, p);
    forall a, b | Open(n, E', a, b)
      ensures ParentEdge(parent[c := p], a, b)
    {
      var h := (a.0, a.1, DirTo(a, b));
      if h == (c.0, c.1, DirTo(c, p)) {
        MoveOfGetDir(a, b);
        MoveOfGetDir(c, p);
      } else if h == (p.0, p.1, DirTo(p, c)) {
        MoveOfGetDir(a, b);
        MoveOfGetDir(p, c);
      } else {
        assert Open(n, E, a, b);
        OpenInTree(n, E, cells, root, parent, rank, a, b);
      }
    }
  }

  /** The parent links of the extended tree are open passages that descend in rank. */
  lemma ExtendLinks(n: int, E: set<HalfEdge>, cells: set<Cell>, root: Cell,
                    parent: map<Cell, Cell>, rank: map<Cell, nat>, c: Cell, p: Cell)
    requires RootedTree(n, E, cells, root, parent, rank)
    requires forall x | x in rank :: rank[x] < |rank|
    requires c !in cells && Inside(n, c) && p in cells && Adjacent(c, p)
    ensures var E', parent', rank' := E + Passage(c, p), parent[c := p], rank[c := |rank|];
      forall x | x in parent' ::
        parent'[x] in cells + {c} && Adjacent(x, parent'[x]) && rank'[parent'[x]] < rank'[x] &&
        Open(n, E', x, parent'[x]) && Open(n, E', parent'[x], x)
  {
    ExtendWellFormed(n, E, c, p);
    assert c !in rank && c !in parent;
  }

  /** Joining a new cell to a rooted tree adds two half-edges. */
  lemma ExtendCard(n: int, E: set<HalfEdge>, cells: set<Cell>, root: Cell,
                   parent: map<Cell, Cell>, rank: map<Cell, nat>, c: Cell, p: Cell)
    requires RootedTree(n, E, cells, root, parent, rank)
    requires c !in cells && Adjacent(c, p)
    ensures |E + Passage(c, p)| == |E| + 2
  {
    NoEdgeFrom(n, E, cells, root, parent, rank, c, DirTo(c, p));
    AdjacentSymmetric(c, p);
    NoEdgeInto(n, E, cells, root, parent, rank, c, p);
    assert (c.0, c.1, DirTo(c, p)) != (p.0, p.1, DirTo(p, c));
  }

  /** A rooted tree grows by a new cell c hung below an adjacent tree cell p: the passage
      between them is new, and the extended certificate gives c the next rank. */
  lemma TreeExtend(n: int, E: set<HalfEdge>, cells: set<Cell>, root: Cell,
                   parent: map<Cell, Cell>, rank: map<Cell, nat>, c: Cell, p: Cell)
    returns (parent': map<Cell, Cell>, rank': map<Cell, nat>)
    requires RootedTree(n, E, cells, root, parent, rank)
    requires forall x | x in rank :: rank[x] < |rank|
    requires c !in cells && Inside(n, c) && p in cells && Adjacent(c, p)
    ensures parent' == parent[c := p] && rank' == rank[c := |rank|]
    ensures RootedTree(n, E + Passage(c, p), cells + {c}, root, parent', rank')
    ensures forall x | x in rank' :: rank'[x] < |rank'|
    ensures |E + Passage(c, p)| == |E| + 2
    ensures |rank'| == |rank| + 1 && |parent'| == |parent| + 1
  {
    ExtendWellFormed(n, E, c, p);
    ExtendParentEdges(n, E, cells, root, parent, rank, c, p);
    ExtendLinks(n, E, cells, root, parent, rank, c, p);
    ExtendCard(n, E, cells, root, parent, rank, c, p);
    ExtendKeys(n, E, cells, root, parent, rank, c, p);
    parent', rank' := parent[c := p], rank[c := |rank|];
  }

  /** Adding c below p extends the certificate's domains by c, and the new rank |rank|
      keeps every rank below the number of ranked cells. */
  lemma ExtendKeys(n: int, E: set<HalfEdge>, cells: set<Cell>, root: Cell,
                   parent: map<Cell, Cell>, rank: map<Cell, nat>, c: Cell, p: Cell)
    requires RootedTree(n, E, cells, root, parent, rank)
    requires forall x | x in rank :: rank[x] < |rank|
    requires c !in cells && Inside(n, c)
    ensures var parent', rank' := parent[c := p], rank[c := |rank|];
      root in cells + {c} && (forall x | x in cells + {c} :: Inside(n, x)) &&
      parent'.Keys == (cells + {c}) - {root} && rank'.Keys == cells + {c} &&
      (forall x | x in rank' :: rank'[x] < |rank'|) &&
      |rank'| == |rank| + 1 && |parent'| == |parent| + 1
  {
    assert c !in rank && c !in parent;
  }

  /** The open passages form a spanning tree of the n-by-n grid: n * n - 1 passages
      (two half-edges each) that a rooted-tree certificate covers. */
  ghost predicate SpanningTree(n: int, E: set<HalfEdge>) {
    |E| == 2 * (n * n - 1) &&
    exists root, parent, rank :: RootedTree(n, E, Cells(n), root, parent, rank)
  }

  /** A spanning tree is a perfect maze: passages are open both ways, any two cells are
      joined by a walk, and no walk is a cycle. */
  lemma PerfectMaze(n: int, E: set<HalfEdge>)
    requires SpanningTree(n, E)
    ensures Symmetric(n, E)
    ensures forall a, b | Inside(n, a) && Inside(n, b) :: exists w :: WalkFrom(n, E, w, a, b)
    ensures forall w :: !IsCycle(n, E, w)
  {
    var root, parent, rank :| RootedTree(n, E, Cells(n), root, parent, rank);
    TreeSymmetric(n, E, Cells(n), root, parent, rank);
    forall a, b | Inside(n, a) && Inside(n, b)
      ensures exists w :: WalkFrom(n, E, w, a, b)
    {
      InCells(n, a);
      InCells(n, b);
      TreeConnected(n, E, Cells(n), root, parent, rank, a, b);
    }
    forall w
      ensures !IsCycle(n, E, w)
    {
      TreeAcyclic(n, E, Cells(n), root, parent, rank, w);
    }
  }
}
