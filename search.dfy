// The depth-first labelling of Maze.Dfs (Assets/Scripts/Maze.cs:249-257) as a relation
// between the labels before and after a call, and what that relation gives on a tree:
// every label is one more than the distance from the start cell.
module Search {
  import opened Grid
  import opened Graph

  /** The cells a call labelled: unlabelled (0) before, labelled after. */
  ghost function Fresh(L0: map<Cell, int>, L: map<Cell, int>): set<Cell> {
    set c | c in L0 && L0[c] == 0 && c in L && L[c] != 0
  }

  /** The labels of Dfs(r, depth): r gets depth, cells labelled before keep their label,
      and every newly labelled cell gets at least depth. */
  ghost predicate LabelsOk(n: int, L0: map<Cell, int>, L: map<Cell, int>, r: Cell, depth: int) {
    L.Keys == L0.Keys && Inside(n, r) &&
    r in L0 && L0[r] == 0 && depth >= 1 && L[r] == depth &&
    (forall c | c in L0 && L0[c] != 0 :: L[c] == L0[c]) &&
    (forall c | c in Fresh(L0, L) :: L[c] >= depth)
  }

  /** The calls made form a tree over the newly labelled cells: each one other than r
      was entered from dp[c] through an open passage, one level deeper.  T holds both
      half-edges of every such step. */
  ghost predicate LinksOk(n: int, E: set<HalfEdge>, L0: map<Cell, int>, L: map<Cell, int>,
                          r: Cell, dp: map<Cell, Cell>, T: set<HalfEdge>) {
    dp.Keys == Fresh(L0, L) - {r} &&
    (forall c | c in dp :: dp[c] in Fresh(L0, L) && Open(n, E, dp[c], c) && L[c] == L[dp[c]] + 1) &&
    (forall h | h in T ::
       IsDir(h.2) && Source(h) in Fresh(L0, L) && Target(h) in Fresh(L0, L) &&
       ParentEdge(dp, Source(h), Target(h))) &&
    |T| == 2 * |dp|
  }

  /** No open passage leads from a newly labelled cell to an unlabelled one; for r
      itself, this holds for the directions below k already scanned. */
  ghost predicate ClosedOk(n: int, E: set<HalfEdge>, L0: map<Cell, int>, L: map<Cell, int>,
                           r: Cell, k: int) {
    (forall c, d | c in Fresh(L0, L) && c != r && IsDir(d) && Open(n, E, c, Move(c, d)) ::
       Move(c, d) in L && L[Move(c, d)] != 0) &&
    (forall d | IsDir(d) && d < k && Open(n, E, r, Move(r, d)) ::
       Move(r, d) in L && L[Move(r, d)] != 0)
  }

  /** The state of Dfs(r, depth) after its loop has scanned the directions below k. */
  ghost predicate DfsPartial(n: int, E: set<HalfEdge>, L0: map<Cell, int>, L: map<Cell, int>,
                             r: Cell, depth: int, dp: map<Cell, Cell>, T: set<HalfEdge>, k: int) {
    LabelsOk(n, L0, L, r, depth) && LinksOk(n, E, L0, L, r, dp, T) && ClosedOk(n, E, L0, L, r, k)
  }

  /** What Dfs(r, depth) leaves behind, certified by its call tree dp and T. */
  ghost predicate DfsOutcome(n: int, E: set<HalfEdge>, L0: map<Cell, int>, L: map<Cell, int>,
                             r: Cell, depth: int, dp: map<Cell, Cell>, T: set<HalfEdge>) {
    DfsPartial(n, E, L0, L, r, depth, dp, T, 4)
  }

  /** Labelling r is the state before the loop. */
  lemma DfsBegin(n: int, E: set<HalfEdge>, L0: map<Cell, int>, r: Cell, depth: int)
    requires Inside(n, r) && r in L0 && L0[r] == 0 && depth >= 1
    ensures DfsPartial(n, E, L0, L0[r := depth], r, depth, map[], {}, 0)
  {
    assert Fresh(L0, L0[r := depth]) == {r};
  }

  /** A direction whose neighbour is not entered: it is closed, or already labelled. */
  lemma DfsSkip(n: int, E: set<HalfEdge>, L0: map<Cell, int>, L: map<Cell, int>,
                r: Cell, depth: int, dp: map<Cell, Cell>, T: set<HalfEdge>, k: int)
    requires DfsPartial(n, E, L0, L, r, depth, dp, T, k) && IsDir(k)
    requires Open(n, E, r, Move(r, k)) ==> Move(r, k) in L && L[Move(r, k)] != 0
    ensures DfsPartial(n, E, L0, L, r, depth, dp, T, k + 1)
  {
  }

  /** A child call from a newly labelled cell labels only cells that were unlabelled. */
  lemma ChildFresh(n: int, L0: map<Cell, int>, L: map<Cell, int>, L': map<Cell, int>,
                   r: Cell, depth: int, u: Cell)
    requires LabelsOk(n, L0, L, r, depth) && LabelsOk(n, L, L', u, depth + 1)
    ensures Fresh(L0, L') == Fresh(L0, L) + Fresh(L, L')
    ensures Fresh(L0, L) !! Fresh(L, L')
    ensures u in Fresh(L, L') && r in Fresh(L0, L) && r !in Fresh(L, L')
    ensures forall c | c in Fresh(L0, L) :: L'[c] == L[c]
  {
    forall c | c in Fresh(L0, L)
      ensures L'[c] == L[c]
    {
    }
  }

  lemma ChildLabels(n: int, E: set<HalfEdge>, L0: map<Cell, int>, L: map<Cell, int>, L': map<Cell, int>,
                    r: Cell, depth: int, u: Cell)
    requires LabelsOk(n, L0, L, r, depth) && LabelsOk(n, L, L', u, depth + 1)
    ensures LabelsOk(n, L0, L', r, depth)
  {
    ChildFresh(n, L0, L, L', r, depth, u);
  }

  /** Joining two call trees with disjoint domains under a new link at u. */
  lemma JoinLinksCard(dp: map<Cell, Cell>, dp2: map<Cell, Cell>, u: Cell, r: Cell)
    requires dp.Keys !! dp2.Keys && u !in dp && u !in dp2
    ensures |dp + dp2 + map[u := r]| == |dp| + |dp2| + 1
  {
    var dp' := dp + dp2 + map[u := r];
    assert dp'.Keys == dp.Keys + dp2.Keys + {u};
    assert |dp'.Keys| == |dp.Keys| + |dp2.Keys| + 1;
  }

  /** Half-edges leaving two disjoint sets of cells are distinct. */
  lemma DisjointSources(T: set<HalfEdge>, T2: set<HalfEdge>, F1: set<Cell>, F2: set<Cell>)
    requires F1 !! F2
    requires forall h | h in T :: Source(h) in F1
    requires forall h | h in T2 :: Source(h) in F2
    ensures T !! T2
  {
    forall h | h in T
      ensures h !in T2
    {
      assert Source(h) in F1;
    }
  }

  /** The two half-edges of the new link u-r are new: each joins a cell of the child's
      call tree to a cell outside it. */
  lemma NewPassage(T: set<HalfEdge>, T2: set<HalfEdge>, F1: set<Cell>, F2: set<Cell>, u: Cell, r: Cell)
    requires F1 !! F2 && u in F2 && u !in F1 && r in F1 && r !in F2 && Adjacent(u, r)
    requires forall h | h in T :: Source(h) in F1 && IsDir(h.2) && Target(h) in F1
    requires forall h | h in T2 :: Source(h) in F2 && IsDir(h.2) && Target(h) in F2
    ensures |T + T2 + Passage(u, r)| == |T| + |T2| + 2
  {
    DisjointSources(T, T2, F1, F2);
    MoveOfGetDir(u, r);
    MoveOfGetDir(r, u);
    var h1, h2 := (u.0, u.1, DirTo(u, r)), (r.0, r.1, DirTo(r, u));
    assert Source(h1) == u && Target(h1) == r;
    assert h1 !in T && h1 !in T2;
    assert Source(h2) == r && Target(h2) == u;
    assert h2 !in T && h2 !in T2;
    assert h1 != h2;
    assert Passage(u, r) !! (T + T2);
  }

  /** The joined call tree is defined on the newly labelled cells other than r. */
  lemma ChildDpKeys(F1: set<Cell>, F2: set<Cell>, r: Cell, dp: map<Cell, Cell>, dp2: map<Cell, Cell>, u: Cell)
    requires F1 !! F2 && r in F1 && u in F2
    requires dp.Keys == F1 - {r} && dp2.Keys == F2 - {u}
    ensures (dp + dp2 + map[u := r]).Keys == (F1 + F2) - {r}
  {
  }

  /** Every link of the joined call tree steps one level down an open passage. */
  lemma ChildDp(n: int, E: set<HalfEdge>, L0: map<Cell, int>, L: map<Cell, int>, L': map<Cell, int>,
                r: Cell, depth: int, dp: map<Cell, Cell>, dp2: map<Cell, Cell>, u: Cell)
    requires LabelsOk(n, L0, L, r, depth) && LabelsOk(n, L, L', u, depth + 1)
    requires Open(n, E, r, u) && dp.Keys == Fresh(L0, L) - {r} && dp2.Keys == Fresh(L, L') - {u}
    requires forall c | c in dp :: dp[c] in Fresh(L0, L) && Open(n, E, dp[c], c) && L[c] == L[dp[c]] + 1
    requires forall c | c in dp2 :: dp2[c] in Fresh(L, L') && Open(n, E, dp2[c], c) && L'[c] == L'[dp2[c]] + 1
    ensures var dp' := dp + dp2 + map[u := r];
      forall c | c in dp' ::
        dp'[c] in Fresh(L0, L') && Open(n, E, dp'[c], c) && L'[c] == L'[dp'[c]] + 1
  {
    ChildFresh(n, L0, L, L', r, depth, u);
    var F1 := Fresh(L0, L);
    var dp' := dp + dp2 + map[u := r];
    forall c | c in dp'
      ensures dp'[c] in Fresh(L0, L') && Open(n, E, dp'[c], c) && L'[c] == L'[dp'[c]] + 1
    {
      if c == u {
      } else if c in dp2 {
      } else {
        assert c in dp && c in F1 && dp[c] in F1;
      }
    }
  }

  /** Every half-edge of the joined call tree is a link of it. */
  lemma ChildHalfEdges(n: int, L0: map<Cell, int>, L: map<Cell, int>, L': map<Cell, int>,
                       r: Cell, depth: int, dp: map<Cell, Cell>, T: set<HalfEdge>,
                       dp2: map<Cell, Cell>, T2: set<HalfEdge>, u: Cell)
    requires LabelsOk(n, L0, L, r, depth) && LabelsOk(n, L, L', u, depth + 1) && Adjacent(u, r)
    requires dp.Keys == Fresh(L0, L) - {r} && dp2.Keys == Fresh(L, L') - {u}
    requires forall h | h in T ::
       IsDir(h.2) && Source(h) in Fresh(L0, L) && Target(h) in Fresh(L0, L) &&
       ParentEdge(dp, Source(h), Target(h))
    requires forall h | h in T2 ::
       IsDir(h.2) && Source(h) in Fresh(L, L') && Target(h) in Fresh(L, L') &&
       ParentEdge(dp2, Source(h), Target(h))
    ensures forall h | h in T + T2 + Passage(u, r) ::
       IsDir(h.2) && Source(h) in Fresh(L0, L') && Target(h) in Fresh(L0, L') &&
       ParentEdge(dp + dp2 + map[u := r], Source(h), Target(h))
  {
    ChildFresh(n, L0, L, L', r, depth, u);
    var F1 := Fresh(L0, L);
    var dp' := dp + dp2 + map[u := r];
    MoveOfGetDir(u, r);
    MoveOfGetDir(r, u);
    forall h | h in T + T2 + Passage(u, r)
      ensures IsDir(h.2) && Source(h) in Fresh(L0, L') && Target(h) in Fresh(L0, L') &&
              ParentEdge(dp', Source(h), Target(h))
    {
      if h == (u.0, u.1, DirTo(u, r)) {
        assert Target(h) == r;
      } else if h == (r.0, r.1, DirTo(r, u)) {
        assert Target(h) == u;
      } else if h in T2 {
      } else {
        assert h in T;
        var a, b := Source(h), Target(h);
        assert a in F1 && b in F1;
        assert a in dp ==> dp'[a] == dp[a];
        assert b in dp ==> dp'[b] == dp[b];
      }
    }
  }

  /** The child's call tree hangs below r. */
  lemma ChildLinks(n: int, E: set<HalfEdge>, L0: map<Cell, int>, L: map<Cell, int>, L': map<Cell, int>,
                   r: Cell, depth: int, dp: map<Cell, Cell>, T: set<HalfEdge>,
                   dp2: map<Cell, Cell>, T2: set<HalfEdge>, k: int)
    requires LabelsOk(n, L0, L, r, depth) && LinksOk(n, E, L0, L, r, dp, T) && IsDir(k)
    requires Open(n, E, r, Move(r, k)) && Move(r, k) in L && L[Move(r, k)] == 0
    requires LabelsOk(n, L, L', Move(r, k), depth + 1) && LinksOk(n, E, L, L', Move(r, k), dp2, T2)
    ensures var u := Move(r, k);
      LinksOk(n, E, L0, L', r, dp + dp2 + map[u := r], T + T2 + Passage(u, r))
  {
    var u := Move(r, k);
    ChildFresh(n, L0, L, L', r, depth, u);
    GetDirOfMove(r, k);
    AdjacentSymmetric(r, u);
    ChildDpKeys(Fresh(L0, L), Fresh(L, L'), r, dp, dp2, u);
    JoinLinksCard(dp, dp2, u, r);
    ChildDp(n, E, L0, L, L', r, depth, dp, dp2, u);
    ChildHalfEdges(n, L0, L, L', r, depth, dp, T, dp2, T2, u);
    NewPassage(T, T2, Fresh(L0, L), Fresh(L, L'), u, r);
  }

  /** After the child returns, the neighbour it was called on is labelled, and so is
      every cell reachable from what it labelled. */
  lemma ChildClosed(n: int, E: set<HalfEdge>, L0: map<Cell, int>, L: map<Cell, int>, L': map<Cell, int>,
                    r: Cell, depth: int, k: int)
    requires LabelsOk(n, L0, L, r, depth) && ClosedOk(n, E, L0, L, r, k) && IsDir(k)
    requires Open(n, E, r, Move(r, k)) && Move(r, k) in L && L[Move(r, k)] == 0
    requires LabelsOk(n, L, L', Move(r, k), depth + 1) && ClosedOk(n, E, L, L', Move(r, k), 4)
    ensures ClosedOk(n, E, L0, L', r, k + 1)
  {
    var u := Move(r, k);
    ChildFresh(n, L0, L, L', r, depth, u);
    forall c, d | c in Fresh(L0, L') && c != r && IsDir(d) && Open(n, E, c, Move(c, d))
      ensures Move(c, d) in L' && L'[Move(c, d)] != 0
    {
      if c in Fresh(L0, L) {
        assert L[Move(c, d)] != 0;
      }
    }
    forall d | IsDir(d) && d < k + 1 && Open(n, E, r, Move(r, d))
      ensures Move(r, d) in L' && L'[Move(r, d)] != 0
    {
      if d < k {
        assert L[Move(r, d)] != 0;
      }
    }
  }

  /** A direction whose neighbour is entered: the child's outcome joins r's. */
  lemma DfsChild(n: int, E: set<HalfEdge>, L0: map<Cell, int>, L: map<Cell, int>, L': map<Cell, int>,
                 r: Cell, depth: int, dp: map<Cell, Cell>, T: set<HalfEdge>,
                 dp2: map<Cell, Cell>, T2: set<HalfEdge>, k: int, u: Cell)
    requires DfsPartial(n, E, L0, L, r, depth, dp, T, k) && IsDir(k) && u == Move(r, k)
    requires Open(n, E, r, u) && u in L && L[u] == 0
    requires DfsOutcome(n, E, L, L', u, depth + 1, dp2, T2)
    ensures DfsPartial(n, E, L0, L', r, depth, dp + dp2 + map[u := r], T + T2 + Passage(u, r), k + 1)
  {
    ChildLabels(n, E, L0, L, L', r, depth, u);
    ChildLinks(n, E, L0, L, L', r, depth, dp, T, dp2, T2, k);
    ChildClosed(n, E, L0, L, L', r, depth, k);
  }

  /** Following the call tree back from a labelled cell gives a walk from r whose
      length matches the label. */
  lemma {:induction false} DfsWalk(n: int, E: set<HalfEdge>, L0: map<Cell, int>, L: map<Cell, int>,
                                   r: Cell, depth: int, dp: map<Cell, Cell>, T: set<HalfEdge>, c: Cell)
    returns (w: seq<Cell>)
    requires LabelsOk(n, L0, L, r, depth) && LinksOk(n, E, L0, L, r, dp, T) && c in Fresh(L0, L)
    ensures WalkFrom(n, E, w, r, c) && |w| == L[c] - depth + 1
    decreases L[c] - depth
  {
    if c == r {
      w := [r];
    } else {
      var p := dp[c];
      var w1 := DfsWalk(n, E, L0, L, r, depth, dp, T, p);
      w := JoinWalks(n, E, w1, [p, c], r, p, c);
    }
  }

  /** A walk from r stays among the newly labelled cells when Dfs(r, depth) started
      from all-unlabelled labels. */
  lemma {:induction false} WalkInFresh(n: int, E: set<HalfEdge>, L0: map<Cell, int>, L: map<Cell, int>,
                                       r: Cell, depth: int, dp: map<Cell, Cell>, T: set<HalfEdge>,
                                       w: seq<Cell>)
    requires Covers(n, L0) && forall c | c in L0 :: L0[c] == 0
    requires DfsOutcome(n, E, L0, L, r, depth, dp, T)
    requires IsWalk(n, E, w) && w[0] == r
    ensures w[|w| - 1] in Fresh(L0, L)
  {
    if |w| > 1 {
      var v := w[..|w| - 1];
      assert IsWalk(n, E, v) by {
        forall i | 0 <= i < |v| - 1
          ensures Open(n, E, v[i], v[i + 1])
        {
          assert v[i] == w[i] && v[i + 1] == w[i + 1];
        }
      }
      WalkInFresh(n, E, L0, L, r, depth, dp, T, v);
      LastStep(n, E, w);
      var a, b := v[|v| - 1], w[|w| - 1];
      assert a == w[|w| - 2];
      MoveOfGetDir(a, b);
      assert Open(n, E, a, Move(a, DirTo(a, b)));
      assert b in L0;
    }
  }

  /** From all-unlabelled labels, Dfs(r, depth) labels exactly the cells reachable from r
      through open passages. */
  lemma DfsReach(n: int, E: set<HalfEdge>, L0: map<Cell, int>, L: map<Cell, int>,
                 r: Cell, depth: int, dp: map<Cell, Cell>, T: set<HalfEdge>, c: Cell)
    requires Covers(n, L0) && forall x | x in L0 :: L0[x] == 0
    requires DfsOutcome(n, E, L0, L, r, depth, dp, T)
    ensures c in L && L[c] > 0 <==> exists w :: WalkFrom(n, E, w, r, c)
  {
    if exists w :: WalkFrom(n, E, w, r, c) {
      var w :| WalkFrom(n, E, w, r, c);
      WalkInFresh(n, E, L0, L, r, depth, dp, T, w);
    }
    if c in L && L[c] > 0 {
      assert c in Fresh(L0, L);
      var w := DfsWalk(n, E, L0, L, r, depth, dp, T, c);
    }
  }

  /** F grows by at most one across every open passage. */
  ghost predicate SlowGrowth(n: int, E: set<HalfEdge>, F: map<Cell, int>) {
    forall a, b {:trigger Open(n, E, a, b)} | Open(n, E, a, b) :: a in F && b in F && F[b] <= F[a] + 1
  }

  /** Along a walk, such an F grows by at most the number of steps. */
  lemma {:induction false} WalkSlow(n: int, E: set<HalfEdge>, F: map<Cell, int>, w: seq<Cell>)
    requires SlowGrowth(n, E, F) && IsWalk(n, E, w) && w[0] in F
    ensures w[|w| - 1] in F && F[w[|w| - 1]] - F[w[0]] <= |w| - 1
  {
    if |w| > 1 {
      var v := w[..|w| - 1];
      assert IsWalk(n, E, v) by {
        forall i | 0 <= i < |v| - 1
          ensures Open(n, E, v[i], v[i + 1])
        {
          assert v[i] == w[i] && v[i + 1] == w[i + 1];
        }
      }
      WalkSlow(n, E, F, v);
      LastStep(n, E, w);
    }
  }

  /** Every half-edge of the call tree is an open passage of a tree. */
  lemma LinksInTree(n: int, E: set<HalfEdge>, cells: set<Cell>, root: Cell,
                    parent: map<Cell, Cell>, rank: map<Cell, nat>,
                    L0: map<Cell, int>, L: map<Cell, int>, r: Cell, dp: map<Cell, Cell>, T: set<HalfEdge>)
    requires RootedTree(n, E, cells, root, parent, rank) && LinksOk(n, E, L0, L, r, dp, T)
    ensures T <= E
  {
    TreeSymmetric(n, E, cells, root, parent, rank);
    forall h | h in T
      ensures h in E
    {
      var a, b := Source(h), Target(h);
      GetDirOfMove(a, h.2);
      assert h == (a.0, a.1, DirTo(a, b));
      if a in dp && dp[a] == b {
        assert Open(n, E, b, a);
        assert Open(n, E, a, b);
      } else {
        assert Open(n, E, a, b);
      }
    }
  }

  /** From all-unlabelled labels, Dfs labels every cell of the tree it starts in. */
  lemma DfsLabelsAll(n: int, E: set<HalfEdge>, root: Cell, parent: map<Cell, Cell>, rank: map<Cell, nat>,
                     L0: map<Cell, int>, L: map<Cell, int>, r: Cell, depth: int,
                     dp: map<Cell, Cell>, T: set<HalfEdge>)
    requires RootedTree(n, E, Cells(n), root, parent, rank)
    requires Covers(n, L0) && forall c | c in L0 :: L0[c] == 0
    requires DfsOutcome(n, E, L0, L, r, depth, dp, T)
    ensures Fresh(L0, L) == Cells(n)
  {
    var s := Fresh(L0, L);
    forall c, d | c in s && IsDir(d) && Open(n, E, c, Move(c, d))
      ensures Move(c, d) in s
    {
      assert L[Move(c, d)] != 0;
    }
    InCells(n, r);
    TreeClosedSet(n, E, Cells(n), root, parent, rank, s, r);
    forall c | c in s
      ensures c in Cells(n)
    {
      InCells(n, c);
    }
  }

  lemma {:induction false} SubsetCard(A: set<HalfEdge>, B: set<HalfEdge>)
    requires A <= B
    ensures |A| <= |B|
    decreases |A|
  {
    if A != {} {
      var x :| x in A;
      SubsetCard(A - {x}, B - {x});
    }
  }

  /** A subset as large as its superset is the superset. */
  lemma SubsetSameSize(T: set<HalfEdge>, E: set<HalfEdge>)
    requires T <= E && |T| == |E|
    ensures T == E
  {
    if T != E {
      var e :| e in E && e !in T;
      SubsetCard(T, E - {e});
    }
  }

  /** A call tree over every cell has n * n - 1 links. */
  lemma CallTreeSize(n: int, r: Cell, dp: map<Cell, Cell>)
    requires dp.Keys == Cells(n) - {r} && Inside(n, r)
    ensures |dp| == n * n - 1
  {
    InCells(n, r);
    CellsCard(n);
    assert |dp.Keys| == |Cells(n)| - 1;
  }

  /** On a spanning tree, a call tree over every cell uses every passage. */
  lemma CallTreeSpans(n: int, E: set<HalfEdge>, root: Cell, parent: map<Cell, Cell>, rank: map<Cell, nat>,
                      L0: map<Cell, int>, L: map<Cell, int>, r: Cell, dp: map<Cell, Cell>, T: set<HalfEdge>)
    requires RootedTree(n, E, Cells(n), root, parent, rank) && |E| == 2 * (n * n - 1)
    requires LinksOk(n, E, L0, L, r, dp, T) && Fresh(L0, L) == Cells(n) && Inside(n, r)
    ensures T == E
  {
    LinksInTree(n, E, Cells(n), root, parent, rank, L0, L, r, dp, T);
    CallTreeSize(n, r, dp);
    SubsetSameSize(T, E);
  }

  /** When every passage is a call-tree link, no passage raises the label by more than one. */
  lemma LinksSlowGrowth(n: int, E: set<HalfEdge>, L0: map<Cell, int>, L: map<Cell, int>,
                        r: Cell, dp: map<Cell, Cell>)
    requires LinksOk(n, E, L0, L, r, dp, E)
    ensures SlowGrowth(n, E, L)
  {
    forall a, b | Open(n, E, a, b)
      ensures a in L && b in L && L[b] <= L[a] + 1
    {
      var h := (a.0, a.1, DirTo(a, b));
      MoveOfGetDir(a, b);
      assert h in E && Source(h) == a && Target(h) == b;
    }
  }

  /** On a spanning tree of the grid, from all-unlabelled labels, Dfs(r, depth) gives
      every cell c the label depth + (distance from r to c). */
  lemma DfsDistance(n: int, E: set<HalfEdge>, root: Cell, parent: map<Cell, Cell>, rank: map<Cell, nat>,
                    L0: map<Cell, int>, L: map<Cell, int>, r: Cell, depth: int,
                    dp: map<Cell, Cell>, T: set<HalfEdge>)
    requires RootedTree(n, E, Cells(n), root, parent, rank) && |E| == 2 * (n * n - 1)
    requires Covers(n, L0) && forall c | c in L0 :: L0[c] == 0
    requires DfsOutcome(n, E, L0, L, r, depth, dp, T)
    ensures forall c | Inside(n, c) :: c in L && IsDistance(n, E, r, c, L[c] - depth)
  {
    DfsLabelsAll(n, E, root, parent, rank, L0, L, r, depth, dp, T);
    CallTreeSpans(n, E, root, parent, rank, L0, L, r, dp, T);
    LinksSlowGrowth(n, E, L0, L, r, dp);
    forall c | Inside(n, c)
      ensures c in L && IsDistance(n, E, r, c, L[c] - depth)
    {
      InCells(n, c);
      var w := DfsWalk(n, E, L0, L, r, depth, dp, T, c);
      forall w' | WalkFrom(n, E, w', r, c)
        ensures |w'| >= L[c] - depth + 1
      {
        WalkSlow(n, E, L, w');
      }
    }
  }

  /** b is the first cell in row-major order among those farthest from a. */
  ghost predicate FirstFarthest(n: int, E: set<HalfEdge>, a: Cell, b: Cell) {
    Inside(n, b) &&
    exists k :: IsDistance(n, E, a, b, k) &&
      (forall c, k' | Inside(n, c) && IsDistance(n, E, a, c, k') :: k' <= k) &&
      (forall c, k' | Inside(n, c) && Before(c, b) && IsDistance(n, E, a, c, k') :: k' < k)
  }

  /** When the labels are depth plus the distance from a, the first row-major cell with
      the largest label is the first farthest cell from a. */
  lemma ArgMaxFarthest(n: int, E: set<HalfEdge>, L: map<Cell, int>, a: Cell, b: Cell, depth: int)
    requires forall c | Inside(n, c) :: c in L && IsDistance(n, E, a, c, L[c] - depth)
    requires Inside(n, b)
    requires forall c | c in L && Inside(n, c) :: L[c] <= L[b]
    requires forall c | c in L && Inside(n, c) && Before(c, b) :: L[c] < L[b]
    ensures FirstFarthest(n, E, a, b)
  {
    var k := L[b] - depth;
    forall c, k' | Inside(n, c) && IsDistance(n, E, a, c, k')
      ensures k' <= k && (Before(c, b) ==> k' < k)
    {
      DistanceUnique(n, E, a, c, k', L[c] - depth);
    }
  }

  /** In a maze of more than one cell where every cell is reachable from a, the first
      farthest cell from a is not a itself. */
  lemma FarApart(n: int, E: set<HalfEdge>, L: map<Cell, int>, a: Cell, b: Cell)
    requires n > 1 && Inside(n, a) && FirstFarthest(n, E, a, b)
    requires forall c | Inside(n, c) :: c in L && IsDistance(n, E, a, c, L[c] - 1)
    ensures a != b
  {
    var c: Cell := if a == (0, 0) then (0, 1) else (0, 0);
    assert Inside(n, c);
    var k' := L[c] - 1;
    var w :| WalkFrom(n, E, w, a, c) && |w| == k' + 1;
    assert k' >= 1;
    var k :| IsDistance(n, E, a, b, k) &&
      (forall c, k' | Inside(n, c) && IsDistance(n, E, a, c, k') :: k' <= k) &&
      (forall c, k' | Inside(n, c) && Before(c, b) && IsDistance(n, E, a, c, k') :: k' < k);
    assert k >= 1;
    assert WalkFrom(n, E, [a], a, a);
  }

  /** One pass of LongestPath on a spanning tree: Dfs(r, 1) from all-zero labels, then the
      first row-major cell b with the largest label, is the first cell farthest from r. */
  lemma SweepFarthest(n: int, E: set<HalfEdge>, L0: map<Cell, int>, L: map<Cell, int>, r: Cell,
                      dp: map<Cell, Cell>, T: set<HalfEdge>, b: Cell)
    requires SpanningTree(n, E)
    requires Covers(n, L0) && forall c | c in L0 :: L0[c] == 0
    requires DfsOutcome(n, E, L0, L, r, 1, dp, T)
    requires Inside(n, b)
    requires forall c | c in L && Inside(n, c) :: L[c] <= L[b]
    requires forall c | c in L && Inside(n, c) && Before(c, b) :: L[c] < L[b]
    ensures FirstFarthest(n, E, r, b)
    ensures forall c | Inside(n, c) :: c in L && IsDistance(n, E, r, c, L[c] - 1)
  {
    var root, parent, rank :| RootedTree(n, E, Cells(n), root, parent, rank);
    DfsDistance(n, E, root, parent, rank, L0, L, r, 1, dp, T);
    ArgMaxFarthest(n, E, L, r, b, 1);
  }
}
