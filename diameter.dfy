// Why the two passes of LongestPath (Assets/Scripts/Maze.cs:263-297) find a farthest
// pair of the maze: the maze hung from the first root is a tree with depths, tree
// distance is depth arithmetic around the deepest common ancestor, and a deepest cell
// is one end of a longest path.
module Diameter {
  import opened Grid
  import opened Graph
  import opened Search

  /** p and h hang a tree from r: h[c] is the depth of c and p[c] its parent, one level up. */
  ghost predicate Depths(p: map<Cell, Cell>, h: map<Cell, int>, r: Cell) {
    r in h && h[r] == 0 &&
    (forall c {:trigger h[c]} | c in h :: h[c] >= 0 && (c in p <==> c != r)) &&
    (forall c {:trigger p[c]} | c in p :: c in h && p[c] in h && h[c] == h[p[c]] + 1)
  }

  /** Every parent link is a passage open in both directions: both half-edges are recorded. */
  ghost predicate Links(n: int, E: set<HalfEdge>, p: map<Cell, Cell>) {
    forall c {:trigger p[c]} | c in p ::
      Inside(n, c) && Inside(n, p[c]) && Adjacent(c, p[c]) &&
      (c.0, c.1, DirTo(c, p[c])) in E && (p[c].0, p[c].1, DirTo(p[c], c)) in E
  }

  /** Every open passage is a parent link. */
  ghost predicate OnlyLinks(n: int, E: set<HalfEdge>, p: map<Cell, Cell>) {
    forall a, b {:trigger Open(n, E, a, b)} | Open(n, E, a, b) :: ParentEdge(p, a, b)
  }

  /** The open passages of the n-by-n maze are exactly the parent links of a tree hung
      from r, every one open in both directions. */
  ghost predicate Hung(n: int, E: set<HalfEdge>, r: Cell, p: map<Cell, Cell>, h: map<Cell, int>) {
    Depths(p, h, r) && Covers(n, h) && WellFormed(n, E) && Links(n, E, p) && OnlyLinks(n, E, p)
  }

  /** The ancestor of c at depth d. */
  ghost function UpTo(p: map<Cell, Cell>, h: map<Cell, int>, r: Cell, c: Cell, d: int): (t: Cell)
    requires Depths(p, h, r) && c in h && 0 <= d <= h[c]
    ensures t in h && h[t] == d
    decreases h[c] - d
  {
    if h[c] == d then c else UpTo(p, h, r, p[c], d)
  }

  /** t is c or one of its ancestors. */
  ghost predicate Anc(p: map<Cell, Cell>, h: map<Cell, int>, r: Cell, t: Cell, c: Cell) {
    Depths(p, h, r) && t in h && c in h && h[t] <= h[c] && UpTo(p, h, r, c, h[t]) == t
  }

  /** Climbing to depth d and then to depth e is climbing to depth e. */
  lemma {:induction false} UpToTwice(p: map<Cell, Cell>, h: map<Cell, int>, r: Cell, c: Cell, d: int, e: int)
    requires Depths(p, h, r) && c in h && 0 <= e <= d <= h[c]
    ensures UpTo(p, h, r, UpTo(p, h, r, c, d), e) == UpTo(p, h, r, c, e)
    decreases h[c] - d
  {
    if h[c] != d {
      UpToTwice(p, h, r, p[c], d, e);
    }
  }

  lemma AncSelf(p: map<Cell, Cell>, h: map<Cell, int>, r: Cell, c: Cell)
    requires Depths(p, h, r) && c in h
    ensures Anc(p, h, r, c, c)
  {
  }

  lemma AncParent(p: map<Cell, Cell>, h: map<Cell, int>, r: Cell, c: Cell)
    requires Depths(p, h, r) && c in p
    ensures Anc(p, h, r, p[c], c)
  {
  }

  lemma AncTrans(p: map<Cell, Cell>, h: map<Cell, int>, r: Cell, a: Cell, b: Cell, c: Cell)
    requires Anc(p, h, r, a, b) && Anc(p, h, r, b, c)
    ensures Anc(p, h, r, a, c)
  {
    UpToTwice(p, h, r, c, h[b], h[a]);
  }

  /** Two ancestors of the same cell lie on one line: the shallower is an ancestor of
      the deeper. */
  lemma AncComparable(p: map<Cell, Cell>, h: map<Cell, int>, r: Cell, a: Cell, b: Cell, c: Cell)
    requires Anc(p, h, r, a, c) && Anc(p, h, r, b, c) && h[a] <= h[b]
    ensures Anc(p, h, r, a, b)
  {
    UpToTwice(p, h, r, c, h[b], h[a]);
  }

  /** A proper ancestor of c is an ancestor of c's parent. */
  lemma AncOfParent(p: map<Cell, Cell>, h: map<Cell, int>, r: Cell, t: Cell, c: Cell)
    requires Anc(p, h, r, t, c) && t != c && c in p
    ensures Anc(p, h, r, t, p[c])
  {
    assert h[t] < h[c];
  }

  /** The deepest common ancestor of a and b. */
  ghost function Meet(p: map<Cell, Cell>, h: map<Cell, int>, r: Cell, a: Cell, b: Cell): (m: Cell)
    requires Depths(p, h, r) && a in h && b in h
    ensures m in h
    decreases h[a] + h[b]
  {
    if a == b then a
    else if h[a] >= h[b] then
      Meet(p, h, r, p[a], b)
    else
      Meet(p, h, r, a, p[b])
  }

  /** Meet(a, b) is an ancestor of both. */
  lemma {:induction false} MeetCommon(p: map<Cell, Cell>, h: map<Cell, int>, r: Cell, a: Cell, b: Cell)
    requires Depths(p, h, r) && a in h && b in h
    ensures Anc(p, h, r, Meet(p, h, r, a, b), a) && Anc(p, h, r, Meet(p, h, r, a, b), b)
    decreases h[a] + h[b]
  {
    var m := Meet(p, h, r, a, b);
    if a == b {
      AncSelf(p, h, r, a);
    } else if h[a] >= h[b] {
      MeetCommon(p, h, r, p[a], b);
      AncParent(p, h, r, a);
      AncTrans(p, h, r, m, p[a], a);
    } else {
      MeetCommon(p, h, r, a, p[b]);
      AncParent(p, h, r, b);
      AncTrans(p, h, r, m, p[b], b);
    }
  }

  /** Every common ancestor of a and b is at most as deep as Meet(a, b). */
  lemma {:induction false} MeetDeepest(p: map<Cell, Cell>, h: map<Cell, int>, r: Cell, a: Cell, b: Cell, t: Cell)
    requires Anc(p, h, r, t, a) && Anc(p, h, r, t, b)
    ensures h[t] <= h[Meet(p, h, r, a, b)]
    decreases h[a] + h[b]
  {
    if a != b {
      if h[a] >= h[b] {
        assert t != a;
        AncOfParent(p, h, r, t, a);
        MeetDeepest(p, h, r, p[a], b, t);
      } else {
        assert t != b;
        AncOfParent(p, h, r, t, b);
        MeetDeepest(p, h, r, a, p[b], t);
      }
    }
  }

  /** The length of the tree path from a to b: up to Meet(a, b), then down. */
  ghost function Dist(p: map<Cell, Cell>, h: map<Cell, int>, r: Cell, a: Cell, b: Cell): int
    requires Depths(p, h, r) && a in h && b in h
  {
    h[a] + h[b] - 2 * h[Meet(p, h, r, a, b)]
  }

  lemma DistSelf(p: map<Cell, Cell>, h: map<Cell, int>, r: Cell, a: Cell)
    requires Depths(p, h, r) && a in h
    ensures Dist(p, h, r, a, a) == 0
  {
  }

  /** One step through an open passage lengthens the tree path from a by at most one. */
  lemma DistStep(p: map<Cell, Cell>, h: map<Cell, int>, r: Cell, a: Cell, x: Cell, y: Cell)
    requires Depths(p, h, r) && a in h && x in h && y in h && ParentEdge(p, x, y)
    ensures Dist(p, h, r, a, y) <= Dist(p, h, r, a, x) + 1
  {
    var m := Meet(p, h, r, a, x);
    MeetCommon(p, h, r, a, x);
    if y in p && p[y] == x {
      AncParent(p, h, r, y);
      AncTrans(p, h, r, m, x, y);
      MeetDeepest(p, h, r, a, y, m);
    } else {
      AncParent(p, h, r, x);
      MeetCommon(p, h, r, a, y);
      if m == x {
        AncTrans(p, h, r, y, x, a);
        AncSelf(p, h, r, y);
        MeetDeepest(p, h, r, a, y, y);
      } else {
        AncOfParent(p, h, r, m, x);
        MeetDeepest(p, h, r, a, y, m);
      }
    }
  }

  /** The walk from c up to its ancestor at depth d through parent passages. */
  lemma {:induction false} UpWalk(n: int, E: set<HalfEdge>, r: Cell, p: map<Cell, Cell>, h: map<Cell, int>,
                                  c: Cell, d: int)
    returns (w: seq<Cell>)
    requires Depths(p, h, r) && Links(n, E, p) && Inside(n, c) && c in h && 0 <= d <= h[c]
    ensures WalkFrom(n, E, w, c, UpTo(p, h, r, c, d)) && |w| == h[c] - d + 1
    decreases h[c] - d
  {
    if h[c] == d {
      w := [c];
    } else {
      var step := [c, p[c]];
      assert WalkFrom(n, E, step, c, p[c]) by {
        assert Open(n, E, step[0], step[1]);
      }
      var rest := UpWalk(n, E, r, p, h, p[c], d);
      w := JoinWalks(n, E, step, rest, c, p[c], UpTo(p, h, r, c, d));
    }
  }

  /** Passages of a hung tree are open both ways. */
  lemma HungSymmetric(n: int, E: set<HalfEdge>, r: Cell, p: map<Cell, Cell>, h: map<Cell, int>)
    requires Hung(n, E, r, p, h)
    ensures Symmetric(n, E)
  {
    forall a, b | Open(n, E, a, b)
      ensures Open(n, E, b, a)
    {
      assert ParentEdge(p, a, b);
    }
  }

  /** The tree path is the distance. */
  lemma TreeDistance(n: int, E: set<HalfEdge>, r: Cell, p: map<Cell, Cell>, h: map<Cell, int>,
                     a: Cell, b: Cell)
    requires Hung(n, E, r, p, h) && Inside(n, a) && Inside(n, b)
    ensures a in h && b in h && IsDistance(n, E, a, b, Dist(p, h, r, a, b))
  {
    var m := Meet(p, h, r, a, b);
    MeetCommon(p, h, r, a, b);
    HungSymmetric(n, E, r, p, h);
    var wa := UpWalk(n, E, r, p, h, a, h[m]);
    var wb := UpWalk(n, E, r, p, h, b, h[m]);
    var rb := ReverseWalk(n, E, wb, b, m);
    var w := JoinWalks(n, E, wa, rb, a, m, b);
    var F := map c | c in h :: Dist(p, h, r, a, c);
    forall x, y | Open(n, E, x, y)
      ensures x in F && y in F && F[y] <= F[x] + 1
    {
      assert ParentEdge(p, x, y);
      DistStep(p, h, r, a, x, y);
    }
    DistSelf(p, h, r, a);
    forall w' | WalkFrom(n, E, w', a, b)
      ensures |w'| >= Dist(p, h, r, a, b) + 1
    {
      WalkSlow(n, E, F, w');
    }
  }

  /** The depth of a cell is its distance from r. */
  lemma RootDistance(n: int, E: set<HalfEdge>, r: Cell, p: map<Cell, Cell>, h: map<Cell, int>, c: Cell)
    requires Hung(n, E, r, p, h) && Inside(n, c)
    ensures Inside(n, r) && c in h && IsDistance(n, E, r, c, h[c])
  {
    assert r in h;
    TreeDistance(n, E, r, p, h, r, c);
    MeetCommon(p, h, r, r, c);
  }

  /** Seen from a deepest cell u, every tree path a..b is no longer than the path from u
      to a or the one from u to b. */
  lemma Spread(p: map<Cell, Cell>, h: map<Cell, int>, r: Cell, u: Cell, a: Cell, b: Cell)
    requires Depths(p, h, r) && u in h && a in h && b in h
    requires h[a] <= h[u] && h[b] <= h[u]
    ensures Dist(p, h, r, a, b) <= Dist(p, h, r, u, a) || Dist(p, h, r, a, b) <= Dist(p, h, r, u, b)
  {
    var t1, t2 := Meet(p, h, r, u, a), Meet(p, h, r, u, b);
    MeetCommon(p, h, r, u, a);
    MeetCommon(p, h, r, u, b);
    if h[t1] <= h[t2] {
      AncComparable(p, h, r, t1, t2, u);
      AncTrans(p, h, r, t1, t2, b);
      MeetDeepest(p, h, r, a, b, t1);
    } else {
      AncComparable(p, h, r, t2, t1, u);
      AncTrans(p, h, r, t2, t1, a);
      MeetDeepest(p, h, r, a, b, t2);
    }
  }

  /** a and b are a farthest pair: no two cells of the maze are farther apart. */
  ghost predicate FarthestPair(n: int, E: set<HalfEdge>, a: Cell, b: Cell) {
    Inside(n, a) && Inside(n, b) &&
    exists k :: IsDistance(n, E, a, b, k) &&
      forall x, y, k' | Inside(n, x) && Inside(n, y) && IsDistance(n, E, x, y, k') :: k' <= k
  }

  /** On a tree hung from r: the first cell u farthest from r, and then the first cell v
      farthest from u, are a farthest pair. */
  lemma HungDoubleSweep(n: int, E: set<HalfEdge>, r: Cell, p: map<Cell, Cell>, h: map<Cell, int>,
                        u: Cell, v: Cell)
    requires Hung(n, E, r, p, h)
    requires FirstFarthest(n, E, r, u) && FirstFarthest(n, E, u, v)
    ensures FarthestPair(n, E, u, v)
  {
    var k :| IsDistance(n, E, r, u, k) &&
      (forall c, k' | Inside(n, c) && IsDistance(n, E, r, c, k') :: k' <= k);
    RootDistance(n, E, r, p, h, u);
    DistanceUnique(n, E, r, u, k, h[u]);
    var K :| IsDistance(n, E, u, v, K) &&
      (forall c, k' | Inside(n, c) && IsDistance(n, E, u, c, k') :: k' <= K);
    forall x, y, k' | Inside(n, x) && Inside(n, y) && IsDistance(n, E, x, y, k')
      ensures k' <= K
    {
      TreeDistance(n, E, r, p, h, x, y);
      DistanceUnique(n, E, x, y, k', Dist(p, h, r, x, y));
      RootDistance(n, E, r, p, h, x);
      RootDistance(n, E, r, p, h, y);
      TreeDistance(n, E, r, p, h, u, x);
      TreeDistance(n, E, r, p, h, u, y);
      Spread(p, h, r, u, x, y);
    }
  }

  /** The labels less one. */
  ghost function Depth(L: map<Cell, int>): map<Cell, int> {
    map c | c in L :: L[c] - 1
  }

  /** When Dfs(r, 1) labels every cell, its labels less one are depths under its call tree. */
  lemma DfsDepths(n: int, E: set<HalfEdge>, L0: map<Cell, int>, L: map<Cell, int>, r: Cell,
                  dp: map<Cell, Cell>, T: set<HalfEdge>)
    requires Covers(n, L0)
    requires LabelsOk(n, L0, L, r, 1) && LinksOk(n, E, L0, L, r, dp, T) && Fresh(L0, L) == Cells(n)
    ensures Depths(dp, Depth(L), r) && Covers(n, Depth(L))
  {
    var h := Depth(L);
    forall c | c in h
      ensures h[c] >= 0 && (c in dp <==> c != r)
    {
      InCells(n, c);
      assert c in Fresh(L0, L);
    }
    forall c
      ensures c in h <==> Inside(n, c)
    {
      InCells(n, c);
    }
  }

  /** The call tree's links are passages open both ways. */
  lemma DfsLinks(n: int, E: set<HalfEdge>, L0: map<Cell, int>, L: map<Cell, int>, r: Cell,
                 dp: map<Cell, Cell>, T: set<HalfEdge>)
    requires Symmetric(n, E) && LinksOk(n, E, L0, L, r, dp, T)
    ensures Links(n, E, dp)
  {
    forall c | c in dp
      ensures Open(n, E, c, dp[c]) && Open(n, E, dp[c], c)
    {
      assert Open(n, E, dp[c], c);
    }
  }

  /** When the call tree's half-edges are all the half-edges, every open passage is a link. */
  lemma DfsOnlyLinks(n: int, E: set<HalfEdge>, L0: map<Cell, int>, L: map<Cell, int>, r: Cell,
                     dp: map<Cell, Cell>)
    requires LinksOk(n, E, L0, L, r, dp, E)
    ensures OnlyLinks(n, E, dp)
  {
    forall a, b | Open(n, E, a, b)
      ensures ParentEdge(dp, a, b)
    {
      var e := (a.0, a.1, DirTo(a, b));
      MoveOfGetDir(a, b);
      assert e in E && Source(e) == a && Target(e) == b;
    }
  }

  /** The labels Dfs(r, 1) leaves on a spanning tree, less one, hang the tree from r,
      with the call tree as the parent links. */
  lemma HungOfDfs(n: int, E: set<HalfEdge>, L0: map<Cell, int>, L: map<Cell, int>, r: Cell,
                  dp: map<Cell, Cell>, T: set<HalfEdge>)
    requires SpanningTree(n, E)
    requires Covers(n, L0) && forall c | c in L0 :: L0[c] == 0
    requires DfsOutcome(n, E, L0, L, r, 1, dp, T)
    ensures Hung(n, E, r, dp, Depth(L))
  {
    var root, parent, rank :| RootedTree(n, E, Cells(n), root, parent, rank);
    DfsLabelsAll(n, E, root, parent, rank, L0, L, r, 1, dp, T);
    CallTreeSpans(n, E, root, parent, rank, L0, L, r, dp, T);
    TreeSymmetric(n, E, Cells(n), root, parent, rank);
    DfsDepths(n, E, L0, L, r, dp, T);
    DfsLinks(n, E, L0, L, r, dp, T);
    DfsOnlyLinks(n, E, L0, L, r, dp);
  }

  /** After one pass from r, the spanning tree hangs from r. */
  lemma SweepHung(n: int, E: set<HalfEdge>, L0: map<Cell, int>, L: map<Cell, int>, r: Cell,
                  dp: map<Cell, Cell>, T: set<HalfEdge>)
    requires SpanningTree(n, E)
    requires Covers(n, L0) && forall c | c in L0 :: L0[c] == 0
    requires DfsOutcome(n, E, L0, L, r, 1, dp, T)
    ensures exists p, h :: Hung(n, E, r, p, h)
  {
    HungOfDfs(n, E, L0, L, r, dp, T);
    assert Hung(n, E, r, dp, Depth(L));
  }

  /** Two passes over a tree hung from the first pass's start find a farthest pair. */
  lemma SweepTwice(n: int, E: set<HalfEdge>, r: Cell, u: Cell, v: Cell)
    requires exists p, h :: Hung(n, E, r, p, h)
    requires FirstFarthest(n, E, r, u) && FirstFarthest(n, E, u, v)
    ensures FarthestPair(n, E, u, v)
  {
    var p, h :| Hung(n, E, r, p, h);
    HungDoubleSweep(n, E, r, p, h, u, v);
  }
}
