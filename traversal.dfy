// The move-validation state machine of Maze.UpdateKey (Assets/Scripts/Maze.cs:417-470):
// one call as a function of the player's position, visited set and flag, and the laws
// it keeps (terminal states are sticky, blocked moves change nothing, a player who has
// not broken the rule has walked a simple path).
module Traversal {
  import opened Grid
  import opened Graph

  /** The keys held down this frame: W or the up arrow, S or down, A or left, D or right. */
  datatype Keys = Keys(up: bool, down: bool, left: bool, right: bool)

  /** The player's state: position (sx, sy), the cells marked INSIDE, and the flag
      (0 while the rule holds, -1 once broken). */
  datatype Play = Play(pos: Cell, visited: set<Cell>, flag: int)

  /** The state after one call and the value it returns: 1 won, -1 violated, 0 playing. */
  datatype Outcome = Outcome(play: Play, result: int)

  /** The intended next cell (nx, ny): the first held key in the order up, down, left,
      right moves one step; no key leaves the position. */
  function Aim(c: Cell, k: Keys): Cell {
    if k.up then (c.0 - 1, c.1)
    else if k.down then (c.0 + 1, c.1)
    else if k.left then (c.0, c.1 - 1)
    else if k.right then (c.0, c.1 + 1)
    else c
  }

  /** The move test of UpdateKey: the aimed cell differs from the position, is in the
      maze, and the passage towards it is open. */
  predicate Accepts(n: int, E: set<HalfEdge>, c: Cell, t: Cell) {
    t != c && Inside(n, t) && (c.0, c.1, DirTo(c, t)) in E
  }

  /** An accepted move onto t: an unmarked t is marked; stepping onto a marked t breaks
      the rule and unmarks the cell left.  Reaching the finish returns 1, otherwise the flag. */
  function Enter(finish: Cell, p: Play, t: Cell): Outcome {
    var p' :=
      if t !in p.visited then Play(t, p.visited + {t}, p.flag)
      else Play(t, p.visited - {p.pos}, -1);
    if t == finish then Outcome(p', 1) else Outcome(p', p'.flag)
  }

  /** One call of UpdateKey. */
  function Step(n: int, E: set<HalfEdge>, finish: Cell, p: Play, k: Keys): Outcome {
    if p.pos == finish then Outcome(p, 1)
    else if p.flag == -1 then Outcome(p, -1)
    else
      var t := Aim(p.pos, k);
      if Accepts(n, E, p.pos, t) then Enter(finish, p, t)
      else Outcome(p, p.flag)
  }

  /** The aimed cell is the position or one of its four neighbours. */
  lemma AimAdjacent(c: Cell, k: Keys)
    ensures Aim(c, k) == c || Adjacent(c, Aim(c, k))
  {
  }

  /** An accepted move goes through an open passage of the maze. */
  lemma AcceptedIsOpen(n: int, E: set<HalfEdge>, c: Cell, k: Keys)
    requires Inside(n, c) && Accepts(n, E, c, Aim(c, k))
    ensures Open(n, E, c, Aim(c, k))
  {
    AimAdjacent(c, k);
  }

  /** The states UpdateKey can be in: the position is in the maze, the flag is 0 or
      -1, and the finish cell is never marked unless the player stands on it. */
  ghost predicate PlayOk(n: int, finish: Cell, p: Play) {
    Inside(n, p.pos) && (p.flag == 0 || p.flag == -1) &&
    (p.pos == finish || finish !in p.visited)
  }

  /** The state of a new game: the player on the start cell, only that cell marked. */
  function Initial(start: Cell): Play {
    Play(start, {start}, 0)
  }

  lemma InitialOk(n: int, start: Cell, finish: Cell)
    requires Inside(n, start)
    ensures PlayOk(n, finish, Initial(start))
  {
  }

  /** Every call keeps the state among those UpdateKey can be in. */
  lemma StepKeepsOk(n: int, E: set<HalfEdge>, finish: Cell, p: Play, k: Keys)
    requires PlayOk(n, finish, p)
    ensures PlayOk(n, finish, Step(n, E, finish, p, k).play)
  {
  }

  /** What the returned value means: 1 exactly when the player stands on the finish,
      -1 exactly when the rule is broken elsewhere, 0 otherwise. */
  lemma ResultMeaning(n: int, E: set<HalfEdge>, finish: Cell, p: Play, k: Keys)
    requires PlayOk(n, finish, p)
    ensures var o := Step(n, E, finish, p, k);
      (o.result == 1 <==> o.play.pos == finish) &&
      (o.result == -1 <==> o.play.flag == -1 && o.play.pos != finish) &&
      (o.result == 0 <==> o.play.flag == 0 && o.play.pos != finish)
  {
  }

  /** Terminal states are sticky: once a call returns 1 or -1, every later call returns
      the same value and changes nothing. */
  lemma Sticky(n: int, E: set<HalfEdge>, finish: Cell, p: Play, k: Keys, k': Keys)
    requires PlayOk(n, finish, p)
    requires Step(n, E, finish, p, k).result != 0
    ensures var o := Step(n, E, finish, p, k);
      Step(n, E, finish, o.play, k') == o
  {
    ResultMeaning(n, E, finish, p, k);
  }

  /** A move that is not accepted (no key, a wall, or the edge of the maze) changes
      nothing and returns the flag. */
  lemma NoOp(n: int, E: set<HalfEdge>, finish: Cell, p: Play, k: Keys)
    requires p.pos != finish && !Accepts(n, E, p.pos, Aim(p.pos, k))
    ensures Step(n, E, finish, p, k) == Outcome(p, p.flag)
  {
  }

  /** An accepted move into an unmarked cell marks it and moves the player there. */
  lemma FreshMove(n: int, E: set<HalfEdge>, finish: Cell, p: Play, k: Keys)
    requires p.pos != finish && p.flag != -1
    requires Accepts(n, E, p.pos, Aim(p.pos, k)) && Aim(p.pos, k) !in p.visited
    ensures var o, t := Step(n, E, finish, p, k), Aim(p.pos, k);
      o.play == Play(t, p.visited + {t}, p.flag) &&
      o.result == (if t == finish then 1 else p.flag)
  {
  }

  /** An accepted move into a marked cell breaks the rule: the flag becomes -1, the
      cell left is unmarked, and the player moves anyway. */
  lemma Revisit(n: int, E: set<HalfEdge>, finish: Cell, p: Play, k: Keys)
    requires p.pos != finish && p.flag != -1
    requires Accepts(n, E, p.pos, Aim(p.pos, k)) && Aim(p.pos, k) in p.visited
    ensures var o, t := Step(n, E, finish, p, k), Aim(p.pos, k);
      o.play == Play(t, p.visited - {p.pos}, -1) &&
      o.result == (if t == finish then 1 else -1)
  {
  }

  /** Under PlayOk, breaking the rule never lands on the finish: the return value of a
      violating move is -1. */
  lemma RevisitNotFinish(n: int, E: set<HalfEdge>, finish: Cell, p: Play, k: Keys)
    requires PlayOk(n, finish, p) && p.pos != finish && p.flag == 0
    requires Accepts(n, E, p.pos, Aim(p.pos, k)) && Aim(p.pos, k) in p.visited
    ensures Step(n, E, finish, p, k).result == -1
  {
  }

  function Elements(w: seq<Cell>): set<Cell> {
    set i | 0 <= i < |w| :: w[i]
  }

  /** While the rule holds, the marked cells are exactly the cells of a simple path
      through open passages from the start to the player. */
  ghost predicate Trail(n: int, E: set<HalfEdge>, start: Cell, p: Play, w: seq<Cell>) {
    p.flag == 0 && WalkFrom(n, E, w, start, p.pos) && NoDups(w) && p.visited == Elements(w)
  }

  lemma InitialTrail(n: int, E: set<HalfEdge>, start: Cell)
    requires Inside(n, start)
    ensures Trail(n, E, start, Initial(start), [start])
  {
    assert [start][0] == start;
    assert Elements([start]) == {start};
  }

  /** Every call that leaves the rule unbroken keeps the trail: either nothing moved,
      or the path grew by the new cell. */
  lemma StepKeepsTrail(n: int, E: set<HalfEdge>, start: Cell, finish: Cell, p: Play, k: Keys,
                       w: seq<Cell>)
    returns (w': seq<Cell>)
    requires Trail(n, E, start, p, w)
    requires Step(n, E, finish, p, k).play.flag == 0
    ensures Trail(n, E, start, Step(n, E, finish, p, k).play, w')
    ensures w' == w || w' == w + [Step(n, E, finish, p, k).play.pos]
  {
    var o := Step(n, E, finish, p, k);
    if o.play == p {
      w' := w;
    } else {
      var t := Aim(p.pos, k);
      assert p.pos != finish && Accepts(n, E, p.pos, t) && t !in p.visited;
      assert Inside(n, p.pos) by {
        if |w| > 1 {
          LastStep(n, E, w);
        }
      }
      AcceptedIsOpen(n, E, p.pos, k);
      w' := w + [t];
      forall i | 0 <= i < |w'| - 1
        ensures Open(n, E, w'[i], w'[i + 1])
      {
        if i < |w| - 1 {
          assert w'[i] == w[i] && w'[i + 1] == w[i + 1];
        }
      }
      forall i | 0 <= i < |w|
        ensures w[i] != t
      {
        assert w[i] in Elements(w);
      }
      assert Elements(w') == Elements(w) + {t} by {
        forall x | x in Elements(w')
          ensures x in Elements(w) + {t}
        {
          var i :| 0 <= i < |w'| && w'[i] == x;
          if i < |w| {
            assert w[i] == x;
          }
        }
        forall x | x in Elements(w)
          ensures x in Elements(w')
        {
          var i :| 0 <= i < |w| && w[i] == x;
          assert w'[i] == x;
        }
        assert w'[|w|] == t;
      }
    }
  }

  /** The 2-by-2 corner maze: passages (0,0)-(0,1) and (0,1)-(1,1). */
  function Corner(): set<HalfEdge> {
    Passage((0, 0), (0, 1)) + Passage((0, 1), (1, 1))
  }

  const RightKey := Keys(false, false, false, true)
  const LeftKey := Keys(false, false, true, false)
  const DownKey := Keys(false, true, false, false)

  /** From (0,0) to (1,1): right then down is playing, then won. */
  lemma ScenarioWin()
    ensures var o1 := Step(2, Corner(), (1, 1), Initial((0, 0)), RightKey);
      var o2 := Step(2, Corner(), (1, 1), o1.play, DownKey);
      o1.result == 0 && o2.result == 1 && o2.play.visited == {(0, 0), (0, 1), (1, 1)}
  {
    assert DirTo((0, 0), (0, 1)) == Right;
    assert DirTo((0, 1), (1, 1)) == Down;
  }

  /** Right, left, right: stepping back onto (0,0) breaks the rule on the second move,
      and the third move is ignored. */
  lemma ScenarioBacktrack()
    ensures var o1 := Step(2, Corner(), (1, 1), Initial((0, 0)), RightKey);
      var o2 := Step(2, Corner(), (1, 1), o1.play, LeftKey);
      var o3 := Step(2, Corner(), (1, 1), o2.play, RightKey);
      o1.result == 0 && o2.result == -1 && o3.result == -1 &&
      o3.play == Play((0, 0), {(0, 0)}, -1)
  {
    assert DirTo((0, 0), (0, 1)) == Right;
    assert DirTo((0, 1), (0, 0)) == Left;
  }
}
