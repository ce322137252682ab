// The imperative engine of one game of snakes (snakes/snakes.py,
// SnakePlay): the map is an array of gridSize * gridSize cells updated in
// place, the avatars and the food list are fields the methods reassign.
// Every method is proved to produce the state the rules in SnakeRules
// prescribe.
module SnakeEngine {
  import opened Wrappers
  import opened SnakeGeometry
  import opened SnakePlayer
  import opened SnakeRules
  import opened SnakeLaws

  /** The contents of a square 2-D array as a frame. */
  function Cells(m: array2<int>): (r: Frame)
    reads m
    ensures IsSquare(r, m.Length0) || m.Length0 != m.Length1
  {
    seq(m.Length0, i requires 0 <= i < m.Length0 reads m => seq(m.Length1, j requires 0 <= j < m.Length1 reads m => m[i, j]))
  }

  /** Lines 827-847 on one memory frame: the rows or columns move by one in
    * place towards the shift and the one left open is filled with 0. */
  method ShiftInPlace(m: array2<int>, dy: int, dx: int)
    requires m.Length0 == m.Length1 && m.Length0 >= 1
    modifies m
    ensures Cells(m) == Shifted(old(Cells(m)), m.Length0, dy, dx)
  {
    var n := m.Length0;
    ghost var m0 := Cells(m);
    if dy == 1 {
      ShiftRowsUp(m);
    } else if dy == -1 {
      ShiftRowsDown(m);
    } else if dx == 1 {
      ShiftColumnsLeft(m);
    } else if dx == -1 {
      ShiftColumnsRight(m);
    }
    assert Cells(m) == Shifted(m0, n, dy, dx) by {
      forall a | 0 <= a < n
        ensures Cells(m)[a] == Shifted(m0, n, dy, dx)[a]
      {
      }
    }
  }

  /** Row a takes row a + 1, and the last row is cleared. */
  method ShiftRowsUp(m: array2<int>)
    requires m.Length0 == m.Length1 && m.Length0 >= 1
    modifies m
    ensures forall a, b {:trigger m[a, b]} :: 0 <= a < m.Length0 && 0 <= b < m.Length0 ==>
      m[a, b] == ShiftedCell(old(Cells(m)), m.Length0, 1, 0, a, b)
  {
    var n := m.Length0;
    ghost var m0 := Cells(m);
    for i := 0 to n - 1
      invariant forall a, b {:trigger m[a, b]} :: 0 <= a < n && 0 <= b < n ==> m[a, b] == (if a < i then m0[a + 1][b] else m0[a][b])
    {
      for j := 0 to n
        invariant forall a, b {:trigger m[a, b]} :: 0 <= a < n && 0 <= b < n ==>
          m[a, b] == (if a < i || (a == i && b < j) then m0[a + 1][b] else m0[a][b])
      {
        m[i, j] := m[i + 1, j];
      }
    }
    for j := 0 to n
      invariant forall a, b {:trigger m[a, b]} :: 0 <= a < n && 0 <= b < n ==>
        m[a, b] == (if a < n - 1 then m0[a + 1][b] else if b < j then 0 else m0[a][b])
    {
      m[n - 1, j] := 0;
    }
  }

  /** Row a takes row a - 1, and the first row is cleared. */
  method ShiftRowsDown(m: array2<int>)
    requires m.Length0 == m.Length1 && m.Length0 >= 1
    modifies m
    ensures forall a, b {:trigger m[a, b]} :: 0 <= a < m.Length0 && 0 <= b < m.Length0 ==>
      m[a, b] == ShiftedCell(old(Cells(m)), m.Length0, -1, 0, a, b)
  {
    var n := m.Length0;
    ghost var m0 := Cells(m);
    for i := 1 to n
      invariant forall a, b {:trigger m[a, b]} :: 0 <= a < n && 0 <= b < n ==> m[a, b] == (if a > n - i then m0[a - 1][b] else m0[a][b])
    {
      for j := 0 to n
        invariant forall a, b {:trigger m[a, b]} :: 0 <= a < n && 0 <= b < n ==>
          m[a, b] == (if a > n - i || (a == n - i && b < j) then m0[a - 1][b] else m0[a][b])
      {
        m[n - i, j] := m[n - i - 1, j];
      }
    }
    for j := 0 to n
      invariant forall a, b {:trigger m[a, b]} :: 0 <= a < n && 0 <= b < n ==>
        m[a, b] == (if a > 0 then m0[a - 1][b] else if b < j then 0 else m0[a][b])
    {
      m[0, j] := 0;
    }
  }

  /** Column b takes column b + 1, and the last column is cleared. */
  method ShiftColumnsLeft(m: array2<int>)
    requires m.Length0 == m.Length1 && m.Length0 >= 1
    modifies m
    ensures forall a, b {:trigger m[a, b]} :: 0 <= a < m.Length0 && 0 <= b < m.Length0 ==>
      m[a, b] == ShiftedCell(old(Cells(m)), m.Length0, 0, 1, a, b)
  {
    var n := m.Length0;
    ghost var m0 := Cells(m);
    for i := 0 to n - 1
      invariant forall a, b {:trigger m[a, b]} :: 0 <= a < n && 0 <= b < n ==> m[a, b] == (if b < i then m0[a][b + 1] else m0[a][b])
    {
      for j := 0 to n
        invariant forall a, b {:trigger m[a, b]} :: 0 <= a < n && 0 <= b < n ==>
          m[a, b] == (if b < i || (b == i && a < j) then m0[a][b + 1] else m0[a][b])
      {
        m[j, i] := m[j, i + 1];
      }
    }
    for j := 0 to n
      invariant forall a, b {:trigger m[a, b]} :: 0 <= a < n && 0 <= b < n ==>
        m[a, b] == (if b < n - 1 then m0[a][b + 1] else if a < j then 0 else m0[a][b])
    {
      m[j, n - 1] := 0;
    }
  }

  /** Column b takes column b - 1, and the first column is cleared. */
  method ShiftColumnsRight(m: array2<int>)
    requires m.Length0 == m.Length1 && m.Length0 >= 1
    modifies m
    ensures forall a, b {:trigger m[a, b]} :: 0 <= a < m.Length0 && 0 <= b < m.Length0 ==>
      m[a, b] == ShiftedCell(old(Cells(m)), m.Length0, 0, -1, a, b)
  {
    var n := m.Length0;
    ghost var m0 := Cells(m);
    for i := 1 to n
      invariant forall a, b {:trigger m[a, b]} :: 0 <= a < n && 0 <= b < n ==> m[a, b] == (if b > n - i then m0[a][b - 1] else m0[a][b])
    {
      for j := 0 to n
        invariant forall a, b {:trigger m[a, b]} :: 0 <= a < n && 0 <= b < n ==>
          m[a, b] == (if b > n - i || (b == n - i && a < j) then m0[a][b - 1] else m0[a][b])
      {
        m[j, n - i] := m[j, n - i - 1];
      }
    }
    for j := 0 to n
      invariant forall a, b {:trigger m[a, b]} :: 0 <= a < n && 0 <= b < n ==>
        m[a, b] == (if b > 0 then m0[a][b - 1] else if a < j then 0 else m0[a][b])
    {
      m[j, 0] := 0;
    }
  }

  /** A fresh 2-D array holding the frame. */
  method ToArray(f: Frame, n: nat) returns (m: array2<int>)
    requires IsSquare(f, n)
    ensures fresh(m) && m.Length0 == n && m.Length1 == n && Cells(m) == f
  {
    m := new int[n, n]((i, j) requires 0 <= i < n && 0 <= j < n => f[i][j]);
    assert Cells(m) == f by {
      forall i | 0 <= i < n
        ensures Cells(m)[i] == f[i]
      {
      }
    }
  }

  /** The loop of lines 827-847: for f = 1, .., nFrames - 1, frame f is shifted
    * in place and copied into slot f - 1. */
  method ShiftMemory(ps: seq<Frame>, fov: nat, dy: int, dx: int) returns (r: seq<Frame>)
    requires |ps| >= 1 && fov >= 1 && forall f :: 0 <= f < |ps| ==> IsSquare(ps[f], fov)
    ensures r == Memory(ps, fov, dy, dx)
  {
    var n := |ps|;
    r := ps;
    for f := 1 to n
      invariant |r| == n && forall k :: 0 <= k < n ==> IsSquare(r[k], fov)
      invariant forall k :: 0 <= k < f - 1 ==> r[k] == Shifted(ps[k + 1], fov, dy, dx)
      invariant r[f - 1] == if f == 1 then ps[0] else Shifted(ps[f - 1], fov, dy, dx)
      invariant forall k :: f <= k < n ==> r[k] == ps[k]
    {
      var memory := ToArray(r[f], fov);
      ShiftInPlace(memory, dy, dx);
      var shifted := Cells(memory);
      r := r[f := shifted][f - 1 := shifted];
    }
    assert r == Memory(ps, fov, dy, dx) by {
      forall k | 0 <= k < n
        ensures r[k] == Memory(ps, fov, dy, dx)[k]
      {
      }
    }
  }

  /** Lines 805-808: every frame turned into the avatar's frame of reference. */
  method RotateFrames(ps: seq<Frame>, rotation: int, fov: nat) returns (r: seq<Frame>)
    requires forall f :: 0 <= f < |ps| ==> IsSquare(ps[f], fov)
    ensures r == Rotated(ps, rotation, fov)
  {
    r := [];
    for f := 0 to |ps|
      invariant |r| == f && forall k :: 0 <= k < f ==> r[k] == ToAgentFrame(ps[k], fov, rotation)
    {
      r := r + [ToAgentFrame(ps[f], fov, rotation)];
    }
  }

  /** The spawning loop before avatar `t`: `full` is the region list in the
    * drawn order and `permuted` what is left of it after `t` pops. */
  predicate SpawnStage(c: Config, d: Draws, players: seq<Avatar>, t: nat, full: seq<(int, int)>, permuted: seq<(int, int)>)
  {
    SpawnInputOk(c, d, players) && t <= |players| && |full| == |d.regionOrder| &&
    (forall k :: 0 <= k < |full| ==> full[k] == RegionsUpTo(c.gridSize / 5, c.gridSize / 5)[d.regionOrder[k]]) &&
    t <= |full| && permuted == full[..|full| - t]
  }

  /** One pop of the spawning loop takes the region of avatar `t` from the end. */
  lemma SpawnStageNext(c: Config, d: Draws, players: seq<Avatar>, t: nat, full: seq<(int, int)>, permuted: seq<(int, int)>)
    requires SpawnStage(c, d, players, t, full, permuted) && t < |players|
    ensures |permuted| > 0 && permuted[|permuted| - 1] == SpawnRegion(c, d, t)
    ensures SpawnStage(c, d, players, t + 1, full, permuted[..|permuted| - 1])
  {
    assert permuted[|permuted| - 1] == full[|full| - 1 - t];
  }

  class SnakePlay {
    const c: Config
    /** The game grid, row-major: cell (y, x) is `grid[y * gridSize + x]`. */
    const grid: array<int>
    var avatars: seq<Avatar>
    var food: seq<Pos>

    function State(): World
      reads this, grid
    {
      World(grid[..], avatars, food)
    }

    predicate Valid()
      reads this, grid
    {
      grid.Length == c.gridSize * c.gridSize && WorldOk(c, State())
    }

    /** An empty grid, no avatars and no food. */
    constructor(c: Config)
      requires ConfigOk(c)
      ensures this.c == c && fresh(grid) && grid[..] == seq(c.gridSize * c.gridSize, _ => 0)
      ensures avatars == [] && food == [] && Valid()
    {
      this.c := c;
      grid := new int[c.gridSize * c.gridSize](_ => 0);
      avatars := [];
      food := [];
    }

    /** Lines 759-797: the window seen from `head`, read from the grid with one wrap per coordinate. */
    method PerceptWindow(head: Pos, fov: nat, side: int) returns (window: Frame)
      requires Valid() && InGrid(head, c.gridSize) && fov <= 9
      ensures window == Window(grid[..], food, c.gridSize, head, fov, side)
    {
      var g := c.gridSize;
      var half := fov / 2;
      window := [];
      for i := 0 to fov
        invariant |window| == i
        invariant forall a :: 0 <= a < i ==> window[a] == Window(grid[..], food, g, head, fov, side)[a]
      {
        var row := [];
        for j := 0 to fov
          invariant |row| == j
          invariant forall b :: 0 <= b < j ==> row[b] == See(grid[..], food, g, Viewed(head, g, fov, i, b), side)
        {
          var y := head.y + i - half;
          if y < 0 {
            y := y + g;
          } else if y >= g {
            y := y - g;
          }
          var x := head.x + j - half;
          if x < 0 {
            x := x + g;
          } else if x >= g {
            x := x - g;
          }
          assert Pos(y, x) == Viewed(head, g, fov, i, j);
          WrapIsModulus(head.y + i - half, g);
          WrapIsModulus(head.x + j - half, g);
          var k := Idx(Pos(y, x), g);
          var v := 0;
          if grid[k] != 0 {
            v := side * Sign(grid[k]);
          }
          if Pos(y, x) in food {
            v := 2;
          }
          row := row + [v];
        }
        window := window + [row];
      }
    }

    /** Lines 919-928: each body cell ages on the map and the still nonzero ones form the new body. */
    method AgeBodyOnMap(body: seq<Pos>) returns (kept: seq<Pos>)
      requires grid.Length == c.gridSize * c.gridSize && CellsIn(body, c.gridSize)
      modifies grid
      ensures (grid[..], kept) == AgeBody(old(grid[..]), c.gridSize, body, |body|)
    {
      var g := c.gridSize;
      kept := [];
      for k := 0 to |body|
        invariant (grid[..], kept) == AgeBody(old(grid[..]), g, body, k)
      {
        var idx := Idx(body[k], g);
        ghost var prev := AgeBody(old(grid[..]), g, body, k);
        ghost var v := Toward0(grid[idx]);
        if grid[idx] > 0 {
          grid[idx] := grid[idx] - 1;
        } else if grid[idx] < 0 {
          grid[idx] := grid[idx] + 1;
        }
        assert grid[..] == prev.0[idx := v];
        if grid[idx] != 0 {
          kept := kept + [body[k]];
        }
      }
    }

    /** The body of the avatar loop (lines 753-928) for avatar `i`: a dead
      * avatar is skipped; otherwise it perceives, the agent is asked for an
      * action, and the avatar moves. `ok` is false when the agent's answer
      * is not an action, which ends the game. */
    method MoveAvatar(i: nat, turn: nat, agent: Agent, eaten: seq<Pos>) returns (ok: bool, eaten': seq<Pos>)
      requires Valid() && i < |avatars|
      modifies this, grid
      ensures ok <==> Act(c, old(State()), i, turn, agent, eaten).Some?
      ensures ok ==> Valid() && State() == Act(c, old(State()), i, turn, agent, eaten).value.0
      ensures ok ==> eaten' == Act(c, old(State()), i, turn, agent, eaten).value.1
    {
      var a := avatars[i];
      if a.dead {
        return true, eaten;
      }
      ghost var w0 := State();
      var s := c.senses[a.owner];
      var window := PerceptWindow(a.head, s.fov, Side(a.owner));
      var ps := a.percepts[|a.percepts| - 1 := window];
      assert ps == Perceive(c, w0, i);
      var frames := RotateFrames(ps, a.rotation, s.fov);
      var v := ValidateAction(agent(i, turn + 1, frames));
      if v.Err? {
        return false, eaten;
      }
      eaten' := MoveHead(i, ps, v.value, eaten);
      ok := true;
    }

    /** Lines 825-928 for a live avatar `i` with percepts `ps` and a valid
      * action: it shifts its percept memory, turns, steps its head with
      * wrap-around, and either eats the food there or ages its body. */
    method MoveHead(i: nat, ps: seq<Frame>, action: int, eaten: seq<Pos>) returns (eaten': seq<Pos>)
      requires Valid() && i < |avatars| && IsAction(action)
      requires |ps| == |avatars[i].percepts| && forall f :: 0 <= f < |ps| ==> IsSquare(ps[f], c.senses[avatars[i].owner].fov)
      modifies this, grid
      ensures Valid()
      ensures State() == Advance(c, old(State()), i, ps, action, eaten).0
      ensures eaten' == Advance(c, old(State()), i, ps, action, eaten).1
    {
      var g := c.gridSize;
      var a := avatars[i];
      var s := c.senses[a.owner];
      ghost var w0 := State();
      var shift := MemoryShift(action, a.rotation).value;
      var memory := ShiftMemory(ps, s.fov, shift.0, shift.1);
      var d := MoveStep(action, a.rotation);
      var rotation := a.rotation + action * 90;
      if rotation < 0 {
        rotation := rotation + 360;
      }
      rotation := rotation % 360;
      assert rotation == NextRotation(a.rotation, action);
      var y := a.head.y + d.0;
      var x := a.head.x + d.1;
      if y < 0 {
        y := y + g;
      }
      if x < 0 {
        x := x + g;
      }
      y := y % g;
      x := x % g;
      var head := Pos(y, x);
      assert head == StepHead(a.head, d, g);
      var a2 := a.(percepts := memory, rotation := rotation, head := head);
      ghost var r := Advance(c, w0, i, ps, action, eaten);
      if head in food {
        avatars := avatars[i := a2.(size := a.size + 1)];
        eaten' := eaten + [head];
        assert State() == r.0;
      } else {
        var kept := AgeBodyOnMap(a.body);
        avatars := avatars[i := a2.(body := kept)];
        eaten' := eaten;
        assert State() == r.0;
      }
    }

    /** The avatar loop of one turn over every avatar in player order; the
      * cells eaten are collected, and `gameDone` says that no avatar was alive. */
    method MoveAll(turn: nat, agent: Agent) returns (ok: bool, eaten: seq<Pos>, gameDone: bool)
      requires Valid()
      modifies this, grid
      ensures ok ==> gameDone == AllDead(old(avatars))
      ensures ok <==> ActAll(c, old(State()), turn, agent, 0, []).Some?
      ensures ok ==> Valid() && State() == ActAll(c, old(State()), turn, agent, 0, []).value.0
      ensures ok ==> eaten == ActAll(c, old(State()), turn, agent, 0, []).value.1
    {
      ghost var w0 := State();
      ghost var run := ActAll(c, w0, turn, agent, 0, []);
      var n := |avatars|;
      eaten := [];
      gameDone := true;
      for k := 0 to n
        invariant MoveStage(w0, run, k, turn, agent, eaten, gameDone)
      {
        ok, eaten, gameDone := MoveNext(w0, run, k, turn, agent, eaten, gameDone);
        if !ok {
          return;
        }
      }
      ok := true;
    }

    /** The avatar loop before avatar `k`: `run`, what the whole loop yields,
      * is what the loop yields from here; avatars keep their status flags, and
      * `gameDone` says that the avatars before `k` were all dead. */
    ghost predicate MoveStage(w0: World, run: Option<(World, seq<Pos>)>, k: nat, turn: nat, agent: Agent, eaten: seq<Pos>, gameDone: bool)
      reads this, grid
    {
      MoveStageHolds(w0, run, k, turn, agent, eaten, gameDone)
    }

    /** The conjuncts of MoveStage, kept apart so that the loop carries them as one invariant. */
    ghost predicate MoveStageHolds(w0: World, run: Option<(World, seq<Pos>)>, k: nat, turn: nat, agent: Agent, eaten: seq<Pos>, gameDone: bool)
      reads this, grid
    {
      Valid() && WorldOk(c, w0) && k <= |avatars| == |w0.avatars| &&
      run == ActAll(c, State(), turn, agent, k, eaten) &&
      (forall a :: 0 <= a < |avatars| ==> SameStatus(avatars[a], w0.avatars[a])) &&
      (gameDone <==> forall a :: 0 <= a < k ==> w0.avatars[a].dead)
    }

    /** One pass of the avatar loop for avatar k: `gameDone` is cleared for a
      * live avatar and the avatar moves; `run` then goes on from the new
      * state, or fails with the agent. */
    method MoveNext(ghost w0: World, ghost run: Option<(World, seq<Pos>)>, k: nat, turn: nat, agent: Agent, eaten: seq<Pos>, gameDone: bool)
      returns (ok: bool, eaten': seq<Pos>, gameDone': bool)
      requires MoveStage(w0, run, k, turn, agent, eaten, gameDone) && k < |avatars|
      modifies this, grid
      ensures !ok ==> run.None?
      ensures ok ==> MoveStage(w0, run, k + 1, turn, agent, eaten', gameDone')
    {
      ghost var wk := State();
      ActAllStep(c, w0, wk, turn, agent, k, eaten);
      gameDone' := gameDone;
      if !avatars[k].dead {
        gameDone' := false;
      }
      DeadPrefixStep(w0.avatars, k, gameDone, gameDone');
      ok, eaten' := MoveAvatar(k, turn, agent, eaten);
    }

    /** Lines 933-967: among the avatars not hit before the test, each live one
      * is compared with every later live one, and both are hit when their heads
      * meet; one still not hit is then hit when the map cell under its head is
      * not empty. */
    method DetectCollisions()
      requires Valid()
      modifies this
      ensures Valid()
      ensures State() == Collide(c, old(State()))
    {
      var avs := CollisionFlags(c, State());
      avatars := avs;
    }

    /** Lines 979-995: every avatar not hit writes its size, signed by its
      * side, at its head, grows its body by the head and records its size. */
    method PlaceHeads(turn: nat)
      requires Valid() && turn < c.nTurns
      modifies this, grid
      ensures Valid()
      ensures State() == WriteHeads(c, old(State()), turn, |old(avatars)|)
    {
      ghost var w0 := State();
      for k := 0 to |avatars|
        invariant Valid() && |avatars| == |w0.avatars|
        invariant State() == WriteHeads(c, w0, turn, k)
      {
        var a := avatars[k];
        if !a.hit {
          grid[Idx(a.head, c.gridSize)] := a.size * Side(a.owner);
          avatars := avatars[k := UpdateSizeStats(a.(body := a.body + [a.head]), turn)];
        }
      }
    }

    /** Lines 997-1004: the eaten cells are removed from the food (a cell no
      * longer there is skipped) and the food is topped up to `nFoods`. */
    method ReplenishFood(eaten: seq<Pos>, turn: nat, d: Draws)
      requires Valid() && FoodOrdersOk(d)
      modifies this
      ensures Valid()
      ensures State() == Replenish(c, old(State()), eaten, turn, d)
    {
      var f := ReplenishedFood(c, State(), eaten, turn, d);
      food := f;
    }

    /** Lines 1021-1022: each cell of a body is set to 0. */
    method ClearBody(body: seq<Pos>)
      requires grid.Length == c.gridSize * c.gridSize && CellsIn(body, c.gridSize)
      modifies grid
      ensures grid[..] == ClearCells(old(grid[..]), c.gridSize, body, |body|)
    {
      for z := 0 to |body|
        invariant grid[..] == ClearCells(old(grid[..]), c.gridSize, body, z)
      {
        grid[Idx(body[z], c.gridSize)] := 0;
      }
    }

    /** Lines 1017-1026: an avatar hit this turn and not yet dead has its body
      * cleared from the grid, its body emptied, and is marked dead. */
    method RemoveHit()
      requires Valid()
      modifies this, grid
      ensures Valid()
      ensures State() == Cleanup(c, old(State()), |old(avatars)|)
    {
      ghost var w0 := State();
      for k := 0 to |avatars|
        invariant Valid() && |avatars| == |w0.avatars|
        invariant State() == Cleanup(c, w0, k)
      {
        var a := avatars[k];
        if !a.dead && a.hit {
          ClearBody(a.body);
          avatars := avatars[k := a.(body := [], dead := true)];
        }
      }
    }

    /** Lines 1054-1066: each player's score is the sum over its avatars of
      * their largest recorded size; one player's score is returned as it is,
      * two players' as the difference. */
    method ScoreGame() returns (score: int)
      requires Valid() && c.nTurns >= 1
      ensures score == Score(c, State())
    {
      var scores := [];
      for k := 0 to |c.senses|
        invariant |scores| == k
        invariant forall q :: 0 <= q < k ==> scores[q] == PlayerScore(avatars, q, |avatars|)
      {
        var total := 0;
        for i := 0 to |avatars|
          invariant total == PlayerScore(avatars, k, i)
        {
          if avatars[i].owner == k {
            var m := MaxSize(avatars[i].sizes);
            total := total + m;
          }
        }
        scores := scores + [total];
      }
      if |scores| == 1 {
        score := scores[0];
      } else {
        score := scores[0] - scores[1];
      }
    }

    /** Lines 616-624: the regions, row by row, each listed as `[x, y]`. */
    method ListRegions() returns (regions: seq<(int, int)>)
      ensures regions == RegionsUpTo(c.gridSize / 5, c.gridSize / 5)
    {
      var nR := c.gridSize / 5;
      regions := [];
      for y := 0 to nR
        invariant regions == RegionsUpTo(nR, y)
      {
        for x := 0 to nR
          invariant regions == RegionsUpTo(nR, y) + seq(x, x' requires 0 <= x' < x => (x', y))
        {
          regions := regions + [(x, y)];
        }
        assert seq(nR, x' requires 0 <= x' < nR => (x', y)) == seq(nR, x' requires 0 <= x' < nR => (x', y + 1 - 1));
      }
    }

    /** Lines 686-690: segment z of the body is laid `z` cells behind the head, with value `(size - z) * side`. */
    method LayOut(head: Pos, rotation: int, size: nat, side: int) returns (body: seq<Pos>)
      requires grid.Length == c.gridSize * c.gridSize && c.gridSize > 0
      modifies grid
      ensures (grid[..], body) == LayBody(old(grid[..]), c.gridSize, head, rotation, size, side, size)
    {
      var g := c.gridSize;
      var jy, jx;
      if rotation == 0 {
        jy, jx := 1, 0;
      } else if rotation == 90 {
        jy, jx := 0, -1;
      } else if rotation == 180 {
        jy, jx := -1, 0;
      } else {
        jy, jx := 0, 1;
      }
      body := [];
      for z := 0 to size
        invariant (grid[..], body) == LayBody(old(grid[..]), g, head, rotation, size, side, z)
      {
        var p := Pos((head.y + jy * z) % g, (head.x + jx * z) % g);
        assert p == SpawnCell(head, rotation, z, g);
        grid[Idx(p, g)] := (size - z) * side;
        body := body + [p];
      }
    }

    /** Lines 616-635: the region list in the drawn order. */
    method PermutedRegions(d: Draws) returns (permuted: seq<(int, int)>)
      requires IsPermutation(d.regionOrder, (c.gridSize / 5) * (c.gridSize / 5))
      ensures var nR := c.gridSize / 5;
        |permuted| == nR * nR && forall k :: 0 <= k < |permuted| ==> permuted[k] == RegionsUpTo(nR, nR)[d.regionOrder[k]]
    {
      var nR := c.gridSize / 5;
      var regions := ListRegions();
      permuted := seq(nR * nR, k requires 0 <= k < nR * nR => regions[d.regionOrder[k]]);
    }

    /** Lines 627-697: every avatar is reset, popped a region from the end of
      * the permuted list, given the drawn rotation, and laid out with its head
      * at the region's centre. */
    method Spawn(players: seq<Avatar>, d: Draws)
      requires SpawnInputOk(c, d, players) && grid.Length == c.gridSize * c.gridSize
      modifies this, grid
      ensures food == []
      ensures (grid[..], avatars) == SpawnAll(c, old(grid[..]), players, d, |players|)
    {
      ghost var board := grid[..];
      var full := PermutedRegions(d);
      var permuted := full;
      food := [];
      avatars := players;
      for t := 0 to |players|
        invariant SpawnLoop(board, players, d, t, full, permuted)
      {
        permuted := SpawnNext(board, players, d, t, full, permuted);
      }
    }

    /** The spawning loop before avatar `t`: the map and the avatars are those
      * SpawnAll gives for the first `t` players, `permuted` holds the regions
      * not yet popped, and the food list is empty. */
    ghost predicate SpawnLoop(board: seq<int>, players: seq<Avatar>, d: Draws, t: nat, full: seq<(int, int)>, permuted: seq<(int, int)>)
      reads this, grid
    {
      SpawnLoopHolds(board, players, d, t, full, permuted)
    }

    /** The conjuncts of SpawnLoop, kept apart so that the loop carries them as one invariant. */
    ghost predicate SpawnLoopHolds(board: seq<int>, players: seq<Avatar>, d: Draws, t: nat, full: seq<(int, int)>, permuted: seq<(int, int)>)
      reads this, grid
    {
      grid.Length == c.gridSize * c.gridSize && |board| == grid.Length &&
      food == [] && SpawnStage(c, d, players, t, full, permuted) &&
      (grid[..], avatars) == SpawnAll(c, board, players, d, t)
    }

    /** One iteration of the spawning loop: avatar `t` is reset, pops the last
      * region of `permuted` and is laid out with its head at its centre. */
    method SpawnNext(ghost board: seq<int>, players: seq<Avatar>, d: Draws, t: nat, ghost full: seq<(int, int)>, permuted: seq<(int, int)>)
      returns (rest: seq<(int, int)>)
      requires SpawnLoop(board, players, d, t, full, permuted) && t < |players|
      modifies this, grid
      ensures SpawnLoop(board, players, d, t + 1, full, rest)
    {
      SpawnStageNext(c, d, players, t, full, permuted);
      var region := permuted[|permuted| - 1];
      rest := permuted[..|permuted| - 1];
      var a := ResetForNewGame(avatars[t], c.nTurns, c.senses[avatars[t].owner]);
      var head := Pos(region.0 * 5 + 2, region.1 * 5 + 2);
      var rotation := d.rotations[t];
      var body := LayOut(head, rotation, a.size as nat, Side(a.owner));
      avatars := avatars[t := a.(body := body, head := head, rotation := rotation)];
    }

    /** Lines 699-708: in every region, row by row, one food cell is drawn
      * from the region's empty cells; `ok` is false when a region has none. */
    method PlaceInitialFood(d: Draws) returns (ok: bool)
      requires ConfigOk(c) && grid.Length == c.gridSize * c.gridSize
      modifies this
      ensures avatars == old(avatars)
      ensures var r := InitialFood(c, grid[..], d, c.gridSize / 5);
        (ok <==> r.Some?) && (ok ==> food == old(food) + r.value)
    {
      var cells;
      ok, cells := InitialCells(d);
      if ok {
        food := food + cells;
      }
    }

    /** The loop over the region rows: the food cells of every row, or `ok`
      * false at the first region without an empty cell. */
    method InitialCells(d: Draws) returns (ok: bool, cells: seq<Pos>)
      requires ConfigOk(c) && grid.Length == c.gridSize * c.gridSize
      ensures var r := InitialFood(c, grid[..], d, c.gridSize / 5);
        (ok <==> r.Some?) && (ok ==> cells == r.value)
    {
      var nR := c.gridSize / 5;
      cells := [];
      for yr := 0 to nR
        invariant InitialFood(c, grid[..], d, yr) == Some(cells)
      {
        var row;
        ok, row := FoodRow(yr, d);
        if !ok {
          assert InitialFood(c, grid[..], d, yr + 1).None?;
          InitialFailSticks(c, grid[..], d, yr + 1, nR);
          return;
        }
        cells := cells + row;
      }
      ok := true;
    }

    /** Lines 700-708 for one row of regions: the food cells drawn, or
      * `ok` false when a region of the row has no empty cell. */
    method FoodRow(yr: nat, d: Draws) returns (ok: bool, cells: seq<Pos>)
      requires ConfigOk(c) && grid.Length == c.gridSize * c.gridSize && yr < c.gridSize / 5
      ensures var r := FoodInRow(c, grid[..], d, yr, c.gridSize / 5);
        (ok <==> r.Some?) && (ok ==> cells == r.value)
    {
      var nR := c.gridSize / 5;
      cells := [];
      for xr := 0 to nR
        invariant FoodInRow(c, grid[..], d, yr, xr) == Some(cells)
      {
        var choices := BlockChoices(yr, xr);
        if |choices| == 0 {
          RowFailSticks(c, grid[..], d, yr, xr + 1, nR);
          return false, cells;
        }
        cells := cells + [choices[d.foodPick(yr, xr) % |choices|]];
      }
      ok := true;
    }

    /** Lines 701-705: the empty cells of the 5 x 5 block of region (yr, xr), row by row. */
    method BlockChoices(yr: nat, xr: nat) returns (choices: seq<Pos>)
      requires grid.Length == c.gridSize * c.gridSize && yr < c.gridSize / 5 && xr < c.gridSize / 5
      ensures choices == BlockFree(grid[..], c.gridSize, yr, xr, 25)
    {
      choices := [];
      for j := 0 to 5
        invariant choices == BlockFree(grid[..], c.gridSize, yr, xr, j * 5)
      {
        for i := 0 to 5
          invariant choices == BlockFree(grid[..], c.gridSize, yr, xr, j * 5 + i)
        {
          var p := Pos(yr * 5 + j, xr * 5 + i);
          BlockCellAt(c.gridSize, yr, xr, j, i);
          if grid[Idx(p, c.gridSize)] == 0 {
            choices := choices + [p];
          }
        }
      }
    }

    /** `play` (lines 614-1066) on a fresh grid: spawn the avatars, place
      * the initial food, run the turns and score the game. */
    method Play(players: seq<Avatar>, d: Draws, agent: Agent) returns (score: Option<int>)
      requires SpawnInputOk(c, d, players) && c.nTurns >= 1 && FoodOrdersOk(d)
      requires grid.Length == c.gridSize * c.gridSize && grid[..] == seq(c.gridSize * c.gridSize, _ => 0)
      modifies this, grid
      ensures score == GameOutcome(c, players, d, agent)
    {
      ghost var spawned := SpawnAll(c, grid[..], players, d, |players|);
      Spawn(players, d);
      assert grid[..] == spawned.0 && avatars == spawned.1;
      ghost var initial := InitialFood(c, grid[..], d, c.gridSize / 5);
      var ok := PlaceInitialFood(d);
      if !ok {
        return None;
      }
      SpawnAllOk(c, old(grid[..]), players, d, |players|);
      assert State() == World(spawned.0, spawned.1, initial.value);
      assert Valid();
      score := RunTurns(d, agent);
    }

    /** One turn of `play` (lines 722-1026). `ok` is false when an agent's
      * answer is not an action; `gameDone` when no avatar was alive, in which
      * case only the collision test has run after the avatar loop. */
    method PlayTurn(turn: nat, d: Draws, agent: Agent) returns (ok: bool, gameDone: bool)
      requires Valid() && turn < c.nTurns && FoodOrdersOk(d)
      modifies this, grid
      ensures var r := Turn(c, old(State()), turn, d, agent);
        (ok <==> !r.Aborted?) &&
        (ok ==> Valid() && State() == r.w && (gameDone <==> r.Finished?))
    {
      var eaten;
      ok, eaten, gameDone := MoveAll(turn, agent);
      if !ok {
        return;
      }
      DetectCollisions();
      if gameDone {
        return;
      }
      PlaceHeads(turn);
      ReplenishFood(eaten, turn, d);
      RemoveHit();
    }

    /** The turn loop of `play` and the score (lines 722-1066): the game ends
      * early when no avatar was alive at the start of a turn, and gives None
      * when an agent's answer is not an action. */
    method RunTurns(d: Draws, agent: Agent) returns (score: Option<int>)
      requires Valid() && c.nTurns >= 1 && FoodOrdersOk(d)
      modifies this, grid
      ensures score == GameFrom(c, old(State()), 0, d, agent)
    {
      ghost var w0 := State();
      var turn := 0;
      while turn < c.nTurns
        invariant turn <= c.nTurns && Valid()
        invariant GameFrom(c, State(), turn, d, agent) == GameFrom(c, w0, 0, d, agent)
        decreases c.nTurns - turn
      {
        var ok, gameDone := PlayTurn(turn, d, agent);
        if !ok {
          return None;
        }
        if gameDone {
          var s := ScoreGame();
          return Some(s);
        }
        turn := turn + 1;
      }
      var s := ScoreGame();
      score := Some(s);
    }
  }

  /** `np.max` of a non-empty list. */
  method MaxSize(s: seq<int>) returns (m: int)
    requires |s| >= 1
    ensures m == MaxOf(s)
  {
    m := s[0];
    for k := 1 to |s|
      invariant m == MaxOf(s[..k])
    {
      assert s[..k + 1][..k] == s[..k];
      if s[k] > m {
        m := s[k];
      }
    }
    assert s[..|s|] == s;
  }

  /** Lines 569-605: the candidates permuted by `perm`, then up to `n` of them popped from the end. */
  method TakeFromEnd(cands: seq<Pos>, perm: seq<nat>, n: int) returns (placements: seq<Pos>)
    requires IsPermutation(perm, |cands|)
    ensures placements == Placements(cands, perm, n)
  {
    var permuted := seq(|cands|, k requires 0 <= k < |cands| => cands[perm[k]]);
    placements := [];
    var k := 0;
    while k < n && |permuted| >= 1
      invariant 0 <= k <= |cands| && |permuted| == |cands| - k && (k == 0 || k <= n)
      invariant forall q :: 0 <= q < |permuted| ==> permuted[q] == cands[perm[q]]
      invariant placements == seq(k, q requires 0 <= q < k => cands[perm[|cands| - 1 - q]])
      decreases |permuted|
    {
      placements := placements + [permuted[|permuted| - 1]];
      permuted := permuted[..|permuted| - 1];
      k := k + 1;
    }
    assert k == if n <= 0 then 0 else if n < |cands| then n else |cands|;
  }

  /** The pair (a, b) has been compared once the outer loop is at `i` and the inner loop at `j`. */
  predicate PairDone(a: nat, b: nat, i: nat, j: nat)
  {
    a < i || b < i || (a == i && b < j) || (b == i && a < j)
  }

  /** A head clash of `a` among the pairs compared so far. */
  predicate ClashSoFar(avs: seq<Avatar>, a: nat, i: nat, j: nat)
    requires a < |avs|
  {
    exists b :: 0 <= b < |avs| && b != a && Contender(avs, b) && avs[b].head == avs[a].head && PairDone(a, b, i, j)
  }

  /** Whether `a` is hit once the loops are at (i, j): clashes so far, and the map test for the avatars before `i`. */
  function HitSoFar(c: Config, w: World, a: nat, i: nat, j: nat): bool
    requires WorldOk(c, w) && a < |w.avatars|
  {
    w.avatars[a].hit ||
    (Contender(w.avatars, a) && (ClashSoFar(w.avatars, a, i, j) || (a < i && w.board[Idx(w.avatars[a].head, c.gridSize)] != 0)))
  }

  /** Comparing the pair (i, j) adds at most that pair's clash. */
  lemma ClashStep(avs: seq<Avatar>, a: nat, i: nat, j: nat)
    requires a < |avs| && i < j < |avs|
    ensures ClashSoFar(avs, a, i, j + 1) ==
      (ClashSoFar(avs, a, i, j) ||
       (a == i && Contender(avs, j) && avs[j].head == avs[i].head) ||
       (a == j && Contender(avs, i) && avs[i].head == avs[j].head))
  {
    if ClashSoFar(avs, a, i, j + 1) && !ClashSoFar(avs, a, i, j) {
      var b :| 0 <= b < |avs| && b != a && Contender(avs, b) && avs[b].head == avs[a].head && PairDone(a, b, i, j + 1);
      assert !PairDone(a, b, i, j);
    }
    if a == i && Contender(avs, j) && avs[j].head == avs[i].head {
      assert PairDone(a, j, i, j + 1);
    }
    if a == j && Contender(avs, i) && avs[i].head == avs[j].head {
      assert PairDone(a, i, i, j + 1);
    }
  }

  /** The end of the inner loop for `i` is the start of the one for `i + 1`. */
  lemma ClashNextRow(avs: seq<Avatar>, a: nat, i: nat)
    requires a < |avs| && i < |avs|
    ensures ClashSoFar(avs, a, i, |avs|) == ClashSoFar(avs, a, i + 1, i + 2)
  {
    if ClashSoFar(avs, a, i, |avs|) {
      var b :| 0 <= b < |avs| && b != a && Contender(avs, b) && avs[b].head == avs[a].head && PairDone(a, b, i, |avs|);
      assert PairDone(a, b, i + 1, i + 2);
    }
    if ClashSoFar(avs, a, i + 1, i + 2) {
      var b :| 0 <= b < |avs| && b != a && Contender(avs, b) && avs[b].head == avs[a].head && PairDone(a, b, i + 1, i + 2);
      assert PairDone(a, b, i, |avs|);
    }
  }

  /** An avatar that takes no part leaves the other avatars' clashes as they were. */
  lemma ClashSkip(avs: seq<Avatar>, a: nat, i: nat)
    requires a < |avs| && i < |avs| && !Contender(avs, i)
    ensures a != i ==> ClashSoFar(avs, a, i, i + 1) == ClashSoFar(avs, a, i + 1, i + 2)
  {
    if a != i && ClashSoFar(avs, a, i + 1, i + 2) {
      var b :| 0 <= b < |avs| && b != a && Contender(avs, b) && avs[b].head == avs[a].head && PairDone(a, b, i + 1, i + 2);
      assert PairDone(a, b, i, i + 1);
    }
  }

  /** Comparing a live pair (i, j) hits both when their heads meet and nothing else. */
  lemma HitPairStep(c: Config, w: World, i: nat, j: nat)
    requires WorldOk(c, w) && i < j < |w.avatars|
    ensures forall a :: 0 <= a < |w.avatars| ==> (HitSoFar(c, w, a, i, j + 1) ==
      (HitSoFar(c, w, a, i, j) ||
       ((a == i || a == j) && Contender(w.avatars, i) && Contender(w.avatars, j) && w.avatars[i].head == w.avatars[j].head)))
  {
    var avs := w.avatars;
    forall a | 0 <= a < |avs|
      ensures HitSoFar(c, w, a, i, j + 1) ==
        (HitSoFar(c, w, a, i, j) ||
         ((a == i || a == j) && Contender(avs, i) && Contender(avs, j) && avs[i].head == avs[j].head))
    {
      ClashStep(avs, a, i, j);
    }
  }

  /** After the inner loop for `i`, the map test for `i` completes its row. */
  lemma HitRowEnd(c: Config, w: World, i: nat)
    requires WorldOk(c, w) && i < |w.avatars|
    ensures forall a :: 0 <= a < |w.avatars| ==> (HitSoFar(c, w, a, i + 1, i + 2) ==
      (HitSoFar(c, w, a, i, |w.avatars|) ||
       (a == i && Contender(w.avatars, i) && w.board[Idx(w.avatars[i].head, c.gridSize)] != 0)))
  {
    forall a | 0 <= a < |w.avatars| {
      ClashNextRow(w.avatars, a, i);
    }
  }

  /** An avatar outside the test changes nothing in its row. */
  lemma HitSkip(c: Config, w: World, i: nat)
    requires WorldOk(c, w) && i < |w.avatars| && !Contender(w.avatars, i)
    ensures forall a {:trigger HitSoFar(c, w, a, i, i + 1)} :: 0 <= a < |w.avatars| ==>
      HitSoFar(c, w, a, i, i + 1) == HitSoFar(c, w, a, i + 1, i + 2)
  {
    forall a {:trigger HitSoFar(c, w, a, i, i + 1)} | 0 <= a < |w.avatars|
      ensures HitSoFar(c, w, a, i, i + 1) == HitSoFar(c, w, a, i + 1, i + 2)
    {
      ClashSkip(w.avatars, a, i);
    }
  }

  /** The two loops of lines 933-967 on a state, returning the avatars with
    * their new hit flags; the map test reads the state's board. */
  method CollisionFlags(c: Config, w: World) returns (avs: seq<Avatar>)
    requires WorldOk(c, w)
    ensures avs == Collide(c, w).avatars
  {
    var n := |w.avatars|;
    avs := w.avatars;
    var wasHit := seq(n, k requires 0 <= k < n => avs[k].hit);
    for i := 0 to n
      invariant HitState(c, w, avs, i, i + 1)
    {
      assert wasHit[i] == w.avatars[i].hit;
      if !wasHit[i] && !avs[i].dead {
        for j := i + 1 to n
          invariant HitState(c, w, avs, i, j)
        {
          ghost var before := avs;
          assert wasHit[j] == w.avatars[j].hit;
          if !wasHit[j] && !avs[j].dead && avs[i].head == avs[j].head {
            avs := avs[i := avs[i].(hit := true)];
            avs := avs[j := avs[j].(hit := true)];
          }
          HitStatePair(c, w, before, avs, i, j);
        }
        ghost var before := avs;
        if !avs[i].hit {
          if w.board[Idx(avs[i].head, c.gridSize)] != 0 {
            avs := avs[i := avs[i].(hit := true)];
          }
        }
        HitStateRowEnd(c, w, before, avs, i);
      } else {
        HitStateSkip(c, w, avs, i);
      }
    }
    HitStateDone(c, w, avs);
  }

  /** The avatars while the collision loops are at (i, j): only hit flags
    * differ from the start, and each is as HitSoFar says. */
  predicate HitState(c: Config, w: World, avs: seq<Avatar>, i: nat, j: nat)
    requires WorldOk(c, w)
  {
    |avs| == |w.avatars|
    && (forall a :: 0 <= a < |avs| ==> avs[a] == w.avatars[a].(hit := avs[a].hit))
    && (forall a :: 0 <= a < |avs| ==> avs[a].hit == HitSoFar(c, w, a, i, j))
  }

  /** Lines 946-951: comparing the pair (i, j) hits both when their heads meet. */
  lemma HitStatePair(c: Config, w: World, avs: seq<Avatar>, avs': seq<Avatar>, i: nat, j: nat)
    requires WorldOk(c, w) && i < j < |w.avatars| && Contender(w.avatars, i)
    requires HitState(c, w, avs, i, j)
    requires avs' == if !w.avatars[j].hit && !avs[j].dead && avs[i].head == avs[j].head
      then avs[i := avs[i].(hit := true)][j := avs[j].(hit := true)] else avs
    ensures HitState(c, w, avs', i, j + 1)
  {
    HitPairStep(c, w, i, j);
  }

  /** Lines 953-958: after its row, avatar i is hit when still not hit and its cell is not empty. */
  lemma HitStateRowEnd(c: Config, w: World, avs: seq<Avatar>, avs': seq<Avatar>, i: nat)
    requires WorldOk(c, w) && i < |w.avatars| && Contender(w.avatars, i)
    requires HitState(c, w, avs, i, |w.avatars|)
    requires avs' == if !avs[i].hit && w.board[Idx(avs[i].head, c.gridSize)] != 0 then avs[i := avs[i].(hit := true)] else avs
    ensures HitState(c, w, avs', i + 1, i + 2)
  {
    HitRowEnd(c, w, i);
  }

  /** An avatar outside the test leaves every flag as it was. */
  lemma HitStateSkip(c: Config, w: World, avs: seq<Avatar>, i: nat)
    requires WorldOk(c, w) && i < |w.avatars| && !Contender(w.avatars, i)
    requires HitState(c, w, avs, i, i + 1)
    ensures HitState(c, w, avs, i + 1, i + 2)
  {
    HitSkip(c, w, i);
  }

  /** After the last row the avatars are those of Collide. */
  lemma HitStateDone(c: Config, w: World, avs: seq<Avatar>)
    requires WorldOk(c, w)
    requires HitState(c, w, avs, |w.avatars|, |w.avatars| + 1)
    ensures avs == Collide(c, w).avatars
  {
    HitAll(c, w);
  }

  /** When the loops are done every avatar is hit exactly as the collision rule says. */
  lemma HitAll(c: Config, w: World)
    requires WorldOk(c, w)
    ensures forall a :: 0 <= a < |w.avatars| ==> HitSoFar(c, w, a, |w.avatars|, |w.avatars| + 1) == Collides(c, w, a)
  {
    forall a | 0 <= a < |w.avatars| {
      ClashAll(w.avatars, a);
    }
  }

  /** Once every pair is done, the clashes are all the head clashes. */
  lemma ClashAll(avs: seq<Avatar>, a: nat)
    requires a < |avs|
    ensures ClashSoFar(avs, a, |avs|, |avs| + 1) == HeadClash(avs, a)
  {
    if HeadClash(avs, a) {
      var b :| 0 <= b < |avs| && b != a && Contender(avs, b) && avs[b].head == avs[a].head;
      assert PairDone(a, b, |avs|, |avs| + 1);
    }
  }

  /** A region without an empty cell fails the rest of its row. */
  lemma {:induction false} RowFailSticks(c: Config, board: seq<int>, d: Draws, yr: nat, xr: nat, n: nat)
    requires ConfigOk(c) && |board| == c.gridSize * c.gridSize && yr < c.gridSize / 5
    requires xr <= n <= c.gridSize / 5 && FoodInRow(c, board, d, yr, xr).None?
    ensures FoodInRow(c, board, d, yr, n).None?
    decreases n - xr
  {
    if xr < n {
      RowFailSticks(c, board, d, yr, xr + 1, n);
    }
  }

  /** Once the initial food has failed it stays failed. */
  lemma {:induction false} InitialFailSticks(c: Config, board: seq<int>, d: Draws, yr: nat, n: nat)
    requires ConfigOk(c) && |board| == c.gridSize * c.gridSize
    requires yr <= n <= c.gridSize / 5 && InitialFood(c, board, d, yr).None?
    ensures InitialFood(c, board, d, n).None?
    decreases n - yr
  {
    if yr < n {
      assert InitialFood(c, board, d, yr + 1).None?;
      InitialFailSticks(c, board, d, yr + 1, n);
    }
  }

  /** Lines 564-568: the cells empty on the map and not in `food`, row by row and left to right. */
  method FreeList(board: seq<int>, food: seq<Pos>, g: nat) returns (cands: seq<Pos>)
    requires |board| == g * g
    ensures cands == FreeCells(board, food, g, g)
  {
    cands := [];
    for y := 0 to g
      invariant cands == FreeCells(board, food, g, y)
    {
      for x := 0 to g
        invariant cands == FreeCells(board, food, g, y) + FreeInRow(board, food, g, y, x)
      {
        if Free(board, food, g, Pos(y, x)) {
          cands := cands + [Pos(y, x)];
        }
      }
    }
  }

  /** `place_food` (lines 563-611): the free cells are permuted by the
    * order drawn for their number, and up to `n` are taken from the end. */
  method PlaceFood(board: seq<int>, food: seq<Pos>, g: nat, d: Draws, turn: nat, n: int) returns (placements: seq<Pos>)
    requires |board| == g * g && FoodOrdersOk(d)
    ensures var cands := FreeCells(board, food, g, g);
      placements == Placements(cands, d.foodOrder(turn, |cands|), n)
  {
    var cands := FreeList(board, food, g);
    placements := TakeFromEnd(cands, d.foodOrder(turn, |cands|), n);
  }

  /** The food list after lines 997-1004. */
  method ReplenishedFood(c: Config, w: World, eaten: seq<Pos>, turn: nat, d: Draws) returns (f: seq<Pos>)
    requires WorldOk(c, w) && FoodOrdersOk(d)
    ensures Replenish(c, w, eaten, turn, d) == w.(food := f)
  {
    var rest := RemoveEatenFood(w.food, eaten);
    if |rest| < c.nFoods {
      var placements := PlaceFood(w.board, rest, c.gridSize, d, turn, c.nFoods - |rest|);
      ReplenishTopUp(c, w, eaten, turn, d, rest, placements);
      f := rest + placements;
    } else {
      ReplenishNoTopUp(c, w, eaten, turn, d, rest);
      f := rest;
    }
  }

  /** Lines 997-1001: each eaten cell is removed once from the food, when it is still there. */
  method RemoveEatenFood(food: seq<Pos>, eaten: seq<Pos>) returns (rest: seq<Pos>)
    ensures rest == RemoveEaten(food, eaten, |eaten|)
  {
    rest := food;
    for k := 0 to |eaten|
      invariant rest == RemoveEaten(food, eaten, k)
    {
      rest := RemoveFirst(rest, eaten[k]);
    }
  }

  /** When fewer than `nFoods` remain, Replenish appends the placements drawn from the free cells. */
  lemma ReplenishTopUp(c: Config, w: World, eaten: seq<Pos>, turn: nat, d: Draws, rest: seq<Pos>, placements: seq<Pos>)
    requires WorldOk(c, w) && FoodOrdersOk(d) && rest == RemoveEaten(w.food, eaten, |eaten|) && |rest| < c.nFoods
    requires var cands := FreeCells(w.board, rest, c.gridSize, c.gridSize);
      placements == Placements(cands, d.foodOrder(turn, |cands|), c.nFoods - |rest|)
    ensures Replenish(c, w, eaten, turn, d) == w.(food := rest + placements)
  {
  }

  /** With `nFoods` or more remaining, Replenish only removes the eaten food. */
  lemma ReplenishNoTopUp(c: Config, w: World, eaten: seq<Pos>, turn: nat, d: Draws, rest: seq<Pos>)
    requires WorldOk(c, w) && FoodOrdersOk(d) && rest == RemoveEaten(w.food, eaten, |eaten|) && |rest| >= c.nFoods
    ensures Replenish(c, w, eaten, turn, d) == w.(food := rest)
  {
  }

  /** Entry (j, i) of the block of region (yr, xr) is its cell j * 5 + i, on the grid. */
  lemma BlockCellAt(g: nat, yr: nat, xr: nat, j: nat, i: nat)
    requires yr < g / 5 && xr < g / 5 && j < 5 && i < 5
    ensures BlockCell(yr, xr, j * 5 + i) == Pos(yr * 5 + j, xr * 5 + i)
    ensures InGrid(Pos(yr * 5 + j, xr * 5 + i), g)
  {
    assert (j * 5 + i) / 5 == j && (j * 5 + i) % 5 == i;
    assert yr * 5 + 5 <= g / 5 * 5 <= g;
    assert xr * 5 + 5 <= g / 5 * 5;
  }

  lemma ActAllStep(c: Config, w0: World, w: World, turn: nat, agent: Agent, k: nat, eaten: seq<Pos>)
    requires WorldOk(c, w0) && WorldOk(c, w) && k < |w.avatars| == |w0.avatars|
    requires forall a :: 0 <= a < |w.avatars| ==> SameStatus(w.avatars[a], w0.avatars[a])
    ensures w.avatars[k].dead == w0.avatars[k].dead
    ensures var r := Act(c, w, k, turn, agent, eaten);
      (r.None? ==> ActAll(c, w, turn, agent, k, eaten).None?) &&
      (r.Some? ==> ActAll(c, w, turn, agent, k, eaten) == ActAll(c, r.value.0, turn, agent, k + 1, r.value.1)
                   && forall a :: 0 <= a < |w.avatars| ==> SameStatus(r.value.0.avatars[a], w0.avatars[a]))
  {
    ActStatus(c, w, k, turn, agent, eaten);
  }

  /** `game_done` after avatar k: still true exactly when avatars 0..k are all dead. */
  lemma DeadPrefixStep(avs: seq<Avatar>, k: nat, before: bool, after: bool)
    requires k < |avs| && (before <==> forall a :: 0 <= a < k ==> avs[a].dead)
    requires after == (before && avs[k].dead)
    ensures after <==> forall a :: 0 <= a < k + 1 ==> avs[a].dead
  {
  }
}
