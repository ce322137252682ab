// The rules of one game of snakes (snakes/snakes.py, SnakePlay.play and
// place_food) stated on values: the grid `map` as a row-major sequence
// of cells, the avatars in player order, and the food list. The imperative
// engine in SnakeEngine is proved to follow these definitions step by step.
module SnakeRules {
  import opened Wrappers
  import opened SnakeGeometry
  import opened SnakePlayer

  /** The fixed parameters of a game and each player's percept settings, in player order. */
  datatype Config = Config(gridSize: nat, nTurns: nat, nFoods: nat, senses: seq<Senses>)

  predicate ConfigOk(c: Config)
  {
    c.gridSize >= 5 && 1 <= |c.senses| <= 2 && forall k :: 0 <= k < |c.senses| ==> SensesOk(c.senses[k])
  }

  /** Player 0's cells are positive on the map, player 1's negative. */
  function Side(owner: nat): int
  {
    if owner == 0 then 1 else -1
  }

  function Sign(v: int): int
  {
    if v > 0 then 1 else if v < 0 then -1 else 0
  }

  /** One step toward 0: a body segment growing one turn older. */
  function Toward0(v: int): int
  {
    if v > 0 then v - 1 else if v < 0 then v + 1 else 0
  }

  /** Ageing keeps the sign until the value reaches 0, and lowers the magnitude by one. */
  lemma Toward0Keeps(v: int)
    ensures v != 0 ==> (Toward0(v) == 0 || Sign(Toward0(v)) == Sign(v))
    ensures v != 0 ==> Toward0(v) * Sign(v) == v * Sign(v) - 1
    ensures v == 0 ==> Toward0(v) == 0
  {
  }

  predicate InGrid(p: Pos, g: nat)
  {
    0 <= p.y < g && 0 <= p.x < g
  }

  lemma CellBound(y: int, x: int, g: int)
    requires 0 <= y < g && 0 <= x < g
    ensures 0 <= y * g + x < g * g
  {
    RowsApart(y, g, g);
  }

  /** The position of cell `p` in the row-major map. */
  function Idx(p: Pos, g: nat): (k: nat)
    requires InGrid(p, g)
    ensures k < g * g
  {
    CellBound(p.y, p.x, g);
    p.y * g + p.x
  }

  /** Distinct cells occupy distinct positions of the map. */
  lemma IdxInjective(p: Pos, q: Pos, g: nat)
    requires InGrid(p, g) && InGrid(q, g) && Idx(p, g) == Idx(q, g)
    ensures p == q
  {
    if p.y < q.y {
      RowsApart(p.y, q.y, g);
    } else if q.y < p.y {
      RowsApart(q.y, p.y, g);
    }
  }

  lemma {:induction false} RowsApart(a: int, b: int, g: int)
    requires 0 <= a < b && g >= 0
    ensures b * g >= a * g + g
    decreases b - a
  {
    assert b * g == (b - 1) * g + g;
    if a < b - 1 {
      RowsApart(a, b - 1, g);
    }
  }

  predicate CellsIn(cells: seq<Pos>, g: nat)
  {
    forall k :: 0 <= k < |cells| ==> InGrid(cells[k], g)
  }

  predicate Distinct<T(==)>(s: seq<T>)
  {
    forall i, j :: 0 <= i < j < |s| ==> s[i] != s[j]
  }

  /** The state of a game between steps: the map, the avatars of all players in player order, and the food cells. */
  datatype World = World(board: seq<int>, avatars: seq<Avatar>, food: seq<Pos>)

  predicate AvatarOk(c: Config, a: Avatar)
  {
    a.owner < |c.senses| && InGrid(a.head, c.gridSize) && IsRotation(a.rotation) &&
    |a.sizes| == c.nTurns && CellsIn(a.body, c.gridSize) &&
    |a.percepts| == c.senses[a.owner].nFrames &&
    forall f :: 0 <= f < |a.percepts| ==> IsSquare(a.percepts[f], c.senses[a.owner].fov)
  }

  predicate WorldOk(c: Config, w: World)
  {
    ConfigOk(c) && |w.board| == c.gridSize * c.gridSize && CellsIn(w.food, c.gridSize) &&
    forall i :: 0 <= i < |w.avatars| ==> AvatarOk(c, w.avatars[i])
  }

  // ---------------------------------------------------------------------
  // Percepts (lines 759-808)
  // ---------------------------------------------------------------------

  /** What an avatar of the given side sees in a cell: food 2 over anything,
    * otherwise +1 for its own side, -1 for the other, 0 for empty. */
  function See(board: seq<int>, food: seq<Pos>, g: nat, p: Pos, side: int): int
    requires InGrid(p, g) && |board| == g * g
  {
    if p in food then 2
    else if board[Idx(p, g)] != 0 then side * Sign(board[Idx(p, g)])
    else 0
  }

  /** The cell seen at window entry (i, j) from `head`. */
  function Viewed(head: Pos, g: nat, fov: nat, i: int, j: int): Pos
  {
    Pos(Wrap(head.y + i - fov / 2, g), Wrap(head.x + j - fov / 2, g))
  }

  /** The fov x fov window centred on the head, read from the map with wrap-around. */
  function Window(board: seq<int>, food: seq<Pos>, g: nat, head: Pos, fov: nat, side: int): (r: Frame)
    requires g >= 5 && fov <= 9 && InGrid(head, g) && |board| == g * g
    ensures IsSquare(r, fov)
  {
    seq(fov, i requires 0 <= i < fov =>
      seq(fov, j requires 0 <= j < fov => See(board, food, g, Viewed(head, g, fov, i, j), side)))
  }

  /** Entry (i, j) shows the cell at offset (i - fov/2, j - fov/2) from the head,
    * modulo the grid: 2 exactly for food, +1 for a non-food cell of the
    * viewer's side, -1 for the other side's, 0 for an empty cell. */
  lemma WindowEntry(board: seq<int>, food: seq<Pos>, g: nat, head: Pos, fov: nat, side: int, i: nat, j: nat)
    requires g >= 5 && fov <= 9 && InGrid(head, g) && |board| == g * g
    requires side == 1 || side == -1
    requires i < fov && j < fov
    ensures InGrid(Viewed(head, g, fov, i, j), g)
    ensures Viewed(head, g, fov, i, j) == Pos((head.y + i - fov / 2) % g, (head.x + j - fov / 2) % g)
    ensures var p := Viewed(head, g, fov, i, j); var v := Window(board, food, g, head, fov, side)[i][j];
      (v == 2 <==> p in food) &&
      (v == 1 <==> p !in food && Sign(board[Idx(p, g)]) == side) &&
      (v == -1 <==> p !in food && Sign(board[Idx(p, g)]) == -side) &&
      (v == 0 <==> p !in food && board[Idx(p, g)] == 0)
  {
    WrapIsModulus(head.y + i - fov / 2, g);
    WrapIsModulus(head.x + j - fov / 2, g);
  }

  /** The centre of the window is the head's own cell. */
  lemma WindowCentre(g: nat, head: Pos, fov: nat)
    requires g >= 5 && InGrid(head, g)
    ensures Viewed(head, g, fov, fov / 2, fov / 2) == head
  {
  }

  /** The frames handed to the agent: every frame turned into its frame of reference. */
  function Rotated(ps: seq<Frame>, rotation: int, fov: nat): (r: seq<Frame>)
    requires forall f :: 0 <= f < |ps| ==> IsSquare(ps[f], fov)
    ensures |r| == |ps| && forall f :: 0 <= f < |ps| ==> IsSquare(r[f], fov)
  {
    seq(|ps|, f requires 0 <= f < |ps| => ToAgentFrame(ps[f], fov, rotation))
  }

  // ---------------------------------------------------------------------
  // Percept memory (lines 825-847)
  // ---------------------------------------------------------------------

  /** One entry of a memory frame after the shift: rows move up for dy = 1 and
    * down for dy = -1, otherwise columns move left for dx = 1 and right for
    * dx = -1; the row or column left open is 0. */
  function ShiftedCell(m: Frame, n: nat, dy: int, dx: int, i: nat, j: nat): int
    requires IsSquare(m, n) && i < n && j < n
  {
    if dy == 1 then (if i < n - 1 then m[i + 1][j] else 0)
    else if dy == -1 then (if i > 0 then m[i - 1][j] else 0)
    else if dx == 1 then (if j < n - 1 then m[i][j + 1] else 0)
    else if dx == -1 then (if j > 0 then m[i][j - 1] else 0)
    else m[i][j]
  }

  function Shifted(m: Frame, n: nat, dy: int, dx: int): (r: Frame)
    requires IsSquare(m, n)
    ensures IsSquare(r, n)
  {
    seq(n, i requires 0 <= i < n => seq(n, j requires 0 <= j < n => ShiftedCell(m, n, dy, dx, i, j)))
  }

  /** After the loop of lines 827-847 every frame but the last holds the
    * shifted copy of its successor, and the last frame (shifted in place)
    * holds its own shifted copy; a single frame is left alone. */
  function Memory(ps: seq<Frame>, fov: nat, dy: int, dx: int): (r: seq<Frame>)
    requires |ps| >= 1 && forall f :: 0 <= f < |ps| ==> IsSquare(ps[f], fov)
    ensures |r| == |ps| && forall f :: 0 <= f < |ps| ==> IsSquare(r[f], fov)
  {
    seq(|ps|, f requires 0 <= f < |ps| => MemoryFrame(ps, fov, dy, dx, f))
  }

  function MemoryFrame(ps: seq<Frame>, fov: nat, dy: int, dx: int, f: nat): (r: Frame)
    requires f < |ps| && forall f :: 0 <= f < |ps| ==> IsSquare(ps[f], fov)
    ensures IsSquare(r, fov)
  {
    var n := |ps|;
    if n == 1 then ps[0] else Shifted(ps[if f < n - 1 then f + 1 else n - 1], fov, dy, dx)
  }

  // ---------------------------------------------------------------------
  // Moving, eating and ageing (lines 870-928)
  // ---------------------------------------------------------------------

  /** Lines 919-928 over the first `k` body cells: each cell's map value moves
    * one step toward 0, and the cells still nonzero right after their own
    * update are kept, in order. */
  function AgeBody(board: seq<int>, g: nat, body: seq<Pos>, k: nat): (r: (seq<int>, seq<Pos>))
    requires |board| == g * g && CellsIn(body, g) && k <= |body|
    ensures |r.0| == |board| && CellsIn(r.1, g) && |r.1| <= k
  {
    if k == 0 then (board, [])
    else
      var prev := AgeBody(board, g, body, k - 1);
      var p := body[k - 1];
      var v := Toward0(prev.0[Idx(p, g)]);
      (prev.0[Idx(p, g) := v], if v != 0 then prev.1 + [p] else prev.1)
  }

  /** The head after one step in direction `d`, each coordinate wrapped into the grid. */
  function StepHead(head: Pos, d: (int, int), g: nat): (r: Pos)
    requires g > 0 && InGrid(head, g) && -1 <= d.0 <= 1 && -1 <= d.1 <= 1
    ensures InGrid(r, g)
  {
    Pos(StepCoord(head.y, d.0, g), StepCoord(head.x, d.1, g))
  }

  /** An agent: given the avatar's index, the turn number (from 1) and the
    * rotated percept frames, what its `AgentFunction` gives back. */
  type Agent = (nat, nat, seq<Frame>) -> Reply

  /** The avatar as it leaves the percept step: its newest frame is the window. */
  function Perceive(c: Config, w: World, i: nat): (ps: seq<Frame>)
    requires WorldOk(c, w) && i < |w.avatars|
    ensures var a := w.avatars[i]; |ps| == |a.percepts| && forall f :: 0 <= f < |ps| ==> IsSquare(ps[f], c.senses[a.owner].fov)
  {
    var a := w.avatars[i];
    var s := c.senses[a.owner];
    a.percepts[|a.percepts| - 1 := Window(w.board, w.food, c.gridSize, a.head, s.fov, Side(a.owner))]
  }

  /** What happens once the action is known: the memory is shifted, the heading
    * and head move; on food the avatar grows by one and the cell is eaten,
    * otherwise its body ages on the map. */
  function Advance(c: Config, w: World, i: nat, ps: seq<Frame>, action: int, eaten: seq<Pos>): (r: (World, seq<Pos>))
    requires WorldOk(c, w) && i < |w.avatars| && IsAction(action)
    requires var a := w.avatars[i]; |ps| == |a.percepts| && forall f :: 0 <= f < |ps| ==> IsSquare(ps[f], c.senses[a.owner].fov)
    ensures WorldOk(c, r.0) && |r.0.avatars| == |w.avatars| && r.0.food == w.food
  {
    var a := w.avatars[i];
    var g := c.gridSize;
    var fov := c.senses[a.owner].fov;
    var shift := MemoryShift(action, a.rotation).value;
    var head := StepHead(a.head, MoveStep(action, a.rotation), g);
    var a2 := a.(percepts := Memory(ps, fov, shift.0, shift.1), rotation := NextRotation(a.rotation, action), head := head);
    if head in w.food then
      (w.(avatars := w.avatars[i := a2.(size := a.size + 1)]), eaten + [head])
    else
      var (b, kept) := AgeBody(w.board, g, a.body, |a.body|);
      (World(b, w.avatars[i := a2.(body := kept)], w.food), eaten)
  }

  /** The body of the avatar loop (lines 753-928) for avatar `i`; None when the agent's answer is not an action. */
  function Act(c: Config, w: World, i: nat, turn: nat, agent: Agent, eaten: seq<Pos>): (r: Option<(World, seq<Pos>)>)
    requires WorldOk(c, w) && i < |w.avatars|
    ensures r.Some? ==> WorldOk(c, r.value.0) && |r.value.0.avatars| == |w.avatars| && r.value.0.food == w.food
  {
    var a := w.avatars[i];
    if a.dead then Some((w, eaten))
    else
      var ps := Perceive(c, w, i);
      match ValidateAction(agent(i, turn + 1, Rotated(ps, a.rotation, c.senses[a.owner].fov)))
      case Err(_) => None
      case Ok(action) => Some(Advance(c, w, i, ps, action, eaten))
  }

  /** The avatar loop from avatar `k` on, with the cells eaten so far; None
    * as soon as one agent's answer is not an action. */
  function ActAll(c: Config, w: World, turn: nat, agent: Agent, k: nat, eaten: seq<Pos>): (r: Option<(World, seq<Pos>)>)
    requires WorldOk(c, w) && k <= |w.avatars|
    ensures r.Some? ==> WorldOk(c, r.value.0) && |r.value.0.avatars| == |w.avatars| && r.value.0.food == w.food
    decreases |w.avatars| - k
  {
    if k == |w.avatars| then Some((w, eaten))
    else
      match Act(c, w, k, turn, agent, eaten)
      case None => None
      case Some((w1, eaten1)) => ActAll(c, w1, turn, agent, k + 1, eaten1)
  }

  // ---------------------------------------------------------------------
  // Collisions (lines 933-970)
  // ---------------------------------------------------------------------

  /** An avatar taking part in the collision test: in `all_avatars` (not hit) and not dead. */
  predicate Contender(avs: seq<Avatar>, b: nat)
    requires b < |avs|
  {
    !avs[b].hit && !avs[b].dead
  }

  /** Some other contender's new head is on the same cell. */
  predicate HeadClash(avs: seq<Avatar>, a: nat)
    requires a < |avs|
  {
    exists b :: 0 <= b < |avs| && b != a && Contender(avs, b) && avs[b].head == avs[a].head
  }

  /** Whether avatar `a` is hit after the collision test: it already was, or it
    * is a contender whose head meets another contender's or lands on a nonzero
    * map cell. */
  function Collides(c: Config, w: World, a: nat): bool
    requires WorldOk(c, w) && a < |w.avatars|
  {
    w.avatars[a].hit ||
    (Contender(w.avatars, a) && (HeadClash(w.avatars, a) || w.board[Idx(w.avatars[a].head, c.gridSize)] != 0))
  }

  function Collide(c: Config, w: World): (r: World)
    requires WorldOk(c, w)
    ensures WorldOk(c, r) && |r.avatars| == |w.avatars| && r.board == w.board && r.food == w.food
  {
    w.(avatars := seq(|w.avatars|, a requires 0 <= a < |w.avatars| => w.avatars[a].(hit := Collides(c, w, a))))
  }

  // ---------------------------------------------------------------------
  // New heads (lines 979-995)
  // ---------------------------------------------------------------------

  /** Over the first `k` avatars: each one not hit writes `size * side` at its
    * head, appends the head to its body and records its size for the turn. */
  function WriteHeads(c: Config, w: World, turn: nat, k: nat): (r: World)
    requires WorldOk(c, w) && turn < c.nTurns && k <= |w.avatars|
    ensures |r.board| == |w.board| && |r.avatars| == |w.avatars| && r.food == w.food
    ensures forall i :: k <= i < |w.avatars| ==> r.avatars[i] == w.avatars[i]
  {
    if k == 0 then w
    else
      var w1 := WriteHeads(c, w, turn, k - 1);
      var a := w1.avatars[k - 1];
      if a.hit then w1
      else
        World(w1.board[Idx(a.head, c.gridSize) := a.size * Side(a.owner)],
              w1.avatars[k - 1 := UpdateSizeStats(a.(body := a.body + [a.head]), turn)],
              w1.food)
  }

  /** Writing heads keeps a world well formed. */
  lemma {:induction false} WriteHeadsOk(c: Config, w: World, turn: nat, k: nat)
    requires WorldOk(c, w) && turn < c.nTurns && k <= |w.avatars|
    ensures WorldOk(c, WriteHeads(c, w, turn, k))
  {
    if k > 0 {
      WriteHeadsOk(c, w, turn, k - 1);
    }
  }

  // ---------------------------------------------------------------------
  // Food (lines 563-611, 997-1004)
  // ---------------------------------------------------------------------

  /** `try: food.remove(p) except: pass` for each eaten cell in turn. */
  function RemoveEaten(food: seq<Pos>, eaten: seq<Pos>, k: nat): (r: seq<Pos>)
    requires k <= |eaten|
    ensures |r| <= |food|
  {
    if k == 0 then food
    else RemoveFirst(RemoveEaten(food, eaten, k - 1), eaten[k - 1])
  }

  /** Removing eaten cells keeps the remaining food on the grid. */
  lemma {:induction false} RemoveEatenInGrid(food: seq<Pos>, eaten: seq<Pos>, k: nat, g: nat)
    requires k <= |eaten| && CellsIn(food, g)
    ensures CellsIn(RemoveEaten(food, eaten, k), g)
  {
    if k > 0 {
      var prev := RemoveEaten(food, eaten, k - 1);
      RemoveEatenInGrid(food, eaten, k - 1, g);
      match IndexOf(prev, eaten[k - 1])
      case None =>
      case Some(i) =>
        var r := RemoveAt(prev, i);
        assert RemoveEaten(food, eaten, k) == r;
        forall j | 0 <= j < |r|
          ensures InGrid(r[j], g)
        {
          assert r[j] == prev[if j < i then j else j + 1];
        }
    }
  }

  /** A cell where food may be placed: empty on the map and not already food. */
  predicate Free(board: seq<int>, food: seq<Pos>, g: nat, p: Pos)
    requires InGrid(p, g) && |board| == g * g
  {
    board[Idx(p, g)] == 0 && p !in food
  }

  /** The free cells of row `y` with column below `x`, left to right. */
  function FreeInRow(board: seq<int>, food: seq<Pos>, g: nat, y: nat, x: nat): (r: seq<Pos>)
    requires |board| == g * g && y < g && x <= g
    ensures CellsIn(r, g)
    ensures forall k :: 0 <= k < |r| ==> r[k].y == y && r[k].x < x && Free(board, food, g, r[k])
  {
    if x == 0 then []
    else
      var p := Pos(y, x - 1);
      FreeInRow(board, food, g, y, x - 1) + (if Free(board, food, g, p) then [p] else [])
  }

  /** The free cells of the rows above `y`, row by row: the candidates of `place_food`. */
  function FreeCells(board: seq<int>, food: seq<Pos>, g: nat, y: nat): (r: seq<Pos>)
    requires |board| == g * g && y <= g
    ensures CellsIn(r, g)
    ensures forall k :: 0 <= k < |r| ==> r[k].y < y && Free(board, food, g, r[k])
  {
    if y == 0 then []
    else FreeCells(board, food, g, y - 1) + FreeInRow(board, food, g, y - 1, g)
  }

  /** `o` lists each of 0, .., n-1 exactly once. */
  predicate IsPermutation(o: seq<nat>, n: nat)
  {
    |o| == n && (forall k :: 0 <= k < n ==> o[k] < n) && Distinct(o)
  }

  /** Lines 569-611: after permuting the candidates by `order`, up to N are popped from the end. */
  function Placements(cands: seq<Pos>, order: seq<nat>, n: int): (r: seq<Pos>)
    requires IsPermutation(order, |cands|)
  {
    var m := if n <= 0 then 0 else if n < |cands| then n else |cands|;
    seq(m, k requires 0 <= k < m => cands[order[|cands| - 1 - k]])
  }

  /** The random draws of one game, taken as given: the permutation of the
    * regions, each avatar's starting rotation, the choice of food cell per
    * region, and the permutation `place_food` uses on each turn for a given
    * number of candidates. */
  datatype Draws = Draws(
    regionOrder: seq<nat>,
    rotations: seq<int>,
    foodPick: (int, int) -> nat,
    foodOrder: (nat, nat) -> seq<nat>)

  ghost predicate FoodOrdersOk(d: Draws)
  {
    forall t: nat, n: nat :: IsPermutation(d.foodOrder(t, n), n)
  }

  /** Eaten food is removed, and if fewer than `nFoods` remain the food is topped up by `place_food`. */
  function Replenish(c: Config, w: World, eaten: seq<Pos>, turn: nat, d: Draws): (r: World)
    requires WorldOk(c, w) && FoodOrdersOk(d)
    ensures WorldOk(c, r) && r.board == w.board && r.avatars == w.avatars
  {
    var g := c.gridSize;
    var food := RemoveEaten(w.food, eaten, |eaten|);
    RemoveEatenInGrid(w.food, eaten, |eaten|, g);
    if |food| < c.nFoods then
      var cands := FreeCells(w.board, food, g, g);
      w.(food := food + Placements(cands, d.foodOrder(turn, |cands|), c.nFoods - |food|))
    else w.(food := food)
  }

  // ---------------------------------------------------------------------
  // Removing hit avatars (lines 1017-1026)
  // ---------------------------------------------------------------------

  /** The map with the first `k` of the cells set to 0. */
  function ClearCells(board: seq<int>, g: nat, cells: seq<Pos>, k: nat): (r: seq<int>)
    requires |board| == g * g && CellsIn(cells, g) && k <= |cells|
    ensures |r| == |board|
  {
    if k == 0 then board
    else ClearCells(board, g, cells, k - 1)[Idx(cells[k - 1], g) := 0]
  }

  /** Over the first `k` avatars: each one hit and not yet dead has its body
    * cleared from the map and emptied, and is marked dead. */
  function Cleanup(c: Config, w: World, k: nat): (r: World)
    requires WorldOk(c, w) && k <= |w.avatars|
    ensures |r.board| == |w.board| && |r.avatars| == |w.avatars| && r.food == w.food
    ensures forall i :: k <= i < |w.avatars| ==> r.avatars[i] == w.avatars[i]
  {
    if k == 0 then w
    else
      var w1 := Cleanup(c, w, k - 1);
      var a := w1.avatars[k - 1];
      if a.dead || !a.hit then w1
      else
        World(ClearCells(w1.board, c.gridSize, a.body, |a.body|),
              w1.avatars[k - 1 := a.(body := [], dead := true)],
              w1.food)
  }

  /** The end-of-turn cleanup keeps a world well formed. */
  lemma {:induction false} CleanupOk(c: Config, w: World, k: nat)
    requires WorldOk(c, w) && k <= |w.avatars|
    ensures WorldOk(c, Cleanup(c, w, k))
  {
    if k > 0 {
      CleanupOk(c, w, k - 1);
    }
  }

  // ---------------------------------------------------------------------
  // Turns and the game (lines 722-1066)
  // ---------------------------------------------------------------------

  predicate AllDead(avs: seq<Avatar>)
  {
    forall i :: 0 <= i < |avs| ==> avs[i].dead
  }

  datatype TurnResult = Aborted | Finished(w: World) | Continues(w: World)

  /** One turn: every live avatar acts in order; then collisions; the game
    * ends here when no avatar was alive; otherwise heads are written, food is
    * replenished and hit avatars are removed. */
  function Turn(c: Config, w: World, turn: nat, d: Draws, agent: Agent): (r: TurnResult)
    requires WorldOk(c, w) && turn < c.nTurns && FoodOrdersOk(d)
    ensures !r.Aborted? ==> WorldOk(c, r.w) && |r.w.avatars| == |w.avatars|
  {
    match ActAll(c, w, turn, agent, 0, [])
    case None => Aborted
    case Some((w1, eaten)) =>
      var w2 := Collide(c, w1);
      if AllDead(w.avatars) then Finished(w2)
      else
        var w3 := WriteHeads(c, w2, turn, |w2.avatars|);
        WriteHeadsOk(c, w2, turn, |w2.avatars|);
        var w4 := Replenish(c, w3, eaten, turn, d);
        CleanupOk(c, w4, |w4.avatars|);
        Continues(Cleanup(c, w4, |w4.avatars|))
  }

  /** `np.max(avatar.sizes)` */
  function MaxOf(s: seq<int>): (m: int)
    requires |s| >= 1
    ensures m in s && forall k :: 0 <= k < |s| ==> s[k] <= m
  {
    if |s| == 1 then s[0]
    else
      var m' := MaxOf(s[..|s| - 1]);
      assert s == s[..|s| - 1] + [s[|s| - 1]];
      if s[|s| - 1] > m' then s[|s| - 1] else m'
  }

  /** The sum, over the first `n` avatars owned by player `k`, of each one's largest recorded size. */
  function PlayerScore(avs: seq<Avatar>, k: nat, n: nat): int
    requires n <= |avs| && forall i :: 0 <= i < |avs| ==> |avs[i].sizes| >= 1
  {
    if n == 0 then 0
    else PlayerScore(avs, k, n - 1) + (if avs[n - 1].owner == k then MaxOf(avs[n - 1].sizes) else 0)
  }

  /** Lines 1054-1066: a single player's score, or player 0's minus player 1's. */
  function Score(c: Config, w: World): int
    requires WorldOk(c, w) && c.nTurns >= 1
  {
    var s0 := PlayerScore(w.avatars, 0, |w.avatars|);
    if |c.senses| == 1 then s0 else s0 - PlayerScore(w.avatars, 1, |w.avatars|)
  }

  /** The turns from `turn` on; None when an agent gives an invalid answer. */
  function GameFrom(c: Config, w: World, turn: nat, d: Draws, agent: Agent): Option<int>
    requires WorldOk(c, w) && turn <= c.nTurns && c.nTurns >= 1 && FoodOrdersOk(d)
    decreases c.nTurns - turn
  {
    if turn == c.nTurns then Some(Score(c, w))
    else
      match Turn(c, w, turn, d, agent)
      case Aborted => None
      case Finished(w1) => Some(Score(c, w1))
      case Continues(w1) => GameFrom(c, w1, turn + 1, d, agent)
  }

  // ---------------------------------------------------------------------
  // Setting up a game (lines 619-708)
  // ---------------------------------------------------------------------

  /** The regions of the rows above `y` as the source lists them: `[x, y]` for each row `y` and column `x`. */
  function RegionsUpTo(nR: nat, y: nat): (r: seq<(int, int)>)
    ensures |r| == y * nR
    ensures forall k :: 0 <= k < |r| ==> 0 <= r[k].0 < nR && 0 <= r[k].1 < y
  {
    if y == 0 then []
    else RegionsUpTo(nR, y - 1) + seq(nR, x requires 0 <= x < nR => (x, y - 1))
  }

  predicate SpawnDrawsOk(c: Config, d: Draws, n: nat)
  {
    var nR := c.gridSize / 5;
    IsPermutation(d.regionOrder, nR * nR) && n <= nR * nR &&
    |d.rotations| >= n && forall t :: 0 <= t < |d.rotations| ==> IsRotation(d.rotations[t])
  }
  /** What spawning demands: a valid configuration, enough regions and
    * rotations for the avatars, and every owner a known player. */
  predicate SpawnInputOk(c: Config, d: Draws, avs: seq<Avatar>)
  {
    ConfigOk(c) && SpawnDrawsOk(c, d, |avs|) && forall i :: 0 <= i < |avs| ==> avs[i].owner < |c.senses|
  }


  /** The region popped for the `t`th avatar: the permuted list is used from the end. */
  function SpawnRegion(c: Config, d: Draws, t: nat): (r: (int, int))
    requires ConfigOk(c) && SpawnDrawsOk(c, d, t + 1)
    ensures 0 <= r.0 < c.gridSize / 5 && 0 <= r.1 < c.gridSize / 5
  {
    var nR := c.gridSize / 5;
    RegionsUpTo(nR, nR)[d.regionOrder[nR * nR - 1 - t]]
  }

  /** The head of the `t`th avatar: the centre of its region (the first item of the region is used as the row). */
  function SpawnHead(c: Config, d: Draws, t: nat): (p: Pos)
    requires ConfigOk(c) && SpawnDrawsOk(c, d, t + 1)
    ensures InGrid(p, c.gridSize)
  {
    var (yr, xr) := SpawnRegion(c, d, t);
    Pos(yr * 5 + 2, xr * 5 + 2)
  }

  /** Body segment `z` of a spawned avatar. */
  function SpawnCell(head: Pos, rotation: int, z: nat, g: nat): (p: Pos)
    requires g > 0
    ensures InGrid(p, g)
  {
    var dir := TailDirection(rotation);
    Pos((head.y + dir.0 * z) % g, (head.x + dir.1 * z) % g)
  }

  /** Lines 686-690 for segments z < k: segment z gets `(size - z) * side` and joins the body. */
  function LayBody(board: seq<int>, g: nat, head: Pos, rotation: int, size: int, side: int, k: nat): (r: (seq<int>, seq<Pos>))
    requires |board| == g * g && g > 0
    ensures |r.0| == |board| && |r.1| == k && CellsIn(r.1, g)
    ensures forall z :: 0 <= z < k ==> r.1[z] == SpawnCell(head, rotation, z, g)
  {
    if k == 0 then (board, [])
    else
      var prev := LayBody(board, g, head, rotation, size, side, k - 1);
      var p := SpawnCell(head, rotation, k - 1, g);
      (prev.0[Idx(p, g) := (size - (k - 1)) * side], prev.1 + [p])
  }

  /** Lines 639-697 for the first `t` avatars: reset, then placed at a region
    * centre with the drawn rotation and a body laid out behind the head. */
  function SpawnAll(c: Config, board: seq<int>, avs: seq<Avatar>, d: Draws, t: nat): (r: (seq<int>, seq<Avatar>))
    requires SpawnInputOk(c, d, avs) && |board| == c.gridSize * c.gridSize && t <= |avs|
    ensures |r.0| == |board| && |r.1| == |avs|
    ensures forall i :: t <= i < |avs| ==> r.1[i] == avs[i]
  {
    if t == 0 then (board, avs)
    else
      var (b1, avs1) := SpawnAll(c, board, avs, d, t - 1);
      var a := ResetForNewGame(avs1[t - 1], c.nTurns, c.senses[avs1[t - 1].owner]);
      var head := SpawnHead(c, d, t - 1);
      var rotation := d.rotations[t - 1];
      var (b2, body) := LayBody(b1, c.gridSize, head, rotation, a.size, Side(a.owner), a.size as nat);
      (b2, avs1[t - 1 := a.(body := body, head := head, rotation := rotation)])
  }
  /** Every spawned avatar satisfies the avatar invariant. */
  lemma {:induction false} SpawnAllOk(c: Config, board: seq<int>, avs: seq<Avatar>, d: Draws, t: nat)
    requires SpawnInputOk(c, d, avs) && |board| == c.gridSize * c.gridSize && t <= |avs|
    ensures forall i :: 0 <= i < t ==> AvatarOk(c, SpawnAll(c, board, avs, d, t).1[i])
  {
    if t > 0 {
      SpawnAllOk(c, board, avs, d, t - 1);
    }
  }


  /** Cell `k` of the 5 x 5 block of region (yr, xr), row by row. */
  function BlockCell(yr: nat, xr: nat, k: nat): Pos
  {
    Pos(yr * 5 + k / 5, xr * 5 + k % 5)
  }

  /** The empty cells among the first `k` cells of the block. */
  function BlockFree(board: seq<int>, g: nat, yr: nat, xr: nat, k: nat): (r: seq<Pos>)
    requires |board| == g * g && yr < g / 5 && xr < g / 5 && k <= 25
    ensures CellsIn(r, g)
    ensures forall i :: 0 <= i < |r| ==> board[Idx(r[i], g)] == 0 && yr * 5 <= r[i].y < yr * 5 + 5 && xr * 5 <= r[i].x < xr * 5 + 5
  {
    if k == 0 then []
    else
      var p := BlockCell(yr, xr, k - 1);
      BlockFree(board, g, yr, xr, k - 1) + (if board[Idx(p, g)] == 0 then [p] else [])
  }

  /** Lines 700-708 over regions (yr, x) with x < xr: one food cell drawn from each region's empty cells; None where a region has none. */
  function FoodInRow(c: Config, board: seq<int>, d: Draws, yr: nat, xr: nat): (r: Option<seq<Pos>>)
    requires ConfigOk(c) && |board| == c.gridSize * c.gridSize && yr < c.gridSize / 5 && xr <= c.gridSize / 5
    ensures r.Some? ==> |r.value| == xr && CellsIn(r.value, c.gridSize)
    ensures r.Some? ==> forall k :: 0 <= k < xr ==>
      board[Idx(r.value[k], c.gridSize)] == 0 && yr * 5 <= r.value[k].y < yr * 5 + 5 && k * 5 <= r.value[k].x < k * 5 + 5
  {
    if xr == 0 then Some([])
    else
      match FoodInRow(c, board, d, yr, xr - 1)
      case None => None
      case Some(food) =>
        var free := BlockFree(board, c.gridSize, yr, xr - 1, 25);
        if |free| == 0 then None
        else Some(food + [free[d.foodPick(yr, xr - 1) % |free|]])
  }

  /** The initial food of the region rows above `yr`. */
  function InitialFood(c: Config, board: seq<int>, d: Draws, yr: nat): (r: Option<seq<Pos>>)
    requires ConfigOk(c) && |board| == c.gridSize * c.gridSize && yr <= c.gridSize / 5
    ensures r.Some? ==> |r.value| == yr * (c.gridSize / 5) && CellsIn(r.value, c.gridSize)
    ensures r.Some? ==> forall k :: 0 <= k < |r.value| ==> board[Idx(r.value[k], c.gridSize)] == 0
  {
    if yr == 0 then Some([])
    else
      match InitialFood(c, board, d, yr - 1)
      case None => None
      case Some(food) =>
        match FoodInRow(c, board, d, yr - 1, c.gridSize / 5)
        case None => None
        case Some(row) => Some(food + row)
  }

  /** What `SnakePlay.play` returns for the players' avatars: None when an agent fails. */
  function GameOutcome(c: Config, avs: seq<Avatar>, d: Draws, agent: Agent): Option<int>
    requires SpawnInputOk(c, d, avs) && c.nTurns >= 1 && FoodOrdersOk(d)
  {
    var g := c.gridSize;
    var spawned := SpawnAll(c, seq(g * g, _ => 0), avs, d, |avs|);
    SpawnAllOk(c, seq(g * g, _ => 0), avs, d, |avs|);
    match InitialFood(c, spawned.0, d, g / 5)
    case None => None
    case Some(food) => GameFrom(c, World(spawned.0, spawned.1, food), 0, d, agent)
  }
}
