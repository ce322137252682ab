// Properties of the snakes game rules (module SnakeRules): what one step of
// a turn does to the map, the avatars and the food, and what a whole turn
// keeps invariant.
module SnakeLaws {
  import opened Wrappers
  import opened SnakeGeometry
  import opened SnakePlayer
  import opened SnakeRules

  // ---------------------------------------------------------------------
  // Ageing a body (lines 919-928)
  // ---------------------------------------------------------------------

  /** The cells of body[..k] whose value, one step older, is still nonzero,
    * judged on the map before any of them aged. */
  function Survivors(board: seq<int>, g: nat, body: seq<Pos>, k: nat): (r: seq<Pos>)
    requires |board| == g * g && CellsIn(body, g) && k <= |body|
    ensures forall p :: p in r ==> p in body[..k]
  {
    if k == 0 then []
    else
      assert body[..k] == body[..k - 1] + [body[k - 1]];
      Survivors(board, g, body, k - 1) + (if Toward0(board[Idx(body[k - 1], g)]) != 0 then [body[k - 1]] else [])
  }

  /** A body without repeated cells decides each of its cells on its own value. */
  lemma {:induction false} SurvivorsMembers(board: seq<int>, g: nat, body: seq<Pos>, k: nat)
    requires |board| == g * g && CellsIn(body, g) && k <= |body| && Distinct(body)
    ensures forall z :: 0 <= z < k ==> (body[z] in Survivors(board, g, body, k) <==> Toward0(board[Idx(body[z], g)]) != 0)
  {
    if k > 0 {
      SurvivorsMembers(board, g, body, k - 1);
      forall z | 0 <= z < k - 1
        ensures body[z] != body[k - 1]
      {
      }
    }
  }

  /** The last cell of a prefix of a repeat-free body does not occur before it. */
  lemma LastIsNew(body: seq<Pos>, k: nat)
    requires 0 < k <= |body| && Distinct(body)
    ensures body[k - 1] !in body[..k - 1]
    ensures body[..k] == body[..k - 1] + [body[k - 1]]
  {
    forall z | 0 <= z < k - 1
      ensures body[z] != body[k - 1]
    {
    }
  }

  /** For a body without repeated cells, ageing moves every body cell's value
    * one step toward 0 and leaves every other cell alone. */
  lemma {:induction false} AgeBodyBoard(board: seq<int>, g: nat, body: seq<Pos>, k: nat)
    requires |board| == g * g && CellsIn(body, g) && k <= |body| && Distinct(body)
    ensures forall z :: 0 <= z < k ==> AgeBody(board, g, body, k).0[Idx(body[z], g)] == Toward0(board[Idx(body[z], g)])
    ensures forall q :: InGrid(q, g) && q !in body[..k] ==> AgeBody(board, g, body, k).0[Idx(q, g)] == board[Idx(q, g)]
  {
    if k > 0 {
      AgeBodyBoard(board, g, body, k - 1);
      var b := AgeBody(board, g, body, k - 1).0;
      var p := body[k - 1];
      LastIsNew(body, k);
      assert b[Idx(p, g)] == board[Idx(p, g)];
      forall z | 0 <= z < k - 1
        ensures Idx(body[z], g) != Idx(p, g)
      {
        if Idx(body[z], g) == Idx(p, g) {
          IdxInjective(body[z], p, g);
          assert false;
        }
      }
      forall q | InGrid(q, g) && q !in body[..k]
        ensures Idx(q, g) != Idx(p, g)
      {
        if Idx(q, g) == Idx(p, g) {
          IdxInjective(q, p, g);
          assert false;
        }
      }
    }
  }

  /** A cell outside the aged prefix keeps its value. */
  lemma AgeBodyUntouched(board: seq<int>, g: nat, body: seq<Pos>, k: nat, q: Pos)
    requires |board| == g * g && CellsIn(body, g) && k <= |body| && Distinct(body)
    requires InGrid(q, g) && q !in body[..k]
    ensures AgeBody(board, g, body, k).0[Idx(q, g)] == board[Idx(q, g)]
  {
    AgeBodyBoard(board, g, body, k);
  }

  /** For a body without repeated cells, ageing keeps exactly the survivors, in their order. */
  lemma {:induction false} AgeBodyKept(board: seq<int>, g: nat, body: seq<Pos>, k: nat)
    requires |board| == g * g && CellsIn(body, g) && k <= |body| && Distinct(body)
    ensures AgeBody(board, g, body, k).1 == Survivors(board, g, body, k)
  {
    if k > 0 {
      AgeBodyKept(board, g, body, k - 1);
      LastIsNew(body, k);
      AgeBodyUntouched(board, g, body, k - 1, body[k - 1]);
    }
  }

  /** For a body without repeated cells: every body cell's value moves one step
    * toward 0, every other cell is left alone, and the body keeps exactly the
    * survivors, in their order. */
  lemma AgeBodyEffect(board: seq<int>, g: nat, body: seq<Pos>, k: nat)
    requires |board| == g * g && CellsIn(body, g) && k <= |body| && Distinct(body)
    ensures AgeBody(board, g, body, k).1 == Survivors(board, g, body, k)
    ensures forall z :: 0 <= z < k ==> AgeBody(board, g, body, k).0[Idx(body[z], g)] == Toward0(board[Idx(body[z], g)])
    ensures forall q :: InGrid(q, g) && q !in body[..k] ==> AgeBody(board, g, body, k).0[Idx(q, g)] == board[Idx(q, g)]
  {
    AgeBodyBoard(board, g, body, k);
    AgeBodyKept(board, g, body, k);
  }

  // ---------------------------------------------------------------------
  // One avatar's move (lines 870-928)
  // ---------------------------------------------------------------------

  // AdvanceTurns, AdvanceHead, AdvanceOthers, AdvanceEats and AdvanceAges
  // each prove one part of AdvanceFacts, which only gathers them: each part
  // unfolds Advance on its own, and one proof of all of them at once would
  // exceed the verifier's resource budget.

  /** The turn: the new rotation is (old + 90 action) mod 360, and the owner
    * and the flags stay. */
  lemma AdvanceTurns(c: Config, w: World, i: nat, ps: seq<Frame>, action: int, eaten: seq<Pos>)
    requires WorldOk(c, w) && i < |w.avatars| && IsAction(action)
    requires var a := w.avatars[i]; |ps| == |a.percepts| && forall f :: 0 <= f < |ps| ==> IsSquare(ps[f], c.senses[a.owner].fov)
    ensures var a := w.avatars[i]; var a2 := Advance(c, w, i, ps, action, eaten).0.avatars[i];
      IsRotation(a2.rotation) && a2.rotation == (a.rotation + 90 * action) % 360 &&
      a2.owner == a.owner && a2.hit == a.hit && a2.dead == a.dead && a2.sizes == a.sizes
  {
  }

  /** The head takes a unit step modulo the grid. */
  lemma AdvanceHead(c: Config, w: World, i: nat, ps: seq<Frame>, action: int, eaten: seq<Pos>)
    requires WorldOk(c, w) && i < |w.avatars| && IsAction(action)
    requires var a := w.avatars[i]; |ps| == |a.percepts| && forall f :: 0 <= f < |ps| ==> IsSquare(ps[f], c.senses[a.owner].fov)
    ensures var a := w.avatars[i]; var a2 := Advance(c, w, i, ps, action, eaten).0.avatars[i];
      var d := MoveStep(action, a.rotation); var g := c.gridSize;
      IsUnitStep(d.0, d.1) && a2.head == Pos((a.head.y + d.0) % g, (a.head.x + d.1) % g)
  {
    var a := w.avatars[i];
    MoveStepIsUnit(action, a.rotation);
    var d := MoveStep(action, a.rotation);
    StepCoordWraps(a.head.y, d.0, c.gridSize);
    StepCoordWraps(a.head.x, d.1, c.gridSize);
  }

  /** The other avatars are left as they were. */
  lemma AdvanceOthers(c: Config, w: World, i: nat, ps: seq<Frame>, action: int, eaten: seq<Pos>)
    requires WorldOk(c, w) && i < |w.avatars| && IsAction(action)
    requires var a := w.avatars[i]; |ps| == |a.percepts| && forall f :: 0 <= f < |ps| ==> IsSquare(ps[f], c.senses[a.owner].fov)
    ensures var r := Advance(c, w, i, ps, action, eaten);
      forall j :: 0 <= j < |w.avatars| && j != i ==> r.0.avatars[j] == w.avatars[j]
  {
  }

  /** On a food cell the avatar grows by exactly one, its body and the map stay
    * as they were and the cell joins the eaten list. */
  lemma AdvanceEats(c: Config, w: World, i: nat, ps: seq<Frame>, action: int, eaten: seq<Pos>)
    requires WorldOk(c, w) && i < |w.avatars| && IsAction(action)
    requires var a := w.avatars[i]; |ps| == |a.percepts| && forall f :: 0 <= f < |ps| ==> IsSquare(ps[f], c.senses[a.owner].fov)
    ensures var a := w.avatars[i]; var r := Advance(c, w, i, ps, action, eaten); var a2 := r.0.avatars[i];
      a2.head in w.food ==> a2.size == a.size + 1 && a2.body == a.body && r.0.board == w.board && r.1 == eaten + [a2.head]
  {
  }

  /** Off the food, the size and the eaten list stay, and a body without
    * repeated cells keeps exactly its survivors. */
  lemma AdvanceAges(c: Config, w: World, i: nat, ps: seq<Frame>, action: int, eaten: seq<Pos>)
    requires WorldOk(c, w) && i < |w.avatars| && IsAction(action)
    requires var a := w.avatars[i]; |ps| == |a.percepts| && forall f :: 0 <= f < |ps| ==> IsSquare(ps[f], c.senses[a.owner].fov)
    ensures var a := w.avatars[i]; var r := Advance(c, w, i, ps, action, eaten); var a2 := r.0.avatars[i];
      a2.head !in w.food ==>
        a2.size == a.size && r.1 == eaten &&
        (Distinct(a.body) ==> a2.body == Survivors(w.board, c.gridSize, a.body, |a.body|))
  {
    var a := w.avatars[i];
    if Distinct(a.body) {
      AgeBodyEffect(w.board, c.gridSize, a.body, |a.body|);
    }
  }

  /** The move, the food case and the ageing case together. */
  lemma AdvanceFacts(c: Config, w: World, i: nat, ps: seq<Frame>, action: int, eaten: seq<Pos>)
    requires WorldOk(c, w) && i < |w.avatars| && IsAction(action)
    requires var a := w.avatars[i]; |ps| == |a.percepts| && forall f :: 0 <= f < |ps| ==> IsSquare(ps[f], c.senses[a.owner].fov)
    ensures var a := w.avatars[i]; var r := Advance(c, w, i, ps, action, eaten); var a2 := r.0.avatars[i];
      var d := MoveStep(action, a.rotation); var g := c.gridSize;
      IsRotation(a2.rotation) && a2.rotation == (a.rotation + 90 * action) % 360 &&
      IsUnitStep(d.0, d.1) && a2.head == Pos((a.head.y + d.0) % g, (a.head.x + d.1) % g) &&
      a2.owner == a.owner && a2.hit == a.hit && a2.dead == a.dead && a2.sizes == a.sizes &&
      (a2.head in w.food ==> a2.size == a.size + 1 && a2.body == a.body && r.0.board == w.board && r.1 == eaten + [a2.head]) &&
      (a2.head !in w.food ==>
        (a2.size == a.size && r.1 == eaten &&
         (Distinct(a.body) ==> a2.body == Survivors(w.board, g, a.body, |a.body|)))) &&
      (forall j :: 0 <= j < |w.avatars| && j != i ==> r.0.avatars[j] == w.avatars[j])
  {
    AdvanceTurns(c, w, i, ps, action, eaten);
    AdvanceHead(c, w, i, ps, action, eaten);
    AdvanceOthers(c, w, i, ps, action, eaten);
    AdvanceEats(c, w, i, ps, action, eaten);
    AdvanceAges(c, w, i, ps, action, eaten);
  }

  // ---------------------------------------------------------------------
  // Collisions (lines 933-970)
  // ---------------------------------------------------------------------

  /** Hits are never cleared; two contenders with the same new head are both
    * hit; a contender whose head lands on a nonzero cell is hit; and a
    * contender left unhit has an empty head cell shared with no other
    * contender. Only the hit flags change. */
  lemma CollisionRules(c: Config, w: World)
    requires WorldOk(c, w)
    ensures var r := Collide(c, w); var avs := w.avatars; var g := c.gridSize;
      (forall a :: 0 <= a < |avs| ==> r.avatars[a] == avs[a].(hit := r.avatars[a].hit)) &&
      (forall a :: 0 <= a < |avs| && avs[a].hit ==> r.avatars[a].hit) &&
      (forall a :: 0 <= a < |avs| && !avs[a].hit && avs[a].dead ==> !r.avatars[a].hit) &&
      (forall a, b ::
        (0 <= a < |avs| && 0 <= b < |avs| && a != b && Contender(avs, a) && Contender(avs, b) && avs[a].head == avs[b].head) ==>
        r.avatars[a].hit && r.avatars[b].hit) &&
      (forall a :: 0 <= a < |avs| && Contender(avs, a) && w.board[Idx(avs[a].head, g)] != 0 ==> r.avatars[a].hit) &&
      (forall a :: 0 <= a < |avs| && Contender(avs, a) && !r.avatars[a].hit ==>
        w.board[Idx(avs[a].head, g)] == 0 &&
        forall b :: 0 <= b < |avs| && b != a && Contender(avs, b) ==> avs[b].head != avs[a].head)
  {
    var r := Collide(c, w);
    var avs := w.avatars;
    forall a, b | 0 <= a < |avs| && 0 <= b < |avs| && a != b && Contender(avs, a) && Contender(avs, b) && avs[a].head == avs[b].head
      ensures r.avatars[a].hit && r.avatars[b].hit
    {
      assert HeadClash(avs, a);
      assert HeadClash(avs, b);
    }
  }

  /** No avatar is dead without being hit. */
  predicate DeadAreHit(avs: seq<Avatar>)
  {
    forall i :: 0 <= i < |avs| && avs[i].dead ==> avs[i].hit
  }

  /** Avatars left unhit have different heads. */
  predicate HeadsApart(avs: seq<Avatar>)
  {
    forall a, b :: 0 <= a < |avs| && 0 <= b < |avs| && a != b && !avs[a].hit && !avs[b].hit ==> avs[a].head != avs[b].head
  }

  /** After the collision test the avatars still unhit have distinct heads on empty cells. */
  lemma CollideSeparatesHeads(c: Config, w: World)
    requires WorldOk(c, w) && DeadAreHit(w.avatars)
    ensures HeadsApart(Collide(c, w).avatars) && DeadAreHit(Collide(c, w).avatars)
    ensures forall a :: 0 <= a < |w.avatars| && !Collide(c, w).avatars[a].hit ==>
      w.board[Idx(w.avatars[a].head, c.gridSize)] == 0
  {
    CollisionRules(c, w);
  }

  // ---------------------------------------------------------------------
  // New heads (lines 979-995)
  // ---------------------------------------------------------------------

  /** Some unhit avatar among the first `k` has its head on `q`. */
  predicate HeadWritten(avs: seq<Avatar>, k: nat, q: Pos)
    requires k <= |avs|
  {
    exists a :: 0 <= a < k && !avs[a].hit && avs[a].head == q
  }

  /** Writing heads changes only the unhit avatars: each appends its head to
    * its body and records its size for the turn. */
  lemma {:induction false} WriteHeadsAvatars(c: Config, w: World, turn: nat, k: nat)
    requires WorldOk(c, w) && turn < c.nTurns && k <= |w.avatars|
    ensures forall a :: 0 <= a < |w.avatars| && (a >= k || w.avatars[a].hit) ==> WriteHeads(c, w, turn, k).avatars[a] == w.avatars[a]
    ensures forall a :: 0 <= a < k && !w.avatars[a].hit ==>
      WriteHeads(c, w, turn, k).avatars[a] ==
        w.avatars[a].(body := w.avatars[a].body + [w.avatars[a].head], sizes := w.avatars[a].sizes[turn := w.avatars[a].size])
  {
    if k > 0 {
      WriteHeadsAvatars(c, w, turn, k - 1);
    }
  }

  /** With the unhit heads apart, each unhit avatar's head cell holds
    * `size * side` and every other cell keeps its value. */
  lemma {:induction false} WriteHeadsBoard(c: Config, w: World, turn: nat, k: nat)
    requires WorldOk(c, w) && turn < c.nTurns && k <= |w.avatars| && HeadsApart(w.avatars)
    ensures forall a :: 0 <= a < k && !w.avatars[a].hit ==>
      WriteHeads(c, w, turn, k).board[Idx(w.avatars[a].head, c.gridSize)] == w.avatars[a].size * Side(w.avatars[a].owner)
    ensures forall q :: InGrid(q, c.gridSize) && !HeadWritten(w.avatars, k, q) ==>
      WriteHeads(c, w, turn, k).board[Idx(q, c.gridSize)] == w.board[Idx(q, c.gridSize)]
  {
    if k > 0 {
      WriteHeadsBoard(c, w, turn, k - 1);
      var w1 := WriteHeads(c, w, turn, k - 1);
      HeadWriteStep(w.board, w1.board, WriteHeads(c, w, turn, k).board, c.gridSize, w.avatars, k);
    }
  }

  /** The step of WriteHeadsBoard, on the map alone. */
  lemma HeadWriteStep(b0: seq<int>, b1: seq<int>, b2: seq<int>, g: nat, avs: seq<Avatar>, k: nat)
    requires |b0| == g * g && |b1| == g * g && 0 < k <= |avs| && HeadsApart(avs)
    requires forall a :: 0 <= a < k ==> InGrid(avs[a].head, g)
    requires forall a :: 0 <= a < k - 1 && !avs[a].hit ==> b1[Idx(avs[a].head, g)] == avs[a].size * Side(avs[a].owner)
    requires forall q :: InGrid(q, g) && !HeadWritten(avs, k - 1, q) ==> b1[Idx(q, g)] == b0[Idx(q, g)]
    requires b2 == if avs[k - 1].hit then b1 else b1[Idx(avs[k - 1].head, g) := avs[k - 1].size * Side(avs[k - 1].owner)]
    ensures forall a :: 0 <= a < k && !avs[a].hit ==> b2[Idx(avs[a].head, g)] == avs[a].size * Side(avs[a].owner)
    ensures forall q :: InGrid(q, g) && !HeadWritten(avs, k, q) ==> b2[Idx(q, g)] == b0[Idx(q, g)]
  {
    var p := avs[k - 1];
    if !p.hit {
      forall a | 0 <= a < k - 1 && !avs[a].hit
        ensures Idx(avs[a].head, g) != Idx(p.head, g)
      {
        HeadCellsApart(avs, g, a, k - 1);
      }
      forall q | InGrid(q, g) && !HeadWritten(avs, k, q)
        ensures Idx(q, g) != Idx(p.head, g) && !HeadWritten(avs, k - 1, q)
      {
        assert q != p.head;
        if Idx(q, g) == Idx(p.head, g) {
          IdxInjective(q, p.head, g);
        }
      }
    } else {
      forall q | InGrid(q, g) && !HeadWritten(avs, k, q)
        ensures !HeadWritten(avs, k - 1, q)
      {
      }
    }
  }

  lemma HeadCellsApart(avs: seq<Avatar>, g: nat, a: nat, b: nat)
    requires HeadsApart(avs) && a < |avs| && b < |avs| && a != b && !avs[a].hit && !avs[b].hit
    requires InGrid(avs[a].head, g) && InGrid(avs[b].head, g)
    ensures Idx(avs[a].head, g) != Idx(avs[b].head, g)
  {
    if Idx(avs[a].head, g) == Idx(avs[b].head, g) {
      IdxInjective(avs[a].head, avs[b].head, g);
    }
  }

  // ---------------------------------------------------------------------
  // Food (lines 563-611, 997-1004)
  // ---------------------------------------------------------------------

  /** The candidates of one row are exactly its free cells left of `x`, without repeats. */
  lemma {:induction false} FreeInRowExactly(board: seq<int>, food: seq<Pos>, g: nat, y: nat, x: nat)
    requires |board| == g * g && y < g && x <= g
    ensures Distinct(FreeInRow(board, food, g, y, x))
    ensures forall p :: InGrid(p, g) ==> (p in FreeInRow(board, food, g, y, x) <==> p.y == y && p.x < x && Free(board, food, g, p))
  {
    if x > 0 {
      FreeInRowExactly(board, food, g, y, x - 1);
    }
  }

  // FreeCellsHas is the induction, one cell at a time; FreeCellsMembers lifts
  // it to every cell, and FreeCellsExactly adds FreeCellsDistinct. Stated for
  // all cells at once, the induction step exceeds the verifier's resource
  // budget, hence the one-cell form.

  /** The candidates of `place_food` are exactly the free cells of the grid (rows above `y`), each once. */
  lemma FreeCellsExactly(board: seq<int>, food: seq<Pos>, g: nat, y: nat)
    requires |board| == g * g && y <= g
    ensures Distinct(FreeCells(board, food, g, y))
    ensures forall p :: InGrid(p, g) ==> (p in FreeCells(board, food, g, y) <==> p.y < y && Free(board, food, g, p))
  {
    FreeCellsDistinct(board, food, g, y);
    FreeCellsMembers(board, food, g, y);
  }

  /** The candidates of `place_food` are the free cells of the rows above `y`. */
  lemma FreeCellsMembers(board: seq<int>, food: seq<Pos>, g: nat, y: nat)
    requires |board| == g * g && y <= g
    ensures forall p :: InGrid(p, g) ==> (p in FreeCells(board, food, g, y) <==> p.y < y && Free(board, food, g, p))
  {
    forall p | InGrid(p, g)
      ensures p in FreeCells(board, food, g, y) <==> p.y < y && Free(board, food, g, p)
    {
      FreeCellsHas(board, food, g, y, p);
    }
  }

  /** FreeCellsMembers for one cell. */
  lemma {:induction false} FreeCellsHas(board: seq<int>, food: seq<Pos>, g: nat, y: nat, p: Pos)
    requires |board| == g * g && y <= g && InGrid(p, g)
    ensures p in FreeCells(board, food, g, y) <==> p.y < y && Free(board, food, g, p)
  {
    if y > 0 {
      FreeCellsHas(board, food, g, y - 1, p);
      FreeInRowHas(board, food, g, y - 1, g, p);
      var above := FreeCells(board, food, g, y - 1);
      var row := FreeInRow(board, food, g, y - 1, g);
      assert FreeCells(board, food, g, y) == above + row;
      InConcat(above, row, p);
    }
  }

  /** The candidates of row `y` left of `x` are its free cells there, for one cell. */
  lemma {:induction false} FreeInRowHas(board: seq<int>, food: seq<Pos>, g: nat, y: nat, x: nat, p: Pos)
    requires |board| == g * g && y < g && x <= g && InGrid(p, g)
    ensures p in FreeInRow(board, food, g, y, x) <==> p.y == y && p.x < x && Free(board, food, g, p)
  {
    if x > 0 {
      FreeInRowHas(board, food, g, y, x - 1, p);
    }
  }

  /** The candidates of `place_food` have no repeats. */
  lemma {:induction false} FreeCellsDistinct(board: seq<int>, food: seq<Pos>, g: nat, y: nat)
    requires |board| == g * g && y <= g
    ensures Distinct(FreeCells(board, food, g, y))
  {
    if y > 0 {
      FreeCellsDistinct(board, food, g, y - 1);
      FreeInRowExactly(board, food, g, y - 1, g);
      var above: seq<Pos> := FreeCells(board, food, g, y - 1);
      var row: seq<Pos> := FreeInRow(board, food, g, y - 1, g);
      var all: seq<Pos> := above + row;
      forall i, j | 0 <= i < j < |all|
        ensures all[i] != all[j]
      {
        if j < |above| {
          assert all[i] == above[i] && all[j] == above[j];
        } else if i >= |above| {
          assert all[i] == row[i - |above|] && all[j] == row[j - |above|];
        } else {
          assert all[i] == above[i];
          assert all[j] == row[j - |above|];
        }
      }
    }
  }

  /** Placements are picked among the candidates, without repeats when the candidates have none, and there are min(n, candidates) of them. */
  lemma PlacementsFacts(cands: seq<Pos>, order: seq<nat>, n: int)
    requires IsPermutation(order, |cands|)
    ensures var r := Placements(cands, order, n);
      |r| == (if n <= 0 then 0 else if n < |cands| then n else |cands|) &&
      (forall k :: 0 <= k < |r| ==> r[k] in cands) &&
      (Distinct(cands) ==> Distinct(r))
  {
    var r := Placements(cands, order, n);
    forall k | 0 <= k < |r|
      ensures r[k] in cands
    {
      assert r[k] == cands[order[|cands| - 1 - k]];
    }
    if Distinct(cands) {
      forall i, j | 0 <= i < j < |r|
        ensures r[i] != r[j]
      {
        assert order[|cands| - 1 - i] != order[|cands| - 1 - j];
      }
    }
  }

  /** `place_food` returns at most N distinct cells, each empty on the map and not food; fewer only when the free cells run out. */
  lemma PlaceFoodFacts(board: seq<int>, food: seq<Pos>, g: nat, order: seq<nat>, n: nat)
    requires |board| == g * g && IsPermutation(order, |FreeCells(board, food, g, g)|)
    ensures var r := Placements(FreeCells(board, food, g, g), order, n);
      |r| <= n && (|r| < n ==> |r| == |FreeCells(board, food, g, g)|) && Distinct(r) &&
      forall k :: 0 <= k < |r| ==> InGrid(r[k], g) && Free(board, food, g, r[k])
  {
    FreeCellsExactly(board, food, g, g);
    PlacementsFacts(FreeCells(board, food, g, g), order, n);
  }

  /** Eaten food is removed; when fewer than nFoods cells remain, new distinct
    * free cells are appended until there are nFoods or the free cells run
    * out; otherwise nothing is added. */
  lemma ReplenishFacts(c: Config, w: World, eaten: seq<Pos>, turn: nat, d: Draws)
    requires WorldOk(c, w) && FoodOrdersOk(d)
    ensures var food := RemoveEaten(w.food, eaten, |eaten|); var r := Replenish(c, w, eaten, turn, d);
      |r.food| >= |food| && r.food[..|food|] == food &&
      (|food| >= c.nFoods ==> r.food == food) &&
      (|food| < c.nFoods ==>
        (|r.food| <= c.nFoods && (|r.food| < c.nFoods ==> |r.food| - |food| == |FreeCells(w.board, food, c.gridSize, c.gridSize)|) &&
         Distinct(r.food[|food|..]) &&
         forall k :: |food| <= k < |r.food| ==> InGrid(r.food[k], c.gridSize) && Free(w.board, food, c.gridSize, r.food[k])))
  {
    var g := c.gridSize;
    var food := RemoveEaten(w.food, eaten, |eaten|);
    if |food| < c.nFoods {
      var cands := FreeCells(w.board, food, g, g);
      var order := d.foodOrder(turn, |cands|);
      PlaceFoodFacts(w.board, food, g, order, c.nFoods - |food|);
      var r := Replenish(c, w, eaten, turn, d);
      assert r.food[|food|..] == Placements(cands, order, c.nFoods - |food|);
    }
  }

  // ---------------------------------------------------------------------
  // Removing hit avatars (lines 1017-1026)
  // ---------------------------------------------------------------------

  /** Clearing sets exactly the listed cells to 0. */
  lemma {:induction false} ClearCellsEffect(board: seq<int>, g: nat, cells: seq<Pos>, k: nat)
    requires |board| == g * g && CellsIn(cells, g) && k <= |cells|
    ensures forall q :: InGrid(q, g) ==>
      ClearCells(board, g, cells, k)[Idx(q, g)] == if q in cells[..k] then 0 else board[Idx(q, g)]
  {
    if k > 0 {
      ClearCellsEffect(board, g, cells, k - 1);
      assert cells[..k] == cells[..k - 1] + [cells[k - 1]];
      forall q | InGrid(q, g)
        ensures ClearCells(board, g, cells, k)[Idx(q, g)] == if q in cells[..k] then 0 else board[Idx(q, g)]
      {
        if Idx(q, g) == Idx(cells[k - 1], g) {
          IdxInjective(q, cells[k - 1], g);
        }
      }
    }
  }

  /** Some hit, not yet dead avatar among the first `k` has `q` in its body. */
  predicate Cleared(avs: seq<Avatar>, k: nat, q: Pos)
    requires k <= |avs|
  {
    exists a :: 0 <= a < k && !avs[a].dead && avs[a].hit && q in avs[a].body
  }

  /** Every hit, not-yet-dead avatar has its body cells set to 0, its body
    * emptied and is marked dead; every other avatar and every other cell is
    * left as it was. */
  lemma CleanupFacts(c: Config, w: World, k: nat)
    requires WorldOk(c, w) && k <= |w.avatars|
    ensures var r := Cleanup(c, w, k); var g := c.gridSize;
      (forall a :: 0 <= a < |w.avatars| ==>
        r.avatars[a] == if a < k && !w.avatars[a].dead && w.avatars[a].hit then w.avatars[a].(body := [], dead := true) else w.avatars[a]) &&
      (forall q :: InGrid(q, g) ==> r.board[Idx(q, g)] == if Cleared(w.avatars, k, q) then 0 else w.board[Idx(q, g)])
  {
    CleanupAvatars(c, w, k);
    CleanupBoard(c, w, k);
  }

  /** The cleanup empties the body of every hit, not-yet-dead avatar and marks it dead, and leaves every other avatar alone. */
  lemma {:induction false} CleanupAvatars(c: Config, w: World, k: nat)
    requires WorldOk(c, w) && k <= |w.avatars|
    ensures forall a :: 0 <= a < |w.avatars| ==>
      Cleanup(c, w, k).avatars[a] == if a < k && !w.avatars[a].dead && w.avatars[a].hit then w.avatars[a].(body := [], dead := true) else w.avatars[a]
  {
    if k > 0 {
      CleanupAvatars(c, w, k - 1);
    }
  }

  /** The cleanup sets the body cells of every hit, not-yet-dead avatar to 0 and leaves every other cell alone. */
  lemma {:induction false} CleanupBoard(c: Config, w: World, k: nat)
    requires WorldOk(c, w) && k <= |w.avatars|
    ensures forall q :: InGrid(q, c.gridSize) ==>
      Cleanup(c, w, k).board[Idx(q, c.gridSize)] == if Cleared(w.avatars, k, q) then 0 else w.board[Idx(q, c.gridSize)]
  {
    if k > 0 {
      CleanupBoard(c, w, k - 1);
      CleanupBoardStep(w.board, Cleanup(c, w, k - 1).board, Cleanup(c, w, k).board, c.gridSize, w.avatars, k);
    }
  }

  /** The step of CleanupBoard, on the map alone. */
  lemma CleanupBoardStep(b0: seq<int>, b1: seq<int>, b2: seq<int>, g: nat, avs: seq<Avatar>, k: nat)
    requires |b0| == g * g && |b1| == g * g && 0 < k <= |avs| && CellsIn(avs[k - 1].body, g)
    requires forall q :: InGrid(q, g) ==> b1[Idx(q, g)] == if Cleared(avs, k - 1, q) then 0 else b0[Idx(q, g)]
    requires b2 == if !avs[k - 1].dead && avs[k - 1].hit then ClearCells(b1, g, avs[k - 1].body, |avs[k - 1].body|) else b1
    ensures forall q :: InGrid(q, g) ==> b2[Idx(q, g)] == if Cleared(avs, k, q) then 0 else b0[Idx(q, g)]
  {
    var a := avs[k - 1];
    if !a.dead && a.hit {
      ClearCellsEffect(b1, g, a.body, |a.body|);
      assert a.body[..|a.body|] == a.body;
      forall q | InGrid(q, g)
        ensures b2[Idx(q, g)] == if Cleared(avs, k, q) then 0 else b0[Idx(q, g)]
      {
        if q in a.body {
          assert Cleared(avs, k, q);
        } else {
          assert Cleared(avs, k, q) == Cleared(avs, k - 1, q);
        }
      }
    } else {
      forall q | InGrid(q, g)
        ensures Cleared(avs, k, q) == Cleared(avs, k - 1, q)
      {
      }
    }
  }

  // ---------------------------------------------------------------------
  // Whole turns (lines 722-1028)
  // ---------------------------------------------------------------------

  /** An avatar is dead exactly when it has been hit: true of freshly reset avatars and kept by every turn. */
  predicate DeadIffHit(avs: seq<Avatar>)
  {
    forall i :: 0 <= i < |avs| ==> (avs[i].dead <==> avs[i].hit)
  }

  predicate SameStatus(a: Avatar, b: Avatar)
  {
    a.hit == b.hit && a.dead == b.dead && a.owner == b.owner
  }

  /** One avatar's step leaves every hit and dead flag as it was and changes no dead avatar. */
  lemma ActStatus(c: Config, w: World, i: nat, turn: nat, agent: Agent, eaten: seq<Pos>)
    requires WorldOk(c, w) && i < |w.avatars|
    ensures var r := Act(c, w, i, turn, agent, eaten);
      r.Some? ==>
        forall j :: 0 <= j < |w.avatars| ==>
          SameStatus(r.value.0.avatars[j], w.avatars[j]) && (w.avatars[j].dead ==> r.value.0.avatars[j] == w.avatars[j])
  {
    var a := w.avatars[i];
    if !a.dead {
      var ps := Perceive(c, w, i);
      match ValidateAction(agent(i, turn + 1, Rotated(ps, a.rotation, c.senses[a.owner].fov)))
      case Err(_) =>
      case Ok(action) =>
        AdvanceFacts(c, w, i, ps, action, eaten);
    }
  }

  /** The avatar loop leaves every hit and dead flag as it was and does not touch dead avatars. */
  lemma {:induction false} ActAllStatus(c: Config, w: World, turn: nat, agent: Agent, k: nat, eaten: seq<Pos>)
    requires WorldOk(c, w) && k <= |w.avatars|
    ensures var r := ActAll(c, w, turn, agent, k, eaten);
      r.Some? ==>
        forall i :: 0 <= i < |w.avatars| ==>
          SameStatus(r.value.0.avatars[i], w.avatars[i]) && (w.avatars[i].dead ==> r.value.0.avatars[i] == w.avatars[i])
    decreases |w.avatars| - k
  {
    if k < |w.avatars| {
      ActStatus(c, w, k, turn, agent, eaten);
      match Act(c, w, k, turn, agent, eaten)
      case None =>
      case Some((w1, eaten1)) =>
        ActAllStatus(c, w1, turn, agent, k + 1, eaten1);
    }
  }

  /** When every avatar is dead the loop consults no agent and changes nothing. */
  lemma {:induction false} ActAllWhenAllDead(c: Config, w: World, turn: nat, agent: Agent, k: nat, eaten: seq<Pos>)
    requires WorldOk(c, w) && k <= |w.avatars| && AllDead(w.avatars)
    ensures ActAll(c, w, turn, agent, k, eaten) == Some((w, eaten))
    decreases |w.avatars| - k
  {
    if k < |w.avatars| {
      assert Act(c, w, k, turn, agent, eaten) == Some((w, eaten));
      ActAllWhenAllDead(c, w, turn, agent, k + 1, eaten);
    }
  }

  /** Every avatar dead in `before` is the same in `after`. */
  predicate DeadKept(before: seq<Avatar>, after: seq<Avatar>)
  {
    |after| == |before| && forall i :: 0 <= i < |before| && before[i].dead ==> after[i] == before[i]
  }

  /** The avatar loop keeps the flags, so dead avatars stay hit and unchanged. */
  lemma LoopStatus(c: Config, w: World, turn: nat, agent: Agent)
    requires WorldOk(c, w) && DeadAreHit(w.avatars)
    ensures var r := ActAll(c, w, turn, agent, 0, []);
      r.Some? ==> DeadAreHit(r.value.0.avatars) && DeadKept(w.avatars, r.value.0.avatars)
  {
    ActAllStatus(c, w, turn, agent, 0, []);
    match ActAll(c, w, turn, agent, 0, [])
    case None =>
    case Some((w1, _)) =>
      forall i | 0 <= i < |w.avatars| && w1.avatars[i].dead
        ensures w1.avatars[i].hit
      {
        assert SameStatus(w1.avatars[i], w.avatars[i]);
      }
  }

  /** The collision test keeps every dead flag and leaves dead (hence hit) avatars alone. */
  lemma CollideStatus(c: Config, w: World)
    requires WorldOk(c, w) && DeadAreHit(w.avatars)
    ensures var r := Collide(c, w).avatars;
      DeadAreHit(r) && DeadKept(w.avatars, r) && forall i :: 0 <= i < |r| ==> r[i].dead == w.avatars[i].dead
  {
  }

  /** Writing heads keeps every flag and leaves hit avatars alone. */
  lemma WriteHeadsStatus(c: Config, w: World, turn: nat)
    requires WorldOk(c, w) && turn < c.nTurns && DeadAreHit(w.avatars)
    ensures var r := WriteHeads(c, w, turn, |w.avatars|).avatars;
      DeadAreHit(r) && DeadKept(w.avatars, r)
  {
    WriteHeadsAvatars(c, w, turn, |w.avatars|);
  }

  /** The cleanup marks exactly the hit avatars dead and leaves dead ones alone. */
  lemma CleanupStatus(c: Config, w: World)
    requires WorldOk(c, w) && DeadAreHit(w.avatars)
    ensures var r := Cleanup(c, w, |w.avatars|).avatars;
      DeadIffHit(r) && DeadKept(w.avatars, r)
  {
    CleanupFacts(c, w, |w.avatars|);
  }

  /** When every avatar is already dead the turn finishes and changes nothing. */
  lemma TurnWhenAllDead(c: Config, w: World, turn: nat, d: Draws, agent: Agent)
    requires WorldOk(c, w) && turn < c.nTurns && FoodOrdersOk(d) && DeadAreHit(w.avatars) && AllDead(w.avatars)
    ensures Turn(c, w, turn, d, agent) == Finished(w)
  {
    ActAllWhenAllDead(c, w, turn, agent, 0, []);
    CollideStatus(c, w);
    assert Collide(c, w).avatars == w.avatars;
  }

  /** A continuing turn keeps "dead iff hit" and changes no dead avatar. */
  lemma TurnContinuesStatus(c: Config, w: World, turn: nat, d: Draws, agent: Agent)
    requires WorldOk(c, w) && turn < c.nTurns && FoodOrdersOk(d) && DeadAreHit(w.avatars)
    ensures var r := Turn(c, w, turn, d, agent);
      r.Continues? ==> DeadIffHit(r.w.avatars) && DeadKept(w.avatars, r.w.avatars)
  {
    LoopStatus(c, w, turn, agent);
    match ActAll(c, w, turn, agent, 0, [])
    case None =>
    case Some((w1, eaten)) =>
      CollideStatus(c, w1);
      var w2 := Collide(c, w1);
      WriteHeadsStatus(c, w2, turn);
      WriteHeadsOk(c, w2, turn, |w2.avatars|);
      var w3 := WriteHeads(c, w2, turn, |w2.avatars|);
      var w4 := Replenish(c, w3, eaten, turn, d);
      CleanupStatus(c, w4);
  }

  /** A turn keeps "dead iff hit" and never changes a dead avatar; the game
    * ends at a turn exactly when every avatar was already dead, and then
    * nothing changes. */
  lemma TurnInvariant(c: Config, w: World, turn: nat, d: Draws, agent: Agent)
    requires WorldOk(c, w) && turn < c.nTurns && FoodOrdersOk(d) && DeadIffHit(w.avatars)
    ensures var r := Turn(c, w, turn, d, agent);
      (r.Continues? ==>
        DeadIffHit(r.w.avatars) &&
        forall i :: 0 <= i < |w.avatars| && w.avatars[i].dead ==> r.w.avatars[i] == w.avatars[i]) &&
      (r.Finished? <==> AllDead(w.avatars)) &&
      (AllDead(w.avatars) ==> r == Finished(w))
  {
    TurnContinuesStatus(c, w, turn, d, agent);
    if AllDead(w.avatars) {
      TurnWhenAllDead(c, w, turn, d, agent);
    }
  }

  /** Freshly reset avatars are neither hit nor dead, so the invariant holds at the start of a game. */
  lemma ResetStartsInvariant(avs: seq<Avatar>)
    requires forall i :: 0 <= i < |avs| ==> !avs[i].hit && !avs[i].dead
    ensures DeadIffHit(avs) && DeadAreHit(avs)
  {
  }

  // ---------------------------------------------------------------------
  // Spawning (lines 619-697)
  // ---------------------------------------------------------------------

  /** The source's region list has no repeats. */
  lemma {:induction false} RegionsDistinct(nR: nat, y: nat)
    ensures Distinct(RegionsUpTo(nR, y))
  {
    if y > 0 {
      RegionsDistinct(nR, y - 1);
      var above := RegionsUpTo(nR, y - 1);
      var row := seq(nR, x requires 0 <= x < nR => (x, y - 1));
      var all := above + row;
      assert all == RegionsUpTo(nR, y);
      forall i, j | 0 <= i < j < |all|
        ensures all[i] != all[j]
      {
        if i < |above| && j >= |above| {
          assert all[i] == above[i];
          assert all[j] == row[j - |above|];
        } else if i >= |above| {
          assert all[i] == row[i - |above|];
          assert all[j] == row[j - |above|];
        }
      }
    }
  }

  /** Different avatars are given different regions. */
  lemma SpawnRegionsApart(c: Config, d: Draws, n: nat, i: nat, j: nat)
    requires ConfigOk(c) && SpawnDrawsOk(c, d, n) && i < n && j < n && i != j
    ensures SpawnRegion(c, d, i) != SpawnRegion(c, d, j)
  {
    var nR := c.gridSize / 5;
    RegionsDistinct(nR, nR);
    assert d.regionOrder[nR * nR - 1 - i] != d.regionOrder[nR * nR - 1 - j];
  }

  /** Every head is the centre cell of a region's 5 x 5 block, and different avatars get different heads. */
  lemma SpawnHeadsAtCentres(c: Config, d: Draws, n: nat, i: nat, j: nat)
    requires ConfigOk(c) && SpawnDrawsOk(c, d, n) && i < n && j < n
    ensures var h := SpawnHead(c, d, i); var (yr, xr) := SpawnRegion(c, d, i);
      h == Pos(yr * 5 + 2, xr * 5 + 2) && h.y % 5 == 2 && h.x % 5 == 2 &&
      h.y < 5 * (c.gridSize / 5) && h.x < 5 * (c.gridSize / 5)
    ensures i != j ==> SpawnHead(c, d, i) != SpawnHead(c, d, j)
  {
    var (yr, xr) := SpawnRegion(c, d, i);
    var h := SpawnHead(c, d, i);
    assert h == Pos(yr * 5 + 2, xr * 5 + 2);
    CentreMod(yr);
    CentreMod(xr);
    if i != j {
      SpawnRegionsApart(c, d, n, i, j);
    }
  }

  lemma CentreMod(r: nat)
    ensures (r * 5 + 2) % 5 == 2
  {
    assert r * 5 + 2 == 5 * r + 2;
  }

  /** Body segment z of avatar i as spawned. */
  function SpawnedCell(c: Config, d: Draws, n: nat, i: nat, z: nat): (p: Pos)
    requires ConfigOk(c) && SpawnDrawsOk(c, d, n) && i < n
    ensures InGrid(p, c.gridSize)
  {
    SpawnCell(SpawnHead(c, d, i), d.rotations[i], z, c.gridSize)
  }

  /** Segment 0 is the head; segment 1 is the next cell in the tail direction, inside the same block. */
  lemma SpawnedCellInBlock(c: Config, d: Draws, n: nat, i: nat, z: nat)
    requires ConfigOk(c) && SpawnDrawsOk(c, d, n) && i < n && z < 2
    ensures var p := SpawnedCell(c, d, n, i, z); var (yr, xr) := SpawnRegion(c, d, i);
      p.y / 5 == yr && p.x / 5 == xr &&
      (z == 0 <==> p == SpawnHead(c, d, i))
  {
    var g := c.gridSize;
    var (yr, xr) := SpawnRegion(c, d, i);
    var h := SpawnHead(c, d, i);
    assert h == Pos(yr * 5 + 2, xr * 5 + 2);
    assert yr * 5 + 5 <= g && xr * 5 + 5 <= g;
    var dir := TailDirection(d.rotations[i]);
    var jy, jx := dir.0, dir.1;
    var y1 := h.y + jy * z;
    var x1 := h.x + jx * z;
    if z == 0 {
      assert y1 == h.y && x1 == h.x;
    } else {
      assert y1 == h.y + jy && x1 == h.x + jx;
      assert jy != 0 || jx != 0;
    }
    assert yr * 5 <= y1 < yr * 5 + 5 && xr * 5 <= x1 < xr * 5 + 5;
    SmallMod(y1, g);
    SmallMod(x1, g);
    assert SpawnedCell(c, d, n, i, z) == Pos(y1, x1);
  }

  lemma SmallMod(v: int, g: int)
    requires 0 <= v < g
    ensures v % g == v
  {
  }

  /** The spawned cells of all avatars are pairwise different. */
  lemma SpawnedCellsApart(c: Config, d: Draws, n: nat, i: nat, z: nat, j: nat, u: nat)
    requires ConfigOk(c) && SpawnDrawsOk(c, d, n) && i < n && j < n && z < 2 && u < 2 && (i, z) != (j, u)
    ensures SpawnedCell(c, d, n, i, z) != SpawnedCell(c, d, n, j, u)
  {
    SpawnedCellInBlock(c, d, n, i, z);
    SpawnedCellInBlock(c, d, n, j, u);
    if i != j {
      SpawnRegionsApart(c, d, n, i, j);
    }
  }

  /** Laying a two-cell body writes `size * side` at the head and `(size - 1) * side` behind it, and nothing else. */
  lemma LayBodyEffect(board: seq<int>, g: nat, head: Pos, rotation: int, size: int, side: int)
    requires |board| == g * g && g > 0 && SpawnCell(head, rotation, 0, g) != SpawnCell(head, rotation, 1, g)
    ensures var r := LayBody(board, g, head, rotation, size, side, 2);
      var p0 := SpawnCell(head, rotation, 0, g); var p1 := SpawnCell(head, rotation, 1, g);
      r.1 == [p0, p1] && r.0[Idx(p0, g)] == size * side && r.0[Idx(p1, g)] == (size - 1) * side &&
      forall q :: InGrid(q, g) && q != p0 && q != p1 ==> r.0[Idx(q, g)] == board[Idx(q, g)]
  {
    var p0 := SpawnCell(head, rotation, 0, g);
    var p1 := SpawnCell(head, rotation, 1, g);
    var r0 := LayBody(board, g, head, rotation, size, side, 0);
    var r1 := LayBody(board, g, head, rotation, size, side, 1);
    assert r1.0 == r0.0[Idx(p0, g) := (size - 0) * side];
    var r2 := LayBody(board, g, head, rotation, size, side, 2);
    assert r2.0 == r1.0[Idx(p1, g) := (size - 1) * side];
    if Idx(p0, g) == Idx(p1, g) {
      IdxInjective(p0, p1, g);
    }
    forall q | InGrid(q, g) && q != p0 && q != p1
      ensures Idx(q, g) != Idx(p0, g) && Idx(q, g) != Idx(p1, g)
    {
      if Idx(q, g) == Idx(p0, g) {
        IdxInjective(q, p0, g);
      }
      if Idx(q, g) == Idx(p1, g) {
        IdxInjective(q, p1, g);
      }
    }
  }

  /** The first `t` avatars after spawning: reset to the starting length, alive
    * and unhit, with head at their region's centre, the drawn rotation, and a
    * body of the head and the cell behind it. */
  lemma {:induction false} SpawnedAvatars(c: Config, board: seq<int>, avs: seq<Avatar>, d: Draws, t: nat)
    requires SpawnInputOk(c, d, avs) && |board| == c.gridSize * c.gridSize && t <= |avs|
    ensures forall i :: 0 <= i < t ==>
      var a := SpawnAll(c, board, avs, d, t).1[i];
      a.owner == avs[i].owner && a.size == StartingLength && !a.hit && !a.dead &&
      a.head == SpawnHead(c, d, i) && a.rotation == d.rotations[i] &&
      a.body == [SpawnedCell(c, d, |avs|, i, 0), SpawnedCell(c, d, |avs|, i, 1)] &&
      |a.sizes| == c.nTurns && (forall u :: 0 <= u < c.nTurns ==> a.sizes[u] == 0)
  {
    if t > 0 {
      SpawnedAvatars(c, board, avs, d, t - 1);
    }
  }

  /** Some spawned segment of the first `t` avatars is on `q`. */
  predicate Spawned(c: Config, d: Draws, n: nat, t: nat, q: Pos)
    requires ConfigOk(c) && SpawnDrawsOk(c, d, n) && t <= n
  {
    exists i, z :: 0 <= i < t && 0 <= z < 2 && SpawnedCell(c, d, n, i, z) == q
  }

  /** Spawning writes `(size - z) * side` at segment z of every avatar (2 at
    * player 0's heads, 1 behind them, -2 and -1 for player 1) and leaves every
    * other cell alone. */
  lemma {:induction false} SpawnBoard(c: Config, board: seq<int>, avs: seq<Avatar>, d: Draws, t: nat)
    requires SpawnInputOk(c, d, avs) && |board| == c.gridSize * c.gridSize && t <= |avs|
    ensures var b := SpawnAll(c, board, avs, d, t).0; var g := c.gridSize;
      (forall i, z :: 0 <= i < t && 0 <= z < 2 ==>
        b[Idx(SpawnedCell(c, d, |avs|, i, z), g)] == (StartingLength - z) * Side(avs[i].owner)) &&
      (forall q :: InGrid(q, g) && !Spawned(c, d, |avs|, t, q) ==> b[Idx(q, g)] == board[Idx(q, g)])
  {
    SpawnBoardWrites(c, board, avs, d, t);
    SpawnBoardKeeps(c, board, avs, d, t);
  }

  /** Segment z of each of the first `t` spawned avatars holds `(size - z) * side`. */
  lemma {:induction false} SpawnBoardWrites(c: Config, board: seq<int>, avs: seq<Avatar>, d: Draws, t: nat)
    requires SpawnInputOk(c, d, avs) && |board| == c.gridSize * c.gridSize && t <= |avs|
    ensures forall i, z :: 0 <= i < t && 0 <= z < 2 ==>
      SpawnAll(c, board, avs, d, t).0[Idx(SpawnedCell(c, d, |avs|, i, z), c.gridSize)] == (StartingLength - z) * Side(avs[i].owner)
  {
    if t > 0 {
      SpawnBoardWrites(c, board, avs, d, t - 1);
      SpawnLastLaid(c, board, avs, d, t);
      SpawnWritesStep(c, d, avs, t, SpawnAll(c, board, avs, d, t - 1).0, SpawnAll(c, board, avs, d, t).0);
    }
  }

  /** Spawning the first `t` avatars leaves every cell outside their segments alone. */
  lemma {:induction false} SpawnBoardKeeps(c: Config, board: seq<int>, avs: seq<Avatar>, d: Draws, t: nat)
    requires SpawnInputOk(c, d, avs) && |board| == c.gridSize * c.gridSize && t <= |avs|
    ensures forall q :: InGrid(q, c.gridSize) && !Spawned(c, d, |avs|, t, q) ==>
      SpawnAll(c, board, avs, d, t).0[Idx(q, c.gridSize)] == board[Idx(q, c.gridSize)]
  {
    if t > 0 {
      SpawnBoardKeeps(c, board, avs, d, t - 1);
      SpawnLastLaid(c, board, avs, d, t);
      SpawnKeepsStep(c, d, avs, t, board, SpawnAll(c, board, avs, d, t - 1).0, SpawnAll(c, board, avs, d, t).0);
    }
  }

  /** The step of SpawnBoardWrites, on the map alone. */
  lemma SpawnWritesStep(c: Config, d: Draws, avs: seq<Avatar>, t: nat, b1: seq<int>, b2: seq<int>)
    requires ConfigOk(c) && SpawnDrawsOk(c, d, |avs|) && 0 < t <= |avs|
    requires |b1| == c.gridSize * c.gridSize && |b2| == |b1|
    requires forall i, z :: 0 <= i < t - 1 && 0 <= z < 2 ==>
      b1[Idx(SpawnedCell(c, d, |avs|, i, z), c.gridSize)] == (StartingLength - z) * Side(avs[i].owner)
    requires b2[Idx(SpawnedCell(c, d, |avs|, t - 1, 0), c.gridSize)] == StartingLength * Side(avs[t - 1].owner)
    requires b2[Idx(SpawnedCell(c, d, |avs|, t - 1, 1), c.gridSize)] == (StartingLength - 1) * Side(avs[t - 1].owner)
    requires forall q :: InGrid(q, c.gridSize) && q != SpawnedCell(c, d, |avs|, t - 1, 0) && q != SpawnedCell(c, d, |avs|, t - 1, 1) ==>
      b2[Idx(q, c.gridSize)] == b1[Idx(q, c.gridSize)]
    ensures forall i, z :: 0 <= i < t && 0 <= z < 2 ==>
      b2[Idx(SpawnedCell(c, d, |avs|, i, z), c.gridSize)] == (StartingLength - z) * Side(avs[i].owner)
  {
    var n := |avs|;
    forall i, z | 0 <= i < t - 1 && 0 <= z < 2
      ensures b2[Idx(SpawnedCell(c, d, n, i, z), c.gridSize)] == b1[Idx(SpawnedCell(c, d, n, i, z), c.gridSize)]
    {
      SpawnedCellsApart(c, d, n, i, z, t - 1, 0);
      SpawnedCellsApart(c, d, n, i, z, t - 1, 1);
    }
  }

  /** The step of SpawnBoardKeeps, on the map alone. */
  lemma SpawnKeepsStep(c: Config, d: Draws, avs: seq<Avatar>, t: nat, b0: seq<int>, b1: seq<int>, b2: seq<int>)
    requires ConfigOk(c) && SpawnDrawsOk(c, d, |avs|) && 0 < t <= |avs|
    requires |b0| == c.gridSize * c.gridSize && |b1| == |b0| && |b2| == |b0|
    requires forall q :: InGrid(q, c.gridSize) && !Spawned(c, d, |avs|, t - 1, q) ==> b1[Idx(q, c.gridSize)] == b0[Idx(q, c.gridSize)]
    requires forall q :: InGrid(q, c.gridSize) && q != SpawnedCell(c, d, |avs|, t - 1, 0) && q != SpawnedCell(c, d, |avs|, t - 1, 1) ==>
      b2[Idx(q, c.gridSize)] == b1[Idx(q, c.gridSize)]
    ensures forall q :: InGrid(q, c.gridSize) && !Spawned(c, d, |avs|, t, q) ==> b2[Idx(q, c.gridSize)] == b0[Idx(q, c.gridSize)]
  {
    var n := |avs|;
    forall q | InGrid(q, c.gridSize) && !Spawned(c, d, n, t, q)
      ensures b2[Idx(q, c.gridSize)] == b0[Idx(q, c.gridSize)]
    {
      assert q != SpawnedCell(c, d, n, t - 1, 0);
      assert q != SpawnedCell(c, d, n, t - 1, 1);
      assert !Spawned(c, d, n, t - 1, q);
    }
  }

  /** Spawning avatar t - 1 writes its two segments and nothing else. */
  lemma SpawnLastLaid(c: Config, board: seq<int>, avs: seq<Avatar>, d: Draws, t: nat)
    requires SpawnInputOk(c, d, avs) && |board| == c.gridSize * c.gridSize && 0 < t <= |avs|
    ensures SpawnAll(c, board, avs, d, t).0[Idx(SpawnedCell(c, d, |avs|, t - 1, 0), c.gridSize)] == StartingLength * Side(avs[t - 1].owner)
    ensures SpawnAll(c, board, avs, d, t).0[Idx(SpawnedCell(c, d, |avs|, t - 1, 1), c.gridSize)] == (StartingLength - 1) * Side(avs[t - 1].owner)
    ensures forall q :: InGrid(q, c.gridSize) && q != SpawnedCell(c, d, |avs|, t - 1, 0) && q != SpawnedCell(c, d, |avs|, t - 1, 1) ==>
      SpawnAll(c, board, avs, d, t).0[Idx(q, c.gridSize)] == SpawnAll(c, board, avs, d, t - 1).0[Idx(q, c.gridSize)]
  {
    var g := c.gridSize;
    var n := |avs|;
    var prev := SpawnAll(c, board, avs, d, t - 1);
    assert prev.1[t - 1] == avs[t - 1];
    var a := ResetForNewGame(avs[t - 1], c.nTurns, c.senses[avs[t - 1].owner]);
    var head := SpawnHead(c, d, t - 1);
    var rotation := d.rotations[t - 1];
    SpawnedCellInBlock(c, d, n, t - 1, 0);
    SpawnedCellInBlock(c, d, n, t - 1, 1);
    LayBodyEffect(prev.0, g, head, rotation, a.size, Side(a.owner));
    var b2 := SpawnAll(c, board, avs, d, t).0;
    assert b2 == LayBody(prev.0, g, head, rotation, a.size, Side(a.owner), 2).0;
    assert a.size == StartingLength && a.owner == avs[t - 1].owner;
  }

  // ---------------------------------------------------------------------
  // Percept memory (lines 825-847)
  // ---------------------------------------------------------------------

  /** For a unit shift (dy, dx), a shifted frame reads the cell one step
    * along the shift, and 0 where that falls off the frame. */
  lemma ShiftIsTranslation(m: Frame, n: nat, dy: int, dx: int, i: nat, j: nat)
    requires IsSquare(m, n) && IsUnitStep(dy, dx) && i < n && j < n
    ensures Shifted(m, n, dy, dx)[i][j] == if 0 <= i + dy < n && 0 <= j + dx < n then m[i + dy][j + dx] else 0
  {
  }

  /** With several frames, frame f is the shifted copy of frame f + 1 and the last is its own shifted copy; one frame is kept as it is. */
  lemma MemoryFrames(ps: seq<Frame>, fov: nat, dy: int, dx: int)
    requires |ps| >= 1 && forall f :: 0 <= f < |ps| ==> IsSquare(ps[f], fov)
    ensures var r := Memory(ps, fov, dy, dx);
      (|ps| == 1 ==> r == ps) &&
      (|ps| > 1 ==>
        (forall f :: 0 <= f < |ps| - 1 ==> r[f] == Shifted(ps[f + 1], fov, dy, dx)) &&
        r[|ps| - 1] == Shifted(ps[|ps| - 1], fov, dy, dx))
  {
    var r := Memory(ps, fov, dy, dx);
    if |ps| == 1 {
      assert r[0] == ps[0];
    }
  }

  // ---------------------------------------------------------------------
  // Score (lines 1054-1066)
  // ---------------------------------------------------------------------

  /** The avatars with the two players' roles exchanged. */
  function SwapOwners(avs: seq<Avatar>): (r: seq<Avatar>)
    ensures |r| == |avs|
    ensures forall i :: 0 <= i < |avs| ==> r[i] == avs[i].(owner := if avs[i].owner == 0 then 1 else 0)
  {
    seq(|avs|, i requires 0 <= i < |avs| => avs[i].(owner := if avs[i].owner == 0 then 1 else 0))
  }

  /** Exchanging the players exchanges their totals. */
  lemma {:induction false} PlayerScoreSwap(avs: seq<Avatar>, n: nat)
    requires n <= |avs| && forall i :: 0 <= i < |avs| ==> |avs[i].sizes| >= 1 && avs[i].owner < 2
    ensures PlayerScore(SwapOwners(avs), 0, n) == PlayerScore(avs, 1, n)
    ensures PlayerScore(SwapOwners(avs), 1, n) == PlayerScore(avs, 0, n)
  {
    if n > 0 {
      PlayerScoreSwap(avs, n - 1);
    }
  }

  /** Each player's total is at least 0 when every recorded size is. */
  lemma {:induction false} PlayerScoreNonnegative(avs: seq<Avatar>, k: nat, n: nat)
    requires n <= |avs| && forall i :: 0 <= i < |avs| ==> |avs[i].sizes| >= 1
    requires forall i, t :: 0 <= i < |avs| && 0 <= t < |avs[i].sizes| ==> avs[i].sizes[t] >= 0
    ensures PlayerScore(avs, k, n) >= 0
  {
    if n > 0 {
      PlayerScoreNonnegative(avs, k, n - 1);
      var m := MaxOf(avs[n - 1].sizes);
      assert avs[n - 1].sizes[0] <= m;
    }
  }

  /** In a two-player game, exchanging the players (and their settings) negates the score. */
  lemma ScoreSwap(c: Config, w: World)
    requires WorldOk(c, w) && c.nTurns >= 1 && |c.senses| == 2
    ensures var c2 := c.(senses := [c.senses[1], c.senses[0]]); var w2 := w.(avatars := SwapOwners(w.avatars));
      WorldOk(c2, w2) && Score(c2, w2) == -Score(c, w)
  {
    var c2 := c.(senses := [c.senses[1], c.senses[0]]);
    var w2 := w.(avatars := SwapOwners(w.avatars));
    assert WorldOk(c2, w2) by {
      forall i | 0 <= i < |w2.avatars|
        ensures AvatarOk(c2, w2.avatars[i])
      {
        assert AvatarOk(c, w.avatars[i]);
        assert c2.senses[w2.avatars[i].owner] == c.senses[w.avatars[i].owner];
      }
    }
    PlayerScoreSwap(w.avatars, |w.avatars|);
  }
}
