// The A* driver of the eight puzzle (A_Star/ex1.py): its tile heuristic,
// the search nodes, the fringe loop (no closed set) and the reconstruction
// of the action sequence from the solution node's parent links.
module AStar {
  import opened Wrappers
  import opened EightPuzzle

  function Abs(x: int): nat { if x < 0 then -x else x }

  /** Python's `&` on integers (two's complement of unbounded width). */
  function BitAnd(a: int, b: int): int
    decreases Abs(a) + Abs(b)
  {
    if a == 0 || b == 0 then 0
    else if a == -1 then b
    else if b == -1 then a
    else 2 * BitAnd(a / 2, b / 2) + (if a % 2 == 1 && b % 2 == 1 then 1 else 0)
  }

  /** Masking with a non-negative `a` keeps a subset of its bits: the result lies in [0, a]. */
  lemma {:induction false} BitAndBounded(a: int, b: int)
    requires a >= 0
    ensures 0 <= BitAnd(a, b) <= a
    decreases Abs(a) + Abs(b)
  {
    if a != 0 && b != 0 && b != -1 {
      BitAndBounded(a / 2, b / 2);
    }
  }

  /** Masking a non-negative number with 3 keeps its last two bits. */
  lemma {:induction false} BitAndThree(i: int)
    requires i >= 0
    ensures BitAnd(3, i) == i % 4
  {
    if i != 0 {
      assert BitAnd(3, i) == 2 * BitAnd(1, i / 2) + i % 2;
      if i / 2 != 0 {
        assert BitAnd(1, i / 2) == 2 * BitAnd(0, i / 4) + (i / 2) % 2;
      }
    }
  }

  /** `j < 3 & i < 3`, parsed by Python as the chained comparison `j < (3 & i) < 3`. */
  predicate FirstClause(j: int, i: int)
  {
    j < BitAnd(3, i) < 3
  }

  /** `j > 2 & j < 6 & i > 2 & i < 6`, parsed as `j > (2 & j) < (6 & i) > (2 & i) < 6`. */
  predicate SecondClause(j: int, i: int)
  {
    j > BitAnd(2, j) && BitAnd(2, j) < BitAnd(6, i) && BitAnd(6, i) > BitAnd(2, i) && BitAnd(2, i) < 6
  }

  /** `j > 5 & i > 5`, parsed as `j > (5 & i) > 5`. */
  predicate ThirdClause(j: int, i: int)
  {
    j > BitAnd(5, i) > 5
  }

  /** sameRow as the interpreter reads it: `&` binds tighter than the comparisons. */
  function SameRow(j: int, i: int): (r: int)
    ensures r == 1 <==> FirstClause(j, i) || SecondClause(j, i) || ThirdClause(j, i)
    ensures r == 0 || r == 1
  {
    if FirstClause(j, i) then 1
    else if SecondClause(j, i) then 1
    else if ThirdClause(j, i) then 1
    else 0
  }

  /** The third test can never succeed, since `5 & i` is at most 5. */
  lemma SameRowThirdClauseDead(j: int, i: int)
    ensures !ThirdClause(j, i)
    ensures SameRow(j, i) == 1 <==> FirstClause(j, i) || SecondClause(j, i)
  {
    BitAndBounded(5, i);
  }

  /** With the actual parse, the first test for a tile index j >= 0 reads
    * `j < i % 4 < 3`: it ignores the row of j and i. */
  lemma SameRowFirstClause(j: int, i: int)
    requires i >= 0
    ensures FirstClause(j, i) <==> j < i % 4 < 3
  {
    BitAndThree(i);
  }

  /** Cells 0 and 5 lie on different rows yet are reported on the same row,
    * while a cell is not reported on the same row as itself. */
  lemma SameRowMisreports()
    ensures SameRow(0, 5) == 1
    ensures SameRow(0, 0) == 0
  {
    BitAndThree(5);
    BitAndThree(0);
  }

  function SameCol(j: int, i: int): (r: int)
    ensures r == 1 <==> (j - i) % 3 == 0
    ensures r == 0 || r == 1
  {
    if j % 3 == i % 3 then 1 else 0
  }

  /** What a misplaced tile `k` at position `i` (goal tile `g`) adds to the heuristic. */
  function TileCost(k: int, g: int, i: int): nat
  {
    1 + (if SameRow(k, i) == 1 then Abs(k - g)
         else if Abs(6 - g) > 4 then Abs(k - g) + 2
         else Abs(k - g))
  }

  /** The heuristic accumulated over the positions below `n`. */
  function HeuristicUpTo(s: seq<int>, goal: seq<int>, n: nat): nat
    requires n <= |s| <= |goal|
  {
    if n == 0 then 0
    else HeuristicUpTo(s, goal, n - 1) + (if s[n - 1] != goal[n - 1] then TileCost(s[n - 1], goal[n - 1], n - 1) else 0)
  }

  function HeuristicValue(s: seq<int>, goal: seq<int>): nat
    requires |s| <= |goal|
  {
    HeuristicUpTo(s, goal, |s|)
  }

  /** The loop of `heuristic`: each misplaced tile adds one plus its distance term. */
  method Heuristic(s: seq<int>, goal: seq<int>) returns (h: int)
    requires |s| <= |goal|
    ensures h == HeuristicValue(s, goal)
  {
    h := 0;
    var j := 0;
    var k := 0;
    for i := 0 to |s|
      invariant h == HeuristicUpTo(s, goal, i)
    {
      if s[i] != goal[i] {
        j := i;
        k := s[i];
        if SameRow(k, j) == 1 {
          j := Abs(k - goal[i]);
        } else {
          if Abs(6 - goal[i]) > 4 {
            j := Abs(k - goal[i]) + 2;
          } else {
            j := Abs(k - goal[i]);
          }
        }
        h := h + 1 + j;
      }
    }
  }

  /** The number of positions below `n` where the state and the goal differ. */
  function MisplacedUpTo(s: seq<int>, goal: seq<int>, n: nat): nat
    requires n <= |s| <= |goal|
  {
    if n == 0 then 0
    else MisplacedUpTo(s, goal, n - 1) + (if s[n - 1] != goal[n - 1] then 1 else 0)
  }

  /** The heuristic vanishes exactly on a state that agrees with the goal everywhere. */
  lemma {:induction false} HeuristicZeroIff(s: seq<int>, goal: seq<int>, n: nat)
    requires n <= |s| <= |goal|
    ensures HeuristicUpTo(s, goal, n) == 0 <==> forall i :: 0 <= i < n ==> s[i] == goal[i]
  {
    if n > 0 {
      HeuristicZeroIff(s, goal, n - 1);
    }
  }

  /** The heuristic is never below the number of misplaced tiles. */
  lemma {:induction false} HeuristicAtLeastMisplaced(s: seq<int>, goal: seq<int>, n: nat)
    requires n <= |s| <= |goal|
    ensures HeuristicUpTo(s, goal, n) >= MisplacedUpTo(s, goal, n)
  {
    if n > 0 {
      HeuristicAtLeastMisplaced(s, goal, n - 1);
    }
  }

  /** A search node. Python links a node to its parent object; here every node
    * lives in an arena and `parent` holds the parent's index there, which is
    * also how node identity is compared. */
  datatype Node = Node(s: seq<int>, parent: Option<nat>, g: nat, f: int, action: Option<int>, id: nat)

  /** The node constructor: the evaluation is the path cost plus the heuristic. */
  function NewNode(s: seq<int>, parent: Option<nat>, g: nat, h: int, action: Option<int>, id: nat): (n: Node)
    ensures n.s == s && n.parent == parent && n.g == g && n.action == action && n.id == id
    ensures n.f - n.g == h
  {
    Node(s, parent, g, g + h, action, id)
  }

  /** Node `k` of the arena is the root (the initial state) or a child of an
    * earlier node, reached by one of its valid actions, one step further. */
  predicate NodeOk(arena: seq<Node>, k: nat, init: seq<int>, goal: seq<int>)
    requires k < |arena|
    requires |goal| >= 9
  {
    var n := arena[k];
    n.id == k && IsPuzzleState(n.s) && n.f == n.g + HeuristicValue(n.s, goal)
    && if k == 0 then
         n.parent.None? && n.action.None? && n.g == 0 && n.s == init
       else
         n.parent.Some? && n.parent.value < k && n.action.Some?
         && var p := arena[n.parent.value];
            |p.s| == 9 && 0 in p.s
            && n.g == p.g + 1 && n.action.value in Actions(p.s) && n.s == Moved(p.s, n.action.value)
  }

  predicate ArenaValid(arena: seq<Node>, init: seq<int>, goal: seq<int>)
    requires |goal| >= 9
  {
    |arena| >= 1 && forall k :: 0 <= k < |arena| ==> NodeOk(arena, k, init, goal)
  }

  predicate InArena(n: Node, arena: seq<Node>)
  {
    n.id < |arena| && arena[n.id] == n
  }

  predicate SortedByF(xs: seq<Node>)
  {
    forall p, q :: 0 <= p < q < |xs| ==> xs[p].f <= xs[q].f
  }

  lemma ArenaExtend(arena: seq<Node>, n: Node, init: seq<int>, goal: seq<int>)
    requires |goal| >= 9
    requires ArenaValid(arena, init, goal)
    requires NodeOk(arena + [n], |arena|, init, goal)
    ensures ArenaValid(arena + [n], init, goal)
  {
    var a := arena + [n];
    forall k | 0 <= k < |arena| ensures NodeOk(a, k, init, goal) {
      assert NodeOk(arena, k, init, goal);
      assert a[k] == arena[k];
      if k > 0 {
        assert a[arena[k].parent.value] == arena[arena[k].parent.value];
      }
    }
  }

  lemma SortedSnoc(xs: seq<Node>, y: Node)
    requires SortedByF(xs)
    requires forall p :: 0 <= p < |xs| ==> xs[p].f <= y.f
    ensures SortedByF(xs + [y])
  {
    var t := xs + [y];
    assert forall p :: 0 <= p < |xs| ==> t[p] == xs[p];
  }

  /** Places `x` into the sorted `r` after every node whose f is at most x's, which keeps the sort stable. */
  function InsertByF(r: seq<Node>, x: Node): (t: seq<Node>)
    requires SortedByF(r)
    ensures SortedByF(t)
    ensures multiset(t) == multiset(r) + multiset{x}
    ensures forall y :: y in t ==> y in r || y == x
  {
    if r == [] then [x]
    else if r[|r| - 1].f <= x.f then SortedSnoc(r, x); r + [x]
    else
      var init := r[..|r| - 1];
      var last := r[|r| - 1];
      assert r == init + [last];
      var t' := InsertByF(init, x);
      LastIsLargest(r);
      assert forall y :: y in t' ==> y.f <= last.f;
      assert forall p :: 0 <= p < |t'| ==> t'[p] in t';
      SortedSnoc(t', last);
      t' + [last]
  }

  lemma LastIsLargest(r: seq<Node>)
    requires SortedByF(r) && |r| > 0
    ensures forall y :: y in r[..|r| - 1] ==> y.f <= r[|r| - 1].f
  {
    forall y | y in r[..|r| - 1]
      ensures y.f <= r[|r| - 1].f
    {
      var q :| 0 <= q < |r| - 1 && r[..|r| - 1][q] == y;
      assert r[q] == y;
    }
  }

  /** `fringe.sort(key=f)`: Python's sort is stable; it is taken here as an insertion sort on f. */
  function SortByF(xs: seq<Node>): (r: seq<Node>)
    ensures SortedByF(r)
    ensures multiset(r) == multiset(xs)
  {
    if xs == [] then []
    else
      assert xs == xs[..|xs| - 1] + [xs[|xs| - 1]];
      InsertByF(SortByF(xs[..|xs| - 1]), xs[|xs| - 1])
  }

  datatype SearchOutcome = Solved(solution: Node) | NotFound | OutOfFuel

  /** The child of an arena node under one of its valid actions is a well-formed next node. */
  lemma ChildOk(arena: seq<Node>, init: seq<int>, goal: seq<int>, current: Node, a: int, child: Node)
    requires |goal| >= 9
    requires ArenaValid(arena, init, goal)
    requires InArena(current, arena)
    requires IsPuzzleState(current.s) && a in Actions(current.s)
    requires child == Node(Moved(current.s, a), Some(current.id), current.g + 1,
                           current.g + 1 + HeuristicValue(Moved(current.s, a), goal), Some(a), |arena|)
    ensures ArenaValid(arena + [child], init, goal)
  {
    MovedIsPuzzleState(current.s, a);
    var t := arena + [child];
    assert t[current.id] == current;
    assert NodeOk(t, |arena|, init, goal);
    ArenaExtend(arena, child, init, goal);
  }

  lemma InArenaExtend(fringe: seq<Node>, arena: seq<Node>, child: Node)
    requires forall n :: n in fringe ==> InArena(n, arena)
    requires child.id == |arena|
    ensures forall n :: n in [child] + fringe ==> InArena(n, arena + [child])
    ensures forall n :: n in fringe + [child] ==> InArena(n, arena + [child])
  {
    var t := arena + [child];
    forall n | n in fringe ensures InArena(n, t) {
      assert t[n.id] == arena[n.id];
    }
  }

  /** Expands `current`: one child per valid action, each one step deeper and
    * evaluated by the heuristic; a child whose f beats the best node seen so
    * far (`mini`) becomes the new best and goes to the front of the fringe,
    * any other goes to the back. */
  method Expand(init: seq<int>, goal: seq<int>, arena: seq<Node>, fringe: seq<Node>, mini: Node, current: Node)
    returns (arena': seq<Node>, fringe': seq<Node>, mini': Node)
    requires |goal| >= 9
    requires ArenaValid(arena, init, goal)
    requires InArena(current, arena) && IsPuzzleState(current.s)
    requires forall n :: n in fringe ==> InArena(n, arena)
    ensures ArenaValid(arena', init, goal)
    ensures |arena'| == |arena| + |Actions(current.s)| && arena'[..|arena|] == arena
    ensures forall k :: |arena| <= k < |arena'| ==> arena'[k].parent == Some(current.id)
    ensures multiset(fringe') == multiset(fringe) + multiset(arena'[|arena|..])
    ensures forall n :: n in fringe' ==> InArena(n, arena')
  {
    var actions := Actions(current.s);
    arena', fringe', mini' := arena, fringe, mini;
    for idx := 0 to |actions|
      invariant ArenaValid(arena', init, goal)
      invariant |arena'| == |arena| + idx && arena'[..|arena|] == arena
      invariant forall k :: |arena| <= k < |arena'| ==> arena'[k].parent == Some(current.id)
      invariant multiset(fringe') == multiset(fringe) + multiset(arena'[|arena|..])
      invariant forall n :: n in fringe' ==> InArena(n, arena')
    {
      var a := actions[idx];
      var next := Step(current.s, a);
      var h := Heuristic(next, goal);
      var child := NewNode(next, Some(current.id), current.g + 1, h, Some(a), |arena'|);
      var front := mini'.f > child.f;
      ExpandArenaStep(init, goal, arena, current, arena', a, child);
      ExpandFringeStep(arena, fringe, arena', fringe', child, front);
      arena' := arena' + [child];
      if front {
        mini' := child;
        fringe' := [child] + fringe';
      } else {
        fringe' := fringe' + [child];
      }
    }
  }

  /** One pass of the expansion loop keeps the arena's invariants. */
  lemma ExpandArenaStep(init: seq<int>, goal: seq<int>, arena: seq<Node>, current: Node,
                        arenaK: seq<Node>, a: int, child: Node)
    requires |goal| >= 9
    requires ArenaValid(arenaK, init, goal)
    requires InArena(current, arena) && IsPuzzleState(current.s) && a in Actions(current.s)
    requires |arenaK| >= |arena| && arenaK[..|arena|] == arena
    requires forall k :: |arena| <= k < |arenaK| ==> arenaK[k].parent == Some(current.id)
    requires child == Node(Moved(current.s, a), Some(current.id), current.g + 1,
                           current.g + 1 + HeuristicValue(Moved(current.s, a), goal), Some(a), |arenaK|)
    ensures var a2 := arenaK + [child];
      ArenaValid(a2, init, goal) && a2[..|arena|] == arena
      && (forall k :: |arena| <= k < |a2| ==> a2[k].parent == Some(current.id))
  {
    assert arenaK[current.id] == arena[current.id];
    ChildOk(arenaK, init, goal, current, a, child);
  }

  /** One pass of the expansion loop keeps the fringe's invariants, wherever the child goes. */
  lemma ExpandFringeStep(arena: seq<Node>, fringe: seq<Node>, arenaK: seq<Node>, fringeK: seq<Node>,
                         child: Node, front: bool)
    requires |arenaK| >= |arena| && child.id == |arenaK|
    requires multiset(fringeK) == multiset(fringe) + multiset(arenaK[|arena|..])
    requires forall n :: n in fringeK ==> InArena(n, arenaK)
    ensures var a2 := arenaK + [child]; var f2 := if front then [child] + fringeK else fringeK + [child];
      multiset(f2) == multiset(fringe) + multiset(a2[|arena|..])
      && forall n :: n in f2 ==> InArena(n, a2)
  {
    assert (arenaK + [child])[|arena|..] == arenaK[|arena|..] + [child];
    InArenaExtend(fringeK, arenaK, child);
  }

  /** The fringe loop: pop the first node; stop if it holds the goal, else
    * expand it and sort the fringe by f. `fuel` bounds the number of
    * expansions, since without a closed set the loop need not end. */
  method Search(init: seq<int>, goal: seq<int>, fuel: nat) returns (outcome: SearchOutcome, arena: seq<Node>, fringe: seq<Node>)
    requires IsPuzzleState(init)
    requires |goal| >= 9
    ensures ArenaValid(arena, init, goal)
    ensures SortedByF(fringe)
    ensures forall n :: n in fringe ==> InArena(n, arena)
    ensures outcome.Solved? ==> outcome.solution.s == goal && InArena(outcome.solution, arena)
    ensures outcome.Solved? ==> forall n :: n in fringe ==> outcome.solution.f <= n.f
    ensures outcome.NotFound? ==> fringe == []
  {
    var h0 := Heuristic(init, goal);
    var root := NewNode(init, None, 0, h0, None, 0);
    arena := [root];
    assert NodeOk(arena, 0, init, goal);
    fringe := [root];
    var mini := root;
    var expansions := 0;
    while |fringe| > 0
      invariant ArenaValid(arena, init, goal)
      invariant SortedByF(fringe)
      invariant forall n :: n in fringe ==> InArena(n, arena)
      invariant expansions <= fuel
      decreases fuel - expansions
    {
      if expansions == fuel {
        return OutOfFuel, arena, fringe;
      }
      var current := fringe[0];
      assert current in fringe;
      fringe := fringe[1..];
      if current.s == goal {
        assert forall n :: n in fringe ==> current.f <= n.f;
        return Solved(current), arena, fringe;
      }
      NodeFacts(arena, init, goal, current.id);
      var unsorted;
      arena, unsorted, mini := Expand(init, goal, arena, fringe, mini, current);
      fringe := SortByF(unsorted);
      assert forall n :: n in fringe ==> n in multiset(unsorted);
      expansions := expansions + 1;
    }
    return NotFound, arena, fringe;
  }

  /** Replaying a list of actions with the environment's step. */
  function Replay(s: seq<int>, acts: seq<int>): (t: seq<int>)
    requires IsPuzzleState(s)
    ensures IsPuzzleState(t)
    decreases |acts|
  {
    if acts == [] then s
    else
      MovedIsPuzzleState(s, acts[0]);
      Replay(Moved(s, acts[0]), acts[1..])
  }

  lemma ReplayCons(s: seq<int>, a: int, rest: seq<int>)
    requires IsPuzzleState(s)
    ensures IsPuzzleState(Moved(s, a))
    ensures Replay(s, [a] + rest) == Replay(Moved(s, a), rest)
  {
    MovedIsPuzzleState(s, a);
    assert ([a] + rest)[1..] == rest;
  }

  lemma NodeFacts(arena: seq<Node>, init: seq<int>, goal: seq<int>, k: nat)
    requires |goal| >= 9
    requires ArenaValid(arena, init, goal)
    requires k < |arena|
    ensures arena[k].id == k && IsPuzzleState(arena[k].s)
    ensures k == 0 ==> arena[k].s == init && arena[k].g == 0
  {
    assert NodeOk(arena, k, init, goal);
  }

  /** What the arena records about a non-root node and its parent. */
  lemma ParentLink(arena: seq<Node>, init: seq<int>, goal: seq<int>, k: nat)
    requires |goal| >= 9
    requires ArenaValid(arena, init, goal)
    requires 0 < k < |arena|
    ensures arena[k].parent.Some? && arena[k].action.Some? && arena[k].parent.value < k
    ensures arena[arena[k].parent.value].id == arena[k].parent.value
    ensures IsPuzzleState(arena[arena[k].parent.value].s)
    ensures arena[k].g == arena[arena[k].parent.value].g + 1
    ensures arena[k].s == Moved(arena[arena[k].parent.value].s, arena[k].action.value)
  {
    assert NodeOk(arena, k, init, goal);
    assert NodeOk(arena, arena[k].parent.value, init, goal);
  }

  /** Follows the parent links from the solution back to the root, collecting
    * the actions, then reverses them: the sequence has one action per unit
    * of path cost and replaying it from the initial state reaches the solution. */
  method ActionSequence(arena: seq<Node>, init: seq<int>, goal: seq<int>, solution: Node) returns (acts: seq<int>)
    requires |goal| >= 9
    requires ArenaValid(arena, init, goal)
    requires InArena(solution, arena)
    ensures IsPuzzleState(init)
    ensures |acts| == solution.g
    ensures Replay(init, acts) == solution.s
  {
    NodeFacts(arena, init, goal, 0);
    NodeFacts(arena, init, goal, solution.id);
    var collected: seq<int> := [];
    var next := solution;
    while next.id != 0
      invariant InArena(next, arena)
      invariant |collected| + next.g == solution.g
      invariant IsPuzzleState(next.s)
      invariant Replay(next.s, Reverse(collected)) == solution.s
      decreases next.id
    {
      ParentLink(arena, init, goal, next.id);
      var parent := arena[next.parent.value];
      ReverseSnoc(collected, next.action.value);
      ReplayCons(parent.s, next.action.value, Reverse(collected));
      collected := collected + [next.action.value];
      next := parent;
    }
    acts := Reverse(collected);
  }
}
