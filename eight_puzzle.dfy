// The 3x3 sliding-tile environment (A_Star/eightpuzzle.py). A state lists
// the tiles of the board row by row, 0 standing for the blank; an action
// slides the blank left (0), down (1), right (2) or up (3).
module EightPuzzle {
  import opened Wrappers

  /** The puzzle keeps only the start state chosen by its mode. */
  datatype Puzzle = Puzzle(mode: string, initState: seq<int>)

  function Goal(): seq<int>
  {
    [0, 1, 2, 3, 4, 5, 6, 7, 8]
  }

  /** A state is a permutation of the tiles 0..8: nine distinct tiles from 0..8, the blank among them. */
  predicate IsPuzzleState(s: seq<int>)
  {
    |s| == 9 && 0 in s
    && (forall k :: 0 <= k < 9 ==> 0 <= s[k] < 9)
    && (forall p, q :: 0 <= p < q < 9 ==> s[p] != s[q])
  }

  /** The constructor: 'hard', 'medium' and 'easy' fix the start state; any other mode is refused (ValueError). */
  function NewPuzzle(mode: string): (r: Option<Puzzle>)
    ensures r.Some? <==> mode == "hard" || mode == "medium" || mode == "easy"
    ensures r.Some? ==> r.value.mode == mode && IsPuzzleState(r.value.initState)
  {
    if mode == "hard" then
      assert [7, 2, 4, 5, 0, 6, 8, 3, 1][4] == 0;
      TilesState([7, 2, 4, 5, 0, 6, 8, 3, 1], [4, 8, 1, 7, 2, 3, 5, 0, 6]);
      Some(Puzzle(mode, [7, 2, 4, 5, 0, 6, 8, 3, 1]))
    else if mode == "medium" then
      assert [0, 2, 5, 7, 4, 3, 6, 1, 8][0] == 0;
      TilesState([0, 2, 5, 7, 4, 3, 6, 1, 8], [0, 7, 1, 5, 4, 2, 6, 3, 8]);
      Some(Puzzle(mode, [0, 2, 5, 7, 4, 3, 6, 1, 8]))
    else if mode == "easy" then
      assert [1, 5, 4, 7, 0, 2, 3, 6, 8][4] == 0;
      TilesState([1, 5, 4, 7, 0, 2, 3, 6, 8], [4, 0, 5, 6, 2, 1, 7, 3, 8]);
      Some(Puzzle(mode, [1, 5, 4, 7, 0, 2, 3, 6, 8]))
    else None
  }

  /** Nine tiles from 0..8, the blank among them, make a puzzle state when a
    * table `pos` gives back the position of every tile (so no tile occurs twice). */
  lemma TilesState(s: seq<int>, pos: seq<int>)
    requires |s| == 9 && |pos| == 9 && 0 in s
    requires forall k :: 0 <= k < 9 ==> 0 <= s[k] < 9 && pos[s[k]] == k
    ensures IsPuzzleState(s)
  {
  }

  function Reset(p: Puzzle): seq<int>
  {
    p.initState
  }

  /** Compares the first nine entries with the goal, returning False at the first mismatch. */
  method IsGoal(s: seq<int>) returns (r: bool)
    requires |s| >= 9
    ensures r <==> s[..9] == Goal()
  {
    for i := 0 to 9
      invariant forall k :: 0 <= k < i ==> s[k] == k
    {
      if s[i] != i {
        assert s[..9][i] != Goal()[i];
        return false;
      }
    }
    assert s[..9] == Goal();
    return true;
  }

  /** The position of the blank: the first 0 of the state. */
  function Blank(s: seq<int>): (i: nat)
    requires 0 in s
    ensures i < |s| && s[i] == 0
    ensures forall k :: 0 <= k < i ==> s[k] != 0
  {
    IndexOf(s, 0).value
  }

  /** Whether the blank at position `i` can slide in direction `a`. */
  predicate Allowed(i: int, a: int)
  {
    (a == 0 && i % 3 != 0)
    || (a == 1 && i < 6)
    || (a == 2 && i % 3 != 2)
    || (a == 3 && i > 2)
  }

  /** The valid actions, built by conditional appends in the order 0, 1, 2, 3. */
  function Actions(s: seq<int>): (a: seq<int>)
    requires 0 in s
  {
    var i := Blank(s);
    (if i % 3 != 0 then [0] else [])
    + (if i < 6 then [1] else [])
    + (if i % 3 != 2 then [2] else [])
    + (if i > 2 then [3] else [])
  }

  /** The actions are listed in strictly ascending order, and they are exactly the directions the blank can slide in. */
  lemma ActionsAllowed(s: seq<int>)
    requires 0 in s
    ensures forall p, q :: 0 <= p < q < |Actions(s)| ==> Actions(s)[p] < Actions(s)[q]
    ensures forall x :: x in Actions(s) <==> Allowed(Blank(s), x)
  {
  }

  /** Two actions at a corner, three on an edge, four at the centre. */
  lemma ActionCount(s: seq<int>)
    requires 0 in s
    ensures Blank(s) in {0, 2, 6, 8} ==> |Actions(s)| == 2
    ensures Blank(s) in {1, 3, 5, 7} ==> |Actions(s)| == 3
    ensures Blank(s) == 4 ==> |Actions(s)| == 4
  {
  }

  /** The cell the blank swaps with under action `a`. */
  function Neighbour(i: int, a: int): int
  {
    if a == 0 then i - 1 else if a == 1 then i + 3 else if a == 2 then i + 1 else i - 3
  }

  lemma NeighbourInBoard(i: int, a: int)
    requires 0 <= i < 9 && Allowed(i, a)
    ensures 0 <= Neighbour(i, a) < 9 && Neighbour(i, a) != i
  {
  }

  /** The successor of `s` under `a`: a valid action swaps the blank with its neighbour, any other leaves the state as it was. */
  function Moved(s: seq<int>, a: int): (t: seq<int>)
    requires |s| == 9 && 0 in s
    ensures |t| == 9
    ensures multiset(t) == multiset(s)
    ensures a !in Actions(s) ==> t == s
    ensures a in Actions(s) ==> t[Blank(s)] == s[Neighbour(Blank(s), a)] && t[Neighbour(Blank(s), a)] == 0
    ensures a in Actions(s) ==> forall k :: 0 <= k < 9 && k != Blank(s) && k != Neighbour(Blank(s), a) ==> t[k] == s[k]
  {
    if a in Actions(s) then
      var i := Blank(s);
      ActionsAllowed(s);
      NeighbourInBoard(i, a);
      Swap(s, i, Neighbour(i, a))
    else s
  }

  /** The state with the tiles at i and j exchanged. */
  function Swap(s: seq<int>, i: nat, j: nat): (t: seq<int>)
    requires i < |s| && j < |s|
    ensures |t| == |s| && multiset(t) == multiset(s)
    ensures t[i] == s[j] && t[j] == s[i]
    ensures forall k :: 0 <= k < |s| && k != i && k != j ==> t[k] == s[k]
  {
    s[i := s[j]][j := s[i]]
  }

  /** The environment's step: copies the state into a fresh buffer and, for a valid action, swaps the blank with its neighbour. */
  method Step(s: seq<int>, a: int) returns (t: seq<int>)
    requires |s| == 9 && 0 in s
    ensures t == Moved(s, a)
  {
    var buf := new int[|s|](k requires 0 <= k < |s| => s[k]);
    if a in Actions(s) {
      var i := Blank(s);
      ActionsAllowed(s);
      NeighbourInBoard(i, a);
      var j := Neighbour(i, a);
      buf[i] := buf[j];
      buf[j] := 0;
    }
    t := buf[..];
  }

  /** A step keeps the state a permutation of 0..8. */
  lemma MovedIsPuzzleState(s: seq<int>, a: int)
    requires IsPuzzleState(s)
    ensures IsPuzzleState(Moved(s, a))
  {
    var t := Moved(s, a);
    if a in Actions(s) {
      var i := Blank(s);
      ActionsAllowed(s);
      NeighbourInBoard(i, a);
      var j := Neighbour(i, a);
      assert t[j] == 0;
      forall p, q | 0 <= p < q < 9 ensures t[p] != t[q] {
        var p' := if p == i then j else if p == j then i else p;
        var q' := if q == i then j else if q == j then i else q;
        assert t[p] == s[p'] && t[q] == s[q'];
      }
    }
  }

  /** In a puzzle state the blank is the only 0. */
  lemma BlankUnique(s: seq<int>, k: nat)
    requires IsPuzzleState(s)
    requires k < |s| && s[k] == 0
    ensures Blank(s) == k
  {
  }

  /** After a valid move the blank sits where its neighbour was. */
  lemma MovedBlank(s: seq<int>, a: int)
    requires IsPuzzleState(s) && a in Actions(s)
    ensures 0 in Moved(s, a) && Blank(Moved(s, a)) == Neighbour(Blank(s), a)
  {
    var i := Blank(s);
    ActionsAllowed(s);
    NeighbourInBoard(i, a);
    var j := Neighbour(i, a);
    var t := Moved(s, a);
    assert t[j] == 0;
    forall k | 0 <= k < j
      ensures t[k] != 0
    {
      if k == i {
        assert s[i] != s[j];
      } else {
        assert s[i] != s[k];
      }
    }
  }

  /** The direction that undoes `a`: left/right and down/up cancel. */
  function Inverse(a: int): int
  {
    if a == 0 then 2 else if a == 2 then 0 else if a == 1 then 3 else 1
  }

  /** From the cell the blank moved to, the inverse direction is allowed and leads back. */
  lemma InverseAllowed(i: int, a: int)
    requires 0 <= i < 9 && Allowed(i, a)
    ensures Allowed(Neighbour(i, a), Inverse(a))
    ensures Neighbour(Neighbour(i, a), Inverse(a)) == i
  {
  }

  /** A valid move followed by its inverse restores the state. */
  lemma MoveThenInverse(s: seq<int>, a: int)
    requires IsPuzzleState(s)
    requires a in Actions(s)
    ensures 0 in Moved(s, a)
    ensures Moved(Moved(s, a), Inverse(a)) == s
  {
    var i := Blank(s);
    ActionsAllowed(s);
    NeighbourInBoard(i, a);
    var j := Neighbour(i, a);
    var t := Moved(s, a);
    MovedBlank(s, a);
    ActionsAllowed(t);
    InverseAllowed(i, a);
    var u := Moved(t, Inverse(a));
    assert t == Swap(s, i, j);
    assert u == Swap(t, j, i);
    SwapUndo(s, i, j);
  }

  /** Exchanging the same two tiles twice restores the state. */
  lemma SwapUndo(s: seq<int>, i: nat, j: nat)
    requires i < |s| && j < |s|
    ensures Swap(Swap(s, i, j), j, i) == s
  {
    var u := Swap(Swap(s, i, j), j, i);
    assert forall k :: 0 <= k < |s| ==> u[k] == s[k];
  }
}
