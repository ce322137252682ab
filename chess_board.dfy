// Fitness of an n-queens chromosome (genetic/chess_board.py): a chromosome
// lists the board squares holding queens, square q being at row int(q/size)
// and column q % size; the fitness counts the pairs of queens that do not
// attack each other.
module ChessBoard {
  import opened Wrappers

  function Abs(x: int): nat { if x < 0 then -x else x }

  function NatDiv(x: nat, y: nat): nat
    requires y > 0
  {
    x / y
  }

  /** Python's `int(a / b)`: true division truncated toward zero. */
  function TruncDiv(a: int, b: int): (q: int)
    requires b != 0
    ensures Abs(q) == NatDiv(Abs(a), Abs(b))
    ensures q > 0 ==> (a < 0) == (b < 0)
    ensures q < 0 ==> (a < 0) != (b < 0)
  {
    var m: int := NatDiv(Abs(a), Abs(b));
    if (a < 0) == (b < 0) then m else -m
  }

  /** Python's `a % b`: the remainder takes the sign of the divisor. */
  function PyMod(a: int, b: int): (m: int)
    requires b != 0
    ensures b > 0 ==> 0 <= m < b
    ensures b < 0 ==> b < m <= 0
  {
    if b > 0 then a % b else -((-a) % (-b))
  }

  function Row(q: int, size: int): int
    requires size != 0
  {
    TruncDiv(q, size)
  }

  function Col(q: int, size: int): int
    requires size != 0
  {
    PyMod(q, size)
  }

  /** Two queens attack each other on a shared row, a shared column or a shared diagonal. */
  predicate Attack(size: int, p: int, q: int)
    requires size != 0
  {
    Row(p, size) == Row(q, size)
    || Col(p, size) == Col(q, size)
    || Abs(Row(q, size) - Row(p, size)) == Abs(Col(p, size) - Col(q, size))
  }

  /** The number of queens c[j], from j on, that attack queen c[i]. */
  function AttackersFrom(size: int, c: seq<int>, i: nat, j: nat): (n: nat)
    requires size != 0
    requires i < |c|
    requires j <= |c|
    ensures n <= |c| - j
    decreases |c| - j
  {
    if j == |c| then 0
    else (if Attack(size, c[i], c[j]) then 1 else 0) + AttackersFrom(size, c, i, j + 1)
  }

  /** The number of attacking pairs c[i], c[j] with from <= i < j. */
  function AttackingPairsFrom(size: int, c: seq<int>, from: nat): nat
    requires size != 0
    requires from <= |c|
    decreases |c| - from
  {
    if from == |c| then 0
    else AttackersFrom(size, c, from, from + 1) + AttackingPairsFrom(size, c, from + 1)
  }

  function AttackingPairs(size: int, c: seq<int>): nat
    requires size != 0
  {
    AttackingPairsFrom(size, c, 0)
  }

  /** `size * (size - 1) / 2`, the pair count the fitness starts from (an integer: one of the two factors is even). */
  function AllPairs(size: int): int
  {
    size * (size - 1) / 2
  }

  /** The error Python raises when a queen's row or column is computed on a board of size 0. */
  datatype ArithError = ZeroDivision

  /** Starts from size*(size-1)/2 and subtracts one for every pair i < j
    * that shares a row, else a column, else a diagonal. Every queen's row and
    * column is computed before its pairs are looked at, so a board of size 0
    * raises as soon as there is one queen; only an empty chromosome gets
    * through with size 0. */
  method NonattackingPairs(size: int, c: seq<int>) returns (r: Result<int, ArithError>)
    ensures r.Err? <==> size == 0 && |c| > 0
    ensures r.Ok? && size != 0 ==> r.value == AllPairs(size) - AttackingPairs(size, c)
    ensures r.Ok? && size == 0 ==> r.value == 0
  {
    var n := AllPairs(size);
    if size == 0 {
      if |c| > 0 {
        return Err(ZeroDivision);
      }
      return Ok(n);
    }
    for i := 0 to |c|
      invariant n == AllPairs(size) - AttackingPairs(size, c) + AttackingPairsFrom(size, c, i)
    {
      var q1Row := TruncDiv(c[i], size);
      var q1Col := PyMod(c[i], size);
      ghost var start := n;
      for j := i + 1 to |c|
        invariant n == start - AttackersFrom(size, c, i, i + 1) + AttackersFrom(size, c, i, j)
      {
        var q2Row := TruncDiv(c[j], size);
        if q2Row == q1Row {
          n := n - 1;
          continue;
        }
        var q2Col := PyMod(c[j], size);
        if q2Col == q1Col {
          n := n - 1;
          continue;
        }
        if Abs(q2Row - q1Row) == Abs(q1Col - q2Col) {
          n := n - 1;
          continue;
        }
      }
    }
    r := Ok(n);
  }

  /** Every pair is counted at most once, so the attacking pairs of k queens are at most k*(k-1)/2. */
  lemma {:induction false} AttackingPairsBound(size: int, c: seq<int>, from: nat)
    requires size != 0
    requires from <= |c|
    ensures 2 * AttackingPairsFrom(size, c, from) <= (|c| - from) * (|c| - from - 1)
    decreases |c| - from
  {
    if from < |c| {
      AttackingPairsBound(size, c, from + 1);
      var n := |c| - from;
      var m := |c| - (from + 1);
      assert m == n - 1;
      assert AttackersFrom(size, c, from, from + 1) <= m;
      PairCountStep(n, m);
    }
  }

  /** k(k-1) grows by 2(k-1) from k-1 to k. */
  lemma PairCountStep(n: int, m: int)
    requires m == n - 1
    ensures m * (m - 1) + 2 * m == n * (n - 1)
  {
    assert m * (m - 1) + 2 * m == m * (m + 1);
  }

  /** The fitness lies between size*(size-1)/2 - |c|*(|c|-1)/2 and size*(size-1)/2. */
  lemma FitnessBounds(size: int, c: seq<int>)
    requires size != 0
    ensures AllPairs(size) - |c| * (|c| - 1) / 2 <= AllPairs(size) - AttackingPairs(size, c) <= AllPairs(size)
  {
    AttackingPairsBound(size, c, 0);
  }

  lemma {:induction false} NoAttackersIff(size: int, c: seq<int>, i: nat, j: nat)
    requires size != 0
    requires i < |c|
    requires j <= |c|
    ensures AttackersFrom(size, c, i, j) == 0 <==> forall k :: j <= k < |c| ==> !Attack(size, c[i], c[k])
    decreases |c| - j
  {
    if j < |c| {
      NoAttackersIff(size, c, i, j + 1);
    }
  }

  /** No pair is subtracted exactly when no two queens of the chromosome attack each other. */
  lemma {:induction false} NoAttackingPairsIff(size: int, c: seq<int>, from: nat)
    requires size != 0
    requires from <= |c|
    ensures AttackingPairsFrom(size, c, from) == 0 <==>
      forall i, j :: from <= i < j < |c| ==> !Attack(size, c[i], c[j])
    decreases |c| - from
  {
    if AttackingPairsFrom(size, c, from) == 0 {
      NoneAttackIfNoPairs(size, c, from);
    }
    if forall i, j :: from <= i < j < |c| ==> !Attack(size, c[i], c[j]) {
      NoPairsIfNoneAttack(size, c, from);
    }
  }

  lemma {:induction false} NoneAttackIfNoPairs(size: int, c: seq<int>, from: nat)
    requires size != 0
    requires from <= |c| && AttackingPairsFrom(size, c, from) == 0
    ensures forall i, j :: from <= i < j < |c| ==> !Attack(size, c[i], c[j])
    decreases |c| - from
  {
    if from < |c| {
      NoneAttackIfNoPairs(size, c, from + 1);
      NoAttackersIff(size, c, from, from + 1);
      forall i, j | from <= i < j < |c|
        ensures !Attack(size, c[i], c[j])
      {
        if i > from {
          assert from + 1 <= i < j < |c|;
        }
      }
    }
  }

  lemma {:induction false} NoPairsIfNoneAttack(size: int, c: seq<int>, from: nat)
    requires size != 0
    requires from <= |c| && forall i, j :: from <= i < j < |c| ==> !Attack(size, c[i], c[j])
    ensures AttackingPairsFrom(size, c, from) == 0
    decreases |c| - from
  {
    if from < |c| {
      forall k | from + 1 <= k < |c|
        ensures !Attack(size, c[from], c[k])
      {
        assert from <= from < k < |c|;
      }
      NoAttackersIff(size, c, from, from + 1);
      NoPairsIfNoneAttack(size, c, from + 1);
    }
  }

  /** On the standard board with eight queens the fitness reaches its maximum, 28, exactly for a solution. */
  lemma EightQueensOptimum(c: seq<int>)
    ensures AllPairs(8) - AttackingPairs(8, c) == 28 <==>
      forall i, j :: 0 <= i < j < |c| ==> !Attack(8, c[i], c[j])
  {
    NoAttackingPairsIff(8, c, 0);
  }

  /** Two queens placed on the same square always attack each other. */
  lemma SameSquareAttacks(size: int, q: int)
    requires size != 0
    ensures Attack(size, q, q)
  {
  }

  /** A chromosome that repeats a square is never a solution. */
  lemma RepeatedSquareAttacks(size: int, c: seq<int>, i: nat, j: nat)
    requires size != 0
    requires i < j < |c| && c[i] == c[j]
    ensures AttackingPairs(size, c) > 0
  {
    NoAttackingPairsIff(size, c, 0);
  }
}
