// The Wordle referee (wordle/wordle.py, WordleGame.play): it validates each
// guess of the agent, colours it against the target (1 = right letter in the
// right place, -1 = letter elsewhere in the word, 0 = absent), enforces the
// hard-mode rules and keeps the score.
module WordleReferee {
  import opened Wrappers
  import WordleHelper

  /** One entry of a list the agent returns: a Python int or anything else. */
  datatype Item = Int(value: int) | NotInt

  /** What AgentFunction gives back: None, a string, a list, a value of any
    * other type, or an exception. */
  datatype Reply = NoGuess | Text(text: string) | Indexes(items: seq<Item>) | OtherValue | Raised

  /** The conditions under which the referee exits the program. */
  datatype Failure =
    | IllegalTarget
    | AgentError
    | NotStringNorList
    | WrongStringLength
    | IllegalCharacter   // ends in a NameError: its message formats a variable `c` that is never bound
    | WrongListLength
    | ItemNotInteger(at: nat)
    | ItemOutOfRange(at: nat)

  /** The result of a game: the returned score, an exit, or the end of the
    * agent's (finite) list of replies before the game ends. */
  datatype Outcome = Score(value: int) | Failed(failure: Failure) | RepliesExhausted

  /** The alphabet and the list of accepted words. */
  datatype Game = Game(letters: seq<char>, dictionary: seq<string>)

  // ---------------------------------------------------------------------
  // Guess validation
  // ---------------------------------------------------------------------

  /** Checks the list items from `i` on: each must be an int in [0, nLetters); the first offender is reported. */
  function CheckItems(items: seq<Item>, nLetters: nat, i: nat): (r: Result<seq<int>, Failure>)
    requires i <= |items|
    ensures r.Ok? <==> forall k :: i <= k < |items| ==> items[k].Int? && 0 <= items[k].value < nLetters
    ensures r.Ok? ==> |r.value| == |items| - i
    ensures r.Ok? ==> forall k :: 0 <= k < |r.value| ==> items[i + k] == Int(r.value[k])
    ensures r.Err? ==> (r.error.ItemNotInteger? || r.error.ItemOutOfRange?) && i <= r.error.at < |items|
                        && (r.error.ItemNotInteger? ==> items[r.error.at].NotInt?)
                        && (r.error.ItemOutOfRange? ==> items[r.error.at].Int?)
                        && forall k :: i <= k < r.error.at ==> items[k].Int? && 0 <= items[k].value < nLetters
    decreases |items| - i
  {
    if i == |items| then Ok([])
    else if items[i].NotInt? then Err(ItemNotInteger(i))
    else if items[i].value < 0 || items[i].value >= nLetters then Err(ItemOutOfRange(i))
    else
      match CheckItems(items, nLetters, i + 1)
      case Ok(rest) => Ok([items[i].value] + rest)
      case Err(e) => Err(e)
  }

  /** Turns a string or list reply into letter indices, or the exit it causes. */
  function ReadGuess(letters: seq<char>, n: nat, reply: Reply): (r: Result<seq<int>, Failure>)
    requires reply.Text? || reply.Indexes?
    ensures r.Ok? ==> |r.value| == n && forall k :: 0 <= k < n ==> 0 <= r.value[k] < |letters|
    ensures reply.Text? ==> (r.Ok? <==> |reply.text| == n && forall k :: 0 <= k < |reply.text| ==> reply.text[k] in letters)
    ensures reply.Text? && |reply.text| != n ==> r == Err(WrongStringLength)
    ensures reply.Text? && r.Ok? ==> WordleHelper.LetterIndicesToWord(r.value, letters) == reply.text
    ensures reply.Indexes? ==>
      (r.Ok? <==> |reply.items| == n && forall k :: 0 <= k < n ==> reply.items[k].Int? && 0 <= reply.items[k].value < |letters|)
    ensures reply.Indexes? && |reply.items| != n ==> r == Err(WrongListLength)
    ensures reply.Indexes? && r.Ok? ==> forall k :: 0 <= k < n ==> reply.items[k] == Int(r.value[k])
  {
    match reply
    case Text(text) =>
      if |text| != n then Err(WrongStringLength)
      else if exists k :: 0 <= k < |text| && text[k] !in letters then Err(IllegalCharacter)
      else
        WordleHelper.LengthKeptIffAllKnown(text, letters);
        WordleHelper.WordRoundTripOfKnownWord(text, letters);
        Ok(WordleHelper.WordToLetterIndices(text, letters))
    case Indexes(items) =>
      if |items| != n then Err(WrongListLength)
      else CheckItems(items, |letters|, 0)
  }

  // ---------------------------------------------------------------------
  // Feedback colouring
  // ---------------------------------------------------------------------

  /** `[v] * n` */
  function Filled(n: nat, v: int): (r: seq<int>)
    ensures |r| == n && forall k :: 0 <= k < n ==> r[k] == v
  {
    seq(n, _ => v)
  }

  /** The first pass: 1 wherever the guess has the target's letter, 0 elsewhere. */
  function GreenStates(guess: seq<int>, target: seq<int>): (r: seq<int>)
    requires |guess| == |target|
    ensures |r| == |guess|
    ensures forall k :: 0 <= k < |r| ==> r[k] == (if guess[k] == target[k] then 1 else 0)
  {
    seq(|guess|, k requires 0 <= k < |guess| => if guess[k] == target[k] then 1 else 0)
  }

  /** The letters taken out of the target by the green positions, in order. */
  function GreenLetters(guess: seq<int>, target: seq<int>): seq<int>
    requires |guess| == |target|
  {
    if guess == [] then []
    else (if guess[0] == target[0] then [target[0]] else []) + GreenLetters(guess[1..], target[1..])
  }

  /** The green letters are taken from the target, each occurrence at most once. */
  lemma {:induction false} GreenLettersFromTarget(guess: seq<int>, target: seq<int>)
    requires |guess| == |target|
    ensures multiset(GreenLetters(guess, target)) <= multiset(target)
  {
    if guess != [] {
      GreenLettersFromTarget(guess[1..], target[1..]);
      assert target == [target[0]] + target[1..];
    }
  }

  /** `letters_left` after the green pass, as a multiset. */
  function LeftAfterGreens(guess: seq<int>, target: seq<int>): multiset<int>
    requires |guess| == |target|
  {
    multiset(target) - multiset(GreenLetters(guess, target))
  }

  /** The second pass over positions `i..`: a non-green letter still left in
    * the target becomes -1 and uses up one occurrence. */
  function Yellows(guess: seq<int>, greens: seq<int>, left: multiset<int>, i: nat): (r: seq<int>)
    requires |greens| == |guess| && i <= |guess|
    ensures |r| == |guess| - i
    ensures forall k :: 0 <= k < |r| ==> (r[k] == 1 <==> greens[i + k] == 1)
    ensures forall k :: 0 <= k < |r| ==> r[k] == 1 || r[k] == 0 || r[k] == -1
    decreases |guess| - i
  {
    if i == |guess| then []
    else if greens[i] == 1 then [1] + Yellows(guess, greens, left, i + 1)
    else if guess[i] in left then [-1] + Yellows(guess, greens, left - multiset{guess[i]}, i + 1)
    else [0] + Yellows(guess, greens, left, i + 1)
  }

  /** The colouring of a guess against the target: greens first, then yellows
    * consumed left to right from what the greens left over. */
  function Feedback(guess: seq<int>, target: seq<int>): seq<int>
    requires |guess| == |target|
  {
    Yellows(guess, GreenStates(guess, target), LeftAfterGreens(guess, target), 0)
  }

  /** The referee's first pass: a matching letter is marked 1 in a list of
    * zeros and its first occurrence is deleted from `letters_left`. */
  method MarkGreens(actions: seq<int>, target: seq<int>) returns (states: seq<int>, lettersLeft: seq<int>)
    requires |actions| == |target|
    ensures states == GreenStates(actions, target)
    ensures multiset(lettersLeft) == LeftAfterGreens(actions, target)
  {
    var n := |actions|;
    lettersLeft := target;
    states := Filled(n, 0);
    GreenPassStart(actions, target, states);
    for i := 0 to n
      invariant GreenPassAt(actions, target, states, lettersLeft, i)
    {
      var a := actions[i];
      ghost var before, marked := lettersLeft, states;
      lettersLeft := if a == target[i] then RemoveFirst(lettersLeft, a) else lettersLeft;
      states := if a == target[i] then states[i := 1] else states;
      GreenPassStep(actions, target, i, marked, before, states, lettersLeft);
    }
    GreenPassResult(actions, target, states, lettersLeft);
  }

  /** The green pass after i positions: `states` is 1 at the greens met so far
    * and 0 elsewhere, and `letters_left` is what the greens leave of the
    * target plus the green letters still to come. */
  predicate GreenPassAt(guess: seq<int>, target: seq<int>, states: seq<int>, left: seq<int>, i: nat)
    requires |guess| == |target| && i <= |guess|
  {
    MarkedUpTo(guess, target, states, i) && LeftUpTo(guess, target, left, i)
  }

  predicate MarkedUpTo(guess: seq<int>, target: seq<int>, states: seq<int>, i: nat)
    requires |guess| == |target| && i <= |guess|
  {
    |states| == |guess|
    && (forall k :: 0 <= k < i ==> states[k] == (if guess[k] == target[k] then 1 else 0))
    && (forall k :: i <= k < |guess| ==> states[k] == 0)
  }

  predicate LeftUpTo(guess: seq<int>, target: seq<int>, left: seq<int>, i: nat)
    requires |guess| == |target| && i <= |guess|
  {
    multiset(left) == LeftAfterGreens(guess, target) + multiset(GreenLetters(guess[i..], target[i..]))
  }

  /** Before the pass: all zeros, and the whole target left. */
  lemma GreenPassStart(guess: seq<int>, target: seq<int>, states: seq<int>)
    requires |guess| == |target| && |states| == |guess|
    requires forall k :: 0 <= k < |states| ==> states[k] == 0
    ensures GreenPassAt(guess, target, states, target, 0)
  {
    GreenLettersFromTarget(guess, target);
    assert guess[0..] == guess && target[0..] == target;
    var g := multiset(GreenLetters(guess, target));
    assert forall x :: ((multiset(target) - g) + g)[x] == multiset(target)[x];
  }

  /** One step of the green pass. */
  lemma GreenPassStep(guess: seq<int>, target: seq<int>, i: nat, s0: seq<int>, l0: seq<int>, s1: seq<int>, l1: seq<int>)
    requires |guess| == |target| && i < |guess|
    requires GreenPassAt(guess, target, s0, l0, i)
    requires s1 == if guess[i] == target[i] then s0[i := 1] else s0
    requires l1 == if guess[i] == target[i] then RemoveFirst(l0, guess[i]) else l0
    ensures GreenPassAt(guess, target, s1, l1, i + 1)
  {
    LeftStep(guess, target, i, l0, l1);
    MarkStep(guess, target, i, s0, s1);
  }

  lemma LeftStep(guess: seq<int>, target: seq<int>, i: nat, before: seq<int>, after: seq<int>)
    requires |guess| == |target| && i < |guess|
    requires LeftUpTo(guess, target, before, i)
    requires after == if guess[i] == target[i] then RemoveFirst(before, guess[i]) else before
    ensures LeftUpTo(guess, target, after, i + 1)
  {
    GreenLettersFrom(guess, target, i);
    if guess[i] == target[i] {
      RemoveFirstCount(before, guess[i]);
      AddThenRemove(LeftAfterGreens(guess, target), target[i], multiset(GreenLetters(guess[i + 1..], target[i + 1..])));
    }
  }

  /** The green letters from position i on: position i's, then those after it. */
  lemma GreenLettersFrom(guess: seq<int>, target: seq<int>, i: nat)
    requires |guess| == |target| && i < |guess|
    ensures multiset(GreenLetters(guess[i..], target[i..]))
      == (if guess[i] == target[i] then multiset{target[i]} else multiset{}) + multiset(GreenLetters(guess[i + 1..], target[i + 1..]))
  {
    assert guess[i..][1..] == guess[i + 1..] && target[i..][1..] == target[i + 1..];
  }

  lemma AddThenRemove(m: multiset<int>, a: int, r: multiset<int>)
    ensures (m + (multiset{a} + r)) - multiset{a} == m + r
  {
    assert forall x :: ((m + (multiset{a} + r)) - multiset{a})[x] == (m + r)[x];
  }

  lemma MarkStep(guess: seq<int>, target: seq<int>, i: nat, before: seq<int>, after: seq<int>)
    requires |guess| == |target| && i < |guess|
    requires MarkedUpTo(guess, target, before, i)
    requires after == if guess[i] == target[i] then before[i := 1] else before
    ensures MarkedUpTo(guess, target, after, i + 1)
  {
  }

  /** What the green pass has built once it has met every position. */
  lemma GreenPassResult(guess: seq<int>, target: seq<int>, states: seq<int>, left: seq<int>)
    requires |guess| == |target|
    requires GreenPassAt(guess, target, states, left, |guess|)
    ensures states == GreenStates(guess, target)
    ensures multiset(left) == LeftAfterGreens(guess, target)
  {
    assert guess[|guess|..] == [] && target[|guess|..] == [];
  }

  /** The referee's second pass: a position not yet green whose letter is
    * still in `letters_left` is marked -1 and that letter deleted. */
  method MarkYellows(actions: seq<int>, greens: seq<int>, left: seq<int>) returns (states: seq<int>)
    requires |greens| == |actions|
    requires forall k :: 0 <= k < |greens| ==> greens[k] == 0 || greens[k] == 1
    ensures states == Yellows(actions, greens, multiset(left), 0)
  {
    var n := |actions|;
    ghost var all := Yellows(actions, greens, multiset(left), 0);
    var lettersLeft := left;
    states := greens;
    for i := 0 to n
      invariant |states| == n
      invariant Yellows(actions, greens, multiset(lettersLeft), i) == all[i..]
      invariant forall k :: 0 <= k < i ==> states[k] == all[k]
      invariant forall k :: i <= k < n ==> states[k] == greens[k]
    {
      assert all[i + 1..] == all[i..][1..];
      assert all[i] == all[i..][0];
      ghost var m := multiset(lettersLeft);
      var a := actions[i];
      if states[i] == 1 {
        assert Yellows(actions, greens, m, i) == [1] + Yellows(actions, greens, m, i + 1);
        continue;
      }
      match IndexOf(lettersLeft, a)
      case Some(j) =>
        assert Yellows(actions, greens, m, i) == [-1] + Yellows(actions, greens, m - multiset{a}, i + 1);
        states := states[i := -1];
        RemoveAtCount(lettersLeft, j);
        lettersLeft := RemoveAt(lettersLeft, j);
      case None =>
        assert Yellows(actions, greens, m, i) == [0] + Yellows(actions, greens, m, i + 1);
    }
    assert states == all;
  }

  /** The two passes of the referee's colouring. */
  method ComputeFeedback(actions: seq<int>, target: seq<int>) returns (states: seq<int>)
    requires |actions| == |target|
    ensures states == Feedback(actions, target)
  {
    var greens, lettersLeft := MarkGreens(actions, target);
    states := MarkYellows(actions, greens, lettersLeft);
  }

  /** The count of positions k with a[k] == x and b[k] == v. */
  function CountPairs(a: seq<int>, b: seq<int>, x: int, v: int): nat
    requires |a| == |b|
  {
    if a == [] then 0 else (if a[0] == x && b[0] == v then 1 else 0) + CountPairs(a[1..], b[1..], x, v)
  }

  /** The non-green positions j in [i, k) holding letter x. */
  function NonGreenBefore(guess: seq<int>, greens: seq<int>, x: int, i: nat, k: nat): nat
    requires |greens| == |guess| && i <= k <= |guess|
    decreases k - i
  {
    if i == k then 0 else (if greens[i] != 1 && guess[i] == x then 1 else 0) + NonGreenBefore(guess, greens, x, i + 1, k)
  }

  /** A non-green position turns yellow exactly when fewer earlier non-green
    * positions with the same letter exist than occurrences are left. */
  lemma {:induction false} YellowsAt(guess: seq<int>, greens: seq<int>, left: multiset<int>, i: nat, k: nat)
    requires |greens| == |guess| && i <= k < |guess|
    ensures Yellows(guess, greens, left, i)[k - i]
         == (if greens[k] == 1 then 1
             else if NonGreenBefore(guess, greens, guess[k], i, k) < left[guess[k]] then -1
             else 0)
    decreases k - i
  {
    if i < k {
      var left' := if greens[i] != 1 && guess[i] in left then left - multiset{guess[i]} else left;
      YellowsTail(guess, greens, left, i);
      YellowsAt(guess, greens, left', i + 1, k);
      YellowCountStep(guess, greens, left, left', i, k);
    }
  }

  /** Past position i, the colouring goes on from what position i left over. */
  lemma YellowsTail(guess: seq<int>, greens: seq<int>, left: multiset<int>, i: nat)
    requires |greens| == |guess| && i < |guess|
    ensures Yellows(guess, greens, left, i)[1..]
         == Yellows(guess, greens, if greens[i] != 1 && guess[i] in left then left - multiset{guess[i]} else left, i + 1)
  {
  }

  /** Moving the start past position i trades one earlier occurrence for one left occurrence. */
  lemma YellowCountStep(guess: seq<int>, greens: seq<int>, left: multiset<int>, left': multiset<int>, i: nat, k: nat)
    requires |greens| == |guess| && i < k < |guess|
    requires left' == if greens[i] != 1 && guess[i] in left then left - multiset{guess[i]} else left
    ensures (NonGreenBefore(guess, greens, guess[k], i, k) < left[guess[k]])
        == (NonGreenBefore(guess, greens, guess[k], i + 1, k) < left'[guess[k]])
  {
    var x := guess[k];
    assert NonGreenBefore(guess, greens, x, i, k)
        == (if greens[i] != 1 && guess[i] == x then 1 else 0) + NonGreenBefore(guess, greens, x, i + 1, k);
    if greens[i] != 1 && guess[i] == x && x in left {
      assert left'[x] == left[x] - 1;
    }
  }

  /** No letter is marked yellow more often than it is left in the target. */
  lemma {:induction false} YellowsBound(guess: seq<int>, greens: seq<int>, left: multiset<int>, i: nat, x: int)
    requires |greens| == |guess| && i <= |guess|
    ensures CountPairs(guess[i..], Yellows(guess, greens, left, i), x, -1) <= left[x]
    decreases |guess| - i
  {
    if i < |guess| {
      var r := Yellows(guess, greens, left, i);
      assert guess[i..][1..] == guess[i + 1..];
      if greens[i] == 1 {
        YellowsBound(guess, greens, left, i + 1, x);
        assert r[1..] == Yellows(guess, greens, left, i + 1);
      } else if guess[i] in left {
        YellowsBound(guess, greens, left - multiset{guess[i]}, i + 1, x);
        assert r[1..] == Yellows(guess, greens, left - multiset{guess[i]}, i + 1);
      } else {
        YellowsBound(guess, greens, left, i + 1, x);
        assert r[1..] == Yellows(guess, greens, left, i + 1);
      }
    }
  }

  /** Where a colouring marks exactly the green positions with 1, its green
    * count of a letter is that letter's count among the green letters. */
  lemma {:induction false} GreenCount(guess: seq<int>, target: seq<int>, r: seq<int>, x: int)
    requires |guess| == |target| == |r|
    requires forall k :: 0 <= k < |r| ==> (r[k] == 1 <==> guess[k] == target[k])
    ensures CountPairs(guess, r, x, 1) == multiset(GreenLetters(guess, target))[x]
  {
    if guess != [] {
      GreenCount(guess[1..], target[1..], r[1..], x);
    }
  }

  /** Every state is -1, 0 or 1, one per position, and a position is marked 1
    * exactly when the guess has the target's letter there. */
  lemma FeedbackGreens(guess: seq<int>, target: seq<int>)
    requires |guess| == |target|
    ensures |Feedback(guess, target)| == |guess|
    ensures forall k :: 0 <= k < |guess| ==> Feedback(guess, target)[k] in {-1, 0, 1}
    ensures forall k :: 0 <= k < |guess| ==> (Feedback(guess, target)[k] == 1 <==> guess[k] == target[k])
  {
  }

  /** Yellows go left to right: a position off the target's letter is marked
    * -1 exactly when fewer earlier non-green positions hold the same letter
    * than the target has occurrences of it left after the greens. */
  lemma FeedbackYellows(guess: seq<int>, target: seq<int>, k: nat)
    requires |guess| == |target| && k < |guess|
    ensures Feedback(guess, target)[k] == -1 <==>
      guess[k] != target[k]
      && NonGreenBefore(guess, GreenStates(guess, target), guess[k], 0, k) < LeftAfterGreens(guess, target)[guess[k]]
  {
    YellowsAt(guess, GreenStates(guess, target), LeftAfterGreens(guess, target), 0, k);
  }

  /** For every letter, the positions marked 1 or -1 never outnumber the letter's occurrences in the target. */
  lemma FeedbackCountBound(guess: seq<int>, target: seq<int>, x: int)
    requires |guess| == |target|
    ensures CountPairs(guess, Feedback(guess, target), x, 1) + CountPairs(guess, Feedback(guess, target), x, -1)
            <= multiset(target)[x]
  {
    var r := Feedback(guess, target);
    FeedbackGreens(guess, target);
    GreenCount(guess, target, r, x);
    GreenLettersFromTarget(guess, target);
    YellowsBound(guess, GreenStates(guess, target), LeftAfterGreens(guess, target), 0, x);
    assert guess[0..] == guess;
  }

  // ---------------------------------------------------------------------
  // Hard mode
  // ---------------------------------------------------------------------

  function CountTrue(s: seq<bool>): nat
  {
    if s == [] then 0 else (if s[0] then 1 else 0) + CountTrue(s[1..])
  }

  /** `np.array(states) == v` */
  function Flags(states: seq<int>, v: int): (r: seq<bool>)
    ensures |r| == |states| && forall k :: 0 <= k < |r| ==> (r[k] <==> states[k] == v)
  {
    seq(|states|, k requires 0 <= k < |states| => states[k] == v)
  }

  datatype Match = Match(found: bool, greens: seq<bool>, yellows: seq<bool>)

  /** Looks from position j on for a guess letter equal to x that is still an
    * available green or yellow, and consumes the first such flag. */
  function MatchYellow(x: int, actions: seq<int>, ng: seq<bool>, cy: seq<bool>, j: nat): (m: Match)
    requires |ng| == |actions| && |cy| == |actions| && j <= |actions|
    ensures |m.greens| == |actions| && |m.yellows| == |actions|
    ensures m.found ==> x in actions[j..]
    ensures !m.found ==> m.greens == ng && m.yellows == cy
    decreases |actions| - j
  {
    if j == |actions| then Match(false, ng, cy)
    else if x == actions[j] && ng[j] then Match(true, ng[j := false], cy)
    else if x == actions[j] && cy[j] then Match(true, ng, cy[j := false])
    else
      var m := MatchYellow(x, actions, ng, cy, j + 1);
      assert m.found ==> x in actions[j..] by {
        if m.found {
          assert actions[j + 1..] == actions[j..][1..];
        }
      }
      m
  }

  /** The letters of previous yellows, from position i on, that find no match in the new guess. */
  function MissingYellows(lastGuess: seq<int>, lastStates: seq<int>, actions: seq<int>, ng: seq<bool>, cy: seq<bool>, i: nat): seq<int>
    requires |lastGuess| == |lastStates| == |actions| == |ng| == |cy| && i <= |lastStates|
    decreases |lastStates| - i
  {
    if i == |lastStates| then []
    else if lastStates[i] == -1 then
      var m := MatchYellow(lastGuess[i], actions, ng, cy, 0);
      (if m.found then [] else [lastGuess[i]]) + MissingYellows(lastGuess, lastStates, actions, m.greens, m.yellows, i + 1)
    else MissingYellows(lastGuess, lastStates, actions, ng, cy, i + 1)
  }

  /** The flags a previous yellow may be matched against: every current green
    * where there was no previous green (the previous greens are kept for
    * themselves), and every current yellow. */
  function AvailableGreens(lastStates: seq<int>, newStates: seq<int>): (r: seq<bool>)
    requires |lastStates| == |newStates|
    ensures |r| == |newStates|
  {
    seq(|newStates|, k requires 0 <= k < |newStates| => newStates[k] == 1 || lastStates[k] != 1)
  }

  /** Hard mode refuses a guess that drops a previous green, or that cannot
    * place every previous yellow letter on a distinct green or yellow cell. */
  predicate HardModeViolation(lastGuess: seq<int>, lastStates: seq<int>, actions: seq<int>, newStates: seq<int>)
    requires |lastGuess| == |lastStates| == |actions| == |newStates|
  {
    var prevGreens := Flags(lastStates, 1);
    var curGreens := Flags(newStates, 1);
    var sameGreens := seq(|lastStates|, k requires 0 <= k < |lastStates| => prevGreens[k] && curGreens[k]);
    CountTrue(prevGreens) != CountTrue(sameGreens)
    || |MissingYellows(lastGuess, lastStates, actions, AvailableGreens(lastStates, newStates), Flags(newStates, -1), 0)| > 0
  }

  /** The referee's search for a previous yellow letter x in the new guess:
    * the first position holding x whose green flag, else yellow flag, is still
    * set has that flag cleared, and the search stops there. */
  method FindYellowMatch(x: int, actions: seq<int>, ng: seq<bool>, cy: seq<bool>)
    returns (found: bool, ng': seq<bool>, cy': seq<bool>)
    requires |ng| == |actions| && |cy| == |actions|
    ensures Match(found, ng', cy') == MatchYellow(x, actions, ng, cy, 0)
  {
    ng', cy' := ng, cy;
    found := false;
    for j := 0 to |actions|
      invariant MatchYellow(x, actions, ng, cy, j) == MatchYellow(x, actions, ng, cy, 0)
    {
      if x == actions[j] {
        if ng[j] {
          return true, ng[j := false], cy;
        } else if cy[j] {
          return true, ng, cy[j := false];
        }
      }
    }
  }

  /** The hard-mode check with the referee's flag arrays: `new_greens` (the
    * current-greens array itself, updated in place) and `cur_yellows` are
    * cleared as previous yellows are matched. */
  method HardModeCheck(lastGuess: seq<int>, lastStates: seq<int>, actions: seq<int>, newStates: seq<int>) returns (violation: bool)
    requires |lastGuess| == |lastStates| == |actions| == |newStates|
    ensures violation == HardModeViolation(lastGuess, lastStates, actions, newStates)
  {
    var n := |lastStates|;
    var prevGreens := Flags(lastStates, 1);
    var curGreens := Flags(newStates, 1);
    var sameGreens := seq(n, k requires 0 <= k < n => prevGreens[k] && curGreens[k]);
    violation := CountTrue(prevGreens) != CountTrue(sameGreens);
    var newGreens := curGreens;
    for i := 0 to n
      invariant |newGreens| == n
      invariant forall k :: 0 <= k < i ==> newGreens[k] == AvailableGreens(lastStates, newStates)[k]
      invariant forall k :: i <= k < n ==> newGreens[k] == curGreens[k]
    {
      if !prevGreens[i] {
        newGreens := newGreens[i := true];
      }
    }
    assert newGreens == AvailableGreens(lastStates, newStates);
    var curYellows := Flags(newStates, -1);
    var missing: seq<int> := [];
    ghost var total := MissingYellows(lastGuess, lastStates, actions, newGreens, curYellows, 0);
    for i := 0 to n
      invariant |newGreens| == n && |curYellows| == n
      invariant missing + MissingYellows(lastGuess, lastStates, actions, newGreens, curYellows, i) == total
    {
      if lastStates[i] == -1 {
        var yellowFound;
        ghost var rest := MissingYellows(lastGuess, lastStates, actions, newGreens, curYellows, i);
        yellowFound, newGreens, curYellows := FindYellowMatch(lastGuess[i], actions, newGreens, curYellows);
        if !yellowFound {
          assert rest == [lastGuess[i]] + MissingYellows(lastGuess, lastStates, actions, newGreens, curYellows, i + 1);
          missing := missing + [lastGuess[i]];
        } else {
          assert rest == MissingYellows(lastGuess, lastStates, actions, newGreens, curYellows, i + 1);
        }
      }
    }
    assert missing == total;
    if |missing| > 0 {
      violation := true;
    }
  }

  lemma {:induction false} CountTrueStrict(p: seq<bool>, s: seq<bool>, i: nat)
    requires |p| == |s| && i < |p|
    requires forall k :: 0 <= k < |s| ==> s[k] ==> p[k]
    requires p[i] && !s[i]
    ensures CountTrue(s) < CountTrue(p)
  {
    if i == 0 {
      CountTrueMonotone(p[1..], s[1..]);
    } else {
      CountTrueStrict(p[1..], s[1..], i - 1);
    }
  }

  lemma {:induction false} CountTrueMonotone(p: seq<bool>, s: seq<bool>)
    requires |p| == |s|
    requires forall k :: 0 <= k < |s| ==> s[k] ==> p[k]
    ensures CountTrue(s) <= CountTrue(p)
  {
    if p != [] {
      CountTrueMonotone(p[1..], s[1..]);
    }
  }

  /** Hard mode refuses a guess that loses a previously green position. */
  lemma LostGreenViolates(lastGuess: seq<int>, lastStates: seq<int>, actions: seq<int>, newStates: seq<int>, i: nat)
    requires |lastGuess| == |lastStates| == |actions| == |newStates|
    requires i < |lastStates| && lastStates[i] == 1 && newStates[i] != 1
    ensures HardModeViolation(lastGuess, lastStates, actions, newStates)
  {
    var prevGreens := Flags(lastStates, 1);
    var curGreens := Flags(newStates, 1);
    var sameGreens := seq(|lastStates|, k requires 0 <= k < |lastStates| => prevGreens[k] && curGreens[k]);
    CountTrueStrict(prevGreens, sameGreens, i);
  }

  lemma {:induction false} AbsentLetterUnmatched(x: int, actions: seq<int>, ng: seq<bool>, cy: seq<bool>, j: nat)
    requires |ng| == |actions| && |cy| == |actions| && j <= |actions|
    requires x !in actions
    ensures !MatchYellow(x, actions, ng, cy, j).found
  {
  }

  lemma {:induction false} MissingYellowFound(lastGuess: seq<int>, lastStates: seq<int>, actions: seq<int>, ng: seq<bool>, cy: seq<bool>, i: nat, p: nat)
    requires |lastGuess| == |lastStates| == |actions| == |ng| == |cy| && i <= p < |lastStates|
    requires lastStates[p] == -1 && lastGuess[p] !in actions
    ensures |MissingYellows(lastGuess, lastStates, actions, ng, cy, i)| > 0
    decreases p - i
  {
    if i == p {
      AbsentLetterUnmatched(lastGuess[p], actions, ng, cy, 0);
    } else if lastStates[i] == -1 {
      var m := MatchYellow(lastGuess[i], actions, ng, cy, 0);
      MissingYellowFound(lastGuess, lastStates, actions, m.greens, m.yellows, i + 1, p);
    } else {
      MissingYellowFound(lastGuess, lastStates, actions, ng, cy, i + 1, p);
    }
  }

  /** Hard mode refuses a guess that omits a previously yellow letter entirely. */
  lemma OmittedYellowViolates(lastGuess: seq<int>, lastStates: seq<int>, actions: seq<int>, newStates: seq<int>, i: nat)
    requires |lastGuess| == |lastStates| == |actions| == |newStates|
    requires i < |lastStates| && lastStates[i] == -1 && lastGuess[i] !in actions
    ensures HardModeViolation(lastGuess, lastStates, actions, newStates)
  {
    MissingYellowFound(lastGuess, lastStates, actions, AvailableGreens(lastStates, newStates), Flags(newStates, -1), 0, i);
  }

  lemma {:induction false} NoYellowsNoneMissing(lastGuess: seq<int>, lastStates: seq<int>, actions: seq<int>, ng: seq<bool>, cy: seq<bool>, i: nat)
    requires |lastGuess| == |lastStates| == |actions| == |ng| == |cy| && i <= |lastStates|
    requires forall k :: 0 <= k < |lastStates| ==> lastStates[k] == 0
    ensures MissingYellows(lastGuess, lastStates, actions, ng, cy, i) == []
    decreases |lastStates| - i
  {
    if i < |lastStates| {
      NoYellowsNoneMissing(lastGuess, lastStates, actions, ng, cy, i + 1);
    }
  }

  lemma {:induction false} CountTrueNone(s: seq<bool>)
    requires forall k :: 0 <= k < |s| ==> !s[k]
    ensures CountTrue(s) == 0
  {
    if s != [] {
      CountTrueNone(s[1..]);
    }
  }

  /** With no colours from a previous guess (the first guess), hard mode refuses nothing. */
  lemma FirstGuessNoViolation(lastGuess: seq<int>, lastStates: seq<int>, actions: seq<int>, newStates: seq<int>)
    requires |lastGuess| == |lastStates| == |actions| == |newStates|
    requires forall k :: 0 <= k < |lastStates| ==> lastStates[k] == 0
    ensures !HardModeViolation(lastGuess, lastStates, actions, newStates)
  {
    var prevGreens := Flags(lastStates, 1);
    var curGreens := Flags(newStates, 1);
    var sameGreens := seq(|lastStates|, k requires 0 <= k < |lastStates| => prevGreens[k] && curGreens[k]);
    CountTrueNone(prevGreens);
    CountTrueNone(sameGreens);
    NoYellowsNoneMissing(lastGuess, lastStates, actions, AvailableGreens(lastStates, newStates), Flags(newStates, -1), 0);
  }

  // ---------------------------------------------------------------------
  // The game loop
  // ---------------------------------------------------------------------

  /** The referee's loop variables. */
  datatype Round = Round(guess: int, score: int, letterIndexes: seq<int>, letterStates: seq<int>)

  predicate RoundOk(st: Round, n: nat)
  {
    |st.letterIndexes| == n && |st.letterStates| == n
  }

  /** How one call of the agent ends: the game returns a value, exits, or the
    * loop goes on with the round unchanged (Rejected) or advanced (Accepted). */
  datatype Verdict = Finished(value: int) | Abort(failure: Failure) | Rejected | Accepted(next: Round)

  /** One pass of the loop body, after the agent has replied. */
  function Turn(game: Game, target: seq<int>, numGuesses: int, hard: bool, st: Round, reply: Reply): (v: Verdict)
    requires RoundOk(st, |target|)
    ensures v.Accepted? ==> RoundOk(v.next, |target|) && v.next.guess == st.guess + 1 && v.next.score == st.score + 1
  {
    if reply.Raised? then Abort(AgentError)
    else if Sum(st.letterStates) == |target| then Finished(st.score)
    else if st.guess >= numGuesses then Finished(2 * st.score)
    else if reply.NoGuess? then Finished(2 * numGuesses)
    else if reply.OtherValue? then Abort(NotStringNorList)
    else
      match ReadGuess(game.letters, |target|, reply)
      case Err(e) => Abort(e)
      case Ok(actions) => Judge(game, target, hard, st, actions)
  }

  /** A well-formed guess is refused unless it spells a dictionary word and,
    * in hard mode, keeps the rules; an accepted one advances the round. */
  function Judge(game: Game, target: seq<int>, hard: bool, st: Round, actions: seq<int>): (v: Verdict)
    requires RoundOk(st, |target|) && |actions| == |target|
    requires forall k :: 0 <= k < |actions| ==> 0 <= actions[k] < |game.letters|
    ensures v.Rejected? || v.Accepted?
    ensures v.Accepted? ==> RoundOk(v.next, |target|) && v.next.guess == st.guess + 1 && v.next.score == st.score + 1
  {
    if WordleHelper.LetterIndicesToWord(actions, game.letters) !in game.dictionary then Rejected
    else
      var fb := Feedback(actions, target);
      if hard && HardModeViolation(st.letterIndexes, st.letterStates, actions, fb) then Rejected
      else Accepted(Round(st.guess + 1, st.score + 1, actions, fb))
  }

  /** The loop from round `st`, the agent answering with `replies` in turn. */
  function RunFrom(game: Game, target: seq<int>, numGuesses: int, hard: bool, st: Round, replies: seq<Reply>): Outcome
    requires RoundOk(st, |target|)
    decreases |replies|
  {
    if !(st.guess < numGuesses + 1) then Score(2 * st.score)
    else if replies == [] then RepliesExhausted
    else
      match Turn(game, target, numGuesses, hard, st, replies[0])
      case Finished(v) => Score(v)
      case Abort(e) => Failed(e)
      case Rejected => RunFrom(game, target, numGuesses, hard, st, replies[1..])
      case Accepted(next) => RunFrom(game, target, numGuesses, hard, next, replies[1..])
  }

  /** The round before the first guess: indexes all -1, states all 0. */
  function FirstRound(n: nat): (st: Round)
    ensures RoundOk(st, n)
  {
    Round(0, 0, seq(n, _ => -1), seq(n, _ => 0))
  }

  /** The target's letter indices; an illegal letter makes the referee exit. */
  function TargetIndexes(letters: seq<char>, target: string): (r: Result<seq<int>, Failure>)
    ensures r.Ok? <==> forall k :: 0 <= k < |target| ==> target[k] in letters
    ensures r.Ok? ==> |r.value| == |target|
  {
    if forall k :: 0 <= k < |target| ==> target[k] in letters then
      WordleHelper.LengthKeptIffAllKnown(target, letters);
      Ok(WordleHelper.WordToLetterIndices(target, letters))
    else Err(IllegalTarget)
  }

  /** The whole game as a function of the agent's replies. */
  function GameOutcome(game: Game, target: string, numGuesses: int, mode: string, replies: seq<Reply>): Outcome
  {
    match TargetIndexes(game.letters, target)
    case Err(e) => Failed(e)
    case Ok(t) => RunFrom(game, t, numGuesses, mode == "hard", FirstRound(|t|), replies)
  }

  /** One pass of the referee's loop body after the agent replied: the
    * checks in the referee's order, then the colouring and the hard-mode
    * test of a dictionary word. */
  method TakeTurn(game: Game, target: seq<int>, numGuesses: int, hard: bool, st: Round, reply: Reply) returns (v: Verdict)
    requires RoundOk(st, |target|)
    ensures v == Turn(game, target, numGuesses, hard, st, reply)
  {
    var n := |target|;
    if reply.Raised? {
      return Abort(AgentError);
    }
    if Sum(st.letterStates) == n {
      return Finished(st.score);
    }
    if st.guess >= numGuesses {
      return Finished(2 * st.score);
    }
    if reply.NoGuess? {
      return Finished(2 * numGuesses);
    }
    if reply.OtherValue? {
      return Abort(NotStringNorList);
    }
    match ReadGuess(game.letters, n, reply)
    case Err(e) =>
      return Abort(e);
    case Ok(actions) =>
      v := JudgeGuess(game, target, hard, st, actions);
  }

  /** The dictionary lookup, the colouring and the hard-mode test of a well-formed guess. */
  method JudgeGuess(game: Game, target: seq<int>, hard: bool, st: Round, actions: seq<int>) returns (v: Verdict)
    requires RoundOk(st, |target|) && |actions| == |target|
    requires forall k :: 0 <= k < |actions| ==> 0 <= actions[k] < |game.letters|
    ensures v == Judge(game, target, hard, st, actions)
  {
    if WordleHelper.LetterIndicesToWord(actions, game.letters) !in game.dictionary {
      return Rejected;
    }
    var newLetterStates := ComputeFeedback(actions, target);
    if hard {
      var violation := HardModeCheck(st.letterIndexes, st.letterStates, actions, newLetterStates);
      if violation {
        return Rejected;
      }
    }
    return Accepted(Round(st.guess + 1, st.score + 1, actions, newLetterStates));
  }

  /** The referee's `play`: the agent is called once per pass of the loop,
    * its k-th call answered by replies[k]. */
  method Play(game: Game, target: string, numGuesses: int, mode: string, replies: seq<Reply>) returns (outcome: Outcome)
    ensures outcome == GameOutcome(game, target, numGuesses, mode, replies)
  {
    var targetIndexes: seq<int>;
    match TargetIndexes(game.letters, target)
    case Err(e) =>
      return Failed(e);
    case Ok(t) =>
      targetIndexes := t;
    var n := |targetIndexes|;
    var hard := mode == "hard";
    var st := FirstRound(n);
    var k := 0;
    while st.guess < numGuesses + 1
      invariant k <= |replies|
      invariant RoundOk(st, n)
      invariant RunFrom(game, targetIndexes, numGuesses, hard, st, replies[k..]) == GameOutcome(game, target, numGuesses, mode, replies)
      decreases |replies| - k
    {
      if k == |replies| {
        return RepliesExhausted;
      }
      var v := TakeTurn(game, targetIndexes, numGuesses, hard, st, replies[k]);
      assert replies[k..][1..] == replies[k + 1..];
      k := k + 1;
      match v
      case Finished(value) =>
        return Score(value);
      case Abort(e) =>
        return Failed(e);
      case Rejected =>
      case Accepted(next) =>
        st := next;
    }
    return Score(2 * st.score);
  }

  // ---------------------------------------------------------------------
  // Properties of the game loop
  // ---------------------------------------------------------------------

  /** A well-formed guess that is not a dictionary word is refused without
    * touching guess, score, indexes or states. */
  lemma NotInDictionaryRejected(game: Game, target: seq<int>, numGuesses: int, hard: bool, st: Round, reply: Reply, rest: seq<Reply>)
    requires RoundOk(st, |target|)
    requires st.guess < numGuesses && Sum(st.letterStates) != |target|
    requires reply.Text? || reply.Indexes?
    requires ReadGuess(game.letters, |target|, reply).Ok?
    requires WordleHelper.LetterIndicesToWord(ReadGuess(game.letters, |target|, reply).value, game.letters) !in game.dictionary
    ensures Turn(game, target, numGuesses, hard, st, reply) == Rejected
    ensures RunFrom(game, target, numGuesses, hard, st, [reply] + rest) == RunFrom(game, target, numGuesses, hard, st, rest)
  {
    assert ([reply] + rest)[1..] == rest;
  }

  /** In hard mode a dictionary word that breaks the rules is refused without consuming a guess. */
  lemma HardViolationRejected(game: Game, target: seq<int>, numGuesses: int, st: Round, reply: Reply, rest: seq<Reply>)
    requires RoundOk(st, |target|)
    requires st.guess < numGuesses && Sum(st.letterStates) != |target|
    requires reply.Text? || reply.Indexes?
    requires ReadGuess(game.letters, |target|, reply).Ok?
    requires HardModeViolation(st.letterIndexes, st.letterStates, ReadGuess(game.letters, |target|, reply).value,
                               Feedback(ReadGuess(game.letters, |target|, reply).value, target))
    ensures Turn(game, target, numGuesses, true, st, reply) == Rejected
    ensures RunFrom(game, target, numGuesses, true, st, [reply] + rest) == RunFrom(game, target, numGuesses, true, st, rest)
  {
    assert ([reply] + rest)[1..] == rest;
  }

  /** A reply of the wrong length, or listing an index outside the alphabet, ends the game with an exit. */
  lemma MalformedGuessAborts(game: Game, target: seq<int>, numGuesses: int, hard: bool, st: Round, reply: Reply)
    requires RoundOk(st, |target|)
    requires st.guess < numGuesses && Sum(st.letterStates) != |target|
    requires (reply.Text? && |reply.text| != |target|)
          || (reply.Indexes? && |reply.items| != |target|)
          || (reply.Indexes? && exists k :: 0 <= k < |reply.items| && reply.items[k].Int?
                                            && !(0 <= reply.items[k].value < |game.letters|))
    ensures Turn(game, target, numGuesses, hard, st, reply).Abort?
  {
  }

  /** The rounds the loop passes through: the score counts the accepted guesses. */
  predicate Reachable(st: Round, n: nat, numGuesses: int)
  {
    RoundOk(st, n) && st.score == st.guess && 0 <= st.guess
  }

  /** A solved game returns the number of accepted guesses; running out of
    * guesses, or the agent answering None, returns twice the allowance. */
  lemma TurnScore(game: Game, target: seq<int>, numGuesses: int, hard: bool, st: Round, reply: Reply)
    requires Reachable(st, |target|, numGuesses) && st.guess < numGuesses + 1
    ensures Turn(game, target, numGuesses, hard, st, reply).Finished? && Sum(st.letterStates) == |target| && !reply.Raised?
            ==> Turn(game, target, numGuesses, hard, st, reply).value == st.guess <= numGuesses
    ensures Turn(game, target, numGuesses, hard, st, reply).Finished? && Sum(st.letterStates) != |target|
            ==> Turn(game, target, numGuesses, hard, st, reply).value == 2 * numGuesses
    ensures Turn(game, target, numGuesses, hard, st, reply).Accepted?
            ==> Reachable(Turn(game, target, numGuesses, hard, st, reply).next, |target|, numGuesses)
  {
  }

  /** Whatever the agent does, a returned score is either at most the
    * allowance (a solved game) or exactly twice the allowance. */
  lemma {:induction false} GameScore(game: Game, target: seq<int>, numGuesses: int, hard: bool, st: Round, replies: seq<Reply>)
    requires numGuesses >= 0
    requires Reachable(st, |target|, numGuesses) && st.guess <= numGuesses + 1
    requires (st.guess > numGuesses ==> st.guess == numGuesses + 1)
    ensures RunFrom(game, target, numGuesses, hard, st, replies).Score? ==>
      var v := RunFrom(game, target, numGuesses, hard, st, replies).value;
      (0 <= v <= numGuesses) || v == 2 * numGuesses || (v == 2 * st.score && st.guess == numGuesses + 1)
    decreases |replies|
  {
    if st.guess < numGuesses + 1 && replies != [] {
      TurnScore(game, target, numGuesses, hard, st, replies[0]);
      match Turn(game, target, numGuesses, hard, st, replies[0])
      case Finished(v) =>
      case Abort(e) =>
      case Rejected =>
        GameScore(game, target, numGuesses, hard, st, replies[1..]);
      case Accepted(next) =>
        GameScore(game, target, numGuesses, hard, next, replies[1..]);
    }
  }
}
