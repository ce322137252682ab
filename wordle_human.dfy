// The human player's keyboard map (wordle/human_agent.py, AgentFunction up
// to the solved check): one state per alphabet letter, 2 = not yet tried,
// 0 = not in the word, -1 = in the word elsewhere, 1 = placed.
module HumanKeyboard {
  import opened Wrappers

  predicate IsLetterState(v: int)
  {
    v == 2 || v == 0 || v == -1 || v == 1
  }

  /** How much a letter state says about the word: unknown < absent < somewhere < placed. */
  function Rank(v: int): nat
  {
    if v == 2 then 0 else if v == 0 then 1 else if v == -1 then 2 else 3
  }

  /** A letter's state after one feedback entry for it. */
  function Absorb(cur: int, state: int): int
  {
    if state == 1 then 1
    else if state == -1 then (if cur != 1 then -1 else cur)
    else if cur > 1 then 0
    else cur
  }

  predicate IndicesFit(idx: seq<int>, n: nat)
  {
    forall k :: 0 <= k < |idx| ==> -(n as int) <= idx[k] < n
  }

  /** The letter states after the first `i` feedback entries, applied in order
    * (numpy indexing, so a negative index counts from the end). */
  function Observe(s: seq<int>, idx: seq<int>, sts: seq<int>, i: nat): (r: seq<int>)
    requires i <= |idx| <= |sts| && IndicesFit(idx, |s|)
    ensures |r| == |s|
  {
    if i == 0 then s
    else
      var t := Observe(s, idx, sts, i - 1);
      var p := PyIndex(idx[i - 1], |s|);
      t[p := Absorb(t[p], sts[i - 1])]
  }

  class HumanAgent {
    const letters: seq<char>
    var states: array<int>

    /** Every letter starts untried. */
    constructor(letters: seq<char>)
      ensures this.letters == letters
      ensures fresh(states) && states[..] == seq(|letters|, _ => 2)
    {
      this.letters := letters;
      states := new int[|letters|](_ => 2);
    }

    /** On guess 0 a fresh all-untried map replaces the old one; later the
      * previous guess's feedback is absorbed entry by entry, in place.
      * `solved` is the test that makes the agent return None. */
    method AgentFunction(guessCounter: int, letterIndexes: seq<int>, letterStates: seq<int>) returns (solved: bool)
      requires states.Length == |letters|
      requires guessCounter != 0 ==> |letterIndexes| <= |letterStates| && IndicesFit(letterIndexes, |letters|)
      modifies this, states
      ensures states.Length == |letters|
      ensures guessCounter == 0 ==> fresh(states) && states[..] == seq(|letters|, _ => 2)
      ensures guessCounter != 0 ==>
        states == old(states) && states[..] == Observe(old(states[..]), letterIndexes, letterStates, |letterIndexes|)
      ensures solved <==> Sum(letterStates) == |letterStates|
    {
      if guessCounter == 0 {
        states := new int[|letters|](_ => 2);
      } else {
        ghost var s0 := states[..];
        for i := 0 to |letterIndexes|
          invariant states == old(states)
          invariant states[..] == Observe(s0, letterIndexes, letterStates, i)
        {
          var index := PyIndex(letterIndexes[i], states.Length);
          var state := letterStates[i];
          if state == 1 {
            states[index] := 1;
          } else if state == -1 {
            if states[index] != 1 {
              states[index] := -1;
            }
          } else {
            if states[index] > 1 {
              states[index] := 0;
            }
          }
        }
      }
      solved := Sum(letterStates) == |letterStates|;
    }
  }

  /** The four rules of one entry: 1 places the letter, a placed letter stays,
    * -1 marks an unplaced letter as present, and any other feedback changes
    * only an untried letter, to absent. */
  lemma AbsorbRules(cur: int, state: int)
    requires IsLetterState(cur)
    ensures state == 1 ==> Absorb(cur, state) == 1
    ensures cur == 1 ==> Absorb(cur, state) == 1
    ensures state == -1 && cur != 1 ==> Absorb(cur, state) == -1
    ensures state != 1 && state != -1 ==> (Absorb(cur, state) != cur <==> cur == 2) && (cur == 2 ==> Absorb(cur, state) == 0)
  {
  }

  /** A placed letter is never changed by later feedback. */
  lemma {:induction false} PlacedLetterKept(s: seq<int>, idx: seq<int>, sts: seq<int>, i: nat, j: nat)
    requires i <= |idx| <= |sts| && IndicesFit(idx, |s|)
    requires j < |s| && s[j] == 1
    ensures Observe(s, idx, sts, i)[j] == 1
  {
    if i > 0 {
      PlacedLetterKept(s, idx, sts, i - 1, j);
    }
  }

  /** Letters not named by any applied entry keep their state. */
  lemma {:induction false} UnlistedLetterKept(s: seq<int>, idx: seq<int>, sts: seq<int>, i: nat, j: nat)
    requires i <= |idx| <= |sts| && IndicesFit(idx, |s|)
    requires j < |s|
    requires forall k :: 0 <= k < i ==> PyIndex(idx[k], |s|) != j
    ensures Observe(s, idx, sts, i)[j] == s[j]
  {
    if i > 0 {
      UnlistedLetterKept(s, idx, sts, i - 1, j);
    }
  }

  /** Feedback only ever adds knowledge: every letter's rank is kept or raised, and states stay valid. */
  lemma {:induction false} KnowledgeMonotone(s: seq<int>, idx: seq<int>, sts: seq<int>, i: nat)
    requires i <= |idx| <= |sts| && IndicesFit(idx, |s|)
    requires forall j :: 0 <= j < |s| ==> IsLetterState(s[j])
    ensures forall j :: 0 <= j < |s| ==> IsLetterState(Observe(s, idx, sts, i)[j])
    ensures forall j :: 0 <= j < |s| ==> Rank(Observe(s, idx, sts, i)[j]) >= Rank(s[j])
  {
    if i > 0 {
      KnowledgeMonotone(s, idx, sts, i - 1);
    }
  }

  /** Feedback that uses only -1, 0 and 1 sums to its length exactly when every entry is 1. */
  lemma SolvedIffAllPlaced(letterStates: seq<int>)
    requires forall k :: 0 <= k < |letterStates| ==> -1 <= letterStates[k] <= 1
    ensures Sum(letterStates) == |letterStates| <==> forall k :: 0 <= k < |letterStates| ==> letterStates[k] == 1
  {
    SumIsLengthIffAllOnes(letterStates);
  }
}
