// Generation accounting of training (snakes/snakes.py, SnakeGame.train and
// the training branch of SnakeGame.play): how many games each schedule entry
// plays, and whether each game ends with a new generation or with the final
// fitness evaluation.
module SnakeTraining {
  import opened Wrappers
  import opened SnakePlayer

  /** What the player does after a training game: breed generation `gen`, or evaluate fitness. */
  datatype Step = Evolve(gen: int) | Evaluate

  /** The generations of the schedule entries from `k` on. */
  function GensFrom(schedule: seq<Session>, k: nat): int
    requires k <= |schedule|
    decreases |schedule| - k
  {
    if k == |schedule| then 0 else schedule[k].gens + GensFrom(schedule, k + 1)
  }

  /** Lines 1179-1185: the scheduled generations, capped at `MaxTrainingEpochs`. */
  function Cap(schedule: seq<Session>): (tot: int)
    ensures tot <= MaxTrainingEpochs
    ensures GensFrom(schedule, 0) <= MaxTrainingEpochs ==> tot == GensFrom(schedule, 0)
    ensures GensFrom(schedule, 0) > MaxTrainingEpochs ==> tot == MaxTrainingEpochs
  {
    var sum := GensFrom(schedule, 0);
    if sum > MaxTrainingEpochs then MaxTrainingEpochs else sum
  }

  /** Lines 1351-1355: game `n` of the whole training evolves unless it is the last. */
  function Label(n: int, tot: int): Step
  {
    if n < tot then Evolve(n) else Evaluate
  }

  /** The games of one schedule entry of `gens` games, after `count` earlier games (lines 1290-1295). */
  function SessionSteps(gens: int, count: int, tot: int): (r: seq<Step>)
    ensures |r| == if gens < 0 then 0 else gens
  {
    var n := if gens < 0 then 0 else gens;
    seq(n, q requires 0 <= q < n => Label(count + q + 1, tot))
  }

  /** Lines 1187-1249 from entry `k` after `count` games: the last entry is
    * clamped to the total; an entry left with no games ends the training,
    * and so does reaching the total. */
  function TrainFrom(schedule: seq<Session>, k: nat, count: int, tot: int): seq<Step>
    requires k <= |schedule|
    decreases |schedule| - k
  {
    if k == |schedule| then []
    else
      var gens := if count + schedule[k].gens > tot then tot - count else schedule[k].gens;
      if gens == 0 then []
      else if count + gens >= tot then SessionSteps(gens, count, tot)
      else SessionSteps(gens, count, tot) + TrainFrom(schedule, k + 1, count + gens, tot)
  }

  function TrainSteps(schedule: seq<Session>): seq<Step>
  {
    TrainFrom(schedule, 0, 0, Cap(schedule))
  }

  /** The steps of an uninterrupted training from game `count + 1` to game `tot`. */
  function Ideal(count: int, tot: int): (r: seq<Step>)
    requires count <= tot
    ensures |r| == tot - count
  {
    seq(tot - count, q requires 0 <= q < tot - count => Label(count + q + 1, tot))
  }

  predicate IsPrefix(a: seq<Step>, b: seq<Step>)
  {
    |a| <= |b| && a == b[..|a|]
  }

  /** Lines 1294-1355 with `trainGames = (gens, count, tot)`: games 1 to
    * `gens` are played, each followed by its generation step. */
  method PlaySession(gens: int, count: int, tot: int) returns (steps: seq<Step>)
    ensures steps == SessionSteps(gens, count, tot)
  {
    steps := [];
    var game := 1;
    while game <= gens
      invariant 1 <= game && (gens >= 0 ==> game <= gens + 1) && (gens < 0 ==> game == 1) && |steps| == game - 1
      invariant forall q :: 0 <= q < |steps| ==> steps[q] == Label(count + q + 1, tot)
    {
      if game + count < tot {
        steps := steps + [Evolve(game + count)];
      } else {
        steps := steps + [Evaluate];
      }
      game := game + 1;
    }
    assert |steps| == |SessionSteps(gens, count, tot)|;
  }

  /** Lines 1179-1185: the generations of all entries summed, then capped. */
  method TotalGames(schedule: seq<Session>) returns (tot: int)
    ensures tot == Cap(schedule)
  {
    tot := 0;
    for k := 0 to |schedule|
      invariant tot + GensFrom(schedule, k) == GensFrom(schedule, 0)
    {
      tot := tot + schedule[k].gens;
    }
    if tot > MaxTrainingEpochs {
      tot := MaxTrainingEpochs;
    }
  }

  /** `train` (lines 1173-1254): the total is summed and capped, then the
    * entries are played in order. */
  method Train(schedule: seq<Session>) returns (steps: seq<Step>)
    ensures steps == TrainSteps(schedule)
  {
    var tot := TotalGames(schedule);
    var count := 0;
    steps := [];
    var k := 0;
    while k < |schedule|
      invariant k <= |schedule|
      invariant steps + TrainFrom(schedule, k, count, tot) == TrainSteps(schedule)
    {
      var stop;
      steps, count, stop := PlayEntry(schedule, k, count, tot, steps);
      if stop {
        break;
      }
      k := k + 1;
    }
  }

  /** Lines 1187-1249 for entry `k` after `count` games: its generations,
    * clamped to what is left of the total, are played after `before`; `stop`
    * when it has none left to play or it reaches the total. */
  method PlayEntry(schedule: seq<Session>, k: nat, count: int, tot: int, before: seq<Step>)
    returns (after: seq<Step>, count': int, stop: bool)
    requires k < |schedule|
    ensures stop ==> after == before + TrainFrom(schedule, k, count, tot)
    ensures !stop ==> after + TrainFrom(schedule, k + 1, count', tot) == before + TrainFrom(schedule, k, count, tot)
  {
    var gens := schedule[k].gens;
    if count + gens > tot {
      gens := tot - count;
    }
    if gens == 0 {
      return before, count, true;
    }
    var played := PlaySession(gens, count, tot);
    after := before + played;
    count' := count + gens;
    stop := count' >= tot;
    if !stop {
      assert before + (played + TrainFrom(schedule, k + 1, count', tot)) == after + TrainFrom(schedule, k + 1, count', tot);
    }
  }

  /** With no negative entry, training is an uninterrupted run from `count`, cut short at most. */
  lemma {:induction false} TrainFromPrefix(schedule: seq<Session>, k: nat, count: int, tot: int)
    requires k <= |schedule| && count <= tot
    requires forall j :: k <= j < |schedule| ==> schedule[j].gens >= 0
    ensures IsPrefix(TrainFrom(schedule, k, count, tot), Ideal(count, tot))
    decreases |schedule| - k
  {
    if k < |schedule| {
      var gens := if count + schedule[k].gens > tot then tot - count else schedule[k].gens;
      if gens != 0 && count + gens < tot {
        TrainFromPrefix(schedule, k + 1, count + gens, tot);
        SessionThenIdeal(gens, count, tot, TrainFrom(schedule, k + 1, count + gens, tot));
      } else if gens != 0 {
        assert SessionSteps(gens, count, tot) == Ideal(count, tot);
      }
    }
  }

  /** The games of an entry followed by a prefix of the run after them are a prefix of the run. */
  lemma SessionThenIdeal(gens: int, count: int, tot: int, rest: seq<Step>)
    requires 0 < gens && count + gens < tot && IsPrefix(rest, Ideal(count + gens, tot))
    ensures IsPrefix(SessionSteps(gens, count, tot) + rest, Ideal(count, tot))
    ensures rest == Ideal(count + gens, tot) ==> SessionSteps(gens, count, tot) + rest == Ideal(count, tot)
  {
    var head := SessionSteps(gens, count, tot);
    var ideal := Ideal(count, tot);
    assert head == ideal[..gens];
    assert Ideal(count + gens, tot) == ideal[gens..];
    assert head + rest == ideal[..gens + |rest|];
  }

  /** With every entry positive and enough games left, training is exactly the uninterrupted run. */
  lemma {:induction false} TrainFromExact(schedule: seq<Session>, k: nat, count: int, tot: int)
    requires k <= |schedule| && count <= tot
    requires forall j :: k <= j < |schedule| ==> schedule[j].gens > 0
    requires count + GensFrom(schedule, k) >= tot
    ensures TrainFrom(schedule, k, count, tot) == Ideal(count, tot)
    decreases |schedule| - k
  {
    if k < |schedule| {
      var gens := if count + schedule[k].gens > tot then tot - count else schedule[k].gens;
      if gens != 0 && count + gens < tot {
        TrainFromExact(schedule, k + 1, count + gens, tot);
        SessionThenIdeal(gens, count, tot, TrainFrom(schedule, k + 1, count + gens, tot));
      } else if gens != 0 {
        assert SessionSteps(gens, count, tot) == Ideal(count, tot);
      }
    }
  }

  /** With no negative entry, training is an uninterrupted run from `count`
    * cut short at most; with every entry positive and enough games left it
    * is exactly the uninterrupted run. */
  lemma TrainFromIsIdeal(schedule: seq<Session>, k: nat, count: int, tot: int)
    requires k <= |schedule| && count <= tot
    requires forall j :: k <= j < |schedule| ==> schedule[j].gens >= 0
    ensures IsPrefix(TrainFrom(schedule, k, count, tot), Ideal(count, tot))
    ensures (forall j :: k <= j < |schedule| ==> schedule[j].gens > 0) && count + GensFrom(schedule, k) >= tot ==>
      TrainFrom(schedule, k, count, tot) == Ideal(count, tot)
  {
    TrainFromPrefix(schedule, k, count, tot);
    if (forall j :: k <= j < |schedule| ==> schedule[j].gens > 0) && count + GensFrom(schedule, k) >= tot {
      TrainFromExact(schedule, k, count, tot);
    }
  }

  /** A schedule as loaded (no entry negative) trains in order: generations
    * 1, 2, .. with the fitness evaluated only after the game that reaches the
    * capped total, and never more games than the cap. */
  lemma TrainIsCappedRun(schedule: seq<Session>)
    requires forall j :: 0 <= j < |schedule| ==> schedule[j].gens >= 0
    ensures Cap(schedule) >= 0
    ensures IsPrefix(TrainSteps(schedule), Ideal(0, Cap(schedule)))
    ensures |TrainSteps(schedule)| <= Cap(schedule) <= MaxTrainingEpochs
  {
    NonnegativeGens(schedule, 0);
    TrainFromIsIdeal(schedule, 0, 0, Cap(schedule));
  }

  /** Every schedule the loader accepts, however large its total, trains for
    * at most `MaxTrainingEpochs` games, in generation order. */
  lemma LoadedScheduleTrains(m: Module)
    requires LoadSettings(m).Ok? && LoadSettings(m).value.schedule.Some?
    ensures var s := LoadSettings(m).value.schedule.value;
      Cap(s) >= 0 && IsPrefix(TrainSteps(s), Ideal(0, Cap(s))) && |TrainSteps(s)| <= MaxTrainingEpochs
  {
    var s := LoadSettings(m).value.schedule.value;
    var entries := m.trainingSchedule.value.items;
    assert CheckSessions(entries, |entries|) == Ok(s);
    CheckSessionsSpec(entries, |entries|);
    forall j | 0 <= j < |s|
      ensures s[j].gens >= 0
    {
      assert SessionOk(entries[j]) && s[j] == SessionOf(entries[j]);
    }
    TrainIsCappedRun(s);
  }

  /** With every entry positive, training plays exactly `min(total, MaxTrainingEpochs)`
    * games: every game but the last breeds the next generation, numbered from 1,
    * and the last evaluates fitness. */
  lemma TrainPlaysCap(schedule: seq<Session>)
    requires forall j :: 0 <= j < |schedule| ==> schedule[j].gens > 0
    ensures var steps := TrainSteps(schedule); var tot := Cap(schedule);
      |steps| == tot &&
      (forall q :: 0 <= q < tot - 1 ==> steps[q] == Evolve(q + 1)) &&
      (tot > 0 ==> steps[tot - 1] == Evaluate)
  {
    NonnegativeGens(schedule, 0);
    TrainFromIsIdeal(schedule, 0, 0, Cap(schedule));
  }

  lemma {:induction false} NonnegativeGens(schedule: seq<Session>, k: nat)
    requires k <= |schedule| && forall j :: k <= j < |schedule| ==> schedule[j].gens >= 0
    ensures GensFrom(schedule, k) >= 0
    decreases |schedule| - k
  {
    if k < |schedule| {
      NonnegativeGens(schedule, k + 1);
    }
  }

  /** An entry of 0 generations met before the total is reached ends training
    * there: only the games before it are played, every one of them breeds a
    * generation, and the fitness is never evaluated. */
  lemma ZeroEntryStops(a: seq<Session>, op: string, b: seq<Session>)
    requires forall j :: 0 <= j < |a| ==> a[j].gens > 0
    requires GensFrom(a, 0) < Cap(a + [Session(op, 0)] + b)
    ensures var steps := TrainSteps(a + [Session(op, 0)] + b);
      |steps| == GensFrom(a, 0) &&
      (forall q :: 0 <= q < |steps| ==> steps[q] == Evolve(q + 1)) &&
      Evaluate !in steps
  {
    var s := a + [Session(op, 0)] + b;
    ZeroStopsFrom(a, op, b, 0, 0, Cap(s));
    var steps := TrainSteps(s);
    assert forall q :: 0 <= q < |steps| ==> steps[q] == Evolve(q + 1);
  }

  /** The sum over `a + b` from entry k of `a` is the rest of `a` plus all of `b`. */
  lemma {:induction false} GensSplit(a: seq<Session>, b: seq<Session>, k: nat)
    requires k <= |a|
    ensures GensFrom(a + b, k) == GensFrom(a, k) + GensFrom(b, 0)
    decreases |a| - k
  {
    if k < |a| {
      GensSplit(a, b, k + 1);
    } else {
      GensShift(a, b, 0);
    }
  }

  lemma {:induction false} GensShift(a: seq<Session>, b: seq<Session>, j: nat)
    requires j <= |b|
    ensures GensFrom(a + b, |a| + j) == GensFrom(b, j)
    decreases |b| - j
  {
    if j < |b| {
      assert (a + b)[|a| + j] == b[j];
      GensShift(a, b, j + 1);
    }
  }

  lemma {:induction false} ZeroStopsFrom(a: seq<Session>, op: string, b: seq<Session>, k: nat, count: int, tot: int)
    requires k <= |a| && forall j :: 0 <= j < |a| ==> a[j].gens > 0
    requires count + GensFrom(a, k) < tot
    ensures GensFrom(a, k) >= 0
    ensures TrainFrom(a + [Session(op, 0)] + b, k, count, tot) == EvolveRun(GensFrom(a, k), count)
    decreases |a| - k
  {
    var s := a + [Session(op, 0)] + b;
    NonnegativeFromPositive(a, k);
    if k < |a| {
      assert s[k] == a[k];
      NonnegativeFromPositive(a, k + 1);
      var gens := a[k].gens;
      ZeroStopsFrom(a, op, b, k + 1, count + gens, tot);
      var rest := TrainFrom(s, k + 1, count + gens, tot);
      assert TrainFrom(s, k, count, tot) == SessionSteps(gens, count, tot) + rest;
      SessionAllEvolve(gens, count, tot);
      EvolveRunJoin(gens, GensFrom(a, k + 1), count);
    } else {
      assert s[k] == Session(op, 0);
    }
  }

  /** Generations `count + 1` to `count + n`, each bred. */
  function EvolveRun(n: int, count: int): (r: seq<Step>)
    requires n >= 0
    ensures |r| == n
  {
    seq(n, q requires 0 <= q < n => Evolve(count + q + 1))
  }

  /** A session that ends before the total breeds after every game. */
  lemma SessionAllEvolve(gens: int, count: int, tot: int)
    requires gens >= 0 && count + gens < tot
    ensures SessionSteps(gens, count, tot) == EvolveRun(gens, count)
  {
    var r := SessionSteps(gens, count, tot);
    forall q | 0 <= q < gens
      ensures r[q] == EvolveRun(gens, count)[q]
    {
      assert r[q] == Label(count + q + 1, tot);
    }
  }

  lemma EvolveRunJoin(n: int, m: int, count: int)
    requires n >= 0 && m >= 0
    ensures EvolveRun(n, count) + EvolveRun(m, count + n) == EvolveRun(n + m, count)
  {
  }

  lemma {:induction false} NonnegativeFromPositive(a: seq<Session>, k: nat)
    requires k <= |a| && forall j :: 0 <= j < |a| ==> a[j].gens > 0
    ensures GensFrom(a, k) >= 0
    decreases |a| - k
  {
    if k < |a| {
      NonnegativeFromPositive(a, k + 1);
    }
  }
}
