// The avatars and players of the snakes game (snakes/snakes.py): per-game
// avatar reset and size statistics, validation of an agent's action, the
// load-time validation of an agent module's attributes, and the fitness
// ordering of a player's avatars.
module SnakePlayer {
  import opened Wrappers
  import opened SnakeGeometry

  const MaxTrainingEpochs := 500
  const StartingLength := 2

  /** An avatar: the game-side record of one snake. `owner` is the index of its
    * player in the game's player list; `head` and `rotation` are only set when
    * it is spawned. */
  datatype Avatar = Avatar(
    owner: nat,
    size: int,
    sizes: seq<int>,
    hit: bool,
    dead: bool,
    body: seq<Pos>,
    head: Pos,
    rotation: int,
    percepts: seq<Frame>)

  /** A player's percept settings: field of vision and number of frames. */
  datatype Senses = Senses(fov: nat, nFrames: nat)

  predicate SensesOk(s: Senses)
  {
    (s.fov == 3 || s.fov == 5 || s.fov == 7 || s.fov == 9) && 1 <= s.nFrames <= 4
  }

  function ZeroFrame(fov: nat): (m: Frame)
    ensures IsSquare(m, fov)
  {
    seq(fov, _ => seq(fov, _ => 0))
  }

  /** `reset_for_new_game`: a fresh game starts every avatar at the starting
    * length, alive and unhit, with no body, a zero size record per turn and
    * blank percept frames; its owner, head and heading are left as they were. */
  function ResetForNewGame(a: Avatar, nTurns: nat, s: Senses): (r: Avatar)
    ensures r.size == StartingLength && !r.hit && !r.dead && r.body == []
    ensures |r.sizes| == nTurns && forall t :: 0 <= t < nTurns ==> r.sizes[t] == 0
    ensures |r.percepts| == s.nFrames && forall f :: 0 <= f < s.nFrames ==> r.percepts[f] == ZeroFrame(s.fov)
    ensures r.owner == a.owner && r.head == a.head && r.rotation == a.rotation
  {
    a.(size := StartingLength, sizes := seq(nTurns, _ => 0), hit := false, dead := false,
       body := [], percepts := seq(s.nFrames, _ => ZeroFrame(s.fov)))
  }

  /** `update_size_stats`: an avatar not hit records its size for the turn; a hit one records nothing. */
  function UpdateSizeStats(a: Avatar, turn: nat): (r: Avatar)
    requires turn < |a.sizes|
    ensures |r.sizes| == |a.sizes|
    ensures forall t :: 0 <= t < |a.sizes| && t != turn ==> r.sizes[t] == a.sizes[t]
    ensures r.sizes[turn] == if a.hit then a.sizes[turn] else a.size
    ensures r == a.(sizes := r.sizes)
  {
    if a.hit then a else a.(sizes := a.sizes[turn := a.size])
  }

  /** What an agent's `AgentFunction` gave back. */
  datatype Reply = IntReply(value: int) | NonIntReply | RaisedReply

  datatype ActionError = AgentFailed | NotAnInteger | NotAnAction

  /** `Avatar.action`: the agent's answer must be an integer among -1, 0 and 1. */
  function ValidateAction(reply: Reply): (r: Result<int, ActionError>)
    ensures r.Ok? <==> reply.IntReply? && IsAction(reply.value)
    ensures r.Ok? ==> r.value == reply.value
    ensures reply.RaisedReply? ==> r == Err(AgentFailed)
    ensures reply.NonIntReply? ==> r == Err(NotAnInteger)
    ensures reply.IntReply? && !IsAction(reply.value) ==> r == Err(NotAnAction)
  {
    match reply
    case RaisedReply => Err(AgentFailed)
    case NonIntReply => Err(NotAnInteger)
    case IntReply(v) => if v == -1 || v == 0 || v == 1 then Ok(v) else Err(NotAnAction)
  }

  /** A Python value read from an agent module's `trainingSchedule`. */
  datatype Value = IntVal(i: int) | StrVal(s: string) | TupleVal(items: seq<Value>) | ListVal(items: seq<Value>) | NoneVal | OtherVal

  /** One training session: the opponent and the number of generations. */
  datatype Session = Session(op: string, gens: int)

  datatype LoadError =
    | MissingFieldOfVision
    | BadFieldOfVision
    | MissingFrames
    | BadFrames
    | MissingSchedule
    | ScheduleNotList
    | BadSession(at: nat)
    | NegativeGenerations(at: nat)

  /** The validated attributes of an agent module. */
  datatype Settings = Settings(senses: Senses, schedule: Option<seq<Session>>, trained: bool)

  /** A schedule entry is a tuple of at least two items, a string and then an int. */
  predicate WellFormedSession(v: Value)
  {
    v.TupleVal? && |v.items| >= 2 && v.items[0].StrVal? && v.items[1].IntVal?
  }

  function SessionOf(v: Value): Session
    requires WellFormedSession(v)
  {
    Session(v.items[0].s, v.items[1].i)
  }

  predicate SessionOk(v: Value)
  {
    WellFormedSession(v) && v.items[1].i >= 0
  }

  /** The error the entry at `k` raises, if any. */
  function SessionError(v: Value, k: nat): LoadError
  {
    if !WellFormedSession(v) then BadSession(k) else NegativeGenerations(k)
  }

  /** The schedule check of lines 255-290 over the first `k` entries: the
    * first bad entry decides the error. The running total of generations is
    * only added to after an error has already returned, so the total stays 0
    * and the 500-generation cap never rejects a schedule. */
  function CheckSessions(entries: seq<Value>, k: nat): (r: Result<seq<Session>, LoadError>)
    requires k <= |entries|
  {
    if k == 0 then Ok([])
    else
      match CheckSessions(entries, k - 1)
      case Err(e) => Err(e)
      case Ok(done) =>
        if !SessionOk(entries[k - 1]) then Err(SessionError(entries[k - 1], k - 1))
        else Ok(done + [SessionOf(entries[k - 1])])
  }

  /** The check accepts exactly when every entry is good, then keeps every
    * entry's session in order; otherwise it reports the first bad entry. */
  lemma {:induction false} CheckSessionsSpec(entries: seq<Value>, k: nat)
    requires k <= |entries|
    ensures var r := CheckSessions(entries, k);
      (r.Ok? <==> forall j :: 0 <= j < k ==> SessionOk(entries[j])) &&
      (r.Ok? ==> (|r.value| == k &&
        forall j :: 0 <= j < k ==> SessionOk(entries[j]) && r.value[j] == SessionOf(entries[j]))) &&
      (r.Err? ==> exists j :: (0 <= j < k && !SessionOk(entries[j]) &&
                               r.error == SessionError(entries[j], j) && forall i :: 0 <= i < j ==> SessionOk(entries[i])))
  {
    if k > 0 {
      CheckSessionsSpec(entries, k - 1);
      var prev := CheckSessions(entries, k - 1);
      if prev.Ok? && !SessionOk(entries[k - 1]) {
        assert forall i :: 0 <= i < k - 1 ==> SessionOk(entries[i]);
      }
    }
  }

  /** The schedule loop as the source runs it, returning at the first bad entry. */
  method ValidateSchedule(entries: seq<Value>) returns (r: Result<seq<Session>, LoadError>)
    ensures r == CheckSessions(entries, |entries|)
  {
    var sessions: seq<Session> := [];
    var k := 0;
    while k < |entries|
      invariant k <= |entries|
      invariant CheckSessions(entries, k) == Ok(sessions)
    {
      var v := entries[k];
      if !v.TupleVal? || |v.items| < 2 || !v.items[0].StrVal? || !v.items[1].IntVal? {
        ErrorSticks(entries, k + 1, |entries|);
        return Err(BadSession(k));
      }
      if v.items[1].i < 0 {
        ErrorSticks(entries, k + 1, |entries|);
        return Err(NegativeGenerations(k));
      }
      sessions := sessions + [SessionOf(v)];
      k := k + 1;
    }
    r := Ok(sessions);
  }

  /** Once an entry fails, longer prefixes fail with the same error. */
  lemma {:induction false} ErrorSticks(entries: seq<Value>, k: nat, n: nat)
    requires k <= n <= |entries| && CheckSessions(entries, k).Err?
    decreases n - k
    ensures CheckSessions(entries, n) == CheckSessions(entries, k)
  {
    if k < n {
      ErrorSticks(entries, k, n - 1);
    }
  }

  /** The attributes of an agent module as the loader finds them: None where
    * the attribute is missing, and the values after `int(...)`. */
  datatype Module = Module(fieldOfVision: Option<int>, frames: Option<int>, trainingSchedule: Option<Value>)

  /** Lines 201-295: field of vision in {3, 5, 7, 9}, frames in {1, .., 4}, a
    * schedule that is None or a list of (str, int >= 0) tuples; a player with
    * no schedule counts as trained. A module with no `perceptFrames` fails on
    * the attribute access itself. */
  function LoadSettings(m: Module): (r: Result<Settings, LoadError>)
    ensures r.Ok? ==> SensesOk(r.value.senses)
    ensures r.Ok? ==> m.fieldOfVision == Some(r.value.senses.fov as int) && m.frames == Some(r.value.senses.nFrames as int)
    ensures r.Ok? ==> (r.value.trained <==> r.value.schedule.None?)
    ensures r.Ok? ==> (r.value.schedule.None? <==> m.trainingSchedule == Some(NoneVal))
    ensures r.Ok? && r.value.schedule.Some? ==> (m.trainingSchedule.Some? && m.trainingSchedule.value.ListVal? &&
      CheckSessions(m.trainingSchedule.value.items, |m.trainingSchedule.value.items|) == Ok(r.value.schedule.value))
    ensures r.Ok? <==> (m.fieldOfVision.Some? && m.frames.Some? && m.trainingSchedule.Some? &&
      m.fieldOfVision.value in {3, 5, 7, 9} && 1 <= m.frames.value <= 4 &&
      (m.trainingSchedule.value.NoneVal? ||
       (m.trainingSchedule.value.ListVal? && CheckSessions(m.trainingSchedule.value.items, |m.trainingSchedule.value.items|).Ok?)))
  {
    match m.fieldOfVision
    case None => Err(MissingFieldOfVision)
    case Some(fov) =>
      if !(fov == 3 || fov == 5 || fov == 7 || fov == 9) then Err(BadFieldOfVision)
      else match m.frames
        case None => Err(MissingFrames)
        case Some(nf) =>
          if !(1 <= nf <= 4) then Err(BadFrames)
          else match m.trainingSchedule
            case None => Err(MissingSchedule)
            case Some(NoneVal) => Ok(Settings(Senses(fov, nf), None, true))
            case Some(ListVal(entries)) =>
              (match CheckSessions(entries, |entries|)
               case Err(e) => Err(e)
               case Ok(s) => Ok(Settings(Senses(fov, nf), Some(s), false)))
            case Some(_) => Err(ScheduleNotList)
  }

  /** A schedule of 501 generations loads: the total is never checked against the cap. */
  lemma OverlongScheduleLoads()
    ensures LoadSettings(Module(Some(5), Some(1), Some(ListVal([TupleVal([StrVal("random"), IntVal(MaxTrainingEpochs + 1)])])))).Ok?
  {
    var entries := [TupleVal([StrVal("random"), IntVal(MaxTrainingEpochs + 1)])];
    assert SessionOk(entries[0]);
    CheckSessionsSpec(entries, 1);
  }

  /** Whether the schedule is accepted depends only on each entry, never on the sum of generations. */
  lemma ScheduleTotalIgnored(entries: seq<Value>)
    ensures CheckSessions(entries, |entries|).Ok? <==> forall j :: 0 <= j < |entries| ==> SessionOk(entries[j])
  {
    CheckSessionsSpec(entries, |entries|);
  }

  /** What `evalFitness` gave back. */
  datatype FitnessReply = FitnessRaised | NotAList | Fitness(values: seq<real>)

  datatype FitnessError = EvalFailed | FitnessNotList | WrongFitnessLength

  /** Every index is in range and fitness never drops from one index to the next. */
  predicate AscendingBy(f: seq<real>, s: seq<nat>)
  {
    (forall k :: 0 <= k < |s| ==> s[k] < |f|) &&
    forall i :: 0 <= i < |s| - 1 ==> f[s[i]] <= f[s[i + 1]]
  }

  /** Insert index `k` after every index of no greater fitness: a stable insertion step. */
  function InsertIndex(f: seq<real>, k: nat, s: seq<nat>): (r: seq<nat>)
    requires k < |f| && AscendingBy(f, s)
    ensures |r| == |s| + 1
    ensures AscendingBy(f, r)
    ensures r[|r| - 1] == k || (s != [] && r[|r| - 1] == s[|s| - 1])
  {
    if s == [] then [k]
    else
      var last := s[|s| - 1];
      var init := s[..|s| - 1];
      assert s == init + [last];
      if f[k] < f[last] then
        var r' := InsertIndex(f, k, init);
        r' + [last]
      else s + [k]
  }

  /** `np.argsort(fitness)` over the first `n` indices, ties in index order. */
  function Argsort(f: seq<real>, n: nat): (r: seq<nat>)
    requires n <= |f|
    ensures |r| == n
    ensures AscendingBy(f, r)
  {
    if n == 0 then [] else InsertIndex(f, n - 1, Argsort(f, n - 1))
  }

  /** Inserting adds exactly `k` to the indices. */
  lemma {:induction false} InsertIndexCount(f: seq<real>, k: nat, s: seq<nat>)
    requires k < |f| && AscendingBy(f, s)
    ensures multiset(InsertIndex(f, k, s)) == multiset(s) + multiset{k}
  {
    if s != [] {
      var last := s[|s| - 1];
      var init := s[..|s| - 1];
      assert s == init + [last];
      if f[k] < f[last] {
        InsertIndexCount(f, k, init);
      }
    }
  }

  /** The argsort is a permutation of 0..n-1. */
  lemma {:induction false} ArgsortCount(f: seq<real>, n: nat)
    requires n <= |f|
    ensures multiset(Argsort(f, n)) == multiset(Range(n))
  {
    if n > 0 {
      ArgsortCount(f, n - 1);
      InsertIndexCount(f, n - 1, Argsort(f, n - 1));
    }
  }

  /** Fitness that never drops between neighbours never drops between any two positions. */
  lemma {:induction false} AscendingAllPairs(f: seq<real>, s: seq<nat>, i: nat, j: nat)
    requires AscendingBy(f, s) && i <= j < |s|
    decreases j - i
    ensures f[s[i]] <= f[s[j]]
  {
    if i < j {
      AscendingAllPairs(f, s, i + 1, j);
    }
  }

  function Range(n: nat): (r: seq<nat>)
    ensures |r| == n && forall k :: 0 <= k < n ==> r[k] == k
  {
    if n == 0 then [] else Range(n - 1) + [n - 1]
  }

  /** `np.argsort(fitness)[::-1]`: most fit first. */
  function FitnessOrder(f: seq<real>): seq<nat>
  {
    Reverse(Argsort(f, |f|))
  }

  /** `evaluate_fitness` (lines 453-494): the reply must be a list with one
    * value per avatar, and the avatars are then reordered by it. */
  function EvaluateFitness<T>(avatars: seq<T>, reply: FitnessReply): (r: Result<seq<T>, FitnessError>)
    ensures reply.FitnessRaised? ==> r == Err(EvalFailed)
    ensures reply.NotAList? ==> r == Err(FitnessNotList)
    ensures reply.Fitness? && |reply.values| != |avatars| ==> r == Err(WrongFitnessLength)
    ensures r.Ok? <==> reply.Fitness? && |reply.values| == |avatars|
    ensures r.Ok? ==> |r.value| == |avatars|
  {
    match reply
    case FitnessRaised => Err(EvalFailed)
    case NotAList => Err(FitnessNotList)
    case Fitness(f) =>
      if |f| != |avatars| then Err(WrongFitnessLength)
      else
        var order := FitnessOrder(f);
        OrderIsPermutation(f);
        Ok(seq(|avatars|, i requires 0 <= i < |avatars| => avatars[order[i]]))
  }

  /** The fitness order names each avatar exactly once and is non-increasing in fitness. */
  lemma OrderIsPermutation(f: seq<real>)
    ensures |FitnessOrder(f)| == |f|
    ensures multiset(FitnessOrder(f)) == multiset(Range(|f|))
    ensures forall k :: 0 <= k < |f| ==> FitnessOrder(f)[k] < |f|
    ensures forall i, j :: 0 <= i < j < |f| ==> f[FitnessOrder(f)[i]] >= f[FitnessOrder(f)[j]]
  {
    var a := Argsort(f, |f|);
    ArgsortCount(f, |f|);
    ReverseMultiset(a);
    forall i, j | 0 <= i < j < |f|
      ensures f[FitnessOrder(f)[i]] >= f[FitnessOrder(f)[j]]
    {
      ReversedPair(f, a, i, j);
    }
  }

  lemma ReversedPair(f: seq<real>, a: seq<nat>, i: nat, j: nat)
    requires AscendingBy(f, a) && i < j < |a|
    ensures Reverse(a)[i] < |f| && Reverse(a)[j] < |f|
    ensures f[Reverse(a)[i]] >= f[Reverse(a)[j]]
  {
    var p, q := |a| - 1 - j, |a| - 1 - i;
    var r := Reverse(a);
    assert r[i] == a[q] && r[j] == a[p];
    assert f[a[p]] <= f[a[q]] by {
      AscendingAllPairs(f, a, p, q);
    }
  }

  lemma {:induction false} ReverseMultiset<T>(s: seq<T>)
    ensures multiset(Reverse(s)) == multiset(s)
  {
    if s != [] {
      ReverseMultiset(s[1..]);
      assert s == [s[0]] + s[1..];
    }
  }

  /** After a valid reply, avatar `i` is the old avatar at the `i`th index of an order that names every index once, most fit first. */
  lemma FitnessReorders<T>(avatars: seq<T>, f: seq<real>)
    requires |f| == |avatars|
    ensures EvaluateFitness(avatars, Fitness(f)).Ok?
    ensures multiset(FitnessOrder(f)) == multiset(Range(|avatars|))
    ensures forall i :: 0 <= i < |avatars| ==>
      EvaluateFitness(avatars, Fitness(f)).value[i] == avatars[FitnessOrder(f)[i]]
    ensures forall i, j :: 0 <= i < j < |avatars| ==>
      f[FitnessOrder(f)[i]] >= f[FitnessOrder(f)[j]]
  {
    OrderIsPermutation(f);
    var o := FitnessOrder(f);
  }
}
