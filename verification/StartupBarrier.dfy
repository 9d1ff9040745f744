/** The start-up barrier of utils/RedisUtils.cpp as interleaved steps of processes over a
    shared Redis set, a shared key and a publish/subscribe channel. One step is one command. */
module StartupBarrier {

  type Process = nat

  datatype Config = Config(procs: set<Process>, name: map<Process, string>)
  {
    predicate Valid() {
      name.Keys == procs
    }

    ghost predicate DistinctNames()
      requires Valid()
    {
      forall p, q :: p in procs && q in procs && p != q ==> name[p] != name[q]
    }
  }

  /** Where a process is: what its last command was. */
  datatype Place =
    | Started
    | Registered                // AddThisProcessToSyncCounter
    | FoundMember               // sismember answered 1
    | Removed                   // srem
    | Counted(count: nat)       // scard
    | SetRunning                // set sim_running true
    | Subscribed                // waiting in consume()
    | Returned(code: int)
  {
    /** Has removed itself from the set. */
    predicate Past() {
      Removed? || Counted? || SetRunning? || Subscribed? || Returned?
    }
  }

  datatype State = State(members: set<string>, running: bool, place: map<Process, Place>, delivered: set<Process>)

  function Initial(cfg: Config): State {
    State({}, false, map p | p in cfg.procs :: Started, {})
  }

  predicate WellFormed(cfg: Config, s: State) {
    cfg.Valid() && s.place.Keys == cfg.procs
  }

  /** A subscriber that has no message yet is blocked; a process that has returned is done. */
  predicate Enabled(cfg: Config, s: State, p: Process)
    requires WellFormed(cfg, s)
  {
    p in cfg.procs && !s.place[p].Returned? && (s.place[p].Subscribed? ==> p in s.delivered)
  }

  function Move(s: State, p: Process, to: Place): State {
    s.(place := s.place[p := to])
  }

  /** The next command of p. A process that cannot move lets the schedule pass it by. */
  function After(cfg: Config, s: State, p: Process): (s': State)
    requires WellFormed(cfg, s)
    ensures WellFormed(cfg, s')
  {
    if !Enabled(cfg, s, p) then s
    else match s.place[p]
      case Started => Move(s.(members := s.members + {cfg.name[p]}), p, Registered)
      case Registered => Move(s, p, if cfg.name[p] in s.members then FoundMember else Returned(1))
      case FoundMember => Move(s.(members := s.members - {cfg.name[p]}), p, Removed)
      case Removed => Move(s, p, Counted(|s.members|))
      case Counted(n) =>
        if n == 0 then Move(s.(running := true), p, SetRunning) else Move(s, p, Subscribed)
      case SetRunning =>
        // the message reaches those subscribed at this moment
        Move(s.(delivered := s.delivered + set q | q in s.place.Keys && s.place[q].Subscribed?), p, Returned(0))
      case Subscribed => Move(s, p, Returned(0))
  }

  function Exec(cfg: Config, s: State, schedule: seq<Process>): (s': State)
    requires WellFormed(cfg, s)
    ensures WellFormed(cfg, s')
    decreases |schedule|
  {
    if |schedule| == 0 then s
    else After(cfg, Exec(cfg, s, schedule[..|schedule| - 1]), schedule[|schedule| - 1])
  }

  // ----- The assumption and the promise

  /** Everyone has registered by the time anyone has removed itself. */
  predicate Orderly(s: State) {
    (exists p :: p in s.place && s.place[p].Past()) ==> forall q :: q in s.place ==> !s.place[q].Started?
  }

  ghost predicate OrderlyRun(cfg: Config, schedule: seq<Process>)
    requires cfg.Valid()
  {
    forall k :: 0 <= k <= |schedule| ==> Orderly(Exec(cfg, Initial(cfg), schedule[..k]))
  }

  predicate AllPast(s: State) {
    forall q :: q in s.place ==> s.place[q].Past()
  }

  /** Nobody is let through before every process has removed itself. */
  predicate Safe(s: State) {
    (exists p :: p in s.place && s.place[p] == Returned(0)) ==> AllPast(s)
  }

  // ----- The invariant

  /** p is on its way to report, or has reported, an empty set. */
  predicate SawZero(place: Place) {
    place == Counted(0) || place.SetRunning?
  }

  predicate Opened(s: State) {
    s.running || s.delivered != {} || exists p :: p in s.place && (SawZero(s.place[p]) || s.place[p].Returned?)
  }

  /** The set holds exactly the names of those registered and not yet removed. */
  ghost predicate MembersInv(cfg: Config, s: State)
    requires WellFormed(cfg, s)
  {
    && (forall p :: p in cfg.procs ==>
         (cfg.name[p] in s.members <==> s.place[p].Registered? || s.place[p].FoundMember?))
    && (forall x :: x in s.members ==> exists p :: p in cfg.procs && cfg.name[p] == x)
  }

  predicate ReturnsInv(s: State) {
    forall p :: p in s.place ==>
      (s.place[p].Returned? ==> s.place[p] == Returned(0)) && (s.place[p].SetRunning? ==> s.running)
  }

  /** Somebody set sim_running, and is still about or has gone through. */
  predicate RunningInv(s: State) {
    s.running ==> exists p :: p in s.place && (s.place[p].SetRunning? || s.place[p].Returned?)
  }

  /** Once everyone has removed itself, the barrier is open or somebody is about to open it. */
  predicate WitnessInv(s: State) {
    AllPast(s) && s.place.Keys != {} ==>
      s.running || exists p :: p in s.place && (s.place[p].Removed? || SawZero(s.place[p]))
  }

  ghost predicate Inv(cfg: Config, s: State) {
    && WellFormed(cfg, s)
    && MembersInv(cfg, s)
    && ReturnsInv(s)
    && RunningInv(s)
    && (Opened(s) ==> AllPast(s))
    && WitnessInv(s)
  }

  /** When everyone has removed itself the set is empty. */
  lemma AllPastEmpties(cfg: Config, s: State)
    requires Inv(cfg, s) && AllPast(s)
    ensures s.members == {}
  {
  }

  lemma EmptyMeansAllPast(cfg: Config, s: State, p: Process)
    requires Inv(cfg, s) && Orderly(s)
    requires p in cfg.procs && s.place[p].Past() && s.members == {}
    ensures AllPast(s)
  {
  }

  lemma OnlyOneMoves(cfg: Config, s: State, p: Process)
    requires WellFormed(cfg, s)
    ensures forall q :: q in cfg.procs && q != p ==> After(cfg, s, p).place[q] == s.place[q]
    ensures Enabled(cfg, s, p) && s.place[p].Past() ==> After(cfg, s, p).place[p].Past()
    ensures p in cfg.procs && !s.place[p].Past() ==>
      After(cfg, s, p).running == s.running && After(cfg, s, p).delivered == s.delivered
  {
  }

  lemma MembersStep(cfg: Config, s: State, p: Process)
    requires WellFormed(cfg, s) && cfg.DistinctNames() && MembersInv(cfg, s)
    ensures MembersInv(cfg, After(cfg, s, p))
  {
    OnlyOneMoves(cfg, s, p);
    if p in cfg.procs {
      assert cfg.name[p] in s.members <==> s.place[p].Registered? || s.place[p].FoundMember?;
    }
  }

  lemma ReturnsStep(cfg: Config, s: State, p: Process)
    requires WellFormed(cfg, s) && MembersInv(cfg, s) && ReturnsInv(s)
    ensures ReturnsInv(After(cfg, s, p))
  {
    OnlyOneMoves(cfg, s, p);
  }

  lemma RunningStep(cfg: Config, s: State, p: Process)
    requires WellFormed(cfg, s) && RunningInv(s)
    ensures RunningInv(After(cfg, s, p))
  {
    OnlyOneMoves(cfg, s, p);
    var s' := After(cfg, s, p);
    if s.running {
      var q :| q in s.place && (s.place[q].SetRunning? || s.place[q].Returned?);
      assert s'.place[q].SetRunning? || s'.place[q].Returned?;
    } else if s'.running {
      assert s'.place[p].SetRunning?;
    }
  }

  lemma AllPastStep(cfg: Config, s: State, p: Process)
    requires WellFormed(cfg, s)
    ensures AllPast(s) ==> AllPast(After(cfg, s, p))
    ensures p in cfg.procs && s.place[p].Past() ==> (AllPast(After(cfg, s, p)) <==> AllPast(s))
  {
    OnlyOneMoves(cfg, s, p);
  }

  /** Only a process that counts zero can open a closed barrier. */
  lemma OpenedStep(cfg: Config, s: State, p: Process)
    requires WellFormed(cfg, s) && MembersInv(cfg, s) && ReturnsInv(s)
    requires Opened(After(cfg, s, p)) && !Opened(s)
    ensures p in cfg.procs && s.place[p].Removed? && s.members == {}
  {
    OnlyOneMoves(cfg, s, p);
  }

  lemma WitnessStep(cfg: Config, s: State, p: Process)
    requires Inv(cfg, s)
    ensures WitnessInv(After(cfg, s, p))
  {
    OnlyOneMoves(cfg, s, p);
    AllPastStep(cfg, s, p);
    var s' := After(cfg, s, p);
    if AllPast(s') && cfg.procs != {} && !s'.running && Enabled(cfg, s, p) {
      if AllPast(s) {
        AllPastEmpties(cfg, s);
        var q :| q in cfg.procs && (s.place[q].Removed? || SawZero(s.place[q]));
        assert s'.place[q].Removed? || SawZero(s'.place[q]);
      } else {
        assert s'.place[p].Removed?;
      }
    }
  }

  lemma {:induction false} InvStep(cfg: Config, s: State, p: Process)
    requires cfg.Valid() && cfg.DistinctNames()
    requires Inv(cfg, s) && Orderly(s)
    ensures Inv(cfg, After(cfg, s, p))
  {
    hide MembersInv, ReturnsInv, RunningInv, WitnessInv, After, Orderly, AllPast, Opened;
    MembersStep(cfg, s, p);
    ReturnsStep(cfg, s, p);
    RunningStep(cfg, s, p);
    WitnessStep(cfg, s, p);
    AllPastStep(cfg, s, p);
    if Opened(After(cfg, s, p)) && !Opened(s) {
      OpenedStep(cfg, s, p);
      EmptyMeansAllPast(cfg, s, p);
    }
  }

  lemma {:induction false} InvRun(cfg: Config, schedule: seq<Process>)
    requires cfg.Valid() && cfg.DistinctNames() && OrderlyRun(cfg, schedule)
    ensures Inv(cfg, Exec(cfg, Initial(cfg), schedule))
    decreases |schedule|
  {
    if |schedule| > 0 {
      var front := schedule[..|schedule| - 1];
      forall k | 0 <= k <= |front| ensures Orderly(Exec(cfg, Initial(cfg), front[..k])) {
        assert front[..k] == schedule[..k];
      }
      InvRun(cfg, front);
      InvStep(cfg, Exec(cfg, Initial(cfg), front), schedule[|schedule| - 1]);
    }
  }

  // ----- Main results

  /** In every interleaving: nobody returns 0 before all have removed themselves, nobody is
      refused, and the simulation is marked running only while the set is empty. */
  lemma {:induction false} BarrierIsSafe(cfg: Config, schedule: seq<Process>)
    requires cfg.Valid() && cfg.DistinctNames() && OrderlyRun(cfg, schedule)
    ensures var s := Exec(cfg, Initial(cfg), schedule);
      && Safe(s)
      && (s.running ==> s.members == {})
      && (forall p :: p in cfg.procs && s.place[p].Returned? ==> s.place[p] == Returned(0))
  {
    InvRun(cfg, schedule);
    var s := Exec(cfg, Initial(cfg), schedule);
    if s.running {
      AllPastEmpties(cfg, s);
    }
  }

  /** The state after the first k commands. */
  function StateAt(cfg: Config, schedule: seq<Process>, k: nat): (s: State)
    requires cfg.Valid() && k <= |schedule|
    ensures WellFormed(cfg, s)
  {
    Exec(cfg, Initial(cfg), schedule[..k])
  }

  /** p has the answer to its scard. */
  predicate HasCounted(place: Place) {
    place.Counted? || place.SetRunning? || place.Subscribed? || place.Returned?
  }

  /** Some process was told at some moment that the set was empty. */
  ghost predicate ZeroWasSeen(cfg: Config, schedule: seq<Process>)
    requires cfg.Valid()
  {
    exists k, p :: 0 <= k <= |schedule| && p in cfg.procs && StateAt(cfg, schedule, k).place[p] == Counted(0)
  }

  lemma ZeroStaysSeen(cfg: Config, schedule: seq<Process>, m: nat)
    requires cfg.Valid() && m <= |schedule|
    requires ZeroWasSeen(cfg, schedule[..m])
    ensures ZeroWasSeen(cfg, schedule)
  {
    hide Exec;
    var front := schedule[..m];
    var k, p :| 0 <= k <= |front| && p in cfg.procs && StateAt(cfg, front, k).place[p] == Counted(0);
    assert front[..k] == schedule[..k];
    assert StateAt(cfg, schedule, k).place[p] == Counted(0);
  }

  /** Only a process that was told zero marks the simulation running. */
  lemma {:induction false} RunningMeansZeroSeen(cfg: Config, schedule: seq<Process>)
    requires cfg.Valid()
    requires Exec(cfg, Initial(cfg), schedule).running
    ensures ZeroWasSeen(cfg, schedule)
    decreases |schedule|
  {
    hide ZeroWasSeen;
    if |schedule| > 0 {
      var m := |schedule| - 1;
      var s, p := Exec(cfg, Initial(cfg), schedule[..m]), schedule[m];
      if s.running {
        RunningMeansZeroSeen(cfg, schedule[..m]);
        ZeroStaysSeen(cfg, schedule, m);
      } else {
        assert s.place[p] == Counted(0);
        ZeroSeenAt(cfg, schedule, m, p);
      }
    }
  }

  lemma ZeroSeenAt(cfg: Config, schedule: seq<Process>, k: nat, p: Process)
    requires cfg.Valid() && k <= |schedule| && p in cfg.procs
    requires StateAt(cfg, schedule, k).place[p] == Counted(0)
    ensures ZeroWasSeen(cfg, schedule)
  {
  }

  /** Once every process has its count, at least one of them was told zero. */
  lemma {:induction false} SomebodyCountsZero(cfg: Config, schedule: seq<Process>)
    requires cfg.Valid() && cfg.DistinctNames() && OrderlyRun(cfg, schedule) && cfg.procs != {}
    requires forall p :: p in cfg.procs ==> HasCounted(Exec(cfg, Initial(cfg), schedule).place[p])
    ensures ZeroWasSeen(cfg, schedule)
  {
    hide ZeroWasSeen, Exec;
    var s := Exec(cfg, Initial(cfg), schedule);
    InvRun(cfg, schedule);
    if s.running {
      RunningMeansZeroSeen(cfg, schedule);
    } else {
      var p :| p in s.place && (s.place[p].Removed? || SawZero(s.place[p]));
      assert s.place[p] == Counted(0);
      assert schedule[..|schedule|] == schedule;
      ZeroSeenAt(cfg, schedule, |schedule|, p);
    }
  }

  predicate Quiescent(cfg: Config, s: State)
    requires WellFormed(cfg, s)
  {
    forall p :: p in cfg.procs ==> !Enabled(cfg, s, p)
  }

  /** When nothing more can happen, the simulation is running, somebody came through, and
      whoever did not is a subscriber the message missed. */
  lemma {:induction false} BarrierEndsOpen(cfg: Config, schedule: seq<Process>)
    requires cfg.Valid() && cfg.DistinctNames() && OrderlyRun(cfg, schedule) && cfg.procs != {}
    requires Quiescent(cfg, Exec(cfg, Initial(cfg), schedule))
    ensures var s := Exec(cfg, Initial(cfg), schedule);
      && s.running && s.members == {}
      && (exists p :: p in cfg.procs && s.place[p] == Returned(0))
      && (forall p :: p in cfg.procs ==>
           s.place[p] == Returned(0) || (s.place[p].Subscribed? && p !in s.delivered))
  {
    var s := Exec(cfg, Initial(cfg), schedule);
    InvRun(cfg, schedule);
    assert forall p :: p in cfg.procs ==> s.place[p].Returned? || s.place[p].Subscribed?;
    AllPastEmpties(cfg, s);
  }

  // ----- Every run comes to an end

  /** How many commands a process has still to give, at most. */
  function Rank(place: Place): nat {
    match place
    case Started => 6
    case Registered => 5
    case FoundMember => 4
    case Removed => 3
    case Counted(_) => 2
    case SetRunning => 1
    case Subscribed => 1
    case Returned(_) => 0
  }

  ghost function Left(s: State, some: set<Process>): nat
    requires some <= s.place.Keys
    decreases some
  {
    if some == {} then 0
    else var p :| p in some; Rank(s.place[p]) + Left(s, some - {p})
  }

  lemma {:induction false} LeftWithout(s: State, some: set<Process>, p: Process)
    requires p in some && some <= s.place.Keys
    ensures Left(s, some) == Rank(s.place[p]) + Left(s, some - {p})
    decreases some
  {
    hide Rank;
    var q :| q in some && Left(s, some) == Rank(s.place[q]) + Left(s, some - {q});
    if q != p {
      LeftWithout(s, some - {q}, p);
      LeftWithout(s, some - {p}, q);
      assert some - {q} - {p} == some - {p} - {q};
    }
  }

  lemma {:induction false} LeftElsewhere(s: State, s': State, some: set<Process>)
    requires some <= s.place.Keys && some <= s'.place.Keys
    requires forall p :: p in some ==> s.place[p] == s'.place[p]
    ensures Left(s, some) == Left(s', some)
    decreases some
  {
    hide Rank;
    if some != {} {
      var p :| p in some;
      LeftWithout(s, some, p);
      LeftWithout(s', some, p);
      LeftElsewhere(s, s', some - {p});
    }
  }

  lemma {:induction false} LeftAtMost(s: State, some: set<Process>)
    requires some <= s.place.Keys
    ensures Left(s, some) <= 6 * |some|
    decreases some
  {
    if some != {} {
      var p :| p in some;
      LeftWithout(s, some, p);
      LeftAtMost(s, some - {p});
    }
  }

  /** Whoever can give a command has one fewer to give after it. */
  lemma RankStep(cfg: Config, s: State, p: Process)
    requires WellFormed(cfg, s) && Enabled(cfg, s, p)
    ensures Rank(After(cfg, s, p).place[p]) < Rank(s.place[p])
    ensures Left(After(cfg, s, p), cfg.procs) < Left(s, cfg.procs)
  {
    OnlyOneMoves(cfg, s, p);
    var s' := After(cfg, s, p);
    LeftWithout(s, cfg.procs, p);
    LeftWithout(s', cfg.procs, p);
    LeftElsewhere(s, s', cfg.procs - {p});
  }

  /** Nobody is scheduled in vain. */
  ghost predicate AllEnabled(cfg: Config, schedule: seq<Process>)
    requires cfg.Valid()
  {
    forall k :: 0 <= k < |schedule| ==> Enabled(cfg, StateAt(cfg, schedule, k), schedule[k])
  }

  lemma AllEnabledFront(cfg: Config, schedule: seq<Process>)
    requires cfg.Valid() && AllEnabled(cfg, schedule) && |schedule| > 0
    ensures var m := |schedule| - 1;
      AllEnabled(cfg, schedule[..m]) && Enabled(cfg, Exec(cfg, Initial(cfg), schedule[..m]), schedule[m])
  {
    hide Enabled, Exec;
    var m := |schedule| - 1;
    var front := schedule[..m];
    forall k | 0 <= k < m ensures Enabled(cfg, StateAt(cfg, front, k), front[k]) {
      assert front[..k] == schedule[..k];
      assert Enabled(cfg, StateAt(cfg, schedule, k), schedule[k]);
    }
    assert Enabled(cfg, StateAt(cfg, schedule, m), schedule[m]);
  }

  lemma {:induction false} LeftAlong(cfg: Config, schedule: seq<Process>)
    requires cfg.Valid() && AllEnabled(cfg, schedule)
    ensures Left(Exec(cfg, Initial(cfg), schedule), cfg.procs) + |schedule| <= 6 * |cfg.procs|
    decreases |schedule|
  {
    hide Left, Enabled, After, AllEnabled;
    if |schedule| == 0 {
      LeftAtMost(Initial(cfg), cfg.procs);
    } else {
      var m := |schedule| - 1;
      AllEnabledFront(cfg, schedule);
      LeftAlong(cfg, schedule[..m]);
      RankStep(cfg, Exec(cfg, Initial(cfg), schedule[..m]), schedule[m]);
    }
  }

  /** Without any fairness: no run has more than six commands for each process. */
  lemma EveryRunEnds(cfg: Config, schedule: seq<Process>)
    requires cfg.Valid() && AllEnabled(cfg, schedule)
    ensures |schedule| <= 6 * |cfg.procs|
  {
    LeftAlong(cfg, schedule);
  }

  lemma OrderlySnoc(cfg: Config, schedule: seq<Process>, p: Process)
    requires cfg.Valid() && OrderlyRun(cfg, schedule)
    requires Orderly(After(cfg, Exec(cfg, Initial(cfg), schedule), p))
    ensures OrderlyRun(cfg, schedule + [p])
  {
    hide After, Orderly;
    var longer := schedule + [p];
    assert longer[..|schedule|] == schedule;
    assert longer[..|longer|] == longer;
    forall k | 0 <= k <= |longer| ensures Orderly(Exec(cfg, Initial(cfg), longer[..k])) {
      if k <= |schedule| {
        assert longer[..k] == schedule[..k];
      }
    }
  }

  /** Somebody who can move, and who has not registered if anybody has not: letting those go
      first never breaks the order. */
  lemma SomebodyMoves(cfg: Config, s: State) returns (p: Process)
    requires WellFormed(cfg, s) && !Quiescent(cfg, s)
    ensures Enabled(cfg, s, p)
    ensures Orderly(s) ==> Orderly(After(cfg, s, p))
  {
    if q :| q in cfg.procs && s.place[q].Started? {
      p := q;
    } else {
      p :| p in cfg.procs && Enabled(cfg, s, p);
    }
    OnlyOneMoves(cfg, s, p);
  }

  /** Every run can be carried on to an end, and an orderly one in order. */
  lemma {:induction false} CanFinish(cfg: Config, schedule: seq<Process>) returns (rest: seq<Process>)
    requires cfg.Valid()
    ensures |rest| <= Left(Exec(cfg, Initial(cfg), schedule), cfg.procs) <= 6 * |cfg.procs|
    ensures Quiescent(cfg, Exec(cfg, Initial(cfg), schedule + rest))
    ensures OrderlyRun(cfg, schedule) ==> OrderlyRun(cfg, schedule + rest)
    decreases Left(Exec(cfg, Initial(cfg), schedule), cfg.procs)
  {
    hide Left, OrderlyRun, Orderly, After, Quiescent, Enabled;
    var s := Exec(cfg, Initial(cfg), schedule);
    LeftAtMost(s, cfg.procs);
    if Quiescent(cfg, s) {
      rest := [];
      assert schedule + rest == schedule;
    } else {
      var p := SomebodyMoves(cfg, s);
      RankStep(cfg, s, p);
      assert (schedule + [p])[..|schedule|] == schedule;
      if OrderlyRun(cfg, schedule) {
        OrderlyNow(cfg, schedule);
        OrderlySnoc(cfg, schedule, p);
      }
      var more := CanFinish(cfg, schedule + [p]);
      rest := [p] + more;
      assert schedule + rest == schedule + [p] + more;
    }
  }

  lemma OrderlyNow(cfg: Config, schedule: seq<Process>)
    requires cfg.Valid() && OrderlyRun(cfg, schedule)
    ensures Orderly(Exec(cfg, Initial(cfg), schedule))
  {
    assert schedule[..|schedule|] == schedule;
  }

  /** So the barrier does open: every orderly run can be carried on until the simulation runs
      and somebody has come through. */
  lemma {:induction false} CanOpen(cfg: Config, schedule: seq<Process>) returns (rest: seq<Process>)
    requires cfg.Valid() && cfg.DistinctNames() && OrderlyRun(cfg, schedule) && cfg.procs != {}
    ensures |rest| <= 6 * |cfg.procs| && OrderlyRun(cfg, schedule + rest)
    ensures var s := Exec(cfg, Initial(cfg), schedule + rest);
      s.running && s.members == {} && exists p :: p in cfg.procs && s.place[p] == Returned(0)
  {
    hide OrderlyRun, Exec, Quiescent, Left;
    rest := CanFinish(cfg, schedule);
    BarrierEndsOpen(cfg, schedule + rest);
  }

  // ----- Who gets through, and who is refused

  datatype Event =
    | LetThrough(p: Process)
    | Refused(p: Process)
  {
    /** The command of `who` in state s lets p through when p itself has counted zero, or when
        `who` publishes while p is subscribed; it refuses p when p does not find itself in the
        set. */
    predicate Happens(cfg: Config, s: State, who: Process)
      requires WellFormed(cfg, s) && p in cfg.procs
    {
      match this
      case LetThrough(_) =>
        || (who == p && s.place[p] == Counted(0))
        || (s.place[p].Subscribed? && who in cfg.procs && s.place[who].SetRunning?)
      case Refused(_) => who == p && s.place[p].Registered? && cfg.name[p] !in s.members
    }
  }

  ghost predicate Happened(cfg: Config, schedule: seq<Process>, e: Event)
    requires cfg.Valid() && e.p in cfg.procs
  {
    exists k :: 0 <= k < |schedule| && e.Happens(cfg, StateAt(cfg, schedule, k), schedule[k])
  }

  lemma HappenedSnoc(cfg: Config, schedule: seq<Process>, e: Event)
    requires cfg.Valid() && e.p in cfg.procs && |schedule| > 0
    ensures var m := |schedule| - 1;
      Happened(cfg, schedule, e)
      <==> Happened(cfg, schedule[..m], e) || e.Happens(cfg, StateAt(cfg, schedule, m), schedule[m])
  {
    hide Event.Happens, Exec;
    var m := |schedule| - 1;
    var front := schedule[..m];
    forall k | 0 <= k < m ensures StateAt(cfg, front, k) == StateAt(cfg, schedule, k) {
      assert front[..k] == schedule[..k];
    }
    if Happened(cfg, front, e) {
      var k :| 0 <= k < |front| && e.Happens(cfg, StateAt(cfg, front, k), front[k]);
      assert e.Happens(cfg, StateAt(cfg, schedule, k), schedule[k]);
    }
    if Happened(cfg, schedule, e) {
      var k :| 0 <= k < |schedule| && e.Happens(cfg, StateAt(cfg, schedule, k), schedule[k]);
      if k < m {
        assert e.Happens(cfg, StateAt(cfg, front, k), front[k]);
      }
    }
  }

  lemma NothingYet(cfg: Config, e: Event)
    requires cfg.Valid() && e.p in cfg.procs
    ensures !Happened(cfg, [], e)
  {
  }

  /** On its way out, or out. */
  predicate GoingThrough(s: State, p: Process)
    requires p in s.place
  {
    s.place[p].SetRunning? || s.place[p] == Returned(0) || (s.place[p].Subscribed? && p in s.delivered)
  }

  lemma GoingThroughStep(cfg: Config, s: State, who: Process, p: Process)
    requires WellFormed(cfg, s) && p in cfg.procs
    requires p in s.delivered ==> s.place[p].Subscribed? || s.place[p] == Returned(0)
    ensures var s' := After(cfg, s, who);
      && (GoingThrough(s', p) <==> GoingThrough(s, p) || LetThrough(p).Happens(cfg, s, who))
      && (p in s'.delivered ==> s'.place[p].Subscribed? || s'.place[p] == Returned(0))
      && (s'.place[p] == Returned(1) <==> s.place[p] == Returned(1) || Refused(p).Happens(cfg, s, who))
  {
    OnlyOneMoves(cfg, s, who);
  }

  lemma {:induction false} GoingThroughExactly(cfg: Config, schedule: seq<Process>, p: Process)
    requires cfg.Valid() && p in cfg.procs
    ensures var s := Exec(cfg, Initial(cfg), schedule);
      && (GoingThrough(s, p) <==> Happened(cfg, schedule, LetThrough(p)))
      && (p in s.delivered ==> s.place[p].Subscribed? || s.place[p] == Returned(0))
      && (s.place[p] == Returned(1) <==> Happened(cfg, schedule, Refused(p)))
    decreases |schedule|
  {
    hide After, Happened, Event.Happens;
    if |schedule| == 0 {
      NothingYet(cfg, LetThrough(p));
      NothingYet(cfg, Refused(p));
    } else {
      var m := |schedule| - 1;
      GoingThroughExactly(cfg, schedule[..m], p);
      GoingThroughStep(cfg, Exec(cfg, Initial(cfg), schedule[..m]), schedule[m], p);
      HappenedSnoc(cfg, schedule, LetThrough(p));
      HappenedSnoc(cfg, schedule, Refused(p));
    }
  }

  /** In any run at all, whatever the names and the order: once nothing more can happen, p has
      returned 0 exactly when it counted zero itself or was subscribed at the moment of a
      publication. */
  lemma {:induction false} ThroughExactly(cfg: Config, schedule: seq<Process>, p: Process)
    requires cfg.Valid() && p in cfg.procs
    requires Quiescent(cfg, Exec(cfg, Initial(cfg), schedule))
    ensures Exec(cfg, Initial(cfg), schedule).place[p] == Returned(0)
       <==> Happened(cfg, schedule, LetThrough(p))
  {
    hide Exec, Happened;
    GoingThroughExactly(cfg, schedule, p);
    assert !Enabled(cfg, Exec(cfg, Initial(cfg), schedule), p);
  }

  /** In any run, p has returned 1 exactly when it looked for itself in the set and was not
      there. */
  lemma {:induction false} RefusedExactly(cfg: Config, schedule: seq<Process>, p: Process)
    requires cfg.Valid() && p in cfg.procs
    ensures Exec(cfg, Initial(cfg), schedule).place[p] == Returned(1)
       <==> Happened(cfg, schedule, Refused(p))
  {
    hide Exec, Happened;
    GoingThroughExactly(cfg, schedule, p);
  }

  // ----- Why both assumptions are needed, and why no more is promised

  ghost predicate Reachable(cfg: Config, s: State)
    requires cfg.Valid()
  {
    exists schedule :: OrderlyRun(cfg, schedule) && Exec(cfg, Initial(cfg), schedule) == s
  }

  lemma ReachInitial(cfg: Config)
    requires cfg.Valid()
    ensures Reachable(cfg, Initial(cfg))
  {
    assert OrderlyRun(cfg, []);
    assert Exec(cfg, Initial(cfg), []) == Initial(cfg);
  }

  lemma ReachStep(cfg: Config, s: State, p: Process) returns (s': State)
    requires cfg.Valid() && Reachable(cfg, s) && WellFormed(cfg, s)
    requires Orderly(After(cfg, s, p))
    ensures s' == After(cfg, s, p) && Reachable(cfg, s')
  {
    hide After, Orderly, OrderlyRun;
    s' := After(cfg, s, p);
    var schedule :| OrderlyRun(cfg, schedule) && Exec(cfg, Initial(cfg), schedule) == s;
    OrderlySnoc(cfg, schedule, p);
    assert (schedule + [p])[..|schedule|] == schedule;
    assert Exec(cfg, Initial(cfg), schedule + [p]) == s';
  }

  predicate NobodyStarted(s: State) {
    forall q :: q in s.place ==> !s.place[q].Started?
  }

  ghost predicate SafeAlways(cfg: Config)
    requires cfg.Valid()
  {
    forall schedule :: OrderlyRun(cfg, schedule) ==> Safe(Exec(cfg, Initial(cfg), schedule))
  }

  /** What each command does, with everyone registered; no such step is out of order. */
  lemma Proceed(cfg: Config, s: State, p: Process) returns (s': State)
    requires cfg.Valid() && Reachable(cfg, s) && WellFormed(cfg, s) && NobodyStarted(s) && p in cfg.procs
    ensures Reachable(cfg, s') && WellFormed(cfg, s') && NobodyStarted(s')
    ensures forall r :: r in cfg.procs && r != p ==> s'.place[r] == s.place[r]
    ensures s.place[p].Registered? ==>
      s'.members == s.members && s'.place[p] == if cfg.name[p] in s.members then FoundMember else Returned(1)
    ensures s.place[p].FoundMember? ==> s'.members == s.members - {cfg.name[p]} && s'.place[p] == Removed
    ensures s.place[p].Removed? ==> s'.members == s.members && s'.place[p] == Counted(|s.members|)
    ensures s.place[p].Counted? ==>
      s'.members == s.members && s'.place[p] == if s.place[p].count == 0 then SetRunning else Subscribed
    ensures s.place[p] == Counted(0) ==> s'.running
    ensures s.place[p].SetRunning? ==>
      s'.members == s.members && s'.place[p] == Returned(0) &&
      s'.delivered == s.delivered + set q | q in s.place.Keys && s.place[q].Subscribed?
    ensures s.place[p].Returned? ==> s' == s
    ensures !s.place[p].SetRunning? ==> s'.delivered == s.delivered
    ensures s.running ==> s'.running
  {
    OnlyOneMoves(cfg, s, p);
    s' := After(cfg, s, p);
    assert NobodyStarted(s') && Orderly(s');
    s' := ReachStep(cfg, s, p);
  }

  function Names(cfg: Config, todo: set<Process>): set<string>
    requires cfg.Valid() && todo <= cfg.procs
  {
    set r | r in todo :: cfg.name[r]
  }

  lemma NamesWithout(cfg: Config, todo: set<Process>, r: Process)
    requires cfg.Valid() && cfg.DistinctNames() && r in todo && todo <= cfg.procs
    ensures cfg.name[r] in Names(cfg, todo)
    ensures Names(cfg, todo) - {cfg.name[r]} == Names(cfg, todo - {r})
  {
    forall x | x in Names(cfg, todo) && x != cfg.name[r] ensures x in Names(cfg, todo - {r}) {
      var q :| q in todo && cfg.name[q] == x;
      assert q in todo - {r};
    }
  }

  lemma NamesWith(cfg: Config, some: set<Process>, r: Process)
    requires cfg.Valid() && some <= cfg.procs && r in cfg.procs
    ensures Names(cfg, some) + {cfg.name[r]} == Names(cfg, some + {r})
  {
    forall x | x in Names(cfg, some + {r}) && x != cfg.name[r] ensures x in Names(cfg, some) {
      var q :| q in some + {r} && cfg.name[q] == x;
      assert q in some;
    }
  }

  predicate RegisteredBut(cfg: Config, s: State, todo: set<Process>)
    requires WellFormed(cfg, s) && todo <= cfg.procs
  {
    && (forall p :: p in cfg.procs ==> s.place[p] == if p in todo then Started else Registered)
    && s.members == Names(cfg, cfg.procs - todo)
  }

  lemma RegisterOne(cfg: Config, s: State, p: Process, todo: set<Process>)
    requires WellFormed(cfg, s) && p in todo && todo <= cfg.procs && RegisteredBut(cfg, s, todo)
    ensures var s' := After(cfg, s, p);
      RegisteredBut(cfg, s', todo - {p}) && s'.delivered == s.delivered && Orderly(s')
  {
    hide Names;
    OnlyOneMoves(cfg, s, p);
    NamesWith(cfg, cfg.procs - todo, p);
    assert cfg.procs - (todo - {p}) == cfg.procs - todo + {p};
  }

  lemma {:induction false} RegisterRest(cfg: Config, s: State, todo: set<Process>) returns (s': State)
    requires cfg.Valid() && Reachable(cfg, s) && WellFormed(cfg, s) && todo <= cfg.procs
    requires RegisteredBut(cfg, s, todo)
    ensures Reachable(cfg, s') && WellFormed(cfg, s')
    ensures RegisteredBut(cfg, s', {}) && s'.delivered == s.delivered
    decreases todo
  {
    hide RegisteredBut, Reachable, After, Orderly;
    if todo == {} {
      s' := s;
    } else {
      var p :| p in todo;
      RegisterOne(cfg, s, p, todo);
      var t := ReachStep(cfg, s, p);
      s' := RegisterRest(cfg, t, todo - {p});
    }
  }

  lemma AllRegister(cfg: Config) returns (s: State)
    requires cfg.Valid()
    ensures Reachable(cfg, s) && WellFormed(cfg, s) && NobodyStarted(s)
    ensures forall r :: r in cfg.procs ==> s.place[r] == Registered
    ensures s.members == Names(cfg, cfg.procs) && s.delivered == {}
  {
    hide Reachable, After, Orderly;
    ReachInitial(cfg);
    assert cfg.procs - {} == cfg.procs;
    s := RegisterRest(cfg, Initial(cfg), cfg.procs);
  }

  /** Everyone but p and q removes itself, or finds its name already gone. */
  lemma {:induction false} RemoveOthers(cfg: Config, s: State, p: Process, q: Process, todo: set<Process>)
    returns (s': State)
    requires cfg.Valid() && Reachable(cfg, s) && WellFormed(cfg, s) && NobodyStarted(s)
    requires p in cfg.procs && q in cfg.procs && p != q && todo <= cfg.procs - {p, q}
    requires s.place[p] == FoundMember && s.place[q] == Registered
    requires forall r :: r in todo ==> s.place[r] == Registered
    requires s.members <= Names(cfg, todo + {p})
    requires forall r :: r in cfg.procs ==> !s.place[r].Subscribed?
    ensures Reachable(cfg, s') && WellFormed(cfg, s') && NobodyStarted(s')
    ensures forall r :: r in cfg.procs ==> !s'.place[r].Subscribed?
    ensures s'.place[p] == FoundMember && s'.place[q] == Registered
    ensures s'.members <= {cfg.name[p]}
    decreases todo
  {
    if todo == {} {
      s' := s;
    } else {
      hide Reachable, After, Orderly, NobodyStarted, Names;
      var r :| r in todo;
      NamesWith(cfg, todo - {r} + {p}, r);
      assert todo + {p} == todo - {r} + {p} + {r};
      var t := Proceed(cfg, s, r);
      var u := Proceed(cfg, t, r);
      assert cfg.name[r] !in u.members && u.members <= s.members;
      s' := RemoveOthers(cfg, u, p, q, todo - {r});
    }
  }

  /** The last one out opens the barrier. */
  lemma LastOpens(cfg: Config, s: State, p: Process) returns (s': State)
    requires cfg.Valid() && Reachable(cfg, s) && WellFormed(cfg, s) && NobodyStarted(s) && p in cfg.procs
    requires s.place[p] == FoundMember && s.members <= {cfg.name[p]}
    requires forall r :: r in cfg.procs ==> !s.place[r].Subscribed?
    ensures Reachable(cfg, s') && WellFormed(cfg, s') && NobodyStarted(s') && s'.running
    ensures s'.place[p] == Returned(0) && s'.delivered == s.delivered
    ensures forall r :: r in cfg.procs && r != p ==> s'.place[r] == s.place[r]
  {
    hide Reachable, After, Orderly, NobodyStarted;
    s' := Proceed(cfg, s, p);
    assert s'.members == {};
    s' := Proceed(cfg, s', p);
    s' := Proceed(cfg, s', p);
    assert (set q | q in s'.place.Keys && s'.place[q].Subscribed?) == {};
    s' := Proceed(cfg, s', p);
  }

  lemma SharedNames(cfg: Config, p: Process, q: Process)
    requires cfg.Valid() && p in cfg.procs && q in cfg.procs && p != q && cfg.name[p] == cfg.name[q]
    ensures cfg.name[p] in Names(cfg, cfg.procs)
    ensures Names(cfg, cfg.procs) == Names(cfg, cfg.procs - {p, q} + {p})
  {
    NamesWith(cfg, cfg.procs - {p, q} + {p}, q);
    assert cfg.procs == cfg.procs - {p, q} + {p} + {q};
  }

  /** Two processes that share a name: one removes it for both. */
  lemma SharedNameIsUnsafe(cfg: Config, p: Process, q: Process)
    requires cfg.Valid() && p in cfg.procs && q in cfg.procs && p != q && cfg.name[p] == cfg.name[q]
    ensures !SafeAlways(cfg)
  {
    hide Reachable, After, Orderly, NobodyStarted, Names;
    var s := AllRegister(cfg);
    s := Proceed(cfg, s, p);
    SharedNames(cfg, p, q);
    s := RemoveOthers(cfg, s, p, q, cfg.procs - {p, q});
    s := LastOpens(cfg, s, p);
    assert s.place[p] == Returned(0) && s.place[q] == Registered;
    ReachableUnsafe(cfg, s);
  }

  lemma ReachableUnsafe(cfg: Config, s: State)
    requires cfg.Valid() && Reachable(cfg, s) && !Safe(s)
    ensures !SafeAlways(cfg)
  {
  }

  /** With registrations first, the barrier is safe exactly when the names are distinct. */
  lemma SafeExactlyWhenDistinct(cfg: Config)
    requires cfg.Valid()
    ensures SafeAlways(cfg) <==> cfg.DistinctNames()
  {
    if cfg.DistinctNames() {
      forall schedule | OrderlyRun(cfg, schedule) ensures Safe(Exec(cfg, Initial(cfg), schedule)) {
        BarrierIsSafe(cfg, schedule);
      }
    } else {
      var p, q :| p in cfg.procs && q in cfg.procs && p != q && cfg.name[p] == cfg.name[q];
      SharedNameIsUnsafe(cfg, p, q);
    }
  }

  /** How far p has come while nobody else has moved. */
  predicate AloneAt(cfg: Config, s: State, p: Process, k: nat)
    requires WellFormed(cfg, s) && p in cfg.procs
  {
    && s.place[p] == (match k
                      case 0 => Started
                      case 1 => Registered
                      case 2 => FoundMember
                      case 3 => Removed
                      case 4 => Counted(0)
                      case 5 => SetRunning
                      case _ => Returned(0))
    && s.members == (if k == 1 || k == 2 then {cfg.name[p]} else {})
    && forall r :: r in cfg.procs && r != p ==> s.place[r] == Started
  }

  function Only(p: Process, k: nat): (schedule: seq<Process>)
    ensures |schedule| == k
  {
    seq(k, i => p)
  }

  lemma {:induction false} AloneRun(cfg: Config, p: Process, k: nat)
    requires cfg.Valid() && p in cfg.procs && k <= 6
    ensures AloneAt(cfg, Exec(cfg, Initial(cfg), Only(p, k)), p, k)
    decreases k
  {
    if k > 0 {
      AloneRun(cfg, p, k - 1);
      assert Only(p, k)[..k - 1] == Only(p, k - 1);
      OnlyOneMoves(cfg, Exec(cfg, Initial(cfg), Only(p, k - 1)), p);
    }
  }

  /** Without that order one process opens the barrier alone: nobody else has even started. */
  lemma LateRegistrationIsUnsafe(cfg: Config, p: Process, q: Process)
    requires cfg.Valid() && p in cfg.procs && q in cfg.procs && p != q
    ensures var s := Exec(cfg, Initial(cfg), Only(p, 6));
      s.place[p] == Returned(0) && s.place[q] == Started && !Safe(s)
  {
    hide After, Exec;
    AloneRun(cfg, p, 6);
  }

  lemma TwoOfThem(cfg: Config) returns (p: Process, q: Process)
    requires |cfg.procs| > 1
    ensures p in cfg.procs && q in cfg.procs && p != q
  {
    p :| p in cfg.procs;
    assert cfg.procs - {p} != {} by {
      assert |cfg.procs - {p}| == |cfg.procs| - 1;
    }
    q :| q in cfg.procs - {p};
  }

  lemma OnlyOne(cfg: Config, p: Process, q: Process)
    requires |cfg.procs| <= 1 && p in cfg.procs && q in cfg.procs
    ensures p == q
  {
    var rest := cfg.procs - {p};
    assert |rest| == |cfg.procs| - 1;
    assert rest == {};
    assert q !in rest;
  }

  /** Left to itself, with no order between registrations and removals, the barrier is safe in
      all interleavings exactly when there is at most one process to wait for. */
  lemma SafeUnorderedExactly(cfg: Config)
    requires cfg.Valid()
    ensures (forall schedule :: Safe(Exec(cfg, Initial(cfg), schedule))) <==> |cfg.procs| <= 1
  {
    hide Exec;
    if |cfg.procs| <= 1 {
      forall schedule ensures Safe(Exec(cfg, Initial(cfg), schedule)) {
        var s := Exec(cfg, Initial(cfg), schedule);
        forall p, q | p in s.place && q in s.place ensures p == q {
          OnlyOne(cfg, p, q);
        }
      }
    } else {
      var p, q := TwoOfThem(cfg);
      LateRegistrationIsUnsafe(cfg, p, q);
      assert !Safe(Exec(cfg, Initial(cfg), Only(p, 6)));
    }
  }

  lemma RemovesItself(cfg: Config, s: State, r: Process) returns (s': State)
    requires cfg.Valid() && Reachable(cfg, s) && WellFormed(cfg, s) && NobodyStarted(s) && r in cfg.procs
    requires s.place[r] == Registered && cfg.name[r] in s.members
    ensures Reachable(cfg, s') && WellFormed(cfg, s') && NobodyStarted(s')
    ensures forall q :: q in cfg.procs && q != r ==> s'.place[q] == s.place[q]
    ensures s'.place[r] == Removed && s'.members == s.members - {cfg.name[r]} && s'.delivered == s.delivered
  {
    hide Reachable, After, Orderly, NobodyStarted;
    s' := Proceed(cfg, s, r);
    s' := Proceed(cfg, s', r);
  }

  /** p has counted the others and not yet subscribed; everyone in `todo` removes itself. */
  lemma {:induction false} OthersRemove(cfg: Config, s: State, p: Process, todo: set<Process>) returns (s': State)
    requires cfg.Valid() && Reachable(cfg, s) && WellFormed(cfg, s) && NobodyStarted(s)
    requires p in cfg.procs && todo <= cfg.procs - {p} && cfg.DistinctNames()
    requires s.place[p].Counted? && s.place[p].count > 0 && s.delivered == {}
    requires forall r :: r in cfg.procs - {p} ==> s.place[r] == if r in todo then Registered else Removed
    requires s.members == Names(cfg, todo)
    ensures Reachable(cfg, s') && WellFormed(cfg, s') && NobodyStarted(s')
    ensures s'.place[p] == s.place[p] && s'.members == {} && s'.delivered == {}
    ensures forall r :: r in cfg.procs - {p} ==> s'.place[r] == Removed
    decreases todo
  {
    if todo == {} {
      s' := s;
    } else {
      hide Reachable, After, Orderly, NobodyStarted, Names, Config.DistinctNames;
      var r :| r in todo;
      NamesWithout(cfg, todo, r);
      var t := RemovesItself(cfg, s, r);
      s' := OthersRemove(cfg, t, p, todo - {r});
    }
  }

  /** Then each counts zero, publishes to nobody, and returns. */
  lemma {:induction false} OthersReturn(cfg: Config, s: State, p: Process, todo: set<Process>) returns (s': State)
    requires cfg.Valid() && Reachable(cfg, s) && WellFormed(cfg, s) && NobodyStarted(s)
    requires p in cfg.procs && todo <= cfg.procs - {p}
    requires s.place[p].Counted? && s.members == {} && s.delivered == {}
    requires forall r :: r in cfg.procs - {p} ==> s.place[r] == if r in todo then Removed else Returned(0)
    ensures Reachable(cfg, s') && WellFormed(cfg, s') && NobodyStarted(s')
    ensures s'.place[p] == s.place[p] && s'.delivered == {}
    ensures forall r :: r in cfg.procs - {p} ==> s'.place[r] == Returned(0)
    ensures s.running || todo != {} ==> s'.running
    decreases todo
  {
    hide Reachable, After, Orderly, NobodyStarted;
    if todo == {} {
      s' := s;
    } else {
      var r :| r in todo;
      var t := Proceed(cfg, s, r);
      t := Proceed(cfg, t, r);
      assert (set q | q in t.place.Keys && t.place[q].Subscribed?) == {};
      t := Proceed(cfg, t, r);
      s' := OthersReturn(cfg, t, p, todo - {r});
    }
  }

  lemma CountsTheOthers(cfg: Config, p: Process, q: Process) returns (s: State)
    requires cfg.Valid() && p in cfg.procs && q in cfg.procs && p != q && cfg.DistinctNames()
    ensures Reachable(cfg, s) && WellFormed(cfg, s) && NobodyStarted(s)
    ensures s.place[p].Counted? && s.place[p].count > 0 && s.delivered == {}
    ensures forall r :: r in cfg.procs - {p} ==> s.place[r] == Registered
    ensures s.members == Names(cfg, cfg.procs - {p})
  {
    hide Reachable, After, Orderly, NobodyStarted, Names, Config.DistinctNames;
    s := AllRegister(cfg);
    NamesWithout(cfg, cfg.procs, p);
    NamesWithout(cfg, cfg.procs - {p}, q);
    s := Proceed(cfg, s, p);
    s := Proceed(cfg, s, p);
    s := Proceed(cfg, s, p);
  }

  lemma LeftBehind(cfg: Config, s: State, p: Process) returns (s': State)
    requires cfg.Valid() && Reachable(cfg, s) && WellFormed(cfg, s) && NobodyStarted(s) && p in cfg.procs
    requires s.place[p].Counted? && s.place[p].count > 0 && s.delivered == {} && s.running
    requires forall r :: r in cfg.procs - {p} ==> s.place[r] == Returned(0)
    ensures Reachable(cfg, s') && WellFormed(cfg, s') && Quiescent(cfg, s')
    ensures s'.running && s'.place[p] == Subscribed
    ensures forall r :: r in cfg.procs && r != p ==> s'.place[r] == Returned(0)
  {
    hide Reachable, After, Orderly, NobodyStarted;
    s' := Proceed(cfg, s, p);
  }

  /** Safety is all there is: p counts names left, the others open the barrier and publish, and
      only then p subscribes. Nothing will ever wake it. Any process can be the one. */
  lemma WakeUpCanBeMissed(cfg: Config, p: Process, q: Process) returns (s: State)
    requires cfg.Valid() && p in cfg.procs && q in cfg.procs && p != q && cfg.DistinctNames()
    ensures Reachable(cfg, s) && WellFormed(cfg, s) && Quiescent(cfg, s)
    ensures s.running && s.place[p] == Subscribed
    ensures forall r :: r in cfg.procs && r != p ==> s.place[r] == Returned(0)
  {
    hide Reachable, After, Orderly, NobodyStarted, Names, Quiescent, Config.DistinctNames;
    s := CountsTheOthers(cfg, p, q);
    s := OthersRemove(cfg, s, p, cfg.procs - {p});
    s := OthersReturn(cfg, s, p, cfg.procs - {p});
    s := LeftBehind(cfg, s, p);
  }

  predicate AllThrough(cfg: Config, s: State)
    requires WellFormed(cfg, s)
  {
    forall p :: p in cfg.procs ==> s.place[p] == Returned(0)
  }

  /** Every run that has come to its end has let everybody through. */
  ghost predicate AlwaysAllThrough(cfg: Config)
    requires cfg.Valid()
  {
    forall schedule ::
      OrderlyRun(cfg, schedule) && Quiescent(cfg, Exec(cfg, Initial(cfg), schedule)) ==>
        AllThrough(cfg, Exec(cfg, Initial(cfg), schedule))
  }

  /** With distinct names and registrations first, everybody always gets through exactly when
      there is at most one process. */
  lemma AllThroughExactly(cfg: Config)
    requires cfg.Valid() && cfg.DistinctNames()
    ensures AlwaysAllThrough(cfg) <==> |cfg.procs| <= 1
  {
    hide Exec, OrderlyRun, Quiescent;
    if |cfg.procs| <= 1 {
      forall schedule | OrderlyRun(cfg, schedule) && Quiescent(cfg, Exec(cfg, Initial(cfg), schedule))
        ensures AllThrough(cfg, Exec(cfg, Initial(cfg), schedule))
      {
        if cfg.procs != {} {
          BarrierEndsOpen(cfg, schedule);
          forall p, q | p in cfg.procs && q in cfg.procs ensures p == q {
            OnlyOne(cfg, p, q);
          }
        }
      }
    } else {
      var p, q := TwoOfThem(cfg);
      var s := WakeUpCanBeMissed(cfg, p, q);
      assert !AllThrough(cfg, s);
    }
  }
}
