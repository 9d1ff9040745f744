/** The tick loop of src/main.cpp against its workers (DroneControl, ScannerManager,
    ChargeBase), as interleaved steps over counting semaphores that start at zero. */
module TickBarrier {

  /** A worker's loop: wait for its sync semaphore, do the tick, post its end semaphore, count. */
  datatype Phase = AtWait | InTick | Posted

  datatype Worker = Worker(tick: nat, phase: Phase)
  {
    /** Ticks begun, and ticks whose end has been signalled. */
    function Taken(): nat {
      if phase == AtWait then tick else tick + 1
    }

    function Completed(): nat {
      if phase == Posted then tick + 1 else tick
    }
  }

  /** Main's position `at` in one round: K posts, K waits, then the increment. */
  datatype State = State(tickN: nat, at: nat, sync: seq<nat>, end: seq<nat>, workers: seq<Worker>)
  {
    /** How often main has posted to, and waited for, worker i. */
    function PostedTo(i: nat): nat {
      tickN + if at > i then 1 else 0
    }

    function WaitedFor(i: nat): nat {
      tickN + if at > |workers| + i then 1 else 0
    }
  }

  function Initial(k: nat): (s: State)
    ensures Shape(s) && |s.workers| == k
  {
    State(0, 0, seq(k, i => 0), seq(k, i => 0), seq(k, i => Worker(0, AtWait)))
  }

  predicate Shape(s: State) {
    |s.sync| == |s.end| == |s.workers| && s.at <= 2 * |s.workers|
  }

  /** Actor 0 is main; actor i + 1 is worker i. */
  type Actor = nat

  predicate Enabled(n: nat, s: State, who: Actor)
    requires Shape(s)
  {
    var k := |s.workers|;
    if who == 0 then
      s.tickN < n && (k <= s.at < 2 * k ==> s.end[s.at - k] > 0)
    else
      who <= k &&
      match s.workers[who - 1].phase
      case AtWait => s.workers[who - 1].tick < n && s.sync[who - 1] > 0
      case InTick => true
      case Posted => true
  }

  function MainStep(s: State): (s': State)
    requires Shape(s) && (|s.workers| <= s.at < 2 * |s.workers| ==> s.end[s.at - |s.workers|] > 0)
    ensures Shape(s') && s'.workers == s.workers
  {
    var k := |s.workers|;
    if s.at < k then s.(sync := s.sync[s.at := s.sync[s.at] + 1], at := s.at + 1)
    else if s.at < 2 * k then s.(end := s.end[s.at - k := s.end[s.at - k] - 1], at := s.at + 1)
    else s.(tickN := s.tickN + 1, at := 0)
  }

  function WorkerStep(s: State, i: nat): (s': State)
    requires Shape(s) && i < |s.workers| && (s.workers[i].phase == AtWait ==> s.sync[i] > 0)
    ensures Shape(s') && |s'.workers| == |s.workers|
  {
    var w := s.workers[i];
    match w.phase
    case AtWait => s.(sync := s.sync[i := s.sync[i] - 1], workers := s.workers[i := Worker(w.tick, InTick)])
    case InTick => s.(end := s.end[i := s.end[i] + 1], workers := s.workers[i := Worker(w.tick, Posted)])
    case Posted => s.(workers := s.workers[i := Worker(w.tick + 1, AtWait)])
  }

  function After(n: nat, s: State, who: Actor): (s': State)
    requires Shape(s) && Enabled(n, s, who)
    ensures Shape(s') && |s'.workers| == |s.workers|
  {
    if who == 0 then MainStep(s) else WorkerStep(s, who - 1)
  }

  ghost predicate Follows(n: nat, s: State, s': State)
    requires Shape(s)
  {
    exists who :: Enabled(n, s, who) && s' == After(n, s, who)
  }

  /** states[0] is initial and each state follows from the one before by an enabled step. */
  ghost predicate IsRun(n: nat, k: nat, states: seq<State>) {
    && |states| > 0 && states[0] == Initial(k)
    && (forall j :: 0 <= j < |states| ==> Shape(states[j]))
    && (forall j :: 0 <= j < |states| - 1 ==> Follows(n, states[j], states[j + 1]))
  }

  // ----- The invariant: the semaphores hold what has been posted and not yet taken

  predicate Accounts(n: nat, s: State, i: nat)
    requires Shape(s) && i < |s.workers|
  {
    var w := s.workers[i];
    && s.sync[i] + w.Taken() == s.PostedTo(i)
    && s.end[i] + s.WaitedFor(i) == w.Completed()
    && w.tick <= n && (w.phase != AtWait ==> w.tick < n)
  }

  predicate Inv(n: nat, s: State) {
    && Shape(s)
    && s.tickN <= n && (s.at > 0 ==> s.tickN < n)
    && forall i :: 0 <= i < |s.workers| ==> Accounts(n, s, i)
  }

  lemma InvStep(n: nat, s: State, who: Actor)
    requires Inv(n, s) && Enabled(n, s, who)
    ensures Inv(n, After(n, s, who))
  {
    var s' := After(n, s, who);
    forall i | 0 <= i < |s'.workers| ensures Accounts(n, s', i) {
      assert Accounts(n, s, i);
    }
  }

  lemma {:induction false} InvRun(n: nat, k: nat, states: seq<State>, j: nat)
    requires IsRun(n, k, states) && j < |states|
    ensures Inv(n, states[j]) && |states[j].workers| == k
    decreases j
  {
    if j > 0 {
      var i := j - 1;
      InvRun(n, k, states, i);
      assert Follows(n, states[i], states[i + 1]);
      var who :| Enabled(n, states[i], who) && states[j] == After(n, states[i], who);
      InvStep(n, states[i], who);
    } else {
      forall i | 0 <= i < k ensures Accounts(n, states[0], i) {
      }
    }
  }

  // ----- Main results

  /** No worker is ever more than the tick in progress ahead of main, and none is behind. */
  lemma Lockstep(n: nat, k: nat, states: seq<State>, j: nat, i: nat)
    requires IsRun(n, k, states) && j < |states| && i < k
    ensures |states[j].workers| == k
    ensures states[j].tickN <= states[j].workers[i].Completed() <= states[j].tickN + 1
    ensures states[j].tickN == n ==> states[j].workers[i].Completed() == n
  {
    InvRun(n, k, states, j);
    assert Accounts(n, states[j], i);
  }

  /** A worker is inside a tick only between main's post to it and main's wait for it, and then
      the tick is the one main is at: every wait is for work that is over. */
  lemma InsideTheTick(n: nat, k: nat, states: seq<State>, j: nat, i: nat)
    requires IsRun(n, k, states) && j < |states| && i < k
    ensures |states[j].workers| == k
    ensures states[j].workers[i].phase == InTick ==>
      states[j].workers[i].tick == states[j].tickN && i < states[j].at <= k + i
  {
    InvRun(n, k, states, j);
    assert Accounts(n, states[j], i);
  }

  /** When main has waited for everybody, and so whenever it counts, nobody is inside a tick. */
  lemma NobodyInsideAtTheCount(n: nat, k: nat, states: seq<State>, j: nat, i: nat)
    requires IsRun(n, k, states) && j < |states| && i < k
    requires states[j].at == 0 || states[j].at == 2 * k
    ensures |states[j].workers| == k && states[j].workers[i].phase != InTick
  {
    InsideTheTick(n, k, states, j, i);
  }

  /** Any two workers are within one tick of each other. */
  lemma WorkersTogether(n: nat, k: nat, states: seq<State>, j: nat, a: nat, b: nat)
    requires IsRun(n, k, states) && j < |states| && a < k && b < k
    ensures |states[j].workers| == k
    ensures states[j].workers[a].Completed() <= states[j].workers[b].Completed() + 1
  {
    Lockstep(n, k, states, j, a);
    Lockstep(n, k, states, j, b);
  }

  /** Before the last tick is over somebody can always move. */
  lemma SomebodyMoves(n: nat, s: State) returns (who: Actor)
    requires Inv(n, s) && s.tickN < n
    ensures Enabled(n, s, who)
  {
    var k := |s.workers|;
    who := 0;
    if !Enabled(n, s, 0) {
      // main waits for a worker whose tick has not ended: that worker can go on
      assert Accounts(n, s, s.at - k);
      who := s.at - k + 1;
    }
  }

  /** When nobody can move, main and every worker have left their loops, n ticks done. */
  lemma EndIsComplete(n: nat, s: State)
    requires Inv(n, s)
    requires forall who :: !Enabled(n, s, who)
    ensures s.tickN == n && s.at == 0
    ensures forall i :: 0 <= i < |s.workers| ==>
      s.workers[i] == Worker(n, AtWait) && s.sync[i] == 0 && s.end[i] == 0
  {
    if s.tickN < n {
      var who := SomebodyMoves(n, s);
    }
    forall i | 0 <= i < |s.workers|
      ensures s.workers[i] == Worker(n, AtWait) && s.sync[i] == 0 && s.end[i] == 0
    {
      assert Accounts(n, s, i);
      assert !Enabled(n, s, i + 1);
    }
  }

  // ----- Every run comes to that end

  function PhaseRank(p: Phase): nat {
    match p case AtWait => 0 case InTick => 1 case Posted => 2
  }

  function WorkerLeft(n: nat, w: Worker): int {
    3 * (n - w.tick) - PhaseRank(w.phase)
  }

  function WorkersLeft(n: nat, ws: seq<Worker>): int {
    if |ws| == 0 then 0 else WorkersLeft(n, ws[..|ws| - 1]) + WorkerLeft(n, ws[|ws| - 1])
  }

  /** The number of steps still to be made, whoever makes them. */
  function StepsLeft(n: nat, s: State): int {
    (n - s.tickN) * (2 * |s.workers| + 1) - s.at + WorkersLeft(n, s.workers)
  }

  lemma {:induction false} WorkersLeftUpdate(n: nat, ws: seq<Worker>, i: nat, w: Worker)
    requires i < |ws|
    ensures WorkersLeft(n, ws[i := w]) == WorkersLeft(n, ws) - WorkerLeft(n, ws[i]) + WorkerLeft(n, w)
    decreases |ws|
  {
    var k := |ws| - 1;
    if i < k {
      WorkersLeftUpdate(n, ws[..k], i, w);
      assert ws[i := w][..k] == ws[..k][i := w];
    } else {
      assert ws[i := w][..k] == ws[..k];
    }
  }

  lemma {:induction false} WorkersLeftNonNegative(n: nat, s: State, k: nat)
    requires Inv(n, s) && k <= |s.workers|
    ensures WorkersLeft(n, s.workers[..k]) >= 0
    decreases k
  {
    if k > 0 {
      WorkersLeftNonNegative(n, s, k - 1);
      assert s.workers[..k][..k - 1] == s.workers[..k - 1];
      assert Accounts(n, s, k - 1);
    }
  }

  /** Each step is exactly one of those left. */
  lemma StepsLeftStep(n: nat, s: State, who: Actor)
    requires Inv(n, s) && Enabled(n, s, who)
    ensures StepsLeft(n, After(n, s, who)) == StepsLeft(n, s) - 1
  {
    if who == 0 {
      var m := 2 * |s.workers| + 1;
      assert (n - s.tickN) * m == (n - (s.tickN + 1)) * m + m;
    } else {
      var w, w' := s.workers[who - 1], After(n, s, who).workers[who - 1];
      WorkersLeftUpdate(n, s.workers, who - 1, w');
    }
  }

  lemma RoundsLeft(n: nat, t: nat, m: nat)
    requires t < n
    ensures (n - t) * m >= m
  {
    assert (n - t) * m == (n - t - 1) * m + m;
  }

  lemma StepsLeftNonNegative(n: nat, s: State)
    requires Inv(n, s)
    ensures StepsLeft(n, s) >= 0
  {
    hide WorkersLeft, Accounts;
    WorkersLeftNonNegative(n, s, |s.workers|);
    assert s.workers[..|s.workers|] == s.workers;
    if s.tickN < n {
      RoundsLeft(n, s.tickN, 2 * |s.workers| + 1);
    }
  }

  lemma {:induction false} WorkersLeftInitial(n: nat, k: nat)
    ensures WorkersLeft(n, Initial(k).workers) == 3 * n * k
    decreases k
  {
    if k > 0 {
      WorkersLeftInitial(n, k - 1);
      assert Initial(k).workers[..k - 1] == Initial(k - 1).workers;
      assert 3 * n * k == 3 * n * (k - 1) + 3 * n;
    }
  }

  /** No fairness is needed: after exactly n * (5 k + 1) steps, in any interleaving, the loops
      of main and of every worker have run n ticks. A run never has more steps, and one with
      fewer can always go on. */
  lemma EveryRunEnds(n: nat, k: nat, states: seq<State>)
    requires IsRun(n, k, states)
    ensures |states| - 1 <= n * (5 * k + 1)
    ensures var s := states[|states| - 1];
      (forall who :: !Enabled(n, s, who)) <==> |states| - 1 == n * (5 * k + 1)
  {
    hide StepsLeft, Enabled, After;
    var j := |states| - 1;
    var s := states[j];
    InvRun(n, k, states, j);
    StepsLeftAlong(n, k, states, j);
    StepsLeftInitial(n, k);
    StepsLeftNonNegative(n, s);
    if forall who :: !Enabled(n, s, who) {
      EndLeavesNothing(n, s);
    } else {
      var who :| Enabled(n, s, who);
      StepsLeftStep(n, s, who);
      InvStep(n, s, who);
      StepsLeftNonNegative(n, After(n, s, who));
    }
  }

  lemma StepsLeftInitial(n: nat, k: nat)
    ensures StepsLeft(n, Initial(k)) == n * (5 * k + 1)
  {
    hide WorkersLeft;
    WorkersLeftInitial(n, k);
    AllRounds(n, k);
  }

  lemma AllRounds(n: nat, k: nat)
    ensures n * (2 * k + 1) + 3 * n * k == n * (5 * k + 1)
  {
    var m := n * k;
    assert n * (2 * k + 1) == 2 * m + n;
    assert n * (5 * k + 1) == 5 * m + n;
    assert 3 * n * k == 3 * m;
  }

  lemma EndLeavesNothing(n: nat, s: State)
    requires Inv(n, s) && forall who :: !Enabled(n, s, who)
    ensures StepsLeft(n, s) == 0
  {
    EndIsComplete(n, s);
    AllDoneLeavesNothing(n, s.workers);
  }

  lemma {:induction false} AllDoneLeavesNothing(n: nat, ws: seq<Worker>)
    requires forall i :: 0 <= i < |ws| ==> ws[i] == Worker(n, AtWait)
    ensures WorkersLeft(n, ws) == 0
    decreases |ws|
  {
    if |ws| > 0 {
      AllDoneLeavesNothing(n, ws[..|ws| - 1]);
    }
  }

  lemma {:induction false} StepsLeftAlong(n: nat, k: nat, states: seq<State>, j: nat)
    requires IsRun(n, k, states) && j < |states|
    ensures StepsLeft(n, states[j]) == StepsLeft(n, states[0]) - j
    decreases j
  {
    if j > 0 {
      var i := j - 1;
      StepsLeftAlong(n, k, states, i);
      InvRun(n, k, states, i);
      assert Follows(n, states[i], states[i + 1]);
      var who :| Enabled(n, states[i], who) && states[j] == After(n, states[i], who);
      StepsLeftStep(n, states[i], who);
    }
  }
}
