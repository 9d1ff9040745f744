/** ThreadSemaphore (src/Scanner/ThreadUtils.cpp): the barrier the scanner's threads pass once
    a tick. sync() is two steps: the counted arrival under the mutex, and the acquire. */
module ThreadBarrier {

  type Thread = nat

  /** `blocked` are the threads between the two steps; `passed` counts completed sync() calls. */
  datatype State = State(members: set<Thread>, waiting: nat, permits: nat, blocked: set<Thread>,
                         passed: map<Thread, nat>)

  datatype Action = Arrive(t: Thread) | Acquire(t: Thread) | Join(t: Thread) | Leave(t: Thread)
  {
    /** Made inside sync(). */
    predicate Syncs() {
      Arrive? || Acquire?
    }
  }

  /** Every thread has called add_thread(); active_threads is their number. */
  function Initial(threads: set<Thread>): State {
    State(threads, 0, 0, {}, map t | t in threads :: 0)
  }

  predicate Shape(s: State) {
    s.blocked <= s.members && s.members <= s.passed.Keys
  }

  predicate Enabled(s: State, a: Action) {
    match a
    case Arrive(t) => t in s.members && t !in s.blocked
    case Acquire(t) => t in s.members && t in s.blocked && s.permits > 0
    case Join(t) => t !in s.members
    case Leave(t) => t in s.members && t !in s.blocked
  }

  /** The last to arrive releases one permit for each active thread. */
  function After(s: State, a: Action): (s': State)
    requires Shape(s) && Enabled(s, a)
    ensures Shape(s')
  {
    match a
    case Arrive(t) =>
      var s1 := s.(waiting := s.waiting + 1, blocked := s.blocked + {t});
      if s1.waiting == |s.members| then s1.(permits := s.permits + |s.members|, waiting := 0) else s1
    case Acquire(t) =>
      s.(permits := s.permits - 1, blocked := s.blocked - {t}, passed := s.passed[t := s.passed[t] + 1])
    case Join(t) => s.(members := s.members + {t}, passed := s.passed[t := 0])
    case Leave(t) => s.(members := s.members - {t})
  }

  /** In a fixed run nobody joins or leaves. */
  ghost predicate Follows(fixed: bool, s: State, s': State)
    requires Shape(s)
  {
    exists a :: Enabled(s, a) && (fixed ==> a.Syncs()) && s' == After(s, a)
  }

  ghost predicate IsRun(fixed: bool, threads: set<Thread>, states: seq<State>) {
    && |states| > 0 && states[0] == Initial(threads)
    && (forall j :: 0 <= j < |states| ==> Shape(states[j]))
    && (forall j :: 0 <= j < |states| - 1 ==> Follows(fixed, states[j], states[j + 1]))
  }

  ghost predicate Reachable(fixed: bool, threads: set<Thread>, s: State) {
    exists states :: IsRun(fixed, threads, states) && states[|states| - 1] == s
  }

  // ----- What it keeps

  /** Everyone blocked is either still being counted or has a permit to take. */
  predicate Counted(s: State) {
    Shape(s) && |s.blocked| == s.waiting + s.permits && s.waiting <= |s.members|
  }

  /** With a fixed membership a round is always still open. */
  predicate Inv(fixed: bool, threads: set<Thread>, s: State) {
    && Counted(s)
    && (fixed ==> s.members == threads == s.passed.Keys && (threads != {} ==> s.waiting < |threads|))
  }

  lemma {:induction false} SubsetSize(a: set<Thread>, b: set<Thread>)
    requires a <= b
    ensures |a| <= |b|
    ensures |a| == |b| ==> a == b
    decreases |b|
  {
    if x :| x in b && x !in a {
      SubsetSize(a, b - {x});
    } else {
      assert a == b;
    }
  }

  lemma InvStep(fixed: bool, threads: set<Thread>, s: State, a: Action)
    requires Inv(fixed, threads, s) && Enabled(s, a) && (fixed ==> a.Syncs())
    ensures Inv(fixed, threads, After(s, a))
  {
    SubsetSize(s.blocked, s.members);
    if !a.Acquire? {
      SubsetSize(s.blocked, s.members - {a.t});
    }
  }

  lemma InvFollows(fixed: bool, threads: set<Thread>, s: State, s': State)
    requires Inv(fixed, threads, s) && Follows(fixed, s, s')
    ensures Inv(fixed, threads, s')
  {
    var a :| Enabled(s, a) && (fixed ==> a.Syncs()) && s' == After(s, a);
    InvStep(fixed, threads, s, a);
  }

  lemma {:induction false} InvRun(fixed: bool, threads: set<Thread>, states: seq<State>, j: nat)
    requires IsRun(fixed, threads, states) && j < |states|
    ensures Inv(fixed, threads, states[j])
    decreases j
  {
    if j > 0 {
      var i := j - 1;
      InvRun(fixed, threads, states, i);
      assert Follows(fixed, states[i], states[i + 1]);
      InvFollows(fixed, threads, states[i], states[j]);
    } else if threads != {} {
      var t :| t in threads;
      SubsetSize({t}, threads);
    }
  }

  lemma InvReachable(fixed: bool, threads: set<Thread>, s: State)
    requires Reachable(fixed, threads, s)
    ensures Inv(fixed, threads, s)
  {
    var states :| IsRun(fixed, threads, states) && states[|states| - 1] == s;
    InvRun(fixed, threads, states, |states| - 1);
  }

  // ----- When nobody can go on

  /** Nobody can take a step of sync(). */
  ghost predicate Stuck(s: State) {
    forall a: Action :: a.Syncs() ==> !Enabled(s, a)
  }

  /** Wherever threads join and leave, they are stuck exactly when all of them are waiting. */
  lemma StuckExactly(threads: set<Thread>, s: State)
    requires Reachable(false, threads, s)
    ensures Stuck(s) <==> s.waiting == |s.members|
  {
    InvReachable(false, threads, s);
    CountedStuck(s);
  }

  lemma CountedStuck(s: State)
    requires Counted(s)
    ensures Stuck(s) <==> s.waiting == |s.members|
  {
    SubsetSize(s.blocked, s.members);
    if s.waiting == |s.members| {
      assert s.blocked == s.members && s.permits == 0;
    } else if t :| t in s.members && t !in s.blocked {
      assert Enabled(s, Arrive(t));
    } else {
      assert s.blocked == s.members;
      var t :| t in s.members;
      assert Enabled(s, Acquire(t));
    }
  }

  /** remove_thread() does not look at the waiting count. It strands the others exactly when the
      one that leaves is the one they wait for; otherwise the account of the rest is in order
      and somebody can go on. */
  lemma LeavingStrandsExactly(threads: set<Thread>, s: State, t: Thread)
    requires Reachable(false, threads, s) && Shape(s) && Enabled(s, Leave(t))
    ensures Stuck(After(s, Leave(t))) <==> s.waiting == |s.members| - 1
    ensures Counted(After(s, Leave(t)))
  {
    InvReachable(false, threads, s);
    InvStep(false, threads, s, Leave(t));
    CountedStuck(After(s, Leave(t)));
  }

  /** Nothing else strands anybody, and while threads are stranded no member can leave; the next
      to join lets them all through once it arrives. */
  lemma OnlyLeavingStrands(threads: set<Thread>, s: State, a: Action)
    requires Reachable(false, threads, s) && Shape(s) && Enabled(s, a)
    ensures Stuck(After(s, a)) && After(s, a).members != {} ==> a.Leave?
    ensures Stuck(s) ==> a.Join? && Enabled(After(s, a), Arrive(a.t))
    ensures Stuck(s) ==> After(After(s, a), Arrive(a.t)).permits == |s.members| + 1
  {
    InvReachable(false, threads, s);
    InvStep(false, threads, s, a);
    CountedStuck(s);
    CountedStuck(After(s, a));
    SubsetSize(s.blocked, s.members);
  }

  // ----- Rounds

  /** Permits are released a whole membership at a time, by the last to arrive, and only when
      those of the round before are used up: just then every member is inside sync(). */
  lemma ReleaseExactly(threads: set<Thread>, s: State, a: Action)
    requires Reachable(false, threads, s) && Shape(s) && Enabled(s, a)
    ensures After(s, a).permits > s.permits
       <==> a.Arrive? && s.blocked == s.members - {a.t} && s.permits == 0
    ensures After(s, a).permits > s.permits ==> After(s, a).permits == |s.members| == |After(s, a).blocked|
  {
    InvReachable(false, threads, s);
    InvStep(false, threads, s, a);
    if a.Arrive? {
      SubsetSize(s.blocked, s.members - {a.t});
      assert s.members == s.members - {a.t} + {a.t};
    }
  }

  ghost function Sum(passed: map<Thread, nat>, some: set<Thread>): nat
    requires some <= passed.Keys
    decreases some
  {
    if some == {} then 0
    else var t :| t in some; passed[t] + Sum(passed, some - {t})
  }

  lemma {:induction false} SumWithout(passed: map<Thread, nat>, some: set<Thread>, t: Thread)
    requires t in some && some <= passed.Keys
    ensures Sum(passed, some) == passed[t] + Sum(passed, some - {t})
    decreases some
  {
    var u :| u in some && Sum(passed, some) == passed[u] + Sum(passed, some - {u});
    if u != t {
      SumWithout(passed, some - {u}, t);
      SumWithout(passed, some - {t}, u);
      assert some - {u} - {t} == some - {t} - {u};
    }
  }

  lemma {:induction false} SumElsewhere(passed: map<Thread, nat>, some: set<Thread>, t: Thread, v: nat)
    requires t !in some && some <= passed.Keys
    ensures Sum(passed[t := v], some) == Sum(passed, some)
    decreases some
  {
    if some != {} {
      var u :| u in some;
      SumWithout(passed, some, u);
      SumWithout(passed[t := v], some, u);
      SumElsewhere(passed, some - {u}, t, v);
    }
  }

  lemma SumAfterPass(passed: map<Thread, nat>, some: set<Thread>, t: Thread)
    requires t in some && some <= passed.Keys
    ensures Sum(passed[t := passed[t] + 1], some) == Sum(passed, some) + 1
  {
    SumWithout(passed, some, t);
    SumWithout(passed[t := passed[t] + 1], some, t);
    SumElsewhere(passed, some - {t}, t, passed[t] + 1);
  }

  /** `rounds` times |threads| permits have been released; each was taken or is still there. */
  ghost predicate WholeRounds(threads: set<Thread>, s: State, rounds: nat) {
    threads <= s.passed.Keys && Sum(s.passed, threads) + s.permits == rounds * |threads|
  }

  lemma {:induction false} InitialSum(passed: map<Thread, nat>, some: set<Thread>)
    requires some <= passed.Keys && forall t :: t in some ==> passed[t] == 0
    ensures Sum(passed, some) == 0
    decreases some
  {
    if some != {} {
      var t :| t in some;
      SumWithout(passed, some, t);
      InitialSum(passed, some - {t});
    }
  }

  lemma ArrivalReleases(threads: set<Thread>, s: State, a: Action)
    requires Inv(true, threads, s) && Enabled(s, a) && a.Arrive?
    ensures After(s, a).passed == s.passed
    ensures After(s, a).permits == s.permits || (threads != {} && After(s, a).permits == s.permits + |threads|)
  {
  }

  lemma OneMoreRound(rounds: nat, size: nat)
    ensures (rounds + 1) * size == rounds * size + size
  {
  }

  lemma RoundsStep(threads: set<Thread>, s: State, a: Action, rounds: nat) returns (rounds': nat)
    requires Inv(true, threads, s) && Enabled(s, a) && a.Syncs() && WholeRounds(threads, s, rounds)
    ensures WholeRounds(threads, After(s, a), rounds')
    ensures rounds' == if After(s, a).permits > s.permits then rounds + 1 else rounds
  {
    rounds' := if After(s, a).permits > s.permits then rounds + 1 else rounds;
    if a.Acquire? {
      SumAfterPass(s.passed, threads, a.t);
    } else {
      ArrivalReleases(threads, s, a);
      hide Sum, After;
      OneMoreRound(rounds, |threads|);
    }
  }

  lemma {:induction false} RoundsRun(threads: set<Thread>, states: seq<State>, j: nat) returns (rounds: nat)
    requires IsRun(true, threads, states) && j < |states|
    ensures WholeRounds(threads, states[j], rounds)
    decreases j
  {
    if j == 0 {
      InitialSum(states[0].passed, threads);
      rounds := 0;
    } else {
      var i := j - 1;
      rounds := RoundsRun(threads, states, i);
      InvRun(true, threads, states, i);
      assert Follows(true, states[i], states[i + 1]);
      var a :| Enabled(states[i], a) && a.Syncs() && states[j] == After(states[i], a);
      rounds := RoundsStep(threads, states[i], a, rounds);
    }
  }

  /** With a fixed membership the barrier deals in whole rounds: the permits taken and those
      still there make up `rounds` times everybody, and the waiting count is what the arrivals
      so far leave over. */
  lemma RoundsAreWhole(threads: set<Thread>, s: State) returns (rounds: nat)
    requires Reachable(true, threads, s) && threads != {}
    ensures s.passed.Keys == threads
    ensures Sum(s.passed, threads) + s.permits == rounds * |threads|
    ensures Sum(s.passed, threads) + |s.blocked| == rounds * |threads| + s.waiting && s.waiting < |threads|
  {
    var states :| IsRun(true, threads, states) && states[|states| - 1] == s;
    InvReachable(true, threads, s);
    rounds := RoundsRun(threads, states, |states| - 1);
  }

  /** With a fixed membership some thread can always move. */
  lemma NeverStuck(threads: set<Thread>, s: State)
    requires Reachable(true, threads, s) && threads != {}
    ensures !Stuck(s)
  {
    InvReachable(true, threads, s);
    CountedStuck(s);
  }

  // ----- What it does not: the permits are not tied to a round

  lemma ReachStep(threads: set<Thread>, s: State, a: Action) returns (s': State)
    requires Reachable(true, threads, s) && Shape(s) && Enabled(s, a) && a.Syncs()
    ensures s' == After(s, a) && Reachable(true, threads, s')
  {
    s' := After(s, a);
    assert Follows(true, s, s');
    RunSnoc(threads, s, s');
  }

  lemma RunSnoc(threads: set<Thread>, s: State, s': State)
    requires Reachable(true, threads, s) && Shape(s) && Shape(s') && Follows(true, s, s')
    ensures Reachable(true, threads, s')
  {
    hide Follows, Shape;
    var states :| IsRun(true, threads, states) && states[|states| - 1] == s;
    var longer := states + [s'];
    forall j | 0 <= j < |longer| - 1 ensures Follows(true, longer[j], longer[j + 1]) {
      if j < |states| - 1 {
        assert longer[j] == states[j] && longer[j + 1] == states[j + 1];
      }
    }
    assert IsRun(true, threads, longer);
  }

  lemma ReachInitial(threads: set<Thread>)
    ensures Reachable(true, threads, Initial(threads))
  {
    assert IsRun(true, threads, [Initial(threads)]);
  }

  /** While t is still to come, u is not the last to arrive. */
  lemma ArrivesEarly(threads: set<Thread>, s: State, t: Thread, u: Thread)
    requires Inv(true, threads, s) && t in threads && u in threads && t != u
    requires t !in s.blocked && u !in s.blocked && s.permits == 0
    ensures Shape(s) && Enabled(s, Arrive(u)) && Inv(true, threads, After(s, Arrive(u)))
    ensures After(s, Arrive(u)) == s.(waiting := s.waiting + 1, blocked := s.blocked + {u})
  {
    SubsetSize(s.blocked + {u}, threads - {t});
    InvStep(true, threads, s, Arrive(u));
  }

  /** All of `todo` have yet to arrive; t is none of them. */
  lemma {:induction false} OthersArrive(threads: set<Thread>, s: State, t: Thread, todo: set<Thread>)
    returns (s': State)
    requires Reachable(true, threads, s) && Inv(true, threads, s) && t in threads && todo <= threads - {t}
    requires s.blocked == threads - {t} - todo && s.permits == 0
    ensures Reachable(true, threads, s') && Inv(true, threads, s')
    ensures s'.blocked == threads - {t} && s'.permits == 0 && s'.passed == s.passed
    decreases todo
  {
    if todo == {} {
      s' := s;
    } else {
      hide Reachable, Inv;
      var u :| u in todo;
      ArrivesEarly(threads, s, t, u);
      assert s.blocked + {u} == threads - {t} - (todo - {u});
      var s1 := ReachStep(threads, s, Arrive(u));
      s' := OthersArrive(threads, s1, t, todo - {u});
    }
  }

  lemma OneLap(threads: set<Thread>, s: State, t: Thread) returns (s': State)
    requires Reachable(true, threads, s) && Inv(true, threads, s) && t in threads
    requires s.blocked == threads - {t}
    ensures Reachable(true, threads, s') && Inv(true, threads, s')
    ensures s'.blocked == threads - {t} && s'.passed == s.passed[t := s.passed[t] + 1]
  {
    hide Reachable;
    assert threads == (threads - {t}) + {t};
    s' := ReachStep(threads, s, Arrive(t));
    InvStep(true, threads, s, Arrive(t));
    assert s'.blocked == threads && s'.permits > 0;
    InvStep(true, threads, s', Acquire(t));
    s' := ReachStep(threads, s', Acquire(t));
  }

  /** Everyone else blocked, one thread can go round on permits meant for the others. */
  lemma {:induction false} OneThreadLaps(threads: set<Thread>, s: State, t: Thread, m: nat) returns (s': State)
    requires Reachable(true, threads, s) && Inv(true, threads, s) && t in threads
    requires s.blocked == threads - {t} && s.passed.Keys == threads
    ensures Reachable(true, threads, s') && Inv(true, threads, s')
    ensures s'.blocked == threads - {t}
    ensures s'.passed == s.passed[t := s.passed[t] + m]
    decreases m
  {
    if m == 0 {
      s' := s;
      assert s.passed[t := s.passed[t] + 0] == s.passed;
    } else {
      hide Inv, Reachable;
      var s1 := OneLap(threads, s, t);
      s' := OneThreadLaps(threads, s1, t, m - 1);
    }
  }

  predicate WithinOneTick(s: State) {
    forall a, b :: a in s.passed && b in s.passed ==> s.passed[a] <= s.passed[b] + 1
  }

  /** For any distance m, one thread can be m ticks ahead of another that has passed none. */
  lemma UnboundedDrift(threads: set<Thread>, t: Thread, u: Thread, m: nat) returns (s: State)
    requires t in threads && u in threads && t != u
    ensures Reachable(true, threads, s) && s.passed.Keys == threads
    ensures s.passed[t] == m && s.passed[u] == 0
  {
    ReachInitial(threads);
    InvReachable(true, threads, Initial(threads));
    s := OthersArrive(threads, Initial(threads), t, threads - {t});
    s := OneThreadLaps(threads, s, t, m);
  }

  /** The scanner's threads stay within one tick of each other in every run exactly when there
      is at most one of them. */
  lemma LockstepExactly(threads: set<Thread>)
    ensures (forall s :: Reachable(true, threads, s) ==> WithinOneTick(s)) <==> |threads| <= 1
  {
    if |threads| <= 1 {
      forall s | Reachable(true, threads, s) ensures WithinOneTick(s) {
        InvReachable(true, threads, s);
        forall a, b | a in threads && b in threads ensures a == b {
          if a != b {
            SubsetSize({a, b}, threads);
          }
        }
      }
    } else {
      var t :| t in threads;
      assert threads - {t} != {} by {
        assert threads != {t};
      }
      var u :| u in threads - {t};
      var s := UnboundedDrift(threads, t, u, 2);
      assert !WithinOneTick(s);
    }
  }

  /** It does happen: whoever the others wait for may leave instead. */
  lemma LeavingStrandsTheRest(threads: set<Thread>, t: Thread) returns (s: State)
    requires t in threads && threads != {t}
    ensures Reachable(true, threads, s) && Shape(s) && Enabled(s, Leave(t))
    ensures var s' := After(s, Leave(t)); s'.members == threads - {t} != {} && Stuck(s')
  {
    ReachInitial(threads);
    InvReachable(true, threads, Initial(threads));
    s := OthersArrive(threads, Initial(threads), t, threads - {t});
    var u :| u in threads && u != t;
    assert u in threads - {t};
    InvStep(false, threads, s, Leave(t));
    CountedStuck(After(s, Leave(t)));
  }
}
