/** Per-plan locking in the runner, over all interleavings of Execute and IsRunning calls. */
module RunnerLocks {
  import opened Wrappers

  type Thread = nat
  type Plan = nat
  type Lock = nat

  /** Where a thread is in its current call. Probing is IsRunning. */
  datatype PC =
    | Idle
    | ExecHas(plan: Plan, lock: Lock)      // Execute has looked up the lock
    | ExecHolds(plan: Plan, lock: Lock)    // TryLock succeeded, the gauge is not yet incremented
    | ExecCounts(plan: Plan, lock: Lock)   // between Inc and Dec: the steps run
    | ExecLeaves(plan: Plan, lock: Lock)   // Dec is done, Unlock is not
    | Rejected(plan: Plan)
    | ProbeHas(plan: Plan, lock: Lock)
    | ProbeHolds(plan: Plan, lock: Lock)
    | Answered(plan: Plan, running: bool)

  datatype State = State(
    locks: map<Plan, Lock>,
    nextLock: Lock,
    held: set<Lock>,
    gauge: int,
    threads: map<Thread, PC>)

  const INITIAL := State(map[], 0, {}, 0, map[])

  function At(s: State, t: Thread): PC {
    if t in s.threads then s.threads[t] else Idle
  }

  function Move(s: State, t: Thread, pc: PC): State {
    s.(threads := s.threads[t := pc])
  }

  /** What a scheduler can do: start a call in an idle thread, or let a thread take its next atomic step. */
  datatype Action = CallExecute(t: Thread, plan: Plan) | CallIsRunning(t: Thread, plan: Plan) | Advance(t: Thread)

  /** The lookup under the runner's own mutex: an existing lock is returned, a missing one created. */
  function WithLock(s: State, plan: Plan): State {
    if plan in s.locks then s else s.(locks := s.locks[plan := s.nextLock], nextLock := s.nextLock + 1)
  }

  /** One atomic step; None where the action is not possible. metrics: a recorder is attached. */
  function Apply(metrics: bool, s: State, a: Action): Option<State> {
    match a
    case CallExecute(t, plan) =>
      if At(s, t) != Idle then None
      else var s1 := WithLock(s, plan); Some(Move(s1, t, ExecHas(plan, s1.locks[plan])))
    case CallIsRunning(t, plan) =>
      if At(s, t) != Idle then None
      else var s1 := WithLock(s, plan); Some(Move(s1, t, ProbeHas(plan, s1.locks[plan])))
    case Advance(t) => AdvanceThread(metrics, s, t)
  }

  function AdvanceThread(metrics: bool, s: State, t: Thread): Option<State> {
    match At(s, t)
    case Idle => None
    case ExecHas(plan, lock) =>
      if lock in s.held then Some(Move(s, t, Rejected(plan)))
      else Some(Move(s.(held := s.held + {lock}), t, ExecHolds(plan, lock)))
    case ExecHolds(plan, lock) =>
      if metrics then Some(Move(s.(gauge := s.gauge + 1), t, ExecCounts(plan, lock)))
      else Some(Move(s.(held := s.held - {lock}), t, Idle))
    case ExecCounts(plan, lock) => Some(Move(s.(gauge := s.gauge - 1), t, ExecLeaves(plan, lock)))
    case ExecLeaves(plan, lock) => Some(Move(s.(held := s.held - {lock}), t, Idle))
    case Rejected(plan) => Some(Move(s, t, Idle))
    case ProbeHas(plan, lock) =>
      if lock in s.held then Some(Move(s, t, Answered(plan, true)))
      else Some(Move(s.(held := s.held + {lock}), t, ProbeHolds(plan, lock)))
    case ProbeHolds(plan, lock) => Some(Move(s.(held := s.held - {lock}), t, Answered(plan, false)))
    case Answered(plan, running) => Some(Move(s, t, Idle))
  }

  /** A whole interleaving. */
  function Run(metrics: bool, s: State, actions: seq<Action>): Option<State>
    decreases |actions|
  {
    if actions == [] then Some(s)
    else match Apply(metrics, s, actions[0])
      case None => None
      case Some(s') => Run(metrics, s', actions[1..])
  }

  // ---------- The invariant ----------

  predicate Executing(pc: PC) {
    pc.ExecHolds? || pc.ExecCounts? || pc.ExecLeaves?
  }

  predicate Holding(pc: PC) {
    Executing(pc) || pc.ProbeHolds?
  }

  predicate HasLock(pc: PC) {
    Holding(pc) || pc.ExecHas? || pc.ProbeHas?
  }

  function Counted(s: State): set<Thread> {
    set t | t in s.threads && s.threads[t].ExecCounts?
  }

  ghost predicate LocksAreDistinct(s: State) {
    && (forall p :: p in s.locks ==> s.locks[p] < s.nextLock)
    && (forall p, q :: p in s.locks && q in s.locks && s.locks[p] == s.locks[q] ==> p == q)
  }

  ghost predicate ThreadsUseTheirPlansLock(s: State) {
    forall t :: t in s.threads && HasLock(s.threads[t]) ==>
      s.threads[t].plan in s.locks && s.threads[t].lock == s.locks[s.threads[t].plan]
  }

  ghost predicate HeldByOneThread(s: State) {
    && (forall t :: t in s.threads && Holding(s.threads[t]) ==> s.threads[t].lock in s.held)
    && (forall t, u | t in s.threads && u in s.threads && Holding(s.threads[t]) && Holding(s.threads[u])
          :: s.threads[t].lock == s.threads[u].lock ==> t == u)
    && (forall l :: l in s.held ==> exists t :: t in s.threads && Holding(s.threads[t]) && s.threads[t].lock == l)
  }

  ghost predicate Inv(s: State) {
    && LocksAreDistinct(s)
    && ThreadsUseTheirPlansLock(s)
    && HeldByOneThread(s)
    && s.gauge == |Counted(s)|
  }

  lemma InvInitially()
    ensures Inv(INITIAL)
  {
  }

  lemma CountedAfterMove(s: State, t: Thread, pc: PC)
    ensures Counted(Move(s, t, pc)) == if pc.ExecCounts? then Counted(s) + {t} else Counted(s) - {t}
    ensures At(s, t).ExecCounts? <==> t in Counted(s)
  {
  }

  /** Looking up a lock keeps the invariant and every existing lock. */
  lemma LookupKeepsInv(s: State, plan: Plan)
    requires Inv(s)
    ensures Inv(WithLock(s, plan)) && plan in WithLock(s, plan).locks
  {
    var s1 := WithLock(s, plan);
    assert Counted(s1) == Counted(s);
    assert s1.threads == s.threads && s1.held == s.held;
  }

  /** A thread that takes, keeps or drops nothing can move freely among states without a lock. */
  lemma MoveWithoutHolding(s: State, t: Thread, pc: PC)
    requires Inv(s) && !Holding(At(s, t)) && !Holding(pc)
    requires HasLock(pc) ==> pc.plan in s.locks && pc.lock == s.locks[pc.plan]
    ensures Inv(Move(s, t, pc))
  {
    CountedAfterMove(s, t, pc);
    BystanderKeepsHolders(s, t, pc);
  }

  lemma BystanderKeepsHolders(s: State, t: Thread, pc: PC)
    requires HeldByOneThread(s) && !Holding(At(s, t)) && !Holding(pc)
    ensures HeldByOneThread(Move(s, t, pc))
  {
    var s' := Move(s, t, pc);
    assert forall u :: u in s'.threads && Holding(s'.threads[u]) ==> u in s.threads && s.threads[u] == s'.threads[u];
    forall l | l in s'.held
      ensures exists u :: u in s'.threads && Holding(s'.threads[u]) && s'.threads[u].lock == l
    {
      var u :| u in s.threads && Holding(s.threads[u]) && s.threads[u].lock == l;
      assert u in s'.threads && Holding(s'.threads[u]) && s'.threads[u].lock == l;
    }
  }

  /** Taking a free lock. */
  lemma TakeKeepsInv(s: State, t: Thread, pc: PC)
    requires Inv(s) && HasLock(At(s, t)) && !Holding(At(s, t)) && At(s, t).lock !in s.held
    requires Holding(pc) && !pc.ExecCounts? && pc.plan == At(s, t).plan && pc.lock == At(s, t).lock
    ensures Inv(Move(s.(held := s.held + {pc.lock}), t, pc))
  {
    var s' := Move(s.(held := s.held + {pc.lock}), t, pc);
    CountedAfterMove(s.(held := s.held + {pc.lock}), t, pc);
    assert Counted(s.(held := s.held + {pc.lock})) == Counted(s);
    forall l | l in s'.held
      ensures exists u :: u in s'.threads && Holding(s'.threads[u]) && s'.threads[u].lock == l
    {
      if l == pc.lock {
        assert s'.threads[t] == pc;
      } else {
        var u :| u in s.threads && Holding(s.threads[u]) && s.threads[u].lock == l;
        assert u in s'.threads && Holding(s'.threads[u]) && s'.threads[u].lock == l;
      }
    }
  }

  /** Dropping the lock held. */
  lemma DropKeepsInv(s: State, t: Thread, pc: PC)
    requires Inv(s) && Holding(At(s, t)) && !At(s, t).ExecCounts? && !HasLock(pc)
    ensures Inv(Move(s.(held := s.held - {At(s, t).lock}), t, pc))
  {
    var s1 := s.(held := s.held - {At(s, t).lock});
    var s' := Move(s1, t, pc);
    CountedAfterMove(s1, t, pc);
    assert Counted(s1) == Counted(s);
    forall l | l in s'.held
      ensures exists u :: u in s'.threads && Holding(s'.threads[u]) && s'.threads[u].lock == l
    {
      var u :| u in s.threads && Holding(s.threads[u]) && s.threads[u].lock == l;
      assert u in s'.threads && Holding(s'.threads[u]) && s'.threads[u].lock == l;
    }
  }

  /** Moving on while holding, with the gauge following. */
  lemma CountKeepsInv(s: State, t: Thread, pc: PC)
    requires Inv(s) && Holding(At(s, t)) && Holding(pc)
    requires pc.plan == At(s, t).plan && pc.lock == At(s, t).lock
    requires pc.ExecCounts? != At(s, t).ExecCounts?
    ensures Inv(Move(s.(gauge := s.gauge + if pc.ExecCounts? then 1 else -1), t, pc))
  {
    var s1 := s.(gauge := s.gauge + if pc.ExecCounts? then 1 else -1);
    CountedAfterMove(s1, t, pc);
    assert Counted(s1) == Counted(s);
    KeepingKeepsHolders(s1, t, pc);
  }

  lemma KeepingKeepsHolders(s: State, t: Thread, pc: PC)
    requires HeldByOneThread(s) && Holding(At(s, t)) && Holding(pc) && pc.lock == At(s, t).lock
    ensures HeldByOneThread(Move(s, t, pc))
  {
    var s' := Move(s, t, pc);
    assert forall u :: u in s'.threads && Holding(s'.threads[u]) ==>
        u in s.threads && Holding(s.threads[u]) && s.threads[u].lock == s'.threads[u].lock;
    forall l | l in s'.held
      ensures exists u :: u in s'.threads && Holding(s'.threads[u]) && s'.threads[u].lock == l
    {
      var u :| u in s.threads && Holding(s.threads[u]) && s.threads[u].lock == l;
      assert u in s'.threads && Holding(s'.threads[u]) && s'.threads[u].lock == l;
    }
  }

  /** Every atomic step keeps the invariant. */
  lemma {:induction false} StepKeepsInv(metrics: bool, s: State, a: Action)
    requires Inv(s) && Apply(metrics, s, a).Some?
    ensures Inv(Apply(metrics, s, a).value)
  {
    hide Inv;
    match a
    case CallExecute(t, plan) =>
      LookupKeepsInv(s, plan);
      var s1 := WithLock(s, plan);
      MoveWithoutHolding(s1, t, ExecHas(plan, s1.locks[plan]));
    case CallIsRunning(t, plan) =>
      LookupKeepsInv(s, plan);
      var s1 := WithLock(s, plan);
      MoveWithoutHolding(s1, t, ProbeHas(plan, s1.locks[plan]));
    case Advance(t) =>
      match At(s, t) {
        case ExecHas(plan, lock) =>
          if lock in s.held { MoveWithoutHolding(s, t, Rejected(plan)); }
          else { TakeKeepsInv(s, t, ExecHolds(plan, lock)); }
        case ExecHolds(plan, lock) =>
          if metrics { CountKeepsInv(s, t, ExecCounts(plan, lock)); }
          else { DropKeepsInv(s, t, Idle); }
        case ExecCounts(plan, lock) => CountKeepsInv(s, t, ExecLeaves(plan, lock));
        case ExecLeaves(plan, lock) => DropKeepsInv(s, t, Idle);
        case Rejected(plan) => MoveWithoutHolding(s, t, Idle);
        case ProbeHas(plan, lock) =>
          if lock in s.held { MoveWithoutHolding(s, t, Answered(plan, true)); }
          else { TakeKeepsInv(s, t, ProbeHolds(plan, lock)); }
        case ProbeHolds(plan, lock) => DropKeepsInv(s, t, Answered(plan, false));
        case Answered(plan, running) => MoveWithoutHolding(s, t, Idle);
        case Idle =>
      }
  }

  // ---------- What holds after every interleaving ----------

  lemma {:induction false} RunKeepsInv(metrics: bool, s: State, actions: seq<Action>)
    requires Inv(s) && Run(metrics, s, actions).Some?
    ensures Inv(Run(metrics, s, actions).value)
    decreases |actions|
  {
    hide Inv, Apply;
    if actions != [] {
      StepKeepsInv(metrics, s, actions[0]);
      RunKeepsInv(metrics, Apply(metrics, s, actions[0]).value, actions[1..]);
    }
  }

  /** A plan's lock is never replaced once created. */
  lemma {:induction false} LocksAreNeverReplaced(metrics: bool, s: State, actions: seq<Action>)
    requires Run(metrics, s, actions).Some?
    ensures
      forall p :: p in s.locks ==>
        p in Run(metrics, s, actions).value.locks && Run(metrics, s, actions).value.locks[p] == s.locks[p]
    decreases |actions|
  {
    if actions != [] {
      var s1 := Apply(metrics, s, actions[0]).value;
      assert forall p :: p in s.locks ==> p in s1.locks && s1.locks[p] == s.locks[p];
      LocksAreNeverReplaced(metrics, s1, actions[1..]);
    }
  }

  ghost predicate Reachable(metrics: bool, s: State) {
    exists actions :: Run(metrics, INITIAL, actions) == Some(s)
  }

  lemma ReachableInv(metrics: bool, s: State)
    requires Reachable(metrics, s)
    ensures Inv(s)
  {
    var actions :| Run(metrics, INITIAL, actions) == Some(s);
    InvInitially();
    RunKeepsInv(metrics, INITIAL, actions);
  }

  /** At most one execution of a plan is past TryLock, and no probe holds its lock meanwhile. */
  lemma MutualExclusion(metrics: bool, s: State, t: Thread, u: Thread)
    requires Reachable(metrics, s)
    requires Executing(At(s, t)) && Holding(At(s, u)) && At(s, t).plan == At(s, u).plan
    ensures t == u
  {
    ReachableInv(metrics, s);
  }

  lemma {:induction false} InjectionBound(ts: set<Thread>, lockOf: map<Thread, Lock>, ls: set<Lock>)
    requires forall t :: t in ts ==> t in lockOf && lockOf[t] in ls
    requires forall t, u :: t in ts && u in ts && lockOf[t] == lockOf[u] ==> t == u
    ensures |ts| <= |ls|
  {
    if ts != {} {
      var t :| t in ts;
      InjectionBound(ts - {t}, lockOf, ls - {lockOf[t]});
    }
  }

  /** The gauge is the number of executions between Inc and Dec and never exceeds the number of held locks. */
  lemma GaugeCountsExecutions(metrics: bool, s: State)
    requires Reachable(metrics, s)
    ensures s.gauge == |Counted(s)|
    ensures 0 <= s.gauge <= |s.held|
  {
    ReachableInv(metrics, s);
    var lockOf := map t | t in Counted(s) :: s.threads[t].lock;
    assert forall t :: t in Counted(s) ==> Holding(s.threads[t]);
    InjectionBound(Counted(s), lockOf, s.held);
  }

  /** When no call is in progress, no lock is held and the gauge is zero. */
  lemma QuietMeansFree(metrics: bool, s: State)
    requires Reachable(metrics, s)
    requires forall t :: t in s.threads ==> !Holding(s.threads[t])
    ensures s.held == {} && s.gauge == 0
  {
    ReachableInv(metrics, s);
    assert Counted(s) == {} by {
      forall t | t in Counted(s) ensures false {
        assert Holding(s.threads[t]);
      }
    }
  }

  /** A rejected Execute, or an IsRunning that answers true, met another thread holding the plan's lock:
      an execution of that plan or a probe of it. */
  lemma RefusalHasAHolder(metrics: bool, s: State, t: Thread) returns (u: Thread)
    requires Reachable(metrics, s)
    requires At(s, t).ExecHas? || At(s, t).ProbeHas?
    requires Apply(metrics, s, Advance(t)).Some?
    requires
      var pc := At(Apply(metrics, s, Advance(t)).value, t);
      pc == Rejected(At(s, t).plan) || pc == Answered(At(s, t).plan, true)
    ensures u != t && Holding(At(s, u)) && At(s, u).plan == At(s, t).plan
  {
    ReachableInv(metrics, s);
    var lock := At(s, t).lock;
    u :| u in s.threads && Holding(s.threads[u]) && s.threads[u].lock == lock;
  }

  /** An Execute that gets past TryLock, or an IsRunning that goes on to answer false, met no holder. */
  lemma AdmissionHasNoHolder(metrics: bool, s: State, t: Thread, u: Thread)
    requires Reachable(metrics, s)
    requires At(s, t).ExecHas? || At(s, t).ProbeHas?
    requires Holding(At(Apply(metrics, s, Advance(t)).value, t))
    ensures !(Holding(At(s, u)) && At(s, u).plan == At(s, t).plan)
  {
    ReachableInv(metrics, s);
  }

  /** A rejection, or the answer that the plan is running, is truthful, with an execution of the plan under way, exactly
      if no probe of the plan holds its lock. */
  lemma RejectionIsTruthfulIff(metrics: bool, s: State, t: Thread)
    requires Reachable(metrics, s)
    requires (At(s, t).ExecHas? || At(s, t).ProbeHas?) && At(s, t).lock in s.held
    ensures
      (exists u :: Executing(At(s, u)) && At(s, u).plan == At(s, t).plan)
      <==> forall u :: !(At(s, u).ProbeHolds? && At(s, u).plan == At(s, t).plan)
  {
    hide Reachable;
    var h := RefusalHasAHolder(metrics, s, t);
    assert Executing(At(s, h)) || At(s, h).ProbeHolds?;
    forall u, v | Executing(At(s, u)) && At(s, u).plan == At(s, t).plan
      ensures !(At(s, v).ProbeHolds? && At(s, v).plan == At(s, t).plan)
    {
      NoProbeWhileExecuting(metrics, s, u, v);
    }
  }

  lemma NoProbeWhileExecuting(metrics: bool, s: State, u: Thread, v: Thread)
    requires Reachable(metrics, s) && Executing(At(s, u))
    ensures !(At(s, v).ProbeHolds? && At(s, v).plan == At(s, u).plan)
  {
    if At(s, v).ProbeHolds? && At(s, v).plan == At(s, u).plan {
      MutualExclusion(metrics, s, u, v);
    }
  }

  ghost predicate NoProbe(s: State, plan: Plan) {
    forall t :: !((At(s, t).ProbeHas? || At(s, t).ProbeHolds?) && At(s, t).plan == plan)
  }

  lemma {:induction false} NoProbeAppears(metrics: bool, s: State, actions: seq<Action>, plan: Plan)
    requires NoProbe(s, plan) && Run(metrics, s, actions).Some?
    requires forall i :: 0 <= i < |actions| ==> !(actions[i].CallIsRunning? && actions[i].plan == plan)
    ensures NoProbe(Run(metrics, s, actions).value, plan)
    decreases |actions|
  {
    if actions != [] {
      var s1 := Apply(metrics, s, actions[0]).value;
      assert forall u :: u != actions[0].t ==> At(s1, u) == At(s, u);
      NoProbeAppears(metrics, s1, actions[1..], plan);
    }
  }

  /** So as long as nobody asks whether the plan is running, every rejection meets an execution of it. */
  lemma WithoutProbesRejectionIsTruthful(metrics: bool, actions: seq<Action>, s: State, t: Thread) returns (u: Thread)
    requires Run(metrics, INITIAL, actions) == Some(s)
    requires At(s, t).ExecHas? && At(s, t).lock in s.held
    requires forall i :: 0 <= i < |actions| ==> !(actions[i].CallIsRunning? && actions[i].plan == At(s, t).plan)
    ensures u != t && Executing(At(s, u)) && At(s, u).plan == At(s, t).plan
  {
    assert Reachable(metrics, s);
    NoProbeAppears(metrics, INITIAL, actions, At(s, t).plan);
    RejectionIsTruthfulIff(metrics, s, t);
    u :| Executing(At(s, u)) && At(s, u).plan == At(s, t).plan;
  }

  // ---------- The answers of IsRunning ----------

  /** Another thread holds the lock of t's plan: it executes the plan or probes it. */
  ghost predicate HeldByAnother(s: State, t: Thread, plan: Plan) {
    exists u :: u != t && Holding(At(s, u)) && At(s, u).plan == plan
  }

  lemma HeldIff(metrics: bool, s: State, t: Thread)
    requires Reachable(metrics, s) && At(s, t).ProbeHas?
    ensures At(s, t).lock in s.held <==> HeldByAnother(s, t, At(s, t).plan)
  {
    ReachableInv(metrics, s);
    var lock := At(s, t).lock;
    if lock in s.held {
      var u :| u in s.threads && Holding(s.threads[u]) && s.threads[u].lock == lock;
      assert u != t && Holding(At(s, u)) && At(s, u).plan == At(s, t).plan;
    }
  }

  /** The thread makes no new call; its steps and everybody else's calls and steps are arbitrary. */
  predicate MakesNoCall(t: Thread, actions: seq<Action>) {
    forall i :: 0 <= i < |actions| ==> actions[i].Advance? || actions[i].t != t
  }

  /** Where a probe that has tried the lock can get without a new call. */
  predicate HasTried(pc: PC, plan: Plan, held: bool) {
    || pc == Idle
    || pc == Answered(plan, held)
    || (!held && pc.ProbeHolds? && pc.plan == plan)
  }

  lemma {:induction false} AnswerIsFixed(metrics: bool, s: State, actions: seq<Action>, t: Thread, plan: Plan,
                                        held: bool)
    requires HasTried(At(s, t), plan, held) && MakesNoCall(t, actions) && Run(metrics, s, actions).Some?
    ensures HasTried(At(Run(metrics, s, actions).value, t), plan, held)
    decreases |actions|
  {
    if actions != [] {
      var s1 := Apply(metrics, s, actions[0]).value;
      StepKeepsTried(metrics, s, actions[0], t, plan, held);
      assert forall i :: 0 <= i < |actions[1..]| ==> actions[1..][i] == actions[i + 1];
      AnswerIsFixed(metrics, s1, actions[1..], t, plan, held);
    }
  }

  lemma StepKeepsTried(metrics: bool, s: State, a: Action, t: Thread, plan: Plan, held: bool)
    requires HasTried(At(s, t), plan, held) && (a.Advance? || a.t != t) && Apply(metrics, s, a).Some?
    ensures HasTried(At(Apply(metrics, s, a).value, t), plan, held)
  {
    if a.t != t {
      assert At(Apply(metrics, s, a).value, t) == At(s, t);
    }
  }

  /** A call of IsRunning tries the lock in state s. Whatever happens afterwards, its answer, once it is there, is true
      exactly if another thread held the plan's lock when it tried. */
  lemma AnswerIffHeld(metrics: bool, s: State, t: Thread, later: seq<Action>, s': State, plan: Plan, running: bool)
    requires Reachable(metrics, s) && At(s, t).ProbeHas? && At(s, t).plan == plan
    requires MakesNoCall(t, later) && Run(metrics, s, [Advance(t)] + later) == Some(s')
    requires At(s', t) == Answered(plan, running)
    ensures running <==> HeldByAnother(s, t, plan)
  {
    HeldIff(metrics, s, t);
    var actions := [Advance(t)] + later;
    assert actions[0] == Advance(t) && actions[1..] == later;
    var s1 := Apply(metrics, s, Advance(t)).value;
    assert Run(metrics, s1, later) == Some(s');
    AnswerIsFixed(metrics, s1, later, t, plan, At(s, t).lock in s.held);
  }

  /** The calls about the plan: no execution, and probes by one thread only. */
  predicate OnlyProbes(t: Thread, plan: Plan, actions: seq<Action>) {
    forall i :: 0 <= i < |actions| ==>
      match actions[i]
      case CallExecute(_, p) => p != plan
      case CallIsRunning(u, p) => p == plan ==> u == t
      case Advance(_) => true
  }

  /** Nobody but t has to do with the plan, t does not execute it, and has not been told that it is running. */
  ghost predicate OnlyProber(s: State, t: Thread, plan: Plan) {
    && (forall u :: u != t && HasLock(At(s, u)) ==> At(s, u).plan != plan)
    && (HasLock(At(s, t)) && At(s, t).plan == plan ==> At(s, t).ProbeHas? || At(s, t).ProbeHolds?)
    && (forall u :: At(s, u) != Answered(plan, true))
  }

  lemma StepKeepsOnlyProber(metrics: bool, s: State, a: Action, t: Thread, plan: Plan)
    requires Inv(s) && OnlyProber(s, t, plan) && OnlyProbes(t, plan, [a]) && Apply(metrics, s, a).Some?
    ensures OnlyProber(Apply(metrics, s, a).value, t, plan)
  {
    hide Inv;
    var s1 := Apply(metrics, s, a).value;
    assert [a][0] == a;
    assert forall u :: u != a.t ==> At(s1, u) == At(s, u);
    if a.Advance? && At(s, a.t).ProbeHas? && At(s, a.t).plan == plan {
      NobodyHolds(s, a.t, plan);
    }
  }

  lemma NobodyHolds(s: State, t: Thread, plan: Plan)
    requires Inv(s) && OnlyProber(s, t, plan) && At(s, t).ProbeHas? && At(s, t).plan == plan
    ensures At(s, t).lock !in s.held
  {
    forall h | h in s.threads && Holding(s.threads[h])
      ensures s.threads[h].lock != At(s, t).lock
    {
      assert At(s, h) == s.threads[h];
    }
  }

  lemma {:induction false} RunKeepsOnlyProber(metrics: bool, s: State, actions: seq<Action>, t: Thread, plan: Plan)
    requires Inv(s) && OnlyProber(s, t, plan) && OnlyProbes(t, plan, actions) && Run(metrics, s, actions).Some?
    ensures OnlyProber(Run(metrics, s, actions).value, t, plan)
    decreases |actions|
  {
    hide Inv, OnlyProber, Apply;
    if actions != [] {
      assert OnlyProbes(t, plan, [actions[0]]);
      assert OnlyProbes(t, plan, actions[1..]) by {
        assert forall i :: 0 <= i < |actions[1..]| ==> actions[1..][i] == actions[i + 1];
      }
      StepKeepsInv(metrics, s, actions[0]);
      StepKeepsOnlyProber(metrics, s, actions[0], t, plan);
      RunKeepsOnlyProber(metrics, Apply(metrics, s, actions[0]).value, actions[1..], t, plan);
    }
  }

  /** So if nobody executes the plan and one thread asks, however often, every answer is that it is not running. */
  lemma LoneProberHearsNo(metrics: bool, actions: seq<Action>, s: State, t: Thread, plan: Plan, u: Thread)
    requires OnlyProbes(t, plan, actions) && Run(metrics, INITIAL, actions) == Some(s)
    ensures At(s, u) != Answered(plan, true)
  {
    InvInitially();
    RunKeepsOnlyProber(metrics, INITIAL, actions, t, plan);
  }

  /** The rejection message can be wrong: an IsRunning probe alone makes an Execute fail as "already running". */
  lemma ProbeCanRejectExecute(metrics: bool) returns (s: State)
    ensures Reachable(metrics, s)
    ensures At(s, 2) == Rejected(7)
    ensures forall t :: !Executing(At(s, t))
  {
    var a := [CallIsRunning(1, 7), Advance(1), CallExecute(2, 7), Advance(2)];
    var s1 := Apply(metrics, INITIAL, a[0]).value;
    var s2 := Apply(metrics, s1, a[1]).value;
    var s3 := Apply(metrics, s2, a[2]).value;
    s := Apply(metrics, s3, a[3]).value;
    assert a[3..][1..] == [];
    assert Run(metrics, s3, a[3..]) == Some(s);
    assert a[2..][1..] == a[3..];
    assert Run(metrics, s2, a[2..]) == Some(s);
    assert a[1..][1..] == a[2..];
    assert Run(metrics, s1, a[1..]) == Some(s);
    assert Run(metrics, INITIAL, a) == Some(s);
  }

  // ---------- Undisturbed calls ----------

  function Steps(metrics: bool, s: State, t: Thread, n: nat): Option<State> {
    if n == 0 then Some(s)
    else match Steps(metrics, s, t, n - 1) case None => None case Some(s1) => Apply(metrics, s1, Advance(t))
  }

  predicate IsFree(s: State, plan: Plan) {
    plan in s.locks ==> s.locks[plan] !in s.held
  }

  /** Undisturbed, an execution of a plan whose lock is free takes the lock, is counted if there is a recorder, and
      leaves everything as it was; one that finds the lock held is rejected. */
  lemma ExecuteAlone(metrics: bool, s: State, t: Thread, plan: Plan)
    requires Inv(s) && At(s, t) == Idle
    ensures
      var s0 := Apply(metrics, s, CallExecute(t, plan));
      && s0.Some? && plan in s0.value.locks
      && var lock := s0.value.locks[plan];
         if IsFree(s, plan) then
           && Steps(metrics, s0.value, t, 1).Some?
           && Steps(metrics, s0.value, t, 1).value.held == s.held + {lock}
           && (metrics ==> Steps(metrics, s0.value, t, 2).Some?
                           && Steps(metrics, s0.value, t, 2).value.gauge == s.gauge + 1)
           && var end := Steps(metrics, s0.value, t, if metrics then 4 else 2);
              end.Some? && At(end.value, t) == Idle && end.value.held == s.held && end.value.gauge == s.gauge
         else
           var end := Steps(metrics, s0.value, t, 1);
           end.Some? && At(end.value, t) == Rejected(plan) && end.value.held == s.held && end.value.gauge == s.gauge
  {
    hide Steps, Inv, IsFree;
    FreeOrHeld(s, plan);
    var s0 := Move(WithLock(s, plan), t, ExecHas(plan, WithLock(s, plan).locks[plan]));
    StepsUnfold(metrics, s0, t);
    if IsFree(s, plan) {
      FreeExecution(metrics, s0, t, plan, s0.locks[plan]);
    }
  }

  /** From the lookup on. */
  lemma FreeExecution(metrics: bool, s0: State, t: Thread, plan: Plan, lock: Lock)
    requires At(s0, t) == ExecHas(plan, lock) && lock !in s0.held
    ensures
      && Steps(metrics, s0, t, 1).Some?
      && Steps(metrics, s0, t, 1).value.held == s0.held + {lock}
      && (metrics ==> Steps(metrics, s0, t, 2).Some? && Steps(metrics, s0, t, 2).value.gauge == s0.gauge + 1)
      && var end := Steps(metrics, s0, t, if metrics then 4 else 2);
         end.Some? && At(end.value, t) == Idle && end.value.held == s0.held && end.value.gauge == s0.gauge
  {
    hide Steps;
    StepsUnfold(metrics, s0, t);
    assert s0.held + {lock} - {lock} == s0.held;
  }

  /** Undisturbed, a probe of a plan whose lock is free answers false and leaves everything as it was; one that finds
      the lock held answers true. */
  lemma ProbeAlone(metrics: bool, s: State, t: Thread, plan: Plan)
    requires Inv(s) && At(s, t) == Idle
    ensures
      var s0 := Apply(metrics, s, CallIsRunning(t, plan));
      && s0.Some?
      && var end := Steps(metrics, s0.value, t, if IsFree(s, plan) then 2 else 1);
         && end.Some? && At(end.value, t) == Answered(plan, !IsFree(s, plan))
         && end.value.held == s.held && end.value.gauge == s.gauge
  {
    FreeOrHeld(s, plan);
    var s0 := Move(WithLock(s, plan), t, ProbeHas(plan, WithLock(s, plan).locks[plan]));
    var lock := s0.locks[plan];
    StepsUnfold(metrics, s0, t);
    assert lock !in s.held ==> s.held + {lock} - {lock} == s.held;
  }

  /** The lock a lookup returns is held only if it was there before and held then. */
  lemma FreeOrHeld(s: State, plan: Plan)
    requires Inv(s)
    ensures WithLock(s, plan).locks[plan] in s.held <==> !IsFree(s, plan)
  {
    if plan !in s.locks {
      forall l | l in s.held
        ensures l < s.nextLock
      {
        var t :| t in s.threads && Holding(s.threads[t]) && s.threads[t].lock == l;
      }
    }
  }

  lemma StepsUnfold(metrics: bool, s: State, t: Thread)
    ensures Steps(metrics, s, t, 1) == Apply(metrics, s, Advance(t))
    ensures Steps(metrics, s, t, 1).Some? ==>
              Steps(metrics, s, t, 2) == Apply(metrics, Steps(metrics, s, t, 1).value, Advance(t))
    ensures Steps(metrics, s, t, 2).Some? ==>
              Steps(metrics, s, t, 3) == Apply(metrics, Steps(metrics, s, t, 2).value, Advance(t))
    ensures Steps(metrics, s, t, 3).Some? ==>
              Steps(metrics, s, t, 4) == Apply(metrics, Steps(metrics, s, t, 3).value, Advance(t))
  {
  }
}
