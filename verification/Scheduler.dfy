/** The scheduler's registry of plans and the cron jobs behind it. */
module Scheduler {
  import opened Wrappers

  type PlanID = nat
  type EntryID = nat

  /** A stored plan, as far as scheduling goes. */
  datatype Row = Row(cron: string, enabled: bool)

  // ---------- The registry as a value ----------

  datatype State = State(entries: map<PlanID, EntryID>, jobs: map<EntryID, PlanID>, lastEntry: EntryID)

  const FRESH := State(map[], map[], 0)

  /** Cron numbers its jobs upwards; an expression it cannot parse registers nothing. */
  function Add(valid: string -> bool, s: State, plan: PlanID, cron: string): State {
    if !valid(cron) then s
    else
      var id := s.lastEntry + 1;
      State(s.entries[plan := id], s.jobs[id := plan], id)
  }

  function Remove(s: State, plan: PlanID): State {
    if plan !in s.entries then s
    else s.(entries := s.entries - {plan}, jobs := s.jobs - {s.entries[plan]})
  }

  /** found is what the plan store returns: None for a missing plan or a database error. */
  function Reload(valid: string -> bool, s: State, plan: PlanID, found: Option<Row>): (State, bool) {
    var s1 := Remove(s, plan);
    match found
    case None => (s1, false)
    case Some(row) =>
      if !row.enabled then (s1, true)
      else (Add(valid, s1, plan, row.cron), valid(row.cron))
  }

  /** Start registers the enabled plans one by one and skips those it cannot register. */
  function AddAll(valid: string -> bool, s: State, rows: seq<(PlanID, Row)>): State
    decreases |rows|
  {
    if rows == [] then s
    else
      var n := |rows| - 1;
      var (plan, row) := rows[n];
      Add(valid, AddAll(valid, s, rows[..n]), plan, row.cron)
  }

  datatype Op = ReloadOp(plan: PlanID, found: Option<Row>) | RemoveOp(plan: PlanID)

  function Step(valid: string -> bool, s: State, op: Op): State {
    match op
    case ReloadOp(plan, found) => Reload(valid, s, plan, found).0
    case RemoveOp(plan) => Remove(s, plan)
  }

  function Run(valid: string -> bool, s: State, ops: seq<Op>): State
    decreases |ops|
  {
    if ops == [] then s
    else Step(valid, Run(valid, s, ops[..|ops| - 1]), ops[|ops| - 1])
  }

  // ---------- The source's objects ----------

  class Cron {
    var jobs: map<EntryID, PlanID>
    var lastEntry: EntryID

    constructor ()
      ensures jobs == map[] && lastEntry == 0
    {
      jobs, lastEntry := map[], 0;
    }

    method AddFunc(valid: string -> bool, expr: string, plan: PlanID) returns (id: Option<EntryID>)
      modifies this
      ensures id.Some? == valid(expr)
      ensures
        if valid(expr) then
          id == Some(old(lastEntry) + 1) && lastEntry == old(lastEntry) + 1 && jobs == old(jobs)[lastEntry := plan]
        else jobs == old(jobs) && lastEntry == old(lastEntry)
    {
      if !valid(expr) {
        return None;
      }
      lastEntry := lastEntry + 1;
      jobs := jobs[lastEntry := plan];
      return Some(lastEntry);
    }

    method RemoveEntry(id: EntryID)
      modifies this`jobs
      ensures jobs == old(jobs) - {id}
    {
      jobs := jobs - {id};
    }
  }

  class Scheduler {
    const cron: Cron
    var entries: map<PlanID, EntryID>
    /** The last value reported as the number of registered plans. */
    var reported: nat

    ghost function Registry(): State
      reads this, cron
    {
      State(entries, cron.jobs, cron.lastEntry)
    }

    constructor ()
      ensures fresh(cron) && Registry() == FRESH && reported == 0
    {
      entries, reported := map[], 0;
      cron := new Cron();
    }

    method AddPlan(valid: string -> bool, plan: PlanID, row: Row) returns (ok: bool)
      modifies this`entries, cron
      ensures ok == valid(row.cron)
      ensures Registry() == Add(valid, old(Registry()), plan, row.cron)
    {
      var entryID := cron.AddFunc(valid, row.cron, plan);
      if entryID == None {
        return false;
      }
      entries := entries[plan := entryID.value];
      return true;
    }

    method RemovePlan(plan: PlanID)
      modifies this`entries, cron`jobs
      ensures Registry() == Remove(old(Registry()), plan)
      ensures entries == old(entries) - {plan}
      ensures cron.jobs == if plan in old(entries) then old(cron.jobs) - {old(entries)[plan]} else old(cron.jobs)
    {
      if plan in entries {
        cron.RemoveEntry(entries[plan]);
        entries := entries - {plan};
      }
    }

    /** The count reported is that of the live jobs, as long as registry and cron agree. */
    method RunningCount() returns (n: nat)
      ensures n == |entries|
      ensures Agrees(Registry()) ==> n == |cron.jobs|
    {
      n := |entries|;
      if Agrees(Registry()) {
        AgreementMeaning(Registry());
      }
    }

    method UpdateMetrics()
      modifies this`reported
      ensures reported == |entries|
    {
      reported := RunningCount();
    }

    /** enabled is what ListEnabled returns; None if the query fails. */
    method Start(valid: string -> bool, enabled: Option<seq<(PlanID, Row)>>) returns (ok: bool)
      modifies this`entries, this`reported, cron
      ensures ok == enabled.Some?
      ensures Registry() == if ok then AddAll(valid, old(Registry()), enabled.value) else old(Registry())
      ensures ok ==> reported == |entries|
    {
      if enabled == None {
        return false;
      }
      var plans := enabled.value;
      for i := 0 to |plans|
        invariant Registry() == AddAll(valid, old(Registry()), plans[..i])
      {
        var (plan, row) := plans[i];
        var added := AddPlan(valid, plan, row);
        assert plans[..i + 1][..i] == plans[..i];
      }
      assert plans[..|plans|] == plans;
      UpdateMetrics();
      return true;
    }

    method ReloadPlan(valid: string -> bool, plan: PlanID, found: Option<Row>) returns (ok: bool)
      modifies this`entries, this`reported, cron
      ensures (Registry(), ok) == Reload(valid, old(Registry()), plan, found)
      ensures reported == if ok then |entries| else old(reported)
      ensures ok <==> found.Some? && (found.value.enabled ==> valid(found.value.cron))
      ensures plan in entries <==> found.Some? && found.value.enabled && valid(found.value.cron)
      ensures entries - {plan} == old(entries) - {plan}
    {
      hide Add, Agrees;
      ReloadMeaning(valid, Registry(), plan, found);
      RemovePlan(plan);
      if found == None {
        return false;
      }
      if found.value.enabled {
        var added := AddPlan(valid, plan, found.value);
        if !added {
          return false;
        }
      }
      UpdateMetrics();
      return true;
    }
  }

  // ---------- The registry agrees with cron ----------

  /** Entries and live jobs are each other's inverse, and new entry numbers are unused. */
  ghost predicate Agrees(s: State) {
    && (forall p :: p in s.entries ==> s.entries[p] in s.jobs && s.jobs[s.entries[p]] == p)
    && (forall e :: e in s.jobs ==> s.jobs[e] in s.entries && s.entries[s.jobs[e]] == e)
    && (forall e :: e in s.jobs ==> e <= s.lastEntry)
  }

  /** So different plans have different jobs, the jobs are exactly the registered entries, and their numbers agree. */
  lemma AgreementMeaning(s: State)
    requires Agrees(s)
    ensures forall p, q :: p in s.entries && q in s.entries && s.entries[p] == s.entries[q] ==> p == q
    ensures s.entries.Values == s.jobs.Keys && s.jobs.Values == s.entries.Keys
    ensures |s.entries| == |s.jobs|
  {
    assert s.entries.Values == s.jobs.Keys by {
      forall e | e in s.jobs ensures e in s.entries.Values {
        assert s.entries[s.jobs[e]] == e;
      }
    }
    assert s.jobs.Values == s.entries.Keys by {
      forall p | p in s.entries ensures p in s.jobs.Values {
        assert s.jobs[s.entries[p]] == p;
      }
    }
    InverseMaps(s.entries, s.jobs);
  }

  lemma {:induction false} InverseMaps(f: map<PlanID, EntryID>, g: map<EntryID, PlanID>)
    requires forall p :: p in f ==> f[p] in g && g[f[p]] == p
    requires forall e :: e in g ==> g[e] in f && f[g[e]] == e
    ensures |f| == |g|
    decreases |f|
  {
    if f != map[] {
      var p :| p in f;
      var f', g' := f - {p}, g - {f[p]};
      assert f.Keys == f'.Keys + {p} && g.Keys == g'.Keys + {f[p]};
      assert |f| == |f'| + 1 && |g| == |g'| + 1;
      InverseMaps(f', g');
    } else if e :| e in g {
      assert g[e] in f;
    }
  }

  /** Adding a plan keeps agreement exactly if nothing is added or the plan is not registered. */
  lemma AddKeepsAgreementIff(valid: string -> bool, s: State, plan: PlanID, cron: string)
    requires Agrees(s)
    ensures Agrees(Add(valid, s, plan, cron)) <==> !valid(cron) || plan !in s.entries
  {
    if valid(cron) && plan in s.entries {
      var s' := Add(valid, s, plan, cron);
      assert s.entries[plan] in s'.jobs && s'.jobs[s.entries[plan]] == plan;
    }
  }

  lemma RemoveKeepsAgreement(s: State, plan: PlanID)
    requires Agrees(s)
    ensures Agrees(Remove(s, plan)) && plan !in Remove(s, plan).entries
  {
  }

  lemma {:induction false} StepKeepsAgreement(valid: string -> bool, s: State, op: Op)
    requires Agrees(s)
    ensures Agrees(Step(valid, s, op))
  {
    RemoveKeepsAgreement(s, op.plan);
    match op
    case RemoveOp(plan) =>
    case ReloadOp(plan, found) =>
      if found.Some? && found.value.enabled {
        AddKeepsAgreementIff(valid, Remove(s, plan), plan, found.value.cron);
      }
  }

  predicate DistinctPlans(rows: seq<(PlanID, Row)>) {
    forall i, j :: 0 <= i < j < |rows| ==> rows[i].0 != rows[j].0
  }

  /** After Start on a fresh scheduler, a plan is registered exactly if it is listed with a parseable expression. */
  lemma {:induction false} StartRegisters(valid: string -> bool, rows: seq<(PlanID, Row)>)
    requires DistinctPlans(rows)
    ensures Agrees(AddAll(valid, FRESH, rows))
    ensures forall p ::
      p in AddAll(valid, FRESH, rows).entries
      <==> exists i :: 0 <= i < |rows| && rows[i].0 == p && valid(rows[i].1.cron)
    decreases |rows|
  {
    if rows != [] {
      var n := |rows| - 1;
      var before := AddAll(valid, FRESH, rows[..n]);
      StartRegisters(valid, rows[..n]);
      assert forall i :: 0 <= i < n ==> rows[..n][i] == rows[i];
      assert rows[n].0 !in before.entries;
      AddKeepsAgreementIff(valid, before, rows[n].0, rows[n].1.cron);
      forall p
        ensures p in AddAll(valid, FRESH, rows).entries
           <==> exists i :: 0 <= i < |rows| && rows[i].0 == p && valid(rows[i].1.cron)
      {
        if i :| 0 <= i < n && rows[..n][i].0 == p && valid(rows[..n][i].1.cron) {
          assert rows[i].0 == p;
        }
        if i :| 0 <= i < |rows| && rows[i].0 == p && valid(rows[i].1.cron) {
          if i < n { assert rows[..n][i] == rows[i]; }
        }
      }
    }
  }

  /** Whether a plan should be registered: the last call about it decides, and before any call Start does. */
  predicate ShouldRun(valid: string -> bool, atStart: bool, ops: seq<Op>, p: PlanID)
    decreases |ops|
  {
    if ops == [] then atStart
    else
      match ops[|ops| - 1]
      case RemoveOp(plan) => plan != p && ShouldRun(valid, atStart, ops[..|ops| - 1], p)
      case ReloadOp(plan, found) =>
        if plan == p then found.Some? && found.value.enabled && valid(found.value.cron)
        else ShouldRun(valid, atStart, ops[..|ops| - 1], p)
  }

  /** Over every sequence of calls that do not overlap, registry and cron agree and
      a plan is registered exactly if the last call about it says so. */
  lemma {:induction false} RunAgrees(valid: string -> bool, s: State, ops: seq<Op>, p: PlanID)
    requires Agrees(s)
    ensures Agrees(Run(valid, s, ops))
    ensures p in Run(valid, s, ops).entries <==> ShouldRun(valid, p in s.entries, ops, p)
    decreases |ops|
  {
    if ops != [] {
      var n := |ops| - 1;
      RunAgrees(valid, s, ops[..n], p);
      StepKeepsAgreement(valid, Run(valid, s, ops[..n]), ops[n]);
    }
  }

  /** A call about one plan leaves the entry and the job of every other plan as they are. */
  lemma StepLeavesOthersAlone(valid: string -> bool, s: State, op: Op, p: PlanID)
    requires Agrees(s) && p != op.plan
    ensures p in Step(valid, s, op).entries <==> p in s.entries
    ensures p in s.entries ==>
      && Step(valid, s, op).entries[p] == s.entries[p]
      && s.entries[p] in Step(valid, s, op).jobs && Step(valid, s, op).jobs[s.entries[p]] == p
  {
  }

  /** When a reload reports no error, and whether the plan is registered afterwards, for a missing plan, one stored as
      disabled, and one with an expression that does not parse. */
  lemma ReloadMeaning(valid: string -> bool, s: State, plan: PlanID, found: Option<Row>)
    ensures
      var (s', ok) := Reload(valid, s, plan, found);
      && (ok <==> found.Some? && (found.value.enabled ==> valid(found.value.cron)))
      && (plan in s'.entries <==> found.Some? && found.value.enabled && valid(found.value.cron))
      && s'.entries - {plan} == s.entries - {plan}
  {
  }

  /** A reload that reports no error leaves the plan registered exactly if it is stored as enabled. */
  lemma ReloadFollowsStore(valid: string -> bool, s: State, plan: PlanID, found: Option<Row>)
    requires Agrees(s) && Reload(valid, s, plan, found).1
    ensures found.Some? && (plan in Reload(valid, s, plan, found).0.entries <==> found.value.enabled)
  {
  }

  // ---------- Calls that overlap ----------

  /** The atomic parts of the calls. Adding a plan first gives its job to cron and then registers the entry;
      in between, other parts of other calls can take effect. */
  datatype Part =
    | Unregister(plan: PlanID)
    | Schedule(plan: PlanID, cron: string)
    | Register(plan: PlanID, entry: EntryID)

  /** pending holds the jobs that cron runs already and that are not registered yet. */
  datatype Flight = Flight(reg: State, pending: set<EntryID>)

  predicate CanRegister(f: Flight, plan: PlanID, entry: EntryID) {
    entry in f.pending && entry in f.reg.jobs && f.reg.jobs[entry] == plan
  }

  function Play(valid: string -> bool, f: Flight, part: Part): Flight {
    match part
    case Unregister(plan) => f.(reg := Remove(f.reg, plan))
    case Schedule(plan, cron) =>
      if !valid(cron) then f
      else
        var id := f.reg.lastEntry + 1;
        Flight(f.reg.(jobs := f.reg.jobs[id := plan], lastEntry := id), f.pending + {id})
    case Register(plan, entry) =>
      if !CanRegister(f, plan, entry) then f
      else Flight(f.reg.(entries := f.reg.entries[plan := entry]), f.pending - {entry})
  }

  /** Any interleaving of the parts of any calls. */
  function PlayAll(valid: string -> bool, f: Flight, parts: seq<Part>): Flight
    decreases |parts|
  {
    if parts == [] then f
    else Play(valid, PlayAll(valid, f, parts[..|parts| - 1]), parts[|parts| - 1])
  }

  /** Every entry has a live, registered job that fires its own plan. This much survives every overlap. */
  ghost predicate EntriesFire(f: Flight) {
    && (forall p :: p in f.reg.entries ==>
          f.reg.entries[p] in f.reg.jobs && f.reg.jobs[f.reg.entries[p]] == p && f.reg.entries[p] !in f.pending)
    && (forall e :: e in f.pending ==> e in f.reg.jobs)
    && (forall e :: e in f.reg.jobs ==> e <= f.reg.lastEntry)
  }

  /** A job that is neither pending nor registered. */
  predicate IsOrphan(f: Flight, e: EntryID) {
    && e in f.reg.jobs && e !in f.pending
    && (f.reg.jobs[e] !in f.reg.entries || f.reg.entries[f.reg.jobs[e]] != e)
  }

  ghost predicate AgreesInFlight(f: Flight) {
    EntriesFire(f) && forall e :: !IsOrphan(f, e)
  }

  /** With nothing pending that is the agreement of registry and cron. */
  lemma LandedAgreement(s: State)
    ensures AgreesInFlight(Flight(s, {})) <==> Agrees(s)
  {
    var f := Flight(s, {});
    if AgreesInFlight(f) {
      forall e | e in s.jobs
        ensures s.jobs[e] in s.entries && s.entries[s.jobs[e]] == e
      {
        assert !IsOrphan(f, e);
      }
    }
  }

  /** A reload whose parts are not interrupted is the reload of the registry. */
  lemma UninterruptedReload(valid: string -> bool, s: State, plan: PlanID, cron: string)
    requires valid(cron)
    ensures
      var parts := [Unregister(plan), Schedule(plan, cron), Register(plan, s.lastEntry + 1)];
      PlayAll(valid, Flight(s, {}), parts)
      == Flight(Reload(valid, s, plan, Some(Row(cron, true))).0, {})
  {
    hide Play, PlayAll, Remove, Add;
    PlayThree(valid, Flight(s, {}), Unregister(plan), Schedule(plan, cron), Register(plan, s.lastEntry + 1));
    UnregisterIsRemove(valid, s, plan);
    ScheduleAndRegister(valid, Remove(s, plan), plan, cron);
  }

  lemma UnregisterIsRemove(valid: string -> bool, s: State, plan: PlanID)
    ensures Play(valid, Flight(s, {}), Unregister(plan)) == Flight(Remove(s, plan), {})
    ensures Remove(s, plan).lastEntry == s.lastEntry
  {
  }

  lemma ScheduleAndRegister(valid: string -> bool, s: State, plan: PlanID, cron: string)
    requires valid(cron)
    ensures
      Play(valid, Play(valid, Flight(s, {}), Schedule(plan, cron)), Register(plan, s.lastEntry + 1))
      == Flight(Add(valid, s, plan, cron), {})
  {
    hide PlayAll;
    var id := s.lastEntry + 1;
    var f := Play(valid, Flight(s, {}), Schedule(plan, cron));
    assert f == Flight(s.(jobs := s.jobs[id := plan], lastEntry := id), {id});
    assert {id} - {id} == {};
  }

  lemma PlayThree(valid: string -> bool, f: Flight, a: Part, b: Part, c: Part)
    ensures PlayAll(valid, f, [a, b, c]) == Play(valid, Play(valid, Play(valid, f, a), b), c)
  {
    hide Play;
    assert [a, b, c][..2] == [a, b] && [a, b][..1] == [a] && [a][..0] == [];
    assert PlayAll(valid, f, [a]) == Play(valid, f, a);
    assert PlayAll(valid, f, [a, b]) == Play(valid, Play(valid, f, a), b);
  }

  lemma PartKeepsEntriesFiring(valid: string -> bool, f: Flight, part: Part)
    requires EntriesFire(f)
    ensures EntriesFire(Play(valid, f, part))
  {
  }

  /** An orphan is for ever: no later part removes its job or registers it. */
  lemma OrphanStays(valid: string -> bool, f: Flight, part: Part, e: EntryID)
    requires EntriesFire(f) && IsOrphan(f, e)
    ensures IsOrphan(Play(valid, f, part), e)
  {
  }

  /** The part is not a registration, or it finds its plan unregistered. */
  predicate FindsPlanFree(f: Flight, part: Part) {
    part.Register? && CanRegister(f, part.plan, part.entry) ==> part.plan !in f.reg.entries
  }

  lemma PartKeepsAgreementIff(valid: string -> bool, f: Flight, part: Part)
    requires AgreesInFlight(f)
    ensures AgreesInFlight(Play(valid, f, part)) <==> FindsPlanFree(f, part)
  {
    PartKeepsEntriesFiring(valid, f, part);
    var f' := Play(valid, f, part);
    if FindsPlanFree(f, part) {
      forall e
        ensures !IsOrphan(f', e)
      {
        assert !IsOrphan(f, e);
      }
    } else {
      assert IsOrphan(f', f.reg.entries[part.plan]);
    }
  }

  /** However calls overlap, registry and cron agree at the end exactly if every registration that took effect found
      its plan unregistered. */
  lemma {:induction false} OverlapAgreesIff(valid: string -> bool, f: Flight, parts: seq<Part>)
    requires AgreesInFlight(f)
    ensures EntriesFire(PlayAll(valid, f, parts))
    ensures
      AgreesInFlight(PlayAll(valid, f, parts))
      <==> forall i :: 0 <= i < |parts| ==> FoundPlanFree(valid, f, parts, i)
    decreases |parts|
  {
    hide Play, PlayAll, FoundPlanFree, EntriesFire, AgreesInFlight;
    if parts == [] {
      assert PlayAll(valid, f, parts) == f by { NothingPlayed(valid, f); }
      assert EntriesFire(f) by { InFlightFires(f); }
    } else {
      var n := |parts| - 1;
      var before := PlayAll(valid, f, parts[..n]);
      OverlapAgreesIff(valid, f, parts[..n]);
      LastPart(valid, f, parts);
      PartKeepsEntriesFiring(valid, before, parts[n]);
      if AgreesInFlight(before) {
        PartKeepsAgreementIff(valid, before, parts[n]);
      } else {
        DisagreementStays(valid, before, parts[n]);
      }
    }
  }

  predicate FoundPlanFree(valid: string -> bool, f: Flight, parts: seq<Part>, i: nat)
    requires i < |parts|
  {
    FindsPlanFree(PlayAll(valid, f, parts[..i]), parts[i])
  }

  lemma NothingPlayed(valid: string -> bool, f: Flight)
    ensures PlayAll(valid, f, []) == f
  {
  }

  lemma InFlightFires(f: Flight)
    ensures AgreesInFlight(f) ==> EntriesFire(f)
  {
  }

  lemma LastPart(valid: string -> bool, f: Flight, parts: seq<Part>)
    requires parts != []
    ensures
      var n := |parts| - 1;
      && PlayAll(valid, f, parts) == Play(valid, PlayAll(valid, f, parts[..n]), parts[n])
      && (forall i :: 0 <= i < n ==> (FoundPlanFree(valid, f, parts, i) <==> FoundPlanFree(valid, f, parts[..n], i)))
      && (FoundPlanFree(valid, f, parts, n) <==> FindsPlanFree(PlayAll(valid, f, parts[..n]), parts[n]))
  {
    hide Play, FindsPlanFree;
    var n := |parts| - 1;
    assert forall i :: 0 <= i < n ==> parts[..n][..i] == parts[..i] && parts[..n][i] == parts[i];
  }

  lemma DisagreementStays(valid: string -> bool, f: Flight, part: Part)
    requires EntriesFire(f) && !AgreesInFlight(f)
    ensures !AgreesInFlight(Play(valid, f, part))
  {
    var e :| IsOrphan(f, e);
    OrphanStays(valid, f, part, e);
  }

  /** The plan is not registered again between parts j and i. */
  predicate NotRegisteredBetween(parts: seq<Part>, plan: PlanID, j: nat, i: nat)
    requires j <= i <= |parts|
  {
    forall k :: j <= k < i ==> !(parts[k].Register? && parts[k].plan == plan)
  }

  /** Before part i the plan was unregistered since its last registration, or there was none. */
  predicate WasFreed(parts: seq<Part>, plan: PlanID, atStart: set<PlanID>, i: nat)
    requires i <= |parts|
  {
    || (plan !in atStart && NotRegisteredBetween(parts, plan, 0, i))
    || exists j :: 0 <= j < i && parts[j] == Unregister(plan) && NotRegisteredBetween(parts, plan, j, i)
  }

  lemma {:induction false} StaysFree(valid: string -> bool, f: Flight, parts: seq<Part>, plan: PlanID, j: nat, i: nat)
    requires j <= i <= |parts| && NotRegisteredBetween(parts, plan, j, i)
    requires plan !in PlayAll(valid, f, parts[..j]).reg.entries
    ensures plan !in PlayAll(valid, f, parts[..i]).reg.entries
    decreases i
  {
    hide PlayAll, FindsPlanFree;
    if j < i {
      StaysFree(valid, f, parts, plan, j, i - 1);
      LastPart(valid, f, parts[..i]);
      assert parts[..i][..i - 1] == parts[..i - 1] && parts[..i][i - 1] == parts[i - 1];
    }
  }

  lemma FreedIsFree(valid: string -> bool, f: Flight, parts: seq<Part>, plan: PlanID, i: nat)
    requires i <= |parts| && WasFreed(parts, plan, f.reg.entries.Keys, i)
    ensures plan !in PlayAll(valid, f, parts[..i]).reg.entries
  {
    hide PlayAll, FindsPlanFree;
    if plan !in f.reg.entries && NotRegisteredBetween(parts, plan, 0, i) {
      NothingPlayed(valid, f);
      assert parts[..0] == [];
      StaysFree(valid, f, parts, plan, 0, i);
    } else {
      var j :| 0 <= j < i && parts[j] == Unregister(plan) && NotRegisteredBetween(parts, plan, j, i);
      LastPart(valid, f, parts[..j + 1]);
      assert parts[..j + 1][..j] == parts[..j] && parts[..j + 1][j] == parts[j];
      StaysFree(valid, f, parts, plan, j + 1, i);
    }
  }

  /** What can be read off the calls: if every registration of a plan comes after the plan was unregistered, with no
      other registration of it in between, they agree at the end. So reloads of different plans may overlap freely. */
  lemma FreedPlansAgree(valid: string -> bool, f: Flight, parts: seq<Part>)
    requires AgreesInFlight(f)
    requires forall i :: 0 <= i < |parts| && parts[i].Register? ==>
               WasFreed(parts, parts[i].plan, f.reg.entries.Keys, i)
    ensures AgreesInFlight(PlayAll(valid, f, parts))
  {
    hide PlayAll, AgreesInFlight, WasFreed;
    OverlapAgreesIff(valid, f, parts);
    forall i | 0 <= i < |parts|
      ensures FoundPlanFree(valid, f, parts, i)
    {
      if parts[i].Register? {
        FreedIsFree(valid, f, parts, parts[i].plan, i);
      }
    }
  }

  /** Two reloads of one plan whose remove and add parts interleave leave two jobs for it, and one of them
      survives a later removal. */
  lemma OverlappingReloadsLeaveAnOrphan(valid: string -> bool, s: State, plan: PlanID, cron: string)
    requires Agrees(s) && valid(cron)
    ensures
      var s1 := Remove(Remove(s, plan), plan);
      var s2 := Add(valid, Add(valid, s1, plan, cron), plan, cron);
      var s3 := Remove(s2, plan);
      && plan !in s3.entries
      && (exists e :: e in s3.jobs && s3.jobs[e] == plan)
      && !Agrees(s2)
  {
    var s1 := Remove(Remove(s, plan), plan);
    var e := s1.lastEntry + 1;
    var s2 := Add(valid, Add(valid, s1, plan, cron), plan, cron);
    assert s2.jobs[e] == plan && s2.entries[plan] == e + 1;
    assert Remove(s2, plan).jobs[e] == plan;
  }
}
