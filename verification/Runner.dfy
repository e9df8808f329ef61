/** Sequential execution of a plan's steps, trimming of results, and the failed step shown in alerts. */
module Runner {
  import opened Context
  import opened Wrappers

  /** Status is "success", "failed" or "timeout"; the optional fields are details for display. */
  datatype StepResult = StepResult(
    name: string,
    typ: string,
    status: string,
    durationMs: int,
    error: string,
    captures: Option<Vars>,
    request: Option<string>,
    response: Option<string>,
    scriptLogs: seq<string>,
    scriptError: string)

  /** Runs step number i with the current variables: its result and what it captured. */
  type Executor<!S> = (nat, S, Vars) -> (StepResult, Vars)

  /** The error of an execution; a stopped one names the step by its position from 1. */
  datatype RunError =
    | NoError
    | AlreadyRunning
    | PlanTimeout
    | StepStopped(number: nat, name: string, status: string, error: string)

  class ExecResult {
    var status: string
    var error: RunError
    var durationMs: int
    /** A slice: the first count elements of its backing array. */
    var buf: array<StepResult>
    var count: nat

    ghost predicate Valid()
      reads this
    {
      count <= buf.Length
    }

    ghost function Results(): seq<StepResult>
      requires Valid()
      reads this, buf
    {
      buf[..count]
    }

    constructor (capacity: nat, status: string, error: RunError)
      ensures Valid() && fresh(buf) && buf.Length == capacity
      ensures this.status == status && this.error == error && count == 0 && durationMs == 0
    {
      this.status, this.error, durationMs, count := status, error, 0, 0;
      buf := new StepResult[capacity];
    }

    method Append(r: StepResult)
      requires Valid() && count < buf.Length
      modifies this`count, buf
      ensures Valid() && count == old(count) + 1
      ensures Results() == old(Results()) + [r]
    {
      buf[count] := r;
      count := count + 1;
    }
  }

  // ---------- What an execution is ----------

  /** The variables step k runs with, if the steps before it all ran. */
  function VarsAt<S>(exec: Executor<S>, steps: seq<S>, planVars: Vars, k: nat): Vars
    requires k <= |steps|
  {
    if k == 0 then planVars
    else
      var before := VarsAt(exec, steps, planVars, k - 1);
      before + exec(k - 1, steps[k - 1], before).1
  }

  function ResultAt<S>(exec: Executor<S>, steps: seq<S>, planVars: Vars, k: nat): StepResult
    requires k < |steps|
  {
    exec(k, steps[k], VarsAt(exec, steps, planVars, k)).0
  }

  /** The results are those of the first steps, all but the last successful, none started after cancellation. */
  ghost predicate IsPrefixOfRun<S>(exec: Executor<S>, steps: seq<S>, planVars: Vars, cancelled: nat -> bool,
                                   results: seq<StepResult>) {
    && |results| <= |steps|
    && (forall k :: 0 <= k < |results| ==> results[k] == ResultAt(exec, steps, planVars, k) && !cancelled(k))
    && (forall k :: 0 <= k < |results| - 1 ==> results[k].status == "success")
  }

  predicate StoppedByStep(results: seq<StepResult>) {
    |results| > 0 && results[|results| - 1].status != "success"
  }

  /** The run is over: a step stopped it, or the steps are done, or the next one was cancelled. */
  predicate IsOver(stepCount: nat, cancelled: nat -> bool, results: seq<StepResult>) {
    StoppedByStep(results) || |results| == stepCount || cancelled(|results|)
  }

  function FinalStatus(stepCount: nat, results: seq<StepResult>): string {
    if StoppedByStep(results) then results[|results| - 1].status
    else if |results| == stepCount then "success"
    else "timeout"
  }

  /** A stopped run names its last step as the plan does. */
  function FinalError<S>(nameOf: S -> string, steps: seq<S>, results: seq<StepResult>): RunError
    requires |results| <= |steps|
  {
    if StoppedByStep(results) then
      var n := |results|;
      StepStopped(n, nameOf(steps[n - 1]), results[n - 1].status, results[n - 1].error)
    else if |results| == |steps| then NoError
    else PlanTimeout
  }

  function Calls(results: seq<StepResult>): seq<(nat, StepResult)> {
    seq(|results|, i requires 0 <= i < |results| => (i, results[i]))
  }

  lemma NothingRun<S>(exec: Executor<S>, steps: seq<S>, planVars: Vars, cancelled: nat -> bool)
    ensures IsPrefixOfRun(exec, steps, planVars, cancelled, []) && Calls([]) == []
    ensures VarsAt(exec, steps, planVars, 0) == planVars
  {
  }

  /** One more step of a run that has not been stopped. */
  lemma OneMoreStep<S>(exec: Executor<S>, steps: seq<S>, planVars: Vars, cancelled: nat -> bool,
                       results: seq<StepResult>, r: StepResult, captured: Vars)
    requires IsPrefixOfRun(exec, steps, planVars, cancelled, results)
    requires |results| < |steps| && !StoppedByStep(results) && !cancelled(|results|)
    requires (r, captured) == exec(|results|, steps[|results|], VarsAt(exec, steps, planVars, |results|))
    ensures IsPrefixOfRun(exec, steps, planVars, cancelled, results + [r])
    ensures Calls(results + [r]) == Calls(results) + [(|results|, r)]
    ensures VarsAt(exec, steps, planVars, |results| + 1) == VarsAt(exec, steps, planVars, |results|) + captured
  {
  }

  // ---------- The source's loop ----------

  /** locked: another execution or a probe holds the plan's lock. cancelled(i): the context has ended before step i.
      calls is what the callback was invoked with. */
  method Execute<S>(exec: Executor<S>, nameOf: S -> string, steps: seq<S>, planVars: Vars, locked: bool,
                    cancelled: nat -> bool, elapsed: int)
    returns (result: ExecResult, calls: seq<(nat, StepResult)>, vars: CtxMap)
    ensures fresh(result) && fresh(result.buf) && result.Valid()
    ensures locked ==>
      result.Results() == [] && result.status == "failed" && result.error == AlreadyRunning
      && calls == [] && result.durationMs == 0
    ensures !locked ==>
      && IsPrefixOfRun(exec, steps, planVars, cancelled, result.Results())
      && IsOver(|steps|, cancelled, result.Results())
      && result.status == FinalStatus(|steps|, result.Results())
      && result.error == FinalError(nameOf, steps, result.Results())
      && calls == Calls(result.Results())
      && vars.m == VarsAt(exec, steps, planVars, result.count)
      && result.durationMs == elapsed
    ensures !locked ==>
      var rs := result.Results();
      var n := |rs|;
      && n <= |steps|
      && (if n > 0 && rs[n - 1].status != "success" then
            && result.status == rs[n - 1].status
            && result.error == StepStopped(n, nameOf(steps[n - 1]), rs[n - 1].status, rs[n - 1].error)
          else if n == |steps| then result.status == "success" && result.error == NoError
          else cancelled(n) && result.status == "timeout" && result.error == PlanTimeout)
      && |calls| == n && forall i :: 0 <= i < n ==> calls[i] == (i, rs[i])
  {
    if locked {
      calls := [];
      vars := new CtxMap(planVars);
      result := new ExecResult(0, "failed", AlreadyRunning);
      return;
    }
    result := new ExecResult(|steps|, "success", NoError);
    calls, vars := RunSteps(exec, nameOf, steps, planVars, cancelled, result);
    result.durationMs := elapsed;
  }

  /** A step that captured nothing leaves the context as it is. */
  method MergeCaptured(vars: CtxMap, captured: Vars) returns (merged: CtxMap)
    ensures merged.m == vars.m + captured
  {
    if |captured| > 0 {
      var overlay := new CtxMap(captured);
      merged := Merge(vars, overlay);
    } else {
      merged := vars;
      assert captured == map[] && vars.m + map[] == vars.m;
    }
  }

  /** The loop over the steps. */
  method RunSteps<S>(exec: Executor<S>, nameOf: S -> string, steps: seq<S>, planVars: Vars, cancelled: nat -> bool,
                     result: ExecResult)
    returns (calls: seq<(nat, StepResult)>, vars: CtxMap)
    requires result.Valid() && result.count == 0 && result.buf.Length == |steps|
    requires result.status == "success" && result.error == NoError
    modifies result`count, result`status, result`error, result.buf
    ensures result.Valid()
    ensures IsPrefixOfRun(exec, steps, planVars, cancelled, result.Results())
    ensures IsOver(|steps|, cancelled, result.Results())
    ensures result.status == FinalStatus(|steps|, result.Results())
    ensures result.error == FinalError(nameOf, steps, result.Results())
    ensures calls == Calls(result.Results())
    ensures vars.m == VarsAt(exec, steps, planVars, result.count)
  {
    hide IsPrefixOfRun, Calls, VarsAt, ResultAt;
    NothingRun(exec, steps, planVars, cancelled);
    calls := [];
    vars := new CtxMap(planVars);
    ghost var done: seq<StepResult> := [];
    var i := 0;
    while i < |steps|
      invariant 0 <= i == |done| == result.count <= |steps| && result.Valid()
      invariant result.Results() == done
      invariant IsPrefixOfRun(exec, steps, planVars, cancelled, done)
      invariant !StoppedByStep(done) && result.status == "success" && result.error == NoError
      invariant calls == Calls(done)
      invariant vars.m == VarsAt(exec, steps, planVars, i)
    {
      if cancelled(i) {
        result.status := "timeout";
        result.error := PlanTimeout;
        break;
      }
      var (stepResult, captured) := exec(i, steps[i], vars.m);
      result.Append(stepResult);
      OneMoreStep(exec, steps, planVars, cancelled, done, stepResult, captured);
      done := done + [stepResult];
      calls := calls + [(i, stepResult)];
      vars := MergeCaptured(vars, captured);
      if stepResult.status != "success" {
        result.status := stepResult.status;
        result.error := StepStopped(i + 1, nameOf(steps[i]), stepResult.status, stepResult.error);
        break;
      }
      i := i + 1;
    }
  }

  // ---------- What the shape implies ----------

  /** What step j captures in a run that reaches it. */
  function CapturedAt<S>(exec: Executor<S>, steps: seq<S>, planVars: Vars, j: nat): Vars
    requires j < |steps|
  {
    exec(j, steps[j], VarsAt(exec, steps, planVars, j)).1
  }

  predicate NoneCaptures<S>(exec: Executor<S>, steps: seq<S>, planVars: Vars, from: nat, to: nat, name: string)
    requires to <= |steps|
  {
    forall j :: from <= j < to ==> name !in CapturedAt(exec, steps, planVars, j)
  }

  /** A variable holds what the last step that captured it captured, */
  lemma {:induction false} LastCapturedIsSeen<S>(exec: Executor<S>, steps: seq<S>, planVars: Vars, k: nat, name: string,
                                                 w: nat)
    requires w < k <= |steps| && name in CapturedAt(exec, steps, planVars, w)
    requires NoneCaptures(exec, steps, planVars, w + 1, k, name)
    ensures
      var vars := VarsAt(exec, steps, planVars, k);
      name in vars && vars[name] == CapturedAt(exec, steps, planVars, w)[name]
    decreases k
  {
    hide CapturedAt, VarsAt;
    VarsNext(exec, steps, planVars, k);
    if w < k - 1 {
      LastCapturedIsSeen(exec, steps, planVars, k - 1, name, w);
    }
  }

  /** or else what the plan gives it. */
  lemma {:induction false} PlanVariableStays<S>(exec: Executor<S>, steps: seq<S>, planVars: Vars, k: nat, name: string)
    requires k <= |steps| && NoneCaptures(exec, steps, planVars, 0, k, name)
    ensures
      var vars := VarsAt(exec, steps, planVars, k);
      (name in vars <==> name in planVars) && (name in planVars ==> vars[name] == planVars[name])
    decreases k
  {
    hide CapturedAt, VarsAt;
    VarsNext(exec, steps, planVars, k);
    if k > 0 {
      PlanVariableStays(exec, steps, planVars, k - 1, name);
    }
  }

  lemma VarsNext<S>(exec: Executor<S>, steps: seq<S>, planVars: Vars, k: nat)
    requires k <= |steps|
    ensures
      VarsAt(exec, steps, planVars, k)
      == if k == 0 then planVars
         else VarsAt(exec, steps, planVars, k - 1) + CapturedAt(exec, steps, planVars, k - 1)
  {
  }

  /** There is only one list of results an execution can end with. */
  lemma {:induction false} ResultsAreDetermined<S>(exec: Executor<S>, steps: seq<S>, planVars: Vars,
                                                   cancelled: nat -> bool, r1: seq<StepResult>, r2: seq<StepResult>)
    requires IsPrefixOfRun(exec, steps, planVars, cancelled, r1) && IsOver(|steps|, cancelled, r1)
    requires IsPrefixOfRun(exec, steps, planVars, cancelled, r2) && IsOver(|steps|, cancelled, r2)
    ensures r1 == r2
  {
    NoLonger(exec, steps, planVars, cancelled, r1, r2);
    NoLonger(exec, steps, planVars, cancelled, r2, r1);
  }

  lemma {:induction false} NoLonger<S>(exec: Executor<S>, steps: seq<S>, planVars: Vars, cancelled: nat -> bool,
                    r1: seq<StepResult>, r2: seq<StepResult>)
    requires IsPrefixOfRun(exec, steps, planVars, cancelled, r1) && IsOver(|steps|, cancelled, r1)
    requires IsPrefixOfRun(exec, steps, planVars, cancelled, r2)
    ensures |r2| <= |r1|
  {
    if |r1| < |r2| {
      assert false;
    }
  }

  /** The status is success exactly when every step ran and succeeded. */
  lemma {:induction false} SuccessIff<S>(exec: Executor<S>, steps: seq<S>, planVars: Vars, cancelled: nat -> bool,
                      results: seq<StepResult>)
    requires IsPrefixOfRun(exec, steps, planVars, cancelled, results)
    ensures
      FinalStatus(|steps|, results) == "success"
      <==> |results| == |steps| && forall k :: 0 <= k < |results| ==> results[k].status == "success"
  {
    if StoppedByStep(results) {
      assert results[|results| - 1].status != "success";
    }
  }

  // ---------- Alerts ----------

  predicate IsFailure(status: string) {
    status == "failed" || status == "timeout"
  }

  /** The first failed step of a stored execution. */
  method ExtractFailedStep(results: seq<StepResult>) returns (index: Option<nat>)
    ensures
      match index
      case Some(i) =>
        && i < |results| && (results[i].status == "failed" || results[i].status == "timeout")
        && forall k :: 0 <= k < i ==> results[k].status != "failed" && results[k].status != "timeout"
      case None => forall k :: 0 <= k < |results| ==> results[k].status != "failed" && results[k].status != "timeout"
  {
    for i := 0 to |results|
      invariant forall k :: 0 <= k < i ==> !IsFailure(results[k].status)
    {
      if IsFailure(results[i].status) {
        return Some(i);
      }
    }
    return None;
  }

  ghost predicate IsFirstFailure(results: seq<StepResult>, i: nat) {
    && i < |results| && IsFailure(results[i].status)
    && forall k :: 0 <= k < i ==> !IsFailure(results[k].status)
  }

  /** The alert shows the last result exactly when a step stopped the run; after a stop between steps it shows none. */
  lemma AlertIsStoppingStep<S>(exec: Executor<S>, steps: seq<S>, planVars: Vars, cancelled: nat -> bool,
                               results: seq<StepResult>, i: nat)
    requires IsPrefixOfRun(exec, steps, planVars, cancelled, results)
    requires forall k :: 0 <= k < |results| ==> results[k].status in {"success", "failed", "timeout"}
    ensures IsFirstFailure(results, i) <==> StoppedByStep(results) && i == |results| - 1
  {
    if StoppedByStep(results) {
      assert results[|results| - 1].status in {"success", "failed", "timeout"};
    }
  }

  // ---------- Trimming ----------

  function TrimOne(r: StepResult): StepResult {
    r.(request := None, response := None, captures := None, scriptLogs := [], scriptError := "", error := "")
  }

  function Trimmed(rs: seq<StepResult>): seq<StepResult> {
    seq(|rs|, i requires 0 <= i < |rs| => TrimOne(rs[i]))
  }

  method TrimStepResults(results: array<StepResult>, count: nat)
    requires count <= results.Length
    modifies results
    ensures results[..count] == Trimmed(old(results[..count]))
    ensures forall k :: 0 <= k < count ==>
              var r := old(results[k]);
              results[k] == StepResult(r.name, r.typ, r.status, r.durationMs, "", None, None, None, [], "")
    ensures results[count..] == old(results[count..])
  {
    for i := 0 to count
      invariant forall k :: 0 <= k < i ==> results[k] == TrimOne(old(results[k]))
      invariant forall k :: i <= k < results.Length ==> results[k] == old(results[k])
    {
      results[i] := results[i].(request := None);
      results[i] := results[i].(response := None);
      results[i] := results[i].(captures := None);
      results[i] := results[i].(scriptLogs := []);
      results[i] := results[i].(scriptError := "");
      results[i] := results[i].(error := "");
    }
  }

  predicate TrimNeeded(status: string, durationMs: int, thresholdSec: int) {
    thresholdSec > 0 && status == "success" && durationMs < thresholdSec * 1000
  }

  method TrimResultsIfNeeded(result: ExecResult, thresholdSec: int)
    requires result.Valid()
    modifies result.buf
    ensures result.Valid()
    ensures
      result.Results()
      == if TrimNeeded(result.status, result.durationMs, thresholdSec) then Trimmed(old(result.Results()))
         else old(result.Results())
    ensures
      var before, after := old(result.Results()), result.Results();
      if thresholdSec > 0 && result.status == "success" && result.durationMs < thresholdSec * 1000 then
        |after| == |before|
        && forall k :: 0 <= k < |before| ==>
             var r := before[k];
             after[k] == StepResult(r.name, r.typ, r.status, r.durationMs, "", None, None, None, [], "")
      else after == before
  {
    if thresholdSec <= 0 {
      return;
    }
    if result.status != "success" {
      return;
    }
    if result.durationMs >= thresholdSec * 1000 {
      return;
    }
    TrimStepResults(result.buf, result.count);
  }

  /** Trimming keeps names, types, statuses and durations, so the alert points at the same step. */
  lemma TrimKeepsSummary(rs: seq<StepResult>, i: nat)
    ensures |Trimmed(rs)| == |rs|
    ensures forall k :: 0 <= k < |rs| ==>
      && Trimmed(rs)[k].name == rs[k].name && Trimmed(rs)[k].typ == rs[k].typ
      && Trimmed(rs)[k].status == rs[k].status && Trimmed(rs)[k].durationMs == rs[k].durationMs
    ensures IsFirstFailure(Trimmed(rs), i) <==> IsFirstFailure(rs, i)
  {
    var ts := Trimmed(rs);
    assert forall k :: 0 <= k < |rs| ==> ts[k].status == rs[k].status;
  }

  /** What trimming drops is never the detail of a failed step. */
  lemma TrimSparesFailures<S>(exec: Executor<S>, steps: seq<S>, planVars: Vars, cancelled: nat -> bool,
                              results: seq<StepResult>, durationMs: int, thresholdSec: int)
    requires IsPrefixOfRun(exec, steps, planVars, cancelled, results)
    requires TrimNeeded(FinalStatus(|steps|, results), durationMs, thresholdSec)
    ensures forall k :: 0 <= k < |results| ==> results[k].status == "success"
  {
    SuccessIff(exec, steps, planVars, cancelled, results);
  }
}
