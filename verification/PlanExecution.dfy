/** What one firing of a plan's cron job leaves in the execution log. */
module PlanExecution {
  import opened Context
  import opened Runner
  import opened Wrappers

  /** A plan as the store returns it, with its steps in order. */
  datatype StoredPlan<S> = StoredPlan(enabled: bool, steps: seq<S>, variables: Vars, thresholdSec: int)

  datatype ExecLog = ExecLog(status: string, durationMs: int, results: seq<StepResult>, error: RunError)

  /** The log of a run that ended with these results. */
  function LogOf<S>(nameOf: S -> string, plan: StoredPlan<S>, ran: seq<StepResult>, elapsed: int): ExecLog
    requires |ran| <= |plan.steps|
  {
    var status := FinalStatus(|plan.steps|, ran);
    var kept := if TrimNeeded(status, elapsed, plan.thresholdSec) then Trimmed(ran) else ran;
    ExecLog(status, elapsed, kept, FinalError(nameOf, plan.steps, ran))
  }

  /** found is what the plan store returns, None for an error. The log is what the log store is given;
      ran is what the steps reported. */
  method ExecutePlan<S>(exec: Executor<S>, nameOf: S -> string, found: Option<StoredPlan<S>>, locked: bool,
                        cancelled: nat -> bool, elapsed: int)
    returns (log: Option<ExecLog>, ghost ran: seq<StepResult>)
    ensures log == None <==> found == None || !found.value.enabled
    ensures log.Some? && locked ==> log.value == ExecLog("failed", 0, [], AlreadyRunning)
    ensures log.Some? && !locked ==>
      && IsPrefixOfRun(exec, found.value.steps, found.value.variables, cancelled, ran)
      && IsOver(|found.value.steps|, cancelled, ran)
      && log.value == LogOf(nameOf, found.value, ran, elapsed)
  {
    hide IsPrefixOfRun, FinalStatus, FinalError, Trimmed;
    ran := [];
    if found == None {
      return None, ran;
    }
    var plan := found.value;
    if !plan.enabled {
      return None, ran;
    }
    var result, calls, vars := Execute(exec, nameOf, plan.steps, plan.variables, locked, cancelled, elapsed);
    ran := result.Results();
    TrimResultsIfNeeded(result, plan.thresholdSec);
    return Some(ExecLog(result.status, result.durationMs, result.buf[..result.count], result.error)), ran;
  }

  /** A stored log tells what happened although its details may be trimmed: it is a success exactly if every step ran
      and succeeded; one that is not, or not fast, keeps every detail; and the step an alert picks from it is the one
      its error names, the last one, which stopped the run. An alert picks none if no step stopped the run. */
  lemma {:induction false} StoredLogIsFaithful<S>(exec: Executor<S>, nameOf: S -> string, plan: StoredPlan<S>,
                                                  cancelled: nat -> bool, elapsed: int, ran: seq<StepResult>, i: nat)
    requires IsPrefixOfRun(exec, plan.steps, plan.variables, cancelled, ran)
    requires forall k :: 0 <= k < |ran| ==> ran[k].status in {"success", "failed", "timeout"}
    ensures
      var log := LogOf(nameOf, plan, ran, elapsed);
      && |log.results| == |ran|
      && (log.status == "success"
          <==> |log.results| == |plan.steps| && forall k :: 0 <= k < |ran| ==> log.results[k].status == "success")
      && log.durationMs == elapsed
      && (if plan.thresholdSec > 0 && log.status == "success" && elapsed < plan.thresholdSec * 1000 then
            forall k :: 0 <= k < |ran| ==>
              log.results[k]
              == StepResult(ran[k].name, ran[k].typ, ran[k].status, ran[k].durationMs, "", None, None, None, [], "")
          else log.results == ran)
      && (IsFirstFailure(log.results, i) <==> log.error.StepStopped? && log.error.number == i + 1)
      && (log.error.StepStopped? ==> log.error.number == |ran| && log.error.name == nameOf(plan.steps[|ran| - 1]))
  {
    SuccessIff(exec, plan.steps, plan.variables, cancelled, ran);
    TrimKeepsSummary(ran, i);
    AlertIsStoppingStep(exec, plan.steps, plan.variables, cancelled, ran, i);
    var log := LogOf(nameOf, plan, ran, elapsed);
    assert forall k :: 0 <= k < |ran| ==> log.results[k].status == ran[k].status;
  }
}
