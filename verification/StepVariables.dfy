/** Which variables a step can use: the static analysis of the step store, against what a run computes. */
module StepVariables {
  import opened Common
  import opened Context
  import opened Library
  import opened Rounds
  import opened Runner
  import opened StepExecutors
  import opened Wrappers

  // ---------- The step table ----------

  predicate Ascending(steps: seq<Step>) {
    forall i, j :: 0 <= i < j < |steps| ==> steps[i].seq_ < steps[j].seq_
  }

  ghost predicate DistinctSeqs(t: set<Step>) {
    forall a, b :: a in t && b in t && a.seq_ == b.seq_ ==> a == b
  }

  function OfPlan(t: set<Step>, plan: int): set<Step> {
    set s | s in t && s.plan == plan
  }

  function Preceding(t: set<Step>, plan: int, bound: int): set<Step> {
    set s | s in t && s.plan == plan && s.seq_ < bound
  }

  /** Rows ordered by seq: rows with the same seq stand in either order. */
  predicate IsSorted(steps: seq<Step>) {
    && (forall i, j :: 0 <= i < j < |steps| ==> steps[i].seq_ <= steps[j].seq_)
    && (forall i, j :: 0 <= i < j < |steps| ==> steps[i] != steps[j])
  }

  /** A listing the analysis may read: the plan's steps before a seq, in order. */
  ghost predicate ListsPreceding(steps: seq<Step>, t: set<Step>, plan: int, bound: int) {
    IsSorted(steps) && forall s :: s in steps <==> s in Preceding(t, plan, bound)
  }

  method Ordered(t: set<Step>) returns (steps: seq<Step>)
    ensures IsSorted(steps) && forall s :: s in steps <==> s in t
  {
    steps := [];
    var rest := t;
    while rest != {}
      invariant rest <= t && IsSorted(steps)
      invariant forall s :: s in steps <==> s in t - rest
      invariant forall a, b :: a in steps && b in rest ==> a.seq_ <= b.seq_
    {
      var m := First(rest);
      rest := rest - {m};
      steps := steps + [m];
    }
  }

  method First(t: set<Step>) returns (m: Step)
    requires t != {}
    ensures m in t && forall s :: s in t ==> m.seq_ <= s.seq_
  {
    m :| m in t;
    var rest := t - {m};
    while rest != {}
      invariant m in t && rest <= t && m !in rest
      invariant forall s :: s in t - rest ==> m.seq_ <= s.seq_
    {
      var s :| s in rest;
      rest := rest - {s};
      if s.seq_ < m.seq_ {
        m := s;
      }
    }
  }

  /** With distinct seq values the order is strict. */
  lemma SortedIsAscending(steps: seq<Step>, t: set<Step>)
    requires IsSorted(steps) && DistinctSeqs(t) && forall s :: s in steps ==> s in t
    ensures Ascending(steps)
  {
    forall i, j | 0 <= i < j < |steps|
      ensures steps[i].seq_ < steps[j].seq_
    {
      assert steps[i] in t && steps[j] in t;
    }
  }

  /** The steps before the k-th of an ordered plan are exactly those with a smaller seq, in the same order. */
  lemma PrecedingIsPrefix(t: set<Step>, plan: int, all: seq<Step>, k: nat, before: seq<Step>)
    requires Ascending(all) && (forall s :: s in all <==> s in OfPlan(t, plan))
    requires k < |all|
    requires ListsPreceding(before, t, plan, all[k].seq_)
    ensures before == all[..k]
  {
    forall s
      ensures s in before <==> s in all[..k]
    {
      if s in all[..k] {
        var i :| 0 <= i < k && all[..k][i] == s;
        assert s == all[i] && s in all;
      }
      if s in before {
        assert s in all;
        var i :| 0 <= i < |all| && all[i] == s;
        assert i < k;
        assert all[..k][i] == s;
      }
    }
    forall a, b | a in OfPlan(t, plan) && b in OfPlan(t, plan) && a.seq_ == b.seq_
      ensures a == b
    {
      assert a in all && b in all;
    }
    SortedIsAscending(before, OfPlan(t, plan));
    SameListing(before, all[..k]);
  }

  lemma {:induction false} SameListing(a: seq<Step>, b: seq<Step>)
    requires Ascending(a) && Ascending(b) && forall s :: s in a <==> s in b
    ensures a == b
    decreases |a|
  {
    assert a != [] ==> a[0] in b;
    assert b != [] ==> b[0] in a;
    if a != [] {
      assert a[0] == b[0];
      TailMembers(a);
      TailMembers(b);
      SameListing(a[1..], b[1..]);
      assert a == [a[0]] + a[1..] && b == [b[0]] + b[1..];
    }
  }

  lemma TailMembers(a: seq<Step>)
    requires a != [] && Ascending(a)
    ensures forall s :: s in a[1..] <==> s in a && s != a[0]
  {
    assert a == [a[0]] + a[1..];
  }

  // ---------- The static analysis ----------

  function Label(s: Step): string {
    "step:" + s.name
  }

  function WithLabel(vars: map<string, string>, names: set<string>, writer: string): map<string, string> {
    vars + map n | n in names :: writer
  }

  /** The labels that the first steps of a plan leave behind; a later writer replaces an earlier one. */
  function Labels(planNames: set<string>, steps: seq<Step>): map<string, string>
    decreases |steps|
  {
    if steps == [] then map n | n in planNames :: "plan"
    else
      var s := steps[|steps| - 1];
      WithLabel(Labels(planNames, steps[..|steps| - 1]), Names(s.captures), Label(s))
  }

  method GetAvailableVariables(planNames: set<string>, t: set<Step>, plan: int, stepSeq: int)
    returns (vars: map<string, string>)
    ensures exists steps :: ListsPreceding(steps, t, plan, stepSeq) && vars == Labels(planNames, steps)
    ensures forall n :: n in vars
              <==> || n in planNames
                   || exists s :: s in t && s.plan == plan && s.seq_ < stepSeq && n in Names(s.captures)
    ensures DistinctSeqs(OfPlan(t, plan)) ==>
              forall steps :: ListsPreceding(steps, t, plan, stepSeq) ==> vars == Labels(planNames, steps)
  {
    vars := map[];
    var rest := planNames;
    while rest != {}
      invariant rest <= planNames
      invariant vars == map n | n in planNames - rest :: "plan"
    {
      var k :| k in rest;
      vars := vars[k := "plan"];
      rest := rest - {k};
    }
    var found := Ordered(Preceding(t, plan, stepSeq));
    for i := 0 to |found|
      invariant vars == Labels(planNames, found[..i])
    {
      assert found[..i + 1][..i] == found[..i];
      vars := AddCaptures(vars, found[i]);
    }
    assert found[..|found|] == found;
    assert ListsPreceding(found, t, plan, stepSeq);
    LabelsOfListing(planNames, found, Preceding(t, plan, stepSeq));
    if DistinctSeqs(OfPlan(t, plan)) {
      forall steps | ListsPreceding(steps, t, plan, stepSeq)
        ensures steps == found
      {
        SortedIsAscending(steps, OfPlan(t, plan));
        SortedIsAscending(found, OfPlan(t, plan));
        SameListing(steps, found);
      }
    }
  }

  lemma LabelsOfListing(planNames: set<string>, steps: seq<Step>, t: set<Step>)
    requires forall s :: s in steps <==> s in t
    ensures forall n :: n in Labels(planNames, steps)
              <==> n in planNames || exists s :: s in t && n in Names(s.captures)
  {
    hide Labels, Names;
    assert steps[..|steps|] == steps;
    forall n
      ensures n in Labels(planNames, steps) <==> n in planNames || exists s :: s in t && n in Names(s.captures)
    {
      AnalysedVariables(planNames, steps, |steps|, n);
      if s :| s in t && n in Names(s.captures) {
        var j :| 0 <= j < |steps| && steps[j] == s;
        assert DeclaredBefore(steps, |steps|, n);
      }
      if DeclaredBefore(steps, |steps|, n) {
        var j :| 0 <= j < |steps| && n in Names(steps[j].captures);
        assert steps[j] in t;
      }
    }
  }

  /** One step's captures, later rules over earlier ones; a rule without a name captures nothing. */
  method AddCaptures(before: map<string, string>, step: Step) returns (vars: map<string, string>)
    ensures vars == WithLabel(before, Names(step.captures), Label(step))
  {
    vars := before;
    assert vars == WithLabel(before, Names(step.captures[..0]), Label(step));
    hide Names, Label, WithLabel;
    for j := 0 to |step.captures|
      invariant vars == WithLabel(before, Names(step.captures[..j]), Label(step))
    {
      var c := step.captures[j];
      NamesStep(step.captures, j);
      if c.as_ != "" {
        WithOneMore(before, Names(step.captures[..j]), c.as_, Label(step));
        vars := vars[c.as_ := Label(step)];
      } else {
        assert Names(step.captures[..j + 1]) == Names(step.captures[..j]);
      }
    }
    assert step.captures[..|step.captures|] == step.captures;
  }

  lemma WithOneMore(vars: map<string, string>, names: set<string>, name: string, writer: string)
    ensures WithLabel(vars, names + {name}, writer) == WithLabel(vars, names, writer)[name := writer]
  {
  }

  lemma NamesStep(captures: seq<CaptureRule>, j: nat)
    requires j < |captures|
    ensures Names(captures[..j + 1]) == Names(captures[..j]) + (if captures[j].as_ != "" then {captures[j].as_} else {})
  {
    assert captures[..j + 1] == captures[..j] + [captures[j]];
  }

  // ---------- Against a run ----------

  /** A run of a plan's steps; worlds says what the outside does to each of them. */
  datatype PlanRun = PlanRun(lib: Lib, worlds: nat -> World, steps: seq<Step>, planVars: Vars) {
    /** The variables that step k runs with. */
    function VarsBefore(k: nat): Vars
      requires k <= |steps|
    {
      VarsAt(Exec(lib, worlds), steps, planVars, k)
    }

    function CapturedBy(j: nat): Vars
      requires j < |steps|
    {
      Exec(lib, worlds)(j, steps[j], VarsBefore(j)).1
    }

    /** Every step before k succeeded. */
    predicate Reaches(k: nat) {
      k <= |steps| && forall j :: 0 <= j < k ==> ResultAt(Exec(lib, worlds), steps, planVars, j).status == "success"
    }

    /** Step w is the last to have written the variable before step k. */
    predicate IsLastWriter(k: nat, name: string, w: nat) {
      w < k <= |steps| && name in CapturedBy(w) && forall j :: w < j < k ==> name !in CapturedBy(j)
    }

    predicate HasNoWriter(k: nat, name: string) {
      k <= |steps| && forall j :: 0 <= j < k ==> name !in CapturedBy(j)
    }
  }

  /** The runner gets to a step only in a run that reaches it. */
  lemma ExecutionReaches(run: PlanRun, cancelled: nat -> bool, results: seq<StepResult>, k: nat)
    requires IsPrefixOfRun(Exec(run.lib, run.worlds), run.steps, run.planVars, cancelled, results)
    requires k < |results|
    ensures run.Reaches(k)
  {
  }

  /** One step on: the variables grow by what the step's configuration captures. */
  lemma StepOn(run: PlanRun, k: nat)
    requires k < |run.steps| && run.Reaches(k + 1)
    ensures run.Reaches(k)
    ensures run.CapturedBy(k).Keys == ConfiguredNames(run.steps[k])
    ensures run.VarsBefore(k + 1) == run.VarsBefore(k) + run.CapturedBy(k)
  {
    hide RunStep, ConfiguredNames;
    var vars := run.VarsBefore(k);
    assert ResultAt(Exec(run.lib, run.worlds), run.steps, run.planVars, k).status == "success";
    ResultMeaning(run.lib, run.worlds, k, run.steps[k], vars);
    SuccessCapturesConfigured(run.lib, run.worlds(k), run.steps[k], vars);
  }

  /** Some step before k declares a capture of the variable, which is what the analysis reads. */
  predicate DeclaredBefore(steps: seq<Step>, k: nat, name: string)
    requires k <= |steps|
  {
    exists j :: 0 <= j < k && name in Names(steps[j].captures)
  }

  /** The configuration of some step before k captures the variable. */
  predicate ConfiguredBefore(steps: seq<Step>, k: nat, name: string)
    requires k <= |steps|
  {
    exists j :: 0 <= j < k && name in ConfiguredNames(steps[j])
  }

  /** The variables of a run are known from the configuration of its steps. */
  lemma {:induction false} RunVariables(run: PlanRun, k: nat, name: string)
    requires run.Reaches(k)
    ensures name in run.VarsBefore(k) <==> name in run.planVars || ConfiguredBefore(run.steps, k, name)
    decreases k
  {
    hide ConfiguredNames;
    if k > 0 {
      StepOn(run, k - 1);
      RunVariables(run, k - 1, name);
      assert name in ConfiguredNames(run.steps[k - 1]) ==> ConfiguredBefore(run.steps, k, name);
    }
  }

  lemma {:induction false} AnalysedVariables(names: set<string>, steps: seq<Step>, k: nat, name: string)
    requires k <= |steps|
    ensures name in Labels(names, steps[..k]) <==> name in names || DeclaredBefore(steps, k, name)
    decreases k
  {
    if k > 0 {
      AnalysedVariables(names, steps, k - 1, name);
      assert steps[..k][..k - 1] == steps[..k - 1];
      assert name in Names(steps[k - 1].captures) ==> DeclaredBefore(steps, k, name);
    }
  }

  /** For any plan, the analysis is right about a variable of a run exactly if it is a plan variable, or if earlier
      steps declare it exactly when the configuration of earlier steps captures it. */
  lemma AgreesOnNameIff(run: PlanRun, k: nat, name: string)
    requires run.Reaches(k)
    ensures
      (name in Labels(run.planVars.Keys, run.steps[..k]) <==> name in run.VarsBefore(k))
      <==> name in run.planVars || (DeclaredBefore(run.steps, k, name) <==> ConfiguredBefore(run.steps, k, name))
  {
    hide Labels, DeclaredBefore, ConfiguredBefore;
    RunVariables(run, k, name);
    AnalysedVariables(run.planVars.Keys, run.steps, k, name);
  }

  /** The steps capture what they declare. HTTP and single-round WebSocket steps always do. */
  predicate CaptureAsDeclared(steps: seq<Step>) {
    forall j :: 0 <= j < |steps| ==> ConfiguredNames(steps[j]) == Names(steps[j].captures)
  }

  lemma PlainStepsCaptureAsDeclared(steps: seq<Step>)
    requires forall j :: 0 <= j < |steps| ==> IsPlain(steps[j]) || (steps[j].config.Delay? && steps[j].captures == [])
    ensures CaptureAsDeclared(steps)
  {
    forall j | 0 <= j < |steps|
      ensures ConfiguredNames(steps[j]) == Names(steps[j].captures)
    {
      if IsPlain(steps[j]) { PlainCapturesDeclared(steps[j]); }
    }
  }

  /** The run has exactly the variables the analysis names when it reaches a step. */
  lemma SameVariables(run: PlanRun, k: nat)
    requires run.Reaches(k) && CaptureAsDeclared(run.steps[..k])
    ensures run.VarsBefore(k).Keys == Labels(run.planVars.Keys, run.steps[..k]).Keys
  {
    hide Labels, ConfiguredNames, Names;
    forall name
      ensures name in run.VarsBefore(k) <==> name in Labels(run.planVars.Keys, run.steps[..k])
    {
      AgreesOnNameIff(run, k, name);
      assert forall j :: 0 <= j < k ==> run.steps[..k][j] == run.steps[j];
    }
  }

  /** The analysis attributes each variable to the last step that declares it. */
  lemma {:induction false} LabelOfLastDeclarer(names: set<string>, steps: seq<Step>, k: nat, name: string, d: nat)
    requires d < k <= |steps| && name in Names(steps[d].captures)
    requires forall j :: d < j < k ==> name !in Names(steps[j].captures)
    ensures name in Labels(names, steps[..k]) && Labels(names, steps[..k])[name] == "step:" + steps[d].name
    decreases k
  {
    hide Names;
    assert steps[..k][..k - 1] == steps[..k - 1];
    if d < k - 1 { LabelOfLastDeclarer(names, steps, k - 1, name, d); }
  }

  lemma {:induction false} CapturedIsConfigured(run: PlanRun, k: nat, j: nat)
    requires run.Reaches(k) && j < k
    ensures run.CapturedBy(j).Keys == ConfiguredNames(run.steps[j])
    decreases k
  {
    hide ConfiguredNames;
    StepOn(run, k - 1);
    if j < k - 1 { CapturedIsConfigured(run, k - 1, j); }
  }

  /** That is the step that wrote it last in the run. */
  lemma LabelNamesLastWriter(run: PlanRun, k: nat, name: string, w: nat)
    requires run.Reaches(k) && CaptureAsDeclared(run.steps[..k])
    requires run.IsLastWriter(k, name, w)
    ensures name in Labels(run.planVars.Keys, run.steps[..k])
    ensures Labels(run.planVars.Keys, run.steps[..k])[name] == Label(run.steps[w])
  {
    hide Labels, ConfiguredNames, Names;
    forall j | 0 <= j < k
      ensures run.CapturedBy(j).Keys == Names(run.steps[j].captures)
    {
      CapturedIsConfigured(run, k, j);
      assert run.steps[..k][j] == run.steps[j];
    }
    assert name in run.CapturedBy(w).Keys;
    assert forall j :: w < j < k ==> name !in run.CapturedBy(j).Keys;
    LabelOfLastDeclarer(run.planVars.Keys, run.steps, k, name, w);
  }

  /** For any plan: the label of a variable that a step wrote last in a run is right exactly if the last step that
      declares the variable has the same name. */
  lemma LabelIsRightIff(run: PlanRun, k: nat, name: string, w: nat, d: nat)
    requires run.Reaches(k) && run.IsLastWriter(k, name, w)
    requires d < k && name in Names(run.steps[d].captures)
    requires forall j :: d < j < k ==> name !in Names(run.steps[j].captures)
    ensures name in Labels(run.planVars.Keys, run.steps[..k])
    ensures Labels(run.planVars.Keys, run.steps[..k])[name] == Label(run.steps[w])
            <==> run.steps[d].name == run.steps[w].name
  {
    LabelOfLastDeclarer(run.planVars.Keys, run.steps, k, name, d);
    var a, b := Label(run.steps[d]), Label(run.steps[w]);
    assert a[5..] == run.steps[d].name && b[5..] == run.steps[w].name;
  }

  /** A variable that a step wrote and none declares has no label naming that step. */
  lemma UndeclaredIsNotLabelled(run: PlanRun, k: nat, name: string, w: nat)
    requires run.Reaches(k) && run.IsLastWriter(k, name, w)
    requires !DeclaredBefore(run.steps, k, name)
    ensures
      var labels := Labels(run.planVars.Keys, run.steps[..k]);
      name !in labels || labels[name] != Label(run.steps[w])
  {
    UndeclaredIsFromPlan(run.planVars.Keys, run.steps, k, name);
    assert Label(run.steps[w])[0] == 's';
  }

  /** A plan variable no step wrote is attributed to the plan. */
  lemma {:induction false} UnwrittenIsFromPlan(run: PlanRun, k: nat, name: string)
    requires run.Reaches(k) && CaptureAsDeclared(run.steps[..k])
    requires run.HasNoWriter(k, name)
    ensures name in Labels(run.planVars.Keys, run.steps[..k]) <==> name in run.planVars
    ensures name in run.planVars ==> Labels(run.planVars.Keys, run.steps[..k])[name] == "plan"
  {
    hide Labels, ConfiguredNames, Names;
    forall j | 0 <= j < k
      ensures name !in Names(run.steps[j].captures)
    {
      CapturedIsConfigured(run, k, j);
      assert run.steps[..k][j] == run.steps[j];
      assert name !in run.CapturedBy(j).Keys;
    }
    UndeclaredIsFromPlan(run.planVars.Keys, run.steps, k, name);
  }

  lemma {:induction false} UndeclaredIsFromPlan(names: set<string>, steps: seq<Step>, k: nat, name: string)
    requires k <= |steps| && forall j :: 0 <= j < k ==> name !in Names(steps[j].captures)
    ensures name in Labels(names, steps[..k]) <==> name in names
    ensures name in names ==> Labels(names, steps[..k])[name] == "plan"
    decreases k
  {
    hide Names;
    if k > 0 {
      assert steps[..k][..k - 1] == steps[..k - 1];
      UndeclaredIsFromPlan(names, steps, k - 1, name);
    }
  }

  /** For a plan whose steps before the one asked about are HTTP steps, single-round WebSocket steps, or others that
      capture what they declare: whenever a run reaches the step, the analysis for its seq names its variables and
      their last writers. */
  lemma AnalysisAgreesWithRun(run: PlanRun, t: set<Step>, plan: int, k: nat, before: seq<Step>, name: string, w: nat)
    requires Ascending(run.steps) && (forall s :: s in run.steps <==> s in OfPlan(t, plan))
    requires k < |run.steps| && run.Reaches(k) && CaptureAsDeclared(run.steps[..k])
    requires ListsPreceding(before, t, plan, run.steps[k].seq_)
    ensures
      var vars := Labels(run.planVars.Keys, before);
      && vars.Keys == run.VarsBefore(k).Keys
      && (run.IsLastWriter(k, name, w) ==> name in vars && vars[name] == Label(run.steps[w]))
      && (run.HasNoWriter(k, name) && name in run.planVars ==> name in vars && vars[name] == "plan")
  {
    hide Labels, CaptureAsDeclared, Label;
    PrecedingIsPrefix(t, plan, run.steps, k, before);
    SameVariables(run, k);
    if run.IsLastWriter(k, name, w) {
      LabelNamesLastWriter(run, k, name, w);
    }
    if run.HasNoWriter(k, name) {
      UnwrittenIsFromPlan(run, k, name);
    }
  }

  // ---------- Where the analysis is wrong ----------

  /** A list with one round that captures x, on a step that declares nothing. */
  function ListStep(): Step {
    Step(1, 1, 0, "list", Ws("", [Round("", map[], [CaptureRule("body", "id", "x")], [], "", "")], "", map[]), [], [])
  }

  /** The same round at top level of a pomelo step without rounds, where it is ignored. */
  function IgnoredStep(): Step {
    Step(1, 1, 0, "ignored", Ws("pomelo", [], "", map[]), [CaptureRule("body", "id", "x")], [])
  }

  /** Whatever message the server sends, the run has a variable that the analysis does not know. */
  lemma ListCaptureIsMissed(lib: Lib, w: World, m: string, writes: nat)
    requires w.ws(map[]) == Some(([m], writes))
    ensures
      var run := PlanRun(lib, _ => w, [ListStep()], map[]);
      run.Reaches(1) && "x" in run.VarsBefore(1) && "x" !in Labels({}, run.steps[..1])
  {
    var run := PlanRun(lib, _ => w, [ListStep()], map[]);
    ListStepSucceeds(lib, w, m, writes);
    ResultMeaning(lib, run.worlds, 0, ListStep(), map[]);
    assert run.Reaches(1);
    assert ConfiguredBefore(run.steps, 1, "x") by { assert "x" in ConfiguredNames(run.steps[0]); }
    RunVariables(run, 1, "x");
    AnalysedVariables({}, run.steps, 1, "x");
    assert Names(run.steps[0].captures) == {};
  }

  lemma ListStepSucceeds(lib: Lib, w: World, m: string, writes: nat)
    requires w.ws(map[]) == Some(([m], writes))
    ensures RunStep(lib, w, ListStep(), map[]).status == Success
    ensures "x" in ConfiguredNames(ListStep())
  {
  }

  /** The analysis promises a variable that no run has. */
  lemma IgnoredCaptureIsInvented(lib: Lib, w: World)
    requires w.pomelo(map[]).Some?
    ensures
      var run := PlanRun(lib, _ => w, [IgnoredStep()], map[]);
      run.Reaches(1) && "x" !in run.VarsBefore(1) && "x" in Labels({}, run.steps[..1])
  {
    var run := PlanRun(lib, _ => w, [IgnoredStep()], map[]);
    assert RunStep(lib, w, IgnoredStep(), map[]).status == Success;
    ResultMeaning(lib, run.worlds, 0, IgnoredStep(), map[]);
    assert run.Reaches(1);
    RunVariables(run, 1, "x");
    AnalysedVariables({}, run.steps, 1, "x");
    assert CaptureRule("body", "id", "x") in run.steps[0].captures;
    assert "x" in Names(run.steps[0].captures);
    assert DeclaredBefore(run.steps, 1, "x");
  }

  // ---------- Reordering ----------

  /** The table by step id. */
  type Rows = map<int, Step>

  ghost predicate Keyed(rows: Rows) {
    forall i :: i in rows ==> rows[i].id == i
  }

  /** The last position of an id in the desired order. */
  function LastIndex(ids: seq<int>, id: int): (r: Option<nat>)
    ensures r.Some? ==> r.value < |ids| && ids[r.value] == id
    ensures r == None <==> id !in ids
    decreases |ids|
  {
    if ids == [] then None
    else if ids[|ids| - 1] == id then Some(|ids| - 1)
    else
      assert ids == ids[..|ids| - 1] + [ids[|ids| - 1]];
      LastIndex(ids[..|ids| - 1], id)
  }

  function Reseq(rows: Rows, plan: int, ids: seq<int>): Rows {
    map i | i in rows ::
      if rows[i].plan == plan && i in ids then rows[i].(seq_ := LastIndex(ids, i).value) else rows[i]
  }

  class StepStore {
    var rows: Rows

    /** Row by row, in one transaction; ids of other plans or of no step change nothing. */
    method UpdateSeqBatch(plan: int, ids: seq<int>)
      modifies this
      ensures rows == Reseq(old(rows), plan, ids)
      ensures rows.Keys == old(rows).Keys
      ensures forall i :: i in rows ==>
                && rows[i] == old(rows)[i].(seq_ := rows[i].seq_)
                && if old(rows)[i].plan == plan && i in ids
                   then 0 <= rows[i].seq_ < |ids| && ids[rows[i].seq_] == i && i !in ids[rows[i].seq_ + 1..]
                   else rows[i].seq_ == old(rows)[i].seq_
    {
      for k := 0 to |ids|
        invariant rows == Reseq(old(rows), plan, ids[..k])
      {
        var id := ids[k];
        ghost var before := rows;
        if id in rows && rows[id].plan == plan {
          rows := rows[id := rows[id].(seq_ := k)];
        }
        ReseqStep(old(rows), plan, ids, k);
      }
      assert ids[..|ids|] == ids;
      forall i | i in ids
        ensures i !in ids[LastIndex(ids, i).value + 1..]
      {
        LastIndexIsLast(ids, i);
      }
    }
  }

  lemma {:induction false} LastIndexIsLast(ids: seq<int>, id: int)
    requires id in ids
    ensures id !in ids[LastIndex(ids, id).value + 1..]
    decreases |ids|
  {
    var n := |ids| - 1;
    if ids[n] != id {
      assert ids == ids[..n] + [ids[n]];
      LastIndexIsLast(ids[..n], id);
      var p := LastIndex(ids, id).value;
      assert ids[p + 1..] == ids[..n][p + 1..] + [ids[n]];
    }
  }

  lemma ReseqStep(rows: Rows, plan: int, ids: seq<int>, k: nat)
    requires k < |ids|
    ensures
      var before := Reseq(rows, plan, ids[..k]);
      Reseq(rows, plan, ids[..k + 1])
      == if ids[k] in rows && rows[ids[k]].plan == plan then before[ids[k] := before[ids[k]].(seq_ := k)] else before
  {
    assert ids[..k + 1][..k] == ids[..k];
    assert ids[..k + 1] == ids[..k] + [ids[k]];
  }

  function StepsOf(rows: Rows, plan: int): set<Step> {
    set i | i in rows && rows[i].plan == plan :: rows[i]
  }

  /** After reordering with a list of all the plan's steps without repetition, the seq values are distinct
      and listing the plan by seq gives the desired order. */
  lemma ReorderTakesEffect(rows: Rows, plan: int, ids: seq<int>, listing: seq<Step>)
    requires Keyed(rows)
    requires forall i :: i in rows && rows[i].plan == plan <==> i in ids
    requires forall i, j :: 0 <= i < j < |ids| ==> ids[i] != ids[j]
    requires IsSorted(listing) && forall s :: s in listing <==> s in StepsOf(Reseq(rows, plan, ids), plan)
    ensures DistinctSeqs(StepsOf(Reseq(rows, plan, ids), plan))
    ensures |listing| == |ids| && forall k :: 0 <= k < |ids| ==> listing[k].id == ids[k] && listing[k].seq_ == k
  {
    hide Reseq, StepsOf, IsSorted;
    var after := StepsOf(Reseq(rows, plan, ids), plan);
    var wanted := Reordered(rows, plan, ids);
    forall a, b | a in after && b in after && a.seq_ == b.seq_
      ensures a == b
    {
      assert a in wanted && b in wanted;
    }
    SortedIsAscending(listing, after);
    SameListing(listing, wanted);
  }

  /** A step of the plan that the list names, or leaves out. */
  predicate IsListed(rows: Rows, plan: int, ids: seq<int>, i: int) {
    i in rows && rows[i].plan == plan && i in ids
  }

  predicate IsLeftOut(rows: Rows, plan: int, ids: seq<int>, i: int) {
    i in rows && rows[i].plan == plan && i !in ids
  }

  predicate IsOfPlan(rows: Rows, plan: int, i: int) {
    i in rows && rows[i].plan == plan
  }

  /** The seq of a step after reordering. */
  function SeqAfter(rows: Rows, ids: seq<int>, i: int): int
    requires i in rows
  {
    match LastIndex(ids, i)
    case Some(n) => n
    case None => rows[i].seq_
  }

  lemma ReorderedSeqs(rows: Rows, plan: int, ids: seq<int>)
    requires Keyed(rows)
    ensures
      DistinctSeqs(StepsOf(Reseq(rows, plan, ids), plan))
      <==> forall u, v :: IsOfPlan(rows, plan, u) && IsOfPlan(rows, plan, v) && u != v ==>
             SeqAfter(rows, ids, u) != SeqAfter(rows, ids, v)
  {
    hide LastIndex;
    var after := Reseq(rows, plan, ids);
    var t := StepsOf(after, plan);
    forall i | IsOfPlan(rows, plan, i)
      ensures i in after && after[i] in t && after[i].id == i && after[i].seq_ == SeqAfter(rows, ids, i)
    {
    }
    if DistinctSeqs(t) {
      forall u, v | IsOfPlan(rows, plan, u) && IsOfPlan(rows, plan, v) && u != v
        ensures SeqAfter(rows, ids, u) != SeqAfter(rows, ids, v)
      {
        assert after[u].id != after[v].id;
      }
    } else {
      var a, b :| a in t && b in t && a.seq_ == b.seq_ && a != b;
      assert IsOfPlan(rows, plan, a.id) && IsOfPlan(rows, plan, b.id) && after[a.id] == a && after[b.id] == b;
    }
  }

  /** For any list, with repetitions, gaps and ids of other plans: the plan's seq values are distinct afterwards exactly
      if those of the steps left out were, and none of them is the last position of a listed step. */
  lemma ReorderDistinctIff(rows: Rows, plan: int, ids: seq<int>)
    requires Keyed(rows)
    ensures
      DistinctSeqs(StepsOf(Reseq(rows, plan, ids), plan))
      <==> LeftOutDiffer(rows, plan, ids) && LeftOutAvoidListed(rows, plan, ids)
  {
    hide DistinctSeqs, StepsOf, Reseq, LastIndex;
    ReorderedSeqs(rows, plan, ids);
    assert forall i :: IsLeftOut(rows, plan, ids, i) ==>
        IsOfPlan(rows, plan, i) && SeqAfter(rows, ids, i) == rows[i].seq_;
    assert forall i :: IsListed(rows, plan, ids, i) ==>
        IsOfPlan(rows, plan, i) && SeqAfter(rows, ids, i) == LastIndex(ids, i).value;
    assert forall i :: IsOfPlan(rows, plan, i) ==> IsListed(rows, plan, ids, i) || IsLeftOut(rows, plan, ids, i);
    forall u, v | IsOfPlan(rows, plan, u) && IsOfPlan(rows, plan, v) && u != v
      ensures IsListed(rows, plan, ids, u) && IsListed(rows, plan, ids, v) ==>
                SeqAfter(rows, ids, u) != SeqAfter(rows, ids, v)
    {
      var m, n := LastIndex(ids, u), LastIndex(ids, v);
      assert m.Some? && n.Some? ==> ids[m.value] == u && ids[n.value] == v;
    }
  }

  /** No two steps left out share a seq. */
  predicate LeftOutDiffer(rows: Rows, plan: int, ids: seq<int>) {
    forall u, v | u in rows && v in rows && u != v ::
      IsLeftOut(rows, plan, ids, u) && IsLeftOut(rows, plan, ids, v) ==> rows[u].seq_ != rows[v].seq_
  }

  /** No step left out has as its seq the last position of a listed step. */
  predicate LeftOutAvoidListed(rows: Rows, plan: int, ids: seq<int>) {
    forall u, i | u in rows && i in rows ::
      IsLeftOut(rows, plan, ids, u) && IsListed(rows, plan, ids, i) ==> rows[u].seq_ != LastIndex(ids, i).value
  }

  /** The steps of the plan after reordering, in the desired order. */
  lemma Reordered(rows: Rows, plan: int, ids: seq<int>) returns (wanted: seq<Step>)
    requires Keyed(rows)
    requires forall i :: i in rows && rows[i].plan == plan <==> i in ids
    requires forall i, j :: 0 <= i < j < |ids| ==> ids[i] != ids[j]
    ensures |wanted| == |ids| && forall k :: 0 <= k < |ids| ==> wanted[k].seq_ == k && wanted[k].id == ids[k]
    ensures forall s :: s in wanted <==> s in StepsOf(Reseq(rows, plan, ids), plan)
  {
    var after := Reseq(rows, plan, ids);
    forall k | 0 <= k < |ids|
      ensures ids[k] in after
    {
      assert ids[k] in ids;
    }
    wanted := seq(|ids|, k requires 0 <= k < |ids| && ids[k] in after => after[ids[k]]);
    forall k | 0 <= k < |ids|
      ensures wanted[k].seq_ == k && wanted[k].id == ids[k] && wanted[k].plan == plan
    {
      assert ids[k] in ids && ids[k] in rows;
    }
    forall s
      ensures s in wanted <==> s in StepsOf(after, plan)
    {
      if s in wanted {
        var k :| 0 <= k < |wanted| && wanted[k] == s;
        assert ids[k] in after;
      }
      if s in StepsOf(after, plan) {
        var i :| i in after && after[i].plan == plan && after[i] == s;
        assert i in rows && rows[i].plan == plan;
        var k :| 0 <= k < |ids| && ids[k] == i;
        assert wanted[k] == s;
      }
    }
  }
}
