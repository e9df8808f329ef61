/** The kinds of steps, and what executing a step of each kind gives. */
module StepExecutors {
  import opened Bits
  import opened Common
  import opened Context
  import opened Library
  import opened Rounds
  import opened Runner
  import opened Wrappers
  import C = PomeloClient
  import Plain = PlainRounds
  import Pomelo = PomeloRounds

  /** What a step's configuration says, as far as its outcome depends on it. */
  datatype Config =
    | Http
    | Ws(protocol: string, messages: seq<Round>, send: string, expected: map<string, string>)
    | Delay(durationMs: int)
    | Invalid(typ: string)
    | Unknown(typ: string)

  /** A stored step; captures and assertions are the rules declared on the step itself. */
  datatype Step = Step(
    id: int,
    plan: int,
    seq_: int,
    name: string,
    config: Config,
    captures: seq<CaptureRule>,
    assertions: seq<AssertionRule>)

  datatype Exchange = NoResponse | BodyLost | Answered(resp: Response)

  /** What the outside does to one step. Requests are made from the variables; a connection is given by what the server
      sends on it and how many writes succeed, None if it cannot be made. timedOut tells whether the deadline is the
      reason for a failure, interrupted whether the context ends during a delay. The rest is for display. */
  datatype World = World(
    timedOut: bool,
    interrupted: bool,
    http: Vars -> Exchange,
    ws: Vars -> Option<(seq<string>, nat)>,
    pomelo: Vars -> Option<(seq<seq<Byte>>, nat)>,
    elapsed: int,
    error: string,
    request: Option<string>,
    response: Option<string>)

  /** captured is merged into the plan's variables, captures is reported in the result. */
  datatype Outcome = Outcome(status: Status, captured: Vars, captures: Option<Vars>)

  function Broken(w: World): Outcome {
    Outcome(if w.timedOut then TimedOut else Failed, map[], None)
  }

  // ---------- One step, as a function ----------

  function RunHttp(lib: Lib, w: World, step: Step, vars: Vars): Outcome {
    match w.http(vars)
    case NoResponse => Broken(w)
    case BodyLost => Outcome(Failed, map[], None)
    case Answered(resp) =>
      var got := Captured(lib, step.captures, resp);
      Outcome(if AllHold(lib, step.assertions, resp, vars) then Success else Failed, got, Some(got))
  }

  function PomeloNet(w: World, frames: seq<seq<Byte>>, sends: nat): Pomelo.Net {
    var inbox := C.Inbox(frames);
    Pomelo.Net(Pomelo.Incoming(inbox), Pomelo.Ending(inbox), 0, 0, [], sends, w.timedOut)
  }

  function OfReport(r: Report): Outcome {
    Outcome(r.status, r.captured, r.captures)
  }

  /** The top-level fields of a WebSocket configuration with the step's own rules. */
  function SingleRound(step: Step): Round
    requires step.config.Ws?
  {
    Round(step.config.send, step.config.expected, step.captures, step.assertions, "", "")
  }

  /** The pomelo protocol and a list of rounds have their rules in the configuration; the step's own are ignored. */
  function RunWs(lib: Lib, w: World, step: Step, vars: Vars): Outcome
    requires step.config.Ws?
  {
    var messages := step.config.messages;
    if step.config.protocol == "pomelo" then
      match w.pomelo(vars)
      case None => Broken(w)
      case Some((frames, sends)) => OfReport(Pomelo.Run(lib, messages, 0, PomeloNet(w, frames, sends), Start(vars)).1)
    else
      match w.ws(vars)
      case None => Broken(w)
      case Some((inbound, writes)) =>
        var net := Plain.Net(inbound, 0, [], writes, w.timedOut);
        if |messages| > 0 then OfReport(Plain.Run(lib, messages, 0, net, Start(vars)).1)
        else
          var single := Plain.RunSingle(lib, SingleRound(step), net, vars).1;
          Outcome(single.status, single.captured, single.captures)
  }

  function RunStep(lib: Lib, w: World, step: Step, vars: Vars): Outcome {
    match step.config
    case Http => RunHttp(lib, w, step, vars)
    case Ws(_, _, _, _) => RunWs(lib, w, step, vars)
    case Delay(ms) => if ms > 0 && w.interrupted then Broken(w) else Outcome(Success, map[], None)
    case Invalid(_) => Outcome(Failed, map[], None)
    case Unknown(_) => Outcome(Failed, map[], None)
  }

  function TypeOf(config: Config): string {
    match config
    case Http => "http"
    case Ws(_, _, _, _) => "ws"
    case Delay(_) => "delay"
    case Invalid(typ) => typ
    case Unknown(typ) => typ
  }

  /** A step that crashed ends the process, so its status is never stored. */
  function StatusText(status: Status): string {
    match status
    case Success => "success"
    case Failed => "failed"
    case TimedOut => "timeout"
    case Crashed => "crashed"
  }

  function ResultOf(step: Step, w: World, o: Outcome): StepResult {
    var error := if o.status == Success then "" else w.error;
    StepResult(step.name, TypeOf(step.config), StatusText(o.status), w.elapsed, error, o.captures,
               w.request, w.response, [], "")
  }

  /** The runner's executor; worlds says what the outside does to each step. */
  function Exec(lib: Lib, worlds: nat -> World): Executor<Step> {
    (k: nat, step: Step, vars: Vars) =>
      var o := RunStep(lib, worlds(k), step, vars);
      (ResultOf(step, worlds(k), o), o.captured)
  }

  // ---------- The source's dispatch ----------

  method ExecuteHttp(lib: Lib, w: World, step: Step, vars: CtxMap) returns (o: Outcome)
    ensures o == RunHttp(lib, w, step, vars.m)
    ensures
      match w.http(vars.m)
      case NoResponse => o == Outcome(if w.timedOut then TimedOut else Failed, map[], None)
      case BodyLost => o == Outcome(Failed, map[], None)
      case Answered(resp) =>
        var got := Captured(lib, step.captures, resp);
        o == Outcome(if AllHold(lib, step.assertions, resp, vars.m) then Success else Failed, got, Some(got))
  {
    var captured := new CtxMap(map[]);
    match w.http(vars.m) {
      case NoResponse =>
        return Broken(w);
      case BodyLost =>
        return Outcome(Failed, captured.m, None);
      case Answered(resp) =>
        var captures := ExecuteCaptures(lib, step.captures, resp, captured);
        assert map[] + captures == captures;
        var failed := ExecuteAssertions(lib, step.assertions, resp, vars.m);
        return Outcome(if failed == None then Success else Failed, captured.m, Some(captures));
    }
  }

  method ExecuteWs(lib: Lib, w: World, step: Step, vars: CtxMap) returns (o: Outcome)
    requires step.config.Ws?
    ensures o == RunWs(lib, w, step, vars.m)
  {
    hide Plain.Run, Plain.RunSingle, Pomelo.Run, C.Inbox, Pomelo.Incoming, Pomelo.Ending;
    var messages := step.config.messages;
    if step.config.protocol == "pomelo" {
      var dial := w.pomelo(vars.m);
      if dial == None {
        return Broken(w);
      }
      var client := new C.Client(dial.value.0, dial.value.1);
      var report, took := Pomelo.ExecutePomelo(lib, client, w.timedOut, messages, vars);
      return OfReport(report);
    }
    var dial := w.ws(vars.m);
    if dial == None {
      return Broken(w);
    }
    var conn := new Plain.Conn(dial.value.0, dial.value.1, w.timedOut);
    if |messages| > 0 {
      var report, took := Plain.ExecuteMultiRound(lib, conn, messages, vars);
      return OfReport(report);
    }
    var single := Plain.ExecuteSingle(lib, conn, SingleRound(step), vars);
    return Outcome(single.status, single.captured, single.captures);
  }

  method ExecuteStep(lib: Lib, w: World, step: Step, vars: CtxMap) returns (result: StepResult, captured: Vars)
    ensures
      var o := RunStep(lib, w, step, vars.m);
      result == ResultOf(step, w, o) && captured == o.captured
  {
    hide RunHttp, RunWs;
    var o: Outcome;
    match step.config {
      case Http =>
        o := ExecuteHttp(lib, w, step, vars);
      case Ws(_, _, _, _) =>
        o := ExecuteWs(lib, w, step, vars);
      case Delay(ms) =>
        o := if ms > 0 && w.interrupted then Broken(w) else Outcome(Success, map[], None);
      case Invalid(_) =>
        o := Outcome(Failed, map[], None);
      case Unknown(_) =>
        o := Outcome(Failed, map[], None);
    }
    return ResultOf(step, w, o), o.captured;
  }

  // ---------- The kinds of steps, spelled out ----------

  /** Which executor a WebSocket step goes to, and that without a connection it fails, by timeout if the deadline has
      passed. */
  lemma WsMeaning(lib: Lib, w: World, step: Step, vars: Vars)
    requires step.config.Ws?
    ensures
      var rounds, o := step.config.messages, RunStep(lib, w, step, vars);
      var refused := Outcome(if w.timedOut then TimedOut else Failed, map[], None);
      if step.config.protocol == "pomelo" then
        match w.pomelo(vars)
        case None => o == refused
        case Some((frames, sends)) =>
          var inbox := C.Inbox(frames);
          var net := Pomelo.Net(Pomelo.Incoming(inbox), Pomelo.Ending(inbox), 0, 0, [], sends, w.timedOut);
          var report := Pomelo.Run(lib, rounds, 0, net, Start(vars)).1;
          o == Outcome(report.status, report.captured, report.captures)
      else
        match w.ws(vars)
        case None => o == refused
        case Some((inbound, writes)) =>
          var net := Plain.Net(inbound, 0, [], writes, w.timedOut);
          if rounds != [] then
            var report := Plain.Run(lib, rounds, 0, net, Start(vars)).1;
            o == Outcome(report.status, report.captured, report.captures)
          else
            var round := Round(step.config.send, step.config.expected, step.captures, step.assertions, "", "");
            var single := Plain.RunSingle(lib, round, net, vars).1;
            o == Outcome(single.status, single.captured, single.captures)
  {
    hide Plain.Run, Plain.RunSingle, Pomelo.Run, C.Inbox, Pomelo.Incoming, Pomelo.Ending;
  }

  /** The other kinds: a delay that is not positive or not interrupted succeeds, a configuration that does not parse and
      an unknown type fail, and none of them captures anything. */
  lemma OtherStepMeaning(lib: Lib, w: World, step: Step, vars: Vars)
    requires !step.config.Http? && !step.config.Ws?
    ensures
      var o := RunStep(lib, w, step, vars);
      && o.captured == map[] && o.captures == None
      && o.status
         == match step.config
            case Delay(ms) => if ms <= 0 || !w.interrupted then Success else if w.timedOut then TimedOut else Failed
            case _ => Failed
  {
  }

  /** A result's fields: the step's name and type, the status as text, the reported captures, no error on success. */
  lemma ResultFields(step: Step, w: World, o: Outcome)
    ensures
      var r := ResultOf(step, w, o);
      && r.name == step.name && r.captures == o.captures
      && r.typ == (match step.config case Http => "http" case Ws(_, _, _, _) => "ws" case Delay(_) => "delay"
                   case Invalid(typ) => typ case Unknown(typ) => typ)
      && r.status == (match o.status case Success => "success" case Failed => "failed" case TimedOut => "timeout"
                      case Crashed => "crashed")
      && r.error == (if o.status == Success then "" else w.error)
      && r.durationMs == w.elapsed && r.request == w.request && r.response == w.response
      && r.scriptLogs == [] && r.scriptError == ""
  {
  }

  // ---------- What a step captures ----------

  /** The variables a step's configuration captures, whatever the outside does. */
  function ConfiguredNames(step: Step): set<string> {
    match step.config
    case Http => Names(step.captures)
    case Ws(protocol, messages, _, _) =>
      if protocol == "pomelo" || |messages| > 0 then RoundNames(messages, 0) else Names(step.captures)
    case Delay(_) => {}
    case Invalid(_) => {}
    case Unknown(_) => {}
  }

  /** A successful step of any kind captures exactly those. */
  lemma SuccessCapturesConfigured(lib: Lib, w: World, step: Step, vars: Vars)
    requires RunStep(lib, w, step, vars).status == Success
    ensures RunStep(lib, w, step, vars).captured.Keys == ConfiguredNames(step)
  {
    hide Plain.Run, Plain.RunSingle, Pomelo.Run, C.Inbox, Pomelo.Incoming, Pomelo.Ending, Names, Captured, AllHold;
    match step.config
    case Http =>
      CapturedNames(lib, step.captures, w.http(vars).resp);
    case Ws(protocol, messages, _, _) =>
      if protocol == "pomelo" {
        var (frames, sends) := w.pomelo(vars).value;
        Pomelo.RunCaptures(lib, messages, 0, PomeloNet(w, frames, sends), Start(vars));
      } else {
        var (inbound, writes) := w.ws(vars).value;
        var net := Plain.Net(inbound, 0, [], writes, w.timedOut);
        if |messages| > 0 {
          Plain.RunCaptures(lib, messages, 0, net, Start(vars));
        } else {
          Plain.SingleCapturesDeclared(lib, SingleRound(step), net, vars);
        }
      }
    case Delay(_) =>
    case Invalid(_) =>
    case Unknown(_) =>
  }

  /** Its own rules are what a step captures if it is an HTTP or a single-round WebSocket step. */
  predicate IsPlain(step: Step) {
    step.config.Http? || (step.config.Ws? && step.config.protocol != "pomelo" && step.config.messages == [])
  }

  lemma PlainCapturesDeclared(step: Step)
    requires IsPlain(step)
    ensures ConfiguredNames(step) == Names(step.captures)
  {
  }

  /** A result carries the name of its step and one of four statuses, and is a success exactly if the step succeeded. */
  lemma ResultMeaning(lib: Lib, worlds: nat -> World, k: nat, step: Step, vars: Vars)
    ensures
      var r := Exec(lib, worlds)(k, step, vars).0;
      && r.name == step.name && r.status in {"success", "failed", "timeout", "crashed"}
      && (r.status == "success" <==> RunStep(lib, worlds(k), step, vars).status == Success)
  {
    StatusTexts(RunStep(lib, worlds(k), step, vars).status);
  }

  lemma StatusTexts(status: Status)
    ensures StatusText(status) in {"success", "failed", "timeout", "crashed"}
    ensures StatusText(status) == "success" <==> status == Success
  {
  }
}
