/** What a WebSocket round is, and what both WebSocket executors do with an accepted message. */
module Rounds {
  import opened Common
  import opened Context
  import opened Library
  import opened Wrappers

  /** expected maps JSON paths to printed values; route and msgType are used by pomelo rounds only. */
  datatype Round = Round(
    send: string,
    expected: map<string, string>,
    captures: seq<CaptureRule>,
    assertions: seq<AssertionRule>,
    route: string,
    msgType: string)

  datatype Status = Success | Failed | TimedOut | Crashed

  datatype Phase = Connecting | Sending(round: nat) | Receiving(round: nat) | Asserting(round: nat) | Completed

  datatype Detail = Detail(round: nat, send: string, recv: string)

  datatype Answer = NoAnswer | Body(body: string) | Messages(trace: seq<string>)

  /** The step result; roundVars are the variables the last round saw. */
  datatype Report = Report(
    status: Status,
    phase: Phase,
    completed: nat,
    details: seq<Detail>,
    response: Answer,
    captures: Option<Vars>,
    captured: Vars,
    roundVars: Vars)

  /** Between two rounds. */
  datatype Progress = Progress(
    vars: Vars,
    captured: Vars,
    lastRecv: string,
    completed: nat,
    details: seq<Detail>)

  function Start(vars: Vars): Progress {
    Progress(vars, map[], "", 0, [])
  }

  const MAX_TRACE := 100
  const MAX_TEXT := 4096

  function Truncate(s: string): string {
    if |s| <= MAX_TEXT then s else s[..MAX_TEXT] + "..."
  }

  /** The first hundred messages read, shortened. */
  function Trace(read: seq<string>): seq<string> {
    seq(if |read| <= MAX_TRACE then |read| else MAX_TRACE, i requires 0 <= i < |read| => Truncate(read[i]))
  }

  lemma NothingToTrace()
    ensures Trace([]) == []
  {
  }

  lemma SliceGrows(s: seq<string>, from: nat, to: nat)
    requires from <= to < |s|
    ensures s[from..to + 1] == s[from..to] + [s[to]]
  {
  }

  /** Adds a message that was read to the trace of those read before. */
  method Record(trace: seq<string>, m: string, ghost read: seq<string>) returns (trace': seq<string>)
    requires trace == Trace(read)
    ensures trace' == Trace(read + [m])
  {
    trace' := if |trace| < MAX_TRACE then trace + [Truncate(m)] else trace;
  }

  function TraceAnswer(read: seq<string>): Answer {
    if read == [] then NoAnswer else Messages(Trace(read))
  }

  predicate HasSend(raw: string, rendered: string) {
    raw != "" && rendered != "" && rendered != "null"
  }

  // ---------- Expectations ----------

  predicate Matches(lib: Lib, msg: string, expected: map<string, string>) {
    forall p :: p in expected ==> lib.show(msg, p) == Some(expected[p])
  }

  method MatchExpect(lib: Lib, msg: string, expected: map<string, string>) returns (ok: bool)
    ensures ok == Matches(lib, msg, expected)
    ensures ok <==> forall p :: p in expected ==> lib.show(msg, p) == Some(expected[p])
  {
    var rest := expected.Keys;
    while rest != {}
      invariant rest <= expected.Keys
      invariant forall p :: p in expected && p !in rest ==> lib.show(msg, p) == Some(expected[p])
    {
      var p :| p in rest;
      if lib.show(msg, p) != Some(expected[p]) {
        return false;
      }
      rest := rest - {p};
    }
    return true;
  }

  // ---------- After a message was accepted ----------

  /** Record, capture, assert. */
  function Settle(lib: Lib, r: Round, n: nat, sendStr: string, m: string, p: Progress): (Progress, Option<Report>) {
    var details := p.details + [Detail(n, sendStr, Truncate(m))];
    var got := Common.Captured(lib, r.captures, WsResponse(m));
    var vars, captured := p.vars + got, p.captured + got;
    var next := Progress(vars, captured, m, p.completed + 1, details);
    if AllHold(lib, r.assertions, WsResponse(m), vars) then (next, None)
    else (next, Some(Report(Failed, Asserting(n), p.completed, details, NoAnswer, None, captured, vars)))
  }

  function Broken(status: Status, phase: Phase, n: nat, sendStr: string, read: seq<string>, p: Progress): Report {
    Report(status, phase, p.completed, p.details + [Detail(n, sendStr, "")], TraceAnswer(read), None,
           p.captured, p.vars)
  }

  function Finished(p: Progress): Report {
    Report(Success, Completed, p.completed, p.details, Body(Truncate(p.lastRecv)), Some(p.captured), p.captured, p.vars)
  }

  /** The tail of a round in both executors: captures into the round variables, then assertions. */
  method SettleRound(lib: Lib, r: Round, n: nat, sendStr: string, m: string, completedRounds: nat,
                     details: seq<Detail>, roundVars: CtxMap, captured: CtxMap, ghost p: Progress)
    returns (stop: Option<Report>, details': seq<Detail>)
    requires roundVars != captured
    requires p == Progress(roundVars.m, captured.m, p.lastRecv, completedRounds, details)
    modifies roundVars, captured
    ensures
      && Settle(lib, r, n, sendStr, m, p)
         == (Progress(roundVars.m, captured.m, m, completedRounds + 1, details'), stop)
  {
    details' := details + [Detail(n, sendStr, Truncate(m))];
    if |r.captures| > 0 {
      var roundCaptured := ExecuteCaptures(lib, r.captures, WsResponse(m), roundVars);
      Collect(captured, roundCaptured);
    }
    assert p.vars + map[] == p.vars && p.captured + map[] == p.captured;
    stop := None;
    if |r.assertions| > 0 {
      var failed := ExecuteAssertions(lib, r.assertions, WsResponse(m), roundVars.m);
      if failed != None {
        stop := Some(Report(Failed, Asserting(n), completedRounds, details', NoAnswer, None, captured.m, roundVars.m));
      }
    }
  }

  // ---------- Whether a round sends ----------

  /** The raw text holds a quote or no placeholder, as every valid JSON text does. */
  predicate FixedSend(raw: string) {
    '"' in raw || Context.Keys(raw) == {}
  }

  /** Then the variables have no say in whether the round sends. */
  lemma SendIsFixed(lib: Lib, raw: string, vars: Vars)
    requires FixedSend(raw)
    ensures HasSend(raw, Render(lib, raw, vars)) == HasSend(raw, raw)
  {
    if '"' in raw {
      QuoteSurvives(lib, raw, vars);
    } else {
      RenderPlain(lib, raw, vars);
    }
  }

  // ---------- Variables and captures stay in step ----------

  /** The round variables are the step's variables overlaid with what it captured so far. */
  predicate InStep(p: Progress, vars: Vars) {
    p.vars == vars + p.captured
  }

  predicate ReportInStep(r: Report, vars: Vars) {
    r.roundVars == vars + r.captured
  }

  lemma SettleKeepsStep(lib: Lib, r: Round, n: nat, sendStr: string, m: string, p: Progress, vars: Vars)
    requires InStep(p, vars)
    ensures
      var (next, stop) := Settle(lib, r, n, sendStr, m, p);
      InStep(next, vars) && (stop.Some? ==> ReportInStep(stop.value, vars))
  {
    var got := Common.Captured(lib, r.captures, WsResponse(m));
    assert (vars + p.captured) + got == vars + (p.captured + got);
  }

  // ---------- What the progress report says ----------

  /** The details are of some of the first n rounds, in order. */
  predicate InOrder(details: seq<Detail>, n: nat) {
    && (forall k :: 0 <= k < |details| ==> 1 <= details[k].round <= n)
    && (forall j, k :: 0 <= j < k < |details| ==> details[j].round < details[k].round)
  }

  /** After the first n rounds: one detail for each completed round. */
  predicate Tracks(p: Progress, n: nat) {
    p.completed == |p.details| && InOrder(p.details, n)
  }

  /** A success has one detail per completed round. A failure has one more, for the round its phase names,
      which shows a received message only if that round got as far as asserting. */
  predicate ReportTracks(r: Report, n: nat) {
    && InOrder(r.details, n)
    && (if r.status == Success then r.phase == Completed && r.completed == |r.details|
        else
          && (r.phase.Sending? || r.phase.Receiving? || r.phase.Asserting?)
          && |r.details| == r.completed + 1
          && r.details[r.completed].round == r.phase.round
          && (!r.phase.Asserting? ==> r.details[r.completed].recv == ""))
  }

  lemma SettleTracks(lib: Lib, r: Round, n: nat, sendStr: string, m: string, p: Progress)
    requires n > 0 && Tracks(p, n - 1)
    ensures
      var (next, stop) := Settle(lib, r, n, sendStr, m, p);
      Tracks(next, n) && |next.details| == |p.details| + 1 && (stop.Some? ==> ReportTracks(stop.value, n))
  {
  }

  lemma BrokenTracks(status: Status, phase: Phase, n: nat, sendStr: string, read: seq<string>, p: Progress)
    requires n > 0 && Tracks(p, n - 1) && status != Success
    requires phase == Sending(n) || phase == Receiving(n)
    ensures ReportTracks(Broken(status, phase, n, sendStr, read, p), n)
  {
  }

  lemma FinishedTracks(p: Progress, n: nat)
    requires Tracks(p, n)
    ensures ReportTracks(Finished(p), n)
  {
  }

  lemma TracksFurther(p: Progress, r: Report, n: nat, n': nat)
    requires n <= n'
    ensures Tracks(p, n) ==> Tracks(p, n')
    ensures ReportTracks(r, n) ==> ReportTracks(r, n')
  {
  }

  // ---------- What the rounds of a run see ----------

  /** The variables before round number k (from 0), if the rounds take the messages at these positions. */
  function VarsBefore(lib: Lib, rounds: seq<Round>, texts: seq<string>, a: seq<nat>, vars: Vars, k: nat): Vars
    requires InRange(texts, a) && k <= |rounds| && |rounds| == |a|
  {
    if k == 0 then vars
    else
      VarsBefore(lib, rounds, texts, a, vars, k - 1)
      + Common.Captured(lib, rounds[k - 1].captures, WsResponse(texts[a[k - 1]]))
  }

  /** How many of the first k rounds send. */
  function SendsBefore(lib: Lib, rounds: seq<Round>, texts: seq<string>, a: seq<nat>, vars: Vars, k: nat): nat
    requires InRange(texts, a) && k <= |rounds| && |rounds| == |a|
  {
    if k == 0 then 0
    else
      var r := rounds[k - 1];
      var sends := HasSend(r.send, Render(lib, r.send, VarsBefore(lib, rounds, texts, a, vars, k - 1)));
      SendsBefore(lib, rounds, texts, a, vars, k - 1) + if sends then 1 else 0
  }

  /** Every round's assertions hold of its message, with the variables captured up to and including that round. */
  predicate AllRoundsAssert(lib: Lib, rounds: seq<Round>, texts: seq<string>, a: seq<nat>, vars: Vars)
    requires InRange(texts, a) && |rounds| == |a|
  {
    forall k :: 0 <= k < |rounds| ==> RoundAsserts(lib, rounds, texts, a, vars, k)
  }

  predicate RoundAsserts(lib: Lib, rounds: seq<Round>, texts: seq<string>, a: seq<nat>, vars: Vars, k: nat)
    requires InRange(texts, a) && |rounds| == |a| && k < |rounds|
  {
    AllHold(lib, rounds[k].assertions, WsResponse(texts[a[k]]), VarsBefore(lib, rounds, texts, a, vars, k + 1))
  }

  lemma NextRound(lib: Lib, rounds: seq<Round>, texts: seq<string>, a: seq<nat>, vars: Vars, i: nat)
    requires InRange(texts, a) && i < |rounds| == |a|
    ensures
      var r, m := rounds[i], WsResponse(texts[a[i]]);
      var before := VarsBefore(lib, rounds, texts, a, vars, i);
      var after := before + Common.Captured(lib, r.captures, m);
      && VarsBefore(lib, rounds, texts, a, vars, i + 1) == after
      && (RoundAsserts(lib, rounds, texts, a, vars, i) <==> AllHold(lib, r.assertions, m, after))
      && SendsBefore(lib, rounds, texts, a, vars, i + 1)
         == SendsBefore(lib, rounds, texts, a, vars, i) + if HasSend(r.send, Render(lib, r.send, before)) then 1 else 0
  {
    hide AllHold, HasSend;
  }

  lemma {:induction false} SendsGrow(lib: Lib, rounds: seq<Round>, texts: seq<string>, a: seq<nat>, vars: Vars,
                                     j: nat, k: nat)
    requires InRange(texts, a) && j <= k <= |rounds| && |rounds| == |a|
    ensures SendsBefore(lib, rounds, texts, a, vars, j) <= SendsBefore(lib, rounds, texts, a, vars, k)
    decreases k
  {
    if j < k { SendsGrow(lib, rounds, texts, a, vars, j, k - 1); }
  }

  predicate NoAssertions(rounds: seq<Round>) {
    forall k :: 0 <= k < |rounds| ==> rounds[k].assertions == []
  }

  predicate FixedSends(rounds: seq<Round>) {
    forall k :: 0 <= k < |rounds| ==> FixedSend(rounds[k].send)
  }

  /** How many of the first k rounds send, when the variables have no say in it. */
  function SenderCount(rounds: seq<Round>, k: nat): nat
    requires k <= |rounds|
  {
    if k == 0 then 0 else SenderCount(rounds, k - 1) + if HasSend(rounds[k - 1].send, rounds[k - 1].send) then 1 else 0
  }

  lemma {:induction false} FixedSendsCount(lib: Lib, rounds: seq<Round>, texts: seq<string>, a: seq<nat>, vars: Vars,
                                           k: nat)
    requires InRange(texts, a) && k <= |rounds| && |rounds| == |a| && FixedSends(rounds)
    ensures SendsBefore(lib, rounds, texts, a, vars, k) == SenderCount(rounds, k)
  {
    hide Render, HasSend, FixedSend, VarsBefore;
    if k > 0 {
      FixedSendsCount(lib, rounds, texts, a, vars, k - 1);
      SendIsFixed(lib, rounds[k - 1].send, VarsBefore(lib, rounds, texts, a, vars, k - 1));
    }
  }

  /** The names the rounds from i on capture. */
  function RoundNames(rounds: seq<Round>, i: nat): set<string>
    requires i <= |rounds|
    decreases |rounds| - i
  {
    if i == |rounds| then {} else Names(rounds[i].captures) + RoundNames(rounds, i + 1)
  }

  /** A settled round has captured what its rules name. */
  lemma SettleCaptures(lib: Lib, r: Round, n: nat, sendStr: string, m: string, p: Progress)
    ensures Settle(lib, r, n, sendStr, m, p).0.captured.Keys == p.captured.Keys + Names(r.captures)
  {
    CapturedNames(lib, r.captures, WsResponse(m));
  }

  // ---------- What a run shows ----------

  predicate Succeeds(report: Report) {
    report.phase == Completed || report.status == Success
  }

  /** The received texts that details record. */
  function Recvs(details: seq<Detail>): seq<string> {
    seq(|details|, k requires 0 <= k < |details| => details[k].recv)
  }

  /** A settled round shows its message; it stops the run only as a failure, and never without assertions. */
  lemma SettleShows(lib: Lib, r: Round, n: nat, sendStr: string, m: string, p: Progress)
    ensures
      var (next, stop) := Settle(lib, r, n, sendStr, m, p);
      && (stop.Some? ==> !Succeeds(stop.value))
      && (stop.None? ==> Recvs(next.details) == Recvs(p.details) + [Truncate(m)])
      && (r.assertions == [] ==> stop.None?)
  {
  }

  predicate InRange(texts: seq<string>, a: seq<nat>) {
    forall k :: 0 <= k < |a| ==> a[k] < |texts|
  }

  /** The messages at some positions, as details show them. */
  function Shown(texts: seq<string>, a: seq<nat>): seq<string>
    requires InRange(texts, a)
  {
    seq(|a|, k requires 0 <= k < |a| => Truncate(texts[a[k]]))
  }

  lemma ShownNothing(texts: seq<string>)
    ensures Shown(texts, []) == []
  {
  }

  lemma ShownCons(texts: seq<string>, j: nat, a: seq<nat>)
    requires j < |texts| && InRange(texts, a)
    ensures InRange(texts, [j] + a)
    ensures Shown(texts, [j] + a) == [Truncate(texts[j])] + Shown(texts, a)
  {
  }

  // ---------- What a run sends ----------

  /** For each round begun, the position of the message it took; None for a round that was skipped. */
  predicate TookInRange(texts: seq<string>, took: seq<Option<nat>>) {
    forall k :: 0 <= k < |took| && took[k].Some? ==> took[k].value < |texts|
  }

  /** Where the next round starts to look. */
  function After(took: seq<Option<nat>>, from: nat): nat
    decreases |took|
  {
    if took == [] then from
    else
      var n := |took| - 1;
      match took[n] case None => After(took[..n], from) case Some(j) => j + 1
  }

  /** The last message taken, empty if there is none. */
  function LastTaken(texts: seq<string>, took: seq<Option<nat>>): string
    requires TookInRange(texts, took)
    decreases |took|
  {
    if took == [] then ""
    else
      var n := |took| - 1;
      assert forall k :: 0 <= k < n ==> took[..n][k] == took[k];
      match took[n] case None => LastTaken(texts, took[..n]) case Some(j) => texts[j]
  }

  lemma LastTakenNext(texts: seq<string>, took: seq<Option<nat>>, last: Option<nat>)
    requires TookInRange(texts, took) && TookInRange(texts, took + [last]) && (last.Some? ==> last.value < |texts|)
    ensures LastTaken(texts, took + [last]) == match last case None => LastTaken(texts, took) case Some(j) => texts[j]
  {
    assert (took + [last])[..|took|] == took;
  }

  /** The status and response that go with the phase in which a run ends. */
  predicate EndsAs(report: Report, unreadStatus: Status, unread: seq<string>, lastRecv: string) {
    match report.phase
    case Completed =>
      && report.status == Success && report.response == Body(Truncate(lastRecv))
      && report.captures == Some(report.captured)
    case Receiving(_) =>
      report.status == unreadStatus && report.response == TraceAnswer(unread) && report.captures == None
    case Connecting => false
    case _ => report.status == Failed && report.response == NoAnswer && report.captures == None
  }

  /** The last message matters to a completed step only, the unread ones to a step that waits for a message. */
  lemma EndsEarly(stop: Option<Report>, ends: Status, unread: seq<string>, lastRecv: string)
    requires stop.Some? ==> !stop.value.phase.Completed? && EndsAs(stop.value, ends, unread, "")
    ensures
      stop.Some? ==>
        if stop.value.phase.Receiving? then EndsAs(stop.value, ends, unread, lastRecv)
        else forall rest, last :: EndsAs(stop.value, ends, rest, last)
  {
  }

  /** Texts over 4096 characters are cut there and marked; a trace has the first hundred messages, and none is no
      answer. */
  lemma TraceMeaning(read: seq<string>, s: string)
    ensures Truncate(s) == if |s| <= 4096 then s else s[..4096] + "..."
    ensures read == [] ==> TraceAnswer(read) == NoAnswer
    ensures read != [] ==>
      && TraceAnswer(read).Messages?
      && |TraceAnswer(read).trace| == (if |read| <= 100 then |read| else 100)
      && forall i :: 0 <= i < |TraceAnswer(read).trace| ==> TraceAnswer(read).trace[i] == Truncate(read[i])
  {
  }

  /** The variables before round number k (from 0), captured by the rounds before it from the messages they took. */
  function VarsSeen(lib: Lib, rounds: seq<Round>, texts: seq<string>, took: seq<Option<nat>>, vars: Vars, k: nat): Vars
    requires TookInRange(texts, took) && k <= |took| && k <= |rounds|
  {
    if k == 0 then vars
    else
      var before := VarsSeen(lib, rounds, texts, took, vars, k - 1);
      match took[k - 1]
      case None => before
      case Some(j) => before + Common.Captured(lib, rounds[k - 1].captures, WsResponse(texts[j]))
  }

  /** What round number k hands to the connection: its rendered text, unless there is nothing to send. */
  function TextSent(lib: Lib, rounds: seq<Round>, texts: seq<string>, took: seq<Option<nat>>, vars: Vars, k: nat)
    : Option<string>
    requires TookInRange(texts, took) && k <= |took| && k < |rounds|
  {
    var raw := rounds[k].send;
    var text := Render(lib, raw, VarsSeen(lib, rounds, texts, took, vars, k));
    if |raw| > 0 && text != "" && text != "null" then Some(text) else None
  }

  /** What the first k rounds hand to the connection, in order. */
  function TextsSent(lib: Lib, rounds: seq<Round>, texts: seq<string>, took: seq<Option<nat>>, vars: Vars, k: nat)
    : seq<string>
    requires TookInRange(texts, took) && k <= |took| + 1 && k <= |rounds|
  {
    if k == 0 then []
    else
      TextsSent(lib, rounds, texts, took, vars, k - 1)
      + match TextSent(lib, rounds, texts, took, vars, k - 1) case None => [] case Some(text) => [text]
  }

  lemma {:induction false} VarsSeenExtends(lib: Lib, rounds: seq<Round>, texts: seq<string>, took: seq<Option<nat>>,
                                           last: Option<nat>, vars: Vars, k: nat)
    requires TookInRange(texts, took + [last]) && k <= |took| && k <= |rounds|
    ensures TookInRange(texts, took)
    ensures VarsSeen(lib, rounds, texts, took + [last], vars, k) == VarsSeen(lib, rounds, texts, took, vars, k)
  {
    assert forall n :: 0 <= n < |took| ==> (took + [last])[n] == took[n];
    if k > 0 { VarsSeenExtends(lib, rounds, texts, took, last, vars, k - 1); }
  }

  lemma {:induction false} TextsSentExtends(lib: Lib, rounds: seq<Round>, texts: seq<string>, took: seq<Option<nat>>,
                                            last: Option<nat>, vars: Vars, k: nat)
    requires TookInRange(texts, took + [last]) && k <= |took| + 1 && k <= |rounds|
    ensures TookInRange(texts, took)
    ensures TextsSent(lib, rounds, texts, took + [last], vars, k) == TextsSent(lib, rounds, texts, took, vars, k)
  {
    hide Render;
    assert forall n :: 0 <= n < |took| ==> (took + [last])[n] == took[n];
    if k > 0 {
      VarsSeenExtends(lib, rounds, texts, took, last, vars, k - 1);
      TextsSentExtends(lib, rounds, texts, took, last, vars, k - 1);
    }
  }

  lemma TextSentExtends(lib: Lib, rounds: seq<Round>, texts: seq<string>, took: seq<Option<nat>>, last: Option<nat>,
                        vars: Vars, k: nat)
    requires TookInRange(texts, took + [last]) && k <= |took| && k < |rounds|
    ensures TookInRange(texts, took)
    ensures TextSent(lib, rounds, texts, took + [last], vars, k) == TextSent(lib, rounds, texts, took, vars, k)
  {
    hide Render;
    VarsSeenExtends(lib, rounds, texts, took, last, vars, k);
  }

  /** What a settled round leaves: its message, its captures on top of the variables, and how it fails. */
  lemma SettleMeaning(lib: Lib, r: Round, n: nat, sendStr: string, m: string, p: Progress)
    ensures
      var (next, stop) := Settle(lib, r, n, sendStr, m, p);
      var vars := p.vars + Common.Captured(lib, r.captures, WsResponse(m));
      && next.vars == vars && next.lastRecv == m
      && next.details == p.details + [Detail(n, sendStr, Truncate(m))]
      && (stop == None <==> AllHold(lib, r.assertions, WsResponse(m), vars))
      && (stop.Some? ==>
            && stop.value.phase == Asserting(n) && stop.value.status == Failed && stop.value.roundVars == vars
            && stop.value.response == NoAnswer && stop.value.captures == None)
  {
    hide AllHold, Truncate, Common.Captured;
  }

  lemma SettleCounts(lib: Lib, r: Round, n: nat, sendStr: string, m: string, p: Progress)
    ensures
      var (next, stop) := Settle(lib, r, n, sendStr, m, p);
      var details := p.details + [Detail(n, sendStr, Truncate(m))];
      && next.details == details && next.completed == p.completed + 1 && next.lastRecv == m
      && (stop.Some? ==>
            stop.value.phase == Asserting(n) && stop.value.completed == p.completed && stop.value.details == details)
  {
    hide AllHold, Truncate, Common.Captured;
  }

  /** One more round. */
  lemma RoundTook(lib: Lib, rounds: seq<Round>, texts: seq<string>, took: seq<Option<nat>>, last: Option<nat>,
                  vars: Vars)
    requires |took| < |rounds| && TookInRange(texts, took) && (last.Some? ==> last.value < |texts|)
    ensures TookInRange(texts, took + [last])
    ensures
      var i := |took|;
      var before := VarsSeen(lib, rounds, texts, took, vars, i);
      var text := Render(lib, rounds[i].send, before);
      var sent := if |rounds[i].send| > 0 && text != "" && text != "null" then [text] else [];
      && VarsSeen(lib, rounds, texts, took + [last], vars, i + 1)
         == (match last
             case None => before
             case Some(j) => before + Common.Captured(lib, rounds[i].captures, WsResponse(texts[j])))
      && TextsSent(lib, rounds, texts, took, vars, i + 1) == TextsSent(lib, rounds, texts, took, vars, i) + sent
      && TextsSent(lib, rounds, texts, took + [last], vars, i + 1) == TextsSent(lib, rounds, texts, took, vars, i + 1)
  {
    hide Render, Common.Captured;
    VarsSeenExtends(lib, rounds, texts, took, last, vars, |took|);
    TextsSentExtends(lib, rounds, texts, took, last, vars, |took| + 1);
  }

  /** The rounds a run began: all of them, or those up to the one its phase names. */
  function Begun(report: Report, n: nat): nat {
    match report.phase
    case Connecting => 0
    case Sending(round) => round
    case Receiving(round) => round
    case Asserting(round) => round
    case Completed => n
  }
}
