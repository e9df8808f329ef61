/** The plain WebSocket executor: send and receive rounds over one connection. */
module PlainRounds {
  import opened Common
  import opened Context
  import opened Library
  import opened Matching
  import opened Rounds
  import opened Wrappers

  /** An open connection: the messages the server will send, after which reading fails,
      and how many writes still succeed. expired tells whether the deadline is why reading fails. */
  datatype Net = Net(inbound: seq<string>, pos: nat, outbound: seq<string>, writesLeft: nat, expired: bool)

  class Conn {
    const inbound: seq<string>
    const expired: bool
    var pos: nat
    var outbound: seq<string>
    var writesLeft: nat

    ghost predicate Valid()
      reads this
    {
      pos <= |inbound|
    }

    ghost function State(): Net
      reads this
    {
      Net(inbound, pos, outbound, writesLeft, expired)
    }

    constructor (inbound: seq<string>, writesLeft: nat, expired: bool)
      ensures Valid()
      ensures State() == Net(inbound, 0, [], writesLeft, expired)
    {
      this.inbound, this.writesLeft, this.expired := inbound, writesLeft, expired;
      pos, outbound := 0, [];
    }

    method ReadMessage() returns (r: Option<string>)
      requires Valid()
      modifies this
      ensures Valid()
      ensures r == if old(pos) < |inbound| then Some(inbound[old(pos)]) else None
      ensures State() == old(State()).(pos := if r.Some? then old(pos) + 1 else old(pos))
    {
      if pos == |inbound| {
        return None;
      }
      r := Some(inbound[pos]);
      pos := pos + 1;
    }

    method WriteMessage(s: string) returns (ok: bool)
      requires Valid()
      modifies this
      ensures Valid()
      ensures ok == (old(writesLeft) > 0)
      ensures State() == if ok then Sent(old(State()), s) else old(State())
    {
      ok := writesLeft > 0;
      if ok {
        outbound := outbound + [s];
        writesLeft := writesLeft - 1;
      }
    }
  }

  function Sent(net: Net, s: string): Net
    requires net.writesLeft > 0
  {
    net.(outbound := net.outbound + [s], writesLeft := net.writesLeft - 1)
  }

  // ---------- One round and a whole run, as functions ----------

  function Accept(lib: Lib, expected: map<string, string>): string -> bool {
    m => Matches(lib, m, expected)
  }

  function Deadline(net: Net): Status {
    if net.expired then TimedOut else Failed
  }

  /** The connection after a round's send, None if the send failed. */
  function AfterSend(net: Net, raw: string, sendStr: string): Option<Net> {
    if !HasSend(raw, sendStr) then Some(net)
    else if net.writesLeft == 0 then None
    else Some(Sent(net, sendStr))
  }

  /** Round number n: the connection and progress after it, and the report if it ends the step. */
  function OneRound(lib: Lib, r: Round, n: nat, net: Net, p: Progress): (Net, Progress, Option<Report>)
    requires net.pos <= |net.inbound|
  {
    var sendStr := Render(lib, r.send, p.vars);
    match AfterSend(net, r.send, sendStr)
    case None => (net, p, Some(Broken(Failed, Sending(n), n, sendStr, [], p)))
    case Some(net1) =>
      match FirstFrom(net.inbound, Accept(lib, r.expected), net.pos)
      case None =>
        var report := Broken(Deadline(net), Receiving(n), n, sendStr, net.inbound[net.pos..|net.inbound|], p);
        (net1.(pos := |net.inbound|), p, Some(report))
      case Some(j) =>
        var (next, stop) := Settle(lib, r, n, sendStr, net.inbound[j], p);
        (net1.(pos := j + 1), next, stop)
  }

  /** The rounds from index i on. */
  function Run(lib: Lib, rounds: seq<Round>, i: nat, net: Net, p: Progress): (Net, Report)
    requires i <= |rounds| && net.pos <= |net.inbound|
    decreases |rounds| - i
  {
    if i == |rounds| then (net, Finished(p))
    else
      match OneRound(lib, rounds[i], i + 1, net, p)
      case (net', _, Some(report)) => (net', report)
      case (net', p', None) => Run(lib, rounds, i + 1, net', p')
  }

  // ---------- The source's loops ----------

  lemma SearchStops(lib: Lib, s: seq<string>, expected: map<string, string>, i: nat, j: nat)
    requires i <= j <= |s|
    requires forall k :: i <= k < j ==> !Matches(lib, s[k], expected)
    requires j < |s| ==> Matches(lib, s[j], expected)
    ensures FirstFrom(s, Accept(lib, expected), i) == if j < |s| then Some(j) else None
  {
    FirstFromIs(s, Accept(lib, expected), i, j);
  }

  /** Reads until a message matches, keeping the first hundred for display. */
  method ReceiveMatching(lib: Lib, conn: Conn, expected: map<string, string>)
    returns (m: Option<string>, trace: seq<string>, ghost read: seq<string>)
    requires conn.Valid()
    modifies conn
    ensures conn.Valid()
    ensures
      var net := old(conn.State());
      match FirstFrom(net.inbound, Accept(lib, expected), net.pos)
      case None =>
        m == None && conn.State() == net.(pos := |net.inbound|)
      case Some(j) =>
        m == Some(net.inbound[j]) && conn.State() == net.(pos := j + 1)
    ensures old(conn.pos) <= conn.pos && read == conn.inbound[old(conn.pos)..conn.pos] && trace == Trace(read)
  {
    hide Matches, FirstFrom, Trace;
    NothingToTrace();
    trace := [];
    ghost var from, outbound, writesLeft := conn.pos, conn.outbound, conn.writesLeft;
    read := [];
    assert conn.inbound[from..conn.pos] == [];
    while true
      invariant conn.Valid() && from <= conn.pos
      invariant conn.outbound == outbound && conn.writesLeft == writesLeft
      invariant forall k :: from <= k < conn.pos ==> !Matches(lib, conn.inbound[k], expected)
      invariant trace == Trace(read) && read == conn.inbound[from..conn.pos]
      decreases |conn.inbound| - conn.pos
    {
      var data := conn.ReadMessage();
      if data == None {
        SearchStops(lib, conn.inbound, expected, from, conn.pos);
        return None, trace, read;
      }
      var lastRecv := data.value;
      trace := Record(trace, lastRecv, read);
      read := read + [lastRecv];
      SliceGrows(conn.inbound, from, conn.pos - 1);
      var ok := MatchExpect(lib, lastRecv, expected);
      if |expected| == 0 || ok {
        SearchStops(lib, conn.inbound, expected, from, conn.pos - 1);
        return data, trace, read;
      }
    }
  }

  /** Both modes begin a round like this. sent is false if the write failed. */
  method SendAndReceive(lib: Lib, conn: Conn, raw: string, sendStr: string, expected: map<string, string>)
    returns (sent: bool, m: Option<string>, answer: Answer)
    requires conn.Valid()
    modifies conn
    ensures conn.Valid()
    ensures
      conn.outbound
      == old(conn.outbound)
         + if raw != "" && sendStr != "" && sendStr != "null" && old(conn.writesLeft) > 0 then [sendStr] else []
    ensures
      var net := old(conn.State());
      match AfterSend(net, raw, sendStr)
      case None => !sent && conn.State() == net
      case Some(net1) =>
        && sent
        && match FirstFrom(net.inbound, Accept(lib, expected), net.pos)
           case None =>
             && m == None && conn.State() == net1.(pos := |net.inbound|)
             && answer == TraceAnswer(net.inbound[net.pos..|net.inbound|])
           case Some(j) => m == Some(net.inbound[j]) && conn.State() == net1.(pos := j + 1)
  {
    sent, m, answer := true, None, NoAnswer;
    if HasSend(raw, sendStr) {
      sent := conn.WriteMessage(sendStr);
      if !sent {
        return;
      }
    }
    var received, trace, read := ReceiveMatching(lib, conn, expected);
    m := received;
    if m == None && |trace| > 0 {
      answer := Messages(trace);
    }
  }

  /** One turn of the multi-round loop. */
  method PlayRound(lib: Lib, conn: Conn, msg: Round, n: nat, completedRounds: nat, details: seq<Detail>,
                   roundVars: CtxMap, captured: CtxMap, ghost p: Progress)
    returns (stop: Option<Report>, lastRecv: string, details': seq<Detail>)
    requires conn.Valid() && roundVars != captured
    requires p == Progress(roundVars.m, captured.m, p.lastRecv, completedRounds, details)
    modifies conn, roundVars, captured
    ensures conn.Valid()
    ensures
      var (net, next, end) := OneRound(lib, msg, n, old(conn.State()), p);
      && conn.State() == net && stop == end
      && (stop == None ==> next == Progress(roundVars.m, captured.m, lastRecv, completedRounds + 1, details'))
  {
    var sendStr := Render(lib, msg.send, roundVars.m);
    lastRecv := "";
    details' := details + [Detail(n, sendStr, "")];
    var sent, m, answer := SendAndReceive(lib, conn, msg.send, sendStr, msg.expected);
    if !sent {
      stop := Some(Report(Failed, Sending(n), completedRounds, details', NoAnswer, None, captured.m, roundVars.m));
      return;
    }
    if m == None {
      stop := Some(Report(if conn.expired then TimedOut else Failed, Receiving(n), completedRounds, details',
                          answer, None, captured.m, roundVars.m));
      return;
    }
    lastRecv := m.value;
    stop, details' := SettleRound(lib, msg, n, sendStr, lastRecv, completedRounds, details, roundVars, captured, p);
  }

  method ExecuteMultiRound(lib: Lib, conn: Conn, rounds: seq<Round>, vars: CtxMap)
    returns (report: Report, ghost took: seq<Option<nat>>)
    requires conn.Valid()
    modifies conn
    ensures conn.Valid()
    ensures (conn.State(), report) == Run(lib, rounds, 0, old(conn.State()), Start(vars.m))
    ensures
      WroteInAll(lib, rounds, took, old(conn.pos), vars.m, old(conn.outbound), conn.State(), report)
  {
    hide OneRound, WroteInAll;
    var details: seq<Detail> := [];
    var completedRounds := 0;
    var lastRecv := "";
    var captured := new CtxMap(map[]);
    var empty := new CtxMap(map[]);
    var roundVars := Merge(empty, vars);
    ghost var net0 := conn.State();
    took := StepWrites(lib, rounds, net0, vars.m);
    var i := 0;
    assert roundVars.m == vars.m;
    while i < |rounds|
      invariant 0 <= i <= |rounds|
      invariant conn.Valid() && fresh(roundVars) && fresh(captured) && roundVars != captured
      invariant
        Run(lib, rounds, 0, net0, Start(vars.m))
        == Run(lib, rounds, i, conn.State(), Progress(roundVars.m, captured.m, lastRecv, completedRounds, details))
    {
      ghost var p := Progress(roundVars.m, captured.m, lastRecv, completedRounds, details);
      var stop, m, details' :=
        PlayRound(lib, conn, rounds[i], i + 1, completedRounds, details, roundVars, captured, p);
      if stop != None {
        return stop.value, took;
      }
      lastRecv, details := m, details';
      completedRounds := completedRounds + 1;
      i := i + 1;
    }
    report := Report(Success, Completed, completedRounds, details, Body(Truncate(lastRecv)), Some(captured.m),
                     captured.m, roundVars.m);
  }

  // ---------- Single-round mode ----------

  /** The result of the single-round mode: its status, what it captured, the captures it reports, and its response. */
  datatype Single = Single(status: Status, captured: Vars, captures: Option<Vars>, response: Answer)

  /** The top-level fields of a configuration, read as one round. */
  function RunSingle(lib: Lib, r: Round, net: Net, vars: Vars): (Net, Single)
    requires net.pos <= |net.inbound|
  {
    match AfterSend(net, r.send, Render(lib, r.send, vars))
    case None => (net, Single(Failed, map[], None, NoAnswer))
    case Some(net1) =>
      match FirstFrom(net.inbound, Accept(lib, r.expected), net.pos)
      case None =>
        (net1.(pos := |net.inbound|),
         Single(Deadline(net), map[], None, TraceAnswer(net.inbound[net.pos..|net.inbound|])))
      case Some(j) =>
        var resp := WsResponse(net.inbound[j]);
        var status := if AllHold(lib, r.assertions, resp, vars) then Success else Failed;
        (net1.(pos := j + 1),
         Single(status, Common.Captured(lib, r.captures, resp), Some(Common.Captured(lib, r.captures, resp)),
                Body(Truncate(net.inbound[j]))))
  }

  method ExecuteSingle(lib: Lib, conn: Conn, cfg: Round, vars: CtxMap) returns (result: Single)
    requires conn.Valid()
    modifies conn
    ensures conn.Valid()
    ensures (conn.State(), result) == RunSingle(lib, cfg, old(conn.State()), vars.m)
    ensures
      var text := Render(lib, cfg.send, vars.m);
      conn.outbound
      == old(conn.outbound)
         + if cfg.send != "" && text != "" && text != "null" && old(conn.writesLeft) > 0 then [text] else []
  {
    var captured := new CtxMap(map[]);
    var sendStr := Render(lib, cfg.send, vars.m);
    var sent, m, answer := SendAndReceive(lib, conn, cfg.send, sendStr, cfg.expected);
    if !sent {
      return Single(Failed, captured.m, None, NoAnswer);
    }
    if m == None {
      return Single(if conn.expired then TimedOut else Failed, captured.m, None, answer);
    }
    var lastRecv := m.value;
    var captures := ExecuteCaptures(lib, cfg.captures, WsResponse(lastRecv), captured);
    assert map[] + captures == captures;
    var failed := ExecuteAssertions(lib, cfg.assertions, WsResponse(lastRecv), vars.m);
    return Single(if failed == None then Success else Failed, captured.m, Some(captures), Body(Truncate(lastRecv)));
  }

  /** A single round that succeeds captures exactly the names its rules declare. */
  lemma SingleCapturesDeclared(lib: Lib, r: Round, net: Net, vars: Vars)
    requires net.pos <= |net.inbound|
    requires RunSingle(lib, r, net, vars).1.status == Success
    ensures RunSingle(lib, r, net, vars).1.captured.Keys == Names(r.captures)
  {
    var j := FirstFrom(net.inbound, Accept(lib, r.expected), net.pos);
    if j.Some? {
      CapturedNames(lib, r.captures, WsResponse(net.inbound[j.value]));
    }
  }

  // ---------- Rounds and captures ----------

  lemma {:induction false} RunKeepsStep(lib: Lib, rounds: seq<Round>, i: nat, net: Net, p: Progress, vars: Vars)
    requires i <= |rounds| && net.pos <= |net.inbound| && InStep(p, vars)
    ensures ReportInStep(Run(lib, rounds, i, net, p).1, vars)
    decreases |rounds| - i
  {
    if i < |rounds| {
      var sendStr := Render(lib, rounds[i].send, p.vars);
      var j := FirstFrom(net.inbound, Accept(lib, rounds[i].expected), net.pos);
      if j.Some? {
        SettleKeepsStep(lib, rounds[i], i + 1, sendStr, net.inbound[j.value], p, vars);
      }
      var (net', p', stop) := OneRound(lib, rounds[i], i + 1, net, p);
      if stop == None {
        RunKeepsStep(lib, rounds, i + 1, net', p', vars);
      }
    }
  }

  /** Merging what the step captured into the caller's variables gives the variables its last round saw. */
  lemma {:induction false} CapturesGiveRoundVars(lib: Lib, rounds: seq<Round>, net: Net, vars: Vars)
    requires net.pos <= |net.inbound|
    ensures
      var report := Run(lib, rounds, 0, net, Start(vars)).1;
      report.roundVars == vars + report.captured
  {
    assert vars + map[] == vars;
    RunKeepsStep(lib, rounds, 0, net, Start(vars), vars);
  }

  /** The progress report is right at every exit: completed rounds, their details, and the round that failed. */
  lemma {:induction false} RunTracks(lib: Lib, rounds: seq<Round>, i: nat, net: Net, p: Progress)
    requires i <= |rounds| && net.pos <= |net.inbound|
    requires Tracks(p, i) && p.completed == i
    ensures
      var report := Run(lib, rounds, i, net, p).1;
      ReportTracks(report, |rounds|) && (report.status == Success ==> report.completed == |rounds|)
    decreases |rounds| - i
  {
    hide OneRound, Tracks, ReportTracks;
    if i == |rounds| {
      FinishedTracks(p, i);
    } else {
      OneRoundTracks(lib, rounds[i], i + 1, net, p);
      var (net', p', stop) := OneRound(lib, rounds[i], i + 1, net, p);
      if stop == None {
        RunTracks(lib, rounds, i + 1, net', p');
      } else {
        TracksFurther(p, stop.value, i + 1, |rounds|);
      }
    }
  }

  lemma OneRoundTracks(lib: Lib, r: Round, n: nat, net: Net, p: Progress)
    requires net.pos <= |net.inbound|
    requires n > 0 && Tracks(p, n - 1) && p.completed == n - 1
    ensures
      var (net', p', stop) := OneRound(lib, r, n, net, p);
      if stop == None then Tracks(p', n) && p'.completed == n && net'.pos <= |net'.inbound|
      else ReportTracks(stop.value, n) && stop.value.status != Success
  {
    hide Tracks, ReportTracks;
    var sendStr := Render(lib, r.send, p.vars);
    BrokenTracks(Failed, Sending(n), n, sendStr, [], p);
    BrokenTracks(Deadline(net), Receiving(n), n, sendStr, net.inbound[net.pos..|net.inbound|], p);
    var j := FirstFrom(net.inbound, Accept(lib, r.expected), net.pos);
    if j.Some? {
      SettleTracks(lib, r, n, sendStr, net.inbound[j.value], p);
    }
  }

  // ---------- Greedy matching ----------

  function Tests(lib: Lib, rounds: seq<Round>): seq<string -> bool> {
    seq(|rounds|, k requires 0 <= k < |rounds| => Accept(lib, rounds[k].expected))
  }

  /** A round that goes on took the first acceptable message; one that ends the step did not succeed. */
  lemma OneRoundTakes(lib: Lib, r: Round, n: nat, net: Net, p: Progress)
    requires net.pos <= |net.inbound|
    ensures
      var (net', p', stop) := OneRound(lib, r, n, net, p);
      var first := FirstFrom(net.inbound, Accept(lib, r.expected), net.pos);
      && net'.inbound == net.inbound
      && (stop.Some? ==> stop.value.phase != Completed && stop.value.status != Success)
      && (stop.None? ==>
            && first.Some? && net'.pos == first.value + 1
            && Recvs(p'.details) == Recvs(p.details) + [Truncate(net.inbound[first.value])])
  {
  }

  /** A round with a message to take goes on exactly if its send succeeds and its assertions hold. */
  lemma OneRoundGoesOn(lib: Lib, r: Round, n: nat, net: Net, p: Progress)
    requires net.pos <= |net.inbound|
    requires FirstFrom(net.inbound, Accept(lib, r.expected), net.pos).Some?
    ensures
      var (net', p', stop) := OneRound(lib, r, n, net, p);
      var m := WsResponse(net.inbound[FirstFrom(net.inbound, Accept(lib, r.expected), net.pos).value]);
      var sends := HasSend(r.send, Render(lib, r.send, p.vars));
      var vars := p.vars + Common.Captured(lib, r.captures, m);
      && (stop == None <==> (sends ==> net.writesLeft > 0) && AllHold(lib, r.assertions, m, vars))
      && (stop == None ==> p'.vars == vars && net'.writesLeft == net.writesLeft - if sends then 1 else 0)
  {
    hide AllHold, FirstFrom, Truncate, HasSend;
  }

  /** A run that succeeds, with or without assertions, has greedy positions. */
  lemma {:induction false} SuccessIsGreedy(lib: Lib, rounds: seq<Round>, i: nat, net: Net, p: Progress)
    requires i <= |rounds| && net.pos <= |net.inbound|
    requires Succeeds(Run(lib, rounds, i, net, p).1)
    ensures Greedy(net.inbound, Tests(lib, rounds), i, net.pos).Some?
    decreases |rounds| - i
  {
    hide OneRound;
    if i < |rounds| {
      assert Tests(lib, rounds)[i] == Accept(lib, rounds[i].expected);
      OneRoundTakes(lib, rounds[i], i + 1, net, p);
      var (net', p', stop) := OneRound(lib, rounds[i], i + 1, net, p);
      SuccessIsGreedy(lib, rounds, i + 1, net', p');
    }
  }

  /** Its details show, one per round, the messages at those positions. */
  lemma {:induction false} SuccessShowsGreedy(lib: Lib, rounds: seq<Round>, i: nat, net: Net, p: Progress)
    requires i <= |rounds| && net.pos <= |net.inbound|
    requires Succeeds(Run(lib, rounds, i, net, p).1)
    requires Greedy(net.inbound, Tests(lib, rounds), i, net.pos).Some?
    ensures
      var a := Greedy(net.inbound, Tests(lib, rounds), i, net.pos).value;
      && InRange(net.inbound, a)
      && Recvs(Run(lib, rounds, i, net, p).1.details) == Recvs(p.details) + Shown(net.inbound, a)
    decreases |rounds| - i
  {
    hide OneRound, Recvs, Shown, FirstFrom, Truncate;
    if i == |rounds| {
      ShownNothing(net.inbound);
    } else {
      assert Tests(lib, rounds)[i] == Accept(lib, rounds[i].expected);
      OneRoundTakes(lib, rounds[i], i + 1, net, p);
      var (net', p', stop) := OneRound(lib, rounds[i], i + 1, net, p);
      SuccessShowsGreedy(lib, rounds, i + 1, net', p');
      var rest := Greedy(net.inbound, Tests(lib, rounds), i + 1, net'.pos).value;
      ShownCons(net.inbound, net'.pos - 1, rest);
    }
  }

  /** Given the greedy positions, the rest of a run succeeds exactly if the writes suffice and the assertions hold. */
  lemma {:induction false} GreedySucceeds(lib: Lib, rounds: seq<Round>, i: nat, net: Net, p: Progress,
                                          a: seq<nat>, vars: Vars, writes: nat)
    requires i <= |rounds| == |a| && net.pos <= |net.inbound| && InRange(net.inbound, a)
    requires Greedy(net.inbound, Tests(lib, rounds), i, net.pos) == Some(a[i..])
    requires p.vars == VarsBefore(lib, rounds, net.inbound, a, vars, i)
    requires writes == net.writesLeft + SendsBefore(lib, rounds, net.inbound, a, vars, i)
    ensures
      Succeeds(Run(lib, rounds, i, net, p).1)
      <==> && SendsBefore(lib, rounds, net.inbound, a, vars, |rounds|) <= writes
           && forall k :: i <= k < |rounds| ==> RoundAsserts(lib, rounds, net.inbound, a, vars, k)
    decreases |rounds| - i
  {
    hide OneRound, AllHold, FirstFrom, HasSend, Render, InRange, Greedy, VarsBefore, SendsBefore, RoundAsserts;
    if i < |rounds| {
      var texts := net.inbound;
      assert Tests(lib, rounds)[i] == Accept(lib, rounds[i].expected);
      GreedyStep(texts, Tests(lib, rounds), i, net.pos, a);
      NextRound(lib, rounds, texts, a, vars, i);
      OneRoundTakes(lib, rounds[i], i + 1, net, p);
      OneRoundGoesOn(lib, rounds[i], i + 1, net, p);
      var (net', p', stop) := OneRound(lib, rounds[i], i + 1, net, p);
      if stop == None {
        GreedySucceeds(lib, rounds, i + 1, net', p', a, vars, writes);
      } else {
        SendsGrow(lib, rounds, texts, a, vars, i + 1, |rounds|);
      }
    }
  }

  /** When a run completes, exactly: the messages can be assigned to the rounds in order, and at the greedy positions
      the sends do not outnumber the writes that succeed and every round's assertions hold. */
  lemma CompletesIff(lib: Lib, rounds: seq<Round>, net: Net, vars: Vars)
    requires net.pos <= |net.inbound|
    ensures
      Run(lib, rounds, 0, net, Start(vars)).1.phase == Completed
      <==>
      match Greedy(net.inbound, Tests(lib, rounds), 0, net.pos)
      case None => false
      case Some(a) =>
        && |a| == |rounds| && InRange(net.inbound, a)
        && SendsBefore(lib, rounds, net.inbound, a, vars, |rounds|) <= net.writesLeft
        && AllRoundsAssert(lib, rounds, net.inbound, a, vars)
  {
    hide Run, Greedy, RoundAsserts;
    CompletedMeansSuccess(lib, rounds, 0, net, Start(vars));
    var g := Greedy(net.inbound, Tests(lib, rounds), 0, net.pos);
    if g == None {
      if Succeeds(Run(lib, rounds, 0, net, Start(vars)).1) {
        SuccessIsGreedy(lib, rounds, 0, net, Start(vars));
      }
    } else {
      GreedyIsAssignment(net.inbound, Tests(lib, rounds), 0, net.pos);
      assert g.value[0..] == g.value;
      GreedySucceeds(lib, rounds, 0, net, Start(vars), g.value, vars, net.writesLeft);
    }
  }

  lemma {:induction false} CompletedMeansSuccess(lib: Lib, rounds: seq<Round>, i: nat, net: Net, p: Progress)
    requires i <= |rounds| && net.pos <= |net.inbound|
    ensures Succeeds(Run(lib, rounds, i, net, p).1) <==> Run(lib, rounds, i, net, p).1.phase == Completed
    decreases |rounds| - i
  {
    hide OneRound;
    if i < |rounds| {
      OneRoundTakes(lib, rounds[i], i + 1, net, p);
      var (net', p', stop) := OneRound(lib, rounds[i], i + 1, net, p);
      if stop == None {
        CompletedMeansSuccess(lib, rounds, i + 1, net', p');
      }
    }
  }

  /** A run without assertions, and with sends that do not depend on variables, completes exactly when the messages can
      be assigned to the rounds in order and there is a successful write for each round that sends. */
  lemma CompletesIffAssignment(lib: Lib, rounds: seq<Round>, net: Net, vars: Vars)
    requires net.pos <= |net.inbound|
    requires NoAssertions(rounds) && FixedSends(rounds)
    ensures
      Run(lib, rounds, 0, net, Start(vars)).1.phase == Completed
      <==> && (exists a :: Assignment(net.inbound, Tests(lib, rounds), 0, a, net.pos))
           && SenderCount(rounds, |rounds|) <= net.writesLeft
  {
    hide Run, Greedy;
    CompletesIff(lib, rounds, net, vars);
    GreedyIffAssignment(net.inbound, Tests(lib, rounds), net.pos);
    var g := Greedy(net.inbound, Tests(lib, rounds), 0, net.pos);
    if g.Some? {
      GreedyIsAssignment(net.inbound, Tests(lib, rounds), 0, net.pos);
      FixedSendsCount(lib, rounds, net.inbound, g.value, vars, |rounds|);
    }
  }

  /** A successful run has captured what its rounds name, no more and no less. */
  lemma {:induction false} RunCaptures(lib: Lib, rounds: seq<Round>, i: nat, net: Net, p: Progress)
    requires i <= |rounds| && net.pos <= |net.inbound|
    requires Run(lib, rounds, i, net, p).1.status == Success
    ensures Run(lib, rounds, i, net, p).1.captured.Keys == p.captured.Keys + RoundNames(rounds, i)
    decreases |rounds| - i
  {
    if i < |rounds| {
      var r := rounds[i];
      OneRoundTakes(lib, r, i + 1, net, p);
      var (net', p', stop) := OneRound(lib, r, i + 1, net, p);
      var j := FirstFrom(net.inbound, Accept(lib, r.expected), net.pos);
      SettleCaptures(lib, r, i + 1, Render(lib, r.send, p.vars), net.inbound[j.value], p);
      RunCaptures(lib, rounds, i + 1, net', p');
    }
  }

  /** Even with assertions, a completed run shows for each round the earliest message any assignment gives it. */
  lemma {:induction false} CompletedRunIsEarliest(lib: Lib, rounds: seq<Round>, net: Net, vars: Vars)
    returns (a: seq<nat>)
    requires net.pos <= |net.inbound|
    requires Run(lib, rounds, 0, net, Start(vars)).1.phase == Completed
    ensures Assignment(net.inbound, Tests(lib, rounds), 0, a, net.pos)
    ensures Recvs(Run(lib, rounds, 0, net, Start(vars)).1.details) == Shown(net.inbound, a)
    ensures forall b :: Assignment(net.inbound, Tests(lib, rounds), 0, b, net.pos) ==>
              forall k :: 0 <= k < |a| ==> a[k] <= b[k]
  {
    SuccessIsGreedy(lib, rounds, 0, net, Start(vars));
    var oks := Tests(lib, rounds);
    a := Greedy(net.inbound, oks, 0, net.pos).value;
    GreedyIsAssignment(net.inbound, oks, 0, net.pos);
    SuccessShowsGreedy(lib, rounds, 0, net, Start(vars));
    forall b | Assignment(net.inbound, oks, 0, b, net.pos)
      ensures forall k :: 0 <= k < |a| ==> a[k] <= b[k]
    {
      GreedyIsEarliest(net.inbound, oks, 0, net.pos, b);
    }
  }

  // ---------- One round in either mode ----------

  /** No assertion mentions a variable that the round captures. */
  predicate AssertionsIgnoreCaptures(r: Round) {
    forall k :: 0 <= k < |r.assertions| ==> !Mentions(r.assertions[k].value, Names(r.captures))
  }

  lemma AssertionsAgree(lib: Lib, r: Round, m: string, vars: Vars)
    requires AssertionsIgnoreCaptures(r)
    ensures
      AllHold(lib, r.assertions, WsResponse(m), vars + Common.Captured(lib, r.captures, WsResponse(m)))
      <==> AllHold(lib, r.assertions, WsResponse(m), vars)
  {
    var got := Common.Captured(lib, r.captures, WsResponse(m));
    CapturedNames(lib, r.captures, WsResponse(m));
    forall k | 0 <= k < |r.assertions|
      ensures Holds(lib, r.assertions[k], WsResponse(m), vars + got)
           == Holds(lib, r.assertions[k], WsResponse(m), vars)
    {
      UnmentionedNamesDoNotMatter(lib, r.assertions[k], WsResponse(m), vars, got);
    }
  }

  /** The captures field of a stored result, which leaves out an empty map. */
  function Stored(captures: Option<Vars>): Option<Vars> {
    if captures == Some(map[]) then None else captures
  }

  /** A message is accepted and an assertion on it fails. */
  predicate AssertionFails(lib: Lib, r: Round, net: Net, vars: Vars)
    requires net.pos <= |net.inbound|
  {
    && AfterSend(net, r.send, Render(lib, r.send, vars)).Some?
    && match FirstFrom(net.inbound, Accept(lib, r.expected), net.pos)
       case None => false
       case Some(j) => !AllHold(lib, r.assertions, WsResponse(net.inbound[j]), vars)
  }

  /** A one-element round list gives the status, captured variables and traffic of the single-round mode. What else
      the result reports differs exactly after a failed assertion: the list then has no response, showing the message
      in its round details instead, and no captures, which the single-round mode reports if the round has any. */
  lemma SingleRoundCompatible(lib: Lib, r: Round, net: Net, vars: Vars)
    requires net.pos <= |net.inbound|
    requires AssertionsIgnoreCaptures(r)
    ensures
      var (net1, multi) := Run(lib, [r], 0, net, Start(vars));
      var (net2, single) := RunSingle(lib, r, net, vars);
      var failed := AssertionFails(lib, r, net, vars);
      && net1 == net2
      && multi.status == single.status
      && multi.captured == single.captured
      && (multi.response == single.response <==> !failed)
      && (multi.captures == single.captures <==> !failed)
      && (Stored(multi.captures) == Stored(single.captures) <==> !failed || Names(r.captures) == {})
      && (multi.phase.Asserting? <==> failed)
      && (failed ==> |multi.details| == 1 && single.response == Body(multi.details[0].recv))
  {
    hide FirstFrom, Render, HasSend, AllHold, Truncate, Common.Captured, AssertionsIgnoreCaptures;
    ListOfOne(lib, r, net, vars);
    var j := FirstFrom(net.inbound, Accept(lib, r.expected), net.pos);
    if j.Some? {
      var got := Common.Captured(lib, r.captures, WsResponse(net.inbound[j.value]));
      assert map[] + got == got;
      AssertionsAgree(lib, r, net.inbound[j.value], vars);
      CapturedNames(lib, r.captures, WsResponse(net.inbound[j.value]));
      assert got == map[] <==> got.Keys == {};
    }
  }

  lemma ListOfOne(lib: Lib, r: Round, net: Net, vars: Vars)
    requires net.pos <= |net.inbound|
    ensures
      var (net', p', stop) := OneRound(lib, r, 1, net, Start(vars));
      Run(lib, [r], 0, net, Start(vars)) == if stop == None then (net', Finished(p')) else (net', stop.value)
  {
    hide OneRound;
    var (net', p', stop) := OneRound(lib, [r][0], 1, net, Start(vars));
    if stop == None {
      OneRoundTakes(lib, r, 1, net, Start(vars));
      assert Run(lib, [r], 1, net', p') == (net', Finished(p'));
    }
  }

  /** For any round, the exact condition: the modes agree on the status unless a message is accepted on which adding
      its captures to the variables turns the outcome of the assertions around. */
  lemma SameStatusIff(lib: Lib, r: Round, net: Net, vars: Vars)
    requires net.pos <= |net.inbound|
    ensures
      Run(lib, [r], 0, net, Start(vars)).1.status == RunSingle(lib, r, net, vars).1.status
      <==>
      match FirstFrom(net.inbound, Accept(lib, r.expected), net.pos)
      case None => true
      case Some(j) =>
        var m := WsResponse(net.inbound[j]);
        || AfterSend(net, r.send, Render(lib, r.send, vars)) == None
        || (AllHold(lib, r.assertions, m, vars + Common.Captured(lib, r.captures, m))
            <==> AllHold(lib, r.assertions, m, vars))
  {
    hide FirstFrom, Render, HasSend, AllHold, Truncate, Common.Captured;
    ListOfOne(lib, r, net, vars);
  }

  /** Without that condition the modes differ: a round that captures x and asserts against {{x}}. */
  lemma CapturedNamesBreakCompatibility(lib: Lib, m: string)
    requires lib.get(m, "id") == Some("v")
    ensures
      var r := Round("", map[], [CaptureRule("body", "id", "x")], [AssertionRule("body", "id", "eq", "{{x}}")], "", "");
      var net := Net([m], 0, [], 0, false);
      && Run(lib, [r], 0, net, Start(map[])).1.status == Success
      && RunSingle(lib, r, net, map[]).1.status == Failed
  {
    var rule := CaptureRule("body", "id", "x");
    var a := AssertionRule("body", "id", "eq", "{{x}}");
    var r := Round("", map[], [rule], [a], "", "");
    var resp := WsResponse(m);
    var got := map["x" := Text("v")];
    assert Common.Captured(lib, r.captures, resp) == got by {
      assert [rule][..|[rule]| - 1] == [];
      assert Common.Captured(lib, [], resp) == map[];
      assert CaptureValue(lib, rule, resp) == "v";
    }
    RenderX(lib, got);
    RenderX(lib, map[]);
    assert Holds(lib, a, resp, map[] + got) && !Holds(lib, r.assertions[0], resp, map[]);
    assert FirstFrom([m], Accept(lib, map[]), 0) == Some(0);
    OneRoundSucceeds(lib, r, Net([m], 0, [], 0, false));
  }

  lemma RenderX(lib: Lib, vars: Vars)
    requires "x" in vars || vars == map[]
    ensures Render(lib, "{{x}}", vars) == if "x" in vars then ToString(vars["x"]) else "{{x}}"
  {
    var p := "{{x}}";
    assert p[..2] == "{{" && p[3..] == "}}" && Key(p) == "x" && p + "" == p;
    assert FirstDot("x") == None;
    RenderAtPlaceholder(lib, p, "", vars);
  }

  lemma OneRoundSucceeds(lib: Lib, r: Round, net: Net)
    requires net.pos <= |net.inbound|
    requires OneRound(lib, r, 1, net, Start(map[])).2 == None
    ensures Run(lib, [r], 0, net, Start(map[])).1.status == Success
  {
    var (net', p', stop) := OneRound(lib, [r][0], 1, net, Start(map[]));
    assert Run(lib, [r], 1, net', p').1.status == Success;
  }

  // ---------- What is written ----------

  /** One round writes its rendered text, unless there is nothing to send or the write fails, which ends the run. */
  lemma OneRoundWrites(lib: Lib, r: Round, n: nat, net: Net, p: Progress)
    requires net.pos <= |net.inbound|
    ensures
      var text := Render(lib, r.send, p.vars);
      var sends := |r.send| > 0 && text != "" && text != "null";
      var (net', p', stop) := OneRound(lib, r, n, net, p);
      var j := FirstFrom(net.inbound, Accept(lib, r.expected), net.pos);
      && net'.inbound == net.inbound && net'.pos <= |net.inbound| && net'.expired == net.expired
      && (stop.Some? ==>
            EndsAs(stop.value, if net.expired then TimedOut else Failed, net.inbound[net.pos..], ""))
      && (if sends && net.writesLeft == 0 then
            stop.Some? && stop.value.phase == Sending(n) && stop.value.roundVars == p.vars
            && net'.outbound == net.outbound && net'.writesLeft == 0
          else
            && net'.outbound == net.outbound + (if sends then [text] else [])
            && net'.writesLeft == net.writesLeft - (if sends then 1 else 0)
            && match j
               case None => stop.Some? && stop.value.phase == Receiving(n) && stop.value.roundVars == p.vars
               case Some(j) =>
                 var vars := p.vars + Common.Captured(lib, r.captures, WsResponse(net.inbound[j]));
                 if stop == None then p'.vars == vars && net'.pos == j + 1 && p'.lastRecv == net.inbound[j]
                 else stop.value.phase == Asserting(n) && stop.value.roundVars == vars)
  {
    hide Render, FirstFrom, AllHold, Truncate, Common.Captured, TraceAnswer;
    TraceMeaning([], "");
    assert net.inbound[net.pos..|net.inbound|] == net.inbound[net.pos..];
  }

  /** What one round shows: its number, the text it was to send, and the message it took, none if it took none. */
  lemma OneRoundShows(lib: Lib, r: Round, n: nat, net: Net, p: Progress)
    requires net.pos <= |net.inbound|
    ensures
      var text := Render(lib, r.send, p.vars);
      var (net', p', stop) := OneRound(lib, r, n, net, p);
      if stop == None then
        && p'.completed == p.completed + 1
        && p'.details == p.details + [Detail(n, text, Truncate(p'.lastRecv))]
      else
        && stop.value.completed == p.completed
        && if stop.value.phase.Asserting? then
             && 0 < net'.pos <= |net.inbound|
             && stop.value.details == p.details + [Detail(n, text, Truncate(net.inbound[net'.pos - 1]))]
           else stop.value.details == p.details + [Detail(n, text, "")]
  {
    hide Render, FirstFrom, AllHold, Truncate, Common.Captured, TraceAnswer;
  }

  /** Each round took the first message, after those taken before it, that meets its expectation. */
  predicate TookFirst(lib: Lib, rounds: seq<Round>, texts: seq<string>, took: seq<Option<nat>>, from: nat)
    requires |took| <= |rounds|
    decreases |took|
  {
    took == []
    || var n := |took| - 1;
       && TookFirst(lib, rounds, texts, took[..n], from)
       && took[n].Some? && After(took[..n], from) <= took[n].value < |texts|
       && Matches(lib, texts[took[n].value], rounds[n].expected)
       && NoneMatches(lib, texts[After(took[..n], from)..took[n].value], rounds[n].expected)
  }

  predicate NoneMatches(lib: Lib, texts: seq<string>, expected: map<string, string>) {
    forall q :: 0 <= q < |texts| ==> !Matches(lib, texts[q], expected)
  }

  /** Between two rounds: what was taken determines the variables, and with them what was written. */
  predicate WroteSoFar(lib: Lib, rounds: seq<Round>, took: seq<Option<nat>>, from: nat, vars: Vars, base: seq<string>,
                       net: Net, p: Progress)
  {
    && |took| <= |rounds| && TookInRange(net.inbound, took) && net.pos <= |net.inbound|
    && TookFirst(lib, rounds, net.inbound, took, from) && net.pos == After(took, from)
    && p.vars == VarsSeen(lib, rounds, net.inbound, took, vars, |took|)
    && p.lastRecv == LastTaken(net.inbound, took)
    && net.outbound == base + TextsSent(lib, rounds, net.inbound, took, vars, |took|)
  }

  /** At the end. A round that fails to send has written nothing; one that finds no message has taken none. */
  predicate WroteInAll(lib: Lib, rounds: seq<Round>, took: seq<Option<nat>>, from: nat, vars: Vars, base: seq<string>,
                       net: Net, report: Report)
  {
    var begun := Begun(report, |rounds|);
    && begun <= |rounds| && TookInRange(net.inbound, took)
    && |took| == (if report.phase.Sending? || report.phase.Receiving? then begun - 1 else begun)
    && TookFirst(lib, rounds, net.inbound, took, from)
    && After(took, from) <= |net.inbound|
    && EndsAs(report, if net.expired then TimedOut else Failed, net.inbound[After(took, from)..],
              LastTaken(net.inbound, took))
    && (report.phase.Receiving? ==>
          && NoneMatches(lib, net.inbound[After(took, from)..], rounds[begun - 1].expected))
    && report.roundVars == VarsSeen(lib, rounds, net.inbound, took, vars, |took|)
    && net.outbound
       == base
          + TextsSent(lib, rounds, net.inbound, took, vars, if report.phase.Sending? then begun - 1 else begun)
  }

  lemma TookOneMore(lib: Lib, rounds: seq<Round>, texts: seq<string>, took: seq<Option<nat>>, from: nat, j: nat)
    requires |took| < |rounds| && TookFirst(lib, rounds, texts, took, from) && After(took, from) <= |texts|
    requires FirstFrom(texts, Accept(lib, rounds[|took|].expected), After(took, from)) == Some(j)
    ensures j < |texts| && TookFirst(lib, rounds, texts, took + [Some(j)], from)
    ensures After(took + [Some(j)], from) == j + 1
  {
    hide Matches;
    FirstFromMeaning(texts, Accept(lib, rounds[|took|].expected), After(took, from));
    var all := took + [Some(j)];
    assert all[..|took|] == took;
  }

  lemma NothingToTake(lib: Lib, texts: seq<string>, expected: map<string, string>, from: nat)
    requires from <= |texts| && FirstFrom(texts, Accept(lib, expected), from) == None
    ensures NoneMatches(lib, texts[from..], expected)
  {
    hide Matches;
    FirstFromMeaning(texts, Accept(lib, expected), from);
  }

  lemma RoundWrites(lib: Lib, rounds: seq<Round>, took: seq<Option<nat>>, from: nat, vars: Vars, base: seq<string>,
                    net: Net, p: Progress)
    returns (all: seq<Option<nat>>)
    requires |took| < |rounds| && WroteSoFar(lib, rounds, took, from, vars, base, net, p)
    ensures
      var (net', p', stop) := OneRound(lib, rounds[|took|], |took| + 1, net, p);
      if stop == None then |all| == |took| + 1 && WroteSoFar(lib, rounds, all, from, vars, base, net', p')
      else WroteInAll(lib, rounds, all, from, vars, base, net', stop.value)
  {
    hide OneRound, FirstFrom, WroteInAll;
    var r := rounds[|took|];
    var j := FirstFrom(net.inbound, Accept(lib, r.expected), net.pos);
    if OneRound(lib, r, |took| + 1, net, p).2 == None {
      NextRoundWrites(lib, rounds, took, from, vars, base, net, p);
      all := took + [j];
    } else {
      all := LastRoundWrites(lib, rounds, took, from, vars, base, net, p);
    }
  }

  lemma NextRoundWrites(lib: Lib, rounds: seq<Round>, took: seq<Option<nat>>, from: nat, vars: Vars, base: seq<string>,
                        net: Net, p: Progress)
    requires |took| < |rounds| && WroteSoFar(lib, rounds, took, from, vars, base, net, p)
    requires OneRound(lib, rounds[|took|], |took| + 1, net, p).2 == None
    ensures
      var (net', p', stop) := OneRound(lib, rounds[|took|], |took| + 1, net, p);
      var j := FirstFrom(net.inbound, Accept(lib, rounds[|took|].expected), net.pos);
      WroteSoFar(lib, rounds, took + [j], from, vars, base, net', p')
  {
    hide OneRound, Render, VarsSeen, TextsSent, Common.Captured, FirstFrom, TookFirst, After, NoneMatches, LastTaken,
         Truncate, TraceAnswer, EndsAs;
    var i, texts := |took|, net.inbound;
    var r := rounds[i];
    OneRoundWrites(lib, r, i + 1, net, p);
    var j := FirstFrom(texts, Accept(lib, r.expected), net.pos);
    RoundTook(lib, rounds, texts, took, j, vars);
    TookOneMore(lib, rounds, texts, took, from, j.value);
    LastTakenNext(texts, took, j);
  }

  lemma LastRoundWrites(lib: Lib, rounds: seq<Round>, took: seq<Option<nat>>, from: nat, vars: Vars, base: seq<string>,
                        net: Net, p: Progress)
    returns (all: seq<Option<nat>>)
    requires |took| < |rounds| && WroteSoFar(lib, rounds, took, from, vars, base, net, p)
    requires OneRound(lib, rounds[|took|], |took| + 1, net, p).2.Some?
    ensures
      var (net', p', stop) := OneRound(lib, rounds[|took|], |took| + 1, net, p);
      WroteInAll(lib, rounds, all, from, vars, base, net', stop.value)
  {
    hide OneRound, Render, VarsSeen, TextsSent, Common.Captured, FirstFrom, TookFirst, After, NoneMatches, LastTaken,
         Truncate, TraceAnswer, EndsAs;
    var i, texts := |took|, net.inbound;
    var r := rounds[i];
    OneRoundWrites(lib, r, i + 1, net, p);
    EndsEarly(OneRound(lib, r, i + 1, net, p).2, if net.expired then TimedOut else Failed, texts[net.pos..],
              LastTaken(texts, took));
    var j := FirstFrom(texts, Accept(lib, r.expected), net.pos);
    RoundTook(lib, rounds, texts, took, j, vars);
    all := took;
    if OneRound(lib, r, i + 1, net, p).2.value.phase.Asserting? {
      TookOneMore(lib, rounds, texts, took, from, j.value);
      LastTakenNext(texts, took, j);
      all := took + [j];
    } else if j == None {
      NothingToTake(lib, texts, r.expected, net.pos);
    }
  }

  lemma {:induction false} RunWrites(lib: Lib, rounds: seq<Round>, net: Net, p: Progress, took: seq<Option<nat>>,
                                     from: nat, vars: Vars, base: seq<string>)
    returns (all: seq<Option<nat>>)
    requires net.pos <= |net.inbound| && |took| <= |rounds|
    requires WroteSoFar(lib, rounds, took, from, vars, base, net, p)
    ensures
      var (net', report) := Run(lib, rounds, |took|, net, p);
      WroteInAll(lib, rounds, all, from, vars, base, net', report)
    decreases |rounds| - |took|
  {
    hide OneRound, WroteSoFar, WroteInAll;
    if |took| == |rounds| {
      all := took;
      AllRoundsWrote(lib, rounds, took, from, vars, base, net, p);
    } else {
      all := RoundWrites(lib, rounds, took, from, vars, base, net, p);
      OneRoundTakes(lib, rounds[|took|], |took| + 1, net, p);
      var (net', p', stop) := OneRound(lib, rounds[|took|], |took| + 1, net, p);
      if stop == None {
        all := RunWrites(lib, rounds, net', p', all, from, vars, base);
      }
    }
  }

  lemma AllRoundsWrote(lib: Lib, rounds: seq<Round>, took: seq<Option<nat>>, from: nat, vars: Vars, base: seq<string>,
                       net: Net, p: Progress)
    requires |took| == |rounds| && WroteSoFar(lib, rounds, took, from, vars, base, net, p)
    ensures WroteInAll(lib, rounds, took, from, vars, base, net, Finished(p))
  {
    hide VarsSeen, TextsSent, TookFirst, After, LastTaken, Truncate;
  }

  /** Over every run, failed ones included: each round takes the first message after the previous one's that meets its
      expectation; the texts written are the rendered sends of the rounds begun, in order, each rendered with the
      variables captured from the messages taken before it; and only a round that fails to send has not written. */
  lemma StepWrites(lib: Lib, rounds: seq<Round>, net: Net, vars: Vars) returns (took: seq<Option<nat>>)
    requires net.pos <= |net.inbound|
    ensures
      var (net', report) := Run(lib, rounds, 0, net, Start(vars));
      net'.inbound == net.inbound && WroteInAll(lib, rounds, took, net.pos, vars, net.outbound, net', report)
  {
    hide Run, WroteInAll;
    assert net.outbound + [] == net.outbound;
    took := RunWrites(lib, rounds, net, Start(vars), [], net.pos, vars, net.outbound);
    RunKeepsInbound(lib, rounds, 0, net, Start(vars));
  }

  lemma {:induction false} RunKeepsInbound(lib: Lib, rounds: seq<Round>, i: nat, net: Net, p: Progress)
    requires i <= |rounds| && net.pos <= |net.inbound|
    ensures Run(lib, rounds, i, net, p).0.inbound == net.inbound
    decreases |rounds| - i
  {
    hide OneRound;
    if i < |rounds| {
      OneRoundWrites(lib, rounds[i], i + 1, net, p);
      var (net', p', stop) := OneRound(lib, rounds[i], i + 1, net, p);
      if stop == None { RunKeepsInbound(lib, rounds, i + 1, net', p'); }
    }
  }
}
