/** The pomelo WebSocket executor: numbered sends, filtered receives, over a pomelo client. */
module PomeloRounds {
  import opened Bits
  import opened Common
  import opened Context
  import opened Library
  import opened Matching
  import opened PomeloClient
  import opened Rounds
  import opened Wrappers
  import M = MessageCodec

  /** A Go string is its bytes: here a text whose characters are below 256. */
  function ToBytes(s: string): seq<Byte> {
    seq(|s|, i requires 0 <= i < |s| => s[i] as int % 256)
  }

  function FromBytes(b: seq<Byte>): string {
    seq(|b|, i requires 0 <= i < |b| => b[i] as char)
  }

  function Texts(ms: seq<M.Message>): seq<string> {
    seq(|ms|, i requires 0 <= i < |ms| => FromBytes(ms[i].body))
  }

  /** Texts of bytes survive the way to the wire and back; other characters keep their low eight bits. */
  lemma BytesOfText(s: string)
    ensures |ToBytes(s)| == |s| && forall i :: 0 <= i < |s| ==> ToBytes(s)[i] == s[i] as int % 256
    ensures (forall i :: 0 <= i < |s| ==> s[i] as int < 256) ==> FromBytes(ToBytes(s)) == s
  {
  }

  // ---------- The connection as the executor sees it ----------

  /** The messages received before the connection ends, and how it ends. */
  function Incoming(inbox: seq<Reception>): (ms: seq<M.Message>)
    ensures |ms| <= |inbox|
    ensures forall k :: 0 <= k < |ms| ==> inbox[k] == Got(ms[k])
    ensures |ms| < |inbox| ==> !inbox[|ms|].Got?
  {
    if inbox == [] || !inbox[0].Got? then [] else [inbox[0].m] + Incoming(inbox[1..])
  }

  function Ending(inbox: seq<Reception>): Reception {
    var n := |Incoming(inbox)|;
    if n < |inbox| then inbox[n] else Closed
  }

  datatype Net = Net(
    msgs: seq<M.Message>,
    end: Reception,
    pos: nat,
    nextID: Uint32,
    sent: seq<M.Message>,
    sendsLeft: nat,
    expired: bool)

  /** The client is where net says, on a stream whose receptions are inbox. */
  ghost predicate At(client: Client, inbox: seq<Reception>, net: Net)
    reads client
  {
    && net.msgs == Incoming(inbox) && net.end == Ending(inbox)
    && net.pos <= |net.msgs|
    && Inbox(client.frames) == inbox[net.pos..]
    && SameSends(client, net)
  }

  ghost predicate SameSends(client: Client, net: Net)
    reads client
  {
    client.Valid() && client.nextID == net.nextID && client.sent == net.sent && client.sendsLeft == net.sendsLeft
  }

  // ---------- One round and a whole run, as functions ----------

  predicate IsRequest(r: Round) {
    r.msgType == "request"
  }

  function TypeOf(r: Round): int {
    if IsRequest(r) then M.REQUEST else M.NOTIFY
  }

  /** An empty round is skipped: nothing to send and nothing to look for. */
  predicate Plays(r: Round, sends: bool) {
    sends || |r.expected| > 0 || |r.captures| > 0 || |r.assertions| > 0
  }

  /** A request that was sent ignores pushes, notifies and responses to other requests. */
  predicate Skipped(filter: bool, id: Uint32, m: M.Message) {
    filter && (m.typ == M.PUSH || m.typ == M.NOTIFY || (m.typ == M.RESPONSE && m.id != id))
  }

  function Accept(lib: Lib, expected: map<string, string>, filter: bool, id: Uint32): M.Message -> bool {
    m => Passes(lib, expected, filter, id, m)
  }

  /** The id is taken even if the write then fails. */
  function AfterSend(net: Net, r: Round, sendStr: string): Net {
    var id := NextId(net.nextID);
    net.(nextID := id,
         sent := net.sent + [M.Message(id, TypeOf(r), ToBytes(r.route), ToBytes(sendStr))],
         sendsLeft := if net.sendsLeft > 0 then net.sendsLeft - 1 else 0)
  }

  function EndStatus(net: Net): Status {
    if net.end == PomeloClient.Crashed then Status.Crashed else if net.expired then TimedOut else Failed
  }

  function Unread(net: Net): seq<string>
    requires net.pos <= |net.msgs|
  {
    Texts(net.msgs[net.pos..|net.msgs|])
  }

  /** Round number n: the connection and progress after it, and the report if it ends the step. */
  function OneRound(lib: Lib, r: Round, n: nat, net: Net, p: Progress): (Net, Progress, Option<Report>)
    requires net.pos <= |net.msgs|
  {
    var sendStr := Render(lib, r.send, p.vars);
    var sends := HasSend(r.send, sendStr);
    if !Plays(r, sends) then (net, p, None)
    else
      var net1 := if sends then AfterSend(net, r, sendStr) else net;
      if sends && net.sendsLeft == 0 then (net1, p, Some(Broken(Failed, Sending(n), n, sendStr, [], p)))
      else
        match FirstFrom(net.msgs, Accept(lib, r.expected, sends && IsRequest(r), net1.nextID), net.pos)
        case None =>
          (net1.(pos := |net.msgs|), p, Some(Broken(EndStatus(net), Receiving(n), n, sendStr, Unread(net), p)))
        case Some(j) =>
          var (next, stop) := Settle(lib, r, n, sendStr, FromBytes(net.msgs[j].body), p);
          (net1.(pos := j + 1), next, stop)
  }

  /** The rounds from index i on. */
  function Run(lib: Lib, rounds: seq<Round>, i: nat, net: Net, p: Progress): (Net, Report)
    requires i <= |rounds| && net.pos <= |net.msgs|
    decreases |rounds| - i
  {
    if i == |rounds| then (net, Finished(p))
    else
      match OneRound(lib, rounds[i], i + 1, net, p)
      case (net', _, Some(report)) => (net', report)
      case (net', p', None) => Run(lib, rounds, i + 1, net', p')
  }

  // ---------- The source's loops ----------

  predicate Passes(lib: Lib, expected: map<string, string>, filter: bool, id: Uint32, m: M.Message) {
    !Skipped(filter, id, m) && Matches(lib, FromBytes(m.body), expected)
  }

  predicate NonePasses(lib: Lib, expected: map<string, string>, filter: bool, id: Uint32, ms: seq<M.Message>,
                       from: nat, to: nat)
    requires from <= to <= |ms|
  {
    forall k :: from <= k < to ==> !Passes(lib, expected, filter, id, ms[k])
  }

  lemma SearchGoesOn(lib: Lib, ms: seq<M.Message>, expected: map<string, string>, filter: bool, id: Uint32,
                     from: nat, to: nat)
    requires from <= to < |ms| && NonePasses(lib, expected, filter, id, ms, from, to)
    requires !Passes(lib, expected, filter, id, ms[to])
    ensures NonePasses(lib, expected, filter, id, ms, from, to + 1)
  {
  }

  lemma SearchStops(lib: Lib, ms: seq<M.Message>, expected: map<string, string>, filter: bool, id: Uint32,
                    from: nat, to: nat)
    requires from <= to <= |ms| && NonePasses(lib, expected, filter, id, ms, from, to)
    requires to < |ms| ==> Passes(lib, expected, filter, id, ms[to])
    ensures FirstFrom(ms, Accept(lib, expected, filter, id), from) == if to < |ms| then Some(to) else None
  {
    FirstFromIs(ms, Accept(lib, expected, filter, id), from, to);
  }

  lemma TextsGrow(ms: seq<M.Message>, from: nat, to: nat)
    requires from <= to < |ms|
    ensures Texts(ms[from..to + 1]) == Texts(ms[from..to]) + [FromBytes(ms[to].body)]
  {
  }

  lemma NextReception(inbox: seq<Reception>, pos: nat)
    requires pos <= |Incoming(inbox)|
    ensures
      if pos < |Incoming(inbox)| then
        inbox[pos..] != [] && inbox[pos..][0] == Got(Incoming(inbox)[pos]) && inbox[pos..][1..] == inbox[pos + 1..]
      else if inbox[pos..] == [] then Ending(inbox) == Closed
      else !inbox[pos..][0].Got? && inbox[pos..][0] == Ending(inbox)
  {
  }

  /** One receive call, in terms of the connection as the executor sees it. */
  method NextMessage(client: Client, ghost inbox: seq<Reception>, ghost net: Net) returns (r: Reception)
    requires At(client, inbox, net)
    modifies client
    ensures SameSends(client, net)
    ensures
      if net.pos < |net.msgs| then r == Got(net.msgs[net.pos]) && At(client, inbox, net.(pos := net.pos + 1))
      else !r.Got? && r == net.end
  {
    hide Incoming, Ending;
    NextReception(inbox, net.pos);
    r := client.Recv();
  }

  /** Receives until a message is accepted, keeping the first hundred for display. */
  method ReceiveMatching(lib: Lib, client: Client, expected: map<string, string>, filter: bool, reqID: Uint32,
                         ghost inbox: seq<Reception>, ghost net: Net)
    returns (m: Option<string>, end: Reception, trace: seq<string>)
    requires net.pos <= |net.msgs| && At(client, inbox, net)
    modifies client
    ensures
      match FirstFrom(net.msgs, Accept(lib, expected, filter, reqID), net.pos)
      case None =>
        && m == None && end == net.end && trace == Trace(Unread(net))
        && SameSends(client, net)
      case Some(j) =>
        && m == Some(FromBytes(net.msgs[j].body))
        && At(client, inbox, net.(pos := j + 1))
  {
    hide FirstFrom, Truncate, Incoming, Ending, Passes, NonePasses, Trace, Texts, At;
    NothingRead(net.msgs, net.pos);
    NothingSearched(lib, net.msgs, expected, filter, reqID, net.pos);
    trace := [];
    end := Closed;
    ghost var at := net.pos;
    ghost var read: seq<string> := [];
    while true
      invariant net.pos <= at <= |net.msgs|
      invariant At(client, inbox, net.(pos := at))
      invariant NonePasses(lib, expected, filter, reqID, net.msgs, net.pos, at)
      invariant trace == Trace(read) && read == Texts(net.msgs[net.pos..at])
      decreases |net.msgs| - at
    {
      var r := NextMessage(client, inbox, net.(pos := at));
      if !r.Got? {
        SearchStops(lib, net.msgs, expected, filter, reqID, net.pos, at);
        return None, r, trace;
      }
      var text := FromBytes(r.m.body);
      TextsGrow(net.msgs, net.pos, at);
      trace := Record(trace, text, read);
      read := read + [text];
      var ok := Accepts(lib, expected, filter, reqID, r.m);
      if ok {
        SearchStops(lib, net.msgs, expected, filter, reqID, net.pos, at);
        return Some(text), Closed, trace;
      }
      SearchGoesOn(lib, net.msgs, expected, filter, reqID, net.pos, at);
      at := at + 1;
    }
  }

  lemma NothingSearched(lib: Lib, ms: seq<M.Message>, expected: map<string, string>, filter: bool, id: Uint32, at: nat)
    requires at <= |ms|
    ensures NonePasses(lib, expected, filter, id, ms, at, at)
  {
  }

  /** The tests of the receive loop on one message. */
  method Accepts(lib: Lib, expected: map<string, string>, filter: bool, reqID: Uint32, m: M.Message)
    returns (ok: bool)
    ensures ok == Passes(lib, expected, filter, reqID, m)
  {
    if filter {
      if m.typ == M.PUSH || m.typ == M.NOTIFY {
        return false;
      }
      if m.typ == M.RESPONSE && m.id != reqID {
        return false;
      }
    }
    if |expected| == 0 {
      return true;
    }
    ok := MatchExpect(lib, FromBytes(m.body), expected);
  }

  lemma NothingRead(ms: seq<M.Message>, at: nat)
    requires at <= |ms|
    ensures Texts(ms[at..at]) == [] && Trace([]) == []
  {
  }

  /** The send of a round. */
  method SendRound(client: Client, msg: Round, sendStr: string, ghost inbox: seq<Reception>, ghost net: Net)
    returns (id: Uint32, ok: bool)
    requires At(client, inbox, net)
    modifies client
    ensures At(client, inbox, AfterSend(net, msg, sendStr)) && ok == (net.sendsLeft > 0)
    ensures id == (old(client.nextID) + 1) % 4294967296 == client.nextID
    ensures
      var typ := if msg.msgType == "request" then 0 else 1;
      client.sent == old(client.sent) + [M.Message(id, typ, ToBytes(msg.route), ToBytes(sendStr))]
  {
    hide Incoming, Ending, Inbox, ToBytes;
    var isRequest := msg.msgType == "request";
    id, ok := client.Send(ToBytes(msg.route), if isRequest then M.REQUEST else M.NOTIFY, ToBytes(sendStr));
  }

  /** The send, if there is one, and the receive loop of a round. sent is false if the write failed;
      status and answer describe a connection that ended before a message was accepted. */
  method SendAndReceive(lib: Lib, client: Client, expired: bool, msg: Round, sendStr: string,
                        ghost inbox: seq<Reception>, ghost net: Net)
    returns (sent: bool, m: Option<string>, status: Status, answer: Answer)
    requires At(client, inbox, net) && net.expired == expired
    modifies client
    ensures
      var sends := HasSend(msg.send, sendStr);
      var net1 := if sends then AfterSend(net, msg, sendStr) else net;
      if sends && net.sendsLeft == 0 then !sent && SameSends(client, net1)
      else
        && sent
        && match FirstFrom(net.msgs, Accept(lib, msg.expected, sends && IsRequest(msg), net1.nextID), net.pos)
           case None =>
             && m == None && status == EndStatus(net) && answer == TraceAnswer(Unread(net))
             && SameSends(client, net1)
           case Some(j) => m == Some(FromBytes(net.msgs[j].body)) && At(client, inbox, net1.(pos := j + 1))
    ensures
      var id := (old(client.nextID) + 1) % 4294967296;
      var typ := if msg.msgType == "request" then 0 else 1;
      client.sent
      == old(client.sent)
         + if msg.send != "" && sendStr != "" && sendStr != "null"
           then [M.Message(id, typ, ToBytes(msg.route), ToBytes(sendStr))] else []
  {
    hide FirstFrom, Incoming, Ending, Trace, Texts, ToBytes, TraceAnswer, Accept, Inbox, FromBytes;
    sent, m, status, answer := true, None, Failed, NoAnswer;
    var hasSend := HasSend(msg.send, sendStr);
    var isRequest := msg.msgType == "request";
    var reqID: Uint32 := client.nextID;
    ghost var net1 := net;
    if hasSend {
      reqID, sent := SendRound(client, msg, sendStr, inbox, net);
      net1 := AfterSend(net, msg, sendStr);
      if !sent {
        return;
      }
    }
    var received, end, trace := ReceiveMatching(lib, client, msg.expected, isRequest && hasSend, reqID, inbox, net1);
    m := received;
    if m == None {
      TraceAnswered(Unread(net));
      status := if end == PomeloClient.Crashed then Status.Crashed else if expired then TimedOut else Failed;
      if |trace| > 0 {
        answer := Messages(trace);
      }
    }
  }

  /** One turn of the round loop. */
  method PlayRound(lib: Lib, client: Client, expired: bool, msg: Round, n: nat, completedRounds: nat,
                   details: seq<Detail>, lastRecv: string, roundVars: CtxMap, captured: CtxMap,
                   ghost inbox: seq<Reception>, ghost net: Net, ghost p: Progress)
    returns (stop: Option<Report>, lastRecv': string, details': seq<Detail>, played: bool)
    requires roundVars != captured
    requires At(client, inbox, net) && net.expired == expired
    requires p == Progress(roundVars.m, captured.m, lastRecv, completedRounds, details)
    modifies client, roundVars, captured
    ensures
      var (net', next, end) := OneRound(lib, msg, n, net, p);
      && stop == end && SameSends(client, net')
      && (stop == None ==>
            && At(client, inbox, net')
            && next == Progress(roundVars.m, captured.m, lastRecv',
                                if played then completedRounds + 1 else completedRounds, details'))
  {
    hide Render, Settle, FirstFrom, TraceAnswer, Incoming, Ending, HasSend, AfterSend, EndStatus;
    stop, lastRecv', details', played := None, lastRecv, details, true;
    var sendStr := Render(lib, msg.send, roundVars.m);
    var hasSend := HasSend(msg.send, sendStr);
    var hasRecv := hasSend || |msg.expected| > 0 || |msg.captures| > 0 || |msg.assertions| > 0;
    if !hasRecv {
      played := false;
      return;
    }
    stop, lastRecv', details' := TakeRound(
      lib, client, expired, msg, n, sendStr, completedRounds, details, roundVars, captured, inbox, net, p);
  }

  /** The rest of the turn, for a round that is not empty. */
  method TakeRound(lib: Lib, client: Client, expired: bool, msg: Round, n: nat, sendStr: string, completedRounds: nat,
                   details: seq<Detail>, roundVars: CtxMap, captured: CtxMap,
                   ghost inbox: seq<Reception>, ghost net: Net, ghost p: Progress)
    returns (stop: Option<Report>, lastRecv: string, details': seq<Detail>)
    requires roundVars != captured
    requires At(client, inbox, net) && net.expired == expired
    requires p == Progress(roundVars.m, captured.m, p.lastRecv, completedRounds, details)
    requires sendStr == Render(lib, msg.send, p.vars) && Plays(msg, HasSend(msg.send, sendStr))
    modifies client, roundVars, captured
    ensures
      var (net', next, end) := OneRound(lib, msg, n, net, p);
      && stop == end && SameSends(client, net')
      && (stop == None ==>
            && At(client, inbox, net')
            && next == Progress(roundVars.m, captured.m, lastRecv, completedRounds + 1, details'))
  {
    hide Render, Settle, FirstFrom, TraceAnswer, Incoming, Ending, HasSend, AfterSend, EndStatus;
    NoTrace();
    stop, lastRecv := None, "";
    details' := details + [Detail(n, sendStr, "")];
    var sent, m, status, answer := SendAndReceive(lib, client, expired, msg, sendStr, inbox, net);
    if !sent {
      stop := Some(Report(Failed, Sending(n), completedRounds, details', NoAnswer, None, captured.m, roundVars.m));
      return;
    }
    if m == None {
      stop := Some(Report(status, Receiving(n), completedRounds, details', answer, None, captured.m, roundVars.m));
      return;
    }
    lastRecv := m.value;
    stop, details' := SettleRound(lib, msg, n, sendStr, lastRecv, completedRounds, details, roundVars, captured, p);
  }

  lemma NoTrace()
    ensures TraceAnswer([]) == NoAnswer
  {
  }

  lemma TraceAnswered(read: seq<string>)
    ensures TraceAnswer(read) == if |Trace(read)| > 0 then Messages(Trace(read)) else NoAnswer
  {
  }

  /** The whole step after the handshake. expired tells whether the deadline has passed when reading fails. */
  method ExecutePomelo(lib: Lib, client: Client, expired: bool, rounds: seq<Round>, vars: CtxMap)
    returns (report: Report, ghost took: seq<Option<nat>>)
    requires client.Valid()
    modifies client
    ensures
      var inbox := Inbox(old(client.frames));
      var net := Net(Incoming(inbox), Ending(inbox), 0,
                     old(client.nextID), old(client.sent), old(client.sendsLeft), expired);
      var (net', end) := Run(lib, rounds, 0, net, Start(vars.m));
      report == end && SameSends(client, net') && DataFrames(client.outbox) == Frames(net'.sent)
    ensures
      var inbox := Inbox(old(client.frames));
      var end := Net(Incoming(inbox), Ending(inbox), 0, client.nextID, client.sent, client.sendsLeft, expired);
      SentInAll(lib, rounds, took, 0, vars.m, old(client.sent), old(client.nextID), end, report)
  {
    hide OneRound, Incoming, Ending, MessagesSent, Texts, TookFirst, TextSent, OwnId, VarsSeen, NoneTaken, TookInRange,
         EndsAs, LastTaken, After;
    var details: seq<Detail> := [];
    var completedRounds := 0;
    var lastRecv := "";
    var captured := new CtxMap(map[]);
    var empty := new CtxMap(map[]);
    var roundVars := Merge(empty, vars);
    ghost var inbox := Inbox(client.frames);
    ghost var net0 := Net(Incoming(inbox), Ending(inbox), 0, client.nextID, client.sent, client.sendsLeft, expired);
    ghost var net := net0;
    took := StepSends(lib, rounds, net0, vars.m);
    assert inbox[0..] == inbox && roundVars.m == vars.m;
    var i := 0;
    while i < |rounds|
      invariant 0 <= i <= |rounds|
      invariant fresh(roundVars) && fresh(captured) && roundVars != captured
      invariant At(client, inbox, net) && net.expired == expired
      invariant
        Run(lib, rounds, 0, net0, Start(vars.m))
        == Run(lib, rounds, i, net, Progress(roundVars.m, captured.m, lastRecv, completedRounds, details))
    {
      ghost var p := Progress(roundVars.m, captured.m, lastRecv, completedRounds, details);
      var stop, lastRecv', details', played := PlayRound(
        lib, client, expired, rounds[i], i + 1, completedRounds, details, lastRecv, roundVars, captured, inbox, net, p);
      if stop != None {
        return stop.value, took;
      }
      OneRoundKeepsEnd(lib, rounds[i], i + 1, net, p);
      net := OneRound(lib, rounds[i], i + 1, net, p).0;
      lastRecv, details := lastRecv', details';
      completedRounds := if played then completedRounds + 1 else completedRounds;
      i := i + 1;
    }
    report := Report(Success, Completed, completedRounds, details, Body(Truncate(lastRecv)), Some(captured.m),
                     captured.m, roundVars.m);
  }

  lemma OneRoundKeepsEnd(lib: Lib, r: Round, n: nat, net: Net, p: Progress)
    requires net.pos <= |net.msgs|
    ensures
      var (net', p', stop) := OneRound(lib, r, n, net, p);
      net'.msgs == net.msgs && net'.end == net.end && net'.expired == net.expired && net'.pos <= |net.msgs|
  {
  }

  // ---------- Rounds and captures ----------

  lemma {:induction false} RunKeepsStep(lib: Lib, rounds: seq<Round>, i: nat, net: Net, p: Progress, vars: Vars)
    requires i <= |rounds| && net.pos <= |net.msgs| && InStep(p, vars)
    ensures ReportInStep(Run(lib, rounds, i, net, p).1, vars)
    decreases |rounds| - i
  {
    hide OneRound;
    if i < |rounds| {
      OneRoundKeepsStep(lib, rounds[i], i + 1, net, p, vars);
      OneRoundKeepsEnd(lib, rounds[i], i + 1, net, p);
      var (net', p', stop) := OneRound(lib, rounds[i], i + 1, net, p);
      if stop == None {
        RunKeepsStep(lib, rounds, i + 1, net', p', vars);
      }
    }
  }

  lemma {:induction false} OneRoundKeepsStep(lib: Lib, r: Round, n: nat, net: Net, p: Progress, vars: Vars)
    requires net.pos <= |net.msgs| && InStep(p, vars)
    ensures
      var (net', p', stop) := OneRound(lib, r, n, net, p);
      InStep(p', vars) && (stop.Some? ==> ReportInStep(stop.value, vars))
  {
    hide Settle;
    var sendStr := Render(lib, r.send, p.vars);
    forall m: string
      ensures
        var (next, stop) := Settle(lib, r, n, sendStr, m, p);
        InStep(next, vars) && (stop.Some? ==> ReportInStep(stop.value, vars))
    {
      SettleKeepsStep(lib, r, n, sendStr, m, p, vars);
    }
  }

  /** Merging what the step captured into the caller's variables gives the variables its last round saw. */
  lemma {:induction false} CapturesGiveRoundVars(lib: Lib, rounds: seq<Round>, net: Net, vars: Vars)
    requires net.pos <= |net.msgs|
    ensures
      var report := Run(lib, rounds, 0, net, Start(vars)).1;
      report.roundVars == vars + report.captured
  {
    assert vars + map[] == vars;
    RunKeepsStep(lib, rounds, 0, net, Start(vars), vars);
  }

  /** The progress report is right at every exit: completed rounds, their details, and the round that failed. */
  lemma {:induction false} RunTracks(lib: Lib, rounds: seq<Round>, i: nat, net: Net, p: Progress)
    requires i <= |rounds| && net.pos <= |net.msgs| && Tracks(p, i)
    ensures ReportTracks(Run(lib, rounds, i, net, p).1, |rounds|)
    decreases |rounds| - i
  {
    hide OneRound, Tracks, ReportTracks;
    if i == |rounds| {
      FinishedTracks(p, i);
    } else {
      OneRoundTracks(lib, rounds[i], i + 1, net, p);
      OneRoundKeepsEnd(lib, rounds[i], i + 1, net, p);
      var (net', p', stop) := OneRound(lib, rounds[i], i + 1, net, p);
      if stop == None {
        RunTracks(lib, rounds, i + 1, net', p');
      } else {
        TracksFurther(p, stop.value, i + 1, |rounds|);
      }
    }
  }

  lemma OneRoundTracks(lib: Lib, r: Round, n: nat, net: Net, p: Progress)
    requires net.pos <= |net.msgs|
    requires n > 0 && Tracks(p, n - 1)
    ensures
      var (net', p', stop) := OneRound(lib, r, n, net, p);
      if stop == None then Tracks(p', n) else ReportTracks(stop.value, n)
  {
    hide Tracks, ReportTracks, Settle, Broken, FirstFrom, Plays, HasSend, AfterSend;
    var sendStr := Render(lib, r.send, p.vars);
    var sends := HasSend(r.send, sendStr);
    var net1 := if sends then AfterSend(net, r, sendStr) else net;
    BrokenTracks(Failed, Sending(n), n, sendStr, [], p);
    BrokenTracks(EndStatus(net), Receiving(n), n, sendStr, Unread(net), p);
    TracksFurther(p, Broken(Failed, Sending(n), n, sendStr, [], p), n - 1, n);
    var j := FirstFrom(net.msgs, Accept(lib, r.expected, sends && IsRequest(r), net1.nextID), net.pos);
    if j.Some? {
      SettleTracks(lib, r, n, sendStr, FromBytes(net.msgs[j.value].body), p);
    }
  }

  // ---------- What the rounds want ----------

  /** What a played round accepts: whether it sends, whether that is a request, and the id of its send. */
  datatype Want = Want(expected: map<string, string>, sends: bool, request: bool, id: Uint32)

  /** The played rounds from index i on, for rounds whose sending does not depend on variables. */
  function Wants(rounds: seq<Round>, i: nat, id: Uint32): seq<Want>
    requires i <= |rounds|
    decreases |rounds| - i
  {
    if i == |rounds| then []
    else
      var r := rounds[i];
      var sends := HasSend(r.send, r.send);
      var id' := if sends then NextId(id) else id;
      if !Plays(r, sends) then Wants(rounds, i + 1, id)
      else [Want(r.expected, sends, IsRequest(r), id')] + Wants(rounds, i + 1, id')
  }

  function Test(lib: Lib, w: Want): M.Message -> bool {
    Accept(lib, w.expected, w.sends && w.request, w.id)
  }

  function Tests(lib: Lib, ws: seq<Want>): seq<M.Message -> bool> {
    seq(|ws|, k requires 0 <= k < |ws| => Test(lib, ws[k]))
  }

  /** The rounds of those wants. */
  function Played(rounds: seq<Round>, i: nat): seq<Round>
    requires i <= |rounds|
    decreases |rounds| - i
  {
    if i == |rounds| then []
    else
      var r := rounds[i];
      (if Plays(r, HasSend(r.send, r.send)) then [r] else []) + Played(rounds, i + 1)
  }

  lemma {:induction false} PlayedAreWanted(rounds: seq<Round>, i: nat, id: Uint32)
    requires i <= |rounds|
    ensures |Played(rounds, i)| == |Wants(rounds, i, id)|
    decreases |rounds| - i
  {
    hide Plays, HasSend;
    if i < |rounds| {
      var r := rounds[i];
      PlayedAreWanted(rounds, i + 1, if HasSend(r.send, r.send) then NextId(id) else id);
      PlayedAreWanted(rounds, i + 1, id);
    }
  }

  // ---------- Greedy matching ----------

  /** What a round does: it is skipped, or it takes the first message its want accepts, or it ends the step. */
  lemma OneRoundTakes(lib: Lib, r: Round, n: nat, net: Net, p: Progress)
    requires net.pos <= |net.msgs| && FixedSend(r.send)
    ensures
      var sends := HasSend(r.send, r.send);
      var id := if sends then NextId(net.nextID) else net.nextID;
      var (net', p', stop) := OneRound(lib, r, n, net, p);
      if !Plays(r, sends) then net' == net && p' == p && stop == None
      else
        var first := FirstFrom(net.msgs, Test(lib, Want(r.expected, sends, IsRequest(r), id)), net.pos);
        && net'.msgs == net.msgs && net'.nextID == id
        && (stop.Some? ==> !Succeeds(stop.value))
        && (stop.None? ==>
              && first.Some? && net'.pos == first.value + 1
              && Recvs(p'.details) == Recvs(p.details) + [Truncate(Texts(net.msgs)[first.value])])
  {
    hide FirstFrom, Render, HasSend, Truncate, Accept, Settle, Recvs, Texts;
    SendIsFixed(lib, r.send, p.vars);
    var sends := HasSend(r.send, r.send);
    var id := if sends then NextId(net.nextID) else net.nextID;
    var first := FirstFrom(net.msgs, Accept(lib, r.expected, sends && IsRequest(r), id), net.pos);
    if first.Some? {
      SettleShows(lib, r, n, Render(lib, r.send, p.vars), FromBytes(net.msgs[first.value].body), p);
      TextAt(net.msgs, first.value);
    }
  }

  /** A played round with a message to take goes on exactly if its send succeeds and its assertions hold. */
  lemma OneRoundGoesOn(lib: Lib, r: Round, n: nat, net: Net, p: Progress, j: nat)
    requires net.pos <= |net.msgs| && FixedSend(r.send) && Plays(r, HasSend(r.send, r.send))
    requires
      var sends := HasSend(r.send, r.send);
      var id := if sends then NextId(net.nextID) else net.nextID;
      FirstFrom(net.msgs, Test(lib, Want(r.expected, sends, IsRequest(r), id)), net.pos) == Some(j)
    ensures j < |net.msgs|
    ensures
      var (net', p', stop) := OneRound(lib, r, n, net, p);
      var m := WsResponse(Texts(net.msgs)[j]);
      var sends := HasSend(r.send, r.send);
      var vars := p.vars + Common.Captured(lib, r.captures, m);
      && (stop == None <==> (sends ==> net.sendsLeft > 0) && AllHold(lib, r.assertions, m, vars))
      && (stop == None ==> p'.vars == vars && net'.sendsLeft == net.sendsLeft - if sends then 1 else 0)
  {
    hide FirstFrom, Render, HasSend, Truncate, Accept, AllHold, Texts;
    SendIsFixed(lib, r.send, p.vars);
    TextAt(net.msgs, j);
  }

  lemma TextAt(ms: seq<M.Message>, j: nat)
    requires j < |ms|
    ensures j < |Texts(ms)| && Texts(ms)[j] == FromBytes(ms[j].body)
  {
  }

  lemma PlayedWant(rounds: seq<Round>, i: nat, id: Uint32, ws: seq<Want>, k: nat)
    requires i < |rounds| && k <= |ws| && Wants(rounds, i, id) == ws[k..]
    ensures
      var r := rounds[i];
      var sends := HasSend(r.send, r.send);
      var id' := if sends then NextId(id) else id;
      if !Plays(r, sends) then Wants(rounds, i + 1, id) == ws[k..]
      else k < |ws| && ws[k] == Want(r.expected, sends, IsRequest(r), id') && Wants(rounds, i + 1, id') == ws[k + 1..]
  {
  }

  /** A run that succeeds, with or without assertions, took the greedy positions and shows their messages. */
  lemma {:induction false} SuccessIsGreedy(lib: Lib, rounds: seq<Round>, i: nat, net: Net, p: Progress,
                                           ws: seq<Want>, k: nat)
    requires i <= |rounds| && net.pos <= |net.msgs| && FixedSends(rounds)
    requires k <= |ws| && Wants(rounds, i, net.nextID) == ws[k..]
    requires Succeeds(Run(lib, rounds, i, net, p).1)
    ensures
      var g := Greedy(net.msgs, Tests(lib, ws), k, net.pos);
      && g.Some? && InRange(Texts(net.msgs), g.value)
      && Recvs(Run(lib, rounds, i, net, p).1.details) == Recvs(p.details) + Shown(Texts(net.msgs), g.value)
    decreases |rounds| - i
  {
    hide OneRound, Plays, HasSend, Recvs, Shown, Texts;
    if i == |rounds| {
      ShownNothing(Texts(net.msgs));
    } else {
      var r := rounds[i];
      OneRoundTakes(lib, r, i + 1, net, p);
      OneRoundKeepsEnd(lib, r, i + 1, net, p);
      PlayedWant(rounds, i, net.nextID, ws, k);
      var (net', p', stop) := OneRound(lib, r, i + 1, net, p);
      if !Plays(r, HasSend(r.send, r.send)) {
        SuccessIsGreedy(lib, rounds, i + 1, net', p', ws, k);
      } else {
        assert Tests(lib, ws)[k] == Test(lib, ws[k]);
        SuccessIsGreedy(lib, rounds, i + 1, net', p', ws, k + 1);
        TextsLength(net.msgs);
        ShownCons(Texts(net.msgs), net'.pos - 1, Greedy(net.msgs, Tests(lib, ws), k + 1, net'.pos).value);
      }
    }
  }

  lemma TextsLength(ms: seq<M.Message>)
    ensures |Texts(ms)| == |ms|
  {
  }

  lemma PlayedNext(rounds: seq<Round>, i: nat, ps: seq<Round>, k: nat)
    requires i < |rounds| && k <= |ps| && Played(rounds, i) == ps[k..]
    ensures
      if !Plays(rounds[i], HasSend(rounds[i].send, rounds[i].send)) then Played(rounds, i + 1) == ps[k..]
      else k < |ps| && ps[k] == rounds[i] && Played(rounds, i + 1) == ps[k + 1..]
  {
  }

  lemma NextCount(ws: seq<Want>, k: nat)
    requires k < |ws|
    ensures SendCount(ws, k + 1) == SendCount(ws, k) + if ws[k].sends then 1 else 0
  {
  }

  /** Given the greedy positions, the rest of a run succeeds exactly if the sends go out and the assertions hold. */
  lemma {:induction false} GreedySucceeds(lib: Lib, rounds: seq<Round>, i: nat, net: Net, p: Progress,
                                          ws: seq<Want>, ps: seq<Round>, k: nat, a: seq<nat>, vars: Vars, writes: nat)
    requires i <= |rounds| && net.pos <= |net.msgs| && FixedSends(rounds)
    requires k <= |ws| == |ps| == |a| && InRange(Texts(net.msgs), a)
    requires Wants(rounds, i, net.nextID) == ws[k..] && Played(rounds, i) == ps[k..]
    requires Greedy(net.msgs, Tests(lib, ws), k, net.pos) == Some(a[k..])
    requires p.vars == VarsBefore(lib, ps, Texts(net.msgs), a, vars, k)
    requires writes == net.sendsLeft + SendCount(ws, k)
    ensures
      Succeeds(Run(lib, rounds, i, net, p).1)
      <==> && SendCount(ws, |ws|) <= writes
           && forall n :: k <= n < |ps| ==> RoundAsserts(lib, ps, Texts(net.msgs), a, vars, n)
    decreases |rounds| - i
  {
    hide OneRound, Plays, HasSend, AllHold, FirstFrom, Render, InRange, Greedy, VarsBefore, SendsBefore, RoundAsserts,
         SendCount, Texts, Test;
    if i < |rounds| {
      var r, texts := rounds[i], Texts(net.msgs);
      OneRoundTakes(lib, r, i + 1, net, p);
      OneRoundKeepsEnd(lib, r, i + 1, net, p);
      PlayedWant(rounds, i, net.nextID, ws, k);
      PlayedNext(rounds, i, ps, k);
      var (net', p', stop) := OneRound(lib, r, i + 1, net, p);
      if !Plays(r, HasSend(r.send, r.send)) {
        GreedySucceeds(lib, rounds, i + 1, net', p', ws, ps, k, a, vars, writes);
      } else {
        assert Tests(lib, ws)[k] == Test(lib, ws[k]);
        GreedyStep(net.msgs, Tests(lib, ws), k, net.pos, a);
        NextRound(lib, ps, texts, a, vars, k);
        NextCount(ws, k);
        OneRoundGoesOn(lib, r, i + 1, net, p, a[k]);
        if stop == None {
          GreedySucceeds(lib, rounds, i + 1, net', p', ws, ps, k + 1, a, vars, writes);
        } else {
          SendCountGrows(ws, k + 1, |ws|);
        }
      }
    } else {
      assert ws[k..] == [] && k == |ws|;
    }
  }

  /** When a run completes, exactly: the messages can be assigned to the played rounds in order, the sends do not
      outnumber those that succeed, and at the greedy positions every played round's assertions hold. */
  lemma CompletesIff(lib: Lib, rounds: seq<Round>, net: Net, vars: Vars)
    requires net.pos <= |net.msgs| && FixedSends(rounds)
    ensures
      Run(lib, rounds, 0, net, Start(vars)).1.phase == Completed
      <==>
      match Greedy(net.msgs, Tests(lib, Wants(rounds, 0, net.nextID)), 0, net.pos)
      case None => false
      case Some(a) =>
        && |a| == |Played(rounds, 0)| && InRange(Texts(net.msgs), a)
        && SenderCount(rounds, |rounds|) <= net.sendsLeft
        && AllRoundsAssert(lib, Played(rounds, 0), Texts(net.msgs), a, vars)
  {
    hide Run, Greedy, RoundAsserts, Wants, Played, SendCount, SenderCount, Texts;
    var ws, ps := Wants(rounds, 0, net.nextID), Played(rounds, 0);
    PlayedAreWanted(rounds, 0, net.nextID);
    SendersAreCounted(rounds, 0, net.nextID);
    NoSends(ws);
    NoSenders(rounds);
    CompletedMeansSuccess(lib, rounds, 0, net, Start(vars));
    assert ws[0..] == ws && ps[0..] == ps;
    var g := Greedy(net.msgs, Tests(lib, ws), 0, net.pos);
    if g == None {
      if Succeeds(Run(lib, rounds, 0, net, Start(vars)).1) {
        SuccessIsGreedy(lib, rounds, 0, net, Start(vars), ws, 0);
      }
    } else {
      GreedyIsAssignment(net.msgs, Tests(lib, ws), 0, net.pos);
      TextsLength(net.msgs);
      assert g.value[0..] == g.value;
      GreedySucceeds(lib, rounds, 0, net, Start(vars), ws, ps, 0, g.value, vars, net.sendsLeft);
    }
  }

  lemma NoSenders(rounds: seq<Round>)
    ensures SenderCount(rounds, 0) == 0
  {
  }

  /** Counting the rounds that send, or the wants that do, is the same: a round that sends is played. */
  lemma {:induction false} SendersAreCounted(rounds: seq<Round>, i: nat, id: Uint32)
    requires i <= |rounds|
    ensures
      var ws := Wants(rounds, i, id);
      SendCount(ws, |ws|) == SenderCount(rounds, |rounds|) - SenderCount(rounds, i)
    decreases |rounds| - i
  {
    hide HasSend;
    if i < |rounds| {
      var r := rounds[i];
      var sends := HasSend(r.send, r.send);
      var id' := if sends then NextId(id) else id;
      SendersAreCounted(rounds, i + 1, id');
      if Plays(r, sends) {
        var rest := Wants(rounds, i + 1, id');
        SendCountShift(Want(r.expected, sends, IsRequest(r), id'), rest, |rest|);
      }
    }
  }

  lemma {:induction false} CompletedMeansSuccess(lib: Lib, rounds: seq<Round>, i: nat, net: Net, p: Progress)
    requires i <= |rounds| && net.pos <= |net.msgs| && FixedSends(rounds)
    ensures Succeeds(Run(lib, rounds, i, net, p).1) <==> Run(lib, rounds, i, net, p).1.phase == Completed
    ensures Succeeds(Run(lib, rounds, i, net, p).1) <==> Run(lib, rounds, i, net, p).1.status == Success
    decreases |rounds| - i
  {
    hide OneRound, HasSend;
    if i < |rounds| {
      OneRoundTakes(lib, rounds[i], i + 1, net, p);
      OneRoundKeepsEnd(lib, rounds[i], i + 1, net, p);
      var (net', p', stop) := OneRound(lib, rounds[i], i + 1, net, p);
      if stop == None {
        CompletedMeansSuccess(lib, rounds, i + 1, net', p');
      }
    }
  }

  /** A run without assertions completes exactly when the messages can be assigned to the played rounds in order and
      there is a successful send for each round that sends. */
  lemma CompletesIffAssignment(lib: Lib, rounds: seq<Round>, net: Net, vars: Vars)
    requires net.pos <= |net.msgs| && FixedSends(rounds)
    requires NoAssertions(rounds)
    ensures
      Run(lib, rounds, 0, net, Start(vars)).1.phase == Completed
      <==> && (exists a :: Assignment(net.msgs, Tests(lib, Wants(rounds, 0, net.nextID)), 0, a, net.pos))
           && SenderCount(rounds, |rounds|) <= net.sendsLeft
  {
    hide Run, Greedy, Wants, Played, SenderCount, Texts;
    CompletesIff(lib, rounds, net, vars);
    var oks := Tests(lib, Wants(rounds, 0, net.nextID));
    GreedyIffAssignment(net.msgs, oks, net.pos);
    var g := Greedy(net.msgs, oks, 0, net.pos);
    if g.Some? {
      GreedyIsAssignment(net.msgs, oks, 0, net.pos);
      PlayedAreWanted(rounds, 0, net.nextID);
      TextsLength(net.msgs);
      PlayedAssertNothing(rounds, 0);
    }
  }

  lemma {:induction false} PlayedAssertNothing(rounds: seq<Round>, i: nat)
    requires i <= |rounds| && NoAssertions(rounds)
    ensures NoAssertions(Played(rounds, i))
    decreases |rounds| - i
  {
    if i < |rounds| { PlayedAssertNothing(rounds, i + 1); }
  }

  /** A successful run has captured what its rounds name, no more and no less; skipped rounds name nothing. */
  lemma {:induction false} RunCaptures(lib: Lib, rounds: seq<Round>, i: nat, net: Net, p: Progress)
    requires i <= |rounds| && net.pos <= |net.msgs|
    requires Run(lib, rounds, i, net, p).1.status == Success
    ensures Run(lib, rounds, i, net, p).1.captured.Keys == p.captured.Keys + RoundNames(rounds, i)
    decreases |rounds| - i
  {
    hide OneRound, Names;
    if i < |rounds| {
      OneRoundCaptures(lib, rounds[i], i + 1, net, p);
      OneRoundKeepsEnd(lib, rounds[i], i + 1, net, p);
      var (net', p', stop) := OneRound(lib, rounds[i], i + 1, net, p);
      RunCaptures(lib, rounds, i + 1, net', p');
    }
  }

  lemma OneRoundCaptures(lib: Lib, r: Round, n: nat, net: Net, p: Progress)
    requires net.pos <= |net.msgs|
    ensures
      var (net', p', stop) := OneRound(lib, r, n, net, p);
      if stop == None then p'.captured.Keys == p.captured.Keys + Names(r.captures) else stop.value.status != Success
  {
    hide Settle, FirstFrom, HasSend, AfterSend;
    var sendStr := Render(lib, r.send, p.vars);
    var sends := HasSend(r.send, sendStr);
    var net1 := if sends then AfterSend(net, r, sendStr) else net;
    var j := FirstFrom(net.msgs, Accept(lib, r.expected, sends && IsRequest(r), net1.nextID), net.pos);
    if j.Some? {
      SettleCaptures(lib, r, n, sendStr, FromBytes(net.msgs[j.value].body), p);
      SettleShows(lib, r, n, sendStr, FromBytes(net.msgs[j.value].body), p);
    }
  }

  /** Even with assertions, a completed run shows for each played round the earliest message any assignment gives it. */
  lemma {:induction false} CompletedRunIsEarliest(lib: Lib, rounds: seq<Round>, net: Net, vars: Vars)
    returns (a: seq<nat>)
    requires net.pos <= |net.msgs| && FixedSends(rounds)
    requires Run(lib, rounds, 0, net, Start(vars)).1.phase == Completed
    ensures Assignment(net.msgs, Tests(lib, Wants(rounds, 0, net.nextID)), 0, a, net.pos)
    ensures InRange(Texts(net.msgs), a)
    ensures Recvs(Run(lib, rounds, 0, net, Start(vars)).1.details) == Shown(Texts(net.msgs), a)
    ensures forall b :: Assignment(net.msgs, Tests(lib, Wants(rounds, 0, net.nextID)), 0, b, net.pos) ==>
              forall k :: 0 <= k < |a| ==> a[k] <= b[k]
  {
    hide Run, Greedy;
    var ws := Wants(rounds, 0, net.nextID);
    assert ws[0..] == ws;
    SuccessIsGreedy(lib, rounds, 0, net, Start(vars), ws, 0);
    var oks := Tests(lib, ws);
    a := Greedy(net.msgs, oks, 0, net.pos).value;
    GreedyIsAssignment(net.msgs, oks, 0, net.pos);
    forall b | Assignment(net.msgs, oks, 0, b, net.pos)
      ensures forall k :: 0 <= k < |a| ==> a[k] <= b[k]
    {
      GreedyIsEarliest(net.msgs, oks, 0, net.pos, b);
    }
  }

  // ---------- Requests and replies ----------

  /** What a request round that sent accepts: its own reply, or a message of a type the protocol does not have. */
  lemma RequestTestMeaning(lib: Lib, w: Want, m: M.Message)
    requires w.sends && w.request
    ensures
      Test(lib, w)(m)
      <==> && (forall p :: p in w.expected ==> lib.show(FromBytes(m.body), p) == Some(w.expected[p]))
           && (m.typ == 2 ==> m.id == w.id) && m.typ != 3 && m.typ != 1
  {
  }

  /** Any other round accepts every message that meets its expectation. */
  lemma OtherTestMeaning(lib: Lib, w: Want, m: M.Message)
    requires !(w.sends && w.request)
    ensures Test(lib, w)(m)
       <==> forall p :: p in w.expected ==> lib.show(FromBytes(m.body), p) == Some(w.expected[p])
  {
  }

  /** If the server sends only responses, pushes and notifies, every request round that sent gets the reply
      to its own send. */
  lemma RequestGetsItsReply(lib: Lib, ws: seq<Want>, msgs: seq<M.Message>, a: seq<nat>, from: nat, k: nat)
    requires Assignment(msgs, Tests(lib, ws), 0, a, from)
    requires forall j :: 0 <= j < |msgs| ==> msgs[j].typ in {M.RESPONSE, M.PUSH, M.NOTIFY}
    requires k < |ws| && ws[k].sends && ws[k].request
    ensures msgs[a[k]].typ == M.RESPONSE && msgs[a[k]].id == ws[k].id
  {
    assert Tests(lib, ws)[0 + k](msgs[a[k]]);
    assert Test(lib, ws[k])(msgs[a[k]]);
    RequestTestMeaning(lib, ws[k], msgs[a[k]]);
  }

  /** How many of the first n played rounds send. */
  function SendCount(ws: seq<Want>, n: nat): (c: nat)
    requires n <= |ws|
    ensures c <= n
  {
    if n == 0 then 0 else SendCount(ws, n - 1) + if ws[n - 1].sends then 1 else 0
  }

  lemma {:induction false} SendCountShift(w: Want, ws: seq<Want>, n: nat)
    requires n <= |ws|
    ensures SendCount([w] + ws, n + 1) == SendCount(ws, n) + if w.sends then 1 else 0
  {
    if n > 0 {
      SendCountShift(w, ws, n - 1);
      assert ([w] + ws)[n] == ws[n - 1];
    } else {
      assert SendCount([w] + ws, 0) == 0;
    }
  }

  /** Ids are consecutive over the sends, modulo 2^32. */
  lemma {:induction false} IdsAreConsecutive(rounds: seq<Round>, i: nat, id: Uint32, k: nat)
    requires i <= |rounds| && k < |Wants(rounds, i, id)|
    ensures Wants(rounds, i, id)[k].id == (id + SendCount(Wants(rounds, i, id), k + 1)) % TWO_32
    decreases |rounds| - i
  {
    hide Plays, HasSend, SendCount;
    var r := rounds[i];
    var sends := HasSend(r.send, r.send);
    if !Plays(r, sends) {
      IdsAreConsecutive(rounds, i + 1, id, k);
    } else {
      var id' := if sends then NextId(id) else id;
      var rest := Wants(rounds, i + 1, id');
      var w := Want(r.expected, sends, IsRequest(r), id');
      SendCountShift(w, rest, k);
      if k == 0 {
        NoSends(rest);
      } else {
        IdsAreConsecutive(rounds, i + 1, id', k - 1);
        NumbersWrap(id, SendCount(rest, k));
      }
    }
  }

  lemma NumbersWrap(id: Uint32, c: nat)
    ensures (NextId(id) + c) % TWO_32 == (id + 1 + c) % TWO_32
  {
  }

  lemma NoSends(ws: seq<Want>)
    ensures SendCount(ws, 0) == 0
  {
  }

  lemma {:induction false} SendCountGrows(ws: seq<Want>, j: nat, k: nat)
    requires j <= k <= |ws|
    ensures SendCount(ws, j) <= SendCount(ws, k)
    decreases k - j
  {
    if j < k { SendCountGrows(ws, j, k - 1); }
  }

  /** Two sends of one run carry the same id exactly when a multiple of 2^32 sends lies between them. */
  lemma SameIdIff(rounds: seq<Round>, id: Uint32, j: nat, k: nat)
    requires j < k < |Wants(rounds, 0, id)|
    ensures
      var ws := Wants(rounds, 0, id);
      ws[j].id == ws[k].id <==> (SendCount(ws, k + 1) - SendCount(ws, j + 1)) % TWO_32 == 0
  {
    hide Wants, SendCount;
    var ws := Wants(rounds, 0, id);
    IdsAreConsecutive(rounds, 0, id, j);
    IdsAreConsecutive(rounds, 0, id, k);
    SameRemainder(id + SendCount(ws, j + 1), id + SendCount(ws, k + 1));
  }

  lemma SameRemainder(x: nat, y: nat)
    ensures x % TWO_32 == y % TWO_32 <==> (y - x) % TWO_32 == 0
  {
  }

  /** Within 2^32 sends, a reply to an earlier request never satisfies a later request round. */
  lemma OldReplyIsRejected(lib: Lib, rounds: seq<Round>, id: Uint32, j: nat, k: nat, m: M.Message)
    requires j < k < |Wants(rounds, 0, id)|
    requires |rounds| < TWO_32
    requires Wants(rounds, 0, id)[k].sends && Wants(rounds, 0, id)[k].request
    requires m.typ == M.RESPONSE && m.id == Wants(rounds, 0, id)[j].id
    ensures !Test(lib, Wants(rounds, 0, id)[k])(m)
  {
    hide Wants, SendCount;
    var ws := Wants(rounds, 0, id);
    WantsAreFew(rounds, 0, id);
    SameIdIff(rounds, id, j, k);
    LaterSendCounts(ws, j, k);
    RequestTestMeaning(lib, ws[k], m);
  }

  lemma LaterSendCounts(ws: seq<Want>, j: nat, k: nat)
    requires j < k < |ws| && ws[k].sends
    ensures 0 < SendCount(ws, k + 1) - SendCount(ws, j + 1) <= |ws|
  {
    SendCountGrows(ws, j + 1, k);
  }

  lemma {:induction false} WantsAreFew(rounds: seq<Round>, i: nat, id: Uint32)
    requires i <= |rounds|
    ensures |Wants(rounds, i, id)| <= |rounds| - i
    decreases |rounds| - i
  {
    if i < |rounds| {
      var r := rounds[i];
      var sends := HasSend(r.send, r.send);
      WantsAreFew(rounds, i + 1, id);
      WantsAreFew(rounds, i + 1, if sends then NextId(id) else id);
    }
  }

  /** A whole run: if the server sends only responses, pushes and notifies, then in a completed run every request
      round that sent took, as the earliest such message, a response carrying the id of its own send. */
  lemma CompletedRunGotReplies(lib: Lib, rounds: seq<Round>, net: Net, vars: Vars) returns (a: seq<nat>)
    requires net.pos <= |net.msgs| && FixedSends(rounds)
    requires Run(lib, rounds, 0, net, Start(vars)).1.phase == Completed
    requires forall j :: 0 <= j < |net.msgs| ==> net.msgs[j].typ in {M.RESPONSE, M.PUSH, M.NOTIFY}
    ensures
      var ws := Wants(rounds, 0, net.nextID);
      && |a| == |ws| && InRange(Texts(net.msgs), a)
      && Recvs(Run(lib, rounds, 0, net, Start(vars)).1.details) == Shown(Texts(net.msgs), a)
      && (forall j, k :: 0 <= j < k < |a| ==> a[j] < a[k])
      && forall k :: 0 <= k < |ws| && ws[k].sends && ws[k].request ==>
           && a[k] < |net.msgs| && net.msgs[a[k]].typ == M.RESPONSE
           && net.msgs[a[k]].id == (net.nextID + SendCount(ws, k + 1)) % TWO_32
  {
    hide Run, Greedy, Wants, SendCount, Shown, Recvs, Texts;
    a := CompletedRunIsEarliest(lib, rounds, net, vars);
    var ws := Wants(rounds, 0, net.nextID);
    forall k | 0 <= k < |ws| && ws[k].sends && ws[k].request
      ensures a[k] < |net.msgs| && net.msgs[a[k]].typ == M.RESPONSE
      ensures net.msgs[a[k]].id == (net.nextID + SendCount(ws, k + 1)) % TWO_32
    {
      RequestGetsItsReply(lib, ws, net.msgs, a, net.pos, k);
      IdsAreConsecutive(rounds, 0, net.nextID, k);
    }
  }

  // ---------- What was sent ----------

  /** The messages sent since base, numbered from id on. */
  predicate Numbered(sent: seq<M.Message>, base: nat, id: Uint32, nextID: Uint32) {
    && base <= |sent|
    && nextID == (id + (|sent| - base)) % TWO_32
    && forall k :: base <= k < |sent| ==> sent[k].id == (id + (k - base + 1)) % TWO_32
  }

  lemma SendKeepsNumbering(net: Net, r: Round, sendStr: string, base: nat, id: Uint32)
    requires Numbered(net.sent, base, id, net.nextID)
    ensures Numbered(AfterSend(net, r, sendStr).sent, base, id, AfterSend(net, r, sendStr).nextID)
  {
    var c := |net.sent| - base;
    assert ((id + c) % TWO_32 + 1) % TWO_32 == (id + c + 1) % TWO_32;
  }

  /** Over a whole run, even one that fails, the messages sent carry consecutive ids. */
  lemma {:induction false} RunNumbersSends(lib: Lib, rounds: seq<Round>, i: nat, net: Net, p: Progress,
                                           base: nat, id: Uint32)
    requires i <= |rounds| && net.pos <= |net.msgs|
    requires Numbered(net.sent, base, id, net.nextID)
    ensures
      var (net', report) := Run(lib, rounds, i, net, p);
      Numbered(net'.sent, base, id, net'.nextID)
    decreases |rounds| - i
  {
    hide OneRound, Numbered;
    if i < |rounds| {
      OneRoundNumbers(lib, rounds[i], i + 1, net, p, base, id);
      OneRoundKeepsEnd(lib, rounds[i], i + 1, net, p);
      var (net', p', stop) := OneRound(lib, rounds[i], i + 1, net, p);
      if stop == None {
        RunNumbersSends(lib, rounds, i + 1, net', p', base, id);
      }
    }
  }

  lemma {:induction false} OneRoundNumbers(lib: Lib, r: Round, n: nat, net: Net, p: Progress, base: nat, id: Uint32)
    requires net.pos <= |net.msgs|
    requires Numbered(net.sent, base, id, net.nextID)
    ensures
      var (net', p', stop) := OneRound(lib, r, n, net, p);
      Numbered(net'.sent, base, id, net'.nextID)
  {
    hide Numbered, Settle, FirstFrom;
    SendKeepsNumbering(net, r, Render(lib, r.send, p.vars), base, id);
  }

  /** One message more: type 0 for a request and 1 for all others, the next number, the round's route and text. */
  function WithMessage(before: seq<M.Message>, id: Uint32, r: Round, text: Option<string>): seq<M.Message> {
    match text
    case None => before
    case Some(t) =>
      var typ := if r.msgType == "request" then 0 else 1;
      before + [M.Message((id + |before| + 1) % 4294967296, typ, ToBytes(r.route), ToBytes(t))]
  }

  /** The messages the first k rounds hand to the connection, numbered from the id on. */
  function MessagesSent(lib: Lib, rounds: seq<Round>, texts: seq<string>, took: seq<Option<nat>>, vars: Vars,
                        id: Uint32, k: nat): seq<M.Message>
    requires TookInRange(texts, took) && k <= |took| + 1 && k <= |rounds|
  {
    if k == 0 then []
    else
      WithMessage(MessagesSent(lib, rounds, texts, took, vars, id, k - 1), id, rounds[k - 1],
                  TextSent(lib, rounds, texts, took, vars, k - 1))
  }

  lemma {:induction false} MessagesSentExtends(lib: Lib, rounds: seq<Round>, texts: seq<string>, took: seq<Option<nat>>,
                                               last: Option<nat>, vars: Vars, id: Uint32, k: nat)
    requires TookInRange(texts, took + [last]) && k <= |took| + 1 && k <= |rounds|
    ensures TookInRange(texts, took)
    ensures MessagesSent(lib, rounds, texts, took + [last], vars, id, k)
         == MessagesSent(lib, rounds, texts, took, vars, id, k)
  {
    hide WithMessage, TextSent;
    assert forall n :: 0 <= n < |took| ==> (took + [last])[n] == took[n];
    if k > 0 {
      TextSentExtends(lib, rounds, texts, took, last, vars, k - 1);
      MessagesSentExtends(lib, rounds, texts, took, last, vars, id, k - 1);
    }
  }

  /** A further message in terms of the counter. */
  lemma MessageAdded(base: seq<M.Message>, before: seq<M.Message>, id: Uint32, nextID: Uint32, r: Round,
                     text: Option<string>)
    requires nextID == (id + |before|) % 4294967296
    ensures
      var after := WithMessage(before, id, r, text);
      match text
      case None => after == before
      case Some(t) =>
        var typ := if r.msgType == "request" then 0 else 1;
        var next := (nextID + 1) % 4294967296;
        && base + after == base + before + [M.Message(next, typ, ToBytes(r.route), ToBytes(t))]
        && |after| == |before| + 1 && next == (id + |after|) % 4294967296
  {
    hide ToBytes;
    assert ((id + |before|) % 4294967296 + 1) % 4294967296 == (id + |before| + 1) % 4294967296;
  }

  /** What one round hands to the connection: its message, unless there is nothing to send. */
  lemma OneRoundMessage(lib: Lib, r: Round, n: nat, net: Net, p: Progress)
    requires net.pos <= |net.msgs|
    ensures
      var text := Render(lib, r.send, p.vars);
      var sends := |r.send| > 0 && text != "" && text != "null";
      var typ := if r.msgType == "request" then 0 else 1;
      var id := (net.nextID + 1) % 4294967296;
      var (net', p', stop) := OneRound(lib, r, n, net, p);
      && net'.msgs == net.msgs && net'.pos <= |net.msgs|
      && net'.sent == (if sends then net.sent + [M.Message(id, typ, ToBytes(r.route), ToBytes(text))] else net.sent)
      && net'.nextID == (if sends then id else net.nextID)
  {
    hide Render, FirstFrom, Accept, Settle, Broken, EndStatus, Unread, ToBytes, FromBytes;
  }

  /** A round takes a message that meets its expectation. A request that was sent leaves out pushes (type 3), notifies
      (type 1), and responses (type 2) to other ids. */
  predicate Takes(lib: Lib, r: Round, sends: bool, id: Uint32, m: M.Message) {
    && (r.msgType == "request" && sends ==> m.typ != 3 && m.typ != 1 && (m.typ == 2 ==> m.id == id))
    && Matches(lib, FromBytes(m.body), r.expected)
  }

  predicate NoneTaken(lib: Lib, r: Round, sends: bool, id: Uint32, ms: seq<M.Message>) {
    forall q :: 0 <= q < |ms| ==> !Takes(lib, r, sends, id, ms[q])
  }

  predicate FirstTaken(lib: Lib, r: Round, sends: bool, id: Uint32, ms: seq<M.Message>, from: nat, j: nat) {
    from <= j < |ms| && Takes(lib, r, sends, id, ms[j]) && NoneTaken(lib, r, sends, id, ms[from..j])
  }

  /** Nothing to send, to expect, to capture or to assert. */
  predicate IsEmpty(r: Round, sends: bool) {
    !sends && r.expected == map[] && r.captures == [] && r.assertions == []
  }

  lemma FindsFirst(lib: Lib, r: Round, sends: bool, id: Uint32, ms: seq<M.Message>, from: nat)
    requires from <= |ms|
    ensures
      match FirstFrom(ms, Accept(lib, r.expected, sends && IsRequest(r), id), from)
      case None => NoneTaken(lib, r, sends, id, ms[from..])
      case Some(j) => FirstTaken(lib, r, sends, id, ms, from, j)
  {
    hide Matches, FromBytes;
    var ok := Accept(lib, r.expected, sends && IsRequest(r), id);
    assert forall m :: ok(m) <==> Takes(lib, r, sends, id, m);
    FirstFromMeaning(ms, ok, from);
  }

  /** The status of a step whose connection ends while it waits: a panic, or a timeout if the deadline has passed. */
  function HowItEnds(net: Net): Status {
    match net.end
    case Crashed => Status.Crashed
    case _ => if net.expired then TimedOut else Failed
  }

  /** What becomes of a round. It is skipped, changing nothing, exactly if it is empty; it fails if the send does, or if
      no message is left that it takes. j is the first one it takes. */
  lemma OneRoundOutcome(lib: Lib, r: Round, n: nat, net: Net, p: Progress) returns (j: Option<nat>)
    requires net.pos <= |net.msgs|
    ensures j.Some? ==> net.pos <= j.value < |net.msgs|
    ensures
      var text := Render(lib, r.send, p.vars);
      var sends := |r.send| > 0 && text != "" && text != "null";
      var id := if sends then (net.nextID + 1) % 4294967296 else net.nextID;
      var (net', p', stop) := OneRound(lib, r, n, net, p);
      if IsEmpty(r, sends) then
        j == None && net' == net && p' == p && stop == None
      else if sends && net.sendsLeft == 0 then
        j == None && stop.Some? && stop.value.phase == Sending(n) && stop.value.roundVars == p.vars
      else
        match j
        case None =>
          && stop.Some? && stop.value.phase == Receiving(n) && stop.value.roundVars == p.vars
          && NoneTaken(lib, r, sends, id, net.msgs[net.pos..])
        case Some(j) =>
          var vars := p.vars + Common.Captured(lib, r.captures, WsResponse(FromBytes(net.msgs[j].body)));
          && FirstTaken(lib, r, sends, id, net.msgs, net.pos, j) && net'.pos == j + 1
          && if stop == None then p'.vars == vars && p'.lastRecv == FromBytes(net.msgs[j].body)
             else stop.value.phase == Asserting(n) && stop.value.roundVars == vars
  {
    hide Render, FirstFrom, Accept, Settle, EndStatus, Unread, FromBytes, Common.Captured, NoneTaken, FirstTaken;
    var text := Render(lib, r.send, p.vars);
    var sends := HasSend(r.send, text);
    var net1 := if sends then AfterSend(net, r, text) else net;
    assert |r.expected| == 0 <==> r.expected == map[];
    j := None;
    if Plays(r, sends) && !(sends && net.sendsLeft == 0) {
      j := FirstFrom(net.msgs, Accept(lib, r.expected, sends && IsRequest(r), net1.nextID), net.pos);
      FindsFirst(lib, r, sends, net1.nextID, net.msgs, net.pos);
      if j.Some? {
        SettleMeaning(lib, r, n, text, FromBytes(net.msgs[j.value].body), p);
      }
    }
  }

  /** A round that ends the run reports the status and response of its phase. */
  lemma OneRoundEnds(lib: Lib, r: Round, n: nat, net: Net, p: Progress)
    requires net.pos <= |net.msgs|
    ensures
      var (net', p', stop) := OneRound(lib, r, n, net, p);
      stop.Some? ==> EndsAs(stop.value, HowItEnds(net), Texts(net.msgs[net.pos..]), "")
  {
    hide Render, FirstFrom, Accept, Settle, AfterSend, FromBytes, Texts, TraceAnswer, HasSend, Plays;
    TraceMeaning([], "");
    assert net.msgs[net.pos..|net.msgs|] == net.msgs[net.pos..];
    var text := Render(lib, r.send, p.vars);
    var sends := HasSend(r.send, text);
    var net1 := if sends then AfterSend(net, r, text) else net;
    var j := FirstFrom(net.msgs, Accept(lib, r.expected, sends && IsRequest(r), net1.nextID), net.pos);
    if j.Some? {
      SettleMeaning(lib, r, n, text, FromBytes(net.msgs[j.value].body), p);
    }
  }

  /** What a round that is not empty shows: its number, the text it was to send, and the message it took, none if it
      took none. */
  lemma OneRoundShows(lib: Lib, r: Round, n: nat, net: Net, p: Progress)
    requires net.pos <= |net.msgs|
    ensures
      var text := Render(lib, r.send, p.vars);
      var (net', p', stop) := OneRound(lib, r, n, net, p);
      if IsEmpty(r, |r.send| > 0 && text != "" && text != "null") then p' == p && stop == None
      else if stop == None then
        && p'.completed == p.completed + 1
        && p'.details == p.details + [Detail(n, text, Truncate(p'.lastRecv))]
      else
        && stop.value.completed == p.completed
        && if stop.value.phase.Asserting? then
             && 0 < net'.pos <= |net.msgs|
             && stop.value.details == p.details + [Detail(n, text, Truncate(FromBytes(net.msgs[net'.pos - 1].body)))]
           else stop.value.details == p.details + [Detail(n, text, "")]
  {
    hide Render, FirstFrom, Accept, EndStatus, AfterSend, FromBytes, Texts, TraceAnswer, Truncate, Settle;
    assert |r.expected| == 0 <==> r.expected == map[];
    var text := Render(lib, r.send, p.vars);
    var sends := HasSend(r.send, text);
    var net1 := if sends then AfterSend(net, r, text) else net;
    var j := FirstFrom(net.msgs, Accept(lib, r.expected, sends && IsRequest(r), net1.nextID), net.pos);
    if j.Some? {
      SettleCounts(lib, r, n, text, FromBytes(net.msgs[j.value].body), p);
    }
  }

  /** The id that round number k carries if it sends, and whether it does. */
  function OwnId(lib: Lib, rounds: seq<Round>, texts: seq<string>, took: seq<Option<nat>>, vars: Vars, id: Uint32,
                 k: nat): Uint32
    requires TookInRange(texts, took) && k <= |took| && k < |rounds|
  {
    (id + |MessagesSent(lib, rounds, texts, took, vars, id, k + 1)|) % 4294967296
  }

  /** Each round was empty and took nothing, or took the first message it takes after those before it. */
  predicate TookFirst(lib: Lib, rounds: seq<Round>, msgs: seq<M.Message>, took: seq<Option<nat>>, from: nat, vars: Vars,
                      id: Uint32)
    requires |took| <= |rounds| && TookInRange(Texts(msgs), took)
    decreases |took|
  {
    took == []
    || var n := |took| - 1;
       var texts, before, r := Texts(msgs), took[..n], rounds[n];
       assert forall k :: 0 <= k < n ==> before[k] == took[k];
       var sends := TextSent(lib, rounds, texts, before, vars, n).Some?;
       && TookFirst(lib, rounds, msgs, before, from, vars, id)
       && match took[n]
          case None => IsEmpty(r, sends)
          case Some(j) =>
            !IsEmpty(r, sends)
            && FirstTaken(lib, r, sends, OwnId(lib, rounds, texts, before, vars, id, n), msgs, After(before, from), j)
  }

  /** Between two rounds: what was taken determines the variables, and with them the messages sent. */
  predicate SentSoFar(lib: Lib, rounds: seq<Round>, took: seq<Option<nat>>, from: nat, vars: Vars, base: seq<M.Message>,
                      id: Uint32, net: Net, p: Progress)
  {
    && |took| <= |rounds| && TookInRange(Texts(net.msgs), took) && net.pos <= |net.msgs|
    && TookFirst(lib, rounds, net.msgs, took, from, vars, id) && net.pos == After(took, from)
    && p.vars == VarsSeen(lib, rounds, Texts(net.msgs), took, vars, |took|)
    && p.lastRecv == LastTaken(Texts(net.msgs), took)
    && var before := MessagesSent(lib, rounds, Texts(net.msgs), took, vars, id, |took|);
       net.sent == base + before && net.nextID == (id + |before|) % 4294967296
  }

  /** At the end: the rounds begun have handed over their messages. A round that fails to send or finds no message
      has taken none. */
  predicate SentInAll(lib: Lib, rounds: seq<Round>, took: seq<Option<nat>>, from: nat, vars: Vars, base: seq<M.Message>,
                      id: Uint32, net: Net, report: Report)
  {
    var begun, texts := Begun(report, |rounds|), Texts(net.msgs);
    && begun <= |rounds| && TookInRange(texts, took)
    && |took| == (if report.phase.Sending? || report.phase.Receiving? then begun - 1 else begun)
    && TookFirst(lib, rounds, net.msgs, took, from, vars, id)
    && After(took, from) <= |net.msgs|
    && EndsAs(report, HowItEnds(net), Texts(net.msgs[After(took, from)..]), LastTaken(texts, took))
    && (report.phase.Receiving? ==>
          var r := rounds[begun - 1];
          var sends := TextSent(lib, rounds, texts, took, vars, begun - 1).Some?;
          && NoneTaken(lib, r, sends, OwnId(lib, rounds, texts, took, vars, id, begun - 1),
                       net.msgs[After(took, from)..]))
    && report.roundVars == VarsSeen(lib, rounds, texts, took, vars, |took|)
    && net.sent == base + MessagesSent(lib, rounds, texts, took, vars, id, begun)
  }

  lemma TookOneMore(lib: Lib, rounds: seq<Round>, msgs: seq<M.Message>, took: seq<Option<nat>>, from: nat, vars: Vars,
                    id: Uint32, j: Option<nat>)
    requires |took| < |rounds| && TookInRange(Texts(msgs), took) && TookFirst(lib, rounds, msgs, took, from, vars, id)
    requires
      var r, n := rounds[|took|], |took|;
      var sends := TextSent(lib, rounds, Texts(msgs), took, vars, n).Some?;
      match j
      case None => IsEmpty(r, sends)
      case Some(j) =>
        !IsEmpty(r, sends)
        && FirstTaken(lib, r, sends, OwnId(lib, rounds, Texts(msgs), took, vars, id, n), msgs, After(took, from), j)
    requires TookInRange(Texts(msgs), took + [j])
    ensures TookFirst(lib, rounds, msgs, took + [j], from, vars, id)
    ensures After(took + [j], from) == match j case None => After(took, from) case Some(j) => j + 1
  {
    hide FirstTaken, OwnId, TextSent, Texts, IsEmpty;
    var all := took + [j];
    assert all[..|took|] == took && all[|took|] == j;
  }

  lemma OneRoundSends(lib: Lib, rounds: seq<Round>, took: seq<Option<nat>>, from: nat, vars: Vars,
                      base: seq<M.Message>, id: Uint32, net: Net, p: Progress)
    returns (all: seq<Option<nat>>)
    requires |took| < |rounds| && SentSoFar(lib, rounds, took, from, vars, base, id, net, p)
    ensures
      var (net', p', stop) := OneRound(lib, rounds[|took|], |took| + 1, net, p);
      if stop == None then |all| == |took| + 1 && SentSoFar(lib, rounds, all, from, vars, base, id, net', p')
      else SentInAll(lib, rounds, all, from, vars, base, id, net', stop.value)
  {
    hide OneRound, Render, VarsSeen, TextsSent, MessagesSent, WithMessage, Common.Captured, Texts, ToBytes, FromBytes,
         TookFirst, After, FirstTaken, NoneTaken, IsEmpty, LastTaken, Truncate, TraceAnswer, EndsAs;
    var i, texts := |took|, Texts(net.msgs);
    var r := rounds[i];
    TextsLength(net.msgs);
    OneRoundMessage(lib, r, i + 1, net, p);
    OneRoundKeepsEnd(lib, r, i + 1, net, p);
    OneRoundEnds(lib, r, i + 1, net, p);
    var j := OneRoundOutcome(lib, r, i + 1, net, p);
    EndsEarly(OneRound(lib, r, i + 1, net, p).2, HowItEnds(net), Texts(net.msgs[net.pos..]), LastTaken(texts, took));
    if j.Some? { TextAt(net.msgs, j.value); }
    RoundTook(lib, rounds, texts, took, j, vars);
    MessageAdded(base, MessagesSent(lib, rounds, texts, took, vars, id, i), id, net.nextID, r,
                 TextSent(lib, rounds, texts, took, vars, i));
    MessagesNext(lib, rounds, texts, took, j, vars, id);
    var (net', p', stop) := OneRound(lib, r, i + 1, net, p);
    all := took;
    if stop == None || stop.value.phase.Asserting? {
      all := took + [j];
      TookOneMore(lib, rounds, net.msgs, took, from, vars, id, j);
      LastTakenNext(texts, took, j);
    }
  }

  lemma MessagesNext(lib: Lib, rounds: seq<Round>, texts: seq<string>, took: seq<Option<nat>>, last: Option<nat>,
                     vars: Vars, id: Uint32)
    requires |took| < |rounds| && TookInRange(texts, took + [last]) && TookInRange(texts, took)
    ensures
      var i := |took|;
      MessagesSent(lib, rounds, texts, took + [last], vars, id, i + 1)
      == MessagesSent(lib, rounds, texts, took, vars, id, i + 1)
      == WithMessage(MessagesSent(lib, rounds, texts, took, vars, id, i), id, rounds[i],
                     TextSent(lib, rounds, texts, took, vars, i))
  {
    hide WithMessage, TextSent;
    MessagesSentExtends(lib, rounds, texts, took, last, vars, id, |took| + 1);
  }

  lemma {:induction false} RunSends(lib: Lib, rounds: seq<Round>, net: Net, p: Progress, took: seq<Option<nat>>,
                                    from: nat, vars: Vars, base: seq<M.Message>, id: Uint32)
    returns (all: seq<Option<nat>>)
    requires net.pos <= |net.msgs| && |took| <= |rounds|
    requires SentSoFar(lib, rounds, took, from, vars, base, id, net, p)
    ensures
      var (net', report) := Run(lib, rounds, |took|, net, p);
      SentInAll(lib, rounds, all, from, vars, base, id, net', report)
    decreases |rounds| - |took|
  {
    hide OneRound, SentSoFar, SentInAll;
    if |took| == |rounds| {
      all := took;
      AllRoundsSent(lib, rounds, took, from, vars, base, id, net, p);
    } else {
      all := OneRoundSends(lib, rounds, took, from, vars, base, id, net, p);
      OneRoundKeepsEnd(lib, rounds[|took|], |took| + 1, net, p);
      var (net', p', stop) := OneRound(lib, rounds[|took|], |took| + 1, net, p);
      if stop == None {
        all := RunSends(lib, rounds, net', p', all, from, vars, base, id);
      }
    }
  }

  lemma AllRoundsSent(lib: Lib, rounds: seq<Round>, took: seq<Option<nat>>, from: nat, vars: Vars,
                      base: seq<M.Message>, id: Uint32, net: Net, p: Progress)
    requires |took| == |rounds| && SentSoFar(lib, rounds, took, from, vars, base, id, net, p)
    ensures SentInAll(lib, rounds, took, from, vars, base, id, net, Finished(p))
  {
    hide VarsSeen, MessagesSent, Texts, TookFirst, After, LastTaken, Truncate;
  }

  /** Over every run, failed ones included: each round that is not empty takes the first message it takes after the
      previous one's; the messages sent are those of the rounds begun, in order, of the right type, numbered on from the
      counter, each with the text rendered with the variables captured from the messages taken before it. */
  lemma StepSends(lib: Lib, rounds: seq<Round>, net: Net, vars: Vars) returns (took: seq<Option<nat>>)
    requires net.pos <= |net.msgs|
    ensures
      var (net', report) := Run(lib, rounds, 0, net, Start(vars));
      && net'.msgs == net.msgs && net'.end == net.end && net'.expired == net.expired
      && SentInAll(lib, rounds, took, net.pos, vars, net.sent, net.nextID, net', report)
  {
    hide Run, Texts, SentInAll;
    assert net.sent + [] == net.sent;
    took := RunSends(lib, rounds, net, Start(vars), [], net.pos, vars, net.sent, net.nextID);
    RunKeepsMessages(lib, rounds, 0, net, Start(vars));
  }

  lemma {:induction false} RunKeepsMessages(lib: Lib, rounds: seq<Round>, i: nat, net: Net, p: Progress)
    requires i <= |rounds| && net.pos <= |net.msgs|
    ensures
      var (net', report) := Run(lib, rounds, i, net, p);
      net'.msgs == net.msgs && net'.end == net.end && net'.expired == net.expired
    decreases |rounds| - i
  {
    hide OneRound;
    if i < |rounds| {
      OneRoundKeepsEnd(lib, rounds[i], i + 1, net, p);
      var (net', p', stop) := OneRound(lib, rounds[i], i + 1, net, p);
      if stop == None { RunKeepsMessages(lib, rounds, i + 1, net', p'); }
    }
  }
}
