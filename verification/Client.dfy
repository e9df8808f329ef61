/** A connected pomelo client: numbered sends, and receives that scan the server's frames. */
module PomeloClient {
  import opened Bits
  import opened Wrappers
  import M = MessageCodec
  import P = PacketCodec
  import TwoLayer

  /** What a frame amounts to for the receiver. */
  datatype Event = Data(body: seq<Byte>) | Kick

  /** What one receive call ends with. Crashed stands for the index panic on a truncated message. */
  datatype Reception = Got(m: M.Message) | Kicked | Crashed | Closed

  function Interpret(e: Event): Reception {
    match e
    case Kick => Kicked
    case Data(body) =>
      match M.Decoding(body)
      case Some(m) => Got(m)
      case None => Crashed
  }

  /** The packets of one frame up to its first data or kick packet: heartbeats met, and that packet. */
  function Scan(ps: seq<P.Packet>): (nat, Option<Event>) {
    if ps == [] then (0, None)
    else if ps[0].typ == P.HEARTBEAT then
      var (n, e) := Scan(ps[1..]);
      (n + 1, e)
    else if ps[0].typ == P.KICK then (0, Some(Kick))
    else if ps[0].typ == P.DATA then (0, Some(Data(ps[0].body)))
    else Scan(ps[1..])
  }

  function FrameEvent(frame: seq<Byte>): Option<Event> {
    Scan(P.Parse(frame)).1
  }

  function FrameEchoes(frame: seq<Byte>): nat {
    Scan(P.Parse(frame)).0
  }

  function Events(frames: seq<seq<Byte>>): seq<Event> {
    if frames == [] then []
    else match FrameEvent(frames[0])
      case None => Events(frames[1..])
      case Some(e) => [e] + Events(frames[1..])
  }

  function Echoes(frames: seq<seq<Byte>>): nat {
    if frames == [] then 0 else FrameEchoes(frames[0]) + Echoes(frames[1..])
  }

  /** The frames left after the first one that ends a receive call. */
  function Rest(frames: seq<seq<Byte>>): seq<seq<Byte>> {
    if frames == [] then []
    else if FrameEvent(frames[0]).Some? then frames[1..]
    else Rest(frames[1..])
  }

  /** The heartbeats one receive call meets before it ends. */
  function EchoesUpTo(frames: seq<seq<Byte>>): nat {
    if frames == [] then 0
    else FrameEchoes(frames[0]) + if FrameEvent(frames[0]).Some? then 0 else EchoesUpTo(frames[1..])
  }

  /** What successive receive calls return before the connection ends. */
  function Inbox(frames: seq<seq<Byte>>): seq<Reception> {
    var es := Events(frames);
    seq(|es|, i requires 0 <= i < |es| => Interpret(es[i]))
  }

  const ECHO: seq<Byte> := P.Encoding(P.Packet(P.HEARTBEAT, []))

  function Repeat(n: nat): seq<seq<Byte>> {
    seq(n, i => ECHO)
  }

  /** The frames written that are not heartbeat echoes. */
  function DataFrames(outbox: seq<seq<Byte>>): seq<seq<Byte>>
    decreases |outbox|
  {
    if outbox == [] then []
    else
      var f := outbox[|outbox| - 1];
      DataFrames(outbox[..|outbox| - 1]) + if f == ECHO then [] else [f]
  }

  /** One message per frame. */
  function Frames(ms: seq<M.Message>): seq<seq<Byte>> {
    seq(|ms|, i requires 0 <= i < |ms| => TwoLayer.Wire([ms[i]]))
  }

  function NextId(id: Uint32): Uint32 {
    (id + 1) % TWO_32
  }

  class Client {
    var nextID: Uint32
    /** The frames the server still sends; after them reading fails. */
    var frames: seq<seq<Byte>>
    /** Every frame handed to the connection for writing. */
    var outbox: seq<seq<Byte>>
    /** How many more sends the connection accepts. */
    var sendsLeft: nat
    ghost var sent: seq<M.Message>

    /** Apart from heartbeat echoes, the frames written are those of the messages sent, in order. */
    ghost predicate Valid()
      reads this
    {
      DataFrames(outbox) == Frames(sent)
    }

    constructor (frames: seq<seq<Byte>>, sendsLeft: nat)
      ensures this.frames == frames && this.sendsLeft == sendsLeft
      ensures nextID == 0 && outbox == [] && sent == [] && Valid()
    {
      this.frames, this.sendsLeft := frames, sendsLeft;
      nextID, outbox, sent := 0, [], [];
    }

    /** The counter wraps at 2^32; the returned id is the one on the wire. */
    method Send(route: seq<Byte>, msgType: int, body: seq<Byte>) returns (id: Uint32, ok: bool)
      requires Valid()
      modifies this
      ensures Valid()
      ensures id == nextID == NextId(old(nextID))
      ensures id == (old(nextID) + 1) % 4294967296
      ensures ok == (old(sendsLeft) > 0)
      ensures sendsLeft == if ok then old(sendsLeft) - 1 else 0
      ensures sent == old(sent) + [M.Message(id, msgType, route, body)]
      ensures outbox == old(outbox) + [TwoLayer.Wire([M.Message(id, msgType, route, body)])]
      ensures frames == old(frames)
    {
      nextID := (nextID + 1) % TWO_32;
      id := nextID;
      var msgData := M.EncodeMessage(id, msgType, route, body);
      var packet := P.EncodePacket(P.DATA, msgData[..]);
      ghost var m := M.Message(id, msgType, route, body);
      WireOfOne(m);
      DataFrameAdded(outbox, sent, m);
      outbox := outbox + [packet[..]];
      ok := sendsLeft > 0;
      sendsLeft := if ok then sendsLeft - 1 else 0;
      sent := sent + [m];
    }

    method Recv() returns (r: Reception)
      requires Valid()
      modifies this
      ensures Valid()
      ensures
        if Inbox(old(frames)) == [] then r == Closed && frames == []
        else r == Inbox(old(frames))[0] && Inbox(frames) == Inbox(old(frames))[1..]
      ensures frames == Rest(old(frames))
      ensures outbox == old(outbox) + Repeat(EchoesUpTo(old(frames)))
      ensures nextID == old(nextID) && sendsLeft == old(sendsLeft) && sent == old(sent)
    {
      hide Scan, Interpret, Repeat, Inbox, FrameEvent, FrameEchoes, DataFrames;
      NothingEchoed();
      ghost var n: nat := 0;
      while frames != []
        invariant nextID == old(nextID) && sendsLeft == old(sendsLeft) && sent == old(sent)
        invariant Events(frames) == Events(old(frames)) && Rest(frames) == Rest(old(frames))
        invariant n + EchoesUpTo(frames) == EchoesUpTo(old(frames))
        invariant outbox == old(outbox) + Repeat(n)
        decreases |frames|
      {
        var frame := frames[0];
        frames := frames[1..];
        EchoesAdd(n, FrameEchoes(frame));
        n := n + FrameEchoes(frame);
        var e := RecvFrame(frame);
        if e != None {
          InboxStarts(frame, frames);
          InboxOf(old(frames), [frame] + frames);
          assert outbox == old(outbox) + Repeat(n);
          EchoesAreNotData(old(outbox), n);
          return e.value;
        }
      }
      InboxOf(old(frames), []);
      EchoesAreNotData(old(outbox), n);
      return Closed;
    }

    method RecvFrame(frame: seq<Byte>) returns (r: Option<Reception>)
      modifies this`outbox
      ensures outbox == old(outbox) + Repeat(FrameEchoes(frame))
      ensures r == match FrameEvent(frame) case None => None case Some(e) => Some(Interpret(e))
    {
      var raw := new Byte[|frame|](i requires 0 <= i < |frame| => frame[i]);
      assert raw[..] == frame;
      var packets := P.DecodePackets(raw);
      r := ScanFrame(packets);
    }

    /** The inner loop of Recv: the packets of one frame. */
    method ScanFrame(packets: seq<P.Packet>) returns (r: Option<Reception>)
      modifies this`outbox
      ensures outbox == old(outbox) + Repeat(Scan(packets).0)
      ensures r == match Scan(packets).1 case None => None case Some(e) => Some(Interpret(e))
    {
      var i := 0;
      ghost var n := 0;
      while i < |packets|
        invariant 0 <= i <= |packets|
        invariant n + Scan(packets[i..]).0 == Scan(packets).0
        invariant outbox == old(outbox) + Repeat(n)
        invariant Scan(packets).1 == Scan(packets[i..]).1
      {
        var packet := packets[i];
        assert packets[i..][1..] == packets[i + 1..];
        if packet.typ == P.HEARTBEAT {
          var echo := P.EncodePacket(P.HEARTBEAT, []);
          outbox := outbox + [echo[..]];
          n := n + 1;
          assert Repeat(n) == Repeat(n - 1) + [ECHO];
        } else if packet.typ == P.KICK {
          return Some(Kicked);
        } else if packet.typ == P.DATA {
          var body := new Byte[|packet.body|](k requires 0 <= k < |packet.body| => packet.body[k]);
          assert body[..] == packet.body;
          var m := M.DecodeMessage(body);
          match m {
            case Some(msg) => return Some(Got(msg));
            case None => return Some(Crashed);
          }
        }
        i := i + 1;
      }
      return None;
    }
  }

  lemma DataFrameAdded(outbox: seq<seq<Byte>>, sent: seq<M.Message>, m: M.Message)
    requires DataFrames(outbox) == Frames(sent)
    ensures DataFrames(outbox + [TwoLayer.Wire([m])]) == Frames(sent + [m])
  {
    WireOfOne(m);
    var f := TwoLayer.Wire([m]);
    assert f[0] == P.DATA && ECHO[0] == P.HEARTBEAT;
    assert (outbox + [f])[..|outbox|] == outbox;
    assert Frames(sent + [m]) == Frames(sent) + [f];
  }

  lemma {:induction false} EchoesAreNotData(outbox: seq<seq<Byte>>, n: nat)
    ensures DataFrames(outbox + Repeat(n)) == DataFrames(outbox)
    decreases n
  {
    if n == 0 {
      assert outbox + Repeat(0) == outbox;
    } else {
      EchoesAreNotData(outbox, n - 1);
      var all := outbox + Repeat(n);
      assert all[..|all| - 1] == outbox + Repeat(n - 1) && all[|all| - 1] == ECHO;
    }
  }

  lemma NothingEchoed()
    ensures Repeat(0) == []
  {
  }

  lemma EchoesAdd(m: nat, n: nat)
    ensures Repeat(m) + Repeat(n) == Repeat(m + n)
  {
  }

  lemma InboxOf(frames: seq<seq<Byte>>, frames': seq<seq<Byte>>)
    requires Events(frames) == Events(frames')
    ensures Inbox(frames) == Inbox(frames')
    ensures frames' == [] ==> Inbox(frames) == []
  {
  }

  lemma InboxStarts(frame: seq<Byte>, rest: seq<seq<Byte>>)
    requires FrameEvent(frame).Some?
    ensures Inbox([frame] + rest) == [Interpret(FrameEvent(frame).value)] + Inbox(rest)
  {
    assert ([frame] + rest)[1..] == rest;
  }

  lemma WireOfOne(m: M.Message)
    ensures TwoLayer.Wire([m]) == P.Encoding(P.Packet(P.DATA, M.Encoding(m)))
  {
    var ps := TwoLayer.DataPackets([m]);
    assert ps == [TwoLayer.DataPacket(m)];
    assert ps[1..] == [];
    assert P.EncodeAll(ps) == P.Encoding(ps[0]) + [];
  }

  /** The peer reads back exactly what was sent, just when the message fits the format. */
  lemma SentIsReadable(m: M.Message)
    ensures TwoLayer.Unwire(TwoLayer.Wire([m])) == Some([M.Visible(m)]) <==> TwoLayer.Sendable(m)
  {
    TwoLayer.RoundTripIffSendable([m]);
    assert TwoLayer.Visible([m]) == [M.Visible(m)];
    assert forall i :: 0 <= i < |[m]| ==> [m][i] == m;
  }

  /** Sendable messages sent one per frame are received in order and as far as they are visible, and nothing is
      written back. */
  lemma {:induction false} MessagesArrive(ms: seq<M.Message>)
    requires forall i :: 0 <= i < |ms| ==> TwoLayer.Sendable(ms[i])
    ensures |Inbox(Frames(ms))| == |ms|
    ensures forall i :: 0 <= i < |ms| ==> Inbox(Frames(ms))[i] == Got(M.Visible(ms[i]))
    ensures Echoes(Frames(ms)) == 0
  {
    hide Scan, Interpret, TwoLayer.Sendable, M.Visible, FrameEvent, FrameEchoes;
    if ms != [] {
      var frame, rest := TwoLayer.Wire([ms[0]]), Frames(ms[1..]);
      MessagesArrive(ms[1..]);
      MessageFrame(ms[0]);
      assert Frames(ms) == [frame] + rest;
      InboxStarts(frame, rest);
      forall i | 0 < i < |ms|
        ensures Inbox(Frames(ms))[i] == Got(M.Visible(ms[i]))
      {
        assert Inbox(Frames(ms))[i] == Inbox(rest)[i - 1];
        assert ms[1..][i - 1] == ms[i];
      }
    }
  }

  lemma MessageFrame(m: M.Message)
    requires TwoLayer.Sendable(m)
    ensures FrameEvent(TwoLayer.Wire([m])).Some? && FrameEchoes(TwoLayer.Wire([m])) == 0
    ensures Interpret(FrameEvent(TwoLayer.Wire([m])).value) == Got(M.Visible(m))
  {
    var packet := P.Packet(P.DATA, M.Encoding(m));
    WireOfOne(m);
    P.ParseEncoded([packet], []);
    assert P.EncodeAll([packet]) + [] == TwoLayer.Wire([m]);
    M.DecodeEncoded(m);
  }

  // ---------- The packets in numbers ----------

  /** Type 3 is a heartbeat, 4 data, 5 a kick; other types are passed over. */
  lemma PacketKinds(typ: Byte, body: seq<Byte>, ps: seq<P.Packet>)
    ensures
      Scan([P.Packet(typ, body)] + ps)
      == if typ == 3 then (Scan(ps).0 + 1, Scan(ps).1)
         else if typ == 4 then (0, Some(Data(body)))
         else if typ == 5 then (0, Some(Kick))
         else Scan(ps)
  {
    assert ([P.Packet(typ, body)] + ps)[1..] == ps;
  }

  /** What a receive call returns for each of them, and the bytes of an echo. */
  lemma OutcomesAndEcho(body: seq<Byte>)
    ensures Interpret(Kick) == Kicked
    ensures Interpret(Data(body))
         == match M.Decoding(body) case Some(m) => Got(m) case None => Crashed
    ensures ECHO == [3, 0, 0, 0]
  {
    P.PacketFormat(3, 0, 0, 0, [], []);
  }

  /** The frame of a message: packet type 4, the length of the message's encoding, the encoding. */
  lemma SentFrame(m: M.Message, a: Byte, b: Byte, c: Byte)
    requires |M.Encoding(m)| == a as int * 65536 + b as int * 256 + c
    ensures TwoLayer.Wire([m]) == [4, a, b, c] + M.Encoding(m)
  {
    WireOfOne(m);
    P.PacketFormat(4, a, b, c, M.Encoding(m), []);
  }

  // ---------- What the receiver keeps of the frame stream ----------

  /** The position of the packet that ends the scan of a frame. */
  predicate EndsAt(ps: seq<P.Packet>, i: nat) {
    && i < |ps|
    && (ps[i].typ == P.DATA || ps[i].typ == P.KICK)
    && forall j :: 0 <= j < i ==> ps[j].typ != P.DATA && ps[j].typ != P.KICK
  }

  function Heartbeats(ps: seq<P.Packet>): nat {
    if ps == [] then 0 else (if ps[0].typ == P.HEARTBEAT then 1 else 0) + Heartbeats(ps[1..])
  }

  /** A receive ends at the first data or kick packet and echoes each heartbeat before it once. */
  lemma {:induction false} ScanStops(ps: seq<P.Packet>, i: nat)
    requires EndsAt(ps, i)
    ensures Scan(ps).0 == Heartbeats(ps[..i])
    ensures Scan(ps).1 == Some(if ps[i].typ == P.KICK then Kick else Data(ps[i].body))
  {
    if i > 0 {
      assert EndsAt(ps[1..], i - 1);
      ScanStops(ps[1..], i - 1);
      assert ps[..i][1..] == ps[1..][..i - 1];
    }
  }

  /** A frame without data or kick packets is read through, each of its heartbeats echoed once. */
  lemma {:induction false} ScanReadsThrough(ps: seq<P.Packet>)
    requires forall i :: 0 <= i < |ps| ==> !EndsAt(ps, i)
    ensures Scan(ps) == (Heartbeats(ps), None)
  {
    if ps != [] {
      assert !EndsAt(ps, 0);
      forall i | 0 <= i < |ps[1..]|
        ensures !EndsAt(ps[1..], i)
      {
        if EndsAt(ps[1..], i) {
          assert forall j :: 1 <= j < i + 1 ==> ps[j] == ps[1..][j - 1];
          assert EndsAt(ps, i + 1);
        }
      }
      ScanReadsThrough(ps[1..]);
    }
  }

  /** All packets of some frames. */
  function Packets(frames: seq<seq<Byte>>): seq<P.Packet> {
    if frames == [] then [] else P.Parse(frames[0]) + Packets(frames[1..])
  }

  /** No data or kick packet: the receiver reads on. */
  predicate Quiet(ps: seq<P.Packet>) {
    forall i :: 0 <= i < |ps| ==> !EndsAt(ps, i)
  }

  lemma {:induction false} HeartbeatsAdd(a: seq<P.Packet>, b: seq<P.Packet>)
    ensures Heartbeats(a + b) == Heartbeats(a) + Heartbeats(b)
  {
    if a == [] {
      assert a + b == b;
    } else {
      assert (a + b)[1..] == a[1..] + b;
      HeartbeatsAdd(a[1..], b);
    }
  }

  /** One receive call: the first data or kick packet of the stream is its outcome, the heartbeats before that packet,
      in its frame and in the frames read through, are the echoes, and only later frames are left. */
  lemma {:induction false} ReceiveEndsAt(frames: seq<seq<Byte>>, k: nat, i: nat)
    requires k < |frames| && EndsAt(P.Parse(frames[k]), i)
    requires forall j :: 0 <= j < k ==> Quiet(P.Parse(frames[j]))
    ensures
      var last := P.Parse(frames[k])[i];
      Inbox(frames) != [] && Inbox(frames)[0] == if last.typ == P.KICK then Kicked else Interpret(Data(last.body))
    ensures EchoesUpTo(frames) == Heartbeats(Packets(frames[..k]) + P.Parse(frames[k])[..i])
    ensures Rest(frames) == frames[k + 1..]
    decreases k
  {
    hide P.Parse;
    var ps := P.Parse(frames[0]);
    if k == 0 {
      ScanStops(ps, i);
      assert Packets(frames[..0]) + ps[..i] == ps[..i];
    } else {
      ScanReadsThrough(ps);
      ReceiveEndsAt(frames[1..], k - 1, i);
      var before := Packets(frames[1..k]);
      assert frames[1..][..k - 1] == frames[1..k] && frames[..k][1..] == frames[1..k];
      assert Packets(frames[..k]) == ps + before;
      var end := P.Parse(frames[k])[..i];
      assert (ps + before) + end == ps + (before + end);
      HeartbeatsAdd(ps, before + end);
    }
  }

  /** Without such a packet everything is read, every heartbeat echoed once, and the connection has ended. */
  lemma {:induction false} ReceiveReadsThrough(frames: seq<seq<Byte>>)
    requires forall j :: 0 <= j < |frames| ==> Quiet(P.Parse(frames[j]))
    ensures Inbox(frames) == [] && Rest(frames) == []
    ensures EchoesUpTo(frames) == Heartbeats(Packets(frames))
  {
    hide P.Parse;
    if frames != [] {
      ScanReadsThrough(P.Parse(frames[0]));
      ReceiveReadsThrough(frames[1..]);
      HeartbeatsAdd(P.Parse(frames[0]), Packets(frames[1..]));
    }
  }

  function DataBodies(ps: seq<P.Packet>): seq<seq<Byte>> {
    if ps == [] then []
    else (if ps[0].typ == P.DATA then [ps[0].body] else []) + DataBodies(ps[1..])
  }

  /** Every data packet the server sends. */
  function AllData(frames: seq<seq<Byte>>): seq<seq<Byte>> {
    if frames == [] then [] else DataBodies(P.Parse(frames[0])) + AllData(frames[1..])
  }

  function Bodies(es: seq<Event>): seq<seq<Byte>> {
    if es == [] then []
    else (if es[0].Data? then [es[0].body] else []) + Bodies(es[1..])
  }

  /** The data packets that receive calls hand on. */
  function Delivered(frames: seq<seq<Byte>>): seq<seq<Byte>> {
    Bodies(Events(frames))
  }

  /** The frames that lose nothing: at most one data packet, and no kick before it. */
  predicate Lossless(ps: seq<P.Packet>) {
    && |DataBodies(ps)| <= 1
    && forall i, j :: 0 <= i < j < |ps| && ps[i].typ == P.KICK ==> ps[j].typ != P.DATA
  }

  function Kept(ps: seq<P.Packet>): seq<seq<Byte>> {
    match Scan(ps).1
    case Some(Data(b)) => [b]
    case _ => []
  }

  lemma {:induction false} NoData(ps: seq<P.Packet>)
    ensures DataBodies(ps) == [] <==> forall j :: 0 <= j < |ps| ==> ps[j].typ != P.DATA
  {
    if ps != [] {
      NoData(ps[1..]);
      if forall j :: 0 <= j < |ps| ==> ps[j].typ != P.DATA {
        assert forall j :: 0 <= j < |ps[1..]| ==> ps[1..][j] == ps[j + 1];
      }
    }
  }

  lemma {:induction false} KeptIsPart(ps: seq<P.Packet>)
    ensures |Kept(ps)| <= |DataBodies(ps)|
    ensures |Kept(ps)| == |DataBodies(ps)| <==> Lossless(ps)
    ensures Lossless(ps) ==> Kept(ps) == DataBodies(ps)
  {
    if ps == [] {
    } else {
      var t := ps[1..];
      NoData(t);
      if ps[0].typ == P.DATA {
        assert Kept(ps) == [ps[0].body];
        if t == [] || DataBodies(t) == [] {
          assert forall j :: 1 <= j < |ps| ==> ps[j] == t[j - 1];
        }
      } else if ps[0].typ == P.KICK {
        assert Kept(ps) == [];
        assert forall j :: 1 <= j < |ps| ==> ps[j] == t[j - 1];
        if DataBodies(t) != [] {
          var j :| 0 <= j < |t| && t[j].typ == P.DATA;
          assert ps[j + 1].typ == P.DATA;
        }
      } else {
        KeptIsPart(t);
        assert Kept(ps) == Kept(t);
        LosslessTail(ps);
      }
    }
  }

  lemma LosslessTail(ps: seq<P.Packet>)
    requires ps != [] && ps[0].typ != P.DATA && ps[0].typ != P.KICK
    ensures Lossless(ps) <==> Lossless(ps[1..])
  {
    var t := ps[1..];
    assert DataBodies(ps) == DataBodies(t);
    if Lossless(ps) {
      forall i, j | 0 <= i < j < |t| && t[i].typ == P.KICK
        ensures t[j].typ != P.DATA
      {
        assert ps[i + 1].typ == P.KICK && ps[j + 1] == t[j];
      }
    }
    if Lossless(t) {
      forall i, j | 0 <= i < j < |ps| && ps[i].typ == P.KICK
        ensures ps[j].typ != P.DATA
      {
        assert t[i - 1] == ps[i] && t[j - 1] == ps[j];
      }
    }
  }

  lemma {:induction false} DeliveredStep(frames: seq<seq<Byte>>)
    requires frames != []
    ensures Delivered(frames) == Kept(P.Parse(frames[0])) + Delivered(frames[1..])
  {
    match FrameEvent(frames[0]) {
      case None =>
      case Some(e) =>
        assert Events(frames)[1..] == Events(frames[1..]);
    }
  }

  predicate AllLossless(frames: seq<seq<Byte>>) {
    forall k :: 0 <= k < |frames| ==> Lossless(P.Parse(frames[k]))
  }

  lemma NothingDelivered()
    ensures Delivered([]) == []
  {
  }

  lemma {:induction false} DeliveredIsPart(frames: seq<seq<Byte>>)
    ensures |Delivered(frames)| <= |AllData(frames)|
    ensures |Delivered(frames)| == |AllData(frames)| ==> AllLossless(frames)
    ensures AllLossless(frames) ==> Delivered(frames) == AllData(frames)
  {
    hide Lossless, Kept, DataBodies, Bodies, Events;
    if frames == [] {
      NothingDelivered();
    } else {
      var ps := P.Parse(frames[0]);
      KeptIsPart(ps);
      DeliveredStep(frames);
      DeliveredIsPart(frames[1..]);
      if |Delivered(frames)| == |AllData(frames)| {
        assert forall k :: 1 <= k < |frames| ==> frames[k] == frames[1..][k - 1];
      }
      if AllLossless(frames) {
        assert forall k :: 0 <= k < |frames[1..]| ==> frames[1..][k] == frames[k + 1];
      }
    }
  }

  /** The receive calls hand on the whole data stream exactly when no frame loses a data packet. */
  lemma WholeStreamIffLossless(frames: seq<seq<Byte>>)
    ensures Delivered(frames) == AllData(frames) <==> AllLossless(frames)
  {
    DeliveredIsPart(frames);
  }
}
