/** Messages inside data packets: the whole path from a list of messages to bytes and back. */
module TwoLayer {
  import opened Bits
  import opened Wrappers
  import M = MessageCodec
  import P = PacketCodec

  function DataPacket(m: M.Message): P.Packet {
    P.Packet(P.DATA, M.Encoding(m))
  }

  function DataPackets(ms: seq<M.Message>): seq<P.Packet> {
    seq(|ms|, i requires 0 <= i < |ms| => DataPacket(ms[i]))
  }

  function Wire(ms: seq<M.Message>): seq<Byte> {
    P.EncodeAll(DataPackets(ms))
  }

  /** Decode every packet body; None as soon as one of them is not a message. */
  function Unpack(ps: seq<P.Packet>): Option<seq<M.Message>> {
    if ps == [] then Some([])
    else match M.Decoding(ps[0].body)
      case None => None
      case Some(m) =>
        match Unpack(ps[1..])
        case None => None
        case Some(rest) => Some([m] + rest)
  }

  function Unwire(s: seq<Byte>): Option<seq<M.Message>> {
    Unpack(P.Parse(s))
  }

  function Visible(ms: seq<M.Message>): seq<M.Message> {
    seq(|ms|, i requires 0 <= i < |ms| => M.Visible(ms[i]))
  }

  /** The message fits its own layer and its packet. */
  predicate Sendable(m: M.Message) {
    M.Encodable(m) && |M.Encoding(m)| < P.MAX_BODY
  }

  lemma {:induction false} UnpackPointwise(ps: seq<P.Packet>)
    ensures
      match Unpack(ps)
      case None => exists i :: 0 <= i < |ps| && M.Decoding(ps[i].body) == None
      case Some(ms) => |ms| == |ps| && forall i :: 0 <= i < |ps| ==> M.Decoding(ps[i].body) == Some(ms[i])
  {
    if ps != [] {
      UnpackPointwise(ps[1..]);
      match M.Decoding(ps[0].body) {
        case None =>
        case Some(m) =>
          match Unpack(ps[1..]) {
            case None =>
              var i :| 0 <= i < |ps[1..]| && M.Decoding(ps[1..][i].body) == None;
              assert M.Decoding(ps[i + 1].body) == None;
            case Some(rest) =>
          }
      }
    }
  }

  lemma WireDecodes(ms: seq<M.Message>)
    requires forall i :: 0 <= i < |ms| ==> Sendable(ms[i])
    ensures Unwire(Wire(ms)) == Some(Visible(ms))
  {
    var ps := DataPackets(ms);
    P.RoundTripIffWellFormed(ps);
    assert P.Parse(Wire(ms)) == ps;
    UnpackPointwise(ps);
    forall i | 0 <= i < |ms|
      ensures M.Decoding(ps[i].body) == Some(Visible(ms)[i])
    {
      M.DecodeEncoded(ms[i]);
    }
    assert Unpack(ps).Some? && Unpack(ps).value == Visible(ms);
  }

  /** What arrives as the visible part of a message was sendable. */
  lemma ArrivedIsSendable(m: M.Message, body: seq<Byte>)
    requires M.Decoding(body) == Some(M.Visible(m)) && |body| < P.MAX_BODY
    ensures Sendable(m)
  {
    M.DecodedShape(body);
    M.EncodingIsShortest(body);
    assert M.Encoding(M.Visible(m)) == M.Encoding(m);
  }

  /** A list of messages survives both layers exactly when every message in it is sendable. */
  lemma RoundTripIffSendable(ms: seq<M.Message>)
    ensures Unwire(Wire(ms)) == Some(Visible(ms)) <==> forall i :: 0 <= i < |ms| ==> Sendable(ms[i])
  {
    if forall i :: 0 <= i < |ms| ==> Sendable(ms[i]) {
      WireDecodes(ms);
    }
    if Unwire(Wire(ms)) == Some(Visible(ms)) {
      var got := P.Parse(Wire(ms));
      P.ParseCovers(Wire(ms));
      UnpackPointwise(got);
      forall i | 0 <= i < |ms|
        ensures Sendable(ms[i])
      {
        assert Visible(ms)[i] == M.Visible(ms[i]);
        assert P.WellFormed(got[i]);
        ArrivedIsSendable(ms[i], got[i].body);
      }
    }
  }
}
