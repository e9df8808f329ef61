/** The inner layer: flag byte, message id, route, body. */
module MessageCodec {
  import opened Bits
  import opened Wrappers
  import VarInt

  const REQUEST := 0
  const NOTIFY := 1
  const RESPONSE := 2
  const PUSH := 3

  datatype Message = Message(id: Uint32, typ: int, route: seq<Byte>, body: seq<Byte>)

  predicate HasID(typ: int) {
    typ == REQUEST || typ == RESPONSE
  }

  predicate HasRoute(typ: int) {
    typ == REQUEST || typ == NOTIFY || typ == PUSH
  }

  // ---------- The layout ----------

  function IdField(m: Message): seq<Byte> {
    if HasID(m.typ) then VarInt.Bytes(m.id) else []
  }

  /** The length byte keeps only the low eight bits of the route length. */
  function RouteField(m: Message): seq<Byte> {
    if HasRoute(m.typ) then [|m.route| % 256] + m.route else []
  }

  function Encoding(m: Message): seq<Byte> {
    [m.typ * 2 % 256] + IdField(m) + RouteField(m) + m.body
  }

  /** What the encoder does not send, the receiver cannot see. */
  function Visible(m: Message): Message {
    Message(if HasID(m.typ) then m.id else 0, m.typ, if HasRoute(m.typ) then m.route else [], m.body)
  }

  /** The messages the format can carry. */
  predicate Encodable(m: Message) {
    && 0 <= m.typ < 8
    && (HasRoute(m.typ) ==> |m.route| <= 255)
  }

  /** The id part of an input after the flag byte: its value and length. */
  function ReadId(typ: int, s: seq<Byte>): (r: Option<(Uint32, nat)>)
    ensures r.Some? ==> r.value.1 <= |s|
  {
    if HasID(typ) then VarInt.Read(s) else Some((0, 0))
  }

  /** The route part: its value and length. A compressed route is two bytes that are skipped. */
  function ReadRoute(typ: int, compressed: bool, s: seq<Byte>): (r: Option<(seq<Byte>, nat)>)
    ensures r.Some? ==> r.value.1 <= |s|
  {
    if !HasRoute(typ) then Some(([], 0))
    else if compressed then (if |s| < 2 then None else Some(([], 2)))
    else if |s| == 0 then None
    else
      var n: nat := s[0];
      if |s| < 1 + n then None else Some((s[1..1 + n], 1 + n))
  }

  function FlagType(flag: Byte): int {
    flag / 2 % 8
  }

  /** The message an input holds; None where the decoder runs off the end of the data. */
  function Decoding(s: seq<Byte>): Option<Message> {
    if s == [] then None else DecodeRest(FlagType(s[0]), s[0] % 2 == 1, s[1..])
  }

  /** What follows the flag byte. */
  function DecodeRest(typ: int, compressed: bool, s: seq<Byte>): Option<Message> {
    match ReadId(typ, s)
    case None => None
    case Some((id, n)) =>
      match ReadRoute(typ, compressed, s[n..])
      case None => None
      case Some((route, k)) => Some(Message(id, typ, route, s[n..][k..]))
  }

  // ---------- The source's two procedures ----------

  method EncodeMessage(id: Uint32, typ: int, route: seq<Byte>, body: seq<Byte>) returns (buf: array<Byte>)
    ensures fresh(buf)
    ensures buf[..] == Encoding(Message(id, typ, route, body))
  {
    hide VarInt.Bytes;
    ghost var m := Message(id, typ, route, body);
    var idBytes := 0;
    if HasID(typ) {
      idBytes := VarInt.VarIntLen(id);
    }
    var routeLen := 0;
    if HasRoute(typ) {
      routeLen := 1 + |route|;
    }
    buf := new Byte[1 + idBytes + routeLen + |body|];
    var offset := 0;
    buf[offset] := typ * 2 % 256;
    offset := offset + 1;
    assert buf[..offset] == [typ * 2 % 256];
    if HasID(typ) {
      offset := VarInt.EncodeVarInt(id, buf, offset);
    }
    ghost var head := [typ * 2 % 256] + IdField(m);
    assert buf[..offset] == head;
    if HasRoute(typ) {
      WriteRoute(buf, offset, route);
      offset := offset + 1 + |route|;
    }
    assert buf[..offset] == head + RouteField(m);
    CopyInto(buf, offset, body);
    assert buf[..] == buf[..offset + |body|];
  }

  /** The route part of EncodeMessage. */
  method WriteRoute(buf: array<Byte>, offset: nat, route: seq<Byte>)
    requires offset + 1 + |route| <= buf.Length
    modifies buf
    ensures buf[..offset + 1 + |route|] == old(buf[..offset]) + ([|route| % 256] + route)
  {
    ghost var before := buf[..offset];
    buf[offset] := |route| % 256;
    assert buf[..offset + 1] == before + [|route| % 256];
    CopyInto(buf, offset + 1, route);
    assert before + [|route| % 256] + route == before + ([|route| % 256] + route);
  }

  /** The route part of DecodeMessage: its value, and the offset after it, which may lie past the end. */
  method DecodeRoute(data: array<Byte>, at: nat, typ: int, compressRoute: Byte)
    returns (r: Option<(seq<Byte>, nat)>)
    requires at <= data.Length
    ensures
      match ReadRoute(typ, compressRoute != 0, data[at..])
      case None => r == None || r.value.1 > data.Length
      case Some((route, k)) => r == Some((route, at + k))
  {
    var offset := at;
    var route := [];
    if HasRoute(typ) {
      if compressRoute != 0 {
        offset := offset + 2;
      } else {
        if offset >= data.Length {
          return None;
        }
        var routeLen: nat := data[offset];
        offset := offset + 1;
        if offset + routeLen > data.Length {
          return None;
        }
        route := data[offset..offset + routeLen];
        SliceOfSlice(data[..], at, 1, 1 + routeLen);
        assert data[at..] == data[..][at..];
        offset := offset + routeLen;
      }
    }
    return Some((route, offset));
  }

  /** None stands for the index panic of a truncated message. */
  method DecodeMessage(data: array<Byte>) returns (r: Option<Message>)
    ensures r == Decoding(data[..])
  {
    if data.Length == 0 {
      return None;
    }
    var offset := 0;
    var flag := data[offset];
    offset := offset + 1;
    var typ := flag / 2 % 8;
    var compressRoute := flag % 2;

    var id: Uint32 := 0;
    ghost var s := data[..];
    assert s[1..] == data[1..];
    if HasID(typ) {
      var d := VarInt.DecodeVarInt(data, offset);
      if d == None {
        return None;
      }
      id, offset := d.value.0, d.value.1;
    }
    assert ReadId(typ, s[1..]) == Some((id, offset - 1));
    assert s[1..][offset - 1..] == data[offset..];

    var route := DecodeRoute(data, offset, typ, compressRoute);
    if route == None || route.value.1 > data.Length {
      return None;
    }
    ghost var k := route.value.1 - offset;
    assert data[offset..][k..] == data[offset + k..];
    offset := route.value.1;
    return Some(Message(id, typ, route.value.0, data[offset..]));
  }

  // ---------- Encoder and decoder together ----------

  /** Decoding reads the parts one after the other. */
  lemma DecodeParts(flag: Byte, id: seq<Byte>, route: seq<Byte>, body: seq<Byte>, v: Uint32, name: seq<Byte>)
    requires ReadId(FlagType(flag), id + (route + body)) == Some((v, |id|))
    requires ReadRoute(FlagType(flag), flag % 2 == 1, route + body) == Some((name, |route|))
    ensures Decoding([flag] + id + route + body) == Some(Message(v, FlagType(flag), name, body))
  {
    hide ReadId, ReadRoute, FlagType;
    var s := [flag] + id + route + body;
    assert s[1..] == id + (route + body);
    assert (id + (route + body))[|id|..] == route + body;
    assert (route + body)[|route|..] == body;
  }

  lemma ReadEncodedId(m: Message, tail: seq<Byte>)
    ensures ReadId(m.typ, IdField(m) + tail) == Some((Visible(m).id, |IdField(m)|))
  {
    if HasID(m.typ) {
      VarInt.DecodeEncode(m.id, tail);
    }
  }

  lemma ReadEncodedRoute(m: Message)
    requires Encodable(m)
    ensures ReadRoute(m.typ, false, RouteField(m) + m.body) == Some((Visible(m).route, |RouteField(m)|))
  {
    var s := RouteField(m) + m.body;
    if HasRoute(m.typ) {
      assert s[0] == |m.route|;
      assert s[1..1 + |m.route|] == m.route;
    }
  }

  lemma DecodeEncoded(m: Message)
    requires Encodable(m)
    ensures Decoding(Encoding(m)) == Some(Visible(m))
  {
    var flag: Byte := m.typ * 2;
    assert FlagType(flag) == m.typ && m.typ * 2 % 256 == flag && flag % 2 == 0;
    ReadEncodedId(m, RouteField(m) + m.body);
    ReadEncodedRoute(m);
    DecodeParts(flag, IdField(m), RouteField(m), m.body, Visible(m).id, Visible(m).route);
  }

  lemma DecodedShape(s: seq<Byte>)
    requires Decoding(s).Some?
    ensures 0 <= Decoding(s).value.typ < 8
    ensures |Decoding(s).value.route| <= 255
  {
  }

  /** A message survives the trip, as far as it is sent at all, exactly when the format can carry it. */
  lemma RoundTripIffEncodable(m: Message)
    ensures Decoding(Encoding(m)) == Some(Visible(m)) <==> Encodable(m)
  {
    if Encodable(m) {
      DecodeEncoded(m);
    }
    if Decoding(Encoding(m)) == Some(Visible(m)) {
      DecodedShape(Encoding(m));
    }
  }

  /** The bytes that a decoded input spends on the id and on the route. */
  function Fields(s: seq<Byte>): (r: (seq<Byte>, seq<Byte>))
    requires Decoding(s).Some?
  {
    var typ := FlagType(s[0]);
    var n := ReadId(typ, s[1..]).value.1;
    var k := ReadRoute(typ, s[0] % 2 == 1, s[1..][n..]).value.1;
    (s[1..][..n], s[1..][n..][..k])
  }

  /** Flag, id bytes, route field and body cover the input exactly, and each part means its field. */
  lemma DecodePartitions(s: seq<Byte>)
    requires Decoding(s).Some?
    ensures
      var m := Decoding(s).value;
      var (id, route) := Fields(s);
      && s == [s[0]] + id + route + m.body
      && (if HasID(m.typ) then VarInt.Terminated(id) && VarInt.Value(id) % TWO_32 == m.id else id == [] && m.id == 0)
      && (if !HasRoute(m.typ) then route == [] && m.route == []
          else if s[0] % 2 == 1 then |route| == 2 && m.route == []
          else route == [|m.route|] + m.route)
  {
    hide ReadId, ReadRoute, FlagType, HasID, HasRoute, VarInt.Terminated, VarInt.Value;
    var typ, rest := FlagType(s[0]), s[1..];
    var (id, n) := ReadId(typ, rest).value;
    var (route, k) := ReadRoute(typ, s[0] % 2 == 1, rest[n..]).value;
    IdBytes(typ, rest);
    RouteBytes(typ, s[0] % 2 == 1, rest[n..]);
    ThreeParts(s, n, k);
  }

  lemma ThreeParts(s: seq<Byte>, n: nat, k: nat)
    requires s != [] && n <= |s| - 1 && k <= |s| - 1 - n
    ensures s == [s[0]] + s[1..][..n] + s[1..][n..][..k] + s[1..][n..][k..]
  {
  }

  lemma IdBytes(typ: int, s: seq<Byte>)
    requires ReadId(typ, s).Some?
    ensures
      var (id, n) := ReadId(typ, s).value;
      if HasID(typ) then VarInt.Terminated(s[..n]) && VarInt.Value(s[..n]) % TWO_32 == id else s[..n] == [] && id == 0
  {
  }

  lemma RouteBytes(typ: int, compressed: bool, s: seq<Byte>)
    requires ReadRoute(typ, compressed, s).Some?
    ensures
      var (route, k) := ReadRoute(typ, compressed, s).value;
      if !HasRoute(typ) then s[..k] == [] && route == []
      else if compressed then k == 2 && route == []
      else |route| <= 255 && s[..k] == [|route|] + route
  {
  }

  /** The inputs the encoder could have written. */
  predicate CanonicalInput(s: seq<Byte>)
    requires Decoding(s).Some?
  {
    && s[0] % 2 == 0
    && s[0] < 16
    && (HasID(FlagType(s[0])) ==> VarInt.Canonical(Fields(s).0))
  }

  /** Encoding a decoded message gives back the input exactly for an even flag below 16 and a canonical id. */
  lemma ReencodeIffCanonical(s: seq<Byte>)
    requires Decoding(s).Some?
    ensures Encoding(Decoding(s).value) == s <==> CanonicalInput(s)
  {
    hide HasID, HasRoute, Encoding, ReadId, ReadRoute, RouteField;
    var m := Decoding(s).value;
    var (id, route) := Fields(s);
    DecodePartitions(s);
    if s[0] % 2 == 0 {
      EvenFlagRoute(s);
    }
    assert m.typ == FlagType(s[0]);
    ReencodeParts(m, s[0], id, route);
  }

  lemma EvenFlagRoute(s: seq<Byte>)
    requires Decoding(s).Some? && s[0] % 2 == 0
    ensures Fields(s).1 == RouteField(Decoding(s).value)
  {
    DecodePartitions(s);
    DecodedShape(s);
  }

  lemma ReencodeParts(m: Message, flag: Byte, id: seq<Byte>, route: seq<Byte>)
    requires m.typ == FlagType(flag)
    requires
      if HasID(m.typ) then VarInt.Terminated(id) && VarInt.Value(id) % TWO_32 == m.id
      else id == [] && m.id == 0
    requires flag % 2 == 0 ==> route == RouteField(m)
    ensures
      Encoding(m) == [flag] + id + route + m.body
      <==> flag % 2 == 0 && flag < 16 && (HasID(m.typ) ==> VarInt.Canonical(id))
  {
    if HasID(m.typ) {
      VarInt.ReencodeIffCanonical(id);
    }
    assert m.typ * 2 % 256 == flag <==> flag % 2 == 0 && flag < 16;
    assert Encoding(m)[0] == m.typ * 2 % 256;
    if m.typ * 2 % 256 == flag {
      SamePartsOnly(flag, IdField(m), id, route, m.body);
    }
  }

  lemma SamePartsOnly(a: Byte, x: seq<Byte>, y: seq<Byte>, route: seq<Byte>, body: seq<Byte>)
    ensures [a] + x + route + body == [a] + y + route + body <==> x == y
  {
    var p, q := [a] + x + route + body, [a] + y + route + body;
    if p == q {
      assert |x| == |y|;
      assert x == p[1..1 + |x|] && y == q[1..1 + |y|];
    }
  }

  /** Every input is at least as long as the encoding of the message it holds. */
  lemma EncodingIsShortest(s: seq<Byte>)
    requires Decoding(s).Some?
    ensures |Encoding(Decoding(s).value)| <= |s|
  {
    var m := Decoding(s).value;
    DecodePartitions(s);
    if HasID(m.typ) {
      var id := Fields(s).0;
      VarInt.TerminatorIsFirst(id, |id| - 1);
      assert id[..|id|] == id;
      VarInt.EncoderIsShortest(id, m.id);
    }
  }

  // ---------- The format in numbers ----------

  /** The encoding in terms of its parts. */
  lemma EncodeParts(m: Message, flag: Byte, id: seq<Byte>, route: seq<Byte>)
    requires m.typ * 2 == flag && id == IdField(m) && route == RouteField(m)
    ensures Encoding(m) == [flag] + id + route + m.body
  {
  }

  lemma RouteReads(route: seq<Byte>, body: seq<Byte>)
    requires |route| <= 255
    ensures forall typ :: typ in {0, 1, 3} ==>
              ReadRoute(typ, false, [|route|] + route + body) == Some((route, 1 + |route|))
  {
    var s := [|route|] + route + body;
    assert s[0] == |route| && s[1..1 + |route|] == route;
  }

  /** Types without an id: the flag, a length-prefixed route, the body. */
  lemma RoutedFormat(flag: Byte, m: Message)
    requires (flag == 6 && m.typ == 3) || (flag == 2 && m.typ == 1)
    requires |m.route| <= 255
    ensures Encoding(m) == [flag, |m.route|] + m.route + m.body
    ensures Decoding([flag, |m.route|] + m.route + m.body) == Some(Message(0, m.typ, m.route, m.body))
  {
    hide Decoding, DecodeRest, Encoding, ReadRoute, VarInt.Bytes;
    var route, body := m.route, m.body;
    var field := [|route|] + route;
    assert RouteField(m) == field;
    EncodeParts(m, flag, [], field);
    RouteReads(route, body);
    assert [] + (field + body) == field + body;
    DecodeParts(flag, [], field, body, 0, route);
    assert [flag] + [] + field + body == [flag, |route|] + route + body;
  }

  /** Type 3, a push: flag 6, length-prefixed route, body. */
  lemma PushFormat(id: Uint32, route: seq<Byte>, body: seq<Byte>)
    requires |route| <= 255
    ensures Encoding(Message(id, 3, route, body)) == [6, |route|] + route + body
    ensures Decoding([6, |route|] + route + body) == Some(Message(0, 3, route, body))
  {
    hide Decoding, Encoding;
    RoutedFormat(6, Message(id, 3, route, body));
  }

  /** Type 1, a notify: flag 2, length-prefixed route, body. */
  lemma NotifyFormat(id: Uint32, route: seq<Byte>, body: seq<Byte>)
    requires |route| <= 255
    ensures Encoding(Message(id, 1, route, body)) == [2, |route|] + route + body
    ensures Decoding([2, |route|] + route + body) == Some(Message(0, 1, route, body))
  {
    hide Decoding, Encoding;
    RoutedFormat(2, Message(id, 1, route, body));
  }

  /** Type 0, a request: flag 0, the id's bytes, length-prefixed route, body. */
  lemma RequestFormat(id: Uint32, route: seq<Byte>, body: seq<Byte>)
    requires |route| <= 255
    ensures Encoding(Message(id, 0, route, body)) == [0] + VarInt.Bytes(id) + [|route|] + route + body
    ensures Decoding([0] + VarInt.Bytes(id) + [|route|] + route + body) == Some(Message(id, 0, route, body))
  {
    hide Decoding, DecodeRest, Encoding, ReadRoute, VarInt.Bytes;
    var m, b, field := Message(id, 0, route, body), VarInt.Bytes(id), [|route|] + route;
    assert RouteField(m) == field && IdField(m) == b;
    EncodeParts(m, 0, b, field);
    VarInt.DecodeEncode(id, field + body);
    RouteReads(route, body);
    DecodeParts(0, b, field, body, id, route);
    assert [0] + b + field + body == [0] + b + [|route|] + route + body;
  }

  /** Type 2, a response: flag 4, the id's bytes, body. */
  lemma ResponseFormat(id: Uint32, route: seq<Byte>, body: seq<Byte>)
    ensures Encoding(Message(id, 2, route, body)) == [4] + VarInt.Bytes(id) + body
    ensures Decoding([4] + VarInt.Bytes(id) + body) == Some(Message(id, 2, [], body))
    ensures Decoding([5] + VarInt.Bytes(id) + body) == Some(Message(id, 2, [], body))
  {
    hide Decoding, DecodeRest, Encoding, VarInt.Bytes;
    var m, b := Message(id, 2, route, body), VarInt.Bytes(id);
    assert RouteField(m) == [] && IdField(m) == b;
    EncodeParts(m, 4, b, []);
    VarInt.DecodeEncode(id, body);
    assert [] + body == body;
    DecodeParts(4, b, [], body, id, []);
    DecodeParts(5, b, [], body, id, []);
    assert [4] + b + [] + body == [4] + b + body && [5] + b + [] + body == [5] + b + body;
  }

  /** A compressed route: two bytes are skipped and the route is empty. */
  lemma CompressedFormat(id: Uint32, a: Byte, b: Byte, body: seq<Byte>)
    ensures Decoding([7, a, b] + body) == Some(Message(0, 3, [], body))
    ensures Decoding([3, a, b] + body) == Some(Message(0, 1, [], body))
    ensures Decoding([1] + VarInt.Bytes(id) + [a, b] + body) == Some(Message(id, 0, [], body))
  {
    hide Decoding, DecodeRest, VarInt.Bytes;
    var bytes, code := VarInt.Bytes(id), [a, b];
    assert [] + (code + body) == code + body;
    DecodeParts(7, [], code, body, 0, []);
    DecodeParts(3, [], code, body, 0, []);
    assert [7] + [] + code + body == [7, a, b] + body && [3] + [] + code + body == [3, a, b] + body;
    VarInt.DecodeEncode(id, code + body);
    DecodeParts(1, bytes, code, body, id, []);
  }

  /** Types 4 to 7 have neither id nor route. */
  lemma OtherTypes(flag: Byte, s: seq<Byte>)
    requires 8 <= flag < 16
    ensures Decoding([flag] + s) == Some(Message(0, flag / 2, [], s))
  {
    hide Decoding, DecodeRest;
    assert [] + s == s && [flag] + [] + [] + s == [flag] + s;
    DecodeParts(flag, [], [], s, 0, []);
  }

  /** The flag's bits above the lowest four do not matter. */
  lemma HighFlagBits(flag: Byte, s: seq<Byte>)
    ensures Decoding([flag] + s) == Decoding([flag % 16] + s)
  {
    hide DecodeRest;
    assert ([flag] + s)[1..] == s && ([flag % 16] + s)[1..] == s;
    LowBits(flag);
  }

  lemma LowBits(flag: Byte)
    ensures flag / 2 % 8 == flag % 16 / 2 % 8 && flag % 2 == flag % 16 % 2
  {
  }

  /** When the decoder stays in bounds. */
  lemma DecodesIff(flag: Byte, s: seq<Byte>)
    ensures
      Decoding([flag] + s).Some?
      <==>
      var typ := flag / 2 % 8;
      match (if typ == 0 || typ == 2 then VarInt.Terminator(s) else Some(0))
      case None => false
      case Some(n) =>
        var rest := s[n..];
        typ == 0 || typ == 1 || typ == 3 ==>
          if flag % 2 == 1 then |rest| >= 2 else |rest| >= 1 && |rest| >= 1 + rest[0] as int
  {
    assert ([flag] + s)[1..] == s;
  }
}
