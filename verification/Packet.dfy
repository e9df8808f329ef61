/** The outer layer: packets with a type byte and a 24-bit big-endian length. */
module PacketCodec {
  import opened Bits

  const HEARTBEAT := 3
  const DATA := 4
  const KICK := 5

  const MAX_BODY := 0x100_0000

  datatype Packet = Packet(typ: int, body: seq<Byte>)

  // ---------- The layout ----------

  /** Type and length keep only their low 8 and 24 bits. */
  function Header(p: Packet): seq<Byte> {
    var n := |p.body|;
    [p.typ % 256, n / 0x1_0000 % 256, n / 0x100 % 256, n % 256]
  }

  function Encoding(p: Packet): seq<Byte> {
    Header(p) + p.body
  }

  function EncodeAll(ps: seq<Packet>): seq<Byte> {
    if ps == [] then [] else Encoding(ps[0]) + EncodeAll(ps[1..])
  }

  function Declared(s: seq<Byte>): nat
    requires |s| >= 4
  {
    s[1] as int * 0x1_0000 + s[2] as int * 0x100 + s[3]
  }

  /** No complete packet at the front. */
  predicate Stuck(s: seq<Byte>) {
    |s| < 4 || |s| < 4 + Declared(s)
  }

  function First(s: seq<Byte>): Packet
    requires !Stuck(s)
  {
    Packet(s[0], s[4..4 + Declared(s)])
  }

  function Parse(s: seq<Byte>): seq<Packet> {
    if Stuck(s) then [] else [First(s)] + Parse(s[4 + Declared(s)..])
  }

  function Leftover(s: seq<Byte>): seq<Byte> {
    if Stuck(s) then s else Leftover(s[4 + Declared(s)..])
  }

  predicate WellFormed(p: Packet) {
    0 <= p.typ < 256 && |p.body| < MAX_BODY
  }

  predicate AllWellFormed(ps: seq<Packet>) {
    forall k :: 0 <= k < |ps| ==> WellFormed(ps[k])
  }

  // ---------- The source's two procedures ----------

  method EncodePacket(typ: int, body: seq<Byte>) returns (buf: array<Byte>)
    ensures fresh(buf)
    ensures buf[..] == Encoding(Packet(typ, body))
  {
    var length := |body|;
    buf := new Byte[4 + length];
    buf[0] := typ % 256;
    buf[1] := length / 0x1_0000 % 256;
    buf[2] := length / 0x100 % 256;
    buf[3] := length % 256;
    assert buf[..4] == Header(Packet(typ, body));
    CopyInto(buf, 4, body);
    assert buf[..] == buf[..4 + length];
  }

  method DecodePackets(data: array<Byte>) returns (packets: seq<Packet>)
    ensures packets == Parse(data[..])
  {
    hide Parse, Declared;
    packets := [];
    var offset := 0;
    while offset + 4 <= data.Length
      invariant 0 <= offset <= data.Length
      invariant Parse(data[..]) == packets + Parse(data[offset..])
    {
      ghost var here := data[offset..];
      var typ := data[offset];
      var length := ReadLength(data, offset + 1);
      LengthIsDeclared(data, offset, length);
      offset := offset + 4;
      if offset + length > data.Length {
        NothingParses(here);
        return;
      }
      var body := data[offset..offset + length];
      offset := offset + length;
      Advance(here, typ, body, data[offset..]);
      packets := packets + [Packet(typ, body)];
    }
    NothingParses(data[offset..]);
  }

  lemma LengthIsDeclared(data: array<Byte>, at: nat, length: nat)
    requires at + 4 <= data.Length
    requires length == data[at + 1] as int * 0x1_0000 + data[at + 2] as int * 0x100 + data[at + 3]
    ensures Declared(data[at..]) == length
  {
  }

  method ReadLength(data: array<Byte>, at: nat) returns (length: nat)
    requires at + 3 <= data.Length
    ensures length == data[at] as int * 0x1_0000 + data[at + 1] as int * 0x100 + data[at + 2]
  {
    BigEndian24(data[at], data[at + 1], data[at + 2]);
    var high: nat, middle: nat, low: nat := data[at], data[at + 1], data[at + 2];
    length := Or(Or(high * 0x1_0000, middle * 0x100), low);
  }

  lemma NothingParses(s: seq<Byte>)
    requires Stuck(s)
    ensures Parse(s) == []
  {
  }

  lemma Advance(s: seq<Byte>, typ: Byte, body: seq<Byte>, rest: seq<Byte>)
    requires |s| >= 4 && Declared(s) == |body|
    requires s == [typ] + s[1..4] + body + rest
    ensures Parse(s) == [Packet(typ, body)] + Parse(rest)
  {
    assert s[4..4 + |body|] == body;
    assert s[4 + |body|..] == rest;
  }

  // ---------- The parse is the unique maximal one ----------

  lemma HeaderReads(p: Packet, rest: seq<Byte>)
    requires WellFormed(p)
    ensures !Stuck(Encoding(p) + rest) && First(Encoding(p) + rest) == p
    ensures (Encoding(p) + rest)[4 + |p.body|..] == rest && Declared(Encoding(p) + rest) == |p.body|
  {
    var s := Encoding(p) + rest;
    assert Declared(s) == |p.body|;
    assert s[4..4 + |p.body|] == p.body;
  }

  lemma FirstReencodes(s: seq<Byte>)
    requires !Stuck(s)
    ensures WellFormed(First(s)) && Encoding(First(s)) == s[..4 + Declared(s)]
  {
    var n := Declared(s);
    DigitsOf(s[1], s[2], s[3]);
    assert Header(First(s)) == s[..4];
    assert s[..4 + n] == s[..4] + s[4..4 + n];
  }

  lemma DigitsOf(high: Byte, middle: Byte, low: Byte)
    ensures
      var n := high as int * 0x1_0000 + middle as int * 0x100 + low;
      && 0 <= n < 0x100_0000
      && n / 0x1_0000 % 256 == high && n / 0x100 % 256 == middle && n % 256 == low
  {
  }

  /** Re-encoding the packets gives the input up to a tail that starts no complete packet. */
  lemma {:induction false} ParseCovers(s: seq<Byte>)
    ensures EncodeAll(Parse(s)) + Leftover(s) == s
    ensures Stuck(Leftover(s)) && AllWellFormed(Parse(s))
  {
    hide WellFormed, First, Encoding;
    if !Stuck(s) {
      var t := s[4 + Declared(s)..];
      ParseCovers(t);
      FirstReencodes(s);
      assert Parse(s) == [First(s)] + Parse(t) && Parse(s)[1..] == Parse(t);
      assert EncodeAll(Parse(s)) == Encoding(First(s)) + EncodeAll(Parse(t));
      assert s == s[..4 + Declared(s)] + t;
    }
  }

  lemma {:induction false} ParseEncoded(ps: seq<Packet>, rest: seq<Byte>)
    requires AllWellFormed(ps) && Stuck(rest)
    ensures Parse(EncodeAll(ps) + rest) == ps && Leftover(EncodeAll(ps) + rest) == rest
  {
    if ps == [] {
      assert EncodeAll(ps) + rest == rest;
    } else {
      var tail := EncodeAll(ps[1..]) + rest;
      assert EncodeAll(ps) + rest == Encoding(ps[0]) + tail;
      ParseEncoded(ps[1..], rest);
      HeaderReads(ps[0], tail);
    }
  }

  /** A packet list and a tail are the parse of an input exactly when they spell it and the tail is stuck. */
  lemma {:induction false} ParseIsUniqueMaximal(s: seq<Byte>, ps: seq<Packet>, rest: seq<Byte>)
    ensures
      Parse(s) == ps && Leftover(s) == rest
      <==> AllWellFormed(ps) && EncodeAll(ps) + rest == s && Stuck(rest)
  {
    ParseCovers(s);
    if AllWellFormed(ps) && Stuck(rest) {
      ParseEncoded(ps, rest);
    }
  }

  /** A packet list survives the trip exactly when every type fits a byte and every length fits 24 bits. */
  lemma {:induction false} RoundTripIffWellFormed(ps: seq<Packet>)
    ensures Parse(EncodeAll(ps)) == ps <==> AllWellFormed(ps)
  {
    ParseCovers(EncodeAll(ps));
    if AllWellFormed(ps) {
      ParseEncoded(ps, []);
      assert EncodeAll(ps) + [] == EncodeAll(ps);
    }
  }

  // ---------- The format in numbers ----------

  /** A packet is its type, three length bytes, most significant first, and its body. */
  lemma PacketFormat(typ: Byte, a: Byte, b: Byte, c: Byte, body: seq<Byte>, rest: seq<Byte>)
    requires |body| == a as int * 65536 + b as int * 256 + c
    ensures Encoding(Packet(typ, body)) == [typ, a, b, c] + body
    ensures Parse([typ, a, b, c] + body + rest) == [Packet(typ, body)] + Parse(rest)
  {
    DigitsOf(a, b, c);
    assert Header(Packet(typ, body)) == [typ, a, b, c];
    var s := [typ, a, b, c] + body + rest;
    assert s == [typ] + s[1..4] + body + rest;
    Advance(s, typ, body, rest);
  }

  /** Under four bytes, or with a header declaring more than is there, nothing is read. */
  lemma IncompletePacket(s: seq<Byte>)
    ensures Parse(s) == [] <==> |s| < 4 || |s| < 4 + s[1] as int * 65536 + s[2] as int * 256 + s[3]
  {
  }
}
