/** The variable-length message id: unsigned LEB128 over a 32-bit word. */
module VarInt {
  import opened Bits
  import opened Wrappers

  /** The little-endian base-128 number the low seven bits of the bytes spell. */
  function Value(s: seq<Byte>): nat {
    if s == [] then 0 else s[0] % 128 + 128 * Value(s[1..])
  }

  /** Exactly the last byte has its continuation bit clear. */
  predicate Terminated(s: seq<Byte>) {
    && |s| > 0
    && s[|s| - 1] < 128
    && forall k :: 0 <= k < |s| - 1 ==> s[k] >= 128
  }

  /** How many bytes up to and including the first one below 128. */
  function Terminator(s: seq<Byte>): (r: Option<nat>)
    ensures r.Some? ==> 0 < r.value <= |s| && Terminated(s[..r.value])
    ensures r.None? ==> forall k :: 0 <= k < |s| ==> s[k] >= 128
  {
    if s == [] then None
    else if s[0] < 128 then Some(1)
    else
      match Terminator(s[1..])
      case None => None
      case Some(n) =>
        assert s[..1 + n] == [s[0]] + s[1..][..n];
        Some(1 + n)
  }

  /** The shortest spelling of a number. */
  function Bytes(id: nat): seq<Byte> {
    if id < 128 then [id] else [id % 128 + 128] + Bytes(id / 128)
  }

  /** What the decoder reads at the head of s: the word and the number of bytes consumed. */
  function Read(s: seq<Byte>): (r: Option<(Uint32, nat)>)
  {
    match Terminator(s)
    case None => None
    case Some(n) => Some((Value(s[..n]) % TWO_32, n))
  }

  // ---------- Arithmetic of the base-128 value ----------

  lemma {:induction false} ValueSnoc(s: seq<Byte>, b: Byte)
    ensures Value(s + [b]) == Value(s) + b % 128 * Pow2(7 * |s|)
  {
    if s == [] {
      assert [b][1..] == [];
    } else {
      ValueSnoc(s[1..], b);
      assert (s + [b])[1..] == s[1..] + [b];
      Pow2Add(7, 7 * (|s| - 1));
      assert Pow2(7) == 128;
      var p := Pow2(7 * (|s| - 1));
      assert 128 * (b % 128 * p) == b % 128 * (128 * p);
    }
  }

  lemma {:induction false} ValueBound(s: seq<Byte>)
    ensures Value(s) < Pow2(7 * |s|)
  {
    if s != [] {
      ValueBound(s[1..]);
      Pow2Add(7, 7 * (|s| - 1));
      assert Pow2(7) == 128;
    }
  }

  lemma WordPowers()
    ensures Pow2(0) == 1 && Pow2(7) == 0x80 && Pow2(14) == 0x4000 && Pow2(21) == 0x20_0000
    ensures Pow2(28) == 0x1000_0000 && Pow2(32) == TWO_32
  {
    assert Pow2(4) == 16;
    Pow2Add(3, 4);
    Pow2Add(7, 7);
    Pow2Add(14, 7);
    Pow2Add(21, 7);
    Pow2Add(28, 4);
  }

  /** One turn of the decoding loop: or-ing the shifted group adds it, modulo 2^32. */
  lemma {:induction false} AccumulateGroup(s: seq<Byte>, b: Byte)
    ensures Or(Value(s) % TWO_32, Shl32(b % 128, 7 * |s|)) == Value(s + [b]) % TWO_32
  {
    hide *;
    ValueSnoc(s, b);
    ValueBound(s);
    AddGroup(Value(s), b % 128, |s|);
  }

  lemma {:induction false} AddGroup(v: nat, g: nat, i: nat)
    requires g < 128 && v < Pow2(7 * i)
    ensures Or(v % TWO_32, Shl32(g, 7 * i)) == (v + g * Pow2(7 * i)) % TWO_32
  {
    WordPowers();
    if i >= 5 {
      Pow2Add(32, 7 * i - 32);
      var w := Pow2(7 * i - 32);
      assert g * Pow2(7 * i) == TWO_32 * (g * w) by {
        assert g * (TWO_32 * w) == TWO_32 * (g * w);
      }
      MultipleDropsOut(v, g * w);
      OrOfZero(v % TWO_32);
    } else {
      var q := GroupShift(v, g, i);
      OrDisjoint(v, q, 7 * i);
    }
  }

  lemma MultipleDropsOut(v: nat, k: nat)
    ensures (TWO_32 * k) % TWO_32 == 0
    ensures (v + TWO_32 * k) % TWO_32 == v % TWO_32
  {
  }

  lemma {:induction false} OrOfZero(a: nat)
    ensures Or(a, 0) == a
  {
    if a != 0 { OrOfZero(a / 2); }
  }

  /** Below the fifth byte the shifted group is a multiple of the weight and adds without a carry. */
  lemma GroupShift(v: nat, g: nat, i: nat) returns (q: nat)
    requires g < 128 && i < 5 && v < Pow2(7 * i)
    ensures Shl32(g, 7 * i) == q * Pow2(7 * i)
    ensures v % TWO_32 == v
    ensures (v + g * Pow2(7 * i)) % TWO_32 == v + q * Pow2(7 * i)
  {
    WordPowers();
    hide Pow2;
    q := if i == 4 then g % 16 else g;
    match i
    case 0 => assert Pow2(7 * i) == 1;
    case 1 => assert Pow2(7 * i) == 0x80;
    case 2 => assert Pow2(7 * i) == 0x4000;
    case 3 => assert Pow2(7 * i) == 0x20_0000;
    case _ => TopGroup(v, g);
  }

  /** The fifth group keeps only its low four bits. */
  lemma TopGroup(v: nat, g: nat)
    requires g < 128 && v < 0x1000_0000
    ensures (g * 0x1000_0000) % TWO_32 == g % 16 * 0x1000_0000
    ensures (v + g * 0x1000_0000) % TWO_32 == v + g % 16 * 0x1000_0000
  {
    assert v + g * 0x1000_0000 == v + g % 16 * 0x1000_0000 + TWO_32 * (g / 16);
  }

  // ---------- The three loops of the source ----------

  method VarIntLen(id: Uint32) returns (n: nat)
    ensures n == |Bytes(id)|
    ensures 1 <= n <= 5
    ensures forall k :: 1 <= k <= 5 ==> (n <= k <==> id < Pow2(7 * k))
  {
    n := 0;
    var rest: nat := id;
    while true
      invariant n + |Bytes(rest)| == |Bytes(id)|
      decreases rest
    {
      n := n + 1;
      if rest / 128 == 0 {
        break;
      }
      rest := rest / 128;
    }
    BytesLength(id);
  }

  method EncodeVarInt(id: Uint32, buf: array<Byte>, offset: nat) returns (end: nat)
    requires offset + |Bytes(id)| <= buf.Length
    modifies buf
    ensures end == offset + |Bytes(id)|
    ensures buf[..end] == old(buf[..offset]) + Bytes(id)
    ensures buf[end..] == old(buf[end..])
  {
    end := offset;
    var rest: nat := id;
    ghost var done: seq<Byte> := [];
    while true
      invariant done + Bytes(rest) == Bytes(id)
      invariant end == offset + |done|
      invariant buf[..end] == old(buf[..offset]) + done
      invariant buf[end..] == old(buf[end..])
      decreases rest
    {
      var tmp := rest % 128;
      var next := rest / 128;
      if next != 0 {
        tmp := tmp + 128;
      }
      assert buf[end + 1..] == old(buf[end + 1..]);
      buf[end] := tmp;
      done := done + [tmp];
      end := end + 1;
      assert buf[..end] == buf[..end - 1] + [tmp];
      if next == 0 {
        break;
      }
      rest := next;
    }
  }

  lemma NothingRead()
    ensures Value([]) == 0
  {
  }

  /** None stands for running off the end of the data. */
  method DecodeVarInt(data: array<Byte>, offset: nat) returns (r: Option<(Uint32, nat)>)
    ensures
      r == if offset > data.Length then None
           else match Read(data[offset..])
             case None => None
             case Some((v, n)) => Some((v, offset + n))
  {
    hide Value, Terminator, Or, Shl32;
    NothingRead();
    var id: Uint32 := 0;
    var i := 0;
    var at := offset;
    assert offset <= data.Length ==> data[offset..offset] == [];
    while true
      invariant at == offset + i
      invariant at > data.Length ==> i == 0
      invariant at <= data.Length ==> id == Value(data[offset..at]) % TWO_32
      invariant forall k :: offset <= k < at <= data.Length ==> data[k] >= 128
      decreases data.Length - at
    {
      if at >= data.Length {
        if offset <= data.Length {
          TerminatorIsFirst(data[offset..], |data[offset..]|);
        }
        return None;
      }
      var m := data[at];
      AccumulateGroup(data[offset..at], m);
      assert data[offset..at + 1] == data[offset..at] + [m];
      id := Or(id, Shl32(m % 128, 7 * i));
      at := at + 1;
      i := i + 1;
      if m < 128 {
        break;
      }
    }
    TerminatorIsFirst(data[offset..], i - 1);
    assert data[offset..][..i] == data[offset..at];
    return Some((id, at));
  }

  /** The terminator is found where the continuation bytes stop. */
  lemma {:induction false} TerminatorIsFirst(s: seq<Byte>, k: nat)
    requires k <= |s|
    requires forall j :: 0 <= j < k ==> s[j] >= 128
    ensures k < |s| && s[k] < 128 ==> Terminator(s) == Some(k + 1)
    ensures k == |s| ==> Terminator(s) == None
  {
    if k != 0 {
      TerminatorIsFirst(s[1..], k - 1);
    }
  }

  // ---------- Encoder and decoder together ----------

  /** How many base-128 digits a number needs. */
  lemma {:induction false} BytesFit(id: nat, k: nat)
    requires k >= 1
    ensures |Bytes(id)| <= k <==> id < Pow2(7 * k)
    decreases k
  {
    Pow2Add(7, 7 * (k - 1));
    assert Pow2(7) == 128;
    if id < 128 {
    } else if k == 1 {
      assert |Bytes(id / 128)| >= 1;
    } else {
      BytesFit(id / 128, k - 1);
      assert id / 128 < Pow2(7 * (k - 1)) <==> id < 128 * Pow2(7 * (k - 1));
    }
  }

  lemma BytesLength(id: Uint32)
    ensures 1 <= |Bytes(id)| <= 5
    ensures forall k :: 1 <= k <= 5 ==> (|Bytes(id)| <= k <==> id < Pow2(7 * k))
  {
    forall k | 1 <= k <= 5
      ensures |Bytes(id)| <= k <==> id < Pow2(7 * k)
    {
      BytesFit(id, k);
    }
    WordPowers();
    Pow2Add(28, 7);
    assert Pow2(7 * 5) == 128 * 0x1000_0000;
  }

  lemma {:induction false} BytesSpell(id: nat)
    ensures Terminated(Bytes(id)) && Value(Bytes(id)) == id
    ensures id != 0 ==> Bytes(id)[|Bytes(id)| - 1] != 0
  {
    if id >= 128 {
      BytesSpell(id / 128);
      var tail := Bytes(id / 128);
      assert Bytes(id)[1..] == tail;
      assert forall k :: 1 <= k < |Bytes(id)| ==> Bytes(id)[k] == tail[k - 1];
    }
  }

  /** The round trip at every 32-bit id, with any bytes following. */
  lemma DecodeEncode(id: Uint32, rest: seq<Byte>)
    ensures Read(Bytes(id) + rest) == Some((id, |Bytes(id)|))
  {
    hide Bytes, Value, Terminator;
    BytesSpell(id);
    var s := Bytes(id) + rest;
    TerminatorIsFirst(s, |Bytes(id)| - 1);
    assert s[..|Bytes(id)|] == Bytes(id);
  }

  /** No terminated string that decodes to the id is shorter than the encoder's. */
  lemma EncoderIsShortest(s: seq<Byte>, id: Uint32)
    requires Read(s) == Some((id, |s|))
    ensures |Bytes(id)| <= |s|
  {
    BytesLength(id);
    if |s| <= 4 {
      assert s[..|s|] == s;
      ValueBound(s);
      WordPowers();
      assert Pow2(7 * |s|) <= Pow2(28) by {
        Pow2Add(7 * |s|, 28 - 7 * |s|);
      }
      BytesFit(id, |s|);
    }
  }

  /** At most five bytes, no padding, and no bits past the 32nd. */
  predicate Canonical(s: seq<Byte>) {
    && 0 < |s| <= 5
    && (|s| > 1 ==> s[|s| - 1] != 0)
    && (|s| == 5 ==> s[4] < 16)
  }

  lemma {:induction false} UnpaddedIsShortest(s: seq<Byte>)
    requires Terminated(s)
    requires |s| > 1 ==> s[|s| - 1] != 0
    ensures Bytes(Value(s)) == s
    ensures s[|s| - 1] != 0 ==> Value(s) > 0
  {
    var t := s[1..];
    if |s| == 1 {
      assert t == [];
    } else {
      assert t[|t| - 1] == s[|s| - 1];
      UnpaddedIsShortest(t);
      assert Value(s) == s[0] - 128 + 128 * Value(t);
      assert Value(s) / 128 == Value(t) && Value(s) % 128 + 128 == s[0];
      assert s == [s[0]] + t;
    }
  }

  /** The encoder spells a decoded id the way it was received exactly for canonical strings. */
  lemma ReencodeIffCanonical(s: seq<Byte>)
    requires Terminated(s)
    ensures Bytes(Value(s) % TWO_32) == s <==> Canonical(s)
  {
    if Canonical(s) {
      CanonicalFits(s);
      UnpaddedIsShortest(s);
    }
    EncodingsAreCanonical(Value(s) % TWO_32);
  }

  lemma EncodingsAreCanonical(id: Uint32)
    ensures Canonical(Bytes(id))
  {
    var s := Bytes(id);
    BytesLength(id);
    BytesSpell(id);
    if |s| == 5 {
      TopByte(s);
    }
  }

  lemma TopByte(s: seq<Byte>)
    requires |s| == 5
    ensures Value(s) == Value(s[..4]) + s[4] as int % 128 * 0x1000_0000
    ensures Value(s[..4]) < 0x1000_0000
  {
    WordPowers();
    assert s == s[..4] + [s[4]];
    ValueSnoc(s[..4], s[4]);
    ValueBound(s[..4]);
  }

  lemma CanonicalFits(s: seq<Byte>)
    requires Canonical(s)
    ensures Value(s) < TWO_32
  {
    if |s| == 5 {
      TopByte(s);
    } else {
      WordPowers();
      ValueBound(s);
      Pow2Add(7 * |s|, 28 - 7 * |s|);
    }
  }

  // ---------- The format in numbers ----------

  /** Byte number k holds the k-th group of seven bits, and its top bit says whether another byte follows. */
  lemma {:induction false} BytesAt(id: nat, k: nat)
    requires k < |Bytes(id)|
    ensures Bytes(id)[k] == id / Pow2(7 * k) % 128 + if k + 1 < |Bytes(id)| then 128 else 0
    decreases k
  {
    if k == 0 {
      assert id / 1 == id;
    } else {
      BytesAt(id / 128, k - 1);
      Pow2Add(7, 7 * (k - 1));
      assert Pow2(7) == 128 by { WordPowers(); }
      DivideTwice(id, 128, Pow2(7 * (k - 1)));
    }
  }

  lemma DivideTwice(x: nat, a: nat, b: nat)
    requires a > 0 && b > 0
    ensures a * b > 0 && x / a / b == x / (a * b)
  {
    var q, r := x / a, x % a;
    var u, v := q / b, q % b;
    Recompose(a, b, u, v, r);
    RemainderFits(a, b, v, r);
    QuotientIs(x, a * b, u, a * v + r);
  }

  lemma Recompose(a: nat, b: nat, u: nat, v: nat, r: nat)
    ensures a * (b * u + v) + r == (a * b) * u + (a * v + r)
  {
    assert a * (b * u) == (a * b) * u;
  }

  lemma RemainderFits(a: nat, b: nat, v: nat, r: nat)
    requires r < a && v < b
    ensures 0 <= a * v + r < a * b
  {
    assert a * (v + 1) == a * v + a;
    assert a * (v + 1) <= a * b;
  }

  lemma QuotientIs(x: nat, d: nat, q: nat, r: nat)
    requires d > 0 && x == d * q + r && r < d
    ensures x / d == q
  {
    var p := x / d;
    assert x == d * p + x % d;
    assert d * (p - q) == d * p - d * q;
    SmallMultiple(d, p - q);
  }

  lemma SmallMultiple(d: int, e: int)
    requires -d < d * e < d
    ensures e == 0
  {
    assert e >= 1 ==> d * e >= d;
    assert e <= -1 ==> d * e <= -d;
  }
}
