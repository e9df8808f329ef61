/** Bytes, 32-bit words and the bit operations the wire format uses, on integers. */
module Bits {
  type Byte = b: int | 0 <= b < 256

  const TWO_32 := 0x1_0000_0000

  type Uint32 = x: int | 0 <= x < 0x1_0000_0000

  function Pow2(n: nat): (r: nat)
    ensures r > 0
  {
    if n == 0 then 1 else 2 * Pow2(n - 1)
  }

  /** Bitwise or, one binary digit at a time. */
  function Or(a: nat, b: nat): nat {
    if a == 0 && b == 0 then 0
    else (if a % 2 == 1 || b % 2 == 1 then 1 else 0) + 2 * Or(a / 2, b / 2)
  }

  /** A left shift in a 32-bit word: bits past the 32nd are lost, so a shift by 32 or more gives 0. */
  function Shl32(v: Uint32, n: nat): Uint32 {
    (v * Pow2(n)) % TWO_32
  }

  /** Copies src into the buffer at an offset. */
  method CopyInto(buf: array<Byte>, offset: nat, src: seq<Byte>)
    requires offset + |src| <= buf.Length
    modifies buf
    ensures buf[..offset + |src|] == old(buf[..offset]) + src
    ensures buf[offset + |src|..] == old(buf[offset + |src|..])
  {
    forall k | 0 <= k < |src| {
      buf[offset + k] := src[k];
    }
  }

  lemma SliceOfSlice(s: seq<Byte>, a: nat, i: nat, j: nat)
    requires a <= |s| && i <= j && a + j <= |s|
    ensures s[a..][i..j] == s[a + i..a + j]
  {
  }

  lemma {:induction false} Pow2Add(a: nat, b: nat)
    ensures Pow2(a + b) == Pow2(a) * Pow2(b)
  {
    if a != 0 {
      Pow2Add(a - 1, b);
      assert Pow2(a + b) == 2 * Pow2(a - 1 + b);
    }
  }

  lemma {:induction false} OrZero(b: nat)
    ensures Or(0, b) == b
  {
    if b != 0 { OrZero(b / 2); }
  }

  /** Two numbers without a common bit position: or is addition. */
  lemma {:induction false} OrDisjoint(a: nat, q: nat, n: nat)
    requires a < Pow2(n)
    ensures Or(a, q * Pow2(n)) == a + q * Pow2(n)
    decreases n
  {
    if n == 0 {
      OrZero(q);
    } else {
      var h := q * Pow2(n - 1);
      assert q * Pow2(n) == 2 * h;
      OrDisjoint(a / 2, q, n - 1);
    }
  }

  lemma {:induction false} OrCommutes(a: nat, b: nat)
    ensures Or(a, b) == Or(b, a)
  {
    if a != 0 || b != 0 { OrCommutes(a / 2, b / 2); }
  }

  /** Three bytes or-ed into place, most significant first, spell a big-endian 24-bit number. */
  lemma BigEndian24(a: Byte, b: Byte, c: Byte)
    ensures Or(Or(a * 0x1_0000, b * 0x100), c) == a as int * 0x1_0000 + b as int * 0x100 + c
  {
    assert Pow2(8) == 256 by { Pow2Add(4, 4); }
    assert Pow2(16) == 0x1_0000 by { Pow2Add(8, 8); }
    OrCommutes(a * 0x1_0000, b * 0x100);
    OrDisjoint(b * 0x100, a, 16);
    OrCommutes(a * 0x1_0000 + b * 0x100, c);
    OrDisjoint(c, a * 0x100 + b, 8);
  }
}
