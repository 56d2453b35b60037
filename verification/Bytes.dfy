/**
  Byte strings as they travel on the wire, and the fixed-width big-endian fields
  that every protocol of the lighting node is built from.
 */
module Bytes {

  type byte = bv8

  type bytes = seq<byte>

  /** A 32-bit counter keeps the value modulo 2^32. */
  function Wrap32(n: nat): (w: nat)
    ensures w <= n
  {
    n % 0x1_0000_0000
  }

  function Flatten(parts: seq<bytes>): bytes {
    if parts == [] then [] else parts[0] + Flatten(parts[1..])
  }

  lemma {:induction false} FlattenAppend(parts: seq<bytes>, last: bytes)
    ensures Flatten(parts + [last]) == Flatten(parts) + last
  {
    if parts == [] {
      assert parts + [last] == [last];
      assert Flatten([last]) == last + Flatten([last][1..]);
    } else {
      assert (parts + [last])[1..] == parts[1..] + [last];
      FlattenAppend(parts[1..], last);
    }
  }

  /** The 16-bit field whose high byte comes first. */
  function U16(hi: byte, lo: byte): bv16 {
    ((hi as bv16) << 8) | (lo as bv16)
  }

  function Hi(v: bv16): byte {
    (v >> 8) as byte
  }

  function Lo(v: bv16): byte {
    (v & 0xFF) as byte
  }

  /** The number that the two bytes of a field stand for. */
  function Number16(v: bv16): (n: nat)
    ensures n < 0x1_0000
  {
    256 * (Hi(v) as nat) + Lo(v) as nat
  }

  lemma CountsUp(v: bv16)
    ensures Number16(v + 1) == (Number16(v) + 1) % 0x1_0000
  {
    hide Hi, Lo, Succ;
    StepsInBytes(v);
    ByteCarry(Hi(v), Lo(v), Hi(v + 1), Lo(v + 1));
  }

  lemma ByteCarry(high: byte, low: byte, high': byte, low': byte)
    requires low' == Succ(low) && high' == if low == 0xFF then Succ(high) else high
    ensures 256 * (high' as nat) + low' as nat == (256 * (high as nat) + low as nat + 1) % 0x1_0000
  {
    hide Succ;
    SuccAsNat(high);
    SuccAsNat(low);
    LastByte(low);
    LastByte(high);
    Carry(high as nat, low as nat, high' as nat, low' as nat);
  }

  lemma Carry(high: nat, low: nat, high': nat, low': nat)
    requires high < 256 && low < 256
    requires low' == (low + 1) % 256 && high' == if low == 255 then (high + 1) % 256 else high
    ensures 256 * high' + low' == (256 * high + low + 1) % 0x1_0000
  {
  }

  lemma StepsInBytes(v: bv16)
    ensures Lo(v + 1) == Succ(Lo(v))
    ensures Hi(v + 1) == if Lo(v) == 0xFF then Succ(Hi(v)) else Hi(v)
  {
  }

  lemma LastByte(b: byte)
    ensures b as nat < 256 && (b == 0xFF <==> b as nat == 255)
  {
  }

  lemma NumberOne()
    ensures Number16(1) == 1
  {
  }

  /** The first byte is the upper half of the field, and the second the lower. */
  lemma U16Halves(hi: byte, lo: byte)
    ensures U16(hi, lo) >> 8 == hi as bv16 && U16(hi, lo) & 0xFF == lo as bv16
  {
  }

  lemma U16RoundTrip(v: bv16)
    ensures U16(Hi(v), Lo(v)) == v
  {
  }

  /** The 32-bit field at offset `at`, high byte first, read as a number. */
  function U32At(s: bytes, at: nat): (v: nat)
    requires at + 4 <= |s|
  {
    Weigh(s[at] as nat, s[at + 1] as nat, s[at + 2] as nat, s[at + 3] as nat)
  }

  function Weigh(a: nat, b: nat, c: nat, d: nat): nat {
    256 * (256 * (256 * a + b) + c) + d
  }

  /**
    The four bytes of `n`, high byte first, each cut to 8 bits: a number that needs
    more than 32 bits loses its upper part.
   */
  function U32(n: nat): (s: bytes)
    ensures |s| == 4
  {
    [Digit(n / 256 / 256 / 256), Digit(n / 256 / 256), Digit(n / 256), Digit(n)]
  }

  function Digit(n: nat): (b: byte)
    ensures b as nat == n % 256
  {
    ByteOf(n % 256)
  }

  function ByteOf(n: nat): (b: byte)
    requires n < 256
    ensures b as nat == n
  {
    if n == 0 then 0 else
      SuccAsNat(ByteOf(n - 1));
      Succ(ByteOf(n - 1))
  }

  /** A byte counts up by one and wraps behind 255. */
  function Succ(b: byte): (c: byte)
    ensures c != b
  {
    b + 1
  }

  lemma SuccAsNat(b: byte)
    ensures Succ(b) as nat == (b as nat + 1) % 256
  {
  }

  /** The counter byte after `n` steps from `first`. */
  function CounterAfter(first: byte, n: nat): byte {
    if n == 0 then first else Succ(CounterAfter(first, n - 1))
  }

  lemma {:induction false} CounterAfterAsNat(first: byte, n: nat)
    ensures CounterAfter(first, n) as nat == (first as nat + n) % 256
  {
    hide Succ;
    if n > 0 {
      CounterAfterAsNat(first, n - 1);
      SuccAsNat(CounterAfter(first, n - 1));
      NextModulo(first as nat + n - 1);
    } else {
      ByteBelow256(first);
    }
  }

  lemma NextModulo(m: nat)
    ensures (m % 256 + 1) % 256 == (m + 1) % 256
  {
  }

  lemma ByteBelow256(b: byte)
    ensures b as nat < 256
  {
  }

  /** The first of the four bytes weighs most. */
  lemma U32Digits(n: nat)
    ensures U32(n)[0] as nat == n / 256 / 256 / 256 % 256
    ensures U32(n)[1] as nat == n / 256 / 256 % 256
    ensures U32(n)[2] as nat == n / 256 % 256
    ensures U32(n)[3] as nat == n % 256
  {
  }

  lemma U32RoundTrip(n: nat)
    ensures U32At(U32(n), 0) == Wrap32(n)
  {
    var n1 := n / 256;
    var n2 := n1 / 256;
    var n3 := n2 / 256;
    var n4 := n3 / 256;
    HighPart(n, n1, n2, n3, n4, n3 % 256, n2 % 256, n1 % 256, n % 256);
    Wrap32Is(n, n4, Weigh(n3 % 256, n2 % 256, n1 % 256, n % 256));
  }

  lemma HighPart(n: nat, n1: nat, n2: nat, n3: nat, n4: nat, a: nat, b: nat, c: nat, d: nat)
    requires n == 256 * n1 + d && n1 == 256 * n2 + c && n2 == 256 * n3 + b && n3 == 256 * n4 + a
    requires a < 256 && b < 256 && c < 256 && d < 256
    ensures n == 0x1_0000_0000 * n4 + Weigh(a, b, c, d)
    ensures Weigh(a, b, c, d) < 0x1_0000_0000
  {
  }

  lemma Wrap32Is(n: nat, q: nat, w: nat)
    requires n == 0x1_0000_0000 * q + w && w < 0x1_0000_0000
    ensures Wrap32(n) == w
  {
  }

  /** A 32-bit counter may be reduced after every addition or once at the end. */
  lemma Wrap32Add(a: nat, b: nat)
    ensures Wrap32(Wrap32(a) + b) == Wrap32(a + b)
  {
  }
}
