/**
  The running CRC-32 of the OTA session (section 8 of RFC 1952, bit-reflected form).

  The session folds the transferred blocks into a 32-bit register, one byte at a time and
  eight shift steps a byte.  This module gives that register three readings and connects
  them: the nested loop itself, a shift register fed one bit at a time, and the remainder
  of a polynomial division over GF(2).
 */
module Crc32 {

  import opened Bytes

  const POLYNOMIAL: bv32 := 0xEDB8_8320

  const INITIAL: bv32 := 0xFFFF_FFFF

  // ---------------------------------------------------------------------------------
  // The loop
  // ---------------------------------------------------------------------------------

  function Xor(a: bv32, b: bv32): bv32 {
    a ^ b
  }

  function Half(c: bv32): bv32 {
    c >> 1
  }

  predicate Odd(c: bv32) {
    c & 1 != 0
  }

  function BitStep(crc: bv32): bv32 {
    if Odd(crc) then Xor(Half(crc), POLYNOMIAL) else Half(crc)
  }

  function BitSteps(crc: bv32, n: nat): bv32 {
    if n == 0 then crc else BitStep(BitSteps(crc, n - 1))
  }

  function ByteStep(crc: bv32, b: byte): bv32 {
    BitSteps(Xor(crc, b as bv32), 8)
  }

  function Fold(crc: bv32, data: bytes): bv32 {
    if data == [] then crc else ByteStep(Fold(crc, data[..|data| - 1]), data[|data| - 1])
  }

  /** The checksum of a whole image, as a transfer announces it. */
  function Checksum(image: bytes): bv32 {
    Xor(Fold(INITIAL, image), 0xFFFF_FFFF)
  }

  method Crc32Update(crc: bv32, data: bytes) returns (out: bv32)
    ensures out == Fold(crc, data)
  {
    out := crc;
    for i := 0 to |data|
      invariant out == Fold(crc, data[..i])
    {
      out := out ^ (data[i] as bv32);
      ghost var entry := out;
      for bit := 0 to 8
        invariant out == BitSteps(entry, bit)
      {
        out := if out & 1 != 0 then (out >> 1) ^ POLYNOMIAL else out >> 1;
      }
      assert data[..i + 1][..i] == data[..i];
    }
    assert data[..|data|] == data;
  }

  /** Splitting a message into blocks does not matter: the register carries over. */
  lemma {:induction false} FoldConcat(crc: bv32, a: bytes, b: bytes)
    ensures Fold(crc, a + b) == Fold(Fold(crc, a), b)
  {
    if b == [] {
      assert a + b == a;
    } else {
      var n := |b| - 1;
      assert (a + b)[..|a + b| - 1] == a + b[..n];
      FoldConcat(crc, a, b[..n]);
    }
  }

  // ---------------------------------------------------------------------------------
  // The register as a polynomial
  // ---------------------------------------------------------------------------------

  /** Coefficients of a polynomial over GF(2), highest power first. */
  type Poly = seq<bool>

  /** The lowest `n` bits of a word, lowest first: the order in which the loop consumes them. */
  function LowBits(c: bv32, n: nat): (bits: seq<bool>)
    ensures |bits| == n
    decreases n
  {
    if n == 0 then [] else [Odd(c)] + LowBits(Half(c), n - 1)
  }

  /**
    The register holds a polynomial of degree below 32, highest power in the lowest bit:
    the reflected convention.
   */
  function Coefficients(c: bv32): (p: Poly)
    ensures |p| == 32
  {
    LowBits(c, 32)
  }

  function ByteBits(b: byte): (bits: seq<bool>)
    ensures |bits| == 8
  {
    LowBits(b as bv32, 8)
  }

  function Bits(data: bytes): (bits: seq<bool>)
    ensures |bits| == 8 * |data|
  {
    if data == [] then [] else Bits(data[..|data| - 1]) + ByteBits(data[|data| - 1])
  }

  function Zeros(n: nat): (p: Poly)
    ensures |p| == n && forall i | 0 <= i < n :: !p[i]
  {
    seq(n, i => false)
  }

  /** Adds `q` to the leading coefficients of `p`. */
  function AddToFront(p: Poly, q: Poly): (r: Poly)
    requires |q| <= |p|
    ensures |r| == |p|
  {
    seq(|p|, i requires 0 <= i < |p| => if i < |q| then p[i] != q[i] else p[i])
  }

  /** The 32 lower coefficients of the generator x^32 + x^26 + ... + x + 1. */
  function Generator(): (g: Poly)
    ensures |g| == 32
  {
    Coefficients(POLYNOMIAL)
  }

  lemma GeneratorTerms()
    ensures forall i | 0 <= i < 32 ::
      Generator()[i] <==> 31 - i in {26, 23, 22, 16, 12, 11, 10, 8, 7, 5, 4, 2, 1, 0}
  {
    hide LowBits;
    FirstFour(0xEDB8_8320, 28);
    FirstFour(0xEDB_8832, 24);
    FirstFour(0xED_B883, 20);
    FirstFour(0xE_DB88, 16);
    FirstFour(0xEDB8, 12);
    FirstFour(0xEDB, 8);
    FirstFour(0xED, 4);
    FirstFour(0xE, 0);
  }

  lemma FirstFour(c: bv32, n: nat)
    ensures LowBits(c, n + 4) == [c & 1 != 0, c & 2 != 0, c & 4 != 0, c & 8 != 0] + LowBits(c >> 4, n)
  {
    FirstFourOdd(c);
    hide Half, Odd;
    var h := Half(c);
    assert LowBits(c, n + 4) == [Odd(c)] + LowBits(h, n + 3);
    assert LowBits(h, n + 3) == [Odd(h)] + LowBits(Half(h), n + 2);
    assert LowBits(Half(h), n + 2) == [Odd(Half(h))] + LowBits(Half(Half(h)), n + 1);
  }

  lemma FirstFourOdd(c: bv32)
    ensures Odd(c) <==> c & 1 != 0
    ensures Odd(Half(c)) <==> c & 2 != 0
    ensures Odd(Half(Half(c))) <==> c & 4 != 0
    ensures Odd(Half(Half(Half(c)))) <==> c & 8 != 0
    ensures Half(Half(Half(Half(c)))) == c >> 4
  {
  }

  // Facts about single words, each decided alone.

  lemma OddXor(a: bv32, b: bv32)
    ensures Odd(Xor(a, b)) <==> (Odd(a) != Odd(b))
  {
  }

  lemma HalfXor(a: bv32, b: bv32)
    ensures Half(Xor(a, b)) == Xor(Half(a), Half(b))
  {
  }

  lemma WidenXor(a: byte, b: byte)
    ensures XorByte(a, b) as bv32 == Xor(a as bv32, b as bv32)
  {
  }

  lemma Rejoin(a: bv32, b: bv32)
    requires Half(a) == Half(b) && Odd(a) == Odd(b)
    ensures a == b
  {
  }

  lemma HalfOfZero()
    ensures Half(0) == 0 && !Odd(0)
  {
  }

  /** What is left of a word after `n` of its bits were consumed. */
  function Shifted(c: bv32, n: nat): bv32
    decreases n
  {
    if n == 0 then c else Shifted(Half(c), n - 1)
  }

  lemma {:induction false} ShiftedConcat(c: bv32, m: nat, n: nat)
    ensures Shifted(c, m + n) == Shifted(Shifted(c, m), n)
    decreases m
  {
    hide Half;
    if m == 0 {
    } else {
      ShiftedConcat(Half(c), m - 1, n);
    }
  }

  lemma ShiftedByFour(c: bv32)
    ensures Shifted(c, 4) == c >> 4
  {
    var h := Half(c);
    assert Shifted(c, 4) == Shifted(h, 3);
    assert Shifted(h, 3) == Shifted(Half(h), 2);
    assert Shifted(Half(h), 2) == Shifted(Half(Half(h)), 1);
    assert Shifted(Half(Half(h)), 1) == Half(Half(Half(h)));
  }

  lemma ShiftedByEight(c: bv32)
    ensures Shifted(c, 8) == c >> 8
  {
    ShiftedConcat(c, 4, 4);
    ShiftedByFour(c);
    ShiftedByFour(c >> 4);
  }

  lemma ShiftedOut(c: bv32)
    ensures Shifted(c, 32) == 0
  {
    ShiftedConcat(c, 8, 24);
    ShiftedConcat(c >> 8, 8, 16);
    ShiftedConcat(c >> 16, 8, 8);
    ShiftedByEight(c);
    ShiftedByEight(c >> 8);
    ShiftedByEight(c >> 16);
    ShiftedByEight(c >> 24);
  }

  lemma {:induction false} LowBitsConcat(c: bv32, m: nat, n: nat)
    ensures LowBits(c, m + n) == LowBits(c, m) + LowBits(Shifted(c, m), n)
    decreases m
  {
    hide Half, Odd;
    if m == 0 {
    } else {
      LowBitsConcat(Half(c), m - 1, n);
    }
  }

  lemma {:induction false} LowBitsOfZero(n: nat)
    ensures LowBits(0, n) == Zeros(n)
  {
    HalfOfZero();
    if n == 0 {
    } else {
      LowBitsOfZero(n - 1);
    }
  }

  lemma {:induction false} LowBitsOfXor(a: bv32, b: bv32, n: nat)
    ensures LowBits(Xor(a, b), n) == AddToFront(LowBits(a, n), LowBits(b, n))
    decreases n
  {
    hide Half, Odd, Xor;
    if n == 0 {
    } else {
      OddXor(a, b);
      HalfXor(a, b);
      LowBitsOfXor(Half(a), Half(b), n - 1);
    }
  }

  lemma {:induction false} LowBitsInjective(a: bv32, b: bv32, n: nat)
    requires LowBits(a, n) == LowBits(b, n) && Shifted(a, n) == Shifted(b, n)
    ensures a == b
    decreases n
  {
    hide Half, Odd;
    if n == 0 {
    } else {
      assert LowBits(a, n)[0] == LowBits(b, n)[0];
      assert LowBits(a, n)[1..] == LowBits(b, n)[1..];
      LowBitsInjective(Half(a), Half(b), n - 1);
      Rejoin(a, b);
    }
  }

  lemma CoefficientsInjective(a: bv32, b: bv32)
    requires Coefficients(a) == Coefficients(b)
    ensures a == b
  {
    ShiftedOut(a);
    ShiftedOut(b);
    LowBitsInjective(a, b, 32);
  }

  lemma ByteBitsInjective(a: byte, b: byte)
    requires ByteBits(a) == ByteBits(b)
    ensures a == b
  {
    ByteShiftedOut(a);
    ByteShiftedOut(b);
    LowBitsInjective(a as bv32, b as bv32, 8);
  }

  lemma ByteBitsOfXor(a: byte, b: byte)
    ensures ByteBits(XorByte(a, b)) == AddToFront(ByteBits(a), ByteBits(b))
  {
    hide Xor, XorByte, LowBits;
    WidenXor(a, b);
    LowBitsOfXor(a as bv32, b as bv32, 8);
  }

  lemma ByteShiftedOut(b: byte)
    ensures Shifted(b as bv32, 8) == 0
  {
    ShiftedByEight(b as bv32);
  }

  lemma CoefficientsOfXor(a: bv32, b: bv32)
    ensures Coefficients(Xor(a, b)) == AddToFront(Coefficients(a), Coefficients(b))
  {
    hide Xor, LowBits;
    LowBitsOfXor(a, b, 32);
  }

  /** A shift drops the highest power and brings in a zero: multiplication by x. */
  lemma CoefficientsOfHalf(c: bv32)
    ensures Coefficients(Half(c)) == Coefficients(c)[1..] + [false]
  {
    hide Half, Odd, Shifted;
    var n := 31;
    LowBitsConcat(Half(c), n, 1);
    ShiftedOut(c);
    ShiftedStep(c, n);
    HalfOfZero();
    assert LowBits(0, 1) == [false];
    assert LowBits(c, n + 1) == [Odd(c)] + LowBits(Half(c), n);
  }

  lemma ShiftedStep(c: bv32, n: nat)
    ensures Shifted(Half(c), n) == Shifted(c, n + 1)
  {
  }

  lemma CoefficientsOfByte(b: byte)
    ensures Coefficients(b as bv32) == ByteBits(b) + Zeros(24)
  {
    LowBitsConcat(b as bv32, 8, 24);
    ByteShiftedOut(b);
    LowBitsOfZero(24);
  }

  lemma FirstCoefficient(c: bv32)
    ensures Coefficients(c)[0] == Odd(c)
  {
  }

  // ---------------------------------------------------------------------------------
  // The shift register on coefficients
  // ---------------------------------------------------------------------------------

  /** One clock of the register, fed one message bit. */
  function Clock(p: Poly, bit: bool): (r: Poly)
    requires |p| == 32
    ensures |r| == 32
  {
    var shifted := p[1..] + [false];
    if p[0] != bit then AddToFront(shifted, Generator()) else shifted
  }

  function Feed(p: Poly, message: seq<bool>): (r: Poly)
    requires |p| == 32
    ensures |r| == 32
    decreases |message|
  {
    if message == [] then p else Feed(Clock(p, message[0]), message[1..])
  }

  lemma BitStepIsClock(c: bv32)
    ensures Coefficients(BitStep(c)) == Clock(Coefficients(c), false)
  {
    hide Coefficients, Half, Odd, Xor;
    CoefficientsOfHalf(c);
    CoefficientsOfXor(Half(c), POLYNOMIAL);
    FirstCoefficient(c);
  }

  lemma {:induction false} FeedConcat(p: Poly, a: seq<bool>, b: seq<bool>)
    requires |p| == 32
    ensures Feed(p, a + b) == Feed(Feed(p, a), b)
    decreases |a|
  {
    if a == [] {
      assert a + b == b;
    } else {
      assert (a + b)[1..] == a[1..] + b;
      FeedConcat(Clock(p, a[0]), a[1..], b);
    }
  }

  lemma {:induction false} BitStepsAreClocks(c: bv32, n: nat)
    ensures Coefficients(BitSteps(c, n)) == Feed(Coefficients(c), Zeros(n))
  {
    hide Coefficients, BitStep;
    if n == 0 {
    } else {
      BitStepsAreClocks(c, n - 1);
      BitStepIsClock(BitSteps(c, n - 1));
      assert Zeros(n) == Zeros(n - 1) + [false];
      FeedConcat(Coefficients(c), Zeros(n - 1), [false]);
    }
  }

  /** Up to 32 message bits may as well be added to the register first and clocked out after. */
  lemma {:induction false} Preload(p: Poly, w: seq<bool>)
    requires |w| <= 32 == |p|
    ensures Feed(p, w) == Feed(AddToFront(p, w), Zeros(|w|))
    decreases |w|
  {
    hide Generator;
    if w == [] {
      assert AddToFront(p, w) == p;
    } else {
      var next := Clock(p, w[0]);
      Preload(next, w[1..]);
      assert Zeros(|w|)[1..] == Zeros(|w| - 1);
      assert AddToFront(p, w)[1..] + [false] == AddToFront(p[1..] + [false], w[1..]);
      assert Clock(AddToFront(p, w), false) == AddToFront(next, w[1..]);
    }
  }

  lemma ByteStepFeedsItsBits(c: bv32, b: byte)
    ensures Coefficients(ByteStep(c, b)) == Feed(Coefficients(c), ByteBits(b))
  {
    hide Coefficients, ByteBits, Xor;
    var x := Xor(c, b as bv32);
    BitStepsAreClocks(x, 8);
    CoefficientsOfXor(c, b as bv32);
    CoefficientsOfByte(b);
    assert Coefficients(x) == AddToFront(Coefficients(c), ByteBits(b));
    Preload(Coefficients(c), ByteBits(b));
  }

  /** The nested loop over a message is the register fed with the message's bits. */
  lemma {:induction false} FoldFeedsItsBits(c: bv32, data: bytes)
    ensures Coefficients(Fold(c, data)) == Feed(Coefficients(c), Bits(data))
  {
    hide Coefficients, ByteBits;
    if data == [] {
    } else {
      var n := |data| - 1;
      FoldFeedsItsBits(c, data[..n]);
      ByteStepFeedsItsBits(Fold(c, data[..n]), data[n]);
      FeedConcat(Coefficients(c), Bits(data[..n]), ByteBits(data[n]));
    }
  }

  // ---------------------------------------------------------------------------------
  // Linearity
  // ---------------------------------------------------------------------------------

  function XorByte(a: byte, b: byte): byte {
    a ^ b
  }

  function XorBytes(a: bytes, b: bytes): (c: bytes)
    requires |a| == |b|
    ensures |c| == |a|
  {
    seq(|a|, i requires 0 <= i < |a| => XorByte(a[i], b[i]))
  }

  lemma {:induction false} BitsOfXor(a: bytes, b: bytes)
    requires |a| == |b|
    ensures Bits(XorBytes(a, b)) == AddToFront(Bits(a), Bits(b))
  {
    hide ByteBits, XorByte;
    if a == [] {
    } else {
      var n := |a| - 1;
      assert XorBytes(a, b)[..n] == XorBytes(a[..n], b[..n]);
      BitsOfXor(a[..n], b[..n]);
      ByteBitsOfXor(a[n], b[n]);
    }
  }

  lemma ClockLinear(p: Poly, q: Poly, x: bool, y: bool)
    requires |p| == |q| == 32
    ensures Clock(AddToFront(p, q), x != y) == AddToFront(Clock(p, x), Clock(q, y))
  {
    hide Generator;
  }

  lemma {:induction false} FeedLinear(p: Poly, q: Poly, a: seq<bool>, b: seq<bool>)
    requires |p| == |q| == 32 && |a| == |b|
    ensures Feed(AddToFront(p, q), AddToFront(a, b)) == AddToFront(Feed(p, a), Feed(q, b))
    decreases |a|
  {
    hide Generator, Clock;
    if a == [] {
    } else {
      ClockLinear(p, q, a[0], b[0]);
      FeedLinear(Clock(p, a[0]), Clock(q, b[0]), a[1..], b[1..]);
      assert AddToFront(a, b)[1..] == AddToFront(a[1..], b[1..]);
    }
  }

  /** The running CRC is linear over xor, for messages of equal length. */
  lemma FoldLinear(x: bv32, y: bv32, a: bytes, b: bytes)
    requires |a| == |b|
    ensures Fold(Xor(x, y), XorBytes(a, b)) == Xor(Fold(x, a), Fold(y, b))
  {
    hide Coefficients, Bits, Xor, XorBytes, Fold;
    FoldFeedsItsBits(x, a);
    FoldFeedsItsBits(y, b);
    FoldFeedsItsBits(Xor(x, y), XorBytes(a, b));
    CoefficientsOfXor(x, y);
    BitsOfXor(a, b);
    FeedLinear(Coefficients(x), Coefficients(y), Bits(a), Bits(b));
    CoefficientsOfXor(Fold(x, a), Fold(y, b));
    CoefficientsInjective(Fold(Xor(x, y), XorBytes(a, b)), Xor(Fold(x, a), Fold(y, b)));
  }

  // ---------------------------------------------------------------------------------
  // Burst detection
  // ---------------------------------------------------------------------------------

  lemma ClockInjective(p: Poly, q: Poly, bit: bool)
    requires |p| == |q| == 32 && Clock(p, bit) == Clock(q, bit)
    ensures p == q
  {
    hide Generator;
    GeneratorTerms();
    assert Clock(p, bit)[31] == (p[0] != bit) && Clock(q, bit)[31] == (q[0] != bit);
    forall i | 1 <= i < 32
      ensures p[i] == q[i]
    {
      assert Clock(p, bit)[i - 1] == Clock(q, bit)[i - 1];
    }
  }

  lemma {:induction false} FeedInjective(p: Poly, q: Poly, tail: seq<bool>)
    requires |p| == |q| == 32 && Feed(p, tail) == Feed(q, tail)
    ensures p == q
    decreases |tail|
  {
    if tail == [] {
    } else {
      FeedInjective(Clock(p, tail[0]), Clock(q, tail[0]), tail[1..]);
      ClockInjective(p, q, tail[0]);
    }
  }

  /** From one register, different windows of at most 32 bits reach different registers. */
  lemma WindowInjective(p: Poly, a: seq<bool>, b: seq<bool>)
    requires |a| == |b| <= 32 == |p| && Feed(p, a) == Feed(p, b)
    ensures a == b
  {
    Preload(p, a);
    Preload(p, b);
    FeedInjective(AddToFront(p, a), AddToFront(p, b), Zeros(|a|));
    forall i | 0 <= i < |a|
      ensures a[i] == b[i]
    {
      assert AddToFront(p, a)[i] == AddToFront(p, b)[i];
    }
  }

  lemma BurstReachesDifferentRegister(p: Poly, s: seq<bool>, t: seq<bool>, from: nat, to: nat)
    requires |p| == 32 && |s| == |t| && from <= to <= |s| && to - from <= 32
    requires s[..from] == t[..from] && s[to..] == t[to..]
    requires Feed(p, s) == Feed(p, t)
    ensures s == t
  {
    assert s == s[..from] + (s[from..to] + s[to..]);
    assert t == t[..from] + (t[from..to] + t[to..]);
    var r := Feed(p, s[..from]);
    FeedConcat(p, s[..from], s[from..to] + s[to..]);
    FeedConcat(p, t[..from], t[from..to] + t[to..]);
    FeedConcat(r, s[from..to], s[to..]);
    FeedConcat(r, t[from..to], t[to..]);
    FeedInjective(Feed(r, s[from..to]), Feed(r, t[from..to]), s[to..]);
    WindowInjective(r, s[from..to], t[from..to]);
  }

  lemma {:induction false} BitsInjective(a: bytes, b: bytes)
    requires Bits(a) == Bits(b)
    ensures a == b
  {
    hide ByteBits;
    if a == [] {
    } else {
      var n := |a| - 1;
      assert Bits(a)[..8 * n] == Bits(a[..n]) && Bits(a)[8 * n..] == ByteBits(a[n]);
      assert Bits(b)[..8 * n] == Bits(b[..n]) && Bits(b)[8 * n..] == ByteBits(b[n]);
      BitsInjective(a[..n], b[..n]);
      ByteBitsInjective(a[n], b[n]);
    }
  }

  /** `a` and `b` are equally long and differ at most in the bits `from` up to `to`. */
  ghost predicate DifferOnlyWithin(a: bytes, b: bytes, from: nat, to: nat) {
    && |a| == |b|
    && from <= to <= 8 * |a|
    && Bits(a)[..from] == Bits(b)[..from]
    && Bits(a)[to..] == Bits(b)[to..]
  }

  /** The final complement does not hide a difference. */
  lemma ComplementInjective(p: bv32, q: bv32)
    requires Xor(p, 0xFFFF_FFFF) == Xor(q, 0xFFFF_FFFF)
    ensures p == q
  {
  }

  /**
    Burst detection: two images that differ only inside some 32 consecutive bits have
    the same checksum exactly when they are the same image.
   */
  lemma BurstDetected(a: bytes, b: bytes, from: nat, to: nat)
    requires DifferOnlyWithin(a, b, from, to) && to - from <= 32
    ensures Checksum(a) == Checksum(b) <==> a == b
  {
    hide Coefficients, Bits, Xor, Fold;
    if Checksum(a) == Checksum(b) {
      ComplementInjective(Fold(INITIAL, a), Fold(INITIAL, b));
      FoldFeedsItsBits(INITIAL, a);
      FoldFeedsItsBits(INITIAL, b);
      BurstReachesDifferentRegister(Coefficients(INITIAL), Bits(a), Bits(b), from, to);
      BitsInjective(a, b);
    }
  }

  // ---------------------------------------------------------------------------------
  // Polynomial division
  // ---------------------------------------------------------------------------------

  /** Schoolbook long division: what remains of `p` modulo the generator. */
  function Remainder(p: Poly): (r: Poly)
    requires |p| >= 32
    ensures |r| == 32
    decreases |p|
  {
    if |p| == 32 then p
    else if p[0] then Remainder(AddToFront(p[1..], Generator()))
    else Remainder(p[1..])
  }

  /** Clocking a message through the register divides by the generator. */
  lemma {:induction false} FeedIsRemainder(p: Poly, message: seq<bool>)
    requires |p| == 32
    ensures Feed(p, message) == Remainder(AddToFront(message + Zeros(32), p))
    decreases |message|
  {
    hide Generator;
    var dividend := AddToFront(message + Zeros(32), p);
    if message == [] {
      assert dividend == p;
    } else {
      var q := p[1..] + [false];
      var rest := AddToFront(message[1..] + Zeros(32), q);
      FeedIsRemainder(Clock(p, message[0]), message[1..]);
      assert dividend[1..] == rest;
      assert AddToFront(rest, Generator())
          == AddToFront(message[1..] + Zeros(32), AddToFront(q, Generator()));
    }
  }

  /** Inverts the first `n` coefficients. */
  function InvertFront(p: Poly, n: nat): (r: Poly)
    requires n <= |p|
    ensures |r| == |p|
  {
    seq(|p|, i requires 0 <= i < |p| => if i < n then !p[i] else p[i])
  }

  lemma AllOnes()
    ensures forall i | 0 <= i < 32 :: Coefficients(0xFFFF_FFFF)[i]
  {
    hide LowBits;
    FirstFour(0xFFFF_FFFF, 28);
    FirstFour(0xFFF_FFFF, 24);
    FirstFour(0xFF_FFFF, 20);
    FirstFour(0xF_FFFF, 16);
    FirstFour(0xFFFF, 12);
    FirstFour(0xFFF, 8);
    FirstFour(0xFF, 4);
    FirstFour(0xF, 0);
  }

  /**
    The checksum is the inverted remainder of the message, moved up 32 places and with
    its first 32 coefficients inverted, modulo the generator.
   */
  lemma ChecksumIsRemainder(image: bytes)
    ensures Coefficients(Checksum(image))
         == InvertFront(Remainder(InvertFront(Bits(image) + Zeros(32), 32)), 32)
  {
    hide Coefficients, Bits, Xor, Fold, Remainder;
    var dividend := Bits(image) + Zeros(32);
    var ones := Coefficients(0xFFFF_FFFF);
    AllOnes();
    assert AddToFront(dividend, ones) == InvertFront(dividend, 32);
    FoldFeedsItsBits(INITIAL, image);
    FeedIsRemainder(ones, Bits(image));
    CoefficientsOfXor(Fold(INITIAL, image), 0xFFFF_FFFF);
    assert AddToFront(Remainder(AddToFront(dividend, ones)), ones)
        == InvertFront(Remainder(AddToFront(dividend, ones)), 32);
  }
}
