/**
  The frame checksum of internal/middleproxy/crypto.go: CRC-32 of IEEE 802.3 section 3.2.9,
  computed bit by bit in reflected form, and its burst-error detection.
  */
module Crc32 {
  import opened Bytes

  const POLYNOMIAL := 0xedb8_8320

  // ---------------------------------------------------------------------------
  // More algebra of exclusive or
  // ---------------------------------------------------------------------------

  lemma {:induction false} XorAssociates(a: nat, b: nat, c: nat)
    ensures Xor(Xor(a, b), c) == Xor(a, Xor(b, c))
  {
    if a == 0 && b == 0 && c == 0 {
    } else {
      XorAssociates(a / 2, b / 2, c / 2);
      XorHalves(a, b);
      XorHalves(b, c);
      XorHalves(Xor(a, b), c);
      XorHalves(a, Xor(b, c));
    }
  }

  lemma XorIsZero(a: nat, b: nat)
    ensures Xor(a, b) == 0 <==> a == b
  {
    XorOfEqual(a);
    if Xor(a, b) == 0 {
      XorCancels(a, b);
      XorZero(b);
    }
  }

  /** A common operand drops out of a difference. */
  lemma XorCommonOperand(a: nat, b: nat, c: nat)
    ensures Xor(Xor(a, c), Xor(b, c)) == Xor(a, b)
  {
    calc {
      Xor(Xor(a, c), Xor(b, c));
      { XorCommutes(b, c); }
      Xor(Xor(a, c), Xor(c, b));
      { XorAssociates(Xor(a, c), c, b); }
      Xor(Xor(Xor(a, c), c), b);
      { XorCancels(a, c); }
      Xor(a, b);
    }
  }

  /** Differences of differences regroup. */
  lemma XorExchange(a: nat, b: nat, c: nat, d: nat)
    ensures Xor(Xor(a, b), Xor(c, d)) == Xor(Xor(a, c), Xor(b, d))
  {
    calc {
      Xor(Xor(a, b), Xor(c, d));
      { XorAssociates(a, b, Xor(c, d)); }
      Xor(a, Xor(b, Xor(c, d)));
      { XorAssociates(b, c, d); XorCommutes(b, c); XorAssociates(c, b, d); }
      Xor(a, Xor(c, Xor(b, d)));
      { XorAssociates(a, c, Xor(b, d)); }
      Xor(Xor(a, c), Xor(b, d));
    }
  }

  // ---------------------------------------------------------------------------
  // The register
  // ---------------------------------------------------------------------------

  /** One bit of the shift register. */
  function Shift(c: uint32): (r: uint32)
  {
    if c % 2 == 1 then XorWord(c / 2, POLYNOMIAL) else c / 2
  }

  function Shifts(c: uint32, n: nat): (r: uint32)
  {
    if n == 0 then c else Shift(Shifts(c, n - 1))
  }

  function FeedByte(c: uint32, b: byte): (r: uint32)
  {
    Shifts(XorWord(c, b), 8)
  }

  function Register(c: uint32, data: bytes): (r: uint32)
    decreases |data|
  {
    if data == [] then c else Register(FeedByte(c, data[0]), data[1..])
  }

  function Checksum(data: bytes): (r: uint32)
  {
    0xffff_ffff - Register(0xffff_ffff, data)
  }

  lemma {:induction false} RegisterAppend(c: uint32, a: bytes, b: bytes)
    ensures Register(c, a + b) == Register(Register(c, a), b)
    decreases |a|
  {
    if a == [] {
      assert a + b == b;
    } else {
      assert (a + b)[1..] == a[1..] + b;
      RegisterAppend(FeedByte(c, a[0]), a[1..], b);
    }
  }

  /** The double loop of crc32IEEE. */
  method Crc32IEEE(data: bytes) returns (r: uint32)
    ensures r == Checksum(data)
  {
    var crc: uint32 := 0xffff_ffff;
    for k := 0 to |data|
      invariant crc == Register(0xffff_ffff, data[..k])
    {
      ghost var before := crc;
      crc := XorWord(crc, data[k]);
      for i := 0 to 8
        invariant crc == Shifts(XorWord(before, data[k]), i)
      {
        if crc % 2 == 1 {
          crc := XorWord(crc / 2, POLYNOMIAL);
        } else {
          crc := crc / 2;
        }
      }
      assert data[..k + 1] == data[..k] + [data[k]];
      RegisterAppend(0xffff_ffff, data[..k], [data[k]]);
    }
    assert data[..|data|] == data;
    r := 0xffff_ffff - crc;
  }

  // ---------------------------------------------------------------------------
  // Burst detection
  // ---------------------------------------------------------------------------

  /** An operand with the top bit set shows in the top bit. */
  lemma TopBit(a: nat, low: nat, n: nat)
    requires a < Pow2(n) && low < Pow2(n)
    ensures Xor(a, low + Pow2(n)) >= Pow2(n)
  {
    XorDigits(a, low, 0, 1, n);
    ShiftsOfOne(n);
  }

  lemma ShiftsOfOne(n: nat)
    ensures ShiftLeft(1, n) == Pow2(n) && ShiftLeft(0, n) == 0
  {}

  /** One shift by any polynomial p. */
  function ShiftBy(c: nat, p: nat): (r: nat)
  {
    if c % 2 == 1 then Xor(c / 2, p) else c / 2
  }

  lemma ShiftByParity(x: nat, y: nat, p: nat)
    ensures x % 2 == y % 2 ==> Xor(ShiftBy(x, p), ShiftBy(y, p)) == Xor(x / 2, y / 2)
    ensures x % 2 != y % 2 ==> Xor(ShiftBy(x, p), ShiftBy(y, p)) == Xor(Xor(x / 2, y / 2), p)
  {
    XorCommonOperand(x / 2, y / 2, p);
    XorZero(x / 2);
    XorZero(y / 2);
    XorZero(p);
    XorExchange(x / 2, p, y / 2, 0);
    XorExchange(x / 2, 0, y / 2, p);
  }

  /** The shift is linear and loses nothing: a difference below the top bit was half as large before. */
  lemma ShiftByDifference(x: uint32, y: uint32, p: nat)
    requires TWO_31 <= p < TWO_32
    requires Xor(ShiftBy(x, p), ShiftBy(y, p)) < TWO_31
    ensures Xor(x, y) == 2 * Xor(ShiftBy(x, p), ShiftBy(y, p))
  {
    XorHalves(x, y);
    Pow2Values();
    XorBound(x / 2, y / 2, 31);
    ShiftByParity(x, y, p);
    TopBit(Xor(x / 2, y / 2), p - TWO_31, 31);
  }

  lemma ShiftDifference(x: uint32, y: uint32)
    requires Xor(Shift(x), Shift(y)) < TWO_31
    ensures Xor(x, y) == 2 * Xor(Shift(x), Shift(y))
  {
    var p := POLYNOMIAL;
    assert Shift(x) == ShiftBy(x, p) && Shift(y) == ShiftBy(y, p);
    ShiftByDifference(x, y, p);
  }

  // Bit by bit

  type bit = n: nat | n < 2

  function FeedBit(c: uint32, b: bit): (r: uint32)
  {
    Shift(XorWord(c, b))
  }

  function FeedBits(c: uint32, bs: seq<bit>): (r: uint32)
    decreases |bs|
  {
    if bs == [] then c else FeedBits(FeedBit(c, bs[0]), bs[1..])
  }

  /** The n low bits of a number, the lowest first. */
  function LowBits(x: nat, n: nat): (bs: seq<bit>)
    ensures |bs| == n
  {
    if n == 0 then [] else [x % 2] + LowBits(x / 2, n - 1)
  }

  /** The bits of a message in the order in which they enter the register. */
  function Bits(data: bytes): (bs: seq<bit>)
    ensures |bs| == 8 * |data|
  {
    if data == [] then [] else LowBits(data[0], 8) + Bits(data[1..])
  }

  lemma {:induction false} FeedBitsAppend(c: uint32, a: seq<bit>, b: seq<bit>)
    ensures FeedBits(c, a + b) == FeedBits(FeedBits(c, a), b)
    decreases |a|
  {
    if a == [] {
      assert a + b == b;
    } else {
      assert (a + b)[1..] == a[1..] + b;
      FeedBitsAppend(FeedBit(c, a[0]), a[1..], b);
    }
  }

  /** An even operand passes through the shift. */
  lemma ShiftOfEven(x: uint32, y: nat)
    requires 2 * y < TWO_32
    ensures Shift(XorWord(x, 2 * y)) == XorWord(Shift(x), y)
  {
    hide Bytes.Xor;
    XorHalves(x, 2 * y);
    if x % 2 == 1 {
      XorAssociates(x / 2, y, POLYNOMIAL);
      XorCommutes(y, POLYNOMIAL);
      XorAssociates(x / 2, POLYNOMIAL, y);
    }
  }

  lemma ShiftsOnce(c: uint32, n: nat)
    requires n > 0
    ensures Shifts(c, n) == Shifts(Shift(c), n - 1)
  {
    if n > 1 { ShiftsOnce(c, n - 1); }
  }

  /** Shifting a whole word in at once is feeding its bits. */
  lemma {:induction false} ShiftsFeed(c: uint32, x: uint32, n: nat)
    requires x < Pow2(n)
    ensures Shifts(XorWord(c, x), n) == FeedBits(c, LowBits(x, n))
    decreases n
  {
    hide Bytes.Xor, Shift;
    if n == 0 {
      XorZero(c);
    } else {
      var low, high := x % 2, x / 2;
      XorOfDoubles(low, 0, 0, high);
      XorZero(high);
      XorAssociates(c, low, 2 * high);
      ShiftOfEven(XorWord(c, low), high);
      ShiftsOnce(XorWord(c, x), n);
      ShiftsFeed(FeedBit(c, low), high, n - 1);
    }
  }

  lemma {:induction false} RegisterFeeds(c: uint32, data: bytes)
    ensures Register(c, data) == FeedBits(c, Bits(data))
    decreases |data|
  {
    hide Shifts, LowBits, Bytes.Xor;
    if data == [] {
    } else {
      Pow2Values();
      ShiftsFeed(c, data[0], 8);
      FeedBitsAppend(c, LowBits(data[0], 8), Bits(data[1..]));
      RegisterFeeds(FeedByte(c, data[0]), data[1..]);
    }
  }

  /** The bit-wise difference of two equally long strings, as a number. */
  function Difference(v: seq<bit>, w: seq<bit>): (d: nat)
    requires |v| == |w|
    ensures d == 0 <==> v == w
    ensures d < Pow2(|v|)
  {
    if v == [] then 0
    else
      assert v == [v[0]] + v[1..] && w == [w[0]] + w[1..];
      (if v[0] == w[0] then 0 else 1) + 2 * Difference(v[1..], w[1..])
  }

  /** If two runs over at most 32 bits end alike, they began exactly their bits' difference apart. */
  lemma {:induction false} RunsThatMeet(c: uint32, d: uint32, v: seq<bit>, w: seq<bit>)
    requires |v| == |w| <= 32
    requires FeedBits(c, v) == FeedBits(d, w)
    ensures Xor(c, d) == Difference(v, w)
    decreases |v|
  {
    hide Bytes.Xor, Shift;
    if v == [] {
      XorOfEqual(c);
    } else {
      RunsThatMeet(FeedBit(c, v[0]), FeedBit(d, w[0]), v[1..], w[1..]);
      var rest := Difference(v[1..], w[1..]);
      Pow2Values();
      Pow2Grows(|v| - 1, 31);
      ShiftDifference(XorWord(c, v[0]), XorWord(d, w[0]));
      XorExchange(c, v[0], d, w[0]);
      var e := Xor(v[0], w[0]);
      XorCancels(Xor(c, d), e);
      XorOfDoubles(v[0], w[0], 0, 0);
      XorOfEqual(0);
      XorOfDoubles(0, e, rest, 0);
      XorZero(rest);
    }
  }

  lemma Pow2Grows(m: nat, n: nat)
    requires m <= n
    ensures Pow2(m) <= Pow2(n)
  {
    if m < n { Pow2Grows(m, n - 1); }
  }

  lemma {:induction false} FeedBitsInjective(c: uint32, d: uint32, s: seq<bit>)
    requires FeedBits(c, s) == FeedBits(d, s)
    ensures c == d
    decreases |s|
  {
    if s == [] {
    } else {
      FeedBitsInjective(FeedBit(c, s[0]), FeedBit(d, s[0]), s[1..]);
      assert s[..1][1..] == [];
      RunsThatMeet(c, d, s[..1], s[..1]);
      XorIsZero(c, d);
    }
  }

  /** The register is injective in its initial value. */
  lemma RegisterInjective(c: uint32, d: uint32, s: bytes)
    requires Register(c, s) == Register(d, s)
    ensures c == d
  {
    RegisterFeeds(c, s);
    RegisterFeeds(d, s);
    FeedBitsInjective(c, d, Bits(s));
  }

  lemma {:induction false} LowBitsInjective(x: nat, y: nat, n: nat)
    requires x < Pow2(n) && y < Pow2(n) && LowBits(x, n) == LowBits(y, n)
    ensures x == y
    decreases n
  {
    if n > 0 {
      var v, w := LowBits(x, n), LowBits(y, n);
      assert v[0] == x % 2 && w[0] == y % 2 && v[1..] == LowBits(x / 2, n - 1) && w[1..] == LowBits(y / 2, n - 1);
      LowBitsInjective(x / 2, y / 2, n - 1);
    }
  }

  lemma {:induction false} BitsInjective(m: bytes, m': bytes)
    requires |m| == |m'| && Bits(m) == Bits(m')
    ensures m == m'
    decreases |m|
  {
    hide LowBits;
    if m == [] {
    } else {
      var v, w := Bits(m), Bits(m');
      assert v[..8] == LowBits(m[0], 8) && w[..8] == LowBits(m'[0], 8);
      assert v[8..] == Bits(m[1..]) && w[8..] == Bits(m'[1..]);
      Pow2Values();
      LowBitsInjective(m[0], m'[0], 8);
      BitsInjective(m[1..], m'[1..]);
      assert m == [m[0]] + m[1..] && m' == [m'[0]] + m'[1..];
    }
  }

  /** Messages that differ only inside one window of 32 consecutive bits, anywhere, have different checksums. */
  lemma BurstDetected(m: bytes, m': bytes, start: nat, end: nat)
    requires |m| == |m'| && start <= end <= 8 * |m| && end - start <= 32
    requires Bits(m)[..start] == Bits(m')[..start] && Bits(m)[end..] == Bits(m')[end..]
    requires m != m'
    ensures Checksum(m) != Checksum(m')
  {
    hide Register, Bits, FeedBits;
    var a, b := Bits(m), Bits(m');
    var v, w := a[start..end], b[start..end];
    assert a == a[..start] + v + a[end..] && b == b[..start] + w + b[end..];
    var init := 0xffff_ffff;
    RegisterFeeds(init, m);
    RegisterFeeds(init, m');
    var c := FeedBits(init, a[..start]);
    FeedBitsAppend(init, a[..start], v);
    FeedBitsAppend(init, a[..start] + v, a[end..]);
    FeedBitsAppend(init, a[..start], w);
    FeedBitsAppend(init, a[..start] + w, a[end..]);
    if Checksum(m) == Checksum(m') {
      FeedBitsInjective(FeedBits(c, v), FeedBits(c, w), a[end..]);
      RunsThatMeet(c, c, v, w);
      XorOfEqual(c);
      BitsInjective(m, m');
      assert false;
    }
  }

  lemma {:induction false} BitsAppend(a: bytes, b: bytes)
    ensures Bits(a + b) == Bits(a) + Bits(b)
    decreases |a|
  {
    hide LowBits;
    if a == [] {
      assert a + b == b;
    } else {
      assert (a + b)[1..] == a[1..] + b;
      BitsAppend(a[1..], b);
    }
  }

  /** In particular messages that differ only inside four consecutive bytes. */
  lemma ByteBurstDetected(m: bytes, m': bytes, start: nat, end: nat)
    requires |m| == |m'| && start <= end <= |m| && end - start <= 4
    requires m[..start] == m'[..start] && m[end..] == m'[end..]
    requires m != m'
    ensures Checksum(m) != Checksum(m')
  {
    hide Register, Bits;
    assert m == m[..start] + m[start..] && m' == m'[..start] + m'[start..];
    assert m == m[..end] + m[end..] && m' == m'[..end] + m'[end..];
    BitsAppend(m[..start], m[start..]);
    BitsAppend(m'[..start], m'[start..]);
    BitsAppend(m[..end], m[end..]);
    BitsAppend(m'[..end], m'[end..]);
    BurstDetected(m, m', 8 * start, 8 * end);
  }

  // ---------------------------------------------------------------------------
  // The checksum is the remainder of a division
  // ---------------------------------------------------------------------------

  /**
    The generator polynomial, reflected: bit 32 - e is the coefficient of x to the e. Numbers stand for polynomials
    over the field of two elements, exclusive or is their sum, and the first bit of a message is its highest power.
    */
  const GENERATOR := 2 * POLYNOMIAL + 1

  /** x to the e. */
  function Power(e: nat): (n: nat)
    requires e <= 32
  {
    Pow2(32 - e)
  }

  /** The exponents of IEEE 802.3 section 3.2.9; a sum of different powers is their exclusive or. */
  lemma GeneratorExponents()
    ensures GENERATOR
         == Power(32) + Power(26) + Power(23) + Power(22) + Power(16) + Power(12) + Power(11) + Power(10)
            + Power(8) + Power(7) + Power(5) + Power(4) + Power(2) + Power(1) + Power(0)
  {
    assert Pow2(0) == 1 && Pow2(6) == 64 && Pow2(9) == 512 && Pow2(10) == 1024;
    assert Pow2(16) == 65536 && Pow2(20) == 1048576 && Pow2(21) == 2097152 && Pow2(22) == 4194304;
    assert Pow2(24) == 16777216 && Pow2(25) == 33554432 && Pow2(27) == 134217728 && Pow2(28) == 268435456;
    assert Pow2(30) == 1073741824 && Pow2(31) == 2147483648 && Pow2(32) == 4294967296;
  }

  /** The polynomial of a string of bits. */
  function Number(bs: seq<bit>): (n: nat)
  {
    if bs == [] then 0 else bs[0] + 2 * Number(bs[1..])
  }

  /** The quotient times the generator, plus the remainder behind it. */
  function Dividend(quotient: seq<bit>, remainder: nat): (n: nat)
    decreases |quotient|
  {
    if quotient == [] then remainder
    else Xor(if quotient[0] == 1 then GENERATOR else 0, 2 * Dividend(quotient[1..], remainder))
  }

  lemma FeedBitDivides(c: uint32, b: bit)
    ensures Xor(c, b) == Xor(if Xor(c, b) % 2 == 1 then GENERATOR else 0, 2 * FeedBit(c, b))
  {
    hide Bytes.Xor;
    var y := Xor(c, b);
    var z := 2 * FeedBit(c, b);
    XorZero(z);
    if y % 2 == 1 {
      XorOfDoubles(1, 1, y / 2, POLYNOMIAL);
      assert z == Xor(y, GENERATOR);
      XorCancels(y, GENERATOR);
      XorCommutes(z, GENERATOR);
    }
  }

  /** Feeding bits is dividing: the register is what is left. */
  lemma {:induction false} FeedBitsDivides(c: uint32, bs: seq<bit>) returns (quotient: seq<bit>)
    ensures |quotient| == |bs| && Xor(c, Number(bs)) == Dividend(quotient, FeedBits(c, bs))
    decreases |bs|
  {
    hide Bytes.Xor, Shift;
    if bs == [] {
      quotient := [];
      XorZero(c);
    } else {
      var b := bs[0];
      var d: nat := FeedBit(c, b);
      var rest := FeedBitsDivides(d, bs[1..]);
      var y, n := Xor(c, b), Number(bs[1..]);
      quotient := [y % 2] + rest;
      assert quotient[1..] == rest;
      FeedBitDivides(c, b);
      XorOfDoubles(b, 0, 0, n);
      XorZero(n);
      XorAssociates(c, b, 2 * n);
      var g := if y % 2 == 1 then GENERATOR else 0;
      XorAssociates(g, 2 * d, 2 * n);
      XorOfDoubles(0, 0, d, n);
    }
  }

  /** The generator has a constant term, so a dividend determines quotient and remainder. */
  lemma {:induction false} DivisionUnique(q: seq<bit>, r: nat, q': seq<bit>, r': nat)
    requires |q| == |q'| && Dividend(q, r) == Dividend(q', r')
    ensures r == r'
    decreases |q|
  {
    hide Bytes.Xor;
    if q != [] {
      var g, g' := if q[0] == 1 then GENERATOR else 0, if q'[0] == 1 then GENERATOR else 0;
      var d, d' := 2 * Dividend(q[1..], r), 2 * Dividend(q'[1..], r');
      XorHalves(g, d);
      XorHalves(g', d');
      assert g == g';
      XorCommutes(g, d);
      XorCommutes(g, d');
      XorCancels(d, g);
      XorCancels(d', g);
      DivisionUnique(q[1..], r, q'[1..], r');
    }
  }

  /**
    The complement of the checksum is the remainder of the message, its first 32 bits complemented, on division by
    the generator, and no other 32-bit number is.
    */
  lemma ChecksumIsRemainder(m: bytes, r: uint32)
    ensures r == 0xffff_ffff - Checksum(m) <==>
            exists quotient: seq<bit> :: |quotient| == 8 * |m| && Dividend(quotient, r) == Xor(0xffff_ffff, Number(Bits(m)))
  {
    hide Bytes.Xor, Bits, FeedBits, Dividend, Number, Register;
    RegisterFeeds(0xffff_ffff, m);
    var q := FeedBitsDivides(0xffff_ffff, Bits(m));
    if q': seq<bit> :| |q'| == 8 * |m| && Dividend(q', r) == Xor(0xffff_ffff, Number(Bits(m))) {
      DivisionUnique(q, 0xffff_ffff - Checksum(m), q', r);
    }
  }
}
