/**
  Bytes, the fixed-width integer encodings of Go's encoding/binary, two's-complement
  reinterpretation, exclusive or, and concatenation of byte strings.
  */
module Bytes {

  type byte = b: int | 0 <= b < 256
  type bytes = seq<byte>

  // Byte strings of a fixed length
  type Digest = b: bytes | |b| == 32 witness seq(32, _ => 0)
  type Nonce = b: bytes | |b| == 16 witness seq(16, _ => 0)
  type Ip4 = b: bytes | |b| == 4 witness [0, 0, 0, 0]

  const TWO_16 := 0x1_0000
  const TWO_31 := 0x8000_0000
  const TWO_32 := 0x1_0000_0000
  const TWO_64 := 0x1_0000_0000_0000_0000

  // ---------------------------------------------------------------------------
  // Little-endian and big-endian words
  // ---------------------------------------------------------------------------

  function FromLE16(b: bytes): (n: nat)
    requires |b| == 2
    ensures n < TWO_16
  {
    b[0] as int + 0x100 * (b[1] as int)
  }

  function LE16(n: nat): (b: bytes)
    requires n < TWO_16
    ensures |b| == 2 && FromLE16(b) == n
  {
    [n % 0x100, n / 0x100]
  }

  function FromLE32(b: bytes): (n: nat)
    requires |b| == 4
    ensures n < TWO_32
  {
    FromLE16(b[..2]) + TWO_16 * FromLE16(b[2..])
  }

  function LE32(n: nat): (b: bytes)
    requires n < TWO_32
    ensures |b| == 4 && FromLE32(b) == n
  {
    var lo, hi := LE16(n % TWO_16), LE16(n / TWO_16);
    assert (lo + hi)[..2] == lo && (lo + hi)[2..] == hi;
    lo + hi
  }

  lemma LE16OfFromLE16(b: bytes)
    requires |b| == 2
    ensures LE16(FromLE16(b)) == b
  {}

  lemma LE32OfFromLE32(b: bytes)
    requires |b| == 4
    ensures LE32(FromLE32(b)) == b
  {
    hide LE16, FromLE16;
    LE16OfFromLE16(b[..2]);
    LE16OfFromLE16(b[2..]);
    assert b == b[..2] + b[2..];
  }

  function FromBE16(b: bytes): (n: nat)
    requires |b| == 2
    ensures n < TWO_16
  {
    0x100 * (b[0] as int) + b[1] as int
  }

  function BE16(n: nat): (b: bytes)
    requires n < TWO_16
    ensures |b| == 2 && FromBE16(b) == n
  {
    [n / 0x100, n % 0x100]
  }

  function FromBE24(b: bytes): (n: nat)
    requires |b| == 3
    ensures n < 0x100_0000
  {
    TWO_16 * (b[0] as int) + FromBE16(b[1..])
  }

  function BE24(n: nat): (b: bytes)
    requires n < 0x100_0000
    ensures |b| == 3 && FromBE24(b) == n
  {
    var lo := BE16(n % TWO_16);
    assert ([n / TWO_16] + lo)[1..] == lo;
    [n / TWO_16] + lo
  }

  function FromBE32(b: bytes): (n: nat)
    requires |b| == 4
    ensures n < TWO_32
  {
    TWO_16 * FromBE16(b[..2]) + FromBE16(b[2..])
  }

  function BE32(n: nat): (b: bytes)
    requires n < TWO_32
    ensures |b| == 4 && FromBE32(b) == n
  {
    var hi, lo := BE16(n / TWO_16), BE16(n % TWO_16);
    assert (hi + lo)[..2] == hi && (hi + lo)[2..] == lo;
    hi + lo
  }

  function FromBE64(b: bytes): (n: nat)
    requires |b| == 8
    ensures n < TWO_64
  {
    TWO_32 * FromBE32(b[..4]) + FromBE32(b[4..])
  }

  function BE64(n: nat): (b: bytes)
    requires n < TWO_64
    ensures |b| == 8 && FromBE64(b) == n
  {
    var hi, lo := BE32(n / TWO_32), BE32(n % TWO_32);
    assert (hi + lo)[..4] == hi && (hi + lo)[4..] == lo;
    hi + lo
  }

  // What the bytes are worth, written out

  lemma LittleEndian16(b: bytes)
    requires |b| == 2
    ensures FromLE16(b) == b[0] as int + 256 * (b[1] as int)
  {}

  lemma LittleEndian32(b: bytes)
    requires |b| == 4
    ensures FromLE32(b) == b[0] as int + 256 * (b[1] as int) + 65536 * (b[2] as int) + 16777216 * (b[3] as int)
  {}

  lemma BigEndian16(b: bytes)
    requires |b| == 2
    ensures FromBE16(b) == 256 * (b[0] as int) + b[1] as int
  {}

  lemma BigEndian24(b: bytes)
    requires |b| == 3
    ensures FromBE24(b) == 65536 * (b[0] as int) + 256 * (b[1] as int) + b[2] as int
  {}

  lemma BigEndian32(b: bytes)
    requires |b| == 4
    ensures FromBE32(b) == 16777216 * (b[0] as int) + 65536 * (b[1] as int) + 256 * (b[2] as int) + b[3] as int
  {}

  lemma BigEndian64(b: bytes)
    requires |b| == 8
    ensures FromBE64(b) == 4294967296 * FromBE32(b[..4]) + FromBE32(b[4..])
  {}

  // ---------------------------------------------------------------------------
  // Signed integers and their conversions
  // ---------------------------------------------------------------------------

  type int16 = x: int | -0x8000 <= x < 0x8000
  type int32 = x: int | -0x8000_0000 <= x < 0x8000_0000

  /** Go's uint16(x) for an int x. */
  function Uint16(x: int): (n: nat)
    ensures n < TWO_16
  {
    x % TWO_16
  }

  /** Go's uint32(x) for an int x. */
  function Uint32(x: int): (n: nat)
    ensures n < TWO_32
  {
    x % TWO_32
  }

  /** Go's int16(x) for an int x: the representative of x modulo 2^16 in the signed range. */
  function Int16(x: int): (r: int16)
    ensures (r - x) % TWO_16 == 0
    ensures -0x8000 <= x < 0x8000 ==> r == x
  {
    var n := x % TWO_16;
    if n < 0x8000 then n else n - TWO_16
  }

  /** Go's int32(x) for an int x, also the wrap-around of an int32 increment. */
  function Int32(x: int): (r: int32)
    ensures (r - x) % TWO_32 == 0
    ensures -0x8000_0000 <= x < 0x8000_0000 ==> r == x
  {
    var n := x % TWO_32;
    if n < TWO_31 then n else n - TWO_32
  }

  lemma Int16OfUint16(x: int)
    ensures Int16(Uint16(Int16(x))) == Int16(x)
  {}

  lemma Uint16OfInt16(x: int)
    ensures Uint16(Int16(x)) == Uint16(x)
  {}

  lemma Int32OfUint32(x: int32)
    ensures Int32(Uint32(x)) == x
  {}

  lemma Int32Step(x: int, k: int)
    ensures Int32(Int32(x) + k) == Int32(x + k)
  {
    var d := (Int32(x) - x) / TWO_32;
    assert Int32(x) == x + d * TWO_32;
    assert (x + k + d * TWO_32) % TWO_32 == (x + k) % TWO_32;
  }

  // ---------------------------------------------------------------------------
  // Exclusive or
  // ---------------------------------------------------------------------------

  function Xor(a: nat, b: nat): (r: nat)
  {
    if a == 0 && b == 0 then 0 else (if a % 2 == b % 2 then 0 else 1) + 2 * Xor(a / 2, b / 2)
  }

  lemma XorBound(a: nat, b: nat, n: nat)
    requires a < Pow2(n) && b < Pow2(n)
    ensures Xor(a, b) < Pow2(n)
  {
    if n > 0 { XorBound(a / 2, b / 2, n - 1); }
  }

  function Pow2(n: nat): (r: nat)
    ensures r > 0
  {
    if n == 0 then 1 else 2 * Pow2(n - 1)
  }

  lemma Pow2Of8More(n: nat)
    ensures Pow2(n + 8) == 256 * Pow2(n)
  {
    assert Pow2(n + 8) == 4 * Pow2(n + 6);
    assert Pow2(n + 6) == 4 * Pow2(n + 4);
    assert Pow2(n + 4) == 4 * Pow2(n + 2);
  }

  lemma Pow2Values()
    ensures Pow2(8) == 256 && Pow2(24) == 0x100_0000 && Pow2(31) == TWO_31 && Pow2(32) == TWO_32
  {
    assert Pow2(0) == 1;
    Pow2Of8More(0);
    Pow2Of8More(8);
    Pow2Of8More(16);
    Pow2Of8More(24);
    assert Pow2(32) == 2 * Pow2(31);
  }

  lemma XorHalves(a: nat, b: nat)
    ensures Xor(a, b) / 2 == Xor(a / 2, b / 2)
    ensures Xor(a, b) % 2 == if a % 2 == b % 2 then 0 else 1
  {}

  /** Bit i of a number. */
  function Bit(n: nat, i: nat): (b: nat)
    ensures b < 2
  {
    if i == 0 then n % 2 else Bit(n / 2, i - 1)
  }

  /** Exclusive or: a bit is set exactly where the two operands differ. */
  lemma {:induction false} XorBits(a: nat, b: nat, i: nat)
    ensures Bit(Xor(a, b), i) == 1 <==> Bit(a, i) != Bit(b, i)
    decreases i
  {
    XorHalves(a, b);
    if i > 0 { XorBits(a / 2, b / 2, i - 1); }
  }

  lemma XorCommutes(a: nat, b: nat)
    ensures Xor(a, b) == Xor(b, a)
  {}

  lemma {:induction false} XorCancels(a: nat, b: nat)
    ensures Xor(Xor(a, b), b) == a
  {
    if a == 0 && b == 0 {
    } else {
      XorCancels(a / 2, b / 2);
      XorHalves(a, b);
      XorHalves(Xor(a, b), b);
    }
  }

  lemma XorOfEqual(a: nat)
    ensures Xor(a, a) == 0
  {}

  lemma XorZero(a: nat)
    ensures Xor(a, 0) == a == Xor(0, a)
  {}

  lemma XorOfDoubles(p: nat, q: nat, x: nat, y: nat)
    requires p < 2 && q < 2
    ensures Xor(p + 2 * x, q + 2 * y) == (if p == q then 0 else 1) + 2 * Xor(x, y)
  {
    XorHalves(p + 2 * x, q + 2 * y);
  }

  function ShiftLeft(c: nat, n: nat): (r: nat)
  {
    if n == 0 then c else 2 * ShiftLeft(c, n - 1)
  }

  /** Exclusive or works digit by digit in any power-of-two base. */
  lemma {:induction false} XorDigits(a: nat, b: nat, c: nat, d: nat, n: nat)
    requires a < Pow2(n) && b < Pow2(n)
    ensures Xor(a + ShiftLeft(c, n), b + ShiftLeft(d, n)) == Xor(a, b) + ShiftLeft(Xor(c, d), n)
  {
    hide Xor;
    if n == 0 {
      assert Xor(0, 0) == 0 by { XorOfEqual(0); }
    } else {
      var x, y := a / 2 + ShiftLeft(c, n - 1), b / 2 + ShiftLeft(d, n - 1);
      XorDigits(a / 2, b / 2, c, d, n - 1);
      assert a + ShiftLeft(c, n) == a % 2 + 2 * x && b + ShiftLeft(d, n) == b % 2 + 2 * y;
      XorOfDoubles(a % 2, b % 2, x, y);
      XorOfDoubles(a % 2, b % 2, a / 2, b / 2);
    }
  }

  lemma XorBase256(a: byte, b: byte, c: nat, d: nat)
    ensures Xor(a + 256 * c, b + 256 * d) == XorByte(a, b) + 256 * Xor(c, d)
  {
    assert Pow2(8) == 256;
    XorDigits(a, b, c, d, 8);
    Shift8(c);
    Shift8(d);
    Shift8(Xor(c, d));
  }

  lemma ShiftLeftTwice(k: nat, n: nat)
    requires n >= 2
    ensures ShiftLeft(k, n) == 4 * ShiftLeft(k, n - 2)
  {}

  lemma Shift8(k: nat)
    ensures ShiftLeft(k, 8) == 256 * k
  {
    ShiftLeftTwice(k, 2);
    ShiftLeftTwice(k, 4);
    ShiftLeftTwice(k, 6);
    ShiftLeftTwice(k, 8);
  }

  type uint16 = n: nat | n < TWO_16
  type uint32 = n: nat | n < TWO_32

  function XorWord(a: uint32, b: uint32): (r: uint32)
  {
    assert Xor(a, b) < TWO_32 by {
      Pow2Values();
      XorBound(a, b, 32);
    }
    Xor(a, b)
  }

  function XorByte(a: byte, b: byte): (r: byte)
  {
    assert Xor(a, b) < 256 by {
      assert Pow2(8) == 256;
      XorBound(a, b, 8);
    }
    Xor(a, b)
  }

  /** Byte-wise exclusive or of two strings of the same length. */
  function XorBytes(a: bytes, b: bytes): (r: bytes)
    requires |a| == |b|
    ensures |r| == |a|
  {
    seq(|a|, i requires 0 <= i < |a| => XorByte(a[i], b[i]))
  }

  lemma XorBytesCancels(a: bytes, b: bytes)
    requires |a| == |b|
    ensures XorBytes(XorBytes(a, b), b) == a
  {
    forall i | 0 <= i < |a| ensures XorBytes(XorBytes(a, b), b)[i] == a[i] {
      XorCancels(a[i], b[i]);
    }
  }

  /** The exclusive or of two 32-bit words is the word of the byte-wise exclusive or. */
  lemma XorOfWords(a: bytes, b: bytes)
    requires |a| == |b| == 4
    ensures Xor(FromLE32(a), FromLE32(b)) == FromLE32(XorBytes(a, b))
  {
    XorOfHalfWords(a[..2], b[..2], FromLE16(a[2..]), FromLE16(b[2..]));
    XorOfHalfWords(a[2..], b[2..], 0, 0);
    assert XorBytes(a, b)[..2] == XorBytes(a[..2], b[..2]);
    assert XorBytes(a, b)[2..] == XorBytes(a[2..], b[2..]);
  }

  lemma XorOfHalfWords(a: bytes, b: bytes, c: nat, d: nat)
    requires |a| == |b| == 2
    ensures Xor(FromLE16(a) + TWO_16 * c, FromLE16(b) + TWO_16 * d)
         == FromLE16(XorBytes(a, b)) + TWO_16 * Xor(c, d)
  {
    XorBase256(a[1], b[1], c, d);
    XorBase256(a[0], b[0], a[1] as int + 256 * c, b[1] as int + 256 * d);
  }

  // ---------------------------------------------------------------------------
  // Concatenation
  // ---------------------------------------------------------------------------

  /** A stream of which one part has been delivered and the other is left. */
  ghost predicate Delivered(done: bytes, left: bytes, all: bytes) {
    done + left == all
  }

  lemma NothingDelivered(all: bytes)
    ensures Delivered([], all, all)
  {}

  lemma StartDelivery(done: bytes, left: bytes)
    ensures Delivered(done, left, done + left)
  {}

  /** Delivering the next piece of what is left. */
  lemma DeliverPiece(done: bytes, left: bytes, all: bytes, piece: bytes)
    requires Delivered(done, left, all) && piece <= left
    ensures Delivered(done + piece, left[|piece|..], all)
  {}

  lemma DeliveredParts(done: bytes, left: bytes, all: bytes)
    requires Delivered(done, left, all)
    ensures done <= all && left == all[|done|..] && done == all[..|done|] && |done| + |left| == |all|
    ensures left == [] ==> done == all
  {}

  /** Taking k bytes from a buffer takes them from the buffer and what follows it. */
  lemma TakeFront(buf: bytes, more: bytes, k: nat)
    requires k <= |buf|
    ensures buf[..k] <= buf + more && (buf + more)[k..] == buf[k..] + more
  {}

  lemma TakeDelivers(buf: bytes, more: bytes, k: nat)
    requires k <= |buf|
    ensures Delivered(buf[..k], buf[k..] + more, buf + more)
  {
    assert buf == buf[..k] + buf[k..];
  }

  function Concat(ss: seq<bytes>): (s: bytes)
  {
    if ss == [] then [] else ss[0] + Concat(ss[1..])
  }

  lemma {:induction false} ConcatAppend(ss: seq<bytes>, tt: seq<bytes>)
    ensures Concat(ss + tt) == Concat(ss) + Concat(tt)
  {
    if ss == [] {
      assert ss + tt == tt;
    } else {
      assert (ss + tt)[1..] == ss[1..] + tt;
      ConcatAppend(ss[1..], tt);
    }
  }

  lemma ConcatNothing()
    ensures Concat([]) == []
  {}

  lemma ConcatFirst(ss: seq<bytes>)
    requires ss != []
    ensures Concat(ss) == ss[0] + Concat(ss[1..])
  {}

  lemma ConcatSnoc(ss: seq<bytes>, s: bytes)
    ensures Concat(ss + [s]) == Concat(ss) + s
  {
    ConcatAppend(ss, [s]);
    assert Concat([s]) == s;
  }
}
