/**
  The padded-intermediate packets of internal/middleproxy/intermediate.go: reassembly out of a
  stream that arrives in arbitrary pieces.
  */
module Intermediate {
  import opened Bytes

  const MAX_LENGTH := 0x10_0000

  datatype Next = Whole(payload: bytes, rest: bytes) | Incomplete | Refused

  /** nextPaddedIntermediate: the top bit of the length word is a flag and is masked out. */
  function NextPacket(buf: bytes): (r: Next)
    ensures r.Whole? ==> |buf| == 4 + |r.payload| + |r.rest| && 0 < |r.payload| <= MAX_LENGTH
  {
    if |buf| < 4 then Incomplete
    else
      var n := FromLE32(buf[..4]) % TWO_31;
      if n == 0 || n > MAX_LENGTH then Refused
      else if |buf| < 4 + n then Incomplete
      else Whole(buf[4..4 + n], buf[4 + n..])
  }

  /** Byte by byte: the length has its low byte first and 31 bits, and is good from 1 to 1048576. */
  lemma NextPacketMeans(buf: bytes)
    ensures |buf| < 4 ==> NextPacket(buf) == Incomplete
    ensures |buf| >= 4 ==>
              var n := buf[0] as int + 256 * (buf[1] as int) + 65536 * (buf[2] as int) + 16777216 * (buf[3] as int % 128);
              NextPacket(buf) ==
              if n == 0 || n > 1048576 then Refused
              else if |buf| < 4 + n then Incomplete
              else Whole(buf[4..4 + n], buf[4 + n..])
  {
    hide Bytes.FromLE32;
    if |buf| >= 4 {
      LittleEndian32(buf[..4]);
      MaskTopBit(buf[0] as int + 256 * (buf[1] as int) + 65536 * (buf[2] as int), buf[3]);
    }
  }

  lemma MaskTopBit(low: nat, top: byte)
    requires low < 16777216
    ensures (low + 16777216 * (top as int)) % TWO_31 == low + 16777216 * (top as int % 128)
  {
    if top >= 128 {
      assert top as int % 128 == top as int - 128;
      assert (low + 16777216 * (top as int - 128) + TWO_31) % TWO_31 == (low + 16777216 * (top as int - 128)) % TWO_31;
    }
  }

  datatype Status = Waiting | Malformed | Unaligned

  /** What a buffer holds: the payloads to forward, the bytes to keep, and whether the stream is still good. */
  datatype Reassembly = Reassembly(payloads: seq<bytes>, rest: bytes, status: Status)

  function Reassemble(buf: bytes): (r: Reassembly)
    decreases |buf|
  {
    match NextPacket(buf)
    case Incomplete => Reassembly([], buf, Waiting)
    case Refused => Reassembly([], buf, Malformed)
    case Whole(payload, rest) =>
      if |payload| % 4 != 0 then Reassembly([], buf, Unaligned)
      else
        var r := Reassemble(rest);
        r.(payloads := [payload] + r.payloads)
  }

  lemma {:induction false} PayloadsAreAligned(buf: bytes)
    ensures forall p :: p in Reassemble(buf).payloads ==> 0 < |p| <= MAX_LENGTH && |p| % 4 == 0
    decreases |buf|
  {
    var next := NextPacket(buf);
    if next.Whole? && |next.payload| % 4 == 0 { PayloadsAreAligned(next.rest); }
  }

  /** More input never changes a verdict already reached on the front of the buffer. */
  lemma NextPacketExtends(a: bytes, b: bytes)
    ensures NextPacket(a).Whole? ==>
              NextPacket(a + b) == Whole(NextPacket(a).payload, NextPacket(a).rest + b)
    ensures NextPacket(a).Refused? ==> NextPacket(a + b).Refused?
  {
    if |a| >= 4 {
      assert (a + b)[..4] == a[..4];
      var n := FromLE32(a[..4]) % TWO_31;
      if 0 < n <= MAX_LENGTH && 4 + n <= |a| {
        assert (a + b)[4..4 + n] == a[4..4 + n] && (a + b)[4 + n..] == a[4 + n..] + b;
      }
    }
  }

  /** Feeding a stream in two pieces equals feeding it at once; a bad stream stays bad and forwards nothing. */
  lemma {:induction false} ReassembleInPieces(a: bytes, b: bytes)
    ensures var r := Reassemble(a);
            var r' := Reassemble(r.rest + b);
            && Reassemble(a + b) == Reassembly(r.payloads + r'.payloads, r'.rest, r'.status)
            && (!r.status.Waiting? ==> r' == Reassembly([], r.rest + b, r.status))
    decreases |a|
  {
    hide NextPacket;
    NextPacketExtends(a, b);
    var next := NextPacket(a);
    if next.Whole? && |next.payload| % 4 == 0 {
      var r := Reassemble(next.rest);
      var r' := Reassemble(r.rest + b);
      ReassembleInPieces(next.rest, b);
      assert [next.payload] + (r.payloads + r'.payloads) == ([next.payload] + r.payloads) + r'.payloads;
    }
  }

  // ---------------------------------------------------------------------------
  // The sequence of Write calls
  // ---------------------------------------------------------------------------

  /** wbuf, and all payloads handed to the inner connection so far. */
  datatype Writer = Writer(wbuf: bytes, forwarded: seq<bytes>)

  /** One Write call over an inner connection that accepts everything. */
  function AfterWrite(w: Writer, p: bytes): (r: Writer)
  {
    if p == [] then w
    else
      var r := Reassemble(w.wbuf + p);
      Writer(r.rest, w.forwarded + r.payloads)
  }

  function AfterWrites(w: Writer, chunks: seq<bytes>): (r: Writer)
    decreases |chunks|
  {
    if chunks == [] then w else AfterWrites(AfterWrite(w, chunks[0]), chunks[1..])
  }

  /** For every byte stream and every split into writes, the outcome is the one-shot parse of the stream. */
  lemma SplitDoesNotMatter(chunks: seq<bytes>)
    ensures var r := Reassemble(Concat(chunks));
            AfterWrites(Writer([], []), chunks) == Writer(r.rest, r.payloads)
  {
    assert Reassemble([]) == Reassembly([], [], Waiting);
    SplitFrom([], chunks);
    assert [] + Concat(chunks) == Concat(chunks);
  }

  lemma {:induction false} SplitFrom(done: bytes, chunks: seq<bytes>)
    ensures var r := Reassemble(done);
            var r' := Reassemble(done + Concat(chunks));
            AfterWrites(Writer(r.rest, r.payloads), chunks) == Writer(r'.rest, r'.payloads)
    decreases |chunks|
  {
    hide Reassemble;
    if chunks == [] {
      assert done + Concat(chunks) == done;
    } else {
      ReassembleInPieces(done, chunks[0]);
      if chunks[0] == [] { assert done + chunks[0] == done; }
      SplitFrom(done + chunks[0], chunks[1..]);
      assert done + Concat(chunks) == done + chunks[0] + Concat(chunks[1..]);
    }
  }

  /** After a malformed or unaligned packet every later write forwards nothing more, and the stream stays bad. */
  lemma {:induction false} BadStreamForwardsNothing(w: Writer, chunks: seq<bytes>)
    requires !Reassemble(w.wbuf).status.Waiting? && Reassemble(w.wbuf).rest == w.wbuf
    ensures AfterWrites(w, chunks) == Writer(w.wbuf + Concat(chunks), w.forwarded)
    ensures Reassemble(w.wbuf + Concat(chunks)).status == Reassemble(w.wbuf).status
    decreases |chunks|
  {
    hide Reassemble;
    if chunks == [] {
      assert w.wbuf + Concat(chunks) == w.wbuf;
    } else {
      ReassembleInPieces(w.wbuf, chunks[0]);
      var w' := AfterWrite(w, chunks[0]);
      assert w' == Writer(w.wbuf + chunks[0], w.forwarded);
      if chunks[0] == [] { assert w.wbuf + chunks[0] == w.wbuf; }
      BadStreamForwardsNothing(w', chunks[1..]);
      assert w'.wbuf + Concat(chunks[1..]) == w.wbuf + Concat(chunks);
    }
  }

  // ---------------------------------------------------------------------------
  // Well-formed streams
  // ---------------------------------------------------------------------------

  datatype AnyPacket = AnyPacket(payload: bytes, flag: bool)

  /** The packets a client may send: 1 to 2^20 bytes, a multiple of 4, with or without the flag bit. */
  type Packet = x: AnyPacket | 0 < |x.payload| <= MAX_LENGTH && |x.payload| % 4 == 0
    witness AnyPacket([0, 0, 0, 0], false)

  function LengthWord(x: Packet): (n: nat)
    ensures n < TWO_32 && n % TWO_31 == |x.payload|
  {
    |x.payload| + if x.flag then TWO_31 else 0
  }

  function Serialize(xs: seq<Packet>): (s: bytes)
  {
    if xs == [] then [] else LE32(LengthWord(xs[0])) + xs[0].payload + Serialize(xs[1..])
  }

  function Payloads(xs: seq<Packet>): (ps: seq<bytes>)
    ensures |ps| == |xs|
  {
    if xs == [] then [] else [xs[0].payload] + Payloads(xs[1..])
  }

  lemma FirstPacket(word: nat, payload: bytes, rest: bytes)
    requires word < TWO_32 && word % TWO_31 == |payload| && 0 < |payload| <= MAX_LENGTH
    ensures NextPacket(LE32(word) + payload + rest) == Whole(payload, rest)
  {
    hide Bytes.LE32, Bytes.FromLE32;
    var s := LE32(word) + payload + rest;
    assert s[..4] == LE32(word);
    assert s[4..4 + |payload|] == payload && s[4 + |payload|..] == rest;
  }

  /** A stream of whole packets is taken apart into exactly their payloads. */
  lemma {:induction false} SerializedReassembles(xs: seq<Packet>)
    ensures Reassemble(Serialize(xs)) == Reassembly(Payloads(xs), [], Waiting)
  {
    hide NextPacket, Bytes.LE32;
    if xs == [] {
      NothingWaits();
    } else {
      FirstPacket(LengthWord(xs[0]), xs[0].payload, Serialize(xs[1..]));
      SerializedReassembles(xs[1..]);
    }
  }

  lemma NothingWaits()
    ensures Reassemble([]) == Reassembly([], [], Waiting)
  {}
}
