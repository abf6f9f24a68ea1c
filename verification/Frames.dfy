/**
  Middle-proxy frames of internal/middleproxy/crypto.go: length, sequence number, message and
  checksum, padded by the sender to whole cipher blocks with filler words that the reader skips.
  */
module Frames {
  import opened Bytes
  import opened Net
  import opened Cbc
  import Crc32

  const FILLER: bytes := [4, 0, 0, 0]

  // ---------------------------------------------------------------------------
  // Writing
  // ---------------------------------------------------------------------------

  function Body(seqNo: int32, msg: bytes): (s: bytes)
    ensures |s| == |msg| + 8
  {
    LE32(Uint32(|msg| + 12)) + LE32(Uint32(seqNo)) + msg
  }

  /** A frame as it stands on the wire, without padding. */
  function Frame(seqNo: int32, msg: bytes): (s: bytes)
    ensures |s| == |msg| + 12
  {
    Body(seqNo, msg) + LE32(Crc32.Checksum(Body(seqNo, msg)))
  }

  function PadLength(n: nat): (k: nat)
    ensures k < BLOCK && (n + k) % BLOCK == 0
  {
    if n % BLOCK == 0 then 0 else BLOCK - n % BLOCK
  }

  /** The filler word repeated, cut off at the block boundary. */
  function Padding(n: nat): (s: bytes)
    ensures |s| == PadLength(n)
  {
    seq(PadLength(n), j requires 0 <= j => FILLER[j % 4])
  }

  function PaddedFrame(seqNo: int32, msg: bytes): (s: bytes)
    ensures Aligned(s)
  {
    Frame(seqNo, msg) + Padding(|msg| + 12)
  }

  /** framePadding: copies the filler word over the pad, four bytes at a time. */
  method FramePadding(n: nat) returns (out: bytes)
    ensures out == Padding(n)
  {
    if n % BLOCK == 0 { return []; }
    var pad := BLOCK - n % BLOCK;
    out := seq(pad, _ => 0);
    var i := 0;
    while i < pad
      invariant 0 <= i && i % 4 == 0 && |out| == pad
      invariant forall j :: 0 <= j < i && j < pad ==> out[j] == FILLER[j % 4]
    {
      var k := if pad - i < 4 then pad - i else 4;
      out := out[..i] + FILLER[..k] + out[i + k..];
      i := i + 4;
    }
  }

  /** writeFrame to the raw connection, or through the cipher layer when there is one. */
  method WriteFrame(raw: TcpConn, cbc: CbcConn?, seqNo: int32, msg: bytes) returns (ok: bool)
    requires cbc != null ==> cbc.conn == raw
    modifies raw`sent, if cbc == null then {} else {cbc}
    ensures ok
    ensures cbc == null ==> raw.sent == old(raw.sent) + PaddedFrame(seqNo, msg)
    ensures cbc != null ==>
              && raw.sent == old(raw.sent) + Encrypt(cbc.enc, old(cbc.encIV), PaddedFrame(seqNo, msg))
              && cbc.encIV == Chain(old(cbc.encIV), Encrypt(cbc.enc, old(cbc.encIV), PaddedFrame(seqNo, msg)))
              && cbc.decIV == old(cbc.decIV) && cbc.buf == old(cbc.buf)
  {
    hide Encrypt, Chain, EnciphersTo, Padding, Crc32.Checksum, Bytes.LE32, Bytes.FromLE32;
    var body := LE32(Uint32(|msg| + 12)) + LE32(Uint32(seqNo)) + msg;
    var crc := Crc32.Crc32IEEE(body);
    var full := body + LE32(crc);
    var padding := FramePadding(|full|);
    if cbc == null {
      raw.Write(full + padding);
      ok := true;
    } else {
      ok := cbc.Write(full + padding);
    }
  }

  // ---------------------------------------------------------------------------
  // Reading
  // ---------------------------------------------------------------------------

  datatype Outcome = Message(data: bytes) | End | WrongSequence | BadLength

  /** What one readFrame makes of a stream: its outcome, what is left, and the stepped sequence number. */
  datatype Parsed = Parsed(outcome: Outcome, rest: bytes, next: int32)

  /** The rest of a frame, once its length word has been read. */
  function ParseBody(s: bytes, msgLen: int32, seqNo: int32): (r: Parsed)
    ensures r.outcome.Message? ==> |r.rest| + |r.outcome.data| + 8 == |s|
  {
    if |s| < 4 then Parsed(End, [], seqNo)
    else if Int32(FromLE32(s[..4])) != seqNo then Parsed(WrongSequence, s[4..], seqNo)
    else if msgLen < 12 then Parsed(BadLength, s[4..], Int32(seqNo + 1))
    else if |s| < msgLen - 4 then Parsed(End, [], Int32(seqNo + 1))
    else Parsed(Message(s[4..msgLen - 8]), s[msgLen - 4..], Int32(seqNo + 1))
  }

  function ParseFrame(s: bytes, seqNo: int32): (r: Parsed)
    ensures r.outcome.Message? ==> |r.rest| + |r.outcome.data| + 12 <= |s|
    decreases |s|
  {
    if |s| < 4 then Parsed(End, [], seqNo)
    else
      var msgLen := Int32(FromLE32(s[..4]));
      if msgLen == 4 then ParseFrame(s[4..], seqNo) else ParseBody(s[4..], msgLen, seqNo)
  }

  ghost function ReadableVia(raw: TcpConn, cbc: CbcConn?): (s: bytes)
    requires cbc != null ==> cbc.conn == raw
    reads raw, cbc
  {
    if cbc == null then raw.incoming else cbc.Readable()
  }

  /** readFull over the connection, or through the cipher layer when there is one. */
  method ReadFullVia(raw: TcpConn, cbc: CbcConn?, n: nat) returns (r: Option<bytes>)
    requires cbc != null ==> cbc.conn == raw && cbc.Valid()
    modifies raw`incoming, if cbc == null then {} else {cbc}
    ensures var s := old(ReadableVia(raw, cbc));
            if n <= |s| then r == Some(s[..n]) && ReadableVia(raw, cbc) == s[n..] else r == None
    ensures cbc != null ==> cbc.Valid() && cbc.encIV == old(cbc.encIV)
  {
    if cbc == null {
      r := raw.ReadFull(n);
    } else {
      r := cbc.Read(n);
    }
  }

  /** readFrame after the length word: checks the sequence number, steps it, drops the checksum. */
  method ReadBody(raw: TcpConn, cbc: CbcConn?, msgLen: int32, seqNo: int32) returns (r: Outcome, next: int32)
    requires cbc != null ==> cbc.conn == raw && cbc.Valid()
    modifies raw`incoming, if cbc == null then {} else {cbc}
    ensures var p := ParseBody(old(ReadableVia(raw, cbc)), msgLen, seqNo);
            r == p.outcome && next == p.next && (r.End? || ReadableVia(raw, cbc) == p.rest)
    ensures cbc != null ==> cbc.Valid() && cbc.encIV == old(cbc.encIV)
  {
    hide Bytes.FromLE32, Bytes.Int32, Decrypt, WholeBlocks;
    ghost var s := ReadableVia(raw, cbc);
    next := seqNo;
    var seqBytes := ReadFullVia(raw, cbc, 4);
    if seqBytes == None { return End, next; }
    var got := Int32(FromLE32(seqBytes.value));
    if seqNo != got { return WrongSequence, next; }
    next := Int32(seqNo + 1);

    var dataLen := msgLen - 12;
    if dataLen < 0 { return BadLength, next; }
    var data := ReadFullVia(raw, cbc, dataLen);
    if data == None { return End, next; }
    var checksum := ReadFullVia(raw, cbc, 4);
    assert s[4..][..dataLen] == s[4..msgLen - 8];
    assert s[4..][dataLen..] == s[msgLen - 8..];
    if checksum == None { return End, next; }
    assert s[msgLen - 8..][4..] == s[msgLen - 4..];
    r := Message(data.value);
  }

  /** readFrame: skips filler words, then reads one frame. */
  method ReadFrame(raw: TcpConn, cbc: CbcConn?, seqNo: int32) returns (r: Outcome, next: int32)
    requires cbc != null ==> cbc.conn == raw && cbc.Valid()
    modifies raw`incoming, if cbc == null then {} else {cbc}
    ensures var p := ParseFrame(old(ReadableVia(raw, cbc)), seqNo);
            r == p.outcome && next == p.next && (r.End? || ReadableVia(raw, cbc) == p.rest)
    ensures cbc != null ==> cbc.Valid() && cbc.encIV == old(cbc.encIV)
  {
    hide Bytes.FromLE32, Bytes.Int32, Decrypt, WholeBlocks, ParseBody;
    while true
      invariant ParseFrame(ReadableVia(raw, cbc), seqNo) == ParseFrame(old(ReadableVia(raw, cbc)), seqNo)
      invariant cbc != null ==> cbc.Valid() && cbc.encIV == old(cbc.encIV)
      decreases |ReadableVia(raw, cbc)|
    {
      var lenBytes := ReadFullVia(raw, cbc, 4);
      if lenBytes == None { return End, seqNo; }
      var msgLen := Int32(FromLE32(lenBytes.value));
      if msgLen != 4 {
        r, next := ReadBody(raw, cbc, msgLen, seqNo);
        return;
      }
    }
  }

  // ---------------------------------------------------------------------------
  // Round trip
  // ---------------------------------------------------------------------------

  function Fillers(k: nat): (s: bytes)
    ensures |s| == 4 * k
  {
    if k == 0 then [] else FILLER + Fillers(k - 1)
  }

  /** Messages whose length survives the int32 length word. */
  predicate Fits(msg: bytes) {
    |msg| + 12 < TWO_31
  }

  lemma FillerWord()
    ensures FromLE32(FILLER) == 4 && FILLER == [4, 0, 0, 0]
  {}

  lemma {:induction false} SkipsFillers(k: nat, s: bytes, seqNo: int32)
    ensures ParseFrame(Fillers(k) + s, seqNo) == ParseFrame(s, seqNo)
  {
    if k == 0 {
      assert Fillers(k) + s == s;
    } else {
      var t := Fillers(k) + s;
      assert t[..4] == FILLER && t[4..] == Fillers(k - 1) + s;
      FillerWord();
      SkipsFillers(k - 1, s, seqNo);
    }
  }

  /** A written frame byte by byte: length, number, message, checksum, each word with its low byte first, and the pad. */
  lemma FrameBytes(seqNo: int32, msg: bytes)
    requires |msg| + 12 < 0x1_0000_0000
    ensures var s := PaddedFrame(seqNo, msg);
            var n := |msg|;
            && |s| % 16 == 0 && n + 12 <= |s| < n + 28
            && s[0] as int + 256 * (s[1] as int) + 65536 * (s[2] as int) + 16777216 * (s[3] as int) == n + 12
            && s[4] as int + 256 * (s[5] as int) + 65536 * (s[6] as int) + 16777216 * (s[7] as int) == seqNo % 0x1_0000_0000
            && s[8..n + 8] == msg && s[n + 8..n + 12] == LE32(Crc32.Checksum(s[..n + 8]))
            && forall j :: n + 12 <= j < |s| ==> s[j] == if (j - n) % 4 == 0 then 4 else 0
  {
    hide Bytes.LE32, Bytes.FromLE32, Crc32.Checksum, Padding;
    var s, n, pad := PaddedFrame(seqNo, msg), |msg|, Padding(|msg| + 12);
    var len, num, crc := LE32(Uint32(n + 12)), LE32(Uint32(seqNo)), LE32(Crc32.Checksum(Body(seqNo, msg)));
    assert s == len + num + msg + crc + pad;
    FrameParts(len, num, msg, crc, pad);
    LittleEndian32(len);
    LittleEndian32(num);
    PaddingBytes(n + 12);
    forall j | n + 12 <= j < |s| ensures s[j] == if (j - n) % 4 == 0 then 4 else 0 {
      assert s[j] == pad[j - (n + 12)];
      assert (j - n) % 4 == (j - (n + 12)) % 4;
    }
  }

  lemma FrameParts(len: bytes, num: bytes, msg: bytes, crc: bytes, rest: bytes)
    requires |len| == |num| == |crc| == 4
    ensures var s := len + num + msg + crc + rest;
            var n := |msg|;
            && s[0] == len[0] && s[1] == len[1] && s[2] == len[2] && s[3] == len[3]
            && s[4] == num[0] && s[5] == num[1] && s[6] == num[2] && s[7] == num[3]
            && s[8..n + 8] == msg && s[n + 8..n + 12] == crc && s[..n + 8] == len + num + msg
  {}

  lemma PaddingBytes(n: nat)
    ensures forall j :: 0 <= j < |Padding(n)| ==> Padding(n)[j] == if j % 4 == 0 then 4 else 0
  {}

  /** A frame under another number is refused, and the number is not stepped. */
  lemma WrongNumberIsRefused(seqNo: int32, other: int32, msg: bytes, rest: bytes)
    requires Fits(msg) && other != seqNo
    ensures ParseFrame(Frame(other, msg) + rest, seqNo).outcome == WrongSequence
    ensures ParseFrame(Frame(other, msg) + rest, seqNo).next == seqNo
  {
    hide Bytes.LE32, Bytes.FromLE32, Bytes.Int32, Crc32.Checksum, ParseFrame;
    var len, num, crc := LE32(Uint32(|msg| + 12)), LE32(Uint32(other)), LE32(Crc32.Checksum(Body(other, msg)));
    var s := len + num + msg + crc + rest;
    assert Frame(other, msg) + rest == s;
    FrameSlices(len, num, msg, crc, rest);
    Int32OfUint32(other);
    WordsDecide(s, seqNo);
  }

  /** A length from 5 to 11, or below 4, is refused. */
  lemma ShortLengthIsRefused(seqNo: int32, s: bytes)
    requires |s| >= 8 && FromLE32(s[..4]) < 12 && FromLE32(s[..4]) != 4 && Int32(FromLE32(s[4..][..4])) == seqNo
    ensures ParseFrame(s, seqNo).outcome == BadLength && ParseFrame(s, seqNo).next == Int32(seqNo + 1)
  {
    hide Bytes.FromLE32;
  }

  lemma WordsDecide(s: bytes, seqNo: int32)
    requires |s| >= 8 && 12 <= FromLE32(s[..4]) < TWO_31
    ensures Int32(FromLE32(s[4..][..4])) != seqNo ==> ParseFrame(s, seqNo) == Parsed(WrongSequence, s[4..][4..], seqNo)
    ensures |s| < FromLE32(s[..4]) && Int32(FromLE32(s[4..][..4])) == seqNo ==> ParseFrame(s, seqNo).outcome == End
  {
    hide Bytes.FromLE32;
  }

  /** Every part of a frame short of the whole is the end of the stream. */
  lemma CutOffFrameIsEnd(seqNo: int32, msg: bytes, k: nat)
    requires Fits(msg) && k < |msg| + 12
    ensures ParseFrame(Frame(seqNo, msg)[..k], seqNo).outcome == End
  {
    hide Bytes.LE32, Bytes.FromLE32, Crc32.Checksum;
    var len, num, crc := LE32(Uint32(|msg| + 12)), LE32(Uint32(seqNo)), LE32(Crc32.Checksum(Body(seqNo, msg)));
    assert Frame(seqNo, msg) == len + num + msg + crc + [];
    FrameSlices(len, num, msg, crc, []);
    var s := Frame(seqNo, msg)[..k];
    if k >= 4 { assert s[..4] == len; }
    if k >= 8 {
      assert s[4..][..4] == num;
      Int32OfUint32(seqNo);
      WordsDecide(s, seqNo);
    }
  }

  lemma FrameSlices(len: bytes, num: bytes, msg: bytes, crc: bytes, rest: bytes)
    requires |len| == |num| == |crc| == 4
    ensures var s := len + num + msg + crc + rest;
            && s[..4] == len && s[4..][..4] == num
            && s[4..][4..|msg| + 4] == msg && s[4..][|msg| + 8..] == rest
  {}

  /** A frame of at least twelve bytes is never taken for filler, and its reader stops right behind it. */
  lemma ReadsBack(seqNo: int32, msg: bytes, rest: bytes)
    requires Fits(msg)
    ensures ParseFrame(Frame(seqNo, msg) + rest, seqNo) == Parsed(Message(msg), rest, Int32(seqNo + 1))
  {
    hide Body, Bytes.LE32, Bytes.Int32, Crc32.Checksum, ParseFrame;
    ChecksumIsIgnored(seqNo, msg, LE32(Crc32.Checksum(Body(seqNo, msg))), rest);
  }

  /** And that whatever stands in the place of the checksum. */
  lemma ChecksumIsIgnored(seqNo: int32, msg: bytes, crc: bytes, rest: bytes)
    requires Fits(msg) && |crc| == 4
    ensures ParseFrame(Body(seqNo, msg) + crc + rest, seqNo) == Parsed(Message(msg), rest, Int32(seqNo + 1))
  {
    hide Bytes.LE32, Bytes.FromLE32, Bytes.Int32;
    var n := |msg| + 12;
    var len, num := LE32(Uint32(n)), LE32(Uint32(seqNo));
    assert Body(seqNo, msg) + crc + rest == len + num + msg + crc + rest;
    FrameSlices(len, num, msg, crc, rest);
    Int32OfUint32(seqNo);
    ParsesSlices(len + num + msg + crc + rest, n, seqNo);
  }

  /** A longer message, up to 2^32, is refused by its negative length word. */
  lemma TooLongIsRefused(seqNo: int32, msg: bytes, rest: bytes)
    requires TWO_31 <= |msg| + 12 < TWO_32
    ensures ParseFrame(Frame(seqNo, msg) + rest, seqNo).outcome == BadLength
  {
    hide Bytes.LE32, Bytes.FromLE32, Bytes.Int32, Crc32.Checksum, ParseFrame;
    var n := |msg| + 12;
    var len, num, crc := LE32(Uint32(n)), LE32(Uint32(seqNo)), LE32(Crc32.Checksum(Body(seqNo, msg)));
    assert Frame(seqNo, msg) + rest == len + num + msg + crc + rest;
    FrameSlices(len, num, msg, crc, rest);
    Int32OfUint32(seqNo);
    RefusesNegative(len + num + msg + crc + rest, seqNo);
  }

  lemma RefusesNegative(s: bytes, seqNo: int32)
    requires |s| >= 8 && FromLE32(s[..4]) >= TWO_31 && Int32(FromLE32(s[4..][..4])) == seqNo
    ensures ParseFrame(s, seqNo).outcome == BadLength
  {
    hide Bytes.FromLE32;
  }

  lemma ParsesSlices(s: bytes, n: nat, seqNo: int32)
    requires 12 <= n < TWO_31 && n <= |s|
    requires FromLE32(s[..4]) == n && Int32(FromLE32(s[4..][..4])) == seqNo
    ensures ParseFrame(s, seqNo) == Parsed(Message(s[4..][4..n - 8]), s[4..][n - 4..], Int32(seqNo + 1))
  {}

  /** The pad behind an aligned message is a whole number of filler words. */
  lemma PaddingIsFillers(n: nat)
    requires n % 4 == 0
    ensures PadLength(n) % 4 == 0 && Padding(n) == Fillers(PadLength(n) / 4)
  {
    var k := PadLength(n) / 4;
    FillersRepeat(k);
    assert forall j :: 0 <= j < |Padding(n)| ==> Padding(n)[j] == Fillers(k)[j];
  }

  lemma FillersRepeat(k: nat)
    ensures forall j :: 0 <= j < 4 * k ==> Fillers(k)[j] == FILLER[j % 4]
  {
    if k > 0 {
      FillersRepeat(k - 1);
      forall j | 0 <= j < 4 * k ensures Fillers(k)[j] == FILLER[j % 4] {
        if j >= 4 { assert Fillers(k)[j] == Fillers(k - 1)[j - 4]; }
      }
    }
  }

  /** All messages a reader gets out of a stream, and how its last readFrame ends. */
  function Deframe(s: bytes, seqNo: int32): (r: (seq<bytes>, Outcome))
    decreases |s|
  {
    var p := ParseFrame(s, seqNo);
    match p.outcome
    case Message(data) =>
      var (msgs, end) := Deframe(p.rest, p.next);
      ([data] + msgs, end)
    case _ => ([], p.outcome)
  }

  lemma DeframeSkipsFillers(k: nat, s: bytes, seqNo: int32)
    ensures Deframe(Fillers(k) + s, seqNo) == Deframe(s, seqNo)
  {
    SkipsFillers(k, s, seqNo);
  }

  lemma DeframeNothing(seqNo: int32)
    ensures Deframe([], seqNo) == ([], End)
  {}

  /** A stream of frames numbered from seqNo, each behind any number of filler words. */
  datatype Slot = Slot(fillers: nat, msg: bytes)

  function SlotMessages(slots: seq<Slot>): (msgs: seq<bytes>)
  {
    if slots == [] then [] else [slots[0].msg] + SlotMessages(slots[1..])
  }

  function FrameStream(slots: seq<Slot>, seqNo: int32): (s: bytes)
    decreases |slots|
  {
    if slots == [] then []
    else Fillers(slots[0].fillers) + Frame(seqNo, slots[0].msg) + FrameStream(slots[1..], Int32(seqNo + 1))
  }

  lemma {:induction false} FrameStreamReadsBack(slots: seq<Slot>, tail: nat, seqNo: int32)
    requires forall x :: x in slots ==> Fits(x.msg)
    ensures Deframe(FrameStream(slots, seqNo) + Fillers(tail), seqNo) == (SlotMessages(slots), End)
    decreases |slots|
  {
    hide Frame, ParseFrame, Fillers, Bytes.Int32;
    if slots == [] {
      assert FrameStream(slots, seqNo) + Fillers(tail) == Fillers(tail) + [];
      DeframeSkipsFillers(tail, [], seqNo);
      DeframeNothing(seqNo);
    } else {
      var x := slots[0];
      var rest := FrameStream(slots[1..], Int32(seqNo + 1)) + Fillers(tail);
      var s := FrameStream(slots, seqNo) + Fillers(tail);
      assert s == Fillers(x.fillers) + (Frame(seqNo, x.msg) + rest);
      DeframeSkipsFillers(x.fillers, Frame(seqNo, x.msg) + rest, seqNo);
      ReadsBack(seqNo, x.msg, rest);
      FrameStreamReadsBack(slots[1..], tail, Int32(seqNo + 1));
    }
  }

  /** What a run of writeFrame calls puts out. */
  function WrittenFrames(msgs: seq<bytes>, seqNo: int32): (s: bytes)
    ensures Aligned(s)
    decreases |msgs|
  {
    if msgs == [] then []
    else
      var first, others := PaddedFrame(seqNo, msgs[0]), WrittenFrames(msgs[1..], Int32(seqNo + 1));
      AlignedAppend(first, others);
      first + others
  }

  lemma PaddedFrameReadsBack(seqNo: int32, m: bytes, rest: bytes)
    requires Fits(m) && |m| % 4 == 0
    ensures var (msgs, end) := Deframe(rest, Int32(seqNo + 1));
            Deframe(PaddedFrame(seqNo, m) + rest, seqNo) == ([m] + msgs, end)
  {
    hide Frame, ParseFrame, Fillers, Padding, PadLength, Bytes.Int32;
    var pad := Padding(|m| + 12);
    assert PaddedFrame(seqNo, m) + rest == Frame(seqNo, m) + (pad + rest);
    ReadsBack(seqNo, m, pad + rest);
    PaddingIsFillers(|m| + 12);
    DeframeSkipsFillers(PadLength(|m| + 12) / 4, rest, Int32(seqNo + 1));
  }

  /** Every list of aligned messages is read back in order, with only filler left behind the last. */
  lemma {:induction false} WrittenFramesReadBack(msgs: seq<bytes>, seqNo: int32)
    requires forall m :: m in msgs ==> Fits(m) && |m| % 4 == 0
    ensures Deframe(WrittenFrames(msgs, seqNo), seqNo) == (msgs, End)
    decreases |msgs|
  {
    hide PaddedFrame, Deframe, Bytes.Int32;
    if msgs == [] {
      DeframeNothing(seqNo);
    } else {
      PaddedFrameReadsBack(seqNo, msgs[0], WrittenFrames(msgs[1..], Int32(seqNo + 1)));
      WrittenFramesReadBack(msgs[1..], Int32(seqNo + 1));
      assert msgs == [msgs[0]] + msgs[1..];
    }
  }

  lemma {:induction false} WrittenFramesAppend(msgs: seq<bytes>, more: seq<bytes>, seqNo: int32)
    ensures WrittenFrames(msgs + more, seqNo)
         == WrittenFrames(msgs, seqNo) + WrittenFrames(more, Int32(seqNo + |msgs|))
    decreases |msgs|
  {
    hide PaddedFrame, Bytes.Int32;
    if msgs == [] {
      assert msgs + more == more;
    } else {
      assert (msgs + more)[1..] == msgs[1..] + more;
      WrittenFramesAppend(msgs[1..], more, Int32(seqNo + 1));
      Int32Step(seqNo + 1, |msgs| - 1);
      var first, front := PaddedFrame(seqNo, msgs[0]), WrittenFrames(msgs[1..], Int32(seqNo + 1));
      var back := WrittenFrames(more, Int32(seqNo + |msgs|));
      assert first + (front + back) == (first + front) + back;
    }
  }
}
