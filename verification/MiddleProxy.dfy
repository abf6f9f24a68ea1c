/**
  The middle-proxy connection stack of internal/middleproxy: intermediateConn over proxyConn over
  relayConn over cbcConn over TCP, and the two end-to-end statements about it.
  */
module MiddleProxy {
  import opened Bytes
  import opened Net
  import opened Cbc
  import opened Frames
  import opened Intermediate
  import opened ProxyRpc

  // ---------------------------------------------------------------------------
  // Upload: what goes out
  // ---------------------------------------------------------------------------

  /** The sending side of a relay connection. */
  datatype Outbound = Outbound(sent: bytes, iv: Block, seqNo: int32)

  /** The sending side after framing and encrypting msgs. */
  function Sending(c: Cipher, o: Outbound, msgs: seq<bytes>): (r: Outbound)
  {
    var s := Encrypt(c, o.iv, WrittenFrames(msgs, o.seqNo));
    Outbound(o.sent + s, Chain(o.iv, s), Int32(o.seqNo + |msgs|))
  }

  lemma SendingNothing(c: Cipher, o: Outbound)
    ensures Sending(c, o, []) == o
  {
    assert o.sent + [] == o.sent;
  }

  lemma SendingMore(c: Cipher, o: Outbound, msgs: seq<bytes>, more: seq<bytes>)
    ensures Sending(c, Sending(c, o, msgs), more) == Sending(c, o, msgs + more)
  {
    hide Encrypt, WrittenFrames, Chain, Bytes.Int32;
    var p, q := WrittenFrames(msgs, o.seqNo), WrittenFrames(more, Int32(o.seqNo + |msgs|));
    var s := Encrypt(c, o.iv, p);
    var t := Encrypt(c, Chain(o.iv, s), q);
    WrittenFramesAppend(msgs, more, o.seqNo);
    EncryptAppend(c, o.iv, p, q);
    assert Encrypt(c, o.iv, WrittenFrames(msgs + more, o.seqNo)) == s + t;
    EncryptedIsAligned(c, o.iv, p);
    EncryptedIsAligned(c, Chain(o.iv, s), q);
    ChainAppend(o.iv, s, t);
    Int32Step(o.seqNo + |msgs|, |more|);
    assert o.sent + s + t == o.sent + (s + t);
  }

  lemma EncryptedIsAligned(c: Cipher, iv: Block, p: bytes)
    requires Aligned(p)
    ensures Aligned(Encrypt(c, iv, p))
  {}

  function Requests(payloads: seq<bytes>, opts: Options, id: ConnId): (msgs: seq<bytes>)
    ensures |msgs| == |payloads|
    ensures forall i :: 0 <= i < |payloads| ==> msgs[i] == BuildProxyReq(payloads[i], opts, id)
  {
    seq(|payloads|, i requires 0 <= i < |payloads| => BuildProxyReq(payloads[i], opts, id))
  }

  class RelayConn {
    const raw: TcpConn
    const cbc: CbcConn
    var readSeq: int32
    var writeSeq: int32
    var readBuf: bytes

    constructor (raw: TcpConn, cbc: CbcConn, readSeq: int32, writeSeq: int32)
      ensures this.raw == raw && this.cbc == cbc
      ensures this.readSeq == readSeq && this.writeSeq == writeSeq && readBuf == []
    {
      this.raw, this.cbc, this.readSeq, this.writeSeq, this.readBuf := raw, cbc, readSeq, writeSeq, [];
    }

    ghost predicate Valid()
      reads this, cbc
    {
      cbc.conn == raw && cbc.Valid()
    }

    ghost function Out(): (o: Outbound)
      reads this, cbc, raw
    {
      Outbound(raw.sent, cbc.encIV, writeSeq)
    }
  }

  class ProxyConn {
    const relay: RelayConn
    const opts: Options
    const connId: ConnId

    constructor (relay: RelayConn, opts: Options, connId: ConnId)
      ensures this.relay == relay && this.opts == opts && this.connId == connId
    {
      this.relay, this.opts, this.connId := relay, opts, connId;
    }

    /** sendPayload: wraps, frames and encrypts one aligned payload. */
    method SendPayload(payload: bytes) returns (ok: bool)
      requires relay.Valid()
      modifies relay`writeSeq, relay.cbc, relay.raw`sent
      ensures relay.Valid() && relay.cbc.decIV == old(relay.cbc.decIV) && relay.cbc.buf == old(relay.cbc.buf)
      ensures ok == (payload != [] && |payload| % 4 == 0)
      ensures relay.Out() == if ok then Sending(relay.cbc.enc, old(relay.Out()), [BuildProxyReq(payload, opts, connId)])
                             else old(relay.Out())
    {
      if |payload| == 0 || |payload| % 4 != 0 { return false; }
      var msg := BuildProxyReq(payload, opts, connId);
      ok := WriteFrame(relay.raw, relay.cbc, relay.writeSeq, msg);
      SingleFrame(msg, relay.writeSeq);
      relay.writeSeq := Int32(relay.writeSeq + 1);
    }

    /** readPayload: the buffered rest of an answer, or the next non-empty answer; everything else is skipped. */
    method ReadPayload() returns (r: Option<bytes>, end: Ending)
      requires relay.Valid()
      modifies relay`readSeq, relay`readBuf, relay.cbc, relay.raw`incoming
      ensures relay.Valid() && relay.cbc.encIV == old(relay.cbc.encIV)
      ensures old(relay.readBuf) != [] ==>
                && r == Some(old(relay.readBuf)) && relay.readBuf == []
                && relay.cbc.Readable() == old(relay.cbc.Readable()) && relay.readSeq == old(relay.readSeq)
      ensures old(relay.readBuf) == [] ==>
                match TakePayload(old(relay.cbc.Readable()), old(relay.readSeq))
                case Taken(payload, rest, next) =>
                  && r == Some(payload) && relay.readBuf == []
                  && relay.cbc.Readable() == rest && relay.readSeq == next
                case Failed(e) => r == None && end == e && relay.readBuf == []
    {
      hide ParseFrame, ParseProxyAns;
      end := Eof;
      while |relay.readBuf| == 0
        invariant relay.Valid() && relay.cbc.encIV == old(relay.cbc.encIV)
        invariant old(relay.readBuf) != [] ==>
                    && relay.readBuf == old(relay.readBuf)
                    && relay.cbc.Readable() == old(relay.cbc.Readable()) && relay.readSeq == old(relay.readSeq)
        invariant old(relay.readBuf) == [] && relay.readBuf == [] ==>
                    TakePayload(relay.cbc.Readable(), relay.readSeq)
                    == TakePayload(old(relay.cbc.Readable()), old(relay.readSeq))
        invariant old(relay.readBuf) == [] && relay.readBuf != [] ==>
                    TakePayload(old(relay.cbc.Readable()), old(relay.readSeq))
                    == Taken(relay.readBuf, relay.cbc.Readable(), relay.readSeq)
        decreases |relay.readBuf| == 0, |relay.cbc.Readable()|
      {
        var frame, next := ReadFrame(relay.raw, relay.cbc, relay.readSeq);
        relay.readSeq := next;
        if !frame.Message? { return None, FrameError(frame); }
        match ParseProxyAns(frame.data) {
          case Closed => return None, Eof;
          case Short => return None, ShortAnswer;
          case Skip =>
          case Data(data) => relay.readBuf := data;
        }
      }
      r := Some(relay.readBuf);
      relay.readBuf := [];
    }

    method Write(p: bytes) returns (ok: bool)
      requires relay.Valid()
      modifies relay`writeSeq, relay.cbc, relay.raw`sent
      ensures relay.Valid() && relay.cbc.decIV == old(relay.cbc.decIV) && relay.cbc.buf == old(relay.cbc.buf)
      ensures ok == (|p| % 4 == 0)
      ensures relay.Out() == if ok && p != [] then Sending(relay.cbc.enc, old(relay.Out()), [BuildProxyReq(p, opts, connId)])
                             else old(relay.Out())
    {
      if |p| == 0 { return true; }
      if |p| % 4 != 0 { return false; }
      ok := SendPayload(p);
    }
  }

  lemma SingleFrame(msg: bytes, seqNo: int32)
    ensures WrittenFrames([msg], seqNo) == PaddedFrame(seqNo, msg)
  {
    hide PaddedFrame, Bytes.Int32;
    assert WrittenFrames([msg][1..], Int32(seqNo + 1)) == [];
  }

  lemma RequestsAppend(ps: seq<bytes>, qs: seq<bytes>, opts: Options, id: ConnId)
    ensures Requests(ps + qs, opts, id) == Requests(ps, opts, id) + Requests(qs, opts, id)
  {}

  /** A parse with the payloads already forwarded put back in front. */
  function Behind(done: seq<bytes>, r: Reassembly): (t: Reassembly)
  {
    r.(payloads := done + r.payloads)
  }

  /** One iteration of the loop in Write. */
  lemma ReassembleStep(done: seq<bytes>, buf: bytes)
    ensures var next := NextPacket(buf);
            Behind(done, Reassemble(buf)) ==
            match next
            case Refused => Reassembly(done, buf, Malformed)
            case Incomplete => Reassembly(done, buf, Waiting)
            case Whole(payload, rest) =>
              if |payload| % 4 != 0 then Reassembly(done, buf, Unaligned)
              else Behind(done + [payload], Reassemble(rest))
  {
    hide NextPacket;
    var next := NextPacket(buf);
    if next.Whole? {
      assert done + ([next.payload] + Reassemble(next.rest).payloads)
          == (done + [next.payload]) + Reassemble(next.rest).payloads;
    }
  }

  class IntermediateConn {
    const inner: ProxyConn
    var wbuf: bytes
    var readBuf: bytes

    constructor (inner: ProxyConn)
      ensures this.inner == inner && wbuf == [] && readBuf == []
    {
      this.inner, wbuf, readBuf := inner, [], [];
    }

    ghost predicate Valid()
      reads inner.relay, inner.relay.cbc
    {
      inner.relay.Valid()
    }

    ghost function Out(): (o: Outbound)
      reads inner.relay, inner.relay.cbc, inner.relay.raw
    {
      inner.relay.Out()
    }

    ghost function OutAfter(o: Outbound, payloads: seq<bytes>): (r: Outbound)
    {
      Sending(inner.relay.cbc.enc, o, Requests(payloads, inner.opts, inner.connId))
    }

    /** Write forwards every complete packet of the stream so far and keeps the rest; it fails on a bad one. */
    method Write(p: bytes) returns (ok: bool)
      requires Valid()
      modifies this`wbuf, inner.relay`writeSeq, inner.relay.cbc, inner.relay.raw`sent
      ensures Valid() && inner.relay.cbc.decIV == old(inner.relay.cbc.decIV) && inner.relay.cbc.buf == old(inner.relay.cbc.buf)
      ensures p == [] ==> ok && wbuf == old(wbuf) && Out() == old(Out())
      ensures p != [] ==>
                var r := Reassemble(old(wbuf) + p);
                ok == r.status.Waiting? && wbuf == r.rest && Out() == OutAfter(old(Out()), r.payloads)
    {
      hide Sending, Requests, NextPacket, Reassemble, BuildProxyReq;
      if |p| == 0 { return true; }
      wbuf := wbuf + p;
      ghost var done: seq<bytes> := [];
      NothingSent(Out());
      while true
        invariant Valid()
        invariant inner.relay.cbc.decIV == old(inner.relay.cbc.decIV) && inner.relay.cbc.buf == old(inner.relay.cbc.buf)
        invariant Reassemble(old(wbuf) + p) == Behind(done, Reassemble(wbuf))
        invariant Out() == OutAfter(old(Out()), done)
        decreases |wbuf|
      {
        ReassembleStep(done, wbuf);
        match NextPacket(wbuf) {
          case Refused => return false;
          case Incomplete => return true;
          case Whole(payload, rest) =>
            if |payload| % 4 != 0 { return false; }
            var sent := inner.Write(payload);
            OneMore(old(Out()), done, payload);
            wbuf, done := rest, done + [payload];
        }
      }
    }

    /** The stream s has been written on top of o: its complete packets have gone out, the rest is kept. */
    ghost predicate Forwarded(o: Outbound, s: bytes)
      reads this`wbuf, inner.relay, inner.relay.cbc, inner.relay.raw
    {
      wbuf == Reassemble(s).rest && Out() == OutAfter(o, Reassemble(s).payloads)
    }

    /** A write that continues a stream forwards what the longer stream forwards, and succeeds unless that is bad. */
    method WriteMore(p: bytes, ghost o: Outbound, ghost s: bytes) returns (ok: bool)
      requires Valid() && Forwarded(o, s)
      modifies this`wbuf, inner.relay`writeSeq, inner.relay.cbc, inner.relay.raw`sent
      ensures Valid() && inner.relay.cbc.decIV == old(inner.relay.cbc.decIV) && inner.relay.cbc.buf == old(inner.relay.cbc.buf)
      ensures Forwarded(o, s + p) && ok == (p == [] || Reassemble(s + p).status.Waiting?)
    {
      hide Sending, Requests, Reassemble;
      ghost var r := Reassemble(s);
      ReassembleInPieces(s, p);
      ok := Write(p);
      MoreSent(o, r.payloads, Reassemble(r.rest + p).payloads);
      if p == [] { assert s + p == s; }
    }

    /**
      Any byte stream in any pieces: what is forwarded and kept is that of the one-shot parse. The first write that
      completes a bad packet fails, and from then on every write but an empty one fails and nothing is forwarded.
      */
    method WriteStream(chunks: seq<bytes>) returns (oks: seq<bool>)
      requires Valid() && wbuf == []
      modifies this`wbuf, inner.relay`writeSeq, inner.relay.cbc, inner.relay.raw`sent
      ensures Valid() && Forwarded(old(Out()), Concat(chunks)) && |oks| == |chunks|
      ensures forall i :: 0 <= i < |chunks| ==>
                oks[i] == (chunks[i] == [] || Reassemble(Concat(chunks[..i + 1])).status.Waiting?)
      ensures forall i, j :: 0 <= i < j < |chunks| && !oks[i] ==> oks[j] == (chunks[j] == [])
      ensures forall i :: 0 <= i < |chunks| && !oks[i] ==>
                Out() == OutAfter(old(Out()), Reassemble(Concat(chunks[..i + 1])).payloads)
    {
      hide Sending, Requests, Reassemble, Bytes.Concat;
      ghost var o := Out();
      NothingForwarded(o);
      oks := [];
      for k := 0 to |chunks|
        invariant Valid() && Forwarded(o, Concat(chunks[..k])) && |oks| == k
        invariant forall i :: 0 <= i < k ==>
                    oks[i] == (chunks[i] == [] || Reassemble(Concat(chunks[..i + 1])).status.Waiting?)
      {
        assert chunks[..k + 1] == chunks[..k] + [chunks[k]];
        ConcatSnoc(chunks[..k], chunks[k]);
        var ok := WriteMore(chunks[k], o, Concat(chunks[..k]));
        oks := oks + [ok];
      }
      assert chunks[..|chunks|] == chunks;
      forall i | 0 <= i < |chunks| && !oks[i]
        ensures forall j :: i < j < |chunks| ==> oks[j] == (chunks[j] == [])
        ensures Out() == OutAfter(old(Out()), Reassemble(Concat(chunks[..i + 1])).payloads)
      {
        forall j | i < j < |chunks| ensures oks[j] == (chunks[j] == []) { StaysBad(chunks, i + 1, j + 1); }
        StaysBad(chunks, i + 1, |chunks|);
      }
    }

    /** The rest of the client's download. */
    ghost function Download(): (r: bytes)
      requires Valid()
      reads this, inner.relay, inner.relay.cbc, inner.relay.raw
    {
      Remaining(readBuf, inner.relay.readBuf, inner.relay.cbc.Readable(), inner.relay.readSeq)
    }

    ghost function DownloadEnd(): (r: Ending)
      requires Valid()
      reads inner.relay, inner.relay.cbc, inner.relay.raw
    {
      ClientStream(inner.relay.cbc.Readable(), inner.relay.readSeq).1
    }

    /** Read delivers the front of the download, never nothing while there is some, and fails only at its end. */
    method Read(n: nat) returns (r: Option<bytes>, end: Ending)
      requires Valid()
      modifies this`readBuf, inner.relay`readSeq, inner.relay`readBuf, inner.relay.cbc, inner.relay.raw`incoming
      ensures Valid() && inner.relay.cbc.encIV == old(inner.relay.cbc.encIV)
      ensures r.Some? <==> old(Download()) != []
      ensures r.Some? ==>
                && |r.value| <= n && (n > 0 ==> r.value != [])
                && r.value <= old(Download()) && Download() == old(Download())[|r.value|..]
                && (readBuf != [] ==> |r.value| == n)
                && DownloadEnd() == old(DownloadEnd())
      ensures r.None? ==> end == old(DownloadEnd())
    {
      hide ClientStream, TakePayload, Framed, Remaining;
      end := Eof;
      var relay := inner.relay;
      if |readBuf| == 0 {
        RemainingFromPayload(relay.readBuf, relay.cbc.Readable(), relay.readSeq);
        var payload, e := inner.ReadPayload();
        if payload == None { return None, e; }
        readBuf := Framed(payload.value);
      }
      var k := if n < |readBuf| then n else |readBuf|;
      RemainingAfter(readBuf, relay.readBuf, relay.cbc.Readable(), relay.readSeq, k);
      r := Some(readBuf[..k]);
      readBuf := readBuf[k..];
    }

    /**
      The server, which decrypts, deframes and strips headers, gets exactly the payloads of these packets out of
      what was sent after o, under consecutive numbers.
      */
    ghost predicate Arrived(o: Outbound, packets: seq<Packet>)
      reads inner.relay, inner.relay.cbc, inner.relay.raw
    {
      && Out().seqNo == Int32(o.seqNo + |packets|)
      && o.sent <= Out().sent
      && var wire := Out().sent[|o.sent|..];
      && Aligned(wire)
      && var (requests, end) := ServerReceives(inner.relay.cbc.enc, o.iv, wire, o.seqNo);
      && end == End
      && CarriesPayloads(requests, Payloads(packets), inner.opts, inner.connId)
    }

    lemma NothingForwarded(o: Outbound)
      requires wbuf == [] && Out() == o
      ensures Forwarded(o, Concat([]))
    {
      hide Sending, Requests;
      NothingWaits();
      NothingSent(o);
    }

    lemma AllArrived(o: Outbound, packets: seq<Packet>)
      requires Forwarded(o, Serialize(packets))
      ensures wbuf == [] && Arrived(o, packets)
    {
      hide Sending, Requests, Reassemble, Serialize, ServerReceives, CarriesPayloads, Bytes.Int32;
      SerializedReassembles(packets);
      PayloadsAreAligned(Serialize(packets));
      SentPayloadsArrive(inner.relay.cbc.enc, o, Payloads(packets), inner.opts, inner.connId);
      SentShape(o, Payloads(packets));
    }

    lemma NothingSent(o: Outbound)
      ensures OutAfter(o, []) == o
    {
      SendingNothing(inner.relay.cbc.enc, o);
    }

    lemma MoreSent(o: Outbound, ps: seq<bytes>, qs: seq<bytes>)
      ensures OutAfter(OutAfter(o, ps), qs) == OutAfter(o, ps + qs)
    {
      hide Sending;
      var opts, id := inner.opts, inner.connId;
      RequestsAppend(ps, qs, opts, id);
      SendingMore(inner.relay.cbc.enc, o, Requests(ps, opts, id), Requests(qs, opts, id));
    }

    lemma SentShape(o: Outbound, ps: seq<bytes>)
      ensures o.sent <= OutAfter(o, ps).sent
      ensures OutAfter(o, ps).sent[|o.sent|..]
           == Encrypt(inner.relay.cbc.enc, o.iv, WrittenFrames(Requests(ps, inner.opts, inner.connId), o.seqNo))
      ensures OutAfter(o, ps).seqNo == Int32(o.seqNo + |ps|)
    {}

    lemma OneMore(o: Outbound, done: seq<bytes>, payload: bytes)
      ensures Sending(inner.relay.cbc.enc, OutAfter(o, done), [BuildProxyReq(payload, inner.opts, inner.connId)])
           == OutAfter(o, done + [payload])
    {
      hide Sending;
      assert Requests([payload], inner.opts, inner.connId) == [BuildProxyReq(payload, inner.opts, inner.connId)];
      MoreSent(o, done, [payload]);
    }
  }

  /** A middle-proxy server's reading of a ciphertext: decrypt, deframe, take each request apart. */
  function ServerReceives(c: Cipher, iv: Block, wire: bytes, seqNo: int32): (r: (seq<Option<Request>>, Outcome))
    requires Aligned(wire)
  {
    var (msgs, end) := Deframe(Decrypt(c, iv, wire), seqNo);
    (seq(|msgs|, i requires 0 <= i < |msgs| => ParseProxyReq(msgs[i])), end)
  }

  /** Exactly these payloads, in order and in requests that all carry the given connection's addresses. */
  ghost predicate CarriesPayloads(rs: seq<Option<Request>>, payloads: seq<bytes>, opts: Options, id: ConnId)
  {
    && |rs| == |payloads|
    && forall i :: 0 <= i < |rs| ==>
         && rs[i].Some?
         && rs[i].value.payload == payloads[i]
         && rs[i].value.id == id
         && rs[i].value.client == EncodeIpPort(opts.client, opts.clientPort)
         && rs[i].value.local == EncodeIpPort(opts.local, opts.localPort)
         && rs[i].value.adTag == if |opts.adTag| == 16 then Some(opts.adTag) else None
  }

  ghost predicate Payload(p: bytes) {
    0 < |p| <= MAX_LENGTH && |p| % 4 == 0
  }

  /** Every list of aligned payloads arrives through framing, padding and encryption. */
  lemma SentPayloadsArrive(c: Cipher, o: Outbound, payloads: seq<bytes>, opts: Options, id: ConnId)
    requires forall p :: p in payloads ==> Payload(p)
    ensures var wire := Encrypt(c, o.iv, WrittenFrames(Requests(payloads, opts, id), o.seqNo));
            && Sending(c, o, Requests(payloads, opts, id)).sent == o.sent + wire
            && Aligned(wire)
            && ServerReceives(c, o.iv, wire, o.seqNo).1 == End
            && CarriesPayloads(ServerReceives(c, o.iv, wire, o.seqNo).0, payloads, opts, id)
  {
    hide Encrypt, Decrypt, Deframe, WrittenFrames, BuildProxyReq, ParseProxyReq, EncodeIpPort;
    var msgs := Requests(payloads, opts, id);
    forall m | m in msgs ensures Fits(m) && |m| % 4 == 0 {
      var i :| 0 <= i < |msgs| && m == msgs[i];
      assert Payload(payloads[i]);
    }
    var p := WrittenFrames(msgs, o.seqNo);
    EncryptedIsAligned(c, o.iv, p);
    DecryptInvertsEncrypt(c, o.iv, p);
    WrittenFramesReadBack(msgs, o.seqNo);
    forall i | 0 <= i < |payloads| { RequestReadsBack(payloads[i], opts, id); }
  }

  /**
    Upload end to end: whatever packets the client sends and however its stream is cut into writes,
    every write succeeds, nothing stays behind, and the server gets exactly the payloads in order.
    */
  method Upload(c: IntermediateConn, packets: seq<Packet>, chunks: seq<bytes>) returns (ok: bool)
    requires c.Valid() && c.wbuf == []
    requires Concat(chunks) == Serialize(packets)
    modifies c`wbuf, c.inner.relay`writeSeq, c.inner.relay.cbc, c.inner.relay.raw`sent
    ensures ok && c.Valid() && c.wbuf == []
    ensures c.inner.relay.cbc.Readable() == old(c.inner.relay.cbc.Readable())
    ensures c.Arrived(old(c.Out()), packets)
  {
    hide Sending, Requests, Reassemble, Serialize, ServerReceives, CarriesPayloads, Bytes.Int32, IntermediateConn.Arrived;
    ghost var o := c.Out();
    c.NothingForwarded(o);
    ok := true;
    for k := 0 to |chunks|
      invariant ok && c.Valid() && c.Forwarded(o, Concat(chunks[..k]))
      invariant c.inner.relay.cbc.decIV == old(c.inner.relay.cbc.decIV) && c.inner.relay.cbc.buf == old(c.inner.relay.cbc.buf)
    {
      assert chunks[..k + 1] == chunks[..k] + [chunks[k]];
      ConcatSnoc(chunks[..k], chunks[k]);
      assert chunks[..k + 1] + chunks[k + 1..] == chunks;
      PrefixIsGood(chunks[..k + 1], chunks[k + 1..], packets);
      ok := c.WriteMore(chunks[k], o, Concat(chunks[..k]));
    }
    assert chunks[..|chunks|] == chunks;
    c.AllArrived(o, packets);
  }

  /** Whatever follows a bad stream, it stays bad and nothing more is forwarded. */
  lemma StaysBad(chunks: seq<bytes>, i: nat, j: nat)
    requires i <= j <= |chunks| && !Reassemble(Concat(chunks[..i])).status.Waiting?
    ensures var r, r' := Reassemble(Concat(chunks[..i])), Reassemble(Concat(chunks[..j]));
            !r'.status.Waiting? && r'.payloads == r.payloads
  {
    hide Reassemble, Bytes.Concat;
    assert chunks[..j] == chunks[..i] + chunks[i..j];
    ConcatAppend(chunks[..i], chunks[i..j]);
    ReassembleInPieces(Concat(chunks[..i]), Concat(chunks[i..j]));
  }

  /** No prefix of a good stream is bad. */
  lemma PrefixWaits(s: bytes, more: bytes, packets: seq<Packet>)
    requires s + more == Serialize(packets)
    ensures Reassemble(s).status.Waiting?
  {
    hide Reassemble, Serialize;
    ReassembleInPieces(s, more);
    SerializedReassembles(packets);
  }

  lemma PrefixIsGood(chunks: seq<bytes>, more: seq<bytes>, packets: seq<Packet>)
    requires Concat(chunks + more) == Serialize(packets)
    ensures Reassemble(Concat(chunks)).status.Waiting?
  {
    ConcatAppend(chunks, more);
    PrefixWaits(Concat(chunks), Concat(more), packets);
  }

  // ---------------------------------------------------------------------------
  // Download: what comes in
  // ---------------------------------------------------------------------------

  /** A payload as intermediateConn hands it to the client. */
  function Framed(data: bytes): (s: bytes)
    ensures |s| == 4 + |data|
  {
    LE32(Uint32(|data|)) + data
  }

  /** Its length stands in front of it, low byte first. */
  lemma FramedBytes(data: bytes)
    requires |data| < 0x1_0000_0000
    ensures var s := Framed(data);
            && s[0] as int + 256 * (s[1] as int) + 65536 * (s[2] as int) + 16777216 * (s[3] as int) == |data|
            && s[4..] == data
  {
    hide Bytes.LE32, Bytes.FromLE32;
    var len := LE32(Uint32(|data|));
    assert Framed(data)[0] == len[0] && Framed(data)[1] == len[1] && Framed(data)[2] == len[2] && Framed(data)[3] == len[3];
    LittleEndian32(len);
  }

  /** How the client's stream ends: the close frame, a short answer, or a failed readFrame. */
  datatype Ending = Eof | ShortAnswer | FrameError(outcome: Outcome)

  /** Everything the client will still read out of a plaintext stream, and how that ends. */
  function ClientStream(s: bytes, seqNo: int32): (r: (bytes, Ending))
    decreases |s|
  {
    var p := ParseFrame(s, seqNo);
    if !p.outcome.Message? then ([], FrameError(p.outcome))
    else
      match ParseProxyAns(p.outcome.data)
      case Closed => ([], Eof)
      case Short => ([], ShortAnswer)
      case Skip => ClientStream(p.rest, p.next)
      case Data(data) =>
        var (more, end) := ClientStream(p.rest, p.next);
        (if data == [] then more else Framed(data) + more, end)
  }

  /** What one readPayload takes from a plaintext stream. */
  datatype Taken = Taken(payload: bytes, rest: bytes, next: int32) | Failed(end: Ending)

  function TakePayload(s: bytes, seqNo: int32): (r: Taken)
    ensures r.Taken? ==> r.payload != [] && |r.rest| < |s|
    decreases |s|
  {
    var p := ParseFrame(s, seqNo);
    if !p.outcome.Message? then Failed(FrameError(p.outcome))
    else
      match ParseProxyAns(p.outcome.data)
      case Closed => Failed(Eof)
      case Short => Failed(ShortAnswer)
      case Skip => TakePayload(p.rest, p.next)
      case Data(data) => if data == [] then TakePayload(p.rest, p.next) else Taken(data, p.rest, p.next)
  }

  lemma {:induction false} TakePayloadIsFirst(s: bytes, seqNo: int32)
    ensures match TakePayload(s, seqNo)
            case Failed(end) => ClientStream(s, seqNo) == ([], end)
            case Taken(payload, rest, next) =>
              ClientStream(s, seqNo) == (Framed(payload) + ClientStream(rest, next).0, ClientStream(rest, next).1)
    decreases |s|
  {
    hide ParseFrame, ParseProxyAns, Framed;
    var p := ParseFrame(s, seqNo);
    if p.outcome.Message? {
      var a := ParseProxyAns(p.outcome.data);
      if a.Skip? || (a.Data? && a.data == []) { TakePayloadIsFirst(p.rest, p.next); }
    }
  }

  /** The client's remaining stream, given the two buffers in front of the plaintext. */
  ghost function Remaining(readBuf: bytes, relayBuf: bytes, s: bytes, seqNo: int32): (r: bytes)
  {
    readBuf + (if relayBuf == [] then [] else Framed(relayBuf)) + ClientStream(s, seqNo).0
  }

  /** With nothing framed yet, the remaining stream begins with the payload readPayload will take. */
  lemma RemainingFromPayload(relayBuf: bytes, s: bytes, seqNo: int32)
    ensures relayBuf != [] ==> Remaining([], relayBuf, s, seqNo) == Remaining(Framed(relayBuf), [], s, seqNo)
    ensures relayBuf == [] ==>
              match TakePayload(s, seqNo)
              case Failed(end) => Remaining([], [], s, seqNo) == [] && ClientStream(s, seqNo).1 == end
              case Taken(payload, rest, next) =>
                && Remaining([], [], s, seqNo) == Remaining(Framed(payload), [], rest, next)
                && ClientStream(s, seqNo).1 == ClientStream(rest, next).1
  {
    hide ClientStream, TakePayload, Framed;
    TakePayloadIsFirst(s, seqNo);
  }

  lemma RemainingAtStart(s: bytes, seqNo: int32)
    ensures Remaining([], [], s, seqNo) == ClientStream(s, seqNo).0
  {
    hide ClientStream;
  }

  /** Delivering k buffered bytes removes exactly them from the remaining stream. */
  lemma RemainingAfter(readBuf: bytes, relayBuf: bytes, s: bytes, seqNo: int32, k: nat)
    requires k <= |readBuf|
    ensures readBuf[..k] <= Remaining(readBuf, relayBuf, s, seqNo)
    ensures Remaining(readBuf[k..], relayBuf, s, seqNo) == Remaining(readBuf, relayBuf, s, seqNo)[k..]
    ensures readBuf != [] ==> Remaining(readBuf, relayBuf, s, seqNo) != []
  {
    hide ClientStream, Framed;
  }

  // The server's side

  /** The messages a server sends: events, then the close frame. */
  function Messages(events: seq<Event>, close: bytes): (msgs: seq<bytes>)
  {
    if events == [] then [CLOSE_CONN + close] else [EncodeEvent(events[0])] + Messages(events[1..], close)
  }

  /** The client's share of a run of events: every non-empty answer, framed. */
  function Answers(events: seq<Event>): (s: bytes)
  {
    if events == [] then []
    else (if events[0].Answered? && events[0].data != [] then Framed(events[0].data) else []) + Answers(events[1..])
  }

  /** What the client reads, as a function of the deframed messages alone. */
  function ClientReads(msgs: seq<bytes>, end: Outcome): (r: (bytes, Ending))
    decreases |msgs|
  {
    if msgs == [] then ([], FrameError(end))
    else
      match ParseProxyAns(msgs[0])
      case Closed => ([], Eof)
      case Short => ([], ShortAnswer)
      case Skip => ClientReads(msgs[1..], end)
      case Data(data) =>
        var (more, e) := ClientReads(msgs[1..], end);
        (if data == [] then more else Framed(data) + more, e)
  }

  lemma {:induction false} ClientStreamReadsMessages(s: bytes, seqNo: int32)
    ensures var (msgs, end) := Deframe(s, seqNo); ClientStream(s, seqNo) == ClientReads(msgs, end)
    decreases |s|
  {
    hide ParseFrame, ParseProxyAns, Framed;
    var p := ParseFrame(s, seqNo);
    if p.outcome.Message? {
      ClientStreamReadsMessages(p.rest, p.next);
      var (msgs, end) := Deframe(p.rest, p.next);
      assert ([p.outcome.data] + msgs)[1..] == msgs;
    }
  }

  /** Messages behind the close frame are never looked at. */
  lemma {:induction false} EventsRead(events: seq<Event>, close: bytes, later: seq<bytes>, end: Outcome)
    ensures ClientReads(Messages(events, close) + later, end) == (Answers(events), Eof)
  {
    hide ParseProxyAns, EncodeEvent, Framed;
    var msgs := Messages(events, close) + later;
    if events == [] {
      CloseReadsBack(close);
      assert msgs[0] == CLOSE_CONN + close;
    } else {
      EventReadsBack(events[0]);
      assert msgs[0] == EncodeEvent(events[0]) && msgs[1..] == Messages(events[1..], close) + later;
      EventsRead(events[1..], close, later, end);
      assert [] + Answers(events[1..]) == Answers(events[1..]);
    }
  }

  /**
    A server's plaintext: frames numbered from seqNo, each behind any number of filler words, that say
    these events and then the close frame; anything may follow.
    */
  ghost predicate ServerSays(seqNo: int32, events: seq<Event>, close: bytes, plain: bytes)
  {
    exists slots: seq<Slot>, tail: nat, later: seq<bytes> ::
      && plain == FrameStream(slots, seqNo) + Fillers(tail)
      && (forall x :: x in slots ==> Fits(x.msg))
      && SlotMessages(slots) == Messages(events, close) + later
  }

  /** The client's stream is exactly the non-empty answers in order, each behind its length, and then EOF. */
  lemma AnswersArrive(seqNo: int32, events: seq<Event>, close: bytes, plain: bytes)
    requires ServerSays(seqNo, events, close, plain)
    ensures ClientStream(plain, seqNo) == (Answers(events), Eof)
  {
    hide FrameStream, Fillers, Deframe, ClientStream, ClientReads, Messages, SlotMessages;
    var slots: seq<Slot>, tail: nat, later: seq<bytes> :|
      && plain == FrameStream(slots, seqNo) + Fillers(tail)
      && (forall x :: x in slots ==> Fits(x.msg))
      && SlotMessages(slots) == Messages(events, close) + later;
    FrameStreamReadsBack(slots, tail, seqNo);
    ClientStreamReadsMessages(plain, seqNo);
    EventsRead(events, close, later, End);
  }

  /**
    Download end to end: for every run of server events up to the close frame, and whatever sizes the
    client reads in, it gets a prefix of the answers, and it is told the end only after all of them, as a
    plain EOF. Enough reads bring all of the answers, and one more brings the EOF.
    */
  method Download(c: IntermediateConn, sizes: seq<nat>, ghost events: seq<Event>, ghost close: bytes)
    returns (got: bytes, end: Option<Ending>)
    requires c.Valid() && c.readBuf == [] && c.inner.relay.readBuf == []
    requires ServerSays(c.inner.relay.readSeq, events, close, c.inner.relay.cbc.Readable())
    modifies c`readBuf, c.inner.relay`readSeq, c.inner.relay`readBuf, c.inner.relay.cbc, c.inner.relay.raw`incoming
    ensures c.Valid() && c.Out() == old(c.Out())
    ensures got <= Answers(events)
    ensures end.Some? ==> end.value == Eof && got == Answers(events)
    ensures Enough(sizes, |Answers(events)|) ==> got == Answers(events)
    ensures Enough(sizes, |Answers(events)| + 1) ==> end == Some(Eof)
  {
    hide ClientStream, Answers, ServerSays, Remaining, Bytes.Delivered;
    ghost var relay := c.inner.relay;
    RemainingAtStart(relay.cbc.Readable(), relay.readSeq);
    AnswersArrive(relay.readSeq, events, close, relay.cbc.Readable());
    NothingDelivered(Answers(events));
    got, end := [], None;
    for k := 0 to |sizes|
      invariant c.Valid() && end == None && relay.cbc.encIV == old(relay.cbc.encIV)
      invariant Delivered(got, c.Download(), Answers(events)) && c.DownloadEnd() == Eof
      invariant (forall n :: n in sizes ==> n > 0) ==> |got| >= k
    {
      assert sizes[k] in sizes;
      ghost var left := c.Download();
      DeliveredParts(got, left, Answers(events));
      var r, e := c.Read(sizes[k]);
      if r == None { return got, Some(e); }
      DeliverPiece(got, left, Answers(events), r.value);
      got := got + r.value;
    }
    DeliveredParts(got, c.Download(), Answers(events));
  }

  // ---------------------------------------------------------------------------
  // Both at once
  // ---------------------------------------------------------------------------

  /** One call on the connection by one of the two copying directions. */
  datatype Call = Send(p: bytes) | Receive(n: nat)

  function Sends(calls: seq<Call>): (r: seq<bytes>)
  {
    if calls == [] then [] else (if calls[0].Send? then [calls[0].p] else []) + Sends(calls[1..])
  }

  function Receives(calls: seq<Call>): (r: seq<nat>)
  {
    if calls == [] then [] else (if calls[0].Receive? then [calls[0].n] else []) + Receives(calls[1..])
  }

  lemma NoCalls()
    ensures Sends([]) == [] && Receives([]) == []
  {}

  lemma {:induction false} CallsSnoc(calls: seq<Call>, x: Call)
    ensures Sends(calls + [x]) == Sends(calls) + if x.Send? then [x.p] else []
    ensures Receives(calls + [x]) == Receives(calls) + if x.Receive? then [x.n] else []
    decreases |calls|
  {
    if calls == [] {
      assert calls + [x] == [x] && [x][1..] == [];
    } else {
      assert (calls + [x])[1..] == calls[1..] + [x];
      CallsSnoc(calls[1..], x);
    }
  }

  lemma {:induction false} CallsSplit(calls: seq<Call>, k: nat)
    requires k <= |calls|
    ensures Sends(calls) == Sends(calls[..k]) + Sends(calls[k..])
    ensures Receives(calls) == Receives(calls[..k]) + Receives(calls[k..])
    decreases |calls|
  {
    if k > 0 {
      assert calls[..k][1..] == calls[1..][..k - 1] && calls[1..][k - 1..] == calls[k..];
      CallsSplit(calls[1..], k - 1);
    } else {
      assert calls[..k] == [] && calls[k..] == calls;
    }
  }

  /**
    Both directions at once: however the writes of one copying direction and the reads of the other are
    interleaved, every write succeeds, the server gets exactly the client's payloads, and the client gets the
    answers as if nothing had been written. A direction that was told the end makes no more reads.
    */
  method Duplex(c: IntermediateConn, packets: seq<Packet>, calls: seq<Call>, ghost events: seq<Event>, ghost close: bytes)
    returns (ok: bool, got: bytes, end: Option<Ending>)
    requires c.Valid() && c.wbuf == [] && c.readBuf == [] && c.inner.relay.readBuf == []
    requires Concat(Sends(calls)) == Serialize(packets)
    requires ServerSays(c.inner.relay.readSeq, events, close, c.inner.relay.cbc.Readable())
    modifies c, c.inner.relay, c.inner.relay.cbc, c.inner.relay.raw
    ensures ok && c.Valid() && c.wbuf == [] && c.Arrived(old(c.Out()), packets)
    ensures got <= Answers(events)
    ensures end.Some? ==> end.value == Eof && got == Answers(events)
    ensures Enough(Receives(calls), |Answers(events)|) ==> got == Answers(events)
    ensures Enough(Receives(calls), |Answers(events)| + 1) ==> end == Some(Eof)
  {
    hide ClientStream, Answers, ServerSays, Remaining, Sending, Requests, Reassemble, Serialize, ServerReceives,
         CarriesPayloads, Decrypt, WholeBlocks, Sends, Receives, Bytes.Delivered, Bytes.Int32, Bytes.Concat, IntermediateConn.Arrived;
    ghost var relay, o, all := c.inner.relay, c.Out(), Answers(events);
    ghost var positive := forall n :: n in Receives(calls) ==> n > 0;
    RemainingAtStart(relay.cbc.Readable(), relay.readSeq);
    AnswersArrive(relay.readSeq, events, close, relay.cbc.Readable());
    NothingDelivered(all);
    c.NothingForwarded(o);
    NoCalls();
    ok, got, end := true, [], None;
    for k := 0 to |calls|
      invariant ok && c.Valid() && c.Forwarded(o, Concat(Sends(calls[..k])))
      invariant end == None ==> Delivered(got, c.Download(), all) && c.DownloadEnd() == Eof
      invariant end == None && positive ==> |got| >= |Receives(calls[..k])|
      invariant end.Some? ==> end.value == Eof && got == all
    {
      CallsSplit(calls, k);
      CallsSplit(calls, k + 1);
      CallsSnoc(calls[..k], calls[k]);
      assert calls[..k + 1] == calls[..k] + [calls[k]];
      match calls[k] {
        case Send(p) =>
          assert Receives(calls[..k + 1]) == Receives(calls[..k]);
          ConcatSnoc(Sends(calls[..k]), p);
          PrefixIsGood(Sends(calls[..k + 1]), Sends(calls[k + 1..]), packets);
          ok := c.WriteMore(p, o, Concat(Sends(calls[..k])));
        case Receive(n) =>
          assert Sends(calls[..k + 1]) == Sends(calls[..k]);
          assert n == Receives(calls)[|Receives(calls[..k])|];
          assert n in Receives(calls);
          assert |Receives(calls[..k + 1])| == |Receives(calls[..k])| + 1;
          if end == None {
            ghost var left := c.Download();
            DeliveredParts(got, left, all);
            var r, e := c.Read(n);
            if r == None {
              end := Some(e);
            } else {
              DeliverPiece(got, left, all, r.value);
              got := got + r.value;
            }
          }
      }
    }
    assert calls[..|calls|] == calls;
    if end == None { DeliveredParts(got, c.Download(), all); }
    c.AllArrived(o, packets);
  }
}
