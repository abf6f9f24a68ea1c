/**
  The middle-proxy handshake of internal/middleproxy/handshake.go: an unencrypted nonce exchange under
  sequence number -2, an encrypted handshake exchange under -1, and the connection that results.
  */
module MiddleHandshake {
  import opened Bytes
  import opened Net
  import opened Cbc
  import opened Frames
  import opened ProxyRpc
  import opened Intermediate
  import opened MiddleProxy

  const NONCE_TAG: bytes := [0xaa, 0x87, 0xcb, 0x7a]
  const HANDSHAKE_TAG: bytes := [0xf5, 0xee, 0x82, 0x76]
  const CRYPTO_AES: bytes := [1, 0, 0, 0]
  const START_SEQ := -2

  type Word = b: bytes | |b| == 4 witness [0, 0, 0, 0]

  datatype Keys = Keys(enc: Cipher, encIV: Block, dec: Cipher, decIV: Block)

  function NonceMessage(selector: Word, ts: Word, nonce: Nonce): (msg: bytes)
    ensures |msg| == 32
  {
    NONCE_TAG + selector + CRYPTO_AES + ts + nonce
  }

  /** The proxy's own message has the layout it expects of the answer, with its time and nonce in place. */
  lemma NonceMessageFields(selector: Word, ts: Word, nonce: Nonce)
    ensures var msg := NonceMessage(selector, ts, nonce);
            && NonceAnswerOk(msg, selector)
            && msg[..4] == [0xaa, 0x87, 0xcb, 0x7a] && msg[4..8] == selector && msg[8..12] == [1, 0, 0, 0]
            && msg[12..16] == ts && msg[16..32] == nonce
  {
    var msg := NonceMessage(selector, ts, nonce);
    assert msg[..4] == NONCE_TAG && msg[4..8] == selector;
  }

  predicate NonceAnswerOk(ans: bytes, selector: Word) {
    |ans| == 32 && ans[..4] == NONCE_TAG && ans[4..8] == selector
  }

  predicate HandshakeAnswerOk(ans: bytes) {
    |ans| == 32 && ans[..4] == HANDSHAKE_TAG
  }

  /** Which answers are right, by their bytes. */
  lemma RightAnswers(ans: bytes, selector: Word)
    ensures NonceAnswerOk(ans, selector) <==> |ans| == 32 && ans[..4] == [0xaa, 0x87, 0xcb, 0x7a] && ans[4..8] == selector
    ensures HandshakeAnswerOk(ans) <==> |ans| == 32 && ans[..4] == [0xf5, 0xee, 0x82, 0x76]
  {}

  datatype Endpoint = Endpoint(ip: nat, port: nat)
  type Endpoint4 = e: Endpoint | e.ip < TWO_32 && e.port < TWO_16 witness Endpoint(0, 0)

  /** buildHandshakePayload, with the process id and the clock as parameters. */
  function HandshakePayload(client: Endpoint4, pid: nat, now: nat, server: Endpoint4): (p: bytes)
    requires pid < TWO_16 && now < TWO_32
    ensures |p| == 32
  {
    HANDSHAKE_TAG + [0, 0, 0, 0] + LE32(client.ip) + LE16(client.port) + LE16(pid)
    + LE32(now) + LE32(server.ip) + LE16(server.port) + [0, 0, 0, 0, 0, 0]
  }

  /** Both endpoints stand where the protocol expects them. */
  lemma HandshakePayloadFields(client: Endpoint4, pid: nat, now: nat, server: Endpoint4)
    requires pid < TWO_16 && now < TWO_32
    ensures var p := HandshakePayload(client, pid, now, server);
            && HandshakeAnswerOk(p) && p[4..8] == [0, 0, 0, 0] && p[26..32] == [0, 0, 0, 0, 0, 0]
            && FromLE32(p[8..12]) == client.ip && FromLE16(p[12..14]) == client.port
            && FromLE16(p[14..16]) == pid && FromLE32(p[16..20]) == now
            && FromLE32(p[20..24]) == server.ip && FromLE16(p[24..26]) == server.port
  {
    hide Bytes.LE32, Bytes.LE16, Bytes.FromLE32, Bytes.FromLE16;
    var p := HandshakePayload(client, pid, now, server);
    assert p[..4] == HANDSHAKE_TAG && p[8..12] == LE32(client.ip) && p[12..14] == LE16(client.port);
    assert p[14..16] == LE16(pid) && p[16..20] == LE32(now);
    assert p[20..24] == LE32(server.ip) && p[24..26] == LE16(server.port);
  }

  /** What the server's side of the stream makes of the handshake: the keys and the plaintext behind it. */
  function Negotiated(stream: bytes, selector: Word, ipv4: bool, derive: Nonce -> Keys): (r: Option<(Keys, bytes)>)
  {
    var p := ParseFrame(stream, START_SEQ);
    if !p.outcome.Message? || !NonceAnswerOk(p.outcome.data, selector) || !ipv4 then None
    else
      var keys := derive(p.outcome.data[16..32]);
      var q := ParseFrame(Decrypt(keys.dec, keys.decIV, WholeBlocks(p.rest)), p.next);
      if !q.outcome.Message? || !HandshakeAnswerOk(q.outcome.data) then None
      else Some((keys, q.rest))
  }

  /** There is no handshake without IPv4 addresses at both ends. */
  lemma NeedsIpv4(stream: bytes, selector: Word, derive: Nonce -> Keys)
    ensures Negotiated(stream, selector, false, derive) == None
  {
    hide ParseFrame, Decrypt, WholeBlocks;
  }

  /** The sending side after both handshake messages: the nonce in the clear, the rest encrypted from number -1 on. */
  function Introduced(sent: bytes, nonceMsg: bytes, keys: Keys, hello: bytes): (o: Outbound)
    ensures o.seqNo == 0
  {
    Sending(keys.enc, Outbound(sent + PaddedFrame(-2, nonceMsg), keys.encIV, -1), [hello])
  }

  /** On the wire: the nonce message in the clear under number -2, then the handshake message encrypted under -1. */
  lemma IntroducedBytes(sent: bytes, nonceMsg: bytes, keys: Keys, hello: bytes)
    ensures var s := Encrypt(keys.enc, keys.encIV, PaddedFrame(-1, hello));
            Introduced(sent, nonceMsg, keys, hello) == Outbound(sent + PaddedFrame(-2, nonceMsg) + s, Chain(keys.encIV, s), 0)
  {
    hide Encrypt, Chain, PaddedFrame, WrittenFrames;
    SingleFrame(hello, -1);
  }

  /**
    handshake: succeeds exactly when both answers are right, leaves both counters at 0, and leaves the
    reader exactly behind the server's handshake frame.
    */
  method Handshake(
    raw: TcpConn, selector: Word, ts: Word, nonce: Nonce, ipv4: bool, derive: Nonce -> Keys, hello: bytes)
    returns (relay: RelayConn?)
    modifies raw
    ensures relay != null <==> Negotiated(old(raw.incoming), selector, ipv4, derive).Some?
    ensures relay != null ==>
              var (keys, rest) := Negotiated(old(raw.incoming), selector, ipv4, derive).value;
              && fresh(relay) && fresh(relay.cbc) && relay.raw == raw && relay.Valid()
              && relay.readSeq == 0 && relay.writeSeq == 0 && relay.readBuf == []
              && relay.cbc.enc == keys.enc && relay.cbc.dec == keys.dec
              && relay.cbc.Readable() == rest
              && relay.Out() == Introduced(old(raw.sent), NonceMessage(selector, ts, nonce), keys, hello)
  {
    hide PaddedFrame, Bytes.Int32, ParseFrame, Encrypt, Decrypt, WholeBlocks;
    NextOf(old(raw.incoming), -2);
    var written := WriteFrame(raw, null, START_SEQ, NonceMessage(selector, ts, nonce));
    var ans, readSeq := ReadFrame(raw, null, START_SEQ);
    if !ans.Message? || !NonceAnswerOk(ans.data, selector) || !ipv4 { return null; }

    var keys := derive(ans.data[16..32]);
    var cbc := new CbcConn(raw, keys.enc, keys.encIV, keys.dec, keys.decIV);
    assert cbc.Readable() == Decrypt(keys.dec, keys.decIV, WholeBlocks(raw.incoming));
    NextOf(cbc.Readable(), -1);
    SingleFrame(hello, -1);
    written := WriteFrame(raw, cbc, -1, hello);
    ans, readSeq := ReadFrame(raw, cbc, readSeq);
    if !ans.Message? || !HandshakeAnswerOk(ans.data) { return null; }
    relay := new RelayConn(raw, cbc, readSeq, 0);
  }

  lemma NextOf(s: bytes, seqNo: int32)
    requires seqNo < 0x7fff_ffff
    ensures ParseFrame(s, seqNo).outcome.Message? ==> ParseFrame(s, seqNo).next == seqNo + 1
    ensures Int32(seqNo + 1) == seqNo + 1
    decreases |s|
  {}

  /** A server's bytes: the nonce answer in the clear, and from then on ciphertext. */
  function ServerStream(keys: Keys, nonceAns: bytes, handshakeAns: bytes, before: nat, between: nat, later: bytes): (s: bytes)
    requires Aligned(Fillers(between) + Frame(-1, handshakeAns) + later)
  {
    Fillers(before)
    + (Frame(-2, nonceAns) + Encrypt(keys.dec, keys.decIV, Fillers(between) + Frame(-1, handshakeAns) + later))
  }

  /** An honest server negotiates: its plaintext stream continues right behind its handshake frame. */
  lemma HonestServerNegotiates(
    selector: Word, derive: Nonce -> Keys, nonceAns: bytes, handshakeAns: bytes,
    before: nat, between: nat, later: bytes)
    requires NonceAnswerOk(nonceAns, selector) && HandshakeAnswerOk(handshakeAns)
    requires Aligned(Fillers(between) + Frame(-1, handshakeAns) + later)
    ensures var keys := derive(nonceAns[16..32]);
            var stream := ServerStream(keys, nonceAns, handshakeAns, before, between, later);
            Negotiated(stream, selector, true, derive) == Some((keys, later))
  {
    hide Encrypt, Decrypt, Fillers, Frame, ParseFrame, WholeBlocks;
    var keys := derive(nonceAns[16..32]);
    var plain := Fillers(between) + Frame(-1, handshakeAns) + later;
    var wire := Encrypt(keys.dec, keys.decIV, plain);
    SkipsFillers(before, Frame(-2, nonceAns) + wire, -2);
    ReadsBack(-2, nonceAns, wire);
    EncryptedIsAligned(keys.dec, keys.decIV, plain);
    WholeIsAll(wire);
    DecryptInvertsEncrypt(keys.dec, keys.decIV, plain);
    assert plain == Fillers(between) + (Frame(-1, handshakeAns) + later);
    SkipsFillers(between, Frame(-1, handshakeAns) + later, -1);
    ReadsBack(-1, handshakeAns, later);
  }

  lemma WholeIsAll(s: bytes)
    requires Aligned(s)
    ensures WholeBlocks(s) == s
  {}

  /** dialEndpoint after the TCP connect: a client connection whose request numbers begin at 0. */
  method DialEndpoint(
    raw: TcpConn, selector: Word, ts: Word, nonce: Nonce, ipv4: bool, derive: Nonce -> Keys, hello: bytes,
    opts: Options, connId: ConnId) returns (c: IntermediateConn?)
    modifies raw
    ensures c != null <==> Negotiated(old(raw.incoming), selector, ipv4, derive).Some?
    ensures c != null ==>
              && fresh(c) && fresh(c.inner.relay) && fresh(c.inner.relay.cbc) && c.inner.relay.raw == raw
              && c.Valid() && c.wbuf == [] && c.readBuf == [] && c.inner.relay.readBuf == []
              && c.inner.opts == opts && c.inner.connId == connId
              && c.inner.relay.writeSeq == 0 && c.inner.relay.readSeq == 0
              && var (keys, rest) := Negotiated(old(raw.incoming), selector, ipv4, derive).value;
              && c.inner.relay.cbc.enc == keys.enc && c.inner.relay.cbc.Readable() == rest
              && c.Out() == Introduced(old(raw.sent), NonceMessage(selector, ts, nonce), keys, hello)
  {
    hide Negotiated;
    var relay := Handshake(raw, selector, ts, nonce, ipv4, derive, hello);
    if relay == null { return null; }
    var proxy := new ProxyConn(relay, opts, connId);
    c := new IntermediateConn(proxy);
  }

  /**
    A whole session against an honest server, with the writes and reads of the two copying directions in any
    order: the client's packets, in any pieces, reach the server as requests numbered from 0, and the client's
    reads, in any sizes, see exactly the server's answers, all of them and then EOF if there are enough reads.
    */
  method Session(
    raw: TcpConn, selector: Word, ts: Word, nonce: Nonce, derive: Nonce -> Keys, hello: bytes,
    opts: Options, connId: ConnId, packets: seq<Packet>, calls: seq<Call>,
    ghost nonceAns: bytes, ghost handshakeAns: bytes, ghost before: nat, ghost between: nat,
    ghost later: bytes, ghost events: seq<Event>, ghost close: bytes)
    returns (ok: bool, got: bytes, end: Option<Ending>)
    requires NonceAnswerOk(nonceAns, selector) && HandshakeAnswerOk(handshakeAns)
    requires Aligned(Fillers(between) + Frame(-1, handshakeAns) + later)
    requires raw.incoming == ServerStream(derive(nonceAns[16..32]), nonceAns, handshakeAns, before, between, later)
    requires ServerSays(0, events, close, later)
    requires Concat(Sends(calls)) == Serialize(packets)
    modifies raw
    ensures ok && got <= Answers(events)
    ensures end.Some? ==> end.value == Eof && got == Answers(events)
    ensures Enough(Receives(calls), |Answers(events)|) ==> got == Answers(events)
    ensures Enough(Receives(calls), |Answers(events)| + 1) ==> end == Some(Eof)
    ensures var keys := derive(nonceAns[16..32]);
            var start := Introduced(old(raw.sent), NonceMessage(selector, ts, nonce), keys, hello);
            && start.seqNo == 0 && start.sent <= raw.sent
            && var wire := raw.sent[|start.sent|..];
            && Aligned(wire)
            && var (requests, e) := ServerReceives(keys.enc, start.iv, wire, 0);
            && e == End
            && CarriesPayloads(requests, Payloads(packets), opts, connId)
  {
    hide Negotiated, Introduced, ServerReceives, CarriesPayloads, ServerStream, Serialize, Answers, ServerSays;
    HonestServerNegotiates(selector, derive, nonceAns, handshakeAns, before, between, later);
    var c := DialEndpoint(raw, selector, ts, nonce, true, derive, hello, opts, connId);
    ok, got, end := Duplex(c, packets, calls, events, close);
  }
}
