/**
  The layers put together as internal/proxy/server.go does for a front proxy, a relay tunnel and a back proxy
  that speaks to a middle-proxy server: fake TLS, PHRP relay, padded intermediate, RPC, frames and CBC.
  */
module WholePath {
  import opened Bytes
  import opened Net
  import opened Records
  import opened Intermediate
  import opened ProxyRpc
  import Cbc
  import MiddleProxy
  import Obfuscated2
  import FakeTls
  import RelayTunnel

  // ---------------------------------------------------------------------------
  // The reading half of io.Copy
  // ---------------------------------------------------------------------------

  /** Reads the middle-proxy connection to its end. */
  method DrainMiddle(c: MiddleProxy.IntermediateConn) returns (pieces: seq<bytes>)
    requires c.Valid()
    modifies c`readBuf, c.inner.relay`readSeq, c.inner.relay`readBuf, c.inner.relay.cbc, c.inner.relay.raw`incoming
    ensures c.Valid() && c.Out() == old(c.Out())
    ensures Concat(pieces) == old(c.Download())
  {
    hide MiddleProxy.Remaining, MiddleProxy.ClientStream, Concat, Bytes.Delivered;
    pieces := [];
    ConcatNothing();
    ghost var s := c.Download();
    NothingDelivered(s);
    while true
      invariant c.Valid() && c.inner.relay.cbc.encIV == old(c.inner.relay.cbc.encIV)
      invariant Delivered(Concat(pieces), c.Download(), s)
      decreases |c.Download()|
    {
      ghost var left := c.Download();
      DeliveredParts(Concat(pieces), left, s);
      var r, e := c.Read(COPY_BUFFER);
      if r == None { return; }
      ConcatSnoc(pieces, r.value);
      DeliverPiece(Concat(pieces), left, s, r.value);
      pieces := pieces + [r.value];
    }
  }

  // ---------------------------------------------------------------------------
  // End to end
  // ---------------------------------------------------------------------------

  /** Both tunnels are open and nothing has been sent back through them yet. */
  ghost predicate Linked(client: FakeTls.Conn, server: FakeTls.Conn, front: RelayTunnel.FrameConn, back: RelayTunnel.FrameConn)
    reads client, client.inner, server, server.inner, server.inner.conn, front, back, back.conn
  {
    && client != server && client.inner != server.inner && client.inner.conn != server.inner.conn
    && front != back && front.conn != back.conn
    && front.conn !in {client.inner.conn, server.inner.conn} && back.conn !in {client.inner.conn, server.inner.conn}
    && client.prim == server.prim && server.enc == client.dec && client.inner.readBuf == []
    && server.inner.Valid() && server.inner.written == [] && server.inner.base == []
    && back.Valid() && back.written == [] && back.base == [] && back.aead == front.aead && front.rbuf == []
  }

  /** Both tunnels opened, and the client's stream carried through them. */
  method OpenTunnels(
    tls: Obfuscated2.Primitives, draw: Obfuscated2.Header, dcId: int, secret: Obfuscated2.Secret,
    clientPolicy: Policy, serverPolicy: Policy, there: FakeTls.Wire,
    relay: RelayTunnel.Primitives, psk: bytes, nonce: Nonce, ip: Option<Ip4>, port: int, inTime: nat,
    chunks: seq<bytes>)
    returns (client: FakeTls.Conn, server: FakeTls.Conn, front: RelayTunnel.FrameConn, back: RelayTunnel.FrameConn,
             meta: RelayTunnel.Meta, forwarded: seq<bytes>)
    requires secret.Key? ==> |secret.bytes| > 0
    requires psk != [] && inTime >= 6
    ensures fresh({client, server}) && fresh({client.inner, server.inner}) && fresh({client.inner.conn, server.inner.conn})
    ensures fresh({front, back}) && fresh({front.conn, back.conn}) && Linked(client, server, front, back)
    ensures meta.dcId == Int16(dcId) && Concat(forwarded) == Concat(chunks)
  {
    hide Concat, Obfuscated2.Crypt, RelayTunnel.OpenStream, RelayTunnel.FrameAll, Records.AppStream, Records.EncodeAll,
         Records.AppRecords, Records.Chunk, RelayTunnel.Chunk, Bytes.Int16;
    var recovered;
    client, server, recovered := FakeTls.Open(tls, draw, dcId, secret, clientPolicy, serverPolicy, chunks, there);
    var pieces := server.ReadToEnd((k: nat) => COPY_BUFFER);
    front, back, meta := RelayTunnel.Open(relay, psk, nonce, recovered, ip, port, inTime, pieces);
    forwarded := RelayTunnel.ReadToEnd(back, (k: nat) => COPY_BUFFER);
  }

  /** From the client's packets to the server's requests. */
  method Up(
    tls: Obfuscated2.Primitives, draw: Obfuscated2.Header, dcId: int, secret: Obfuscated2.Secret,
    clientPolicy: Policy, serverPolicy: Policy, there: FakeTls.Wire,
    relay: RelayTunnel.Primitives, psk: bytes, nonce: Nonce, ip: Option<Ip4>, port: int, inTime: nat,
    middle: MiddleProxy.IntermediateConn, packets: seq<Packet>, chunks: seq<bytes>)
    returns (client: FakeTls.Conn, server: FakeTls.Conn, front: RelayTunnel.FrameConn, back: RelayTunnel.FrameConn,
             meta: RelayTunnel.Meta)
    requires secret.Key? ==> |secret.bytes| > 0
    requires psk != [] && inTime >= 6 && middle.Valid() && middle.wbuf == []
    requires Concat(chunks) == Serialize(packets)
    modifies middle`wbuf, middle.inner.relay`writeSeq, middle.inner.relay.cbc, middle.inner.relay.raw`sent
    ensures fresh({client, server}) && fresh({client.inner, server.inner}) && fresh({client.inner.conn, server.inner.conn})
    ensures fresh({front, back}) && fresh({front.conn, back.conn}) && Linked(client, server, front, back)
    ensures meta.dcId == Int16(dcId)
    ensures middle.Valid() && middle.inner.relay.cbc.Readable() == old(middle.inner.relay.cbc.Readable())
    ensures middle.Arrived(old(middle.Out()), packets)
  {
    hide Concat, Serialize, MiddleProxy.IntermediateConn.Arrived, Linked, Bytes.Int16;
    var forwarded;
    client, server, front, back, meta, forwarded := OpenTunnels(
      tls, draw, dcId, secret, clientPolicy, serverPolicy, there, relay, psk, nonce, ip, port, inTime, chunks);
    var ok := MiddleProxy.Upload(middle, packets, forwarded);
  }

  /** From the server's answers to the client. */
  method Down(
    client: FakeTls.Conn, server: FakeTls.Conn, front: RelayTunnel.FrameConn, back: RelayTunnel.FrameConn,
    home: FakeTls.Wire, answers: seq<bytes>, sizes: BufferSizes) returns (got: seq<bytes>)
    requires Linked(client, server, front, back)
    modifies client, client.inner, client.inner.conn, server, server.inner, server.inner.conn
    modifies front, front.conn, back, back.conn
    ensures Concat(got) == Concat(answers) && Filled(got, sizes)
  {
    hide Concat, Obfuscated2.Crypt, RelayTunnel.OpenStream, RelayTunnel.FrameAll, Records.AppStream, Records.EncodeAll,
         Records.AppRecords, Records.Chunk, RelayTunnel.Chunk;
    ConcatNothing();
    RelayTunnel.WriteAll(back, answers);
    RelayTunnel.TransmitBack(back, front);
    var pieces := RelayTunnel.ReadToEnd(front, (k: nat) => COPY_BUFFER);
    server.WriteAll(pieces);
    Obfuscated2.CryptTwice(client.prim, client.dec, Concat(pieces));
    FakeTls.Transmit(server.inner, home, client.inner);
    assert Concat(pieces) == Concat(answers);
    assert client.inner.Incoming() == Obfuscated2.Crypt(client.prim, client.dec, Concat(pieces));
    got := client.ReadToEnd(sizes);
  }

  /**
    The whole path, there and back: for all keys, random draws, policies, inserted records, chunkings and read
    sizes, the server receives exactly the client's payloads in order, and the client reads all of the answers.
    */
  method ClientToServerAndBack(
    tls: Obfuscated2.Primitives, draw: Obfuscated2.Header, dcId: int, secret: Obfuscated2.Secret,
    clientPolicy: Policy, serverPolicy: Policy, there: FakeTls.Wire, home: FakeTls.Wire,
    relay: RelayTunnel.Primitives, psk: bytes, nonce: Nonce, ip: Option<Ip4>, port: int, inTime: nat,
    middle: MiddleProxy.IntermediateConn,
    packets: seq<Packet>, chunks: seq<bytes>, sizes: BufferSizes, ghost events: seq<Event>, ghost close: bytes)
    returns (meta: RelayTunnel.Meta, got: seq<bytes>)
    requires secret.Key? ==> |secret.bytes| > 0
    requires psk != [] && inTime >= 6
    requires middle.Valid() && middle.wbuf == [] && middle.readBuf == [] && middle.inner.relay.readBuf == []
    requires Concat(chunks) == Serialize(packets)
    requires MiddleProxy.ServerSays(middle.inner.relay.readSeq, events, close, middle.inner.relay.cbc.Readable())
    modifies middle, middle.inner.relay, middle.inner.relay.cbc, middle.inner.relay.raw
    ensures meta.dcId == Int16(dcId)
    ensures middle.Arrived(old(middle.Out()), packets)
    ensures Concat(got) == MiddleProxy.Answers(events) && Filled(got, sizes)
  {
    hide Concat, Serialize, MiddleProxy.ServerSays, MiddleProxy.ServerReceives, MiddleProxy.CarriesPayloads,
         MiddleProxy.Answers, MiddleProxy.Remaining, MiddleProxy.ClientStream, Linked, Bytes.Int16;
    var client, server, front, back;
    client, server, front, back, meta := Up(
      tls, draw, dcId, secret, clientPolicy, serverPolicy, there, relay, psk, nonce, ip, port, inTime, middle, packets, chunks);
    MiddleProxy.AnswersArrive(middle.inner.relay.readSeq, events, close, middle.inner.relay.cbc.Readable());
    MiddleProxy.RemainingAtStart(middle.inner.relay.cbc.Readable(), middle.inner.relay.readSeq);
    var answers := DrainMiddle(middle);
    got := Down(client, server, front, back, home, answers, sizes);
  }

  // ---------------------------------------------------------------------------
  // Both ways at once
  // ---------------------------------------------------------------------------

  /** What a copying direction has read and not yet written. */
  function Held(p: Option<bytes>): (s: bytes)
  {
    if p.Some? then p.value else []
  }

  /** Half an iteration of io.Copy is done in each step. */
  function Work(held: Option<bytes>, left: nat): (n: nat)
  {
    2 * left + if held.Some? then 1 else 0
  }

  /** One read or one write of the copy from the fake-TLS connection into the relay tunnel. */
  method TlsToRelay(s: FakeTls.Conn, f: RelayTunnel.FrameConn, held: Option<bytes>)
    returns (held': Option<bytes>, ended: bool)
    requires s.inner.Valid() && f.Valid() && s.inner.conn != f.conn
    modifies s`dec, s.inner`readBuf, s.inner.conn`incoming, f`nonce, f`written, f.conn`sent
    ensures s.inner.Valid() && f.Valid()
    ensures Concat(f.written) + Held(held') + s.Plain() == old(Concat(f.written) + Held(held) + s.Plain())
    ensures if ended then held' == None && s.Plain() == [] else Work(held', s.Left()) < old(Work(held, s.Left()))
  {
    hide Obfuscated2.Crypt, Records.AppStream, RelayTunnel.FrameAll, RelayTunnel.Chunk,
         Records.EncodeAll, Records.AppRecords, Records.Chunk, Records.RampLimit, Concat;
    ended := false;
    if held.Some? {
      var n := f.Write(held.value);
      held' := None;
    } else {
      held' := s.Read(COPY_BUFFER);
      ended := held' == None;
    }
  }

  /** The same of the copy back. */
  method RelayToTls(f: RelayTunnel.FrameConn, s: FakeTls.Conn, held: Option<bytes>)
    returns (held': Option<bytes>, ended: bool)
    requires s.inner.Valid() && f.Valid() && s.inner.conn != f.conn
    modifies f`rbuf, f.conn`incoming
    modifies s`enc, s.inner`recordsWritten, s.inner`bytesWritten, s.inner`written, s.inner`splitDone, s.inner.conn`sent
    ensures s.inner.Valid() && f.Valid()
    ensures if ended then Concat(s.inner.written) == old(FakeTls.Total(s, Held(held) + f.Plain()))
            else && FakeTls.Total(s, Held(held') + f.Plain()) == old(FakeTls.Total(s, Held(held) + f.Plain()))
                 && Work(held', |f.Plain()|) < old(Work(held, |f.Plain()|))
  {
    hide Obfuscated2.Crypt, RelayTunnel.OpenStream, RelayTunnel.FrameAll, RelayTunnel.Chunk, Records.EncodeAll, Records.AppRecords,
         Records.Chunk, Records.RampLimit, Concat;
    ended := false;
    if held.Some? {
      ghost var before, enc := Concat(s.inner.written), s.enc;
      s.Write(held.value);
      FakeTls.OutgoingStep(s.prim, enc, before, Concat(s.inner.written), held.value, f.Plain());
      assert Held(None) + f.Plain() == f.Plain();
      held' := None;
    } else {
      ghost var all := f.Plain();
      held' := f.Read(COPY_BUFFER);
      ended := held' == None;
      if ended {
        ConcatNothing();
        assert Held(held) + all == Concat([]);
        FakeTls.NoMoreOutgoing(s);
      } else {
        assert Held(held) + all == Held(held') + f.Plain();
      }
    }
  }

  /** pipeTraffic at the front: however the two copies take turns, each moves its whole stream. */
  method PipeFront(s: FakeTls.Conn, f: RelayTunnel.FrameConn, turns: nat -> bool)
    requires s.inner.Valid() && f.Valid() && s.inner.conn != f.conn
    modifies s, s.inner, s.inner.conn, f, f.conn
    ensures s.inner.Valid() && f.Valid()
    ensures Concat(f.written) == Concat(old(f.written)) + old(s.Plain())
    ensures Concat(s.inner.written) == old(FakeTls.Total(s, f.Plain()))
  {
    hide Obfuscated2.Crypt, Records.AppStream, RelayTunnel.OpenStream, RelayTunnel.FrameConn.Valid,
         Records.RecordConn.Valid, Concat;
    ghost var there, back := Concat(f.written) + s.Plain(), FakeTls.Total(s, f.Plain());
    var up: Option<bytes>, down: Option<bytes> := None, None;
    var upEnded, downEnded, step := false, false, 0;
    assert Concat(f.written) + [] + s.Plain() == there && [] + f.Plain() == f.Plain();
    while !upEnded || !downEnded
      invariant s.inner.Valid() && f.Valid()
      invariant Concat(f.written) + Held(up) + s.Plain() == there && (upEnded ==> up == None && s.Plain() == [])
      invariant if downEnded then Concat(s.inner.written) == back else FakeTls.Total(s, Held(down) + f.Plain()) == back
      decreases (if upEnded then 0 else 1 + Work(up, s.Left())) + if downEnded then 0 else 1 + Work(down, |f.Plain()|)
    {
      if !upEnded && (downEnded || turns(step)) {
        up, upEnded := TlsToRelay(s, f, up);
      } else {
        down, downEnded := RelayToTls(f, s, down);
      }
      step := step + 1;
    }
    assert Concat(f.written) + [] + [] == Concat(f.written);
  }

  /** One read or one write of the copy from the relay tunnel to the middle proxy; no write fails. */
  method RelayToMiddle(
    b: RelayTunnel.FrameConn, m: MiddleProxy.IntermediateConn, held: Option<bytes>,
    ghost o: MiddleProxy.Outbound, ghost sofar: bytes, ghost packets: seq<Packet>)
    returns (held': Option<bytes>, ended: bool, ghost sofar': bytes)
    requires m.Valid() && m.Forwarded(o, sofar) && b.conn != m.inner.relay.raw
    requires sofar + Held(held) + b.Plain() == Serialize(packets)
    modifies b`rbuf, b.conn`incoming
    modifies m`wbuf, m.inner.relay`writeSeq, m.inner.relay.cbc, m.inner.relay.raw`sent
    ensures m.Valid() && m.inner.relay.cbc.Readable() == old(m.inner.relay.cbc.Readable())
    ensures m.Forwarded(o, sofar')
    ensures if ended then sofar' == Serialize(packets)
            else && sofar' + Held(held') + b.Plain() == Serialize(packets)
                 && Work(held', |b.Plain()|) < old(Work(held, |b.Plain()|))
  {
    hide RelayTunnel.OpenStream, MiddleProxy.Sending, MiddleProxy.Requests, Reassemble, Serialize, Cbc.Decrypt, Cbc.WholeBlocks;
    ended, sofar' := false, sofar;
    if held.Some? {
      MiddleProxy.PrefixWaits(sofar + held.value, b.Plain(), packets);
      var ok := m.WriteMore(held.value, o, sofar);
      assert ok;
      held', sofar' := None, sofar + held.value;
    } else {
      held' := b.Read(COPY_BUFFER);
      ended := held' == None;
    }
  }

  /** The same of the copy back. */
  method MiddleToRelay(m: MiddleProxy.IntermediateConn, b: RelayTunnel.FrameConn, held: Option<bytes>)
    returns (held': Option<bytes>, ended: bool)
    requires m.Valid() && b.Valid() && b.conn != m.inner.relay.raw
    modifies m`readBuf, m.inner.relay`readSeq, m.inner.relay`readBuf, m.inner.relay.cbc, m.inner.relay.raw`incoming
    modifies b`nonce, b`written, b.conn`sent
    ensures m.Valid() && m.inner.relay.cbc.encIV == old(m.inner.relay.cbc.encIV) && b.Valid()
    ensures if ended then Concat(b.written) == old(Concat(b.written) + Held(held) + m.Download())
            else && Concat(b.written) + Held(held') + m.Download() == old(Concat(b.written) + Held(held) + m.Download())
                 && Work(held', |m.Download()|) < old(Work(held, |m.Download()|))
  {
    hide MiddleProxy.Remaining, MiddleProxy.ClientStream, RelayTunnel.FrameAll, RelayTunnel.Chunk, Concat, Cbc.Decrypt, Cbc.WholeBlocks;
    ended := false;
    if held.Some? {
      var n := b.Write(held.value);
      held' := None;
    } else {
      var e;
      held', e := m.Read(COPY_BUFFER);
      ended := held' == None;
    }
  }

  /** pipeTraffic at the back: however the two copies take turns, the packets and the answers get through whole. */
  method PipeBack(b: RelayTunnel.FrameConn, m: MiddleProxy.IntermediateConn, ghost packets: seq<Packet>, turns: nat -> bool)
    requires m.Valid() && m.wbuf == [] && b.Valid() && b.conn != m.inner.relay.raw
    requires b.Plain() == Serialize(packets)
    modifies b, b.conn, m, m.inner.relay, m.inner.relay.cbc, m.inner.relay.raw
    ensures m.Valid() && b.Valid() && m.Arrived(old(m.Out()), packets)
    ensures Concat(b.written) == Concat(old(b.written)) + old(m.Download())
  {
    hide MiddleProxy.Remaining, MiddleProxy.ClientStream, RelayTunnel.OpenStream, RelayTunnel.FrameAll, RelayTunnel.Chunk,
         MiddleProxy.Sending, MiddleProxy.Requests, Reassemble, Serialize, Concat, Cbc.Decrypt, Cbc.WholeBlocks,
         MiddleProxy.IntermediateConn.Arrived;
    ghost var o, all, sofar: bytes := m.Out(), Concat(b.written) + m.Download(), [];
    ConcatNothing();
    m.NothingForwarded(o);
    var up: Option<bytes>, down: Option<bytes> := None, None;
    var upEnded, downEnded, step := false, false, 0;
    assert [] + [] + b.Plain() == b.Plain() && Concat(b.written) + [] + m.Download() == all;
    while !upEnded || !downEnded
      invariant m.Valid() && b.Valid() && m.Forwarded(o, sofar)
      invariant if upEnded then sofar == Serialize(packets) else sofar + Held(up) + b.Plain() == Serialize(packets)
      invariant if downEnded then Concat(b.written) == all else Concat(b.written) + Held(down) + m.Download() == all
      decreases (if upEnded then 0 else 1 + Work(up, |b.Plain()|)) + if downEnded then 0 else 1 + Work(down, |m.Download()|)
    {
      if !upEnded && (downEnded || turns(step)) {
        up, upEnded, sofar := RelayToMiddle(b, m, up, o, sofar, packets);
      } else {
        down, downEnded := MiddleToRelay(m, b, down);
      }
      step := step + 1;
    }
    m.AllArrived(o, packets);
  }

  /** The client: whatever the turns, it sends its chunks and reads all that the front sends. */
  method Client(
    tls: Obfuscated2.Primitives, o: Obfuscated2.Outgoing, policy: Policy, toClient: bytes,
    chunks: seq<bytes>, sizes: BufferSizes, turns: nat -> bool, ghost answers: bytes)
    returns (client: FakeTls.Conn, got: seq<bytes>)
    requires AppStream(toClient) == FakeTls.Downlink(tls, o, answers)
    ensures fresh(client) && fresh(client.inner) && fresh(client.inner.conn)
    ensures client.inner.Valid() && client.inner.base == []
    ensures Concat(client.inner.written) == FakeTls.Uplink(tls, o, Concat(chunks))
    ensures Concat(got) == answers && Filled(got, sizes)
  {
    hide Concat, Obfuscated2.Crypt, AppStream, EncodeAll, AppRecords, Records.Chunk, Records.RampLimit, Net.Filled;
    client := FakeTls.Dial(tls, o, policy, toClient);
    Obfuscated2.CryptTwice(tls, o.dec, answers);
    assert client.inner.Incoming() == AppStream(toClient);
    got := FakeTls.Converse(client, chunks, sizes, turns);
  }

  /** The front proxy: it accepts the client, dials the back, and copies both ways. */
  method Front(
    tls: Obfuscated2.Primitives, draw: Obfuscated2.Header, dcId: int, secret: Obfuscated2.Secret, policy: Policy,
    toServer: bytes, relay: RelayTunnel.Primitives, psk: bytes, nonce: Nonce, ip: Option<Ip4>, port: int, toFront: bytes,
    turns: nat -> bool, ghost up: bytes, ghost down: bytes)
    returns (server: FakeTls.Conn, front: RelayTunnel.FrameConn)
    requires (secret.Key? ==> |secret.bytes| > 0) && psk != []
    requires AppStream(toServer) == FakeTls.Uplink(tls, Obfuscated2.MakeHeader(tls, draw, dcId, secret), up)
    requires RelayTunnel.OpenStream(relay.aead(psk, nonce), toFront) == down
    ensures fresh(server) && fresh(server.inner) && fresh(server.inner.conn) && fresh(front) && fresh(front.conn)
    ensures server.inner.Valid() && server.inner.base == []
    ensures Concat(server.inner.written) == FakeTls.Downlink(tls, Obfuscated2.MakeHeader(tls, draw, dcId, secret), down)
    ensures front.Valid() && front.base == RelayTunnel.HandshakeBytes(relay, psk, nonce, Int16(dcId), ip, port)
    ensures Concat(front.written) == up
  {
    hide Concat, Obfuscated2.Crypt, Obfuscated2.MakeHeader, AppStream, EncodeAll, AppRecords, Records.Chunk, Records.RampLimit,
         RelayTunnel.OpenStream, RelayTunnel.FrameAll, RelayTunnel.Chunk, RelayTunnel.HandshakeBytes, Bytes.Int16;
    ConcatNothing();
    var recovered;
    server, recovered := FakeTls.Accepting(tls, draw, dcId, secret, policy, toServer, up);
    var tcp := new TcpConn(toFront);
    var f := RelayTunnel.DialFront(tcp, relay, psk, nonce, recovered, ip, port);
    front := f;
    assert front.Plain() == down;
    assert FakeTls.Total(server, down) == FakeTls.Downlink(tls, Obfuscated2.MakeHeader(tls, draw, dcId, secret), down);
    PipeFront(server, front, turns);
  }

  /** The back proxy: it accepts the front and copies both ways between the tunnel and the middle proxy. */
  method Back(
    relay: RelayTunnel.Primitives, psk: bytes, nonce: Nonce, dcId: int, ip: Option<Ip4>, port: int, inTime: nat, frames: bytes,
    middle: MiddleProxy.IntermediateConn, ghost packets: seq<Packet>, turns: nat -> bool)
    returns (back: RelayTunnel.FrameConn, meta: RelayTunnel.Meta)
    requires inTime >= 6 && middle.Valid() && middle.wbuf == []
    requires RelayTunnel.OpenStream(relay.aead(psk, nonce), frames) == Serialize(packets)
    modifies middle, middle.inner.relay, middle.inner.relay.cbc, middle.inner.relay.raw
    ensures back.Valid() && back.base == [] && meta.dcId == Int16(dcId)
    ensures Concat(back.written) == old(middle.Download())
    ensures middle.Arrived(old(middle.Out()), packets)
  {
    hide Concat, Serialize, RelayTunnel.OpenStream, RelayTunnel.FrameAll, RelayTunnel.Chunk, RelayTunnel.HandshakeBytes,
         RelayTunnel.Accepts, MiddleProxy.Remaining, MiddleProxy.ClientStream, MiddleProxy.IntermediateConn.Arrived,
         Bytes.Int16, Cbc.Decrypt, Cbc.WholeBlocks;
    ConcatNothing();
    RelayTunnel.HandshakeReadsBack(relay, psk, nonce, dcId, ip, port, frames, inTime);
    var tcp := new TcpConn(RelayTunnel.HandshakeBytes(relay, psk, nonce, dcId, ip, port) + frames);
    var b;
    b, meta := RelayTunnel.AcceptBack(tcp, relay, psk, inTime);
    back := b;
    PipeBack(back, middle, packets, turns);
  }

  /**
    The whole path with both directions at once, at the client and at both proxies in any turns. Each link's bytes
    are given as all that ever crosses it, and carry what the sender at its other end is shown to send. Then the
    server receives exactly the client's payloads in order, and the client reads all of the answers.
    */
  method BothWaysAtOnce(
    tls: Obfuscated2.Primitives, draw: Obfuscated2.Header, dcId: int, secret: Obfuscated2.Secret,
    clientPolicy: Policy, serverPolicy: Policy, toServer: bytes, toClient: bytes,
    relay: RelayTunnel.Primitives, psk: bytes, nonce: Nonce, ip: Option<Ip4>, port: int, inTime: nat,
    frames: bytes, toFront: bytes, middle: MiddleProxy.IntermediateConn,
    packets: seq<Packet>, chunks: seq<bytes>, sizes: BufferSizes, ghost events: seq<Event>, ghost close: bytes,
    clientTurns: nat -> bool, frontTurns: nat -> bool, backTurns: nat -> bool)
    returns (client: FakeTls.Conn, server: FakeTls.Conn, front: RelayTunnel.FrameConn, back: RelayTunnel.FrameConn,
             meta: RelayTunnel.Meta, got: seq<bytes>)
    requires secret.Key? ==> |secret.bytes| > 0
    requires psk != [] && inTime >= 6
    requires middle.Valid() && middle.wbuf == [] && middle.readBuf == [] && middle.inner.relay.readBuf == []
    requires Concat(chunks) == Serialize(packets)
    requires MiddleProxy.ServerSays(middle.inner.relay.readSeq, events, close, middle.inner.relay.cbc.Readable())
    requires var o := Obfuscated2.MakeHeader(tls, draw, dcId, secret);
             && AppStream(toServer) == FakeTls.Uplink(tls, o, Serialize(packets))
             && AppStream(toClient) == FakeTls.Downlink(tls, o, MiddleProxy.Answers(events))
    requires var a := relay.aead(psk, nonce);
             && RelayTunnel.OpenStream(a, frames) == Serialize(packets)
             && RelayTunnel.OpenStream(a, toFront) == MiddleProxy.Answers(events)
    modifies middle, middle.inner.relay, middle.inner.relay.cbc, middle.inner.relay.raw
    ensures client.inner.Valid() && client.inner.base == [] && Concat(client.inner.written) == AppStream(toServer)
    ensures server.inner.Valid() && server.inner.base == [] && Concat(server.inner.written) == AppStream(toClient)
    ensures front.Valid() && front.base == RelayTunnel.HandshakeBytes(relay, psk, nonce, Int16(dcId), ip, port)
    ensures back.Valid() && back.base == [] && meta.dcId == Int16(dcId)
    ensures var a := relay.aead(psk, nonce);
            && Concat(front.written) == RelayTunnel.OpenStream(a, frames)
            && Concat(back.written) == RelayTunnel.OpenStream(a, toFront)
    ensures middle.Arrived(old(middle.Out()), packets)
    ensures Concat(got) == MiddleProxy.Answers(events) && Filled(got, sizes)
  {
    hide Concat, Serialize, Obfuscated2.Crypt, Obfuscated2.MakeHeader, AppStream, FakeTls.Uplink, FakeTls.Downlink,
         RelayTunnel.OpenStream, RelayTunnel.FrameConn.Valid, Records.RecordConn.Valid, RelayTunnel.HandshakeBytes,
         MiddleProxy.ServerSays, MiddleProxy.Answers, MiddleProxy.Remaining, MiddleProxy.ClientStream,
         MiddleProxy.IntermediateConn.Arrived, Bytes.Int16, Net.Filled, Cbc.Decrypt, Cbc.WholeBlocks;
    var o := Obfuscated2.MakeHeader(tls, draw, dcId, secret);
    MiddleProxy.AnswersArrive(middle.inner.relay.readSeq, events, close, middle.inner.relay.cbc.Readable());
    MiddleProxy.RemainingAtStart(middle.inner.relay.cbc.Readable(), middle.inner.relay.readSeq);
    ghost var answers := MiddleProxy.Answers(events);
    client, got := Client(tls, o, clientPolicy, toClient, chunks, sizes, clientTurns, answers);
    server, front := Front(
      tls, draw, dcId, secret, serverPolicy, toServer, relay, psk, nonce, ip, port, toFront, frontTurns, Serialize(packets), answers);
    Int16Twice(dcId);
    back, meta := Back(relay, psk, nonce, Int16(dcId), ip, port, inTime, frames, middle, packets, backTurns);
  }

  lemma Int16Twice(x: int)
    ensures Int16(Int16(x)) == Int16(x)
  {}
}
