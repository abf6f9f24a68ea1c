/**
  The fake-TLS tunnel: obfuscated2.Conn of internal/obfuscated2/handshake.go over the record layer of
  internal/faketls/record.go, as a byte pipe in both directions.
  */
module FakeTls {
  import opened Bytes
  import opened Net
  import opened Records
  import opened Obfuscated2

  /** io.ReadFull over a record connection: k bytes of application data, whatever the record boundaries. */
  method ReadFull(rc: RecordConn, k: nat) returns (r: Option<bytes>)
    modifies rc`readBuf, rc.conn`incoming
    ensures k <= |old(rc.Incoming())| ==> r == Some(old(rc.Incoming())[..k]) && rc.Incoming() == old(rc.Incoming())[k..]
    ensures k > |old(rc.Incoming())| ==> r == None
  {
    hide AppStream, Bytes.Delivered;
    ghost var s := rc.Incoming();
    NothingDelivered(s);
    var got: bytes := [];
    while |got| < k
      invariant |got| <= k && Delivered(got, rc.Incoming(), s)
      decreases k - |got|, |rc.conn.incoming|
    {
      ghost var left := rc.Incoming();
      DeliveredParts(got, left, s);
      var data := rc.Read(k - |got|);
      if data == None { return None; }
      DeliveredParts(data.value, rc.Incoming(), left);
      DeliverPiece(got, left, s, data.value);
      got := got + data.value;
    }
    DeliveredParts(got, rc.Incoming(), s);
    r := Some(got);
  }

  class Conn {
    const inner: RecordConn
    const prim: Primitives
    var enc: Stream
    var dec: Stream

    constructor (inner: RecordConn, prim: Primitives, enc: Stream, dec: Stream)
      ensures this.inner == inner && this.prim == prim && this.enc == enc && this.dec == dec
    {
      this.inner, this.prim, this.enc, this.dec := inner, prim, enc, dec;
    }

    /** The plaintext still to be read. */
    ghost function Plain(): (s: bytes)
      reads this, inner, inner.conn
    {
      Crypt(prim, dec, inner.Incoming())
    }

    method Read(n: nat) returns (r: Option<bytes>)
      modifies this`dec, inner`readBuf, inner.conn`incoming
      ensures r.Some? ==>
                && |r.value| <= n && r.value <= old(Plain()) && Plain() == old(Plain())[|r.value|..]
                && dec == old(dec).Advance(|r.value|)
                && (n > 0 && r.value == [] ==> |inner.conn.incoming| < |old(inner.conn.incoming)|)
                && (inner.readBuf != [] ==> |r.value| == n)
      ensures |inner.conn.incoming| <= |old(inner.conn.incoming)|
      ensures r.None? ==> old(Plain()) == [] && Plain() == [] && dec == old(dec)
    {
      hide Crypt, AppStream;
      ghost var all := inner.Incoming();
      var data := inner.Read(n);
      if data == None { return None; }
      assert all == data.value + inner.Incoming();
      CryptAppend(prim, dec, data.value, inner.Incoming());
      r := Some(Crypt(prim, dec, data.value));
      dec := dec.Advance(|data.value|);
    }

    method Write(b: bytes)
      requires inner.Valid()
      modifies this`enc, inner`recordsWritten, inner`bytesWritten, inner`written, inner`splitDone, inner.conn`sent
      ensures inner.Valid() && old(inner.written) <= inner.written
      ensures Concat(inner.written) == Concat(old(inner.written)) + Crypt(prim, old(enc), b)
      ensures enc == old(enc).Advance(|b|)
    {
      var buf := Crypt(prim, enc, b);
      var n := inner.Write(buf);
      enc := enc.Advance(|b|);
    }

    /** Any run of writes puts one continuous encryption of the concatenation on the wire. */
    method WriteAll(pieces: seq<bytes>)
      requires inner.Valid()
      modifies this`enc, inner`recordsWritten, inner`bytesWritten, inner`written, inner`splitDone, inner.conn`sent
      ensures inner.Valid()
      ensures Concat(inner.written) == Concat(old(inner.written)) + Crypt(prim, old(enc), Concat(pieces))
      ensures enc == old(enc).Advance(|Concat(pieces)|)
    {
      hide Crypt, Concat;
      NothingYet(prim, enc, Concat(inner.written));
      for k := 0 to |pieces|
        invariant inner.Valid()
        invariant Concat(inner.written) == Concat(old(inner.written)) + Crypt(prim, old(enc), Concat(pieces[..k]))
        invariant enc == old(enc).Advance(|Concat(pieces[..k])|)
      {
        assert pieces[..k + 1] == pieces[..k] + [pieces[k]];
        ConcatSnoc(pieces[..k], pieces[k]);
        CryptAppend(prim, old(enc), Concat(pieces[..k]), pieces[k]);
        Write(pieces[k]);
      }
      assert pieces[..|pieces|] == pieces;
    }

    /**
      Any run of reads delivers the plaintext in order. It reports the end only when all has arrived, and it does
      so when there are enough reads: a read that delivers nothing still takes a record off the wire.
      */
    method ReadAll(sizes: seq<nat>) returns (got: bytes, ended: bool)
      modifies this`dec, inner`readBuf, inner.conn`incoming
      ensures got <= old(Plain()) && Plain() == old(Plain())[|got|..] && dec == old(dec).Advance(|got|)
      ensures ended ==> got == old(Plain())
      ensures Enough(sizes, |old(Plain())| + |old(inner.conn.incoming)| + 1) ==> ended
    {
      hide Crypt, Bytes.Delivered;
      ghost var all := Plain();
      NothingDelivered(all);
      got, ended := [], false;
      for k := 0 to |sizes|
        invariant Delivered(got, Plain(), all) && dec == old(dec).Advance(|got|)
        invariant (forall n :: n in sizes ==> n > 0) ==>
                    k + |Plain()| + |inner.conn.incoming| <= |all| + |old(inner.conn.incoming)|
      {
        ghost var left := Plain();
        assert sizes[k] in sizes;
        var r := Read(sizes[k]);
        if r == None {
          DeliveredParts(got, left, all);
          return got, true;
        }
        DeliverPiece(got, left, all, r.value);
        got := got + r.value;
      }
      DeliveredParts(got, Plain(), all);
    }

    /** An upper bound on the reads that are left. */
    ghost function Left(): (n: nat)
      reads this, inner, inner.conn
    {
      |Plain()| + |inner.conn.incoming|
    }

    /** One more read on the way through the plaintext. */
    method ReadNext(pieces: seq<bytes>, sizes: BufferSizes, ghost all: bytes) returns (more: seq<bytes>, ended: bool)
      requires Delivered(Concat(pieces), Plain(), all) && Filled(pieces, sizes)
      modifies this`dec, inner`readBuf, inner.conn`incoming
      ensures Delivered(Concat(more), Plain(), all) && Filled(more, sizes)
      ensures if ended then Plain() == [] else Left() < old(Left())
    {
      hide Crypt, AppStream, Concat, Bytes.Delivered, Net.Filled;
      ghost var left := Plain();
      var n := sizes(|pieces|);
      var r := Read(n);
      if r == None { return pieces, true; }
      FilledSnoc(pieces, sizes, r.value);
      ConcatSnoc(pieces, r.value);
      DeliverPiece(Concat(pieces), left, all, r.value);
      more, ended := pieces + [r.value], false;
    }

    /** Reading until the end is reported, with buffers of any sizes, takes exactly the plaintext. */
    method ReadToEnd(sizes: BufferSizes) returns (pieces: seq<bytes>)
      modifies this`dec, inner`readBuf, inner.conn`incoming
      ensures Concat(pieces) == old(Plain()) && Plain() == []
      ensures Filled(pieces, sizes)
    {
      hide Crypt, AppStream, Concat, Bytes.Delivered, Net.Filled, Net.AllPositive;
      pieces := [];
      NothingFilled(sizes);
      ConcatNothing();
      ghost var all := Plain();
      NothingDelivered(all);
      var ended := false;
      while !ended
        invariant Delivered(Concat(pieces), Plain(), all) && Filled(pieces, sizes) && (ended ==> Plain() == [])
        decreases !ended, Left()
      {
        pieces, ended := ReadNext(pieces, sizes, all);
      }
      DeliveredParts(Concat(pieces), Plain(), all);
    }
  }

  /** The ciphertext that still has to be written behind what is there, for this plaintext. */
  ghost function Total(c: Conn, more: bytes): (s: bytes)
    reads c, c.inner
  {
    Concat(c.inner.written) + Crypt(c.prim, c.enc, more)
  }

  /** Writing the front of the plaintext leaves the total as it was. */
  lemma OutgoingStep(prim: Primitives, enc: Stream, before: bytes, after: bytes, p: bytes, more: bytes)
    requires after == before + Crypt(prim, enc, p)
    ensures after + Crypt(prim, enc.Advance(|p|), more) == before + Crypt(prim, enc, p + more)
  {
    hide Crypt;
    CryptAppend(prim, enc, p, more);
  }

  /**
    Both directions of a connection at once: however the writes of the chunks and the reads until the end take
    turns, the writes put out the encryption of the chunks, and the reads take exactly the plaintext.
    */
  method Converse(c: Conn, chunks: seq<bytes>, sizes: BufferSizes, turns: nat -> bool) returns (pieces: seq<bytes>)
    requires c.inner.Valid()
    modifies c, c.inner, c.inner.conn
    ensures c.inner.Valid() && Concat(c.inner.written) == old(Total(c, Concat(chunks)))
    ensures Concat(pieces) == old(c.Plain()) && Filled(pieces, sizes)
  {
    hide Crypt, AppStream, EncodeAll, AppRecords, Concat, Records.Chunk, Records.RampLimit, Bytes.Delivered, Net.Filled, Net.AllPositive;
    pieces := [];
    ghost var all, total := c.Plain(), Total(c, Concat(chunks));
    NothingFilled(sizes);
    ConcatNothing();
    NothingDelivered(all);
    var rest, ended, step := chunks, false, 0;
    while rest != [] || !ended
      invariant c.inner.Valid() && Total(c, Concat(rest)) == total
      invariant Delivered(Concat(pieces), c.Plain(), all) && Filled(pieces, sizes) && (ended ==> c.Plain() == [])
      decreases |rest|, !ended, c.Left()
    {
      if rest != [] && (ended || turns(step)) {
        ghost var before, enc := Concat(c.inner.written), c.enc;
        c.Write(rest[0]);
        ConcatFirst(rest);
        OutgoingStep(c.prim, enc, before, Concat(c.inner.written), rest[0], Concat(rest[1..]));
        rest := rest[1..];
      } else {
        pieces, ended := c.ReadNext(pieces, sizes, all);
      }
      step := step + 1;
    }
    DeliveredParts(Concat(pieces), c.Plain(), all);
    NoMoreOutgoing(c);
  }

  lemma NoMoreOutgoing(c: Conn)
    ensures Total(c, Concat([])) == Concat(c.inner.written)
  {}

  lemma NothingYet(prim: Primitives, s: Stream, before: bytes)
    ensures before == before + Crypt(prim, s, Concat([]))
  {}

  /** obfuscated2.Handshake on the server's record connection. */
  method Handshake(rc: RecordConn, prim: Primitives, secret: Secret) returns (c: Conn?, dcId: int)
    modifies rc`readBuf, rc.conn`incoming
    ensures var s := old(rc.Incoming());
            c != null <==> |s| >= 64 && Accept(prim, s[..64], secret).Some?
    ensures c != null ==>
              var s := old(rc.Incoming());
              var a := Accept(prim, s[..64], secret).value;
              && fresh(c) && c.inner == rc && c.prim == prim && c.enc == a.enc && c.dec == a.dec
              && dcId == a.dcId && rc.Incoming() == s[64..]
  {
    hide Accept, AppStream;
    dcId := 0;
    var header := ReadFull(rc, 64);
    if header == None { return null, 0; }
    var a := Accept(prim, header.value, secret);
    if a == None { return null, 0; }
    c := new Conn(rc, prim, a.value.enc, a.value.dec);
    dcId := a.value.dcId;
  }

  ghost predicate KeepsAppData(wire: bytes -> bytes) {
    forall s: bytes :: AppStream(wire(s)) == AppStream(s)
  }

  /** The way between two record connections: it may insert other records anywhere, or cut records differently. */
  type Wire = w: bytes -> bytes | KeepsAppData(w) witness (s: bytes) => s

  lemma WireDelivers(wire: Wire, chunks: seq<bytes>)
    requires forall c :: c in chunks ==> Chunk(c)
    ensures AppStream(wire(EncodeAll(AppRecords(chunks)))) == Concat(chunks)
  {
    hide AppStream, EncodeAll, AppRecords, Concat;
    var rs := AppRecords(chunks);
    AppStreamReadsBack(rs, []);
    AppDataOfChunks(chunks);
    AppStreamOfStream([]);
    assert EncodeAll(rs) + [] == EncodeAll(rs) && AppData(rs) + [] == AppData(rs);
  }

  /** Every list of records with the sender's application data is what some wire delivers. */
  lemma AnyRecordsMayArrive(chunks: seq<bytes>, rs: seq<Record>)
    requires (forall c :: c in chunks ==> Chunk(c)) && AppData(rs) == Concat(chunks)
    ensures exists wire: Wire :: wire(EncodeAll(AppRecords(chunks))) == EncodeAll(rs)
  {
    hide AppStream, EncodeAll, AppRecords, Concat, AppData;
    var sent, arrived := EncodeAll(AppRecords(chunks)), EncodeAll(rs);
    var wire := (s: bytes) => if s == sent then arrived else s;
    WireDelivers((s: bytes) => s, chunks);
    AppStreamReadsBack(rs, []);
    AppStreamOfStream([]);
    assert arrived + [] == arrived && AppData(rs) + [] == AppData(rs);
    assert KeepsAppData(wire);
    assert wire(sent) == arrived;
  }

  /** In particular, records of any other kind may be inserted. */
  lemma InsertionKeepsAppData(before: seq<Record>, other: Record, after: seq<Record>)
    requires other.kind != APPLICATION_DATA
    ensures AppStream(EncodeAll(before) + Encode(other) + EncodeAll(after)) == AppStream(EncodeAll(before) + EncodeAll(after))
  {
    hide AppStream, EncodeAll, Encode;
    AppStreamReadsBack(before, Encode(other) + EncodeAll(after));
    AppStreamReadsBack(before, EncodeAll(after));
    AppStreamStep(other, EncodeAll(after));
    assert EncodeAll(before) + Encode(other) + EncodeAll(after) == EncodeAll(before) + (Encode(other) + EncodeAll(after));
    assert [] + AppStream(EncodeAll(after)) == AppStream(EncodeAll(after));
  }

  /** What the server's application data decrypts to, behind the client's header. */
  lemma UplinkStream(prim: Primitives, o: Outgoing, plain: bytes)
    requires o.enc.pos == 64
    ensures var s := o.header + Crypt(prim, o.enc, plain);
            s[..64] == o.header && Crypt(prim, o.enc, s[64..]) == plain
  {
    var s := o.header + Crypt(prim, o.enc, plain);
    assert s[64..] == Crypt(prim, o.enc, plain);
    CryptTwice(prim, o.enc, plain);
  }

  /** The application data of a tunnel towards the server, and towards the client. */
  function Uplink(prim: Primitives, o: Outgoing, up: bytes): (s: bytes)
  {
    o.header + Crypt(prim, o.enc, up)
  }

  function Downlink(prim: Primitives, o: Outgoing, down: bytes): (s: bytes)
  {
    Crypt(prim, o.dec, down)
  }

  /** The client's end: the header goes out, and the streams stand where the header puts them. */
  method Dial(prim: Primitives, o: Outgoing, policy: Policy, toClient: bytes) returns (client: Conn)
    ensures fresh(client) && fresh(client.inner) && fresh(client.inner.conn)
    ensures client.inner.Valid() && client.inner.base == [] && client.prim == prim
    ensures client.inner.readBuf == [] && client.inner.conn.incoming == toClient
    ensures Concat(client.inner.written) == o.header && client.enc == o.enc && client.dec == o.dec
  {
    hide AppStream, EncodeAll, AppRecords, Concat;
    ConcatNothing();
    var tcp := new TcpConn(toClient);
    var records := new RecordConn(tcp, policy);
    var n := records.Write(o.header);
    client := new Conn(records, prim, o.enc, o.dec);
  }

  /** The server's end, on a stream that carries the header and the client's data. */
  method Accepting(prim: Primitives, draw: Header, dcId: int, secret: Secret, policy: Policy, toServer: bytes, ghost up: bytes)
    returns (server: Conn, recovered: int)
    requires secret.Key? ==> |secret.bytes| > 0
    requires AppStream(toServer) == Uplink(prim, MakeHeader(prim, draw, dcId, secret), up)
    ensures fresh(server) && fresh(server.inner) && fresh(server.inner.conn)
    ensures server.inner.Valid() && server.inner.base == [] && server.inner.written == []
    ensures var o := MakeHeader(prim, draw, dcId, secret); server.prim == prim && server.enc == o.dec && server.dec == o.enc
    ensures recovered == Int16(dcId) && server.Plain() == up
  {
    hide Crypt, AppStream, EncodeAll, AppRecords, MakeHeader, Accept, Concat, Bytes.Int16;
    var tcp := new TcpConn(toServer);
    var records := new RecordConn(tcp, policy);
    HandshakeAgrees(prim, draw, dcId, secret);
    UplinkStream(prim, MakeHeader(prim, draw, dcId, secret), up);
    assert records.Incoming() == AppStream(toServer);
    var c, dc := Handshake(records, prim, secret);
    server, recovered := c, dc;
  }

  /** The client opens the tunnel and sends; the server answers its handshake. */
  method Open(
    prim: Primitives, draw: Header, dcId: int, secret: Secret, clientPolicy: Policy, serverPolicy: Policy,
    up: seq<bytes>, there: Wire) returns (client: Conn, server: Conn, recovered: int)
    requires secret.Key? ==> |secret.bytes| > 0
    ensures fresh(client) && fresh(client.inner) && fresh(client.inner.conn)
    ensures fresh(server) && fresh(server.inner) && fresh(server.inner.conn)
    ensures client != server && client.inner != server.inner && client.inner.conn != server.inner.conn
    ensures client.prim == server.prim == prim && client.inner.readBuf == []
    ensures server.inner.Valid() && server.inner.written == [] && server.inner.base == []
    ensures recovered == Int16(dcId)
    ensures server.Plain() == Concat(up)
    ensures server.enc == client.dec && server.enc.pos == 0
    ensures server.dec.Advance(|Concat(up)|) == client.enc && server.dec.pos == 64
  {
    hide Crypt, AppStream, EncodeAll, AppRecords, MakeHeader, Accept, Concat, Bytes.Int16;
    var o := MakeHeader(prim, draw, dcId, secret);
    HandshakeAgrees(prim, draw, dcId, secret);
    client := Dial(prim, o, clientPolicy, []);
    client.WriteAll(up);
    WireDelivers(there, client.inner.written);
    var sent := client.inner.conn.sent;
    assert sent == EncodeAll(AppRecords(client.inner.written));
    server, recovered := Accepting(prim, draw, dcId, secret, serverPolicy, there(sent), Concat(up));
  }

  /**
    A whole tunnel: for every random header, data centre, secret, pair of policies, record sizes, inserted
    records, and chunking on both ends, the server recovers the id, and both directions arrive unchanged and whole.
    */
  method Tunnel(
    prim: Primitives, draw: Header, dcId: int, secret: Secret, clientPolicy: Policy, serverPolicy: Policy,
    up: seq<bytes>, upSizes: BufferSizes, down: seq<bytes>, downSizes: BufferSizes, there: Wire, back: Wire)
    returns (recovered: int, gotUp: seq<bytes>, gotDown: seq<bytes>)
    requires secret.Key? ==> |secret.bytes| > 0
    ensures recovered == Int16(dcId)
    ensures Concat(gotUp) == Concat(up) && Filled(gotUp, upSizes)
    ensures Concat(gotDown) == Concat(down) && Filled(gotDown, downSizes)
  {
    hide Crypt, AppStream, EncodeAll, AppRecords, Concat, Bytes.Int16, Net.Filled;
    var client, server;
    client, server, recovered := Open(prim, draw, dcId, secret, clientPolicy, serverPolicy, up, there);
    gotUp := server.ReadToEnd(upSizes);

    ConcatNothing();
    server.WriteAll(down);
    CryptTwice(prim, client.dec, Concat(down));
    Transmit(server.inner, back, client.inner);
    assert client.inner.Incoming() == Crypt(prim, client.dec, Concat(down));
    gotDown := client.ReadToEnd(downSizes);
  }

  /**
    The tunnel with both directions at once. toServer and toClient are all that ever reaches the two ends, whatever
    the cut and the other records in between: they carry what the other end sends, and each end does send just
    that. Then each end, in whatever turns it writes and reads, gets exactly what the other one wrote.
    */
  method TunnelBothWays(
    prim: Primitives, draw: Header, dcId: int, secret: Secret, clientPolicy: Policy, serverPolicy: Policy,
    up: seq<bytes>, upSizes: BufferSizes, down: seq<bytes>, downSizes: BufferSizes,
    toServer: bytes, toClient: bytes, clientTurns: nat -> bool, serverTurns: nat -> bool)
    returns (client: Conn, server: Conn, recovered: int, gotUp: seq<bytes>, gotDown: seq<bytes>)
    requires secret.Key? ==> |secret.bytes| > 0
    requires var o := MakeHeader(prim, draw, dcId, secret);
             AppStream(toServer) == Uplink(prim, o, Concat(up)) && AppStream(toClient) == Downlink(prim, o, Concat(down))
    ensures client.inner.Valid() && client.inner.base == [] && Concat(client.inner.written) == AppStream(toServer)
    ensures server.inner.Valid() && server.inner.base == [] && Concat(server.inner.written) == AppStream(toClient)
    ensures recovered == Int16(dcId)
    ensures Concat(gotUp) == Concat(up) && Filled(gotUp, upSizes)
    ensures Concat(gotDown) == Concat(down) && Filled(gotDown, downSizes)
  {
    hide Crypt, AppStream, EncodeAll, AppRecords, MakeHeader, Concat, Records.Chunk, Bytes.Int16, Net.Filled;
    var o := MakeHeader(prim, draw, dcId, secret);
    ConcatNothing();
    client := Dial(prim, o, clientPolicy, toClient);
    CryptTwice(prim, o.dec, Concat(down));
    assert client.inner.Incoming() == Downlink(prim, o, Concat(down));
    server, recovered := Accepting(prim, draw, dcId, secret, serverPolicy, toServer, Concat(up));
    gotDown := Converse(client, up, downSizes, clientTurns);
    gotUp := Converse(server, down, upSizes, serverTurns);
  }

  /** The network: everything the sender has sent reaches the receiver. */
  method Transmit(sender: RecordConn, wire: Wire, receiver: RecordConn)
    requires sender.Valid() && sender.base == [] && receiver.readBuf == []
    modifies receiver.conn`incoming
    ensures receiver.Incoming() == Concat(sender.written)
  {
    WireDelivers(wire, sender.written);
    assert sender.conn.sent == EncodeAll(AppRecords(sender.written));
    receiver.conn.incoming := wire(sender.conn.sent);
  }
}
