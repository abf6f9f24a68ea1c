/**
  The PHRP tunnel between a front and a back proxy, internal/relay/tunnel.go: a 60-byte authenticated
  handshake, then AEAD frames with a counter nonce.
  */
module RelayTunnel {
  import opened Bytes
  import opened Net

  const MAGIC: bytes := [0x50, 0x48, 0x52, 0x50]
  const BASE_LENGTH := 54
  const MAX_FRAME := 64 * 1024
  const MAX_CHUNK := MAX_FRAME - 32

  datatype AeadFunctions = AeadFunctions(seal: (bytes, bytes) -> bytes, open: (bytes, bytes) -> Option<bytes>) {
    ghost predicate Lawful() {
      && (forall n: bytes, p: bytes :: |seal(n, p)| == |p| + 16)
      && (forall n: bytes, p: bytes :: open(n, seal(n, p)) == Some(p))
    }
  }

  /** A keyed AEAD: Open inverts Seal, and Seal adds a 16-byte tag. */
  type Aead = a: AeadFunctions | a.Lawful()
    witness AeadFunctions(
              (n: bytes, p: bytes) => seq(16, _ => 0) + p,
              (n: bytes, c: bytes) => if |c| < 16 then None else Some(c[16..]))

  datatype Primitives = Primitives(hmac: (bytes, bytes) -> Digest, aead: (bytes, bytes) -> Aead)

  // ---------------------------------------------------------------------------
  // Frames
  // ---------------------------------------------------------------------------

  function FrameNonce(counter: nat): (n: bytes)
    ensures |n| == 12
  {
    [0, 0, 0, 0] + BE64(counter % TWO_64)
  }

  predicate Chunk(c: bytes) {
    1 <= |c| <= MAX_CHUNK
  }

  /** What follows the length word: the nonce and the sealed payload; at most 65532 bytes. */
  function Sealed(a: Aead, counter: nat, payload: bytes): (s: bytes)
    ensures |s| == |payload| + 28
    ensures Chunk(payload) ==> 12 <= |s| <= 65532 <= MAX_FRAME
  {
    FrameNonce(counter) + a.seal(FrameNonce(counter), payload)
  }

  function Frame(a: Aead, counter: nat, payload: bytes): (s: bytes)
  {
    BE32(Uint32(|Sealed(a, counter, payload)|)) + Sealed(a, counter, payload)
  }

  /** The frames of a sender whose counter stands at `counter`. */
  function FrameAll(a: Aead, counter: nat, chunks: seq<bytes>): (s: bytes)
    requires forall c :: c in chunks ==> Chunk(c)
    decreases |chunks|
  {
    if chunks == [] then [] else Frame(a, counter + 1, chunks[0]) + FrameAll(a, counter + 1, chunks[1..])
  }

  /** The body of the first frame of a stream, if it is complete and of an admissible size. */
  function FirstFrame(s: bytes): (r: Option<bytes>)
    ensures r.Some? ==> 12 <= |r.value| <= MAX_FRAME && 4 + |r.value| <= |s|
  {
    if |s| < 4 then None
    else
      var n := FromBE32(s[..4]);
      if n <= 0 || n > MAX_FRAME || |s| < 4 + n || n < 12 then None else Some(s[4..4 + n])
  }

  /** The plaintext a reader gets before the stream ends or a frame is refused. */
  function OpenStream(a: Aead, s: bytes): (p: bytes)
    decreases |s|
  {
    match FirstFrame(s)
    case None => []
    case Some(frame) =>
      match a.open(frame[..12], frame[12..])
      case None => []
      case Some(plain) => plain + OpenStream(a, s[4 + |frame|..])
  }

  /** The nonces of the frames on a wire. */
  function WireNonces(s: bytes): (ns: seq<bytes>)
    decreases |s|
  {
    match FirstFrame(s)
    case None => []
    case Some(frame) => [frame[..12]] + WireNonces(s[4 + |frame|..])
  }

  /** A frame byte by byte: its length and its counter with the high byte first, and the sealed payload. */
  lemma FrameBytes(a: Aead, counter: nat, payload: bytes)
    requires |payload| + 28 < 0x1_0000_0000
    ensures var s := Frame(a, counter, payload);
            && 16777216 * (s[0] as int) + 65536 * (s[1] as int) + 256 * (s[2] as int) + s[3] as int == |payload| + 28
            && s[4..8] == [0, 0, 0, 0]
            && 4294967296 * FromBE32(s[8..12]) + FromBE32(s[12..16]) == counter % 0x1_0000_0000_0000_0000
            && s[16..] == a.seal(s[4..16], payload)
  {
    hide Bytes.BE32, Bytes.FromBE32, Bytes.BE64, Bytes.FromBE64;
    var s := Frame(a, counter, payload);
    var len, n, c := BE32(Uint32(|payload| + 28)), FrameNonce(counter), BE64(counter % TWO_64);
    assert s == len + n + a.seal(n, payload);
    assert s[0] == len[0] && s[1] == len[1] && s[2] == len[2] && s[3] == len[3];
    BigEndian32(len);
    assert s[4..16] == n && s[4..8] == n[..4] && s[8..12] == c[..4] && s[12..16] == c[4..];
    BigEndian64(c);
  }

  /** Which frames a reader admits: 12 to 65536 bytes, and all of them there. */
  lemma FirstFrameMeans(s: bytes)
    ensures |s| < 4 ==> FirstFrame(s) == None
    ensures |s| >= 4 ==>
              var n := 16777216 * (s[0] as int) + 65536 * (s[1] as int) + 256 * (s[2] as int) + s[3] as int;
              FirstFrame(s) == if 12 <= n <= 65536 && 4 + n <= |s| then Some(s[4..4 + n]) else None
  {
    hide Bytes.FromBE32;
    if |s| >= 4 { BigEndian32(s[..4]); }
  }

  lemma FirstFrameReadsBack(a: Aead, counter: nat, payload: bytes, rest: bytes)
    requires Chunk(payload)
    ensures var s := Frame(a, counter, payload) + rest;
            var frame := Sealed(a, counter, payload);
            FirstFrame(s) == Some(frame) && s[4 + |frame|..] == rest
  {
    hide Bytes.BE32, Bytes.FromBE32, Sealed;
    var s := Frame(a, counter, payload) + rest;
    var frame := Sealed(a, counter, payload);
    assert s[..4] == BE32(|frame|) && s[4..4 + |frame|] == frame && s[4 + |frame|..] == rest;
  }

  lemma SealedOpens(a: Aead, counter: nat, payload: bytes)
    ensures var frame := Sealed(a, counter, payload);
            frame[..12] == FrameNonce(counter) && a.open(frame[..12], frame[12..]) == Some(payload)
  {
    hide FrameNonce;
    var n := FrameNonce(counter);
    var frame := Sealed(a, counter, payload);
    assert frame[..12] == n && frame[12..] == a.seal(n, payload);
  }

  lemma {:induction false} FramesReadBack(a: Aead, counter: nat, chunks: seq<bytes>, rest: bytes)
    requires forall c :: c in chunks ==> Chunk(c)
    ensures OpenStream(a, FrameAll(a, counter, chunks) + rest) == Concat(chunks) + OpenStream(a, rest)
    decreases |chunks|
  {
    hide FirstFrame, Frame, Sealed, OpenStream, Chunk;
    if chunks == [] {
      assert FrameAll(a, counter, chunks) + rest == rest;
      assert Concat(chunks) + OpenStream(a, rest) == OpenStream(a, rest);
    } else {
      var tail := FrameAll(a, counter + 1, chunks[1..]) + rest;
      assert Chunk(chunks[0]);
      assert FrameAll(a, counter, chunks) + rest == Frame(a, counter + 1, chunks[0]) + tail;
      FirstFrameReadsBack(a, counter + 1, chunks[0], tail);
      SealedOpens(a, counter + 1, chunks[0]);
      OpenStreamStep(a, Frame(a, counter + 1, chunks[0]) + tail);
      FramesReadBack(a, counter + 1, chunks[1..], rest);
    }
  }

  /** The nonces on a sender's wire are its counter values in order. */
  lemma {:induction false} WireNoncesCount(a: Aead, counter: nat, chunks: seq<bytes>)
    requires forall c :: c in chunks ==> Chunk(c)
    ensures var ns := WireNonces(FrameAll(a, counter, chunks));
            |ns| == |chunks| && forall i :: 0 <= i < |ns| ==> ns[i] == FrameNonce(counter + 1 + i)
    decreases |chunks|
  {
    hide FirstFrame, Frame, Sealed, FrameNonce;
    if chunks == [] {
      NoFrame();
    } else {
      var tail := FrameAll(a, counter + 1, chunks[1..]);
      assert Chunk(chunks[0]);
      FirstFrameReadsBack(a, counter + 1, chunks[0], tail);
      SealedOpens(a, counter + 1, chunks[0]);
      WireNoncesCount(a, counter + 1, chunks[1..]);
      var ns := WireNonces(FrameAll(a, counter, chunks));
      forall i | 0 < i < |ns| ensures ns[i] == FrameNonce(counter + 1 + i) {
        assert ns[i] == WireNonces(tail)[i - 1];
      }
    }
  }

  lemma NoFrame()
    ensures FirstFrame([]) == None
  {}

  /** Below 2^64 frames, no nonce of one sender occurs twice on the wire. */
  lemma NoncesDistinct(a: Aead, chunks: seq<bytes>, i: nat, j: nat)
    requires forall c :: c in chunks ==> Chunk(c)
    requires |chunks| < TWO_64 && i < j < |chunks|
    ensures var ns := WireNonces(FrameAll(a, 0, chunks)); |ns| == |chunks| && ns[i] != ns[j]
  {
    hide WireNonces, FrameAll, FrameNonce;
    WireNoncesCount(a, 0, chunks);
    FrameNonceInjective(i + 1, j + 1);
  }

  /**
    The two ends share the key and both count from one, so across the directions the nonces do collide: the i-th
    frame one way and the j-th frame the other way have the same nonce exactly when i == j.
    */
  lemma NoncesCollideAcross(a: Aead, up: seq<bytes>, down: seq<bytes>, i: nat, j: nat)
    requires (forall c :: c in up ==> Chunk(c)) && (forall c :: c in down ==> Chunk(c))
    requires i < |up| < TWO_64 && j < |down| < TWO_64
    ensures var ns, ms := WireNonces(FrameAll(a, 0, up)), WireNonces(FrameAll(a, 0, down));
            |ns| == |up| && |ms| == |down| && (ns[i] == ms[j] <==> i == j)
  {
    hide WireNonces, FrameAll, FrameNonce;
    WireNoncesCount(a, 0, up);
    WireNoncesCount(a, 0, down);
    FrameNonceInjective(i + 1, j + 1);
  }

  lemma FrameNonceInjective(i: nat, j: nat)
    requires i < TWO_64 && j < TWO_64
    ensures FrameNonce(i) == FrameNonce(j) ==> i == j
  {
    hide Bytes.BE64, Bytes.FromBE64;
    assert FrameNonce(i)[4..] == BE64(i) && FrameNonce(j)[4..] == BE64(j);
    assert FromBE64(BE64(i)) == i && FromBE64(BE64(j)) == j;
  }

  lemma {:induction false} FrameAllSnoc(a: Aead, counter: nat, chunks: seq<bytes>, c: bytes)
    requires (forall x :: x in chunks ==> Chunk(x)) && Chunk(c)
    ensures forall x :: x in chunks + [c] ==> Chunk(x)
    ensures FrameAll(a, counter, chunks + [c]) == FrameAll(a, counter, chunks) + Frame(a, counter + |chunks| + 1, c)
    decreases |chunks|
  {
    hide Frame;
    if chunks == [] {
      assert chunks + [c] == [c] && FrameAll(a, counter + 1, [c][1..]) == [];
    } else {
      assert (chunks + [c])[1..] == chunks[1..] + [c];
      FrameAllSnoc(a, counter + 1, chunks[1..], c);
    }
  }

  // ---------------------------------------------------------------------------
  // The framed connection
  // ---------------------------------------------------------------------------

  class FrameConn {
    const conn: TcpConn
    const aead: Aead
    var rbuf: bytes
    // A uint64 counter.
    var nonce: nat
    // The payloads of all frames written, and what was on the wire before them.
    ghost var written: seq<bytes>
    ghost const base: bytes

    constructor (conn: TcpConn, aead: Aead)
      ensures this.conn == conn && this.aead == aead && rbuf == [] && written == []
      ensures base == conn.sent && Valid()
    {
      this.conn, this.aead, rbuf, nonce := conn, aead, [], 0;
      written, base := [], conn.sent;
      new;
      assert base + [] == base;
    }

    ghost predicate Valid()
      reads this, conn
    {
      && (forall c :: c in written ==> Chunk(c))
      && conn.sent == base + FrameAll(aead, 0, written)
      && nonce == |written| % TWO_64
    }

    /** The plaintext still to be read. */
    ghost function Plain(): (s: bytes)
      reads this, conn
    {
      rbuf + OpenStream(aead, conn.incoming)
    }

    /** Read delivers the front of the plaintext, never nothing while there is some, and fails only at its end. */
    method Read(n: nat) returns (r: Option<bytes>)
      modifies this`rbuf, conn`incoming
      ensures r.Some? <==> old(Plain()) != []
      ensures r.Some? ==>
                && |r.value| <= n && (n > 0 ==> r.value != [])
                && r.value <= old(Plain()) && Plain() == old(Plain())[|r.value|..]
                && (rbuf != [] ==> |r.value| == n)
    {
      hide FirstFrame, OpenStream, Bytes.FromBE32;
      ghost var all := Plain();
      while |rbuf| == 0
        invariant Plain() == all
        decreases |rbuf| == 0, |conn.incoming|
      {
        ghost var s := conn.incoming;
        OpenStreamStep(aead, s);
        FirstFrameCases(s);
        var hdr := conn.ReadFull(4);
        if hdr == None { return None; }
        var k := FromBE32(hdr.value);
        if k <= 0 || k > MAX_FRAME { return None; }
        var frame := conn.ReadFull(k);
        if frame == None { return None; }
        assert frame.value == s[4..4 + k] && conn.incoming == s[4 + k..];
        if |frame.value| < 12 { return None; }
        var plain := aead.open(frame.value[..12], frame.value[12..]);
        if plain == None { return None; }
        rbuf := plain.value;
      }
      var k := if n < |rbuf| then n else |rbuf|;
      TakeFront(rbuf, OpenStream(aead, conn.incoming), k);
      r, rbuf := Some(rbuf[..k]), rbuf[k..];
    }

    /** writeFrameLocked seals any payload; the frames stay readable as long as it is one that Write makes. */
    method WriteFrame(payload: bytes)
      requires Valid()
      modifies this`nonce, this`written, conn`sent
      ensures conn.sent == old(conn.sent) + Frame(aead, old(|written|) + 1, payload)
      ensures written == old(written) + [payload] && nonce == |written| % TWO_64
      ensures Chunk(payload) ==> Valid()
    {
      hide FrameAll, FrameNonce, Bytes.BE32;
      if Chunk(payload) { FrameAllSnoc(aead, 0, written, payload); }
      CounterNonce(|written|, nonce);
      nonce := (nonce + 1) % TWO_64;
      var n := FrameNonce(nonce);
      var sealed := n + aead.seal(n, payload);
      conn.Write(BE32(Uint32(|sealed|)) + sealed);
      written := written + [payload];
    }

    /** Write cuts b into frames that every reader admits, and writes all of it. */
    method Write(b: bytes) returns (total: nat)
      requires Valid()
      modifies this`nonce, this`written, conn`sent
      ensures Valid() && total == |b|
      ensures old(written) <= written && Concat(written) == Concat(old(written)) + b
      ensures forall i :: |old(written)| <= i < |written| - 1 ==> |written[i]| == 65504
    {
      hide FrameAll, Concat, Bytes.Delivered;
      ghost var all := Concat(written) + b;
      total := 0;
      var rest := b;
      StartDelivery(Concat(written), b);
      while |rest| > 0
        invariant Valid() && total + |rest| == |b|
        invariant old(written) <= written && Delivered(Concat(written), rest, all)
        invariant forall i :: |old(written)| <= i < |written| - 1 ==> |written[i]| == 65504
        invariant rest != [] && |written| > |old(written)| ==> |written[|written| - 1]| == 65504
        decreases |rest|
      {
        var k := if |rest| > MAX_CHUNK then MAX_CHUNK else |rest|;
        var chunk := rest[..k];
        ghost var before := written;
        WriteFrame(chunk);
        ConcatSnoc(before, chunk);
        DeliverPiece(Concat(before), rest, all, chunk);
        total, rest := total + |chunk|, rest[k..];
      }
      DeliveredParts(Concat(written), rest, all);
    }
  }

  lemma OpenStreamStep(a: Aead, s: bytes)
    ensures OpenStream(a, s) ==
            match FirstFrame(s)
            case None => []
            case Some(frame) =>
              var plain := a.open(frame[..12], frame[12..]);
              if plain.None? then [] else plain.value + OpenStream(a, s[4 + |frame|..])
  {
    hide FirstFrame;
  }

  lemma FirstFrameCases(s: bytes)
    ensures |s| < 4 ==> FirstFrame(s) == None
    ensures |s| >= 4 ==>
              var n := FromBE32(s[..4]);
              FirstFrame(s) == if n == 0 || n > MAX_FRAME || |s| < 4 + n || n < 12 then None else Some(s[4..4 + n])
  {
    hide Bytes.FromBE32;
  }

  lemma CounterNonce(i: nat, j: nat)
    requires i % TWO_64 == j
    ensures (i + 1) % TWO_64 == (j + 1) % TWO_64
    ensures FrameNonce(i + 1) == FrameNonce((j + 1) % TWO_64)
  {
    hide Bytes.BE64;
    var k := i / TWO_64;
    assert i + 1 == j + 1 + k * TWO_64;
  }

  // ---------------------------------------------------------------------------
  // The handshake
  // ---------------------------------------------------------------------------

  /** The 60 bytes DialFront sends; a client without an IPv4 address is sent as 0.0.0.0. */
  function HandshakeBytes(prim: Primitives, psk: bytes, nonce: Nonce, dcId: int, ip: Option<Ip4>, port: int): (s: bytes)
    ensures |s| == 60
  {
    MAGIC + nonce + prim.hmac(psk, nonce) + BE16(Uint16(Int16(dcId)))
    + (if ip.Some? then ip.value else [0, 0, 0, 0]) + BE16(Uint16(port))
  }

  datatype Client = Client(ip: Ip4, port: nat)
  datatype Meta = Meta(dcId: int16, client: Option<Client>)

  /**
    What acceptBack learns from a stream: the session nonce, the metadata, the rest. The metadata tail has 200 ms
    to arrive, and `inTime` is how many bytes behind the first 54 do; a tail cut off there is dropped.
    */
  function Accepts(prim: Primitives, psk: bytes, s: bytes, inTime: nat): (r: Option<(Nonce, Meta, bytes)>)
  {
    if |s| < BASE_LENGTH || s[..4] != MAGIC || s[20..52] != prim.hmac(psk, s[4..20]) then None
    else
      var dcId := Int16(FromBE16(s[52..54]));
      if |s| >= 60 && inTime >= 6 then Some((s[4..20], Meta(dcId, Some(Client(s[54..58], FromBE16(s[58..60])))), s[60..]))
      else if |s| - BASE_LENGTH >= inTime then Some((s[4..20], Meta(dcId, None), s[BASE_LENGTH + inTime..]))
      else Some((s[4..20], Meta(dcId, None), []))
  }

  /** The handshake byte by byte. */
  lemma HandshakeFields(prim: Primitives, psk: bytes, nonce: Nonce, dcId: int, ip: Option<Ip4>, port: int)
    ensures var s := HandshakeBytes(prim, psk, nonce, dcId, ip, port);
            && s[..4] == [0x50, 0x48, 0x52, 0x50] && s[4..20] == nonce && s[20..52] == prim.hmac(psk, nonce)
            && 256 * (s[52] as int) + s[53] as int == Uint16(dcId)
            && s[54..58] == (if ip.Some? then ip.value else [0, 0, 0, 0])
            && 256 * (s[58] as int) + s[59] as int == Uint16(port)
  {
    hide Bytes.BE16, Bytes.FromBE16, Bytes.Int16;
    var s := HandshakeBytes(prim, psk, nonce, dcId, ip, port);
    var dc, p := BE16(Uint16(Int16(dcId))), BE16(Uint16(port));
    var addr := if ip.Some? then ip.value else [0, 0, 0, 0];
    assert s == MAGIC + nonce + prim.hmac(psk, nonce) + dc + addr + p + [];
    HandshakeSlices(nonce, prim.hmac(psk, nonce), dc, addr, p, []);
    assert s[52] == dc[0] && s[53] == dc[1] && s[58] == p[0] && s[59] == p[1];
    BigEndian16(dc);
    BigEndian16(p);
    Uint16OfInt16(dcId);
  }

  /** Whose handshake is accepted: the right magic, and the tag of the key over the nonce. */
  lemma AcceptsMeans(prim: Primitives, psk: bytes, s: bytes, inTime: nat)
    ensures Accepts(prim, psk, s, inTime).Some? <==>
            |s| >= 54 && s[..4] == [0x50, 0x48, 0x52, 0x50] && s[20..52] == prim.hmac(psk, s[4..20])
    ensures Accepts(prim, psk, s, inTime).Some? ==>
              var (nonce, meta, rest) := Accepts(prim, psk, s, inTime).value;
              && nonce == s[4..20] && meta.dcId == Int16(256 * (s[52] as int) + s[53] as int)
              && (meta.client.Some? <==> |s| >= 60 && inTime >= 6)
              && (meta.client.Some? ==>
                    && meta.client.value == Client(s[54..58], 256 * (s[58] as int) + s[59] as int) && rest == s[60..])
  {
    hide Bytes.FromBE16, Bytes.Int16;
    if |s| >= 54 { BigEndian16(s[52..54]); }
    if |s| >= 60 { BigEndian16(s[58..60]); }
  }

  lemma HandshakeSlices(nonce: bytes, tag: bytes, dc: bytes, ip: bytes, port: bytes, rest: bytes)
    requires |nonce| == 16 && |tag| == 32 && |dc| == 2 && |ip| == 4 && |port| == 2
    ensures var s := MAGIC + nonce + tag + dc + ip + port + rest;
            && s[..4] == MAGIC && s[4..20] == nonce && s[20..52] == tag && s[52..54] == dc
            && s[54..58] == ip && s[58..60] == port && s[60..] == rest
  {}

  /**
    Every int16 data centre, IPv4 address and 16-bit port survives, and the back stands at the first frame,
    exactly when the whole tail is there in time.
    */
  lemma HandshakeReadsBack(
    prim: Primitives, psk: bytes, nonce: Nonce, dcId: int, ip: Option<Ip4>, port: int, rest: bytes, inTime: nat)
    ensures var meta := Meta(Int16(dcId), Some(Client(if ip.Some? then ip.value else [0, 0, 0, 0], Uint16(port))));
            var stream := HandshakeBytes(prim, psk, nonce, dcId, ip, port) + rest;
            Accepts(prim, psk, stream, inTime) == Some((nonce, meta, rest)) <==> inTime >= 6
  {
    hide Bytes.BE16, Bytes.FromBE16, Bytes.Int16;
    var dc, addr, p := BE16(Uint16(Int16(dcId))), if ip.Some? then ip.value else [0, 0, 0, 0], BE16(Uint16(port));
    HandshakeSlices(nonce, prim.hmac(psk, nonce), dc, addr, p, rest);
    Int16OfUint16(dcId);
  }

  /** DialFront on an established connection; an empty key is refused. */
  method DialFront(conn: TcpConn, prim: Primitives, psk: bytes, nonce: Nonce, dcId: int, ip: Option<Ip4>, port: int)
    returns (c: FrameConn?)
    modifies conn`sent
    ensures c == null <==> psk == []
    ensures c == null ==> conn.sent == old(conn.sent)
    ensures c != null ==>
              && fresh(c) && c.conn == conn && c.aead == prim.aead(psk, nonce) && c.Valid()
              && c.rbuf == [] && c.written == []
              && c.base == conn.sent == old(conn.sent) + HandshakeBytes(prim, psk, nonce, dcId, ip, port)
  {
    if |psk| == 0 { return null; }
    var handshake := MAGIC + nonce + prim.hmac(psk, nonce);
    handshake := handshake + BE16(Uint16(Int16(dcId)));
    if ip.Some? {
      handshake := handshake + ip.value;
    } else {
      handshake := handshake + [0, 0, 0, 0];
    }
    handshake := handshake + BE16(Uint16(port));
    conn.Write(handshake);
    c := new FrameConn(conn, prim.aead(psk, nonce));
  }

  lemma TailSlices(s: bytes)
    requires |s| >= 60
    ensures s[54..][..6][..4] == s[54..58] && s[54..][..6][4..6] == s[58..60]
  {}

  /** acceptBack: reads 54 bytes, checks them, then the 6-byte tail if it comes in time. */
  method AcceptBack(conn: TcpConn, prim: Primitives, psk: bytes, inTime: nat) returns (c: FrameConn?, meta: Meta)
    modifies conn`incoming
    ensures c != null <==> Accepts(prim, psk, old(conn.incoming), inTime).Some?
    ensures c != null ==>
              var (nonce, m, rest) := Accepts(prim, psk, old(conn.incoming), inTime).value;
              && fresh(c) && c.conn == conn && c.aead == prim.aead(psk, nonce) && c.Valid()
              && c.rbuf == [] && c.written == [] && c.base == conn.sent
              && meta == m && conn.incoming == rest
  {
    ghost var s := conn.incoming;
    meta := Meta(0, None);
    var r := conn.ReadFull(BASE_LENGTH);
    if r == None { return null, meta; }
    var hdr := r.value;
    assert hdr[..4] == s[..4] && hdr[4..20] == s[4..20] && hdr[20..52] == s[20..52] && hdr[52..54] == s[52..54];
    if hdr[..4] != MAGIC { return null, meta; }
    var nonce: Nonce := hdr[4..20];
    if hdr[20..52] != prim.hmac(psk, nonce) { return null, meta; }
    meta := Meta(Int16(FromBE16(hdr[52..54])), None);
    var extra := conn.ReadFullBefore(6, inTime);
    if extra.Some? {
      assert extra.value == s[54..][..6];
      TailSlices(s);
      meta := meta.(client := Some(Client(extra.value[..4], FromBE16(extra.value[4..6]))));
    }
    c := new FrameConn(conn, prim.aead(psk, nonce));
  }

  // ---------------------------------------------------------------------------
  // The tunnel
  // ---------------------------------------------------------------------------

  method WriteAll(c: FrameConn, pieces: seq<bytes>)
    requires c.Valid()
    modifies c`nonce, c`written, c.conn`sent
    ensures c.Valid() && Concat(c.written) == Concat(old(c.written)) + Concat(pieces)
  {
    hide FrameAll;
    assert Concat(c.written) == Concat(c.written) + Concat(pieces[..0]);
    for k := 0 to |pieces|
      invariant c.Valid() && Concat(c.written) == Concat(old(c.written)) + Concat(pieces[..k])
    {
      assert pieces[..k + 1] == pieces[..k] + [pieces[k]];
      ConcatSnoc(pieces[..k], pieces[k]);
      var n := c.Write(pieces[k]);
    }
    assert pieces[..|pieces|] == pieces;
  }

  /** Any run of reads delivers the plaintext in order, all of it and then the end if there are enough reads. */
  method ReadAll(c: FrameConn, sizes: seq<nat>) returns (got: bytes, ended: bool)
    modifies c`rbuf, c.conn`incoming
    ensures got <= old(c.Plain())
    ensures if ended then got == old(c.Plain()) else c.Plain() == old(c.Plain())[|got|..]
    ensures Enough(sizes, |old(c.Plain())|) ==> got == old(c.Plain())
    ensures Enough(sizes, |old(c.Plain())| + 1) ==> ended
  {
    hide OpenStream, Bytes.Delivered;
    ghost var all := c.Plain();
    NothingDelivered(all);
    got, ended := [], false;
    for k := 0 to |sizes|
      invariant Delivered(got, c.Plain(), all)
      invariant (forall n :: n in sizes ==> n > 0) ==> |got| >= k
    {
      ghost var left := c.Plain();
      assert sizes[k] in sizes;
      DeliveredParts(got, left, all);
      var r := c.Read(sizes[k]);
      if r == None { return got, true; }
      DeliverPiece(got, left, all, r.value);
      got := got + r.value;
    }
    DeliveredParts(got, c.Plain(), all);
  }

  /** One more read on the way through the plaintext. */
  method ReadNext(c: FrameConn, pieces: seq<bytes>, sizes: BufferSizes, ghost all: bytes) returns (more: seq<bytes>, ended: bool)
    requires Delivered(Concat(pieces), c.Plain(), all) && Filled(pieces, sizes)
    modifies c`rbuf, c.conn`incoming
    ensures Filled(more, sizes)
    ensures if ended then Concat(more) == all else Delivered(Concat(more), c.Plain(), all) && |c.Plain()| < |old(c.Plain())|
  {
    hide OpenStream, Concat, Bytes.Delivered, Net.Filled;
    ghost var left := c.Plain();
    DeliveredParts(Concat(pieces), left, all);
    var n := sizes(|pieces|);
    var r := c.Read(n);
    if r == None { return pieces, true; }
    FilledSnoc(pieces, sizes, r.value);
    ConcatSnoc(pieces, r.value);
    DeliverPiece(Concat(pieces), left, all, r.value);
    more, ended := pieces + [r.value], false;
  }

  /** Reading until the end, with buffers of any sizes, takes exactly the plaintext. */
  method ReadToEnd(c: FrameConn, sizes: BufferSizes) returns (pieces: seq<bytes>)
    modifies c`rbuf, c.conn`incoming
    ensures Concat(pieces) == old(c.Plain()) && Filled(pieces, sizes)
  {
    hide OpenStream, Concat, Bytes.Delivered, Net.Filled, Net.AllPositive;
    pieces := [];
    NothingFilled(sizes);
    ConcatNothing();
    ghost var all := c.Plain();
    NothingDelivered(all);
    var ended := false;
    while !ended
      invariant Filled(pieces, sizes) && if ended then Concat(pieces) == all else Delivered(Concat(pieces), c.Plain(), all)
      decreases !ended, |c.Plain()|
    {
      pieces, ended := ReadNext(c, pieces, sizes, all);
    }
  }

  /**
    Both directions of a connection at once: however the writes of the chunks and the reads until the end take
    turns, the writes frame exactly the chunks, and the reads take exactly the plaintext.
    */
  method Converse(c: FrameConn, chunks: seq<bytes>, sizes: BufferSizes, turns: nat -> bool) returns (pieces: seq<bytes>)
    requires c.Valid()
    modifies c, c.conn
    ensures c.Valid() && Concat(c.written) == Concat(old(c.written)) + Concat(chunks)
    ensures Concat(pieces) == old(c.Plain()) && Filled(pieces, sizes)
  {
    hide OpenStream, FrameAll, Chunk, Concat, Bytes.Delivered, Net.Filled, Net.AllPositive;
    pieces := [];
    ghost var all, total := c.Plain(), Concat(c.written) + Concat(chunks);
    NothingFilled(sizes);
    ConcatNothing();
    NothingDelivered(all);
    var rest, ended, step := chunks, false, 0;
    while rest != [] || !ended
      invariant c.Valid() && Concat(c.written) + Concat(rest) == total
      invariant Filled(pieces, sizes) && if ended then Concat(pieces) == all else Delivered(Concat(pieces), c.Plain(), all)
      decreases |rest|, !ended, |c.Plain()|
    {
      if rest != [] && (ended || turns(step)) {
        ghost var before := Concat(c.written);
        var n := c.Write(rest[0]);
        ConcatFirst(rest);
        assert before + rest[0] + Concat(rest[1..]) == before + (rest[0] + Concat(rest[1..]));
        rest := rest[1..];
      } else {
        pieces, ended := ReadNext(c, pieces, sizes, all);
      }
      step := step + 1;
    }
    assert Concat(c.written) + [] == Concat(c.written);
  }

  /** The front dials and sends; the back accepts and stands at the first frame of the front's stream. */
  method Open(
    prim: Primitives, psk: bytes, nonce: Nonce, dcId: int, ip: Option<Ip4>, port: int, inTime: nat, pieces: seq<bytes>)
    returns (front: FrameConn, back: FrameConn, meta: Meta)
    requires psk != [] && inTime >= 6
    ensures fresh(front) && fresh(front.conn) && fresh(back) && fresh(back.conn)
    ensures front != back && front.conn != back.conn
    ensures meta == Meta(Int16(dcId), Some(Client(if ip.Some? then ip.value else [0, 0, 0, 0], Uint16(port))))
    ensures back.Plain() == Concat(pieces)
    ensures back.Valid() && back.written == [] && back.base == [] && back.aead == front.aead && front.rbuf == []
  {
    hide OpenStream, FrameAll, Accepts, HandshakeBytes, Concat, Bytes.Int16;
    ConcatNothing();
    var frontTcp := new TcpConn([]);
    var f := DialFront(frontTcp, prim, psk, nonce, dcId, ip, port);
    front := f;
    WriteAll(front, pieces);
    ghost var stream := FrameAll(front.aead, 0, front.written);
    HandshakeReadsBack(prim, psk, nonce, dcId, ip, port, stream, inTime);
    StreamArrives(front.aead, front.written);
    assert frontTcp.sent == HandshakeBytes(prim, psk, nonce, dcId, ip, port) + stream;
    var backTcp := new TcpConn(frontTcp.sent);
    var b;
    b, meta := AcceptBack(backTcp, prim, psk, inTime);
    back := b;
  }

  /** Everything the back has written into the tunnel reaches the front. */
  method TransmitBack(back: FrameConn, front: FrameConn)
    requires back.Valid() && back.base == [] && back.aead == front.aead && front.rbuf == []
    modifies front.conn`incoming
    ensures front.Plain() == Concat(back.written)
  {
    StreamArrives(back.aead, back.written);
    assert back.conn.sent == FrameAll(back.aead, 0, back.written);
    front.conn.incoming := back.conn.sent;
  }

  /**
    The whole tunnel: for every key, nonce, data centre, client address and chunking, the back recovers the
    metadata and reads all of the front's stream, and the front all of the back's.
    */
  method Tunnel(
    prim: Primitives, psk: bytes, nonce: Nonce, dcId: int, ip: Option<Ip4>, port: int, inTime: nat,
    up: seq<bytes>, upSizes: BufferSizes, down: seq<bytes>, downSizes: BufferSizes)
    returns (meta: Meta, gotUp: seq<bytes>, gotDown: seq<bytes>)
    requires psk != [] && inTime >= 6
    ensures meta == Meta(Int16(dcId), Some(Client(if ip.Some? then ip.value else [0, 0, 0, 0], Uint16(port))))
    ensures Concat(gotUp) == Concat(up) && Filled(gotUp, upSizes)
    ensures Concat(gotDown) == Concat(down) && Filled(gotDown, downSizes)
  {
    hide OpenStream, FrameAll, Concat, Chunk, Bytes.Int16, Net.Filled;
    ConcatNothing();
    var front, back;
    front, back, meta := Open(prim, psk, nonce, dcId, ip, port, inTime, up);
    gotUp := ReadToEnd(back, upSizes);
    WriteAll(back, down);
    TransmitBack(back, front);
    gotDown := ReadToEnd(front, downSizes);
  }

  /** Both ends right after the handshake; `frames` will reach the back behind it, and toFront the front. */
  method Connect(
    prim: Primitives, psk: bytes, nonce: Nonce, dcId: int, ip: Option<Ip4>, port: int, inTime: nat, frames: bytes, toFront: bytes)
    returns (front: FrameConn, back: FrameConn, meta: Meta)
    requires psk != [] && inTime >= 6
    ensures fresh(front) && fresh(front.conn) && fresh(back) && fresh(back.conn)
    ensures front != back && front.conn != back.conn
    ensures front.Valid() && front.base == HandshakeBytes(prim, psk, nonce, dcId, ip, port) && front.written == []
    ensures back.Valid() && back.base == [] && back.written == []
    ensures front.Plain() == OpenStream(prim.aead(psk, nonce), toFront)
    ensures back.Plain() == OpenStream(prim.aead(psk, nonce), frames)
    ensures meta == Meta(Int16(dcId), Some(Client(if ip.Some? then ip.value else [0, 0, 0, 0], Uint16(port))))
  {
    hide OpenStream, FrameAll, Accepts, HandshakeBytes, Bytes.Int16;
    var frontTcp := new TcpConn(toFront);
    var f := DialFront(frontTcp, prim, psk, nonce, dcId, ip, port);
    HandshakeReadsBack(prim, psk, nonce, dcId, ip, port, frames, inTime);
    var backTcp := new TcpConn(HandshakeBytes(prim, psk, nonce, dcId, ip, port) + frames);
    var b;
    b, meta := AcceptBack(backTcp, prim, psk, inTime);
    front, back := f, b;
  }

  /**
    The tunnel with both directions at once. The handshake and `frames` are all that ever reaches the back, and
    toFront all that reaches the front; they open to what the other end writes, and each end does frame just that.
    Then each end, in whatever turns it writes and reads, gets exactly what the other one wrote.
    */
  method TunnelBothWays(
    prim: Primitives, psk: bytes, nonce: Nonce, dcId: int, ip: Option<Ip4>, port: int, inTime: nat,
    up: seq<bytes>, upSizes: BufferSizes, down: seq<bytes>, downSizes: BufferSizes,
    frames: bytes, toFront: bytes, frontTurns: nat -> bool, backTurns: nat -> bool)
    returns (front: FrameConn, back: FrameConn, meta: Meta, gotUp: seq<bytes>, gotDown: seq<bytes>)
    requires psk != [] && inTime >= 6
    requires OpenStream(prim.aead(psk, nonce), frames) == Concat(up)
    requires OpenStream(prim.aead(psk, nonce), toFront) == Concat(down)
    ensures front.Valid() && front.base == HandshakeBytes(prim, psk, nonce, dcId, ip, port)
    ensures Concat(front.written) == Concat(up)
    ensures back.Valid() && back.base == [] && Concat(back.written) == Concat(down)
    ensures meta == Meta(Int16(dcId), Some(Client(if ip.Some? then ip.value else [0, 0, 0, 0], Uint16(port))))
    ensures Concat(gotUp) == Concat(up) && Filled(gotUp, upSizes)
    ensures Concat(gotDown) == Concat(down) && Filled(gotDown, downSizes)
  {
    hide OpenStream, FrameAll, Accepts, HandshakeBytes, Concat, Chunk, Bytes.Int16, Net.Filled;
    ConcatNothing();
    front, back, meta := Connect(prim, psk, nonce, dcId, ip, port, inTime, frames, toFront);
    gotDown := Converse(front, up, downSizes, frontTurns);
    gotUp := Converse(back, down, upSizes, backTurns);
  }

  lemma StreamArrives(a: Aead, chunks: seq<bytes>)
    requires forall c :: c in chunks ==> Chunk(c)
    ensures OpenStream(a, FrameAll(a, 0, chunks)) == Concat(chunks)
  {
    FramesReadBack(a, 0, chunks, []);
    assert FrameAll(a, 0, chunks) + [] == FrameAll(a, 0, chunks);
    assert OpenStream(a, []) == [] && Concat(chunks) + [] == Concat(chunks);
  }
}
