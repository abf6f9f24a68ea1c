/**
  Record and splice: ReadRecorder and SpliceToHost of internal/faketls/fronting.go, and the path a
  rejected fake-TLS client takes through internal/proxy/server.go.
  */
module Splice {
  import opened Bytes
  import opened Net
  import opened ClientHello

  class ReadRecorder {
    const conn: TcpConn
    var capture: bytes
    var pending: bytes

    constructor (conn: TcpConn)
      ensures this.conn == conn && capture == [] && pending == []
    {
      this.conn, capture, pending := conn, [], [];
    }

    /** What a reader of the recorder will still get. */
    ghost function Upcoming(): (s: bytes)
      reads this, conn
    {
      pending + conn.incoming
    }

    /** What the client has sent and will send, as far as the recorder can tell. */
    ghost function Whole(): (s: bytes)
      reads this, conn
    {
      capture + conn.incoming
    }

    method Prepend(b: bytes)
      modifies this
      ensures pending == old(pending) + b && capture == old(capture) + b
    {
      if |b| == 0 {
        assert pending + b == pending && capture + b == capture;
        return;
      }
      pending, capture := pending + b, capture + b;
    }

    /** Read drains pending first; only what comes from the connection is captured. */
    method Read(k: nat) returns (data: bytes, eof: bool)
      modifies this, conn`incoming
      ensures data <= old(Upcoming()) && Upcoming() == old(Upcoming())[|data|..] && Whole() == old(Whole())
      ensures |data| <= k && (eof || k == 0 || data != [])
      ensures eof <==> k > 0 && old(Upcoming()) == []
      ensures pending == if k >= |old(pending)| then [] else old(pending)[k..]
      ensures old(pending) != [] ==> |data| + |pending| == |old(pending)|
    {
      if |pending| > 0 {
        var n := if k < |pending| then k else |pending|;
        data, eof, pending := pending[..n], false, pending[n..];
        return;
      }
      data, eof := conn.Read(k);
      capture := capture + data;
    }

    method Snapshot() returns (s: bytes)
      ensures s == capture
    {
      s := capture;
    }

    /** io.ReadFull over the recorder. */
    method ReadFull(k: nat) returns (r: Option<bytes>)
      modifies this, conn`incoming
      ensures var s := old(Upcoming());
              if k <= |s| then r == Some(s[..k]) && Upcoming() == s[k..] else r == None && Upcoming() == []
      ensures Whole() == old(Whole())
      ensures k >= |old(pending)| > 0 || old(pending) == [] ==> pending == []
    {
      hide Bytes.Delivered;
      ghost var s := Upcoming();
      NothingDelivered(s);
      var got: bytes := [];
      while |got| < k
        invariant |got| <= k && Delivered(got, Upcoming(), s)
        invariant Whole() == old(Whole()) && |pending| <= |old(pending)|
        invariant |pending| == 0 || |got| + |pending| == |old(pending)|
        decreases k - |got|
      {
        ghost var left := Upcoming();
        DeliveredParts(got, left, s);
        var data, eof := Read(k - |got|);
        if eof { return None; }
        DeliverPiece(got, left, s, data);
        got := got + data;
      }
      DeliveredParts(got, Upcoming(), s);
      r := Some(got);
    }

    /** parseClientHello over the recorder: it reads what Parse looks at, and leaves nothing pending. */
    method ParseClientHello() returns (r: Parsed)
      requires |pending| <= 5
      modifies this, conn`incoming
      ensures r == Parse(old(Upcoming()))
      ensures Whole() == old(Whole()) && pending == []
      ensures r.Parsed? ==> old(Upcoming()) == r.hello.raw + Upcoming()
    {
      hide Bytes.FromBE16, ParseRecord;
      ghost var s := Upcoming();
      var header := ReadFull(5);
      if header == None { return Failed(ShortRead); }
      if header.value[0] != HANDSHAKE { return Failed(NotHandshake); }
      assert header.value[3..5] == s[3..5];
      var n := FromBE16(header.value[3..5]);
      if n > MAX_RECORD { return Failed(TooLarge); }
      var payload := ReadFull(n);
      if payload == None { return Failed(ShortRead); }
      assert s[..5] + s[5..][..n] == s[..5 + n] && s[5..][n..] == s[5 + n..];
      r := ParseRecord(header.value + payload.value);
      RawIsRecord(header.value + payload.value);
    }
  }

  lemma RawIsRecord(raw: bytes)
    requires |raw| >= 5
    ensures ParseRecord(raw).Parsed? ==> ParseRecord(raw).hello.raw == raw
  {
    hide Bytes.FromBE16, Bytes.FromBE24;
  }

  /** io.Copy towards the upstream, cut off after some rounds when the other direction ends first. */
  method CopyUp(rec: ReadRecorder, upstream: TcpConn, rounds: nat) returns (done: bool)
    requires rec.conn != upstream
    modifies rec, rec.conn`incoming, upstream`sent
    ensures upstream.sent + rec.Upcoming() == old(upstream.sent) + old(rec.Upcoming())
    ensures old(rec.pending) == [] ==> rec.pending == []
    ensures done ==> rec.Upcoming() == []
    ensures rounds > |old(rec.Upcoming())| ==> done
  {
    hide Bytes.Delivered;
    ghost var all := upstream.sent + rec.Upcoming();
    StartDelivery(upstream.sent, rec.Upcoming());
    for k := 0 to rounds
      invariant Delivered(upstream.sent, rec.Upcoming(), all)
      invariant old(rec.pending) == [] ==> rec.pending == []
      invariant k + |rec.Upcoming()| <= |old(rec.Upcoming())|
    {
      ghost var sent, left := upstream.sent, rec.Upcoming();
      var data, eof := rec.Read(COPY_BUFFER);
      if eof {
        DeliveredParts(sent, left, all);
        return true;
      }
      DeliverPiece(sent, left, all, data);
      upstream.Write(data);
    }
    DeliveredParts(upstream.sent, rec.Upcoming(), all);
    done := false;
  }

  /** SpliceToHost once the upstream is connected. */
  method SpliceToHost(rec: ReadRecorder, prefix: bytes, upstream: TcpConn, rounds: nat) returns (done: bool)
    requires rec.conn != upstream
    modifies rec, rec.conn`incoming, upstream`sent
    ensures upstream.sent + rec.Upcoming() == old(upstream.sent) + prefix + old(rec.Upcoming())
    ensures old(rec.pending) == [] ==> rec.pending == []
    ensures done ==> rec.Upcoming() == []
    ensures rounds > |old(rec.Upcoming())| ==> done
  {
    if |prefix| > 0 { upstream.Write(prefix); }
    done := CopyUp(rec, upstream, rounds);
  }

  /** A snapshot followed by what a reader still gets is the client's stream exactly when nothing is pending. */
  lemma SpliceNeedsNothingPending(capture: bytes, pending: bytes, incoming: bytes)
    ensures capture + (pending + incoming) == capture + incoming <==> pending == []
  {
    if pending == [] {
      assert pending + incoming == incoming;
    } else {
      assert |capture + (pending + incoming)| != |capture + incoming|;
    }
  }

  /**
    Every rejection of a client whose first byte looked like TLS: after the hello was parsed, or failed to
    parse, and after any further reads, what the upstream has got and what the client's connection still holds
    make up the client's stream, with nothing lost, repeated or reordered. All of it has arrived when the copy
    is done, and the copy is done once it has had a round for every byte.
    */
  method RejectAndSplice(conn: TcpConn, furtherReads: seq<nat>, upstream: TcpConn, rounds: nat) returns (done: bool)
    requires conn != upstream && conn.incoming != []
    modifies conn`incoming, upstream`sent
    ensures upstream.sent + conn.incoming == old(upstream.sent) + old(conn.incoming)
    ensures done ==> conn.incoming == [] && upstream.sent == old(upstream.sent) + old(conn.incoming)
    ensures rounds > |old(conn.incoming)| ==> done
  {
    hide Parse;
    ghost var s, base := conn.incoming, upstream.sent;
    var first, eof := conn.Read(1);
    var rec := new ReadRecorder(conn);
    rec.Prepend(first);
    assert rec.capture == first && rec.Whole() == s;
    var ch := rec.ParseClientHello();
    FurtherReads(rec, furtherReads);
    var prefix := rec.Snapshot();
    SpliceNeedsNothingPending(prefix, rec.pending, conn.incoming);
    assert base + prefix + rec.Upcoming() == base + s;
    done := SpliceToHost(rec, prefix, upstream, rounds);
    assert rec.Upcoming() == conn.incoming;
  }

  /** Whatever is read between parsing and rejection: the obfuscated2 header, records, or nothing. */
  method FurtherReads(rec: ReadRecorder, sizes: seq<nat>)
    requires rec.pending == []
    modifies rec, rec.conn`incoming
    ensures rec.pending == [] && rec.Whole() == old(rec.Whole())
  {
    for i := 0 to |sizes|
      invariant rec.pending == [] && rec.Whole() == old(rec.Whole())
    {
      var data, eof := rec.Read(sizes[i]);
    }
  }
}
