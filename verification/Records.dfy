/**
  RecordConn of internal/faketls/record.go with the record policy of internal/faketls/client.go:
  a byte stream carried in TLS application-data records of randomised sizes.
  */
module Records {
  import opened Bytes
  import opened Net

  const APPLICATION_DATA: byte := 0x17
  const MAX_PAYLOAD := 16384
  const RAMP_CHUNK := 1369
  const RAMP_RECORDS := 8
  const RAMP_BYTES := 128 * 1024

  // ---------------------------------------------------------------------------
  // The wire
  // ---------------------------------------------------------------------------

  datatype AnyRecord = AnyRecord(kind: byte, payload: bytes)
  type Record = r: AnyRecord | |r.payload| < TWO_16 witness AnyRecord(0, [])

  function Encode(r: Record): (s: bytes)
    ensures |s| == 5 + |r.payload|
  {
    [r.kind, 3, 3] + BE16(|r.payload|) + r.payload
  }

  function EncodeAll(rs: seq<Record>): (s: bytes)
  {
    if rs == [] then [] else Encode(rs[0]) + EncodeAll(rs[1..])
  }

  /** The application data in a list of records. */
  function AppData(rs: seq<Record>): (s: bytes)
  {
    if rs == [] then []
    else (if rs[0].kind == APPLICATION_DATA then rs[0].payload else []) + AppData(rs[1..])
  }

  /** The application data in the complete records at the front of a stream. */
  function AppStream(s: bytes): (r: bytes)
    decreases |s|
  {
    if |s| < 5 then []
    else
      var n := FromBE16(s[3..5]);
      if |s| < 5 + n then []
      else (if s[0] == APPLICATION_DATA then s[5..5 + n] else []) + AppStream(s[5 + n..])
  }

  lemma AppStreamOfStream(s: bytes)
    ensures |s| < 5 ==> AppStream(s) == []
    ensures |s| >= 5 ==>
              var n := FromBE16(s[3..5]);
              && (|s| < 5 + n ==> AppStream(s) == [])
              && (|s| >= 5 + n ==>
                    AppStream(s) == (if s[0] == APPLICATION_DATA then s[5..5 + n] else []) + AppStream(s[5 + n..]))
  {
    hide Bytes.FromBE16;
  }

  /** A record byte by byte: its kind, version 3.3, its length with the high byte first, and the payload. */
  lemma RecordBytes(r: Record)
    ensures var s := Encode(r);
            && s[0] == r.kind && s[1] == 3 && s[2] == 3
            && s[3] == |r.payload| / 256 && s[4] == |r.payload| % 256 && s[5..] == r.payload
  {
    hide Bytes.BE16, Bytes.FromBE16;
    var len := BE16(|r.payload|);
    assert Encode(r)[3] == len[0] && Encode(r)[4] == len[1];
    BigEndian16(len);
  }

  /** Reading one record off a stream, byte by byte; only those of kind 0x17 carry application data. */
  lemma AppStreamBytes(s: bytes)
    ensures |s| < 5 ==> AppStream(s) == []
    ensures |s| >= 5 ==>
              var n := 256 * (s[3] as int) + s[4] as int;
              && (|s| < 5 + n ==> AppStream(s) == [])
              && (|s| >= 5 + n ==> AppStream(s) == (if s[0] == 0x17 then s[5..5 + n] else []) + AppStream(s[5 + n..]))
  {
    hide Bytes.FromBE16;
    if |s| >= 5 { BigEndian16(s[3..5]); }
  }

  lemma RecordSlices(r: Record, rest: bytes)
    ensures var s := Encode(r) + rest;
            var n := |r.payload|;
            s[0] == r.kind && FromBE16(s[3..5]) == n && s[5..5 + n] == r.payload && s[5 + n..] == rest
  {
    hide Bytes.BE16, Bytes.FromBE16;
    var s := Encode(r) + rest;
    assert s[3..5] == BE16(|r.payload|);
  }

  lemma AppStreamStep(r: Record, rest: bytes)
    ensures AppStream(Encode(r) + rest) == (if r.kind == APPLICATION_DATA then r.payload else []) + AppStream(rest)
  {
    hide Encode, Bytes.FromBE16;
    RecordSlices(r, rest);
  }

  lemma {:induction false} AppStreamReadsBack(rs: seq<Record>, rest: bytes)
    ensures AppStream(EncodeAll(rs) + rest) == AppData(rs) + AppStream(rest)
  {
    hide Encode, AppStream;
    if rs == [] {
      assert EncodeAll(rs) + rest == rest && AppData(rs) + AppStream(rest) == AppStream(rest);
    } else {
      AppStreamStep(rs[0], EncodeAll(rs[1..]) + rest);
      assert EncodeAll(rs) + rest == Encode(rs[0]) + (EncodeAll(rs[1..]) + rest);
      AppStreamReadsBack(rs[1..], rest);
    }
  }

  /** Records as a writer makes them out of its chunks. */
  predicate Chunk(c: bytes) {
    1 <= |c| <= MAX_PAYLOAD
  }

  function AppRecord(c: bytes): (r: Record)
    requires Chunk(c)
  {
    AnyRecord(APPLICATION_DATA, c)
  }

  function AppRecords(chunks: seq<bytes>): (rs: seq<Record>)
    requires forall c :: c in chunks ==> Chunk(c)
  {
    if chunks == [] then [] else [AppRecord(chunks[0])] + AppRecords(chunks[1..])
  }

  lemma {:induction false} AppDataOfChunks(chunks: seq<bytes>)
    requires forall c :: c in chunks ==> Chunk(c)
    ensures AppData(AppRecords(chunks)) == Concat(chunks)
  {
    if chunks == [] {
    } else {
      assert AppRecords(chunks)[1..] == AppRecords(chunks[1..]);
      AppDataOfChunks(chunks[1..]);
    }
  }

  lemma {:induction false} AppRecordsSnoc(chunks: seq<bytes>, c: bytes)
    requires (forall x :: x in chunks ==> Chunk(x)) && Chunk(c)
    ensures (forall x :: x in chunks + [c] ==> Chunk(x)) && AppRecords(chunks + [c]) == AppRecords(chunks) + [AppRecord(c)]
  {
    if chunks == [] {
      assert chunks + [c] == [c] && AppRecords([c][1..]) == [];
    } else {
      assert (chunks + [c])[1..] == chunks[1..] + [c];
      AppRecordsSnoc(chunks[1..], c);
    }
  }

  lemma EncodeApp(c: bytes)
    requires |c| < TWO_16
    ensures Encode(AnyRecord(APPLICATION_DATA, c)) == [APPLICATION_DATA, 3, 3] + BE16(|c|) + c
  {}

  lemma {:induction false} EncodeAllAppend(rs: seq<Record>, r: Record)
    ensures EncodeAll(rs + [r]) == EncodeAll(rs) + Encode(r)
  {
    if rs == [] {
      assert rs + [r] == [r] && EncodeAll([r][1..]) == [];
    } else {
      assert (rs + [r])[1..] == rs[1..] + [r];
      EncodeAllAppend(rs[1..], r);
    }
  }

  // ---------------------------------------------------------------------------
  // The policy
  // ---------------------------------------------------------------------------

  /** A RecordPolicy, and with it the random numbers behind the sizes: draws(i) is for the i-th record of a connection. */
  datatype Policy = Policy(minChunk: int, maxChunk: int, drs: bool, split: bool, decoyPermille: int, draws: nat -> nat)

  function Normalize(p: Policy): (r: Policy)
    ensures 1 <= r.minChunk <= r.maxChunk <= MAX_PAYLOAD
    ensures r == p.(minChunk := r.minChunk, maxChunk := r.maxChunk)
    ensures 1 <= p.minChunk <= p.maxChunk <= MAX_PAYLOAD ==> r == p
    ensures r.maxChunk == if p.maxChunk <= 0 then 4096 else if p.maxChunk > 16384 then 16384 else p.maxChunk
    ensures r.minChunk == Min(r.maxChunk, if p.minChunk <= 0 then 512 else p.minChunk)
  {
    var lo := if p.minChunk <= 0 then 512 else p.minChunk;
    var hi := if p.maxChunk <= 0 then 4096 else if p.maxChunk > MAX_PAYLOAD then MAX_PAYLOAD else p.maxChunk;
    p.(minChunk := if lo > hi then hi else lo, maxChunk := hi)
  }

  function Min(a: int, b: int): (r: int)
  {
    if a < b then a else b
  }

  /** chunkSize, with the random draw as a parameter. */
  function ChunkSize(policy: Policy, remaining: int, draw: nat): (size: int)
    requires draw <= Normalize(policy).maxChunk - Normalize(policy).minChunk
    ensures remaining > 0 ==> 1 <= size <= remaining && size <= Normalize(policy).maxChunk
    ensures size >= Min(remaining, Normalize(policy).minChunk)
  {
    var p := Normalize(policy);
    if remaining <= p.minChunk then remaining
    else
      var size := p.minChunk + draw;
      var size := if size > remaining then remaining else size;
      if size > MAX_PAYLOAD then MAX_PAYLOAD else size
  }

  /** Every size between the two limits that leaves something is what some draw gives. */
  lemma EverySizeIsDrawn(policy: Policy, remaining: int, size: int)
    requires Normalize(policy).minChunk <= size <= Normalize(policy).maxChunk && size < remaining
    ensures exists draw: nat ::
              draw <= Normalize(policy).maxChunk - Normalize(policy).minChunk && ChunkSize(policy, remaining, draw) == size
  {
    var draw: nat := size - Normalize(policy).minChunk;
    assert ChunkSize(policy, remaining, draw) == size;
  }

  function ChunkSizeWithMax(policy: Policy, remaining: int, maxChunk: int, draw: nat): (size: int)
    requires draw <= Normalize(policy).maxChunk - Normalize(policy).minChunk
    ensures remaining > 0 && maxChunk > 0 ==> 1 <= size <= remaining && size <= Normalize(policy).maxChunk
    ensures remaining > Normalize(policy).minChunk ==> size <= maxChunk
    ensures size >= Min(Min(remaining, Normalize(policy).minChunk), maxChunk)
  {
    var p := Normalize(policy);
    if remaining <= p.minChunk then remaining
    else
      var size := ChunkSize(p, remaining, draw);
      if size > maxChunk then maxChunk else size
  }

  predicate Ramping(records: nat, bytesWritten: nat) {
    records < RAMP_RECORDS && bytesWritten < RAMP_BYTES
  }

  /** The largest record during the ramp. */
  function RampLimit(policy: Policy): (n: nat)
    ensures n >= 1369
  {
    var lo := Normalize(policy).minChunk;
    if lo > RAMP_CHUNK then lo else RAMP_CHUNK
  }

  /** Outside the ramp, and in it below its limit, the draw is what a size has above the minimum. */
  lemma OutboundSizeOfDraw(policy: Policy, records: nat, bytesWritten: nat, remaining: int, size: int)
    requires policy == Normalize(policy) && policy.minChunk <= size <= policy.maxChunk && size < remaining
    requires policy.drs && records < 8 && bytesWritten < 131072 ==> size <= 1369
    ensures OutboundChunkSize(policy, records, bytesWritten, remaining, size - policy.minChunk) == size
  {
    assert ChunkSize(policy, remaining, size - policy.minChunk) == size;
  }

  /** outboundChunkSize over an already normalised policy. */
  function OutboundChunkSize(policy: Policy, records: nat, bytesWritten: nat, remaining: int, draw: nat): (size: int)
    requires policy == Normalize(policy) && draw <= policy.maxChunk - policy.minChunk
    ensures remaining > 0 ==> 1 <= size <= remaining && size <= policy.maxChunk
    ensures policy.drs && Ramping(records, bytesWritten) ==> size <= RampLimit(policy)
    ensures size >= Min(Min(remaining, policy.minChunk), 1369)
  {
    if remaining <= policy.minChunk then remaining
    else
      var maxChunk := if policy.drs && Ramping(records, bytesWritten) && policy.maxChunk > RAMP_CHUNK
                      then RAMP_CHUNK else policy.maxChunk;
      ChunkSizeWithMax(policy, remaining, maxChunk, draw)
  }

  /** The size of the next record; randInt(span) is the random number modulo span. */
  function NextSize(policy: Policy, records: nat, bytesWritten: nat, remaining: int): (size: int)
    requires policy == Normalize(policy)
    ensures remaining > 0 ==> 1 <= size <= remaining && size <= policy.maxChunk
    ensures policy.drs && Ramping(records, bytesWritten) ==> size <= RampLimit(policy)
    ensures size >= Min(Min(remaining, policy.minChunk), 1369)
  {
    OutboundChunkSize(policy, records, bytesWritten, remaining, policy.draws(records) % (policy.maxChunk - policy.minChunk + 1))
  }

  /** The records that a connection with this many records and bytes behind it makes of b. */
  function Cut(policy: Policy, records: nat, bytesWritten: nat, b: bytes): (chunks: seq<bytes>)
    requires policy == Normalize(policy)
    decreases |b|
  {
    if b == [] then []
    else
      var size := NextSize(policy, records, bytesWritten, |b|);
      [b[..size]] + Cut(policy, records + 1, bytesWritten + size, b[size..])
  }

  /** Some random number gives the next record any size between the two limits, as long as bytes are left behind it. */
  lemma NextSizeIsAny(policy: Policy, records: nat, bytesWritten: nat, remaining: int, size: int)
    requires policy == Normalize(policy) && policy.minChunk <= size <= policy.maxChunk && size < remaining
    requires policy.drs && records < 8 && bytesWritten < 131072 ==> size <= 1369
    ensures exists draws: nat -> nat ::
              var p := policy.(draws := draws); p == Normalize(p) && NextSize(p, records, bytesWritten, remaining) == size
  {
    hide OutboundChunkSize;
    var draw: nat := size - policy.minChunk;
    var p := policy.(draws := (i: nat) => draw);
    assert draw % (p.maxChunk - p.minChunk + 1) == draw;
    OutboundSizeOfDraw(p, records, bytesWritten, remaining, size);
    assert p == Normalize(p) && NextSize(p, records, bytesWritten, remaining) == size;
  }

  lemma {:induction false} ChunksBound(chunks: seq<bytes>)
    requires forall c :: c in chunks ==> Chunk(c)
    ensures |Concat(chunks)| <= MAX_PAYLOAD * |chunks|
  {
    if chunks != [] {
      assert Chunk(chunks[0]);
      ChunksBound(chunks[1..]);
    }
  }

  /** The byte limit can never end the ramp before the record limit does. */
  lemma RampIsEightRecords(chunks: seq<bytes>)
    requires forall c :: c in chunks ==> Chunk(c)
    ensures Ramping(|chunks|, |Concat(chunks)|) <==> |chunks| < 8
  {
    ChunksBound(chunks);
  }

  // ---------------------------------------------------------------------------
  // The connection
  // ---------------------------------------------------------------------------

  class RecordConn {
    const conn: TcpConn
    const policy: Policy
    var readBuf: bytes
    var recordsWritten: nat
    var bytesWritten: nat
    var splitDone: bool
    // The payloads of all records written, and what was on the wire before them.
    ghost var written: seq<bytes>
    ghost const base: bytes

    constructor (conn: TcpConn, policy: Policy)
      ensures this.conn == conn && this.policy == policy && readBuf == [] && written == []
      ensures base == conn.sent && Valid() && SplitFirst()
    {
      this.conn, this.policy, readBuf := conn, policy, [];
      recordsWritten, bytesWritten, splitDone := 0, 0, false;
      written, base := [], conn.sent;
      new;
      assert base + [] == base;
    }

    /**
      Every record carries 1 to 16384 bytes and they are all that was sent; the counters count them; and
      with DRS on, the first eight records stay below the ramp limit.
      */
    ghost predicate Valid()
      reads this, conn
    {
      && (forall c :: c in written ==> Chunk(c))
      && conn.sent == base + EncodeAll(AppRecords(written))
      && recordsWritten == |written| && bytesWritten == |Concat(written)|
      && (policy.drs ==> forall i :: 0 <= i < |written| && i < RAMP_RECORDS ==> |written[i]| <= RampLimit(policy))
    }

    /** With split on, the first record of the connection carries exactly one byte, and only that one is split off. */
    ghost predicate SplitFirst()
      reads this
    {
      policy.split ==> (splitDone <==> written != []) && (written != [] ==> |written[0]| == 1)
    }

    /** The application data still to be read. */
    ghost function Incoming(): (s: bytes)
      reads this, conn
    {
      readBuf + AppStream(conn.incoming)
    }

    /** Every record carries 1 to 16384 bytes, and with DRS on, none of the first eight is above its limit. */
    lemma WrittenInLimits()
      requires Valid()
      ensures forall c :: c in written ==> 1 <= |c| <= 16384
      ensures policy.drs ==>
                forall i :: 0 <= i < |written| && i < 8 ==> |written[i]| <= 1369 || |written[i]| <= Normalize(policy).minChunk
    {}

    /** Takes one whole record off the connection. */
    method ReadRecord() returns (r: Option<(byte, bytes)>)
      modifies conn`incoming
      ensures r.Some? ==>
                var (kind, payload) := r.value;
                && |conn.incoming| < |old(conn.incoming)|
                && AppStream(old(conn.incoming)) == (if kind == APPLICATION_DATA then payload else []) + AppStream(conn.incoming)
      ensures r.None? ==> AppStream(old(conn.incoming)) == [] && conn.incoming == []
    {
      hide AppStream, Bytes.FromBE16;
      ghost var s := conn.incoming;
      AppStreamOfStream(s);
      var header := conn.ReadFull(5);
      if header == None { return None; }
      var payloadLen := FromBE16(header.value[3..5]);
      assert header.value[3..5] == s[3..5];
      var payload := conn.ReadFull(payloadLen);
      if payload == None { return None; }
      assert payload.value == s[5..5 + payloadLen] && conn.incoming == s[5 + payloadLen..];
      r := Some((header.value[0], payload.value));
    }

    /** Read skips other records, and delivers the front of the application data in pieces of any size. */
    method Read(n: nat) returns (r: Option<bytes>)
      modifies this`readBuf, conn`incoming
      ensures r.Some? ==>
                && |r.value| <= n && Delivered(r.value, Incoming(), old(Incoming()))
                && (n > 0 && r.value == [] ==> |conn.incoming| < |old(conn.incoming)|)
                && (readBuf != [] ==> |r.value| == n)
      ensures r.None? ==> old(Incoming()) == [] && Incoming() == []
      ensures |conn.incoming| <= |old(conn.incoming)|
      decreases |conn.incoming|
    {
      hide AppStream, Bytes.Delivered;
      if |readBuf| > 0 {
        var k := if n < |readBuf| then n else |readBuf|;
        TakeDelivers(readBuf, AppStream(conn.incoming), k);
        r, readBuf := Some(readBuf[..k]), readBuf[k..];
        return;
      }
      AppStreamOfStream([]);
      var record := ReadRecord();
      if record == None { return None; }
      var (recType, payload) := record.value;
      if recType != APPLICATION_DATA {
        assert Incoming() == old(Incoming());
        r := Read(n);
        return;
      }
      var k := if n < |payload| then n else |payload|;
      r := Some(payload[..k]);
      readBuf := payload[k..];
      TakeDelivers(payload, AppStream(conn.incoming), k);
      assert old(Incoming()) == payload + AppStream(conn.incoming);
    }

    /**
      writeRecordLocked: one record per call, refused above 16384 bytes. The state stays valid unless the
      chunk is empty or above the limit of a running ramp, and Write calls it with neither.
      */
    method WriteRecord(chunk: bytes) returns (ok: bool)
      requires Valid()
      modifies this`recordsWritten, this`bytesWritten, this`written, conn`sent
      ensures ok == (|chunk| <= MAX_PAYLOAD)
      ensures !ok ==> Valid() && written == old(written) && conn.sent == old(conn.sent)
      ensures ok ==>
                && conn.sent == old(conn.sent) + Encode(AnyRecord(APPLICATION_DATA, chunk))
                && written == old(written) + [chunk]
                && recordsWritten == old(recordsWritten) + 1 && bytesWritten == old(bytesWritten) + |chunk|
      ensures ok && chunk != [] && (policy.drs && Ramping(old(recordsWritten), old(bytesWritten)) ==> |chunk| <= RampLimit(policy))
           ==> Valid()
    {
      hide Encode, EncodeAll, AppRecords, Concat, RampLimit;
      if |chunk| > MAX_PAYLOAD { return false; }
      RampIsEightRecords(written);
      ConcatSnoc(written, chunk);
      if chunk != [] {
        EncodeAllAppend(AppRecords(written), AppRecord(chunk));
        AppRecordsSnoc(written, chunk);
      }
      EncodeApp(chunk);
      conn.Write([APPLICATION_DATA, 3, 3] + BE16(|chunk|) + chunk);
      recordsWritten := recordsWritten + 1;
      bytesWritten := bytesWritten + |chunk|;
      written := written + [chunk];
      ok := true;
    }

    /** The loop of Write. */
    method WriteChunks(b: bytes) returns (total: nat)
      requires Valid()
      modifies this`recordsWritten, this`bytesWritten, this`written, conn`sent
      ensures Valid() && total == |b|
      ensures written == old(written) + Cut(Normalize(policy), |old(written)|, |Concat(old(written))|, b)
    {
      hide NextSize, Cut, Ramping, Concat, Normalize, RecordConn.Valid;
      var policy' := Normalize(policy);
      NormalizeTwice(policy);
      CountsWritten();
      ghost var whole := written + Cut(policy', recordsWritten, bytesWritten, b);
      var rest := b;
      total := 0;
      while |rest| > 0
        invariant Valid() && total + |rest| == |b|
        invariant written + Cut(policy', recordsWritten, bytesWritten, rest) == whole
        decreases |rest|
      {
        CutStep(policy', recordsWritten, bytesWritten, rest);
        var chunkSize := NextSize(policy', recordsWritten, bytesWritten, |rest|);
        var chunk := rest[..chunkSize];
        var ok := WriteRecord(chunk);
        total, rest := total + |chunk|, rest[chunkSize..];
      }
      CutNothing(policy', recordsWritten, bytesWritten);
    }

    lemma CountsWritten()
      requires Valid()
      ensures recordsWritten == |written| && bytesWritten == |Concat(written)|
    {}

    /**
      Write puts out all of b. With split on, the first write of a connection sends its first byte in a record of its
      own; of the other records of a call only the last one may be smaller than the minimum.
      */
    method Write(b: bytes) returns (total: nat)
      requires Valid()
      modifies this`recordsWritten, this`bytesWritten, this`written, this`splitDone, conn`sent
      ensures Valid() && total == |b|
      ensures old(written) <= written && Concat(written) == Concat(old(written)) + b
      ensures old(SplitFirst()) ==> SplitFirst()
      ensures var split := if policy.split && !old(splitDone) && b != [] then 1 else 0;
              && |written| >= |old(written)| + split && (split == 1 ==> |written[|old(written)|]| == 1)
              && SmallOnlyAtEnd(Min(Normalize(policy).minChunk, 1369), written[|old(written)| + split..])
              && var n := |old(written)| + split;
              && written[n..] == Cut(Normalize(policy), n, |Concat(old(written))| + split, b[split..])
    {
      hide Cut, EncodeAll, AppRecords, Concat, SmallOnlyAtEnd, RampLimit, Chunk;
      total := 0;
      var rest := b;
      if Normalize(policy).split && !splitDone && |rest| > 0 {
        var ok := WriteRecord(rest[..1]);
        ConcatSnoc(old(written), rest[..1]);
        total, rest, splitDone := total + 1, rest[1..], true;
        assert rest[..0] == [] && b == b[..1] + rest;
        assert Concat(old(written)) + b[..1] + rest == Concat(old(written)) + b;
      }
      ghost var before := written;
      var n := WriteChunks(rest);
      total := total + n;
      ghost var added := Cut(Normalize(policy), |before|, |Concat(before)|, rest);
      NormalizeTwice(policy);
      CutShape(Normalize(policy), |before|, |Concat(before)|, rest);
      CutNothing(Normalize(policy), |before|, |Concat(before)|);
      ConcatAppend(before, added);
      assert written[|before|..] == added;
    }
  }

  /** Of the records of a run only the last one may be smaller than this. */
  ghost predicate SmallOnlyAtEnd(limit: int, chunks: seq<bytes>) {
    forall i :: 0 <= i < |chunks| - 1 ==> |chunks[i]| >= limit
  }

  /** The records hold exactly b, and only the last of them may be small. */
  lemma {:induction false} CutShape(policy: Policy, records: nat, bytesWritten: nat, b: bytes)
    requires policy == Normalize(policy)
    ensures Concat(Cut(policy, records, bytesWritten, b)) == b
    ensures SmallOnlyAtEnd(Min(policy.minChunk, 1369), Cut(policy, records, bytesWritten, b))
    decreases |b|
  {
    hide NextSize, Normalize;
    if b != [] {
      var size := NextSize(policy, records, bytesWritten, |b|);
      var more := Cut(policy, records + 1, bytesWritten + size, b[size..]);
      CutShape(policy, records + 1, bytesWritten + size, b[size..]);
      var all := [b[..size]] + more;
      assert all[1..] == more;
      forall i | 0 <= i < |all| - 1 ensures |all[i]| >= Min(policy.minChunk, 1369) {
        if i > 0 { assert all[i] == more[i - 1]; }
      }
    }
  }

  lemma CutStep(policy: Policy, records: nat, bytesWritten: nat, b: bytes)
    requires policy == Normalize(policy) && b != []
    ensures var size := NextSize(policy, records, bytesWritten, |b|);
            Cut(policy, records, bytesWritten, b) == [b[..size]] + Cut(policy, records + 1, bytesWritten + size, b[size..])
  {}

  lemma CutNothing(policy: Policy, records: nat, bytesWritten: nat)
    requires policy == Normalize(policy)
    ensures Cut(policy, records, bytesWritten, []) == []
  {}

  lemma NormalizeTwice(policy: Policy)
    ensures Normalize(Normalize(policy)) == Normalize(policy)
  {}
}
