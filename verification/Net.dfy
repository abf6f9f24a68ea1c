/** A TCP connection as its two byte streams; every read may be cut short anywhere. */
module Net {
  import opened Bytes

  // The buffer of io.Copy.
  const COPY_BUFFER := 32 * 1024

  datatype Option<+T> = None | Some(value: T)

  ghost predicate AllPositive(sizes: nat -> nat) {
    forall k :: sizes(k) > 0
  }

  /** The size of the buffer of every read of a reader that goes on until it is told the end. */
  type BufferSizes = f: nat -> nat | AllPositive(f) witness (k: nat) => 1

  /** The results of such a reader's reads: none is larger than its buffer. */
  ghost predicate Filled(pieces: seq<bytes>, sizes: BufferSizes) {
    forall i :: 0 <= i < |pieces| ==> |pieces[i]| <= sizes(i)
  }

  lemma NothingFilled(sizes: BufferSizes)
    ensures Filled([], sizes) && AllPositive(sizes)
  {}

  lemma FilledSnoc(pieces: seq<bytes>, sizes: BufferSizes, piece: bytes)
    requires Filled(pieces, sizes) && |piece| <= sizes(|pieces|)
    ensures Filled(pieces + [piece], sizes)
  {}

  /** Reads with at least this many buffers, none of them empty. */
  ghost predicate Enough(sizes: seq<nat>, count: nat) {
    |sizes| >= count && forall n :: n in sizes ==> n > 0
  }

  class TcpConn {
    // What the peer has written and this end has not read yet, up to the peer's half-close.
    var incoming: bytes
    // What this end has written.
    var sent: bytes

    constructor (stream: bytes)
      ensures incoming == stream && sent == []
    {
      incoming, sent := stream, [];
    }

    /** net.Conn.Read into a buffer of k bytes: any non-empty prefix of the stream, or EOF. */
    method Read(k: nat) returns (data: bytes, eof: bool)
      modifies this`incoming
      ensures old(incoming) == data + incoming
      ensures |data| <= k
      ensures eof <==> k > 0 && old(incoming) == []
      ensures eof || k == 0 || data != []
    {
      data, eof := [], false;
      if k == 0 {
      } else if incoming == [] {
        eof := true;
      } else {
        assert 0 < 1 <= k && 1 <= |incoming|;
        var m: nat :| 0 < m <= k && m <= |incoming|;
        data, incoming := incoming[..m], incoming[m..];
      }
    }

    /** io.ReadFull: exactly k bytes whatever the chunking, or EOF with the stream drained. */
    method ReadFull(k: nat) returns (r: Option<bytes>)
      modifies this`incoming
      ensures |old(incoming)| >= k ==>
                r == Some(old(incoming)[..k]) && incoming == old(incoming)[k..]
      ensures |old(incoming)| < k ==> r == None && incoming == []
    {
      var got: bytes := [];
      while |got| < k
        invariant |got| <= k
        invariant got + incoming == old(incoming)
        decreases k - |got|
      {
        var data, eof := Read(k - |got|);
        if eof { return None; }
        got := got + data;
      }
      r := Some(got);
    }

    /** io.ReadFull under a deadline by which only `inTime` bytes arrive; what it has read by then is gone. */
    method ReadFullBefore(k: nat, inTime: nat) returns (r: Option<bytes>)
      modifies this`incoming
      ensures var n := if inTime < k then inTime else k;
              var m := if n < |old(incoming)| then n else |old(incoming)|;
              && incoming == old(incoming)[m..]
              && r == if m == k then Some(old(incoming)[..k]) else None
    {
      r := ReadFull(if inTime < k then inTime else k);
      if inTime < k { r := None; }
    }

    method Write(p: bytes)
      modifies this`sent
      ensures sent == old(sent) + p
    {
      sent := sent + p;
    }
  }
}
