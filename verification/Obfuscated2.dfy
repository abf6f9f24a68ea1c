/**
  The obfuscated2 header of internal/obfuscated2: a 64-byte random header that carries its own AES-CTR
  keys, the data-centre id and the connection type.
  */
module Obfuscated2 {
  import opened Bytes
  import opened Net

  const PADDED_INTERMEDIATE := 0xdddd_dddd

  type Header = b: bytes | |b| == 64 witness seq(64, _ => 0)

  /** AES-CTR key streams and SHA-256, as functions with no further law. */
  datatype Primitives = Primitives(keystream: (bytes, bytes, nat) -> byte, sha256: bytes -> Digest)

  // ---------------------------------------------------------------------------
  // CTR streams
  // ---------------------------------------------------------------------------

  /** A cipher.Stream: which key stream, and how far into it. */
  datatype Stream = Stream(key: bytes, iv: bytes, pos: nat) {
    function Advance(n: nat): (s: Stream) { this.(pos := pos + n) }
  }

  /** XORKeyStream of one call. */
  function Crypt(prim: Primitives, s: Stream, data: bytes): (r: bytes)
    ensures |r| == |data|
  {
    seq(|data|, i requires 0 <= i < |data| => XorByte(data[i], prim.keystream(s.key, s.iv, s.pos + i)))
  }

  lemma CryptAppend(prim: Primitives, s: Stream, a: bytes, b: bytes)
    ensures Crypt(prim, s, a + b) == Crypt(prim, s, a) + Crypt(prim, s.Advance(|a|), b)
  {
    var l, r := Crypt(prim, s, a + b), Crypt(prim, s, a) + Crypt(prim, s.Advance(|a|), b);
    forall i | 0 <= i < |l| ensures l[i] == r[i] {
      if i >= |a| { assert s.pos + i == s.Advance(|a|).pos + (i - |a|); }
    }
  }

  lemma CryptTwice(prim: Primitives, s: Stream, data: bytes)
    ensures Crypt(prim, s, Crypt(prim, s, data)) == data
  {
    forall i | 0 <= i < |data| ensures Crypt(prim, s, Crypt(prim, s, data))[i] == data[i] {
      XorCancels(data[i], prim.keystream(s.key, s.iv, s.pos + i));
    }
  }

  // ---------------------------------------------------------------------------
  // Keys out of a header
  // ---------------------------------------------------------------------------

  /** Go's []byte secret, where nil and the empty slice are different values. */
  datatype Secret = Nil | Key(bytes: bytes)

  function Reversed(h: Header): (r: Header)
  {
    seq(64, i requires 0 <= i < 64 => h[63 - i])
  }

  /** The reversal loop that occurs in every routine of the package. */
  method Reverse(h: Header) returns (r: Header)
    ensures r == Reversed(h) && forall j :: 0 <= j < 64 ==> r[j] == h[63 - j]
  {
    var out: bytes := [];
    for i := 0 to 64
      invariant |out| == i && forall j :: 0 <= j < i ==> out[j] == h[63 - j]
    {
      out := out + [h[63 - i]];
    }
    r := out;
  }

  function DeriveKey(prim: Primitives, headerKey: bytes, secret: bytes): (k: Digest)
  {
    prim.sha256(headerKey + secret)
  }

  /** How Handshake turns a header into a stream: it tests the secret against nil. */
  function ServerStream(prim: Primitives, h: Header, secret: Secret): (s: Stream)
  {
    Stream(if secret.Key? then DeriveKey(prim, h[8..40], secret.bytes) else h[8..40], h[40..56], 0)
  }

  /** How outgoingHeader does: it tests the secret's length. */
  function ClientStream(prim: Primitives, h: Header, secret: Secret): (s: Stream)
  {
    Stream(
      if secret.Key? && |secret.bytes| > 0 then DeriveKey(prim, h[8..40], secret.bytes) else h[8..40],
      h[40..56], 0)
  }

  // ---------------------------------------------------------------------------
  // Making a header
  // ---------------------------------------------------------------------------

  predicate Acceptable(h: Header) {
    && h[0] !in [0xef, 0x48, 0x50, 0x47, 0x16, 0x14]
    && h[4..8] != [0, 0, 0, 0]
  }

  function Marked(h: Header, dcId: int): (r: Header)
  {
    h[..56] + LE32(PADDED_INTERMEDIATE) + LE16(Uint16(Int16(dcId))) + h[62..]
  }

  datatype Outgoing = Outgoing(header: Header, enc: Stream, dec: Stream)

  /** outgoingHeader from the first acceptable random draw on. */
  function MakeHeader(prim: Primitives, draw: Header, dcId: int, secret: Secret): (r: Outgoing)
  {
    var h := Marked(draw, dcId);
    var enc := ClientStream(prim, h, secret);
    var dec := ClientStream(prim, Reversed(h), secret);
    Outgoing(h[..56] + Crypt(prim, enc, h)[56..], enc.Advance(64), dec)
  }

  /** The retry loop: rejected draws leave no trace; None is a failure of the random source. */
  method OutgoingHeader(prim: Primitives, draws: seq<Header>, dcId: int, secret: Secret) returns (r: Option<Outgoing>)
    ensures (forall d :: d in draws ==> !Acceptable(d)) ==> r == None
    ensures forall k :: 0 <= k < |draws| && Acceptable(draws[k]) && (forall j :: 0 <= j < k ==> !Acceptable(draws[j]))
              ==> r == Some(MakeHeader(prim, draws[k], dcId, secret))
  {
    hide Bytes.LE32, Bytes.LE16, Bytes.Int16, Crypt, Reversed, ClientStream, Acceptable;
    var i := 0;
    while i < |draws|
      invariant 0 <= i <= |draws|
      invariant forall j :: 0 <= j < i ==> !Acceptable(draws[j])
    {
      var header := draws[i];
      if Acceptable(header) {
        header := header[..56] + LE32(PADDED_INTERMEDIATE) + header[60..];
        header := header[..60] + LE16(Uint16(Int16(dcId))) + header[62..];
        assert header == Marked(draws[i], dcId);
        var reversed := Reverse(header);
        var enc := ClientStream(prim, header, secret);
        var dec := ClientStream(prim, reversed, secret);
        var encrypted := Crypt(prim, enc, header);
        header := header[..56] + encrypted[56..];
        return Some(Outgoing(header, enc.Advance(64), dec));
      }
      i := i + 1;
    }
    r := None;
  }

  /** All but the last eight bytes go out as drawn, so no header begins like TLS, HTTP or a bare transport. */
  lemma HeaderKeepsDraw(prim: Primitives, draw: Header, dcId: int, secret: Secret)
    ensures var header := MakeHeader(prim, draw, dcId, secret).header;
            && header[..56] == draw[..56] && (Acceptable(draw) <==> Acceptable(header))
            && (Acceptable(draw) <==>
                  && header[0] != 0xef && header[0] != 0x48 && header[0] != 0x50
                  && header[0] != 0x47 && header[0] != 0x16 && header[0] != 0x14
                  && !(header[4] == header[5] == header[6] == header[7] == 0))
  {
    hide Bytes.LE32, Bytes.LE16, Bytes.Int16, Crypt, ClientStream;
    var header := MakeHeader(prim, draw, dcId, secret).header;
    assert header[..56] == Marked(draw, dcId)[..56] == draw[..56];
    assert header[0] == header[..56][0] && header[4..8] == header[..56][4..8] && draw[4..8] == draw[..56][4..8];
  }

  // ---------------------------------------------------------------------------
  // Reading a header
  // ---------------------------------------------------------------------------

  datatype Accepted = Accepted(dcId: int16, enc: Stream, dec: Stream)

  /** Handshake once its 64 bytes are read. */
  function Accept(prim: Primitives, h: Header, secret: Secret): (r: Option<Accepted>)
  {
    var dec := ServerStream(prim, h, secret);
    var enc := ServerStream(prim, Reversed(h), secret);
    var plain := Crypt(prim, dec, h);
    if FromLE32(plain[56..60]) != PADDED_INTERMEDIATE then None
    else Some(Accepted(Int16(FromLE16(plain[60..62])), enc, dec.Advance(64)))
  }

  function TryParseHeader(prim: Primitives, header: bytes, secret: bytes): (r: Option<int16>)
  {
    if |header| != 64 || |secret| == 0 then None
    else
      var plain := Crypt(prim, Stream(DeriveKey(prim, header[8..40], secret), header[40..56], 0), header);
      if FromLE32(plain[56..60]) != PADDED_INTERMEDIATE then None else Some(Int16(FromLE16(plain[60..62])))
  }

  /** ConnFromHeader: both streams are fresh, at position 0. */
  function ConnFromHeader(prim: Primitives, header: bytes, secret: bytes): (r: Option<Accepted>)
  {
    match TryParseHeader(prim, header, secret)
    case None => None
    case Some(dcId) =>
      var reversed := Reversed(header);
      Some(Accepted(
             dcId,
             Stream(DeriveKey(prim, reversed[8..40], secret), reversed[40..56], 0),
             Stream(DeriveKey(prim, header[8..40], secret), header[40..56], 0)))
  }

  // ---------------------------------------------------------------------------
  // The two ends agree
  // ---------------------------------------------------------------------------

  /** The key of a stream: the bytes of the header, or their hash together with the secret, in this order. */
  function KeyOf(prim: Primitives, headerKey: bytes, secret: Secret): (key: bytes)
  {
    if secret.Key? then prim.sha256(headerKey + secret.bytes) else headerKey
  }

  /** Byte i of a header, xored with the key stream at its own position. */
  function PlainByte(prim: Primitives, h: Header, secret: Secret, i: nat): (b: byte)
    requires i < 64
  {
    XorByte(h[i], prim.keystream(KeyOf(prim, h[8..40], secret), h[40..56], i))
  }

  /**
    What Handshake makes of a header, in terms of the header's bytes and the key stream alone: it wants four bytes
    0xdd at 56, takes the id from the two bytes behind them, and keys its two streams from the header read forwards
    and backwards.
    */
  lemma AcceptMeans(prim: Primitives, h: Header, secret: Secret)
    ensures Accept(prim, h, secret).Some? <==>
            && PlainByte(prim, h, secret, 56) == 0xdd && PlainByte(prim, h, secret, 57) == 0xdd
            && PlainByte(prim, h, secret, 58) == 0xdd && PlainByte(prim, h, secret, 59) == 0xdd
    ensures Accept(prim, h, secret).Some? ==>
              var a := Accept(prim, h, secret).value;
              var r := seq(64, i requires 0 <= i < 64 => h[63 - i]);
              && a.dcId == Int16(PlainByte(prim, h, secret, 60) as int + 256 * (PlainByte(prim, h, secret, 61) as int))
              && a.dec == Stream(KeyOf(prim, h[8..40], secret), h[40..56], 64)
              && a.enc == Stream(KeyOf(prim, r[8..40], secret), r[40..56], 0)
  {
    hide Bytes.Int16, Bytes.XorByte, Bytes.FromLE32, Bytes.FromLE16;
    var plain := Crypt(prim, ServerStream(prim, h, secret), h);
    PlainBytes(prim, h, secret);
    var word, id := plain[56..60], plain[60..62];
    assert word == [plain[56], plain[57], plain[58], plain[59]] && id == [plain[60], plain[61]];
    LittleEndian32(word);
    LittleEndian16(id);
    assert Reversed(h) == seq(64, i requires 0 <= i < 64 => h[63 - i]);
  }

  lemma PlainBytes(prim: Primitives, h: Header, secret: Secret)
    ensures forall i: nat :: i < 64 ==>
              Crypt(prim, Stream(KeyOf(prim, h[8..40], secret), h[40..56], 0), h)[i] == PlainByte(prim, h, secret, i)
  {}

  lemma ReversedIs(h: Header)
    ensures Reversed(h) == seq(64, i requires 0 <= i < 64 => h[63 - i])
  {}

  /** What outgoingHeader sends and keeps, in terms of the random draw alone. */
  lemma MakeHeaderMeans(prim: Primitives, draw: Header, dcId: int, secret: Secret)
    requires secret.Key? ==> |secret.bytes| > 0
    ensures var o := MakeHeader(prim, draw, dcId, secret);
            var r := seq(64, i requires 0 <= i < 64 => draw[63 - i]);
            && o.enc == Stream(KeyOf(prim, draw[8..40], secret), draw[40..56], 64)
            && o.dec == Stream(KeyOf(prim, r[8..40], secret), r[40..56], 0)
            && o.header[..56] == draw[..56]
            && (forall i: nat :: 56 <= i < 60 ==> PlainByte(prim, o.header, secret, i) == 0xdd)
            && PlainByte(prim, o.header, secret, 60) as int + 256 * (PlainByte(prim, o.header, secret, 61) as int) == Uint16(dcId)
            && PlainByte(prim, o.header, secret, 62) == draw[62] && PlainByte(prim, o.header, secret, 63) == draw[63]
  {
    hide Bytes.Int16, Bytes.XorByte, Crypt, Reversed, PlainByte, Marked;
    var h := Marked(draw, dcId);
    var o := MakeHeader(prim, draw, dcId, secret);
    var enc := ClientStream(prim, h, secret);
    MarkedBytes(draw, dcId);
    KeyBytesSurvive(draw, h[56..]);
    KeyBytesSurvive(draw, o.header[56..]);
    assert h == draw[..56] + h[56..] && o.header == draw[..56] + o.header[56..];
    DecryptsTail(prim, enc, h);
    PlainBytes(prim, o.header, secret);
    assert forall i: nat :: 56 <= i < 64 ==> Crypt(prim, enc, o.header)[i] == Crypt(prim, enc, o.header)[56..][i - 56] == h[i];
    assert Reversed(draw) == seq(64, i requires 0 <= i < 64 => draw[63 - i]) by { ReversedIs(draw); }
  }

  lemma MarkedBytes(h: Header, dcId: int)
    ensures var m := Marked(h, dcId);
            && m[56] == m[57] == m[58] == m[59] == 0xdd && m[60] as int + 256 * (m[61] as int) == Uint16(dcId)
            && m[62] == h[62] && m[63] == h[63] && m[..56] == h[..56]
  {
    hide Bytes.Int16, Bytes.LE32, Bytes.LE16, Bytes.FromLE32, Bytes.FromLE16;
    var m := Marked(h, dcId);
    var word, id := LE32(PADDED_INTERMEDIATE), LE16(Uint16(Int16(dcId)));
    assert m[56] == word[0] && m[57] == word[1] && m[58] == word[2] && m[59] == word[3] && m[60] == id[0] && m[61] == id[1];
    LittleEndian32(word);
    LittleEndian16(id);
    Uint16OfInt16(dcId);
  }

  /** Encrypting the last eight bytes touches neither key nor iv, forwards or backwards. */
  lemma KeyBytesSurvive(h: Header, tail: bytes)
    requires |tail| == 8
    ensures var t: Header := h[..56] + tail;
            && t[8..40] == h[8..40] && t[40..56] == h[40..56]
            && Reversed(t)[8..40] == Reversed(h)[8..40] && Reversed(t)[40..56] == Reversed(h)[40..56]
  {}

  lemma MarkedFields(h: Header, dcId: int)
    ensures FromLE32(Marked(h, dcId)[56..60]) == PADDED_INTERMEDIATE
    ensures Int16(FromLE16(Marked(h, dcId)[60..62])) == Int16(dcId)
  {
    hide Bytes.LE32, Bytes.LE16, Bytes.FromLE32, Bytes.FromLE16;
    assert Marked(h, dcId)[56..60] == LE32(PADDED_INTERMEDIATE);
    assert Marked(h, dcId)[60..62] == LE16(Uint16(Int16(dcId)));
    Int16OfUint16(dcId);
  }

  /**
    For every random header, data centre and secret: the server recovers the id, and the streams match
    crosswise, client to server at position 64 and server to client at 0.
    */
  lemma HandshakeAgrees(prim: Primitives, draw: Header, dcId: int, secret: Secret)
    requires secret.Key? ==> |secret.bytes| > 0
    ensures var o := MakeHeader(prim, draw, dcId, secret);
            && Accept(prim, o.header, secret) == Some(Accepted(Int16(dcId), o.dec, o.enc))
            && o.enc.pos == 64 && o.dec.pos == 0
  {
    hide Bytes.LE32, Bytes.LE16, Bytes.FromLE32, Bytes.FromLE16, Bytes.Int16, Marked, Crypt, Reversed;
    var h := Marked(draw, dcId);
    var enc := ClientStream(prim, h, secret);
    var tail := Crypt(prim, enc, h)[56..];
    var header: Header := h[..56] + tail;
    KeyBytesSurvive(h, tail);
    DecryptsTail(prim, enc, h);
    var plain := Crypt(prim, enc, header);
    assert plain[56..60] == h[56..60] by { assert plain[56..60] == plain[56..][..4] && h[56..60] == h[56..][..4]; }
    assert plain[60..62] == h[60..62] by { assert plain[60..62] == plain[56..][4..6] && h[60..62] == h[56..][4..6]; }
    MarkedFields(draw, dcId);
  }

  /** A header sent half in the clear decrypts to the original in the encrypted half. */
  lemma DecryptsTail(prim: Primitives, s: Stream, h: Header)
    ensures Crypt(prim, s, h[..56] + Crypt(prim, s, h)[56..])[56..] == h[56..]
  {
    var t := h[..56] + Crypt(prim, s, h)[56..];
    forall i | 56 <= i < 64 ensures Crypt(prim, s, t)[i] == h[i] {
      XorCancels(h[i], prim.keystream(s.key, s.iv, s.pos + i));
    }
  }

  /** The dd-mode parser accepts exactly the headers Handshake accepts, with the same id. */
  lemma ParsersAgree(prim: Primitives, h: Header, secret: bytes)
    requires |secret| > 0
    ensures var a := Accept(prim, h, Key(secret));
            TryParseHeader(prim, h, secret) == if a.Some? then Some(a.value.dcId) else None
  {
    hide Crypt, Bytes.FromLE32, Bytes.FromLE16, Bytes.Int16;
  }

  /**
    With an empty, non-nil secret the handshake comes out as it should only where SHA-256 has two fixed points: at
    the key in the header, and at the key in the reversed header.
    */
  lemma EmptySecretDisagrees(prim: Primitives, draw: Header, dcId: int)
    ensures var o := MakeHeader(prim, draw, dcId, Key([]));
            var there, back := o.header[8..40], Reversed(o.header)[8..40];
            var agreed := Accept(prim, o.header, Key([])) == Some(Accepted(Int16(dcId), o.dec, o.enc));
            agreed <==> prim.sha256(there) == there && prim.sha256(back) == back
  {
    hide Crypt, Bytes.FromLE32, Bytes.FromLE16, Bytes.Int16, Marked, Reversed;
    var o := MakeHeader(prim, draw, dcId, Key([]));
    assert o == MakeHeader(prim, draw, dcId, Nil);
    HandshakeAgrees(prim, draw, dcId, Nil);
    EmptySecretKey(prim, o.header);
    EmptySecretKey(prim, Reversed(o.header));
  }

  lemma EmptySecretKey(prim: Primitives, h: Header)
    ensures ServerStream(prim, h, Key([])) == ClientStream(prim, h, Key([])) <==> prim.sha256(h[8..40]) == h[8..40]
    ensures ClientStream(prim, h, Key([])) == ServerStream(prim, h, Nil)
  {
    assert h[8..40] + [] == h[8..40];
  }

  /** The dd-mode parser takes nothing without a secret, and nothing but 64 bytes. */
  lemma ParserNeedsSecret(prim: Primitives, header: bytes, secret: bytes)
    requires |header| != 64 || secret == []
    ensures TryParseHeader(prim, header, secret) == None && ConnFromHeader(prim, header, secret) == None
  {}

  /** ConnFromHeader differs from Handshake in one thing: its decrypting stream is 64 bytes behind the sender. */
  lemma ConnFromHeaderLags(prim: Primitives, draw: Header, dcId: int, secret: bytes)
    requires |secret| > 0
    ensures var o := MakeHeader(prim, draw, dcId, Key(secret));
            var c := ConnFromHeader(prim, o.header, secret);
            && c.Some? && c.value.dcId == Int16(dcId) && c.value.enc == o.dec
            && c.value.dec.Advance(64) == o.enc && c.value.dec != o.enc
  {
    hide Crypt, Bytes.FromLE32, Bytes.FromLE16, Bytes.Int16, Marked, MakeHeader, Reversed, TryParseHeader;
    var o := MakeHeader(prim, draw, dcId, Key(secret));
    HandshakeAgrees(prim, draw, dcId, Key(secret));
    ParsersAgree(prim, o.header, secret);
  }

  /** The next n bytes of a key stream. */
  function KeyBytes(prim: Primitives, s: Stream, n: nat): (k: bytes)
    ensures |k| == n
  {
    Crypt(prim, s, seq(n, _ => 0))
  }

  /** So its reader recovers a message exactly when the key stream happens to repeat 64 bytes later. */
  lemma LaggingReaderRecovers(prim: Primitives, s: Stream, data: bytes)
    ensures Crypt(prim, s, Crypt(prim, s.Advance(64), data)) == data
       <==> KeyBytes(prim, s, |data|) == KeyBytes(prim, s.Advance(64), |data|)
  {
    var back := Crypt(prim, s, Crypt(prim, s.Advance(64), data));
    var k, k' := KeyBytes(prim, s.Advance(64), |data|), KeyBytes(prim, s, |data|);
    forall i | 0 <= i < |data| ensures back[i] == data[i] <==> k[i] == k'[i] {
      XorZero(prim.keystream(s.key, s.iv, s.pos + 64 + i));
      XorZero(prim.keystream(s.key, s.iv, s.pos + i));
      XorTwoKeys(data[i], k[i], k'[i]);
    }
  }

  lemma XorTwoKeys(d: nat, k: nat, k': nat)
    ensures Xor(Xor(d, k), k') == d <==> k == k'
  {
    XorCancels(d, k);
    if Xor(Xor(d, k), k') == d {
      XorCancels(Xor(d, k), k');
      XorCommutes(d, k);
      XorCommutes(d, k');
      XorCancels(k, d);
      XorCancels(k', d);
    }
  }
}
