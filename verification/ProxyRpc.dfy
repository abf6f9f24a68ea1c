/**
  The RPC messages of internal/middleproxy/relay.go: RPC_PROXY_REQ as the proxy builds it and as a
  middle-proxy server takes it apart, and the answers as the proxy interprets them.
  */
module ProxyRpc {
  import opened Bytes
  import opened Net

  const PROXY_REQ: bytes := [0xee, 0xf1, 0xce, 0x36]
  const PROXY_ANS: bytes := [0x0d, 0xda, 0x03, 0x44]
  const SIMPLE_ACK: bytes := [0x9b, 0x40, 0xac, 0x3b]
  const CLOSE_CONN: bytes := [0x5d, 0x42, 0xcf, 0x1f]

  const BASE_FLAGS := 0x2802_1000
  const HAS_AD_TAG := 8
  const NOT_ENCRYPTED := 2

  type Ip16 = b: bytes | |b| == 16 witness seq(16, _ => 0)
  type ConnId = b: bytes | |b| == 8 witness seq(8, _ => 0)

  /** The result of net.ParseIP: an address with a 4-byte form, one without, or no address. */
  datatype Host = V4(ip4: Ip4) | V6(ip16: Ip16) | Unparsable

  datatype Options = Options(client: Host, clientPort: int, local: Host, localPort: int, adTag: bytes)

  const MAPPED: bytes := [0, 0, 0, 0, 0, 0, 0, 0, 0, 0, 0xff, 0xff]

  // ---------------------------------------------------------------------------
  // Requests
  // ---------------------------------------------------------------------------

  function EncodeIpPort(host: Host, port: int): (s: bytes)
    ensures |s| == 20
  {
    var ip: bytes := match host
      case V4(ip4) => MAPPED + ip4
      case V6(ip16) => ip16
      case Unparsable => seq(16, _ => 0);
    ip + LE32(Uint32(port))
  }

  predicate StartsUnencrypted(payload: bytes) {
    |payload| >= 8 && forall i :: 0 <= i < 8 ==> payload[i] == 0
  }

  function Flags(payload: bytes, opts: Options): (n: nat)
    ensures n < TWO_32
    ensures n / HAS_AD_TAG % 2 == 1 <==> |opts.adTag| == 16
    ensures n / NOT_ENCRYPTED % 2 == 1 <==> StartsUnencrypted(payload)
  {
    BASE_FLAGS
    + (if StartsUnencrypted(payload) then NOT_ENCRYPTED else 0)
    + (if |opts.adTag| == 16 then HAS_AD_TAG else 0)
  }

  /** The four fixed flags (magic, extended mode, intermediate, padding) are set in every request. */
  lemma FixedFlags(payload: bytes, opts: Options)
    ensures var n := Flags(payload, opts);
            && n / 0x1000 % 2 == 1 && n / 0x2_0000 % 2 == 1 && n / 0x800_0000 % 2 == 1 && n / 0x2000_0000 % 2 == 1
  {
    hide StartsUnencrypted;
    var n := Flags(payload, opts);
    var low := n - BASE_FLAGS;
    assert 0 <= low <= 10;
    assert n / 0x1000 == 0x2_8021;
    assert n / 0x2_0000 == 0x1401 && n / 0x800_0000 == 5 && n / 0x2000_0000 == 1;
  }

  function TagBlock(adTag: bytes): (s: bytes)
    ensures |s| == if |adTag| == 16 then 28 else 0
  {
    if |adTag| == 16 then [0x18, 0, 0, 0] + [0xae, 0x26, 0x1e, 0xdb] + [16] + adTag + [0, 0, 0] else []
  }

  /** buildProxyReq: a header of 56 or 84 bytes in front of the payload. */
  function BuildProxyReq(payload: bytes, opts: Options, id: ConnId): (msg: bytes)
    ensures |msg| == |payload| + if |opts.adTag| == 16 then 84 else 56
    ensures |payload| % 4 == 0 ==> |msg| % 4 == 0
  {
    PROXY_REQ + LE32(Flags(payload, opts)) + id
    + EncodeIpPort(opts.client, opts.clientPort) + EncodeIpPort(opts.local, opts.localPort)
    + TagBlock(opts.adTag) + payload
  }

  /** An address block byte by byte: the address, mapped if it is IPv4, and the port with its low byte first. */
  lemma AddressBytes(host: Host, port: int)
    ensures var s := EncodeIpPort(host, port);
            && (host.V4? ==> s[..16] == [0, 0, 0, 0, 0, 0, 0, 0, 0, 0, 0xff, 0xff] + host.ip4)
            && (host.V6? ==> s[..16] == host.ip16)
            && (host.Unparsable? ==> s[..16] == seq(16, _ => 0))
            && s[16] as int + 256 * (s[17] as int) + 65536 * (s[18] as int) + 16777216 * (s[19] as int) == Uint32(port)
  {
    hide Bytes.LE32, Bytes.FromLE32;
    var s, p := EncodeIpPort(host, port), LE32(Uint32(port));
    assert s[16] == p[0] && s[17] == p[1] && s[18] == p[2] && s[19] == p[3];
    LittleEndian32(p);
  }

  /** A request byte by byte. */
  lemma RequestBytes(payload: bytes, opts: Options, id: ConnId)
    ensures var msg := BuildProxyReq(payload, opts, id);
            var zeros := |payload| >= 8 && payload[..8] == [0, 0, 0, 0, 0, 0, 0, 0];
            && msg[..4] == [0xee, 0xf1, 0xce, 0x36]
            && msg[4] == (if |opts.adTag| == 16 then 8 else 0) + (if zeros then 2 else 0)
            && msg[5] == 0x10 && msg[6] == 0x02 && msg[7] == 0x28
            && msg[8..16] == id
            && msg[16..36] == EncodeIpPort(opts.client, opts.clientPort)
            && msg[36..56] == EncodeIpPort(opts.local, opts.localPort)
            && msg[56..] == (if |opts.adTag| == 16
                             then [0x18, 0, 0, 0, 0xae, 0x26, 0x1e, 0xdb, 16] + opts.adTag + [0, 0, 0] else []) + payload
  {
    hide Bytes.LE32, Bytes.FromLE32, EncodeIpPort, StartsUnencrypted;
    var flags := LE32(Flags(payload, opts));
    var client, local := EncodeIpPort(opts.client, opts.clientPort), EncodeIpPort(opts.local, opts.localPort);
    var rest := TagBlock(opts.adTag) + payload;
    var msg := BuildProxyReq(payload, opts, id);
    assert msg == PROXY_REQ + flags + id + client + local + rest;
    RequestSlices(flags, id, client, local, rest);
    assert msg[4] == flags[0] && msg[5] == flags[1] && msg[6] == flags[2] && msg[7] == flags[3];
    LittleEndian32(flags);
    EightZeros(payload);
  }

  lemma EightZeros(payload: bytes)
    ensures StartsUnencrypted(payload) <==> |payload| >= 8 && payload[..8] == [0, 0, 0, 0, 0, 0, 0, 0]
  {}

  /** A request as the server sees it. */
  datatype Request = Request(flags: nat, id: bytes, client: bytes, local: bytes, adTag: Option<bytes>, payload: bytes)

  /** How a server takes a request apart: the extra block is present exactly when its flag is set. */
  function ParseProxyReq(msg: bytes): (r: Option<Request>)
  {
    if |msg| < 56 || msg[..4] != PROXY_REQ then None
    else
      var flags := FromLE32(msg[4..8]);
      var head := Request(flags, msg[8..16], msg[16..36], msg[36..56], None, msg[56..]);
      if flags / HAS_AD_TAG % 2 == 0 then Some(head)
      else ParseExtra(head, msg[56..])
  }

  function ParseExtra(head: Request, s: bytes): (r: Option<Request>)
  {
    if |s| < 9 then None
    else
      var extra := FromLE32(s[..4]);
      var len := s[8] as int;
      if |s| < 4 + extra || extra < 5 + len then None
      else Some(head.(adTag := Some(s[9..9 + len]), payload := s[4 + extra..]))
  }

  lemma ExtraReadsBack(head: Request, adTag: bytes, payload: bytes)
    requires |adTag| == 16
    ensures ParseExtra(head, TagBlock(adTag) + payload) == Some(head.(adTag := Some(adTag), payload := payload))
  {
    var s := TagBlock(adTag) + payload;
    assert s[..4] == [0x18, 0, 0, 0] && s[8] == 16;
    assert FromLE32([0x18, 0, 0, 0]) == 24;
    assert s[9..25] == adTag && s[28..] == payload;
  }

  lemma RequestSlices(flags: bytes, id: bytes, client: bytes, local: bytes, rest: bytes)
    requires |flags| == 4 && |id| == 8 && |client| == 20 && |local| == 20
    ensures var s := PROXY_REQ + flags + id + client + local + rest;
            && |s| >= 56 && s[..4] == PROXY_REQ && s[4..8] == flags && s[8..16] == id
            && s[16..36] == client && s[36..56] == local && s[56..] == rest
  {}

  /** The server recovers every field, and the payload begins exactly where the proxy put it. */
  lemma RequestReadsBack(payload: bytes, opts: Options, id: ConnId)
    ensures ParseProxyReq(BuildProxyReq(payload, opts, id))
         == Some(Request(
                   Flags(payload, opts), id,
                   EncodeIpPort(opts.client, opts.clientPort), EncodeIpPort(opts.local, opts.localPort),
                   if |opts.adTag| == 16 then Some(opts.adTag) else None,
                   payload))
  {
    hide Bytes.LE32, Bytes.FromLE32, EncodeIpPort, Flags, ParseExtra, TagBlock;
    var flags := LE32(Flags(payload, opts));
    var client := EncodeIpPort(opts.client, opts.clientPort);
    var local := EncodeIpPort(opts.local, opts.localPort);
    var rest := TagBlock(opts.adTag) + payload;
    var msg := BuildProxyReq(payload, opts, id);
    assert msg == PROXY_REQ + flags + id + client + local + rest;
    RequestSlices(flags, id, client, local, rest);
    assert FromLE32(msg[4..8]) == Flags(payload, opts);
    if |opts.adTag| == 16 {
      var head := Request(Flags(payload, opts), id, client, local, None, rest);
      ExtraReadsBack(head, opts.adTag, payload);
    } else {
      assert rest == payload;
    }
  }

  /** The server's reading of an address block. */
  function DecodeHost(s: bytes): (h: Host)
    requires |s| == 20
  {
    if s[..12] == MAPPED then V4(s[12..16]) else V6(s[..16])
  }

  /** Addresses and ports survive, except that no address reads as the unspecified one. */
  lemma IpPortReadsBack(host: Host, port: int)
    requires host.V6? ==> host.ip16[..12] != MAPPED
    ensures DecodeHost(EncodeIpPort(host, port)) == if host.Unparsable? then V6(seq(16, _ => 0)) else host
    ensures FromLE32(EncodeIpPort(host, port)[16..]) == Uint32(port)
  {
    hide Bytes.LE32, Bytes.FromLE32;
    var s := EncodeIpPort(host, port);
    assert s[16..] == LE32(Uint32(port));
    match host
    case V4(ip4) => assert s[..12] == MAPPED && s[12..16] == ip4;
    case V6(ip16) => assert s[..16] == ip16 && s[..12] == ip16[..12];
    case Unparsable =>
      assert s[..16] == seq(16, _ => 0) && s[..12][11] == 0;
  }

  // ---------------------------------------------------------------------------
  // Answers
  // ---------------------------------------------------------------------------

  datatype Answer = Data(data: bytes) | Skip | Closed | Short

  /** parseProxyAns: a frame without a tag and the close frame both mean end of file. */
  function ParseProxyAns(frame: bytes): (r: Answer)
  {
    if |frame| < 4 then Closed
    else if frame[..4] == PROXY_ANS then (if |frame| < 16 then Short else Data(frame[16..]))
    else if frame[..4] == SIMPLE_ACK then Skip
    else if frame[..4] == CLOSE_CONN then Closed
    else Skip
  }

  /** What each frame means, by its first four bytes. */
  lemma AnswerBytes(frame: bytes)
    ensures ParseProxyAns(frame) ==
            if |frame| < 4 || frame[..4] == [0x5d, 0x42, 0xcf, 0x1f] then Closed
            else if frame[..4] != [0x0d, 0xda, 0x03, 0x44] then Skip
            else if |frame| < 16 then Short else Data(frame[16..])
  {}

  type Tag = b: bytes | |b| == 4 && b != PROXY_ANS && b != CLOSE_CONN witness SIMPLE_ACK
  type AnswerHeader = b: bytes | |b| == 12 witness seq(12, _ => 0)

  /** What a middle-proxy server may say before it closes: answers, and anything else it tags. */
  datatype Event = Answered(header: AnswerHeader, data: bytes) | Other(tag: Tag, body: bytes)

  function EncodeEvent(e: Event): (msg: bytes)
  {
    match e
    case Answered(header, data) => PROXY_ANS + header + data
    case Other(tag, body) => tag + body
  }

  lemma EventReadsBack(e: Event)
    ensures ParseProxyAns(EncodeEvent(e)) == if e.Answered? then Data(e.data) else Skip
  {
    match e
    case Answered(header, data) =>
      assert EncodeEvent(e)[..4] == PROXY_ANS && EncodeEvent(e)[16..] == data;
    case Other(tag, body) =>
      assert EncodeEvent(e)[..4] == tag;
  }

  lemma CloseReadsBack(body: bytes)
    ensures ParseProxyAns(CLOSE_CONN + body) == Closed
  {
    assert (CLOSE_CONN + body)[..4] == CLOSE_CONN;
  }
}
