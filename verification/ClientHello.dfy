/**
  The fake-TLS ClientHello: parsing (internal/faketls/client_hello.go), stamping
  (internal/faketls/client.go) and validation.
  */
module ClientHello {
  import opened Bytes

  const HANDSHAKE: byte := 0x16
  const MAX_RECORD := 16384 + 2048
  const RANDOM_OFFSET := 11
  const RANDOM_END := 43
  const SKEW := 120

  type Random = b: bytes | |b| == 32 witness seq(32, _ => 0)

  // ---------------------------------------------------------------------------
  // Parsing
  // ---------------------------------------------------------------------------

  datatype Hello = Hello(raw: bytes, random: Random, sessionId: bytes, cipherSuite: nat)

  datatype ParseError = ShortRead | NotHandshake | TooLarge | NotClientHello | Truncated | TooShort

  /** Crash stands for Go's index and slice panics, which only malformed input reaches. */
  datatype Parsed = Parsed(hello: Hello) | Failed(error: ParseError) | Crash

  /** parseClientHello on a stream that holds everything the client will send. */
  function Parse(s: bytes): (r: Parsed)
  {
    if |s| < 5 then Failed(ShortRead)
    else if s[0] != HANDSHAKE then Failed(NotHandshake)
    else
      var n := FromBE16(s[3..5]);
      if n > MAX_RECORD then Failed(TooLarge)
      else if |s| < 5 + n then Failed(ShortRead)
      else ParseRecord(s[..5 + n])
  }

  /** The rest of parseClientHello, on the full record; the message slice may reach to the record's end. */
  function ParseRecord(raw: bytes): (r: Parsed)
    requires |raw| >= 5
  {
    var payload := raw[5..];
    if |payload| < 4 || payload[0] != 1 then Failed(NotClientHello)
    else
      var helloLen := FromBE24(payload[1..4]);
      var hello := payload[4..];
      if |hello| < helloLen then Failed(Truncated)
      else if helloLen < 34 then Failed(TooShort)
      else if helloLen == 34 then Crash
      else
        var sidEnd := 35 + hello[34] as int;
        if |hello| < sidEnd + 2 then Crash
        else
          var csLen := FromBE16(hello[sidEnd..sidEnd + 2]);
          if csLen < 2 then Parsed(Hello(raw, hello[2..34], hello[35..sidEnd], 0))
          else if |hello| < sidEnd + 4 then Crash
          else Parsed(Hello(raw, hello[2..34], hello[35..sidEnd], FromBE16(hello[sidEnd + 2..sidEnd + 4])))
  }

  /** Which streams parsing refuses, byte by byte. */
  lemma ParseRefuses(s: bytes)
    ensures |s| < 5 ==> Parse(s) == Failed(ShortRead)
    ensures |s| >= 5 ==>
              var n := 256 * (s[3] as int) + s[4] as int;
              && (Parse(s) == Failed(NotHandshake) <==> s[0] != 0x16)
              && (Parse(s) == Failed(TooLarge) <==> s[0] == 0x16 && n > 18432)
              && (Parse(s) == Failed(ShortRead) <==> s[0] == 0x16 && n <= 18432 && |s| < 5 + n)
              && (s[0] == 0x16 && n <= 18432 && 9 <= 5 + n <= |s| ==>
                    var m := 65536 * (s[6] as int) + 256 * (s[7] as int) + s[8] as int;
                    && (Parse(s) == Failed(NotClientHello) <==> s[5] != 1)
                    && (Parse(s) == Failed(Truncated) <==> s[5] == 1 && n - 4 < m)
                    && (Parse(s) == Failed(TooShort) <==> s[5] == 1 && m <= n - 4 && m < 34))
  {
    hide Bytes.FromBE16, Bytes.FromBE24;
    if |s| >= 5 {
      BigEndian16(s[3..5]);
      var n := FromBE16(s[3..5]);
      if n >= 4 && |s| >= 5 + n {
        var payload := s[..5 + n][5..];
        assert payload[0] == s[5] && payload[1] == s[6] && payload[2] == s[7] && payload[3] == s[8];
        BigEndian24(payload[1..4]);
      }
    }
  }

  /** Whatever was parsed, Random is bytes 11 to 42 of Raw, and Raw is the front of the stream. */
  lemma RandomIsInRaw(s: bytes)
    requires Parse(s).Parsed?
    ensures var h := Parse(s).hello;
            |h.raw| >= RANDOM_END && h.raw <= s && h.random == h.raw[RANDOM_OFFSET..RANDOM_END]
  {
    hide Bytes.FromBE16, Bytes.FromBE24;
    var h := Parse(s).hello;
    assert h.raw[5..][4..][2..34] == h.raw[11..43];
  }

  // ---------------------------------------------------------------------------
  // Stamping and validating
  // ---------------------------------------------------------------------------

  /** HMAC-SHA256 of a key and a message; only that it is a function is used. */
  type Hmac = (bytes, bytes) -> Random

  function WithRandom(record: bytes, random: Random): (r: bytes)
    requires |record| >= RANDOM_END
    ensures |r| == |record| && r[RANDOM_OFFSET..RANDOM_END] == random
  {
    record[..RANDOM_OFFSET] + random + record[RANDOM_END..]
  }

  function Zeroed(record: bytes): (r: bytes)
    requires |record| >= RANDOM_END
    ensures |r| == |record|
  {
    WithRandom(record, seq(32, _ => 0))
  }

  /** The digest with the time folded into its last word. */
  function StampedRandom(mac: Random, ts: nat): (r: Random)
    requires ts < TWO_32
  {
    mac[..28] + LE32(XorWord(FromLE32(mac[28..]), ts))
  }

  function Stamp(hmac: Hmac, key: bytes, record: bytes, ts: nat): (r: bytes)
    requires |record| >= RANDOM_END && ts < TWO_32
    ensures |r| == |record|
  {
    WithRandom(record, StampedRandom(hmac(key, Zeroed(record)), ts))
  }

  /** The digest is taken over the record with bytes 11 to 42 set to zero. */
  lemma ZeroedBytes(record: bytes, i: nat)
    requires |record| >= 43 && i < |record|
    ensures Zeroed(record)[i] == if 11 <= i < 43 then 0 else record[i]
  {}

  /** A stamped record byte by byte: the first 28 bytes of the digest, then the last four with the time, low byte first. */
  lemma StampBytes(hmac: Hmac, key: bytes, record: bytes, ts: nat)
    requires |record| >= 43 && ts < 0x1_0000_0000
    ensures var mac := hmac(key, Zeroed(record));
            var r := Stamp(hmac, key, record, ts);
            && r[..11] == record[..11] && r[43..] == record[43..] && r[11..39] == mac[..28]
            && r[39..43] == XorBytes(mac[28..], LE32(ts))
  {
    hide Bytes.LE32, Bytes.FromLE32, Bytes.XorWord, Bytes.XorBytes, Zeroed;
    var mac := hmac(key, Zeroed(record));
    var r := Stamp(hmac, key, record, ts);
    var word := LE32(XorWord(FromLE32(mac[28..]), ts));
    assert r[11..43] == mac[..28] + word;
    assert r[11..39] == r[11..43][..28] && r[39..43] == r[11..43][28..];
    XorOfWords(mac[28..], LE32(ts));
    XorWordIsXor(FromLE32(mac[28..]), ts);
    LE32OfFromLE32(XorBytes(mac[28..], LE32(ts)));
  }

  datatype Verdict = Ok | RawTooShort | BadDigest | BadTimestamp

  predicate InWindow(now: int, ts: int) {
    -SKEW <= now - ts <= SKEW
  }

  /** The time a hello carries under a key, if its digest is right. */
  function TimeOf(hmac: Hmac, key: bytes, raw: bytes, random: Random): (r: nat)
    requires |raw| >= RANDOM_END
    ensures r < TWO_32
  {
    FromLE32(XorBytes(hmac(key, Zeroed(raw)), random)[28..])
  }

  predicate DigestOk(hmac: Hmac, key: bytes, raw: bytes, random: Random)
    requires |raw| >= RANDOM_END
  {
    XorBytes(hmac(key, Zeroed(raw)), random)[..28] == seq(28, _ => 0)
  }

  /** validateClientHello at Unix time now. */
  function Validate(hmac: Hmac, key: bytes, raw: bytes, random: Random, now: int): (r: Verdict)
  {
    if |raw| < RANDOM_END then RawTooShort
    else if !DigestOk(hmac, key, raw, random) then BadDigest
    else if !InWindow(now, TimeOf(hmac, key, raw, random)) then BadTimestamp
    else Ok
  }

  /** Overwrites the random inside a record buffer, byte by byte. */
  method PutRandom(record: array<byte>, random: Random)
    requires record.Length >= RANDOM_END
    modifies record
    ensures record[..] == WithRandom(old(record[..]), random)
  {
    for i := 0 to 32
      invariant forall j :: 0 <= j < i ==> record[RANDOM_OFFSET + j] == random[j]
      invariant forall j :: 0 <= j < record.Length && !(RANDOM_OFFSET <= j < RANDOM_OFFSET + i) ==> record[j] == old(record[j])
    {
      record[RANDOM_OFFSET + i] := random[i];
    }
    ghost var r, w := record[..], WithRandom(old(record[..]), random);
    forall j | 0 <= j < |r| ensures r[j] == w[j] {
      if RANDOM_OFFSET <= j < RANDOM_END { assert record[RANDOM_OFFSET + (j - RANDOM_OFFSET)] == random[j - RANDOM_OFFSET]; }
    }
  }

  /** The in-place work of generateClientHelloRecord on its record buffer. */
  method StampInPlace(hmac: Hmac, key: bytes, record: array<byte>, ts: nat) returns (ok: bool)
    requires ts < TWO_32
    modifies record
    ensures ok == (record.Length >= RANDOM_END)
    ensures record[..] == if ok then Stamp(hmac, key, old(record[..]), ts) else old(record[..])
  {
    hide StampedRandom, WithRandom;
    if record.Length < RANDOM_END { return false; }
    ghost var was := record[..];
    PutRandom(record, seq(32, _ => 0));
    var random := StampedRandom(hmac(key, record[..]), ts);
    PutRandom(record, random);
    WithRandomTwice(was, seq(32, _ => 0), random);
    ok := true;
  }

  lemma WithRandomTwice(record: bytes, x: Random, y: Random)
    requires |record| >= RANDOM_END
    ensures WithRandom(WithRandom(record, x), y) == WithRandom(record, y)
  {}

  /** validateClientHello with its buffers: zero the random, take the MAC, xor the random in. */
  method ValidateClientHello(hmac: Hmac, key: bytes, raw: bytes, random: Random, now: int) returns (r: Verdict)
    ensures r == Validate(hmac, key, raw, random, now)
  {
    hide Bytes.FromLE32, Bytes.XorByte;
    if |raw| < RANDOM_END { return RawTooShort; }
    var modified := raw;
    for i := 0 to 32
      invariant modified == raw[..RANDOM_OFFSET] + seq(i, _ => 0) + raw[RANDOM_OFFSET + i..]
    {
      modified := modified[RANDOM_OFFSET + i := 0];
    }
    assert modified == Zeroed(raw);
    var mac := hmac(key, modified);
    var computed: bytes := mac;
    for i := 0 to 32
      invariant |computed| == 32
      invariant forall j :: 0 <= j < 32 ==> computed[j] == if j < i then XorByte(mac[j], random[j]) else mac[j]
    {
      computed := computed[i := XorByte(computed[i], random[i])];
    }
    assert computed == XorBytes(mac, random);
    if computed[..28] != seq(28, _ => 0) { return BadDigest; }
    var diff := now - FromLE32(computed[28..]);
    if diff < 0 { diff := -diff; }
    if diff > SKEW { return BadTimestamp; }
    r := Ok;
  }

  lemma ZeroXorMeansEqual(a: bytes, b: bytes)
    requires |a| == |b|
    ensures XorBytes(a, b) == seq(|a|, _ => 0) <==> a == b
  {
    forall i | 0 <= i < |a| ensures XorByte(a[i], b[i]) == 0 <==> a[i] == b[i] {
      XorCancels(a[i], b[i]);
      XorOfEqual(a[i]);
      XorZero(b[i]);
    }
    if XorBytes(a, b) == seq(|a|, _ => 0) {
      forall i | 0 <= i < |a| ensures a[i] == b[i] { assert XorBytes(a, b)[i] == 0; }
    }
  }

  /** Xoring a word with m twice gives it back. */
  lemma XorWordTwice(m: nat, x: nat)
    requires m < TWO_32 && x < TWO_32
    ensures XorWord(m, XorWord(m, x)) == x
  {
    XorCommutes(m, x);
    XorCommutes(m, Xor(m, x));
    XorCancels(x, m);
  }

  lemma XorBytesSplit(a: bytes, b: bytes, k: nat)
    requires |a| == |b| && k <= |a|
    ensures XorBytes(a, b)[..k] == XorBytes(a[..k], b[..k]) && XorBytes(a, b)[k..] == XorBytes(a[k..], b[k..])
  {}

  /** A digest is right exactly when the random is that digest stamped with the time it carries. */
  lemma DigestMeansStamped(hmac: Hmac, key: bytes, raw: bytes, random: Random, ts: nat)
    requires |raw| >= RANDOM_END && ts < TWO_32
    ensures random == StampedRandom(hmac(key, Zeroed(raw)), ts)
       <==> DigestOk(hmac, key, raw, random) && TimeOf(hmac, key, raw, random) == ts
  {
    hide Bytes.LE32, Bytes.FromLE32, Bytes.XorByte, Bytes.XorWord, Zeroed, Bytes.XorBytes;
    var mac := hmac(key, Zeroed(raw));
    var m, x := FromLE32(mac[28..]), FromLE32(random[28..]);
    XorBytesSplit(mac, random, 28);
    ZeroXorMeansEqual(mac[..28], random[..28]);
    XorOfWords(mac[28..], random[28..]);
    assert TimeOf(hmac, key, raw, random) == XorWord(m, x) by { XorWordIsXor(m, x); }
    XorWordTwice(m, x);
    XorWordTwice(m, ts);
    LE32OfFromLE32(random[28..]);
    var stamped := StampedRandom(mac, ts);
    assert stamped[..28] == mac[..28] && stamped[28..] == LE32(XorWord(m, ts));
    assert random == random[..28] + random[28..] && stamped == stamped[..28] + stamped[28..];
  }

  lemma XorWordIsXor(a: nat, b: nat)
    requires a < TWO_32 && b < TWO_32
    ensures XorWord(a, b) == Xor(a, b)
  {}

  /** Validation accepts exactly the randoms stamped with the same key at a time within two minutes of now. */
  lemma ValidateMeansStamped(hmac: Hmac, key: bytes, raw: bytes, random: Random, now: int)
    requires |raw| >= RANDOM_END
    ensures Validate(hmac, key, raw, random, now) == Ok
       <==> exists ts: nat :: ts < TWO_32 && InWindow(now, ts) && random == StampedRandom(hmac(key, Zeroed(raw)), ts)
  {
    hide DigestOk, TimeOf, StampedRandom, Zeroed;
    var t := TimeOf(hmac, key, raw, random);
    DigestMeansStamped(hmac, key, raw, random, t);
    if ts: nat :| ts < TWO_32 && InWindow(now, ts) && random == StampedRandom(hmac(key, Zeroed(raw)), ts) {
      DigestMeansStamped(hmac, key, raw, random, ts);
    }
  }

  /** Stamping touches only the random, so the MAC input is the same on both sides. */
  lemma StampKeepsTheRest(hmac: Hmac, key: bytes, record: bytes, ts: nat)
    requires |record| >= RANDOM_END && ts < TWO_32
    ensures Zeroed(Stamp(hmac, key, record, ts)) == Zeroed(record)
  {
    hide StampedRandom;
  }

  lemma ShortIsRefused(hmac: Hmac, key: bytes, raw: bytes, random: Random, now: int)
    requires |raw| < 43
    ensures Validate(hmac, key, raw, random, now) != Ok
  {}

  /** A stamped record carries the time of the stamp. */
  lemma StampCarriesTime(hmac: Hmac, key: bytes, record: bytes, ts: nat)
    requires |record| >= RANDOM_END && ts < TWO_32
    ensures var raw := Stamp(hmac, key, record, ts);
            var random := raw[RANDOM_OFFSET..RANDOM_END];
            DigestOk(hmac, key, raw, random) && TimeOf(hmac, key, raw, random) == ts
  {
    hide DigestOk, TimeOf, StampedRandom, Zeroed;
    var raw := Stamp(hmac, key, record, ts);
    StampKeepsTheRest(hmac, key, record, ts);
    DigestMeansStamped(hmac, key, raw, raw[RANDOM_OFFSET..RANDOM_END], ts);
  }

  /** A stamped record validates with the same key exactly when the two clocks differ by at most two minutes. */
  lemma StampValidates(hmac: Hmac, key: bytes, record: bytes, ts: nat, now: int)
    requires |record| >= RANDOM_END && ts < TWO_32
    ensures var raw := Stamp(hmac, key, record, ts);
            Validate(hmac, key, raw, raw[RANDOM_OFFSET..RANDOM_END], now) == if InWindow(now, ts) then Ok else BadTimestamp
  {
    hide DigestOk, TimeOf, Stamp;
    StampCarriesTime(hmac, key, record, ts);
  }
}
