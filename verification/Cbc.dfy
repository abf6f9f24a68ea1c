/**
  cbcConn of internal/middleproxy/crypto.go: AES-CBC (NIST SP 800-38A section 6.2) over TCP,
  with a plaintext buffer between reads of any size.
  */
module Cbc {
  import opened Bytes
  import opened Net

  const BLOCK := 16

  type Block = b: bytes | |b| == BLOCK witness seq(BLOCK, _ => 0)

  datatype BlockFunctions = BlockFunctions(encrypt: Block -> Block, decrypt: Block -> Block) {
    ghost predicate Inverse() {
      forall b: Block :: decrypt(encrypt(b)) == b
    }
  }

  /** A keyed block cipher; the only law is that decryption inverts encryption. */
  type Cipher = c: BlockFunctions | c.Inverse() witness BlockFunctions((b: Block) => b, (b: Block) => b)

  function XorBlock(a: Block, b: Block): (r: Block)
  {
    XorBytes(a, b)
  }

  predicate Aligned(s: bytes) {
    |s| % BLOCK == 0
  }

  function Encrypt(c: Cipher, iv: Block, p: bytes): (s: bytes)
    requires Aligned(p)
    ensures |s| == |p|
    decreases |p|
  {
    if p == [] then []
    else
      var b := c.encrypt(XorBlock(p[..BLOCK], iv));
      b + Encrypt(c, b, p[BLOCK..])
  }

  function Decrypt(c: Cipher, iv: Block, s: bytes): (p: bytes)
    requires Aligned(s)
    ensures |p| == |s|
    decreases |s|
  {
    if s == [] then []
    else XorBlock(c.decrypt(s[..BLOCK]), iv) + Decrypt(c, s[..BLOCK], s[BLOCK..])
  }

  /** The chaining value after ciphertext s: its last block, or the iv if there is none. */
  function Chain(iv: Block, s: bytes): (r: Block)
    requires Aligned(s)
  {
    if s == [] then iv else s[|s| - BLOCK..]
  }

  lemma AlignedAppend(s: bytes, t: bytes)
    requires Aligned(s) && Aligned(t)
    ensures Aligned(s + t)
  {}

  // ---------------------------------------------------------------------------
  // CBC is a stream transformation: it splits at every block boundary and inverts
  // ---------------------------------------------------------------------------

  lemma ChainAppend(iv: Block, s: bytes, t: bytes)
    requires Aligned(s) && Aligned(t)
    ensures Aligned(s + t) && Chain(iv, s + t) == Chain(Chain(iv, s), t)
  {
    if t == [] {
      assert s + t == s;
    } else {
      assert (s + t)[|s + t| - BLOCK..] == t[|t| - BLOCK..];
    }
  }

  lemma ChainOfNothing(iv: Block)
    ensures Chain(iv, []) == iv
  {}

  lemma ChainOfBlock(iv: Block, b: Block)
    ensures Chain(iv, b) == b
  {}

  /** Encrypting the rest of a text begins with its next block. */
  lemma EncryptStep(c: Cipher, iv: Block, p: bytes, k: nat)
    requires Aligned(p) && k % BLOCK == 0 && k < |p|
    ensures var b := c.encrypt(XorBlock(p[k..k + BLOCK], iv));
            var s := Encrypt(c, iv, p[k..]);
            b <= s && s[BLOCK..] == Encrypt(c, b, p[k + BLOCK..])
  {
    hide XorBlock;
    assert p[k..][..BLOCK] == p[k..k + BLOCK] && p[k..][BLOCK..] == p[k + BLOCK..];
  }

  lemma {:induction false} EncryptAppend(c: Cipher, iv: Block, p: bytes, q: bytes)
    requires Aligned(p) && Aligned(q)
    ensures Aligned(p + q)
    ensures Encrypt(c, iv, p + q) == Encrypt(c, iv, p) + Encrypt(c, Chain(iv, Encrypt(c, iv, p)), q)
    decreases |p|
  {
    if p == [] {
      assert p + q == q;
    } else {
      assert (p + q)[..BLOCK] == p[..BLOCK] && (p + q)[BLOCK..] == p[BLOCK..] + q;
      var b := c.encrypt(XorBlock(p[..BLOCK], iv));
      EncryptAppend(c, b, p[BLOCK..], q);
      ChainAppend(iv, b, Encrypt(c, b, p[BLOCK..]));
    }
  }

  lemma {:induction false} DecryptAppend(c: Cipher, iv: Block, s: bytes, t: bytes)
    requires Aligned(s) && Aligned(t)
    ensures Aligned(s + t)
    ensures Decrypt(c, iv, s + t) == Decrypt(c, iv, s) + Decrypt(c, Chain(iv, s), t)
    decreases |s|
  {
    hide XorBlock, Chain;
    AlignedAppend(s, t);
    if s == [] {
      assert s + t == t;
      assert Chain(iv, s) == iv by { ChainOfNothing(iv); }
    } else {
      assert (s + t)[..BLOCK] == s[..BLOCK] && (s + t)[BLOCK..] == s[BLOCK..] + t;
      DecryptAppend(c, s[..BLOCK], s[BLOCK..], t);
      ChainAppend(iv, s[..BLOCK], s[BLOCK..]);
      ChainOfBlock(iv, s[..BLOCK]);
      assert s[..BLOCK] + s[BLOCK..] == s;
    }
  }

  lemma {:induction false} DecryptInvertsEncrypt(c: Cipher, iv: Block, p: bytes)
    requires Aligned(p)
    ensures Decrypt(c, iv, Encrypt(c, iv, p)) == p
    decreases |p|
  {
    if p == [] {
    } else {
      var x := XorBlock(p[..BLOCK], iv);
      var b := c.encrypt(x);
      var s := Encrypt(c, iv, p);
      assert s[..BLOCK] == b && s[BLOCK..] == Encrypt(c, b, p[BLOCK..]);
      DecryptInvertsEncrypt(c, b, p[BLOCK..]);
      XorBytesCancels(p[..BLOCK], iv);
      assert c.decrypt(b) == x;
    }
  }

  // ---------------------------------------------------------------------------
  // Block by block, as NIST SP 800-38A section 6.2 has it
  // ---------------------------------------------------------------------------

  /** What goes into the exclusive or at block k: the ciphertext block before it, or the iv. */
  function Before(iv: Block, s: bytes, k: nat): (r: Block)
    requires k % 16 == 0 && k <= |s|
  {
    if k == 0 then iv else s[k - 16..k]
  }

  ghost predicate Enciphered(c: Cipher, iv: Block, p: bytes, s: bytes, k: nat)
    requires |p| == |s| && k % 16 == 0 && k + 16 <= |p|
  {
    s[k..k + 16] == c.encrypt(XorBytes(p[k..k + 16], Before(iv, s, k)))
  }

  ghost predicate Deciphered(c: Cipher, iv: Block, s: bytes, p: bytes, k: nat)
    requires |p| == |s| && k % 16 == 0 && k + 16 <= |p|
  {
    p[k..k + 16] == XorBytes(c.decrypt(s[k..k + 16]), Before(iv, s, k))
  }

  /** Every block of s is the encryption of the block of p, xored with the block of s before it. */
  ghost predicate EnciphersTo(c: Cipher, iv: Block, p: bytes, s: bytes) {
    |p| == |s| && |s| % 16 == 0 && forall k :: 0 <= k < |p| && k % 16 == 0 ==> Enciphered(c, iv, p, s, k)
  }

  /** Every block of p is the decryption of the block of s, xored with the block of s before it. */
  ghost predicate DeciphersTo(c: Cipher, iv: Block, s: bytes, p: bytes) {
    |p| == |s| && |s| % 16 == 0 && forall k :: 0 <= k < |s| && k % 16 == 0 ==> Deciphered(c, iv, s, p, k)
  }

  /** The blocks behind the first one, seen from the rest. */
  lemma BlockOfRest(s: bytes, k: nat)
    requires 16 <= k && k % 16 == 0 && k + 16 <= |s|
    ensures s[16..][k - 16..k] == s[k..k + 16]
    ensures k > 16 ==> s[16..][k - 32..k - 16] == s[k - 16..k]
  {}

  lemma {:induction false} EncryptBlockwise(c: Cipher, iv: Block, p: bytes)
    requires Aligned(p)
    ensures EnciphersTo(c, iv, p, Encrypt(c, iv, p))
    decreases |p|
  {
    if p != [] {
      var s := Encrypt(c, iv, p);
      EncryptBlockwise(c, s[..16], p[16..]);
      forall k | 16 <= k < |p| && k % 16 == 0 ensures Enciphered(c, iv, p, s, k) {
        BlockOfRest(s, k);
        BlockOfRest(p, k);
        assert Enciphered(c, s[..16], p[16..], s[16..], k - 16);
      }
    }
  }

  lemma {:induction false} DecryptBlockwise(c: Cipher, iv: Block, s: bytes)
    requires Aligned(s)
    ensures DeciphersTo(c, iv, s, Decrypt(c, iv, s))
    decreases |s|
  {
    if s != [] {
      var p := Decrypt(c, iv, s);
      DecryptBlockwise(c, s[..16], s[16..]);
      forall k | 16 <= k < |s| && k % 16 == 0 ensures Deciphered(c, iv, s, p, k) {
        BlockOfRest(s, k);
        BlockOfRest(p, k);
        assert Deciphered(c, s[..16], s[16..], p[16..], k - 16);
      }
    }
  }

  // ---------------------------------------------------------------------------
  // The connection
  // ---------------------------------------------------------------------------

  /** alignedCipherReadSize: how much ciphertext to read for `need` more plaintext bytes. */
  function AlignedCipherReadSize(need: int): (r: nat)
    ensures r % BLOCK == 0 && r > 0
    ensures need <= r && (if need > 0 then r < need + 16 else r == 16)
  {
    if need <= 0 then BLOCK
    else if need % BLOCK != 0 then need + (BLOCK - need % BLOCK)
    else need
  }

  /** The whole blocks of a ciphertext stream. */
  function WholeBlocks(s: bytes): (r: bytes)
    ensures Aligned(r) && r <= s && |s| - |r| < BLOCK
  {
    s[..|s| - |s| % BLOCK]
  }

  class CbcConn {
    const conn: TcpConn
    const enc: Cipher
    const dec: Cipher
    // Chaining values of the two block modes.
    var encIV: Block
    var decIV: Block
    // Decrypted, not yet delivered.
    var buf: bytes

    constructor (conn: TcpConn, enc: Cipher, encIV: Block, dec: Cipher, decIV: Block)
      ensures this.conn == conn && this.enc == enc && this.dec == dec
      ensures this.encIV == encIV && this.decIV == decIV && buf == [] && Valid()
    {
      this.conn, this.enc, this.dec := conn, enc, dec;
      this.encIV, this.decIV, this.buf := encIV, decIV, [];
    }

    /** Between calls less than a block of plaintext is buffered. */
    ghost predicate Valid()
      reads this
    {
      |buf| < BLOCK
    }

    /** The plaintext this end will be able to read before the stream runs dry. */
    ghost function Readable(): (s: bytes)
      reads this, conn
    {
      buf + Decrypt(dec, decIV, WholeBlocks(conn.incoming))
    }

    /** Behind what is buffered, that is the incoming ciphertext deciphered block by block. */
    lemma ReadableIsDeciphered()
      ensures buf <= Readable() && DeciphersTo(dec, decIV, WholeBlocks(conn.incoming), Readable()[|buf|..])
    {
      hide Decrypt, WholeBlocks, DeciphersTo;
      DecryptBlockwise(dec, decIV, WholeBlocks(conn.incoming));
      assert Readable()[|buf|..] == Decrypt(dec, decIV, WholeBlocks(conn.incoming));
    }

    /** Rejects a partial block; otherwise the peer's decryption of what is sent grows by exactly p. */
    method Write(p: bytes) returns (ok: bool)
      modifies this`encIV, conn`sent
      ensures ok == Aligned(p)
      ensures ok ==> conn.sent == old(conn.sent) + Encrypt(enc, old(encIV), p)
      ensures ok ==> encIV == Chain(old(encIV), Encrypt(enc, old(encIV), p))
      ensures ok ==> EnciphersTo(enc, old(encIV), p, conn.sent[|old(conn.sent)|..])
      ensures !ok ==> conn.sent == old(conn.sent) && encIV == old(encIV)
    {
      hide Encrypt, Chain, XorBlock, Bytes.Delivered, EnciphersTo;
      if |p| % BLOCK != 0 { return false; }
      var out: bytes := [];
      var k := 0;
      ghost var all := Encrypt(enc, encIV, p);
      assert p[0..] == p;
      NothingDelivered(all);
      ChainOfNothing(encIV);
      while k < |p|
        invariant 0 <= k <= |p| && k % BLOCK == 0 && |out| == k
        invariant Delivered(out, Encrypt(enc, encIV, p[k..]), all)
        invariant encIV == Chain(old(encIV), out) && conn.sent == old(conn.sent)
      {
        var b := enc.encrypt(XorBlock(p[k..k + BLOCK], encIV));
        EncryptStep(enc, encIV, p, k);
        DeliverPiece(out, Encrypt(enc, encIV, p[k..]), all, b);
        ChainAppend(old(encIV), out, b);
        ChainOfBlock(Chain(old(encIV), out), b);
        out := out + b;
        encIV := b;
        k := k + BLOCK;
      }
      DeliveredParts(out, Encrypt(enc, encIV, p[k..]), all);
      conn.Write(out);
      ok := true;
      EncryptBlockwise(enc, old(encIV), p);
      assert conn.sent[|old(conn.sent)|..] == out;
    }

    /** CryptBlocks of the decrypting mode. */
    method DecryptBlocks(s: bytes) returns (p: bytes)
      requires Aligned(s)
      modifies this`decIV
      ensures p == Decrypt(dec, old(decIV), s)
      ensures decIV == Chain(old(decIV), s)
    {
      p := [];
      var k := 0;
      while k < |s|
        invariant 0 <= k <= |s| && k % BLOCK == 0
        invariant Decrypt(dec, old(decIV), s) == p + Decrypt(dec, decIV, s[k..])
        invariant decIV == Chain(old(decIV), s[..k])
      {
        var b: Block := s[k..k + BLOCK];
        assert s[k..][..BLOCK] == b && s[k..][BLOCK..] == s[k + BLOCK..];
        assert s[..k + BLOCK] == s[..k] + b;
        ChainAppend(old(decIV), s[..k], b);
        p := p + XorBlock(dec.decrypt(b), decIV);
        decIV := b;
        k := k + BLOCK;
      }
      assert s[..k] == s;
    }

    /** Decrypts until n bytes are buffered, reading no block that is not needed. */
    method EnsurePlain(n: nat) returns (ok: bool)
      modifies this`decIV, this`buf, conn`incoming
      ensures ok == (n <= |old(Readable())|)
      ensures ok ==> Readable() == old(Readable()) && n <= |buf|
      ensures ok ==> |buf| < if n <= |old(buf)| then |old(buf)| + 1 else n + BLOCK
      ensures ok ==> ConsumedWhole(|old(conn.incoming)| - |conn.incoming|, |buf| - |old(buf)|)
      ensures !ok ==> conn.incoming == [] && buf == old(buf)
    {
      hide Decrypt, WholeBlocks, Chain;
      while |buf| < n
        invariant Readable() == old(Readable())
        invariant |buf| < if n <= |old(buf)| then |old(buf)| + 1 else n + BLOCK
        invariant buf == old(buf) || n <= |buf|
        invariant ConsumedWhole(|old(conn.incoming)| - |conn.incoming|, |buf| - |old(buf)|)
        decreases n - |buf|
      {
        var cipherLen := AlignedCipherReadSize(n - |buf|);
        ghost var before := conn.incoming;
        var r := conn.ReadFull(cipherLen);
        if r == None {
          WholeBlocksLength(before);
          return false;
        }
        var s := r.value;
        SplitOffBlocks(dec, decIV, before, cipherLen);
        var p := DecryptBlocks(s);
        assert (buf + p) + Decrypt(dec, decIV, WholeBlocks(conn.incoming))
            == buf + (p + Decrypt(dec, decIV, WholeBlocks(conn.incoming)));
        buf := buf + p;
      }
      ok := true;
    }

    /** Read fills all of an n-byte buffer or reports the end; less than a block stays buffered. */
    method Read(n: nat) returns (r: Option<bytes>)
      requires Valid()
      modifies this`decIV, this`buf, conn`incoming
      ensures n <= |old(Readable())| ==>
                r == Some(old(Readable())[..n]) && Readable() == old(Readable())[n..]
      ensures n > |old(Readable())| ==> r == None && conn.incoming == [] && buf == old(buf)
      ensures Valid()
      ensures r.Some? ==> ConsumedWhole(|old(conn.incoming)| - |conn.incoming|, n + |buf| - |old(buf)|)
    {
      if n == 0 { return Some([]); }
      var ok := EnsurePlain(n);
      if !ok { return None; }
      ghost var rest := Decrypt(dec, decIV, WholeBlocks(conn.incoming));
      assert (buf + rest)[..n] == buf[..n] && (buf + rest)[n..] == buf[n..] + rest;
      r, buf := Some(buf[..n]), buf[n..];
    }

    /**
      Any run of successful reads from a fresh connection: the plaintext arrives in order, and after
      T delivered bytes exactly T rounded up to a whole block of ciphertext has been consumed.
      */
    method ReadMany(sizes: seq<nat>) returns (data: bytes)
      requires buf == [] && Total(sizes) <= |Readable()|
      modifies this`decIV, this`buf, conn`incoming
      ensures data == old(Readable())[..Total(sizes)]
      ensures Readable() == old(Readable())[Total(sizes)..]
      ensures |old(conn.incoming)| - |conn.incoming| == (Total(sizes) + BLOCK - 1) / BLOCK * BLOCK
    {
      hide Decrypt, WholeBlocks, Bytes.Delivered, ConsumedWhole;
      ConsumedNothing();
      ghost var all := Readable();
      NothingDelivered(all);
      data := [];
      var rest := sizes;
      while rest != []
        invariant Total(sizes) == |data| + Total(rest)
        invariant Delivered(data, Readable(), all)
        invariant Valid() && ConsumedWhole(|old(conn.incoming)| - |conn.incoming|, |data| + |buf|)
        decreases |rest|
      {
        ghost var left := Readable();
        DeliveredParts(data, left, all);
        ghost var inc, b := |conn.incoming|, |buf|;
        var r := Read(rest[0]);
        ConsumedTwice(|old(conn.incoming)| - inc, |data| + b, inc - |conn.incoming|, rest[0] + |buf| - b);
        DeliverPiece(data, left, all, r.value);
        data, rest := data + r.value, rest[1..];
      }
      DeliveredParts(data, Readable(), all);
      BlocksConsumed(|old(conn.incoming)| - |conn.incoming|, Total(sizes), |buf|);
    }
  }

  lemma WholeBlocksLength(s: bytes)
    ensures |WholeBlocks(s)| == |s| - |s| % BLOCK
  {}

  /** Ciphertext leaves the connection in whole blocks, each worth a block of plaintext. */
  predicate ConsumedWhole(consumed: int, produced: int) {
    consumed == produced && consumed % BLOCK == 0
  }

  lemma ConsumedNothing()
    ensures ConsumedWhole(0, 0)
  {}

  lemma ConsumedTwice(a: int, p: int, b: int, q: int)
    requires ConsumedWhole(a, p) && ConsumedWhole(b, q)
    ensures ConsumedWhole(a + b, p + q)
  {}

  lemma BlocksConsumed(consumed: int, delivered: nat, left: nat)
    requires ConsumedWhole(consumed, delivered + left) && left < BLOCK
    ensures consumed == (delivered + BLOCK - 1) / BLOCK * BLOCK
  {}

  function Total(sizes: seq<nat>): (n: nat)
  {
    if sizes == [] then 0 else sizes[0] + Total(sizes[1..])
  }

  /** The ciphertext of a run of writes, each continuing the chain of the one before. */
  function EncryptRun(c: Cipher, iv: Block, writes: seq<bytes>): (s: bytes)
    requires forall w :: w in writes ==> Aligned(w)
    ensures Aligned(s)
    decreases |writes|
  {
    if writes == [] then []
    else
      var s := Encrypt(c, iv, writes[0]);
      var t := EncryptRun(c, Chain(iv, s), writes[1..]);
      AlignedAppend(s, t);
      s + t
  }

  /** However the sender cuts its stream into writes, the receiver decrypts the concatenation. */
  lemma {:induction false} EncryptRunIsStream(c: Cipher, iv: Block, writes: seq<bytes>)
    requires forall w :: w in writes ==> Aligned(w)
    ensures Aligned(Concat(writes))
    ensures EncryptRun(c, iv, writes) == Encrypt(c, iv, Concat(writes))
    ensures Decrypt(c, iv, EncryptRun(c, iv, writes)) == Concat(writes)
    decreases |writes|
  {
    if writes == [] {
    } else {
      var s := Encrypt(c, iv, writes[0]);
      EncryptRunIsStream(c, Chain(iv, s), writes[1..]);
      EncryptAppend(c, iv, writes[0], Concat(writes[1..]));
      DecryptInvertsEncrypt(c, iv, Concat(writes));
    }
  }

  lemma SplitOffBlocks(c: Cipher, iv: Block, s: bytes, k: nat)
    requires k % BLOCK == 0 && k <= |s|
    ensures Decrypt(c, iv, WholeBlocks(s))
         == Decrypt(c, iv, s[..k]) + Decrypt(c, Chain(iv, s[..k]), WholeBlocks(s[k..]))
  {
    assert WholeBlocks(s) == s[..k] + WholeBlocks(s[k..]);
    DecryptAppend(c, iv, s[..k], WholeBlocks(s[k..]));
  }
}
