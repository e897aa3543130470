/**
 * The Lamport one-time signature scheme over a 32-byte digest: public-key
 * derivation, signing and verification, with the fixed in-memory layouts of
 * the secret key, the public key and the signature.
 */
module Lamport {
  import opened Bytes

  const BLOCK_SIZE: nat := 32
  const NUMBER_BLOCKS: nat := 256
  /** Bytes in one half of the secret key, and in the part of a signature that Sign writes. */
  const HALF_SIZE: nat := NUMBER_BLOCKS * BLOCK_SIZE
  /** Bytes in a public key: 512 digests. */
  const PUBLIC_KEY_SIZE: nat := 512 * BLOCK_SIZE
  /** Bytes in a signature as the type declares it: 256 * NUMBER_BLOCKS, eight times what Sign writes. */
  const SIGNATURE_SIZE: nat := 256 * NUMBER_BLOCKS

  /** Two halves of NUMBER_BLOCKS blocks of BLOCK_SIZE random bytes. */
  datatype SecretKey = SecretKey(key: seq<seq<byte>>) {
    /** The shape of the Go array type `[2][NUMBER_BLOCKS * BLOCK_SIZE]byte`. */
    predicate Valid() {
      |key| == 2 && |key[0]| == HALF_SIZE && |key[1]| == HALF_SIZE
    }
  }

  /** 512 digests: the half-0 digests, then the half-1 digests. */
  datatype PublicKey = PublicKey(key: seq<byte>) {
    predicate Valid() {
      |key| == PUBLIC_KEY_SIZE
    }
  }

  datatype Signature = Signature(signature: seq<byte>) {
    predicate Valid() {
      |signature| == SIGNATURE_SIZE
    }
  }

  /** The one failure of Sign and Verify (the source panics on it). */
  datatype Error = EmptyMessage

  datatype Result<T> = Ok(value: T) | Err(error: Error)

  /** Block(s, i): bytes [BLOCK_SIZE * i, BLOCK_SIZE * i + BLOCK_SIZE) of s. */
  function Block(s: seq<byte>, i: nat): (b: seq<byte>)
    requires BLOCK_SIZE * i + BLOCK_SIZE <= |s|
    ensures |b| == BLOCK_SIZE
  {
    s[BLOCK_SIZE * i .. BLOCK_SIZE * i + BLOCK_SIZE]
  }

  /** A block that lies inside the first m bytes of s is the same block of s[..m]. */
  lemma BlockOfPrefix(s: seq<byte>, m: nat, i: nat)
    requires BLOCK_SIZE * i + BLOCK_SIZE <= m <= |s|
    ensures Block(s[..m], i) == Block(s, i)
  {
    forall j | 0 <= j < BLOCK_SIZE
      ensures Block(s[..m], i)[j] == Block(s, i)[j]
    {
      assert Block(s[..m], i)[j] == s[..m][BLOCK_SIZE * i + j] == s[BLOCK_SIZE * i + j];
    }
  }

  /** Block i of half h of the secret key. */
  function SecretBlock(sk: SecretKey, h: nat, i: nat): (b: seq<byte>)
    requires sk.Valid() && h < 2 && i < NUMBER_BLOCKS
    ensures |b| == BLOCK_SIZE
  {
    Block(sk.key[h], i)
  }

  /** The digest the public key holds for block i of half h, at offset BLOCK_SIZE * (NUMBER_BLOCKS * h + i). */
  function PublicBlock(pk: PublicKey, h: nat, i: nat): (b: seq<byte>)
    requires pk.Valid() && h < 2 && i < NUMBER_BLOCKS
    ensures |b| == BLOCK_SIZE
  {
    Block(pk.key, NUMBER_BLOCKS * h + i)
  }

  /** pk is the public key of sk: every digest is the hash of the matching secret block. */
  ghost predicate DerivedFrom(pk: PublicKey, sk: SecretKey, hash: HashFunction)
    requires pk.Valid() && sk.Valid()
  {
    forall h, i | 0 <= h < 2 && 0 <= i < NUMBER_BLOCKS :: PublicBlock(pk, h, i) == hash(SecretBlock(sk, h, i))
  }

  /** sig is the signature of digest d under sk: block i is block i of the half that
      bit i of d selects, and every byte after the signed blocks is zero. */
  ghost predicate SignatureOf(sig: Signature, d: Digest, sk: SecretKey)
    requires sig.Valid() && sk.Valid()
  {
    && (forall i | 0 <= i < NUMBER_BLOCKS :: Block(sig.signature, i) == SecretBlock(sk, Bit(d, i), i))
    && (forall j | HALF_SIZE <= j < SIGNATURE_SIZE :: sig.signature[j] == 0)
  }

  /** Block i of sig hashes to the public-key digest that bit i of d selects. */
  ghost predicate BlockVerifies(sig: Signature, pk: PublicKey, d: Digest, hash: HashFunction, i: nat)
    requires sig.Valid() && pk.Valid() && i < NUMBER_BLOCKS
  {
    hash(Block(sig.signature, i)) == PublicBlock(pk, Bit(d, i), i)
  }

  /** Every block of sig verifies. */
  ghost predicate Accepts(sig: Signature, pk: PublicKey, d: Digest, hash: HashFunction)
    requires sig.Valid() && pk.Valid()
  {
    forall i | 0 <= i < NUMBER_BLOCKS :: BlockVerifies(sig, pk, d, hash, i)
  }

  /** The hash inputs of a Verify call on a non-empty message that hashed n signature
      blocks: the message, then signature blocks 0 .. n-1 in order. */
  ghost predicate HashedInOrder(hashed: seq<seq<byte>>, message: seq<byte>, sig: Signature)
    requires sig.Valid()
  {
    && 1 <= |hashed| <= NUMBER_BLOCKS + 1
    && hashed[0] == message
    && forall j | 1 <= j < |hashed| :: hashed[j] == Block(sig.signature, j - 1)
  }

  /** Appending one block to s, which holds n whole blocks, keeps blocks 0 .. n-1 and makes b block n. */
  lemma AppendBlock(s: seq<byte>, b: seq<byte>, n: nat)
    requires |s| == BLOCK_SIZE * n && |b| == BLOCK_SIZE
    ensures forall j | 0 <= j < n :: Block(s + b, j) == Block(s, j)
    ensures Block(s + b, n) == b
  {
    forall j | 0 <= j < n
      ensures Block(s + b, j) == Block(s, j)
    {
      assert (s + b)[BLOCK_SIZE * j .. BLOCK_SIZE * j + BLOCK_SIZE] == s[BLOCK_SIZE * j .. BLOCK_SIZE * j + BLOCK_SIZE];
    }
    assert (s + b)[|s|..] == b;
  }

  /** The first n digests of a public key under construction: digest j is the hash
      of block j mod NUMBER_BLOCKS of half j div NUMBER_BLOCKS. */
  ghost predicate DigestPrefix(s: seq<byte>, sk: SecretKey, hash: HashFunction, n: nat)
    requires sk.Valid() && n <= 2 * NUMBER_BLOCKS
  {
    && |s| == BLOCK_SIZE * n
    && forall j | 0 <= j < n :: Block(s, j) == hash(SecretBlock(sk, j / NUMBER_BLOCKS, j % NUMBER_BLOCKS))
  }

  lemma DigestPrefixStep(s: seq<byte>, sk: SecretKey, hash: HashFunction, n: nat)
    requires sk.Valid() && n < 2 * NUMBER_BLOCKS && DigestPrefix(s, sk, hash, n)
    ensures DigestPrefix(s + hash(SecretBlock(sk, n / NUMBER_BLOCKS, n % NUMBER_BLOCKS)), sk, hash, n + 1)
  {
    AppendBlock(s, hash(SecretBlock(sk, n / NUMBER_BLOCKS, n % NUMBER_BLOCKS)), n);
  }

  /** All 512 digests in place make the public key of sk. */
  lemma DigestPrefixComplete(s: seq<byte>, sk: SecretKey, hash: HashFunction)
    requires sk.Valid() && DigestPrefix(s, sk, hash, 2 * NUMBER_BLOCKS)
    ensures PublicKey(s).Valid() && DerivedFrom(PublicKey(s), sk, hash)
  {
    forall h, i | 0 <= h < 2 && 0 <= i < NUMBER_BLOCKS
      ensures PublicBlock(PublicKey(s), h, i) == hash(SecretBlock(sk, h, i))
    {
      var j := NUMBER_BLOCKS * h + i;
      assert j / NUMBER_BLOCKS == h && j % NUMBER_BLOCKS == i;
    }
  }

  /** The hash inputs of GenerateKeys after n digests: secret block j mod NUMBER_BLOCKS
      of half j div NUMBER_BLOCKS for every j < n, in order. */
  ghost predicate KeyBlocksHashed(hashed: seq<seq<byte>>, sk: SecretKey, n: nat)
    requires sk.Valid() && n <= 2 * NUMBER_BLOCKS
  {
    && |hashed| == n
    && forall j | 0 <= j < n :: hashed[j] == SecretBlock(sk, j / NUMBER_BLOCKS, j % NUMBER_BLOCKS)
  }

  /** The first n blocks of a signature under construction, as Sign appends them. */
  ghost predicate SignedPrefix(s: seq<byte>, d: Digest, sk: SecretKey, n: nat)
    requires sk.Valid() && n <= NUMBER_BLOCKS
  {
    && |s| == BLOCK_SIZE * n
    && forall i | 0 <= i < n :: Block(s, i) == SecretBlock(sk, Bit(d, i), i)
  }

  lemma SignedPrefixStep(s: seq<byte>, b: seq<byte>, d: Digest, sk: SecretKey, n: nat, half: nat)
    requires sk.Valid() && n < NUMBER_BLOCKS && SignedPrefix(s, d, sk, n)
    requires half == Bit(d, n) && b == SecretBlock(sk, half, n)
    ensures SignedPrefix(s + b, d, sk, n + 1)
  {
    AppendBlock(s, b, n);
  }

  /** The 256 signed blocks, followed by zeros up to the declared size, make the signature of d. */
  lemma SignedPrefixPadded(s: seq<byte>, full: seq<byte>, d: Digest, sk: SecretKey)
    requires sk.Valid() && SignedPrefix(s, d, sk, NUMBER_BLOCKS)
    requires |full| == SIGNATURE_SIZE
    requires forall j | 0 <= j < SIGNATURE_SIZE :: full[j] == if j < |s| then s[j] else 0
    ensures Signature(full).Valid() && SignatureOf(Signature(full), d, sk)
  {
    forall i | 0 <= i < NUMBER_BLOCKS
      ensures Block(full, i) == SecretBlock(sk, Bit(d, i), i)
    {
      assert full[..HALF_SIZE] == s;
      assert Block(full, i) == Block(s, i);
    }
  }

  /** The first n blocks of a signature have been checked and verify. */
  ghost predicate VerifiedPrefix(sig: Signature, pk: PublicKey, d: Digest, hash: HashFunction, n: nat)
    requires sig.Valid() && pk.Valid() && n <= NUMBER_BLOCKS
  {
    forall i | 0 <= i < n :: BlockVerifies(sig, pk, d, hash, i)
  }

  /** Block n is the first block of sig that does not verify. */
  ghost predicate RejectedAt(sig: Signature, pk: PublicKey, d: Digest, hash: HashFunction, n: nat)
    requires sig.Valid() && pk.Valid()
  {
    n < NUMBER_BLOCKS && VerifiedPrefix(sig, pk, d, hash, n) && !BlockVerifies(sig, pk, d, hash, n)
  }

  lemma HashedStep(hashed: seq<seq<byte>>, message: seq<byte>, sig: Signature, n: nat)
    requires sig.Valid() && n < NUMBER_BLOCKS
    requires HashedInOrder(hashed, message, sig) && |hashed| == n + 1
    ensures HashedInOrder(hashed + [Block(sig.signature, n)], message, sig)
    ensures |hashed + [Block(sig.signature, n)]| == n + 2
  {
  }


  /** One more hash input added to what a call has hashed so far, seen from the log. */
  lemma LogAppend(log0: seq<seq<byte>>, hashed: seq<seq<byte>>, x: seq<byte>)
    ensures log0 + hashed + [x] == log0 + (hashed + [x])
  {
  }

  /** Verify's progress after n blocks: the message and blocks 0 .. n-1 were hashed
      in order, and each of those blocks verifies. */
  ghost predicate Checked(hashed: seq<seq<byte>>, message: seq<byte>, sig: Signature, pk: PublicKey,
                          d: Digest, hash: HashFunction, n: nat)
    requires sig.Valid() && pk.Valid() && n <= NUMBER_BLOCKS
  {
    HashedInOrder(hashed, message, sig) && |hashed| == n + 1 && VerifiedPrefix(sig, pk, d, hash, n)
  }

  lemma CheckedStep(hashed: seq<seq<byte>>, message: seq<byte>, sig: Signature, pk: PublicKey,
                    d: Digest, hash: HashFunction, n: nat)
    requires sig.Valid() && pk.Valid() && n < NUMBER_BLOCKS
    requires Checked(hashed, message, sig, pk, d, hash, n) && BlockVerifies(sig, pk, d, hash, n)
    ensures Checked(hashed + [Block(sig.signature, n)], message, sig, pk, d, hash, n + 1)
  {
    HashedStep(hashed, message, sig, n);
  }

  /** A failing block n after n checked blocks: Verify's answer false is the right one. */
  lemma CheckedRejected(hashed: seq<seq<byte>>, message: seq<byte>, sig: Signature, pk: PublicKey,
                        d: Digest, hash: HashFunction, n: nat)
    requires sig.Valid() && pk.Valid() && n < NUMBER_BLOCKS
    requires Checked(hashed, message, sig, pk, d, hash, n) && !BlockVerifies(sig, pk, d, hash, n)
    ensures HashedInOrder(hashed + [Block(sig.signature, n)], message, sig)
    ensures |hashed + [Block(sig.signature, n)]| == n + 2
    ensures RejectedAt(sig, pk, d, hash, n) && !Accepts(sig, pk, d, hash)
  {
    HashedStep(hashed, message, sig, n);
  }

  /** All blocks checked: Verify's answer true is the right one. */
  lemma CheckedAccepted(hashed: seq<seq<byte>>, message: seq<byte>, sig: Signature, pk: PublicKey,
                        d: Digest, hash: HashFunction)
    requires sig.Valid() && pk.Valid() && Checked(hashed, message, sig, pk, d, hash, NUMBER_BLOCKS)
    ensures HashedInOrder(hashed, message, sig) && |hashed| == NUMBER_BLOCKS + 1
    ensures Accepts(sig, pk, d, hash)
  {
  }

  /**
   * GenerateKeys, with the random bytes read from the entropy device taken as
   * the input `randomness`: hashes every half-0 block, then every half-1 block,
   * appending the digests, and copies them into the 16384-byte public key.
   * `hashed` is what this call added to the hasher's log.
   */
  method GenerateKeys(h: Hasher, randomness: SecretKey) returns (sk: SecretKey, pk: PublicKey, ghost hashed: seq<seq<byte>>)
    requires randomness.Valid()
    modifies h
    ensures sk == randomness
    ensures pk.Valid() && DerivedFrom(pk, sk, h.sum256)
    ensures h.log == old(h.log) + hashed && KeyBlocksHashed(hashed, sk, 2 * NUMBER_BLOCKS)
  {
    hashed := [];
    var publicKey: seq<byte> := [];
    var index2: uint8 := 0;
    while index2 < 2
      invariant index2 <= 2
      invariant DigestPrefix(publicKey, randomness, h.sum256, NUMBER_BLOCKS * index2 as int)
      invariant h.log == old(h.log) + hashed && KeyBlocksHashed(hashed, randomness, NUMBER_BLOCKS * index2 as int)
    {
      var index: uint16 := 0;
      while index < 256
        invariant index <= 256
        invariant DigestPrefix(publicKey, randomness, h.sum256, NUMBER_BLOCKS * index2 as int + index as int)
        invariant h.log == old(h.log) + hashed && KeyBlocksHashed(hashed, randomness, NUMBER_BLOCKS * index2 as int + index as int)
      {
        ghost var n := NUMBER_BLOCKS * index2 as int + index as int;
        assert n / NUMBER_BLOCKS == index2 as int && n % NUMBER_BLOCKS == index as int;
        assert randomness.key[index2][index * 32 .. index * 32 + 32] == SecretBlock(randomness, index2 as int, index as int);
        var blockHash := h.Sum256(randomness.key[index2][index * 32 .. index * 32 + 32]);
        DigestPrefixStep(publicKey, randomness, h.sum256, n);
        publicKey := publicKey + blockHash;
        hashed := hashed + [SecretBlock(randomness, index2 as int, index as int)];
        index := index + 1;
      }
      index2 := index2 + 1;
    }
    var publicKey16K := ZeroedCopy(PUBLIC_KEY_SIZE, publicKey);
    assert publicKey16K == publicKey;
    DigestPrefixComplete(publicKey, randomness, h.sum256);
    sk := randomness;
    pk := PublicKey(publicKey16K);
  }

  /**
   * Sign: fails on the empty message before hashing anything; otherwise hashes
   * the message once, walks the 256 bits of its digest in canonical order and
   * appends, for bit i, block i of the half that the bit selects, then copies
   * the 8192 signed bytes to the front of the zeroed 65536-byte signature.
   */
  method Sign(h: Hasher, message: seq<byte>, secretKey: SecretKey) returns (r: Result<Signature>)
    requires secretKey.Valid()
    modifies h
    ensures message == [] <==> r == Err(EmptyMessage)
    ensures message == [] ==> h.log == old(h.log)
    ensures message != [] ==> h.log == old(h.log) + [message]
    ensures r.Ok? ==> r.value.Valid() && SignatureOf(r.value, h.sum256(message), secretKey)
  {
    if message == [] {
      r := Err(EmptyMessage);
      return;
    }
    var messageHash := GetHash(h, message);
    ghost var logSigned := h.log;

    var signature: seq<byte> := [];
    var secretKeyIterator: uint16 := 0;
    var byteIterator: uint8 := 0;
    while byteIterator < 32
      invariant byteIterator <= 32
      invariant h.log == logSigned
      invariant secretKeyIterator as int == BLOCK_SIZE * 8 * byteIterator as int
      invariant SignedPrefix(signature, messageHash, secretKey, 8 * byteIterator as int)
    {
      var bitMask: byte := 1;
      ghost var k: nat := 0;
      while bitMask <= 128
        invariant k < 8 && bitMask == Mask(k)
        invariant h.log == logSigned
        invariant secretKeyIterator as int == BLOCK_SIZE * (8 * byteIterator as int + k)
        invariant SignedPrefix(signature, messageHash, secretKey, 8 * byteIterator as int + k)
        decreases 8 - k
      {
        ghost var n := 8 * byteIterator as int + k;
        MaskSelectsBit(messageHash[byteIterator], k);
        BitIndex(messageHash, byteIterator as nat, k);
        if (bitMask & messageHash[byteIterator]) == 0 {
          SignedPrefixStep(signature, secretKey.key[0][secretKeyIterator .. secretKeyIterator + 32], messageHash, secretKey, n, 0);
          signature := signature + secretKey.key[0][secretKeyIterator .. secretKeyIterator + 32];
        } else {
          SignedPrefixStep(signature, secretKey.key[1][secretKeyIterator .. secretKeyIterator + 32], messageHash, secretKey, n, 1);
          signature := signature + secretKey.key[1][secretKeyIterator .. secretKeyIterator + 32];
        }
        secretKeyIterator := secretKeyIterator + 32;
        MaskStep(k);
        if bitMask == 128 {
          assert n + 1 == 8 * (byteIterator as int + 1);
          assert SignedPrefix(signature, messageHash, secretKey, 8 * (byteIterator as int + 1));
          break;
        }
        bitMask := bitMask * 2;
        k := k + 1;
      }
      byteIterator := byteIterator + 1;
    }

    var sig := ZeroedCopy(SIGNATURE_SIZE, signature);
    SignedPrefixPadded(signature, sig, messageHash, secretKey);
    r := Ok(Signature(sig));
  }

  /**
   * The body of Verify's inner loop for bit n = 8 * byteIterator + k: hashes
   * signature block n, and only it, and compares the digest with the public-key
   * bytes at offset signatureIterator when the masked bit is 0, or at offset
   * signatureIterator + 8192 when it is 1.
   */
  method CompareBlock(h: Hasher, messageHash: Digest, byteIterator: uint8, bitMask: byte,
                      signatureIterator: uint16, signature: Signature, publicKey: PublicKey, ghost k: nat, ghost n: nat)
    returns (matches: bool)
    requires signature.Valid() && publicKey.Valid()
    requires byteIterator < 32 && k < 8 && bitMask == Mask(k) && n == 8 * byteIterator as int + k
    requires signatureIterator as int == BLOCK_SIZE * n
    modifies h
    ensures matches == BlockVerifies(signature, publicKey, messageHash, h.sum256, n)
    ensures h.log == old(h.log) + [Block(signature.signature, n)]
  {
    MaskSelectsBit(messageHash[byteIterator], k);
    BitIndex(messageHash, byteIterator as nat, k);
    assert signature.signature[signatureIterator .. signatureIterator + 32] == Block(signature.signature, n);
    if (bitMask & messageHash[byteIterator]) == 0 {
      var signatureBlockHash := GetHash(h, signature.signature[signatureIterator .. signatureIterator + 32]);
      assert publicKey.key[signatureIterator .. signatureIterator + 32] == PublicBlock(publicKey, 0, n);
      matches := publicKey.key[signatureIterator .. signatureIterator + 32] == signatureBlockHash;
    } else {
      var signatureBlockHash := GetHash(h, signature.signature[signatureIterator .. signatureIterator + 32]);
      assert publicKey.key[signatureIterator + 8192 .. signatureIterator + 32 + 8192] == PublicBlock(publicKey, 1, n);
      matches := publicKey.key[signatureIterator + 8192 .. signatureIterator + 32 + 8192] == signatureBlockHash;
    }
  }

  /**
   * Verify: fails on the empty message before hashing anything; otherwise walks
   * the same bit order, hashes signature block i and compares it with the
   * public-key digest at offset 32 * i (bit 0) or 8192 + 32 * i (bit 1),
   * returning false at the first mismatch. `hashed` is what this call added to
   * the hasher's log, so it shows which signature blocks were read.
   */
  method Verify(h: Hasher, message: seq<byte>, signature: Signature, publicKey: PublicKey)
    returns (r: Result<bool>, ghost hashed: seq<seq<byte>>)
    requires signature.Valid() && publicKey.Valid()
    modifies h
    ensures h.log == old(h.log) + hashed
    ensures message == [] <==> r == Err(EmptyMessage)
    ensures message == [] ==> hashed == []
    ensures message != [] ==> r == Ok(Accepts(signature, publicKey, h.sum256(message), h.sum256))
    ensures message != [] ==> HashedInOrder(hashed, message, signature)
    ensures r == Ok(true) ==> |hashed| == NUMBER_BLOCKS + 1
    ensures r == Ok(false) ==> |hashed| >= 2 && RejectedAt(signature, publicKey, h.sum256(message), h.sum256, |hashed| - 2)
  {
    ghost var log0 := h.log;
    hashed := [];
    if message == [] {
      assert log0 + hashed == log0;
      r := Err(EmptyMessage);
      return;
    }
    var messageHash := GetHash(h, message);
    hashed := [message];
    ghost var hash := h.sum256;

    var signatureIterator: uint16 := 0;
    var byteIterator: uint8 := 0;
    while byteIterator < 32
      invariant byteIterator <= 32
      invariant h.log == log0 + hashed
      invariant signatureIterator as int == BLOCK_SIZE * 8 * byteIterator as int
      invariant Checked(hashed, message, signature, publicKey, messageHash, hash, 8 * byteIterator as int)
    {
      var bitMask: byte := 1;
      ghost var k: nat := 0;
      while bitMask <= 128
        invariant k < 8 && bitMask == Mask(k)
        invariant h.log == log0 + hashed
        invariant signatureIterator as int == BLOCK_SIZE * (8 * byteIterator as int + k)
        invariant Checked(hashed, message, signature, publicKey, messageHash, hash, 8 * byteIterator as int + k)
        decreases 8 - k
      {
        ghost var n := 8 * byteIterator as int + k;
        var matches := CompareBlock(h, messageHash, byteIterator, bitMask, signatureIterator, signature, publicKey, k, n);
        LogAppend(log0, hashed, Block(signature.signature, n));
        if !matches {
          CheckedRejected(hashed, message, signature, publicKey, messageHash, hash, n);
          hashed := hashed + [Block(signature.signature, n)];
          r := Ok(false);
          return;
        }
        CheckedStep(hashed, message, signature, publicKey, messageHash, hash, n);
        hashed := hashed + [Block(signature.signature, n)];
        signatureIterator := signatureIterator + 32;
        MaskStep(k);
        if bitMask == 128 {
          assert signatureIterator as int == BLOCK_SIZE * 8 * (byteIterator as int + 1);
          assert Checked(hashed, message, signature, publicKey, messageHash, hash, 8 * (byteIterator as int + 1));
          break;
        }
        bitMask := bitMask * 2;
        k := k + 1;
      }
      byteIterator := byteIterator + 1;
    }
    CheckedAccepted(hashed, message, signature, publicKey, messageHash, hash);
    r := Ok(true);
  }
}
