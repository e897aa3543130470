/**
 * What signing and verification promise together: a signature made with a
 * secret key is accepted under the public key derived from it, signatures and
 * public keys are determined by their inputs, and verification never looks
 * at the signature bytes that Sign leaves zero.
 */
module RoundTrip {
  import opened Bytes
  import opened Lamport

  /** A signature of d under sk is accepted for d under the public key derived from sk. */
  lemma SignedIsAccepted(hash: HashFunction, sk: SecretKey, pk: PublicKey, sig: Signature, d: Digest)
    requires sk.Valid() && pk.Valid() && sig.Valid()
    requires DerivedFrom(pk, sk, hash) && SignatureOf(sig, d, sk)
    ensures Accepts(sig, pk, d, hash)
  {
    forall i | 0 <= i < NUMBER_BLOCKS
      ensures BlockVerifies(sig, pk, d, hash, i)
    {
      var h := Bit(d, i);
      assert Block(sig.signature, i) == SecretBlock(sk, h, i);
      assert PublicBlock(pk, h, i) == hash(SecretBlock(sk, h, i));
    }
  }

  /** Two byte strings of the same length that agree on their first n blocks and on
      every byte after them are equal. */
  lemma BlocksDetermine(a: seq<byte>, b: seq<byte>, n: nat)
    requires |a| == |b| && BLOCK_SIZE * n <= |a|
    requires forall i | 0 <= i < n :: Block(a, i) == Block(b, i)
    requires forall j | BLOCK_SIZE * n <= j < |a| :: a[j] == b[j]
    ensures a == b
  {
    forall j | 0 <= j < |a|
      ensures a[j] == b[j]
    {
      if j < BLOCK_SIZE * n {
        var i := j / BLOCK_SIZE;
        assert BLOCK_SIZE * i <= j < BLOCK_SIZE * i + BLOCK_SIZE;
        assert Block(a, i)[j - BLOCK_SIZE * i] == a[j];
        assert Block(b, i)[j - BLOCK_SIZE * i] == b[j];
      }
    }
  }

  /** Determinism of Sign: the signature of a digest under a secret key is unique. */
  lemma SignatureDetermined(sig1: Signature, sig2: Signature, d: Digest, sk: SecretKey)
    requires sk.Valid() && sig1.Valid() && sig2.Valid()
    requires SignatureOf(sig1, d, sk) && SignatureOf(sig2, d, sk)
    ensures sig1 == sig2
  {
    BlocksDetermine(sig1.signature, sig2.signature, NUMBER_BLOCKS);
  }

  /** The 512 digests fill the public key: it is determined by the secret key. */
  lemma PublicKeyDetermined(pk1: PublicKey, pk2: PublicKey, sk: SecretKey, hash: HashFunction)
    requires sk.Valid() && pk1.Valid() && pk2.Valid()
    requires DerivedFrom(pk1, sk, hash) && DerivedFrom(pk2, sk, hash)
    ensures pk1 == pk2
  {
    forall j | 0 <= j < 2 * NUMBER_BLOCKS
      ensures Block(pk1.key, j) == Block(pk2.key, j)
    {
      var h, i := j / NUMBER_BLOCKS, j % NUMBER_BLOCKS;
      assert PublicBlock(pk1, h, i) == hash(SecretBlock(sk, h, i)) == PublicBlock(pk2, h, i);
    }
    BlocksDetermine(pk1.key, pk2.key, 2 * NUMBER_BLOCKS);
  }

  /** Acceptance depends only on the first 8192 bytes of the signature. */
  lemma AcceptsIgnoresTail(sig1: Signature, sig2: Signature, pk: PublicKey, d: Digest, hash: HashFunction)
    requires sig1.Valid() && sig2.Valid() && pk.Valid()
    requires sig1.signature[..HALF_SIZE] == sig2.signature[..HALF_SIZE]
    ensures Accepts(sig1, pk, d, hash) <==> Accepts(sig2, pk, d, hash)
  {
    forall i | 0 <= i < NUMBER_BLOCKS
      ensures Block(sig1.signature, i) == Block(sig2.signature, i)
    {
      BlockOfPrefix(sig1.signature, HALF_SIZE, i);
      BlockOfPrefix(sig2.signature, HALF_SIZE, i);
    }
    assert forall i | 0 <= i < NUMBER_BLOCKS ::
      BlockVerifies(sig1, pk, d, hash, i) == BlockVerifies(sig2, pk, d, hash, i);
  }

  /** Every signature block that Verify hashes lies within the first 8192 bytes. */
  lemma HashedWithinSigned(hashed: seq<seq<byte>>, message: seq<byte>, sig: Signature)
    requires sig.Valid() && HashedInOrder(hashed, message, sig)
    ensures forall j | 1 <= j < |hashed| :: hashed[j] == Block(sig.signature[..HALF_SIZE], j - 1)
  {
    forall j | 1 <= j < |hashed|
      ensures hashed[j] == Block(sig.signature[..HALF_SIZE], j - 1)
    {
      BlockOfPrefix(sig.signature, HALF_SIZE, j - 1);
    }
  }

  /** Block i of a signature of d is block i of half DigestBits(d)[i]: signing follows
      the bit string of the digest, each byte least significant bit first. */
  lemma SignatureFollowsDigestBits(sig: Signature, d: Digest, sk: SecretKey, i: nat)
    requires sk.Valid() && sig.Valid() && SignatureOf(sig, d, sk) && i < NUMBER_BLOCKS
    ensures DigestBits(d)[i] < 2
    ensures Block(sig.signature, i) == SecretBlock(sk, DigestBits(d)[i], i)
  {
    DigestBitsAt(d, i);
  }

  /**
   * Key generation, signing and verification in sequence, as the demo runs
   * them, on a fresh hasher whose final log is `log`. The log holds the 512 key
   * blocks in order; for a non-empty message it then holds the message twice
   * (hashed by Sign and by Verify) and the 256 signature blocks Verify hashed,
   * block i being block i of the secret-key half that bit i of the digest
   * selects, and the message is accepted. The empty message is refused by Sign
   * after only the key blocks were hashed.
   */
  method SignThenVerify(hash: HashFunction, randomness: SecretKey, message: seq<byte>)
    returns (ok: bool, ghost log: seq<seq<byte>>)
    requires randomness.Valid()
    ensures ok <==> message != []
    ensures |log| == if message == [] then 2 * NUMBER_BLOCKS else 3 * NUMBER_BLOCKS + 2
    ensures KeyBlocksHashed(log[..2 * NUMBER_BLOCKS], randomness, 2 * NUMBER_BLOCKS)
    ensures message != [] ==> log[2 * NUMBER_BLOCKS] == message && log[2 * NUMBER_BLOCKS + 1] == message
    ensures message != [] ==> forall i | 0 <= i < NUMBER_BLOCKS ::
      log[2 * NUMBER_BLOCKS + 2 + i] == SecretBlock(randomness, Bit(hash(message), i), i)
  {
    var h := new Hasher(hash);
    var secretKey, publicKey, keyHashed := GenerateKeys(h, randomness);
    var signed := Sign(h, message, secretKey);
    if signed.Err? {
      ok := false;
      log := h.log;
      assert log[..2 * NUMBER_BLOCKS] == keyHashed;
      return;
    }
    var verified, verifyHashed := Verify(h, message, signed.value, publicKey);
    SignedIsAccepted(hash, secretKey, publicKey, signed.value, hash(message));
    assert verified == Ok(true) && |verifyHashed| == NUMBER_BLOCKS + 1;
    ok := verified == Ok(true);
    log := h.log;
    assert log[..2 * NUMBER_BLOCKS] == keyHashed;
    forall i | 0 <= i < NUMBER_BLOCKS
      ensures log[2 * NUMBER_BLOCKS + 2 + i] == SecretBlock(randomness, Bit(hash(message), i), i)
    {
      assert log[2 * NUMBER_BLOCKS + 2 + i] == verifyHashed[i + 1];
    }
  }
}
