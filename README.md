# Lamport one-time signatures over a 32-byte digest

This project models `main.go` of a small Go implementation of Lamport one-time
signatures, and proves properties of the model in Dafny.

- **Key layout.** A secret key is two halves of 256 blocks of 32 random bytes.
- **Public key.** The public key is 512 digests in a flat 16384-byte array: the hash of every half-0 block, then the hash of every half-1 block.
- **Signing.** Sign walks the 256 bits of the message digest. Inside each byte it goes from the least significant bit up. For bit `i` it copies block `i` of the half that the bit selects.
- **Verifying.** Verify hashes each signature block. It compares the result with the public-key digest at offset `32*i` (bit 0) or `8192 + 32*i` (bit 1), and it stops at the first mismatch.

Files and modules:

- `bytes.dfy`, module `Bytes`:
  - Go's `byte`, modelled as `bv8`. Its `*` wraps around as Go's `uint8` multiplication does, which is why the `break` at 128 is needed, as `DoubledIsMask` shows.
  - The `uint8` and `uint16` counters, modelled as newtypes. Every update the verifier accepts is therefore an update that does not overflow.
  - The 32-byte `Digest`, and the hash behind a `Hasher` object whose ghost `log` records every input hashed through `Sum256` or `GetHash`, in order.
  - Go's built-in `copy`.
  - The masks of the inner loops and the canonical bit order.
- `lamport.dfy`, module `Lamport`:
  - The three Go structs, with the layout predicates.
  - `GenerateKeys`, `Sign` and `Verify`, written as the same nested loops as the source.
  - A `break` at mask 128, which keeps the mask from wrapping.
  - The specification predicates these methods are proved against.
- `roundtrip.dfy`, module `RoundTrip`: lemmas that relate signing to verifying, and the end-to-end sign-then-verify sequence.

Modelling decisions:

- **The hash.** SHA-256 is an arbitrary function `seq<byte> -> Digest`, held by a `Hasher`. It stands for any deterministic function to 32-byte digests. `Hasher.Sum256` applies it and appends the input to the hasher's ghost log; `GetHash` calls it once.
- **The randomness.** The bytes read from the entropy device are an input: `GenerateKeys` takes the secret key it would have read.
- **Value types.** Go arrays are values that are copied on assignment and on calls. So `SecretKey`, `PublicKey` and `Signature` are datatypes over sequences, and a `Valid()` predicate gives the Go array type's length. The zero-valued fixed arrays that `copy` fills (`publicKey16K` and `Signature{}`) are Dafny arrays inside `Bytes.ZeroedCopy`.
- **Messages.** A Go `string` is a byte sequence, so a message is a `seq<byte>`, and `[]byte(message)` is the identity.
- **Errors.** Both Sign and Verify panic on the empty message. Here they return `Err(EmptyMessage)` instead.
- **What was hashed.** Every hash in the model goes through `Hasher.Sum256`, and the contracts of `GenerateKeys`, `Sign`, `CompareBlock` and `Verify` state exactly what each appended to `h.log`; the contract of `SignThenVerify` gives the whole log of a fresh hasher. An extra hash call anywhere breaks that contract. The contracts show three things:
  - the empty message is refused before anything is hashed, and Sign otherwise hashes only the message;
  - Verify hashes the message, then signature blocks 0, 1, … in order, and stops at the first block that fails;
  - every signature block Verify hashes lies in the first 8192 bytes.
- **`CompareBlock`.** It is the body of Verify's inner loop (main.go:154-164), verified on its own to keep each proof obligation small. It hashes the block inside each branch, as the source does. `Verify` keeps both loops, the `break` and the early `return false`.
- **Signature size.** The `Signature` array is `256 * NUMBER_BLOCKS` = 65536 bytes long (main.go:28), and Sign writes only its first 8192 bytes. The model follows the code, so bytes 8192 to 65535 of a signature are always zero. A description of the scheme as 256 blocks of 32 bytes would give 8192 bytes.

## Model

| member | source | states |
|---|---|---|
| `Bytes.Hasher.Sum256` | main.go:45 | `sha256.Sum256`: the digest of the input under the hasher's function, with the input appended to the log and nothing else changed |
| `Bytes.GetHash` | main.go:41-46 | The digest of byteArray, after hashing it exactly once |
| `Bytes.Copy` | main.go:79 | Go's `copy`: copies min(len(dst), len(src)) bytes to the front of dst, leaves the rest of dst unchanged, and returns that count |
| `Bytes.ZeroedCopy` | main.go:129-130 | A zero-valued `[size]byte` filled by `copy`: byte j is src[j] below len(src) and 0 from there on |
| `Bytes.MasksVisited` | main.go:116 | The inner loop's mask takes the values 1, 2, 4, 8, 16, 32, 64, 128 in that order |
| `Bytes.MaskStep` | main.go:116-125 | Every mask is at most 128. Only the eighth mask is 128. Below it, doubling gives the next bit's mask, so seven doublings and the `break` end the loop |
| `Bytes.DoubledIsMask` | main.go:116 | After n uint8 doublings from 1 the mask is Mask(n) for n < 8 and 0 from n = 8 on, because 128 * 2 wraps to 0 |
| `Bytes.MaskNeverExceeds128` | main.go:116-125 | After any number of uint8 doublings from 1 the mask is at most 128, so without the `break` the test `bitMask <= 128` would never fail |
| `Bytes.MaskSelectsBit` | main.go:117 | The test `bitMask & byte == 0` on turn k is true exactly when bit k of the byte, counted from the least significant bit, is 0 |
| `Bytes.BitIndex` | main.go:115-117 | Turn k for byte b reads global bit 8*b + k; global bit i is bit i mod 8 of byte i div 8 |
| `Bytes.ByteBitsAt` | main.go:116-117 | Reading a byte's bits by repeated halving gives the same bits as the shift-and-mask test, least significant first |
| `Bytes.DigestBitsAt` | main.go:115-117 | The i-th entry of the digest's bit string (each byte's bits in turn, least significant first) is the bit used for block i |
| `Lamport.GenerateKeys` | main.go:50-85 | With the random bytes as input: returns that secret key, and a 16384-byte public key whose bytes [32*(256*h+i), +32) are the hash of secret block i of half h, for h in {0,1} and i < 256. The hasher's log grows by exactly the 512 secret blocks, half 0 first, in order. Each counter update stays within uint8/uint16, and each slice is in bounds |
| `Lamport.Sign` | main.go:89-133 | The empty message is an error, and the log is unchanged. Otherwise the log grows by the message alone, and the result is a 65536-byte signature: bytes [32*i, +32) are bytes [32*i, +32) of the secret-key half that bit i of the digest selects (same running index for both halves), and bytes 8192 and on are zero. Each slice is in bounds, no uint16 counter overflows, and the mask loop terminates |
| `Lamport.CompareBlock` | main.go:154-164 | Hashing signature block n, and only it, and comparing it with the public-key bytes at offset 32*n (bit 0) or 8192+32*n (bit 1) gives true exactly when block n verifies |
| `Lamport.Verify` | main.go:137-173 | The empty message is an error, and the log is unchanged. Otherwise the result is true exactly when every block i hashes to the public-key digest that bit i selects. The log grows by the message, then blocks 0, 1, … in order. On true, all 256 blocks were hashed. On false, the last block hashed is the first one that fails, and every block before it verifies. Each slice, including the one at offset `signatureIterator + 8192`, is in bounds, and no uint16 counter overflows |
| `RoundTrip.SignedIsAccepted` | main.go:89-173 | A signature of digest d made with sk is accepted for d under the public key derived from sk |
| `RoundTrip.SignatureDetermined` | main.go:89-133 | Two signatures of the same digest under the same secret key are byte-identical, so signing is deterministic |
| `RoundTrip.PublicKeyDetermined` | main.go:70-79 | The 512 digests fill the whole public key: two public keys derived from the same secret key are equal |
| `RoundTrip.AcceptsIgnoresTail` | main.go:155-161 | Whether a signature is accepted depends only on its first 8192 bytes |
| `RoundTrip.HashedWithinSigned` | main.go:155-160 | Every signature block Verify hashes, as its log records, lies inside the first 8192 bytes |
| `RoundTrip.SignatureFollowsDigestBits` | main.go:113-122 | Block i of a signature is block i of half DigestBits(d)[i]: signing follows the digest's bit string |
| `RoundTrip.SignThenVerify` | main.go:176-178 | Key generation, Sign and Verify run in sequence on a fresh hasher accept every non-empty message. The log holds the 512 key blocks in order, then the message twice, then the 256 signature blocks, block i being block i of the secret-key half that bit i of the digest selects. The empty message is refused after only the key blocks were hashed |

## Left out

- Reading `/dev/urandom` (`os.Open`, `Read`, `Close` and `CheckError`) is I/O. The random bytes are an input to `GenerateKeys`, so an arbitrary secret key stands for whatever the read produced, including a short read.
- SHA-256 itself is a foreign library. It is an arbitrary function from bytes to 32-byte digests, so nothing is assumed beyond determinism and output length.
- The hasher's log records the calls made through `Hasher.Sum256` and `GetHash`, which are the model's only hash calls. The function `sum256` itself stays visible, so the log would not record a direct application of it.
- The `nil` check in `GetHash` is left out. Sign and Verify only hash non-empty strings and array slices, which are never nil.
- Properties that rest on preimage or collision resistance are cryptographic assumptions that cannot be stated about an arbitrary hash:
  - tamper sensitivity;
  - cross-key rejection;
  - rejection of a different message, such as Verify("Bye") after signing "Hi";
  - security under key reuse.
- The single-use rule for a secret key is not enforced by the code and is not modelled.
- The timing behaviour of `bytes.Compare` is left out. Only its result, equal or not, is modelled.
- The `main` demo, with its fixed string "Hi", is left out. `RoundTrip.SignThenVerify` runs the same sequence on any message.
- Go's string-to-byte conversion: the message is taken as its bytes.
