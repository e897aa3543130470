/**
 * Byte-level vocabulary of the Lamport signature scheme: Go's fixed-width
 * integer types, the 32-byte digest of the hash primitive, and the
 * canonical order in which the bits of a digest are read.
 */
module Bytes {

  /** Go's `byte` (uint8). Multiplication on bv8 wraps around as Go's uint8 multiplication does,
      which is why the signing and verifying loops need their `break` at 128 (see DoubledIsMask). */
  type byte = bv8

  /** Go's `uint8` and `uint16` counters. Arithmetic on a newtype must stay in range,
      so every verified update is an update that does not wrap. */
  newtype uint8 = x: int | 0 <= x < 0x100
  newtype uint16 = x: int | 0 <= x < 0x1_0000

  const HASH_SIZE: nat := 32

  /** A digest: the `[HASH_SIZE]byte` result of SHA-256. */
  type Digest = d: seq<byte> | |d| == HASH_SIZE witness seq(32, _ => 0)

  /** The hash primitive (`sha256.Sum256`) is left uninterpreted: any function to 32-byte digests. */
  type HashFunction = seq<byte> -> Digest

  /**
   * The hash primitive as the program reaches it. `log` is ghost: it records every
   * input hashed so far, in order, so a contract can say what an operation hashed.
   */
  class Hasher {
    const sum256: HashFunction
    ghost var log: seq<seq<byte>>

    constructor (sum256: HashFunction)
      ensures this.sum256 == sum256 && log == []
    {
      this.sum256 := sum256;
      log := [];
    }

    /** `sha256.Sum256(data)`: the digest of data, which is appended to the log. */
    method Sum256(data: seq<byte>) returns (d: Digest)
      modifies this
      ensures d == sum256(data)
      ensures log == old(log) + [data]
    {
      d := sum256(data);
      log := log + [data];
    }
  }

  /** GetHash: the SHA-256 digest of byteArray, hashed once. */
  method GetHash(h: Hasher, byteArray: seq<byte>) returns (d: Digest)
    modifies h
    ensures d == h.sum256(byteArray)
    ensures h.log == old(h.log) + [byteArray]
  {
    d := h.Sum256(byteArray);
  }

  /** Go's built-in `copy(dst, src)`: copies min(len(dst), len(src)) bytes to the
      front of `dst`, leaves the rest of `dst` as it was, and returns the count. */
  method Copy(dst: array<byte>, src: seq<byte>) returns (n: nat)
    modifies dst
    ensures n == if dst.Length < |src| then dst.Length else |src|
    ensures dst[..n] == src[..n]
    ensures dst[n..] == old(dst[n..])
  {
    n := if dst.Length < |src| then dst.Length else |src|;
    forall j | 0 <= j < n {
      dst[j] := src[j];
    }
  }

  /** A fresh zero-valued Go array `[size]byte` filled by `copy` from src: the first
      min(size, len(src)) bytes come from src and the rest stay zero. */
  method ZeroedCopy(size: nat, src: seq<byte>) returns (buf: seq<byte>)
    ensures |buf| == size
    ensures forall j | 0 <= j < size :: buf[j] == if j < |src| then src[j] else 0
  {
    var a := new byte[size](_ => 0);
    var n := Copy(a, src);
    buf := a[..];
    assert forall j | 0 <= j < n :: buf[j] == a[..n][j];
    assert forall j | n <= j < size :: buf[j] == a[n..][j - n];
  }

  /** The value of `bitMask` on the k-th turn of the inner signing and verifying loops. */
  function Mask(k: nat): (m: byte)
    requires k < 8
  {
    (1 as byte) << k
  }

  /** Bit k of byte x, counted from the least significant bit. */
  function BitOf(x: byte, k: nat): (b: nat)
    requires k < 8
    ensures b < 2
  {
    if (x >> k) & 1 == 0 then 0 else 1
  }

  /** Bit(d, i): global bit i of digest d is bit i mod 8, counted from the least
      significant bit, of byte i div 8. */
  function Bit(d: Digest, i: nat): (b: nat)
    requires i < 8 * HASH_SIZE
    ensures b < 2
  {
    BitOf(d[i / 8], i % 8)
  }

  /** The first n bits of x, least significant first, read by repeated halving. */
  function ByteBits(x: byte, n: nat): (bits: seq<nat>)
    requires n <= 8
    ensures |bits| == n
  {
    if n == 0 then [] else [if x & 1 == 0 then 0 else 1] + ByteBits(x >> 1, n - 1)
  }

  /** The bits of a byte string: each byte's eight bits in turn, least significant first. */
  function DigestBits(s: seq<byte>): (bits: seq<nat>)
    ensures |bits| == 8 * |s|
  {
    if s == [] then [] else ByteBits(s[0], 8) + DigestBits(s[1..])
  }

  /** The masks 1, 2, 4, ..., 128 visited by the inner loops, in order. */
  lemma MasksVisited()
    ensures seq(8, k requires 0 <= k < 8 => Mask(k)) == [1, 2, 4, 8, 16, 32, 64, 128]
  {
  }

  /** Doubling the mask moves to the next bit, and only the last mask is 128. */
  lemma MaskStep(k: nat)
    requires k < 8
    ensures Mask(k) <= 128
    ensures Mask(k) == 128 <==> k == 7
    ensures k < 7 ==> Mask(k) * 2 == Mask(k + 1)
  {
  }

  /** The mask after n doublings from 1, in uint8 arithmetic. */
  function Doubled(n: nat): (m: byte)
  {
    if n == 0 then 1 else Doubled(n - 1) * 2
  }

  /** The first eight doublings are the masks 1 .. 128; from the eighth on, the uint8 mask is 0. */
  lemma {:induction false} DoubledIsMask(n: nat)
    ensures Doubled(n) == if n < 8 then Mask(n) else 0
  {
    if 0 < n {
      DoubledIsMask(n - 1);
      if n < 8 {
        MaskStep(n - 1);
      }
    }
  }

  /** Without the `break` at 128 the loop test `bitMask <= 128` would hold after every
      number of doublings: the uint8 mask wraps from 128 to 0 and stays there. */
  lemma MaskNeverExceeds128(n: nat)
    ensures Doubled(n) <= 128
  {
    DoubledIsMask(n);
    if n < 8 {
      MaskStep(n);
    }
  }

  /** The code's test `bitMask & x == 0` on the k-th turn reads bit k of x. */
  lemma MaskSelectsBit(x: byte, k: nat)
    requires k < 8
    ensures (Mask(k) & x == 0) <==> BitOf(x, k) == 0
  {
  }

  /** Turn k of the inner loop for byte b reads global bit 8 * b + k. */
  lemma BitIndex(d: Digest, b: nat, k: nat)
    requires b < HASH_SIZE && k < 8
    ensures 8 * b + k < 8 * HASH_SIZE
    ensures Bit(d, 8 * b + k) == BitOf(d[b], k)
  {
  }

  /** Shifting right by one and then by k - 1 is shifting right by k. */
  lemma ShiftTwice(x: byte, k: nat)
    requires 0 < k < 8
    ensures (x >> 1) >> (k - 1) == x >> k
  {
  }

  /** Reading by halving and reading by shift agree. */
  lemma {:induction false} ByteBitsAt(x: byte, n: nat, k: nat)
    requires k < n <= 8
    ensures ByteBits(x, n)[k] == BitOf(x, k)
  {
    if k > 0 {
      ByteBitsAt(x >> 1, n - 1, k - 1);
      ShiftTwice(x, k);
    }
  }

  /** The two definitions of bit order agree: the i-th bit of the concatenated
      per-byte bit strings is Bit(d, i). */
  lemma DigestBitsAt(d: Digest, i: nat)
    requires i < 8 * HASH_SIZE
    ensures DigestBits(d)[i] == Bit(d, i)
  {
    DigestBitsAtAny(d, i);
  }

  /** DigestBitsAt for byte strings of any length. */
  lemma {:induction false} DigestBitsAtAny(s: seq<byte>, i: nat)
    requires i < 8 * |s|
    ensures DigestBits(s)[i] == BitOf(s[i / 8], i % 8)
  {
    if i < 8 {
      ByteBitsAt(s[0], 8, i);
    } else {
      DigestBitsAtAny(s[1..], i - 8);
      assert (i - 8) / 8 == i / 8 - 1 && (i - 8) % 8 == i % 8;
    }
  }
}
