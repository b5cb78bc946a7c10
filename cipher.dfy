/**
 * The block cipher the driver allocates ("aes", 16-byte blocks) and the way the transfer
 * engine applies it: one block at a time, with no chaining value, which is the electronic
 * codebook (ECB) mode of NIST SP 800-38A, section 6.1.
 *
 * The cipher itself is a parameter: a pair of functions on 16-byte blocks, keyed by the
 * installed key bytes. The only law assumed of it is `Inverse`: decryption under a key
 * undoes encryption under the same key.
 */
module Cipher {
  import opened Bytes

  /** crypto_cipher_blocksize of AES (FIPS 197): 16 bytes. */
  const BLOCK_SIZE: nat := 16

  type Block = s: seq<Byte> | |s| == BLOCK_SIZE witness seq(BLOCK_SIZE, _ => 0)

  /** crypto_cipher_encrypt_one / crypto_cipher_decrypt_one under a given key. */
  type BlockFunction = (seq<Byte>, Block) -> Block

  datatype BlockCipher = BlockCipher(encrypt: BlockFunction, decrypt: BlockFunction)

  ghost predicate Inverse(c: BlockCipher) {
    forall key: seq<Byte>, b: Block :: c.decrypt(key, c.encrypt(key, b)) == b
  }

  predicate Aligned(n: int) {
    n % BLOCK_SIZE == 0
  }

  /** Between two block boundaries there is room for at least one whole block. */
  lemma AlignedGap(k: int, n: int)
    requires Aligned(k) && Aligned(n) && k < n
    ensures k + BLOCK_SIZE <= n
  {
    assert (n - k) % BLOCK_SIZE == 0;
  }

  /** One block past a block boundary is again a block boundary. */
  lemma AlignedStep(k: int)
    requires Aligned(k)
    ensures Aligned(k + BLOCK_SIZE)
  {
  }

  /** `f` applied independently to each 16-byte block of `p`. */
  function Ecb(f: BlockFunction, key: seq<Byte>, p: seq<Byte>): (r: seq<Byte>)
    requires Aligned(|p|)
    ensures |r| == |p|
    decreases |p|
  {
    if |p| == 0 then [] else f(key, p[..BLOCK_SIZE]) + Ecb(f, key, p[BLOCK_SIZE..])
  }

  /** ECB of a single block is the block function itself. */
  lemma EcbOneBlock(f: BlockFunction, key: seq<Byte>, b: Block)
    ensures Ecb(f, key, b) == f(key, b)
  {
    assert b[..BLOCK_SIZE] == b;
    assert Ecb(f, key, b[BLOCK_SIZE..]) == [];
  }

  /** ECB of a concatenation of aligned pieces is the concatenation of their ECBs. */
  lemma {:induction false} EcbAppend(f: BlockFunction, key: seq<Byte>, p: seq<Byte>, q: seq<Byte>)
    requires Aligned(|p|) && Aligned(|q|)
    ensures Ecb(f, key, p + q) == Ecb(f, key, p) + Ecb(f, key, q)
    decreases |p|
  {
    if |p| == 0 {
      assert p + q == q;
    } else {
      assert (p + q)[..BLOCK_SIZE] == p[..BLOCK_SIZE];
      assert (p + q)[BLOCK_SIZE..] == p[BLOCK_SIZE..] + q;
      EcbAppend(f, key, p[BLOCK_SIZE..], q);
    }
  }

  /** The ECB of the first `k + 16` bytes extends the ECB of the first `k` by one block. */
  lemma EcbExtend(f: BlockFunction, key: seq<Byte>, p: seq<Byte>, k: nat)
    requires Aligned(k) && k + BLOCK_SIZE <= |p|
    ensures Ecb(f, key, p[..k + BLOCK_SIZE]) == Ecb(f, key, p[..k]) + f(key, p[k..k + BLOCK_SIZE])
  {
    assert p[..k + BLOCK_SIZE] == p[..k] + p[k..k + BLOCK_SIZE];
    EcbAppend(f, key, p[..k], p[k..k + BLOCK_SIZE]);
    EcbOneBlock(f, key, p[k..k + BLOCK_SIZE]);
  }

  /** Block `j` of the output is `f` of block `j` of the input, and of nothing else. */
  lemma {:induction false} EcbBlockAt(f: BlockFunction, key: seq<Byte>, p: seq<Byte>, j: nat)
    requires Aligned(|p|) && (j + 1) * BLOCK_SIZE <= |p|
    ensures Ecb(f, key, p)[j * BLOCK_SIZE..(j + 1) * BLOCK_SIZE] == f(key, p[j * BLOCK_SIZE..(j + 1) * BLOCK_SIZE])
    decreases j
  {
    if j > 0 {
      var rest := p[BLOCK_SIZE..];
      EcbBlockAt(f, key, rest, j - 1);
      assert rest[(j - 1) * BLOCK_SIZE..j * BLOCK_SIZE] == p[j * BLOCK_SIZE..(j + 1) * BLOCK_SIZE];
      var head := f(key, p[..BLOCK_SIZE]);
      assert Ecb(f, key, p) == head + Ecb(f, key, rest);
      assert Ecb(f, key, p)[j * BLOCK_SIZE..(j + 1) * BLOCK_SIZE]
          == Ecb(f, key, rest)[(j - 1) * BLOCK_SIZE..j * BLOCK_SIZE];
    }
  }

  /**
   * One step of a block loop: writing `f` of the block at `k` just past the ECB of the
   * first `k` bytes, spliced into `s` at `at`, gives the ECB of the first `k + 16` bytes.
   */
  lemma EcbSpliceStep(f: BlockFunction, key: seq<Byte>, s: seq<Byte>, at: nat, p: seq<Byte>, k: nat)
    requires Aligned(k) && k + BLOCK_SIZE <= |p| && at + |p| <= |s|
    ensures Splice(Splice(s, at, Ecb(f, key, p[..k])), at + k, f(key, p[k..k + BLOCK_SIZE]))
         == Splice(s, at, Ecb(f, key, p[..k + BLOCK_SIZE]))
  {
    EcbExtend(f, key, p, k);
    SpliceExtend(s, at, Ecb(f, key, p[..k]), f(key, p[k..k + BLOCK_SIZE]));
  }

  /** Block `j` of the ECB of the range `s[from..to]` is `f` of block `j` of that range. */
  lemma EcbBlockOfRange(f: BlockFunction, key: seq<Byte>, s: seq<Byte>, from: nat, to: nat, j: nat)
    requires from <= to <= |s| && Aligned(to - from) && (j + 1) * BLOCK_SIZE <= to - from
    ensures Ecb(f, key, s[from..to])[j * BLOCK_SIZE..(j + 1) * BLOCK_SIZE]
         == f(key, s[from + j * BLOCK_SIZE..from + (j + 1) * BLOCK_SIZE])
  {
    EcbBlockAt(f, key, s[from..to], j);
    SliceOfSlice(s, from, to, j * BLOCK_SIZE, (j + 1) * BLOCK_SIZE);
  }

  /** Decrypting an ECB encryption under the same key gives back the plaintext. */
  lemma {:induction false} EcbRoundTrip(c: BlockCipher, key: seq<Byte>, p: seq<Byte>)
    requires Inverse(c) && Aligned(|p|)
    ensures Ecb(c.decrypt, key, Ecb(c.encrypt, key, p)) == p
    decreases |p|
  {
    if |p| > 0 {
      var e := Ecb(c.encrypt, key, p);
      var head := c.encrypt(key, p[..BLOCK_SIZE]);
      assert e[..BLOCK_SIZE] == head;
      assert e[BLOCK_SIZE..] == Ecb(c.encrypt, key, p[BLOCK_SIZE..]);
      EcbRoundTrip(c, key, p[BLOCK_SIZE..]);
      assert p == p[..BLOCK_SIZE] + p[BLOCK_SIZE..];
    }
  }

  /**
   * The ECB weakness the mode is known for: equal plaintext blocks anywhere in the range
   * give equal ciphertext blocks.
   */
  lemma EcbRepeatsEqualBlocks(f: BlockFunction, key: seq<Byte>, p: seq<Byte>, i: nat, j: nat)
    requires Aligned(|p|) && (i + 1) * BLOCK_SIZE <= |p| && (j + 1) * BLOCK_SIZE <= |p|
    requires p[i * BLOCK_SIZE..(i + 1) * BLOCK_SIZE] == p[j * BLOCK_SIZE..(j + 1) * BLOCK_SIZE]
    ensures Ecb(f, key, p)[i * BLOCK_SIZE..(i + 1) * BLOCK_SIZE] == Ecb(f, key, p)[j * BLOCK_SIZE..(j + 1) * BLOCK_SIZE]
  {
    EcbBlockAt(f, key, p, i);
    EcbBlockAt(f, key, p, j);
  }
}
