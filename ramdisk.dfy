/**
 * The RAM-backed device and its transfer engine, sbd_transfer: a bounds-checked copy of
 * whole sectors between a caller's buffer and the device's storage, raw when no key is
 * installed and block by block through the cipher (ECB) when one is.
 */
module RamDisk {
  import opened Bytes
  import opened Cipher
  import opened Keys

  /** `unsigned long` offsets wrap at 2^64. */
  const U64_LIMIT: nat := 0x1_0000_0000_0000_0000
  /** `Device.size` is computed as an `int` product. */
  const INT_LIMIT: nat := 0x8000_0000

  /** What a write stores for `plain`: the bytes themselves without a key, ECB otherwise. */
  function Encode(cipher: BlockCipher, key: seq<Byte>, plain: seq<Byte>): (stored: seq<Byte>)
    requires |key| == 0 || Aligned(|plain|)
    ensures |stored| == |plain|
  {
    if |key| == 0 then plain else Ecb(cipher.encrypt, key, plain)
  }

  /** What a read returns for `stored`. */
  function Decode(cipher: BlockCipher, key: seq<Byte>, stored: seq<Byte>): (plain: seq<Byte>)
    requires |key| == 0 || Aligned(|stored|)
    ensures |plain| == |stored|
  {
    if |key| == 0 then stored else Ecb(cipher.decrypt, key, stored)
  }

  /**
   * The effect of one transfer of `nbytes` bytes at byte `offset`, from device contents
   * `data0` and caller buffer `buf0` to `data1` and `buf1`. A range past the end of the
   * device is skipped and changes nothing; a write replaces the range in the device with
   * the encoded first `nbytes` of the buffer; a read replaces the first `nbytes` of the
   * buffer with the decoded range.
   */
  predicate Transferred(cipher: BlockCipher, key: seq<Byte>, offset: nat, nbytes: nat, write: bool,
                        data0: seq<Byte>, buf0: seq<Byte>, data1: seq<Byte>, buf1: seq<Byte>): (ok: bool)
    ensures ok ==> |data1| == |data0| && |buf1| == |buf0|
  {
    if offset + nbytes > |data0| then
      data1 == data0 && buf1 == buf0
    else
      (|key| == 0 || Aligned(nbytes)) && nbytes <= |buf0| &&
      if write then
        data1 == Splice(data0, offset, Encode(cipher, key, buf0[..nbytes])) && buf1 == buf0
      else
        buf1 == Splice(buf0, 0, Decode(cipher, key, data0[offset..offset + nbytes])) && data1 == data0
  }

  lemma AlignedMultiple(n: nat, blockSize: nat)
    requires Aligned(blockSize)
    ensures Aligned(n * blockSize)
  {
    var q := blockSize / BLOCK_SIZE;
    assert n * blockSize == (n * q) * BLOCK_SIZE;
  }

  /** A write followed by a read of the same in-range bytes, with the same key, returns what was written. */
  lemma {:induction false} WriteThenRead(cipher: BlockCipher, key: seq<Byte>, offset: nat, nbytes: nat,
                                         data0: seq<Byte>, src0: seq<Byte>, data1: seq<Byte>, src1: seq<Byte>,
                                         dst0: seq<Byte>, data2: seq<Byte>, dst1: seq<Byte>)
    requires Inverse(cipher) && offset + nbytes <= |data0|
    requires Transferred(cipher, key, offset, nbytes, true, data0, src0, data1, src1)
    requires Transferred(cipher, key, offset, nbytes, false, data1, dst0, data2, dst1)
    ensures data2 == data1 && src1 == src0
    ensures |dst1| == |dst0| && nbytes <= |src0| && dst1[..nbytes] == src0[..nbytes]
  {
    var plain := src0[..nbytes];
    var stored := Encode(cipher, key, plain);
    assert data1[offset..offset + nbytes] == stored;
    if |key| != 0 {
      EcbRoundTrip(cipher, key, plain);
    }
    assert Decode(cipher, key, stored) == plain;
    assert dst1[..nbytes] == Splice(dst0, 0, plain)[0..nbytes];
  }

  /** With a key, every 16-byte block of the written range is the cipher of the matching buffer block. */
  lemma EncryptedWriteBlocks(cipher: BlockCipher, key: seq<Byte>, offset: nat, nbytes: nat,
                             data0: seq<Byte>, buf0: seq<Byte>, data1: seq<Byte>, buf1: seq<Byte>, j: nat)
    requires |key| != 0 && offset + nbytes <= |data0| && (j + 1) * BLOCK_SIZE <= nbytes
    requires Transferred(cipher, key, offset, nbytes, true, data0, buf0, data1, buf1)
    ensures data1[offset + j * BLOCK_SIZE..offset + (j + 1) * BLOCK_SIZE]
         == cipher.encrypt(key, buf0[j * BLOCK_SIZE..(j + 1) * BLOCK_SIZE])
  {
    var lo, hi := j * BLOCK_SIZE, (j + 1) * BLOCK_SIZE;
    var plain := buf0[..nbytes];
    var stored := Ecb(cipher.encrypt, key, plain);
    assert data1 == Splice(data0, offset, stored);
    assert data1[offset..offset + nbytes] == stored;
    EcbBlockAt(cipher.encrypt, key, plain, j);
    SliceOfSlice(data1, offset, offset + nbytes, lo, hi);
    SliceOfSlice(buf0, 0, nbytes, lo, hi);
  }

  /** With a key, the buffer prefix after an in-range read is the ECB decryption of the range. */
  lemma EncryptedReadRange(cipher: BlockCipher, key: seq<Byte>, offset: nat, nbytes: nat,
                           data0: seq<Byte>, buf0: seq<Byte>, data1: seq<Byte>, buf1: seq<Byte>)
    requires |key| != 0 && offset + nbytes <= |data0|
    requires Transferred(cipher, key, offset, nbytes, false, data0, buf0, data1, buf1)
    ensures Aligned(nbytes) && nbytes <= |buf1|
    ensures buf1[..nbytes] == Ecb(cipher.decrypt, key, data0[offset..offset + nbytes])
  {
    var plain := Ecb(cipher.decrypt, key, data0[offset..offset + nbytes]);
    assert buf1 == Splice(buf0, 0, plain);
    assert buf1[..nbytes] == plain;
  }

  /** With a key, every 16-byte block read is the decryption of the matching device block. */
  lemma EncryptedReadBlocks(cipher: BlockCipher, key: seq<Byte>, offset: nat, nbytes: nat,
                            data0: seq<Byte>, buf0: seq<Byte>, data1: seq<Byte>, buf1: seq<Byte>, j: nat)
    requires |key| != 0 && offset + nbytes <= |data0| && (j + 1) * BLOCK_SIZE <= nbytes
    requires Transferred(cipher, key, offset, nbytes, false, data0, buf0, data1, buf1)
    ensures buf1[j * BLOCK_SIZE..(j + 1) * BLOCK_SIZE]
         == cipher.decrypt(key, data0[offset + j * BLOCK_SIZE..offset + (j + 1) * BLOCK_SIZE])
  {
    EncryptedReadRange(cipher, key, offset, nbytes, data0, buf0, data1, buf1);
    SliceOfSlice(buf1, 0, nbytes, j * BLOCK_SIZE, (j + 1) * BLOCK_SIZE);
    EcbBlockOfRange(cipher.decrypt, key, data0, offset, offset + nbytes, j);
  }

  /** No byte of the device outside `[offset, offset + nbytes)` changes, whatever the direction. */
  lemma TransferStaysInRange(cipher: BlockCipher, key: seq<Byte>, offset: nat, nbytes: nat, write: bool,
                             data0: seq<Byte>, buf0: seq<Byte>, data1: seq<Byte>, buf1: seq<Byte>, i: nat)
    requires Transferred(cipher, key, offset, nbytes, write, data0, buf0, data1, buf1)
    requires i < |data0| && !(offset <= i < offset + nbytes)
    ensures |data1| == |data0| && data1[i] == data0[i]
  {
    if offset + nbytes <= |data0| && write {
      var stored := Encode(cipher, key, buf0[..nbytes]);
      assert data1 == Splice(data0, offset, stored);
    }
  }

  /** The `struct sbd_device` singleton: its storage and its geometry parameters. */
  class Device {
    /** logical_block_size (module parameter). */
    const logicalBlockSize: nat
    /** Device.size in bytes. */
    const size: nat
    /** Device.data. */
    const data: array<Byte>

    ghost predicate Valid()
      reads this
    {
      data.Length == size && size < INT_LIMIT && Aligned(logicalBlockSize)
    }

    /** The storage part of sbd_init: `nsectors * logical_block_size` bytes. */
    constructor (nsectors: nat, logicalBlockSize: nat)
      requires Aligned(logicalBlockSize) && nsectors * logicalBlockSize < INT_LIMIT
      ensures Valid() && fresh(data)
      ensures this.logicalBlockSize == logicalBlockSize && size == nsectors * logicalBlockSize
    {
      this.logicalBlockSize := logicalBlockSize;
      size := nsectors * logicalBlockSize;
      data := new Byte[nsectors * logicalBlockSize];
    }

    /** sbd_transfer(dev, sector, nsect, buffer, write). */
    method Transfer(keys: KeyStore, cipher: BlockCipher, sector: nat, nsect: nat, buffer: array<Byte>, write: bool)
      requires Valid() && keys.Valid()
      requires buffer != data && buffer != keys.cryptoKey && data != keys.cryptoKey
      requires nsect * logicalBlockSize <= buffer.Length
      requires sector * logicalBlockSize + nsect * logicalBlockSize < U64_LIMIT
      modifies data, buffer
      ensures Transferred(cipher, keys.CipherKey(), sector * logicalBlockSize, nsect * logicalBlockSize, write,
                          old(data[..]), old(buffer[..]), data[..], buffer[..])
    {
      var offset := sector * logicalBlockSize;
      var nbytes := nsect * logicalBlockSize;
      var key := keys.cryptoKey[..keys.keySize];
      if offset + nbytes > size {
        return;
      }
      AlignedMultiple(nsect, logicalBlockSize);
      if write {
        WriteRange(cipher, key, offset, nbytes, buffer);
      } else {
        ReadRange(cipher, key, offset, nbytes, buffer);
      }
    }

    /** The write branch: ECB-encrypt the buffer into the range with a key, memcpy without. */
    method WriteRange(cipher: BlockCipher, key: seq<Byte>, offset: nat, nbytes: nat, buffer: array<Byte>)
      requires Valid() && buffer != data && Aligned(nbytes)
      requires offset + nbytes <= size && nbytes <= buffer.Length
      modifies data
      ensures data[..] == Splice(old(data[..]), offset, Encode(cipher, key, buffer[..nbytes]))
    {
      if |key| != 0 {
        EncryptRange(cipher, key, offset, buffer[..nbytes]);
      } else {
        MemCpy(data, offset, buffer[..nbytes]);
      }
    }

    /** The read branch: ECB-decrypt the range into the buffer with a key, memcpy without. */
    method ReadRange(cipher: BlockCipher, key: seq<Byte>, offset: nat, nbytes: nat, buffer: array<Byte>)
      requires Valid() && buffer != data && Aligned(nbytes)
      requires offset + nbytes <= size && nbytes <= buffer.Length
      modifies buffer
      ensures buffer[..] == Splice(old(buffer[..]), 0, Decode(cipher, key, data[offset..offset + nbytes]))
    {
      if |key| != 0 {
        DecryptRange(cipher, key, data[offset..offset + nbytes], buffer);
      } else {
        MemCpy(buffer, 0, data[offset..offset + nbytes]);
      }
    }

    /**
     * The write loop: `for (k = 0; k < nbytes; k += blocksize) encrypt_one(data + offset + k, buffer + k)`.
     * The loop only writes the device, so the buffer bytes it reads, `plain`, are fixed throughout.
     */
    method EncryptRange(cipher: BlockCipher, key: seq<Byte>, offset: nat, plain: seq<Byte>)
      requires Aligned(|plain|) && offset + |plain| <= data.Length
      modifies data
      ensures data[..] == Splice(old(data[..]), offset, Ecb(cipher.encrypt, key, plain))
    {
      var k := 0;
      while k < |plain|
        invariant k <= |plain| && Aligned(k)
        invariant data[..] == Splice(old(data[..]), offset, Ecb(cipher.encrypt, key, plain[..k]))
      {
        AlignedGap(k, |plain|);
        var block := cipher.encrypt(key, plain[k..k + BLOCK_SIZE]);
        EcbSpliceStep(cipher.encrypt, key, old(data[..]), offset, plain, k);
        MemCpy(data, offset + k, block);
        AlignedStep(k);
        k := k + BLOCK_SIZE;
      }
      assert plain[..k] == plain;
    }

    /**
     * The read loop: `for (k = 0; k < nbytes; k += blocksize) decrypt_one(buffer + k, data + offset + k)`.
     * The loop only writes the buffer, so the device range it reads, `stored`, is fixed throughout.
     */
    method DecryptRange(cipher: BlockCipher, key: seq<Byte>, stored: seq<Byte>, buffer: array<Byte>)
      requires Aligned(|stored|) && |stored| <= buffer.Length
      modifies buffer
      ensures buffer[..] == Splice(old(buffer[..]), 0, Ecb(cipher.decrypt, key, stored))
    {
      var k := 0;
      while k < |stored|
        invariant k <= |stored| && Aligned(k)
        invariant buffer[..] == Splice(old(buffer[..]), 0, Ecb(cipher.decrypt, key, stored[..k]))
      {
        AlignedGap(k, |stored|);
        var block := cipher.decrypt(key, stored[k..k + BLOCK_SIZE]);
        EcbSpliceStep(cipher.decrypt, key, old(buffer[..]), 0, stored, k);
        MemCpy(buffer, k, block);
        AlignedStep(k);
        k := k + BLOCK_SIZE;
      }
      assert stored[..k] == stored;
    }

    /** A write of `src` followed by a read into `dst` of the same sectors returns `src`'s bytes. */
    method WriteThenReadBack(keys: KeyStore, cipher: BlockCipher, sector: nat, nsect: nat,
                             src: array<Byte>, dst: array<Byte>)
      requires Valid() && keys.Valid() && Inverse(cipher)
      requires src != dst && src != data && dst != data && data != keys.cryptoKey
      requires src != keys.cryptoKey && dst != keys.cryptoKey
      requires nsect * logicalBlockSize <= src.Length && nsect * logicalBlockSize <= dst.Length
      requires sector * logicalBlockSize + nsect * logicalBlockSize <= size
      modifies data, src, dst
      ensures src[..] == old(src[..])
      ensures dst[..nsect * logicalBlockSize] == src[..nsect * logicalBlockSize]
    {
      ghost var data0, src0, dst0 := data[..], src[..], dst[..];
      Transfer(keys, cipher, sector, nsect, src, true);
      ghost var data1, src1 := data[..], src[..];
      Transfer(keys, cipher, sector, nsect, dst, false);
      WriteThenRead(cipher, keys.CipherKey(), sector * logicalBlockSize, nsect * logicalBlockSize,
                    data0, src0, data1, src1, dst0, data[..], dst[..]);
    }
  }
}
