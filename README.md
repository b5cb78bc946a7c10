# sbd: a RAM disk with per-block encryption, modelled in Dafny

`sbd` is a Linux block driver whose storage is one `vmalloc`ed byte array. A sysfs
attribute `key` installs an AES key; once a key is installed, every transfer encrypts or
decrypts the data one 16-byte cipher block at a time (ECB mode, NIST SP 800-38A
section 6.1). This project models the driver's core:

- `Keys`: the global 32-byte `crypto_key` and `key_size` as a class `KeyStore`.
  `KeyStore.Store` is `key_store`. It accepts key lengths 16, 24 and 32 (the AES key
  sizes of FIPS 197, section 5) and otherwise returns `-EINVAL` with nothing changed.
  It copies the key with `snprintf("%.*s")`, so at most 31 bytes are copied, copying
  stops at the first NUL, and a NUL terminator follows. Bytes after the terminator keep
  what the previous key left there. `KeyDisplay` is `key_display`.
- `Cipher`: the cipher is a parameter, a pair of block functions. ECB applies one of
  them block by block. The only law assumed of the cipher is `Inverse`: decrypting with
  a key undoes encrypting with it.
- `RamDisk`: the device (`Device.size`, `Device.data`, `logical_block_size`) as a class.
  `Device.Transfer` is `sbd_transfer`. It converts sectors to bytes, skips an
  out-of-range transfer (it only logs a notice), and otherwise copies raw without a key or runs the
  encrypt/decrypt loop with a key. Its effect is the predicate `Transferred`.
- `Dispatcher`: one iteration of `sbd_request` on an abstract request.
- `Geometry`: `sbd_getgeo`.
- `Bytes`: the byte type, `memcpy` and the splice that specifies it.

Two properties of the code that the proofs bring out:

- The last byte of `crypto_key` only ever receives a terminator, so it is always NUL
  (`KeyStore.Valid`). A NUL-free 32-byte key therefore reaches the cipher as its first
  31 bytes followed by a NUL.
- A key that holds a NUL is copied only up to that NUL. The bytes after the terminator,
  up to `key_size`, still hold the previous key's bytes, and these stale bytes are part
  of the key handed to the cipher. `key_display` never shows them: it stops at the
  first NUL.

Three behaviours of the code worth knowing:

- An out-of-range transfer returns no error to the request layer; it only logs a notice. The request is still ended with status 0.
- A new key does not fully replace the old bytes, as described above.
- Key display shows the key up to its first NUL, followed by a newline, not the raw
  32 bytes.

## Model

| member | source | states |
|---|---|---|
| `Bytes.MemCpy` | assignments/a3/ramdisk.c:140 | after `memcpy(dst + at, src, n)` the array equals the old one with `[at, at+n)` replaced by `src`; every other byte is unchanged |
| `Cipher.Ecb` | assignments/a3/ramdisk.c:133-136 | ECB mode as the loops apply it, one block function call per 16-byte block: the output has the length of the input; its blocks are characterised by `EcbBlockAt`, `EcbAppend` and `EcbExtend` |
| `Cipher.EcbOneBlock` | assignments/a3/ramdisk.c:135 | a single block goes through ECB exactly as through the block function |
| `Cipher.EcbAppend` | assignments/a3/ramdisk.c:133-136 | ECB of two block-aligned pieces is the concatenation of their ECBs (no chaining between blocks) |
| `Cipher.EcbBlockAt` | assignments/a3/ramdisk.c:133-136 | block `j` of the ECB output is the block function applied to block `j` of the input |
| `Cipher.EcbBlockOfRange` | assignments/a3/ramdisk.c:147-150 | block `j` of the ECB of the device range `data[offset, offset + nbytes)` is the block function of the device bytes at `offset + 16j` |
| `Cipher.EcbSpliceStep` | assignments/a3/ramdisk.c:133-136 | one loop iteration, which writes the block function of block `k` at `k`, turns the ECB of the first `k` bytes into the ECB of the first `k + 16` |
| `Cipher.EcbRoundTrip` | assignments/a3/ramdisk.c:133-150 | for a cipher whose decryption inverts encryption, ECB-decrypting an ECB encryption with the same key gives back the plaintext |
| `Cipher.EcbRepeatsEqualBlocks` | assignments/a3/ramdisk.c:133-136 | equal plaintext blocks at any two positions give equal ciphertext blocks |
| `Keys.StrNLen` | assignments/a3/ramdisk.c:86 | the `%.*s` precision stop: the result is at most `max`, no byte before it is NUL, and the byte at it is NUL when it is below `max` |
| `Keys.CopiedLength` | assignments/a3/ramdisk.c:86 | `key_store` copies at most `min(count, 31)` bytes of the key |
| `Keys.StoredKey` | assignments/a3/ramdisk.c:86 | the new `crypto_key` holds `buf` up to its first NUL (at most 31 bytes), then a NUL; later bytes keep the previous key's values |
| `Keys.KeyDisplay` | assignments/a3/ramdisk.c:66-73 | the shown text is the key up to, not including, its first NUL, followed by a newline |
| `Keys.LastKeyByteStaysNul` | assignments/a3/ramdisk.c:86 | storing a key never writes anything but NUL into byte 31 of `crypto_key` |
| `Keys.StoreThenDisplay` | assignments/a3/ramdisk.c:72-86 | after a store, the key reads back as the copied prefix of `buf` plus a newline |
| `Keys.CipherKeyAfterStore` | assignments/a3/ramdisk.c:86-87 | after storing a NUL-free key of valid length, the first `key_size` bytes of `crypto_key` are the key itself for 16 and 24 bytes, and the first 31 bytes plus a NUL for 32 bytes |
| `Keys.StaleBytesSurvive` | assignments/a3/ramdisk.c:86-87 | when the copy stops short of `key_size` bytes (a NUL in the key, or 32 bytes), the first `key_size` bytes of `crypto_key` are the copied prefix, a NUL, and then the previous key's bytes, so stale bytes reach the cipher |
| `Keys.KeyStore.constructor` | assignments/a3/ramdisk.c:35-36 | the static key store starts all-zero, with `key_size` 0 |
| `Keys.KeyStore.CipherKey` | assignments/a3/ramdisk.c:117 | the key handed to `crypto_cipher_setkey` has `key_size` bytes, and that is 0 or a valid AES key length |
| `Keys.KeyStore.Display` | assignments/a3/ramdisk.c:72 | `key_display` of the global key is at most 32 bytes, ends in a newline, and shows exactly the key's bytes before its first NUL: every shown byte is a non-NUL key byte and the key byte where the newline stands is NUL |
| `Keys.KeyStore.Store` | assignments/a3/ramdisk.c:78-89 | a length outside {16, 24, 32} returns `-EINVAL` with `crypto_key` and `key_size` unchanged; a valid length returns the count, sets `key_size` to it and `crypto_key` to `StoredKey`; the key store invariant is kept |
| `RamDisk.Encode` | assignments/a3/ramdisk.c:129-141 | a write stores the same number of bytes it is given, and the plain bytes when no key is set |
| `RamDisk.Decode` | assignments/a3/ramdisk.c:143-156 | a read returns the same number of bytes it reads, and the raw bytes when no key is set |
| `RamDisk.Transferred` | assignments/a3/ramdisk.c:120-156 | the effect of one transfer on the device and the buffer (skip, raw copy or ECB, by direction); no transfer changes the size of either |
| `RamDisk.WriteThenRead` | assignments/a3/ramdisk.c:129-156 | an in-range write followed by a read of the same range with the same key returns the written buffer, with or without a key; the read leaves the device unchanged and the write leaves the caller buffer unchanged |
| `RamDisk.EncryptedWriteBlocks` | assignments/a3/ramdisk.c:131-137 | with a key, device block `offset + 16j` after a write is `Enc(key, buffer block j)` |
| `RamDisk.EncryptedReadRange` | assignments/a3/ramdisk.c:145-151 | with a key, after an in-range read the buffer prefix is the ECB decryption of the device range |
| `RamDisk.EncryptedReadBlocks` | assignments/a3/ramdisk.c:145-151 | with a key, buffer block `j` after a read is `Dec(key, device block offset + 16j)` |
| `RamDisk.TransferStaysInRange` | assignments/a3/ramdisk.c:120-156 | no device byte outside `[offset, offset + nbytes)` changes, in either direction and whether or not the range was in bounds |
| `RamDisk.Device.constructor` | assignments/a3/ramdisk.c:215-217 | the device has `nsectors * logical_block_size` bytes of storage |
| `RamDisk.Device.Transfer` | assignments/a3/ramdisk.c:106-157 | `offset = sector * lbs`, `nbytes = nsect * lbs`; past the end of the device nothing changes; otherwise a write replaces the range with the encoded buffer prefix (raw without a key, ECB with one) and leaves the buffer alone; a read replaces the buffer prefix with the decoded range and leaves the device alone |
| `RamDisk.Device.WriteRange` | assignments/a3/ramdisk.c:129-142 | the write branch leaves the device with the encoded buffer prefix spliced in at `offset` and every other byte unchanged |
| `RamDisk.Device.ReadRange` | assignments/a3/ramdisk.c:143-156 | the read branch leaves the buffer with the decoded device range spliced in at 0 and every other byte unchanged |
| `RamDisk.Device.EncryptRange` | assignments/a3/ramdisk.c:133-136 | the encrypt loop, given the buffer prefix it reads, leaves the device range holding its ECB encryption and every other device byte unchanged |
| `RamDisk.Device.DecryptRange` | assignments/a3/ramdisk.c:147-150 | the decrypt loop, given the device range it reads, leaves the buffer prefix holding its ECB decryption and every other buffer byte unchanged |
| `RamDisk.Device.WriteThenReadBack` | assignments/a3/ramdisk.c:129-156 | writing sectors from `src` and reading them back into `dst` gives `dst` the bytes of `src` |
| `Dispatcher.FailedRequestIsRevisited` | assignments/a3/ramdisk.c:167-171 | as written, a request ended with `-EIO` is over, yet the loop goes round with that same request |
| `Dispatcher.NextAsWritten` | assignments/a3/ramdisk.c:167-176 | as written, the loop stays with the same request when it was ended as a whole or when chunks of it remain |
| `Dispatcher.NextAfter` | assignments/a3/ramdisk.c:174-176 | the loop keeps the same request exactly when that request is not over |
| `Dispatcher.NextAfterDiffersOnlyOnFailure` | assignments/a3/ramdisk.c:163-177 | the corrected continuation differs from the written one only after an `-EIO` ending |
| `Dispatcher.Dispatch` | assignments/a3/ramdisk.c:159-178 | a non-file-system request is ended with `-EIO`, touches neither the device nor its buffer, and the loop goes round with that same, finished request; a file-system request gets `Transfer` on its current chunk, is ended with status 0 whatever the transfer did, and the loop keeps it exactly while chunks remain, as the corrected `NextAfter` would |
| `Geometry.GetGeo` | assignments/a3/ramdisk.c:185-195 | the status is 0; heads 4, sectors 16, start 0; cylinders is `size / 64` truncated to 16 bits, where `size = Device.size * (logical_block_size / 512)` |
| `Geometry.ClearLow6` | assignments/a3/ramdisk.c:190 | `size & ~0x3f` is the largest multiple of 64 not above `size` |
| `Geometry.GeometryFitsSize` | assignments/a3/ramdisk.c:189-192 | cylinders × heads × sectors never exceeds `size`, and misses less than one cylinder of it unless the cylinder count was truncated |

## Findings

| source | as written | input that shows it | evidently intended | confidence | as-written member | corrected member |
|---|---|---|---|---|---|---|
| assignments/a3/ramdisk.c:167-171 | after `__blk_end_request_all(req, -EIO)` the loop does `continue` without fetching, so the next iteration handles the request it has just ended | any request whose `cmd_type` is not `REQ_TYPE_FS` | fetch the next request (`req = blk_fetch_request(q)`) before going round | high; not executed | `Dispatcher.FailedRequestIsRevisited` | `Dispatcher.NextAfter` |

`Dispatcher.Dispatch` returns the continuation as written (`NextAsWritten`). On the file-system path it coincides with the corrected `NextAfter`, which `Dispatch`'s contract states.

## Left out

- Module set-up and tear-down in `sbd_init`/`sbd_exit` are not modelled: the request queue, the major number, the gendisk, the sysfs device and its `key` file, and the duplicated allocation. This is kernel plumbing. Only the storage allocation appears, as `Device.constructor`.
- The AES cipher and the kernel crypto API are not modelled: `crypto_alloc_cipher`, `crypto_cipher_setkey`, `crypto_cipher_clear_flags`. The cipher is a parameter with a fixed 16-byte block, and `Inverse` is assumed only where a round trip is claimed. A failing `setkey` is not modelled, because `key_size` is always 16, 24 or 32 when it is called.
- Key isolation is not proved (a read with a different key does not return the plaintext). It depends on the strength of AES, which an abstract cipher does not have.
- The spinlock and concurrent exclusivity are not modelled. The block layer calls the request function with the queue lock held.
- The kernel request queue is not modelled: `blk_fetch_request`, partial completion, and termination of the request loop. What `__blk_end_request_cur` reports is the parameter `pending` of `Dispatch`.
- `printk` logging, `module_param` parsing and the `PAGE_SIZE` bound of `key_display` are not modelled. The value `key_display` returns is the length of `KeyDisplay`'s text.
- RamDisk.Device.Transfer: requires `offset + nbytes < 2^64`, so the wrap-around of the `unsigned long` sum in the bounds check is not modelled.
- RamDisk.Device.Valid: requires `logical_block_size` to be a multiple of 16, as the default 512 is. For other sizes the cipher loop would run past the end of the range.
- RamDisk.Device.constructor: requires `nsectors * logical_block_size < 2^31`, the `int` product the source computes. It does not state the contents of the storage, because `vmalloc` leaves them unspecified.
- Request positions are taken as given, in units of `logical_block_size` as `sbd_transfer` treats them. The block layer counts them in 512-byte sectors, and this model does not capture that mismatch.
- Geometry.GetGeo: the signed `long` overflow of `size` is not modelled. It cannot happen while `Device.size` and `logical_block_size` fit in an `int`. `unsigned short` cylinders come from the kernel's `struct hd_geometry`, which is not part of this model.
