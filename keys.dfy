/**
 * The key store behind the device's `key` attribute: the global 32-byte `crypto_key`
 * and `key_size`, `key_store` that replaces the key and `key_display` that shows it.
 */
module Keys {
  import opened Bytes

  /** Capacity of `crypto_key`: AES-256 keys are 32 bytes. */
  const KEY_SIZE: nat := 32
  /** Linux errno value returned for a rejected key length. */
  const EINVAL: int := 22
  const NUL: Byte := 0
  const NEWLINE: Byte := 10

  /** The AES key sizes of FIPS 197, section 5: 128, 192 and 256 bits. */
  predicate ValidKeyLength(n: int) {
    n == 16 || n == 24 || n == 32
  }

  /** strnlen: the index of the first NUL among the first `max` bytes, or `max`. */
  function StrNLen(s: seq<Byte>, max: nat): (n: nat)
    requires max <= |s|
    ensures n <= max
    ensures forall i :: 0 <= i < n ==> s[i] != NUL
    ensures n < max ==> s[n] == NUL
    decreases max
  {
    if max == 0 || s[0] == NUL then 0 else 1 + StrNLen(s[1..], max - 1)
  }

  /** How many bytes of `buf` the `%.*s` conversion of key_store copies. */
  function CopiedLength(buf: seq<Byte>): (n: nat)
    ensures n <= KEY_SIZE - 1 && n <= |buf|
  {
    StrNLen(buf, Min(|buf|, KEY_SIZE - 1))
  }

  /**
   * `crypto_key` after snprintf(crypto_key, 32, "%.*s", min(count, 31), buf): the bytes
   * of `buf` up to its first NUL, at most 31 of them, then a terminating NUL; every later
   * byte keeps what the previous key left there.
   */
  function StoredKey(prev: seq<Byte>, buf: seq<Byte>): (key: seq<Byte>)
    requires |prev| == KEY_SIZE
    ensures |key| == KEY_SIZE
    ensures key[..CopiedLength(buf)] == buf[..CopiedLength(buf)]
    ensures key[CopiedLength(buf)] == NUL
    ensures forall i :: CopiedLength(buf) < i < KEY_SIZE ==> key[i] == prev[i]
  {
    Splice(prev, 0, buf[..CopiedLength(buf)] + [NUL])
  }

  /** key_display: scnprintf(buf, PAGE_SIZE, "%s\n", crypto_key). */
  function KeyDisplay(key: seq<Byte>): (text: seq<Byte>)
    requires NUL in key
    ensures 1 <= |text| <= |key| && text[|text| - 1] == NEWLINE
    ensures forall i :: 0 <= i < |text| - 1 ==> text[i] == key[i] && key[i] != NUL
    ensures key[|text| - 1] == NUL
  {
    var n := StrNLen(key, |key|);
    assert exists j :: 0 <= j < |key| && key[j] == NUL;
    key[..n] + [NEWLINE]
  }

  /** Only the terminator is ever written to the last byte of `crypto_key`. */
  lemma LastKeyByteStaysNul(prev: seq<Byte>, buf: seq<Byte>)
    requires |prev| == KEY_SIZE && prev[KEY_SIZE - 1] == NUL
    ensures StoredKey(prev, buf)[KEY_SIZE - 1] == NUL
  {
  }

  /** Reading the key back shows what was stored up to its first NUL (at most 31 bytes). */
  lemma StoreThenDisplay(prev: seq<Byte>, buf: seq<Byte>)
    requires |prev| == KEY_SIZE
    ensures NUL in StoredKey(prev, buf)
    ensures KeyDisplay(StoredKey(prev, buf)) == buf[..CopiedLength(buf)] + [NEWLINE]
  {
    var key, n := StoredKey(prev, buf), CopiedLength(buf);
    assert key[n] == NUL;
    var text := KeyDisplay(key);
    assert |text| - 1 == n by {
      assert forall i :: 0 <= i < n ==> key[i] == buf[i] != NUL;
    }
  }

  /**
   * The key the cipher is given (the first key_size bytes of `crypto_key`) after a
   * successful store of a key without NUL bytes: the key itself for 16 and 24 bytes, but
   * for 32 bytes its first 31 bytes and a NUL.
   */
  lemma CipherKeyAfterStore(prev: seq<Byte>, buf: seq<Byte>)
    requires |prev| == KEY_SIZE && ValidKeyLength(|buf|) && NUL !in buf
    ensures |buf| < KEY_SIZE ==> StoredKey(prev, buf)[..|buf|] == buf
    ensures |buf| == KEY_SIZE ==> StoredKey(prev, buf)[..|buf|] == buf[..KEY_SIZE - 1] + [NUL]
  {
    var key, n := StoredKey(prev, buf), CopiedLength(buf);
    assert forall i :: 0 <= i < |buf| ==> buf[i] != NUL;
    if |buf| < KEY_SIZE {
      assert key[..|buf|] == key[..n];
    } else {
      assert key[..|buf|] == key[..n] + [key[n]];
    }
  }

  /**
   * When the copy stops short of key_size bytes (the key holds a NUL, or it is 32 bytes
   * long), the key the cipher is given is the copied prefix, a NUL, and then bytes left
   * over from the previous key: a 16-byte key with a NUL at index 3 hands bytes 4 to 15
   * of the old key to the cipher.
   */
  lemma StaleBytesSurvive(prev: seq<Byte>, buf: seq<Byte>)
    requires |prev| == KEY_SIZE && ValidKeyLength(|buf|) && CopiedLength(buf) < |buf|
    ensures var n := CopiedLength(buf);
      StoredKey(prev, buf)[..|buf|] == buf[..n] + [NUL] + prev[n + 1..|buf|]
  {
    var n := CopiedLength(buf);
    assert StoredKey(prev, buf) == buf[..n] + [NUL] + prev[n + 1..] by {
      assert prev[..0] == [];
    }
    var head := buf[..n] + [NUL];
    assert (head + prev[n + 1..])[..|buf|] == head + prev[n + 1..|buf|];
  }

  /** The globals `crypto_key` and `key_size`. */
  class KeyStore {
    const cryptoKey: array<Byte>
    var keySize: int

    /** The last byte of `crypto_key` is always a NUL, so the key always reads as a string. */
    ghost predicate Valid()
      reads this, cryptoKey
    {
      cryptoKey.Length == KEY_SIZE &&
      (keySize == 0 || ValidKeyLength(keySize)) &&
      cryptoKey[KEY_SIZE - 1] == NUL
    }

    /** Static storage: all zero, no key installed. */
    constructor ()
      ensures Valid() && fresh(cryptoKey)
      ensures keySize == 0 && cryptoKey[..] == seq(KEY_SIZE, _ => NUL)
    {
      cryptoKey := new Byte[KEY_SIZE](_ => NUL);
      keySize := 0;
    }

    /** The key bytes handed to crypto_cipher_setkey: `crypto_key[..key_size]`. */
    function CipherKey(): (key: seq<Byte>)
      reads this, cryptoKey
      requires Valid()
      ensures |key| == keySize && (|key| == 0 || ValidKeyLength(|key|))
    {
      cryptoKey[..keySize]
    }

    /** key_display on the current key. */
    function Display(): (text: seq<Byte>)
      reads this, cryptoKey
      requires Valid()
      ensures 1 <= |text| <= KEY_SIZE && text[|text| - 1] == NEWLINE
      ensures forall i :: 0 <= i < |text| - 1 ==> text[i] == cryptoKey[i] && text[i] != NUL
      ensures cryptoKey[|text| - 1] == NUL
    {
      assert cryptoKey[..][KEY_SIZE - 1] == NUL;
      KeyDisplay(cryptoKey[..])
    }

    /** key_store(buf, |buf|): returns the count stored or -EINVAL. */
    method Store(buf: seq<Byte>) returns (r: int)
      requires Valid()
      modifies this`keySize, cryptoKey
      ensures Valid()
      ensures !ValidKeyLength(|buf|) ==>
        r == -EINVAL && keySize == old(keySize) && cryptoKey[..] == old(cryptoKey[..])
      ensures ValidKeyLength(|buf|) ==>
        r == |buf| && keySize == |buf| && cryptoKey[..] == StoredKey(old(cryptoKey[..]), buf)
    {
      if !ValidKeyLength(|buf|) {
        return -EINVAL;
      }
      MemCpy(cryptoKey, 0, buf[..CopiedLength(buf)] + [NUL]);
      LastKeyByteStaysNul(old(cryptoKey[..]), buf);
      assert cryptoKey[KEY_SIZE - 1] == cryptoKey[..][KEY_SIZE - 1];
      keySize := |buf|;
      r := |buf|;
    }
  }
}
