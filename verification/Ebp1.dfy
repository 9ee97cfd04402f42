/** The one-shot EBP1 container (src/lib/storageEncryption.ts): `MAGIC ++ iv ++ tag ++ ciphertext`. */
module Ebp1 {
  import opened Bytes
  import opened Aead

  const MAGIC: Buffer := [0x45, 0x42, 0x50, 0x31] // "EBP1"
  const OVERHEAD := 32

  /** `isEncryptedPayload`. */
  predicate IsEncryptedPayload(buf: Buffer) {
    |buf| >= 4 + IV_LEN + TAG_LEN && buf[..4] == MAGIC
  }

  /** `encryptBuffer`; no AAD and an empty AAD are the same. */
  function EncryptBuffer(cipher: Cipher, key: Buffer, iv: Buffer, aad: Buffer, plain: Buffer): Buffer {
    var s := cipher.seal(key, iv, aad, plain);
    MAGIC + iv + s.tag + s.ciphertext
  }

  /** `decryptBuffer`; None when it throws. */
  function DecryptBuffer(cipher: Cipher, payload: Buffer, key: Buffer, aad: Buffer): Option<Buffer> {
    if !IsEncryptedPayload(payload) then None
    else cipher.open(key, payload[4..16], aad, Sealed(payload[16..32], payload[32..]))
  }

  lemma DecryptInvertsEncrypt(cipher: Cipher, key: Buffer, iv: Buffer, aad: Buffer, plain: Buffer)
    requires cipher.Correct() && |iv| == IV_LEN
    ensures |EncryptBuffer(cipher, key, iv, aad, plain)| == OVERHEAD + |plain|
    ensures DecryptBuffer(cipher, EncryptBuffer(cipher, key, iv, aad, plain), key, aad) == Some(plain)
  {
    var s := cipher.seal(key, iv, aad, plain);
    assert |s.tag| == TAG_LEN;
    var payload := EncryptBuffer(cipher, key, iv, aad, plain);
    assert payload[..4] == MAGIC;
    assert payload[4..16] == iv;
    assert payload[16..32] == s.tag;
    assert payload[32..] == s.ciphertext;
  }

  /** A payload that decrypts is 32 bytes longer than its plaintext. */
  lemma DecryptedLength(cipher: Cipher, payload: Buffer, key: Buffer, aad: Buffer)
    requires cipher.LengthPreserving()
    requires DecryptBuffer(cipher, payload, key, aad).Some?
    ensures |payload| == OVERHEAD + |DecryptBuffer(cipher, payload, key, aad).value|
  {
    assert |payload[32..]| == |payload| - 32;
  }
}
