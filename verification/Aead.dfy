/**
 * AES-256-GCM seen from outside (NIST SP 800-38D): a pair of functions about which only the
 * functional contract is assumed. Every theorem takes the cipher as a parameter.
 */
module Aead {
  import opened Bytes

  datatype Option<+T> = None | Some(value: T)

  const IV_LEN := 12
  const TAG_LEN := 16

  datatype Sealed = Sealed(tag: Buffer, ciphertext: Buffer)

  // Arguments in order: key, iv, additional data, and the plaintext or the sealed text.
  datatype Cipher = Cipher(
    seal: (Buffer, Buffer, Buffer, Buffer) -> Sealed,
    open: (Buffer, Buffer, Buffer, Sealed) -> Option<Buffer>)
  {
    /** A text that opens is as long as its plaintext. */
    ghost predicate LengthPreserving() {
      forall k, iv, aad, s {:trigger open(k, iv, aad, s)} ::
        open(k, iv, aad, s).Some? ==> |open(k, iv, aad, s).value| == |s.ciphertext|
    }

    /** Opening inverts sealing, and tags have 16 bytes. */
    ghost predicate Correct() {
      && LengthPreserving()
      && forall k, iv, aad, p ::
           var s := seal(k, iv, aad, p);
           |s.tag| == TAG_LEN && |s.ciphertext| == |p| && open(k, iv, aad, s) == Some(p)
    }
  }
}
