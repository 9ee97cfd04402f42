/** The two containers byte by byte (src/lib/storageEncryption.ts). */
module Formats {
  import opened Bytes
  import opened Aead
  import E1 = Ebp1
  import opened Ebp2

  lemma DivideTwice(v: nat, p: nat)
    requires p > 0
    ensures v / 256 / p == v / (256 * p)
  {
    var q, r := v / 256 / p, v / 256 % p;
    assert v / 256 == q * p + r;
    assert v == 256 * (q * p + r) + v % 256;
    assert 256 * (q * p + r) == (256 * p) * q + 256 * r;
    assert 0 <= 256 * r + v % 256 < 256 * p;
    Quotient(v, 256 * p, q, 256 * r + v % 256);
  }

  lemma Quotient(v: nat, d: nat, q: nat, r: nat)
    requires d > 0 && v == d * q + r && r < d
    ensures v / d == q
  {
    var k := v / d;
    assert v == d * k + v % d;
    assert d * (q + 1) == d * q + d && d * (k + 1) == d * k + d;
    FactorLess(d, k, q + 1);
    FactorLess(d, q, k + 1);
  }

  lemma FactorMonotone(d: nat, a: nat, b: nat)
    requires a <= b
    ensures d * a <= d * b
  {
  }

  lemma FactorLess(d: nat, a: nat, b: nat)
    requires d * a < d * b
    ensures a < b
  {
    if b <= a {
      FactorMonotone(d, b, a);
    }
  }

  /** The lowest eight bits come first. */
  lemma {:induction false} LittleEndian(width: nat, v: nat, i: nat)
    requires i < width
    ensures UIntLE(width, v)[i] == v / Pow256(i) % 256
  {
    if i > 0 {
      LittleEndian(width - 1, v / 256, i - 1);
      DivideTwice(v, Pow256(i - 1));
    }
  }

  /** "EBP2", the version, and the two sizes in four and eight bytes. */
  lemma HeaderLayout(chunkSize: nat, totalSize: nat)
    ensures var h := Header(chunkSize, totalSize);
            && |h| == 17 && h[..4] == [0x45, 0x42, 0x50, 0x32] && h[4] == 1
            && h[5..9] == UIntLE(4, chunkSize) && h[9..17] == UIntLE(8, totalSize)
  {
  }

  /** The key, the chunk's index, the two sizes and the version, in four, four, eight bytes and one. */
  lemma AadLayout(objectKey: Buffer, index: nat, chunkSize: nat, totalSize: nat, version: byte)
    ensures var a, n := Aad(objectKey, index, chunkSize, totalSize, version), |objectKey|;
            && |a| == n + 17 && a[..n] == objectKey
            && a[n..n + 4] == UIntLE(4, index) && a[n + 4..n + 8] == UIntLE(4, chunkSize)
            && a[n + 8..n + 16] == UIntLE(8, totalSize) && a[n + 16] == version
  {
    var a, n := Aad(objectKey, index, chunkSize, totalSize, version), |objectKey|;
    var s := AadSuffix(index, chunkSize, totalSize, version);
    assert a[n..] == s;
    assert a[n..n + 4] == s[..4] && a[n + 4..n + 8] == s[4..8] && a[n + 8..n + 16] == s[8..16];
  }

  /** A chunk is its nonce, its tag and its ciphertext, sealed under the AAD of its index. */
  lemma ChunkLayout(ctx: Context, index: nat, iv: Buffer, plain: Buffer)
    requires ctx.cipher.Correct() && |iv| == 12
    ensures var c := SealChunk(ctx, index, iv, plain);
            var aad := Aad(ctx.objectKey, index, ctx.chunkSize, ctx.totalSize, ctx.version);
            && |c| == 28 + |plain| && c[..12] == iv
            && Sealed(c[12..28], c[28..]) == ctx.cipher.seal(ctx.key, iv, aad, plain)
  {
    var aad := Aad(ctx.objectKey, index, ctx.chunkSize, ctx.totalSize, ctx.version);
    var s := ctx.cipher.seal(ctx.key, iv, aad, plain);
    assert |s.tag| == TAG_LEN;
  }

  /** The one-shot container: "EBP1", the nonce, the tag and the ciphertext. */
  lemma BlobLayout(cipher: Cipher, key: Buffer, iv: Buffer, aad: Buffer, plain: Buffer)
    requires cipher.Correct() && |iv| == 12
    ensures var b := E1.EncryptBuffer(cipher, key, iv, aad, plain);
            && |b| == 32 + |plain| && b[..4] == [0x45, 0x42, 0x50, 0x31] && b[4..16] == iv
            && Sealed(b[16..32], b[32..]) == cipher.seal(key, iv, aad, plain)
  {
    var s := cipher.seal(key, iv, aad, plain);
    assert |s.tag| == TAG_LEN;
  }

  /** Only what starts with "EBP1" and has a nonce and a tag after it is taken for a blob. */
  lemma BlobIsRecognised(b: Buffer)
    ensures E1.IsEncryptedPayload(b) <==> |b| >= 32 && b[0] == 0x45 && b[1] == 0x42 && b[2] == 0x50 && b[3] == 0x31
  {
    if |b| >= 4 && b[0] == 0x45 && b[1] == 0x42 && b[2] == 0x50 && b[3] == 0x31 {
      assert b[..4] == E1.MAGIC;
    }
    if E1.IsEncryptedPayload(b) {
      assert b[..4][0] == 0x45 && b[..4][1] == 0x42 && b[..4][2] == 0x50 && b[..4][3] == 0x31;
    }
  }
}
