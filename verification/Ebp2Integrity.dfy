/**
 * Integrity of EBP2 under ideal authenticated encryption: the only texts that open under the
 * storage key are those that were sealed with it.
 */
module Ebp2Integrity {
  import opened Bytes
  import opened Aead
  import opened Ebp2
  import opened Ebp2Whole

  /** What one run of the encrypter sealed. */
  datatype SealedFile = SealedFile(objectKey: Buffer, chunkSize: nat, totalSize: nat, data: Buffer)

  /** `plain` is chunk i of `f`, sealed with `aad`. */
  predicate SealedAs(f: SealedFile, i: nat, aad: Buffer, plain: Buffer) {
    && 0 < f.chunkSize < MAX_U32
    && f.totalSize < MAX_SAFE
    && i < MAX_U32
    && Pos(i, f.chunkSize) < |f.data|
    && aad == Aad(f.objectKey, i, f.chunkSize, f.totalSize, VERSION)
    && plain == ChunkAt(f.data, f.chunkSize, i)
  }

  /**
   * The log of the storage key: `files` were sealed chunk by chunk, and `blobs` are the AADs of the
   * one-shot EBP1 objects sealed with the same key. Nothing else opens.
   */
  ghost predicate Ideal(cipher: Cipher, key: Buffer, files: set<SealedFile>, blobs: set<Buffer>) {
    forall iv, aad, s {:trigger cipher.open(key, iv, aad, s)} ::
      cipher.open(key, iv, aad, s).Some? ==>
        aad in blobs || exists f, i :: f in files && SealedAs(f, i, aad, cipher.open(key, iv, aad, s).value)
  }

  /** `file` is the only one sealed for its object key, and no EBP1 AAD is that key plus 17 bytes. */
  ghost predicate OnlyFileFor(file: SealedFile, files: set<SealedFile>, blobs: set<Buffer>) {
    && file in files
    && (forall f :: f in files && f.objectKey == file.objectKey ==> f == file)
    && (forall b :: b in blobs && |b| == |file.objectKey| + 17 ==> b[..|file.objectKey|] != file.objectKey)
  }

  lemma {:induction false} ReadLEBound(b: Buffer)
    ensures ReadLE(b) < Pow256(|b|)
  {
    if b != [] {
      ReadLEBound(b[1..]);
    }
  }

  lemma SuffixParts(index: nat, chunkSize: nat, totalSize: nat, version: byte)
    ensures var s := AadSuffix(index, chunkSize, totalSize, version);
            && s[..4] == UIntLE(4, index)
            && s[4..8] == UIntLE(4, chunkSize)
            && s[8..16] == UIntLE(8, totalSize)
            && s[16] == version
  {
  }

  /** The AAD determines the object key, the chunk index, both sizes and the version. */
  lemma AadInjective(k1: Buffer, i1: nat, c1: nat, t1: nat, v1: byte, k2: Buffer, i2: nat, c2: nat, t2: nat, v2: byte)
    requires i1 < MAX_U32 && c1 < MAX_U32 && t1 < MAX_U64
    requires i2 < MAX_U32 && c2 < MAX_U32 && t2 < MAX_U64
    requires Aad(k1, i1, c1, t1, v1) == Aad(k2, i2, c2, t2, v2)
    ensures k1 == k2 && i1 == i2 && c1 == c2 && t1 == t2 && v1 == v2
  {
    var s1, s2 := AadSuffix(i1, c1, t1, v1), AadSuffix(i2, c2, t2, v2);
    SameSplit(k1, s1, k2, s2);
    SuffixParts(i1, c1, t1, v1);
    SuffixParts(i2, c2, t2, v2);
    PowValues();
    UIntLEInjective(4, i1, i2);
    UIntLEInjective(4, c1, c2);
    UIntLEInjective(8, t1, t2);
  }

  lemma SameSplit(a1: Buffer, b1: Buffer, a2: Buffer, b2: Buffer)
    requires a1 + b1 == a2 + b2 && |b1| == |b2|
    ensures a1 == a2 && b1 == b2
  {
    assert (a1 + b1)[..|a1|] == a1 && (a2 + b2)[..|a2|] == a2;
    assert (a1 + b1)[|a1|..] == b1 && (a2 + b2)[|a2|..] == b2;
  }

  /** Whatever opens for this object key is the chunk of its file with that very index and those very sizes. */
  lemma OpenedIsSealed(cipher: Cipher, key: Buffer, files: set<SealedFile>, blobs: set<Buffer>, file: SealedFile,
                       h: Parsed, index: nat, iv: Buffer, s: Sealed)
    requires Ideal(cipher, key, files, blobs) && OnlyFileFor(file, files, blobs)
    requires Encodable(h, index) && h.chunkSize < MAX_U32
    requires cipher.open(key, iv, Aad(file.objectKey, index, h.chunkSize, h.totalSize, h.version), s).Some?
    ensures h == Parsed(VERSION, file.chunkSize, file.totalSize)
    ensures 0 < file.chunkSize && Pos(index, file.chunkSize) < |file.data|
    ensures cipher.open(key, iv, Aad(file.objectKey, index, h.chunkSize, h.totalSize, h.version), s).value
         == ChunkAt(file.data, file.chunkSize, index)
  {
    var aad := Aad(file.objectKey, index, h.chunkSize, h.totalSize, h.version);
    assert |aad| == |file.objectKey| + 17 && aad[..|file.objectKey|] == file.objectKey;
    var plain := cipher.open(key, iv, aad, s).value;
    assert aad !in blobs;
    var f, i :| f in files && SealedAs(f, i, aad, plain);
    AadInjective(file.objectKey, index, h.chunkSize, h.totalSize, h.version,
                 f.objectKey, i, f.chunkSize, f.totalSize, VERSION);
  }

  lemma OpenedChunk(cipher: Cipher, key: Buffer, files: set<SealedFile>, blobs: set<Buffer>, file: SealedFile,
                    h: Parsed, sealed: Buffer, index: nat)
    requires Ideal(cipher, key, files, blobs) && OnlyFileFor(file, files, blobs)
    requires Encodable(h, index) && h.chunkSize < MAX_U32 && |sealed| >= CHUNK_OVERHEAD
    requires OpenChunk(cipher, key, file.objectKey, h, sealed, index).Some?
    ensures h == Parsed(VERSION, file.chunkSize, file.totalSize)
    ensures 0 < file.chunkSize && Pos(index, file.chunkSize) < |file.data|
    ensures OpenChunk(cipher, key, file.objectKey, h, sealed, index).value == ChunkAt(file.data, file.chunkSize, index)
  {
    OpenedIsSealed(cipher, key, files, blobs, file, h, index, sealed[..IV_LEN],
                   Sealed(sealed[IV_LEN..CHUNK_OVERHEAD], sealed[CHUNK_OVERHEAD..]));
  }

  /** Every sealed chunk that opens under this header is the file's chunk of that index. */
  ghost predicate Authentic(cipher: Cipher, key: Buffer, file: SealedFile, h: Parsed) {
    forall sealed, index {:trigger OpenChunk(cipher, key, file.objectKey, h, sealed, index)} ::
      |sealed| >= CHUNK_OVERHEAD && Encodable(h, index)
        && OpenChunk(cipher, key, file.objectKey, h, sealed, index).Some? ==>
        OpenChunk(cipher, key, file.objectKey, h, sealed, index).value == ChunkAt(file.data, file.chunkSize, index)
  }

  lemma IdealIsAuthentic(cipher: Cipher, key: Buffer, files: set<SealedFile>, blobs: set<Buffer>, file: SealedFile,
                         h: Parsed)
    requires Ideal(cipher, key, files, blobs) && OnlyFileFor(file, files, blobs)
    requires h.chunkSize < MAX_U32
    ensures Authentic(cipher, key, file, h)
  {
    forall sealed: Buffer, index: nat
      | |sealed| >= CHUNK_OVERHEAD && Encodable(h, index)
        && OpenChunk(cipher, key, file.objectKey, h, sealed, index).Some?
      ensures OpenChunk(cipher, key, file.objectKey, h, sealed, index).value
                == ChunkAt(file.data, file.chunkSize, index)
    {
      OpenedChunk(cipher, key, files, blobs, file, h, sealed, index);
    }
  }

  lemma {:induction false} AcceptedFrom(cipher: Cipher, key: Buffer, file: SealedFile, h: Parsed, rest: Buffer,
                                        index: nat) returns (m: nat)
    requires Authentic(cipher, key, file, h)
    requires OpenFrom(cipher, key, file.objectKey, h, rest, index).Some?
    ensures index <= m && Pos(index, file.chunkSize) <= Pos(m, file.chunkSize)
    ensures OpenFrom(cipher, key, file.objectKey, h, rest, index).value
              == ChunksBetween(file.data, file.chunkSize, index, m)
    decreases |rest|
  {
    var encLen := CHUNK_OVERHEAD + PlainLen(h.chunkSize, h.totalSize, index);
    if rest == [] || Pos(index, h.chunkSize) >= h.totalSize || encLen > |rest| {
      m := index;
      assert ChunksBetween(file.data, file.chunkSize, index, m) == [];
    } else {
      OpenStep(cipher, key, file.objectKey, h, rest, index);
      m := AcceptedFrom(cipher, key, file, h, rest[encLen..], index + 1);
      ChunksBetweenStep(file.data, file.chunkSize, index, m);
    }
  }

  ghost predicate ChunkAlignedPrefix(p: Buffer, data: Buffer, chunkSize: nat) {
    p <= data && (p == data || exists m :: |p| == Pos(m, chunkSize))
  }

  /**
   * Whatever bytes the store hands back (reordered, truncated or spliced chunks, an altered header),
   * if whole decryption does not throw, it yields a chunk-aligned prefix of the one file sealed
   * for this object key.
   */
  lemma AcceptedIsPrefix(cipher: Cipher, key: Buffer, files: set<SealedFile>, blobs: set<Buffer>, file: SealedFile,
                         buf: Buffer)
    requires Ideal(cipher, key, files, blobs) && OnlyFileFor(file, files, blobs)
    requires Whole(cipher, key, file.objectKey, buf).Some?
    ensures ChunkAlignedPrefix(Whole(cipher, key, file.objectKey, buf).value, file.data, file.chunkSize)
  {
    var h := ParseHeader(buf).value;
    ReadLEBound(buf[5..9]);
    PowValues();
    IdealIsAuthentic(cipher, key, files, blobs, file, h);
    var m := AcceptedFrom(cipher, key, file, h, buf[HEADER_LEN..], 0);
    var p := Whole(cipher, key, file.objectKey, buf).value;
    assert p == ChunksBetween(file.data, file.chunkSize, 0, m);
    if |file.data| > Pos(m, file.chunkSize) {
      assert |p| == Pos(m, file.chunkSize);
    }
  }
}
