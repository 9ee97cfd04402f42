/**
 * The EBP2 chunked container (src/lib/storageEncryption.ts): a 17-byte header followed by
 * independently sealed chunks `iv ++ tag ++ ciphertext`, each bound to its object, index and sizes.
 */
module Ebp2 {
  import opened Bytes
  import opened Aead

  const HEADER_LEN := 17
  const CHUNK_OVERHEAD := IV_LEN + TAG_LEN
  const MAGIC: Buffer := [0x45, 0x42, 0x50, 0x32] // "EBP2"
  const VERSION: byte := 1
  const DEFAULT_CHUNK_SIZE := 1024 * 1024

  const MAX_U32 := 0x1_0000_0000
  const MAX_U64 := 0x1_0000_0000_0000_0000
  const MAX_SAFE := 0x20_0000_0000_0000 // 2^53

  /** What one object is sealed under. */
  datatype Context = Context(cipher: Cipher, key: Buffer, objectKey: Buffer, chunkSize: nat, totalSize: nat,
                             version: byte)
  {
    /** Sizes the header fields, the AAD fields and a JavaScript number can hold. */
    predicate ValidSizes() {
      && 0 < chunkSize < MAX_U32
      && totalSize < MAX_SAFE
      && totalSize <= 0x1_0000_0000 * chunkSize
    }

    ghost predicate Valid() {
      cipher.Correct() && ValidSizes()
    }
  }

  function Header(chunkSize: nat, totalSize: nat): (h: Buffer)
    ensures |h| == HEADER_LEN
  {
    MAGIC + [VERSION] + UIntLE(4, chunkSize) + UIntLE(8, totalSize)
  }

  function AadSuffix(index: nat, chunkSize: nat, totalSize: nat, version: byte): (s: Buffer)
    ensures |s| == 17
  {
    UIntLE(4, index) + UIntLE(4, chunkSize) + UIntLE(8, totalSize) + [version]
  }

  /** `buildEbp2Aad`. */
  function Aad(objectKey: Buffer, index: nat, chunkSize: nat, totalSize: nat, version: byte): Buffer {
    objectKey + AadSuffix(index, chunkSize, totalSize, version)
  }

  // ---------------------------------------------------------------- cutting a file into chunks

  /** The product i * chunkSize, by repeated addition, so that offset arithmetic stays linear. */
  function Pos(i: nat, chunkSize: nat): nat {
    if i == 0 then 0 else Pos(i - 1, chunkSize) + chunkSize
  }

  lemma {:induction false} PosIsProduct(i: nat, chunkSize: nat)
    ensures Pos(i, chunkSize) == i * chunkSize
  {
    if i > 0 {
      PosIsProduct(i - 1, chunkSize);
      assert i * chunkSize == (i - 1) * chunkSize + chunkSize;
    }
  }

  lemma {:induction false} PosMonotone(i: nat, j: nat, chunkSize: nat)
    requires i <= j
    ensures Pos(i, chunkSize) <= Pos(j, chunkSize)
  {
    if i < j {
      PosMonotone(i, j - 1, chunkSize);
    }
  }

  /** The plaintext of chunk i: those bytes of [i*chunkSize, (i+1)*chunkSize) that exist. */
  function ChunkAt(data: Buffer, chunkSize: nat, i: nat): Buffer {
    data[Min(|data|, Pos(i, chunkSize))..Min(|data|, Pos(i + 1, chunkSize))]
  }

  lemma ChunkAtEnds(data: Buffer, chunkSize: nat, i: nat)
    ensures |ChunkAt(data, chunkSize, i)| == Min(|data|, Pos(i + 1, chunkSize)) - Min(|data|, Pos(i, chunkSize))
  {
  }

  /** How many chunks a file of the given length has. */
  function ChunkCount(len: int, chunkSize: nat): nat
    requires chunkSize > 0
    decreases len
  {
    if len <= 0 then 0 else 1 + ChunkCount(len - chunkSize, chunkSize)
  }

  lemma {:induction false} ChunkCountBounds(len: nat, chunkSize: nat, i: nat)
    requires chunkSize > 0
    ensures i < ChunkCount(len, chunkSize) <==> Pos(i, chunkSize) < len
    decreases len
  {
    if i > 0 && len > 0 {
      if len >= chunkSize {
        ChunkCountBounds(len - chunkSize, chunkSize, i - 1);
      } else {
        PosMonotone(1, i, chunkSize);
        assert ChunkCount(len - chunkSize, chunkSize) == 0;
      }
    }
  }

  lemma ChunkCountIs(len: nat, chunkSize: nat, n: nat)
    requires Pos(n, chunkSize) <= len < Pos(n, chunkSize) + chunkSize
    ensures ChunkCount(len, chunkSize) == if len == Pos(n, chunkSize) then n else n + 1
  {
    ChunkCountBounds(len, chunkSize, n);
    ChunkCountBounds(len, chunkSize, n + 1);
    if n > 0 {
      ChunkCountBounds(len, chunkSize, n - 1);
    }
  }

  // ---------------------------------------------------------------- encryption

  function SealChunk(ctx: Context, index: nat, iv: Buffer, plain: Buffer): Buffer {
    var s := ctx.cipher.seal(ctx.key, iv, Aad(ctx.objectKey, index, ctx.chunkSize, ctx.totalSize, ctx.version), plain);
    iv + s.tag + s.ciphertext
  }

  // The random 12-byte nonce of each chunk.
  type IvSource = nat -> Buffer

  ghost predicate ValidIvs(ivs: IvSource) {
    forall i :: |ivs(i)| == IV_LEN
  }

  /** The first m sealed chunks of `data`, one after the other. */
  function Body(ctx: Context, ivs: IvSource, data: Buffer, m: nat): Buffer {
    if m == 0 then []
    else Body(ctx, ivs, data, m - 1) + SealChunk(ctx, m - 1, ivs(m - 1), ChunkAt(data, ctx.chunkSize, m - 1))
  }

  /** The stored object for a given content. */
  function Encode(ctx: Context, ivs: IvSource, data: Buffer): Buffer
    requires ctx.chunkSize > 0
  {
    Header(ctx.chunkSize, ctx.totalSize) + Body(ctx, ivs, data, ChunkCount(|data|, ctx.chunkSize))
  }

  lemma SealChunkLength(ctx: Context, index: nat, iv: Buffer, plain: Buffer)
    requires ctx.cipher.Correct() && |iv| == IV_LEN
    ensures |SealChunk(ctx, index, iv, plain)| == CHUNK_OVERHEAD + |plain|
  {
    var s := ctx.cipher.seal(ctx.key, iv, Aad(ctx.objectKey, index, ctx.chunkSize, ctx.totalSize, ctx.version), plain);
    assert |s.tag| == TAG_LEN;
  }

  lemma {:induction false} BodyLength(ctx: Context, ivs: IvSource, data: Buffer, m: nat)
    requires ctx.cipher.Correct() && ValidIvs(ivs)
    ensures |Body(ctx, ivs, data, m)| == 28 * m + Min(|data|, Pos(m, ctx.chunkSize))
  {
    if m > 0 {
      BodyLength(ctx, ivs, data, m - 1);
      ChunkAtEnds(data, ctx.chunkSize, m - 1);
      SealChunkLength(ctx, m - 1, ivs(m - 1), ChunkAt(data, ctx.chunkSize, m - 1));
    }
  }

  /** Full chunks do not depend on the bytes after them. */
  lemma {:induction false} BodyStable(ctx: Context, ivs: IvSource, data: Buffer, more: Buffer, m: nat)
    requires Pos(m, ctx.chunkSize) <= |data|
    ensures Body(ctx, ivs, data + more, m) == Body(ctx, ivs, data, m)
  {
    if m > 0 {
      BodyStable(ctx, ivs, data, more, m - 1);
      assert ChunkAt(data + more, ctx.chunkSize, m - 1) == ChunkAt(data, ctx.chunkSize, m - 1);
    }
  }

  lemma {:induction false} BodyPrefix(ctx: Context, ivs: IvSource, data: Buffer, i: nat, m: nat)
    requires i <= m
    ensures Body(ctx, ivs, data, i) <= Body(ctx, ivs, data, m)
  {
    if i < m {
      BodyPrefix(ctx, ivs, data, i, m - 1);
    }
  }

  /**
   * The state that `encryptToEbp2Stream` keeps between "data" events: the bytes not yet cut,
   * the index of the next chunk and what has been written to the output.
   */
  class Encrypter {
    const ctx: Context
    const ivs: IvSource
    var buffer: Buffer
    var chunkIndex: nat
    var out: Buffer
    ghost var received: Buffer

    /** The chunks written so far are the first full chunks of what was received; the buffer holds the rest. */
    ghost predicate Pending()
      reads this
    {
      && ctx.chunkSize > 0
      && Pos(chunkIndex, ctx.chunkSize) + |buffer| == |received|
      && received == received[..Pos(chunkIndex, ctx.chunkSize)] + buffer
      && out == Header(ctx.chunkSize, ctx.totalSize) + Body(ctx, ivs, received, chunkIndex)
    }

    ghost predicate Valid()
      reads this
    {
      Pending() && |buffer| < ctx.chunkSize
    }

    constructor (ctx: Context, ivs: IvSource)
      requires ctx.chunkSize > 0
      ensures Valid() && received == []
      ensures this.ctx == ctx && this.ivs == ivs
    {
      this.ctx := ctx;
      this.ivs := ivs;
      buffer := [];
      chunkIndex := 0;
      out := Header(ctx.chunkSize, ctx.totalSize);
      received := [];
    }

    method ProcessChunk(plain: Buffer)
      modifies this`chunkIndex, this`out
      ensures plain == [] ==> out == old(out) && chunkIndex == old(chunkIndex)
      ensures plain != [] ==>
                && out == old(out) + SealChunk(ctx, old(chunkIndex), ivs(old(chunkIndex)), plain)
                && chunkIndex == old(chunkIndex) + 1
    {
      if |plain| == 0 {
        return;
      }
      var iv := ivs(chunkIndex);
      var aad := Aad(ctx.objectKey, chunkIndex, ctx.chunkSize, ctx.totalSize, ctx.version);
      var s := ctx.cipher.seal(ctx.key, iv, aad, plain);
      out := out + (iv + s.tag + s.ciphertext);
      chunkIndex := chunkIndex + 1;
    }

    /** One round of the "data" loop: cut a full chunk off the buffer and write it. */
    method CutChunk()
      requires Pending() && |buffer| >= ctx.chunkSize
      modifies this`buffer, this`chunkIndex, this`out
      ensures Pending() && |buffer| < old(|buffer|)
    {
      var plain := buffer[..ctx.chunkSize];
      assert plain == ChunkAt(received, ctx.chunkSize, chunkIndex);
      ProcessChunk(plain);
      buffer := buffer[ctx.chunkSize..];
    }

    method Append(chunk: Buffer)
      requires Valid()
      modifies this`buffer, this`received
      ensures Pending()
      ensures received == old(received) + chunk
    {
      BodyStable(ctx, ivs, received, chunk, chunkIndex);
      buffer := buffer + chunk;
      received := received + chunk;
    }

    method OnData(chunk: Buffer)
      requires Valid()
      modifies this
      ensures Valid()
      ensures received == old(received) + chunk
    {
      Append(chunk);
      while |buffer| >= ctx.chunkSize
        invariant Pending()
        invariant received == old(received) + chunk
        decreases |buffer|
      {
        CutChunk();
      }
    }

    method OnEnd()
      requires Valid()
      modifies this`chunkIndex, this`out
      ensures out == Encode(ctx, ivs, received)
    {
      ChunkCountIs(|received|, ctx.chunkSize, chunkIndex);
      if |buffer| > 0 {
        assert buffer == ChunkAt(received, ctx.chunkSize, chunkIndex);
        ProcessChunk(buffer);
      }
    }
  }

  /** The whole stream: the stored object depends on the concatenation of the fragments only. */
  method EncryptStream(ctx: Context, ivs: IvSource, fragments: seq<Buffer>) returns (payload: Buffer)
    requires ctx.chunkSize > 0
    ensures payload == Encode(ctx, ivs, Concat(fragments))
  {
    var encrypter := new Encrypter(ctx, ivs);
    for i := 0 to |fragments|
      invariant encrypter.Valid() && encrypter.ctx == ctx && encrypter.ivs == ivs
      invariant encrypter.received == Concat(fragments[..i])
    {
      ConcatTake(fragments, i);
      encrypter.OnData(fragments[i]);
    }
    assert fragments[..|fragments|] == fragments;
    encrypter.OnEnd();
    payload := encrypter.out;
  }

  // ---------------------------------------------------------------- offsets

  /** Length of the sealed form of the first i chunks, counted as the source's loop counts. */
  function SealedLengthBefore(chunkSize: nat, totalSize: nat, i: nat): int {
    if i == 0 then 0
    else
      SealedLengthBefore(chunkSize, totalSize, i - 1)
      + CHUNK_OVERHEAD + Min(chunkSize, totalSize - Pos(i - 1, chunkSize))
  }

  /** The loop's sum has the closed form i * (28 + chunkSize) exactly as long as every chunk before i is full. */
  lemma {:induction false} SealedLengthClosedForm(chunkSize: nat, totalSize: nat, i: nat)
    requires chunkSize > 0
    ensures SealedLengthBefore(chunkSize, totalSize, i) <= 28 * i + Pos(i, chunkSize)
    ensures SealedLengthBefore(chunkSize, totalSize, i) == 28 * i + Pos(i, chunkSize)
       <==> i == 0 || Pos(i, chunkSize) <= totalSize
  {
    if i > 0 {
      SealedLengthClosedForm(chunkSize, totalSize, i - 1);
    }
  }

  /** `getEbp2ChunkEncryptedRange`. */
  method ChunkEncryptedRange(chunkSize: nat, totalSize: nat, chunkIndex: nat)
    returns (start: int, length: int, plainLen: int)
    requires chunkSize > 0
    ensures chunkIndex == 0 || chunkIndex * chunkSize <= totalSize
       <==> start == HEADER_LEN + chunkIndex * (CHUNK_OVERHEAD + chunkSize)
    ensures start == EncryptedStart(chunkSize, totalSize, chunkIndex)
    ensures plainLen == PlainLen(chunkSize, totalSize, chunkIndex)
    ensures length == CHUNK_OVERHEAD + plainLen
  {
    var offset := HEADER_LEN;
    for j := 0 to chunkIndex
      invariant offset == EncryptedStart(chunkSize, totalSize, j)
    {
      PosIsProduct(j, chunkSize);
      var plain := Min(chunkSize, totalSize - j * chunkSize);
      offset := offset + IV_LEN + TAG_LEN + plain;
    }
    PosIsProduct(chunkIndex, chunkSize);
    plainLen := Min(chunkSize, Max(0, totalSize - chunkIndex * chunkSize));
    var encLen := IV_LEN + TAG_LEN + plainLen;
    start, length := offset, encLen;
    SealedLengthClosedForm(chunkSize, totalSize, chunkIndex);
    assert chunkIndex * (CHUNK_OVERHEAD + chunkSize) == 28 * chunkIndex + chunkIndex * chunkSize;
  }

  function EncryptedStart(chunkSize: nat, totalSize: nat, i: nat): int {
    HEADER_LEN + SealedLengthBefore(chunkSize, totalSize, i)
  }

  function PlainLen(chunkSize: nat, totalSize: nat, i: nat): nat {
    Min(chunkSize, Max(0, totalSize - Pos(i, chunkSize)))
  }

  lemma ChunkAtLength(data: Buffer, chunkSize: nat, i: nat)
    ensures |ChunkAt(data, chunkSize, i)| == PlainLen(chunkSize, |data|, i)
  {
  }

  /**
   * The byte range computed for chunk i holds exactly that chunk's sealed form; the next range starts where it ends.
   */
  lemma ChunkBytes(ctx: Context, ivs: IvSource, data: Buffer, i: nat)
    requires ctx.Valid() && ValidIvs(ivs) && |data| == ctx.totalSize
    requires Pos(i, ctx.chunkSize) < |data|
    ensures var at := EncryptedStart(ctx.chunkSize, ctx.totalSize, i);
            var end := at + CHUNK_OVERHEAD + PlainLen(ctx.chunkSize, ctx.totalSize, i);
            var enc := Encode(ctx, ivs, data);
            && HEADER_LEN <= at <= end <= |enc|
            && end == EncryptedStart(ctx.chunkSize, ctx.totalSize, i + 1)
            && enc[at..end] == SealChunk(ctx, i, ivs(i), ChunkAt(data, ctx.chunkSize, i))
            && (Pos(i + 1, ctx.chunkSize) >= |data| ==> end == |enc|)
  {
    StartIsBodyLength(ctx, ivs, data, i);
    ChunkEnd(ctx, ivs, data, i);
    ChunkInBody(ctx, ivs, data, i, ChunkCount(|data|, ctx.chunkSize));
  }

  lemma ChunkEnd(ctx: Context, ivs: IvSource, data: Buffer, i: nat)
    requires ctx.cipher.Correct() && ValidIvs(ivs) && |data| == ctx.totalSize
    ensures |Body(ctx, ivs, data, i + 1)|
         == |Body(ctx, ivs, data, i)| + CHUNK_OVERHEAD + PlainLen(ctx.chunkSize, ctx.totalSize, i)
  {
    SealChunkLength(ctx, i, ivs(i), ChunkAt(data, ctx.chunkSize, i));
    ChunkAtLength(data, ctx.chunkSize, i);
  }

  lemma ChunkInBody(ctx: Context, ivs: IvSource, data: Buffer, i: nat, m: nat)
    requires i < m
    ensures var h := Header(ctx.chunkSize, ctx.totalSize);
            var a := |h| + |Body(ctx, ivs, data, i)|;
            var b := |h| + |Body(ctx, ivs, data, i + 1)|;
            && a <= b <= |h + Body(ctx, ivs, data, m)|
            && (h + Body(ctx, ivs, data, m))[a..b] == SealChunk(ctx, i, ivs(i), ChunkAt(data, ctx.chunkSize, i))
  {
    BodyPrefix(ctx, ivs, data, i + 1, m);
    SliceOfPrefix(Header(ctx.chunkSize, ctx.totalSize), Body(ctx, ivs, data, i),
                  SealChunk(ctx, i, ivs(i), ChunkAt(data, ctx.chunkSize, i)), Body(ctx, ivs, data, m));
  }

  lemma StartIsBodyLength(ctx: Context, ivs: IvSource, data: Buffer, i: nat)
    requires ctx.Valid() && ValidIvs(ivs) && |data| == ctx.totalSize
    requires Pos(i, ctx.chunkSize) < |data|
    ensures EncryptedStart(ctx.chunkSize, ctx.totalSize, i) == HEADER_LEN + |Body(ctx, ivs, data, i)|
    ensures EncryptedStart(ctx.chunkSize, ctx.totalSize, i + 1) == HEADER_LEN + |Body(ctx, ivs, data, i + 1)|
    ensures i + 1 <= ChunkCount(|data|, ctx.chunkSize)
    ensures Pos(i + 1, ctx.chunkSize) >= |data| ==> i + 1 == ChunkCount(|data|, ctx.chunkSize)
  {
    LastChunk(|data|, ctx.chunkSize, i);
    StartsInClosedForm(ctx.chunkSize, ctx.totalSize, i);
    BodyLength(ctx, ivs, data, i);
    BodyLength(ctx, ivs, data, i + 1);
  }

  lemma LastChunk(len: nat, chunkSize: nat, i: nat)
    requires chunkSize > 0 && Pos(i, chunkSize) < len
    ensures i + 1 <= ChunkCount(len, chunkSize)
    ensures Pos(i + 1, chunkSize) >= len ==> i + 1 == ChunkCount(len, chunkSize)
  {
    ChunkCountBounds(len, chunkSize, i);
    ChunkCountBounds(len, chunkSize, i + 1);
  }

  lemma StartsInClosedForm(chunkSize: nat, totalSize: nat, i: nat)
    requires chunkSize > 0 && Pos(i, chunkSize) < totalSize
    ensures EncryptedStart(chunkSize, totalSize, i) == HEADER_LEN + 28 * i + Pos(i, chunkSize)
    ensures EncryptedStart(chunkSize, totalSize, i + 1)
         == HEADER_LEN + 28 * (i + 1) + Min(totalSize, Pos(i + 1, chunkSize))
  {
    SealedLengthClosedForm(chunkSize, totalSize, i);
  }

  lemma SliceOfPrefix(h: Buffer, a: Buffer, b: Buffer, all: Buffer)
    requires a + b <= all
    ensures (h + all)[|h| + |a|..|h| + |a| + |b|] == b
  {
    assert (h + all)[|h| + |a|..|h| + |a| + |b|] == all[|a|..|a| + |b|];
    assert all[..|a + b|] == a + b;
  }

  lemma EncodedLength(ctx: Context, ivs: IvSource, data: Buffer)
    requires ctx.Valid() && ValidIvs(ivs)
    ensures |Encode(ctx, ivs, data)| == HEADER_LEN + 28 * ChunkCount(|data|, ctx.chunkSize) + |data|
  {
    var n := ChunkCount(|data|, ctx.chunkSize);
    BodyLength(ctx, ivs, data, n);
    ChunkCountBounds(|data|, ctx.chunkSize, n);
  }
}
