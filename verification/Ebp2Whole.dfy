/** `decryptEbp2WholeFromBuffer`: sequential decryption of a buffer that starts at byte 0 of an EBP2 object. */
module Ebp2Whole {
  import opened Bytes
  import opened Aead
  import opened Ebp2

  /** `Number(bigint)`: round to 53 significant bits, ties to even. */
  function ToNumber(n: nat): nat {
    RoundTo(n, 1)
  }

  function RoundTo(n: nat, unit: nat): nat
    requires unit > 0
    decreases n - unit
  {
    if n < 0x20_0000_0000_0000 * unit then
      var q, r := n / unit, n % unit;
      if 2 * r > unit || (2 * r == unit && q % 2 == 1) then (q + 1) * unit else q * unit
    else
      RoundTo(n, 2 * unit)
  }

  lemma ToNumberExact(n: nat)
    requires n < MAX_SAFE
    ensures ToNumber(n) == n
  {
  }

  datatype Parsed = Parsed(version: byte, chunkSize: nat, totalSize: nat)

  function ParseHeader(buf: Buffer): Option<Parsed> {
    if |buf| < HEADER_LEN || buf[..4] != MAGIC then None
    else Some(Parsed(buf[4], ReadLE(buf[5..9]), ToNumber(ReadLE(buf[9..17]))))
  }

  lemma ParseHeaderInvertsHeader(chunkSize: nat, totalSize: nat, rest: Buffer)
    requires chunkSize < MAX_U32 && totalSize < MAX_SAFE
    ensures ParseHeader(Header(chunkSize, totalSize) + rest) == Some(Parsed(VERSION, chunkSize, totalSize))
  {
    var buf := Header(chunkSize, totalSize) + rest;
    PowValues();
    ReadWriteLE(4, chunkSize);
    ReadWriteLE(8, totalSize);
    assert buf[..4] == MAGIC;
    assert buf[5..9] == UIntLE(4, chunkSize);
    assert buf[9..17] == UIntLE(8, totalSize);
    ToNumberExact(totalSize);
  }

  /** Writing the AAD throws when the index or the size does not fit its field. */
  predicate Encodable(h: Parsed, index: nat) {
    index < MAX_U32 && h.totalSize < MAX_U64
  }

  /** The chunks found in `rest` from chunk `index` on, concatenated; None when decryption throws. */
  function OpenFrom(cipher: Cipher, key: Buffer, objectKey: Buffer, h: Parsed, rest: Buffer, index: nat): Option<Buffer>
    decreases |rest|
  {
    if rest == [] || Pos(index, h.chunkSize) >= h.totalSize then Some([])
    else
      var encLen := CHUNK_OVERHEAD + PlainLen(h.chunkSize, h.totalSize, index);
      if encLen > |rest| then Some([])
      else if !Encodable(h, index) then None
      else
        match OpenChunk(cipher, key, objectKey, h, rest[..encLen], index)
        case None => None
        case Some(plain) =>
          match OpenFrom(cipher, key, objectKey, h, rest[encLen..], index + 1)
          case None => None
          case Some(tail) => Some(plain + tail)
  }

  function OpenChunk(cipher: Cipher, key: Buffer, objectKey: Buffer, h: Parsed, sealed: Buffer,
                     index: nat): Option<Buffer>
    requires |sealed| >= CHUNK_OVERHEAD
  {
    cipher.open(key, sealed[..IV_LEN], Aad(objectKey, index, h.chunkSize, h.totalSize, h.version),
                Sealed(sealed[IV_LEN..CHUNK_OVERHEAD], sealed[CHUNK_OVERHEAD..]))
  }

  function Whole(cipher: Cipher, key: Buffer, objectKey: Buffer, buf: Buffer): Option<Buffer> {
    match ParseHeader(buf)
    case None => None
    case Some(h) => OpenFrom(cipher, key, objectKey, h, buf[HEADER_LEN..], 0)
  }

  function Prepend(a: Buffer, r: Option<Buffer>): Option<Buffer> {
    match r
    case None => None
    case Some(b) => Some(a + b)
  }

  /** What a complete chunk at the front of `rest` contributes. */
  lemma OpenStep(cipher: Cipher, key: Buffer, objectKey: Buffer, h: Parsed, rest: Buffer, index: nat)
    requires rest != [] && Pos(index, h.chunkSize) < h.totalSize && Encodable(h, index)
    requires CHUNK_OVERHEAD + PlainLen(h.chunkSize, h.totalSize, index) <= |rest|
    ensures OpenFrom(cipher, key, objectKey, h, rest, index)
         == StepResult(OpenChunk(cipher, key, objectKey, h,
                                 rest[..CHUNK_OVERHEAD + PlainLen(h.chunkSize, h.totalSize, index)], index),
                       OpenFrom(cipher, key, objectKey, h,
                                rest[CHUNK_OVERHEAD + PlainLen(h.chunkSize, h.totalSize, index)..], index + 1))
  {
  }

  function StepResult(piece: Option<Buffer>, tail: Option<Buffer>): Option<Buffer> {
    if piece.None? then None else Prepend(piece.value, tail)
  }

  lemma PrependTwice(chunks: seq<Buffer>, piece: Buffer, tail: Option<Buffer>)
    ensures Prepend(Concat(chunks), Prepend(piece, tail)) == Prepend(Concat(chunks + [piece]), tail)
  {
    ConcatSnoc(chunks, piece);
    if tail.Some? {
      assert Concat(chunks) + (piece + tail.value) == (Concat(chunks) + piece) + tail.value;
    }
  }

  /** What the loop comes to from some point on, in the loop's own terms: `chunks` are decrypted already. */
  function LoopFrom(cipher: Cipher, key: Buffer, objectKey: Buffer, h: Parsed, buf: Buffer, offset: nat, index: nat,
                    chunks: seq<Buffer>): Option<Buffer>
    requires offset <= |buf|
    decreases |buf| - offset
  {
    if offset == |buf| || Pos(index, h.chunkSize) >= h.totalSize then Some(Concat(chunks))
    else
      var end := offset + CHUNK_OVERHEAD + PlainLen(h.chunkSize, h.totalSize, index);
      if end > |buf| then Some(Concat(chunks))
      else if !Encodable(h, index) then None
      else
        var piece := OpenChunk(cipher, key, objectKey, h, buf[offset..end], index);
        if piece.None? then None else LoopFrom(cipher, key, objectKey, h, buf, end, index + 1, chunks + [piece.value])
  }

  /** The loop over offsets comes to what the rest of the input decrypts to, after what there is already. */
  lemma {:induction false} LoopOpensRest(cipher: Cipher, key: Buffer, objectKey: Buffer, h: Parsed, buf: Buffer,
                                         offset: nat, index: nat, chunks: seq<Buffer>)
    requires offset <= |buf|
    ensures LoopFrom(cipher, key, objectKey, h, buf, offset, index, chunks)
         == Prepend(Concat(chunks), OpenFrom(cipher, key, objectKey, h, buf[offset..], index))
    decreases |buf| - offset
  {
    var rest := buf[offset..];
    var end := offset + CHUNK_OVERHEAD + PlainLen(h.chunkSize, h.totalSize, index);
    assert Concat(chunks) + [] == Concat(chunks);
    if rest != [] && Pos(index, h.chunkSize) < h.totalSize && end <= |buf| && Encodable(h, index) {
      assert rest[..end - offset] == buf[offset..end];
      assert rest[end - offset..] == buf[end..];
      OpenStep(cipher, key, objectKey, h, rest, index);
      var piece := OpenChunk(cipher, key, objectKey, h, buf[offset..end], index);
      if piece.Some? {
        LoopOpensRest(cipher, key, objectKey, h, buf, end, index + 1, chunks + [piece.value]);
        PrependTwice(chunks, piece.value, OpenFrom(cipher, key, objectKey, h, buf[end..], index + 1));
      }
    }
  }

  lemma LoopOpensAll(cipher: Cipher, key: Buffer, objectKey: Buffer, h: Parsed, buf: Buffer)
    requires |buf| >= HEADER_LEN
    ensures LoopFrom(cipher, key, objectKey, h, buf, HEADER_LEN, 0, [])
         == OpenFrom(cipher, key, objectKey, h, buf[HEADER_LEN..], 0)
  {
    LoopOpensRest(cipher, key, objectKey, h, buf, HEADER_LEN, 0, []);
    var all := OpenFrom(cipher, key, objectKey, h, buf[HEADER_LEN..], 0);
    assert all.Some? ==> [] + all.value == all.value;
  }

  method DecryptWhole(cipher: Cipher, key: Buffer, objectKey: Buffer, buf: Buffer) returns (plain: Option<Buffer>)
    ensures plain == Whole(cipher, key, objectKey, buf)
  {
    var parsed := ParseHeader(buf);
    if parsed.None? {
      return None;
    }
    plain := DecryptChunks(cipher, key, objectKey, parsed.value, buf);
    LoopOpensAll(cipher, key, objectKey, parsed.value, buf);
  }

  method Times(chunkIndex: nat, chunkSize: nat) returns (at: nat)
    ensures at == Pos(chunkIndex, chunkSize)
  {
    PosIsProduct(chunkIndex, chunkSize);
    at := chunkIndex * chunkSize;
  }

  /** The decryption loop; it terminates whatever the header says. */
  method DecryptChunks(cipher: Cipher, key: Buffer, objectKey: Buffer, h: Parsed, buf: Buffer)
    returns (plain: Option<Buffer>)
    requires |buf| >= HEADER_LEN
    ensures plain == LoopFrom(cipher, key, objectKey, h, buf, HEADER_LEN, 0, [])
  {
    var chunks: seq<Buffer> := [];
    var offset := HEADER_LEN;
    var chunkIndex := 0;
    var chunkStart := 0;
    while offset < |buf| && chunkStart < h.totalSize
      invariant HEADER_LEN <= offset <= |buf|
      invariant chunkStart == Pos(chunkIndex, h.chunkSize)
      invariant LoopFrom(cipher, key, objectKey, h, buf, HEADER_LEN, 0, [])
             == LoopFrom(cipher, key, objectKey, h, buf, offset, chunkIndex, chunks)
      decreases |buf| - offset
    {
      var plainLen := Min(h.chunkSize, Max(0, h.totalSize - chunkStart));
      var encChunkLen := IV_LEN + TAG_LEN + plainLen;
      if offset + encChunkLen > |buf| {
        break;
      }
      if !Encodable(h, chunkIndex) {
        return None;
      }
      var piece := OpenChunk(cipher, key, objectKey, h, buf[offset..offset + encChunkLen], chunkIndex);
      if piece.None? {
        return None;
      }
      chunks := chunks + [piece.value];
      offset := offset + encChunkLen;
      chunkIndex := chunkIndex + 1;
      chunkStart := Times(chunkIndex, h.chunkSize);
    }
    plain := Some(Concat(chunks));
  }

  // ---------------------------------------------------------------- inversion, and prefixes

  /** How many chunks of an object are complete within its first n bytes. */
  function CompleteChunks(chunkSize: nat, totalSize: nat, n: int): (k: nat)
    requires chunkSize > 0 && n >= HEADER_LEN
    ensures k <= ChunkCount(totalSize, chunkSize)
    ensures EncryptedStart(chunkSize, totalSize, k) <= n
    ensures k < ChunkCount(totalSize, chunkSize) ==> n < EncryptedStart(chunkSize, totalSize, k + 1)
  {
    CompleteFrom(chunkSize, totalSize, n, 0)
  }

  function CompleteFrom(chunkSize: nat, totalSize: nat, n: int, i: nat): (k: nat)
    requires chunkSize > 0 && i <= ChunkCount(totalSize, chunkSize)
    requires EncryptedStart(chunkSize, totalSize, i) <= n
    ensures i <= k <= ChunkCount(totalSize, chunkSize)
    ensures EncryptedStart(chunkSize, totalSize, k) <= n
    ensures k < ChunkCount(totalSize, chunkSize) ==> n < EncryptedStart(chunkSize, totalSize, k + 1)
    decreases ChunkCount(totalSize, chunkSize) - i
  {
    if i == ChunkCount(totalSize, chunkSize) || n < EncryptedStart(chunkSize, totalSize, i + 1) then i
    else CompleteFrom(chunkSize, totalSize, n, i + 1)
  }

  function HeaderOf(ctx: Context): Parsed {
    Parsed(ctx.version, ctx.chunkSize, ctx.totalSize)
  }

  lemma OpenSealedChunk(ctx: Context, iv: Buffer, plain: Buffer, index: nat)
    requires ctx.cipher.Correct() && |iv| == IV_LEN
    ensures |SealChunk(ctx, index, iv, plain)| == CHUNK_OVERHEAD + |plain|
    ensures OpenChunk(ctx.cipher, ctx.key, ctx.objectKey, HeaderOf(ctx), SealChunk(ctx, index, iv, plain), index)
              == Some(plain)
  {
    SealChunkLength(ctx, index, iv, plain);
    var s := ctx.cipher.seal(ctx.key, iv, Aad(ctx.objectKey, index, ctx.chunkSize, ctx.totalSize, ctx.version), plain);
    var sealed := SealChunk(ctx, index, iv, plain);
    assert sealed[..IV_LEN] == iv;
    assert sealed[IV_LEN..CHUNK_OVERHEAD] == s.tag;
    assert sealed[CHUNK_OVERHEAD..] == s.ciphertext;
  }

  /** What the bytes of a prefix of the object decrypt to from chunk i on. */
  ghost function OpenRest(ctx: Context, buf: Buffer, i: nat): Option<Buffer>
    requires 0 <= EncryptedStart(ctx.chunkSize, ctx.totalSize, i) <= |buf|
  {
    OpenFrom(ctx.cipher, ctx.key, ctx.objectKey, HeaderOf(ctx),
             buf[EncryptedStart(ctx.chunkSize, ctx.totalSize, i)..], i)
  }

  /** The part of the plaintext from chunk i up to chunk k. */
  function ChunksBetween(data: Buffer, chunkSize: nat, i: nat, k: nat): Buffer
    requires Pos(i, chunkSize) <= Pos(k, chunkSize)
  {
    data[Min(|data|, Pos(i, chunkSize))..Min(|data|, Pos(k, chunkSize))]
  }

  lemma ChunksBetweenStep(data: Buffer, chunkSize: nat, i: nat, k: nat)
    requires i < k
    ensures Pos(i + 1, chunkSize) <= Pos(k, chunkSize)
    ensures ChunksBetween(data, chunkSize, i, k)
              == ChunkAt(data, chunkSize, i) + ChunksBetween(data, chunkSize, i + 1, k)
  {
    PosMonotone(i + 1, k, chunkSize);
  }

  lemma StartMonotone(chunkSize: nat, totalSize: nat, i: nat, j: nat)
    requires chunkSize > 0 && i <= j <= ChunkCount(totalSize, chunkSize)
    ensures EncryptedStart(chunkSize, totalSize, i) <= EncryptedStart(chunkSize, totalSize, j)
    ensures EncryptedStart(chunkSize, totalSize, i) >= HEADER_LEN
    decreases j
  {
    if i < j {
      ChunkCountBounds(totalSize, chunkSize, j - 1);
      StartMonotone(chunkSize, totalSize, i, j - 1);
    } else if i > 0 {
      ChunkCountBounds(totalSize, chunkSize, i - 1);
      StartMonotone(chunkSize, totalSize, i - 1, i - 1);
    }
  }

  lemma Reslice(full: Buffer, n: nat, a: nat, b: nat)
    requires a <= b <= n <= |full|
    ensures full[..n][a..][..b - a] == full[a..b]
    ensures full[..n][a..][b - a..] == full[..n][b..]
  {
  }

  /** Chunk i is complete in the prefix, so it opens and the rest follows. */
  lemma OpenOne(ctx: Context, ivs: IvSource, data: Buffer, n: nat, i: nat)
    requires ctx.Valid() && ValidIvs(ivs) && |data| == ctx.totalSize
    requires Pos(i, ctx.chunkSize) < |data|
    requires EncryptedStart(ctx.chunkSize, ctx.totalSize, i + 1) <= n <= |Encode(ctx, ivs, data)|
    ensures HEADER_LEN <= EncryptedStart(ctx.chunkSize, ctx.totalSize, i)
    ensures EncryptedStart(ctx.chunkSize, ctx.totalSize, i) <= EncryptedStart(ctx.chunkSize, ctx.totalSize, i + 1)
    ensures OpenRest(ctx, Encode(ctx, ivs, data)[..n], i)
         == Prepend(ChunkAt(data, ctx.chunkSize, i), OpenRest(ctx, Encode(ctx, ivs, data)[..n], i + 1))
  {
    var enc := Encode(ctx, ivs, data);
    var at := EncryptedStart(ctx.chunkSize, ctx.totalSize, i);
    var end := EncryptedStart(ctx.chunkSize, ctx.totalSize, i + 1);
    ChunkBytes(ctx, ivs, data, i);
    Reslice(enc, n, at, end);
    OpenSealedChunk(ctx, ivs(i), ChunkAt(data, ctx.chunkSize, i), i);
    IndexBound(ctx.chunkSize, i, ctx.totalSize);
    OpenStep(ctx.cipher, ctx.key, ctx.objectKey, HeaderOf(ctx), enc[..n][at..], i);
  }

  lemma IndexBound(chunkSize: nat, index: nat, totalSize: nat)
    requires Pos(index, chunkSize) < totalSize <= 0x1_0000_0000 * chunkSize
    ensures index < MAX_U32
  {
    PosIsProduct(index, chunkSize);
    MulMonotone(MAX_U32, index, chunkSize);
  }

  lemma MulMonotone(a: nat, b: nat, c: nat)
    ensures a <= b ==> a * c <= b * c
  {
  }

  /** After the last complete chunk nothing more is found. */
  lemma OpenStops(ctx: Context, buf: Buffer, k: nat)
    requires ctx.ValidSizes()
    requires HEADER_LEN <= EncryptedStart(ctx.chunkSize, ctx.totalSize, k) <= |buf|
    requires Pos(k, ctx.chunkSize) < ctx.totalSize ==> |buf| < EncryptedStart(ctx.chunkSize, ctx.totalSize, k + 1)
    ensures OpenRest(ctx, buf, k) == Some([])
  {
  }

  lemma {:induction false} OpenUpTo(ctx: Context, ivs: IvSource, data: Buffer, n: nat, i: nat, k: nat)
    requires ctx.Valid() && ValidIvs(ivs) && |data| == ctx.totalSize
    requires HEADER_LEN <= n <= |Encode(ctx, ivs, data)|
    requires k == CompleteChunks(ctx.chunkSize, ctx.totalSize, n) && i <= k
    ensures HEADER_LEN <= EncryptedStart(ctx.chunkSize, ctx.totalSize, i) <= n
    ensures Pos(i, ctx.chunkSize) <= Pos(k, ctx.chunkSize)
    ensures OpenRest(ctx, Encode(ctx, ivs, data)[..n], i) == Some(ChunksBetween(data, ctx.chunkSize, i, k))
    decreases k - i
  {
    StartMonotone(ctx.chunkSize, ctx.totalSize, i, k);
    ChunkCountBounds(ctx.totalSize, ctx.chunkSize, i);
    if i == k {
      OpenStops(ctx, Encode(ctx, ivs, data)[..n], k);
      assert ChunksBetween(data, ctx.chunkSize, i, k) == [];
    } else {
      OpenUpTo(ctx, ivs, data, n, i + 1, k);
      OpenOne(ctx, ivs, data, n, i);
      ChunksBetweenStep(data, ctx.chunkSize, i, k);
    }
  }

  /**
   * A prefix that contains the header decrypts to the longest chunk-aligned plaintext prefix it
   * holds: the chunks that are complete within it, and no byte more.
   */
  lemma WholeOfPrefix(ctx: Context, ivs: IvSource, data: Buffer, n: nat)
    requires ctx.Valid() && ctx.version == VERSION && ValidIvs(ivs) && |data| == ctx.totalSize
    requires HEADER_LEN <= n <= |Encode(ctx, ivs, data)|
    ensures Whole(ctx.cipher, ctx.key, ctx.objectKey, Encode(ctx, ivs, data)[..n])
         == Some(data[..Min(|data|, Pos(CompleteChunks(ctx.chunkSize, |data|, n), ctx.chunkSize))])
  {
    var h := Header(ctx.chunkSize, ctx.totalSize);
    var buf := Encode(ctx, ivs, data)[..n];
    HeaderOfPrefix(h, buf[HEADER_LEN..], buf);
    ParseHeaderInvertsHeader(ctx.chunkSize, ctx.totalSize, buf[HEADER_LEN..]);
    OpenUpTo(ctx, ivs, data, n, 0, CompleteChunks(ctx.chunkSize, |data|, n));
  }

  lemma HeaderOfPrefix(h: Buffer, rest: Buffer, buf: Buffer)
    requires |h| <= |buf| && buf[..|h|] == h && rest == buf[|h|..]
    ensures buf == h + rest
  {
  }

  /** Whole decryption inverts encryption. */
  lemma WholeInvertsEncode(ctx: Context, ivs: IvSource, data: Buffer)
    requires ctx.Valid() && ctx.version == VERSION && ValidIvs(ivs) && |data| == ctx.totalSize
    ensures Whole(ctx.cipher, ctx.key, ctx.objectKey, Encode(ctx, ivs, data)) == Some(data)
  {
    var enc := Encode(ctx, ivs, data);
    assert enc[..|enc|] == enc && data[..|data|] == data;
    AllComplete(ctx, ivs, data);
    WholeOfPrefix(ctx, ivs, data, |enc|);
  }

  lemma AllComplete(ctx: Context, ivs: IvSource, data: Buffer)
    requires ctx.Valid() && ValidIvs(ivs) && |data| == ctx.totalSize
    ensures var n := |Encode(ctx, ivs, data)|;
            n >= HEADER_LEN && Pos(CompleteChunks(ctx.chunkSize, |data|, n), ctx.chunkSize) >= |data|
  {
    var n := |Encode(ctx, ivs, data)|;
    var k := CompleteChunks(ctx.chunkSize, |data|, n);
    ChunkCountBounds(|data|, ctx.chunkSize, k);
    if Pos(k, ctx.chunkSize) < |data| {
      ChunkBytes(ctx, ivs, data, k);
    }
  }
}
