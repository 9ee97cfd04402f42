/** The prefix fetch that feeds video thumbnails (src/routes/attachments.ts). */
module Thumbnail {
  import opened Bytes
  import opened Aead
  import opened Ebp2
  import opened Ebp2Whole
  import opened Ebp2Range

  const VIDEO_FETCH_FOR_THUMB := 15 * 1024 * 1024

  function CeilDiv(a: nat, b: nat): nat
    requires b > 0
  {
    if a == 0 then 0 else (a - 1) / b + 1
  }

  lemma CeilDivCovers(a: nat, chunkSize: nat)
    requires chunkSize > 0 && a > 0
    ensures var k := CeilDiv(a, chunkSize);
            k > 0 && Pos(k - 1, chunkSize) < a <= Pos(k, chunkSize)
  {
    DivisionBounds(a - 1, chunkSize);
  }

  /** The last byte to fetch: header and needed chunks, counted by adding up chunk lengths. */
  method RangeEnd(chunkSize: nat, totalSize: nat, fetchLen: nat) returns (rangeEnd: int)
    requires chunkSize > 0 && 0 < fetchLen <= totalSize
    ensures rangeEnd + 1 == EncryptedStart(chunkSize, totalSize, CeilDiv(fetchLen, chunkSize))
    ensures rangeEnd + 1 >= HEADER_LEN
  {
    var numChunksNeeded := CeilDiv(fetchLen, chunkSize);
    CeilDivCovers(fetchLen, chunkSize);
    ChunkCountBounds(totalSize, chunkSize, numChunksNeeded - 1);
    rangeEnd := 16;
    for i := 0 to numChunksNeeded
      invariant rangeEnd + 1 == EncryptedStart(chunkSize, totalSize, i)
    {
      var _, length, _ := ChunkEncryptedRange(chunkSize, totalSize, i);
      LengthOfNeeded(chunkSize, totalSize, i, numChunksNeeded - 1);
      rangeEnd := rangeEnd + length;
    }
    StartMonotone(chunkSize, totalSize, numChunksNeeded, numChunksNeeded);
  }

  lemma LengthOfNeeded(chunkSize: nat, totalSize: nat, i: nat, last: nat)
    requires chunkSize > 0 && i <= last && Pos(last, chunkSize) < totalSize
    ensures EncryptedStart(chunkSize, totalSize, i + 1)
         == EncryptedStart(chunkSize, totalSize, i) + CHUNK_OVERHEAD + PlainLen(chunkSize, totalSize, i)
  {
    PosMonotone(i, last, chunkSize);
  }

  lemma CompleteAtStart(chunkSize: nat, totalSize: nat, k: nat)
    requires chunkSize > 0 && k <= ChunkCount(totalSize, chunkSize)
    ensures EncryptedStart(chunkSize, totalSize, k) >= HEADER_LEN
    ensures CompleteChunks(chunkSize, totalSize, EncryptedStart(chunkSize, totalSize, k)) == k
  {
    StartMonotone(chunkSize, totalSize, k, k);
    var c := CompleteChunks(chunkSize, totalSize, EncryptedStart(chunkSize, totalSize, k));
    if c < k {
      StartMonotone(chunkSize, totalSize, c + 1, k);
    } else if c > k {
      StartMonotone(chunkSize, totalSize, k + 1, c);
      ChunkCountBounds(totalSize, chunkSize, k);
    }
  }

  /**
   * The bytes up to the computed end are exactly the header and the needed chunks of the object,
   * and they decrypt to whole chunks that cover the first fetchLen bytes.
   */
  lemma PrefixSuffices(ctx: Context, ivs: IvSource, data: Buffer, fetchLen: nat)
    requires ctx.Valid() && ctx.version == VERSION && ValidIvs(ivs) && |data| == ctx.totalSize
    requires 0 < fetchLen <= |data|
    ensures var k := CeilDiv(fetchLen, ctx.chunkSize);
            var n := EncryptedStart(ctx.chunkSize, |data|, k);
            && HEADER_LEN <= n <= |Encode(ctx, ivs, data)|
            && Whole(ctx.cipher, ctx.key, ctx.objectKey, Encode(ctx, ivs, data)[..n])
            == Some(data[..Min(|data|, Pos(k, ctx.chunkSize))])
            && fetchLen <= Pos(k, ctx.chunkSize)
  {
    var k := CeilDiv(fetchLen, ctx.chunkSize);
    CeilDivCovers(fetchLen, ctx.chunkSize);
    ChunkCountBounds(|data|, ctx.chunkSize, k - 1);
    ChunkBytes(ctx, ivs, data, k - 1);
    CompleteAtStart(ctx.chunkSize, |data|, k);
    WholeOfPrefix(ctx, ivs, data, EncryptedStart(ctx.chunkSize, |data|, k));
  }

  lemma SubarrayOfPrefix(data: Buffer, m: nat, n: nat)
    requires n <= m <= |data|
    ensures Subarray(data[..m], 0, n) == data[..n]
  {
  }

  lemma HonestPrefix(fetch: Fetcher, stored: Buffer, n: nat)
    requires Honest(fetch, stored) && 0 < n <= |stored|
    ensures fetch(0, n - 1) == stored[..n]
  {
    assert fetch(0, n - 1) == stored[0..n - 1 + 1];
  }

  /** What the first fetch brings in decrypts to at least the needed bytes. */
  lemma FetchedPrefix(ctx: Context, fetch: Fetcher, ivs: IvSource, data: Buffer, fetchLen: nat, encBuf: Buffer)
    requires ctx.Valid() && ctx.version == VERSION && ValidIvs(ivs) && |data| == ctx.totalSize
    requires Honest(fetch, Encode(ctx, ivs, data)) && 0 < fetchLen <= |data|
    requires encBuf == fetch(0, EncryptedStart(ctx.chunkSize, ctx.totalSize, CeilDiv(fetchLen, ctx.chunkSize)) - 1)
    ensures var whole := Whole(ctx.cipher, ctx.key, ctx.objectKey, encBuf);
            whole.Some? && Subarray(whole.value, 0, fetchLen) == data[..fetchLen]
  {
    PrefixSuffices(ctx, ivs, data, fetchLen);
    var k := CeilDiv(fetchLen, ctx.chunkSize);
    HonestPrefix(fetch, Encode(ctx, ivs, data), EncryptedStart(ctx.chunkSize, ctx.totalSize, k));
    SubarrayOfPrefix(data, Min(|data|, Pos(k, ctx.chunkSize)), fetchLen);
  }

  /** The first path: one fetch, whole decryption; None when decryption throws. */
  method ViaWhole(ctx: Context, fetch: Fetcher, fetchLen: nat, ghost ivs: IvSource, ghost data: Buffer)
    returns (video: Option<Buffer>)
    requires ctx.Valid() && ctx.version == VERSION && ValidIvs(ivs) && |data| == ctx.totalSize
    requires Honest(fetch, Encode(ctx, ivs, data)) && 0 < fetchLen <= |data|
    ensures video == Some(data[..fetchLen])
  {
    var rangeEnd := RangeEnd(ctx.chunkSize, ctx.totalSize, fetchLen);
    var encBuf := fetch(0, rangeEnd);
    FetchedPrefix(ctx, fetch, ivs, data, fetchLen, encBuf);
    var whole := DecryptWhole(ctx.cipher, ctx.key, ctx.objectKey, encBuf);
    video := if whole.None? then None else Some(Subarray(whole.value, 0, fetchLen));
  }

  /** The bytes the thumbnail is made from; the range stream is the fallback, and it would give the same bytes. */
  method FirstBytes(ctx: Context, fetch: Fetcher, ghost ivs: IvSource, ghost data: Buffer)
    returns (fetchLen: nat, viaWhole: Option<Buffer>, viaRange: Option<Buffer>)
    requires ctx.Valid() && ctx.version == VERSION && ValidIvs(ivs) && |data| == ctx.totalSize > 0
    requires Honest(fetch, Encode(ctx, ivs, data))
    ensures fetchLen == Min(15_728_640, |data|)
    ensures viaWhole == Some(data[..fetchLen]) && viaRange == Some(data[..fetchLen])
  {
    fetchLen := Min(VIDEO_FETCH_FOR_THUMB, ctx.totalSize);
    viaWhole := ViaWhole(ctx, fetch, fetchLen, ivs, data);
    HonestIsFaithful(ctx, ivs, data, fetch);
    var body, complete := ReadRange(ctx, fetch, 0, fetchLen - 1, data);
    viaRange := if complete then Some(body) else None;
  }
}
