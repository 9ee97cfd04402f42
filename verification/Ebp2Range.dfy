/** `decryptEbp2RangeStream`: decrypt only the chunks that a plaintext byte range touches. */
module Ebp2Range {
  import opened Bytes
  import opened Aead
  import opened Ebp2
  import opened Ebp2Whole
  import opened Ebp2Integrity

  lemma DivisionBounds(p: nat, chunkSize: nat)
    requires chunkSize > 0
    ensures Pos(p / chunkSize, chunkSize) <= p < Pos(p / chunkSize + 1, chunkSize)
  {
    PosIsProduct(p / chunkSize, chunkSize);
    assert p == (p / chunkSize) * chunkSize + p % chunkSize;
  }

  lemma DivisionUnique(p: nat, chunkSize: nat, i: nat)
    requires chunkSize > 0
    ensures i <= p / chunkSize <==> Pos(i, chunkSize) <= p
  {
    DivisionBounds(p, chunkSize);
    if i <= p / chunkSize {
      PosMonotone(i, p / chunkSize, chunkSize);
    } else {
      PosMonotone(p / chunkSize + 1, i, chunkSize);
    }
  }

  /** `getEbp2ChunksForRange`: the existing chunks that share a byte with [start, end], in order and without gaps. */
  method ChunksForRange(chunkSize: nat, totalSize: nat, start: nat, end: nat) returns (chunks: seq<nat>)
    requires chunkSize > 0
    ensures forall i: nat {:trigger i in chunks} :: i in chunks <==>
              Pos(i, chunkSize) <= end && start < Pos(i + 1, chunkSize) && Pos(i, chunkSize) < totalSize
    ensures forall j :: 0 <= j < |chunks| ==> chunks[j] == start / chunkSize + j
  {
    chunks := [];
    var startChunk := start / chunkSize;
    var endChunk := end / chunkSize;
    var i := startChunk;
    while i <= endChunk
      invariant startChunk <= i
      invariant i <= endChunk + 1 || i == startChunk
      invariant Cut(chunkSize, totalSize, startChunk, i, chunks)
      decreases endChunk + 1 - i
    {
      PosIsProduct(i, chunkSize);
      if i * chunkSize < totalSize {
        if |chunks| < i - startChunk {
          PosMonotone(startChunk + |chunks|, i, chunkSize);
        }
        chunks := chunks + [i];
      }
      i := i + 1;
    }
    forall k: nat
      ensures k in chunks <==>
                Pos(k, chunkSize) <= end && start < Pos(k + 1, chunkSize) && Pos(k, chunkSize) < totalSize
    {
      CutMembers(chunkSize, totalSize, start, end, i, chunks, k);
    }
  }

  /** The existing chunks among startChunk, ..., i - 1. */
  ghost predicate Cut(chunkSize: nat, totalSize: nat, startChunk: nat, i: nat, chunks: seq<nat>)
    requires startChunk <= i
  {
    && (forall j :: 0 <= j < |chunks| ==> chunks[j] == startChunk + j && Pos(chunks[j], chunkSize) < totalSize)
    && |chunks| <= i - startChunk
    && (|chunks| < i - startChunk ==> Pos(startChunk + |chunks|, chunkSize) >= totalSize)
  }

  lemma CutMembers(chunkSize: nat, totalSize: nat, start: nat, end: nat, i: nat, chunks: seq<nat>, k: nat)
    requires chunkSize > 0 && start / chunkSize <= i
    requires end / chunkSize < i
    requires i <= end / chunkSize + 1 || i == start / chunkSize
    requires Cut(chunkSize, totalSize, start / chunkSize, i, chunks)
    ensures k in chunks <==> Pos(k, chunkSize) <= end && start < Pos(k + 1, chunkSize) && Pos(k, chunkSize) < totalSize
  {
    DivisionUnique(end, chunkSize, k);
    DivisionUnique(start, chunkSize, k + 1);
    var first := start / chunkSize;
    if first <= k < first + |chunks| {
      assert chunks[k - first] == k;
    } else if first + |chunks| <= k < i {
      PosMonotone(first + |chunks|, k, chunkSize);
    }
  }

  // The store: the bytes of an inclusive range of the encrypted object.
  type Fetcher = (int, int) -> Buffer

  /** The fetch-and-open part of one read; None when it throws. */
  function OpenAt(ctx: Context, fetch: Fetcher, ci: nat): Option<Buffer> {
    var encStart := EncryptedStart(ctx.chunkSize, ctx.totalSize, ci);
    var encLen := CHUNK_OVERHEAD + PlainLen(ctx.chunkSize, ctx.totalSize, ci);
    var encBuf := fetch(encStart, encStart + encLen - 1);
    if |encBuf| < CHUNK_OVERHEAD || ctx.chunkSize >= MAX_U32 || !Encodable(HeaderOf(ctx), ci) then None
    else OpenChunk(ctx.cipher, ctx.key, ctx.objectKey, HeaderOf(ctx), encBuf, ci)
  }

  /** `subarray` with non-negative bounds. */
  function Subarray(b: Buffer, from: nat, to: nat): Buffer {
    var lo := Min(from, |b|);
    b[lo..Max(lo, Min(to, |b|))]
  }

  function SliceOf(ctx: Context, plain: Buffer, ci: nat, start: nat, end: nat): Buffer
    requires Pos(ci, ctx.chunkSize) <= end
  {
    var chunkPlainStart := Pos(ci, ctx.chunkSize);
    var sliceStart := Max(0, start - chunkPlainStart);
    var sliceEnd := Min(PlainLen(ctx.chunkSize, ctx.totalSize, ci) - 1, end - chunkPlainStart);
    Subarray(plain, sliceStart, sliceEnd + 1)
  }

  method CutSlice(ctx: Context, plain: Buffer, ci: nat, plainLen: nat, start: nat, end: nat) returns (slice: Buffer)
    requires Pos(ci, ctx.chunkSize) <= end && plainLen == PlainLen(ctx.chunkSize, ctx.totalSize, ci)
    ensures slice == SliceOf(ctx, plain, ci, start, end)
  {
    PosIsProduct(ci, ctx.chunkSize);
    var chunkPlainStart := ci * ctx.chunkSize;
    var sliceStart := Max(0, start - chunkPlainStart);
    var sliceEnd := Min(plainLen - 1, end - chunkPlainStart);
    slice := Subarray(plain, sliceStart, sliceEnd + 1);
  }

  lemma SliceIsSlice(ctx: Context, data: Buffer, ci: nat, start: nat, end: nat)
    requires ctx.chunkSize > 0 && |data| == ctx.totalSize
    requires start <= end < |data|
    requires Pos(ci, ctx.chunkSize) <= end && start < Pos(ci + 1, ctx.chunkSize)
    ensures var lo := Max(start, Pos(ci, ctx.chunkSize));
            var hi := Min(end + 1, Pos(ci + 1, ctx.chunkSize));
            && lo < hi
            && SliceOf(ctx, ChunkAt(data, ctx.chunkSize, ci), ci, start, end) == data[lo..hi]
  {
    var base := Pos(ci, ctx.chunkSize);
    var top := Min(|data|, base + ctx.chunkSize);
    SubarrayOfSlice(data, base, top, Max(0, start - base), Min(top - base, end - base + 1));
  }

  lemma SubarrayOfSlice(data: Buffer, base: nat, top: nat, from: nat, to: nat)
    requires base + from <= base + to <= top <= |data|
    ensures Subarray(data[base..top], from, to) == data[base + from..base + to]
  {
  }

  /**
   * Everything that opens is the right chunk of `data`; it is so for an honest store and, under ideal
   * encryption, for any.
   */
  ghost predicate Faithful(ctx: Context, fetch: Fetcher, data: Buffer) {
    forall ci {:trigger OpenAt(ctx, fetch, ci)} ::
      Pos(ci, ctx.chunkSize) < ctx.totalSize && OpenAt(ctx, fetch, ci).Some? ==>
      |data| == ctx.totalSize && OpenAt(ctx, fetch, ci).value == ChunkAt(data, ctx.chunkSize, ci)
  }

  /** Every chunk of the object opens. */
  ghost predicate Available(ctx: Context, fetch: Fetcher) {
    forall ci {:trigger OpenAt(ctx, fetch, ci)} :: Pos(ci, ctx.chunkSize) < ctx.totalSize ==>
      OpenAt(ctx, fetch, ci).Some?
  }

  /** A plaintext range and the run of chunks first, ..., first + count - 1 that it touches. */
  datatype Span = Span(chunkSize: nat, start: nat, end: nat, first: nat, count: nat)
  {
    ghost predicate Valid() {
      && chunkSize > 0 && count > 0 && start <= end
      && Pos(first, chunkSize) <= start < Pos(first + 1, chunkSize)
      && Pos(first + count - 1, chunkSize) <= end < Pos(first + count, chunkSize)
    }

    /** How far the range is covered once n chunks have been delivered. */
    function CoveredTo(n: nat): nat {
      if n == 0 then start else Min(end + 1, Pos(first + n, chunkSize))
    }
  }

  lemma CoverageBounds(s: Span, n: nat, dataLen: nat)
    requires s.Valid() && s.end < dataLen && n < s.count
    ensures Pos(s.first + n, s.chunkSize) <= s.end && s.start < Pos(s.first + n + 1, s.chunkSize)
    ensures s.start <= s.CoveredTo(n) < s.CoveredTo(n + 1) <= dataLen
    ensures s.CoveredTo(n) == Max(s.start, Pos(s.first + n, s.chunkSize))
  {
    var ci := s.first + n;
    PosMonotone(ci, s.first + s.count - 1, s.chunkSize);
    PosMonotone(s.first + 1, ci + 1, s.chunkSize);
    if n > 0 {
      PosMonotone(s.first + 1, ci, s.chunkSize);
    }
  }

  lemma Coverage(ctx: Context, data: Buffer, s: Span, n: nat)
    requires s.Valid() && s.chunkSize == ctx.chunkSize && |data| == ctx.totalSize && s.end < |data|
    requires n < s.count
    ensures Pos(s.first + n, ctx.chunkSize) <= s.end
    ensures s.start <= s.CoveredTo(n) < s.CoveredTo(n + 1) <= |data|
    ensures SliceOf(ctx, ChunkAt(data, ctx.chunkSize, s.first + n), s.first + n, s.start, s.end)
         == data[s.CoveredTo(n)..s.CoveredTo(n + 1)]
  {
    CoverageBounds(s, n, |data|);
    SliceIsSlice(ctx, data, s.first + n, s.start, s.end);
    assert s.CoveredTo(n + 1) == Min(s.end + 1, Pos(s.first + n + 1, ctx.chunkSize));
  }

  /** n slices, none empty, that together are the covered part of the range. */
  ghost predicate Delivered(s: Span, data: Buffer, pushed: seq<Buffer>, n: nat) {
    && |pushed| == n
    && (forall j :: 0 <= j < n ==> pushed[j] != [])
    && (n > 0 ==> s.start <= s.CoveredTo(n) <= |data| && Concat(pushed) == data[s.start..s.CoveredTo(n)])
  }

  lemma DeliverOne(ctx: Context, data: Buffer, s: Span, pushed: seq<Buffer>, n: nat, slice: Buffer)
    requires s.Valid() && s.chunkSize == ctx.chunkSize && |data| == ctx.totalSize && s.end < |data|
    requires n < s.count
    requires Delivered(s, data, pushed, n)
    requires Pos(s.first + n, ctx.chunkSize) <= s.end
    requires slice == SliceOf(ctx, ChunkAt(data, ctx.chunkSize, s.first + n), s.first + n, s.start, s.end)
    ensures slice != [] && Delivered(s, data, pushed + [slice], n + 1)
  {
    Coverage(ctx, data, s, n);
    ConcatSnoc(pushed, slice);
    Adjoin(data, s.start, s.CoveredTo(n), s.CoveredTo(n + 1));
    assert n == 0 ==> Concat(pushed) == [];
  }

  lemma Adjoin(data: Buffer, a: nat, b: nat, c: nat)
    requires a <= b <= c <= |data|
    ensures data[a..b] + data[b..c] == data[a..c]
    ensures a == b ==> [] + data[b..c] == data[a..c]
  {
  }

  lemma PrefixOfSlice(data: Buffer, a: nat, b: nat, c: nat)
    requires a <= b <= c <= |data|
    ensures data[a..b] <= data[a..c]
  {
  }

  lemma DeliveredIsPrefix(s: Span, data: Buffer, pushed: seq<Buffer>, n: nat)
    requires s.Valid() && n <= s.count && Delivered(s, data, pushed, n)
    ensures s.end < |data| ==> Concat(pushed) <= data[s.start..s.end + 1]
    ensures n == s.count ==> s.end < |data| && Concat(pushed) == data[s.start..s.end + 1]
    ensures n < s.count ==> |Concat(pushed)| < s.end + 1 - s.start
  {
    var to := s.CoveredTo(n);
    if n > 0 && s.end < |data| {
      PrefixOfSlice(data, s.start, to, s.end + 1);
    }
    if n < s.count {
      CoverageBounds(s, n, s.end + 1);
    }
  }

  /** The Readable: what it has pushed, how often it has pushed the end marker, and whether it was destroyed. */
  class RangeStream {
    const ctx: Context
    const fetch: Fetcher
    const start: nat
    const end: nat
    const chunks: seq<nat>
    var idx: nat
    var pushed: seq<Buffer>
    var ended: nat
    var destroyed: bool
    var fetched: seq<(int, int)>

    /** The range and the chunks chosen for it. */
    ghost function Plan(): Span {
      Span(ctx.chunkSize, start, end, if chunks == [] then 0 else chunks[0], |chunks|)
    }

    ghost predicate Valid()
      reads this
    {
      && (if chunks == [] then ctx.totalSize == 0 && ctx.chunkSize > 0 else Plan().Valid() && end < ctx.totalSize)
      && (forall j :: 0 <= j < |chunks| ==> chunks[j] == chunks[0] + j)
      && idx <= |chunks|
      && |fetched| == idx
      && (forall j :: 0 <= j < idx ==> fetched[j] == EncryptedRange(ctx.chunkSize, ctx.totalSize, chunks[j]))
      && (destroyed ==> idx > 0)
      && ended <= 1
      && (chunks != [] ==> ended == if !destroyed && idx == |chunks| then 1 else 0)
    }

    /** How many reads succeeded. */
    ghost function Reads(): int
      reads this
    {
      if destroyed then idx - 1 else idx
    }

    constructor (ctx: Context, fetch: Fetcher, start: nat, end: nat)
      requires ctx.chunkSize > 0 && start <= end && (end < ctx.totalSize || ctx.totalSize == 0)
      ensures Valid() && this.ctx == ctx && this.fetch == fetch && this.start == start && this.end == end
      ensures idx == 0 && pushed == [] && !destroyed && ended == 0
    {
      var cs := ChunksForRange(ctx.chunkSize, ctx.totalSize, start, end);
      if ctx.totalSize > 0 {
        CountChunks(ctx, start, end, cs);
      } else if cs != [] {
        assert cs[0] in cs;
      }
      this.ctx, this.fetch, this.start, this.end, this.chunks := ctx, fetch, start, end, cs;
      idx, pushed, ended, destroyed, fetched := 0, [], 0, false, [];
    }

    /** One `read()` call before the end of the stream; without a chunk to read it pushes the end marker only. */
    method Read()
      requires Valid() && ended == 0 && !destroyed
      modifies this
      ensures Valid()
      ensures chunks == [] ==> idx == 0 && pushed == old(pushed) && !destroyed && ended == 1
      ensures chunks != [] ==> idx == old(idx) + 1 && Pos(chunks[old(idx)], ctx.chunkSize) <= end
      ensures chunks != [] ==> (destroyed <==> OpenAt(ctx, fetch, chunks[old(idx)]).None?)
      ensures destroyed ==> pushed == old(pushed)
      ensures chunks != [] && !destroyed ==>
                var slice := SliceOf(ctx, OpenAt(ctx, fetch, chunks[old(idx)]).value, chunks[old(idx)], start, end);
                pushed == if slice == [] then old(pushed) else old(pushed) + [slice]
    {
      if idx >= |chunks| {
        ended := ended + 1;
      } else {
        ReadChunk();
      }
    }

    /** The part of `read()` that fetches and opens a chunk. */
    method ReadChunk()
      requires Valid() && ended == 0 && !destroyed && idx < |chunks|
      modifies this
      ensures Valid() && idx == old(idx) + 1
      ensures Pos(chunks[old(idx)], ctx.chunkSize) <= end
      ensures destroyed <==> OpenAt(ctx, fetch, chunks[old(idx)]).None?
      ensures destroyed ==> pushed == old(pushed)
      ensures !destroyed ==>
                var slice := SliceOf(ctx, OpenAt(ctx, fetch, chunks[old(idx)]).value, chunks[old(idx)], start, end);
                pushed == if slice == [] then old(pushed) else old(pushed) + [slice]
    {
      var ci := chunks[idx];
      PosMonotone(ci, chunks[0] + |chunks| - 1, ctx.chunkSize);
      idx := idx + 1;
      var encStart, encLen, plainLen := ChunkEncryptedRange(ctx.chunkSize, ctx.totalSize, ci);
      fetched := fetched + [(encStart, encStart + encLen - 1)];
      var plain := OpenAt(ctx, fetch, ci);
      if plain.None? {
        destroyed := true;
        return;
      }
      var slice := CutSlice(ctx, plain.value, ci, plainLen, start, end);
      if |slice| > 0 {
        pushed := pushed + [slice];
      }
      if idx >= |chunks| {
        ended := ended + 1;
      }
    }

    /** A read of a faithful store delivers the next, non-empty, slice, or destroys the stream. */
    method ReadFaithfully(ghost data: Buffer)
      requires Valid() && ended == 0 && !destroyed && chunks != []
      requires Faithful(ctx, fetch, data) && (idx > 0 ==> |data| == ctx.totalSize)
      requires Delivered(Plan(), data, pushed, idx)
      modifies this
      ensures Valid() && idx == old(idx) + 1
      ensures Reads() > 0 ==> |data| == ctx.totalSize
      ensures Delivered(Plan(), data, pushed, Reads())
      ensures destroyed <==> OpenAt(ctx, fetch, chunks[old(idx)]).None?
    {
      ghost var n := idx;
      ghost var before := pushed;
      Read();
      if !destroyed {
        ghost var slice := SliceOf(ctx, OpenAt(ctx, fetch, chunks[n]).value, chunks[n], start, end);
        DeliverOne(ctx, data, Plan(), before, n, slice);
        assert pushed == before + [slice];
      }
    }

    /** What has been pushed, once nothing more will be, in terms of the requested range. */
    ghost predicate Outcome(data: Buffer, body: Buffer)
      reads this
    {
      if destroyed then
        && |body| < end + 1 - start
        && (body != [] ==> start <= end < ctx.totalSize == |data| && body <= data[start..end + 1])
      else if ctx.totalSize == 0 then body == []
      else start <= end < ctx.totalSize == |data| && body == data[start..end + 1]
    }

    lemma Concluded(data: Buffer)
      requires Valid() && (destroyed || ended == 1)
      requires Reads() > 0 ==> |data| == ctx.totalSize
      requires Delivered(Plan(), data, pushed, Reads())
      ensures Outcome(data, Concat(pushed))
    {
      if chunks != [] {
        DeliveredIsPrefix(Plan(), data, pushed, Reads());
      }
    }

    /**
     * Reading to the end. No read before the end is without a slice, the end marker is pushed once,
     * and what was pushed is the requested plaintext range; a destroyed stream has pushed a prefix of it
     * that is shorter.
     */
    method Drain(ghost data: Buffer) returns (body: Buffer)
      requires Valid() && idx == 0 && pushed == [] && !destroyed && ended == 0
      requires Faithful(ctx, fetch, data)
      modifies this
      ensures Valid() && (destroyed || ended == 1)
      ensures body == Concat(pushed)
      ensures forall j :: 0 <= j < |pushed| ==> pushed[j] != []
      ensures |pushed| == Reads()
      ensures Outcome(data, body)
      ensures Available(ctx, fetch) ==> !destroyed
    {
      while ended == 0 && !destroyed
        invariant Valid()
        invariant Reads() > 0 ==> |data| == ctx.totalSize
        invariant Delivered(Plan(), data, pushed, Reads())
        invariant Available(ctx, fetch) ==> !destroyed
        decreases |chunks| - idx, 1 - ended
      {
        if chunks == [] {
          Read();
        } else {
          PosMonotone(chunks[idx], chunks[0] + |chunks| - 1, ctx.chunkSize);
          ReadFaithfully(data);
        }
      }
      body := Concat(pushed);
      Concluded(data);
    }
  }

  /** The inclusive byte range of a sealed chunk. */
  function EncryptedRange(chunkSize: nat, totalSize: nat, ci: nat): (int, int) {
    (EncryptedStart(chunkSize, totalSize, ci),
     EncryptedStart(chunkSize, totalSize, ci) + CHUNK_OVERHEAD + PlainLen(chunkSize, totalSize, ci) - 1)
  }

  lemma CountChunks(ctx: Context, start: nat, end: nat, cs: seq<nat>)
    requires ctx.chunkSize > 0 && start <= end < ctx.totalSize
    requires forall i: nat {:trigger i in cs} :: i in cs <==>
               && Pos(i, ctx.chunkSize) <= end && start < Pos(i + 1, ctx.chunkSize)
               && Pos(i, ctx.chunkSize) < ctx.totalSize
    requires forall j :: 0 <= j < |cs| ==> cs[j] == start / ctx.chunkSize + j
    ensures |cs| > 0 && Span(ctx.chunkSize, start, end, cs[0], |cs|).Valid()
  {
    var last := end / ctx.chunkSize;
    DivisionBounds(end, ctx.chunkSize);
    DivisionBounds(start, ctx.chunkSize);
    DivisionUnique(start, ctx.chunkSize, last + 1);
    assert last in cs;
    LastOfRun(cs, last);
    assert cs[|cs| - 1] in cs;
    PosMonotone(last + 1, cs[0] + |cs|, ctx.chunkSize);
  }

  lemma LastOfRun(cs: seq<nat>, x: nat)
    requires x in cs
    requires forall j :: 0 <= j < |cs| ==> cs[j] == cs[0] + j
    ensures x < cs[0] + |cs|
  {
  }

  // ---------------------------------------------------------------- when a store is faithful

  /** The store returns the requested bytes of the object. */
  ghost predicate Honest(fetch: Fetcher, stored: Buffer) {
    forall s: nat, e: nat {:trigger fetch(s, e)} :: s <= e < |stored| ==> fetch(s, e) == stored[s..e + 1]
  }

  /** For a chunk of the object, none of the guards applies. */
  lemma OpenAtOpens(ctx: Context, fetch: Fetcher, ci: nat, encBuf: Buffer)
    requires ctx.ValidSizes() && Pos(ci, ctx.chunkSize) < ctx.totalSize && |encBuf| >= CHUNK_OVERHEAD
    requires var r := EncryptedRange(ctx.chunkSize, ctx.totalSize, ci); fetch(r.0, r.1) == encBuf
    ensures OpenAt(ctx, fetch, ci) == OpenChunk(ctx.cipher, ctx.key, ctx.objectKey, HeaderOf(ctx), encBuf, ci)
  {
    IndexBound(ctx.chunkSize, ci, ctx.totalSize);
  }

  lemma OpensFetched(ctx: Context, fetch: Fetcher, ci: nat, iv: Buffer, plain: Buffer)
    requires ctx.Valid() && |iv| == IV_LEN && Pos(ci, ctx.chunkSize) < ctx.totalSize
    requires var r := EncryptedRange(ctx.chunkSize, ctx.totalSize, ci); fetch(r.0, r.1) == SealChunk(ctx, ci, iv, plain)
    ensures OpenAt(ctx, fetch, ci) == Some(plain)
  {
    OpenSealedChunk(ctx, iv, plain, ci);
    OpenAtOpens(ctx, fetch, ci, SealChunk(ctx, ci, iv, plain));
  }

  lemma HonestBytes(fetch: Fetcher, stored: Buffer, chunkSize: nat, totalSize: nat, ci: nat)
    requires Honest(fetch, stored)
    requires 0 <= EncryptedStart(chunkSize, totalSize, ci)
    requires EncryptedStart(chunkSize, totalSize, ci) + CHUNK_OVERHEAD + PlainLen(chunkSize, totalSize, ci) <= |stored|
    ensures var r := EncryptedRange(chunkSize, totalSize, ci); fetch(r.0, r.1) == stored[r.0..r.1 + 1]
  {
    var at := EncryptedStart(chunkSize, totalSize, ci);
    HonestRange(fetch, stored, at, at + CHUNK_OVERHEAD + PlainLen(chunkSize, totalSize, ci));
  }

  lemma HonestFetch(ctx: Context, ivs: IvSource, data: Buffer, fetch: Fetcher, ci: nat)
    requires ctx.Valid() && ValidIvs(ivs) && |data| == ctx.totalSize
    requires Honest(fetch, Encode(ctx, ivs, data))
    requires Pos(ci, ctx.chunkSize) < |data|
    ensures var r := EncryptedRange(ctx.chunkSize, ctx.totalSize, ci);
            fetch(r.0, r.1) == SealChunk(ctx, ci, ivs(ci), ChunkAt(data, ctx.chunkSize, ci))
  {
    ChunkBytes(ctx, ivs, data, ci);
    HonestBytes(fetch, Encode(ctx, ivs, data), ctx.chunkSize, ctx.totalSize, ci);
  }

  lemma HonestOpens(ctx: Context, ivs: IvSource, data: Buffer, fetch: Fetcher, ci: nat)
    requires ctx.Valid() && ValidIvs(ivs) && |data| == ctx.totalSize
    requires Honest(fetch, Encode(ctx, ivs, data))
    requires Pos(ci, ctx.chunkSize) < |data|
    ensures OpenAt(ctx, fetch, ci) == Some(ChunkAt(data, ctx.chunkSize, ci))
  {
    HonestFetch(ctx, ivs, data, fetch, ci);
    OpensFetched(ctx, fetch, ci, ivs(ci), ChunkAt(data, ctx.chunkSize, ci));
  }

  lemma HonestRange(fetch: Fetcher, stored: Buffer, from: nat, to: nat)
    requires Honest(fetch, stored) && from < to <= |stored|
    ensures fetch(from, to - 1) == stored[from..to]
  {
    assert fetch(from, to - 1) == stored[from..to - 1 + 1];
  }

  lemma HonestIsFaithful(ctx: Context, ivs: IvSource, data: Buffer, fetch: Fetcher)
    requires ctx.Valid() && ValidIvs(ivs) && |data| == ctx.totalSize
    requires Honest(fetch, Encode(ctx, ivs, data))
    ensures Faithful(ctx, fetch, data) && Available(ctx, fetch)
  {
    forall ci: nat | Pos(ci, ctx.chunkSize) < ctx.totalSize
      ensures OpenAt(ctx, fetch, ci) == Some(ChunkAt(data, ctx.chunkSize, ci))
    {
      HonestOpens(ctx, ivs, data, fetch, ci);
    }
  }

  /**
   * Under ideal encryption every store is faithful, whatever bytes it returns and whatever sizes the
   * object's metadata claims: what opens is the right chunk of the one file sealed for the key.
   */
  lemma IdealIsFaithful(ctx: Context, files: set<SealedFile>, blobs: set<Buffer>, file: SealedFile, fetch: Fetcher)
    requires Ideal(ctx.cipher, ctx.key, files, blobs) && OnlyFileFor(file, files, blobs)
    requires ctx.objectKey == file.objectKey && |file.data| == file.totalSize
    ensures Faithful(ctx, fetch, file.data)
  {
    forall ci: nat | OpenAt(ctx, fetch, ci).Some?
      ensures |file.data| == ctx.totalSize && OpenAt(ctx, fetch, ci).value == ChunkAt(file.data, ctx.chunkSize, ci)
    {
      var at := EncryptedRange(ctx.chunkSize, ctx.totalSize, ci);
      var encBuf := fetch(at.0, at.1);
      OpenedChunk(ctx.cipher, ctx.key, files, blobs, file, HeaderOf(ctx), encBuf, ci);
    }
  }

  /** The ranges fetched for consecutive chunks tile the object after its header. */
  lemma RangesTile(ctx: Context, ivs: IvSource, data: Buffer, ci: nat)
    requires ctx.Valid() && ValidIvs(ivs) && |data| == ctx.totalSize
    requires Pos(ci, ctx.chunkSize) < |data|
    ensures ci == 0 ==> EncryptedRange(ctx.chunkSize, ctx.totalSize, ci).0 == HEADER_LEN
    ensures EncryptedRange(ctx.chunkSize, ctx.totalSize, ci).1 + 1
         == if Pos(ci + 1, ctx.chunkSize) < |data|
            then EncryptedRange(ctx.chunkSize, ctx.totalSize, ci + 1).0
            else |Encode(ctx, ivs, data)|
  {
    ChunkBytes(ctx, ivs, data, ci);
  }

  /**
   * The body a client receives for a plaintext range, and whether it is all there is to come: else the stream was
   * destroyed.
   */
  method ReadRange(ctx: Context, fetch: Fetcher, start: nat, end: nat, ghost data: Buffer)
    returns (body: Buffer, complete: bool)
    requires ctx.chunkSize > 0 && start <= end && (end < ctx.totalSize || ctx.totalSize == 0)
    requires Faithful(ctx, fetch, data)
    ensures complete && ctx.totalSize > 0 ==> |data| == ctx.totalSize && body == data[start..end + 1]
    ensures complete && ctx.totalSize == 0 ==> body == []
    ensures !complete ==>
              |body| < end + 1 - start && (body != [] ==> |data| == ctx.totalSize > end && body <= data[start..end + 1])
    ensures Available(ctx, fetch) ==> complete
  {
    var stream := new RangeStream(ctx, fetch, start, end);
    body := stream.Drain(data);
    complete := !stream.destroyed;
  }
}
