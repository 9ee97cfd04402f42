/**
 * What an uploader sees and what is kept of an upload (src/routes/upload.ts): which parts are accepted, when
 * an upload completes, and under which key, in which format and with which content type it is stored.
 */
module UploadAnswers {
  import opened Bytes
  import opened Aead
  import opened Text
  import opened StorageKeys
  import opened Files
  import opened EndToEnd
  import opened U = Upload
  import E2 = Ebp2

  // ---------------------------------------------------------------- parts

  /** How many bytes part n of the file has: none if it lies behind its end. */
  function SizeOfPart(m: Manifest, n: nat): int {
    Max(0, Min(m.chunkSize, m.totalSize - n * m.chunkSize))
  }

  /** A part is accepted exactly if the file has it and it has the right number of bytes. */
  lemma AcceptedIff(m: Manifest, put: Put)
    requires m.Valid() && put.partNumber >= 0
    ensures Verdict(m, put) == Stored <==>
              put.partNumber * m.chunkSize < m.totalSize && |put.body| == SizeOfPart(m, put.partNumber)
  {
    E2.PosIsProduct(put.partNumber, m.chunkSize);
    E2.ChunkCountBounds(m.totalSize, m.chunkSize, put.partNumber);
    E2.ChunkCountBounds(m.totalSize, m.chunkSize, 0);
  }

  /** Why a part is refused: behind the end of the file, longer than a part, of an empty file, or not of its size. */
  lemma RefusedBecause(m: Manifest, put: Put)
    requires m.Valid() && put.partNumber >= 0
    ensures Verdict(m, put) == OutOfRange <==> m.totalSize > 0 && put.partNumber * m.chunkSize >= m.totalSize
    ensures Verdict(m, put) == ChunkTooLarge <==>
              (m.totalSize == 0 || put.partNumber * m.chunkSize < m.totalSize) && |put.body| > m.chunkSize
    ensures Verdict(m, put) == EmptyUpload <==> m.totalSize == 0 && |put.body| <= m.chunkSize
  {
    E2.PosIsProduct(put.partNumber, m.chunkSize);
    E2.ChunkCountBounds(m.totalSize, m.chunkSize, put.partNumber);
    E2.ChunkCountBounds(m.totalSize, m.chunkSize, 0);
  }

  /** The bytes of the file that part n carries. */
  function PartOf(file: Buffer, chunkSize: nat, n: nat): Buffer {
    file[Min(|file|, n * chunkSize)..Min(|file|, (n + 1) * chunkSize)]
  }

  lemma BytesAreSlice(file: Buffer, chunkSize: nat, n: nat)
    ensures PartOf(file, chunkSize, n) == SliceOfFile(file, chunkSize, n)
  {
    E2.PosIsProduct(n, chunkSize);
    E2.PosIsProduct(n + 1, chunkSize);
  }

  ghost predicate SendsOnly(m: Manifest, puts: seq<Put>, file: Buffer) {
    forall i :: 0 <= i < |puts| ==>
      puts[i].partNumber >= 0 && puts[i].body == PartOf(file, m.chunkSize, puts[i].partNumber)
  }

  predicate Sends(puts: seq<Put>, n: nat) {
    exists i :: 0 <= i < |puts| && puts[i].partNumber == n
  }

  lemma {:induction false} LastIsSlice(m: Manifest, puts: seq<Put>, file: Buffer, n: nat)
    requires m.Valid() && |file| == m.totalSize && SendsOnly(m, puts, file) && Sends(puts, n) && n < m.TotalParts()
    ensures LastStored(m, puts, n) == Some(SliceOfFile(file, m.chunkSize, n))
  {
    var init, last := puts[..|puts| - 1], puts[|puts| - 1];
    BytesAreSlice(file, m.chunkSize, n);
    if last.partNumber == n {
      SliceLength(m, file, n);
      E2.ChunkAtEnds(file, m.chunkSize, n);
      E2.ChunkCountBounds(m.totalSize, m.chunkSize, n);
      assert |last.body| <= m.chunkSize;
      assert Accepted(m, last);
    } else {
      var i :| 0 <= i < |puts| && puts[i].partNumber == n;
      assert init[i].partNumber == n;
      LastIsSlice(m, init, file, n);
    }
  }

  /**
   * A client that sends nothing but its file's own parts, each at least once, in any order and as often as it
   * likes, has its upload completed, and assembled to the file.
   */
  method HonestUpload(m: Manifest, puts: seq<Put>, ghost file: Buffer) returns (result: CompleteResult)
    requires m.Valid() && |file| == m.totalSize && SendsOnly(m, puts, file)
    requires forall n: nat :: n * m.chunkSize < m.totalSize ==> Sends(puts, n)
    ensures result.Parts? && Concat(result.parts) == file
  {
    forall n: nat | n < m.TotalParts()
      ensures LastStored(m, puts, n) == Some(SliceOfFile(file, m.chunkSize, n))
    {
      E2.ChunkCountBounds(m.totalSize, m.chunkSize, n);
      E2.PosIsProduct(n, m.chunkSize);
      assert Sends(puts, n);
      LastIsSlice(m, puts, file, n);
    }
    result := U.Upload(m, puts, file);
  }

  /** Completion fails with the first part that is missing or has not its size. */
  lemma {:induction false} CompletionFails(m: Manifest, parts: map<nat, Buffer>, done: seq<Buffer>, n: nat)
    requires m.Valid() && |done| <= n && n * m.chunkSize < m.totalSize
    requires forall i :: |done| <= i < n ==> i in parts && |parts[i]| == SizeOfPart(m, i)
    requires n !in parts || |parts[n]| != SizeOfPart(m, n)
    ensures AssembleFrom(m, parts, done) == if n !in parts then MissingPart(n) else InvalidPartSize(n)
    decreases n - |done|
  {
    var i := |done|;
    E2.PosIsProduct(i, m.chunkSize);
    E2.PosIsProduct(n, m.chunkSize);
    E2.PosMonotone(i, n, m.chunkSize);
    E2.ChunkCountBounds(m.totalSize, m.chunkSize, i);
    if i < n {
      CompletionFails(m, parts, done + [parts[i]], n);
    }
  }

  // ---------------------------------------------------------------- what is stored

  /** Chunked from 50 MiB on, or if the client asks for it. */
  lemma FormatIs(encV2: bool, totalSize: nat)
    ensures UseEbp2(encV2, totalSize) <==> encV2 || totalSize > 52_428_800
    ensures E2.DEFAULT_CHUNK_SIZE == 1_048_576
  {
  }

  /** The key is the file's unique name, under the prefix if there is one. */
  lemma KeyIs(prefix: string, uniqueName: string)
    requires prefix != "" && prefix[0] != '/' && prefix[|prefix| - 1] != '/'
    ensures PutKey(prefix, uniqueName) == prefix + "/" + uniqueName
    ensures PutKey("/" + prefix + "/", uniqueName) == prefix + "/" + uniqueName
    ensures PutKey("", uniqueName) == uniqueName
  {
    assert StripSlash(prefix) == prefix && StripLastSlash(prefix) == prefix;
    assert StripSlash("/" + prefix + "/") == prefix + "/";
    assert StripLastSlash(prefix + "/") == prefix;
  }

  /** A content type comes back as it was given, without white space around it; without one it is a plain file. */
  lemma ContentTypeIsKept(contentType: string)
    ensures var announced := Announced(ContentTypeOrDefault(contentType));
            if Trim(contentType) == "" then announced == "application/octet-stream" else announced == Trim(contentType)
  {
    if contentType == "" {
      TrimTrimmed("application/octet-stream");
    }
  }

  /**
   * What a chunked object says of itself, besides its sizes: its format, the AAD it is sealed with, its content type.
   */
  lemma ChunkedMetadata(key: string, chunkSize: nat, totalSize: nat, contentType: string)
    ensures var m := Ebp2Metadata(key, chunkSize, totalSize, contentType);
            m["enc"] == "ebp2" && m["aad"] == key && m["ct"] == contentType && "encscope" !in m && "cid" !in m
  {
  }

  /** And a one-shot one, with the nonce and the tag for information. */
  lemma BlobMetadata(key: string, iv: string, tag: string, contentType: string)
    ensures var m := Ebp1Metadata(key, iv, tag, contentType);
            && m["enc"] == "ebp1" && m["encv"] == "1" && m["aad"] == key && m["ct"] == contentType
            && m["enciv"] == iv && m["enctag"] == tag && "encscope" !in m && "cid" !in m
  {
  }
}
