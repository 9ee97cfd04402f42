/**
 * From upload to download: `storeUploadedObject` (src/routes/upload.ts) and the GET handler of the
 * file route (src/routes/files.ts), composed over three different ways of cutting the same file.
 */
module EndToEnd {
  import opened Bytes
  import opened Aead
  import opened Text
  import opened ByteRanges
  import opened StorageKeys
  import opened Ebp1
  import opened Files
  import opened RangeReplies
  import U = Upload
  import E2 = Ebp2
  import R = Ebp2Range
  import W = Ebp2Whole
  import I = Ebp2Integrity

  const API_FILES := "/api/files/"

  // ---------------------------------------------------------------- what is stored

  function PutKey(storagePrefix: string, uniqueName: string): string {
    if ObjectPrefix(storagePrefix) != "" then ObjectPrefix(storagePrefix) + "/" + uniqueName else uniqueName
  }

  function ContentTypeOrDefault(contentType: string): string {
    if contentType != "" then contentType else OCTET_STREAM
  }

  function Ebp2Metadata(key: string, chunkSize: nat, totalSize: nat, contentType: string): Metadata {
    map["enc" := "ebp2", "encalg" := "aes-256-gcm", "chunksize" := Decimal(chunkSize),
        "totalSize" := Decimal(totalSize), "ct" := contentType, "aad" := key]
  }

  function Ebp1Metadata(key: string, iv: string, tag: string, contentType: string): Metadata {
    map["enc" := "ebp1", "encv" := "1", "encalg" := "aes-256-gcm", "enciv" := iv, "enctag" := tag,
        "ct" := contentType, "aad" := key]
  }

  predicate UseEbp2(encV2: bool, totalSize: nat) {
    encV2 || totalSize > U.EBP2_SIZE_THRESHOLD
  }

  /** The content type a download announces for the one given at upload. */
  function Announced(contentType: string): string {
    if Trim(contentType) == "" then OCTET_STREAM else Trim(contentType)
  }

  /** `storeUploadedObject`. `hexIv` and `hexTag` are the two informational metadata fields of EBP1. */
  method StoreUploadedObject(env: Env, store: Store, uniqueName: string, contentType: string, totalSize: nat,
                             fragments: seq<Buffer>, ivs: E2.IvSource, encV2: bool, hexIv: string, hexTag: string)
    returns (stored: Option<Store>, url: string)
    requires env.cipher.Correct() && E2.ValidIvs(ivs)
    requires totalSize <= 0x10_0000_0000_0000
    ensures url == API_FILES + EncodeKeyForUrl(env.codec, PutKey(env.storagePrefix, uniqueName))
    ensures var key, ct := PutKey(env.storagePrefix, uniqueName), ContentTypeOrDefault(contentType);
            var bytes := if UseEbp2(encV2, totalSize)
                         then E2.Encode(ContextOf(env, key, totalSize, E2.DEFAULT_CHUNK_SIZE), ivs, Concat(fragments))
                         else EncryptBuffer(env.cipher, env.encKey, ivs(0), env.utf8(key), Concat(fragments));
            var meta := if UseEbp2(encV2, totalSize)
                        then Ebp2Metadata(key, E2.DEFAULT_CHUNK_SIZE, totalSize, ct)
                        else Ebp1Metadata(key, hexIv, hexTag, ct);
            stored == Some(store[key := StoredObject(bytes, OCTET_STREAM, meta)])
    ensures var key := PutKey(env.storagePrefix, uniqueName);
            stored.Some? && key in stored.value
            && (UseEbp2(encV2, totalSize) && |Concat(fragments)| == totalSize ==>
                  W.Whole(env.cipher, env.encKey, env.utf8(key), stored.value[key].bytes) == Some(Concat(fragments)))
            && (!UseEbp2(encV2, totalSize) ==>
                  DecryptBuffer(env.cipher, stored.value[key].bytes, env.encKey, env.utf8(key))
                  == Some(Concat(fragments)))
  {
    var key := PutKey(env.storagePrefix, uniqueName);
    var ct := ContentTypeOrDefault(contentType);
    url := API_FILES + EncodeKeyForUrl(env.codec, key);
    var bytes, meta;
    if UseEbp2(encV2, totalSize) {
      bytes := E2.EncryptStream(ContextOf(env, key, totalSize, E2.DEFAULT_CHUNK_SIZE), ivs, fragments);
      meta := Ebp2Metadata(key, E2.DEFAULT_CHUNK_SIZE, totalSize, ct);
      if |Concat(fragments)| == totalSize {
        W.WholeInvertsEncode(ContextOf(env, key, totalSize, E2.DEFAULT_CHUNK_SIZE), ivs, Concat(fragments));
      }
    } else {
      var plain := Concat(fragments);
      bytes := EncryptBuffer(env.cipher, env.encKey, ivs(0), env.utf8(key), plain);
      DecryptInvertsEncrypt(env.cipher, env.encKey, ivs(0), env.utf8(key), plain);
      if DecryptBuffer(env.cipher, bytes, env.encKey, env.utf8(key)).None? {
        return None, url;
      }
      meta := Ebp1Metadata(key, hexIv, hexTag, ct);
    }
    stored := Some(store[key := StoredObject(bytes, OCTET_STREAM, meta)]);
  }

  // ---------------------------------------------------------------- what it is found and served as

  lemma LowerTag(c: char)
    requires c == '1' || c == '2'
    ensures LowerAscii(Trim("ebp" + [c])) == "ebp" + [c]
  {
    var s := "ebp" + [c];
    TrimTrimmed(s);
    LowerUnchanged(s);
  }

  /** How the format tag is recognised. */
  lemma TagRead(m: Metadata, c: char)
    requires c == '1' || c == '2'
    requires "enc" in m && m["enc"] == "ebp" + [c]
    ensures MetaIsEbp2(m) <==> c == '2'
    ensures c == '1' ==> MetaIsEbp1(m)
  {
    LowerTag(c);
    assert ("ebp" + [c])[3] == c && "ebp2"[3] == '2';
    assert "ebp" + ['2'] == "ebp2" && "ebp" + ['1'] == "ebp1";
  }

  lemma ParseIntInvertsDecimal(n: nat)
    ensures ParseInt(Decimal(n)) == Some(n)
  {
    ParseIntReads(n, "");
    assert Decimal(n) + "" == Decimal(n);
  }

  lemma {:induction false} FoundFirst(env: Env, store: Store, key: string, range: Option<string>)
    requires env.codec.Correct() && key != "" && key[0] != '/'
    ensures var candidates := ServeKeys(key, env.bucket, ObjectPrefix(env.storagePrefix));
            candidates != [] && candidates[0] == key
            && (TryCandidate(env, store, candidates, key, range).Some? ==>
                  Serve(env, store, EncodeKeyForUrl(env.codec, key), range)
                  == TryCandidate(env, store, candidates, key, range))
  {
    FirstCandidateIsKey(env.codec, key, env.bucket, ObjectPrefix(env.storagePrefix));
  }

  lemma Ebp2Fields(m: Metadata, key: string, chunkSize: nat, totalSize: nat, ct: string)
    requires m == Ebp2Metadata(key, chunkSize, totalSize, ct)
    ensures MetaIsEbp2(m) && HasSizes(m)
    ensures ParseInt(Meta(m, "totalSize")) == Some(totalSize)
    ensures ParseInt(Meta(m, "chunksize")) == Some(chunkSize)
    ensures OriginalContentType(m) == Announced(ct)
  {
    Ebp2Tag(m);
    Ebp2Texts(m, key, chunkSize, totalSize, ct);
    ParseIntInvertsDecimal(totalSize);
    ParseIntInvertsDecimal(chunkSize);
  }

  lemma Ebp2Tag(m: Metadata)
    requires "enc" in m && m["enc"] == "ebp2"
    ensures MetaIsEbp2(m)
  {
    assert "ebp2" == "ebp" + ['2'];
    TagRead(m, '2');
  }

  lemma Ebp2Texts(m: Metadata, key: string, chunkSize: nat, totalSize: nat, ct: string)
    requires m == Ebp2Metadata(key, chunkSize, totalSize, ct)
    ensures "enc" in m && m["enc"] == "ebp2" && Meta(m, "ct") == ct
    ensures Meta(m, "totalSize") == Decimal(totalSize) && Meta(m, "chunksize") == Decimal(chunkSize)
  {
  }

  /** An object stored as EBP2 is found under its own key. */
  lemma Ebp2IsFound(env: Env, store: Store, key: string, chunkSize: nat, totalSize: nat, ct: string,
                    range: Option<string>)
    requires env.codec.Correct() && key != "" && key[0] != '/'
    requires key in store && store[key].metadata == Ebp2Metadata(key, chunkSize, totalSize, ct)
    ensures Serve(env, store, EncodeKeyForUrl(env.codec, key), range) == Some(SendEbp2(key))
  {
    Ebp2Fields(store[key].metadata, key, chunkSize, totalSize, ct);
    FoundFirst(env, store, key, range);
  }

  lemma RecordedAad(env: Env, stored: StoredObject, key: string, iv: Buffer, hexIv: string, hexTag: string, ct: string,
                    plain: Buffer, candidates: seq<string>)
    requires env.cipher.Correct() && |iv| == IV_LEN
    requires Trim(key) == key && key != ""
    requires stored.metadata == Ebp1Metadata(key, hexIv, hexTag, ct)
    requires stored.bytes == EncryptBuffer(env.cipher, env.encKey, iv, env.utf8(key), plain)
    ensures DecryptEbp1(env, stored, AadCandidates(stored.metadata, key, candidates)) == Some(plain)
    ensures |stored.bytes| == OVERHEAD + |plain|
  {
    DecryptInvertsEncrypt(env.cipher, env.encKey, iv, env.utf8(key), plain);
    assert LowerAscii("") == "";
    assert AadCandidates(stored.metadata, key, candidates) == [key];
  }

  lemma Ebp1Fields(m: Metadata, key: string, hexIv: string, hexTag: string, ct: string)
    requires m == Ebp1Metadata(key, hexIv, hexTag, ct)
    ensures !MetaIsEbp2(m) && MetaIsEbp1(m)
    ensures OriginalContentType(m) == Announced(ct)
  {
    assert "ebp1" == "ebp" + ['1'];
    TagRead(m, '1');
  }

  /** An object stored as EBP1 under its own key decrypts to what was sealed. */
  lemma Ebp1IsServed(env: Env, store: Store, key: string, iv: Buffer, hexIv: string, hexTag: string, ct: string,
                     plain: Buffer, range: Option<string>)
    requires env.codec.Correct() && env.cipher.Correct() && |iv| == IV_LEN
    requires key != "" && key[0] != '/' && Trim(key) == key
    requires key in store && store[key].metadata == Ebp1Metadata(key, hexIv, hexTag, ct)
    requires store[key].bytes == EncryptBuffer(env.cipher, env.encKey, iv, env.utf8(key), plain)
    ensures Serve(env, store, EncodeKeyForUrl(env.codec, key), range)
         == Some(Send(SendDecrypted(plain, range, OVERHEAD + |plain|, Announced(ct))))
  {
    Ebp1Fields(store[key].metadata, key, hexIv, hexTag, ct);
    RecordedAad(env, store[key], key, iv, hexIv, hexTag, ct, plain,
                ServeKeys(key, env.bucket, ObjectPrefix(env.storagePrefix)));
    FoundFirst(env, store, key, range);
  }

  // ---------------------------------------------------------------- the GET handler

  datatype Reply =
    | Sent(response: Response, contentLength: int)
    | Destroyed(response: Response, contentLength: int) // the connection is cut after this much of the body
    | Other // malformed URL, a raw object, unreadable sizes

  predicate HasBody(response: Response) {
    response.Full? || response.Partial?
  }

  /**
   * The reply carries exactly the requested bytes of `data`, and announces exactly their number unless
   * `data` is empty.
   */
  ghost predicate IsSliceOf(reply: Reply, data: Buffer, range: Option<string>, contentType: string) {
    && reply.Sent?
    && var wanted := RequestedRange(range, |data|, contentType);
       if wanted.None? then reply == Sent(RangeNotSatisfiable(|data|), 0)
       else
         var r := wanted.value;
         && reply.response == RangeResponse(SliceAt(data, r), r, range, |data|, contentType)
         && (if data == [] then reply.contentLength == 1 && reply.response.body == []
             else r.start <= r.end < |data| && SliceAt(data, r) == data[r.start..r.end + 1]
                  && (Given(range).None? ==> reply.response == Full(data, contentType))
                  && |reply.response.body| == reply.contentLength)
  }

  /** The reply carries less than it announces, and nothing but a prefix of the requested bytes of `data`. */
  ghost predicate IsCutShort(reply: Reply, data: Buffer, range: Option<string>, contentType: string) {
    && !reply.Other? && HasBody(reply.response) && |reply.response.body| < reply.contentLength
    && (reply.response.body != [] ==>
          var wanted := RequestedRange(range, |data|, contentType);
          wanted.Some? && reply.response.body <= SliceAt(data, wanted.value))
  }

  /** The sizes recorded with an object, if both can be read. */
  function SizesOf(stored: StoredObject): Option<(nat, nat)> {
    var total, chunk := ParseInt(Meta(stored.metadata, "totalSize")), ParseInt(Meta(stored.metadata, "chunksize"));
    if total.Some? && chunk.Some? && total.value >= 0 && chunk.value > 0 then Some((total.value, chunk.value)) else None
  }

  /** The range misses the object, going by the size recorded with it. */
  ghost predicate IsRefusal(reply: Reply, stored: StoredObject) {
    SizesOf(stored).Some? && reply == Sent(RangeNotSatisfiable(SizesOf(stored).value.0), 0)
  }

  /** The sizes can be read, and what the store returns opens to chunks of `data` only. */
  ghost predicate Readable(env: Env, stored: StoredObject, key: string, fetch: R.Fetcher, data: Buffer) {
    var sizes := SizesOf(stored);
    sizes.Some? && R.Faithful(ContextOf(env, key, sizes.value.0, sizes.value.1), fetch, data)
  }

  /** All of it is there. */
  ghost predicate Complete(env: Env, stored: StoredObject, key: string, fetch: R.Fetcher, data: Buffer)
    requires Readable(env, stored, key, fetch, data)
  {
    var (total, chunk) := SizesOf(stored).value;
    |data| == total && R.Available(ContextOf(env, key, total, chunk), fetch)
  }

  /**
   * Under ideal encryption an object reads as its file or not at all, whatever bytes the store hands
   * back for it and whatever sizes its metadata claims.
   */
  lemma IdealIsReadable(env: Env, stored: StoredObject, key: string, files: set<I.SealedFile>, blobs: set<Buffer>,
                        file: I.SealedFile, fetch: R.Fetcher)
    requires I.Ideal(env.cipher, env.encKey, files, blobs) && I.OnlyFileFor(file, files, blobs)
    requires file.objectKey == env.utf8(key) && |file.data| == file.totalSize
    requires SizesOf(stored).Some?
    ensures Readable(env, stored, key, fetch, file.data)
  {
    var (total, chunk) := SizesOf(stored).value;
    R.IdealIsFaithful(ContextOf(env, key, total, chunk), files, blobs, file, fetch);
  }

  lemma SliceIsInside(data: Buffer, range: Option<string>, contentType: string)
    requires RequestedRange(range, |data|, contentType).Some?
    ensures var r := RequestedRange(range, |data|, contentType).value;
            if data == [] then SliceAt(data, r) == []
            else
              && r.start <= r.end < |data| && SliceAt(data, r) == data[r.start..r.end + 1]
              && (Given(range).None? ==> SliceAt(data, r) == data)
  {
    WantedIsInside(range, |data|, contentType);
  }

  function ReplyOf(response: Response, contentLength: int, complete: bool): Reply {
    if complete then Sent(response, contentLength) else Destroyed(response, contentLength)
  }

  lemma AnswerIsSlice(response: Response, contentLength: int, contentType: string, range: Option<string>, data: Buffer)
    requires IsAnswer(response, contentLength, true, |data|, contentType, range, data)
    ensures IsSliceOf(Sent(response, contentLength), data, range, contentType)
  {
    if RequestedRange(range, |data|, contentType).Some? {
      SliceIsInside(data, range, contentType);
    }
  }

  lemma AnswerIsSliceOrLess(response: Response, contentLength: int, complete: bool, total: nat, contentType: string,
                            range: Option<string>, data: Buffer)
    requires IsAnswer(response, contentLength, complete, total, contentType, range, data)
    ensures var reply := ReplyOf(response, contentLength, complete);
            || (reply.Sent? && |data| == total)
            || IsCutShort(reply, data, range, contentType)
            || reply == Sent(RangeNotSatisfiable(total), 0)
  {
  }

  /**
   * Either the requested bytes, or less of them than announced, or a refusal; with all chunks there, the
   * requested bytes.
   */
  method SendStored(env: Env, stored: StoredObject, key: string, fetch: R.Fetcher, range: Option<string>,
                    ghost data: Buffer)
    returns (reply: Reply)
    requires Readable(env, stored, key, fetch, data)
    ensures Complete(env, stored, key, fetch, data) ==>
              IsSliceOf(reply, data, range, OriginalContentType(stored.metadata))
    ensures || IsSliceOf(reply, data, range, OriginalContentType(stored.metadata))
            || IsCutShort(reply, data, range, OriginalContentType(stored.metadata))
            || IsRefusal(reply, stored)
  {
    var (total, chunk) := SizesOf(stored).value;
    var contentType := OriginalContentType(stored.metadata);
    var response, contentLength, complete := SendEbp2Object(env, key, total, chunk, contentType, fetch, range, data);
    reply := ReplyOf(response, contentLength, complete);
    AnswerIsSliceOrLess(response, contentLength, complete, total, contentType, range, data);
    if complete && |data| == total {
      AnswerIsSlice(response, contentLength, contentType, range, data);
    }
  }

  /** The handler for an URL path, reading the store through `get`. */
  method Get(env: Env, store: Store, urlPath: string, get: Buffer -> R.Fetcher, range: Option<string>,
             ghost data: Buffer)
    returns (reply: Reply)
    requires forall key :: key in store && Serve(env, store, urlPath, range) == Some(SendEbp2(key)) ==>
               Readable(env, store[key], key, get(store[key].bytes), data)
    ensures forall response :: Serve(env, store, urlPath, range) == Some(Send(response)) ==>
              && reply.Sent? && reply.response == response
              && (HasBody(response) ==> reply.contentLength == |response.body|)
    ensures forall key :: key in store && Serve(env, store, urlPath, range) == Some(SendEbp2(key))
                          && Complete(env, store[key], key, get(store[key].bytes), data) ==>
              IsSliceOf(reply, data, range, OriginalContentType(store[key].metadata))
    ensures forall key :: key in store && Serve(env, store, urlPath, range) == Some(SendEbp2(key)) ==>
              || IsSliceOf(reply, data, range, OriginalContentType(store[key].metadata))
              || IsCutShort(reply, data, range, OriginalContentType(store[key].metadata))
              || IsRefusal(reply, store[key])
  {
    var decoded := DecodeKeyFromUrl(env.codec, urlPath);
    if decoded.None? {
      return Other;
    }
    var candidates := ServeKeys(StripSlash(decoded.value), env.bucket, ObjectPrefix(env.storagePrefix));
    var outcome := ServeLoop(env, store, candidates, range);
    match outcome
    case SendRaw(_) =>
      reply := Other;
    case Send(response) =>
      reply := Sent(response, if HasBody(response) then |response.body| else 0);
    case SendEbp2(key) =>
      if key !in store {
        return Other;
      }
      reply := SendStored(env, store[key], key, get(store[key].bytes), range, data);
  }

  // ---------------------------------------------------------------- the composition

  /**
   * What a decrypted EBP1 blob is sent as: all of it, the requested bytes, or a refusal; a refusal means that the
   * range misses the plaintext.
   */
  lemma DecryptedIsSlice(plain: Buffer, range: Option<string>, encSize: nat, contentType: string)
    requires plain != []
    ensures match SendDecrypted(plain, range, encSize, contentType) {
              case Full(body, ct) =>
                body == plain && ct == contentType
              case Partial(body, start, end, size, ct) =>
                && range.Some? && ParseRangeHeader(range.value, |plain|) == Some(ByteRange(start, end))
                && size == |plain| && start <= end < |plain| && body == plain[start..end + 1] && ct == contentType
              case RangeNotSatisfiable(size) =>
                size == |plain| && range.Some? && ParseRangeHeader(range.value, |plain|).None?
              case NotFound => false
            }
  {
    var effective := EffectiveRange(range, encSize, contentType);
    if effective.Some? && ParseRangeHeader(effective.value, |plain|).Some? {
      AcceptedRangeIsInside(effective.value, |plain|);
    }
  }

  /**
   * What the environment of a run has to satisfy: working primitives and a prefix without a slash of its
   * own in front.
   */
  ghost predicate Sound(env: Env, ivs: E2.IvSource, uniqueName: string) {
    && env.cipher.Correct() && env.codec.Correct() && E2.ValidIvs(ivs)
    && uniqueName != "" && uniqueName[0] != '/'
    && !StartsWith(ObjectPrefix(env.storagePrefix), "/")
  }

  lemma KeyStartsWell(env: Env, ivs: E2.IvSource, uniqueName: string)
    requires Sound(env, ivs, uniqueName)
    ensures PutKey(env.storagePrefix, uniqueName) != "" && PutKey(env.storagePrefix, uniqueName)[0] != '/'
  {
    var p := ObjectPrefix(env.storagePrefix);
    if p != "" {
      assert PutKey(env.storagePrefix, uniqueName)[0] == p[0];
      assert StartsWith(p, "/") <==> p[0] == '/';
    }
  }

  lemma StoredIsReadable(env: Env, stored: StoredObject, key: string, file: Buffer, ct: string, ivs: E2.IvSource,
                         fetch: R.Fetcher)
    requires env.cipher.Correct() && E2.ValidIvs(ivs)
    requires 0 < |file| <= 0x10_0000_0000_0000
    requires stored.metadata == Ebp2Metadata(key, E2.DEFAULT_CHUNK_SIZE, |file|, ct)
    requires stored.bytes == E2.Encode(ContextOf(env, key, |file|, E2.DEFAULT_CHUNK_SIZE), ivs, file)
    requires R.Honest(fetch, stored.bytes)
    ensures Readable(env, stored, key, fetch, file) && Complete(env, stored, key, fetch, file)
  {
    Ebp2Fields(stored.metadata, key, E2.DEFAULT_CHUNK_SIZE, |file|, ct);
    R.HonestIsFaithful(ContextOf(env, key, |file|, E2.DEFAULT_CHUNK_SIZE), ivs, file, fetch);
  }

  lemma SliceAnswers(reply: Reply, file: Buffer, range: Option<string>, contentType: string)
    requires file != [] && IsSliceOf(reply, file, range, contentType)
    ensures Answers(reply.response, reply.contentLength, file, range, contentType)
  {
    if RequestedRange(range, |file|, contentType).Some? {
      SliceIsInside(file, range, contentType);
    }
    assert IsAnswer(reply.response, reply.contentLength, true, |file|, contentType, range, file);
    WholeAnswers(reply.response, reply.contentLength, file, range, contentType);
  }

  /**
   * The whole way of a file. Parts arrive in any order and are retried at will (`puts`), the assembled
   * parts are read in fragments cut anywhere (`readStream`), the fragments are cut into sealed chunks,
   * and a download fetches and opens only the chunks its range touches. What comes out is the file's
   * own slice, and the announced length is its length.
   */
  method UploadThenDownload(env: Env, store: Store, m: U.Manifest, puts: seq<U.Put>,
                            readStream: seq<Buffer> -> seq<Buffer>,
                            ivs: E2.IvSource, uniqueName: string, encV2: bool, hexIv: string, hexTag: string,
                            get: Buffer -> R.Fetcher, range: Option<string>, ghost file: Buffer)
    returns (reply: Reply)
    requires Sound(env, ivs, uniqueName)
    requires m.Valid() && |file| == m.totalSize && 0 < m.totalSize <= 0x10_0000_0000_0000
    requires forall i :: 0 <= i < |puts| ==> puts[i].partNumber >= 0
    requires U.AllPartsSent(m, puts, file)
    requires forall parts :: Concat(readStream(parts)) == Concat(parts)
    requires forall bytes :: R.Honest(get(bytes), bytes)
    requires var key := PutKey(env.storagePrefix, uniqueName); UseEbp2(encV2, m.totalSize) || Trim(key) == key
    ensures UseEbp2(encV2, m.totalSize) ==>
              IsSliceOf(reply, file, range, Announced(ContentTypeOrDefault(m.contentType)))
    ensures !UseEbp2(encV2, m.totalSize) ==>
              && reply.Sent?
              && reply.response
                 == SendDecrypted(file, range, OVERHEAD + |file|, Announced(ContentTypeOrDefault(m.contentType)))
              && (HasBody(reply.response) ==> reply.contentLength == |reply.response.body|)
    ensures var contentType := Announced(ContentTypeOrDefault(m.contentType));
            && reply.Sent?
            && if UseEbp2(encV2, m.totalSize)
               then Answers(reply.response, reply.contentLength, file, range, contentType)
               else BlobAnswers(reply.response, file, range, contentType)
  {
    var assembled := U.Upload(m, puts, file);
    var fragments := readStream(assembled.parts);
    var stored, url :=
      StoreUploadedObject(env, store, uniqueName, m.contentType, m.totalSize, fragments, ivs, encV2, hexIv, hexTag);
    var key := PutKey(env.storagePrefix, uniqueName);
    KeyStartsWell(env, ivs, uniqueName);
    var path := url[|API_FILES|..];
    ghost var ct := ContentTypeOrDefault(m.contentType);
    if UseEbp2(encV2, m.totalSize) {
      Ebp2IsFound(env, stored.value, key, E2.DEFAULT_CHUNK_SIZE, |file|, ct, range);
      StoredIsReadable(env, stored.value[key], key, file, ct, ivs, get(stored.value[key].bytes));
      Ebp2Fields(stored.value[key].metadata, key, E2.DEFAULT_CHUNK_SIZE, |file|, ct);
    } else {
      Ebp1IsServed(env, stored.value, key, ivs(0), hexIv, hexTag, ct, file, range);
    }
    reply := Get(env, stored.value, path, get, range, file);
    if UseEbp2(encV2, m.totalSize) {
      SliceAnswers(reply, file, range, Announced(ct));
    } else {
      DecryptedAnswers(file, range, Announced(ct));
    }
  }
}
