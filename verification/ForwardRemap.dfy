/** Re-materialising forwarded attachments (src/lib/forwardAttachmentRemap.ts) preserves what an URL serves. */
module ForwardRemap {
  import opened Bytes
  import opened Aead
  import opened Text
  import opened ByteRanges
  import opened StorageKeys
  import opened Ebp1
  import opened Files
  import opened EndToEnd

  const MAX_REMEDY_BYTES := 55 * 1024 * 1024

  /** `decodeSeg`: a segment that does not decode stands for itself. */
  function DecodeOrKeep(codec: UriCodec, segments: seq<string>): seq<string> {
    if segments == [] then []
    else
      var d := codec.decode(segments[0]);
      [if d.Some? then d.value else segments[0]] + DecodeOrKeep(codec, segments[1..])
  }

  /** `s.replace(/^\/+/, "")`. */
  function StripAllSlashes(s: string): (r: string)
    ensures r == "" || r[0] != '/'
  {
    if s != "" && s[0] == '/' then StripAllSlashes(s[1..]) else s
  }

  /** `extractPrimaryRelativeKey`, for the part of the URL after `/api/files/`; "" for null. */
  function PrimaryRel(codec: UriCodec, urlPath: string): string {
    StripAllSlashes(Join(DecodeOrKeep(codec, Split(urlPath, '/')), '/'))
  }

  function RemapKeys(env: Env, urlPath: string): seq<string> {
    var primary := PrimaryRel(env.codec, urlPath);
    if primary == "" then [] else BuildCandidateKeys(primary, env.bucket, ObjectPrefix(env.storagePrefix))
  }

  function FirstExisting(store: Store, keys: seq<string>): (r: Option<string>)
    ensures r.Some? ==> r.value in keys && r.value in store
    ensures r.None? ==> forall k :: k in keys ==> k !in store
  {
    if keys == [] then None
    else if keys[0] in store then Some(keys[0])
    else FirstExisting(store, keys[1..])
  }

  /** `resolveFirstExistingAttachmentKey`; without a key in the URL there is nothing to look up. */
  method ResolveFirstExisting(env: Env, store: Store, urlPath: string) returns (key: Option<string>)
    ensures key == FirstExisting(store, RemapKeys(env, urlPath))
  {
    var keys := RemapKeys(env, urlPath);
    assert keys[0..] == keys;
    for i := 0 to |keys|
      invariant FirstExisting(store, keys) == FirstExisting(store, keys[i..])
    {
      assert keys[i..][0] == keys[i] && keys[i..][1..] == keys[i + 1..];
      if keys[i] in store {
        return Some(keys[i]);
      }
    }
    assert keys[|keys|..] == [];
    key := None;
  }

  /** One forwarded attachment: the conversation it goes to, and what is fresh for the new object. */
  datatype Forward = Forward(urlPath: string, destination: string, uniqueName: string, iv: Buffer, hexIv: string,
                             hexTag: string)

  /** The object is an EBP1 blob sealed for another conversation, and small enough. */
  predicate NeedsRemap(f: Forward, stored: StoredObject) {
    var m := stored.metadata;
    && !MetaIsEbp2(m) && MetaIsEbp1(m) && ChatScoped(m)
    && Trim(Meta(m, "cid")) != f.destination
    && |stored.bytes| <= MAX_REMEDY_BYTES
  }

  function NewKey(env: Env, f: Forward): string {
    PutKey(env.storagePrefix, f.uniqueName)
  }

  function Reseal(env: Env, f: Forward, plain: Buffer, contentType: string): StoredObject {
    var key := NewKey(env, f);
    StoredObject(EncryptBuffer(env.cipher, env.encKey, f.iv, env.utf8(key), plain), OCTET_STREAM,
                 Ebp1Metadata(key, f.hexIv, f.hexTag, contentType))
  }

  /** The plaintext to re-materialise, if there is one. */
  function Recovered(env: Env, store: Store, f: Forward): Option<Buffer> {
    var keys := RemapKeys(env, f.urlPath);
    var found := FirstExisting(store, keys);
    if found.None? || !NeedsRemap(f, store[found.value]) then None
    else
      DecryptEbp1(env, store[found.value], AadCandidates(store[found.value].metadata, found.value, keys))
  }

  /** `remapOneAttachment`: the store and the URL path afterwards. */
  function Remap(env: Env, store: Store, f: Forward): (Store, string) {
    var plain := Recovered(env, store, f);
    if plain.None? then (store, f.urlPath)
    else
      var source := store[FirstExisting(store, RemapKeys(env, f.urlPath)).value];
      (store[NewKey(env, f) := Reseal(env, f, plain.value, OriginalContentType(source.metadata))],
       EncodeKeyForUrl(env.codec, NewKey(env, f)))
  }

  method RemapOneAttachment(env: Env, store: Store, f: Forward) returns (after: Store, urlPath: string)
    ensures (after, urlPath) == Remap(env, store, f)
  {
    after, urlPath := store, f.urlPath;
    if PrimaryRel(env.codec, f.urlPath) == "" {
      return;
    }
    var resolved := ResolveFirstExisting(env, store, f.urlPath);
    if resolved.None? {
      return;
    }
    var source := store[resolved.value];
    if !NeedsRemap(f, source) {
      return;
    }
    var aads := AadCandidates(source.metadata, resolved.value, RemapKeys(env, f.urlPath));
    var decrypted := DecryptLoop(env, source, aads);
    if decrypted.None? {
      return;
    }
    var key := NewKey(env, f);
    after := store[key := Reseal(env, f, decrypted.value, OriginalContentType(source.metadata))];
    urlPath := EncodeKeyForUrl(env.codec, key);
  }

  // ---------------------------------------------------------------- when there is a new object

  /** Sealed one-shot for one conversation, which is not the destination, and of at most 55 MiB. */
  predicate IsForeignBlob(f: Forward, stored: StoredObject) {
    var m := stored.metadata;
    var tag := LowerAscii(Trim(Meta(m, "enc")));
    var cid := Trim(Meta(m, "cid"));
    && tag != "ebp2"
    && (tag == "ebp1" || LowerAscii(Trim(if "encv" in m then m["encv"] else Meta(m, "enc_v"))) == "1")
    && LowerAscii(Meta(m, "encscope")) == "chat" && cid != "" && cid != f.destination
    && |stored.bytes| <= 57_671_680
  }

  /** The object that the URL leads to is a foreign blob, and some key and AAD at hand open it. */
  ghost predicate CanRematerialise(env: Env, store: Store, f: Forward) {
    var keys := RemapKeys(env, f.urlPath);
    var found := FirstExisting(store, keys);
    && found.Some? && IsForeignBlob(f, store[found.value])
    && Openable(env, store[found.value], AadCandidates(store[found.value].metadata, found.value, keys))
  }

  lemma ForeignIsRemapped(f: Forward, stored: StoredObject)
    ensures NeedsRemap(f, stored) <==> IsForeignBlob(f, stored)
  {
  }

  lemma OpenableIff(env: Env, stored: StoredObject, aads: seq<string>)
    ensures DecryptEbp1(env, stored, aads).Some? <==> Openable(env, stored, aads)
  {
    if DecryptEbp1(env, stored, aads).Some? {
      var k, a := OpenedBy(env, stored, aads);
      assert Openable(env, stored, aads);
    }
    if Openable(env, stored, aads) {
      var k, a :| TriesKey(env, stored, k) && a in aads
        && DecryptBuffer(env.cipher, stored.bytes, k, env.utf8(a)).Some?;
      OpensWhenever(env, stored, aads, k, a);
    }
  }

  lemma RecoveredIff(env: Env, store: Store, f: Forward)
    ensures Recovered(env, store, f).Some? <==> CanRematerialise(env, store, f)
  {
    var keys := RemapKeys(env, f.urlPath);
    var found := FirstExisting(store, keys);
    if found.Some? {
      ForeignIsRemapped(f, store[found.value]);
      OpenableIff(env, store[found.value], AadCandidates(store[found.value].metadata, found.value, keys));
    }
  }

  /** Sealed with the storage key for the key it is stored under, with that content type, and for no conversation. */
  ghost predicate IsSealedFor(env: Env, stored: StoredObject, key: string, plain: Buffer, contentType: string) {
    && DecryptBuffer(env.cipher, stored.bytes, env.encKey, env.utf8(key)) == Some(plain)
    && stored.contentType == "application/octet-stream"
    && Meta(stored.metadata, "aad") == key && Meta(stored.metadata, "enc") == "ebp1"
    && "cid" !in stored.metadata && "encscope" !in stored.metadata
    && Meta(stored.metadata, "ct") == contentType
  }

  lemma ResealedIs(env: Env, f: Forward, plain: Buffer, contentType: string)
    requires env.cipher.Correct() && |f.iv| == IV_LEN
    ensures IsSealedFor(env, Reseal(env, f, plain, contentType), PutKey(env.storagePrefix, f.uniqueName), plain,
                        contentType)
  {
    DecryptInvertsEncrypt(env.cipher, env.encKey, f.iv, env.utf8(NewKey(env, f)), plain);
  }

  /**
   * Exactly then is there a new object: under the new key, sealed for it, with the content type of the old;
   * and the URL is the new key's. In every other case nothing changes.
   */
  lemma RematerialisedIff(env: Env, store: Store, f: Forward)
    requires env.cipher.Correct() && |f.iv| == IV_LEN
    ensures var (after, urlPath) := Remap(env, store, f);
            var key := PutKey(env.storagePrefix, f.uniqueName);
            if CanRematerialise(env, store, f) then
              var source := store[FirstExisting(store, RemapKeys(env, f.urlPath)).value];
              && after.Keys == store.Keys + {key} && (forall k :: k in store && k != key ==> after[k] == store[k])
              && Recovered(env, store, f).Some?
              && IsSealedFor(env, after[key], key, Recovered(env, store, f).value, OriginalContentType(source.metadata))
              && urlPath == EncodeKeyForUrl(env.codec, key)
            else
              after == store && urlPath == f.urlPath
  {
    RecoveredIff(env, store, f);
    if CanRematerialise(env, store, f) {
      var source := store[FirstExisting(store, RemapKeys(env, f.urlPath)).value];
      ResealedIs(env, f, Recovered(env, store, f).value, OriginalContentType(source.metadata));
    }
  }

  // ---------------------------------------------------------------- the remapped URL serves the same

  /** Whatever key and AAD open the payload, they open it to the same plaintext. */
  ghost predicate Unambiguous(env: Env, payload: Buffer) {
    forall k, a, l, b {:trigger DecryptBuffer(env.cipher, payload, k, a), DecryptBuffer(env.cipher, payload, l, b)} ::
      DecryptBuffer(env.cipher, payload, k, a).Some? && DecryptBuffer(env.cipher, payload, l, b).Some? ==>
        DecryptBuffer(env.cipher, payload, k, a) == DecryptBuffer(env.cipher, payload, l, b)
  }

  lemma {:induction false} WithoutMembers(keys: seq<string>, key: string)
    ensures forall k :: k in Without(keys, key) <==> k in keys && k != key
  {
    if keys != [] {
      WithoutMembers(keys[1..], key);
    }
  }

  /** With more candidates to try, at least the same AADs are tried. */
  lemma MoreAads(m: Metadata, key: string, fewer: seq<string>, more: seq<string>, a: string)
    requires fewer <= more
    requires a in AadCandidates(m, key, fewer)
    ensures a in AadCandidates(m, key, more)
  {
    WithoutMembers(fewer, key);
    WithoutMembers(more, key);
  }

  /** What a blob decrypts to does not depend on how many more candidates are at hand. */
  lemma DecryptsWithMore(env: Env, stored: StoredObject, key: string, fewer: seq<string>, more: seq<string>)
    requires fewer <= more && Unambiguous(env, stored.bytes)
    requires DecryptEbp1(env, stored, AadCandidates(stored.metadata, key, fewer)).Some?
    ensures DecryptEbp1(env, stored, AadCandidates(stored.metadata, key, more))
         == DecryptEbp1(env, stored, AadCandidates(stored.metadata, key, fewer))
    ensures env.cipher.LengthPreserving() ==>
              |stored.bytes| == OVERHEAD + |DecryptEbp1(env, stored, AadCandidates(stored.metadata, key, fewer)).value|
  {
    var few, many := AadCandidates(stored.metadata, key, fewer), AadCandidates(stored.metadata, key, more);
    var k, a := OpenedBy(env, stored, few);
    MoreAads(stored.metadata, key, fewer, more, a);
    OpensWhenever(env, stored, many, k, a);
    var l, b := OpenedBy(env, stored, many);
    if env.cipher.LengthPreserving() {
      DecryptedLength(env.cipher, stored.bytes, k, env.utf8(a));
    }
  }

  /** The route skips the candidates that do not exist. */
  lemma {:induction false} SkipMissing(env: Env, store: Store, candidates: seq<string>, untried: seq<string>,
                                       keys: seq<string>, range: Option<string>)
    requires keys <= untried
    requires FirstExisting(store, keys).Some?
    requires TryCandidate(env, store, candidates, FirstExisting(store, keys).value, range).Some?
    ensures Some(FirstServed(env, store, candidates, untried, range))
         == TryCandidate(env, store, candidates, FirstExisting(store, keys).value, range)
  {
    if keys[0] !in store {
      SkipMissing(env, store, candidates, untried[1..], keys[1..], range);
    }
  }

  /** The decoded path as the route hands it to the candidate search. */
  function RoutePath(codec: UriCodec, urlPath: string): Option<string> {
    var decoded := DecodeKeyFromUrl(codec, urlPath);
    if decoded.None? then None else Some(StripSlash(decoded.value))
  }

  function RouteKeys(env: Env, path: string): seq<string> {
    ServeKeys(path, env.bucket, ObjectPrefix(env.storagePrefix))
  }

  /** The keys the remap looks under are the first ones the route looks under, in the same order. */
  predicate SearchesAgree(env: Env, urlPath: string) {
    var path := RoutePath(env.codec, urlPath);
    path.Some? && RemapKeys(env, urlPath) <= RouteKeys(env, path.value)
  }

  /** Working primitives, a fresh name that makes a usable key, and a nonce. */
  ghost predicate Ready(env: Env, f: Forward) {
    && env.cipher.Correct() && env.codec.Correct() && |f.iv| == IV_LEN
    && NewKey(env, f) != "" && NewKey(env, f)[0] != '/' && Trim(NewKey(env, f)) == NewKey(env, f)
  }

  lemma AnnouncedTwice(m: Metadata)
    ensures Announced(OriginalContentType(m)) == OriginalContentType(m)
  {
    TrimTrimmed(OriginalContentType(m));
  }

  /** A blob that the remap recovers is one that the route sends as soon as it tries it. */
  lemma TriedAndSent(env: Env, store: Store, key: string, keys: seq<string>, routeKeys: seq<string>,
                     range: Option<string>)
    requires key in store && keys <= routeKeys && env.cipher.LengthPreserving()
    requires !MetaIsEbp2(store[key].metadata) && MetaIsEbp1(store[key].metadata) && Unambiguous(env, store[key].bytes)
    requires DecryptEbp1(env, store[key], AadCandidates(store[key].metadata, key, keys)).Some?
    ensures var plain := DecryptEbp1(env, store[key], AadCandidates(store[key].metadata, key, keys)).value;
            TryCandidate(env, store, routeKeys, key, range)
            == Some(Send(SendDecrypted(plain, range, OVERHEAD + |plain|, OriginalContentType(store[key].metadata))))
  {
    DecryptsWithMore(env, store[key], key, keys, routeKeys);
  }

  /** The old URL serves the blob that was recovered. */
  lemma OldUrlServes(env: Env, store: Store, f: Forward, range: Option<string>)
    requires SearchesAgree(env, f.urlPath) && env.cipher.LengthPreserving()
    requires Recovered(env, store, f).Some?
    requires Unambiguous(env, store[FirstExisting(store, RemapKeys(env, f.urlPath)).value].bytes)
    ensures var plain := Recovered(env, store, f).value;
            var source := store[FirstExisting(store, RemapKeys(env, f.urlPath)).value];
            Serve(env, store, f.urlPath, range)
            == Some(Send(SendDecrypted(plain, range, OVERHEAD + |plain|, OriginalContentType(source.metadata))))
  {
    var keys, routeKeys := RemapKeys(env, f.urlPath), RouteKeys(env, RoutePath(env.codec, f.urlPath).value);
    TriedAndSent(env, store, FirstExisting(store, keys).value, keys, routeKeys, range);
    SkipMissing(env, store, routeKeys, routeKeys, keys, range);
    ServedBySearch(env, store, f.urlPath, range);
  }

  lemma ServedBySearch(env: Env, store: Store, urlPath: string, range: Option<string>)
    requires RoutePath(env.codec, urlPath).Some?
    ensures var keys := RouteKeys(env, RoutePath(env.codec, urlPath).value);
            Serve(env, store, urlPath, range) == Some(FirstServed(env, store, keys, keys, range))
  {
  }

  /** The new URL serves the same plaintext, re-sealed. */
  lemma NewUrlServes(env: Env, store: Store, f: Forward, range: Option<string>)
    requires Ready(env, f) && Recovered(env, store, f).Some?
    ensures var plain := Recovered(env, store, f).value;
            var source := store[FirstExisting(store, RemapKeys(env, f.urlPath)).value];
            var (after, urlPath) := Remap(env, store, f);
            Serve(env, after, urlPath, range)
            == Some(Send(SendDecrypted(plain, range, OVERHEAD + |plain|, OriginalContentType(source.metadata))))
  {
    var plain := Recovered(env, store, f).value;
    var source := store[FirstExisting(store, RemapKeys(env, f.urlPath)).value];
    var ct := OriginalContentType(source.metadata);
    AnnouncedTwice(source.metadata);
    Ebp1IsServed(env, Remap(env, store, f).0, NewKey(env, f), f.iv, f.hexIv, f.hexTag, ct, plain, range);
  }

  /**
   * For every URL on which the two searches agree, every store and every Range, the URL after the remap
   * is served exactly as the original was: same plaintext, same status, same content type.
   */
  lemma RemapPreservesMeaning(env: Env, store: Store, f: Forward, range: Option<string>)
    requires Ready(env, f) && SearchesAgree(env, f.urlPath)
    requires forall k :: k in store ==> Unambiguous(env, store[k].bytes)
    ensures var (after, urlPath) := Remap(env, store, f);
            Serve(env, after, urlPath, range) == Serve(env, store, f.urlPath, range)
  {
    if Recovered(env, store, f).Some? {
      OldUrlServes(env, store, f, range);
      NewUrlServes(env, store, f, range);
    }
  }

  /** An original URL that does not lead to the new key is not affected. */
  lemma {:induction false} OthersUnaffected(env: Env, store: Store, after: Store, candidates: seq<string>,
                                            untried: seq<string>,
                                             key: string, stored: StoredObject, range: Option<string>)
    requires after == store[key := stored] && key !in untried
    ensures FirstServed(env, after, candidates, untried, range) == FirstServed(env, store, candidates, untried, range)
  {
    if untried != [] {
      assert TryCandidate(env, after, candidates, untried[0], range)
        == TryCandidate(env, store, candidates, untried[0], range);
      OthersUnaffected(env, store, after, candidates, untried[1..], key, stored, range);
    }
  }

  /** A segment that does not decode is looked up as it stands. */
  lemma {:induction false} DecodedOrKept(codec: UriCodec, segments: seq<string>, i: nat)
    requires i < |segments|
    ensures |DecodeOrKeep(codec, segments)| == |segments|
    ensures DecodeOrKeep(codec, segments)[i]
         == if codec.decode(segments[i]).Some? then codec.decode(segments[i]).value else segments[i]
  {
    if |segments| > 1 {
      DecodedOrKept(codec, segments[1..], if i > 0 then i - 1 else 0);
    }
  }

  // ---------------------------------------------------------------- when the searches agree

  lemma {:induction false} DecodeOrKeepDecodes(codec: UriCodec, segments: seq<string>)
    requires DecodeAll(codec, segments).Some?
    ensures DecodeOrKeep(codec, segments) == DecodeAll(codec, segments).value
  {
    if segments != [] {
      DecodeOrKeepDecodes(codec, segments[1..]);
    }
  }

  lemma {:induction false} DedupPrefix(keys: seq<string>, more: seq<string>)
    requires Distinct(keys)
    ensures keys <= Dedup(keys + more)
  {
    if more == [] {
      DedupDistinct(keys);
      assert keys + more == keys;
    } else {
      var init := more[..|more| - 1];
      assert (keys + more)[..|keys + more| - 1] == keys + init;
      DedupPrefix(keys, init);
    }
  }

  lemma {:induction false} DedupDistinct(keys: seq<string>)
    requires Distinct(keys)
    ensures Dedup(keys) == keys
  {
    if keys != [] {
      var init, last := keys[..|keys| - 1], keys[|keys| - 1];
      DedupDistinct(init);
      assert keys == init + [last];
      assert last !in init;
    }
  }

  lemma StripTwice(decoded: string)
    requires !StartsWith(StripSlash(StripSlash(decoded)), "/")
    ensures StripAllSlashes(decoded) == StripSlash(StripSlash(decoded))
  {
    var base := StripSlash(StripSlash(decoded));
    assert StartsWith(base, "/") <==> base != "" && base[0] == '/';
    assert StripAllSlashes(base) == base;
    assert StripAllSlashes(StripSlash(decoded)) == base;
  }

  lemma BuildIgnoresSlash(path: string, bucket: Option<string>, prefix: string)
    requires !StartsWith(StripSlash(path), "/")
    ensures BuildCandidateKeys(StripSlash(path), bucket, prefix) == BuildCandidateKeys(path, bucket, prefix)
  {
    var base := StripSlash(path);
    assert StartsWith(base, "/") <==> base != "" && base[0] == '/';
    assert StripSlash(base) == base;
  }

  lemma CandidatesComeFirst(path: string, bucket: Option<string>, prefix: string)
    ensures BuildCandidateKeys(path, bucket, prefix) <= ServeKeys(path, bucket, prefix)
  {
    var keys := BuildCandidateKeys(path, bucket, prefix);
    CandidatesDistinct(path, bucket, prefix);
    DedupPrefix(keys, MapEblusha(keys));
  }

  /** They agree on every URL that decodes and has at most two slashes after `/api/files/`. */
  lemma SearchesAgreeWhenDecodable(env: Env, urlPath: string)
    requires RoutePath(env.codec, urlPath).Some?
    requires !StartsWith(StripSlash(RoutePath(env.codec, urlPath).value), "/")
    ensures SearchesAgree(env, urlPath)
  {
    var path := RoutePath(env.codec, urlPath).value;
    DecodeOrKeepDecodes(env.codec, Split(urlPath, '/'));
    StripTwice(DecodeKeyFromUrl(env.codec, urlPath).value);
    BuildIgnoresSlash(path, env.bucket, ObjectPrefix(env.storagePrefix));
    CandidatesComeFirst(path, env.bucket, ObjectPrefix(env.storagePrefix));
  }

  // ---------------------------------------------------------------- when exactly they agree

  lemma PrimaryIsPath(env: Env, urlPath: string)
    requires RoutePath(env.codec, urlPath).Some?
    ensures PrimaryRel(env.codec, urlPath) == StripAllSlashes(RoutePath(env.codec, urlPath).value)
  {
    DecodeOrKeepDecodes(env.codec, Split(urlPath, '/'));
  }

  /** From three slashes on, the first key of the route still has a slash in front, which the remap's has not. */
  lemma ManySlashesDisagree(env: Env, urlPath: string)
    requires RoutePath(env.codec, urlPath).Some? && StartsWith(RoutePath(env.codec, urlPath).value, "///")
    requires PrimaryRel(env.codec, urlPath) != ""
    ensures !SearchesAgree(env, urlPath)
  {
    var path := RoutePath(env.codec, urlPath).value;
    var primary := PrimaryRel(env.codec, urlPath);
    FirstCandidateStripped(path, env.bucket, ObjectPrefix(env.storagePrefix));
    FirstCandidate(primary, env.bucket, ObjectPrefix(env.storagePrefix));
    assert StripSlash(StripSlash(path))[0] == path[2];
  }

  lemma {:induction false} NonEmptyJoinShorter(parts: seq<string>)
    ensures |Join(NonEmpty(parts), '/')| <= |Join(parts, '/')|
  {
    if parts != [] {
      NonEmptyJoinShorter(parts[1..]);
    }
  }

  lemma StrippedIsShorter(x: string, bucket: Option<string>, prefix: string)
    ensures |StripLeadingBucketSegment(x, bucket, prefix)| <= |x|
    ensures x != "" && x[0] != '/' ==>
              StripSlash(StripLeadingBucketSegment(x, bucket, prefix)) == StripLeadingBucketSegment(x, bucket, prefix)
  {
    var segments := Segments(x);
    JoinInvertsSplit(x, '/');
    NonEmptyJoinShorter(Split(x, '/'));
    SplitHasNoSeparator(x, '/');
    NonEmptyKeeps(Split(x, '/'));
    if segments != [] {
      TailJoinShorter(segments);
      JoinNonEmptyHasNoLeadingSlash(segments[1..]);
    }
  }

  lemma TailJoinShorter(parts: seq<string>)
    requires parts != []
    ensures |Join(parts[1..], '/')| <= |Join(parts, '/')|
  {
  }

  /** The keys that both searches try for `x` before they look under the prefix. */
  function Common(x: string, bucket: Option<string>, p: string): (c: seq<string>)
    requires x != "" && x[0] != '/'
    ensures Distinct(c)
  {
    PushDistinct([], x);
    PushDistinct(Push([], x), StripLeadingBucketSegment(x, bucket, p));
    Push(Push([], x), StripLeadingBucketSegment(x, bucket, p))
  }

  lemma RemapCandidates(x: string, bucket: Option<string>, p: string)
    requires x != "" && x[0] != '/' && TrimSlashes(p) == p
    ensures BuildCandidateKeys(x, bucket, p)
         == if p == "" then Common(x, bucket, p)
            else Push(Push(Common(x, bucket, p), UnderPrefix(p, x)),
                      UnderPrefix(p, StripLeadingBucketSegment(x, bucket, p)))
  {
    assert StripSlash(x) == x;
  }

  lemma RouteCandidates(x: string, bucket: Option<string>, p: string)
    requires x != "" && x[0] != '/' && TrimSlashes(p) == p
    ensures p == "" ==> BuildCandidateKeys("//" + x, bucket, p) == Common(x, bucket, p)
    ensures p != "" ==> Common(x, bucket, p) + [p + "//" + x] <= BuildCandidateKeys("//" + x, bucket, p)
    ensures Common(x, bucket, p) <= BuildCandidateKeys("//" + x, bucket, p)
  {
    var base := "/" + x;
    assert StripSlash("//" + x) == base && StripSlash(base) == x && StripSlash(x) == x;
    var stripped := StripLeadingBucketSegment(base, bucket, p);
    StrippedAgree(base, bucket, p);
    StrippedIsShorter(x, bucket, p);
    assert Push(Push([], base), stripped) == Common(x, bucket, p);
    if p != "" {
      assert !(base == p || StartsWith(base, p + "/")) by {
        assert p[0] != '/' && base[0] == '/';
      }
      LongKeyIsNew(x, bucket, p);
    }
  }

  lemma LongKeyIsNew(x: string, bucket: Option<string>, p: string)
    requires x != "" && x[0] != '/' && p != "" && p[0] != '/'
    ensures Push(Common(x, bucket, p), UnderPrefix(p, "/" + x)) == Common(x, bucket, p) + [p + "//" + x]
  {
    var key := p + "//" + x;
    StrippedIsShorter(x, bucket, p);
    assert UnderPrefix(p, "/" + x) == key by {
      assert p + "/" + ("/" + x) == key;
      assert !("/" + x == p || StartsWith("/" + x, p + "/")) by {
        assert ("/" + x)[0] == '/' && (p + "/")[0] == p[0];
      }
    }
    assert key[0] == p[0] && StripSlash(key) == key;
    assert forall k :: k in Common(x, bucket, p) ==> |k| <= |x|;
  }

  /** Looking under the prefix adds nothing to the keys tried for `x`. */
  predicate PrefixAddsNothing(x: string, bucket: Option<string>, p: string) {
    var stripped := StripLeadingBucketSegment(x, bucket, p);
    p == "" || (UnderPrefix(p, x) in {x, stripped} && UnderPrefix(p, stripped) in {x, stripped})
  }

  lemma PushedOrNot(c: seq<string>, k: string)
    requires k != "" && k[0] != '/'
    ensures Push(c, k) == if k in c then c else c + [k]
  {
  }

  lemma CommonKeys(x: string, bucket: Option<string>, p: string, k: string)
    requires x != "" && x[0] != '/'
    ensures k in Common(x, bucket, p) <==> k != "" && (k == x || k == StripLeadingBucketSegment(x, bucket, p))
  {
    StrippedIsShorter(x, bucket, p);
  }

  lemma UnderPrefixShape(p: string, k: string)
    requires p != "" && p[0] != '/'
    ensures UnderPrefix(p, k) != "" && UnderPrefix(p, k)[0] != '/' && |UnderPrefix(p, k)| <= |p| + 1 + |k|
  {
    if StartsWith(k, p + "/") {
      assert k[0] == p[0];
    }
  }

  predicate DifferAt(a: seq<string>, b: seq<string>, n: nat) {
    n < |a| && n < |b| && a[n] != b[n]
  }

  /** The keys under the prefix, as the remap adds them to the common ones. */
  lemma UnderPrefixAdds(x: string, bucket: Option<string>, p: string)
    requires x != "" && x[0] != '/' && p != "" && p[0] != '/' && TrimSlashes(p) == p
    ensures var c := Common(x, bucket, p);
            if PrefixAddsNothing(x, bucket, p) then BuildCandidateKeys(x, bucket, p) == c
            else |BuildCandidateKeys(x, bucket, p)| > |c| && |BuildCandidateKeys(x, bucket, p)[|c|]| <= |p| + 1 + |x|
  {
    var s := StripLeadingBucketSegment(x, bucket, p);
    var c := Common(x, bucket, p);
    RemapCandidates(x, bucket, p);
    StrippedIsShorter(x, bucket, p);
    UnderPrefixShape(p, x);
    UnderPrefixShape(p, s);
    CommonKeys(x, bucket, p, UnderPrefix(p, x));
    CommonKeys(x, bucket, p, UnderPrefix(p, s));
    PushedOrNot(c, UnderPrefix(p, x));
    PushedOrNot(Push(c, UnderPrefix(p, x)), UnderPrefix(p, s));
  }

  /** With one slash more than the two that both searches drop, the keys agree as long as the prefix adds none. */
  lemma OneSlashMore(x: string, bucket: Option<string>, p: string)
    requires x != "" && x[0] != '/' && TrimSlashes(p) == p
    ensures var a, b := BuildCandidateKeys(x, bucket, p), BuildCandidateKeys("//" + x, bucket, p);
            if PrefixAddsNothing(x, bucket, p) then a <= b else DifferAt(a, b, |Common(x, bucket, p)|)
  {
    RouteCandidates(x, bucket, p);
    if p == "" {
      RemapCandidates(x, bucket, p);
    } else {
      UnderPrefixAdds(x, bucket, p);
      var c := Common(x, bucket, p);
      assert (c + [p + "//" + x])[|c|] == p + "//" + x;
    }
  }

  lemma DifferentStarts(a: seq<string>, b: seq<string>, more: seq<string>, n: nat)
    requires DifferAt(a, b, n) && b <= more
    ensures !(a <= more)
  {
    assert more[n] == b[n];
  }

  /** A path on which the two searches agree, from what the caller can see of it. */
  predicate AgreeablePath(env: Env, path: string) {
    || !StartsWith(path, "//")
    || (!StartsWith(path, "///")
        && PrefixAddsNothing(StripAllSlashes(path), env.bucket, ObjectPrefix(env.storagePrefix)))
  }

  lemma TwoSlashes(path: string)
    requires StartsWith(path, "//") && !StartsWith(path, "///")
    ensures path == "//" + StripAllSlashes(path)
  {
    var x := path[2..];
    assert path == "//" + x;
    assert StartsWith(path, "///") <==> x != "" && x[0] == '/';
    assert StripAllSlashes(x) == x;
    assert path[1..] == "/" + x && path[1..][1..] == x;
    assert StripAllSlashes(path[1..]) == x;
  }

  /**
   * The two searches agree on an URL exactly when it decodes and does not begin with more slashes than both
   * drop, or with one more than that where nothing is looked up under the prefix.
   */
  lemma SearchesAgreeIff(env: Env, urlPath: string)
    requires PrimaryRel(env.codec, urlPath) != ""
    requires TrimSlashes(ObjectPrefix(env.storagePrefix)) == ObjectPrefix(env.storagePrefix)
    ensures SearchesAgree(env, urlPath)
       <==> RoutePath(env.codec, urlPath).Some? && AgreeablePath(env, RoutePath(env.codec, urlPath).value)
  {
    if RoutePath(env.codec, urlPath).Some? {
      var path := RoutePath(env.codec, urlPath).value;
      var p := ObjectPrefix(env.storagePrefix);
      PrimaryIsPath(env, urlPath);
      if StartsWith(path, "///") {
        ManySlashesDisagree(env, urlPath);
      } else if StartsWith(path, "//") {
        TwoSlashes(path);
        var x := StripAllSlashes(path);
        OneSlashMore(x, env.bucket, p);
        CandidatesComeFirst(path, env.bucket, p);
        if !PrefixAddsNothing(x, env.bucket, p) {
          DifferentStarts(RemapKeys(env, urlPath), BuildCandidateKeys(path, env.bucket, p), RouteKeys(env, path),
                          |Common(x, env.bucket, p)|);
        }
      } else {
        SlashesOf(path);
        SearchesAgreeWhenDecodable(env, urlPath);
      }
    }
  }

  lemma SlashesOf(path: string)
    ensures StartsWith(StripSlash(path), "/") ==> StartsWith(path, "//") || StripSlash(path) == path
    ensures !StartsWith(path, "//") ==> !StartsWith(StripSlash(path), "/")
  {
    if path != "" && path[0] == '/' && StartsWith(path[1..], "/") {
      assert path[..2] == "//";
    }
  }

  // ---------------------------------------------------------------- and only then

  /** A blob of the conversation `cid`, sealed with its key, with its AAD on record. */
  function ChatBlob(env: Env, dek: Buffer, cid: string, iv: Buffer, plain: Buffer): StoredObject {
    StoredObject(EncryptBuffer(env.cipher, dek, iv, env.utf8("a"), plain), OCTET_STREAM,
                 map["enc" := "ebp1", "encscope" := "chat", "cid" := cid, "aad" := "a"])
  }

  lemma LowerChat()
    ensures LowerAscii("chat") == "chat"
  {
    LowerUnchanged("chat");
  }

  lemma ChatMetadata(m: Metadata, cid: string)
    requires m == map["enc" := "ebp1", "encscope" := "chat", "cid" := cid, "aad" := "a"]
    requires cid != "" && Trim(cid) == cid
    ensures !MetaIsEbp2(m) && MetaIsEbp1(m) && ChatScoped(m) && Trim(Meta(m, "cid")) == cid
  {
    OneShotTag(m);
    LowerChat();
  }

  lemma OneShotTag(m: Metadata)
    requires "enc" in m && m["enc"] == "ebp1"
    ensures !MetaIsEbp2(m) && MetaIsEbp1(m)
  {
    assert "ebp1" == "ebp" + ['1'];
    TagRead(m, '1');
  }

  lemma ChatBlobFields(env: Env, dek: Buffer, cid: string, iv: Buffer, plain: Buffer, f: Forward)
    requires cid != "" && Trim(cid) == cid && cid != f.destination
    requires env.cipher.Correct() && |iv| == IV_LEN && |plain| == 1
    ensures NeedsRemap(f, ChatBlob(env, dek, cid, iv, plain))
  {
    ChatMetadata(ChatBlob(env, dek, cid, iv, plain).metadata, cid);
    DecryptInvertsEncrypt(env.cipher, dek, iv, env.utf8("a"), plain);
  }

  lemma ChatBlobOpens(env: Env, dek: Buffer, cid: string, iv: Buffer, plain: Buffer, f: Forward, key: string,
                      candidates: seq<string>)
    requires NeedsRemap(f, ChatBlob(env, dek, cid, iv, plain))
    requires Trim(cid) == cid && env.conversationDek(cid) == Some(dek)
    requires env.cipher.Correct() && |iv| == IV_LEN
    ensures var blob := ChatBlob(env, dek, cid, iv, plain);
            DecryptEbp1(env, blob, AadCandidates(blob.metadata, key, candidates)) == Some(plain)
  {
    var blob := ChatBlob(env, dek, cid, iv, plain);
    TrimTrimmed("a");
    assert AadCandidates(blob.metadata, key, candidates) == ["a"];
    DecryptInvertsEncrypt(env.cipher, dek, iv, env.utf8("a"), plain);
  }

  lemma {:induction false} FirstExistingAt(store: Store, keys: seq<string>, j: nat)
    requires j < |keys| && keys[j] in store
    requires forall i :: 0 <= i < j ==> keys[i] !in store
    ensures FirstExisting(store, keys) == Some(keys[j])
  {
    if j > 0 {
      assert keys[0] !in store;
      FirstExistingAt(store, keys[1..], j - 1);
    }
  }

  lemma {:induction false} NoneServed(env: Env, store: Store, candidates: seq<string>, untried: seq<string>,
                                      range: Option<string>)
    requires forall i :: 0 <= i < |untried| ==> untried[i] !in store
    ensures FirstServed(env, store, candidates, untried, range) == Send(NotFound)
  {
    if untried != [] {
      assert untried[0] !in store;
      NoneServed(env, store, candidates, untried[1..], range);
    }
  }

  lemma {:induction false} FirstDifference(a: seq<string>, b: seq<string>) returns (j: nat)
    requires !(a <= b)
    ensures j < |a| && j <= |b| && a[..j] == b[..j]
    ensures j < |b| ==> a[j] != b[j]
  {
    j := 0;
    while j < |a| && j < |b| && a[j] == b[j]
      invariant j <= |a| && j <= |b| && a[..j] == b[..j]
    {
      j := j + 1;
    }
  }

  /**
   * A store in which the remap finds a chat blob under its j-th key and the route something else, or nothing, first.
   */
  function Separating(remapKeys: seq<string>, routeKeys: seq<string>, j: nat, blob: StoredObject): Store
    requires j < |remapKeys|
  {
    var one: Store := map[remapKeys[j] := blob];
    if j < |routeKeys| then one[routeKeys[j] := StoredObject([], OCTET_STREAM, map[])] else one
  }

  lemma SeparatingRoute(env: Env, a: seq<string>, b: seq<string>, j: nat, blob: StoredObject)
    requires j < |a| && j <= |b| && a[..j] == b[..j] && (j < |b| ==> a[j] != b[j])
    requires Distinct(a) && Distinct(b)
    ensures var store := Separating(a, b, j, blob);
            && FirstExisting(store, a) == Some(a[j]) && store[a[j]] == blob
            && FirstServed(env, store, b, b, None) == if j < |b| then SendRaw(b[j]) else Send(NotFound)
  {
    var store := Separating(a, b, j, blob);
    forall i | 0 <= i < j
      ensures a[i] !in store && b[i] !in store
    {
      assert a[..j][i] == b[..j][i];
    }
    FirstExistingAt(store, a, j);
    if j < |b| {
      FirstExistingAt(store, b[..j + 1], j);
      assert LowerAscii("") == "";
      SkipMissing(env, store, b, b, b[..j + 1], None);
    } else {
      NoneServed(env, store, b, b, None);
    }
  }

  ghost predicate Preserved(env: Env, store: Store, f: Forward, range: Option<string>) {
    var (after, urlPath) := Remap(env, store, f);
    Serve(env, after, urlPath, range) == Serve(env, store, f.urlPath, range)
  }

  lemma SomeKeys(env: Env, urlPath: string)
    requires PrimaryRel(env.codec, urlPath) != ""
    ensures RemapKeys(env, urlPath) != []
    ensures Distinct(RemapKeys(env, urlPath))
  {
    var primary := PrimaryRel(env.codec, urlPath);
    FirstCandidate(primary, env.bucket, ObjectPrefix(env.storagePrefix));
    CandidatesDistinct(primary, env.bucket, ObjectPrefix(env.storagePrefix));
  }

  lemma WholeIsSent(plain: Buffer, encSize: nat, contentType: string)
    ensures SendDecrypted(plain, None, encSize, contentType) == Full(plain, contentType)
  {
  }

  /** In a separating store, the original URL does not lead to the blob. */
  lemma SeparatedServe(env: Env, f: Forward, j: nat, blob: StoredObject)
    requires !SearchesAgree(env, f.urlPath) && Distinct(RemapKeys(env, f.urlPath))
    requires var a, b := RemapKeys(env, f.urlPath), SearchedKeys(env, f.urlPath);
             j < |a| && j <= |b| && a[..j] == b[..j] && (j < |b| ==> a[j] != b[j])
    ensures var a := RemapKeys(env, f.urlPath);
            var store := Separating(a, SearchedKeys(env, f.urlPath), j, blob);
            && FirstExisting(store, a) == Some(a[j]) && store[a[j]] == blob
            && forall response: Response :: response.Full? ==>
                 Serve(env, store, f.urlPath, None) != Some(Send(response))
  {
    SeparatingRoute(env, RemapKeys(env, f.urlPath), SearchedKeys(env, f.urlPath), j, blob);
  }

  /** The keys the route searches, none if the URL does not decode. */
  function SearchedKeys(env: Env, urlPath: string): (keys: seq<string>)
    ensures Distinct(keys)
  {
    var path := RoutePath(env.codec, urlPath);
    if path.Some? then RouteKeys(env, path.value) else []
  }

  /** A store on which the remap changes what is served, for an URL on which the searches disagree. */
  lemma NotPreserved(env: Env, f: Forward, cid: string, dek: Buffer) returns (store: Store)
    requires Ready(env, f) && PrimaryRel(env.codec, f.urlPath) != ""
    requires cid != "" && Trim(cid) == cid && cid != f.destination && env.conversationDek(cid) == Some(dek)
    requires !SearchesAgree(env, f.urlPath)
    ensures !Preserved(env, store, f, None)
  {
    var a, b := RemapKeys(env, f.urlPath), SearchedKeys(env, f.urlPath);
    SomeKeys(env, f.urlPath);
    var j := FirstDifference(a, b);
    var blob := ChatBlob(env, dek, cid, f.iv, [0]);
    store := Separating(a, b, j, blob);
    SeparatedServe(env, f, j, blob);
    RecoveredBlob(env, f, store, cid, dek, a[j]);
    NewUrlServes(env, store, f, None);
    WholeIsSent([0], OVERHEAD + 1, OriginalContentType(blob.metadata));
  }

  lemma RecoveredBlob(env: Env, f: Forward, store: Store, cid: string, dek: Buffer, key: string)
    requires Ready(env, f)
    requires cid != "" && Trim(cid) == cid && cid != f.destination && env.conversationDek(cid) == Some(dek)
    requires FirstExisting(store, RemapKeys(env, f.urlPath)) == Some(key)
    requires store[key] == ChatBlob(env, dek, cid, f.iv, [0])
    ensures Recovered(env, store, f) == Some([0])
  {
    ChatBlobFields(env, dek, cid, f.iv, [0], f);
    ChatBlobOpens(env, dek, cid, f.iv, [0], f, key, RemapKeys(env, f.urlPath));
  }

  /** The remap is faithful for every store and every Range exactly when the two searches agree on the URL. */
  lemma RemapPreservesMeaningIff(env: Env, f: Forward, cid: string, dek: Buffer)
    requires Ready(env, f) && PrimaryRel(env.codec, f.urlPath) != ""
    requires forall payload :: Unambiguous(env, payload)
    requires cid != "" && Trim(cid) == cid && cid != f.destination && env.conversationDek(cid) == Some(dek)
    ensures SearchesAgree(env, f.urlPath) <==> forall store, range :: Preserved(env, store, f, range)
  {
    if SearchesAgree(env, f.urlPath) {
      forall store, range
        ensures Preserved(env, store, f, range)
      {
        RemapPreservesMeaning(env, store, f, range);
      }
    } else {
      var store := NotPreserved(env, f, cid, dek);
    }
  }

  lemma ThreeSlashesDecode(codec: UriCodec, word: string)
    requires codec.Correct() && word != "" && '/' !in word
    ensures RoutePath(codec, "///" + codec.encode(word)) == Some("//" + word)
    ensures PrimaryRel(codec, "///" + codec.encode(word)) == word
  {
    var w := codec.encode(word);
    ThreeSlashesSplit(w);
    DecodeOne(codec, w, word, [], []);
    assert [w] + [] == [w] && [word] + [] == [word];
    EmptySegment(codec, [w], [word]);
    assert [""] + [w] == ["", w] && [""] + [word] == ["", word];
    EmptySegment(codec, ["", w], ["", word]);
    assert [""] + ["", w] == ["", "", w] && [""] + ["", word] == ["", "", word];
    EmptySegment(codec, ["", "", w], ["", "", word]);
    assert [""] + ["", "", w] == ["", "", "", w] && [""] + ["", "", word] == ["", "", "", word];
    ThreeSlashesJoin(word);
    DecodeOrKeepDecodes(codec, ["", "", "", w]);
    StripThree(word);
  }

  lemma DecodeOne(codec: UriCodec, segment: string, word: string, segments: seq<string>, words: seq<string>)
    requires codec.decode(segment) == Some(word) && DecodeAll(codec, segments) == Some(words)
    ensures DecodeAll(codec, [segment] + segments) == Some([word] + words)
  {
    assert ([segment] + segments)[1..] == segments;
  }

  lemma EmptySegment(codec: UriCodec, segments: seq<string>, words: seq<string>)
    requires codec.Correct() && DecodeAll(codec, segments) == Some(words)
    ensures DecodeAll(codec, [""] + segments) == Some([""] + words)
  {
    assert codec.decode(codec.encode("")) == Some("") && codec.encode("") == "";
    DecodeOne(codec, "", "", segments, words);
  }

  lemma ThreeSlashesSplit(w: string)
    requires '/' !in w
    ensures Split("///" + w, '/') == ["", "", "", w]
  {
    SplitOneWord(w, '/');
    SplitWord("", w, '/');
    SplitWord("", "/" + w, '/');
    SplitWord("", "//" + w, '/');
    assert "" + ['/'] + w == "/" + w;
    assert "" + ['/'] + ("/" + w) == "//" + w;
    assert "" + ['/'] + ("//" + w) == "///" + w;
  }

  lemma ThreeSlashesJoin(w: string)
    ensures Join(["", "", "", w], '/') == "///" + w
  {
    assert Join([w], '/') == w;
    assert Join(["", w], '/') == "/" + w;
    assert Join(["", "", w], '/') == "//" + w;
  }

  lemma StripThree(w: string)
    requires w != "" && w[0] != '/'
    ensures StripAllSlashes("///" + w) == w
    ensures StripSlash("///" + w) == "//" + w
  {
    assert ("///" + w)[1..] == "//" + w;
    assert ("//" + w)[1..] == "/" + w;
    assert ("/" + w)[1..] == w;
    assert StripAllSlashes(w) == w;
    assert StripAllSlashes("/" + w) == w;
    assert StripAllSlashes("//" + w) == w;
  }

  lemma WordUnderPrefix(word: string)
    requires word != "" && '/' !in word && word != "uploads"
    ensures !PrefixAddsNothing(word, None, "uploads")
  {
    SplitOneWord(word, '/');
    assert NonEmpty([word]) == [word] + NonEmpty([]);
    assert StripLeadingBucketSegment(word, None, "uploads") == word;
    WordIsNotUnder(word);
  }

  lemma WordAfterSlashes(env: Env, word: string)
    requires env.bucket == None && env.storagePrefix == "uploads"
    requires word != "" && '/' !in word && word != "uploads"
    ensures !AgreeablePath(env, "//" + word)
  {
    var path := "//" + word;
    assert path[..2] == "//";
    StripThree(word);
    assert path[1..][1..] == word;
    assert StripAllSlashes(path) == word;
    WordUnderPrefix(word);
    assert ObjectPrefix("uploads") == "uploads";
  }

  /** With the prefix "uploads" and no bucket, a word after three slashes is looked up under different keys. */
  lemma ThreeSlashesDisagree(env: Env, word: string)
    requires env.codec.Correct() && env.bucket == None && env.storagePrefix == "uploads"
    requires word != "" && '/' !in word && word != "uploads"
    ensures !SearchesAgree(env, "///" + env.codec.encode(word))
  {
    ThreeSlashesDecode(env.codec, word);
    WordAfterSlashes(env, word);
    SearchesAgreeIff(env, "///" + env.codec.encode(word));
  }

  lemma WordIsNotUnder(word: string)
    requires '/' !in word && word != "uploads"
    ensures UnderPrefix("uploads", word) != word
  {
    if |word| > 7 {
      assert word[7] != "uploads/"[7];
    }
  }

  /** There, for every conversation with a key, a store exists in which the remap loses what the URL serves. */
  lemma ThreeSlashesLoseTheBlob(env: Env, f: Forward, word: string, cid: string, dek: Buffer) returns (store: Store)
    requires Ready(env, f) && env.bucket == None && env.storagePrefix == "uploads"
    requires word != "" && '/' !in word && word != "uploads" && f.urlPath == "///" + env.codec.encode(word)
    requires cid != "" && Trim(cid) == cid && cid != f.destination && env.conversationDek(cid) == Some(dek)
    ensures !Preserved(env, store, f, None)
  {
    ThreeSlashesDecode(env.codec, word);
    ThreeSlashesDisagree(env, word);
    store := NotPreserved(env, f, cid, dek);
  }
}
