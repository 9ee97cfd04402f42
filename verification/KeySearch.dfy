/** Where the file route looks for an object, and what it makes of what it finds (src/routes/files.ts). */
module KeySearch {
  import opened Bytes
  import opened Aead
  import opened Text
  import opened ByteRanges
  import opened StorageKeys
  import opened Ebp1
  import opened Files

  // ---------------------------------------------------------------- URLs

  /** Segments are encoded one by one, and the slashes between them stay. */
  lemma EncodedBySegment(codec: UriCodec, word: string, rest: string)
    requires '/' !in word
    ensures EncodeKeyForUrl(codec, word) == codec.encode(word)
    ensures EncodeKeyForUrl(codec, word + "/" + rest) == codec.encode(word) + "/" + EncodeKeyForUrl(codec, rest)
  {
    SplitOneWord(word, '/');
    SplitWord(word, rest, '/');
    assert word + ['/'] + rest == word + "/" + rest;
    var parts := [word] + Split(rest, '/');
    assert parts[1..] == Split(rest, '/');
    assert EncodeAll(codec, parts)[1..] == EncodeAll(codec, Split(rest, '/'));
  }

  /** For a deletion empty segments do not count; for the route they do. */
  lemma EmptySegmentsDoNotCount(codec: UriCodec, word: string, rest: string)
    requires '/' !in word
    ensures DecodePathSegments(codec, word + "/" + ("/" + rest)) == DecodePathSegments(codec, word + "/" + rest)
    ensures DecodePathSegments(codec, "/" + rest) == DecodePathSegments(codec, rest)
  {
    SplitWord(word, rest, '/');
    SplitWord(word, "/" + rest, '/');
    SplitWord("", rest, '/');
    assert word + ['/'] + rest == word + "/" + rest;
    assert word + ['/'] + ("/" + rest) == word + "/" + ("/" + rest);
    assert "" + ['/'] + rest == "/" + rest;
    NonEmptyAppend([word], Split(rest, '/'));
    NonEmptyAppend([word], [""] + Split(rest, '/'));
    NonEmptyAppend([""], Split(rest, '/'));
  }

  // ---------------------------------------------------------------- candidates

  /** Neither the prefix nor a path under it. */
  predicate Outside(x: string, p: string) {
    x != p && !StartsWith(x, p + "/")
  }

  predicate Plain(x: string) {
    x != "" && x[0] != '/'
  }

  /** A path that names no bucket is looked up as it is, and then under the prefix unless it is there already. */
  lemma CandidatesOfPath(x: string, bucket: Option<string>, p: string)
    requires Plain(x) && (p == "" || Plain(p)) && TrimSlashes(p) == p
    requires !NamesBucket(Segments(x), bucket, Segments(p))
    ensures BuildCandidateKeys(x, bucket, p) == if p != "" && Outside(x, p) then [x, p + "/" + x] else [x]
  {
    StrippedIff(x, bucket, p);
    assert StripSlash(x) == x;
    if p != "" {
      assert StripSlash(p + "/" + x) == p + "/" + x;
    }
  }

  lemma LongerIsOther(p: string, x: string)
    ensures p + "/" + x != x
  {
    assert |p + "/" + x| > |x|;
  }

  /** A path under a bucket is looked up with it and without it, and then both under the prefix. */
  lemma CandidatesUnderBucket(x: string, bucket: Option<string>, p: string, s: string)
    requires Plain(x) && Plain(p) && TrimSlashes(p) == p && Outside(x, p) && Outside(s, p)
    requires NamesBucket(Segments(x), bucket, Segments(p))
    requires s == Join(Segments(x)[1..], '/') && Plain(s) && s != x && p + "/" + s != x && p + "/" + x != s
    ensures BuildCandidateKeys(x, bucket, p) == [x, s, p + "/" + x, p + "/" + s]
  {
    StrippedIff(x, bucket, p);
    assert StripSlash(x) == x && StripSlash(s) == s;
    var px, ps := p + "/" + x, p + "/" + s;
    assert StripSlash(px) == px && StripSlash(ps) == ps;
    LongerIsOther(p, x);
    LongerIsOther(p, s);
    assert px[|p| + 1..] == x && ps[|p| + 1..] == s;
    assert Push([], x) == [x] && Push([x], s) == [x, s];
    assert Push([x, s], px) == [x, s, px] && Push([x, s, px], ps) == [x, s, px, ps];
  }

  /** The variant of a name has ".eblusha" for its extension, or after it if it has none, and is its own variant. */
  lemma VariantOfName(stem: string, extension: string)
    requires stem != "" && '/' !in stem && '/' !in extension && '.' !in extension && extension != "eblusha"
    ensures ToEblushaKey(stem + "." + extension) == stem + ".eblusha"
  {
    var name := stem + "." + extension;
    SplitOneWord(name, '/');
    assert Name(name) == name && Directory(name) == "";
    NotEblusha(stem, extension);
    EblushaForm(name);
    StemOfName(stem, extension);
  }

  lemma StemOfName(stem: string, extension: string)
    requires stem != "" && '.' !in extension
    ensures Stem(stem + "." + extension) == stem
  {
    var name := stem + "." + extension;
    assert name[|stem|] == '.';
    assert forall i :: |stem| < i < |name| ==> name[i] == extension[i - |stem| - 1];
    assert LastDot(name) == |stem|;
    assert name[..|stem|] == stem;
  }

  lemma NotEblusha(stem: string, extension: string)
    requires '.' !in extension && extension != "eblusha"
    ensures !EndsWith(stem + "." + extension, EBLUSHA)
  {
    var name := stem + "." + extension;
    var e := ".eblusha";
    if |name| >= 8 {
      var tail := name[|name| - 8..];
      if |extension| < 7 {
        assert tail[7 - |extension|] == '.' != e[7 - |extension|];
      } else if |extension| == 7 {
        assert tail[1..] == extension && e[1..] == "eblusha";
      } else {
        assert tail[0] == extension[|extension| - 8] != e[0];
      }
    }
  }

  lemma VariantOfDotless(name: string)
    requires name != "" && '/' !in name && '.' !in name
    ensures ToEblushaKey(name) == name + ".eblusha"
  {
    SplitOneWord(name, '/');
    assert Name(name) == name && Directory(name) == "";
    if |name| >= 8 {
      assert name[|name| - 8] != EBLUSHA[0];
    }
    EblushaForm(name);
  }

  lemma VariantOfVariant(key: string)
    requires EndsWith(key, ".eblusha")
    ensures ToEblushaKey(key) == key
  {
  }

  // ---------------------------------------------------------------- what is made of a stored object

  /** "ebp2" in any case of letters, with both sizes there. */
  predicate SaysChunked(m: Metadata) {
    "enc" in m && LowerAscii(Trim(m["enc"])) == "ebp2"
    && "totalSize" in m && m["totalSize"] != "" && "chunksize" in m && m["chunksize"] != ""
  }

  /** "ebp1", or version "1" of it, in the field of either name. */
  predicate SaysOneShot(m: Metadata) {
    || ("enc" in m && LowerAscii(Trim(m["enc"])) == "ebp1")
    || (if "encv" in m then LowerAscii(Trim(m["encv"])) == "1" else "enc_v" in m && LowerAscii(Trim(m["enc_v"])) == "1")
  }

  /** The object is served chunk by chunk, as it is, or decrypted, by what its metadata says. */
  lemma ServedAs(env: Env, store: Store, candidates: seq<string>, key: string, range: Option<string>)
    requires key in store
    ensures var m := store[key].metadata;
            var r := TryCandidate(env, store, candidates, key, range);
            if SaysChunked(m) then r == Some(SendEbp2(key))
            else if SaysOneShot(m) then r.None? || r.value.Send?
            else r == Some(SendRaw(key))
  {
    EmptyTexts();
    OneShotIs(store[key].metadata);
    ChunkedIs(store[key].metadata);
  }

  lemma EmptyTexts()
    ensures LowerAscii(Trim("")) == ""
  {
  }

  lemma OneShotIs(m: Metadata)
    ensures MetaIsEbp1(m) <==> SaysOneShot(m)
  {
    EmptyTexts();
  }

  lemma ChunkedIs(m: Metadata)
    ensures MetaIsEbp2(m) && HasSizes(m) <==> SaysChunked(m)
  {
    EmptyTexts();
  }

  /** The AAD on record, or else the key itself first and then the other candidates. */
  lemma AadsTried(m: Metadata, key: string, candidates: seq<string>, a: string)
    ensures var aads := AadCandidates(m, key, candidates);
            if "aad" in m && Trim(m["aad"]) != "" then aads == [Trim(m["aad"])]
            else aads != [] && aads[0] == key && (a in aads <==> a == key || a in candidates)
  {
    WithoutIs(candidates, key, a);
  }

  lemma {:induction false} WithoutIs(keys: seq<string>, key: string, k: string)
    ensures k in Without(keys, key) <==> k in keys && k != key
  {
    if keys != [] {
      WithoutIs(keys[1..], key, k);
    }
  }

  /** The first AAD that opens the blob decides. */
  lemma {:induction false} FirstOpens(env: Env, payload: Buffer, key: Buffer, aads: seq<string>, i: nat)
    requires i < |aads| && DecryptBuffer(env.cipher, payload, key, env.utf8(aads[i])).Some?
    requires forall j :: 0 <= j < i ==> DecryptBuffer(env.cipher, payload, key, env.utf8(aads[j])).None?
    ensures FirstOpening(env, payload, key, aads) == DecryptBuffer(env.cipher, payload, key, env.utf8(aads[i]))
  {
    if i > 0 {
      assert DecryptBuffer(env.cipher, payload, key, env.utf8(aads[0])).None?;
      FirstOpens(env, payload, key, aads[1..], i - 1);
    }
  }

  /** A blob sealed for a conversation is opened with its key if that opens it, and with the storage key if not. */
  lemma ConversationKeyFirst(env: Env, stored: StoredObject, aads: seq<string>, dek: Buffer)
    requires "encscope" in stored.metadata && LowerAscii(stored.metadata["encscope"]) == "chat"
    requires "cid" in stored.metadata && Trim(stored.metadata["cid"]) != ""
    requires env.conversationDek(Trim(stored.metadata["cid"])) == Some(dek)
    ensures DecryptEbp1(env, stored, aads)
         == if FirstOpening(env, stored.bytes, dek, aads).Some? then FirstOpening(env, stored.bytes, dek, aads)
            else FirstOpening(env, stored.bytes, env.encKey, aads)
  {
  }

  /** Any other is opened with the storage key alone. */
  lemma StorageKeyOtherwise(env: Env, stored: StoredObject, aads: seq<string>)
    requires !("encscope" in stored.metadata && LowerAscii(stored.metadata["encscope"]) == "chat")
             || !("cid" in stored.metadata && Trim(stored.metadata["cid"]) != "")
    ensures DecryptEbp1(env, stored, aads) == FirstOpening(env, stored.bytes, env.encKey, aads)
  {
    EmptyTexts();
    assert Trim("") == "";
  }
}
