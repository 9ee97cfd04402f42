/** The file route (src/routes/files.ts): which stored object a path resolves to and what is sent for it. */
module Files {
  import opened Bytes
  import opened Aead
  import opened Text
  import opened ByteRanges
  import opened StorageKeys
  import opened Ebp1
  import E2 = Ebp2
  import W = Ebp2Whole
  import R = Ebp2Range

  type Metadata = map<string, string>

  datatype StoredObject = StoredObject(bytes: Buffer, contentType: string, metadata: Metadata)

  type Store = map<string, StoredObject>

  /** The configuration of the server and the functions it calls. */
  datatype Env = Env(cipher: Cipher, utf8: string -> Buffer, codec: UriCodec, encKey: Buffer,
                     conversationDek: string -> Option<Buffer>, bucket: Option<string>, storagePrefix: string)

  const OCTET_STREAM := "application/octet-stream"
  const EBP1_RANGE_SIZE_LIMIT := 50 * 1024 * 1024
  const RANGE_MAX_SIZE := 16 * 1024 * 1024
  const RANGE_MAX_SIZE_VIDEO := 64 * 1024 * 1024
  const RANGE_MAX_SIZE_AUDIO := 16 * 1024 * 1024

  function GetRangeMaxSize(contentType: string): nat {
    var ct := Trim(LowerAscii(contentType));
    if StartsWith(ct, "video/") then RANGE_MAX_SIZE_VIDEO
    else if StartsWith(ct, "audio/") then RANGE_MAX_SIZE_AUDIO
    else RANGE_MAX_SIZE
  }

  function Meta(m: Metadata, field: string): string {
    if field in m then m[field] else ""
  }

  predicate MetaIsEbp2(m: Metadata) {
    LowerAscii(Trim(Meta(m, "enc"))) == "ebp2"
  }

  predicate MetaIsEbp1(m: Metadata) {
    || LowerAscii(Trim(Meta(m, "enc"))) == "ebp1"
    || LowerAscii(Trim(if "encv" in m then m["encv"] else Meta(m, "enc_v"))) == "1"
  }

  /** The content type recorded at upload. */
  function OriginalContentType(m: Metadata): string {
    var ct := Trim(Meta(m, "ct"));
    if ct == "" then OCTET_STREAM else ct
  }

  /** The digits at the front of s. */
  function LeadingDigits(s: string): (d: string)
    ensures AllDigits(d) && d <= s && (|d| < |s| ==> !IsDigit(s[|d|]))
  {
    if s != "" && IsDigit(s[0]) then [s[0]] + LeadingDigits(s[1..]) else ""
  }

  /** `parseInt(s, 10)`: white space, a sign, and the digits up to the first other character; None for NaN. */
  function ParseInt(s: string): Option<int> {
    var t := TrimStart(s);
    var signed := t != "" && (t[0] == '-' || t[0] == '+');
    var digits := LeadingDigits(if signed then t[1..] else t);
    var n: int := ToNat(digits);
    if digits == "" then None else Some(if t[0] == '-' then -n else n)
  }

  lemma {:induction false} DigitsThenRest(digits: string, rest: string)
    requires AllDigits(digits) && (rest != "" ==> !IsDigit(rest[0]))
    ensures LeadingDigits(digits + rest) == digits
  {
    if digits == "" {
      assert digits + rest == rest;
    } else {
      DigitsThenRest(digits[1..], rest);
      assert (digits + rest)[1..] == digits[1..] + rest;
      assert [digits[0]] + digits[1..] == digits;
    }
  }

  /** Reading a number back, whatever follows it, as long as that is not one more digit. */
  lemma ParseIntReads(n: nat, rest: string)
    requires rest != "" ==> !IsDigit(rest[0])
    ensures ParseInt(Decimal(n) + rest) == Some(n)
  {
    DigitsThenRest(Decimal(n), rest);
    ToNatInvertsDecimal(n);
    assert IsDigit((Decimal(n) + rest)[0]);
  }

  lemma {:induction false} BlanksAreSkipped(blanks: string, s: string)
    requires (forall i :: 0 <= i < |blanks| ==> IsSpace(blanks[i])) && (s != "" ==> !IsSpace(s[0]))
    ensures TrimStart(blanks + s) == s
  {
    if blanks == "" {
      assert blanks + s == s;
    } else {
      assert (blanks + s)[1..] == blanks[1..] + s;
      BlanksAreSkipped(blanks[1..], s);
    }
  }

  lemma SignCounts(t: string, sign: char, digits: string)
    requires sign in {'+', '-'} && t != "" && t[0] == sign && digits != "" && LeadingDigits(t[1..]) == digits
    ensures ParseInt(t) == (var n: int := ToNat(digits); Some(if sign == '-' then -n else n))
  {
    assert TrimStart(t) == t;
  }

  lemma BlanksDoNotCount(blanks: string, t: string)
    requires (forall i :: 0 <= i < |blanks| ==> IsSpace(blanks[i])) && t != "" && !IsSpace(t[0])
    ensures ParseInt(blanks + t) == ParseInt(t)
  {
    BlanksAreSkipped(blanks, t);
    assert TrimStart(t) == t;
  }

  lemma SignedDigits(sign: char, digits: string, rest: string)
    requires sign in {'+', '-'} && digits != "" && AllDigits(digits) && (rest != "" ==> !IsDigit(rest[0]))
    ensures ParseInt([sign] + (digits + rest)) == (var n: int := ToNat(digits); Some(if sign == '-' then -n else n))
  {
    var t := [sign] + (digits + rest);
    assert t[1..] == digits + rest;
    DigitsThenRest(digits, rest);
    SignCounts(t, sign, digits);
  }

  /** White space in front is skipped, a sign counts, and so do the digits up to what is none. */
  lemma ParseIntReadsSigned(blanks: string, sign: char, digits: string, rest: string)
    requires forall i :: 0 <= i < |blanks| ==> IsSpace(blanks[i])
    requires sign in {'+', '-'} && digits != "" && AllDigits(digits) && (rest != "" ==> !IsDigit(rest[0]))
    ensures ParseInt(blanks + ([sign] + (digits + rest)))
         == (var n: int := ToNat(digits); Some(if sign == '-' then -n else n))
  {
    BlanksDoNotCount(blanks, [sign] + (digits + rest));
    SignedDigits(sign, digits, rest);
  }

  /** What is sent. `start` and `end` are the bounds of a Content-Range header. */
  datatype Response =
    | Full(body: Buffer, contentType: string)
    | Partial(body: Buffer, start: nat, end: nat, size: nat, contentType: string)
    | RangeNotSatisfiable(size: nat)
    | NotFound

  // ---------------------------------------------------------------- EBP1

  /** The first AAD under which the payload decrypts. */
  function FirstOpening(env: Env, payload: Buffer, key: Buffer, aads: seq<string>): Option<Buffer> {
    if aads == [] then None
    else
      var d := DecryptBuffer(env.cipher, payload, key, env.utf8(aads[0]));
      if d.Some? then d else FirstOpening(env, payload, key, aads[1..])
  }

  function Without(keys: seq<string>, key: string): seq<string> {
    if keys == [] then []
    else if keys[0] == key then Without(keys[1..], key)
    else [keys[0]] + Without(keys[1..], key)
  }

  /** The recorded AAD if there is one, else the key and then the other candidates. */
  function AadCandidates(m: Metadata, key: string, candidates: seq<string>): seq<string> {
    var recorded := Trim(Meta(m, "aad"));
    if recorded != "" then [recorded] else [key] + Without(candidates, key)
  }

  /** A blob sealed with the key of one conversation. */
  predicate ChatScoped(m: Metadata) {
    LowerAscii(Meta(m, "encscope")) == "chat" && Trim(Meta(m, "cid")) != ""
  }

  /** First the conversation key, if the blob names one, then the storage key. */
  function DecryptEbp1(env: Env, stored: StoredObject, aads: seq<string>): Option<Buffer> {
    var dek := if ChatScoped(stored.metadata) then env.conversationDek(Trim(Meta(stored.metadata, "cid"))) else None;
    var viaDek := if dek.Some? then FirstOpening(env, stored.bytes, dek.value, aads) else None;
    if viaDek.Some? then viaDek else FirstOpening(env, stored.bytes, env.encKey, aads)
  }

  /** A Range on a large blob, or one that is too long, is ignored. */
  function EffectiveRange(range: Option<string>, encSize: nat, contentType: string): Option<string> {
    if Given(range).None? || encSize > EBP1_RANGE_SIZE_LIMIT then None
    else
      var parsed := ParseRangeHeader(range.value, encSize);
      if parsed.Some? && parsed.value.end - parsed.value.start + 1 > GetRangeMaxSize(contentType) then None
      else range
  }

  function SendDecrypted(plain: Buffer, range: Option<string>, encSize: nat, contentType: string): Response {
    var effective := EffectiveRange(range, encSize, contentType);
    if effective.None? then Full(plain, contentType)
    else
      var parsed := ParseRangeHeader(effective.value, |plain|);
      if parsed.None? then RangeNotSatisfiable(|plain|)
      else Partial(R.Subarray(plain, parsed.value.start, parsed.value.end + 1), parsed.value.start,
                   parsed.value.end, |plain|, contentType)
  }

  /** The keys the route decrypts a blob with. */
  predicate TriesKey(env: Env, stored: StoredObject, key: Buffer) {
    || key == env.encKey
    || (ChatScoped(stored.metadata) && env.conversationDek(Trim(Meta(stored.metadata, "cid"))) == Some(key))
  }

  ghost predicate OpensTo(env: Env, payload: Buffer, key: Buffer, aad: string, plain: Buffer) {
    DecryptBuffer(env.cipher, payload, key, env.utf8(aad)) == Some(plain)
  }

  /** The search succeeds as soon as one of the AADs opens the payload, and finds one that does. */
  lemma {:induction false} OpeningFound(env: Env, payload: Buffer, key: Buffer, aads: seq<string>)
    ensures FirstOpening(env, payload, key, aads).Some? ==>
              exists a :: a in aads && OpensTo(env, payload, key, a, FirstOpening(env, payload, key, aads).value)
    ensures forall a, plain :: a in aads && OpensTo(env, payload, key, a, plain) ==>
              FirstOpening(env, payload, key, aads).Some?
  {
    if aads != [] {
      OpeningFound(env, payload, key, aads[1..]);
      assert aads[0] in aads;
      if FirstOpening(env, payload, key, aads).Some?
        && DecryptBuffer(env.cipher, payload, key, env.utf8(aads[0])).None? {
        var a :| a in aads[1..] && OpensTo(env, payload, key, a, FirstOpening(env, payload, key, aads[1..]).value);
        assert a in aads;
      }
    }
  }

  lemma OpenedBy(env: Env, stored: StoredObject, aads: seq<string>) returns (key: Buffer, aad: string)
    requires DecryptEbp1(env, stored, aads).Some?
    ensures TriesKey(env, stored, key) && aad in aads
    ensures OpensTo(env, stored.bytes, key, aad, DecryptEbp1(env, stored, aads).value)
  {
    var dek := if ChatScoped(stored.metadata) then env.conversationDek(Trim(Meta(stored.metadata, "cid"))) else None;
    key := if dek.Some? && FirstOpening(env, stored.bytes, dek.value, aads).Some? then dek.value else env.encKey;
    OpeningFound(env, stored.bytes, key, aads);
    aad :| aad in aads && OpensTo(env, stored.bytes, key, aad, FirstOpening(env, stored.bytes, key, aads).value);
  }

  lemma OpensWhenever(env: Env, stored: StoredObject, aads: seq<string>, key: Buffer, aad: string)
    requires TriesKey(env, stored, key) && aad in aads
    requires DecryptBuffer(env.cipher, stored.bytes, key, env.utf8(aad)).Some?
    ensures DecryptEbp1(env, stored, aads).Some?
  {
    OpeningFound(env, stored.bytes, key, aads);
    assert OpensTo(env, stored.bytes, key, aad, DecryptBuffer(env.cipher, stored.bytes, key, env.utf8(aad)).value);
  }

  /** Some key the route has and some AAD it tries open the blob. */
  ghost predicate Openable(env: Env, stored: StoredObject, aads: seq<string>) {
    exists k, a :: TriesKey(env, stored, k) && a in aads
      && DecryptBuffer(env.cipher, stored.bytes, k, env.utf8(a)).Some?
  }

  // ---------------------------------------------------------------- resolution

  /** What the search over candidate keys arrives at. */
  datatype Outcome =
    | SendEbp2(key: string)
    | SendRaw(key: string)
    | Send(response: Response)

  predicate HasSizes(m: Metadata) {
    Meta(m, "totalSize") != "" && Meta(m, "chunksize") != ""
  }

  /** One candidate: None means the next one is tried. */
  function TryCandidate(env: Env, store: Store, candidates: seq<string>, key: string,
                        range: Option<string>): Option<Outcome> {
    if key !in store then None
    else
      var stored := store[key];
      if MetaIsEbp2(stored.metadata) && HasSizes(stored.metadata) then Some(SendEbp2(key))
      else if !MetaIsEbp1(stored.metadata) then Some(SendRaw(key))
      else
        var plain := DecryptEbp1(env, stored, AadCandidates(stored.metadata, key, candidates));
        if plain.None? then None
        else Some(Send(SendDecrypted(plain.value, range, |stored.bytes|, OriginalContentType(stored.metadata))))
  }

  /** An EBP1 blob, as the route recognises one. */
  predicate IsEbp1Blob(m: Metadata) {
    MetaIsEbp1(m) && !(MetaIsEbp2(m) && HasSizes(m))
  }

  /**
   * A candidate is passed over exactly when nothing is stored there, or a blob that no key and no AAD the
   * route has opens.
   */
  lemma PassedOverIff(env: Env, store: Store, candidates: seq<string>, key: string, range: Option<string>)
    ensures TryCandidate(env, store, candidates, key, range).None? <==>
            key !in store || (IsEbp1Blob(store[key].metadata)
                              && !Openable(env, store[key], AadCandidates(store[key].metadata, key, candidates)))
  {
    if key in store {
      var stored := store[key];
      var aads := AadCandidates(stored.metadata, key, candidates);
      if DecryptEbp1(env, stored, aads).Some? {
        var k, a := OpenedBy(env, stored, aads);
        assert Openable(env, stored, aads);
      } else if Openable(env, stored, aads) {
        var k, a :| TriesKey(env, stored, k) && a in aads
          && DecryptBuffer(env.cipher, stored.bytes, k, env.utf8(a)).Some?;
        OpensWhenever(env, stored, aads, k, a);
      }
    }
  }

  /** The first candidate that is not passed over decides; with none, the answer is that nothing is there. */
  lemma {:induction false} FirstNotPassedOver(env: Env, store: Store, candidates: seq<string>, untried: seq<string>,
                                              range: Option<string>, i: nat)
    requires i <= |untried|
    requires forall j :: 0 <= j < i ==> TryCandidate(env, store, candidates, untried[j], range).None?
    requires i < |untried| ==> TryCandidate(env, store, candidates, untried[i], range).Some?
    ensures FirstServed(env, store, candidates, untried, range)
         == if i < |untried| then TryCandidate(env, store, candidates, untried[i], range).value else Send(NotFound)
  {
    if i > 0 {
      assert TryCandidate(env, store, candidates, untried[0], range).None?;
      FirstNotPassedOver(env, store, candidates, untried[1..], range, i - 1);
    }
  }

  function FirstServed(env: Env, store: Store, candidates: seq<string>, untried: seq<string>,
                       range: Option<string>): Outcome {
    if untried == [] then Send(NotFound)
    else
      var r := TryCandidate(env, store, candidates, untried[0], range);
      if r.Some? then r.value else FirstServed(env, store, candidates, untried[1..], range)
  }

  /** What a decoded path is served as. */
  function ServeDecoded(env: Env, store: Store, decodedPath: string, range: Option<string>): Outcome {
    var candidates := ServeKeys(decodedPath, env.bucket, ObjectPrefix(env.storagePrefix));
    FirstServed(env, store, candidates, candidates, range)
  }

  /** What an encoded URL path is served as; None when a segment does not decode. */
  function Serve(env: Env, store: Store, urlPath: string, range: Option<string>): Option<Outcome> {
    var decoded := DecodeKeyFromUrl(env.codec, urlPath);
    if decoded.None? then None else Some(ServeDecoded(env, store, StripSlash(decoded.value), range))
  }

  /** The route's loop over the candidates. */
  method ServeLoop(env: Env, store: Store, candidates: seq<string>, range: Option<string>) returns (outcome: Outcome)
    ensures outcome == FirstServed(env, store, candidates, candidates, range)
  {
    var i := 0;
    assert candidates[0..] == candidates;
    while i < |candidates|
      invariant 0 <= i <= |candidates|
      invariant FirstServed(env, store, candidates, candidates, range)
                == FirstServed(env, store, candidates, candidates[i..], range)
    {
      var r := TryKey(env, store, candidates, candidates[i], range);
      assert candidates[i..][0] == candidates[i] && candidates[i..][1..] == candidates[i + 1..];
      if r.Some? {
        return r.value;
      }
      i := i + 1;
    }
    assert candidates[i..] == [];
    outcome := Send(NotFound);
  }

  method TryKey(env: Env, store: Store, candidates: seq<string>, key: string, range: Option<string>)
    returns (r: Option<Outcome>)
    ensures r == TryCandidate(env, store, candidates, key, range)
    ensures r.None? <==>
              key !in store
              || (IsEbp1Blob(store[key].metadata)
                      && !Openable(env, store[key], AadCandidates(store[key].metadata, key, candidates)))
  {
    PassedOverIff(env, store, candidates, key, range);
    if key !in store {
      return None;
    }
    var stored := store[key];
    var meta := stored.metadata;
    if MetaIsEbp2(meta) && HasSizes(meta) {
      return Some(SendEbp2(key));
    }
    if !MetaIsEbp1(meta) {
      return Some(SendRaw(key));
    }
    var plain := DecryptLoop(env, stored, AadCandidates(meta, key, candidates));
    if plain.None? {
      return None;
    }
    r := Some(Send(SendDecrypted(plain.value, range, |stored.bytes|, OriginalContentType(meta))));
  }

  /** Trying the AADs, first under the conversation key and then under the storage key. */
  method DecryptLoop(env: Env, stored: StoredObject, aads: seq<string>) returns (decrypted: Option<Buffer>)
    ensures decrypted == DecryptEbp1(env, stored, aads)
  {
    decrypted := None;
    if ChatScoped(stored.metadata) {
      var dek := env.conversationDek(Trim(Meta(stored.metadata, "cid")));
      if dek.Some? {
        decrypted := OpenLoop(env, stored.bytes, dek.value, aads);
      }
    }
    if decrypted.None? {
      decrypted := OpenLoop(env, stored.bytes, env.encKey, aads);
    }
  }

  method OpenLoop(env: Env, payload: Buffer, key: Buffer, aads: seq<string>) returns (decrypted: Option<Buffer>)
    ensures decrypted == FirstOpening(env, payload, key, aads)
  {
    decrypted := None;
    var i := 0;
    assert aads[0..] == aads;
    while i < |aads|
      invariant 0 <= i <= |aads|
      invariant decrypted.None?
      invariant FirstOpening(env, payload, key, aads) == FirstOpening(env, payload, key, aads[i..])
    {
      assert aads[i..][0] == aads[i] && aads[i..][1..] == aads[i + 1..];
      decrypted := DecryptBuffer(env.cipher, payload, key, env.utf8(aads[i]));
      if decrypted.Some? {
        return;
      }
      i := i + 1;
    }
    assert aads[i..] == [];
  }

  // ---------------------------------------------------------------- EBP2

  /** The object's context as the route rebuilds it: the AAD is the key itself, the sizes come from the metadata. */
  function ContextOf(env: Env, key: string, totalSize: nat, chunkSize: nat): E2.Context {
    E2.Context(env.cipher, env.encKey, env.utf8(key), chunkSize, totalSize, E2.VERSION)
  }

  /** What the headers announce for an EBP2 object before any byte is sent. */
  function RequestedRange(range: Option<string>, totalSize: nat, contentType: string): Option<ByteRange> {
    if Given(range).None? then Some(ByteRange(0, LastByte(totalSize)))
    else
      var parsed := ParseRangeHeader(range.value, totalSize);
      if parsed.None? || parsed.value.end - parsed.value.start + 1 > GetRangeMaxSize(contentType) then None else parsed
  }

  /** The Content-Length header. */
  function ContentLength(r: ByteRange): int {
    r.end - r.start + 1
  }

  /** The bytes of an inclusive range, as far as there are any. */
  function SliceAt(data: Buffer, r: ByteRange): Buffer {
    R.Subarray(data, r.start, r.end + 1)
  }

  /** The response with that body. */
  function RangeResponse(body: Buffer, r: ByteRange, range: Option<string>, totalSize: nat,
                         contentType: string): Response {
    if Given(range).None? then Full(body, contentType) else Partial(body, r.start, r.end, totalSize, contentType)
  }

  lemma WantedIsInside(range: Option<string>, totalSize: nat, contentType: string)
    requires RequestedRange(range, totalSize, contentType).Some?
    ensures var r := RequestedRange(range, totalSize, contentType).value;
            && (totalSize > 0 ==> r.start <= r.end < totalSize)
            && (totalSize == 0 ==> r == ByteRange(0, 0))
            && (Given(range).None? ==> r.start == 0 && r.end == LastByte(totalSize))
  {
    if Given(range).Some? && totalSize > 0 {
      AcceptedRangeIsInside(range.value, totalSize);
    }
  }

  /**
   * A response that is not `complete` has its connection destroyed on the way: it has fewer bytes than
   * announced, and what was sent is a prefix of the range. A complete one has the range's bytes and their
   * number is announced, except that an empty object is announced with one byte.
   */
  ghost predicate IsAnswer(response: Response, contentLength: int, complete: bool, totalSize: nat, contentType: string,
                           range: Option<string>, data: Buffer)
  {
    var wanted := RequestedRange(range, totalSize, contentType);
    if wanted.None? then response == RangeNotSatisfiable(totalSize) && contentLength == 0 && complete
    else
      && (response.Full? || response.Partial?)
      && response == RangeResponse(response.body, wanted.value, range, totalSize, contentType)
      && contentLength == ContentLength(wanted.value)
      && (if complete
          then (if totalSize == 0 then response.body == [] && contentLength == 1
                else
                  && |data| == totalSize && response.body == SliceAt(data, wanted.value)
                  && |response.body| == contentLength)
          else |response.body| < contentLength
               && (response.body != [] ==> |data| == totalSize && response.body <= SliceAt(data, wanted.value)))
  }

  /** The EBP2 branch; with all chunks there, the answer is complete. */
  method SendEbp2Object(env: Env, key: string, totalSize: nat, chunkSize: nat, contentType: string,
                        fetch: R.Fetcher, range: Option<string>, ghost data: Buffer)
    returns (response: Response, contentLength: int, complete: bool)
    requires chunkSize > 0
    requires R.Faithful(ContextOf(env, key, totalSize, chunkSize), fetch, data)
    ensures IsAnswer(response, contentLength, complete, totalSize, contentType, range, data)
    ensures R.Available(ContextOf(env, key, totalSize, chunkSize), fetch) ==> complete
  {
    var wanted := RequestedRange(range, totalSize, contentType);
    if wanted.None? {
      return RangeNotSatisfiable(totalSize), 0, true;
    }
    WantedIsInside(range, totalSize, contentType);
    var start, end := wanted.value.start, wanted.value.end;
    contentLength := end - start + 1;
    var body;
    body, complete := R.ReadRange(ContextOf(env, key, totalSize, chunkSize), fetch, start, end, data);
    response := RangeResponse(body, wanted.value, range, totalSize, contentType);
    AnswerOf(body, complete, totalSize, contentType, range, data);
  }

  /** What the stream delivers, as an answer. */
  lemma AnswerOf(body: Buffer, complete: bool, totalSize: nat, contentType: string, range: Option<string>, data: Buffer)
    requires RequestedRange(range, totalSize, contentType).Some?
    requires complete && totalSize == 0 ==> body == []
    requires var r := RequestedRange(range, totalSize, contentType).value;
             && (totalSize > 0 ==> r.start <= r.end < totalSize)
             && (totalSize == 0 ==> r == ByteRange(0, 0))
             && (complete && totalSize > 0 ==> |data| == totalSize && body == data[r.start..r.end + 1])
             && (!complete ==>
                   |body| < r.end + 1 - r.start
                   && (body != [] ==> |data| == totalSize > r.end && body <= data[r.start..r.end + 1]))
    ensures var r := RequestedRange(range, totalSize, contentType).value;
            IsAnswer(RangeResponse(body, r, range, totalSize, contentType), ContentLength(r), complete, totalSize,
                     contentType, range, data)
  {
  }
}
