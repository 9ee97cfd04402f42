/**
 * From URL to storage key and back: the candidate keys the file route tries
 * (src/routes/files.ts), the keys a deletion removes (src/lib/storageDeletion.ts), and the URL the
 * uploader returns (src/routes/upload.ts).
 */
module StorageKeys {
  import opened Text
  import opened Aead

  // encodeURIComponent and decodeURIComponent of one segment; decoding malformed input throws.
  datatype UriCodec = UriCodec(encode: string -> string, decode: string -> Option<string>)
  {
    /** Section 2.1 of RFC 3986 as far as it is needed: decoding inverts encoding, and "/" is always encoded. */
    ghost predicate Correct() {
      forall s :: decode(encode(s)) == Some(s) && '/' !in encode(s) && (encode(s) == "" <==> s == "")
    }
  }

  function EncodeAll(codec: UriCodec, segments: seq<string>): (r: seq<string>)
    ensures |r| == |segments|
    ensures forall i :: 0 <= i < |r| ==> r[i] == codec.encode(segments[i])
  {
    if segments == [] then [] else [codec.encode(segments[0])] + EncodeAll(codec, segments[1..])
  }

  function DecodeAll(codec: UriCodec, segments: seq<string>): Option<seq<string>> {
    if segments == [] then Some([])
    else
      var first, rest := codec.decode(segments[0]), DecodeAll(codec, segments[1..]);
      if first.None? || rest.None? then None else Some([first.value] + rest.value)
  }

  /** `encodeKeyForUrl`. */
  function EncodeKeyForUrl(codec: UriCodec, key: string): string {
    Join(EncodeAll(codec, Split(key, '/')), '/')
  }

  /** `decodeKeyFromUrl`. */
  function DecodeKeyFromUrl(codec: UriCodec, urlPath: string): Option<string> {
    var segments := DecodeAll(codec, Split(urlPath, '/'));
    if segments.None? then None else Some(Join(segments.value, '/'))
  }

  lemma {:induction false} DecodeAllInverts(codec: UriCodec, segments: seq<string>)
    requires codec.Correct()
    ensures DecodeAll(codec, EncodeAll(codec, segments)) == Some(segments)
  {
    if segments != [] {
      DecodeAllInverts(codec, segments[1..]);
      assert EncodeAll(codec, segments)[1..] == EncodeAll(codec, segments[1..]);
      assert [segments[0]] + segments[1..] == segments;
    }
  }

  /** Decoding the URL the uploader returns gives back the key, for every key. */
  lemma DecodeInvertsEncode(codec: UriCodec, key: string)
    requires codec.Correct()
    ensures DecodeKeyFromUrl(codec, EncodeKeyForUrl(codec, key)) == Some(key)
  {
    var segments := Split(key, '/');
    SplitInvertsJoin(EncodeAll(codec, segments), '/');
    DecodeAllInverts(codec, segments);
    JoinInvertsSplit(key, '/');
  }

  // ---------------------------------------------------------------- candidate keys

  /** `stripLeadingBucketSegment`. */
  function StripLeadingBucketSegment(decodedPath: string, bucket: Option<string>, prefix: string): string {
    var segments := Segments(decodedPath);
    var prefixSegments := Segments(prefix);
    if segments == [] then decodedPath
    else if |prefixSegments| > 0 && |segments| >= 1 + |prefixSegments|
            && Join(segments[1..1 + |prefixSegments|], '/') == Join(prefixSegments, '/') then
      Join(segments[1..], '/')
    else if bucket.Some? && bucket.value != "" && segments[0] == bucket.value then
      Join(segments[1..], '/')
    else decodedPath
  }

  /** The local `push`: drop one leading slash, skip empty keys and repetitions. */
  function Push(candidates: seq<string>, k: string): seq<string> {
    var key := StripSlash(k);
    if key == "" || key in candidates then candidates else candidates + [key]
  }

  function UnderPrefix(prefix: string, k: string): string {
    if k == prefix || StartsWith(k, prefix + "/") then k else prefix + "/" + k
  }

  /** `buildCandidateKeys`. */
  function BuildCandidateKeys(decodedPath: string, bucket: Option<string>, prefix: string): seq<string> {
    var base := StripSlash(decodedPath);
    var stripped := StripLeadingBucketSegment(base, bucket, prefix);
    var c := Push(Push([], base), stripped);
    var prefixNorm := TrimSlashes(prefix);
    if prefixNorm == "" then c
    else Push(Push(c, UnderPrefix(prefixNorm, base)), UnderPrefix(prefixNorm, stripped))
  }

  predicate Distinct(keys: seq<string>) {
    forall i, j :: 0 <= i < j < |keys| ==> keys[i] != keys[j]
  }

  lemma PushDistinct(c: seq<string>, k: string)
    requires Distinct(c)
    ensures Distinct(Push(c, k))
  {
  }

  /** No candidate is tried twice. */
  lemma CandidatesDistinct(decodedPath: string, bucket: Option<string>, prefix: string)
    ensures Distinct(BuildCandidateKeys(decodedPath, bucket, prefix))
  {
    var base := StripSlash(decodedPath);
    var stripped := StripLeadingBucketSegment(base, bucket, prefix);
    var p := TrimSlashes(prefix);
    PushDistinct([], base);
    PushDistinct(Push([], base), stripped);
    var c := Push(Push([], base), stripped);
    PushDistinct(c, UnderPrefix(p, base));
    PushDistinct(Push(c, UnderPrefix(p, base)), UnderPrefix(p, stripped));
  }

  const EBLUSHA := ".eblusha"

  /** `toEblushaKey`. */
  function ToEblushaKey(k: string): string {
    if EndsWith(k, EBLUSHA) then k
    else
      var parts := Split(k, '/');
      var last := parts[|parts| - 1];
      if last == "" then k + EBLUSHA
      else
        var dot := LastDot(last);
        var stem := if dot > 0 then last[..dot] else last;
        Join(parts[..|parts| - 1] + [stem + EBLUSHA], '/')
  }

  function MapEblusha(keys: seq<string>): (r: seq<string>)
    ensures |r| == |keys|
    ensures forall i :: 0 <= i < |r| ==> r[i] == ToEblushaKey(keys[i])
  {
    if keys == [] then [] else [ToEblushaKey(keys[0])] + MapEblusha(keys[1..])
  }

  /** The candidates with their `.eblusha` variants after them. */
  function Expand(keys: seq<string>): seq<string> {
    Dedup(keys + MapEblusha(keys))
  }

  /** Every key the file route tries for an already decoded path, in order. */
  function ServeKeys(decodedPath: string, bucket: Option<string>, prefix: string): seq<string> {
    Expand(BuildCandidateKeys(decodedPath, bucket, prefix))
  }

  /** The path itself, without leading slashes, is tried first. */
  lemma FirstCandidateStripped(path: string, bucket: Option<string>, prefix: string)
    requires StripSlash(StripSlash(path)) != ""
    ensures var c := BuildCandidateKeys(path, bucket, prefix);
            c != [] && c[0] == StripSlash(StripSlash(path))
    ensures var c := ServeKeys(path, bucket, prefix);
            c != [] && c[0] == StripSlash(StripSlash(path))
  {
    var base := StripSlash(path);
    assert Push([], base) == [StripSlash(base)];
    FirstPushed(path, bucket, prefix);
  }

  lemma FirstPushed(path: string, bucket: Option<string>, prefix: string)
    requires Push([], StripSlash(path)) != []
    ensures BuildCandidateKeys(path, bucket, prefix) != []
    ensures BuildCandidateKeys(path, bucket, prefix)[0] == Push([], StripSlash(path))[0]
  {
  }

  lemma FirstCandidate(key: string, bucket: Option<string>, prefix: string)
    requires key != "" && key[0] != '/'
    ensures BuildCandidateKeys(key, bucket, prefix) != [] && BuildCandidateKeys(key, bucket, prefix)[0] == key
    ensures ServeKeys(key, bucket, prefix) != [] && ServeKeys(key, bucket, prefix)[0] == key
  {
    assert StripSlash(key) == key;
    FirstCandidateStripped(key, bucket, prefix);
  }

  /** The first key tried for the URL of an uploaded object is the key it was sealed and stored under. */
  lemma FirstCandidateIsKey(codec: UriCodec, key: string, bucket: Option<string>, prefix: string)
    requires codec.Correct()
    requires key != "" && key[0] != '/'
    ensures DecodeKeyFromUrl(codec, EncodeKeyForUrl(codec, key)) == Some(key)
    ensures BuildCandidateKeys(key, bucket, prefix) != [] && BuildCandidateKeys(key, bucket, prefix)[0] == key
    ensures ServeKeys(key, bucket, prefix) != [] && ServeKeys(key, bucket, prefix)[0] == key
  {
    DecodeInvertsEncode(codec, key);
    FirstCandidate(key, bucket, prefix);
  }

  /** A key is tried first for its own URL exactly when it does not start with a slash. */
  lemma KeyIsTriedFirstIff(codec: UriCodec, key: string, bucket: Option<string>, prefix: string)
    requires codec.Correct() && |key| > 3
    ensures DecodeKeyFromUrl(codec, EncodeKeyForUrl(codec, key)).Some?
    ensures var tried :=
              ServeKeys(StripSlash(DecodeKeyFromUrl(codec, EncodeKeyForUrl(codec, key)).value), bucket, prefix);
            (tried != [] && tried[0] == key <==> key[0] != '/')
  {
    FirstCandidateIsKeyOrShorter(key, bucket, prefix);
    DecodeInvertsEncode(codec, key);
  }

  lemma FirstCandidateIsKeyOrShorter(key: string, bucket: Option<string>, prefix: string)
    requires |key| > 3
    ensures var tried := ServeKeys(StripSlash(key), bucket, prefix);
            tried != [] && (if key[0] != '/' then tried[0] == key else |tried[0]| < |key|)
  {
    FirstCandidateStripped(StripSlash(key), bucket, prefix);
  }

  // ---------------------------------------------------------------- deletion

  /** `enforcePrefixCandidates`. */
  function EnforcePrefixCandidates(decodedPath: string, prefix: string): seq<string> {
    var prefixNorm := TrimSlashes(prefix);
    var base := StripSlash(decodedPath);
    var c := Push([], base);
    if prefixNorm == "" then c
    else if base == prefixNorm || StartsWith(base, prefixNorm + "/") then Push(c, base)
    else Push(c, prefixNorm + "/" + base)
  }

  predicate IsSafeKey(key: string) {
    key != "" && !HasDotDot(key) && !StartsWith(key, "/")
  }

  function KeepSafe(keys: seq<string>): (r: seq<string>)
    ensures forall k :: k in r <==> k in keys && IsSafeKey(k)
  {
    if keys == [] then []
    else if IsSafeKey(keys[0]) then [keys[0]] + KeepSafe(keys[1..])
    else KeepSafe(keys[1..])
  }

  /** The keys a deletion derives from a decoded path; an empty STORAGE_PREFIX falls back to "uploads". */
  function DeletionKeys(decodedPath: string, bucket: Option<string>, storagePrefix: string): seq<string> {
    var prefix := if storagePrefix == "" then "uploads" else storagePrefix;
    var stripped := StripLeadingBucketSegment(decodedPath, bucket, prefix);
    var keys := EnforcePrefixCandidates(decodedPath, prefix) + EnforcePrefixCandidates(stripped, prefix);
    KeepSafe(Expand(keys))
  }

  /** What the file route passes as prefix. */
  function ObjectPrefix(storagePrefix: string): string {
    TrimSlashes(storagePrefix)
  }

  function Keys(c: seq<string>): set<string> {
    set k | k in c
  }

  function Pushed(k: string): set<string> {
    if StripSlash(k) == "" then {} else {StripSlash(k)}
  }

  lemma PushKeys(c: seq<string>, k: string)
    ensures Keys(Push(c, k)) == Keys(c) + Pushed(k)
  {
  }

  lemma CandidateSet(decodedPath: string, bucket: Option<string>, prefix: string)
    requires TrimSlashes(prefix) != ""
    ensures var base := StripSlash(decodedPath);
            var stripped := StripLeadingBucketSegment(base, bucket, prefix);
            var p := TrimSlashes(prefix);
            Keys(BuildCandidateKeys(decodedPath, bucket, prefix))
            == Pushed(base) + Pushed(stripped) + Pushed(UnderPrefix(p, base)) + Pushed(UnderPrefix(p, stripped))
  {
    var base := StripSlash(decodedPath);
    var stripped := StripLeadingBucketSegment(base, bucket, prefix);
    var p := TrimSlashes(prefix);
    PushKeys([], base);
    PushKeys(Push([], base), stripped);
    var c := Push(Push([], base), stripped);
    PushKeys(c, UnderPrefix(p, base));
    PushKeys(Push(c, UnderPrefix(p, base)), UnderPrefix(p, stripped));
  }

  lemma EnforcedSet(decodedPath: string, prefix: string)
    requires TrimSlashes(prefix) != ""
    ensures var base := StripSlash(decodedPath);
            Keys(EnforcePrefixCandidates(decodedPath, prefix))
            == Pushed(base) + Pushed(UnderPrefix(TrimSlashes(prefix), base))
  {
    var base := StripSlash(decodedPath);
    PushKeys([], base);
    PushKeys(Push([], base), UnderPrefix(TrimSlashes(prefix), base));
  }

  lemma {:induction false} JoinNonEmptyHasNoLeadingSlash(parts: seq<string>)
    requires forall i :: 0 <= i < |parts| ==> parts[i] != "" && parts[i][0] != '/'
    ensures StripSlash(Join(parts, '/')) == Join(parts, '/')
  {
    if |parts| > 1 {
      assert Join(parts, '/')[0] == parts[0][0];
    }
  }

  lemma {:induction false} SplitHasNoSeparator(s: string, sep: char)
    ensures forall i :: 0 <= i < |Split(s, sep)| ==> sep !in Split(s, sep)[i]
  {
    if s != "" {
      SplitHasNoSeparator(s[1..], sep);
    }
  }

  lemma {:induction false} NonEmptyKeeps(parts: seq<string>)
    requires forall i :: 0 <= i < |parts| ==> '/' !in parts[i]
    ensures forall i :: 0 <= i < |NonEmpty(parts)| ==> NonEmpty(parts)[i] != "" && NonEmpty(parts)[i][0] != '/'
  {
    if parts != [] {
      NonEmptyKeeps(parts[1..]);
    }
  }

  /** Stripping the bucket gives the same key, up to one leading slash, before or after a slash is dropped. */
  lemma StrippedAgree(decodedPath: string, bucket: Option<string>, prefix: string)
    ensures StripSlash(StripLeadingBucketSegment(decodedPath, bucket, prefix))
         == StripLeadingBucketSegment(StripSlash(decodedPath), bucket, prefix)
  {
    SegmentsIgnoreLeadingSlash(decodedPath);
    var segments := Segments(decodedPath);
    SplitHasNoSeparator(decodedPath, '/');
    NonEmptyKeeps(Split(decodedPath, '/'));
    if segments != [] {
      JoinNonEmptyHasNoLeadingSlash(segments[1..]);
    }
  }

  lemma PrefixAgree(decodedPath: string, bucket: Option<string>, storagePrefix: string)
    ensures StripLeadingBucketSegment(decodedPath, bucket, storagePrefix)
         == StripLeadingBucketSegment(decodedPath, bucket, ObjectPrefix(storagePrefix))
  {
    SegmentsIgnoreSlashes(storagePrefix);
  }

  lemma ExpandMember(a: seq<string>, b: seq<string>, k: string)
    requires Keys(a) == Keys(b)
    requires k in Expand(a)
    ensures k in Expand(b)
  {
    if k in a {
      assert k in Keys(a);
    } else {
      var i :| 0 <= i < |a| && ToEblushaKey(a[i]) == k;
      assert a[i] in Keys(a);
      var j :| 0 <= j < |b| && b[j] == a[i];
      assert MapEblusha(b)[j] == k;
    }
  }

  /** The keys a deletion derives before it adds variants and drops unsafe ones. */
  function EnforcedKeys(decodedPath: string, bucket: Option<string>, prefix: string): seq<string> {
    EnforcePrefixCandidates(decodedPath, prefix)
    + EnforcePrefixCandidates(StripLeadingBucketSegment(decodedPath, bucket, prefix), prefix)
  }

  lemma KeysOfConcat(a: seq<string>, b: seq<string>)
    ensures Keys(a + b) == Keys(a) + Keys(b)
  {
  }

  lemma SameCandidates(decodedPath: string, bucket: Option<string>, storagePrefix: string)
    requires ObjectPrefix(storagePrefix) != ""
    requires TrimSlashes(ObjectPrefix(storagePrefix)) == ObjectPrefix(storagePrefix)
    ensures Keys(EnforcedKeys(decodedPath, bucket, storagePrefix))
         == Keys(BuildCandidateKeys(decodedPath, bucket, ObjectPrefix(storagePrefix)))
  {
    var p := ObjectPrefix(storagePrefix);
    var stripped := StripLeadingBucketSegment(decodedPath, bucket, storagePrefix);
    PrefixAgree(decodedPath, bucket, storagePrefix);
    StrippedAgree(decodedPath, bucket, p);
    CandidateSet(decodedPath, bucket, p);
    EnforcedSet(decodedPath, storagePrefix);
    EnforcedSet(stripped, storagePrefix);
    KeysOfConcat(EnforcePrefixCandidates(decodedPath, storagePrefix), EnforcePrefixCandidates(stripped, storagePrefix));
    assert Pushed(StripSlash(stripped)) == Pushed(StripLeadingBucketSegment(StripSlash(decodedPath), bucket, p));
  }

  /**
   * A deletion removes exactly the safe keys among those the file route may serve the path from,
   * for every decoded path and every prefix that is not empty once one slash is taken off either end.
   */
  lemma DeletedAreServedAndSafe(decodedPath: string, bucket: Option<string>, storagePrefix: string)
    requires ObjectPrefix(storagePrefix) != ""
    requires TrimSlashes(ObjectPrefix(storagePrefix)) == ObjectPrefix(storagePrefix)
    ensures forall k :: k in DeletionKeys(decodedPath, bucket, storagePrefix)
                   <==> k in ServeKeys(decodedPath, bucket, ObjectPrefix(storagePrefix)) && IsSafeKey(k)
  {
    SameCandidates(decodedPath, bucket, storagePrefix);
    var deleted := EnforcedKeys(decodedPath, bucket, storagePrefix);
    var served := BuildCandidateKeys(decodedPath, bucket, ObjectPrefix(storagePrefix));
    forall k
      ensures k in Expand(deleted) <==> k in Expand(served)
    {
      if k in Expand(deleted) {
        ExpandMember(deleted, served, k);
      }
      if k in Expand(served) {
        ExpandMember(served, deleted, k);
      }
    }
    assert DeletionKeys(decodedPath, bucket, storagePrefix) == KeepSafe(Expand(deleted));
  }

  /** `decodePathSegments`: like the file route's decoding, but empty segments are dropped first. */
  function DecodePathSegments(codec: UriCodec, urlPath: string): Option<string> {
    var segments := DecodeAll(codec, Segments(urlPath));
    if segments.None? then None else Some(Join(segments.value, '/'))
  }

  /** The two decodings differ only on empty segments. */
  lemma DecodingsAgree(codec: UriCodec, urlPath: string)
    requires forall i :: 0 <= i < |Split(urlPath, '/')| ==> Split(urlPath, '/')[i] != ""
    ensures DecodePathSegments(codec, urlPath) == DecodeKeyFromUrl(codec, urlPath)
  {
    NonEmptyAll(Split(urlPath, '/'));
  }

  // ---------------------------------------------------------------- what is taken off a path

  /** The path's first segment is the bucket, or is followed by the segments of the prefix. */
  predicate NamesBucket(segments: seq<string>, bucket: Option<string>, prefix: seq<string>) {
    && segments != []
    && (|| (bucket.Some? && bucket.value != "" && segments[0] == bucket.value)
        || (prefix != [] && prefix <= segments[1..]))
  }

  lemma NoSlashInSegments(path: string)
    ensures forall i :: 0 <= i < |Segments(path)| ==> '/' !in Segments(path)[i]
  {
    SplitHasNoSeparator(path, '/');
    NonEmptyAreParts(Split(path, '/'));
    forall i | 0 <= i < |Segments(path)|
      ensures '/' !in Segments(path)[i]
    {
      assert Segments(path)[i] in Segments(path);
    }
  }

  /** Joined segments are equal only if the segments are. */
  lemma JoinDetermines(a: seq<string>, b: seq<string>)
    requires a != [] && b != []
    requires forall i :: 0 <= i < |a| ==> '/' !in a[i]
    requires forall i :: 0 <= i < |b| ==> '/' !in b[i]
    ensures Join(a, '/') == Join(b, '/') <==> a == b
  {
    SplitInvertsJoin(a, '/');
    SplitInvertsJoin(b, '/');
  }

  lemma PrefixFollows(s: seq<string>, p: seq<string>)
    requires s != [] && p != []
    requires forall i :: 0 <= i < |s| ==> '/' !in s[i]
    requires forall i :: 0 <= i < |p| ==> '/' !in p[i]
    ensures |s| >= 1 + |p| && Join(s[1..1 + |p|], '/') == Join(p, '/') <==> p <= s[1..]
  {
    if |s| >= 1 + |p| {
      JoinDetermines(s[1..1 + |p|], p);
      assert s[1..][..|p|] == s[1..1 + |p|];
    }
  }

  /** One segment is taken off exactly if the path names the bucket; every other path stays as it is. */
  lemma StrippedIff(path: string, bucket: Option<string>, prefix: string)
    ensures StripLeadingBucketSegment(path, bucket, prefix)
         == if NamesBucket(Segments(path), bucket, Segments(prefix)) then Join(Segments(path)[1..], '/') else path
  {
    var s, p := Segments(path), Segments(prefix);
    NoSlashInSegments(path);
    NoSlashInSegments(prefix);
    if s != [] && p != [] {
      PrefixFollows(s, p);
    }
  }

  lemma SegmentsUnder(first: string, rest: string)
    requires first != "" && '/' !in first
    ensures Segments(first + "/" + rest) == [first] + Segments(rest)
  {
    SplitWord(first, rest, '/');
    assert first + ['/'] + rest == first + "/" + rest;
    assert ([first] + Split(rest, '/'))[1..] == Split(rest, '/');
  }

  /** A path under the bucket leads to the key within it: what comes after the bucket, without empty segments. */
  lemma BucketIsTakenOff(bucket: string, rest: string, prefix: string)
    requires bucket != "" && '/' !in bucket
    ensures StripLeadingBucketSegment(bucket + "/" + rest, Some(bucket), prefix) == Join(Segments(rest), '/')
    ensures (forall i :: 0 <= i < |Split(rest, '/')| ==> Split(rest, '/')[i] != "") ==>
              StripLeadingBucketSegment(bucket + "/" + rest, Some(bucket), prefix) == rest
  {
    StrippedIff(bucket + "/" + rest, Some(bucket), prefix);
    SegmentsUnder(bucket, rest);
    if forall i :: 0 <= i < |Split(rest, '/')| ==> Split(rest, '/')[i] != "" {
      NonEmptyAll(Split(rest, '/'));
      JoinInvertsSplit(rest, '/');
    }
  }

  // ---------------------------------------------------------------- which paths lead to unsafe keys

  /** The last segment is a single dot. */
  predicate DotLast(s: string) {
    s == "." || EndsWith(s, "/.")
  }

  predicate Clean(k: string) {
    !HasDotDot(k) && !StartsWith(k, "/")
  }

  lemma HasDotDotConcat(a: string, b: string)
    ensures HasDotDot(a + b) <==>
            HasDotDot(a) || HasDotDot(b) || (a != "" && b != "" && a[|a| - 1] == '.' && b[0] == '.')
  {
    var s := a + b;
    if HasDotDot(a) {
      var i :| 0 <= i < |a| - 1 && a[i] == '.' && a[i + 1] == '.';
      DotDotAt(s, i);
    }
    if HasDotDot(b) {
      var i :| 0 <= i < |b| - 1 && b[i] == '.' && b[i + 1] == '.';
      DotDotAt(s, |a| + i);
    }
    if a != "" && b != "" && a[|a| - 1] == '.' && b[0] == '.' {
      DotDotAt(s, |a| - 1);
    }
    if HasDotDot(s) {
      var i :| 0 <= i < |s| - 1 && s[i] == '.' && s[i + 1] == '.';
      if i < |a| - 1 {
        DotDotAt(a, i);
      } else if i >= |a| {
        DotDotAt(b, i - |a|);
      }
    }
  }

  lemma {:induction false} JoinLast(init: seq<string>, last: string)
    ensures Join(init + [last], '/') == (if init == [] then "" else Join(init, '/') + "/") + last
  {
    if |init| > 1 {
      assert (init + [last])[1..] == init[1..] + [last];
      JoinLast(init[1..], last);
    }
  }

  /** The directory part of a path, up to and with its last slash. */
  function Directory(k: string): (d: string)
    ensures d == "" || d[|d| - 1] == '/'
  {
    var parts := Split(k, '/');
    if |parts| == 1 then "" else Join(parts[..|parts| - 1], '/') + "/"
  }

  function Name(k: string): string {
    var parts := Split(k, '/');
    parts[|parts| - 1]
  }

  /** A directory before a path does not change its last segment. */
  lemma DotLastUnder(d: string, k: string)
    requires d == "" || d[|d| - 1] == '/'
    ensures DotLast(d + k) <==> DotLast(k)
  {
    var s := d + k;
    if |k| >= 2 {
      assert s[|s| - 2..] == k[|k| - 2..];
    } else if |k| == 1 && d != "" {
      assert s[|s| - 2..] == ['/', k[0]];
    } else if k == "" {
      assert s == d;
      assert !EndsWith(s, "/.") by {
        assert s != "" ==> s[|s| - 1] == '/';
      }
    }
  }

  lemma DirectoryAndName(k: string)
    ensures k == Directory(k) + Name(k) && '/' !in Name(k)
    ensures DotLast(k) <==> Name(k) == "."
  {
    var parts := Split(k, '/');
    var n := |parts| - 1;
    JoinInvertsSplit(k, '/');
    SplitHasNoSeparator(k, '/');
    JoinLast(parts[..n], parts[n]);
    assert parts == parts[..n] + [parts[n]];
    DotLastUnder(Directory(k), Name(k));
    DotLastWithoutSlash(Name(k));
  }

  lemma DotLastWithoutSlash(s: string)
    requires '/' !in s
    ensures DotLast(s) <==> s == "."
  {
    if |s| >= 2 {
      assert s[|s| - 2] != '/';
    }
  }

  /** What stands before the variant's extension. */
  function Stem(name: string): string {
    var dot := LastDot(name);
    if dot > 0 then name[..dot] else name
  }

  lemma EblushaForm(k: string)
    requires !EndsWith(k, EBLUSHA) && Name(k) != ""
    ensures ToEblushaKey(k) == Directory(k) + Stem(Name(k)) + EBLUSHA
  {
    var parts := Split(k, '/');
    JoinLast(parts[..|parts| - 1], Stem(Name(k)) + EBLUSHA);
  }

  lemma ExtensionIsClean()
    ensures !HasDotDot(EBLUSHA)
  {
  }

  lemma StemEnd(name: string)
    requires name != "" && !HasDotDot(name)
    ensures var stem := Stem(name);
            stem != "" && stem[0] == name[0] && !HasDotDot(stem) && (stem[|stem| - 1] == '.' <==> name == ".")
  {
    var dot := LastDot(name);
    if dot > 0 {
      HasDotDotConcat(name[..dot], name[dot..]);
      assert name[..dot] + name[dot..] == name;
    }
  }

  lemma StemDots(name: string)
    requires name != "" && !HasDotDot(name)
    ensures HasDotDot(Stem(name) + EBLUSHA) <==> name == "."
    ensures Stem(name) != "" && Stem(name)[0] == name[0]
  {
    StemEnd(name);
    ExtensionIsClean();
    HasDotDotConcat(Stem(name), EBLUSHA);
  }

  /** A variant has two dots in a row that the key does not have exactly when the key's last segment is ".". */
  lemma VariantIsClean(k: string)
    requires k != "" && !HasDotDot(k)
    ensures HasDotDot(ToEblushaKey(k)) <==> DotLast(k)
    ensures StartsWith(ToEblushaKey(k), "/") <==> StartsWith(k, "/")
  {
    DirectoryAndName(k);
    var d, name := Directory(k), Name(k);
    if EndsWith(k, EBLUSHA) {
      assert k[|k| - 1] == EBLUSHA[7];
    } else if name == "" {
      HasDotDotConcat(k, EBLUSHA);
      ExtensionIsClean();
    } else {
      EblushaForm(k);
      HasDotDotConcat(d, name);
      StemDots(name);
      HasDotDotConcat(d, Stem(name) + EBLUSHA);
      assert ToEblushaKey(k) == d + (Stem(name) + EBLUSHA);
    }
  }

  /** The route tries clean keys only exactly when its candidates are clean and none of them ends in a segment ".". */
  lemma CleanWithVariants(c: seq<string>)
    requires "" !in c
    ensures (forall k :: k in Expand(c) ==> Clean(k)) <==> (forall k :: k in c ==> Clean(k) && !DotLast(k))
  {
    forall k | k in c && !HasDotDot(k)
      ensures ToEblushaKey(k) in Expand(c)
      ensures HasDotDot(ToEblushaKey(k)) <==> DotLast(k)
      ensures StartsWith(ToEblushaKey(k), "/") <==> StartsWith(k, "/")
    {
      var i :| 0 <= i < |c| && c[i] == k;
      assert MapEblusha(c)[i] == ToEblushaKey(k);
      VariantIsClean(k);
    }
    forall k | k in Expand(c)
      ensures k in c || exists x :: x in c && k == ToEblushaKey(x)
    {
      if k !in c {
        var i :| 0 <= i < |c| && MapEblusha(c)[i] == k;
        assert c[i] in c;
      }
    }
  }

  lemma {:induction false} JoinHasDotDot(parts: seq<string>)
    ensures HasDotDot(Join(parts, '/')) <==> exists x :: x in parts && HasDotDot(x)
  {
    if |parts| == 1 {
      assert parts[0] in parts;
    } else if parts != [] {
      JoinHasDotDot(parts[1..]);
      HasDotDotConcat(parts[0], ['/'] + Join(parts[1..], '/'));
      HasDotDotConcat(['/'], Join(parts[1..], '/'));
      assert parts[0] + ['/'] + Join(parts[1..], '/') == parts[0] + (['/'] + Join(parts[1..], '/'));
      assert parts == [parts[0]] + parts[1..];
    }
  }

  lemma {:induction false} NonEmptyAreParts(parts: seq<string>)
    ensures forall x :: x in NonEmpty(parts) ==> x in parts
  {
    if parts != [] {
      NonEmptyAreParts(parts[1..]);
    }
  }

  /** Taking the bucket off brings no new dots in and no slash to the front. */
  lemma StrippedIsClean(base: string, bucket: Option<string>, prefix: string)
    ensures var stripped := StripLeadingBucketSegment(base, bucket, prefix);
            && (HasDotDot(stripped) ==> HasDotDot(base))
            && (stripped == base || StripSlash(stripped) == stripped)
  {
    var segments := Segments(base);
    JoinInvertsSplit(base, '/');
    JoinHasDotDot(Split(base, '/'));
    NonEmptyAreParts(Split(base, '/'));
    SplitHasNoSeparator(base, '/');
    NonEmptyKeeps(Split(base, '/'));
    if segments != [] {
      JoinHasDotDot(segments[1..]);
      JoinNonEmptyHasNoLeadingSlash(segments[1..]);
    }
  }

  /** What `push` makes of a candidate is clean and does not end in a segment ".". */
  predicate PushesClean(k: string) {
    Clean(StripSlash(k)) && !DotLast(k)
  }

  lemma DotLastPushed(k: string)
    ensures DotLast(StripSlash(k)) <==> DotLast(k)
    ensures HasDotDot(StripSlash(k)) <==> HasDotDot(k)
  {
    if k != "" && k[0] == '/' {
      HasDotDotConcat("/", k[1..]);
      assert k == "/" + k[1..];
    }
  }

  lemma PushedClean(k: string)
    ensures (forall x :: x in Pushed(k) ==> Clean(x) && !DotLast(x)) <==> PushesClean(k)
  {
    DotLastPushed(k);
    if StripSlash(k) != "" {
      assert StripSlash(k) in Pushed(k);
    }
  }

  /** A prefix put before a clean key makes it unclean exactly when the prefix has two dots in a row. */
  lemma UnderPrefixClean(p: string, k: string)
    requires p != "" && p[0] != '/' && !HasDotDot(k) && !DotLast(k)
    ensures PushesClean(UnderPrefix(p, k)) <==> !HasDotDot(p)
  {
    DotLastPushed(UnderPrefix(p, k));
    if k == p || StartsWith(k, p + "/") {
      HasDotDotConcat(p, k[|p|..]);
      assert k == p + k[|p|..];
      assert k[0] == p[0];
    } else {
      HasDotDotConcat(p, "/" + k);
      HasDotDotConcat("/", k);
      DotLastUnder(p + "/", k);
      assert p + "/" + k == p + ("/" + k);
      assert StripSlash(p + "/" + k) == p + "/" + k;
    }
  }

  /** A path, as the caller of either function has it, that leads to clean keys only. */
  predicate LeadsToCleanKeys(path: string, bucket: Option<string>, prefix: string) {
    && !HasDotDot(path) && !HasDotDot(prefix) && !StartsWith(path, "///")
    && !DotLast(path) && !DotLast(StripLeadingBucketSegment(path, bucket, prefix))
  }

  lemma CandidatesClean(path: string, bucket: Option<string>, p: string)
    requires p != "" && TrimSlashes(p) == p
    ensures (forall k :: k in BuildCandidateKeys(path, bucket, p) ==> Clean(k) && !DotLast(k))
       <==> LeadsToCleanKeys(path, bucket, p)
  {
    var base := StripSlash(path);
    var stripped := StripLeadingBucketSegment(base, bucket, p);
    CandidateSet(path, bucket, p);
    PushedClean(base);
    PushedClean(stripped);
    PushedClean(UnderPrefix(p, base));
    PushedClean(UnderPrefix(p, stripped));
    AllOfFour(BuildCandidateKeys(path, bucket, p), Pushed(base), Pushed(stripped),
              Pushed(UnderPrefix(p, base)), Pushed(UnderPrefix(p, stripped)));
    CandidatesPushClean(path, bucket, p);
  }

  lemma AllOfFour(c: seq<string>, a: set<string>, b: set<string>, d: set<string>, e: set<string>)
    requires Keys(c) == a + b + d + e
    ensures (forall k :: k in c ==> Clean(k) && !DotLast(k))
       <==> (forall k :: k in a ==> Clean(k) && !DotLast(k)) && (forall k :: k in b ==> Clean(k) && !DotLast(k))
            && (forall k :: k in d ==> Clean(k) && !DotLast(k)) && (forall k :: k in e ==> Clean(k) && !DotLast(k))
  {
    assert forall k :: k in c <==> k in Keys(c);
  }

  lemma CandidatesPushClean(path: string, bucket: Option<string>, p: string)
    requires p != "" && TrimSlashes(p) == p
    ensures var base := StripSlash(path);
            var stripped := StripLeadingBucketSegment(base, bucket, p);
            (PushesClean(base) && PushesClean(stripped)
             && PushesClean(UnderPrefix(p, base)) && PushesClean(UnderPrefix(p, stripped)))
            <==> LeadsToCleanKeys(path, bucket, p)
  {
    var base := StripSlash(path);
    var stripped := StripLeadingBucketSegment(base, bucket, p);
    StrippedAgree(path, bucket, p);
    DotLastPushed(path);
    DotLastPushed(base);
    DotLastPushed(stripped);
    DotLastPushed(StripLeadingBucketSegment(path, bucket, p));
    StrippedIsClean(base, bucket, p);
    assert PushesClean(base) <==> !HasDotDot(path) && !StartsWith(path, "///") && !DotLast(path);
    if PushesClean(base) && !DotLast(stripped) {
      UnderPrefixClean(p, base);
      UnderPrefixClean(p, stripped);
    }
  }

  lemma ServedCleanIff(path: string, bucket: Option<string>, p: string)
    requires p != "" && TrimSlashes(p) == p
    ensures (forall k :: k in ServeKeys(path, bucket, p) ==> Clean(k)) <==> LeadsToCleanKeys(path, bucket, p)
  {
    ServedNotEmpty(path, bucket, p);
    CleanWithVariants(BuildCandidateKeys(path, bucket, p));
    CandidatesClean(path, bucket, p);
  }

  /**
   * For an URL path without empty segments, the keys deleted and the keys served agree exactly when neither
   * the decoded path nor the prefix has two dots in a row, the path does not begin with three slashes, and
   * its last segment, with the bucket taken off or not, is not ".".
   */
  lemma DeletionMatchesServingIff(codec: UriCodec, urlPath: string, bucket: Option<string>, storagePrefix: string)
    requires ObjectPrefix(storagePrefix) != ""
    requires TrimSlashes(ObjectPrefix(storagePrefix)) == ObjectPrefix(storagePrefix)
    requires forall i :: 0 <= i < |Split(urlPath, '/')| ==> Split(urlPath, '/')[i] != ""
    requires DecodeKeyFromUrl(codec, urlPath).Some?
    ensures DecodePathSegments(codec, urlPath) == DecodeKeyFromUrl(codec, urlPath)
    ensures var path := StripSlash(DecodeKeyFromUrl(codec, urlPath).value);
            LeadsToCleanKeys(path, bucket, ObjectPrefix(storagePrefix)) <==>
              forall k :: k in DeletionKeys(path, bucket, storagePrefix) <==>
                k in ServeKeys(path, bucket, ObjectPrefix(storagePrefix))
  {
    DecodingsAgree(codec, urlPath);
    var path := StripSlash(DecodeKeyFromUrl(codec, urlPath).value);
    DeletedAreServedAndSafe(path, bucket, storagePrefix);
    ServedNotEmpty(path, bucket, ObjectPrefix(storagePrefix));
    ServedCleanIff(path, bucket, ObjectPrefix(storagePrefix));
  }

  lemma ServedNotEmpty(path: string, bucket: Option<string>, prefix: string)
    ensures "" !in ServeKeys(path, bucket, prefix)
  {
    CandidatesNotEmpty(path, bucket, prefix);
    VariantsNotEmpty(BuildCandidateKeys(path, bucket, prefix));
  }

  lemma CandidatesNotEmpty(path: string, bucket: Option<string>, prefix: string)
    ensures "" !in BuildCandidateKeys(path, bucket, prefix)
  {
  }

  lemma {:induction false} VariantsNotEmpty(keys: seq<string>)
    requires "" !in keys
    ensures "" !in MapEblusha(keys)
  {
    if keys != [] {
      EblushaNotEmpty(keys[0]);
      VariantsNotEmpty(keys[1..]);
    }
  }

  lemma EblushaNotEmpty(k: string)
    requires k != ""
    ensures ToEblushaKey(k) != ""
  {
    if !EndsWith(k, EBLUSHA) {
      var parts := Split(k, '/');
      var last := parts[|parts| - 1];
      if last != "" {
        var dot := LastDot(last);
        var stem := if dot > 0 then last[..dot] else last;
        JoinLength(parts[..|parts| - 1] + [stem + EBLUSHA], '/');
      }
    }
  }

  lemma {:induction false} JoinLength(parts: seq<string>, sep: char)
    requires parts != []
    ensures |Join(parts, sep)| >= |parts[|parts| - 1]|
  {
    if |parts| > 1 {
      JoinLength(parts[1..], sep);
    }
  }

  /** A file name with two dots in a row is not a ".." segment, and yet it is served and never deleted. */
  lemma DoubleDotNameIsNotDeleted(bucket: Option<string>)
    ensures "a..b" in ServeKeys("a..b", bucket, "uploads")
    ensures "a..b" !in DeletionKeys("a..b", bucket, "uploads")
  {
    FirstCandidate("a..b", bucket, "uploads");
    DotDotAt("a..b", 1);
  }

  lemma VariantIsServed(path: string, bucket: Option<string>, prefix: string)
    requires path != "" && path[0] != '/'
    ensures ToEblushaKey(path) in ServeKeys(path, bucket, prefix)
  {
    FirstCandidate(path, bucket, prefix);
    var c := BuildCandidateKeys(path, bucket, prefix);
    assert MapEblusha(c)[0] in MapEblusha(c);
  }

  lemma OnlySafeKeysAreDeleted(k: string, path: string, bucket: Option<string>, storagePrefix: string)
    requires !IsSafeKey(k)
    ensures k !in DeletionKeys(path, bucket, storagePrefix)
  {
  }

  /**
   * For a path that ends in a segment ".", as "x/." does, the variant is served and never deleted, though the path
   * has no "..".
   */
  lemma DotSegmentIsNotDeleted(path: string, bucket: Option<string>, prefix: string)
    requires path != "" && path[0] != '/' && !HasDotDot(path) && DotLast(path)
    ensures ToEblushaKey(path) in ServeKeys(path, bucket, prefix)
    ensures ToEblushaKey(path) !in DeletionKeys(path, bucket, prefix)
  {
    VariantIsServed(path, bucket, prefix);
    VariantIsClean(path);
    OnlySafeKeysAreDeleted(ToEblushaKey(path), path, bucket, prefix);
  }

  lemma WordHasOneSegment(word: string)
    requires word != "" && '/' !in word
    ensures StripLeadingBucketSegment(word, None, "") == word
    ensures '/' !in ToEblushaKey(word)
  {
    SplitOneWord(word, '/');
    assert NonEmpty([word]) == [word] + NonEmpty([]);
    assert Name(word) == word && Directory(word) == "";
    if !EndsWith(word, EBLUSHA) {
      EblushaForm(word);
    }
  }

  lemma ServedForWord(word: string, k: string)
    requires word != "" && '/' !in word
    ensures k in ServeKeys(word, None, "") ==> '/' !in k
  {
    WordHasOneSegment(word);
    var c := BuildCandidateKeys(word, None, "");
    assert c == [word];
    assert MapEblusha(c) == [ToEblushaKey(word)];
  }

  lemma PrefixedIsEnforced(word: string, p: string)
    requires word != "" && '/' !in word && p != "" && p[0] != '/' && TrimSlashes(p) == p && word != p
    ensures p + "/" + word in EnforcePrefixCandidates(word, p)
  {
    var key := p + "/" + word;
    assert key[0] == p[0] && StripSlash(key) == key && StripSlash(word) == word;
    assert !StartsWith(word, p + "/") by {
      if |word| > |p| {
        assert word[|p|] != '/' == (p + "/")[|p|];
      }
    }
  }

  lemma PrefixedIsSafe(word: string, p: string)
    requires p != "" && p[0] != '/' && !HasDotDot(p) && !HasDotDot(word)
    ensures IsSafeKey(p + "/" + word)
  {
    HasDotDotConcat(p + "/", word);
    HasDotDotConcat(p, "/");
    assert (p + "/" + word)[0] == p[0];
  }

  lemma PrefixedIsNotServed(word: string, p: string)
    requires word != "" && '/' !in word
    ensures p + "/" + word !in ServeKeys(word, None, "")
  {
    var key := p + "/" + word;
    ServedForWord(word, key);
    assert key[|p|] == '/';
  }

  lemma PlainPrefix()
    ensures TrimSlashes("uploads") == "uploads" && !HasDotDot("uploads")
  {
  }

  lemma EnforcedIsDeleted(path: string, bucket: Option<string>, k: string)
    requires k in EnforcePrefixCandidates(path, "uploads") && IsSafeKey(k)
    ensures k in DeletionKeys(path, bucket, "")
  {
  }

  /**
   * With an empty prefix the deletion falls back to "uploads" and the route does not: for every single
   * segment a key is removed that the route never tries.
   */
  lemma EmptyPrefixDeletesMore(word: string)
    requires word != "" && '/' !in word && !HasDotDot(word) && word != "uploads"
    ensures "uploads" + "/" + word in DeletionKeys(word, None, "")
    ensures "uploads" + "/" + word !in ServeKeys(word, None, "")
  {
    var p := "uploads";
    var key := p + "/" + word;
    PlainPrefix();
    PrefixedIsEnforced(word, p);
    PrefixedIsSafe(word, p);
    EnforcedIsDeleted(word, None, key);
    PrefixedIsNotServed(word, p);
  }

  lemma DotDotAt(k: string, i: nat)
    requires i + 1 < |k| && k[i] == '.' && k[i + 1] == '.'
    ensures HasDotDot(k)
  {
  }
}
