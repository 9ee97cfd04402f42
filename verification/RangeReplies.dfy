/**
 * What a client gets for a Range header (src/routes/files.ts), said in terms of the bytes that section
 * 14.1.2 of RFC 9110 selects and of the limits in bytes.
 */
module RangeReplies {
  import opened Bytes
  import opened Aead
  import opened Text
  import opened ByteRanges
  import opened Files

  /** In any case of letters and with white space around it, the header is "bytes=" with these digits about a dash. */
  ghost predicate Reads(header: string, first: string, last: string) {
    AllDigits(first) && AllDigits(last) && LowerAscii(Trim(header)) == "bytes=" + first + "-" + last
  }

  function SpecOf(first: string, last: string): Option<RangeSpec>
    requires AllDigits(first) && AllDigits(last)
  {
    if first == "" then if last == "" then None else Some(Suffix(ToNat(last)))
    else if last == "" then Some(From(ToNat(first)))
    else Some(FromTo(ToNat(first), ToNat(last)))
  }

  /** The header asks for that range. */
  ghost predicate Asks(header: string, spec: RangeSpec) {
    exists first, last :: Reads(header, first, last) && SpecOf(first, last) == Some(spec)
  }

  lemma {:induction false} LowerConcat(a: string, b: string)
    ensures LowerAscii(a + b) == LowerAscii(a) + LowerAscii(b)
  {
    if a == "" {
      assert a + b == b;
    } else {
      assert (a + b)[1..] == a[1..] + b;
      LowerConcat(a[1..], b);
    }
  }

  /** Only a string without letters becomes one without letters. */
  lemma {:induction false} LowerIsPlain(s: string, plain: string)
    requires LowerAscii(s) == plain && forall i :: 0 <= i < |plain| ==> IsDigit(plain[i]) || plain[i] == '-'
    ensures s == plain
  {
    if s != "" {
      assert plain[0] == LowerAscii(s)[0];
      LowerIsPlain(s[1..], plain[1..]);
    }
  }

  lemma DashBetween(first: string, last: string)
    requires AllDigits(first) && AllDigits(last)
    ensures Split(first + "-" + last, '-') == [first, last]
  {
    DigitsHaveNoDash(first);
    DigitsHaveNoDash(last);
    SplitWord(first, last, '-');
    SplitOneWord(last, '-');
    assert first + ['-'] + last == first + "-" + last;
  }

  lemma ReadsIsMatched(header: string, first: string, last: string)
    requires Reads(header, first, last)
    ensures MatchRange(header) == Some((first, last))
  {
    var t := Trim(header);
    var rest := first + "-" + last;
    LowerConcat(t[..6], t[6..]);
    assert t == t[..6] + t[6..];
    assert LowerAscii(t) == "bytes=" + rest;
    assert LowerAscii(t[6..]) == LowerAscii(t)[6..] == rest;
    LowerIsPlain(t[6..], rest);
    assert LowerAscii(t[..6]) == LowerAscii(t)[..6] == "bytes=";
    DashBetween(first, last);
  }

  lemma JoinOfTwo(first: string, last: string)
    ensures Join([first, last], '-') == first + "-" + last
  {
    assert [first, last][1..] == [last];
  }

  lemma LowerOfDigits(first: string, last: string)
    requires AllDigits(first) && AllDigits(last)
    ensures LowerAscii(first + "-" + last) == first + "-" + last
  {
    LowerUnchanged(first + "-" + last);
  }

  lemma SplitInTwo(s: string, first: string, last: string)
    requires Split(s, '-') == [first, last]
    ensures s == first + "-" + last
  {
    JoinInvertsSplit(s, '-');
    JoinOfTwo(first, last);
  }

  lemma LowerOfHeader(head: string, rest: string)
    requires LowerAscii(head) == "bytes=" && LowerAscii(rest) == rest
    ensures LowerAscii(head + rest) == "bytes=" + rest
  {
    LowerConcat(head, rest);
  }

  lemma Regroup(head: string, first: string, last: string)
    ensures head + first + "-" + last == head + (first + "-" + last)
  {
  }

  lemma MatchedLower(head: string, rest: string, first: string, last: string)
    requires LowerAscii(head) == "bytes=" && rest == first + "-" + last
    requires AllDigits(first) && AllDigits(last)
    ensures LowerAscii(head + rest) == "bytes=" + first + "-" + last
  {
    LowerOfDigits(first, last);
    LowerOfHeader(head, rest);
    Regroup("bytes=", first, last);
  }

  lemma MatchedReads(header: string)
    requires MatchRange(header).Some?
    ensures Reads(header, MatchRange(header).value.0, MatchRange(header).value.1)
  {
    var t := Trim(header);
    var (first, last) := MatchRange(header).value;
    SplitInTwo(t[6..], first, last);
    MatchedLower(t[..6], t[6..], first, last);
    assert t == t[..6] + t[6..];
  }

  /** The parser reads every header that asks for a range, and selects what it asks for; it refuses all others. */
  lemma ParsedIsSelected(header: string, totalSize: nat)
    requires totalSize > 0
    ensures forall spec :: Asks(header, spec) && Representable(spec) ==>
              ParseRangeHeader(header, totalSize) == Selected(spec, totalSize)
    ensures (forall spec :: Asks(header, spec) ==> !Representable(spec)) ==> ParseRangeHeader(header, totalSize).None?
  {
    forall spec | Asks(header, spec) && Representable(spec)
      ensures ParseRangeHeader(header, totalSize) == Selected(spec, totalSize)
    {
      var first, last :| Reads(header, first, last) && SpecOf(first, last) == Some(spec);
      ReadsIsMatched(header, first, last);
    }
    if MatchRange(header).Some? {
      var (first, last) := MatchRange(header).value;
      MatchedReads(header);
      if SpecOf(first, last).Some? {
        assert Asks(header, SpecOf(first, last).value);
      }
    }
  }

  /** A rendered range is a header that asks for it, and for nothing else. */
  lemma RenderedAsks(spec: RangeSpec, other: RangeSpec)
    ensures Asks(Render(spec), other) <==> other == spec
  {
    var (first, last) := Field(spec);
    var t := Render(spec);
    RenderedIsTrimmed(first, last);
    LowerUnchanged(t);
    assert Reads(t, first, last);
    FieldSpec(spec);
    if Asks(t, other) {
      var a, b :| Reads(t, a, b) && SpecOf(a, b) == Some(other);
      ReadsIsMatched(t, a, b);
      ReadsIsMatched(t, first, last);
    }
  }

  lemma FieldSpec(spec: RangeSpec)
    ensures SpecOf(Field(spec).0, Field(spec).1) == Some(spec)
  {
    match spec
    case FromTo(first, last) =>
      ToNatInvertsDecimal(first);
      ToNatInvertsDecimal(last);
    case From(first) => ToNatInvertsDecimal(first);
    case Suffix(length) => ToNatInvertsDecimal(length);
  }

  /** How many bytes one Range may ask for: 64 MiB of a video, else 16 MiB. */
  function MaxRange(contentType: string): nat {
    if StartsWith(Trim(LowerAscii(contentType)), "video/") then 67_108_864 else 16_777_216
  }

  // ---------------------------------------------------------------- EBP2

  /** 206 with exactly the selected bytes and their bounds, or 416. */
  ghost predicate AnswersSpec(response: Response, contentLength: int, file: Buffer, spec: RangeSpec,
                              contentType: string) {
    match Selected(spec, |file|)
    case None => response == RangeNotSatisfiable(|file|) && contentLength == 0
    case Some(r) =>
      if r.end - r.start + 1 > MaxRange(contentType) then response == RangeNotSatisfiable(|file|) && contentLength == 0
      else
        && response == Partial(file[r.start..r.end + 1], r.start, r.end, |file|, contentType)
        && contentLength == r.end - r.start + 1
  }

  /** What is sent for a file: all of it without a Range; what the Range selects; 416 for any other header. */
  ghost predicate Answers(response: Response, contentLength: int, file: Buffer, range: Option<string>,
                          contentType: string) {
    if range.None? || range.value == "" then response == Full(file, contentType) && contentLength == |file|
    else
      && (forall spec :: Asks(range.value, spec) && Representable(spec) ==>
            AnswersSpec(response, contentLength, file, spec, contentType))
      && ((forall spec :: Asks(range.value, spec) ==> !Representable(spec)) ==>
            response == RangeNotSatisfiable(|file|) && contentLength == 0)
  }

  /** What the handler makes of a header, in terms of the standard. */
  lemma WantedIsSelected(header: string, totalSize: nat, spec: RangeSpec, contentType: string)
    requires totalSize > 0 && header != "" && Asks(header, spec) && Representable(spec)
    ensures var selected := Selected(spec, totalSize);
            RequestedRange(Some(header), totalSize, contentType)
            == if selected.None? || selected.value.end - selected.value.start + 1 > MaxRange(contentType) then None
               else selected
  {
    ParsedIsSelected(header, totalSize);
  }

  lemma WantedIsNone(header: string, totalSize: nat, contentType: string)
    requires totalSize > 0 && header != ""
    requires forall spec :: Asks(header, spec) ==> !Representable(spec)
    ensures RequestedRange(Some(header), totalSize, contentType).None?
  {
    ParsedIsSelected(header, totalSize);
  }

  lemma SpecAnswers(response: Response, contentLength: int, file: Buffer, header: string, spec: RangeSpec,
                    contentType: string)
    requires file != [] && header != "" && Asks(header, spec) && Representable(spec)
    requires IsAnswer(response, contentLength, true, |file|, contentType, Some(header), file)
    ensures AnswersSpec(response, contentLength, file, spec, contentType)
  {
    WantedIsSelected(header, |file|, spec, contentType);
  }

  lemma WholeAnswers(response: Response, contentLength: int, file: Buffer, range: Option<string>, contentType: string)
    requires file != [] && IsAnswer(response, contentLength, true, |file|, contentType, range, file)
    ensures Answers(response, contentLength, file, range, contentType)
  {
    if range.None? || range.value == "" {
      assert SliceAt(file, ByteRange(0, |file| - 1)) == file;
    } else {
      forall spec | Asks(range.value, spec) && Representable(spec)
        ensures AnswersSpec(response, contentLength, file, spec, contentType)
      {
        SpecAnswers(response, contentLength, file, range.value, spec, contentType);
      }
      if forall spec :: Asks(range.value, spec) ==> !Representable(spec) {
        WantedIsNone(range.value, |file|, contentType);
      }
    }
  }

  /** At least one byte is selected, and no more than the limit. */
  predicate SelectsFew(spec: RangeSpec, totalSize: nat, limit: nat) {
    var r := Selected(spec, totalSize);
    r.Some? && r.value.end - r.value.start + 1 <= limit
  }

  /** 416 is sent exactly when no range that is read selects at least one byte and no more than the limit. */
  lemma RefusedIff(response: Response, contentLength: int, file: Buffer, header: string, contentType: string)
    requires file != [] && header != "" && Answers(response, contentLength, file, Some(header), contentType)
    ensures response.RangeNotSatisfiable? <==>
              !exists spec ::
                 Asks(header, spec) && Representable(spec) && SelectsFew(spec, |file|, MaxRange(contentType))
  {
    if exists spec :: Asks(header, spec) && Representable(spec) {
      var spec :| Asks(header, spec) && Representable(spec);
      assert AnswersSpec(response, contentLength, file, spec, contentType);
      forall other | Asks(header, other)
        ensures other == spec
      {
        AsksOnce(header, spec, other);
      }
    }
  }

  lemma AsksOnce(header: string, a: RangeSpec, b: RangeSpec)
    requires Asks(header, a) && Asks(header, b)
    ensures a == b
  {
    var first, last :| Reads(header, first, last) && SpecOf(first, last) == Some(a);
    var first', last' :| Reads(header, first', last') && SpecOf(first', last') == Some(b);
    ReadsIsMatched(header, first, last);
    ReadsIsMatched(header, first', last');
  }

  // ---------------------------------------------------------------- EBP1

  /**
   * The same for a blob that is decrypted before it is sent, and so is 32 bytes longer in the store: there a
   * Range on more than 50 MiB, or one that asks for more than the limit, is ignored.
   */
  ghost predicate BlobAnswers(response: Response, plain: Buffer, range: Option<string>, contentType: string) {
    if range.None? || range.value == "" || |plain| + 32 > 52_428_800 then response == Full(plain, contentType)
    else
      && (forall spec :: Asks(range.value, spec) && Representable(spec) ==>
            BlobAnswersSpec(response, plain, spec, contentType))
      && ((forall spec :: Asks(range.value, spec) ==> !Representable(spec)) ==>
            response == RangeNotSatisfiable(|plain|))
  }

  ghost predicate BlobAnswersSpec(response: Response, plain: Buffer, spec: RangeSpec, contentType: string) {
    BlobAnswersTo(response, plain, Selected(spec, |plain| + 32), Selected(spec, |plain|), contentType)
  }

  /** `inBlob` and `inPlain` are what the Range selects of the blob and of the plaintext. */
  predicate BlobAnswersTo(response: Response, plain: Buffer, inBlob: Option<ByteRange>, inPlain: Option<ByteRange>,
                          contentType: string)
    requires inPlain.Some? ==> inPlain.value.start <= inPlain.value.end < |plain|
  {
    if inBlob.Some? && inBlob.value.end - inBlob.value.start + 1 > MaxRange(contentType) then
      response == Full(plain, contentType)
    else
      match inPlain
      case None => response == RangeNotSatisfiable(|plain|)
      case Some(r) => response == Partial(plain[r.start..r.end + 1], r.start, r.end, |plain|, contentType)
  }

  lemma LimitIsMaxRange(contentType: string)
    ensures GetRangeMaxSize(contentType) == MaxRange(contentType)
  {
  }

  lemma BlobSent(plain: Buffer, header: string, inBlob: Option<ByteRange>, inPlain: Option<ByteRange>,
                 contentType: string)
    requires header != "" && |plain| + 32 <= 52_428_800
    requires ParseRangeHeader(header, |plain| + 32) == inBlob && ParseRangeHeader(header, |plain|) == inPlain
    requires inPlain.Some? ==> inPlain.value.start <= inPlain.value.end < |plain|
    ensures BlobAnswersTo(SendDecrypted(plain, Some(header), 32 + |plain|, contentType), plain, inBlob, inPlain,
                          contentType)
  {
    LimitIsMaxRange(contentType);
  }

  lemma DecryptedAnswersSpec(plain: Buffer, header: string, spec: RangeSpec, contentType: string)
    requires plain != [] && header != "" && |plain| + 32 <= 52_428_800 && Asks(header, spec) && Representable(spec)
    ensures BlobAnswersSpec(SendDecrypted(plain, Some(header), 32 + |plain|, contentType), plain, spec, contentType)
  {
    ParsedIsSelected(header, |plain|);
    ParsedIsSelected(header, |plain| + 32);
    BlobSent(plain, header, Selected(spec, |plain| + 32), Selected(spec, |plain|), contentType);
  }

  lemma DecryptedRefused(plain: Buffer, header: string, contentType: string)
    requires plain != [] && header != "" && |plain| + 32 <= 52_428_800
    requires forall spec :: Asks(header, spec) ==> !Representable(spec)
    ensures SendDecrypted(plain, Some(header), 32 + |plain|, contentType) == RangeNotSatisfiable(|plain|)
  {
    ParsedIsSelected(header, |plain|);
    ParsedIsSelected(header, |plain| + 32);
  }

  lemma DecryptedAnswers(plain: Buffer, range: Option<string>, contentType: string)
    requires plain != []
    ensures BlobAnswers(SendDecrypted(plain, range, 32 + |plain|, contentType), plain, range, contentType)
  {
    if range.Some? && range.value != "" && |plain| + 32 <= 52_428_800 {
      forall spec | Asks(range.value, spec) && Representable(spec)
        ensures BlobAnswersSpec(SendDecrypted(plain, range, 32 + |plain|, contentType), plain, spec, contentType)
      {
        DecryptedAnswersSpec(plain, range.value, spec, contentType);
      }
      if forall spec :: Asks(range.value, spec) ==> !Representable(spec) {
        DecryptedRefused(plain, range.value, contentType);
      }
    }
  }
}
