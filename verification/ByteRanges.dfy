/** `parseRangeHeader` (src/routes/files.ts) against the byte ranges of section 14.1.2 of RFC 9110. */
module ByteRanges {
  import opened Bytes
  import opened Aead
  import opened Text

  predicate IsDigit(c: char) {
    '0' <= c <= '9'
  }

  predicate AllDigits(s: string) {
    forall i :: 0 <= i < |s| ==> IsDigit(s[i])
  }

  function DigitValue(c: char): nat
    requires IsDigit(c)
  {
    c as int - '0' as int
  }

  /** `Number(digits)`, for the empty string 0. */
  function ToNat(s: string): nat
    requires AllDigits(s)
  {
    if s == "" then 0 else 10 * ToNat(s[..|s| - 1]) + DigitValue(s[|s| - 1])
  }

  function DigitChar(d: nat): (c: char)
    requires d < 10
    ensures IsDigit(c) && DigitValue(c) == d
  {
    "0123456789"[d]
  }

  /** `String(n)`. */
  function Decimal(n: nat): (s: string)
    ensures s != "" && AllDigits(s)
  {
    if n < 10 then [DigitChar(n)] else Decimal(n / 10) + [DigitChar(n % 10)]
  }

  lemma {:induction false} ToNatInvertsDecimal(n: nat)
    ensures ToNat(Decimal(n)) == n
  {
    var s := Decimal(n);
    if n < 10 {
      assert s[..|s| - 1] == "";
    } else {
      ToNatInvertsDecimal(n / 10);
      assert s[..|s| - 1] == Decimal(n / 10);
    }
  }

  function Pow2(n: nat): nat {
    if n == 0 then 1 else 2 * Pow2(n - 1)
  }

  /** `Number.isFinite` of a decimal: from 2^1024 - 2^970 on, the conversion yields Infinity. */
  predicate Finite(n: nat) {
    n + Pow2(970) < Pow2(1024)
  }

  function LowerAscii(s: string): (r: string)
    ensures |r| == |s|
  {
    if s == "" then ""
    else [if 'A' <= s[0] <= 'Z' then (s[0] as int + 32) as char else s[0]] + LowerAscii(s[1..])
  }

  lemma {:induction false} LowerUnchanged(s: string)
    requires forall i :: 0 <= i < |s| ==> !('A' <= s[i] <= 'Z')
    ensures LowerAscii(s) == s
  {
    if s != "" {
      LowerUnchanged(s[1..]);
      assert [s[0]] + s[1..] == s;
    }
  }

  /** The two capture groups of the single-range pattern. */
  function MatchRange(header: string): (m: Option<(string, string)>)
    ensures m.Some? ==> AllDigits(m.value.0) && AllDigits(m.value.1)
  {
    var t := Trim(header);
    if |t| < 6 || LowerAscii(t[..6]) != "bytes=" then None
    else
      var parts := Split(t[6..], '-');
      if |parts| == 2 && AllDigits(parts[0]) && AllDigits(parts[1]) then Some((parts[0], parts[1])) else None
  }

  datatype ByteRange = ByteRange(start: nat, end: nat)

  function LastByte(totalSize: nat): nat {
    if totalSize > 0 then totalSize - 1 else 0
  }

  /** The two captured numbers, either of them possibly missing. */
  function ParsePair(startStr: string, endStr: string, totalSize: nat): Option<ByteRange>
    requires AllDigits(startStr) && AllDigits(endStr)
  {
    if startStr == "" && endStr == "" then None
    else if startStr == "" then
      var suffixLen := ToNat(endStr);
      if !Finite(suffixLen) || suffixLen == 0 then None
      else Some(ByteRange(Max(0, totalSize - suffixLen), LastByte(totalSize)))
    else
      var start := ToNat(startStr);
      if !Finite(start) then None
      else if endStr != "" && (!Finite(ToNat(endStr)) || ToNat(endStr) < start) then None
      else if start >= totalSize then None
      else Some(ByteRange(start, if endStr == "" then LastByte(totalSize) else Min(LastByte(totalSize), ToNat(endStr))))
  }

  /** `if (rangeHeader)`: an empty header counts as none. */
  function Given(range: Option<string>): Option<string> {
    if range == Some("") then None else range
  }

  /** `parseRangeHeader`. */
  function ParseRangeHeader(header: string, totalSize: nat): Option<ByteRange> {
    var m := MatchRange(header);
    if m.None? then None else ParsePair(m.value.0, m.value.1, totalSize)
  }

  // ---------------------------------------------------------------- the standard

  /** int-range and suffix-range. */
  datatype RangeSpec =
    | FromTo(first: nat, last: nat)
    | From(first: nat)
    | Suffix(length: nat)

  /** The bytes selected by a satisfiable range; None for an invalid or unsatisfiable one. */
  function Selected(spec: RangeSpec, totalSize: nat): (r: Option<ByteRange>)
    ensures r.Some? ==> r.value.start <= r.value.end < totalSize
  {
    match spec
    case FromTo(first, last) =>
      if last < first || first >= totalSize then None else Some(ByteRange(first, Min(last, totalSize - 1)))
    case From(first) =>
      if first >= totalSize then None else Some(ByteRange(first, totalSize - 1))
    case Suffix(length) =>
      if length == 0 || totalSize == 0 then None else Some(ByteRange(Max(0, totalSize - length), totalSize - 1))
  }

  /** The byte at position p is one that the spec asks for, in an object of that size. */
  predicate AsksFor(spec: RangeSpec, totalSize: nat, p: nat) {
    p < totalSize
    && match spec
       case FromTo(first, last) => first <= p <= last
       case From(first) => first <= p
       case Suffix(length) => totalSize - p <= length
  }

  /** The selected bytes are all those asked for, and nothing is selected only when none is. */
  lemma SelectedAreAskedFor(spec: RangeSpec, totalSize: nat, p: nat)
    ensures match Selected(spec, totalSize) {
              case None => !AsksFor(spec, totalSize, p)
              case Some(r) => r.start <= p <= r.end <==> AsksFor(spec, totalSize, p)
            }
  {
  }

  function Field(spec: RangeSpec): (string, string) {
    match spec
    case FromTo(first, last) => (Decimal(first), Decimal(last))
    case From(first) => (Decimal(first), "")
    case Suffix(length) => ("", Decimal(length))
  }

  function Render(spec: RangeSpec): string {
    "bytes=" + Field(spec).0 + "-" + Field(spec).1
  }

  predicate Representable(spec: RangeSpec) {
    match spec
    case FromTo(first, last) => Finite(first) && Finite(last)
    case From(first) => Finite(first)
    case Suffix(length) => Finite(length)
  }

  lemma DigitsHaveNoDash(s: string)
    requires AllDigits(s)
    ensures '-' !in s
  {
  }

  lemma DigitsAreNotSpace(s: string, i: nat)
    requires AllDigits(s) && i < |s|
    ensures !IsSpace(s[i])
  {
  }

  lemma RenderedIsTrimmed(a: string, b: string)
    requires AllDigits(b)
    ensures Trim("bytes=" + a + "-" + b) == "bytes=" + a + "-" + b
  {
    var t := "bytes=" + a + "-" + b;
    if b != "" {
      DigitsAreNotSpace(b, |b| - 1);
      assert t[|t| - 1] == b[|b| - 1];
    } else {
      assert t[|t| - 1] == '-';
    }
    TrimTrimmed(t);
  }

  lemma MatchRendered(a: string, b: string)
    requires AllDigits(a) && AllDigits(b)
    ensures MatchRange("bytes=" + a + "-" + b) == Some((a, b))
  {
    var t := "bytes=" + a + "-" + b;
    RenderedIsTrimmed(a, b);
    assert t[..6] == "bytes=";
    LowerBytes();
    assert t[6..] == a + ['-'] + b;
    DigitsHaveNoDash(a);
    DigitsHaveNoDash(b);
    SplitWord(a, b, '-');
    SplitOneWord(b, '-');
  }

  lemma LowerBytes()
    ensures LowerAscii("bytes=") == "bytes="
  {
    LowerUnchanged("bytes=");
  }

  lemma ParseRendered(a: string, b: string, totalSize: nat)
    requires AllDigits(a) && AllDigits(b)
    ensures ParseRangeHeader("bytes=" + a + "-" + b, totalSize) == ParsePair(a, b, totalSize)
  {
    MatchRendered(a, b);
  }

  lemma PairFollowsStandard(spec: RangeSpec, totalSize: nat)
    requires Representable(spec)
    ensures ParsePair(Field(spec).0, Field(spec).1, totalSize) == Selected(spec, totalSize)
       <==> !(totalSize == 0 && spec.Suffix? && spec.length > 0)
  {
    match spec
    case FromTo(first, last) =>
      ToNatInvertsDecimal(first);
      ToNatInvertsDecimal(last);
    case From(first) =>
      ToNatInvertsDecimal(first);
    case Suffix(length) =>
      ToNatInvertsDecimal(length);
  }

  /**
   * The parser selects what the standard selects, for every range spec and every size, exactly
   * except for a non-empty suffix of an empty object, which it accepts.
   */
  lemma ParserFollowsStandard(spec: RangeSpec, totalSize: nat)
    requires Representable(spec)
    ensures ParseRangeHeader(Render(spec), totalSize) == Selected(spec, totalSize)
       <==> !(totalSize == 0 && spec.Suffix? && spec.length > 0)
  {
    ParseRendered(Field(spec).0, Field(spec).1, totalSize);
    PairFollowsStandard(spec, totalSize);
  }

  /** What is accepted lies inside a non-empty object. */
  lemma AcceptedRangeIsInside(header: string, totalSize: nat)
    requires totalSize > 0 && ParseRangeHeader(header, totalSize).Some?
    ensures var r := ParseRangeHeader(header, totalSize).value;
            r.start <= r.end < totalSize
  {
  }
}
