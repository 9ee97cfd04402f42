/** What the results assume of a cipher, of percent-encoding, of dates and of an order of ids can be had. */
module Assumptions {
  import opened Bytes
  import opened Aead
  import opened Text
  import E2 = Ebp2
  import W = Ebp2Whole
  import I = Ebp2Integrity
  import S = StorageKeys
  import F = Files
  import FR = ForwardRemap
  import K = Keyset

  // ---------------------------------------------------------------- ciphers

  const NO_TAG: Buffer := [0, 0, 0, 0, 0, 0, 0, 0, 0, 0, 0, 0, 0, 0, 0, 0]

  function PlainSeal(key: Buffer, iv: Buffer, aad: Buffer, plain: Buffer): Sealed {
    Sealed(NO_TAG, plain)
  }

  function PlainOpen(key: Buffer, iv: Buffer, aad: Buffer, s: Sealed): Option<Buffer> {
    Some(s.ciphertext)
  }

  /** There is a cipher that is correct, and under which no payload opens to two plaintexts. */
  lemma CorrectCipherExists(env: F.Env) returns (cipher: Cipher)
    ensures cipher.Correct()
    ensures forall payload :: FR.Unambiguous(env.(cipher := cipher), payload)
  {
    cipher := Cipher(PlainSeal, PlainOpen);
  }

  /** Opens what was sealed for the file, and nothing else. */
  ghost function LoggedOpen(file: I.SealedFile): (Buffer, Buffer, Buffer, Sealed) -> Option<Buffer> {
    (key: Buffer, iv: Buffer, aad: Buffer, s: Sealed) =>
      if exists i: nat :: I.SealedAs(file, i, aad, s.ciphertext) then Some(s.ciphertext) else None
  }

  /** Chunk i of the file, sealed with that nonce, opens to itself. */
  ghost predicate OwnChunkOpens(cipher: Cipher, key: Buffer, file: I.SealedFile, iv: Buffer, i: nat) {
    var ctx := E2.Context(cipher, key, file.objectKey, file.chunkSize, file.totalSize, E2.VERSION);
    var plain := E2.ChunkAt(file.data, file.chunkSize, i);
    var sealed := E2.SealChunk(ctx, i, iv, plain);
    |sealed| >= E2.CHUNK_OVERHEAD && W.OpenChunk(cipher, key, file.objectKey, W.HeaderOf(ctx), sealed, i) == Some(plain)
  }

  /** For every file there is an ideal cipher, under which the file's own chunks open. */
  lemma IdealCipherExists(key: Buffer, file: I.SealedFile) returns (cipher: Cipher)
    ensures I.Ideal(cipher, key, {file}, {}) && I.OnlyFileFor(file, {file}, {})
    ensures forall iv, i: nat :: |iv| == IV_LEN && InFile(file, i) ==> OwnChunkOpens(cipher, key, file, iv, i)
  {
    cipher := Cipher(PlainSeal, LoggedOpen(file));
    forall iv, i: nat | |iv| == IV_LEN && InFile(file, i)
      ensures OwnChunkOpens(cipher, key, file, iv, i)
    {
      LoggedChunkOpens(cipher, key, file, iv, i);
    }
  }

  predicate InFile(file: I.SealedFile, i: nat) {
    && 0 < file.chunkSize < E2.MAX_U32 && file.totalSize < E2.MAX_SAFE && i < E2.MAX_U32
    && E2.Pos(i, file.chunkSize) < |file.data|
  }

  lemma LoggedChunkOpens(cipher: Cipher, key: Buffer, file: I.SealedFile, iv: Buffer, i: nat)
    requires cipher == Cipher(PlainSeal, LoggedOpen(file)) && |iv| == IV_LEN && InFile(file, i)
    ensures OwnChunkOpens(cipher, key, file, iv, i)
  {
    var ctx := E2.Context(cipher, key, file.objectKey, file.chunkSize, file.totalSize, E2.VERSION);
    var plain := E2.ChunkAt(file.data, file.chunkSize, i);
    var c := E2.SealChunk(ctx, i, iv, plain);
    assert c == iv + NO_TAG + plain;
    assert c[28..] == plain;
    var aad := E2.Aad(file.objectKey, i, file.chunkSize, file.totalSize, E2.VERSION);
    assert I.SealedAs(file, i, aad, plain);
  }

  // ---------------------------------------------------------------- percent-encoding

  function Encode(s: string): string {
    if s == "" then ""
    else (if s[0] == '/' then "%2F" else if s[0] == '%' then "%25" else [s[0]]) + Encode(s[1..])
  }

  function Decode(s: string): Option<string> {
    if s == "" then Some("")
    else if s[0] != '%' then
      var rest := Decode(s[1..]);
      if rest.None? then None else Some([s[0]] + rest.value)
    else if |s| < 3 || s[1] != '2' || s[2] !in {'F', '5'} then None
    else
      var rest := Decode(s[3..]);
      if rest.None? then None else Some([if s[2] == 'F' then '/' else '%'] + rest.value)
  }

  lemma {:induction false} DecodeInverts(s: string)
    ensures Decode(Encode(s)) == Some(s) && '/' !in Encode(s) && (Encode(s) == "" <==> s == "")
  {
    if s != "" {
      DecodeInverts(s[1..]);
      var code := if s[0] == '/' then "%2F" else if s[0] == '%' then "%25" else [s[0]];
      assert (code + Encode(s[1..]))[|code|..] == Encode(s[1..]);
      assert [s[0]] + s[1..] == s;
    }
  }

  lemma CodecExists() returns (codec: S.UriCodec)
    ensures codec.Correct()
  {
    codec := S.UriCodec(Encode, Decode);
    forall s
      ensures Decode(Encode(s)) == Some(s) && '/' !in Encode(s) && (Encode(s) == "" <==> s == "")
    {
      DecodeInverts(s);
    }
  }

  // ---------------------------------------------------------------- dates and ids

  function Strokes(n: nat): (s: string)
    ensures |s| == n && '|' !in s
  {
    if n == 0 then "" else Strokes(n - 1) + "x"
  }

  function RenderInt(t: int): (s: string)
    ensures s != "" && '|' !in s && ReadInt(s) == Some(t)
  {
    if t < 0 then "-" + Strokes(-t) else "+" + Strokes(t)
  }

  function ReadInt(s: string): Option<int> {
    if s == "" then None else Some(if s[0] == '-' then 1 - |s| else |s| - 1)
  }

  lemma DatesExist() returns (dates: K.IsoDates)
    ensures dates.Correct()
  {
    dates := K.IsoDates(RenderInt, ReadInt);
  }

  /** The order of a dictionary. */
  predicate Less(a: string, b: string) {
    b != "" && (a == "" || a[0] < b[0] || (a[0] == b[0] && Less(a[1..], b[1..])))
  }

  lemma {:induction false} LessIsStrict(a: string)
    ensures !Less(a, a)
  {
    if a != "" {
      LessIsStrict(a[1..]);
    }
  }

  lemma {:induction false} LessIsTotal(a: string, b: string)
    requires a != b
    ensures Less(a, b) != Less(b, a)
  {
    if a != "" && b != "" && a[0] == b[0] {
      assert a == [a[0]] + a[1..] && b == [b[0]] + b[1..];
      LessIsTotal(a[1..], b[1..]);
    }
  }

  lemma {:induction false} LessIsTransitive(a: string, b: string, c: string)
    requires Less(a, b) && Less(b, c)
    ensures Less(a, c)
  {
    if a != "" && a[0] == b[0] == c[0] {
      LessIsTransitive(a[1..], b[1..], c[1..]);
    }
  }

  lemma CollationExists() returns (o: K.Collation)
    ensures o.Total()
  {
    o := K.Collation(Less);
    forall a
      ensures !Less(a, a)
    {
      LessIsStrict(a);
    }
    forall a, b | a != b
      ensures Less(a, b) != Less(b, a)
    {
      LessIsTotal(a, b);
    }
    forall a, b, c | Less(a, b) && Less(b, c)
      ensures Less(a, c)
    {
      LessIsTransitive(a, b, c);
    }
  }
}
