/** The chunked upload (src/routes/upload.ts): parts in any order, assembly, and storage as an EBP2 object. */
module Upload {
  import opened Bytes
  import opened Aead
  import opened ByteRanges
  import opened StorageKeys
  import opened Files
  import E2 = Ebp2

  const EBP2_SIZE_THRESHOLD := 50 * 1024 * 1024
  const CHUNK_UPLOAD_SIZE := 5 * 1024 * 1024

  datatype Manifest = Manifest(contentType: string, totalSize: nat, chunkSize: nat)
  {
    predicate Valid() {
      chunkSize > 0
    }

    function TotalParts(): nat
      requires Valid()
    {
      E2.ChunkCount(totalSize, chunkSize)
    }

    function ExpectedPartSize(partNumber: nat): int {
      Min(chunkSize, totalSize - E2.Pos(partNumber, chunkSize))
    }
  }

  datatype PutResult = Stored | OutOfRange | ChunkTooLarge | EmptyUpload | InvalidSize

  datatype CompleteResult = Parts(parts: seq<Buffer>) | MissingPart(n: nat) | InvalidPartSize(n: nat) | SizeMismatch

  /** One part request: its number and its body. */
  datatype Put = Put(partNumber: int, body: Buffer)

  /** The answer to a part request; it does not depend on what is stored. */
  function Verdict(m: Manifest, put: Put): PutResult
    requires m.Valid() && put.partNumber >= 0
  {
    if m.TotalParts() > 0 && put.partNumber >= m.TotalParts() then OutOfRange
    else if |put.body| > m.chunkSize then ChunkTooLarge
    else if m.TotalParts() == 0 then EmptyUpload
    else if |put.body| != m.ExpectedPartSize(put.partNumber) then InvalidSize
    else Stored
  }

  predicate Accepted(m: Manifest, put: Put)
    requires m.Valid()
  {
    put.partNumber >= 0 && Verdict(m, put) == Stored
  }

  /** The last accepted body of a part, whatever came before, in between and after. */
  function LastStored(m: Manifest, puts: seq<Put>, partNumber: nat): Option<Buffer>
    requires m.Valid()
  {
    if puts == [] then None
    else
      var last := puts[|puts| - 1];
      if last.partNumber == partNumber && Accepted(m, last) then Some(last.body)
      else LastStored(m, puts[..|puts| - 1], partNumber)
  }

  /** An upload session: its manifest and the part files on disk. */
  class Session {
    const manifest: Manifest
    var parts: map<nat, Buffer>
    ghost var history: seq<Put>

    ghost predicate Valid()
      reads this
    {
      && manifest.Valid()
      && forall n: nat {:trigger LastStored(manifest, history, n)} ::
           LastStored(manifest, history, n) == if n in parts then Some(parts[n]) else None
    }

    constructor (manifest: Manifest)
      requires manifest.Valid()
      ensures Valid() && this.manifest == manifest && history == [] && parts == map[]
    {
      this.manifest := manifest;
      parts := map[];
      history := [];
    }

    method PutPart(put: Put) returns (result: PutResult)
      requires Valid() && put.partNumber >= 0
      modifies this
      ensures Valid() && history == old(history) + [put]
      ensures result == Verdict(manifest, put)
      ensures parts == if result == Stored then old(parts)[put.partNumber := put.body] else old(parts)
    {
      history := history + [put];
      assert history[..|history| - 1] == old(history);
      var totalParts := manifest.TotalParts();
      if totalParts > 0 && put.partNumber >= totalParts {
        return OutOfRange;
      }
      if |put.body| > manifest.chunkSize {
        return ChunkTooLarge;
      }
      if totalParts == 0 {
        return EmptyUpload;
      }
      E2.PosIsProduct(put.partNumber, manifest.chunkSize);
      var remainingBytes := manifest.totalSize - put.partNumber * manifest.chunkSize;
      var expectedPartSize := Min(manifest.chunkSize, remainingBytes);
      if |put.body| != expectedPartSize {
        return InvalidSize;
      }
      parts := parts[put.partNumber := put.body];
      result := Stored;
    }

    /** The part checks of `/complete`, and the part files in order. */
    method Complete() returns (result: CompleteResult)
      requires Valid()
      ensures result == Assemble(manifest, parts)
    {
      var totalParts := manifest.TotalParts();
      var paths: seq<Buffer> := [];
      var assembledBytes := 0;
      for partNumber := 0 to totalParts
        invariant |paths| == partNumber
        invariant assembledBytes == |Concat(paths)|
        invariant Assemble(manifest, parts) == AssembleFrom(manifest, parts, paths)
      {
        if partNumber !in parts {
          return MissingPart(partNumber);
        }
        E2.PosIsProduct(partNumber, manifest.chunkSize);
        var remainingBytes := manifest.totalSize - partNumber * manifest.chunkSize;
        var expectedPartSize := Min(manifest.chunkSize, remainingBytes);
        if |parts[partNumber]| != expectedPartSize {
          return InvalidPartSize(partNumber);
        }
        assembledBytes := assembledBytes + |parts[partNumber]|;
        ConcatSnoc(paths, parts[partNumber]);
        paths := paths + [parts[partNumber]];
      }
      if assembledBytes != manifest.totalSize {
        return SizeMismatch;
      }
      result := Parts(paths);
    }
  }

  function Assemble(m: Manifest, parts: map<nat, Buffer>): CompleteResult
    requires m.Valid()
  {
    AssembleFrom(m, parts, [])
  }

  /** Assembly once the first |done| parts are in. */
  function AssembleFrom(m: Manifest, parts: map<nat, Buffer>, done: seq<Buffer>): CompleteResult
    requires m.Valid()
    decreases m.TotalParts() - |done|
  {
    var n := |done|;
    if n >= m.TotalParts() then
      if |Concat(done)| != m.totalSize then SizeMismatch else Parts(done)
    else if n !in parts then MissingPart(n)
    else if |parts[n]| != m.ExpectedPartSize(n) then InvalidPartSize(n)
    else AssembleFrom(m, parts, done + [parts[n]])
  }

  /** The file's i-th slice of upload-part size. */
  function SliceOfFile(file: Buffer, chunkSize: nat, i: nat): Buffer {
    E2.ChunkAt(file, chunkSize, i)
  }

  /** The sender's side of the bargain: the last accepted body of every part is the file's slice. */
  ghost predicate AllPartsSent(m: Manifest, puts: seq<Put>, file: Buffer)
    requires m.Valid()
  {
    forall i: nat {:trigger LastStored(m, puts, i)} ::
      i < m.TotalParts() ==> LastStored(m, puts, i) == Some(SliceOfFile(file, m.chunkSize, i))
  }

  /** The first n slices, one after the other, are the file up to slice n. */
  function Slices(file: Buffer, chunkSize: nat, n: nat): seq<Buffer> {
    if n == 0 then [] else Slices(file, chunkSize, n - 1) + [SliceOfFile(file, chunkSize, n - 1)]
  }

  lemma {:induction false} ConcatSlices(file: Buffer, chunkSize: nat, n: nat)
    ensures |Slices(file, chunkSize, n)| == n
    ensures Concat(Slices(file, chunkSize, n)) == file[..Min(|file|, E2.Pos(n, chunkSize))]
  {
    if n > 0 {
      ConcatSlices(file, chunkSize, n - 1);
      ConcatSnoc(Slices(file, chunkSize, n - 1), SliceOfFile(file, chunkSize, n - 1));
    }
  }

  lemma SliceLength(m: Manifest, file: Buffer, i: nat)
    requires m.Valid() && |file| == m.totalSize && i < m.TotalParts()
    ensures |SliceOfFile(file, m.chunkSize, i)| == m.ExpectedPartSize(i)
  {
    E2.ChunkCountBounds(m.totalSize, m.chunkSize, i);
  }

  lemma {:induction false} AssembleSlices(m: Manifest, parts: map<nat, Buffer>, file: Buffer, n: nat)
    requires m.Valid() && |file| == m.totalSize && n <= m.TotalParts()
    requires forall i: nat :: i < m.TotalParts() ==> i in parts && parts[i] == SliceOfFile(file, m.chunkSize, i)
    ensures AssembleFrom(m, parts, Slices(file, m.chunkSize, n)) == Parts(Slices(file, m.chunkSize, m.TotalParts()))
    decreases m.TotalParts() - n
  {
    ConcatSlices(file, m.chunkSize, n);
    if n == m.TotalParts() {
      E2.ChunkCountBounds(m.totalSize, m.chunkSize, n);
    } else {
      SliceLength(m, file, n);
      AssembleSlices(m, parts, file, n + 1);
    }
  }

  /** In whatever order and however often parts were sent, a completed upload assembles to the file. */
  method Upload(m: Manifest, puts: seq<Put>, ghost file: Buffer) returns (result: CompleteResult)
    requires m.Valid() && |file| == m.totalSize
    requires forall i :: 0 <= i < |puts| ==> puts[i].partNumber >= 0
    ensures AllPartsSent(m, puts, file) ==> result.Parts? && Concat(result.parts) == file
  {
    var session := new Session(m);
    for i := 0 to |puts|
      invariant session.Valid() && session.manifest == m && session.history == puts[..i]
    {
      var _ := session.PutPart(puts[i]);
      assert puts[..i + 1] == puts[..i] + [puts[i]];
    }
    assert puts[..|puts|] == puts;
    result := session.Complete();
    if AllPartsSent(m, puts, file) {
      forall i: nat | i < m.TotalParts()
        ensures i in session.parts && session.parts[i] == SliceOfFile(file, m.chunkSize, i)
      {
        assert LastStored(m, puts, i).Some?;
      }
      AssembleSlices(m, session.parts, file, 0);
      ConcatSlices(file, m.chunkSize, m.TotalParts());
      E2.ChunkCountBounds(m.totalSize, m.chunkSize, m.TotalParts());
      assert file[..|file|] == file;
    }
  }
}
