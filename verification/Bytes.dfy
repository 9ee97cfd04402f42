/** Octets, byte strings and the little-endian integers that the EBP2 header and AAD are made of. */
module Bytes {

  type byte = x: int | 0 <= x < 256

  type Buffer = seq<byte>

  function Min(a: int, b: int): int {
    if a <= b then a else b
  }

  function Max(a: int, b: int): int {
    if a <= b then b else a
  }

  /** `Buffer.concat`. */
  function Concat(parts: seq<Buffer>): Buffer {
    if parts == [] then [] else parts[0] + Concat(parts[1..])
  }

  lemma {:induction false} ConcatAppend(a: seq<Buffer>, b: seq<Buffer>)
    ensures Concat(a + b) == Concat(a) + Concat(b)
  {
    if a == [] {
      assert a + b == b;
    } else {
      assert (a + b)[1..] == a[1..] + b;
      ConcatAppend(a[1..], b);
    }
  }

  lemma ConcatSnoc(a: seq<Buffer>, b: Buffer)
    ensures Concat(a + [b]) == Concat(a) + b
  {
    ConcatAppend(a, [b]);
    assert Concat([b]) == b;
  }

  lemma ConcatTake(parts: seq<Buffer>, i: nat)
    requires i < |parts|
    ensures Concat(parts[..i + 1]) == Concat(parts[..i]) + parts[i]
  {
    assert parts[..i + 1] == parts[..i] + [parts[i]];
    ConcatSnoc(parts[..i], parts[i]);
  }

  function Pow256(width: nat): (p: nat)
    ensures p > 0
  {
    if width == 0 then 1 else 256 * Pow256(width - 1)
  }

  /** `writeUIntLE` of the given width, for a value that fits. */
  function UIntLE(width: nat, v: nat): (b: Buffer)
    ensures |b| == width
  {
    if width == 0 then [] else [v % 256] + UIntLE(width - 1, v / 256)
  }

  function ReadLE(b: Buffer): nat {
    if b == [] then 0 else b[0] + 256 * ReadLE(b[1..])
  }

  lemma {:induction false} ReadWriteLE(width: nat, v: nat)
    requires v < Pow256(width)
    ensures ReadLE(UIntLE(width, v)) == v
  {
    if width > 0 {
      ReadWriteLE(width - 1, v / 256);
      assert UIntLE(width, v)[1..] == UIntLE(width - 1, v / 256);
    }
  }

  lemma PowValues()
    ensures Pow256(4) == 0x1_0000_0000
    ensures Pow256(8) == 0x1_0000_0000_0000_0000
  {
    assert Pow256(4) == 256 * (256 * (256 * 256));
    assert Pow256(8) == 256 * (256 * (256 * (256 * Pow256(4))));
  }

  /** Two values of the same width that encode alike are equal. */
  lemma UIntLEInjective(width: nat, v: nat, w: nat)
    requires v < Pow256(width) && w < Pow256(width)
    requires UIntLE(width, v) == UIntLE(width, w)
    ensures v == w
  {
    ReadWriteLE(width, v);
    ReadWriteLE(width, w);
  }
}
