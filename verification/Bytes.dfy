/** Bytes, fixed-width unsigned integers, their little-endian forms, and the result type shared by
    every operation of the package. */
module Bytes {

  type byte = x: int | 0 <= x < 0x100
  type uint16 = x: int | 0 <= x < 0x1_0000
  type uint32 = x: int | 0 <= x < 0x1_0000_0000
  type uint64 = x: int | 0 <= x < 0x1_0000_0000_0000_0000
  type int64 = x: int | -0x8000_0000_0000_0000 <= x <= MAX_INT64

  const MAX_INT64: int := 0x7FFF_FFFF_FFFF_FFFF

  /** What a file can hold: its size is an int64. */
  type FileContent = b: seq<byte> | |b| <= MAX_INT64

  /** Why an operation was refused. */
  datatype Error =
    | ReadFailed | WriteFailed
    | TooLarge | TooSmall | BadSignature | NotFormatted | NotHealthy
    | NotFound | BeyondFile | NoSpace
    | OddLength | Truncated | BadLength | EndNodeInPath | Unterminated
    | NoFreeSlot | BadAttributes | SignFailed | BadCertificate

  datatype Result<+T> = Ok(value: T) | Err(error: Error)

  /** Go's conversions to uint16 and uint32: the value modulo the width. */
  function Wrap16(n: int): (r: uint16)
    ensures 0 <= n < 0x1_0000 ==> r == n
  {
    n % 0x1_0000
  }

  function Wrap32(n: int): (r: uint32)
    ensures 0 <= n < 0x1_0000_0000 ==> r == n
  {
    n % 0x1_0000_0000
  }

  lemma WrapOnce(n: nat)
    requires n < 0x2_0000_0000
    ensures Wrap32(n) == if n < 0x1_0000_0000 then n else n - 0x1_0000_0000
  {
  }

  function Repeat(n: nat, x: byte): (b: seq<byte>)
    ensures |b| == n
    ensures forall i :: 0 <= i < n ==> b[i] == x
  {
    seq(n, _ => x)
  }

  function Le16(n: uint16): (b: seq<byte>)
    ensures |b| == 2
  {
    [n % 0x100, n / 0x100]
  }

  function Le32(n: uint32): (b: seq<byte>)
    ensures |b| == 4
  {
    Le16(n % 0x1_0000) + Le16(n / 0x1_0000)
  }

  function Le64(n: uint64): (b: seq<byte>)
    ensures |b| == 8
  {
    Le32(n % 0x1_0000_0000) + Le32(n / 0x1_0000_0000)
  }

  function U16At(b: seq<byte>, i: nat): uint16
    requires i + 2 <= |b|
  {
    var lo: int, hi: int := b[i], b[i + 1];
    lo + 0x100 * hi
  }

  function U32At(b: seq<byte>, i: nat): uint32
    requires i + 4 <= |b|
  {
    var lo: int, hi: int := U16At(b, i), U16At(b, i + 2);
    lo + 0x1_0000 * hi
  }

  /** The first byte is the least significant. */
  lemma LeastSignificantFirst(n: uint32)
    ensures Le32(n)[0] == n % 0x100 && Le32(n)[3] == n / 0x100_0000
    ensures U32At([0x78, 0x56, 0x34, 0x12], 0) == 0x1234_5678
  {
    assert n / 0x1_0000 / 0x100 == n / 0x100_0000;
  }

  /** Reading back a little-endian field gives the number that was written. */
  lemma ReadLe16(b: seq<byte>, i: nat, n: uint16)
    requires i + 2 <= |b| && b[i..i + 2] == Le16(n)
    ensures U16At(b, i) == n
  {
    assert b[i] == b[i..i + 2][0] && b[i + 1] == b[i..i + 2][1];
  }

  lemma ReadLe32(b: seq<byte>, i: nat, n: uint32)
    requires i + 4 <= |b| && b[i..i + 4] == Le32(n)
    ensures U32At(b, i) == n
  {
    assert b[i..i + 2] == b[i..i + 4][..2];
    assert b[i + 2..i + 4] == b[i..i + 4][2..];
    ReadLe16(b, i, n % 0x1_0000);
    ReadLe16(b, i + 2, n / 0x1_0000);
  }

  /** Rewriting the number a field holds reproduces its bytes. */
  lemma WriteU16(b: seq<byte>, i: nat)
    requires i + 2 <= |b|
    ensures Le16(U16At(b, i)) == b[i..i + 2]
  {
  }

  lemma WriteU32(b: seq<byte>, i: nat)
    requires i + 4 <= |b|
    ensures Le32(U32At(b, i)) == b[i..i + 4]
  {
    WriteU16(b, i);
    WriteU16(b, i + 2);
    var n := U32At(b, i);
    assert n % 0x1_0000 == U16At(b, i) && n / 0x1_0000 == U16At(b, i + 2);
    assert b[i..i + 4] == b[i..i + 2] + b[i + 2..i + 4];
  }

  /** `s` with the bytes at `i` overwritten by `b`. */
  function Splice(s: seq<byte>, i: nat, b: seq<byte>): (r: seq<byte>)
    requires i + |b| <= |s|
    ensures |r| == |s|
  {
    s[..i] + b + s[i + |b|..]
  }

  /** The in-place writers: Go's copy and binary.LittleEndian.Put*. */
  method CopyInto(a: array<byte>, i: nat, b: seq<byte>)
    requires i + |b| <= a.Length
    modifies a
    ensures a[..] == Splice(old(a[..]), i, b)
  {
    forall k | 0 <= k < |b| {
      a[i + k] := b[k];
    }
  }

  /** Writes `b` right after the part already filled in of a zeroed buffer, which it extends. */
  method PutNext(a: array<byte>, i: nat, b: seq<byte>, ghost filled: seq<byte>)
    requires i == |filled| && i + |b| <= a.Length
    requires a[..] == filled + Repeat(a.Length - i, 0)
    modifies a
    ensures a[..] == filled + b + Repeat(a.Length - i - |b|, 0)
  {
    CopyInto(a, i, b);
  }

  /** The same with `tail` behind the z zeros still to fill. */
  method PutField(a: array<byte>, i: nat, b: seq<byte>, ghost filled: seq<byte>, ghost z: nat, ghost tail: seq<byte>)
    requires i == |filled| && |b| <= z && a[..] == filled + Repeat(z, 0) + tail
    modifies a
    ensures a[..] == filled + b + Repeat(z - |b|, 0) + tail
  {
    assert a.Length == |filled| + z + |tail|;
    CopyInto(a, i, b);
  }

  /** Leaving k zeros in place extends the filled part too. */
  lemma SkipZeros(p: seq<byte>, n: nat, k: nat)
    requires k <= n
    ensures p + Repeat(n, 0) == p + Repeat(k, 0) + Repeat(n - k, 0)
  {
  }

  /** A slice of a slice, by absolute position. */
  lemma SubSlice<T>(s: seq<T>, off: nat, r: seq<T>, i: nat, j: nat)
    requires off + |r| <= |s| && s[off..off + |r|] == r && i <= j <= |r|
    ensures s[off + i..off + j] == r[i..j]
  {
    forall k | 0 <= k < j - i
      ensures s[off + i..off + j][k] == r[i..j][k]
    {
      assert r[i + k] == s[off..off + |r|][i + k];
    }
  }

  /** The middle part of a concatenation. */
  lemma Middle<T>(s: seq<T>, p: seq<T>, b: seq<T>, q: seq<T>)
    requires s == p + b + q
    ensures s[|p|..|p| + |b|] == b
  {
  }
}
