/** Fresh stores: the raw layout, and the FV-wrapped layout with its zero-sum header checksum (UEFI PI
    Specification, Volume 3, section 3.2.1). */
module Format {
  import opened Bytes
  import opened VariableRecord
  import opened VariableRegion
  import opened StoreImage
  import opened StoreMachine
  import opened VariableStore

  function StoreHeader(signature: Guid, size: uint32): (b: seq<byte>)
    ensures |b| == STORE_HEADER_SIZE
  {
    signature + Le32(size) + [STORE_FORMATTED, STORE_HEALTHY] + Repeat(6, 0)
  }

  function EmptyStore(size: nat): (b: seq<byte>)
    requires STORE_HEADER_SIZE <= size < 0x1_0000_0000
    ensures |b| == size
  {
    StoreHeader(EFI_VARIABLE_GUID, size) + Repeat(size - STORE_HEADER_SIZE, ERASED)
  }

  datatype Flavor = X86_64 | AArch64

  datatype Geometry = Geometry(fvLength: nat, storeSize: nat, numBlocks: nat, blockLen: nat)

  const ARM_FV_SIZE := 0xC_0000
  const ARM_STORE_SIZE := 0x4_0000

  /** Smallest file FormatOVMF accepts: 104 bytes, or 768 KiB for AArch64. */
  function MinSize(flavor: Flavor): (n: nat)
    ensures n == match flavor case X86_64 => 104 case AArch64 => 768 * 1024
  {
    if flavor.AArch64? then ARM_FV_SIZE else FV_HEADER_SIZE + STORE_HEADER_SIZE + 4
  }

  function GeometryOf(size: nat, flavor: Flavor): (g: Geometry)
    requires MinSize(flavor) <= size
    ensures g.numBlocks * g.blockLen == size
    ensures FV_HEADER_SIZE + g.storeSize <= g.fvLength <= size && g.numBlocks <= size && g.blockLen <= size
  {
    var unit := if flavor.AArch64? then 0x4_0000 else 0x1000;
    var blocks := if size % unit == 0 then size / unit else 1;
    var length := if size % unit == 0 then unit else size;
    if flavor.AArch64? then Geometry(ARM_FV_SIZE, ARM_STORE_SIZE - FV_HEADER_SIZE, blocks, length)
    else Geometry(size, size - FV_HEADER_SIZE, blocks, length)
  }

  /** The two geometries. On x86_64 the volume is the file and the store fills it; on AArch64 they are fixed,
      whatever the size of the file. Blocks are of 4 KiB and 256 KiB, or the file is one block. */
  lemma GeometryIsExact(size: nat, flavor: Flavor)
    requires MinSize(flavor) <= size
    ensures var g, unit := GeometryOf(size, flavor), if flavor.AArch64? then 256 * 1024 else 4096;
            && g.fvLength == (if flavor.AArch64? then 768 * 1024 else size)
            && g.storeSize == (if flavor.AArch64? then 256 * 1024 - 72 else size - 72)
            && (g.blockLen == if g.numBlocks * unit == size then unit else size)
            && (g.numBlocks * unit == size <==> size % unit == 0)
            && (g.numBlocks == if size % unit == 0 then size / unit else 1)
  {
  }

  /** EFI_FIRMWARE_VOLUME_HEADER with one block map entry, before and after the checksum word. */
  function FvHead(fvLength: uint64): (b: seq<byte>)
    ensures |b| == 0x32
  {
    Repeat(16, 0) + EFI_SYSTEM_NV_DATA_FV_GUID + Le64(fvLength) + Le32(FV_SIGNATURE) + Le32(0xE36) + Le16(0x48)
  }

  function FvTail(numBlocks: uint32, blockLen: uint32): (b: seq<byte>)
    ensures |b| == 0x48 - 0x34
  {
    Le16(0) + [0, 2] + Le32(numBlocks) + Le32(blockLen) + Repeat(8, 0)
  }

  function FvHeader(g: Geometry, checksum: uint16): (b: seq<byte>)
    requires g.fvLength < 0x1_0000_0000_0000_0000 && g.numBlocks < 0x1_0000_0000 && g.blockLen < 0x1_0000_0000
    ensures |b| == FV_HEADER_SIZE
  {
    FvHead(g.fvLength) + Le16(checksum) + FvTail(g.numBlocks, g.blockLen)
  }

  /** The sum of the first n little-endian words. */
  function WordSum(b: seq<byte>, n: nat): nat
    requires 2 * n <= |b|
  {
    if n == 0 then 0 else WordSum(b, n - 1) + U16At(b, 2 * (n - 1))
  }

  function Checksum(g: Geometry): uint16
    requires g.fvLength < 0x1_0000_0000 && g.numBlocks < 0x1_0000_0000 && g.blockLen < 0x1_0000_0000
  {
    Wrap16(0 - WordSum(FvHeader(g, 0), FV_HEADER_SIZE / 2))
  }

  function OvmfStore(size: nat, flavor: Flavor): (b: seq<byte>)
    requires MinSize(flavor) <= size < 0x1_0000_0000
    ensures |b| == size
  {
    var g := GeometryOf(size, flavor);
    FvHeader(g, Checksum(g)) + StoreHeader(EFI_AUTHENTICATED_VARIABLE_GUID, g.storeSize)
    + Repeat(size - FV_HEADER_SIZE - STORE_HEADER_SIZE, ERASED)
  }

  /** Changing one word changes the sum by that word. */
  lemma {:induction false} WordSumOfSplit(p: seq<byte>, w: uint16, q: seq<byte>, n: nat)
    requires |p| % 2 == 0 && 2 * n <= |p| + 2 + |q|
    ensures WordSum(p + Le16(w) + q, n) == WordSum(p + Le16(0) + q, n) + if 2 * n > |p| then w else 0
  {
    if n > 0 {
      WordSumOfSplit(p, w, q, n - 1);
      var a, b, i := p + Le16(w) + q, p + Le16(0) + q, 2 * (n - 1);
      if i == |p| {
        ReadLe16(a, i, w);
        ReadLe16(b, i, 0);
      } else {
        assert a[i] == b[i] && a[i + 1] == b[i + 1];
      }
    }
  }

  /** The 36 words of the header sum to zero modulo 2^16. */
  lemma HeaderSumsToZero(g: Geometry)
    requires g.fvLength < 0x1_0000_0000 && g.numBlocks < 0x1_0000_0000 && g.blockLen < 0x1_0000_0000
    ensures WordSum(FvHeader(g, Checksum(g)), FV_HEADER_SIZE / 2) % 0x1_0000 == 0
  {
    hide FvHead, FvTail, WordSum;
    var p, q := FvHead(g.fvLength), FvTail(g.numBlocks, g.blockLen);
    WordSumOfSplit(p, Checksum(g), q, FV_HEADER_SIZE / 2);
    NegationCancels(WordSum(FvHeader(g, 0), FV_HEADER_SIZE / 2));
  }

  lemma NegationCancels(n: int)
    ensures (n + Wrap16(0 - n)) % 0x1_0000 == 0
  {
  }

  lemma ReadStoreHeader(b: seq<byte>, off: nat, signature: Guid, size: uint32)
    requires off + STORE_HEADER_SIZE <= |b| && b[off..off + STORE_HEADER_SIZE] == StoreHeader(signature, size)
    ensures b[off..off + 16] == signature && U32At(b, off + 16) == size
    ensures b[off + 20] == 0x5A && b[off + 21] == 0xFE && b[off + 22..off + 28] == Repeat(6, 0)
  {
    hide U32At, Le32;
    var h := StoreHeader(signature, size);
    SubSlice(b, off, h, 0, 16);
    assert h[16..20] == Le32(size);
    SubSlice(b, off, h, 16, 20);
    ReadLe32(b, off + 16, size);
    assert h[22..28] == Repeat(6, 0);
    SubSlice(b, off, h, 22, 28);
    assert b[off + 20] == b[off..off + STORE_HEADER_SIZE][20] && b[off + 21] == b[off..off + STORE_HEADER_SIZE][21];
  }

  lemma WalkErased(b: seq<byte>, off: nat, end: nat, auth: bool)
    requires end <= |b| && forall i :: off <= i < end ==> b[i] == ERASED
    ensures Walk(b, off, end, auth) == []
  {
    hide RecordAt;
    ErasedStops(b, off, end, auth);
  }

  /** Every byte of a fresh raw file. */
  lemma EmptyStoreFields(size: nat)
    requires STORE_HEADER_SIZE <= size < 0x1_0000_0000
    ensures var b := EmptyStore(size);
            && b[0..16] == EFI_VARIABLE_GUID && U32At(b, 16) == size && b[20] == 0x5A && b[21] == 0xFE
            && b[22..28] == Repeat(6, 0) && forall i :: 28 <= i < size ==> b[i] == 0xFF
  {
    hide U32At, StoreHeader;
    var b := EmptyStore(size);
    assert b[0..STORE_HEADER_SIZE] == StoreHeader(EFI_VARIABLE_GUID, size);
    ReadStoreHeader(b, 0, EFI_VARIABLE_GUID, size);
  }

  /** A raw store opens raw, unauthenticated, at offset 0, with its whole size and no variables. */
  lemma EmptyStoreOpens(size: nat, limits: Limits)
    requires STORE_HEADER_SIZE <= size < 0x1_0000_0000 && limits.Admits(size)
    ensures Open(EmptyStore(size), limits) == Ok(Opened(limits, Layout(false, false, 0, size), []))
  {
    hide U32At, Walk, EmptyStore;
    var b := EmptyStore(size);
    EmptyStoreFields(size);
    assert !FvWrapped(b) by {
      if size >= FV_HEADER_SIZE {
        assert b[16..32][4] == b[20] != EFI_SYSTEM_NV_DATA_FV_GUID[4];
      }
    }
    assert EFI_VARIABLE_GUID[0] != EFI_AUTHENTICATED_VARIABLE_GUID[0];
    WalkErased(b, STORE_HEADER_SIZE, size, false);
  }

  lemma FvHeadFields(b: seq<byte>, fvLength: uint64)
    requires |b| >= 0x32 && b[0..0x32] == FvHead(fvLength)
    ensures b[..16] == Repeat(16, 0) && b[16..32] == EFI_SYSTEM_NV_DATA_FV_GUID
    ensures U32At(b, 32) == fvLength % 0x1_0000_0000 && U32At(b, 36) == fvLength / 0x1_0000_0000
    ensures b[40..44] == [0x5F, 0x46, 0x56, 0x48] && U32At(b, 40) == FV_SIGNATURE
    ensures U32At(b, 44) == 0xE36 && U16At(b, 48) == 0x48
  {
    hide U32At, U16At, Le16;
    var h := FvHead(fvLength);
    assert h[0..16] == Repeat(16, 0) && h[16..32] == EFI_SYSTEM_NV_DATA_FV_GUID;
    assert h[32..40] == Le64(fvLength) && h[40..44] == Le32(FV_SIGNATURE) && h[44..48] == Le32(0xE36);
    assert h[32..36] == Le64(fvLength)[0..4] && h[36..40] == Le64(fvLength)[4..8] && h[48..50] == Le16(0x48);
    HalvesOfLe64(fvLength);
    SubSlice(b, 0, h, 0, 16);
    SubSlice(b, 0, h, 16, 32);
    SubSlice(b, 0, h, 32, 36);
    SubSlice(b, 0, h, 36, 40);
    SubSlice(b, 0, h, 40, 44);
    SubSlice(b, 0, h, 44, 48);
    SubSlice(b, 0, h, 48, 50);
    ReadLe32(b, 32, fvLength % 0x1_0000_0000);
    ReadLe32(b, 36, fvLength / 0x1_0000_0000);
    ReadLe32(b, 40, FV_SIGNATURE);
    ReadLe32(b, 44, 0xE36);
    ReadLe16(b, 48, 0x48);
    SignatureBytes();
  }

  lemma HalvesOfLe64(n: uint64)
    ensures Le64(n)[0..4] == Le32(n % 0x1_0000_0000) && Le64(n)[4..8] == Le32(n / 0x1_0000_0000)
  {
    hide Le32;
  }

  lemma SignatureBytes()
    ensures Le32(FV_SIGNATURE) == [0x5F, 0x46, 0x56, 0x48]
  {
  }

  lemma FvTailFields(b: seq<byte>, numBlocks: uint32, blockLen: uint32)
    requires |b| >= FV_HEADER_SIZE && b[0x34..0x34 + 20] == FvTail(numBlocks, blockLen)
    ensures b[0x34..0x38] == [0, 0, 0, 2]
    ensures U32At(b, 0x38) == numBlocks && U32At(b, 0x3C) == blockLen && b[0x40..0x48] == Repeat(8, 0)
  {
    hide U32At, Le32;
    var t := FvTail(numBlocks, blockLen);
    assert t[0..4] == [0, 0, 0, 2] && t[4..8] == Le32(numBlocks) && t[8..12] == Le32(blockLen);
    assert t[12..20] == Repeat(8, 0);
    SubSlice(b, 0x34, t, 0, 4);
    SubSlice(b, 0x34, t, 4, 8);
    SubSlice(b, 0x34, t, 8, 12);
    SubSlice(b, 0x34, t, 12, 20);
    ReadLe32(b, 0x38, numBlocks);
    ReadLe32(b, 0x3C, blockLen);
  }

  /** Every byte of a fresh OVMF file but the checksum word, and what fixes that: the words of the header
      sum to zero. */
  lemma OvmfStoreFields(size: nat, flavor: Flavor)
    requires MinSize(flavor) <= size < 0x1_0000_0000
    ensures var b, arm := OvmfStore(size, flavor), flavor.AArch64?;
            var unit := if arm then 0x4_0000 else 0x1000;
            && b[..16] == Repeat(16, 0) && b[16..32] == EFI_SYSTEM_NV_DATA_FV_GUID
            && U32At(b, 32) == (if arm then 0xC_0000 else size) && U32At(b, 36) == 0
            && b[40..44] == [0x5F, 0x46, 0x56, 0x48] && U32At(b, 44) == 0xE36 && U16At(b, 48) == 0x48
            && WordSum(b, 36) % 0x1_0000 == 0 && b[52..56] == [0, 0, 0, 2]
            && U32At(b, 56) == (if size % unit == 0 then size / unit else 1)
            && U32At(b, 60) == (if size % unit == 0 then unit else size)
            && b[64..72] == Repeat(8, 0) && b[72..88] == EFI_AUTHENTICATED_VARIABLE_GUID
            && U32At(b, 88) == (if arm then 0x3_FFB8 else size - 72)
            && b[92] == 0x5A && b[93] == 0xFE && b[94..100] == Repeat(6, 0)
            && forall i :: 100 <= i < size ==> b[i] == 0xFF
  {
    hide U32At, U16At, StoreHeader, FvHead, FvTail, Checksum, GeometryOf, WordSum, FvHeader;
    var b, g := OvmfStore(size, flavor), GeometryOf(size, flavor);
    GeometryIsExact(size, flavor);
    OvmfStoreParts(size, flavor);
    FvHeadFields(b, g.fvLength);
    FvTailFields(b, g.numBlocks, g.blockLen);
    ReadStoreHeader(b, FV_HEADER_SIZE, EFI_AUTHENTICATED_VARIABLE_GUID, g.storeSize);
    HeaderSumsToZero(g);
    SumOfPrefix(b, FvHeader(g, Checksum(g)), 36);
  }

  lemma OvmfStoreParts(size: nat, flavor: Flavor)
    requires MinSize(flavor) <= size < 0x1_0000_0000
    ensures var b, g := OvmfStore(size, flavor), GeometryOf(size, flavor);
            && b[0..0x32] == FvHead(g.fvLength) && b[0x34..0x34 + 20] == FvTail(g.numBlocks, g.blockLen)
            && b[..FV_HEADER_SIZE] == FvHeader(g, Checksum(g))
            && b[FV_HEADER_SIZE..FV_HEADER_SIZE + STORE_HEADER_SIZE]
               == StoreHeader(EFI_AUTHENTICATED_VARIABLE_GUID, g.storeSize)
            && forall i :: FV_HEADER_SIZE + STORE_HEADER_SIZE <= i < size ==> b[i] == ERASED
  {
    hide StoreHeader, FvHead, FvTail, Checksum, GeometryOf, Le16;
    var b, g := OvmfStore(size, flavor), GeometryOf(size, flavor);
    var h := FvHeader(g, Checksum(g));
    assert b[0..FV_HEADER_SIZE] == h;
    assert h[0..0x32] == FvHead(g.fvLength) && h[0x34..0x48] == FvTail(g.numBlocks, g.blockLen);
    SubSlice(b, 0, h, 0, 0x32);
    SubSlice(b, 0, h, 0x34, 0x48);
  }

  /** An OVMF store opens FV-wrapped, authenticated, at offset 72, with its flavour's size and no
      variables. */
  lemma OvmfStoreOpens(size: nat, flavor: Flavor, limits: Limits)
    requires MinSize(flavor) <= size < 0x1_0000_0000 && limits.Admits(size)
    ensures Open(OvmfStore(size, flavor), limits)
            == Ok(Opened(limits, Layout(true, true, 72, if flavor.AArch64? then 0x3_FFB8 else size - 72), []))
  {
    hide U32At, U16At, Walk, WordSum, OvmfStore;
    var b := OvmfStore(size, flavor);
    OvmfStoreFields(size, flavor);
    ReadSignature(b);
    WalkErased(b, 100, 72 + if flavor.AArch64? then 0x3_FFB8 else size - 72, true);
  }

  /** makeEmptyStore. */
  method MakeEmptyStore(size: nat) returns (b: seq<byte>)
    requires STORE_HEADER_SIZE <= size < 0x1_0000_0000
    ensures b == EmptyStore(size)
  {
    hide Le32;
    var buf := new byte[size](_ => 0);
    FillErased(buf, STORE_HEADER_SIZE);
    ghost var tail := Repeat(size - STORE_HEADER_SIZE, ERASED);
    assert buf[..] == [] + Repeat(28, 0) + tail;
    PutField(buf, 0, EFI_VARIABLE_GUID, [], 28, tail);
    ghost var p := [] + EFI_VARIABLE_GUID;
    PutField(buf, 16, Le32(Wrap32(size)), p, 12, tail);
    p := p + Le32(size);
    PutField(buf, 20, [STORE_FORMATTED, STORE_HEALTHY], p, 8, tail);
    b := buf[..];
    assert [] + EFI_VARIABLE_GUID == EFI_VARIABLE_GUID;
  }

  /** The erased-flash loops. */
  method FillErased(buf: array<byte>, from: nat)
    requires from <= buf.Length
    modifies buf
    ensures buf[..] == old(buf[..from]) + Repeat(buf.Length - from, ERASED)
  {
    for i := from to buf.Length
      invariant buf[..from] == old(buf[..from])
      invariant forall k :: from <= k < i ==> buf[k] == ERASED
    {
      buf[i] := ERASED;
    }
    assert buf[from..] == Repeat(buf.Length - from, ERASED);
  }

  /** makeEmptyOVMFStore: header fields in place, then the checksum over them, then the store header. */
  method MakeEmptyOvmfStore(size: nat, flavor: Flavor) returns (b: seq<byte>)
    requires MinSize(flavor) <= size < 0x1_0000_0000
    ensures b == OvmfStore(size, flavor)
  {
    hide Le16, GeometryOf, WordSum, Checksum, FvHead, FvTail, StoreHeader, Wrap16;
    var g := GeometryOf(size, flavor);
    var buf := new byte[size](_ => 0);
    FillErased(buf, FV_HEADER_SIZE + STORE_HEADER_SIZE);
    ghost var tail := Repeat(size - FV_HEADER_SIZE - STORE_HEADER_SIZE, ERASED);
    assert buf[..] == Repeat(100, 0) + tail;
    PutFvHeader(buf, g, tail);
    var sum := SumHeader(buf);
    ghost var rest := Repeat(28, 0) + tail;
    assert buf[..] == FvHeader(g, 0) + rest;
    ChecksumFromSum(buf[..], g, sum);
    var checksum := Wrap16(0 - sum);
    CopyInto(buf, 0x32, Le16(checksum));
    ReplaceChecksum(g, checksum, rest);
    assert buf[..] == FvHeader(g, checksum) + Repeat(28, 0) + tail;
    PutStoreHeader(buf, FvHeader(g, checksum), g.storeSize, tail);
    b := buf[..];
  }

  lemma ChecksumFromSum(b: seq<byte>, g: Geometry, sum: int)
    requires g.fvLength < 0x1_0000_0000 && g.numBlocks < 0x1_0000_0000 && g.blockLen < 0x1_0000_0000
    requires |b| >= FV_HEADER_SIZE && b[..FV_HEADER_SIZE] == FvHeader(g, 0)
    requires sum == WordSum(b, FV_HEADER_SIZE / 2) % 0x1_0000
    ensures Wrap16(0 - sum) == Checksum(g)
  {
    hide WordSum, FvHeader, Wrap16;
    SumOfPrefix(b, FvHeader(g, 0), FV_HEADER_SIZE / 2);
    NegatedSum(WordSum(b, FV_HEADER_SIZE / 2));
  }

  lemma NegatedSum(n: nat)
    ensures Wrap16(0 - n % 0x1_0000) == Wrap16(0 - n)
  {
    var q, r := n / 0x1_0000, n % 0x1_0000;
    assert n == 0x1_0000 * q + r;
    if r == 0 {
      assert 0 - n == 0x1_0000 * (0 - q);
    } else {
      assert 0 - n == 0x1_0000 * (0 - q - 1) + (0x1_0000 - r);
    }
  }

  lemma ReplaceChecksum(g: Geometry, checksum: uint16, rest: seq<byte>)
    requires g.fvLength < 0x1_0000_0000 && g.numBlocks < 0x1_0000_0000 && g.blockLen < 0x1_0000_0000
    ensures Splice(FvHeader(g, 0) + rest, 0x32, Le16(checksum)) == FvHeader(g, checksum) + rest
  {
    hide FvHead, FvTail, Le16;
  }

  lemma {:induction false} SumOfPrefix(b: seq<byte>, h: seq<byte>, n: nat)
    requires 2 * n <= |h| <= |b| && b[..|h|] == h
    ensures WordSum(b, n) == WordSum(h, n)
  {
    if n > 0 {
      SumOfPrefix(b, h, n - 1);
      var i := 2 * (n - 1);
      assert h[i] == b[i] && h[i + 1] == b[i + 1];
    }
  }

  method PutFvHeader(buf: array<byte>, g: Geometry, ghost tail: seq<byte>)
    requires g.fvLength < 0x1_0000_0000 && g.numBlocks < 0x1_0000_0000 && g.blockLen < 0x1_0000_0000
    requires buf[..] == Repeat(100, 0) + tail
    modifies buf
    ensures buf[..] == FvHeader(g, 0) + Repeat(28, 0) + tail
  {
    hide Le16, Le32, Le64;
    ghost var p := Repeat(16, 0);
    assert buf[..] == p + Repeat(84, 0) + tail;
    PutField(buf, 0x10, EFI_SYSTEM_NV_DATA_FV_GUID, p, 84, tail);
    p := p + EFI_SYSTEM_NV_DATA_FV_GUID;
    PutField(buf, 0x20, Le64(g.fvLength), p, 68, tail);
    p := p + Le64(g.fvLength);
    PutField(buf, 0x28, Le32(FV_SIGNATURE), p, 60, tail);
    p := p + Le32(FV_SIGNATURE);
    PutField(buf, 0x2C, Le32(0xE36), p, 56, tail);
    p := p + Le32(0xE36);
    PutField(buf, 0x30, Le16(0x48), p, 52, tail);
    p := p + Le16(0x48);
    assert p == FvHead(g.fvLength);
    assert Le16(0) == Repeat(2, 0) by { ZeroWord(); }
    PutFvTail(buf, g, p, tail);
  }

  lemma ZeroWord()
    ensures Le16(0) == Repeat(2, 0)
  {
  }

  method PutFvTail(buf: array<byte>, g: Geometry, ghost head: seq<byte>, ghost tail: seq<byte>)
    requires g.numBlocks < 0x1_0000_0000 && g.blockLen < 0x1_0000_0000 && |head| == 0x32
    requires buf[..] == head + Repeat(50, 0) + tail
    modifies buf
    ensures buf[..] == head + Le16(0) + FvTail(g.numBlocks, g.blockLen) + Repeat(28, 0) + tail
  {
    hide Le32;
    ghost var p := head + Le16(0);
    assert buf[..] == p + Repeat(48, 0) + tail;
    PutField(buf, 0x34, Le16(0) + [0, 2], p, 48, tail);
    ghost var q := Le16(0) + [0, 2];
    PutField(buf, 0x38, Le32(g.numBlocks), p + q, 44, tail);
    PutField(buf, 0x3C, Le32(g.blockLen), p + q + Le32(g.numBlocks), 40, tail);
    ghost var t := q + Le32(g.numBlocks) + Le32(g.blockLen);
    assert buf[..] == p + q + Le32(g.numBlocks) + Le32(g.blockLen) + Repeat(36, 0) + tail;
    assert p + q + Le32(g.numBlocks) + Le32(g.blockLen) == p + t;
    assert p + t + Repeat(36, 0) == p + (t + Repeat(8, 0)) + Repeat(28, 0);
  }

  method PutStoreHeader(buf: array<byte>, ghost p: seq<byte>, size: uint32, ghost tail: seq<byte>)
    requires |p| == FV_HEADER_SIZE && buf[..] == p + Repeat(28, 0) + tail
    modifies buf
    ensures buf[..] == p + StoreHeader(EFI_AUTHENTICATED_VARIABLE_GUID, size) + tail
  {
    hide Le32;
    ghost var s := EFI_AUTHENTICATED_VARIABLE_GUID;
    PutField(buf, 72, EFI_AUTHENTICATED_VARIABLE_GUID, p, 28, tail);
    PutField(buf, 88, Le32(size), p + s, 12, tail);
    PutField(buf, 92, [STORE_FORMATTED, STORE_HEALTHY], p + s + Le32(size), 8, tail);
    assert p + s + Le32(size) + [STORE_FORMATTED, STORE_HEALTHY] + Repeat(6, 0) == p + StoreHeader(s, size);
  }

  /** The checksum loop, summing in 16 bits. */
  method SumHeader(buf: array<byte>) returns (sum: int)
    requires buf.Length >= FV_HEADER_SIZE
    ensures sum == WordSum(buf[..], FV_HEADER_SIZE / 2) % 0x1_0000
  {
    hide U16At;
    sum := 0;
    var i := 0;
    while i < FV_HEADER_SIZE
      invariant 0 <= i <= FV_HEADER_SIZE && i % 2 == 0
      invariant sum == WordSum(buf[..], i / 2) % 0x1_0000
    {
      var word := U16At(buf[..], i);
      AddWraps(WordSum(buf[..], i / 2), word);
      sum := Wrap16(sum + word);
      i := i + 2;
    }
  }

  lemma AddWraps(n: nat, w: nat)
    ensures Wrap16(n % 0x1_0000 + w) == (n + w) % 0x1_0000
  {
  }

  /** Format: refuses sizes out of range, writes an empty raw store and opens it. */
  method FormatRaw(disk: Disk, size: int, io: Io, openIo: Io) returns (r: Result<Store>)
    modifies disk
    ensures size < 32 ==> r == Err(TooSmall)
    ensures size > 256 * 1024 * 1024 ==> r == Err(TooLarge)
    ensures !(32 <= size <= 256 * 1024 * 1024) ==> disk.content == old(disk.content)
    ensures 32 <= size <= 256 * 1024 * 1024 ==>
              && (r.Err? ==> r.error == if io.WriteFails? then WriteFailed else ReadFailed)
              && (r.Ok? ==> disk.content == EmptyStore(size) && r.value.disk == disk && !io.WriteFails?
                            && r.value.TheLayout() == Layout(false, false, 0, size) && r.value.vars == [])
              && (!io.WriteFails? && !openIo.ReadFails? ==> r.Ok?)
  {
    hide Open, Loaded, OpenPanics, EmptyStore;
    if size < STORE_HEADER_SIZE + 4 { return Err(TooSmall); }
    if size > DEFAULT_MAX_FILE_SIZE { return Err(TooLarge); }
    var buf := MakeEmptyStore(size);
    if io.WriteFails? {
      disk.content := io.left;
      return Err(WriteFailed);
    }
    disk.content := buf;
    EmptyStoreOpens(size, Limits(0, 0).Resolve());
    SmallFilesOpen(disk.content, Limits(0, 0).Resolve());
    var _, store := Store.OpenLimits(disk, Limits(0, 0), openIo);
    return store;
  }

  /** FormatOVMF, likewise. */
  method FormatOvmf(disk: Disk, size: int, flavor: Flavor, io: Io, openIo: Io) returns (r: Result<Store>)
    modifies disk
    ensures size < MinSize(flavor) ==> r == Err(TooSmall)
    ensures size > 256 * 1024 * 1024 ==> r == Err(TooLarge)
    ensures !(MinSize(flavor) <= size <= 256 * 1024 * 1024) ==> disk.content == old(disk.content)
    ensures MinSize(flavor) <= size <= 256 * 1024 * 1024 ==>
              && (r.Err? ==> r.error == if io.WriteFails? then WriteFailed else ReadFailed)
              && (r.Ok? ==> disk.content == OvmfStore(size, flavor) && r.value.disk == disk && !io.WriteFails?
                            && r.value.TheLayout()
                               == Layout(true, true, 72, if flavor.AArch64? then 0x3_FFB8 else size - 72)
                            && r.value.vars == [])
              && (!io.WriteFails? && !openIo.ReadFails? ==> r.Ok?)
  {
    hide Open, Loaded, OpenPanics, OvmfStore, GeometryOf;
    if size < MinSize(flavor) { return Err(TooSmall); }
    if size > DEFAULT_MAX_FILE_SIZE { return Err(TooLarge); }
    var buf := MakeEmptyOvmfStore(size, flavor);
    if io.WriteFails? {
      disk.content := io.left;
      return Err(WriteFailed);
    }
    disk.content := buf;
    OvmfStoreOpens(size, flavor, Limits(0, 0).Resolve());
    SmallFilesOpen(disk.content, Limits(0, 0).Resolve());
    var _, store := Store.OpenLimits(disk, Limits(0, 0), openIo);
    return store;
  }
}
