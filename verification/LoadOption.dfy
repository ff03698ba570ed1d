/** EFI_LOAD_OPTION: section 3.1.3 of the UEFI Specification. */
module LoadOption {
  import opened Bytes
  import opened Utf16
  import opened DevicePath

  datatype LoadOption = LoadOption(attributes: uint32, description: GoString, path: seq<Node>,
                                   optionalData: seq<byte>)

  const MAX_OPTION_BYTES := 0x1_0000

  predicate NulAt(b: seq<byte>, i: nat) {
    i + 2 <= |b| && b[i] == 0 && b[i + 1] == 0
  }

  /** The first NUL unit at `i`, `i` + 2, and so on. */
  function NulFrom(b: seq<byte>, i: nat): (r: Result<nat>)
    ensures r.Err? ==> r.error == Unterminated
    ensures r.Ok? ==> i <= r.value && (r.value - i) % 2 == 0 && NulAt(b, r.value)
    decreases |b| - i
  {
    if i + 2 > |b| then Err(Unterminated) else if NulAt(b, i) then Ok(i) else NulFrom(b, i + 2)
  }

  /** No NUL, in a string, its runes or its units. */
  predicate NulFree(s: seq<int>) {
    forall i :: 0 <= i < |s| ==> s[i] != 0
  }

  /** The device path bytes; an empty length field means no path at all. */
  function PathField(b: seq<byte>): Result<seq<Node>> {
    if b == [] then Ok([]) else ParsedPath(b)
  }

  /** What a blob reads as. */
  function ParsedOption(b: seq<byte>): Result<LoadOption> {
    if |b| > MAX_OPTION_BYTES then Err(TooLarge)
    else if |b| < 6 then Err(Truncated)
    else
      match NulFrom(b, 6)
      case Err(e) => Err(e)
      case Ok(nul) =>
        var path, end := nul + 2, nul + 2 + U16At(b, 4);
        if end > |b| then Err(Truncated)
        else match PathField(b[path..end])
          case Err(e) => Err(e)
          case Ok(nodes) => Ok(LoadOption(U32At(b, 0), Decoded(b[6..nul]).value, nodes, b[end..]))
  }

  /** The device path bytes an option is written with: none for an empty list. */
  function PathOf(nodes: seq<Node>): Result<seq<byte>> {
    if nodes == [] then Ok([]) else PathBytes(nodes)
  }

  function OptionBytes(lo: LoadOption): Result<seq<byte>> {
    match PathOf(lo.path)
    case Err(e) => Err(e)
    case Ok(p) =>
      if |p| > 0xFFFF then Err(BadLength)
      else Ok(Le32(lo.attributes) + Le16(|p|) + Encoded(lo.description) + p + lo.optionalData)
  }

  /** The scan stops at `e` when no earlier unit is NUL. */
  lemma {:induction false} NulFromStops(b: seq<byte>, i: nat, e: nat)
    requires i <= e && (e - i) % 2 == 0 && NulAt(b, e)
    requires forall k: nat :: i <= k < e && (k - i) % 2 == 0 ==> !NulAt(b, k)
    ensures NulFrom(b, i) == Ok(e)
    decreases e - i
  {
    if i < e {
      NulFromStops(b, i + 2, e);
    }
  }

  lemma {:induction false} NulFromSkips(b: seq<byte>, i: nat)
    requires NulFrom(b, i).Ok?
    ensures forall k: nat :: i <= k < NulFrom(b, i).value && (k - i) % 2 == 0 ==> !NulAt(b, k)
    decreases |b| - i
  {
    if !NulAt(b, i) {
      NulFromSkips(b, i + 2);
      var e := NulFrom(b, i).value;
      forall k: nat | i <= k < e && (k - i) % 2 == 0
        ensures !NulAt(b, k)
      {
        if k >= i + 2 {
          assert (k - (i + 2)) % 2 == 0;
        }
      }
    }
  }

  /** NUL-free strings have NUL-free units, and the other way round. */
  lemma {:induction false} EncodeNulFree(s: seq<Scalar>)
    requires NulFree(s)
    ensures NulFree(EncodeRunes(s))
  {
    if s != [] {
      EncodeNulFree(s[1..]);
    }
  }

  lemma {:induction false} DecodeNulFree(u: seq<uint16>)
    requires NulFree(u)
    ensures NulFree(DecodeUnits(u))
  {
    if u != [] {
      DecodeNulFree(u[FirstWidth(u)..]);
    }
  }

  /** The units of a description that ends at the first NUL. */
  lemma UnitsBeforeNul(b: seq<byte>, nul: nat)
    requires |b| >= 6 && NulFrom(b, 6) == Ok(nul)
    ensures NulFree(UnitsOfBytes(b[6..nul]))
  {
    var d := b[6..nul];
    NulFromSkips(b, 6);
    forall i | 0 <= i < |UnitsOfBytes(d)|
      ensures UnitsOfBytes(d)[i] != 0
    {
      var k := 6 + 2 * i;
      assert d[2 * i] == b[k] && d[2 * i + 1] == b[k + 1];
      assert !NulAt(b, k);
    }
  }

  /** A parsed description is well-formed and NUL-free, and re-encodes to the room it came from: the
      same bytes exactly when its surrogates are paired. */
  lemma DescriptionRoundTrip(b: seq<byte>, nul: nat)
    requires |b| >= 6 && NulFrom(b, 6) == Ok(nul)
    ensures var s := Decoded(b[6..nul]).value;
            && WellFormed(s) && NulFree(s) && |Encoded(s)| == nul + 2 - 6
            && (Encoded(s) == b[6..nul + 2] <==> Paired(UnitsOfBytes(b[6..nul + 2])))
  {
    hide NulFrom, Paired, EncodeRunes, DecodeUnits, Encoded;
    var d, t := b[6..nul], b[6..nul + 2];
    UnitsBeforeNul(b, nul);
    var u := UnitsOfBytes(d);
    assert StripNul(u) == u;
    DecodeNulFree(u);
    assert Terminated(t);
    assert UnitsOfBytes(t) == u + [0] by { UnitsAppendNul(d, t); }
    assert StripNul(u + [0]) == u;
    EncodeDecoded(t);
  }

  lemma UnitsAppendNul(d: seq<byte>, t: seq<byte>)
    requires |d| % 2 == 0 && t == d + [0, 0]
    ensures UnitsOfBytes(t) == UnitsOfBytes(d) + [0]
  {
    var u, w := UnitsOfBytes(d), UnitsOfBytes(t);
    forall i | 0 <= i < |w|
      ensures w[i] == (u + [0])[i]
    {
      assert w[i] == U16At(t, 2 * i);
      if i < |u| {
        assert U16At(t, 2 * i) == U16At(d, 2 * i);
      }
    }
  }

  /** Where the fields of a written option are. */
  lemma OptionFields(lo: LoadOption, p: seq<byte>)
    requires PathOf(lo.path) == Ok(p) && |p| <= 0xFFFF
    ensures var b, d := OptionBytes(lo).value, Encoded(lo.description);
            && |b| == 6 + |d| + |p| + |lo.optionalData|
            && U32At(b, 0) == lo.attributes && U16At(b, 4) == |p|
            && b[6..6 + |d|] == d && b[6 + |d|..6 + |d| + |p|] == p && b[6 + |d| + |p|..] == lo.optionalData
  {
    hide PathOf, Encoded, Le32, Le16, U32At, U16At;
    var b, d := OptionBytes(lo).value, Encoded(lo.description);
    var h := Le32(lo.attributes) + Le16(|p|);
    assert b == h + d + (p + lo.optionalData);
    assert b == (h + d) + p + lo.optionalData;
    Middle(b, h, d, p + lo.optionalData);
    Middle(b, h + d, p, lo.optionalData);
    assert b[0..4] == Le32(lo.attributes) && b[4..6] == Le16(|p|);
    ReadLe32(b, 0, lo.attributes);
    ReadLe16(b, 4, |p|);
  }

  /** Exactly which options marshal: those with legal nodes that take at most 0xFFFF bytes. */
  lemma MarshalsExactly(lo: LoadOption)
    ensures OptionBytes(lo).Ok? <==>
            (forall i :: 0 <= i < |lo.path| ==> lo.path[i].Legal()) && (lo.path == [] || PathLength(lo.path) <= 0xFFFF)
    ensures OptionBytes(lo).Err? ==> OptionBytes(lo) == Err(BadLength) || OptionBytes(lo) == Err(EndNodeInPath)
  {
    hide PathBytes, Encoded;
    MarshalsLegalPaths(lo.path);
    if PathBytes(lo.path).Ok? {
      MarshalledLength(lo.path);
    }
  }

  /** The blob is this option: its description ends at `nul`, the first NUL unit from 6 on, then comes the
      path of the length at 4, and everything behind it is optional data. */
  predicate OptionAt(b: seq<byte>, lo: LoadOption, nul: nat) {
    && 6 <= nul && nul % 2 == 0 && NulAt(b, nul)
    && (forall k: nat :: 6 <= k < nul && k % 2 == 0 ==> !NulAt(b, k))
    && var path, end := nul + 2, nul + 2 + U16At(b, 4);
       && end <= |b| && PathField(b[path..end]) == Ok(lo.path)
       && lo.attributes == U32At(b, 0) && Decoded(b[6..nul]) == Ok(lo.description) && lo.optionalData == b[end..]
  }

  /** Exactly which blobs parse, and to what: those of 6 bytes to 64 KiB that are the option. */
  lemma ParsedOptionIsExact(b: seq<byte>, lo: LoadOption)
    ensures ParsedOption(b) == Ok(lo) <==> 6 <= |b| <= 0x1_0000 && exists nul: nat :: OptionAt(b, lo, nul)
  {
    hide ParsedOption, OptionAt;
    if ParsedOption(b) == Ok(lo) {
      var nul := ParsedIsOption(b, lo);
    }
    if 6 <= |b| <= 0x1_0000 && exists nul: nat :: OptionAt(b, lo, nul) {
      var nul: nat :| OptionAt(b, lo, nul);
      OptionParses(b, lo, nul);
    }
  }

  lemma ParsedIsOption(b: seq<byte>, lo: LoadOption) returns (nul: nat)
    requires ParsedOption(b) == Ok(lo)
    ensures 6 <= |b| <= 0x1_0000 && OptionAt(b, lo, nul)
  {
    hide PathField, NulFrom, Decoded, U16At, U32At, NulAt;
    nul := NulFrom(b, 6).value;
    NulFromSkips(b, 6);
    assert forall k: nat :: 6 <= k < nul && k % 2 == 0 ==> (k - 6) % 2 == 0;
  }

  lemma OptionParses(b: seq<byte>, lo: LoadOption, nul: nat)
    requires 6 <= |b| <= 0x1_0000 && OptionAt(b, lo, nul)
    ensures ParsedOption(b) == Ok(lo)
  {
    hide PathField, NulFrom, Decoded, U16At, U32At, NulAt;
    assert forall k: nat :: 6 <= k < nul && (k - 6) % 2 == 0 ==> k % 2 == 0;
    NulFromStops(b, 6, nul);
  }

  /** In a NUL-free description the scan stops at the encoder's own terminator. */
  lemma ScanFindsTerminator(b: seq<byte>, s: GoString)
    requires NulFree(s) && 6 + |Encoded(s)| <= |b| && b[6..6 + |Encoded(s)|] == Encoded(s)
    ensures var nul := 6 + |Encoded(s)| - 2;
            NulFrom(b, 6) == Ok(nul) && Decoded(b[6..nul]) == Ok(Scrub(s))
  {
    hide EncodeRunes, DecodeUnits, NulFrom, Scrub, BytesOfUnits, UnitsOfBytes, U16At;
    var u := EncodeRunes(Runes(s));
    EncodeNulFree(Runes(s));
    UnitsAt(b, u);
    ScanUnits(b, u);
    assert forall i :: 0 <= i < |u| ==> u[i] == (u + [0])[i];
    UnitsInPlace(b, 6 + 2 * |u|, u);
    assert StripNul(u) == u;
    DecodeUnitsOfRunes(Runes(s));
    assert Scrub(s) == Runes(s) by { ScrubIsRunes(s); }
  }

  lemma ScrubIsRunes(s: GoString)
    ensures Scrub(s) == Runes(s)
  {
  }

  lemma UnitsAt(b: seq<byte>, u: seq<uint16>)
    requires 6 + 2 * |u| + 2 <= |b| && b[6..6 + 2 * |u| + 2] == BytesOfUnits(u + [0])
    ensures forall i :: 0 <= i <= |u| ==> U16At(b, 6 + 2 * i) == (u + [0])[i]
  {
    hide BytesOfUnits;
    var d := BytesOfUnits(u + [0]);
    forall i | 0 <= i <= |u|
      ensures U16At(b, 6 + 2 * i) == (u + [0])[i]
    {
      assert U16At(d, 2 * i) == (u + [0])[i];
      assert d[2 * i] == b[6 + 2 * i] && d[2 * i + 1] == b[6 + 2 * i + 1];
    }
  }

  lemma ScanUnits(b: seq<byte>, u: seq<uint16>)
    requires 6 + 2 * |u| + 2 <= |b| && NulFree(u)
    requires forall i :: 0 <= i <= |u| ==> U16At(b, 6 + 2 * i) == (u + [0])[i]
    ensures NulFrom(b, 6) == Ok(6 + 2 * |u|)
  {
    hide NulFrom;
    forall k: nat | 6 <= k < 6 + 2 * |u| && (k - 6) % 2 == 0
      ensures !NulAt(b, k)
    {
      var i := (k - 6) / 2;
      assert U16At(b, 6 + 2 * i) == (u + [0])[i] == u[i] != 0;
    }
    assert U16At(b, 6 + 2 * |u|) == (u + [0])[|u|] == 0;
    NulFromStops(b, 6, 6 + 2 * |u|);
  }

  lemma UnitsInPlace(b: seq<byte>, nul: nat, u: seq<uint16>)
    requires 6 <= nul <= |b| && nul == 6 + 2 * |u|
    requires forall i :: 0 <= i < |u| ==> U16At(b, 6 + 2 * i) == u[i]
    ensures UnitsOfBytes(b[6..nul]) == u
  {
    var d := b[6..nul];
    forall i | 0 <= i < |u|
      ensures UnitsOfBytes(d)[i] == u[i]
    {
      assert d[2 * i] == b[6 + 2 * i] && d[2 * i + 1] == b[6 + 2 * i + 1];
    }
  }

  lemma PathFieldOfBytes(nodes: seq<Node>)
    requires PathOf(nodes).Ok? && |PathOf(nodes).value| <= 0xFFFF
    ensures PathField(PathOf(nodes).value) == Ok(nodes)
  {
    hide ParsedPath;
    if nodes != [] {
      MarshalsLegalPaths(nodes);
      ParseMarshalledPath(nodes);
    }
  }

  /** Parsing what was marshalled gives the option back exactly when the blob is within the parser's
      ceiling and the description is well-formed and NUL-free. */
  lemma ParseMarshalledOption(lo: LoadOption)
    requires OptionBytes(lo).Ok?
    ensures var b := OptionBytes(lo).value;
            ParsedOption(b) == Ok(lo) <==>
            |b| <= MAX_OPTION_BYTES && WellFormed(lo.description) && NulFree(lo.description)
  {
    hide PathOf, PathField, NulFrom, Encoded, Decoded, U16At, U32At, WellFormed, NulFree, Scrub;
    var b, s := OptionBytes(lo).value, lo.description;
    var p := PathOf(lo.path).value;
    if |b| <= MAX_OPTION_BYTES && WellFormed(s) && NulFree(s) {
      OptionFields(lo, p);
      ScanFindsTerminator(b, s);
      PathFieldOfBytes(lo.path);
    }
    if ParsedOption(b) == Ok(lo) {
      DescriptionRoundTrip(b, NulFrom(b, 6).value);
    }
  }

  /** The pieces of a blob that parses. */
  function NulOf(b: seq<byte>): (nul: nat)
    requires ParsedOption(b).Ok?
    ensures NulFrom(b, 6) == Ok(nul) && 6 <= nul
  {
    NulFrom(b, 6).value
  }

  function PathPart(b: seq<byte>): (p: seq<byte>)
    requires ParsedOption(b).Ok?
    ensures PathField(p).Ok? && |p| == U16At(b, 4)
  {
    hide PathField, Decoded, U16At, U32At;
    b[NulOf(b) + 2..NulOf(b) + 2 + U16At(b, 4)]
  }

  /** The device path holds no path at all, or some nodes and a plain 4-byte End node that fills it. */
  predicate PathIsExact(p: seq<byte>)
    requires PathField(p).Ok?
  {
    p == [] || (EndOffset(p, 0) > 0 && EndOffset(p, 0) + 4 == |p| && U16At(p, EndOffset(p, 0) + 2) == 4)
  }

  lemma PathFieldRoundTrip(p: seq<byte>)
    requires PathField(p).Ok? && |p| <= 0xFFFF
    ensures var r := PathOf(PathField(p).value);
            r.Ok? && |r.value| <= |p| && (r.value == p <==> PathIsExact(p))
  {
    hide NodesFrom, PathBytes;
    if p != [] {
      MarshalParsedPath(p);
    }
  }

  /** Parsing is stable: an accepted blob marshals, to no more bytes, and parses to the same option.
      The bytes are reproduced exactly when every surrogate of the description is paired and the device
      path is exact. */
  lemma MarshalParsedOption(b: seq<byte>)
    requires ParsedOption(b).Ok?
    ensures var lo := ParsedOption(b).value;
            && OptionBytes(lo).Ok?
            && |OptionBytes(lo).value| <= |b|
            && ParsedOption(OptionBytes(lo).value) == Ok(lo)
            && (OptionBytes(lo).value == b <==> Paired(UnitsOfBytes(b[6..NulOf(b) + 2])) && PathIsExact(PathPart(b)))
  {
    hide PathOf, PathField, NulFrom, Encoded, Decoded, U16At, U32At, WellFormed, NulFree, PathIsExact, Paired;
    var lo, nul, p := ParsedOption(b).value, NulOf(b), PathPart(b);
    DescriptionRoundTrip(b, nul);
    PathFieldRoundTrip(p);
    var q := PathOf(lo.path).value;
    OptionFields(lo, q);
    ParseMarshalledOption(lo);
    if Encoded(lo.description) == b[6..nul + 2] && q == p {
      SameBytes(b, nul, p, q, lo);
    }
    if OptionBytes(lo).value == b {
      assert |q| == |p|;
    }
  }

  lemma SameBytes(b: seq<byte>, nul: nat, p: seq<byte>, q: seq<byte>, lo: LoadOption)
    requires 6 <= nul && nul + 2 + |p| <= |b|
    requires U16At(b, 4) == |p| && p == b[nul + 2..nul + 2 + |p|] && PathOf(lo.path) == Ok(q) && q == p
    requires lo.attributes == U32At(b, 0) && lo.optionalData == b[nul + 2 + |p|..]
    requires Encoded(lo.description) == b[6..nul + 2]
    ensures OptionBytes(lo) == Ok(b)
  {
    hide PathOf, Encoded, Le32, Le16, U32At, U16At;
    WriteU32(b, 0);
    WriteU16(b, 4);
    assert b == b[0..4] + b[4..6] + b[6..nul + 2] + b[nul + 2..nul + 2 + |p|] + b[nul + 2 + |p|..];
  }

  /** ParseLoadOption: scans for the terminator with a loop guard that never fires. */
  method ParseLoadOption(b: seq<byte>) returns (r: Result<LoadOption>)
    ensures r == ParsedOption(b)
  {
    hide Decoded, ParsedPath, U16At, U32At;
    if |b| > MAX_OPTION_BYTES { return Err(TooLarge); }
    if |b| < 6 { return Err(Truncated); }
    var attributes, fpLen := U32At(b, 0), U16At(b, 4);
    var descEnd := -1;
    var i, steps := 6, 0;
    while i + 2 <= |b|
      invariant 6 <= i && i % 2 == 0 && steps == (i - 6) / 2 && descEnd == -1
      invariant NulFrom(b, 6) == NulFrom(b, i)
    {
      assert steps < |b| + 1; // NewLoopGuard(len(b)+1) allows this step
      steps := steps + 1;
      if b[i] == 0 && b[i + 1] == 0 {
        descEnd := i;
        break;
      }
      i := i + 2;
    }
    if descEnd < 0 { return Err(Unterminated); }
    var description := DecodeUtf16Le(b[6..descEnd]);
    var pathStart := descEnd + 2;
    if pathStart + fpLen > |b| { return Err(Truncated); }
    var pathBytes := b[pathStart..pathStart + fpLen];
    var nodes: seq<Node> := [];
    if fpLen > 0 {
      var path := ParseDevicePath(pathBytes);
      if path.Err? { return Err(path.error); }
      nodes := path.value;
    }
    return Ok(LoadOption(attributes, description.value, nodes, b[pathStart + fpLen..]));
  }

  /** LoadOption.Marshal. */
  method Marshal(lo: LoadOption) returns (r: Result<seq<byte>>)
    ensures r == OptionBytes(lo)
  {
    hide PathBytes, Encoded, Le16, Le32;
    MarshalsLegalPaths(lo.path);
    var path := MarshalDevicePath(lo.path);
    if path.Err? { return Err(path.error); }
    var pathBytes := path.value;
    if |lo.path| == 0 { pathBytes := []; }
    if |pathBytes| > 0xFFFF { return Err(BadLength); }
    var descBytes := EncodeUtf16Le(lo.description);
    var buf := Le32(lo.attributes) + Le16(|pathBytes|);
    buf := buf + descBytes;
    buf := buf + pathBytes;
    buf := buf + lo.optionalData;
    return Ok(buf);
  }
}
