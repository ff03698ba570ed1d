/** A store file as bytes: recognising its layout, opening it, and rewriting its variable region. */
module StoreImage {
  import opened Bytes
  import opened Utf16
  import opened VariableRecord
  import opened VariableRegion

  const EFI_VARIABLE_GUID: Guid :=
    [0x16, 0x36, 0xCF, 0xDD, 0x75, 0x32, 0x64, 0x41, 0x98, 0xB6, 0xFE, 0x85, 0x70, 0x7F, 0xFE, 0x7D]

  const EFI_AUTHENTICATED_VARIABLE_GUID: Guid :=
    [0x78, 0x2C, 0xF3, 0xAA, 0x7B, 0x94, 0x9A, 0x43, 0xA1, 0x80, 0x2E, 0x14, 0x4E, 0xC3, 0x77, 0x92]

  const EFI_SYSTEM_NV_DATA_FV_GUID: Guid :=
    [0x8D, 0x2B, 0xF1, 0xFF, 0x96, 0x76, 0x8B, 0x4C, 0xA9, 0x85, 0x27, 0x47, 0x07, 0x5B, 0x4F, 0x50]

  const FV_HEADER_SIZE := 72
  const FV_SIGNATURE: uint32 := 0x4856465F
  const STORE_FORMATTED: byte := 0x5A
  const STORE_HEALTHY: byte := 0xFE

  const DEFAULT_MAX_FILE_SIZE := 0x1000_0000
  const DEFAULT_MAX_VARIABLES := 0x1_0000

  datatype Limits = Limits(maxFileSize: int64, maxVariables: int) {
    /** A file of this length is read whole. */
    predicate Admits(n: nat) {
      n <= maxFileSize < MAX_INT64
    }

    /** A limit of the caller's is kept; a zero takes the default, 256 MiB and 65536 variables. */
    function Resolve(): (r: Limits)
      ensures r.maxFileSize == if maxFileSize != 0 then maxFileSize else 256 * 1024 * 1024
      ensures r.maxVariables == if maxVariables != 0 then maxVariables else 65536
    {
      Limits(if maxFileSize == 0 then DEFAULT_MAX_FILE_SIZE else maxFileSize,
             if maxVariables == 0 then DEFAULT_MAX_VARIABLES else maxVariables)
    }
  }

  /** Which of the observed flavours a file is, and where its store lies. */
  datatype Layout = Layout(fvWrapped: bool, auth: bool, storeOff: nat, storeSize: nat) {
    function HeaderEnd(): nat { storeOff + STORE_HEADER_SIZE }
    function End(): nat { storeOff + storeSize }
  }

  /** What an open store holds in memory. */
  datatype Opened = Opened(limits: Limits, layout: Layout, vars: seq<Variable>)

  predicate FvWrapped(data: seq<byte>) {
    && |data| >= FV_HEADER_SIZE
    && data[16..32] == EFI_SYSTEM_NV_DATA_FV_GUID
    && U32At(data, 40) == FV_SIGNATURE
  }

  /** The layout a file has, or why it has none. Size is clamped to the bytes the file holds. */
  function LayoutOf(data: seq<byte>): (r: Result<Layout>)
    ensures r.Ok? ==> var l := r.value;
                      && l.storeOff == (if l.fvWrapped then FV_HEADER_SIZE else 0)
                      && l.HeaderEnd() <= |data| && l.End() <= |data| && l.storeSize < 0x1_0000_0000
  {
    var off := if FvWrapped(data) then FV_HEADER_SIZE else 0;
    if off + STORE_HEADER_SIZE > |data| then Err(TooSmall)
    else
      var signature, size := data[off..off + 16], U32At(data, off + 16);
      if signature != EFI_AUTHENTICATED_VARIABLE_GUID && signature != EFI_VARIABLE_GUID then Err(BadSignature)
      else if data[off + 20] != STORE_FORMATTED then Err(NotFormatted)
      else if data[off + 21] != STORE_HEALTHY then Err(NotHealthy)
      else Ok(Layout(FvWrapped(data), signature == EFI_AUTHENTICATED_VARIABLE_GUID, off,
                     if size > |data| - off then |data| - off else size))
  }

  /** Exactly which files are recognised, and as what. The error names the first test that fails. */
  lemma LayoutOfIsExact(data: seq<byte>)
    ensures var wrapped := |data| >= 72 && data[16..32] == EFI_SYSTEM_NV_DATA_FV_GUID
                           && data[40..44] == [0x5F, 0x46, 0x56, 0x48];
            var off, r := if wrapped then 72 else 0, LayoutOf(data);
            if |data| < off + 28 then r == Err(TooSmall)
            else
              var signature := data[off..off + 16];
              && (r == Err(BadSignature) <==>
                  signature !in [EFI_VARIABLE_GUID, EFI_AUTHENTICATED_VARIABLE_GUID])
              && (r.Ok? <==> signature in [EFI_VARIABLE_GUID, EFI_AUTHENTICATED_VARIABLE_GUID]
                             && data[off + 20] == 0x5A && data[off + 21] == 0xFE)
              && (r.Ok? ==> && r.value.fvWrapped == wrapped && r.value.storeOff == off
                            && (r.value.auth <==> signature == EFI_AUTHENTICATED_VARIABLE_GUID)
                            && r.value.storeSize <= U32At(data, off + 16)
                            && (r.value.storeSize == U32At(data, off + 16) || r.value.End() == |data|))
  {
    if |data| >= 72 {
      ReadSignature(data);
    }
  }

  lemma ReadSignature(data: seq<byte>)
    requires |data| >= 72
    ensures U32At(data, 40) == FV_SIGNATURE <==> data[40..44] == [0x5F, 0x46, 0x56, 0x48]
  {
    assert data[40..44] == [data[40], data[41], data[42], data[43]];
  }

  /** A damaged store header is refused with its own error: a recognised file is no longer recognised once
      its format byte, its state byte or its signature is changed to anything unknown. A raw store does not
      come to look FV-wrapped by it either. */
  lemma DamageIsRefused(data: seq<byte>, l: Layout, s: byte, signature: Guid)
    requires LayoutOf(data) == Ok(l)
    ensures s != 0x5A ==> LayoutOf(data[l.storeOff + 20 := s]) == Err(NotFormatted)
    ensures s != 0xFE ==> LayoutOf(data[l.storeOff + 21 := s]) == Err(NotHealthy)
    ensures signature !in [EFI_VARIABLE_GUID, EFI_AUTHENTICATED_VARIABLE_GUID] ==>
              LayoutOf(Splice(data, l.storeOff, signature)) == Err(BadSignature)
  {
    hide U32At;
    var off := l.storeOff;
    var a, b, c := data[off + 20 := s], data[off + 21 := s], Splice(data, off, signature);
    assert a[off..off + 16] == data[off..off + 16] == b[off..off + 16] && c[off..off + 16] == signature;
    assert a[off + 21] == 0xFE && b[off + 20] == 0x5A && c[off + 20] == 0x5A;
    if |data| >= 72 {
      SameWrap(data, a, l);
      SameWrap(data, b, l);
      SameWrap(data, c, l);
    }
  }

  lemma SameWrap(data: seq<byte>, b: seq<byte>, l: Layout)
    requires LayoutOf(data) == Ok(l) && |b| == |data| >= 72
    requires l.fvWrapped ==> b[..72] == data[..72]
    requires !l.fvWrapped ==> b[20] == 0x5A || b[21] == 0xFE
    ensures FvWrapped(b) == l.fvWrapped
  {
    if l.fvWrapped {
      assert b[16..32] == b[..72][16..32] && data[16..32] == data[..72][16..32];
      assert forall i :: 40 <= i < 44 ==> b[i] == b[..72][i] && data[i] == data[..72][i];
    } else {
      assert b[16..32][4] == b[20] && b[16..32][5] == b[21];
    }
  }

  /** What reading a file under a limit gives. The largest int64 admits nothing: the read is capped at
      one byte more, which wraps to a negative count, so that every file reads as empty. */
  function ReadLimited(content: seq<byte>, max: int64): Result<seq<byte>> {
    if |content| > max then Err(TooLarge) else if max == MAX_INT64 then Ok([]) else Ok(content)
  }

  /** What a fresh open of a file holding `content` yields, under resolved limits. */
  function Open(content: seq<byte>, limits: Limits): Result<Opened> {
    match ReadLimited(content, limits.maxFileSize)
    case Err(e) => Err(e)
    case Ok(data) =>
      match LayoutOf(data)
      case Err(e) => Err(e)
      case Ok(l) => WithinLimit(limits, l, Walk(data, l.HeaderEnd(), l.End(), l.auth))
  }

  function WithinLimit(limits: Limits, l: Layout, vars: seq<Variable>): Result<Opened> {
    if TooMany(|vars|, limits.maxVariables) then Err(TooLarge) else Ok(Opened(limits, l, vars))
  }

  /** What the code loads when it does not panic: `Open`, but with the region end truncated to 32 bits. */
  function Loaded(content: seq<byte>, limits: Limits): (r: Result<Opened>)
    ensures r.Ok? ==> var o := r.value;
                      && o.limits == limits && limits.Admits(|content|) && LayoutOf(content) == Ok(o.layout)
                      && !TooMany(|o.vars|, limits.maxVariables)
  {
    match ReadLimited(content, limits.maxFileSize)
    case Err(e) => Err(e)
    case Ok(data) =>
      match LayoutOf(data)
      case Err(e) => Err(e)
      case Ok(l) => WithinLimit(limits, l, WalkedFrom(data, l.storeOff, l.storeSize, l.auth))
  }

  /** The files on which opening panics. */
  predicate OpenPanics(content: seq<byte>, limits: Limits) {
    && limits.Admits(|content|) && LayoutOf(content).Ok?
    && var l := LayoutOf(content).value;
       WalkPanics(content, l.storeOff, l.storeSize, l.auth, limits.maxVariables)
  }

  /** The code opens what the design says, unless the store ends at 4 GiB or beyond: such a store it
      opens as empty. */
  lemma LoadedIsOpen(content: seq<byte>, limits: Limits)
    ensures var l := LayoutOf(content);
            if limits.Admits(|content|) && l.Ok? && l.value.End() >= 0x1_0000_0000
            then Loaded(content, limits) == Ok(Opened(limits, l.value, []))
            else Loaded(content, limits) == Open(content, limits)
  {
    hide LayoutOf, Walk, RegionEnd;
    var data := ReadLimited(content, limits.maxFileSize);
    if data.Ok? && LayoutOf(data.value).Ok? {
      var l := LayoutOf(data.value).value;
      RegionEndIsExact(data.value, l.storeOff, l.storeSize, l.auth);
    }
  }

  /** Below 2^32 - 52 bytes, and so under the default limits, no offset can wrap into a panic. */
  lemma SmallFilesOpen(content: seq<byte>, limits: Limits)
    requires |content| < 0x1_0000_0000 - 52
    ensures !OpenPanics(content, limits) && Loaded(content, limits) == Open(content, limits)
  {
    hide LayoutOf, Walk, StopAt, RegionEnd, ParsePanics, Loaded, Open;
    LoadedIsOpen(content, limits);
    if OpenPanics(content, limits) {
      var l := LayoutOf(content).value;
      var end := RegionEnd(|content|, l.storeOff, l.storeSize);
      PanicsOnlyAtStop(content, StopAt(content, l.HeaderEnd(), end, l.auth), end, l.auth);
    }
  }

  /** The file with its variable region replaced by `payload` and erased flash. */
  function Rebuilt(orig: seq<byte>, l: Layout, payload: seq<byte>): (r: Result<seq<byte>>)
    ensures r.Err? ==> r.error == BeyondFile || r.error == NoSpace
    ensures r.Ok? ==> |r.value| == |orig|
  {
    if l.End() > |orig| then Err(BeyondFile)
    else if l.HeaderEnd() + |payload| > l.End() then Err(NoSpace)
    else Ok(orig[..l.HeaderEnd()] + payload + Repeat(l.End() - l.HeaderEnd() - |payload|, ERASED) + orig[l.End()..])
  }

  /** A rewrite keeps the length and every byte outside the variable region, puts the payload at the
      start of the region and erases the rest of it. */
  lemma RebuiltFrame(orig: seq<byte>, l: Layout, payload: seq<byte>)
    requires Rebuilt(orig, l, payload).Ok?
    ensures var b := Rebuilt(orig, l, payload).value;
            && |b| == |orig| && l.HeaderEnd() + |payload| <= l.End() <= |b|
            && (forall i :: 0 <= i < |b| && !(l.HeaderEnd() <= i < l.End()) ==> b[i] == orig[i])
            && b[l.HeaderEnd()..l.HeaderEnd() + |payload|] == payload
            && (forall i :: l.HeaderEnd() + |payload| <= i < l.End() ==> b[i] == ERASED)
  {
  }

  /** There is room exactly when the live records and the store header fit in the store's size. */
  lemma RoomIsExact(orig: seq<byte>, l: Layout, vars: seq<Variable>)
    requires l.End() <= |orig|
    ensures Rebuilt(orig, l, Serialized(vars, l.auth)).Ok?
            <==> STORE_HEADER_SIZE + TotalSize(vars, l.auth) <= l.storeSize
  {
    SerializedLength(vars, l.auth);
  }

  /** Truncated 32-bit sizes never reach a file: in a list that fits, every name and every payload is
      shorter than 2^32 bytes. */
  lemma {:induction false} FittingSizesAreExact(vars: seq<Variable>, auth: bool)
    requires TotalSize(vars, auth) < 0x1_0000_0000
    ensures forall v :: v in vars ==> Wrap32(|Encoded(v.name)|) == |Encoded(v.name)| && Wrap32(|v.data|) == |v.data|
  {
    hide Encoded, Wrap32;
    if vars != [] {
      FittingSizesAreExact(vars[1..], auth);
      assert forall v :: v in vars ==> v == vars[0] || v in vars[1..];
    }
  }

  /** A rewrite never changes how the file is recognised. In particular a raw store cannot come to
      look FV-wrapped: its byte 20 is 0x5A, where the FV GUID has 0x96. */
  lemma LayoutIsStable(orig: seq<byte>, l: Layout, payload: seq<byte>)
    requires LayoutOf(orig) == Ok(l) && Rebuilt(orig, l, payload).Ok?
    ensures LayoutOf(Rebuilt(orig, l, payload).value) == Ok(l)
  {
    var b := Rebuilt(orig, l, payload).value;
    RebuiltFrame(orig, l, payload);
    SameHeader(orig, b, l);
  }

  lemma SameHeader(orig: seq<byte>, b: seq<byte>, l: Layout)
    requires LayoutOf(orig) == Ok(l) && l.HeaderEnd() <= |b| <= |orig| && l.End() <= |b|
    requires forall i :: 0 <= i < l.HeaderEnd() ==> b[i] == orig[i]
    ensures LayoutOf(b) == Ok(l)
  {
    var off := l.storeOff;
    assert b[off..off + 16] == orig[off..off + 16];
    assert U32At(b, off + 16) == U32At(orig, off + 16);
    if l.fvWrapped {
      assert b[16..32] == orig[16..32];
      assert U32At(b, 40) == U32At(orig, 40);
    } else {
      assert b[20] == STORE_FORMATTED != EFI_SYSTEM_NV_DATA_FV_GUID[4];
      if |b| >= FV_HEADER_SIZE {
        assert b[16..32][4] == b[20];
      }
    }
  }

  /** A file is still this store, or is too short to be rewritten. */
  predicate Survives(l: Layout, left: seq<byte>) {
    LayoutOf(left) == Ok(l) || |left| < l.End()
  }

  /** A write cut short survives: whatever prefix of a rewrite is left, it is one or the other. */
  lemma PrefixSurvives(orig: seq<byte>, l: Layout, payload: seq<byte>, k: nat)
    requires LayoutOf(orig) == Ok(l) && Rebuilt(orig, l, payload).Ok? && k <= |Rebuilt(orig, l, payload).value|
    ensures Survives(l, Rebuilt(orig, l, payload).value[..k])
  {
    hide LayoutOf;
    var b := Rebuilt(orig, l, payload).value;
    LayoutIsStable(orig, l, payload);
    RebuiltFrame(orig, l, payload);
    if k >= l.End() {
      SameHeader(b, b[..k], l);
    }
  }

  /** The codec theorem: whatever region a file had, after its variables are replaced the design's open
      reads exactly those variables back, in order, in the same layout. */
  lemma OpenRebuilt(orig: seq<byte>, l: Layout, vars: seq<Variable>, limits: Limits)
    requires LayoutOf(orig) == Ok(l) && limits.Admits(|orig|)
    requires Rebuilt(orig, l, Serialized(vars, l.auth)).Ok?
    ensures Open(Rebuilt(orig, l, Serialized(vars, l.auth)).value, limits)
            == WithinLimit(limits, l, ScrubbedAll(vars))
  {
    hide LayoutOf, Rebuilt, Walk, Serialized, ScrubbedAll, Open;
    var b := Rebuilt(orig, l, Serialized(vars, l.auth)).value;
    LayoutIsStable(orig, l, Serialized(vars, l.auth));
    WalkRebuilt(orig, l, vars);
    OpenByParts(b, limits, l);
  }

  lemma OpenByParts(data: seq<byte>, limits: Limits, l: Layout)
    requires LayoutOf(data) == Ok(l) && limits.Admits(|data|)
    ensures l.End() <= |data|
    ensures Open(data, limits) == WithinLimit(limits, l, Walk(data, l.HeaderEnd(), l.End(), l.auth))
  {
    hide LayoutOf, Walk;
  }

  lemma WalkRebuilt(orig: seq<byte>, l: Layout, vars: seq<Variable>)
    requires l.storeOff % 4 == 0 && l.storeSize < 0x1_0000_0000
    requires Rebuilt(orig, l, Serialized(vars, l.auth)).Ok?
    ensures var b := Rebuilt(orig, l, Serialized(vars, l.auth)).value;
            && l.End() <= |b| && Walk(b, l.HeaderEnd(), l.End(), l.auth) == ScrubbedAll(vars)
            && (l.End() < 0x1_0000_0000 ==>
                  !ParsePanics(b, StopAt(b, l.HeaderEnd(), l.End(), l.auth), l.End(), l.auth))
  {
    hide Rebuilt, Walk, StopAt, Serialized, TotalSize, ScrubbedAll, ParsePanics;
    var payload := Serialized(vars, l.auth);
    var b := Rebuilt(orig, l, payload).value;
    RebuiltFrame(orig, l, payload);
    SerializedLength(vars, l.auth);
    WalkSerialized(b, l.HeaderEnd(), l.End(), vars, l.auth);
    if l.End() < 0x1_0000_0000 {
      AlignedIsSafe(b, l.HeaderEnd() + |payload|, l.End(), l.auth);
    }
  }

  /** What the code's open reads back after a rewrite: the variables, or nothing at all if the store ends
      at 4 GiB or beyond. */
  function ReadBack(limits: Limits, l: Layout, vars: seq<Variable>): Result<Opened> {
    if l.End() >= 0x1_0000_0000 then Ok(Opened(limits, l, [])) else WithinLimit(limits, l, ScrubbedAll(vars))
  }

  /** The codec theorem for the code's own open, at every file size. A rewritten file never makes it
      panic, whatever the file held before. */
  lemma LoadRebuilt(orig: seq<byte>, l: Layout, vars: seq<Variable>, limits: Limits)
    requires LayoutOf(orig) == Ok(l) && limits.Admits(|orig|)
    requires Rebuilt(orig, l, Serialized(vars, l.auth)).Ok?
    ensures var b := Rebuilt(orig, l, Serialized(vars, l.auth)).value;
            Loaded(b, limits) == ReadBack(limits, l, vars) && !OpenPanics(b, limits)
  {
    hide LayoutOf, Rebuilt, Walk, StopAt, Serialized, ScrubbedAll, Open, Loaded, RegionEnd, ParsePanics;
    var b := Rebuilt(orig, l, Serialized(vars, l.auth)).value;
    LayoutIsStable(orig, l, Serialized(vars, l.auth));
    OpenRebuilt(orig, l, vars, limits);
    LoadedIsOpen(b, limits);
    RegionEndIsExact(b, l.storeOff, l.storeSize, l.auth);
    if l.End() < 0x1_0000_0000 {
      WalkRebuilt(orig, l, vars);
    } else {
      EmptyRegionIsSafe(b, l);
    }
  }

  /** Deleted variables are not opened: change the state byte of one stored variable to anything else, and
      opening the file gives all the others. */
  lemma DeletedIsNotOpened(orig: seq<byte>, l: Layout, a: seq<Variable>, v: Variable, b: seq<Variable>,
                           limits: Limits, s: byte)
    requires LayoutOf(orig) == Ok(l) && limits.Admits(|orig|) && s != 0x3F
    requires Rebuilt(orig, l, Serialized(a + [v] + b, l.auth)).Ok?
    ensures var file, state := Rebuilt(orig, l, Serialized(a + [v] + b, l.auth)).value,
                               l.HeaderEnd() + TotalSize(a, l.auth) + 2;
            && state < |file|
            && Open(file[state := s], limits) == WithinLimit(limits, l, ScrubbedAll(a + b))
            && Loaded(file[state := s], limits) == ReadBack(limits, l, a + b)
            && !OpenPanics(file[state := s], limits)
  {
    hide LayoutOf, Rebuilt, Walk, StopAt, Serialized, TotalSize, ScrubbedAll, Open, Loaded, RegionEnd, ParsePanics;
    var payload := Serialized(a + [v] + b, l.auth);
    var file, state := Rebuilt(orig, l, payload).value, l.HeaderEnd() + TotalSize(a, l.auth) + 2;
    LayoutIsStable(orig, l, payload);
    RebuiltFrame(orig, l, payload);
    SerializedLength(a + [v] + b, l.auth);
    LayoutBounds(orig, l);
    WalkSkipsDeleted(file, l.HeaderEnd(), l.End(), a, v, b, l.auth, s);
    var d := file[state := s];
    SameHeader(file, d, l);
    OpenByParts(d, limits, l);
    LoadedIsOpen(d, limits);
    RegionEndIsExact(d, l.storeOff, l.storeSize, l.auth);
    if l.End() < 0x1_0000_0000 {
      AlignedIsSafe(d, l.HeaderEnd() + |payload|, l.End(), l.auth);
    } else {
      EmptyRegionIsSafe(d, l);
    }
  }

  lemma LayoutBounds(data: seq<byte>, l: Layout)
    requires LayoutOf(data) == Ok(l)
    ensures (l.storeOff == 0 || l.storeOff == 72) && l.storeSize < 0x1_0000_0000 && l.End() <= |data|
  {
    hide FvWrapped, U32At;
  }

  /** The limits are enforced: a longer file and a file with more variables are refused. */
  lemma LimitsAreEnforced(content: seq<byte>, limits: Limits)
    ensures |content| > limits.maxFileSize ==> Loaded(content, limits) == Err(TooLarge)
    ensures Loaded(content, limits).Ok? ==>
              var o := Loaded(content, limits).value; |o.vars| <= limits.maxVariables || o.vars == []
    ensures limits.Admits(|content|) && LayoutOf(content).Ok? ==>
              var l := LayoutOf(content).value;
              var n := |WalkedFrom(content, l.storeOff, l.storeSize, l.auth)|;
              n > 0 && n > limits.maxVariables ==> Loaded(content, limits) == Err(TooLarge)
  {
    hide LayoutOf, Walk, RegionEnd;
  }

  lemma EmptyRegionIsSafe(data: seq<byte>, l: Layout)
    requires l.storeOff == 72 && l.storeSize < 0x1_0000_0000 <= l.End() <= |data|
    ensures var end := RegionEnd(|data|, l.storeOff, l.storeSize);
            !ParsePanics(data, StopAt(data, l.HeaderEnd(), end, l.auth), end, l.auth)
  {
    hide RecordAt, ParsePanics, Wrap32;
    WrapOnce(l.End());
    var end := RegionEnd(|data|, l.storeOff, l.storeSize);
    PastTheEnd(data, l.HeaderEnd(), end, l.auth);
    AlignedIsSafe(data, l.HeaderEnd(), end, l.auth);
  }

  /** The file opens: no panic, no error. */
  predicate Opens(content: seq<byte>, limits: Limits) {
    Loaded(content, limits).Ok? && !OpenPanics(content, limits)
  }

  /** The missing name terminators fit in the dead space and the unused tail of the region. */
  predicate RoomToCompact(data: seq<byte>, l: Layout)
    requires l.End() <= |data|
  {
    && l.HeaderEnd() <= l.End()
    && TotalGrowth(data, l.HeaderEnd(), l.End(), l.auth)
       <= DeadSpace(data, l.HeaderEnd(), l.End(), l.auth) + l.End() - StopAt(data, l.HeaderEnd(), l.End(), l.auth)
  }

  /** Terminated names never lack that room. */
  lemma TerminatedHasRoom(data: seq<byte>, l: Layout)
    requires l.HeaderEnd() <= l.End() <= |data| && AllTerminated(data, l.HeaderEnd(), l.End(), l.auth)
    ensures RoomToCompact(data, l)
  {
    TerminatedNeedsNoGrowth(data, l.HeaderEnd(), l.End(), l.auth);
  }

  /** Compaction preserves meaning: rewriting the variables that the design's open read drops dead records
      and nothing else, for the design's open and, below 4 GiB, for the code's. It works exactly when
      there is room for the missing terminators. */
  lemma CompactionPreservesMeaning(data: seq<byte>, limits: Limits)
    requires Open(data, limits).Ok?
    ensures var o := Open(data, limits).value;
            o.layout.End() <= |data| &&
            match Rebuilt(data, o.layout, Serialized(o.vars, o.layout.auth))
            case Ok(b) =>
              && Open(b, limits) == Ok(o) && RoomToCompact(data, o.layout)
              && !OpenPanics(b, limits)
              && (o.layout.End() < 0x1_0000_0000 ==> Loaded(b, limits) == Ok(o) == Loaded(data, limits))
            case Err(e) => e == NoSpace && !RoomToCompact(data, o.layout)
  {
    hide LayoutOf, Walk, StopAt, Serialized, TotalSize, TotalGrowth, DeadSpace, Loaded, OpenPanics;
    var o := Open(data, limits).value;
    var l := o.layout;
    WalkIsWellFormed(data, l.HeaderEnd(), l.End(), l.auth);
    ScrubbedAllIsIdentity(o.vars);
    RoomIsExact(data, l, o.vars);
    SpaceIsConserved(data, l.HeaderEnd(), l.End(), l.auth);
    if Rebuilt(data, l, Serialized(o.vars, l.auth)).Ok? {
      OpenRebuilt(data, l, o.vars, limits);
      LoadRebuilt(data, l, o.vars, limits);
      LoadedIsOpen(data, limits);
    }
  }

  /** detectFvWrap. */
  method DetectFvWrap(data: seq<byte>) returns (wrapped: bool)
    ensures wrapped == FvWrapped(data)
  {
    if |data| < FV_HEADER_SIZE { return false; }
    var fvGuid := data[16..32];
    if fvGuid != EFI_SYSTEM_NV_DATA_FV_GUID { return false; }
    return U32At(data, 40) == FV_SIGNATURE;
  }

  /** buildStore: copies the file, erases the region in place, then copies the payload over it. */
  method BuildStore(orig: seq<byte>, l: Layout, payload: seq<byte>) returns (r: Result<seq<byte>>)
    ensures r == Rebuilt(orig, l, payload)
  {
    var headerEnd, end := l.storeOff + STORE_HEADER_SIZE, l.storeOff + l.storeSize;
    if end > |orig| { return Err(BeyondFile); }
    if headerEnd + |payload| > end { return Err(NoSpace); }
    var buf := new byte[|orig|](i requires 0 <= i < |orig| => orig[i]);
    assert buf[..] == orig;
    for i := headerEnd to end
      invariant buf[..headerEnd] == orig[..headerEnd] && buf[end..] == orig[end..]
      invariant forall k :: headerEnd <= k < i ==> buf[k] == ERASED
    {
      buf[i] := ERASED;
    }
    ghost var erased := Repeat(end - headerEnd, ERASED);
    assert buf[headerEnd..end] == erased;
    assert buf[..] == orig[..headerEnd] + erased + orig[end..];
    CopyInto(buf, headerEnd, payload);
    OverErased(orig[..headerEnd], end - headerEnd, payload, orig[end..]);
    return Ok(buf[..]);
  }

  lemma OverErased(a: seq<byte>, n: nat, payload: seq<byte>, c: seq<byte>)
    requires |payload| <= n
    ensures Splice(a + Repeat(n, ERASED) + c, |a|, payload) == a + payload + Repeat(n - |payload|, ERASED) + c
  {
  }
}
