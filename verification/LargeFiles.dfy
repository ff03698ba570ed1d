/** Files of about 4 GiB, which only a raised size limit admits: a store on which opening panics, and
    stores whose variables the code does not see and overwrites. */
module LargeFiles {
  import opened Bytes
  import opened Utf16
  import opened VariableRecord
  import opened VariableRegion
  import opened StoreImage
  import opened StoreMachine
  import opened Format

  /** Where the second record starts: 48 bytes below 4 GiB, so that its 60-byte header wraps. */
  const SECOND := 0x1_0000_0000 - 48

  /** One authenticated record that reaches up to there, then a start marker and 6 more bytes. */
  function Payload(): (b: seq<byte>)
    ensures |b| == SECOND - 88
  {
    Repeat(SECOND - 88, 0)
  }

  function CrashingFile(): (b: seq<byte>)
    ensures |b| == SECOND + 8
  {
    StoreHeader(EFI_AUTHENTICATED_VARIABLE_GUID, SECOND + 8)
    + Header(true, 0, 0, SECOND - 88, Repeat(16, 0)) + Payload() + (Le16(VARIABLE_DATA) + Repeat(6, 0))
  }

  /** With a limit that admits it, opening this file panics. */
  lemma CrashingFilePanics(limits: Limits)
    requires limits.Admits(SECOND + 8) && limits.maxVariables >= 1
    ensures LayoutOf(CrashingFile()) == Ok(Layout(false, true, 0, SECOND + 8))
    ensures OpenPanics(CrashingFile(), limits)
  {
    hide CrashingFile, LayoutOf, Walk, StopAt, ParsePanics;
    var b := CrashingFile();
    CrashingLayout();
    CrashingWalk();
    assert RegionEnd(|b|, 0, SECOND + 8) == SECOND + 8;
  }

  lemma CrashingLayout()
    ensures LayoutOf(CrashingFile()) == Ok(Layout(false, true, 0, SECOND + 8))
  {
    hide U32At, StoreHeader, Header, Payload;
    var b := CrashingFile();
    assert b[0..28] == StoreHeader(EFI_AUTHENTICATED_VARIABLE_GUID, SECOND + 8);
    ReadStoreHeader(b, 0, EFI_AUTHENTICATED_VARIABLE_GUID, SECOND + 8);
    assert b[16..32][4] == b[20] != EFI_SYSTEM_NV_DATA_FV_GUID[4];
  }

  /** The walk takes the first record, comes to the second, and cannot be refused before it. */
  lemma CrashingWalk()
    ensures var b := CrashingFile();
            && |Walk(b, 28, |b|, true)| == 1 && StopAt(b, 28, |b|, true) == SECOND
            && ParsePanics(b, SECOND, |b|, true)
  {
    hide U16At, U32At, Header, StoreHeader, Payload, Decoded, RecordAt;
    var b := CrashingFile();
    var hdr, tail := Header(true, 0, 0, SECOND - 88, Repeat(16, 0)), Le16(VARIABLE_DATA) + Repeat(6, 0);
    assert b[28..88] == hdr;
    ReadHeader(b, 28, true, 0, 0, SECOND - 88, Repeat(16, 0));
    assert b[88..88] == [];
    DecodedEmpty();
    RecordAtFields(b, 28, |b|, true, 0, SECOND - 88, []);
    assert b[SECOND..SECOND + 8] == tail;
    SubSlice(b, SECOND, tail, 0, 2);
    ReadLe16(b, SECOND, VARIABLE_DATA);
    PanicsOnlyAtStop(b, SECOND, |b|, true);
  }

  const HUGE_LAYOUT := Layout(true, true, FV_HEADER_SIZE, 0xFFFF_FFFF)

  /** An FV-wrapped store of the largest size a header can state: it ends 71 bytes past 4 GiB. */
  function HugeStore(): (b: seq<byte>)
    ensures |b| == HUGE_LAYOUT.End()
  {
    FvHeader(Geometry(0x1_0000_0047, 0xFFFF_FFFF, 1, 0xFFFF_FFFF), 0)
    + StoreHeader(EFI_AUTHENTICATED_VARIABLE_GUID, 0xFFFF_FFFF)
    + Repeat(0xFFFF_FFFF - STORE_HEADER_SIZE, ERASED)
  }

  lemma HugeLayout()
    ensures LayoutOf(HugeStore()) == Ok(HUGE_LAYOUT)
  {
    hide U32At, StoreHeader, FvHead, FvTail, Le16;
    var b, head := HugeStore(), FvHead(0x1_0000_0047);
    assert b[72..100] == StoreHeader(EFI_AUTHENTICATED_VARIABLE_GUID, 0xFFFF_FFFF);
    ReadStoreHeader(b, FV_HEADER_SIZE, EFI_AUTHENTICATED_VARIABLE_GUID, 0xFFFF_FFFF);
    assert b[0..0x32] == head;
    FvHeadFields(b, 0x1_0000_0047);
  }

  /** A file that holds a variable and that the code opens as empty. */
  lemma HugeStoreReadsEmpty(v: Variable, limits: Limits)
    requires WellFormed(v.name) && STORE_HEADER_SIZE + RecordSize(v, true) <= HUGE_LAYOUT.storeSize
    requires limits.Admits(HUGE_LAYOUT.End()) && limits.maxVariables >= 1
    ensures var r := Rebuilt(HugeStore(), HUGE_LAYOUT, Serialized([v], true));
            && r.Ok? && Open(r.value, limits) == Ok(Opened(limits, HUGE_LAYOUT, [v]))
            && Loaded(r.value, limits) == Ok(Opened(limits, HUGE_LAYOUT, [])) && !OpenPanics(r.value, limits)
  {
    hide HugeStore, LayoutOf, Rebuilt, Open, Loaded, OpenPanics, Serialized, RecordSize, WellFormed;
    HugeLayout();
    assert TotalSize([v], true) == RecordSize(v, true);
    RoomIsExact(HugeStore(), HUGE_LAYOUT, [v]);
    OpenRebuilt(HugeStore(), HUGE_LAYOUT, [v], limits);
    LoadRebuilt(HugeStore(), HUGE_LAYOUT, [v], limits);
    ScrubbedAllIsIdentity([v]);
  }

  /** Whatever variables such a store holds, the first Set on it replaces all of them by its own, and
      that one the code does not read back either. */
  lemma FirstSetErasesHugeStore(data: seq<byte>, limits: Limits, v: Variable)
    requires Opens(data, limits) && Loaded(data, limits).value.layout.End() >= 0x1_0000_0000
    requires limits.maxVariables >= 1 && Step(Start(data, limits), Set(v), Works).1.Ok?
    ensures var l, n := Loaded(data, limits).value.layout, Step(Start(data, limits), Set(v), Works).0;
            && Open(n.file, limits) == Ok(Opened(limits, l, [Scrubbed(v)]))
            && Loaded(n.file, limits) == Ok(Opened(limits, l, []))
  {
    hide Open, Loaded, OpenPanics, Attached, LayoutOf, Rebuilt, Serialized;
    var m := Start(data, limits);
    StartAgrees(data, limits);
    LoadedIsOpen(data, limits);
    assert Without(m.mem.vars, KeyOf(v)) + [v] == [v];
    SuccessAgrees(m, Set(v), Works);
    assert ScrubbedAll([v]) == [Scrubbed(v)];
  }
}
