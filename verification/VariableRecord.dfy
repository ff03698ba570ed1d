/** One variable record: VARIABLE_HEADER (32 bytes) or AUTHENTICATED_VARIABLE_HEADER (60 bytes), the
    name, the data, and padding at the end of the record only. */
module VariableRecord {
  import opened Bytes
  import opened Utf16

  type Guid = g: seq<byte> | |g| == 16 witness Repeat(16, 0)

  datatype Variable = Variable(name: GoString, guid: Guid, attributes: uint32, data: seq<byte>)

  const VARIABLE_DATA: uint16 := 0x55AA
  const VAR_ADDED: byte := 0x3F

  function HeaderSize(auth: bool): nat {
    if auth then 60 else 32
  }

  function Align4(n: nat): (r: nat)
    ensures n <= r < n + 4 && r % 4 == 0
  {
    if n % 4 == 0 then n else n + 4 - n % 4
  }

  /** Bytes a variable takes in the region. */
  function RecordSize(v: Variable, auth: bool): nat {
    Align4(HeaderSize(auth) + |Encoded(v.name)| + |v.data|)
  }

  /** alignUp, in wrapping 32-bit arithmetic. */
  function AlignUp(n: uint32): uint32 {
    Wrap32(n + 3) / 4 * 4
  }

  /** The length of padBytes(n). */
  function PadLength(n: uint32): (pad: nat)
    ensures pad < 4 && (n + pad) % 4 == 0
  {
    Wrap32(AlignUp(n) - n)
  }

  function Header(auth: bool, attributes: uint32, nameSize: uint32, dataSize: uint32, guid: Guid): (b: seq<byte>)
    ensures |b| == HeaderSize(auth)
  {
    Le16(VARIABLE_DATA) + [VAR_ADDED, 0] + Le32(attributes) + Repeat(if auth then 28 else 0, 0)
    + Le32(nameSize) + Le32(dataSize) + guid
  }

  /** The bytes of a record; the size fields and the padding use truncated 32-bit sizes. */
  function Record(v: Variable, auth: bool): (b: seq<byte>)
    ensures |b| == RecordSize(v, auth)
  {
    hide Wrap32, PadLength, Align4, Header, Encoded, AlignUp;
    var name := Encoded(v.name);
    var nameSize, dataSize := Wrap32(|name|), Wrap32(|v.data|);
    var pad := PadLength(Wrap32(HeaderSize(auth) + nameSize + dataSize));
    PadOfTruncated(HeaderSize(auth), |name|, |v.data|);
    Header(auth, v.attributes, nameSize, dataSize, v.guid) + name + v.data + Repeat(pad, 0)
  }

  /** 2^32 is a multiple of the alignment, so truncated sizes still give the right padding. */
  lemma PadOfTruncated(h: nat, n: nat, d: nat)
    ensures h + n + d + PadLength(Wrap32(h + Wrap32(n) + Wrap32(d))) == Align4(h + n + d)
  {
    var a := DropMultiple(n);
    var b := DropMultiple(d);
    var c := DropMultiple(h + Wrap32(n) + Wrap32(d));
    var m := Wrap32(h + Wrap32(n) + Wrap32(d));
    PadUnique(h + n + d, m, PadLength(m), a + b + c);
  }

  lemma DropMultiple(n: nat) returns (k: nat)
    ensures n == Wrap32(n) + 4 * k
  {
    k := 0x4000_0000 * (n / 0x1_0000_0000);
  }

  lemma PadUnique(t: nat, m: nat, pad: nat, k: nat)
    requires t == m + 4 * k && pad < 4 && (m + pad) % 4 == 0
    ensures t + pad == Align4(t)
  {
    assert (t + pad) % 4 == 0;
  }

  /** What a parser sees at one position of the region. */
  datatype Parsed = Stop | Dead(next: nat) | Live(variable: Variable, next: nat)

  function GuidAt(data: seq<byte>, i: nat): (g: Guid)
    requires i + 16 <= |data|
  {
    data[i..i + 16]
  }

  function RecordAt(data: seq<byte>, off: nat, end: nat, auth: bool): (p: Parsed)
    requires end <= |data|
    ensures !p.Stop? ==> off + HeaderSize(auth) <= p.next <= end && p.next % 4 == 0
    ensures p.Live? ==> WellFormed(p.variable.name)
  {
    var h := HeaderSize(auth);
    if off + h > end || U16At(data, off) != VARIABLE_DATA then Stop
    else
      var name := off + h;
      var payload := name + U32At(data, off + h - 24);
      var last := payload + U32At(data, off + h - 20);
      if Align4(last) > end then Stop
      else if data[off + 2] != VAR_ADDED || Decoded(data[name..payload]).Err? then Dead(Align4(last))
      else
        Live(Variable(Decoded(data[name..payload]).value, GuidAt(data, name - 16), U32At(data, off + 4),
                      data[payload..last]),
             Align4(last))
  }

  /** Exactly when there is a record, where the next one is, and when it is live: the start marker AA 55,
      a whole header and a whole record inside the region, and then state 3F and a name of whole units.
      Anything else in the state byte, deleted or transitional, leaves the record dead. */
  lemma RecordAtIsExact(data: seq<byte>, off: nat, end: nat, auth: bool)
    requires end <= |data|
    ensures var p, name := RecordAt(data, off, end, auth), off + if auth then 60 else 32;
            if name > end || data[off] != 0xAA || data[off + 1] != 0x55 then p == Stop
            else
              var payload := name + U32At(data, name - 24);
              var last := payload + U32At(data, name - 20);
              && (p.Stop? <==> Align4(last) > end)
              && (!p.Stop? ==> p.next == Align4(last))
              && (p.Live? <==> Align4(last) <= end && data[off + 2] == 0x3F && U32At(data, name - 24) % 2 == 0)
              && (p.Live? ==> && p.variable.attributes == U32At(data, off + 4)
                              && Decoded(data[name..payload]) == Ok(p.variable.name)
                              && p.variable.guid == data[name - 16..name] && p.variable.data == data[payload..last])
  {
    hide Align4, U32At, U16At, Decoded;
    if off + HeaderSize(auth) <= end {
      MarkerBytes(data, off);
    }
  }

  lemma MarkerBytes(data: seq<byte>, off: nat)
    requires off + 2 <= |data|
    ensures U16At(data, off) == VARIABLE_DATA <==> data[off] == 0xAA && data[off + 1] == 0x55
  {
  }

  /** Changing the state byte of a live record to anything else makes the record dead, in place. */
  lemma StateDecides(data: seq<byte>, off: nat, end: nat, auth: bool, s: byte)
    requires end <= |data| && RecordAt(data, off, end, auth).Live? && s != 0x3F
    ensures RecordAt(data[off + 2 := s], off, end, auth) == Dead(RecordAt(data, off, end, auth).next)
  {
    hide Align4, Decoded;
    var b, h := data[off + 2 := s], HeaderSize(auth);
    assert U16At(b, off) == U16At(data, off);
    assert U32At(b, off + h - 24) == U32At(data, off + h - 24) && U32At(b, off + h - 20) == U32At(data, off + h - 20);
  }

  /** The variable a reader gets back from a record. */
  function Scrubbed(v: Variable): Variable {
    v.(name := Scrub(v.name))
  }

  /** Where the fields of a header and of a record are: attributes at 4, then in the short layout the
      sizes at 8 and 12 and the GUID at 16, in the long one at 36, 40 and 44. */
  lemma HeaderFields(auth: bool, attributes: uint32, n: uint32, d: uint32, guid: Guid)
    ensures var r, h := Header(auth, attributes, n, d, guid), HeaderSize(auth);
            && r[0..2] == Le16(VARIABLE_DATA) && r[2] == VAR_ADDED && r[4..8] == Le32(attributes)
            && r[h - 24..h - 20] == Le32(n) && r[h - 20..h - 16] == Le32(d) && r[h - 16..h] == guid
    ensures var r := Header(auth, attributes, n, d, guid);
            && r[0] == 0xAA && r[1] == 0x55 && r[2] == 0x3F && r[3] == 0
            && (if auth then && |r| == 60 && r[8..36] == Repeat(28, 0)
                             && r[36..40] == Le32(n) && r[40..44] == Le32(d) && r[44..60] == guid
                else |r| == 32 && r[8..12] == Le32(n) && r[12..16] == Le32(d) && r[16..32] == guid)
  {
    hide Header, Le32;
    HeaderParts(auth, attributes, n, d, guid);
    var r := Header(auth, attributes, n, d, guid);
    assert r[0] == r[0..4][0] && r[1] == r[0..4][1] && r[2] == r[0..4][2] && r[3] == r[0..4][3];
    assert r[0..2] == r[0..4][0..2];
  }

  lemma HeaderParts(auth: bool, attributes: uint32, n: uint32, d: uint32, guid: Guid)
    ensures var r, h := Header(auth, attributes, n, d, guid), HeaderSize(auth);
            && r[0..4] == Le16(VARIABLE_DATA) + [VAR_ADDED, 0] && r[4..8] == Le32(attributes)
            && r[8..h - 24] == Repeat(h - 32, 0)
            && r[h - 24..h - 20] == Le32(n) && r[h - 20..h - 16] == Le32(d) && r[h - 16..h] == guid
  {
    hide Le16, Le32, Header;
    var r := Header(auth, attributes, n, d, guid);
    var p, q := Le16(VARIABLE_DATA) + [VAR_ADDED, 0], Le32(attributes);
    var z := Repeat(if auth then 28 else 0, 0);
    HeaderTail(auth, attributes, n, d, guid);
    assert r[4..8] == q && r[0..4] == p;
    Middle(r, p + q, z, Le32(n) + Le32(d) + guid);
    SubSlice(r, |p + q + z|, Le32(n) + Le32(d) + guid, 0, 4);
    SubSlice(r, |p + q + z|, Le32(n) + Le32(d) + guid, 4, 8);
    SubSlice(r, |p + q + z|, Le32(n) + Le32(d) + guid, 8, 24);
  }

  lemma HeaderTail(auth: bool, attributes: uint32, n: uint32, d: uint32, guid: Guid)
    ensures Header(auth, attributes, n, d, guid)
            == Le16(VARIABLE_DATA) + [VAR_ADDED, 0] + Le32(attributes) + Repeat(if auth then 28 else 0, 0)
               + (Le32(n) + Le32(d) + guid)
  {
    hide Le16, Le32;
  }

  /** The data follows the name at once, and the padding behind it is zero. */
  lemma RecordFields(v: Variable, auth: bool)
    ensures var r, h, n := Record(v, auth), HeaderSize(auth), |Encoded(v.name)|;
            && r[..h] == Header(auth, v.attributes, Wrap32(n), Wrap32(|v.data|), v.guid)
            && r[h..h + n] == Encoded(v.name) && r[h + n..h + n + |v.data|] == v.data
            && forall i :: h + n + |v.data| <= i < |r| ==> r[i] == 0
  {
    hide Encoded, Header, Wrap32, PadLength, Align4, AlignUp;
    var r, h, name := Record(v, auth), HeaderSize(auth), Encoded(v.name);
    var hdr, pad := r[..h], r[h + |name| + |v.data|..];
    assert r == hdr + name + v.data + pad;
    assert r == hdr + name + (v.data + pad);
    Middle(r, hdr, name, v.data + pad);
    Middle(r, hdr + name, v.data, pad);
  }

  /** A record read in place gives the variable back, with the offset of the next record. */
  lemma RecordAtRecord(data: seq<byte>, off: nat, end: nat, v: Variable, auth: bool)
    requires off % 4 == 0 && off + RecordSize(v, auth) <= end <= |data|
    requires RecordSize(v, auth) < 0x1_0000_0000
    requires data[off..off + RecordSize(v, auth)] == Record(v, auth)
    ensures RecordAt(data, off, end, auth) == Live(Scrubbed(v), off + RecordSize(v, auth))
  {
    hide Decoded, Encoded, RecordAt, Scrub;
    RecordFields(v, auth);
    DecodeEncoded(v.name);
    RecordAtParts(data, off, end, auth, Record(v, auth), Scrubbed(v), Encoded(v.name));
  }

  lemma RecordAtParts(data: seq<byte>, off: nat, end: nat, auth: bool, r: seq<byte>, v: Variable, name: seq<byte>)
    requires off % 4 == 0 && off + |r| <= end <= |data| && data[off..off + |r|] == r && |r| < 0x1_0000_0000
    requires var h, n, d := HeaderSize(auth), |name|, |v.data|;
             && |r| == Align4(h + n + d)
             && r[..h] == Header(auth, v.attributes, Wrap32(n), Wrap32(d), v.guid)
             && r[h..h + n] == name && r[h + n..h + n + d] == v.data
    requires Decoded(name) == Ok(v.name)
    ensures RecordAt(data, off, end, auth) == Live(v, off + |r|)
  {
    hide Decoded, Header, RecordAt, Align4, U16At, U32At;
    var h, n, d := HeaderSize(auth), |name|, |v.data|;
    SubSlice(data, off, r, 0, h);
    SubSlice(data, off, r, h, h + n);
    SubSlice(data, off, r, h + n, h + n + d);
    ReadHeader(data, off, auth, v.attributes, n, d, v.guid);
    AlignShift(off, h + n + d);
    RecordAtFields(data, off, end, auth, n, d, v.name);
  }

  lemma RecordAtFields(data: seq<byte>, off: nat, end: nat, auth: bool, n: nat, d: nat, name: GoString)
    requires var h := HeaderSize(auth);
             && Align4(off + h + n + d) <= end <= |data|
             && U16At(data, off) == VARIABLE_DATA && data[off + 2] == VAR_ADDED
             && U32At(data, off + h - 24) == n && U32At(data, off + h - 20) == d
             && Decoded(data[off + h..off + h + n]) == Ok(name)
    ensures var h := HeaderSize(auth);
            RecordAt(data, off, end, auth)
            == Live(Variable(name, data[off + h - 16..off + h], U32At(data, off + 4),
                             data[off + h + n..off + h + n + d]),
                    Align4(off + h + n + d))
  {
    hide Decoded, U16At, U32At, Align4;
  }

  lemma ReadHeader(data: seq<byte>, off: nat, auth: bool, attributes: uint32, n: uint32, d: uint32, guid: Guid)
    requires off + HeaderSize(auth) <= |data|
    requires data[off..off + HeaderSize(auth)] == Header(auth, attributes, n, d, guid)
    ensures var h := HeaderSize(auth);
            && U16At(data, off) == VARIABLE_DATA && data[off + 2] == VAR_ADDED
            && U32At(data, off + 4) == attributes && U32At(data, off + h - 24) == n
            && U32At(data, off + h - 20) == d && data[off + h - 16..off + h] == guid
  {
    var r, h := Header(auth, attributes, n, d, guid), HeaderSize(auth);
    HeaderFields(auth, attributes, n, d, guid);
    SubSlice(data, off, r, 0, 2);
    SubSlice(data, off, r, 4, 8);
    SubSlice(data, off, r, h - 24, h - 20);
    SubSlice(data, off, r, h - 20, h - 16);
    SubSlice(data, off, r, h - 16, h);
    ReadLe16(data, off, VARIABLE_DATA);
    ReadLe32(data, off + 4, attributes);
    ReadLe32(data, off + h - 24, n);
    ReadLe32(data, off + h - 20, d);
    assert data[off + 2] == data[off..off + h][2];
  }

  /** A record that does not fit before the end of the region is not read. */
  lemma CutRecordStops(data: seq<byte>, off: nat, end: nat, v: Variable, auth: bool)
    requires off % 4 == 0 && end <= |data| && end < off + RecordSize(v, auth) <= |data|
    requires RecordSize(v, auth) < 0x1_0000_0000
    requires data[off..off + RecordSize(v, auth)] == Record(v, auth)
    ensures RecordAt(data, off, end, auth) == Stop
  {
    hide Decoded, Encoded, Record, U16At, U32At, Align4, Header;
    RecordFields(v, auth);
    var h, n, d := HeaderSize(auth), |Encoded(v.name)|, |v.data|;
    SubSlice(data, off, Record(v, auth), 0, h);
    ReadHeader(data, off, auth, v.attributes, n, d, v.guid);
    AlignShift(off, h + n + d);
  }

  lemma AlignIsRounding(n: nat)
    ensures (n + 3) / 4 * 4 == Align4(n)
  {
  }

  lemma AlignShift(off: nat, n: nat)
    requires off % 4 == 0
    ensures Align4(off + n) == off + Align4(n)
  {
  }

  /** Re-encoding a live record takes the same room, plus the NUL its name may have lacked. */
  lemma RecordSizeOfLive(data: seq<byte>, off: nat, end: nat, auth: bool)
    requires off % 4 == 0 && end <= |data| && RecordAt(data, off, end, auth).Live?
    ensures var p := RecordAt(data, off, end, auth);
            RecordSize(p.variable, auth) == p.next - off + Growth(data, off, end, auth)
  {
    hide Decoded, Encoded, RecordAt, NameAt, U32At, Terminated, Align4;
    var v, name := RecordAt(data, off, end, auth).variable, NameAt(data, off, end, auth);
    LiveShape(data, off, end, auth);
    EncodeDecoded(name);
    var x := HeaderSize(auth) + |name| + |v.data|;
    AlignShift(off, x);
    AlignShift(off, x + 2);
    if Terminated(name) {
      assert HeaderSize(auth) + |Encoded(v.name)| + |v.data| == x;
    } else {
      assert HeaderSize(auth) + |Encoded(v.name)| + |v.data| == x + 2;
    }
  }

  lemma LiveShape(data: seq<byte>, off: nat, end: nat, auth: bool)
    requires end <= |data| && RecordAt(data, off, end, auth).Live?
    ensures var p, name := RecordAt(data, off, end, auth), NameAt(data, off, end, auth);
            && p.next == Align4(off + HeaderSize(auth) + |name| + |p.variable.data|)
            && |p.variable.data| == U32At(data, off + HeaderSize(auth) - 20)
            && |name| % 2 == 0 && p.variable.name == Decoded(name).value
  {
    hide Decoded, U16At, U32At, Align4;
  }

  function NameAt(data: seq<byte>, off: nat, end: nat, auth: bool): seq<byte>
    requires end <= |data| && !RecordAt(data, off, end, auth).Stop?
  {
    var name := off + HeaderSize(auth);
    data[name..name + U32At(data, name - 24)]
  }

  /** The room a missing terminator costs once it is written: nothing if the old padding absorbs it. */
  function Growth(data: seq<byte>, off: nat, end: nat, auth: bool): nat
    requires end <= |data| && !RecordAt(data, off, end, auth).Stop?
  {
    var name := NameAt(data, off, end, auth);
    var last := off + HeaderSize(auth) + |name| + U32At(data, off + HeaderSize(auth) - 20);
    if Terminated(name) then 0 else NextUnit(last)
  }

  function NextUnit(last: nat): nat {
    Align4(last + 2) - Align4(last)
  }

  /** safeio.CheckBounds. */
  predicate InBounds(off: int, n: int, limit: int) {
    0 <= off && 0 <= n && off + n <= limit
  }

  /** Near 4 GiB the header's 32-bit offsets wrap, past the truncation test. Then the GUID's slice is
      reversed, or a size field is read beyond a file that ends before 4 GiB: the code panics. */
  predicate HeaderPanics(size: nat, off: nat, auth: bool) {
    var name := off + HeaderSize(auth);
    && name >= 0x1_0000_0000
    && (|| name - 16 < 0x1_0000_0000
        || (name - 20 < 0x1_0000_0000 && name - 16 > size)
        || (name - 24 < 0x1_0000_0000 && name - 20 > size))
  }

  /** The offsets at which parseOneVariable panics: the start marker's own slice is reversed, or the
      marker and 8 bytes are there and then the header panics. */
  predicate ParsePanics(data: seq<byte>, off: nat, end: nat, auth: bool)
    requires end <= |data|
  {
    && off <= end
    && (|| off + 2 >= 0x1_0000_0000
        || (off + 8 <= end && U16At(data, off) == VARIABLE_DATA && HeaderPanics(|data|, off, auth)))
  }

  /** The layout-dependent fields of parseOneVariable: `fits` is false when the header is seen to be
      cut off, `panics` is true when a slice of the data has no valid bounds. */
  method ReadSizes(data: seq<byte>, off: uint32, end: uint32, auth: bool)
    returns (panics: bool, fits: bool, nameSize: uint32, dataSize: uint32, guid: Guid)
    requires off + 8 <= end <= |data|
    ensures panics <==> HeaderPanics(|data|, off, auth)
    ensures !panics && off + HeaderSize(auth) <= end ==>
              var name := off + HeaderSize(auth);
              && fits && nameSize == U32At(data, name - 24) && dataSize == U32At(data, name - 20)
              && guid == data[name - 16..name]
  {
    hide U32At, Wrap32;
    panics, fits, nameSize, dataSize, guid := false, false, 0, 0, Repeat(16, 0);
    var hdrSize, nameAt, dataAt, guidAt := 32, 8, 12, 16;
    if auth { hdrSize, nameAt, dataAt, guidAt := 60, 36, 40, 44; }
    WrapOnce(off + hdrSize);
    WrapOnce(off + nameAt);
    WrapOnce(off + dataAt);
    WrapOnce(off + guidAt);
    if Wrap32(off + hdrSize) > end { return; }
    fits := true;
    if Wrap32(off + nameAt) + 4 > |data| || Wrap32(off + dataAt) + 4 > |data| {
      panics := true;
      return;
    }
    nameSize := U32At(data, Wrap32(off + nameAt));
    dataSize := U32At(data, Wrap32(off + dataAt));
    var low, high := Wrap32(off + guidAt), Wrap32(off + hdrSize);
    if low > high || high > |data| {
      panics := true;
      return;
    }
    guid := GuidAt(data, low);
    assert high == low + 16;
  }

  /** parseOneVariable, in the code's mixture of 32-bit and 64-bit arithmetic, at any offset. An error
      return is Stop, a nil variable is Dead. */
  method ParseOneVariable(data: seq<byte>, off: uint32, end: uint32, auth: bool) returns (panics: bool, p: Parsed)
    requires off <= end <= |data|
    ensures panics <==> ParsePanics(data, off, end, auth)
    ensures !panics ==> p == RecordAt(data, off, end, auth)
  {
    hide Decoded, U16At, U32At, Align4, Wrap32, HeaderPanics;
    WrapOnce(off + 2);
    if Wrap32(off + 2) > end { return false, Stop; }
    if off > Wrap32(off + 2) { return true, Stop; }
    if U16At(data, off) != VARIABLE_DATA { return false, Stop; }
    if !InBounds(off, 8, end) { return false, Stop; }
    var state := data[Wrap32(off + 2)];
    var attributes := U32At(data, Wrap32(off + 4));
    var fits, nameSize, dataSize, guid;
    panics, fits, nameSize, dataSize, guid := ReadSizes(data, off, end, auth);
    if panics || !fits { return panics, Stop; }
    var nameOff64 := off + HeaderSize(auth);
    var dataOff64 := nameOff64 + nameSize;
    var dataEnd64 := dataOff64 + dataSize;
    var next64 := (dataEnd64 + 3) / 4 * 4;
    AlignIsRounding(dataEnd64);
    if !InBounds(nameOff64, nameSize, end) { return false, Stop; }
    if !InBounds(dataOff64, dataSize, end) { return false, Stop; }
    if next64 > end { return false, Stop; }
    var next, nameOff, dataOff := Wrap32(next64), Wrap32(nameOff64), Wrap32(dataOff64);
    assert Wrap32(nameOff + nameSize) == dataOff64 && Wrap32(dataOff + dataSize) == dataEnd64;
    if state != VAR_ADDED { return false, Dead(next); }
    var name := DecodeUtf16Le(data[nameOff..Wrap32(nameOff + nameSize)]);
    if name.Err? { return false, Dead(next); }
    assert dataSize <= end; // safeio.MakeBytes(dataSize, end) cannot refuse
    return false, Live(Variable(name.value, guid, attributes, data[dataOff..Wrap32(dataOff + dataSize)]), next);
  }

  /** Where the code panics the walk would stop: the header runs past the region. */
  lemma PanicsOnlyAtStop(data: seq<byte>, off: nat, end: uint32, auth: bool)
    requires end <= |data| && ParsePanics(data, off, end, auth)
    ensures RecordAt(data, off, end, auth) == Stop && end >= 0x1_0000_0000 - 52
  {
    hide Decoded, U16At;
  }

  /** The header of encodeVariable: fields written in place into a zeroed buffer. */
  method EncodeHeader(auth: bool, attributes: uint32, nameSize: uint32, dataSize: uint32, guid: Guid)
    returns (b: seq<byte>)
    ensures b == Header(auth, attributes, nameSize, dataSize, guid)
  {
    var hdr := new byte[HeaderSize(auth)](_ => 0);
    assert hdr[..] == [] + Repeat(HeaderSize(auth), 0);
    PutNext(hdr, 0, Le16(VARIABLE_DATA), []);
    ghost var p := [] + Le16(VARIABLE_DATA);
    PutNext(hdr, 2, [VAR_ADDED, 0], p);
    p := p + [VAR_ADDED, 0];
    PutNext(hdr, 4, Le32(attributes), p);
    p := p + Le32(attributes);
    var at := if auth then 36 else 8;
    SkipZeros(p, HeaderSize(auth) - 8, at - 8);
    p := p + Repeat(at - 8, 0);
    PutNext(hdr, at, Le32(nameSize), p);
    p := p + Le32(nameSize);
    PutNext(hdr, at + 4, Le32(dataSize), p);
    p := p + Le32(dataSize);
    PutNext(hdr, at + 8, guid, p);
    b := hdr[..];
    assert b == p + guid;
    assert [] + Le16(VARIABLE_DATA) == Le16(VARIABLE_DATA);
  }

  /** encodeVariable. */
  method EncodeVariable(v: Variable, auth: bool) returns (b: seq<byte>)
    ensures b == Record(v, auth)
  {
    var nameBuf := EncodeUtf16Le(v.name);
    var nameSize, dataSize := Wrap32(|nameBuf|), Wrap32(|v.data|);
    var hdr := EncodeHeader(auth, v.attributes, nameSize, dataSize, v.guid);
    var recordPad := Repeat(PadLength(Wrap32(|hdr| + nameSize + dataSize)), 0);
    b := hdr + nameBuf + v.data + recordPad;
  }
}
