/** Time-based authenticated writes: EFI_TIME and EFI_VARIABLE_AUTHENTICATION_2 framing (section 8.2.2
    of UEFI 2.10). The signature itself is a parameter. */
module Authentication {
  import opened Bytes
  import opened Utf16
  import opened VariableRecord
  import opened VariableRegion
  import opened StoreImage
  import opened StoreMachine
  import opened VariableStore

  type int16 = x: int | -0x8000 <= x < 0x8000

  datatype EfiTime = EfiTime(year: uint16, month: byte, day: byte, hour: byte, minute: byte, second: byte,
                             nanosecond: uint32, timeZone: int16, daylight: byte)

  const TIME_SIZE := 16
  const CERT_HEADER_SIZE := 24
  const CERT_REVISION: uint16 := 0x0200
  const CERT_TYPE_EFI_GUID: uint16 := 0x0EF1
  const PKCS7_GUID: Guid :=
    [0x9D, 0xD2, 0xAF, 0x4A, 0xDF, 0x68, 0xEE, 0x49, 0x8A, 0xA9, 0x34, 0x7D, 0x37, 0x56, 0x65, 0xA7]

  /** int16(n): two's complement. */
  function Signed16(n: uint16): int16 {
    if n < 0x8000 then n else n - 0x1_0000
  }

  /** What EFITime.Marshal writes: little-endian fields, the time zone in two's complement, zero pads. */
  function TimeBytes(t: EfiTime): (b: seq<byte>)
    ensures |b| == TIME_SIZE
  {
    Le16(t.year) + [t.month, t.day, t.hour, t.minute, t.second, 0] + Le32(t.nanosecond)
    + Le16(Wrap16(t.timeZone)) + [t.daylight, 0]
  }

  /** parseEFITime. */
  function ParsedTime(b: seq<byte>): Result<EfiTime> {
    if |b| < TIME_SIZE then Err(Truncated)
    else Ok(EfiTime(U16At(b, 0), b[2], b[3], b[4], b[5], b[6], U32At(b, 8), Signed16(U16At(b, 12)), b[14]))
  }

  /** The writer fills a zeroed buffer in place, leaving the pad bytes. */
  method MarshalTime(t: EfiTime) returns (b: seq<byte>)
    ensures b == TimeBytes(t)
  {
    hide Le16, Le32, Wrap16;
    var buf := new byte[TIME_SIZE](_ => 0);
    assert buf[..] == [] + Repeat(16, 0);
    PutNext(buf, 0, Le16(t.year), []);
    ghost var p := [] + Le16(t.year);
    PutNext(buf, 2, [t.month, t.day, t.hour, t.minute, t.second], p);
    p := p + [t.month, t.day, t.hour, t.minute, t.second];
    SkipZeros(p, 9, 1);
    p := p + Repeat(1, 0);
    PutNext(buf, 8, Le32(t.nanosecond), p);
    p := p + Le32(t.nanosecond);
    PutNext(buf, 12, Le16(Wrap16(t.timeZone)), p);
    p := p + Le16(Wrap16(t.timeZone));
    PutNext(buf, 14, [t.daylight], p);
    b := buf[..];
    assert b == TimeBytes(t);
  }

  lemma SignedWraps(z: int16, n: uint16)
    ensures Signed16(Wrap16(z)) == z && Wrap16(Signed16(n)) == n
  {
  }

  /** Where the fields of a timestamp are. */
  lemma TimeFields(t: EfiTime)
    ensures var b := TimeBytes(t);
            && |b| == 16 && U16At(b, 0) == t.year && b[2] == t.month && b[3] == t.day && b[4] == t.hour
            && b[5] == t.minute && b[6] == t.second && b[7] == 0 && U32At(b, 8) == t.nanosecond
            && U16At(b, 12) == (if t.timeZone < 0 then t.timeZone + 0x1_0000 else t.timeZone)
            && b[14] == t.daylight && b[15] == 0
  {
    hide U16At, U32At, Le16, Le32, Wrap16;
    var b := TimeBytes(t);
    assert b[0..2] == Le16(t.year) && b[8..12] == Le32(t.nanosecond) && b[12..14] == Le16(Wrap16(t.timeZone));
    ReadLe16(b, 0, t.year);
    ReadLe32(b, 8, t.nanosecond);
    ReadLe16(b, 12, Wrap16(t.timeZone));
    WrapNegative(t.timeZone);
  }

  lemma WrapNegative(z: int16)
    ensures Wrap16(z) == if z < 0 then z + 0x1_0000 else z
  {
  }

  /** Every timestamp survives, negative time zones included, whatever follows it. */
  lemma TimeRoundTrip(t: EfiTime, rest: seq<byte>)
    ensures ParsedTime(TimeBytes(t) + rest) == Ok(t)
  {
    hide U16At, U32At, Le16, Le32, Wrap16, Signed16;
    var b := TimeBytes(t) + rest;
    assert b[0..2] == Le16(t.year) && b[8..12] == Le32(t.nanosecond) && b[12..14] == Le16(Wrap16(t.timeZone));
    ReadLe16(b, 0, t.year);
    ReadLe32(b, 8, t.nanosecond);
    ReadLe16(b, 12, Wrap16(t.timeZone));
    SignedWraps(t.timeZone, 0);
  }

  /** Sixteen bytes come back exactly when their two pad bytes are zero. */
  lemma TimeBytesOfParsed(b: seq<byte>)
    requires |b| >= TIME_SIZE
    ensures TimeBytes(ParsedTime(b).value) == b[..TIME_SIZE] <==> b[7] == 0 && b[15] == 0
  {
    hide U16At, U32At, Le16, Le32, Wrap16, Signed16;
    var t := ParsedTime(b).value;
    WriteU16(b, 0);
    WriteU32(b, 8);
    WriteU16(b, 12);
    SignedWraps(0, U16At(b, 12));
    assert b[..TIME_SIZE] == b[0..2] + [b[2], b[3], b[4], b[5], b[6], b[7]] + b[8..12] + b[12..14] + [b[14], b[15]];
    assert TimeBytes(t) == b[0..2] + [b[2], b[3], b[4], b[5], b[6], 0] + b[8..12] + b[12..14] + [b[14], 0];
    assert TimeBytes(t)[7] == 0 && TimeBytes(t)[15] == 0 && b[..TIME_SIZE][7] == b[7] && b[..TIME_SIZE][15] == b[15];
  }

  datatype Authentication2 = Authentication2(timeStamp: EfiTime, certType: Guid, pkcs7: seq<byte>)

  function CertHeader(length: uint32, certType: Guid): (b: seq<byte>)
    ensures |b| == CERT_HEADER_SIZE
  {
    Le32(length) + Le16(CERT_REVISION) + Le16(CERT_TYPE_EFI_GUID) + certType
  }

  /** The descriptor: timestamp, certificate header with a 32-bit length, signature. */
  function Descriptor(t: EfiTime, pkcs7: seq<byte>): seq<byte> {
    TimeBytes(t) + CertHeader(Wrap32(CERT_HEADER_SIZE + |pkcs7|), PKCS7_GUID) + pkcs7
  }

  function CertLength(b: seq<byte>): uint32
    requires |b| >= TIME_SIZE + CERT_HEADER_SIZE
  {
    U32At(b, TIME_SIZE)
  }

  function ParsedAuthentication(b: seq<byte>): Result<Authentication2> {
    if |b| < TIME_SIZE + CERT_HEADER_SIZE then Err(TooSmall)
    else if U16At(b, 20) != CERT_REVISION then Err(BadCertificate)
    else if U16At(b, 22) != CERT_TYPE_EFI_GUID then Err(BadCertificate)
    else if CertLength(b) < CERT_HEADER_SIZE || CertLength(b) > |b| - TIME_SIZE then Err(BadLength)
    else Ok(Authentication2(ParsedTime(b).value, b[24..40], b[40..TIME_SIZE + CertLength(b)]))
  }

  lemma ReadCertHeader(b: seq<byte>, length: uint32, certType: Guid)
    requires |b| >= TIME_SIZE + CERT_HEADER_SIZE && b[16..40] == CertHeader(length, certType)
    ensures CertLength(b) == length && U16At(b, 20) == CERT_REVISION && U16At(b, 22) == CERT_TYPE_EFI_GUID
    ensures b[24..40] == certType
  {
    hide U16At, U32At, Le16, Le32;
    var h := CertHeader(length, certType);
    assert h[0..4] == Le32(length) && h[4..6] == Le16(CERT_REVISION);
    assert h[6..8] == Le16(CERT_TYPE_EFI_GUID) && h[8..24] == certType;
    SubSlice(b, 16, h, 0, 4);
    SubSlice(b, 16, h, 4, 6);
    SubSlice(b, 16, h, 6, 8);
    SubSlice(b, 16, h, 8, 24);
    ReadLe32(b, 16, length);
    ReadLe16(b, 20, CERT_REVISION);
    ReadLe16(b, 22, CERT_TYPE_EFI_GUID);
  }

  /** Where the fields of a descriptor are. */
  lemma DescriptorFields(t: EfiTime, pkcs7: seq<byte>)
    ensures var b := Descriptor(t, pkcs7);
            && |b| == 40 + |pkcs7| && b[..16] == TimeBytes(t)
            && (24 + |pkcs7| < 0x1_0000_0000 ==> U32At(b, 16) == 24 + |pkcs7|)
            && U16At(b, 20) == 0x0200 && U16At(b, 22) == 0x0EF1 && b[24..40] == PKCS7_GUID && b[40..] == pkcs7
  {
    hide TimeBytes, CertHeader, U16At, U32At, Wrap32;
    var b, h := Descriptor(t, pkcs7), CertHeader(Wrap32(CERT_HEADER_SIZE + |pkcs7|), PKCS7_GUID);
    Middle(b, TimeBytes(t), h, pkcs7);
    ReadCertHeader(b, Wrap32(CERT_HEADER_SIZE + |pkcs7|), PKCS7_GUID);
  }

  /** Exactly which descriptors are accepted, and what is read from them. */
  lemma ParsedAuthenticationIsExact(b: seq<byte>)
    ensures ParsedAuthentication(b).Ok? <==>
            && |b| >= 40 && U16At(b, 20) == 0x0200 && U16At(b, 22) == 0x0EF1
            && 24 <= U32At(b, 16) && 16 + U32At(b, 16) <= |b|
    ensures ParsedAuthentication(b).Ok? ==>
              var a := ParsedAuthentication(b).value;
              && ParsedTime(b) == Ok(a.timeStamp) && a.certType == b[24..40] && a.pkcs7 == b[40..16 + U32At(b, 16)]
  {
    hide U16At, U32At;
  }

  /** Parsing a stored payload recovers timestamp, certificate type and signature exactly when the
      certificate length fits in 32 bits; the data is then what follows the certificate. */
  lemma ParseDescriptor(t: EfiTime, pkcs7: seq<byte>, data: seq<byte>)
    ensures var b := Descriptor(t, pkcs7) + data;
            && (ParsedAuthentication(b) == Ok(Authentication2(t, PKCS7_GUID, pkcs7))
                <==> CERT_HEADER_SIZE + |pkcs7| < 0x1_0000_0000)
            && (CERT_HEADER_SIZE + |pkcs7| < 0x1_0000_0000 ==> b[TIME_SIZE + CertLength(b)..] == data)
  {
    hide TimeBytes, ParsedTime, CertHeader, U16At, U32At, Wrap32, CertLength;
    var b, n := Descriptor(t, pkcs7) + data, CERT_HEADER_SIZE + |pkcs7|;
    var h := CertHeader(Wrap32(n), PKCS7_GUID);
    assert b == TimeBytes(t) + (h + pkcs7 + data);
    TimeRoundTrip(t, h + pkcs7 + data);
    assert b[16..40] == h;
    ReadCertHeader(b, Wrap32(n), PKCS7_GUID);
    assert b[40..40 + |pkcs7|] == pkcs7 && b[40 + |pkcs7|..] == data;
    var r := ParsedAuthentication(b);
    if n >= 0x1_0000_0000 && r.Ok? {
      assert |r.value.pkcs7| == Wrap32(n) - CERT_HEADER_SIZE < |pkcs7|;
    }
  }

  /** Framing again what was parsed reproduces the payload exactly when the certificate type is PKCS#7
      and the timestamp's pad bytes are zero. */
  lemma DescriptorOfParsed(b: seq<byte>)
    requires ParsedAuthentication(b).Ok?
    ensures var a := ParsedAuthentication(b).value;
            Descriptor(a.timeStamp, a.pkcs7) + b[TIME_SIZE + CertLength(b)..] == b
            <==> a.certType == PKCS7_GUID && b[7] == 0 && b[15] == 0
  {
    hide TimeBytes, ParsedTime, U16At, U32At, Le16, Le32, Wrap32;
    var a := ParsedAuthentication(b).value;
    var end := TIME_SIZE + CertLength(b);
    var d := Descriptor(a.timeStamp, a.pkcs7) + b[end..];
    WriteU32(b, 16);
    WriteU16(b, 20);
    WriteU16(b, 22);
    assert b[16..40] == b[16..20] + b[20..22] + b[22..24] + b[24..40];
    assert b == b[..16] + b[16..40] + b[40..end] + b[end..];
    assert CertHeader(CertLength(b), a.certType) == b[16..40];
    TimeBytesOfParsed(b);
    assert d[..16] == TimeBytes(a.timeStamp) && d[24..40] == PKCS7_GUID;
  }

  // ---------- Building and writing ----------

  /** The signing key and certificate, or their absence. */
  datatype Signer = NoSigner | Signer(sign: seq<byte> -> Result<seq<byte>>)

  const AUTHENTICATED_WRITE: uint32 := 0x20

  predicate HasAuthenticatedWrite(attributes: uint32) {
    attributes / AUTHENTICATED_WRITE % 2 == 1
  }

  /** digestTBS: name without NUL, GUID, attributes, timestamp, data. */
  function ToBeSigned(name: GoString, guid: Guid, attributes: uint32, t: EfiTime, data: seq<byte>): seq<byte> {
    Encoded(name)[..|Encoded(name)| - 2] + guid + Le32(attributes) + TimeBytes(t) + data
  }

  /** What is signed, field by field: n is the length of the encoded name without its NUL. */
  lemma SignedFields(name: GoString, guid: Guid, attributes: uint32, t: EfiTime, data: seq<byte>)
    ensures var n, b := |Encoded(name)| - 2, ToBeSigned(name, guid, attributes, t, data);
            && |b| == n + 36 + |data|
            && b[..n] + [0, 0] == Encoded(name) && b[n..n + 16] == guid && U32At(b, n + 16) == attributes
            && b[n + 20..n + 36] == TimeBytes(t) && ParsedTime(b[n + 20..]) == Ok(t) && b[n + 36..] == data
  {
    hide Encoded, TimeBytes, Le32, U32At, ParsedTime;
    var name16, time, attr := Encoded(name), TimeBytes(t), Le32(attributes);
    var n, b := |name16| - 2, ToBeSigned(name, guid, attributes, t, data);
    EncodedEndsInNul(name);
    var p := name16[..n];
    assert name16 == p + name16[n..];
    assert b == p + guid + (attr + time + data);
    Middle(b, p, guid, attr + time + data);
    assert b == (p + guid) + attr + (time + data);
    Middle(b, p + guid, attr, time + data);
    ReadLe32(b, n + 16, attributes);
    assert b[n + 20..] == time + data;
    Middle(b, p + guid + attr, time, data);
    TimeRoundTrip(t, data);
  }

  lemma EncodedEndsInNul(s: GoString)
    ensures Encoded(s)[|Encoded(s)| - 2..] == [0, 0]
  {
    hide EncodeRunes, Runes;
    var u := EncodeRunes(Runes(s)) + [0];
    assert U16At(Encoded(s), 2 * (|u| - 1)) == 0;
  }

  /** A signature binds everything: for names of the same encoded length, equal signed bytes mean the same
      encoded name, GUID, attributes, timestamp and data. */
  lemma SignatureBinds(x: Variable, t: EfiTime, y: Variable, u: EfiTime)
    requires |Encoded(x.name)| == |Encoded(y.name)|
    requires ToBeSigned(x.name, x.guid, x.attributes, t, x.data) == ToBeSigned(y.name, y.guid, y.attributes, u, y.data)
    ensures Scrub(x.name) == Scrub(y.name) && x.guid == y.guid && x.attributes == y.attributes
    ensures x.data == y.data && t == u
  {
    hide Encoded, Decoded, ToBeSigned, U32At, ParsedTime, TimeBytes, Scrub;
    SignedFields(x.name, x.guid, x.attributes, t, x.data);
    SignedFields(y.name, y.guid, y.attributes, u, y.data);
    DecodeEncoded(x.name);
    DecodeEncoded(y.name);
  }

  /** BuildAuthentication2: appends the marshalled parts to a buffer. */
  method BuildAuthentication2(name: GoString, guid: Guid, attributes: uint32, data: seq<byte>, t: EfiTime,
                              signer: Signer)
    returns (r: Result<seq<byte>>)
    ensures signer.NoSigner? ==> r == Err(SignFailed)
    ensures signer.Signer? && attributes / 32 % 2 == 0 ==> r == Err(BadAttributes)
    ensures signer.Signer? && attributes / 32 % 2 == 1 ==>
              r == match signer.sign(ToBeSigned(name, guid, attributes, t, data))
                   case Err(e) => Err(e)
                   case Ok(pkcs7) => Ok(Descriptor(t, pkcs7))
  {
    hide Encoded, TimeBytes, Le16, Le32;
    if signer.NoSigner? { return Err(SignFailed); }
    if !HasAuthenticatedWrite(attributes) { return Err(BadAttributes); }
    var nameBytes := EncodeUtf16Le(name);
    var time := MarshalTime(t);
    var tbs := nameBytes[..|nameBytes| - 2] + guid + Le32(attributes) + time + data;
    var signed := signer.sign(tbs);
    if signed.Err? { return Err(signed.error); }
    var certLen := CERT_HEADER_SIZE + |signed.value|;
    var out := time;
    var hdr := new byte[CERT_HEADER_SIZE](_ => 0);
    assert hdr[..] == [] + Repeat(24, 0);
    PutNext(hdr, 0, Le32(Wrap32(certLen)), []);
    ghost var p := [] + Le32(Wrap32(certLen));
    PutNext(hdr, 4, Le16(CERT_REVISION), p);
    p := p + Le16(CERT_REVISION);
    PutNext(hdr, 6, Le16(CERT_TYPE_EFI_GUID), p);
    p := p + Le16(CERT_TYPE_EFI_GUID);
    PutNext(hdr, 8, PKCS7_GUID, p);
    assert hdr[..] == CertHeader(Wrap32(certLen), PKCS7_GUID);
    out := out + hdr[..];
    out := out + signed.value;
    return Ok(out);
  }

  /** The attributes WriteAuthenticatedVariable writes with: bit 5 is set and every other bit of the
      caller's is kept; no attributes at all mean 0x27. */
  function WriteAttributes(attributes: uint32): (a: uint32)
    ensures HasAuthenticatedWrite(a) && a / 32 % 2 == 1
    ensures if attributes == 0 then a == 0x27 else a % 32 == attributes % 32 && a / 64 == attributes / 64
  {
    if attributes == 0 then 0x27
    else if HasAuthenticatedWrite(attributes) then attributes
    else
      AddBit5(attributes / 64, attributes % 64);
      attributes + AUTHENTICATED_WRITE
  }

  lemma AddBit5(q: nat, r: nat)
    requires r < 64 && (64 * q + r) / 32 % 2 == 0
    ensures r < 32
    ensures var a, b := 64 * q + r, 64 * q + r + 32; b % 32 == a % 32 && b / 64 == q && b / 32 % 2 == 1
  {
    assert (64 * q + r) / 32 == 2 * q + r / 32;
    assert (64 * q + r + 32) / 32 == 2 * q + 1 + r / 32;
  }

  /** WriteAuthenticatedVariable. */
  method WriteAuthenticatedVariable(store: Store, name: GoString, guid: Guid, attributes: uint32, data: seq<byte>,
                                    t: EfiTime, signer: Signer, io: Io) returns (r: Result<()>)
    modifies store`vars, store`synced, store.disk
    ensures signer.NoSigner? ==> r == Err(SignFailed) && store.State() == old(store.State())
    ensures signer.Signer? ==>
              var a := WriteAttributes(attributes);
              match signer.sign(ToBeSigned(name, guid, a, t, data))
              case Err(e) => r == Err(e) && store.State() == old(store.State())
              case Ok(pkcs7) =>
                (store.State(), r)
                == Step(old(store.State()), Set(Variable(name, guid, a, Descriptor(t, pkcs7) + data)), io)
  {
    hide Step, ToBeSigned, Descriptor;
    var a := WriteAttributes(attributes);
    var descriptor := BuildAuthentication2(name, guid, a, data, t, signer);
    if descriptor.Err? { return Err(descriptor.error); }
    var payload := descriptor.value + data;
    r := store.Set(Variable(name, guid, a, payload), io);
  }

  /** A write that reaches the store always reads back: what fits in a store has a certificate length
      below 2^32. With well-formed names within the limit it reads back from the code's open of the file
      too, exactly when the store ends below 4 GiB. */
  lemma AuthenticatedWriteReadsBack(m: Machine, v: Variable, t: EfiTime, pkcs7: seq<byte>, data: seq<byte>, io: Io)
    requires Attached(m) && v.data == Descriptor(t, pkcs7) + data && Step(m, Set(v), io).1.Ok?
    ensures var n := Step(m, Set(v), io).0;
            && KeyOf(v) in AsMap(n.mem.vars) && AsMap(n.mem.vars)[KeyOf(v)] == v
            && !OpenPanics(n.file, n.mem.limits)
            && (AllWellFormed(m.mem.vars) && WellFormed(v.name) && !TooMany(|n.mem.vars|, n.mem.limits.maxVariables) ==>
                  (Loaded(n.file, n.mem.limits) == Ok(n.mem) <==> n.mem.layout.End() < 0x1_0000_0000))
    ensures ParsedAuthentication(v.data) == Ok(Authentication2(t, PKCS7_GUID, pkcs7))
    ensures v.data[TIME_SIZE + CertLength(v.data)..] == data
  {
    hide AsMap, ParsedAuthentication, CertLength, Attached, Step, CertHeader, TimeBytes, Loaded, OpenPanics, WellFormed;
    var n := Step(m, Set(v), io).0;
    StepRefinesMap(m, Set(v), io);
    ParseDescriptor(t, pkcs7, data);
    WrittenDataIsShort(m, v, io);
    SuccessAgrees(m, Set(v), io);
    AsMapKeys(n.mem.vars);
    if AllWellFormed(m.mem.vars) && WellFormed(v.name) && !TooMany(|n.mem.vars|, n.mem.limits.maxVariables) {
      OkIsWorks(m, Set(v), io);
      StepIsPlain(m, Set(v), io);
      ReadsBackExactly(m, Set(v), io);
    }
  }

  lemma OkIsWorks(m: Machine, op: Op, io: Io)
    requires Step(m, op, io).1.Ok?
    ensures io.Works?
  {
    hide Rebuilt, Serialized, Without, AsMap;
  }

  lemma WrittenDataIsShort(m: Machine, v: Variable, io: Io)
    requires Attached(m) && Step(m, Set(v), io).1.Ok?
    ensures |v.data| < 0x1_0000_0000
  {
    hide AsMap, LayoutOf, Without, TotalSize, RecordSize, Serialized, Rebuilt;
    StepFits(m, Set(v), io);
    SizeOfAppend(Without(m.mem.vars, KeyOf(v)), v, m.mem.layout.auth);
    RecordHoldsData(v, m.mem.layout.auth);
  }

  lemma RecordHoldsData(v: Variable, auth: bool)
    ensures RecordSize(v, auth) >= |v.data|
  {
    hide Encoded;
  }
}
