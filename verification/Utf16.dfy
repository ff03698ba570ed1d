/** UTF-16LE names: section 2 of RFC 2781 between Go strings and NUL-terminated byte buffers. */
module Utf16 {
  import opened Bytes

  predicate IsScalar(c: int) {
    0 <= c <= 0xD7FF || 0xE000 <= c <= 0x10FFFF
  }

  type Scalar = c: int | IsScalar(c)

  /** One step of ranging over a Go string: a decoded scalar value, or a byte b (0x80..0xFF) that is
      not part of well-formed UTF-8, written 0x110000 + b. Two Go strings are equal exactly when
      these sequences are. */
  type Char = c: int | IsScalar(c) || 0x110080 <= c < 0x110100

  type GoString = seq<Char>

  const REPLACEMENT: Scalar := 0xFFFD

  /** The string is well-formed UTF-8. */
  predicate WellFormed(s: GoString) {
    forall i :: 0 <= i < |s| ==> IsScalar(s[i])
  }

  function RuneOf(c: Char): Scalar {
    if IsScalar(c) then c else REPLACEMENT
  }

  /** []rune(s): undecodable bytes become U+FFFD. */
  function Runes(s: GoString): (r: seq<Scalar>)
    ensures |r| == |s|
    ensures forall i :: 0 <= i < |s| ==> r[i] == RuneOf(s[i])
  {
    seq(|s|, i requires 0 <= i < |s| => RuneOf(s[i]))
  }

  /** The well-formed string that a round trip through UTF-16 leaves. */
  function Scrub(s: GoString): (r: GoString)
    ensures WellFormed(r) && |r| == |s|
    ensures r == s <==> WellFormed(s)
    ensures forall i :: 0 <= i < |s| ==> r[i] == if IsScalar(s[i]) then s[i] else 0xFFFD
  {
    Runes(s)
  }

  predicate High(u: uint16) { 0xD800 <= u < 0xDC00 }
  predicate Low(u: uint16) { 0xDC00 <= u < 0xE000 }

  /** Every surrogate is half of an adjacent high-low pair. */
  predicate Paired(u: seq<uint16>) {
    && (forall i :: 0 <= i < |u| && High(u[i]) ==> i + 1 < |u| && Low(u[i + 1]))
    && (forall i :: 0 <= i < |u| && Low(u[i]) ==> 0 < i && High(u[i - 1]))
  }

  function EncodeRune(r: Scalar): (u: seq<uint16>)
    ensures 1 <= |u| <= 2
  {
    assert IsScalar(r);
    if r < 0x1_0000 then
      var unit: uint16 := r;
      [unit]
    else
      var high: uint16, low: uint16 := 0xD800 + (r - 0x1_0000) / 0x400, 0xDC00 + (r - 0x1_0000) % 0x400;
      [high, low]
  }

  function EncodeRunes(s: seq<Scalar>): seq<uint16> {
    if s == [] then [] else EncodeRune(s[0]) + EncodeRunes(s[1..])
  }

  /** utf16.Decode: an unpaired surrogate becomes U+FFFD. */
  function DecodeUnits(u: seq<uint16>): seq<Scalar> {
    if u == [] then []
    else if High(u[0]) && |u| > 1 && Low(u[1]) then
      [0x1_0000 + 0x400 * (u[0] - 0xD800) + (u[1] - 0xDC00)] + DecodeUnits(u[2..])
    else [if High(u[0]) || Low(u[0]) then REPLACEMENT else u[0]] + DecodeUnits(u[1..])
  }

  lemma {:induction false} DecodeUnitsOfRunes(s: seq<Scalar>)
    ensures DecodeUnits(EncodeRunes(s)) == s
  {
    if s != [] {
      DecodeUnitsOfRunes(s[1..]);
      var e, t := EncodeRune(s[0]), EncodeRunes(s[1..]);
      assert (e + t)[|e|..] == t;
    }
  }

  /** Every scalar value past the basic plane is a surrogate pair, as in the examples of RFC 2781, and a
      surrogate on its own decodes to U+FFFD. */
  lemma SurrogateExamples(lone: uint16)
    requires 0xD800 <= lone < 0xE000
    ensures EncodeRune(0x12345) == [0xD808, 0xDF45] && DecodeUnits([0xD808, 0xDF45]) == [0x12345]
    ensures DecodeUnits([lone]) == [0xFFFD]
  {
    assert [0xD808, 0xDF45][2..] == [] && [lone][1..] == [];
  }

  /** How many units the decoder takes from the front: a whole pair, or one. */
  function FirstWidth(u: seq<uint16>): (k: nat)
    requires u != []
    ensures 1 <= k <= 2 && k <= |u|
  {
    if High(u[0]) && |u| > 1 && Low(u[1]) then 2 else 1
  }

  lemma EncodePair(high: uint16, low: uint16)
    requires High(high) && Low(low)
    ensures EncodeRune(0x1_0000 + 0x400 * (high - 0xD800) + (low - 0xDC00)) == [high, low]
  {
  }

  lemma EncodeFirst(u: seq<uint16>)
    requires u != []
    ensures var d, k := DecodeUnits(u), FirstWidth(u);
            && d != [] && d[1..] == DecodeUnits(u[k..])
            && |EncodeRune(d[0])| == k
            && (EncodeRune(d[0]) == u[..k] <==> k == 2 || !(High(u[0]) || Low(u[0])))
  {
    var d, k := DecodeUnits(u), FirstWidth(u);
    assert d == [d[0]] + DecodeUnits(u[k..]);
    if k == 2 {
      EncodePair(u[0], u[1]);
      assert u[..k] == [u[0], u[1]];
    } else {
      assert EncodeRune(d[0]) == [d[0]];
      assert u[..k] == [u[0]];
    }
  }

  /** Decoding then encoding keeps the number of units, and keeps the units exactly when every
      surrogate was paired. */
  lemma {:induction false} EncodeRunesOfUnits(u: seq<uint16>)
    ensures |EncodeRunes(DecodeUnits(u))| == |u|
    ensures EncodeRunes(DecodeUnits(u)) == u <==> Paired(u)
  {
    if u != [] {
      var d, k := DecodeUnits(u), FirstWidth(u);
      EncodeFirst(u);
      EncodeRunesOfUnits(u[k..]);
      PairedSplit(u, k);
      SplitEqual(EncodeRune(d[0]), EncodeRunes(d[1..]), u, k);
    }
  }

  lemma SplitEqual<T>(a: seq<T>, b: seq<T>, u: seq<T>, k: nat)
    requires |a| == k <= |u|
    ensures a + b == u <==> a == u[..k] && b == u[k..]
  {
    if a + b == u {
      assert a == (a + b)[..k] && b == (a + b)[k..];
    }
  }

  lemma PairedSplit(u: seq<uint16>, k: nat)
    requires u != [] && k == FirstWidth(u)
    ensures Paired(u) <==> (k == 2 || !(High(u[0]) || Low(u[0]))) && Paired(u[k..])
  {
    var t := u[k..];
    assert forall i :: 0 <= i < |t| ==> t[i] == u[i + k];
    if (k == 2 || !(High(u[0]) || Low(u[0]))) && Paired(t) {
      forall i | 0 <= i < |u| && High(u[i])
        ensures i + 1 < |u| && Low(u[i + 1])
      {
        if i >= k { assert High(t[i - k]); }
      }
      forall i | 0 <= i < |u| && Low(u[i])
        ensures 0 < i && High(u[i - 1])
      {
        if i >= k { assert Low(t[i - k]); }
      }
    }
    if Paired(u) {
      forall i | 0 <= i < |t| && High(t[i])
        ensures i + 1 < |t| && Low(t[i + 1])
      {
        assert High(u[i + k]);
      }
      forall i | 0 <= i < |t| && Low(t[i])
        ensures 0 < i && High(t[i - 1])
      {
        assert Low(u[i + k]);
        assert High(u[i + k - 1]);
      }
    }
  }

  /** The little-endian bytes of a unit sequence, and back. */
  function BytesOfUnits(u: seq<uint16>): (b: seq<byte>)
    ensures |b| == 2 * |u|
    ensures forall i :: 0 <= i < |u| ==> U16At(b, 2 * i) == u[i]
  {
    if u == [] then []
    else
      var b := BytesOfUnits(u[..|u| - 1]);
      var r := b + Le16(u[|u| - 1]);
      assert forall i :: 0 <= i < |u| - 1 ==> U16At(r, 2 * i) == U16At(b, 2 * i);
      r
  }

  function UnitsOfBytes(b: seq<byte>): (u: seq<uint16>)
    ensures |u| == |b| / 2
    ensures forall i :: 0 <= i < |u| ==> u[i] == U16At(b, 2 * i)
  {
    seq(|b| / 2, i requires 0 <= i < |b| / 2 => U16At(b, 2 * i))
  }

  lemma UnitsOfBytesOfUnits(u: seq<uint16>)
    ensures UnitsOfBytes(BytesOfUnits(u)) == u
  {
  }

  lemma BytesFromUnits(b: seq<byte>, c: seq<byte>)
    requires |b| == |c| && |b| % 2 == 0
    requires UnitsOfBytes(b) == UnitsOfBytes(c)
    ensures b == c
  {
    forall i | 0 <= i < |b|
      ensures b[i] == c[i]
    {
      var k := i / 2;
      assert U16At(b, 2 * k) == UnitsOfBytes(b)[k] == UnitsOfBytes(c)[k] == U16At(c, 2 * k);
    }
  }

  function StripNul(u: seq<uint16>): seq<uint16> {
    if u != [] && u[|u| - 1] == 0 then u[..|u| - 1] else u
  }

  /** What a string is on disk: its UTF-16LE units and a NUL. */
  function Encoded(s: GoString): (b: seq<byte>)
    ensures |b| >= 2 && |b| % 2 == 0
  {
    BytesOfUnits(EncodeRunes(Runes(s)) + [0])
  }

  /** What a buffer reads as: at most one trailing NUL is dropped; an odd length is refused. */
  function Decoded(b: seq<byte>): (r: Result<GoString>)
    ensures r.Ok? <==> |b| % 2 == 0
    ensures r.Ok? ==> WellFormed(r.value)
  {
    if |b| % 2 != 0 then Err(OddLength) else Ok(DecodeUnits(StripNul(UnitsOfBytes(b))))
  }

  lemma DecodedEmpty()
    ensures Decoded([]) == Ok([])
  {
    assert UnitsOfBytes([]) == [];
  }

  /** The buffer holds whole units and ends in a NUL unit. */
  predicate Terminated(b: seq<byte>) {
    |b| >= 2 && |b| % 2 == 0 && b[|b| - 2] == 0 && b[|b| - 1] == 0
  }

  /** Embedded and trailing NULs survive the round trip; only undecodable bytes change. */
  lemma DecodeEncoded(s: GoString)
    ensures Decoded(Encoded(s)) == Ok(Scrub(s))
    ensures Decoded(Encoded(s)) == Ok(s) <==> WellFormed(s)
  {
    var u := EncodeRunes(Runes(s)) + [0];
    UnitsOfBytesOfUnits(u);
    assert StripNul(u) == EncodeRunes(Runes(s));
    DecodeUnitsOfRunes(Runes(s));
  }

  /** Re-encoding keeps the length of a terminated buffer, adds a NUL to any other, and reproduces
      the bytes exactly when the buffer is terminated and every surrogate is paired. */
  lemma EncodeDecoded(b: seq<byte>)
    requires |b| % 2 == 0
    ensures |Encoded(Decoded(b).value)| == if Terminated(b) then |b| else |b| + 2
    ensures Encoded(Decoded(b).value) == b <==> Terminated(b) && Paired(UnitsOfBytes(b))
  {
    hide EncodeRunes, DecodeUnits, Paired, BytesOfUnits;
    var u := UnitsOfBytes(b);
    var t := StripNul(u);
    var s := Decoded(b).value;
    assert Runes(s) == s;
    EncodeRunesOfUnits(t);
    assert u != [] ==> u[|u| - 1] == U16At(b, 2 * (|u| - 1));
    if Terminated(b) {
      assert u == t + [0];
      assert Paired(u) <==> Paired(t) by { PairedAppendNul(t); }
      UnitsOfBytesOfUnits(EncodeRunes(s) + [0]);
      if EncodeRunes(s) + [0] == u {
        assert EncodeRunes(s) == (EncodeRunes(s) + [0])[..|t|] == u[..|t|] == t;
        BytesFromUnits(Encoded(s), b);
      }
    } else {
      assert t == u;
    }
  }

  lemma PairedAppendNul(t: seq<uint16>)
    ensures Paired(t + [0]) <==> Paired(t)
  {
    var u := t + [0];
    assert forall i :: 0 <= i < |t| ==> u[i] == t[i];
    if Paired(u) {
      forall i | 0 <= i < |t| && High(t[i])
        ensures i + 1 < |t| && Low(t[i + 1])
      {
        assert High(u[i]) && Low(u[i + 1]);
      }
      forall i | 0 <= i < |t| && Low(t[i])
        ensures 0 < i && High(t[i - 1])
      {
        assert Low(u[i]);
      }
    }
  }

  /** DecodeUTF16LE. */
  method DecodeUtf16Le(b: seq<byte>) returns (r: Result<GoString>)
    ensures r == Decoded(b)
  {
    if |b| % 2 != 0 { return Err(OddLength); }
    var u: seq<uint16> := [];
    for i := 0 to |b| / 2
      invariant u == UnitsOfBytes(b)[..i]
    {
      u := u + [U16At(b, 2 * i)];
    }
    assert u == UnitsOfBytes(b);
    if |u| > 0 && u[|u| - 1] == 0 { u := u[..|u| - 1]; }
    return Ok(DecodeUnits(u));
  }

  /** EncodeUTF16LE. */
  method EncodeUtf16Le(s: GoString) returns (b: seq<byte>)
    ensures b == Encoded(s)
  {
    var u := EncodeRunes(Runes(s)) + [0];
    b := [];
    for i := 0 to |u|
      invariant b == BytesOfUnits(u[..i])
    {
      assert u[..i + 1][..i] == u[..i];
      b := b + Le16(u[i]);
    }
    assert u[..|u|] == u;
  }
}
