/** The variable region: a run of records closed by erased flash. What the walk reads, what the
    serializer writes, why each undoes the other, and where every byte of the region goes. */
module VariableRegion {
  import opened Bytes
  import opened Utf16
  import opened VariableRecord

  const STORE_HEADER_SIZE := 28
  const ERASED: byte := 0xFF

  /** Every live variable from `off` on, in order: the walk without guards, limits or wrapping. */
  function Walk(data: seq<byte>, off: nat, end: nat, auth: bool): seq<Variable>
    requires end <= |data|
    decreases end - off
  {
    match RecordAt(data, off, end, auth)
    case Stop => []
    case Dead(next) => Walk(data, next, end, auth)
    case Live(v, next) => [v] + Walk(data, next, end, auth)
  }

  /** Where the walk stops. */
  function StopAt(data: seq<byte>, off: nat, end: nat, auth: bool): (stop: nat)
    requires end <= |data|
    ensures off <= stop && (off <= end ==> stop <= end)
    decreases end - off
  {
    var p := RecordAt(data, off, end, auth);
    if p.Stop? then off else StopAt(data, p.next, end, auth)
  }

  function Serialized(vars: seq<Variable>, auth: bool): seq<byte> {
    if vars == [] then [] else Record(vars[0], auth) + Serialized(vars[1..], auth)
  }

  function TotalSize(vars: seq<Variable>, auth: bool): nat {
    if vars == [] then 0 else RecordSize(vars[0], auth) + TotalSize(vars[1..], auth)
  }

  /** The variables as a reader gets them back. */
  function ScrubbedAll(vars: seq<Variable>): (r: seq<Variable>)
    ensures |r| == |vars|
    ensures forall i :: 0 <= i < |vars| ==> r[i] == Scrubbed(vars[i])
  {
    seq(|vars|, i requires 0 <= i < |vars| => Scrubbed(vars[i]))
  }

  predicate AllWellFormed(vars: seq<Variable>) {
    forall i :: 0 <= i < |vars| ==> WellFormed(vars[i].name)
  }

  lemma ScrubbedAllIsIdentity(vars: seq<Variable>)
    ensures ScrubbedAll(vars) == vars <==> AllWellFormed(vars)
  {
    if ScrubbedAll(vars) == vars {
      forall i | 0 <= i < |vars|
        ensures WellFormed(vars[i].name)
      {
        assert ScrubbedAll(vars)[i].name == Scrub(vars[i].name);
      }
    }
  }

  lemma {:induction false} SerializedLength(vars: seq<Variable>, auth: bool)
    ensures |Serialized(vars, auth)| == TotalSize(vars, auth)
    ensures TotalSize(vars, auth) % 4 == 0
  {
    hide Record, RecordSize;
    if vars != [] {
      SerializedLength(vars[1..], auth);
      RecordAligned(vars[0], auth);
    }
  }

  lemma {:induction false} SerializedConcat(a: seq<Variable>, b: seq<Variable>, auth: bool)
    ensures Serialized(a + b, auth) == Serialized(a, auth) + Serialized(b, auth)
  {
    hide Record, Serialized;
    if a == [] {
      assert a + b == b && Serialized(a, auth) == [] by { SerializedNone(auth); }
    } else {
      SerializedConcat(a[1..], b, auth);
      assert (a + b)[1..] == a[1..] + b && (a + b)[0] == a[0];
      SerializedFirst(a, auth);
      SerializedFirst(a + b, auth);
      Associative(Record(a[0], auth), Serialized(a[1..], auth), Serialized(b, auth));
    }
  }

  lemma {:induction false} TotalSizeConcat(a: seq<Variable>, b: seq<Variable>, auth: bool)
    ensures TotalSize(a + b, auth) == TotalSize(a, auth) + TotalSize(b, auth)
  {
    hide RecordSize;
    if a == [] {
      assert a + b == b;
    } else {
      TotalSizeConcat(a[1..], b, auth);
      assert (a + b)[1..] == a[1..] + b;
    }
  }

  /** Names read from a region are always well-formed. */
  lemma {:induction false} WalkIsWellFormed(data: seq<byte>, off: nat, end: nat, auth: bool)
    requires end <= |data|
    ensures AllWellFormed(Walk(data, off, end, auth))
    decreases end - off
  {
    hide RecordAt;
    var p := RecordAt(data, off, end, auth);
    if !p.Stop? {
      WalkIsWellFormed(data, p.next, end, auth);
    }
  }

  /** Erased flash never looks like the start of a record. */
  lemma ErasedStops(data: seq<byte>, off: nat, end: nat, auth: bool)
    requires end <= |data|
    requires forall i :: off <= i < end ==> data[i] == ERASED
    ensures RecordAt(data, off, end, auth) == Stop
  {
    hide Decoded, Align4;
  }

  /** The walk over serialized variables yields them, in order, and goes on behind them. */
  lemma {:induction false} WalkPrefix(data: seq<byte>, off: nat, end: nat, vars: seq<Variable>, auth: bool)
    requires off % 4 == 0 && off + TotalSize(vars, auth) <= end <= |data|
    requires TotalSize(vars, auth) < 0x1_0000_0000
    requires data[off..off + TotalSize(vars, auth)] == Serialized(vars, auth)
    ensures var next := off + TotalSize(vars, auth);
            && next % 4 == 0
            && Walk(data, off, end, auth) == ScrubbedAll(vars) + Walk(data, next, end, auth)
            && StopAt(data, off, end, auth) == StopAt(data, next, end, auth)
    decreases |vars|
  {
    hide RecordAt, Record, RecordSize, Scrubbed, ScrubbedAll, Walk, StopAt;
    SerializedLength(vars, auth);
    if vars == [] {
      ScrubbedNone();
    } else {
      var v, rest, mid := vars[0], vars[1..], off + RecordSize(vars[0], auth);
      SplitFirst(data, off, vars, auth);
      WalkOne(data, off, end, v, auth);
      WalkPrefix(data, mid, end, rest, auth);
      var tail := Walk(data, mid + TotalSize(rest, auth), end, auth);
      ScrubbedConcat([v], rest);
      assert vars == [v] + rest;
      assert [Scrubbed(v)] + (ScrubbedAll(rest) + tail) == [Scrubbed(v)] + ScrubbedAll(rest) + tail;
    }
  }

  lemma ScrubbedNone()
    ensures ScrubbedAll([]) == []
  {
  }

  lemma SplitFirst(data: seq<byte>, off: nat, vars: seq<Variable>, auth: bool)
    requires vars != [] && off % 4 == 0 && off + TotalSize(vars, auth) <= |data|
    requires data[off..off + TotalSize(vars, auth)] == Serialized(vars, auth)
    ensures var mid, rest := off + RecordSize(vars[0], auth), TotalSize(vars[1..], auth);
            && mid % 4 == 0 && mid + rest == off + TotalSize(vars, auth)
            && data[off..mid] == Record(vars[0], auth) && data[mid..mid + rest] == Serialized(vars[1..], auth)
  {
    hide Record, RecordSize, Serialized, TotalSize;
    var s, r, y := Serialized(vars, auth), Record(vars[0], auth), Serialized(vars[1..], auth);
    SerializedFirst(vars, auth);
    SerializedLength(vars[1..], auth);
    RecordAligned(vars[0], auth);
    assert [] + r == r;
    ThreeParts(data, off, s, [], r, y);
  }

  lemma Associative<T>(a: seq<T>, b: seq<T>, c: seq<T>)
    ensures a + (b + c) == a + b + c
  {
  }

  lemma SerializedNone(auth: bool)
    ensures Serialized([], auth) == []
  {
  }

  lemma SerializedFirst(vars: seq<Variable>, auth: bool)
    requires vars != []
    ensures Serialized(vars, auth) == Record(vars[0], auth) + Serialized(vars[1..], auth)
    ensures TotalSize(vars, auth) == RecordSize(vars[0], auth) + TotalSize(vars[1..], auth)
  {
    hide Record, RecordSize;
  }

  lemma WalkOne(data: seq<byte>, off: nat, end: nat, v: Variable, auth: bool)
    requires off % 4 == 0 && off + RecordSize(v, auth) <= end <= |data| && RecordSize(v, auth) < 0x1_0000_0000
    requires data[off..off + RecordSize(v, auth)] == Record(v, auth)
    ensures var next := off + RecordSize(v, auth);
            && Walk(data, off, end, auth) == [Scrubbed(v)] + Walk(data, next, end, auth)
            && StopAt(data, off, end, auth) == StopAt(data, next, end, auth)
            && ScrubbedAll([v]) == [Scrubbed(v)]
  {
    hide RecordAt, Record, RecordSize, Scrubbed;
    RecordAtRecord(data, off, end, v, auth);
  }

  /** Parsing what was serialized: for either layout, at any aligned offset, the walk returns exactly
      the serialized variables, in order, and stops where they end. */
  lemma WalkSerialized(data: seq<byte>, off: nat, end: nat, vars: seq<Variable>, auth: bool)
    requires off % 4 == 0 && off + TotalSize(vars, auth) <= end <= |data|
    requires TotalSize(vars, auth) < 0x1_0000_0000
    requires data[off..off + TotalSize(vars, auth)] == Serialized(vars, auth)
    requires forall i :: off + TotalSize(vars, auth) <= i < end ==> data[i] == ERASED
    ensures Walk(data, off, end, auth) == ScrubbedAll(vars)
    ensures StopAt(data, off, end, auth) == off + TotalSize(vars, auth)
  {
    hide RecordAt, TotalSize, Serialized, ScrubbedAll;
    WalkPrefix(data, off, end, vars, auth);
    ErasedStops(data, off + TotalSize(vars, auth), end, auth);
  }

  /** A record cut off by the end of the region is not read, and those before it are. */
  lemma WalkCut(data: seq<byte>, off: nat, end: nat, vars: seq<Variable>, v: Variable, auth: bool)
    requires off % 4 == 0 && off + TotalSize(vars, auth) <= end <= |data|
    requires TotalSize(vars, auth) < 0x1_0000_0000 && RecordSize(v, auth) < 0x1_0000_0000
    requires data[off..off + TotalSize(vars, auth)] == Serialized(vars, auth)
    requires var at := off + TotalSize(vars, auth);
             end < at + RecordSize(v, auth) <= |data| && data[at..at + RecordSize(v, auth)] == Record(v, auth)
    ensures Walk(data, off, end, auth) == ScrubbedAll(vars)
  {
    hide RecordAt, TotalSize, Serialized, ScrubbedAll, Record, RecordSize;
    WalkPrefix(data, off, end, vars, auth);
    CutRecordStops(data, off + TotalSize(vars, auth), end, v, auth);
  }

  /** A deleted record is skipped: when the state byte of one serialized variable is changed to anything
      else, the walk yields all the others, in order. */
  lemma WalkSkipsDeleted(data: seq<byte>, off: nat, end: nat, a: seq<Variable>, v: Variable, b: seq<Variable>,
                         auth: bool, s: byte)
    requires off % 4 == 0 && off + TotalSize(a + [v] + b, auth) <= end <= |data| && s != 0x3F
    requires TotalSize(a + [v] + b, auth) < 0x1_0000_0000
    requires data[off..off + TotalSize(a + [v] + b, auth)] == Serialized(a + [v] + b, auth)
    requires forall i :: off + TotalSize(a + [v] + b, auth) <= i < end ==> data[i] == ERASED
    ensures off + TotalSize(a, auth) + 2 < |data|
    ensures var d := data[off + TotalSize(a, auth) + 2 := s];
            && Walk(d, off, end, auth) == ScrubbedAll(a + b)
            && StopAt(d, off, end, auth) == off + TotalSize(a + [v] + b, auth)
  {
    hide RecordAt, Record, RecordSize, Scrub, TotalSize, Serialized, ScrubbedAll;
    var mid := off + TotalSize(a, auth);
    var next := mid + RecordSize(v, auth);
    Placed(data, off, a, v, b, auth);
    var d := data[mid + 2 := s];
    RecordAtRecord(data, mid, end, v, auth);
    StateDecides(data, mid, end, auth, s);
    assert d[off..mid] == data[off..mid];
    assert d[next..next + TotalSize(b, auth)] == data[next..next + TotalSize(b, auth)];
    WalkPrefix(d, off, end, a, auth);
    WalkSerialized(d, next, end, b, auth);
    assert ScrubbedAll(a) + ScrubbedAll(b) == ScrubbedAll(a + b) by { ScrubbedConcat(a, b); }
  }

  lemma ScrubbedConcat(a: seq<Variable>, b: seq<Variable>)
    ensures ScrubbedAll(a) + ScrubbedAll(b) == ScrubbedAll(a + b)
  {
  }

  /** Where the parts of a serialized list lie. */
  lemma Placed(data: seq<byte>, off: nat, a: seq<Variable>, v: Variable, b: seq<Variable>, auth: bool)
    requires off % 4 == 0 && off + TotalSize(a + [v] + b, auth) <= |data|
    requires data[off..off + TotalSize(a + [v] + b, auth)] == Serialized(a + [v] + b, auth)
    ensures var mid := off + TotalSize(a, auth);
            var next := mid + RecordSize(v, auth);
            && mid % 4 == 0 && next % 4 == 0 && mid + 32 <= next
            && next + TotalSize(b, auth) == off + TotalSize(a + [v] + b, auth)
            && data[off..mid] == Serialized(a, auth) && data[mid..next] == Record(v, auth)
            && data[next..next + TotalSize(b, auth)] == Serialized(b, auth)
  {
    hide Record, RecordSize, Serialized, TotalSize;
    var x, r, y := Serialized(a, auth), Record(v, auth), Serialized(b, auth);
    SerializedConcat(a + [v], b, auth);
    SerializedConcat(a, [v], auth);
    TotalSizeConcat(a + [v], b, auth);
    TotalSizeConcat(a, [v], auth);
    SerializedLength(a, auth);
    SerializedLength(b, auth);
    RecordAligned(v, auth);
    SerializedOne(v, auth);
    var s := Serialized(a + [v] + b, auth);
    ThreeParts(data, off, s, x, r, y);
  }

  lemma SerializedOne(v: Variable, auth: bool)
    ensures Serialized([v], auth) == Record(v, auth) && TotalSize([v], auth) == RecordSize(v, auth)
  {
    hide Record, RecordSize;
  }

  lemma ThreeParts<T>(data: seq<T>, off: nat, s: seq<T>, x: seq<T>, r: seq<T>, y: seq<T>)
    requires s == x + r + y && off + |s| <= |data| && data[off..off + |s|] == s
    ensures data[off..off + |x|] == x
    ensures data[off + |x|..off + |x| + |r|] == r
    ensures data[off + |x| + |r|..off + |x| + |r| + |y|] == y
  {
    SubSlice(data, off, s, 0, |x|);
    SubSlice(data, off, s, |x|, |x| + |r|);
    SubSlice(data, off, s, |x| + |r|, |s|);
  }

  lemma RecordAligned(v: Variable, auth: bool)
    ensures RecordSize(v, auth) % 4 == 0 && RecordSize(v, auth) >= 32
  {
  }

  /** Bytes held by records that hold no live variable. */
  function DeadSpace(data: seq<byte>, off: nat, end: nat, auth: bool): nat
    requires end <= |data|
    decreases end - off
  {
    match RecordAt(data, off, end, auth)
    case Stop => 0
    case Dead(next) => next - off + DeadSpace(data, next, end, auth)
    case Live(_, next) => DeadSpace(data, next, end, auth)
  }

  /** Bytes that writing the missing name terminators would add. */
  function TotalGrowth(data: seq<byte>, off: nat, end: nat, auth: bool): nat
    requires end <= |data|
    decreases end - off
  {
    match RecordAt(data, off, end, auth)
    case Stop => 0
    case Dead(next) => TotalGrowth(data, next, end, auth)
    case Live(_, next) => Growth(data, off, end, auth) + TotalGrowth(data, next, end, auth)
  }

  /** Every live name on disk ends in a NUL unit. */
  predicate AllTerminated(data: seq<byte>, off: nat, end: nat, auth: bool)
    requires end <= |data|
    decreases end - off
  {
    match RecordAt(data, off, end, auth)
    case Stop => true
    case Dead(next) => AllTerminated(data, next, end, auth)
    case Live(_, next) => Terminated(NameAt(data, off, end, auth)) && AllTerminated(data, next, end, auth)
  }

  /** Conservation of space, for any bytes: what compaction writes plus the dead space it reclaims is
      what the walk consumed plus the terminators it adds. */
  lemma {:induction false} SpaceIsConserved(data: seq<byte>, off: nat, end: nat, auth: bool)
    requires off % 4 == 0 && end <= |data|
    ensures TotalSize(Walk(data, off, end, auth), auth) + DeadSpace(data, off, end, auth)
            == StopAt(data, off, end, auth) - off + TotalGrowth(data, off, end, auth)
    decreases end - off
  {
    hide RecordAt, RecordSize, Growth;
    match RecordAt(data, off, end, auth)
    case Stop =>
    case Dead(next) =>
      SpaceIsConserved(data, next, end, auth);
    case Live(v, next) =>
      SpaceIsConserved(data, next, end, auth);
      RecordSizeOfLive(data, off, end, auth);
      assert ([v] + Walk(data, next, end, auth))[1..] == Walk(data, next, end, auth);
  }

  lemma {:induction false} TerminatedNeedsNoGrowth(data: seq<byte>, off: nat, end: nat, auth: bool)
    requires end <= |data| && AllTerminated(data, off, end, auth)
    ensures TotalGrowth(data, off, end, auth) == 0
    decreases end - off
  {
    hide RecordAt;
    var p := RecordAt(data, off, end, auth);
    if !p.Stop? {
      TerminatedNeedsNoGrowth(data, p.next, end, auth);
    }
  }

  /** Compaction never grows a region whose live names are terminated. */
  lemma CompactionNeverGrows(data: seq<byte>, off: nat, end: nat, auth: bool)
    requires off % 4 == 0 && off <= end <= |data| && AllTerminated(data, off, end, auth)
    ensures TotalSize(Walk(data, off, end, auth), auth)
            == StopAt(data, off, end, auth) - off - DeadSpace(data, off, end, auth)
    ensures TotalSize(Walk(data, off, end, auth), auth) <= end - off
  {
    SpaceIsConserved(data, off, end, auth);
    TerminatedNeedsNoGrowth(data, off, end, auth);
  }

  /** Open refuses a region with more variables than the limit; a negative limit refuses any. */
  predicate TooMany(n: nat, maxVars: int)
    ensures maxVars >= 0 ==> TooMany(n, maxVars) == (n > maxVars)
  {
    n > 0 && n > maxVars
  }

  /** The region end the walk works with: clamped to the file, then truncated to 32 bits. */
  function RegionEnd(size: nat, storeOff: nat, storeSize: nat): (end: uint32)
    ensures end <= size
  {
    Wrap32(if storeOff + storeSize > size then size else storeOff + storeSize)
  }

  /** The truncation is harmless exactly below 4 GiB. Past it an FV-wrapped store reads as empty: its
      region seems to end before it starts. */
  lemma RegionEndIsExact(data: seq<byte>, storeOff: nat, storeSize: uint32, auth: bool)
    requires storeOff == 0 || storeOff == 72
    ensures var end := if storeOff + storeSize > |data| then |data| else storeOff + storeSize;
            var used := RegionEnd(|data|, storeOff, storeSize);
            && (used == end <==> end < 0x1_0000_0000)
            && (end >= 0x1_0000_0000 ==> storeOff == 72 && Walk(data, storeOff + STORE_HEADER_SIZE, used, auth) == [])
  {
    hide RecordAt, Wrap32;
    var end := if storeOff + storeSize > |data| then |data| else storeOff + storeSize;
    var used := RegionEnd(|data|, storeOff, storeSize);
    if end >= 0x1_0000_0000 {
      WrapOnce(end);
      PastTheEnd(data, storeOff + STORE_HEADER_SIZE, used, auth);
    }
  }

  /** The plain walk, as the code sees it: to the truncated region end. */
  function WalkedFrom(data: seq<byte>, storeOff: nat, storeSize: nat, auth: bool): seq<Variable>
  {
    Walk(data, storeOff + STORE_HEADER_SIZE, RegionEnd(|data|, storeOff, storeSize), auth)
  }

  /** parseVariables panics: the walk gets to its stop within the limit, and the code panics there. */
  predicate WalkPanics(data: seq<byte>, storeOff: nat, storeSize: nat, auth: bool, maxVars: int)
  {
    var end := RegionEnd(|data|, storeOff, storeSize);
    && !TooMany(|WalkedFrom(data, storeOff, storeSize, auth)|, maxVars)
    && ParsePanics(data, StopAt(data, storeOff + STORE_HEADER_SIZE, end, auth), end, auth)
  }

  /** parseVariables, with its 32-bit offsets. Its loop guard and its forward-progress check can never
      fire: the result is the plain walk, cut off only by the variable limit. */
  method ParseVariables(data: seq<byte>, storeOff: uint32, storeSize: uint32, auth: bool, maxVars: int)
    returns (panics: bool, r: Result<seq<Variable>>)
    requires (storeOff == 0 || storeOff == 72) && storeOff + STORE_HEADER_SIZE <= |data|
    ensures panics <==> WalkPanics(data, storeOff, storeSize, auth, maxVars)
    ensures var all := WalkedFrom(data, storeOff, storeSize, auth);
            !panics ==> r == if TooMany(|all|, maxVars) then Err(TooLarge) else Ok(all)
  {
    hide RecordAt, ParsePanics, RegionEnd, Wrap32;
    RegionEndIsExact(data, storeOff, storeSize, auth);
    var end := RegionEnd(|data|, storeOff, storeSize);
    var off := Wrap32(storeOff + STORE_HEADER_SIZE);
    ghost var start := off;
    ghost var all := Walk(data, start, end, auth);
    var vars: seq<Variable> := [];
    var steps := 0;
    while Wrap32(off + 2) <= end
      invariant off % 4 == 0 && start <= off && (off == start || off <= end)
      invariant steps <= off - start
      invariant all == vars + Walk(data, off, end, auth)
      invariant StopAt(data, start, end, auth) == StopAt(data, off, end, auth)
      invariant !TooMany(|vars|, maxVars)
      decreases end - off
    {
      assert steps < end + 1; // NewLoopGuard(end+1) allows this step
      steps := steps + 1;
      var p;
      panics, p := ParseOneVariable(data, off, end, auth);
      if panics {
        PanicsOnlyAtStop(data, off, end, auth);
        return true, Ok(vars);
      }
      if p.Stop? { break; }
      assert off < p.next <= end; // the forward-progress check passes
      if p.Live? {
        if |vars| >= maxVars { return false, Err(TooLarge); }
        ghost var rest := Walk(data, p.next, end, auth);
        assert vars + ([p.variable] + rest) == vars + [p.variable] + rest;
        vars := vars + [p.variable];
      }
      off := p.next;
    }
    assert RecordAt(data, off, end, auth) == Stop && !ParsePanics(data, off, end, auth) by {
      if off + 2 > end {
        PastTheEnd(data, off, end, auth);
        AlignedIsSafe(data, off, end, auth);
      }
    }
    assert all == vars;
    return false, Ok(vars);
  }

  lemma PastTheEnd(data: seq<byte>, off: nat, end: nat, auth: bool)
    requires end <= |data| && off + 2 > end
    ensures RecordAt(data, off, end, auth) == Stop
  {
  }

  /** At an aligned offset the code panics only behind a start marker. */
  lemma AlignedIsSafe(data: seq<byte>, off: nat, end: uint32, auth: bool)
    requires end <= |data| && off % 4 == 0 && (off + 8 > end || U16At(data, off) != VARIABLE_DATA)
    ensures !ParsePanics(data, off, end, auth)
  {
  }

  /** serializeVars. */
  method SerializeVars(vars: seq<Variable>, auth: bool) returns (b: seq<byte>)
    ensures b == Serialized(vars, auth)
  {
    hide Record, RecordSize;
    b := [];
    for i := 0 to |vars|
      invariant b == Serialized(vars[..i], auth)
    {
      var r := EncodeVariable(vars[i], auth);
      b := b + r;
      SerializedConcat(vars[..i], [vars[i]], auth);
      assert vars[..i + 1] == vars[..i] + [vars[i]];
      SerializedOne(vars[i], auth);
    }
    assert vars[..|vars|] == vars;
  }
}
