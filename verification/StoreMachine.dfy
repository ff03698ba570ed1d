/** An open store and its file as a state machine whose steps are Set and Delete. What every run keeps:
    the file reads back as the memory, lookups refine a map, room is never lost. */
module StoreMachine {
  import opened Bytes
  import opened Utf16
  import opened VariableRecord
  import opened VariableRegion
  import opened StoreImage

  datatype Key = Key(name: GoString, guid: Guid)

  function KeyOf(v: Variable): Key {
    Key(v.name, v.guid)
  }

  /** The variables without those of key `k`, in order. */
  function Without(vars: seq<Variable>, k: Key): seq<Variable> {
    if vars == [] then []
    else
      var last := vars[|vars| - 1];
      Without(vars[..|vars| - 1], k) + if KeyOf(last) == k then [] else [last]
  }

  /** The map a list of variables stands for: the first variable of each key counts. */
  function AsMap(vars: seq<Variable>): map<Key, Variable> {
    if vars == [] then map[]
    else
      var m, last := AsMap(vars[..|vars| - 1]), vars[|vars| - 1];
      if KeyOf(last) in m then m else m[KeyOf(last) := last]
  }

  lemma {:induction false} AsMapAppend(vars: seq<Variable>, v: Variable)
    ensures AsMap(vars + [v]) == if KeyOf(v) in AsMap(vars) then AsMap(vars) else AsMap(vars)[KeyOf(v) := v]
  {
    assert (vars + [v])[..|vars|] == vars;
  }

  /** Removing a key removes that key only, duplicates included. */
  lemma {:induction false} AsMapWithout(vars: seq<Variable>, k: Key)
    ensures AsMap(Without(vars, k)) == AsMap(vars) - {k}
  {
    hide AsMap, KeyOf;
    if vars == [] {
      AsMapNone();
    } else {
      var init, last := vars[..|vars| - 1], vars[|vars| - 1];
      AsMapWithout(init, k);
      assert vars == init + [last];
      AsMapAppend(init, last);
      if KeyOf(last) == k {
        assert Without(vars, k) == Without(init, k);
      } else {
        AsMapAppend(Without(init, k), last);
      }
    }
  }

  lemma AsMapNone()
    ensures AsMap([]) == map[]
  {
  }

  /** Replacing a variable is a map update. */
  lemma AsMapReplace(vars: seq<Variable>, v: Variable)
    ensures AsMap(Without(vars, KeyOf(v)) + [v]) == AsMap(vars)[KeyOf(v) := v]
  {
    AsMapWithout(vars, KeyOf(v));
    AsMapAppend(Without(vars, KeyOf(v)), v);
  }

  /** The map's entries are in the list, filed under their own keys, and nothing in the list is lost. */
  lemma {:induction false} AsMapKeys(vars: seq<Variable>)
    ensures forall k :: k in AsMap(vars) ==> KeyOf(AsMap(vars)[k]) == k && AsMap(vars)[k] in vars
    ensures forall v :: v in vars ==> KeyOf(v) in AsMap(vars)
  {
    if vars != [] {
      AsMapKeys(vars[..|vars| - 1]);
      assert vars == vars[..|vars| - 1] + [vars[|vars| - 1]];
    }
  }

  /** How many variables of a list have key `k`. */
  function Count(vars: seq<Variable>, k: Key): nat {
    if vars == [] then 0
    else Count(vars[..|vars| - 1], k) + if KeyOf(vars[|vars| - 1]) == k then 1 else 0
  }

  /** Dropping a key leaves none of it and as many of every other. */
  lemma {:induction false} CountWithout(vars: seq<Variable>, k: Key, other: Key)
    ensures Count(Without(vars, k), other) == if other == k then 0 else Count(vars, other)
  {
    if vars != [] {
      var init, last := vars[..|vars| - 1], vars[|vars| - 1];
      CountWithout(init, k, other);
      if KeyOf(last) != k {
        assert (Without(init, k) + [last])[..|Without(init, k)|] == Without(init, k);
      } else {
        assert Without(vars, k) == Without(init, k);
      }
    }
  }

  lemma {:induction false} WithoutKeeps(vars: seq<Variable>, k: Key)
    ensures forall v :: v in Without(vars, k) <==> v in vars && KeyOf(v) != k
    ensures AllWellFormed(vars) ==> AllWellFormed(Without(vars, k))
  {
    hide WellFormed;
    if vars != [] {
      var init, last := vars[..|vars| - 1], vars[|vars| - 1];
      WithoutKeeps(init, k);
      assert vars == init + [last];
      assert AllWellFormed(vars) ==> AllWellFormed(init) && WellFormed(last.name);
    }
  }

  lemma {:induction false} WithoutShrinks(vars: seq<Variable>, k: Key, auth: bool)
    ensures TotalSize(Without(vars, k), auth) <= TotalSize(vars, auth)
    ensures Without(vars, k) != vars ==> TotalSize(Without(vars, k), auth) + HeaderSize(auth) <= TotalSize(vars, auth)
  {
    hide RecordSize, TotalSize, KeyOf;
    if vars != [] {
      var init, last := vars[..|vars| - 1], vars[|vars| - 1];
      var kept := Without(init, k);
      WithoutShrinks(init, k, auth);
      assert vars == init + [last];
      SizeOfAppend(init, last, auth);
      if KeyOf(last) == k {
        assert Without(vars, k) == kept;
      } else {
        SizeOfAppend(kept, last, auth);
        assert Without(vars, k) == kept + [last];
      }
    }
  }

  lemma SizeOfAppend(vars: seq<Variable>, v: Variable, auth: bool)
    ensures TotalSize(vars + [v], auth) == TotalSize(vars, auth) + RecordSize(v, auth)
    ensures RecordSize(v, auth) >= HeaderSize(auth)
  {
    TotalSizeConcat(vars, [v], auth);
    assert TotalSize([v], auth) == RecordSize(v, auth);
  }

  /** How the file system treats one flush: the read can fail, and a failed write can leave anything. */
  datatype Io = Works | ReadFails | WriteFails(left: FileContent)

  datatype Op = Set(variable: Variable) | Delete(key: Key)

  /** `synced` is false from a failed write until the next successful one. */
  datatype Machine = Machine(mem: Opened, file: FileContent, synced: bool)

  /** flush: memory takes the new list before the write, so a failed write leaves it ahead of the file. */
  function Flush(m: Machine, vars: seq<Variable>, io: Io): (Machine, Result<()>) {
    var l := m.mem.layout;
    if io.ReadFails? then (m, Err(ReadFailed))
    else match ReadLimited(m.file, m.mem.limits.maxFileSize)
      case Err(e) => (m, Err(e))
      case Ok(orig) =>
        if |orig| < l.HeaderEnd() then (m, Err(TooSmall))
        else match Rebuilt(orig, l, Serialized(vars, l.auth))
          case Err(e) => (m, Err(e))
          case Ok(b) =>
            if io.Works? then (Machine(m.mem.(vars := vars), b, true), Ok(()))
            else (Machine(m.mem.(vars := vars), io.left, false), Err(WriteFailed))
  }

  /** The list a step asks flush to store. */
  function Target(vars: seq<Variable>, op: Op): seq<Variable> {
    match op
    case Set(v) => Without(vars, KeyOf(v)) + [v]
    case Delete(k) => Without(vars, k)
  }

  function Step(m: Machine, op: Op, io: Io): (Machine, Result<()>) {
    if op.Delete? && op.key !in AsMap(m.mem.vars) then (m, Err(NotFound))
    else Flush(m, Target(m.mem.vars, op), io)
  }

  /** What a step means for the map of variables. */
  function Meaning(s: map<Key, Variable>, op: Op): map<Key, Variable> {
    match op
    case Set(v) => s[KeyOf(v) := v]
    case Delete(k) => s - {k}
  }

  /** The step changed the memory: it succeeded, or only its write failed. */
  predicate TookEffect(r: Result<()>) {
    r.Ok? || r.error == WriteFailed
  }

  /** Lookups refine a map: a step that takes effect is an update or a removal of its key, and a step
      refused before the write changes neither memory nor file. */
  lemma StepRefinesMap(m: Machine, op: Op, io: Io)
    ensures var (n, r) := Step(m, op, io);
            && (TookEffect(r) ==> AsMap(n.mem.vars) == Meaning(AsMap(m.mem.vars), op))
            && (!TookEffect(r) ==> n == m)
            && n.mem.layout == m.mem.layout && n.mem.limits == m.mem.limits
  {
    hide Rebuilt, Serialized;
    match op
    case Set(v) => AsMapReplace(m.mem.vars, v);
    case Delete(k) => AsMapWithout(m.mem.vars, k);
  }

  /** Everything a step can answer, and what it leaves behind. The refusals come in this order and change
      nothing; a Delete of an absent key is the first of them. A failed write changes memory and leaves
      whatever it left. */
  lemma StepIsExact(m: Machine, op: Op, io: Io)
    ensures var (n, r) := Step(m, op, io);
            var l, max, vars := m.mem.layout, m.mem.limits.maxFileSize, Target(m.mem.vars, op);
            && (r == Err(NotFound) <==> op.Delete? && op.key !in AsMap(m.mem.vars))
            && (r == Err(NotFound) || (
                  if io.ReadFails? then r == Err(ReadFailed)
                  else if |m.file| > max then r == Err(TooLarge)
                  else if max == MAX_INT64 || |m.file| < l.HeaderEnd() then r == Err(TooSmall)
                  else if |m.file| < l.End() then r == Err(BeyondFile)
                  else if !HasRoom(l, vars) then r == Err(NoSpace)
                  else if io.WriteFails? then
                    r == Err(WriteFailed) && n == Machine(m.mem.(vars := vars), io.left, false)
                  else r.Ok? && n.mem == m.mem.(vars := vars) && n.synced
                       && Rebuilt(m.file, l, Serialized(vars, l.auth)) == Ok(n.file)))
            && (!TookEffect(r) ==> n == m)
  {
    hide Rebuilt, Serialized, AsMap, Without, TotalSize;
    var l, vars := m.mem.layout, Target(m.mem.vars, op);
    Refusal(m.file, l, Serialized(vars, l.auth));
    if l.End() <= |m.file| {
      RoomIsExact(m.file, l, vars);
    }
  }

  lemma Refusal(orig: seq<byte>, l: Layout, payload: seq<byte>)
    ensures var r := Rebuilt(orig, l, payload); r.Err? ==> r.error == if |orig| < l.End() then BeyondFile else NoSpace
    ensures |orig| < l.End() ==> Rebuilt(orig, l, payload).Err?
  {
  }

  /** Deleting what is not there is refused and touches nothing, whatever the file and the I/O. So a second
      Delete of a key, after one that took effect, is refused and leaves the file as the first left it. */
  lemma DeleteOfAbsent(m: Machine, k: Key, io: Io, again: Io)
    ensures var (n, r) := Step(m, Delete(k), io);
            && (r == Err(NotFound) <==> k !in AsMap(m.mem.vars))
            && (r == Err(NotFound) ==> n == m)
            && (TookEffect(r) ==> k in AsMap(m.mem.vars) && Step(n, Delete(k), again) == (n, Err(NotFound)))
  {
    hide AsMap, Rebuilt, Serialized;
    StepRefinesMap(m, Delete(k), io);
  }

  /** The order of the list: a Set puts its variable at the end, a new key's behind all others, and neither
      Set nor Delete moves a variable of another key. */
  lemma StepKeepsOrder(a: seq<Variable>, u: Variable, b: seq<Variable>, v: Variable)
    requires KeyOf(u) == KeyOf(v) && KeyOf(v) !in AsMap(a) && KeyOf(v) !in AsMap(b)
    ensures Target(a + [u] + b, Set(v)) == a + b + [v]
    ensures Target(a + [u] + b, Delete(KeyOf(v))) == a + b
    ensures Target(a, Set(v)) == a + [v]
  {
    hide AsMap, Without, KeyOf;
    var k := KeyOf(v);
    AbsentIsUntouched(a, k);
    AbsentIsUntouched(b, k);
    WithoutConcat(a + [u], b, k);
    WithoutConcat(a, [u], k);
    WithoutOne(u);
    assert a + [] == a;
  }

  lemma WithoutOne(u: Variable)
    ensures Without([u], KeyOf(u)) == []
  {
  }

  lemma {:induction false} WithoutConcat(a: seq<Variable>, b: seq<Variable>, k: Key)
    ensures Without(a + b, k) == Without(a, k) + Without(b, k)
  {
    if b == [] {
      assert a + b == a;
    } else {
      var init, last := b[..|b| - 1], b[|b| - 1];
      WithoutConcat(a, init, k);
      assert (a + b)[..|a + b| - 1] == a + init;
    }
  }

  /** The file is still the store that was opened. */
  predicate Attached(m: Machine) {
    LayoutOf(m.file) == Ok(m.mem.layout)
  }

  /** The code's own open of the file does not panic and yields the memory: up to undecodable bytes in
      names, the variable limit, which Set does not check, and the 4 GiB bound (`ReadBack`). */
  predicate Agrees(m: Machine) {
    && !OpenPanics(m.file, m.mem.limits)
    && Loaded(m.file, m.mem.limits) == ReadBack(m.mem.limits, m.mem.layout, m.mem.vars)
  }

  /** What every run keeps: after a successful write the file agrees with the memory, and after a
      failed one it is still this store or has become too short to rewrite. */
  predicate Sound(m: Machine) {
    (m.synced ==> Attached(m) && Agrees(m)) && Survives(m.mem.layout, m.file)
  }

  /** A failed write leaves the file untouched, cut short, or at least recognisable as this store. Every
      prefix of what was being written qualifies (`PrefixSurvives`). */
  predicate Gentle(m: Machine, io: Io) {
    io.WriteFails? ==> Survives(m.mem.layout, io.left)
  }

  /** A successful step leaves an intact file that agrees with the memory, whatever the two were before:
      for the code's open, and for the design's without the 4 GiB bound. */
  lemma SuccessAgrees(m: Machine, op: Op, io: Io)
    requires Attached(m) && Step(m, op, io).1.Ok?
    ensures var n := Step(m, op, io).0;
            && Attached(n) && Agrees(n) && n.mem.limits.Admits(|n.file|)
            && Open(n.file, n.mem.limits) == WithinLimit(n.mem.limits, n.mem.layout, ScrubbedAll(n.mem.vars))
  {
    hide LayoutOf, Rebuilt, Open, Loaded, OpenPanics, ReadBack, Serialized, Without, AsMap, ScrubbedAll;
    var l, vars := m.mem.layout, Target(m.mem.vars, op);
    LayoutIsStable(m.file, l, Serialized(vars, l.auth));
    OpenRebuilt(m.file, l, vars, m.mem.limits);
    LoadRebuilt(m.file, l, vars, m.mem.limits);
  }

  /** Exactly when a successful write reads back: for well-formed names within the limit, the code's open
      yields the memory if and only if the store ends below 4 GiB or nothing is stored in it. */
  lemma ReadsBackExactly(m: Machine, op: Op, io: Io)
    requires Attached(m) && Step(m, op, io).1.Ok?
    requires var n := Step(m, op, io).0;
             AllWellFormed(n.mem.vars) && !TooMany(|n.mem.vars|, n.mem.limits.maxVariables)
    ensures var n := Step(m, op, io).0;
            Loaded(n.file, n.mem.limits) == Ok(n.mem) <==> n.mem.layout.End() < 0x1_0000_0000 || n.mem.vars == []
  {
    hide Step, Attached, Loaded, OpenPanics, AllWellFormed;
    SuccessAgrees(m, op, io);
    ScrubbedAllIsIdentity(Step(m, op, io).0.mem.vars);
  }

  lemma StepAgrees(m: Machine, op: Op, io: Io)
    requires Sound(m) && Gentle(m, io)
    ensures Sound(Step(m, op, io).0)
  {
    hide LayoutOf, Agrees, Serialized, Without, AsMap;
    if Step(m, op, io).1.Ok? {
      SuccessAgrees(m, op, io);
    }
  }

  datatype Event = Event(op: Op, io: Io)

  /** A run of steps from `m`. */
  function Run(m: Machine, es: seq<Event>): Machine
    decreases |es|
  {
    if es == [] then m else Run(Step(m, es[0].op, es[0].io).0, es[1..])
  }

  /** The state right after the code has opened a file. */
  function Start(data: seq<byte>, limits: Limits): Machine
    requires Opens(data, limits)
  {
    Machine(Loaded(data, limits).value, data, true)
  }

  lemma StartAgrees(data: seq<byte>, limits: Limits)
    requires Opens(data, limits)
    ensures var m := Start(data, limits);
            && Sound(m) && Attached(m) && Agrees(m) && AllWellFormed(m.mem.vars)
            && m.mem.limits == limits && limits.Admits(|data|)
  {
    hide LayoutOf, Walk, OpenPanics, Loaded, Open;
    var o := Loaded(data, limits).value;
    var l := o.layout;
    LoadedIsOpen(data, limits);
    OpenByParts(data, limits, l);
    WalkIsWellFormed(data, l.HeaderEnd(), l.End(), l.auth);
    ScrubbedAllIsIdentity(o.vars);
  }

  /** Every failed write of the run leaves a file that is still this store, or one cut short. */
  predicate AllGentle(m: Machine, es: seq<Event>) {
    forall i :: 0 <= i < |es| ==> Gentle(m, es[i].io)
  }

  /** Safety over runs: whatever steps are taken, with reads failing and writes left undone or cut short
      on the way, the file agrees with the memory whenever the last write succeeded. */
  lemma {:induction false} RunAgrees(m: Machine, es: seq<Event>)
    requires Sound(m) && AllGentle(m, es)
    ensures var n := Run(m, es); Sound(n) && n.mem.layout == m.mem.layout && n.mem.limits == m.mem.limits
    decreases |es|
  {
    hide Sound, Step, Survives;
    if es != [] {
      var n := Step(m, es[0].op, es[0].io).0;
      StepAgrees(m, es[0].op, es[0].io);
      StepRefinesMap(m, es[0].op, es[0].io);
      RunAgrees(n, es[1..]);
    }
  }

  /** A file cut short by a failed write is never repaired: every later step is refused and changes
      nothing, so memory stays ahead of the file for good. */
  lemma {:induction false} TruncationIsFinal(m: Machine, es: seq<Event>)
    requires |m.file| < m.mem.layout.End()
    ensures Run(m, es) == m
    ensures forall op, io :: Step(m, op, io).1.Err?
    decreases |es|
  {
    hide Serialized, Without, AsMap;
    if es != [] {
      TruncationIsFinal(m, es[1..]);
    }
  }

  /** The run stores only well-formed names and its writes succeed. */
  predicate Plain(es: seq<Event>) {
    forall i :: 0 <= i < |es| ==> !es[i].io.WriteFails? && (es[i].op.Set? ==> WellFormed(es[i].op.variable.name))
  }

  lemma StepIsPlain(m: Machine, op: Op, io: Io)
    requires AllWellFormed(m.mem.vars) && !io.WriteFails? && (op.Set? ==> WellFormed(op.variable.name))
    ensures var n := Step(m, op, io).0; AllWellFormed(n.mem.vars) && (m.synced ==> n.synced)
  {
    hide Rebuilt, Serialized, AsMap, WellFormed;
    match op
    case Set(v) => WithoutKeeps(m.mem.vars, KeyOf(v));
    case Delete(k) => WithoutKeeps(m.mem.vars, k);
  }

  lemma {:induction false} RunIsPlain(m: Machine, es: seq<Event>)
    requires AllWellFormed(m.mem.vars) && Plain(es)
    ensures AllWellFormed(Run(m, es).mem.vars) && (m.synced ==> Run(m, es).synced)
    decreases |es|
  {
    hide Step, AllWellFormed, WellFormed;
    if es != [] {
      StepIsPlain(m, es[0].op, es[0].io);
      RunIsPlain(Step(m, es[0].op, es[0].io).0, es[1..]);
    }
  }

  /** Over every run from any file the code opens, it opens the file again without panicking, to exactly
      the memory: list, flags, offset and size. Only a store that ends at 4 GiB or beyond comes back
      empty, and only more variables than the limit admits are refused. */
  lemma RunReopens(data: seq<byte>, limits: Limits, es: seq<Event>)
    requires Opens(data, limits) && Plain(es)
    ensures var m := Run(Start(data, limits), es);
            && !OpenPanics(m.file, limits)
            && Loaded(m.file, limits)
               == if m.mem.layout.End() >= 0x1_0000_0000 then Ok(m.mem.(vars := []))
                  else if TooMany(|m.mem.vars|, limits.maxVariables) then Err(TooLarge)
                  else Ok(m.mem)
  {
    hide Run, Loaded, OpenPanics, Opens, WellFormed;
    var m := Start(data, limits);
    StartAgrees(data, limits);
    RunAgrees(m, es);
    RunIsPlain(m, es);
    ScrubbedAllIsIdentity(Run(m, es).mem.vars);
  }

  /** The steps of a run that took effect, in order. */
  function Effective(m: Machine, es: seq<Event>): seq<Op>
    decreases |es|
  {
    if es == [] then []
    else
      var (n, r) := Step(m, es[0].op, es[0].io);
      (if TookEffect(r) then [es[0].op] else []) + Effective(n, es[1..])
  }

  function MeaningOfAll(s: map<Key, Variable>, ops: seq<Op>): map<Key, Variable>
    decreases |ops|
  {
    if ops == [] then s else MeaningOfAll(Meaning(s, ops[0]), ops[1..])
  }

  /** Over every run, from any list (duplicates included), lookups are those of a map to which the
      effective steps were applied. */
  lemma {:induction false} RunRefinesMap(m: Machine, es: seq<Event>)
    ensures AsMap(Run(m, es).mem.vars) == MeaningOfAll(AsMap(m.mem.vars), Effective(m, es))
    decreases |es|
  {
    hide Step, AsMap, Meaning;
    if es != [] {
      var (n, r) := Step(m, es[0].op, es[0].io);
      StepRefinesMap(m, es[0].op, es[0].io);
      RunRefinesMap(n, es[1..]);
      var rest := Effective(n, es[1..]);
      assert ([es[0].op] + rest)[1..] == rest && [] + rest == rest;
    }
  }

  /** No step touches the file's length or a byte outside the variable region. */
  predicate SameOutside(l: Layout, a: seq<byte>, b: seq<byte>) {
    |a| == |b| && forall i :: 0 <= i < |a| && !(l.HeaderEnd() <= i < l.End()) ==> a[i] == b[i]
  }

  lemma {:induction false} RunKeepsOutside(m: Machine, es: seq<Event>)
    requires forall i :: 0 <= i < |es| ==> !es[i].io.WriteFails?
    ensures SameOutside(m.mem.layout, m.file, Run(m, es).file)
    decreases |es|
  {
    hide Serialized, Without, AsMap, Rebuilt;
    if es != [] {
      var (n, r) := Step(m, es[0].op, es[0].io);
      var l := m.mem.layout;
      if r.Ok? {
        RebuiltFrame(m.file, l, Serialized(Target(m.mem.vars, es[0].op), l.auth));
      }
      RunKeepsOutside(n, es[1..]);
    }
  }

  /** The store header and the aligned records of a list fit in the store. */
  predicate HasRoom(l: Layout, vars: seq<Variable>) {
    STORE_HEADER_SIZE + TotalSize(vars, l.auth) <= l.storeSize
  }

  /** A step never makes a key occur twice, and a Set that takes effect ends duplicates of its own key. */
  lemma StepKeepsUnique(m: Machine, op: Op, io: Io, k: Key)
    ensures var (n, r) := Step(m, op, io);
            && (Count(m.mem.vars, k) <= 1 ==> Count(n.mem.vars, k) <= 1)
            && (TookEffect(r) && op.Set? && KeyOf(op.variable) == k ==> Count(n.mem.vars, k) == 1)
  {
    hide Without, AsMap, Rebuilt, Serialized;
    var dropped := if op.Set? then KeyOf(op.variable) else op.key;
    var kept := Without(m.mem.vars, dropped);
    CountWithout(m.mem.vars, dropped, k);
    if op.Set? {
      assert (kept + [op.variable])[..|kept|] == kept;
    }
  }

  lemma {:induction false} RunKeepsUnique(m: Machine, es: seq<Event>, k: Key)
    requires Count(m.mem.vars, k) <= 1
    ensures Count(Run(m, es).mem.vars, k) <= 1
    decreases |es|
  {
    hide Step, Count;
    if es != [] {
      StepKeepsUnique(m, es[0].op, es[0].io, k);
      RunKeepsUnique(Step(m, es[0].op, es[0].io).0, es[1..], k);
    }
  }

  /** The variables in memory fit in the store. */
  predicate Fits(m: Machine) {
    HasRoom(m.mem.layout, m.mem.vars)
  }

  /** A step fails for space exactly when 28 plus the aligned record sizes of the resulting list is
      more than the store size: only live contents matter, deleted space is fully reclaimed. */
  lemma SpaceIsExact(m: Machine, op: Op)
    requires Attached(m) && m.mem.limits.Admits(|m.file|)
    requires op.Delete? ==> op.key in AsMap(m.mem.vars)
    ensures var (n, r) := Step(m, op, Works);
            if HasRoom(m.mem.layout, Target(m.mem.vars, op))
            then r.Ok? && Fits(n) && n.mem.vars == Target(m.mem.vars, op)
            else r == Err(NoSpace) && n == m
  {
    hide Serialized, TotalSize, Without, AsMap, LayoutOf;
    RoomIsExact(m.file, m.mem.layout, Target(m.mem.vars, op));
  }

  /** A store whose live names are all terminated on disk opens with room for its own contents. */
  lemma TerminatedStoreFits(data: seq<byte>, limits: Limits)
    requires Opens(data, limits)
    requires var l := Loaded(data, limits).value.layout;
             l.storeSize >= STORE_HEADER_SIZE && AllTerminated(data, l.HeaderEnd(), l.End(), l.auth)
    ensures Fits(Start(data, limits))
  {
    hide LayoutOf, AllTerminated, Walk, TotalSize, OpenPanics, Loaded, Open;
    var l := Loaded(data, limits).value.layout;
    LoadedIsOpen(data, limits);
    OpenByParts(data, limits, l);
    CompactionNeverGrows(data, l.HeaderEnd(), l.End(), l.auth);
    EmptyFits(l.auth);
  }

  lemma EmptyFits(auth: bool)
    ensures TotalSize([], auth) == 0
  {
  }

  /** A step that takes effect leaves the contents fitting, and no step loses that. */
  lemma StepFits(m: Machine, op: Op, io: Io)
    ensures var (n, r) := Step(m, op, io); TookEffect(r) || Fits(m) ==> Fits(n)
  {
    hide Serialized, TotalSize, Without, AsMap;
    var (n, r) := Step(m, op, io);
    if TookEffect(r) {
      SerializedLength(n.mem.vars, m.mem.layout.auth);
    }
  }

  lemma {:induction false} RunFits(m: Machine, es: seq<Event>)
    requires Fits(m)
    ensures Fits(Run(m, es))
    decreases |es|
  {
    hide Step, Fits;
    if es != [] {
      StepFits(m, es[0].op, es[0].io);
      RunFits(Step(m, es[0].op, es[0].io).0, es[1..]);
    }
  }

  /** Once the contents fit (after any successful flush, or opening a terminated store), deleting a
      present key with working I/O from an intact file always succeeds, however the run goes before it. */
  lemma DeleteNeverLacksSpace(m: Machine, es: seq<Event>, k: Key)
    requires Fits(m)
    requires var n := Run(m, es); k in AsMap(n.mem.vars) && Attached(n) && n.mem.limits.Admits(|n.file|)
    ensures var (n, r) := Step(Run(m, es), Delete(k), Works);
            r.Ok? && AsMap(n.mem.vars) == AsMap(Run(m, es).mem.vars) - {k}
  {
    hide Run, Attached, Step, TotalSize, AsMap, Without;
    var n := Run(m, es);
    RunFits(m, es);
    WithoutShrinks(n.mem.vars, k, n.mem.layout.auth);
    SpaceIsExact(n, Delete(k));
    StepRefinesMap(n, Delete(k), Works);
  }

  /** Why the write must succeed: after one left undone or cut short the memory has the variable and an
      open of the file does not give it. */
  lemma FailedWriteDiverges(m: Machine, v: Variable, left: FileContent)
    requires Attached(m) && Agrees(m) && !TooMany(|m.mem.vars| + 1, m.mem.limits.maxVariables)
    requires Step(m, Set(v), Works).1.Ok? && KeyOf(v) !in AsMap(m.mem.vars)
    requires (left == m.file && m.mem.layout.End() < 0x1_0000_0000) || |left| < m.mem.layout.End()
    ensures var (n, r) := Step(m, Set(v), WriteFails(left));
            r == Err(WriteFailed) && n.file == left && KeyOf(v) in AsMap(n.mem.vars) && !Agrees(n)
  {
    hide Rebuilt, OpenPanics, Serialized, AsMap, Without, LayoutOf, Walk, RegionEnd;
    var (n, r) := Step(m, Set(v), WriteFails(left));
    StepRefinesMap(m, Set(v), WriteFails(left));
    AbsentIsUntouched(m.mem.vars, KeyOf(v));
    assert |n.mem.vars| == |m.mem.vars| + 1;
    assert |ScrubbedAll(n.mem.vars)| != |ScrubbedAll(m.mem.vars)|;
  }

  lemma {:induction false} AbsentIsUntouched(vars: seq<Variable>, k: Key)
    requires k !in AsMap(vars)
    ensures Without(vars, k) == vars
  {
    if vars != [] {
      var init, last := vars[..|vars| - 1], vars[|vars| - 1];
      assert k !in AsMap(init) && KeyOf(last) != k;
      AbsentIsUntouched(init, k);
      assert vars == init + [last];
    }
  }
}
