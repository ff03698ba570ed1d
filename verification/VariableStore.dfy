/** The store object of uefi.go and the Rename of filesystem.go, method by method, proved against the
    state machine. */
module VariableStore {
  import opened Bytes
  import opened Utf16
  import opened VariableRecord
  import opened VariableRegion
  import opened StoreImage
  import opened StoreMachine

  /** EFI_GLOBAL_VARIABLE_GUID, also the namespace of the file system adapter. */
  const GLOBAL_GUID: Guid :=
    [0x61, 0xDF, 0xE4, 0x8B, 0xCA, 0x93, 0xD2, 0x11, 0xAA, 0x0D, 0x00, 0xE0, 0x98, 0x03, 0x2B, 0x8C]

  /** The backing file. */
  class Disk {
    var content: FileContent

    constructor (content: FileContent)
      ensures this.content == content
    {
      this.content := content;
    }
  }

  /** readStoreFile: an early refusal by size if Stat works, then a read capped one byte past the limit,
      in 64-bit arithmetic. The outcome is the same whether or not Stat works. */
  method ReadStoreFile(disk: Disk, max: int64, io: Io) returns (r: Result<seq<byte>>)
    ensures r == if io.ReadFails? then Err(ReadFailed) else ReadLimited(disk.content, max)
  {
    if io.ReadFails? { return Err(ReadFailed); }
    var statWorks: bool := *;
    if statWorks && |disk.content| > max { return Err(TooLarge); }
    var cap := if max == MAX_INT64 then -MAX_INT64 - 1 else max + 1;
    var data := if cap <= 0 then [] else if cap < |disk.content| then disk.content[..cap] else disk.content;
    if |data| > max { return Err(TooLarge); }
    return Ok(data);
  }

  class Store {
    const disk: Disk
    const limits: Limits
    const fvWrapped: bool
    const authVars: bool
    const storeOff: nat
    const storeSize: nat
    var vars: seq<Variable>
    ghost var synced: bool // false from a failed write until the next successful one

    function TheLayout(): Layout {
      Layout(fvWrapped, authVars, storeOff, storeSize)
    }

    /** Memory and file, as a state of the machine. */
    ghost function State(): Machine
      reads this, disk
    {
      Machine(Opened(limits, TheLayout(), vars), disk.content, synced)
    }

    constructor (disk: Disk, limits: Limits, l: Layout, vars: seq<Variable>)
      ensures this.disk == disk && this.limits == limits && TheLayout() == l && this.vars == vars && synced
    {
      this.disk := disk;
      this.limits := limits;
      this.fvWrapped := l.fvWrapped;
      this.authVars := l.auth;
      this.storeOff := l.storeOff;
      this.storeSize := l.storeSize;
      this.vars := vars;
      synced := true;
    }

    /** OpenLimits, for any file and any limits. */
    static method OpenLimits(disk: Disk, lim: Limits, io: Io) returns (panics: bool, r: Result<Store>)
      ensures panics <==> !io.ReadFails? && OpenPanics(disk.content, lim.Resolve())
      ensures !panics && r.Err? ==> if io.ReadFails? then r.error == ReadFailed
                                    else Loaded(disk.content, lim.Resolve()) == Err(r.error)
      ensures !panics && r.Ok? ==> && fresh(r.value) && r.value.disk == disk && r.value.synced
                                   && Loaded(disk.content, lim.Resolve()) == Ok(r.value.State().mem)
    {
      hide Walk, FvWrapped, U32At, WalkPanics, RegionEnd;
      var limits := lim.Resolve();
      panics := false;
      var read := ReadStoreFile(disk, limits.maxFileSize, io);
      if read.Err? { return panics, Err(read.error); }
      var data := read.value;
      var fvWrapped := DetectFvWrap(data);
      var storeOff := if fvWrapped then FV_HEADER_SIZE else 0;
      if storeOff + STORE_HEADER_SIZE > |data| { return panics, Err(TooSmall); }
      var signature := data[storeOff..storeOff + 16];
      var authVars;
      if signature == EFI_AUTHENTICATED_VARIABLE_GUID {
        authVars := true;
      } else if signature == EFI_VARIABLE_GUID {
        authVars := false;
      } else {
        return panics, Err(BadSignature);
      }
      if data[storeOff + 20] != STORE_FORMATTED { return panics, Err(NotFormatted); }
      if data[storeOff + 21] != STORE_HEALTHY { return panics, Err(NotHealthy); }
      var storeSize := U32At(data, storeOff + 16);
      var avail := |data| - storeOff;
      if storeSize > avail { storeSize := Wrap32(avail); }
      var vars;
      panics, vars := ParseVariables(data, storeOff, storeSize, authVars, limits.maxVariables);
      if panics || vars.Err? { return panics, Err(if vars.Err? then vars.error else TooLarge); }
      var s := new Store(disk, limits, Layout(fvWrapped, authVars, storeOff, storeSize), vars.value);
      return panics, Ok(s);
    }

    /** Get: the first match wins. */
    method Get(name: GoString, guid: Guid) returns (r: Result<Variable>)
      ensures r == if Key(name, guid) in AsMap(vars) then Ok(AsMap(vars)[Key(name, guid)]) else Err(NotFound)
    {
      for i := 0 to |vars|
        invariant Key(name, guid) !in AsMap(vars[..i])
      {
        var v := vars[i];
        AsMapAppend(vars[..i], v);
        assert vars[..i + 1] == vars[..i] + [v];
        if v.name == name && v.guid == guid {
          AsMapPrefix(vars, i + 1);
          return Ok(v);
        }
      }
      assert vars[..|vars|] == vars;
      return Err(NotFound);
    }

    /** Set. */
    method Set(v: Variable, io: Io) returns (r: Result<()>)
      modifies this`vars, this`synced, disk
      ensures (State(), r) == Step(old(State()), StoreMachine.Set(v), io)
    {
      hide AsMap, Serialized, Rebuilt;
      var newVars: seq<Variable> := [];
      for i := 0 to |vars|
        invariant newVars == Without(vars[..i], KeyOf(v))
      {
        assert vars[..i + 1][..i] == vars[..i];
        if !(vars[i].name == v.name && vars[i].guid == v.guid) { newVars := newVars + [vars[i]]; }
      }
      assert vars[..|vars|] == vars;
      newVars := newVars + [v];
      r := Flush(newVars, io);
    }

    /** Delete. */
    method Delete(name: GoString, guid: Guid, io: Io) returns (r: Result<()>)
      modifies this`vars, this`synced, disk
      ensures (State(), r) == Step(old(State()), StoreMachine.Delete(Key(name, guid)), io)
    {
      hide Serialized, Rebuilt;
      var newVars: seq<Variable> := [];
      var found := false;
      for i := 0 to |vars|
        invariant newVars == Without(vars[..i], Key(name, guid))
        invariant found <==> Key(name, guid) in AsMap(vars[..i])
      {
        assert vars[..i + 1][..i] == vars[..i];
        if vars[i].name == name && vars[i].guid == guid {
          found := true;
        } else {
          newVars := newVars + [vars[i]];
        }
      }
      assert vars[..|vars|] == vars;
      if !found { return Err(NotFound); }
      r := Flush(newVars, io);
    }

    /** flush: re-reads the file, rewrites its region, then stores the list before writing. */
    method Flush(newVars: seq<Variable>, io: Io) returns (r: Result<()>)
      modifies this`vars, this`synced, disk
      ensures (State(), r) == StoreMachine.Flush(old(State()), newVars, io)
    {
      hide Serialized, Rebuilt;
      var orig := ReadStoreFile(disk, limits.maxFileSize, io);
      if orig.Err? { return Err(orig.error); }
      if |orig.value| < storeOff + STORE_HEADER_SIZE { return Err(TooSmall); }
      var payload := SerializeVars(newVars, authVars);
      var buf := BuildStore(orig.value, TheLayout(), payload);
      if buf.Err? { return Err(buf.error); }
      vars := newVars;
      if io.WriteFails? {
        disk.content, synced := io.left, false;
        return Err(WriteFailed);
      }
      disk.content, synced := buf.value, true;
      return Ok(());
    }

    /** Rename: Get, Set under the new name, Delete of the old one with its result ignored. */
    method Rename(oldPath: GoString, newPath: GoString, setIo: Io, deleteIo: Io) returns (r: Result<()>)
      modifies this`vars, this`synced, disk
      ensures (State(), r) == Renamed(old(State()), oldPath, newPath, setIo, deleteIo)
    {
      hide Step;
      var got := Get(oldPath, GLOBAL_GUID);
      if got.Err? { return Err(got.error); }
      var v := got.value.(name := newPath);
      r := Set(v, setIo);
      if r.Err? { return; }
      var _ := Delete(oldPath, GLOBAL_GUID, deleteIo);
      return Ok(());
    }
  }

  /** The first match in a prefix is the first match. */
  lemma {:induction false} AsMapPrefix(vars: seq<Variable>, i: nat)
    requires i <= |vars|
    ensures forall k :: k in AsMap(vars[..i]) ==> k in AsMap(vars) && AsMap(vars)[k] == AsMap(vars[..i])[k]
    decreases |vars|
  {
    if i == |vars| {
      assert vars[..i] == vars;
    } else {
      var init := vars[..|vars| - 1];
      AsMapPrefix(init, i);
      assert init[..i] == vars[..i];
    }
  }

  /** Rename as two steps of the machine. */
  function Renamed(m: Machine, oldPath: GoString, newPath: GoString, setIo: Io, deleteIo: Io): (Machine, Result<()>) {
    var k := Key(oldPath, GLOBAL_GUID);
    if k !in AsMap(m.mem.vars) then (m, Err(NotFound))
    else
      var (n, r) := Step(m, StoreMachine.Set(AsMap(m.mem.vars)[k].(name := newPath)), setIo);
      if r.Err? then (n, r) else (Step(n, StoreMachine.Delete(k), deleteIo).0, Ok(()))
  }

  /** Rename keeps the machine sound, with reads failing and writes left undone or cut short. */
  lemma RenameAgrees(m: Machine, oldPath: GoString, newPath: GoString, setIo: Io, deleteIo: Io)
    requires Sound(m) && Gentle(m, setIo) && Gentle(m, deleteIo)
    ensures Sound(Renamed(m, oldPath, newPath, setIo, deleteIo).0)
  {
    hide Step, Sound, AsMap, Survives;
    var k := Key(oldPath, GLOBAL_GUID);
    if k in AsMap(m.mem.vars) {
      var op := StoreMachine.Set(AsMap(m.mem.vars)[k].(name := newPath));
      StepAgrees(m, op, setIo);
      StepRefinesMap(m, op, setIo);
      StepAgrees(Step(m, op, setIo).0, StoreMachine.Delete(k), deleteIo);
    }
  }

  /** Renaming what is not there is refused and touches nothing; so does every refusal of the Set. */
  lemma RenameOfAbsent(m: Machine, oldPath: GoString, newPath: GoString, setIo: Io, deleteIo: Io)
    ensures var (n, r) := Renamed(m, oldPath, newPath, setIo, deleteIo);
            && (r == Err(NotFound) <==> Key(oldPath, GLOBAL_GUID) !in AsMap(m.mem.vars))
            && (r.Err? && !setIo.WriteFails? ==> n == m)
  {
    hide AsMap, Step, HasRoom, Target;
    var k := Key(oldPath, GLOBAL_GUID);
    if k in AsMap(m.mem.vars) {
      StepIsExact(m, StoreMachine.Set(AsMap(m.mem.vars)[k].(name := newPath)), setIo);
    }
  }

  /** Rename on an intact store with working I/O: it fails only as its Set does, before anything is
      written, and otherwise its Delete has room. The map is the old one with the new key bound to the
      same attributes and data and then the old key removed, so the value is kept exactly when the two
      names differ: renaming a variable to itself deletes it. */
  lemma RenameMovesVariable(m: Machine, oldPath: GoString, newPath: GoString)
    requires Attached(m) && m.mem.limits.Admits(|m.file|)
    requires Key(oldPath, GLOBAL_GUID) in AsMap(m.mem.vars)
    ensures var s := AsMap(m.mem.vars);
            var source, target := Key(oldPath, GLOBAL_GUID), Key(newPath, GLOBAL_GUID);
            var v := s[source].(name := newPath);
            var (n, r) := Renamed(m, oldPath, newPath, Works, Works);
            && r.Ok? == Step(m, StoreMachine.Set(v), Works).1.Ok?
            && (r.Err? ==> n == m)
            && (r.Ok? ==> AsMap(n.mem.vars) == s[target := v] - {source})
            && (r.Ok? ==> (target in AsMap(n.mem.vars) <==> oldPath != newPath))
            && (r.Ok? && oldPath != newPath ==> AsMap(n.mem.vars) == (s - {source})[target := v])
  {
    hide Step, AsMap, LayoutOf, Serialized, Rebuilt;
    var s := AsMap(m.mem.vars);
    var source, target := Key(oldPath, GLOBAL_GUID), Key(newPath, GLOBAL_GUID);
    var v := s[source].(name := newPath);
    AsMapKeys(m.mem.vars);
    assert KeyOf(v) == target;
    SetLeavesRoom(m, v);
    var n := Step(m, StoreMachine.Set(v), Works).0;
    StepRefinesMap(m, StoreMachine.Set(v), Works);
    if Step(m, StoreMachine.Set(v), Works).1.Ok? && source in AsMap(n.mem.vars) {
      StepRefinesMap(n, StoreMachine.Delete(source), Works);
    }
  }

  /** Rename answers for its Set only. Once that has succeeded, its Delete succeeds exactly when the
      Delete's own I/O works, and Rename reports success all the same: a failed read leaves both names
      bound, a failed write leaves the variable moved in memory and whatever was left in the file. */
  lemma RenameHidesFailedDelete(m: Machine, oldPath: GoString, newPath: GoString, deleteIo: Io)
    requires Attached(m) && m.mem.limits.Admits(|m.file|) && oldPath != newPath
    requires Key(oldPath, GLOBAL_GUID) in AsMap(m.mem.vars)
    requires Renamed(m, oldPath, newPath, Works, Works).1.Ok?
    ensures var s, source, target := AsMap(m.mem.vars), Key(oldPath, GLOBAL_GUID), Key(newPath, GLOBAL_GUID);
            var v := s[source].(name := newPath);
            var copied := Step(m, StoreMachine.Set(v), Works).0;
            var (n, r) := Renamed(m, oldPath, newPath, Works, deleteIo);
            && r.Ok?
            && (Step(copied, StoreMachine.Delete(source), deleteIo).1.Ok? <==> deleteIo.Works?)
            && (deleteIo.ReadFails? ==> n == copied && AsMap(n.mem.vars) == s[target := v])
            && (deleteIo.WriteFails? ==>
                  n.file == deleteIo.left && !n.synced && AsMap(n.mem.vars) == (s - {source})[target := v])
  {
    hide AsMap, LayoutOf, Serialized, Rebuilt;
    var s, source, target := AsMap(m.mem.vars), Key(oldPath, GLOBAL_GUID), Key(newPath, GLOBAL_GUID);
    AsMapKeys(m.mem.vars);
    var v := s[source].(name := newPath);
    assert KeyOf(v) == target;
    SetLeavesRoom(m, v);
    StepRefinesMap(m, StoreMachine.Set(v), Works);
    var copied := Step(m, StoreMachine.Set(v), Works).0;
    assert AsMap(copied.mem.vars) == s[target := v] && source in AsMap(copied.mem.vars);
    StepRefinesMap(copied, StoreMachine.Delete(source), deleteIo);
  }

  /** After a successful Set, any present key can be deleted. */
  lemma SetLeavesRoom(m: Machine, v: Variable)
    requires Attached(m) && m.mem.limits.Admits(|m.file|)
    ensures var (n, r) := Step(m, StoreMachine.Set(v), Works);
            && (r.Err? ==> r.error == NoSpace)
            && (r.Ok? ==> forall k :: k in AsMap(n.mem.vars) ==> Step(n, StoreMachine.Delete(k), Works).1.Ok?)
  {
    hide AsMap, Attached, TotalSize, Without, Step;
    var (n, r) := Step(m, StoreMachine.Set(v), Works);
    SpaceIsExact(m, StoreMachine.Set(v));
    if r.Ok? {
      SuccessAgrees(m, StoreMachine.Set(v), Works);
      StepFits(m, StoreMachine.Set(v), Works);
      forall k | k in AsMap(n.mem.vars)
        ensures Step(n, StoreMachine.Delete(k), Works).1.Ok?
      {
        WithoutShrinks(n.mem.vars, k, n.mem.layout.auth);
        SpaceIsExact(n, StoreMachine.Delete(k));
      }
    }
  }
}
