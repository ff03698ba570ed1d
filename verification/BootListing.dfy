/** ListBootEntries: every parseable Boot#### entry, and the order to try them in. */
module BootListing {
  import opened Bytes
  import opened Utf16
  import opened VariableRecord
  import opened VariableRegion
  import opened StoreImage
  import opened StoreMachine
  import opened VariableStore
  import opened LoadOption
  import opened BootManager
  import opened Format

  /** The entry a variable holds, if it is a global Boot#### variable that parses. */
  function EntryIn(v: Variable): Option<(uint16, LoadOption)> {
    if v.guid == GLOBAL_GUID && BootNumber(v.name).Some? && ParsedOption(v.data).Ok?
    then Some((BootNumber(v.name).value, ParsedOption(v.data).value)) else None
  }

  /** All entries of a list; of duplicates, the last that parses counts. */
  function EntriesOf(vars: seq<Variable>): map<uint16, LoadOption> {
    if vars == [] then map[]
    else
      var m := EntriesOf(vars[..|vars| - 1]);
      match EntryIn(vars[|vars| - 1])
      case None => m
      case Some((n, lo)) => m[n := lo]
  }

  /** The boot order without absent entries and repetitions. */
  function Referenced(order: seq<uint16>, keys: set<uint16>): seq<uint16> {
    if order == [] then []
    else
      var r, last := Referenced(order[..|order| - 1], keys), order[|order| - 1];
      if last in keys && last !in r then r + [last] else r
  }

  /** The entries below `i` that `seen` lacks. */
  function Remaining(keys: set<uint16>, seen: seq<uint16>, i: nat): seq<uint16>
    requires i <= 0x1_0000
  {
    if i == 0 then []
    else Remaining(keys, seen, i - 1) + if i - 1 in keys && i - 1 !in seen then [i - 1] else []
  }

  function Listing(order: seq<uint16>, keys: set<uint16>): seq<uint16> {
    var referenced := Referenced(order, keys);
    referenced + Remaining(keys, referenced, 0x1_0000)
  }

  /** The first position of `n` in the order. */
  function FirstIndex(order: seq<uint16>, n: uint16): (i: nat)
    requires n in order
    ensures i < |order| && order[i] == n && n !in order[..i]
  {
    if order[0] == n then 0
    else
      var i := FirstIndex(order[1..], n);
      assert order[..i + 1] == [order[0]] + order[1..][..i];
      i + 1
  }

  predicate Distinct(s: seq<uint16>) {
    forall i, j :: 0 <= i < j < |s| ==> s[i] != s[j]
  }

  lemma FirstIndexOfPrefix(order: seq<uint16>, k: nat, n: uint16)
    requires k <= |order| && n in order[..k]
    ensures n in order && FirstIndex(order, n) == FirstIndex(order[..k], n) < k
  {
    var i, j := FirstIndex(order, n), FirstIndex(order[..k], n);
    assert order[j] == n && n !in order[..k][..j] && order[..k][..j] == order[..j];
  }

  /** First come the entries the boot order names: exactly those, once each, by first occurrence. */
  lemma {:induction false} ReferencedKeepsFirsts(order: seq<uint16>, keys: set<uint16>)
    ensures var r := Referenced(order, keys);
            && Distinct(r)
            && (forall n :: n in r <==> n in order && n in keys)
            && (forall i, j :: 0 <= i < j < |r| ==> FirstIndex(order, r[i]) < FirstIndex(order, r[j]))
  {
    hide FirstIndex;
    if order != [] {
      var k := |order| - 1;
      var p, q, last, r := order[..k], Referenced(order[..k], keys), order[k], Referenced(order, keys);
      ReferencedKeepsFirsts(p, keys);
      assert order == p + [last];
      forall i | 0 <= i < |q|
        ensures q[i] in order && FirstIndex(order, q[i]) == FirstIndex(p, q[i]) < k
      {
        assert q[i] in q;
        FirstIndexOfPrefix(order, k, q[i]);
      }
      if r != q {
        assert last !in p;
        LastIsFirst(order);
      }
    }
  }

  lemma LastIsFirst(order: seq<uint16>)
    requires order != [] && order[|order| - 1] !in order[..|order| - 1]
    ensures FirstIndex(order, order[|order| - 1]) == |order| - 1
  {
  }

  /** Then come the others, in strictly ascending order. */
  lemma {:induction false} RemainingAscends(keys: set<uint16>, seen: seq<uint16>, i: nat)
    requires i <= 0x1_0000
    ensures var r := Remaining(keys, seen, i);
            && (forall n: uint16 :: n in r <==> n < i && n in keys && n !in seen)
            && (forall a, b :: 0 <= a < b < |r| ==> r[a] < r[b])
  {
    if i > 0 {
      RemainingAscends(keys, seen, i - 1);
      var q := Remaining(keys, seen, i - 1);
      assert forall a :: 0 <= a < |q| ==> q[a] in q;
    }
  }

  /** The listing names every entry exactly once: those in the boot order first. */
  lemma ListingIsPermutation(order: seq<uint16>, keys: set<uint16>)
    ensures var r, k := Listing(order, keys), |Referenced(order, keys)|;
            && Distinct(r) && (forall n: uint16 :: n in r <==> n in keys)
            && (forall n: uint16 :: n in r[..k] <==> n in order && n in keys)
            && (forall i, j :: 0 <= i < j < k ==> FirstIndex(order, r[i]) < FirstIndex(order, r[j]))
            && (forall i, j :: k <= i < j < |r| ==> r[i] < r[j])
  {
    hide Remaining, FirstIndex, Referenced;
    var p := Referenced(order, keys);
    ReferencedKeepsFirsts(order, keys);
    RemainingAscends(keys, p, 0x1_0000);
    var q := Remaining(keys, p, 0x1_0000);
    assert Listing(order, keys)[..|p|] == p;
    assert forall i :: 0 <= i < |q| ==> q[i] in q;
    DistinctConcat(p, q);
  }

  lemma DistinctConcat(p: seq<uint16>, q: seq<uint16>)
    requires Distinct(p) && (forall i :: 0 <= i < |q| ==> q[i] !in p)
    requires forall i, j :: 0 <= i < j < |q| ==> q[i] < q[j]
    ensures Distinct(p + q)
  {
    assert forall i :: 0 <= i < |p| ==> p[i] in p;
  }

  /** Where at most one variable has the key of number n, the listing agrees with BootEntry on n;
      duplicates of other keys do not matter. */
  lemma {:induction false} EntriesAgree(vars: seq<Variable>, n: uint16)
    requires Count(vars, EntryKey(n)) <= 1
    ensures n in EntriesOf(vars) <==> EntryOf(AsMap(vars), n).Ok?
    ensures n in EntriesOf(vars) ==> EntryOf(AsMap(vars), n) == Ok(EntriesOf(vars)[n])
  {
    hide ParsedOption, BootName, BootNumber;
    if vars != [] {
      var init, last := vars[..|vars| - 1], vars[|vars| - 1];
      EntriesAgree(init, n);
      BootNumberIsInverse(last.name, n);
      CountedIsPresent(init, EntryKey(n));
    }
  }

  lemma {:induction false} CountedIsPresent(vars: seq<Variable>, k: Key)
    ensures Count(vars, k) > 0 <==> k in AsMap(vars)
  {
    if vars != [] {
      CountedIsPresent(vars[..|vars| - 1], k);
    }
  }

  /** Over every run from a file that opens with at most one variable for number n, the listing and
      BootEntry agree on n, however its I/O goes. */
  lemma RunListingAgrees(data: seq<byte>, limits: Limits, es: seq<Event>, n: uint16)
    requires Opens(data, limits) && Count(Loaded(data, limits).value.vars, EntryKey(n)) <= 1
    ensures var vars := Run(Start(data, limits), es).mem.vars;
            && (n in EntriesOf(vars) <==> EntryOf(AsMap(vars), n).Ok?)
            && (n in EntriesOf(vars) ==> EntryOf(AsMap(vars), n) == Ok(EntriesOf(vars)[n]))
  {
    hide Loaded, OpenPanics, Run, EntriesOf, EntryOf, AsMap, Count;
    RunKeepsUnique(Start(data, limits), es, EntryKey(n));
    EntriesAgree(Run(Start(data, limits), es).mem.vars, n);
  }

  /** The listing after a boot order grows by the number of a new entry: it comes last of those the order
      names, unless the order named it already, in vain; then it comes where it was named. */
  lemma ReferencedAppend(order: seq<uint16>, keys: set<uint16>, n: uint16)
    requires n !in keys
    ensures Referenced(order + [n], keys + {n})
            == if n in order then Referenced(order, keys + {n}) else Referenced(order, keys) + [n]
  {
    var more := Referenced(order, keys + {n});
    assert (order + [n])[..|order|] == order;
    ReferencedKeepsFirsts(order, keys + {n});
    if n !in order {
      ReferencedIgnores(order, keys, n);
    }
  }

  lemma {:induction false} ReferencedIgnores(order: seq<uint16>, keys: set<uint16>, n: uint16)
    requires n !in order
    ensures Referenced(order, keys + {n}) == Referenced(order, keys)
  {
    if order != [] {
      ReferencedIgnores(order[..|order| - 1], keys, n);
    }
  }

  /** The order is no boot entry, so rewriting it leaves the entries alone. */
  lemma {:induction false} EntriesWithoutOrder(vars: seq<Variable>)
    ensures EntriesOf(Without(vars, ORDER_KEY)) == EntriesOf(vars)
  {
    hide ParsedOption, BootNumber;
    if vars != [] {
      var init, last := vars[..|vars| - 1], vars[|vars| - 1];
      EntriesWithoutOrder(init);
      OrderIsNoEntry(last);
      if KeyOf(last) != ORDER_KEY {
        EntriesAppend(Without(init, ORDER_KEY), last);
      } else {
        assert Without(vars, ORDER_KEY) == Without(init, ORDER_KEY);
      }
    }
  }

  lemma OrderIsNoEntry(v: Variable)
    ensures KeyOf(v) == ORDER_KEY ==> EntryIn(v) == None
  {
  }

  lemma EntriesAppend(vars: seq<Variable>, v: Variable)
    ensures EntriesOf(vars + [v])
            == match EntryIn(v) case None => EntriesOf(vars) case Some((n, lo)) => EntriesOf(vars)[n := lo]
  {
    assert (vars + [v])[..|vars|] == vars;
  }

  /** A successful AddBootEntry adds exactly its entry to the listing, at the end of the boot order's part
      unless the order already named its number. */
  lemma AddBootEntryLists(m: Machine, lo: LoadOption, entryIo: Io, orderIo: Io)
    requires Added(m, lo, entryIo, orderIo).1.Ok? && OptionBytes(lo).Ok?
    requires |OptionBytes(lo).value| <= MAX_OPTION_BYTES && WellFormed(lo.description) && NulFree(lo.description)
    ensures var (t, r) := Added(m, lo, entryIo, orderIo);
            var keys, order, n := EntriesOf(m.mem.vars).Keys, OrderOf(AsMap(m.mem.vars)), r.value;
            && n !in keys && EntriesOf(t.mem.vars) == EntriesOf(m.mem.vars)[n := lo]
            && order.Ok? && OrderOf(AsMap(t.mem.vars)) == Ok(order.value + [n])
            && Referenced(order.value + [n], keys + {n})
               == if n in order.value then Referenced(order.value, keys + {n}) else Referenced(order.value, keys) + [n]
  {
    hide Step, FreeFrom, OptionBytes, AsMap, BootName, BootNumber, ParsedOption, WellFormed, NulFree, BytesOfUnits,
         OrderOf, EntriesOf, Without, Referenced;
    var (t, r) := Added(m, lo, entryIo, orderIo);
    var vars, n := m.mem.vars, r.value;
    AddBootEntryAdds(m, lo, entryIo, orderIo);
    AbsentIsUntouched(vars, EntryKey(n));
    var entry := GlobalVariable(BootName(n), OptionBytes(lo).value);
    var (m1, r1) := Step(m, Set(entry), entryIo);
    OkTargets(m, Set(entry), entryIo);
    assert m1.mem.vars == vars + [entry];
    var update := OrderVariable(OrderOf(AsMap(m1.mem.vars)).value + [n]);
    OkTargets(m1, Set(update), orderIo);
    ParseMarshalledOption(lo);
    AddedEntries(vars, n, entry, lo, update);
    FreeIsUnlisted(vars, n);
    ReferencedAppend(OrderOf(AsMap(vars)).value, EntriesOf(vars).Keys, n);
  }

  lemma OkTargets(m: Machine, op: Op, io: Io)
    requires Step(m, op, io).1.Ok?
    ensures Step(m, op, io).0.mem.vars == Target(m.mem.vars, op)
  {
    hide Rebuilt, Serialized, Without, AsMap;
  }

  lemma FreeIsUnlisted(vars: seq<Variable>, n: uint16)
    requires EntryKey(n) !in AsMap(vars)
    ensures n !in EntriesOf(vars)
  {
    hide AsMap, EntriesOf;
    CountedIsPresent(vars, EntryKey(n));
    EntriesAgree(vars, n);
  }

  lemma AddedEntries(vars: seq<Variable>, n: uint16, entry: Variable, lo: LoadOption, update: Variable)
    requires KeyOf(entry) == EntryKey(n) && ParsedOption(entry.data) == Ok(lo) && KeyOf(update) == ORDER_KEY
    ensures EntriesOf(Without(vars + [entry], ORDER_KEY) + [update]) == EntriesOf(vars)[n := lo]
  {
    hide ParsedOption, BootName, BootNumber, EntriesOf, Without;
    EntriesAppend(Without(vars + [entry], ORDER_KEY), update);
    OrderIsNoEntry(update);
    EntriesWithoutOrder(vars + [entry]);
    EntriesAppend(vars, entry);
    BootNumberIsInverse(entry.name, n);
  }

  /** Two variables with the key of number n that hold different load options. */
  function Duplicates(n: uint16): seq<Variable> {
    [GlobalVariable(BootName(n), [1, 0, 0, 0, 0, 0, 0, 0]), GlobalVariable(BootName(n), [2, 0, 0, 0, 0, 0, 0, 0])]
  }

  /** A store file that holds both. */
  function DuplicateFile(n: uint16): Result<seq<byte>> {
    Rebuilt(EmptyStore(0x200), Layout(false, false, 0, 0x200), Serialized(Duplicates(n), false))
  }

  /** Duplicates break the agreement, and a file can hold them: on one that opens, a lookup takes the
      first and the listing the last. */
  lemma DuplicatesDisagree(n: uint16, limits: Limits)
    requires limits.Admits(0x200) && limits.maxVariables >= 2
    ensures DuplicateFile(n).Ok?
    ensures Opens(DuplicateFile(n).value, limits)
    ensures Loaded(DuplicateFile(n).value, limits)
            == Ok(Opened(limits, Layout(false, false, 0, 0x200), Duplicates(n)))
    ensures EntryOf(AsMap(Duplicates(n)), n) == Ok(LoadOption(1, [], [], []))
    ensures n in EntriesOf(Duplicates(n)) && EntriesOf(Duplicates(n))[n] == LoadOption(2, [], [], [])
  {
    hide BootName, BootNumber, ParsedOption, Open, Loaded, OpenPanics, LayoutOf, Serialized, TotalSize, EmptyStore;
    hide Rebuilt;
    var vars := Duplicates(n);
    assert vars[..1] == [vars[0]] && [vars[0]][..0] == [];
    assert AsMap([vars[0]]) == map[EntryKey(n) := vars[0]];
    SmallestOption(1);
    SmallestOption(2);
    BootNumberIsInverse(BootName(n), n);
    DuplicatesFit(n);
    EmptyStoreOpens(0x200, limits);
    EmptyLayout(limits);
    RoomIsExact(EmptyStore(0x200), Layout(false, false, 0, 0x200), vars);
    LoadRebuilt(EmptyStore(0x200), Layout(false, false, 0, 0x200), vars, limits);
    ScrubbedAllIsIdentity(vars);
  }

  lemma EmptyLayout(limits: Limits)
    requires Open(EmptyStore(0x200), limits) == Ok(Opened(limits, Layout(false, false, 0, 0x200), []))
    ensures LayoutOf(EmptyStore(0x200)) == Ok(Layout(false, false, 0, 0x200))
  {
    hide LayoutOf, Walk, EmptyStore;
  }

  lemma DuplicatesFit(n: uint16)
    ensures AllWellFormed(Duplicates(n))
    ensures STORE_HEADER_SIZE + TotalSize(Duplicates(n), false) <= 0x200
  {
    hide BootName, RecordSize;
    var vars := Duplicates(n);
    BootNameSize(n, vars[0].data);
    BootNameSize(n, vars[1].data);
    assert vars[1..] == [vars[1]] && [vars[1]][1..] == [];
    assert TotalSize([vars[1]], false) == RecordSize(vars[1], false);
  }

  lemma BootNameSize(n: uint16, data: seq<byte>)
    requires |data| == 8
    ensures WellFormed(BootName(n)) && RecordSize(GlobalVariable(BootName(n), data), false) <= 100
  {
    hide Align4, HexDigit, EncodeRunes;
    assert WellFormed(BootName(n)) by { HexDigitsAreScalars(n); }
    EncodedLength(Runes(BootName(n)));
  }

  lemma HexDigitsAreScalars(n: uint16)
    ensures WellFormed(BootName(n))
  {
  }

  lemma {:induction false} EncodedLength(s: seq<Scalar>)
    ensures |EncodeRunes(s)| <= 2 * |s|
  {
    if s != [] {
      EncodedLength(s[1..]);
    }
  }

  lemma SmallestOption(a: byte)
    ensures ParsedOption([a, 0, 0, 0, 0, 0, 0, 0]) == Ok(LoadOption(a, [], [], []))
  {
    var b: seq<byte> := [a, 0, 0, 0, 0, 0, 0, 0];
    assert NulFrom(b, 6) == Ok(6);
    assert b[6..6] == [] && b[8..8] == [] && b[8..] == [];
    assert U16At(b, 4) == 0 && U32At(b, 0) == a;
    assert UnitsOfBytes([]) == [];
  }

  /** ListBootEntries. */
  method ListBootEntries(store: Store) returns (r: Result<(map<uint16, LoadOption>, seq<uint16>)>)
    ensures match OrderOf(AsMap(store.vars))
            case Err(e) => r == Err(e)
            case Ok(order) => r == Ok((EntriesOf(store.vars), Listing(order, EntriesOf(store.vars).Keys)))
  {
    hide BootNumber, ParsedOption, OrderOf, AsMap;
    var entries: map<uint16, LoadOption> := map[];
    for i := 0 to |store.vars|
      invariant entries == EntriesOf(store.vars[..i])
    {
      var v := store.vars[i];
      assert store.vars[..i + 1][..i] == store.vars[..i];
      if v.guid == GLOBAL_GUID {
        var n := ParseBootName(v.name);
        if n.Some? {
          var lo := ParseLoadOption(v.data);
          if lo.Ok? { entries := entries[n.value := lo.value]; }
        }
      }
    }
    assert store.vars[..|store.vars|] == store.vars;
    var order := BootOrder(store);
    if order.Err? { return Err(order.error); }
    var ordered := Order(order.value, entries.Keys);
    return Ok((entries, ordered));
  }

  /** The two ordering loops of ListBootEntries. */
  method Order(order: seq<uint16>, keys: set<uint16>) returns (ordered: seq<uint16>)
    ensures ordered == Listing(order, keys)
  {
    hide Remaining;
    ordered := [];
    var seen: set<uint16> := {};
    for i := 0 to |order|
      invariant ordered == Referenced(order[..i], keys)
      invariant forall n :: n in seen <==> n in ordered
    {
      assert order[..i + 1][..i] == order[..i];
      if order[i] in keys && order[i] !in seen {
        ordered := ordered + [order[i]];
        seen := seen + {order[i]};
      }
    }
    assert order[..|order|] == order;
    ordered := AppendRemaining(ordered, seen, keys);
  }

  method AppendRemaining(referenced: seq<uint16>, seen: set<uint16>, keys: set<uint16>) returns (ordered: seq<uint16>)
    requires forall n :: n in seen <==> n in referenced
    ensures ordered == referenced + Remaining(keys, referenced, 0x1_0000)
  {
    hide Remaining;
    ordered := referenced;
    var marked := seen;
    RemainingNone(keys, referenced);
    for i := 0 to 0x1_0000
      invariant ordered == referenced + Remaining(keys, referenced, i)
      invariant forall n :: n in marked <==> n in ordered
    {
      RemainingStep(keys, referenced, i);
      if i in keys && i !in marked {
        ordered := ordered + [i];
        marked := marked + {i};
      }
    }
  }

  lemma RemainingNone(keys: set<uint16>, seen: seq<uint16>)
    ensures Remaining(keys, seen, 0) == []
  {
  }

  lemma RemainingStep(keys: set<uint16>, seen: seq<uint16>, i: uint16)
    ensures i !in Remaining(keys, seen, i)
    ensures Remaining(keys, seen, i + 1)
            == if i in keys && i !in seen then Remaining(keys, seen, i) + [i] else Remaining(keys, seen, i)
  {
    RemainingAscends(keys, seen, i);
  }
}
