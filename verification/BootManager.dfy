/** The boot manager variables BootOrder and Boot#### over a store. */
module BootManager {
  import opened Bytes
  import opened Utf16
  import opened VariableRecord
  import opened StoreImage
  import opened StoreMachine
  import opened VariableStore
  import opened LoadOption

  datatype Option<+T> = None | Some(value: T)

  const BOOT: GoString := [0x42, 0x6F, 0x6F, 0x74]
  const BOOT_ORDER: GoString := [0x42, 0x6F, 0x6F, 0x74, 0x4F, 0x72, 0x64, 0x65, 0x72]
  const BOOT_ATTRIBUTES: uint32 := 7

  // ---------- Names ----------

  function HexDigit(d: nat): Char
    requires d < 16
  {
    if d < 10 then 0x30 + d else 0x41 + d - 10
  }

  predicate IsHexDigit(c: Char) {
    0x30 <= c <= 0x39 || 0x41 <= c <= 0x46
  }

  function DigitValue(c: Char): (d: nat)
    requires IsHexDigit(c)
    ensures d < 16 && HexDigit(d) == c
  {
    if c <= 0x39 then c - 0x30 else c - 0x41 + 10
  }

  /** "Boot" and four upper-case hexadecimal digits. */
  function BootName(n: uint16): (s: GoString)
    ensures |s| == 8
  {
    BOOT + [HexDigit(n / 0x1000), HexDigit(n / 0x100 % 0x10), HexDigit(n / 0x10 % 0x10), HexDigit(n % 0x10)]
  }

  /** Text without undecodable bytes, as a Go string. */
  function Text(s: string): (t: GoString)
    ensures |t| == |s|
    ensures forall i :: 0 <= i < |s| ==> t[i] == s[i] as int
  {
    seq(|s|, i requires 0 <= i < |s| => s[i] as int)
  }

  /** How the names are spelled. */
  lemma BootNameSpelled(n: uint16)
    ensures var digits := Text("0123456789ABCDEF");
            BootName(n) == Text("Boot") + [digits[n / 0x1000], digits[n / 0x100 % 0x10], digits[n / 0x10 % 0x10],
                                           digits[n % 0x10]]
    ensures BootName(0xAF) == Text("Boot00AF") && BootNumber(Text("Boot00af")) == None
    ensures BOOT_ORDER == Text("BootOrder")
  {
    HexDigitSpelled(n / 0x1000);
    HexDigitSpelled(n / 0x100 % 0x10);
    HexDigitSpelled(n / 0x10 % 0x10);
    HexDigitSpelled(n % 0x10);
    assert !IsHexDigit(Text("Boot00af")[6]);
  }

  lemma HexDigitSpelled(d: nat)
    requires d < 16
    ensures HexDigit(d) == Text("0123456789ABCDEF")[d]
  {
  }

  /** The value of a run of digits. */
  function HexValue(s: GoString): nat
    requires forall i :: 0 <= i < |s| ==> IsHexDigit(s[i])
  {
    if s == [] then 0 else 0x10 * HexValue(s[..|s| - 1]) + DigitValue(s[|s| - 1])
  }

  /** The number a name spells, if it is a Boot#### name. */
  function BootNumber(name: GoString): Option<uint16> {
    if |name| == 8 && name[..4] == BOOT && (forall i :: 4 <= i < 8 ==> IsHexDigit(name[i])) then
      Some(0x1000 * DigitValue(name[4]) + 0x100 * DigitValue(name[5])
           + 0x10 * DigitValue(name[6]) + DigitValue(name[7]))
    else None
  }

  lemma DigitOfHex(d: nat)
    requires d < 16
    ensures IsHexDigit(HexDigit(d)) && DigitValue(HexDigit(d)) == d
  {
  }

  /** Naming and number parsing are inverse on all 16-bit numbers. */
  lemma BootNumberIsInverse(name: GoString, n: uint16)
    ensures BootNumber(name) == Some(n) <==> name == BootName(n)
  {
    hide HexDigit, DigitValue;
    var a, b, c, d := n / 0x1000, n / 0x100 % 0x10, n / 0x10 % 0x10, n % 0x10;
    NumberOf(n);
    if name == BootName(n) {
      DigitOfHex(a);
      DigitOfHex(b);
      DigitOfHex(c);
      DigitOfHex(d);
      assert name[..4] == BOOT;
    }
    if BootNumber(name) == Some(n) {
      var w, x, y, z := DigitValue(name[4]), DigitValue(name[5]), DigitValue(name[6]), DigitValue(name[7]);
      DigitsOf(n, w, x, y, z);
      assert name == name[..4] + [name[4], name[5], name[6], name[7]];
    }
  }

  lemma DigitsOf(n: nat, a: nat, b: nat, c: nat, d: nat)
    requires a < 16 && b < 16 && c < 16 && d < 16 && n == 0x1000 * a + 0x100 * b + 0x10 * c + d
    ensures a == n / 0x1000 && b == n / 0x100 % 0x10 && c == n / 0x10 % 0x10 && d == n % 0x10
  {
    assert n / 0x10 == 0x100 * a + 0x10 * b + c;
    assert n / 0x100 == 0x10 * a + b;
  }

  lemma NumberOf(n: uint16)
    ensures n / 0x1000 < 16
    ensures n == 0x1000 * (n / 0x1000) + 0x100 * (n / 0x100 % 0x10) + 0x10 * (n / 0x10 % 0x10) + n % 0x10
  {
    assert n / 0x100 == 0x10 * (n / 0x1000) + n / 0x100 % 0x10;
    assert n / 0x10 == 0x10 * (n / 0x100) + n / 0x10 % 0x10;
  }

  /** len(s): the UTF-8 length of a Go string. */
  function Utf8Width(c: Char): nat {
    if c < 0x80 || c >= 0x110000 then 1 else if c < 0x800 then 2 else if c < 0x1_0000 then 3 else 4
  }

  function ByteLength(s: GoString): (n: nat)
    ensures n >= |s|
  {
    if s == [] then 0 else ByteLength(s[..|s| - 1]) + Utf8Width(s[|s| - 1])
  }

  lemma {:induction false} AsciiLength(s: GoString)
    requires forall i :: 0 <= i < |s| ==> s[i] < 0x80
    ensures ByteLength(s) == |s|
  {
    if s != [] {
      AsciiLength(s[..|s| - 1]);
    }
  }

  /** parseBootName: counts bytes, ranges over runes and accumulates in 16 bits. */
  method ParseBootName(name: GoString) returns (r: Option<uint16>)
    ensures r == BootNumber(name)
  {
    hide HexDigit, HexValue;
    if ByteLength(name) != 8 || |name| < 4 || name[..4] != BOOT {
      if BootNumber(name).Some? { AsciiLength(name); }
      return None;
    }
    var n: uint16 := 0;
    assert HexValue(name[4..4]) == 0 by { HexEmpty(name[4..4]); }
    for i := 4 to |name|
      invariant forall k :: 4 <= k < i ==> IsHexDigit(name[k])
      invariant n == HexValue(name[4..i])
      invariant i <= 8
    {
      var c := RuneOf(name[i]);
      if !(0x30 <= c <= 0x39 || 0x41 <= c <= 0x46) { return None; }
      HexAppend(name, i);
      var d := if c <= 0x39 then c - 0x30 else c - 0x41 + 10;
      n := Wrap16(n * 0x10) + d;
    }
    assert forall i :: 0 <= i < 4 ==> name[i] == name[..4][i];
    AsciiLength(name);
    var digits := name[4..];
    assert digits == name[4..|name|];
    FourDigits(digits);
    assert digits[0] == name[4] && digits[1] == name[5] && digits[2] == name[6] && digits[3] == name[7];
    return Some(n);
  }

  lemma HexEmpty(s: GoString)
    requires s == []
    ensures HexValue(s) == 0
  {
  }

  lemma HexAppend(name: GoString, i: nat)
    requires 4 <= i < |name| <= 8 && forall k :: 4 <= k <= i ==> IsHexDigit(name[k])
    ensures HexValue(name[4..i + 1]) == 0x10 * HexValue(name[4..i]) + DigitValue(name[i])
    ensures 0x10 * HexValue(name[4..i]) < 0xFFF1
  {
    hide DigitValue;
    assert name[4..i + 1][..i - 4] == name[4..i];
    HexBound(name[4..i]);
  }

  lemma {:induction false} HexBound(s: GoString)
    requires |s| <= 3 && forall i :: 0 <= i < |s| ==> IsHexDigit(s[i])
    ensures HexValue(s) <= [0, 0xF, 0xFF, 0xFFF][|s|]
  {
    if s != [] {
      HexBound(s[..|s| - 1]);
    }
  }

  lemma FourDigits(s: GoString)
    requires |s| == 4 && forall i :: 0 <= i < 4 ==> IsHexDigit(s[i])
    ensures HexValue(s)
            == 0x1000 * DigitValue(s[0]) + 0x100 * DigitValue(s[1]) + 0x10 * DigitValue(s[2]) + DigitValue(s[3])
  {
    hide DigitValue;
    assert s[..3][..2] == s[..2] && s[..2][..1] == s[..1] && s[..1][..0] == [];
    assert HexValue(s[..1]) == DigitValue(s[0]);
    assert HexValue(s[..2]) == 0x10 * HexValue(s[..1]) + DigitValue(s[1]);
    assert HexValue(s[..3]) == 0x10 * HexValue(s[..2]) + DigitValue(s[2]);
  }

  // ---------- Boot order and entries ----------

  const ORDER_KEY := Key(BOOT_ORDER, GLOBAL_GUID)

  function EntryKey(n: uint16): Key {
    Key(BootName(n), GLOBAL_GUID)
  }

  /** The global variable that holds `data` under `name`. */
  function GlobalVariable(name: GoString, data: seq<byte>): Variable {
    Variable(name, GLOBAL_GUID, BOOT_ATTRIBUTES, data)
  }

  function OrderVariable(order: seq<uint16>): Variable {
    GlobalVariable(BOOT_ORDER, BytesOfUnits(order))
  }

  /** The boot order a store holds: empty if there is none. */
  function OrderOf(s: map<Key, Variable>): Result<seq<uint16>> {
    if ORDER_KEY !in s then Ok([])
    else if |s[ORDER_KEY].data| % 2 != 0 then Err(OddLength)
    else Ok(UnitsOfBytes(s[ORDER_KEY].data))
  }

  /** The order is what the BootOrder variable packs, least significant byte first; a store without that
      variable has the empty order, and only an odd number of bytes is refused. */
  lemma OrderOfIsExact(s: map<Key, Variable>, order: seq<uint16>)
    ensures OrderOf(s) == Ok(order) <==>
            if ORDER_KEY in s then s[ORDER_KEY].data == BytesOfUnits(order) else order == []
    ensures OrderOf(s).Err? <==> ORDER_KEY in s && |s[ORDER_KEY].data| % 2 == 1
  {
    UnitsOfBytesOfUnits(order);
    if ORDER_KEY in s && |s[ORDER_KEY].data| % 2 == 0 {
      var data := s[ORDER_KEY].data;
      UnitsOfBytesOfUnits(UnitsOfBytes(data));
      BytesFromUnits(data, BytesOfUnits(UnitsOfBytes(data)));
    }
  }

  /** The boot entry a store holds. */
  function EntryOf(s: map<Key, Variable>, n: uint16): Result<LoadOption> {
    if EntryKey(n) !in s then Err(NotFound) else ParsedOption(s[EntryKey(n)].data)
  }

  /** The least free number from `i` on. */
  function FreeFrom(s: map<Key, Variable>, i: nat): Option<uint16>
    decreases 0x1_0000 - i
  {
    if i >= 0x1_0000 then None else if EntryKey(i) !in s then Some(i) else FreeFrom(s, i + 1)
  }

  lemma {:induction false} FreeFromIsLeast(s: map<Key, Variable>, i: nat)
    ensures var r := FreeFrom(s, i);
            && (r.Some? ==> i <= r.value && EntryKey(r.value) !in s)
            && (forall n: uint16 :: i <= n && (r.Some? ==> n < r.value) ==> EntryKey(n) in s)
    decreases 0x1_0000 - i
  {
    hide EntryKey;
    if i < 0x1_0000 && EntryKey(i) in s {
      FreeFromIsLeast(s, i + 1);
    }
  }

  /** BootOrder. */
  method BootOrder(store: Store) returns (r: Result<seq<uint16>>)
    ensures r == OrderOf(AsMap(store.vars))
  {
    hide AsMap;
    var got := store.Get(BOOT_ORDER, GLOBAL_GUID);
    if got.Err? { return Ok([]); }
    var data := got.value.data;
    if |data| % 2 != 0 { return Err(OddLength); }
    var out: seq<uint16> := [];
    for i := 0 to |data| / 2
      invariant out == UnitsOfBytes(data)[..i]
    {
      out := out + [U16At(data, 2 * i)];
    }
    assert out == UnitsOfBytes(data);
    return Ok(out);
  }

  /** SetBootOrder: fills a zeroed buffer in place. */
  method SetBootOrder(store: Store, order: seq<uint16>, io: Io) returns (r: Result<()>)
    modifies store`vars, store`synced, store.disk
    ensures (store.State(), r) == Step(old(store.State()), Set(OrderVariable(order)), io)
  {
    hide Step;
    var data := new byte[2 * |order|](_ => 0);
    for i := 0 to |order|
      invariant data[..2 * i] == BytesOfUnits(order[..i])
      invariant store.State() == old(store.State())
    {
      assert order[..i + 1][..i] == order[..i];
      CopyInto(data, 2 * i, Le16(order[i]));
      assert data[..2 * (i + 1)] == data[..2 * i] + Le16(order[i]);
    }
    assert order[..|order|] == order && data[..2 * |order|] == data[..];
    r := store.Set(GlobalVariable(BOOT_ORDER, data[..]), io);
  }

  /** BootEntry. */
  method BootEntry(store: Store, n: uint16) returns (r: Result<LoadOption>)
    ensures r == EntryOf(AsMap(store.vars), n)
  {
    hide AsMap, BootName;
    var got := store.Get(BootName(n), GLOBAL_GUID);
    if got.Err? { return Err(got.error); }
    r := ParseLoadOption(got.value.data);
  }

  /** SetBootEntry. */
  method SetBootEntry(store: Store, n: uint16, lo: LoadOption, io: Io) returns (r: Result<()>)
    modifies store`vars, store`synced, store.disk
    ensures match OptionBytes(lo)
            case Err(e) => store.State() == old(store.State()) && r == Err(e)
            case Ok(b) => (store.State(), r) == Step(old(store.State()), Set(GlobalVariable(BootName(n), b)), io)
  {
    hide Step, OptionBytes, BootName;
    var data := Marshal(lo);
    if data.Err? { return Err(data.error); }
    r := store.Set(GlobalVariable(BootName(n), data.value), io);
  }

  /** lowestFreeBootNum: one pass over the list, one over the numbers. */
  method LowestFreeBootNum(store: Store) returns (r: Option<uint16>)
    ensures r == FreeFrom(AsMap(store.vars), 0)
  {
    hide BootName, BootNumber;
    var used: set<uint16> := {};
    for i := 0 to |store.vars|
      invariant forall n: uint16 :: n in used <==> EntryKey(n) in AsMap(store.vars[..i])
    {
      var v := store.vars[i];
      AsMapAppend(store.vars[..i], v);
      assert store.vars[..i + 1] == store.vars[..i] + [v];
      forall n: uint16
        ensures KeyOf(v) == EntryKey(n) <==> v.guid == GLOBAL_GUID && BootNumber(v.name) == Some(n)
      {
        BootNumberIsInverse(v.name, n);
      }
      if v.guid == GLOBAL_GUID {
        var n := ParseBootName(v.name);
        if n.Some? { used := used + {n.value}; }
      }
    }
    assert store.vars[..|store.vars|] == store.vars;
    for i := 0 to 0x1_0000
      invariant FreeFrom(AsMap(store.vars), 0) == FreeFrom(AsMap(store.vars), i)
    {
      if i !in used { return Some(i); }
    }
    return None;
  }

  /** AddBootEntry as two steps of the machine. */
  function Added(m: Machine, lo: LoadOption, entryIo: Io, orderIo: Io): (Machine, Result<uint16>) {
    match FreeFrom(AsMap(m.mem.vars), 0)
    case None => (m, Err(NoFreeSlot))
    case Some(n) =>
      match OptionBytes(lo)
      case Err(e) => (m, Err(e))
      case Ok(b) =>
        var (m1, r1) := Step(m, Set(GlobalVariable(BootName(n), b)), entryIo);
        if r1.Err? then (m1, Err(r1.error))
        else match OrderOf(AsMap(m1.mem.vars))
          case Err(e) => (m1, Err(e))
          case Ok(order) =>
            var (m2, r2) := Step(m1, Set(OrderVariable(order + [n])), orderIo);
            (m2, if r2.Err? then Err(r2.error) else Ok(n))
  }

  /** AddBootEntry. */
  method AddBootEntry(store: Store, lo: LoadOption, entryIo: Io, orderIo: Io) returns (r: Result<uint16>)
    modifies store`vars, store`synced, store.disk
    ensures (store.State(), r) == Added(old(store.State()), lo, entryIo, orderIo)
  {
    hide Step, FreeFrom, OptionBytes, OrderOf, AsMap, BootName, OrderVariable;
    var free := LowestFreeBootNum(store);
    if free.None? { return Err(NoFreeSlot); }
    var n := free.value;
    var written := SetBootEntry(store, n, lo, entryIo);
    if written.Err? { return Err(written.error); }
    var order := BootOrder(store);
    if order.Err? { return Err(order.error); }
    written := SetBootOrder(store, order.value + [n], orderIo);
    if written.Err? { return Err(written.error); }
    return Ok(n);
  }

  /** AddBootEntry keeps the machine sound, with reads failing and writes left undone or cut short. */
  lemma AddBootEntryAgrees(m: Machine, lo: LoadOption, entryIo: Io, orderIo: Io)
    requires Sound(m) && Gentle(m, entryIo) && Gentle(m, orderIo)
    ensures Sound(Added(m, lo, entryIo, orderIo).0)
  {
    hide Step, Sound, AsMap, FreeFrom, OptionBytes, OrderOf, BootName, OrderVariable, Survives;
    var free := FreeFrom(AsMap(m.mem.vars), 0);
    if free.Some? && OptionBytes(lo).Ok? {
      var entry := Set(GlobalVariable(BootName(free.value), OptionBytes(lo).value));
      StepAgrees(m, entry, entryIo);
      StepRefinesMap(m, entry, entryIo);
      var n := Step(m, entry, entryIo).0;
      var order := OrderOf(AsMap(n.mem.vars));
      if order.Ok? {
        StepAgrees(n, Set(OrderVariable(order.value + [free.value])), orderIo);
      }
    }
  }

  lemma EntryIsNotOrder(n: uint16)
    ensures EntryKey(n) != ORDER_KEY
  {
    assert |BootName(n)| != |BOOT_ORDER|;
  }

  lemma OrderOfVariable(s: map<Key, Variable>, order: seq<uint16>)
    ensures OrderOf(s[ORDER_KEY := OrderVariable(order)]) == Ok(order)
  {
    UnitsOfBytesOfUnits(order);
  }

  /** A successful AddBootEntry returns the least free number, appends it to the boot order, binds its
      entry, and changes no other variable. The entry reads back as given exactly within the codec's
      domain. */
  lemma AddBootEntryAdds(m: Machine, lo: LoadOption, entryIo: Io, orderIo: Io)
    requires Added(m, lo, entryIo, orderIo).1.Ok?
    ensures var s := AsMap(m.mem.vars);
            var (n, r) := Added(m, lo, entryIo, orderIo);
            var t := AsMap(n.mem.vars);
            && EntryKey(r.value) !in s
            && (forall k: uint16 :: k < r.value ==> EntryKey(k) in s)
            && OrderOf(s).Ok? && OrderOf(t) == Ok(OrderOf(s).value + [r.value])
            && OptionBytes(lo).Ok?
            && EntryKey(r.value) in t && ORDER_KEY in t
            && t[EntryKey(r.value)] == Variable(BootName(r.value), GLOBAL_GUID, 7, OptionBytes(lo).value)
            && t[ORDER_KEY] == Variable(BOOT_ORDER, GLOBAL_GUID, 7, BytesOfUnits(OrderOf(s).value + [r.value]))
            && (EntryOf(t, r.value) == Ok(lo) <==>
                |OptionBytes(lo).value| <= MAX_OPTION_BYTES && WellFormed(lo.description) && NulFree(lo.description))
            && (forall k :: k != EntryKey(r.value) && k != ORDER_KEY ==>
                  (k in t <==> k in s) && (k in s ==> t[k] == s[k]))
  {
    hide Step, FreeFrom, OptionBytes, AsMap, BootName, ParsedOption, WellFormed, NulFree, BytesOfUnits, UnitsOfBytes;
    var s := AsMap(m.mem.vars);
    FreeFromIsLeast(s, 0);
    var free := FreeFrom(s, 0).value;
    var entry := GlobalVariable(BootName(free), OptionBytes(lo).value);
    var (m1, r1) := Step(m, Set(entry), entryIo);
    StepRefinesMap(m, Set(entry), entryIo);
    EntryIsNotOrder(free);
    var order := OrderOf(AsMap(m1.mem.vars)).value;
    assert OrderOf(s) == Ok(order);
    var update := OrderVariable(order + [free]);
    assert KeyOf(entry) == EntryKey(free) && KeyOf(update) == ORDER_KEY;
    StepRefinesMap(m1, Set(update), orderIo);
    OrderOfVariable(AsMap(m1.mem.vars), order + [free]);
    assert Added(m, lo, entryIo, orderIo) == (Step(m1, Set(update), orderIo).0, Ok(free));
    assert OrderOf(AsMap(Step(m1, Set(update), orderIo).0.mem.vars)) == Ok(order + [free]);
    ParseMarshalledOption(lo);
  }

  /** What AddBootEntry does on an intact file with working I/O, exactly. It is not atomic: when the
      entry fits but the boot order is malformed, or the longer order does not fit, it reports the error
      and the new entry stays. */
  lemma AddBootEntryIsExact(m: Machine, lo: LoadOption, n: uint16)
    requires Attached(m) && m.mem.limits.Admits(|m.file|)
    requires FreeFrom(AsMap(m.mem.vars), 0) == Some(n) && OptionBytes(lo).Ok?
    ensures var l, (t, r) := m.mem.layout, Added(m, lo, Works, Works);
            var one := Target(m.mem.vars, Set(GlobalVariable(BootName(n), OptionBytes(lo).value)));
            if !HasRoom(l, one) then r == Err(NoSpace) && t == m
            else match OrderOf(AsMap(m.mem.vars))
              case Err(_) => r == Err(OddLength) && t.mem.vars == one
              case Ok(order) =>
                var two := Target(one, Set(OrderVariable(order + [n])));
                if HasRoom(l, two) then r == Ok(n) && t.mem.vars == two else r == Err(NoSpace) && t.mem.vars == one
  {
    hide Step, FreeFrom, OptionBytes, AsMap, BootName, HasRoom, Attached, Target, BytesOfUnits, UnitsOfBytes;
    var entry := Set(GlobalVariable(BootName(n), OptionBytes(lo).value));
    var (m1, r1) := Step(m, entry, Works);
    SpaceIsExact(m, entry);
    if r1.Ok? {
      SuccessAgrees(m, entry, Works);
      StepRefinesMap(m, entry, Works);
      EntryIsNotOrder(n);
      assert OrderOf(AsMap(m1.mem.vars)) == OrderOf(AsMap(m.mem.vars));
      var order := OrderOf(AsMap(m1.mem.vars));
      if order.Ok? {
        SpaceIsExact(m1, Set(OrderVariable(order.value + [n])));
      }
    }
  }

  /** The first boot entry: on a store with neither a boot order nor boot entries, AddBootEntry answers 0
      exactly when both new records fit behind what is stored, and then that is the new list. */
  lemma FirstBootEntry(m: Machine, lo: LoadOption)
    requires Attached(m) && m.mem.limits.Admits(|m.file|)
    requires ORDER_KEY !in AsMap(m.mem.vars) && forall n: uint16 :: EntryKey(n) !in AsMap(m.mem.vars)
    ensures var (t, r) := Added(m, lo, Works, Works);
            match OptionBytes(lo)
            case Err(e) => r == Err(e) && t == m
            case Ok(b) =>
              var both := m.mem.vars + [Variable(Text("Boot0000"), GLOBAL_GUID, 7, b),
                                        Variable(Text("BootOrder"), GLOBAL_GUID, 7, [0, 0])];
              (r == Ok(0) <==> HasRoom(m.mem.layout, both)) && (r.Ok? ==> t.mem.vars == both)
              && (r.Err? ==> r == Err(NoSpace))
  {
    hide Step, OptionBytes, AsMap, HasRoom, Attached, BytesOfUnits, UnitsOfBytes, BootName, Without;
    var s, vars, l := AsMap(m.mem.vars), m.mem.vars, m.mem.layout;
    assert FreeFrom(s, 0) == Some(0) by { assert EntryKey(0) !in s; }
    if OptionBytes(lo).Ok? {
      var entry := GlobalVariable(BootName(0), OptionBytes(lo).value);
      var order := OrderVariable([0]);
      FirstNames();
      OrderOfIsExact(s, []);
      EntryIsNotOrder(0);
      AbsentIsUntouched(vars, EntryKey(0));
      AsMapAppend(vars, entry);
      AbsentIsUntouched(vars + [entry], ORDER_KEY);
      AddBootEntryIsExact(m, lo, 0);
      assert [] + [0] == [0];
      assert vars + [entry] + [order] == vars + [entry, order];
      RoomOfPart(l, vars + [entry], order);
    }
  }

  lemma FirstNames()
    ensures BootName(0) == Text("Boot0000") && BOOT_ORDER == Text("BootOrder") && BytesOfUnits([0]) == [0, 0]
  {
  }

  lemma RoomOfPart(l: Layout, vars: seq<Variable>, v: Variable)
    ensures HasRoom(l, vars + [v]) ==> HasRoom(l, vars)
  {
    SizeOfAppend(vars, v, l.auth);
  }

  /** When AddBootEntry is refused before it writes: all 65536 numbers are taken, or the option does not
      marshal. Neither changes anything. */
  lemma AddBootEntryRefuses(m: Machine, lo: LoadOption, entryIo: Io, orderIo: Io)
    ensures var (t, r) := Added(m, lo, entryIo, orderIo);
            var full := forall n: uint16 :: EntryKey(n) in AsMap(m.mem.vars);
            && (r == Err(NoFreeSlot) <==> full)
            && (full || OptionBytes(lo).Err? ==> t == m)
            && (!full && OptionBytes(lo).Err? ==> r == Err(OptionBytes(lo).error))
  {
    hide AsMap, Step, FreeFrom, OptionBytes, BootName, OrderOf, OrderVariable, HasRoom, Target;
    var s := AsMap(m.mem.vars);
    FreeFromIsLeast(s, 0);
    MarshalsExactly(lo);
    if FreeFrom(s, 0).Some? && OptionBytes(lo).Ok? {
      var n := FreeFrom(s, 0).value;
      var entry := Set(GlobalVariable(BootName(n), OptionBytes(lo).value));
      StepIsExact(m, entry, entryIo);
      var m1 := Step(m, entry, entryIo).0;
      OrderErrors(AsMap(m1.mem.vars));
      var order := OrderOf(AsMap(m1.mem.vars));
      if order.Ok? {
        StepIsExact(m1, Set(OrderVariable(order.value + [n])), orderIo);
      }
    }
  }

  lemma OrderErrors(s: map<Key, Variable>)
    ensures OrderOf(s).Err? ==> OrderOf(s) == Err(OddLength)
  {
  }
}
