/** Why deleting needs terminated names: a store another writer filled with records whose names lack
    the NUL can be too full to rewrite, even to delete from. */
module UnterminatedNames {
  import opened Bytes
  import opened Utf16
  import opened VariableRecord
  import opened VariableRegion
  import opened StoreImage
  import opened StoreMachine
  import opened Format

  function GuidOf(i: byte): Guid {
    Repeat(16, i)
  }

  function BareVariable(i: byte): Variable {
    Variable([], GuidOf(i), 0, [])
  }

  /** Records i to n - 1, each a header with no name units and no data: 32 bytes. */
  function Bares(i: nat, n: nat): (b: seq<byte>)
    requires i <= n <= 0x100
    ensures |b| == 32 * (n - i)
    decreases n - i
  {
    if i == n then [] else Header(false, 0, 0, 0, GuidOf(i)) + Bares(i + 1, n)
  }

  function BareVariables(i: nat, n: nat): (vars: seq<Variable>)
    requires i <= n <= 0x100
    decreases n - i
  {
    if i == n then [] else [BareVariable(i)] + BareVariables(i + 1, n)
  }

  /** A store that is exactly full of n such records. */
  function BareStore(n: nat): (b: seq<byte>)
    requires n <= 0x100
    ensures |b| == STORE_HEADER_SIZE + 32 * n
  {
    StoreHeader(EFI_VARIABLE_GUID, STORE_HEADER_SIZE + 32 * n) + Bares(0, n)
  }

  lemma {:induction false} WalkBares(data: seq<byte>, off: nat, i: nat, n: nat)
    requires i <= n <= 0x100 && off % 4 == 0 && |data| == off + 32 * (n - i) && data[off..] == Bares(i, n)
    ensures Walk(data, off, |data|, false) == BareVariables(i, n)
    decreases n - i
  {
    hide Header, RecordAt, Decoded;
    if i == n {
      PastTheEnd(data, off, |data|, false);
    } else {
      assert data[off..off + 32] == data[off..][..32] && data[off + 32..] == data[off..][32..];
      BareRecord(data, off, |data|, i);
      WalkBares(data, off + 32, i + 1, n);
    }
  }

  lemma BareRecord(data: seq<byte>, off: nat, end: nat, i: byte)
    requires off % 4 == 0 && off + 32 <= end <= |data| && data[off..off + 32] == Header(false, 0, 0, 0, GuidOf(i))
    ensures RecordAt(data, off, end, false) == Live(BareVariable(i), off + 32)
  {
    hide RecordAt, Header, U16At, U32At, Decoded;
    ReadHeader(data, off, false, 0, 0, 0, GuidOf(i));
    assert data[off + 32..off + 32] == [];
    DecodedEmpty();
    RecordAtFields(data, off, end, false, 0, 0, []);
  }

  lemma {:induction false} BareSizes(i: nat, n: nat)
    requires i <= n <= 0x100
    ensures TotalSize(BareVariables(i, n), false) == 36 * (n - i)
    ensures forall v :: v in BareVariables(i, n) ==> v.guid[0] >= i
    decreases n - i
  {
    hide RecordSize, TotalSize;
    if i == n {
      EmptyFits(false);
    } else {
      BareSizes(i + 1, n);
      var rest := BareVariables(i + 1, n);
      TotalSizeConcat([BareVariable(i)], rest, false);
      SerializedOne(BareVariable(i), false);
      BareSize(i);
    }
  }

  lemma BareSize(i: byte)
    ensures RecordSize(BareVariable(i), false) == 36
  {
    assert Runes([]) == [];
    assert EncodeRunes(Runes([])) + [0] == [0];
  }

  /** The file opens with n variables, and the first of them can be deleted exactly when n <= 9: nine
      terminators cost more than one record frees. */
  lemma DeleteFromFullStore(n: nat, limits: Limits)
    requires 0 < n <= 0x100 && limits.Admits(STORE_HEADER_SIZE + 32 * n) && n <= limits.maxVariables
    ensures var data, k := BareStore(n), Key([], GuidOf(0));
            && Opens(data, limits)
            && Loaded(data, limits) == Ok(Opened(limits, Layout(false, false, 0, |data|), BareVariables(0, n)))
            && k in AsMap(BareVariables(0, n))
            && (Step(Start(data, limits), Delete(k), Works).1.Ok? <==> n <= 9)
            && (n > 9 ==> Step(Start(data, limits), Delete(k), Works).1 == Err(NoSpace))
  {
    hide Open, Loaded, OpenPanics, Step, TotalSize, AsMap, Without, BareVariables, BareStore;
    var data, k := BareStore(n), Key([], GuidOf(0));
    BareStoreOpens(n, limits);
    SmallFilesOpen(data, limits);
    StartAgrees(data, limits);
    BareRemainder(n);
    BareSizes(1, n);
    SpaceIsExact(Start(data, limits), Delete(k));
  }

  lemma BareRemainder(n: nat)
    requires 0 < n <= 0x100
    ensures var vars, k := BareVariables(0, n), Key([], GuidOf(0));
            k in AsMap(vars) && Without(vars, k) == BareVariables(1, n)
  {
    hide TotalSize, AsMap, Without;
    var vars, rest, k := BareVariables(0, n), BareVariables(1, n), Key([], GuidOf(0));
    assert vars == [BareVariable(0)] + rest && BareVariable(0) in vars;
    AsMapKeys(vars);
    BareSizes(1, n);
    AsMapKeys(rest);
    AbsentIsUntouched(rest, k);
    WithoutConcat([BareVariable(0)], rest, k);
    WithoutOne(BareVariable(0));
  }

  lemma BareStoreOpens(n: nat, limits: Limits)
    requires n <= 0x100 && limits.Admits(STORE_HEADER_SIZE + 32 * n) && n <= limits.maxVariables
    ensures var data := BareStore(n);
            Open(data, limits) == Ok(Opened(limits, Layout(false, false, 0, |data|), BareVariables(0, n)))
  {
    hide U32At, Walk, StoreHeader, Bares;
    var data := BareStore(n);
    assert data[0..STORE_HEADER_SIZE] == StoreHeader(EFI_VARIABLE_GUID, |data|);
    ReadStoreHeader(data, 0, EFI_VARIABLE_GUID, |data|);
    assert data[28..] == Bares(0, n);
    WalkBares(data, 28, 0, n);
    BareCount(0, n);
    assert !FvWrapped(data) by {
      if |data| >= FV_HEADER_SIZE {
        assert data[16..32][4] == data[20] != EFI_SYSTEM_NV_DATA_FV_GUID[4];
      }
    }
    assert EFI_VARIABLE_GUID[0] != EFI_AUTHENTICATED_VARIABLE_GUID[0];
  }

  lemma {:induction false} BareCount(i: nat, n: nat)
    requires i <= n <= 0x100
    ensures |BareVariables(i, n)| == n - i
    decreases n - i
  {
    if i < n {
      BareCount(i + 1, n);
    }
  }
}
