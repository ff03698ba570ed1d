# UEFI variable stores in Dafny

A Dafny 4.11 model of a Go package that reads and writes EDK2 NvVar variable stores (`OVMF_VARS.fd`,
`QEMU_VARS.fd`), with proofs about it. `dafny verify dfyconfig.toml` checks the project.

A store file is an optional 72-byte firmware volume header, a 28-byte store header, a run of variable
records (32-byte or, in authenticated stores, 60-byte headers) and erased flash. The package keeps the
live variables in memory and rewrites the variable region of the file on every Set and Delete. On top
of that it has codecs for UTF-16LE names, device paths and load options, a boot manager, a formatter
and the framing of authenticated writes.

| file | what it holds |
|---|---|
| `Bytes.dfy` | bytes, little-endian fields, in-place writers, the result type |
| `Utf16.dfy` | Go strings and UTF-16LE (section 2 of RFC 2781) |
| `VariableRecord.dfy` | one record: its bytes, its parser, its encoder |
| `VariableRegion.dfy` | the walk over records, the serializer, where every byte of the region goes |
| `StoreImage.dfy` | layout detection, opening, rewriting the region |
| `StoreMachine.dfy` | Set and Delete as a state machine, and what every run keeps |
| `VariableStore.dfy` | the store object and Rename, proved against the machine |
| `UnterminatedNames.dfy`, `LargeFiles.dfy` | stores that are too full to delete from, and files of about 4 GiB that panic or lose variables |
| `DevicePath.dfy`, `LoadOption.dfy` | the two boot codecs |
| `BootManager.dfy`, `BootListing.dfy` | BootOrder and Boot####, adding and listing entries |
| `Format.dfy` | fresh raw and OVMF stores |
| `Authentication.dfy` | EFI_TIME and EFI_VARIABLE_AUTHENTICATION_2 |

How the model reads the code:

- A Go string is a sequence of what ranging over it yields: a scalar value, or an undecodable byte.
  Encoding turns such a byte into U+FFFD, so exact round trips hold for well-formed strings, and the
  theorems say what happens to the others (`Scrub`).
- Go's `uint16` and `uint32` conversions are written out (`Wrap16`, `Wrap32`); the size limit and
  file lengths are `int64`; other `int` values are unbounded.
- The file is an object that the store reads and overwrites. Whether a read or a write fails, and what
  a failed write leaves behind, is an `Io` parameter. `flush` updates memory before it writes, so a
  failed write leaves memory ahead of the file; `synced` in the machine tracks that. Single steps are
  specified for anything a failed write may leave. Theorems over runs ask that it leave the store
  recognisable or the file too short to rewrite (`Gentle`); the old file and every prefix of the new
  one qualify (`PrefixSurvives`).
- What the code's open does, with its 32-bit offsets, is `Loaded` and `OpenPanics`; the state machine
  starts from it and is compared with it. `Open` is the design, an open with unbounded offsets. The two
  agree unless the store ends at 4 GiB or beyond (`LoadedIsOpen`), and below 2^32 - 52 bytes, so under
  the default limits, nothing panics (`SmallFilesOpen`).
- `safeio` is not part of this model: `CheckBounds(off, n, len)` is `0 <= off`, `0 <= n`,
  `off + n <= len`; `MakeBytes(n, max)` succeeds when `n <= max`; a `LoopGuard(k)` allows k steps.
- The signer of an authenticated write is a function parameter.

Where the code and its documentation disagree the model follows the code:

- `doc.go:45-48` says data follows the name with 4-byte alignment; the code pads only at the end of a
  record.
- `uefi.go:329` and the project README call rewriting atomic; the code truncates and writes in place,
  and memory is changed first.
- `bootvars.go:116-118` and `devicepath.go:131-134` promise byte-exact inverses for well-formed input;
  `MarshalParsedOption` and `MarshalParsedPath` give the exact conditions.
- `filesystem.go:116-117` says the Delete inside Rename cannot fail; it cannot fail for lack of room
  (`RenameMovesVariable`), but it can fail for I/O, and Rename then still reports success
  (`RenameHidesFailedDelete`). Renaming a variable to itself deletes it.
- `uefi.go:418-419` and `uefi.go:533-542` say the walk cannot wrap or index out of bounds. With a size
  limit raised to about 4 GiB it does both: an FV-wrapped store that ends at 4 GiB or beyond opens as
  empty (`HugeStoreReadsEmpty`) and loses what it held at the first Set (`FirstSetErasesHugeStore`), and a
  record start in a range just below 4 GiB (`HeaderPanics`) makes opening
  panic (`CrashingFilePanics`).
- `uefi.go:204-221` reads under any limit, but the largest int64 makes `max+1` wrap and every file read
  as empty (`ReadLimited`).
- `uefi.go:302-309` (Get) takes the first of duplicate keys and `bootvars.go:398` keeps the last
  (`DuplicatesDisagree`).

## Model

| member | source | states |
|---|---|---|
| `Utf16.DecodeUtf16Le` | uefi.go:661-673 | computes `Decoded`: odd lengths refused, one trailing NUL dropped, unpaired surrogates replaced |
| `Utf16.EncodeUtf16Le` | uefi.go:676-684 | computes `Encoded`: UTF-16LE units and a NUL |
| `Utf16.DecodeEncoded` | uefi.go:661-684 | decoding an encoded string gives it back, embedded and trailing NULs included, exactly when it is well-formed; otherwise only undecodable bytes change |
| `Utf16.EncodeDecoded` | uefi.go:661-684 | re-encoding a buffer keeps its length if it is NUL-terminated and adds 2 bytes otherwise; it reproduces the bytes exactly when the buffer is terminated and every surrogate is paired |
| `Utf16.EncodeRunesOfUnits` | uefi.go:661-684 | decoding and encoding units keeps their number, and the units exactly when every surrogate has its adjacent partner |
| `Utf16.SurrogateExamples` | uefi.go:661-684 | U+12345 is the pair D808 DF45 of RFC 2781; a lone surrogate reads as U+FFFD |
| `VariableRecord.PadOfTruncated` | uefi.go:637-658 | padding computed from truncated 32-bit sizes in wrapping arithmetic still rounds the true size up to 4 |
| `VariableRecord.EncodeVariable` | uefi.go:609-647 | writes exactly the specified record, for both header layouts |
| `VariableRecord.EncodeHeader` | uefi.go:614-635 | the in-place header writes produce the specified header |
| `VariableRecord.HeaderFields` | uefi.go:614-635 | the fields of both headers by offset: AA 55, state 3F, attributes at 4, sizes and GUID at 8, 12, 16 or at 36, 40, 44, zeros between |
| `VariableRecord.RecordFields` | uefi.go:597-647 | name and data follow the header without a gap; the padding behind them is zero |
| `VariableRecord.RecordAt` | uefi.go:489-580 | an accepted record advances by at least its header size, to an aligned offset inside the region, and has a well-formed name |
| `VariableRecord.RecordAtIsExact` | uefi.go:489-580 | for any bytes: when there is a record, where the next one is, that it is live exactly with state 3F and a name of whole units, and then which bytes are name, GUID, attributes and data |
| `VariableRecord.StateDecides` | uefi.go:564-566 | any other state byte in a live record makes it dead, with the same next record |
| `VariableRecord.ReadSizes` | uefi.go:506-526 | reads the layout-dependent fields, or panics exactly at the offsets near 4 GiB where a slice has no valid bounds |
| `VariableRecord.ParseOneVariable` | uefi.go:489-580 | at every offset and region end the mixed 32-bit and 64-bit code panics exactly as `ParsePanics` says and otherwise computes `RecordAt`, which has no wrapping and a single bounds test |
| `VariableRecord.PanicsOnlyAtStop` | uefi.go:500-526 | the code panics only where the walk would stop, and only if the region ends within 52 bytes of 4 GiB |
| `VariableRecord.RecordAtRecord` | uefi.go:489-647 | parsing an encoded record in place gives the variable back and the offset of the next record |
| `VariableRecord.CutRecordStops` | uefi.go:548-559 | a record that runs past the region end is not read |
| `VariableRecord.RecordSizeOfLive` | uefi.go:528-546 | re-encoding a live record takes the room it had, plus what a missing name terminator costs |
| `VariableRegion.SerializeVars` | uefi.go:583-589 | computes the concatenation of the records |
| `VariableRegion.SerializedLength` | uefi.go:583-658 | the serialized length is the sum of the aligned record sizes |
| `VariableRegion.ParseVariables` | uefi.go:417-466 | for any file: neither the loop guard nor the progress check can fire; the result is the plain walk to the truncated region end, refused only by the variable limit; it panics exactly when the walk gets to a stop that panics |
| `VariableRegion.RegionEndIsExact` | uefi.go:418-424 | the truncation of the region end is harmless exactly below 4 GiB; past it the walk of a wrapped store is empty |
| `VariableRegion.ErasedStops` | uefi.go:386-409 | erased flash never looks like the start of a record |
| `VariableRegion.WalkSerialized` | uefi.go:417-647 | for either layout at any aligned offset, parsing serialized variables followed by erased flash returns exactly them, in order, and stops where they end |
| `VariableRegion.WalkPrefix` | uefi.go:417-466 | the walk over serialized variables yields them and goes on behind them, whatever follows |
| `VariableRegion.WalkSkipsDeleted` | uefi.go:564-566 | with the state byte of any one serialized variable changed, the walk yields all the others, in order |
| `VariableRegion.WalkCut` | uefi.go:548-559 | variables in front of a record cut off by the region end are read, the cut one is not |
| `VariableRegion.WalkIsWellFormed` | uefi.go:564-579 | every name read from any bytes is well-formed |
| `VariableRegion.SpaceIsConserved` | uefi.go:417-466 | for any bytes: compacted size plus dead space equals what the walk consumed plus the terminators added |
| `VariableRegion.CompactionNeverGrows` | uefi.go:417-466 | if every live name on disk is terminated, compaction frees exactly the dead space and never exceeds the region |
| `StoreImage.DetectFvWrap` | uefi.go:277-287 | decides whether the file starts with the NvVar firmware volume header |
| `StoreImage.LayoutOf` | uefi.go:232-264 | a recognised layout lies inside the file, at offset 0 or 72, with a size below 2^32 |
| `StoreImage.LayoutOfIsExact` | uefi.go:232-287 | exactly which bytes are recognised and as what layout: signature, 5A, FE, `_FVH`, and the size clamped only if it runs past the file |
| `StoreImage.DamageIsRefused` | uefi.go:239-252 | changing format byte, state byte or signature of a recognised file to anything unknown is refused with that error |
| `StoreImage.BuildStore` | uefi.go:386-409 | the in-place erase and copy compute the specified rewrite, or the specified refusal |
| `StoreImage.RebuiltFrame` | uefi.go:386-409 | a rewrite keeps the length and every byte outside the variable region, stores the payload and erases the rest |
| `StoreImage.RoomIsExact` | uefi.go:394-398 | a rewrite fits exactly when 28 plus the aligned record sizes is at most the store size |
| `StoreImage.FittingSizesAreExact` | uefi.go:609-612 | in a list that fits, no name or data size is truncated to 32 bits |
| `StoreImage.LayoutIsStable` | uefi.go:232-287 | no rewrite changes how the file is recognised; a raw store never becomes FV-wrapped |
| `StoreImage.OpenRebuilt` | uefi.go:225-272 | after the region of any recognised file is replaced, `Open`, the design, reads exactly the new variables in the same layout |
| `StoreImage.LoadRebuilt` | uefi.go:225-272 | at every file size a rewritten file never makes the code's open panic, and `Loaded` gives the new variables, or nothing if the store ends at 4 GiB or beyond |
| `StoreImage.LoadedIsOpen` | uefi.go:256-272 | the code opens what the design says, except a store that ends at 4 GiB or beyond, which it opens as empty |
| `StoreImage.DeletedIsNotOpened` | uefi.go:564-566 | change the state byte of one stored variable and both opens give exactly the others, without panic |
| `StoreImage.LimitsAreEnforced` | uefi.go:204-272 | a file over the size limit and a walk over the variable limit are refused |
| `StoreImage.Limits.Resolve` | uefi.go:191-199 | a limit of the caller is kept; zero means 256 MiB and 65536 variables |
| `StoreImage.SmallFilesOpen` | uefi.go:169-177 | below 2^32 - 52 bytes opening never panics and is the design's open |
| `StoreImage.PrefixSurvives` | uefi.go:378-379 | every prefix of a rewrite is either still this store or too short to rewrite |
| `StoreImage.CompactionPreservesMeaning` | uefi.go:225-272 | for any file that opens by design, rewriting what was read gives the same store again, for `Open` and, below 4 GiB, for `Loaded`; it fails for room exactly when the missing name terminators exceed the dead space and the unused tail, or the size is below the header |
| `StoreImage.TerminatedHasRoom` | uefi.go:417-466 | terminated names never lack that room |
| `StoreMachine.AsMapWithout` | uefi.go:343-357 | dropping a key from the list is removal of that key only, duplicates included |
| `StoreMachine.AsMapReplace` | uefi.go:330-340 | Set's new list is a map update |
| `StoreMachine.StepRefinesMap` | uefi.go:330-380 | a step that takes effect updates or removes its key in the map; an error before the write changes neither memory nor file |
| `StoreMachine.StepIsExact` | uefi.go:330-409 | every outcome of a step with its exact condition, in the order of the refusals, and the whole state it leaves |
| `StoreMachine.DeleteOfAbsent` | uefi.go:343-357 | Delete is refused as not found exactly when the key is absent, and then touches nothing; a second Delete of a key is |
| `StoreMachine.StepKeepsOrder` | uefi.go:330-357 | Set puts its variable last and neither operation moves another |
| `StoreMachine.SuccessAgrees` | uefi.go:365-380 | any successful step on an intact file leaves a file that neither panics nor disagrees: `Loaded` gives the memory up to the 4 GiB bound, `Open` gives it without |
| `StoreMachine.ReadsBackExactly` | uefi.go:365-380 | for well-formed names within the limit, `Loaded` after a successful step is the memory exactly when the store ends below 4 GiB or is empty |
| `StoreMachine.StepAgrees` | uefi.go:330-380 | a step keeps the machine sound: after a successful write `Loaded` agrees with the memory, after a failed one the file is this store or cut short |
| `StoreMachine.RunAgrees` | uefi.go:225-380 | over every run of Set and Delete, with reads failing and writes left undone or cut short anywhere, the code's open (`Loaded`, no panic) yields the memory up to the 4 GiB bound whenever the last write succeeded |
| `StoreMachine.TruncationIsFinal` | uefi.go:391-394 | once a failed write has cut the file short, every later step is refused and changes nothing |
| `StoreMachine.RunReopens` | uefi.go:225-380 | over every run from any file the code opens, with well-formed names and no failed write, the code opens the file again without panic to exactly the memory; a store ending at 4 GiB or beyond comes back empty, and only passing the variable limit is refused |
| `StoreMachine.RunRefinesMap` | uefi.go:302-357 | over every run, lookups are those of a map to which the effective steps were applied |
| `StoreMachine.RunKeepsOutside` | uefi.go:366-409 | over every run without failed writes, file length and every byte outside the variable region stay |
| `StoreMachine.SpaceIsExact` | uefi.go:330-398 | Set and Delete fail for room exactly when 28 plus the aligned sizes of the resulting live variables exceeds the store size |
| `StoreMachine.TerminatedStoreFits` | uefi.go:417-466 | a store with terminated names opens with room for its own contents |
| `StoreMachine.StepFits` | uefi.go:330-380 | after a step that takes effect the contents fit, and no step loses that |
| `StoreMachine.DeleteNeverLacksSpace` | uefi.go:343-357 | once the contents fit, deleting a present key from an intact file succeeds after any further run |
| `StoreMachine.StepKeepsUnique` | uefi.go:330-357 | a step never makes a key occur twice, and an effective Set ends duplicates of its own key |
| `StoreMachine.RunKeepsUnique` | uefi.go:330-357 | a key that occurs at most once does so after every run |
| `StoreMachine.FailedWriteDiverges` | uefi.go:378-379 | after a write left undone (in a store ending below 4 GiB) or cut short, memory holds the variable and the code's open of the file does not give it |
| `VariableStore.ReadStoreFile` | uefi.go:204-221 | whether or not Stat works, the capped 64-bit read gives the whole file, refuses one over the limit, and reads nothing under the largest int64 |
| `VariableStore.Store.OpenLimits` | uefi.go:225-272 | for any file and limits: panics exactly as `OpenPanics` says, otherwise opens what `Loaded` specifies or fails with its error |
| `VariableStore.Store.Get` | uefi.go:302-309 | returns the map's entry, the first of duplicates, or not found |
| `VariableStore.Store.Set` | uefi.go:330-340 | new memory, file and result are those of the machine's Set step |
| `VariableStore.Store.Delete` | uefi.go:343-357 | new memory, file and result are those of the machine's Delete step |
| `VariableStore.Store.Flush` | uefi.go:365-380 | memory is assigned before the write; every earlier error leaves memory and file alone |
| `VariableStore.Store.Rename` | filesystem.go:107-120 | Get, Set and Delete in sequence, the Delete's result ignored |
| `VariableStore.RenameAgrees` | filesystem.go:107-120 | with any failed reads and writes left undone or cut short, Rename keeps the machine sound |
| `VariableStore.RenameOfAbsent` | filesystem.go:107-120 | Rename is refused as not found exactly when the source is absent; no error but a failed write changes anything |
| `VariableStore.RenameMovesVariable` | filesystem.go:107-120 | on an intact store Rename fails only as its Set does, its Delete always has room, and the variable is moved exactly when the names differ |
| `VariableStore.RenameHidesFailedDelete` | filesystem.go:116-119 | after a successful Set the Delete succeeds exactly when its I/O works; Rename succeeds regardless, leaving both names bound after a failed read and the variable moved in memory only after a failed write |
| `VariableStore.SetLeavesRoom` | uefi.go:330-357 | after a successful Set every present key can be deleted |
| `UnterminatedNames.DeleteFromFullStore` | uefi.go:343-398 | a store exactly full of n records without name terminators opens, and its first variable can be deleted exactly when n is at most 9 |
| `LargeFiles.CrashingFilePanics` | uefi.go:510-517 | a file of 2^32 - 40 bytes on which opening panics once the limit admits it |
| `LargeFiles.HugeStoreReadsEmpty` | uefi.go:421-424 | files of 2^32 + 71 bytes that hold a variable by design and that the code opens as empty |
| `LargeFiles.FirstSetErasesHugeStore` | uefi.go:330-340 | on any such store the first Set replaces everything it held, and is not read back either |
| `DevicePath.NodeAt` | devicepath.go:107-122 | an accepted node lies inside the buffer |
| `DevicePath.ParseDevicePath` | devicepath.go:93-129 | computes the guard-free parse; the loop guard never fires |
| `DevicePath.ParsedPathIsExact` | devicepath.go:93-129 | a buffer parses to nodes exactly when it is at most 64 KiB and spells them up to an End node of any length inside it |
| `DevicePath.MarshalDevicePath` | devicepath.go:135-156 | computes the node bytes and the End node, or the first illegal node's error |
| `DevicePath.MarshalsLegalPaths` | devicepath.go:137-144 | marshalling succeeds exactly on non-End nodes of at most 0xFFFF bytes |
| `DevicePath.FirstIllegalDecides` | devicepath.go:137-144 | the first illegal node decides which error is returned |
| `DevicePath.NodeLayout` | devicepath.go:145-150 | type, subtype, length including the header, data |
| `DevicePath.ParseMarshalledPath` | devicepath.go:93-156 | parsing a marshalled path gives the nodes back, refused exactly past 64 KiB |
| `DevicePath.MarshalParsedPath` | devicepath.go:131-156 | re-marshalling keeps the bytes up to the End node and writes a plain End node; it is the identity exactly when a 4-byte End node closes the buffer |
| `LoadOption.ParseLoadOption` | bootvars.go:53-114 | computes the specified parse; the terminator scan's guard never fires |
| `LoadOption.ParsedOptionIsExact` | bootvars.go:53-114 | a blob parses to an option exactly when it has 6 bytes to 64 KiB, its first NUL unit ends the description and the path it announces lies inside and parses |
| `LoadOption.Marshal` | bootvars.go:119-145 | computes the specified bytes, an empty node list as no path |
| `LoadOption.OptionFields` | bootvars.go:137-144 | attributes at 0, path length at 4, description at 6, then path and optional data |
| `LoadOption.MarshalsExactly` | bootvars.go:119-135 | an option marshals exactly when its nodes are legal and take at most 0xFFFF bytes |
| `LoadOption.ScanFindsTerminator` | bootvars.go:64-87 | in a NUL-free description the scan stops at the encoder's own terminator |
| `LoadOption.DescriptionRoundTrip` | bootvars.go:64-87 | a parsed description is well-formed and NUL-free and re-encodes to the same room |
| `LoadOption.ParseMarshalledOption` | bootvars.go:53-145 | parsing a marshalled option gives it back exactly when it is at most 64 KiB and its description is well-formed and NUL-free |
| `LoadOption.MarshalParsedOption` | bootvars.go:53-145 | every accepted blob marshals, to no more bytes, and parses to the same option; the bytes are the same exactly when surrogates are paired and the path is exact |
| `BootManager.ParseBootName` | bootvars.go:286-304 | byte length, rune loop and 16-bit accumulation compute `BootNumber` |
| `BootManager.BootNumberIsInverse` | bootvars.go:206-208 | a name parses to n exactly when it is the name formatted from n |
| `BootManager.BootNameSpelled` | bootvars.go:206-208 | `Boot` and four upper-case hexadecimal digits, most significant first |
| `BootManager.BootOrder` | bootvars.go:181-194 | the packed order, empty if absent, refused if odd |
| `BootManager.SetBootOrder` | bootvars.go:197-203 | one Set step with the packed order |
| `BootManager.OrderOfVariable` | bootvars.go:181-203 | a written order reads back |
| `BootManager.OrderOfIsExact` | bootvars.go:181-194 | the order is o exactly when the BootOrder variable packs o, or is absent and o is empty; only odd lengths are refused |
| `BootManager.BootEntry` | bootvars.go:211-221 | the parsed entry of the map |
| `BootManager.SetBootEntry` | bootvars.go:224-230 | one Set step with the marshalled option, or its error |
| `BootManager.LowestFreeBootNum` | bootvars.go:265-281 | the two loops compute the first free number of the map |
| `BootManager.FreeFromIsLeast` | bootvars.go:262-281 | that number is free and every smaller one is taken |
| `BootManager.AddBootEntry` | bootvars.go:243-260 | two Set steps, with every early return |
| `BootManager.AddBootEntryAgrees` | bootvars.go:243-260 | with any failed reads and writes left undone or cut short, AddBootEntry keeps the machine sound |
| `BootManager.AddBootEntryAdds` | bootvars.go:241-260 | on success: the least free number, appended to the old order, both variables stored with attributes 7, everything else unchanged; the entry reads back exactly within the codec's domain |
| `BootManager.AddBootEntryIsExact` | bootvars.go:243-260 | on an intact file with working I/O: no change and no room exactly when the entry does not fit; otherwise the entry is stored, and the call succeeds exactly when the order is well-formed and the longer order fits too |
| `BootManager.FirstBootEntry` | bootvars.go:243-260 | without boot variables it answers 0 exactly when Boot0000 and BootOrder both fit, and stores exactly these |
| `BootManager.AddBootEntryRefuses` | bootvars.go:243-260 | no free slot exactly when all 65536 names are taken; that and a marshalling error change nothing |
| `BootListing.ListBootEntries` | bootvars.go:384-428 | returns the last parseable entry of each number and the listing order |
| `BootListing.Order` | bootvars.go:405-427 | the two ordering loops compute the listing |
| `BootListing.ReferencedKeepsFirsts` | bootvars.go:407-414 | the first part is the boot order's present entries, once each, by first occurrence |
| `BootListing.ListingIsPermutation` | bootvars.go:379-428 | the listing holds every entry exactly once: those of the boot order first, then the rest strictly ascending |
| `BootListing.EntriesAgree` | bootvars.go:384-399 | where at most one variable has the key of n the listing agrees with BootEntry on n, whatever other duplicates there are |
| `BootListing.RunListingAgrees` | bootvars.go:384-399 | from any file the code opens with at most one variable for n, the two agree on n after every run |
| `BootListing.DuplicatesDisagree` | bootvars.go:398 | a file the code opens to two variables of one key: a lookup takes the first, the listing the last |
| `BootListing.ReferencedAppend` | bootvars.go:405-414 | appending a new entry's number to the order lists it last of those named, unless the order already named it in vain |
| `BootListing.AddBootEntryLists` | bootvars.go:241-260 | a successful AddBootEntry within the codec's domain adds exactly its entry to the listing, at that place |
| `Format.MakeEmptyStore` | format.go:122-143 | the in-place fill produces the specified raw store |
| `Format.MakeEmptyOvmfStore` | format.go:171-245 | the in-place fill and checksum loop produce the specified OVMF store |
| `Format.OvmfStoreFields` | format.go:145-245 | every byte of a fresh OVMF file for both flavours and every size, by offset |
| `Format.EmptyStoreFields` | format.go:122-143 | every byte of a fresh raw file |
| `Format.GeometryOf` | format.go:174-201 | the block map covers the file exactly and the store lies inside the volume inside the file |
| `Format.GeometryIsExact` | format.go:174-201 | AArch64: 768 KiB volume, 256 KiB - 72 store, 256 KiB blocks; x86_64: the file, the file - 72, 4 KiB blocks; one block where the unit does not divide the size |
| `Format.HeaderSumsToZero` | format.go:230-236 | the 36 words of the volume header sum to 0 modulo 2^16 |
| `Format.EmptyStoreOpens` | format.go:122-143 | `Open` of a raw store gives the raw layout, unauthenticated, at offset 0, with its full size and no variables |
| `Format.OvmfStoreOpens` | format.go:171-245 | `Open` of an OVMF store gives the wrapped layout, authenticated, at offset 72, with size 0x3FFB8 (AArch64) or the file's less 72, and no variables |
| `Format.FormatRaw` | format.go:30-48 | out-of-range sizes are refused with the file untouched; otherwise the store the code opens has that layout and is empty |
| `Format.FormatOvmf` | format.go:96-117 | likewise per flavour |
| `Authentication.MarshalTime` | authwrite.go:102-114 | the in-place writes produce the specified 16 bytes |
| `Authentication.TimeFields` | authwrite.go:90-114 | the fields of a timestamp by offset |
| `Authentication.TimeRoundTrip` | authwrite.go:102-132 | every timestamp reads back, negative time zones included |
| `Authentication.TimeBytesOfParsed` | authwrite.go:102-132 | sixteen bytes are reproduced exactly when both pad bytes are zero |
| `Authentication.BuildAuthentication2` | authwrite.go:178-205 | refusals in order, then the descriptor around the signature of the specified bytes |
| `Authentication.SignedFields` | authwrite.go:147-166 | what is signed, by offset: name without NUL, GUID, attributes, timestamp, data |
| `Authentication.SignatureBinds` | authwrite.go:147-166 | for names of equal encoded length equal signed bytes mean equal name, GUID, attributes, timestamp and data |
| `Authentication.DescriptorFields` | authwrite.go:192-205 | the fields of a descriptor by offset: timestamp, length, 0x0200, 0x0EF1, PKCS#7 GUID, signature |
| `Authentication.ParseDescriptor` | authwrite.go:192-248 | timestamp, type and signature are recovered from a stored payload exactly when the certificate length is below 2^32, and the data is what follows |
| `Authentication.ParsedAuthenticationIsExact` | authwrite.go:221-248 | exactly which descriptors are accepted and what is read from them |
| `Authentication.DescriptorOfParsed` | authwrite.go:192-248 | framing again what was parsed reproduces the payload exactly when the type is PKCS#7 and the pad bytes are zero |
| `Authentication.WriteAuthenticatedVariable` | authwrite.go:264-287 | one Set step with descriptor and data, or the signer's error with nothing changed |
| `Authentication.WriteAttributes` | authwrite.go:264-268 | bit 5 is set and every other bit kept; zero means 0x27 |
| `Authentication.AuthenticatedWriteReadsBack` | authwrite.go:264-287 | a write that reaches a store always reads back, because what fits has a length below 2^32; with well-formed names within the limit the code's open of the file yields it too exactly when the store ends below 4 GiB |

## Left out

- VariableRecord.ParseOneVariable: error causes are merged into one stop outcome, as its only caller merges them.
- File access itself, permissions, and other processes changing the file between the steps of a run (single steps are specified for any file content).
- Monotonic count, timestamp and key index of authenticated headers as values: the parser drops them and the writer zeroes them (`HeaderFields`).
- PKCS#7, RSA and SHA-256: the signer is a parameter.
- Error texts and wrapping: errors are an enumeration.
- Text rendering of device paths, typed hard-drive and file-path nodes: formatting and fixed layouts.
- Secure Boot enrolment: a fixed layout and three Sets; easy once Set is specified.
- BootNext, BootCurrent, Timeout, DeleteBootEntry, List, and the read, write, stat and list adapters of the file system interface: thin wrappers over Get, Set and Delete.
- Aliasing of the data slices that Get and List hand out.
