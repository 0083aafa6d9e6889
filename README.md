# Aztec hint databases, complete addresses, kernel data and trace rows — a Dafny model

This project models four pieces of the Aztec stack and proves properties about them.

- **The AVM hint-replay databases** (`RawDataDbs`). `HintedRawContractDB` and
  `HintedRawMerkleDB` answer the simulator's world-state queries from hints recorded on the
  TypeScript side.
  - Each class is a Dafny `class`. The hint tables are `const` maps, filled by loops in the
    constructors. Later hints overwrite earlier ones (`Tables.FillTable`, specified by
    `Tables.BuildTable`).
  - The Merkle database's mutable state is its fields:
    - `treeRoots`: the four tree snapshots;
    - `checkpointStack`: a sequence whose top is its last element;
    - `checkpointActionCounter`.
  - Every tree query is keyed by the current snapshot of its tree.
  - Indexed inserts, appends and padding overwrite one tree's snapshot.
  - Checkpoint create, commit and revert push and pop the stack after sanity checks against
    the hint. An exception the code throws is an `Err`/`Fail` value carrying a `DbError`; for the one failure that is an assertion and an `at()` throw rather than a `std::runtime_error`, see `GetBytecodeCommitment` under "Left out".
  - `append_leaves` is a loop over `AppendLeafInternal`. It is proved against
    `AppendLeavesOutcome`, a function defined leaf by leaf.
- **`CompleteAddress`** (`CompleteAddresses`).
  - An address record with one gate: `create`/`validate` accept it only when
    `address == computeAddress(publicKeys, partialAddress)`.
  - It has a fixed 320-byte layout of ten field elements and a hex string form.
  - The cryptographic functions (`deriveKeys`, `computeAddress`, `computePartialAddress`,
    `PublicKeys.hash`, `computePreaddress`) are the function values of a `Crypto` parameter,
    so they are deterministic but otherwise unknown.
- **`PrivateKernelData`** (`PrivateKernel`).
  - The record one private kernel passes to the next: public inputs, verification key, the
    key's index, and its sibling path of `VK_TREE_HEIGHT` field elements.
  - The public inputs and the verification key are opaque payloads with their own codecs.
- **Trace conversion** (`TraceConversion`).
  - `is_shift`, `shift_column` and `unshift_column` are lookups over the two generated
    parallel arrays `TO_BE_SHIFTED_COLUMNS_ARRAY` and `SHIFTED_COLUMNS_ARRAY`. The arrays are
    parameters here.
  - `get_full_row` fills a row array in two loops.

Two supporting modules stand in for library code that is not part of this model:

- `Serialize` covers `serializeToBuffer` and `BufferReader`:
  - field elements are 32-byte encodings, given by a `FieldCodec` parameter;
  - opaque payloads use a `Codec` parameter;
  - numbers are 4-byte big-endian.
- `Hex` covers Node's hex conversion.

The soundness of each codec is a predicate, `FieldCodecSound` or `CodecSound`. The round-trip
lemmas take it as a hypothesis.

`vkIndex` is declared `UInt32` (yarn-project/stdlib/src/kernel/private_kernel_data.ts:28), and the
constructor checks nothing about it. The model therefore does not bound it by the height of the
verification-key tree.

## Model

| member | source | states |
|---|---|---|
| Tables.BuildTableKeys | barretenberg/cpp/src/barretenberg/vm2/simulation/lib/raw_data_dbs.cpp:179-241 | a key is in a hint table exactly when some hint in the list carries that key |
| Tables.BuildTableLastWins | barretenberg/cpp/src/barretenberg/vm2/simulation/lib/raw_data_dbs.cpp:78-94 | on duplicate keys the table holds the value of the last hint with that key |
| Tables.BuildTableLookup | barretenberg/cpp/src/barretenberg/vm2/simulation/lib/raw_data_dbs.cpp:179-241 | every entry of a table is the value of the last hint carrying its key |
| Tables.FillTable | barretenberg/cpp/src/barretenberg/vm2/simulation/lib/raw_data_dbs.cpp:179-184 | the filling loop produces exactly the table `BuildTable` describes |
| RawDataDbs.TreeInfo | barretenberg/cpp/src/barretenberg/vm2/simulation/lib/raw_data_dbs.cpp:49-62 | only the nullifier, public-data, note-hash and L1-to-L2 trees are selectable; the archive tree is an error naming the tree |
| RawDataDbs.WithTree | barretenberg/cpp/src/barretenberg/vm2/simulation/lib/raw_data_dbs.cpp:49-62 | writing through the selected snapshot sets that tree and leaves the other three unchanged |
| RawDataDbs.PadSnapshot | barretenberg/cpp/src/barretenberg/vm2/simulation/lib/raw_data_dbs.cpp:556-558 | the size grows by exactly `numLeaves` (wrapping at 2^64) and the root is kept |
| RawDataDbs.InsertionResultOf | barretenberg/cpp/src/barretenberg/vm2/simulation/lib/raw_data_dbs.cpp:352-360 | an insert returns exactly one low-leaf witness and one insertion witness, those of the hint |
| RawDataDbs.HintedRawContractDB.constructor | barretenberg/cpp/src/barretenberg/vm2/simulation/lib/raw_data_dbs.cpp:68-95 | the instance, class and commitment tables are the hint lists filed by address / class id, last hint winning |
| RawDataDbs.HintedRawContractDB.GetContractInstance | barretenberg/cpp/src/barretenberg/vm2/simulation/lib/raw_data_dbs.cpp:97-122 | none exactly when the address has no hint; otherwise every field of the hint except the address, unchanged |
| RawDataDbs.GetContractInstanceFromHints | barretenberg/cpp/src/barretenberg/vm2/simulation/lib/raw_data_dbs.cpp:97-122 | the lookup is none iff no instance hint names the address, and otherwise returns the last hint that does |
| RawDataDbs.HintedRawContractDB.GetBytecodeCommitment | barretenberg/cpp/src/barretenberg/vm2/simulation/lib/raw_data_dbs.cpp:144-148 | the hinted commitment when one exists, an error naming the class otherwise |
| RawDataDbs.HintedRawContractDB.GetContractClass | barretenberg/cpp/src/barretenberg/vm2/simulation/lib/raw_data_dbs.cpp:124-142 | `Ok(None)` exactly for an unknown class; for a known class an error exactly when its commitment is missing, and that error is `MissingBytecodeCommitment`; otherwise the hint's fields with the commitment embedded |
| RawDataDbs.HintedRawMerkleDB.constructor | barretenberg/cpp/src/barretenberg/vm2/simulation/lib/raw_data_dbs.cpp:151-242 | all eleven tables are the hint lists filed under their keys, last hint winning; roots start at the hinted starting roots |
| RawDataDbs.HintedRawMerkleDB.GetTreeInfo | barretenberg/cpp/src/barretenberg/vm2/simulation/lib/raw_data_dbs.cpp:244-252 | tree selection applied to the current roots |
| RawDataDbs.HintedRawMerkleDB.GetSiblingPath | barretenberg/cpp/src/barretenberg/vm2/simulation/lib/raw_data_dbs.cpp:254-271 | the hinted path for (current snapshot, tree, index); an error when there is none or the tree is the archive |
| RawDataDbs.HintedRawMerkleDB.GetLowIndexedLeaf | barretenberg/cpp/src/barretenberg/vm2/simulation/lib/raw_data_dbs.cpp:273-291 | the hinted low-leaf answer for (current snapshot, tree, value); an error when there is none |
| RawDataDbs.HintedRawMerkleDB.GetLeafValue | barretenberg/cpp/src/barretenberg/vm2/simulation/lib/raw_data_dbs.cpp:293-299 | the hinted value for (current snapshot, tree, index), 0 when no hint exists; an error only for the archive |
| RawDataDbs.HintedRawMerkleDB.GetLeafPreimagePublicDataTree | barretenberg/cpp/src/barretenberg/vm2/simulation/lib/raw_data_dbs.cpp:301-316 | the hinted preimage keyed by the current public-data snapshot and index; an error when missing |
| RawDataDbs.HintedRawMerkleDB.GetLeafPreimageNullifierTree | barretenberg/cpp/src/barretenberg/vm2/simulation/lib/raw_data_dbs.cpp:318-333 | the hinted preimage keyed by the current nullifier snapshot and index; an error when missing |
| RawDataDbs.HintedRawMerkleDB.InsertIndexedLeavesPublicDataTree | barretenberg/cpp/src/barretenberg/vm2/simulation/lib/raw_data_dbs.cpp:335-372 | with a hint: the hint's two witnesses, and only the public-data snapshot becomes `stateAfter`; without: an error and no change |
| RawDataDbs.HintedRawMerkleDB.InsertIndexedLeavesNullifierTree | barretenberg/cpp/src/barretenberg/vm2/simulation/lib/raw_data_dbs.cpp:374-411 | with a hint: the hint's two witnesses, and only the nullifier snapshot becomes `stateAfter`; without: an error and no change |
| RawDataDbs.HintedRawMerkleDB.CreateCheckpoint | barretenberg/cpp/src/barretenberg/vm2/simulation/lib/raw_data_dbs.cpp:413-441 | succeeds iff a hint exists at the counter with `oldCheckpointId` equal to the top; then pushes `newCheckpointId` and adds 1 to the counter, else changes nothing |
| RawDataDbs.HintedRawMerkleDB.CommitCheckpoint | barretenberg/cpp/src/barretenberg/vm2/simulation/lib/raw_data_dbs.cpp:443-482 | roots unchanged; missing hint or old-id mismatch changes nothing; otherwise pops once, succeeds iff the new top is `newCheckpointId`, and the pop stays on failure |
| RawDataDbs.HintedRawMerkleDB.RevertCheckpoint | barretenberg/cpp/src/barretenberg/vm2/simulation/lib/raw_data_dbs.cpp:484-535 | as commit, and also fails without change when `stateBefore` differs from the roots; on success all roots become `stateAfter` |
| RawDataDbs.HintedRawMerkleDB.AppendLeafStep | barretenberg/cpp/src/barretenberg/vm2/simulation/lib/raw_data_dbs.cpp:563-605 | one leaf: only note-hash and L1-to-L2 trees accept, and another tracked tree fails with `HintNotFound` when no append hint exists, else with `UnsupportedAppendTree`; the target tree takes the hinted state (kept even if the path lookup then fails), others untouched; for a supported tree with an append hint, the step succeeds exactly when a sibling-path hint exists for the new state at the old size, fails with `HintNotFound` otherwise, and on success carries the pre-append root and that path |
| RawDataDbs.HintedRawMerkleDB.AppendLeafInternal | barretenberg/cpp/src/barretenberg/vm2/simulation/lib/raw_data_dbs.cpp:563-605 | the method's result and new roots are those of `AppendLeafStep` on the old roots |
| RawDataDbs.HintedRawMerkleDB.AppendLeaves | barretenberg/cpp/src/barretenberg/vm2/simulation/lib/raw_data_dbs.cpp:537-552 | the loop's result and new roots are those of appending the leaves one by one, stopping at the first failure |
| RawDataDbs.HintedRawMerkleDB.AppendLeavesFailureIsFinal | barretenberg/cpp/src/barretenberg/vm2/simulation/lib/raw_data_dbs.cpp:547-549 | after a failing leaf nothing more happens: the outcome, including the earlier leaves' updates, is that of the failing prefix |
| RawDataDbs.HintedRawMerkleDB.AppendLeavesResults | barretenberg/cpp/src/barretenberg/vm2/simulation/lib/raw_data_dbs.cpp:537-552 | a successful append gives one result per leaf in input order, each computed on the state left by the earlier leaves and carrying the pre-append root |
| RawDataDbs.HintedRawMerkleDB.AppendLeavesOtherTrees | barretenberg/cpp/src/barretenberg/vm2/simulation/lib/raw_data_dbs.cpp:582-601 | appending never changes a tree other than the target |
| RawDataDbs.HintedRawMerkleDB.AppendLeavesUnsupported | barretenberg/cpp/src/barretenberg/vm2/simulation/lib/raw_data_dbs.cpp:599-601 | appending to a tree other than note-hash or L1-to-L2 fails and leaves the roots unchanged |
| RawDataDbs.HintedRawMerkleDB.PadTree | barretenberg/cpp/src/barretenberg/vm2/simulation/lib/raw_data_dbs.cpp:554-561 | the selected tree's size grows by `numLeaves` with its root kept, the others unchanged; the archive tree is an error |
| CompleteAddresses.Validate | yarn-project/stdlib/src/contract/complete_address.ts:75-83 | passes iff the address equals the derived one; the failure names the received and the derived address |
| CompleteAddresses.Create | yarn-project/stdlib/src/contract/complete_address.ts:30-38 | a record (which is valid) exactly when the address is derived from keys and partial address; otherwise the derivation error |
| CompleteAddresses.TamperedAddressRejected | yarn-project/stdlib/src/contract/complete_address.ts:75-83 | any address other than the derived one is rejected, reporting the derived address |
| CompleteAddresses.FromSecretKeyAndPartialAddress | yarn-project/stdlib/src/contract/complete_address.ts:55-60 | the record is valid, has the derived keys and the given partial address, and `create` accepts it unchanged |
| CompleteAddresses.FromSecretKeyAndInstance | yarn-project/stdlib/src/contract/complete_address.ts:66-72 | equals `fromSecretKeyAndPartialAddress` with the instance's partial address, hence valid |
| CompleteAddresses.Equals | yarn-project/stdlib/src/contract/complete_address.ts:100-106 | true exactly when the two records are equal field by field |
| CompleteAddresses.PreaddressIgnoresAddress | yarn-project/stdlib/src/contract/complete_address.ts:62-64 | the preaddress depends only on the public keys and the partial address, not on the stored address |
| CompleteAddresses.PublicKeysFromFields | yarn-project/stdlib/src/contract/complete_address.ts:129 | reading eight coordinates back into keys inverts their layout |
| CompleteAddresses.FromReader | yarn-project/stdlib/src/contract/complete_address.ts:126-132 | any record read is valid and ends exactly 320 bytes after the cursor; a short buffer is a decoding error |
| CompleteAddresses.ToBuffer | yarn-project/stdlib/src/contract/complete_address.ts:114-116 | the buffer is the flat encoding of ten field elements: address, the eight key coordinates, partial address |
| CompleteAddresses.ToBufferLayout | yarn-project/stdlib/src/contract/complete_address.ts:41 | the buffer is `SIZE_IN_BYTES` = 320 bytes long |
| CompleteAddresses.FromBuffer | yarn-project/stdlib/src/contract/complete_address.ts:126-132 | whatever decodes is valid; fewer than 320 bytes is always a decoding error |
| CompleteAddresses.FromBufferToBuffer | yarn-project/stdlib/src/contract/complete_address.ts:114-132 | a valid record decodes back to itself from its buffer followed by any bytes |
| CompleteAddresses.FromBufferCanonical | yarn-project/stdlib/src/contract/complete_address.ts:126-132 | whatever decodes is valid, and its encoding is the first 320 bytes read |
| CompleteAddresses.ToString | yarn-project/stdlib/src/contract/complete_address.ts:152-154 | "0x" followed by two lower-case hex digits per byte of the buffer |
| CompleteAddresses.ToJson | yarn-project/stdlib/src/contract/complete_address.ts:47-49 | the same string as `toString`: "0x" and two hex digits per byte of the buffer |
| CompleteAddresses.ToStringLength | yarn-project/stdlib/src/contract/complete_address.ts:147-154 | the string is "0x" plus 640 hex digits (642 characters), and `toJSON` is `toString` |
| CompleteAddresses.FromString | yarn-project/stdlib/src/contract/complete_address.ts:142-144 | whatever decodes is valid; a string shorter than 640 characters is always a decoding error |
| CompleteAddresses.FromStringToString | yarn-project/stdlib/src/contract/complete_address.ts:142-154 | a valid record comes back from its string, with or without the "0x" prefix |
| CompleteAddresses.FromStringUpperCasePrefix | yarn-project/stdlib/src/contract/complete_address.ts:142-144 | a valid record also comes back from its digits behind an upper-case "0X", since the prefix match ignores case |
| Hex.HexDecodeEncode | yarn-project/stdlib/src/contract/complete_address.ts:143 | decoding the hex of a buffer gives the buffer back |
| Hex.HexPrefixIsOptional | yarn-project/stdlib/src/contract/complete_address.ts:143 | stripping an optional "0x" leaves the digits of `bufferToHex` with or without the prefix |
| Hex.HexEncodeDigits | yarn-project/stdlib/src/contract/complete_address.ts:152-154 | `toString` emits only lower-case hex digits |
| Serialize.ReadUInt32Encoded | yarn-project/stdlib/src/kernel/private_kernel_data.ts:48 | `readNumber` recovers any 32-bit number from its 4-byte big-endian form |
| Serialize.ReadFrsEncoded | yarn-project/stdlib/src/kernel/private_kernel_data.ts:49 | `readArray` of n field elements recovers n encoded elements |
| Serialize.ReadFrsCanonical | yarn-project/stdlib/src/kernel/private_kernel_data.ts:49 | whatever `readArray` accepts is the encoding of what it returns |
| PrivateKernel.ToBuffer | yarn-project/stdlib/src/kernel/private_kernel_data.ts:39-41 | encoding succeeds exactly when `vkIndex` fits in 32 bits |
| PrivateKernel.ToBufferLayout | yarn-project/stdlib/src/kernel/private_kernel_data.ts:39-41 | public inputs, key, 4-byte index and path, in that order; the path takes 32·`VK_TREE_HEIGHT` bytes |
| PrivateKernel.FromReader | yarn-project/stdlib/src/kernel/private_kernel_data.ts:43-51 | a record read has a 32-bit index and ends within the buffer, at least 4 + 32·`VK_TREE_HEIGHT` bytes after the cursor |
| PrivateKernel.ReadLaidOutFields | yarn-project/stdlib/src/kernel/private_kernel_data.ts:43-51 | a buffer holding the four encoded fields back to back reads as the record, ending after the path |
| PrivateKernel.FromReaderOfFields | yarn-project/stdlib/src/kernel/private_kernel_data.ts:43-51 | an unfolding step of `FromReader`: the four reads in order, each succeeding, make the record |
| PrivateKernel.FromBuffer | yarn-project/stdlib/src/kernel/private_kernel_data.ts:43-51 | a decoded record has a 32-bit index; a buffer shorter than 4 + 32·`VK_TREE_HEIGHT` bytes never decodes |
| PrivateKernel.FromBufferToBuffer | yarn-project/stdlib/src/kernel/private_kernel_data.ts:39-51 | a record with a 32-bit index decodes back to itself from its encoding followed by any bytes |
| PrivateKernel.Empty | yarn-project/stdlib/src/kernel/private_kernel_data.ts:53-60 | the empty payloads, index 0 and `VK_TREE_HEIGHT` zeros |
| PrivateKernel.EmptyRoundTrips | yarn-project/stdlib/src/kernel/private_kernel_data.ts:53-60 | the empty record encodes and decodes back to itself |
| TraceConversion.IsShift | barretenberg/cpp/src/barretenberg/vm2/tracegen/lib/trace_conversion.cpp:11-21 | true exactly when the column occurs in the shifted-columns array |
| TraceConversion.LookupSpec | barretenberg/cpp/src/barretenberg/vm2/tracegen/lib/trace_conversion.cpp:25-34 | a map filled from parallel arrays has no entry exactly for absent keys, else the value paired with the key's last occurrence |
| TraceConversion.ShiftColumn | barretenberg/cpp/src/barretenberg/vm2/tracegen/lib/trace_conversion.cpp:11-35 | none exactly when the column is not to be shifted; what it returns is a shifted column, so it satisfies `is_shift` |
| TraceConversion.ShiftColumnSpec | barretenberg/cpp/src/barretenberg/vm2/tracegen/lib/trace_conversion.cpp:23-35 | none exactly when the column is not to be shifted; else `SHIFTED[i]` for the last `i` with `TO_BE_SHIFTED[i]` the column |
| TraceConversion.UnshiftColumn | barretenberg/cpp/src/barretenberg/vm2/tracegen/lib/trace_conversion.cpp:37-49 | none exactly when the column is not among the shifted ones paired with a to-be-shifted column; what it returns is a to-be-shifted column |
| TraceConversion.UnshiftColumnSpec | barretenberg/cpp/src/barretenberg/vm2/tracegen/lib/trace_conversion.cpp:37-49 | none exactly when the column is not among the shifted ones; else `TO_BE_SHIFTED[i]` for the last matching `i` |
| TraceConversion.LookupInverse | barretenberg/cpp/src/barretenberg/vm2/tracegen/lib/trace_conversion.cpp:23-49 | with distinct values, the reverse map undoes the forward map |
| TraceConversion.UnshiftShift | barretenberg/cpp/src/barretenberg/vm2/tracegen/lib/trace_conversion.cpp:23-49 | with distinct shifted columns, `unshift_column(shift_column(c))` is `c` for every to-be-shifted `c` |
| TraceConversion.ShiftUnshift | barretenberg/cpp/src/barretenberg/vm2/tracegen/lib/trace_conversion.cpp:23-49 | with distinct to-be-shifted columns, `shift_column(unshift_column(c))` is `c` for every shifted `c` |
| TraceConversion.NextRow | barretenberg/cpp/src/barretenberg/vm2/tracegen/lib/trace_conversion.cpp:60 | `row + 1` in `uint32_t`: the successor, or 0 after the largest row |
| TraceConversion.ShiftTarget | barretenberg/cpp/src/barretenberg/vm2/tracegen/lib/trace_conversion.cpp:61-62 | the target of a to-be-shifted column is the shifted column paired with its last occurrence |
| TraceConversion.DistinctTargets | barretenberg/cpp/src/barretenberg/vm2/tracegen/lib/trace_conversion.cpp:59-63 | with distinct shifted columns, two columns writing the same target are the same column |
| TraceConversion.ShiftWriteStep | barretenberg/cpp/src/barretenberg/vm2/tracegen/lib/trace_conversion.cpp:59-63 | one write of the second loop keeps every earlier write that no later column overwrote |
| TraceConversion.GetFullRow | barretenberg/cpp/src/barretenberg/vm2/tracegen/lib/trace_conversion.cpp:51-65 | every entry that no to-be-shifted column targets holds row `r` if it is a trace column and keeps the initial row otherwise; each shifted target holds its column at `r + 1` (last writer wins), for every to-be-shifted column when the shifted columns are distinct |

## Left out

- Logging (`vinfo`, `debug`, `format`, `to_string`, `get_tree_name`) and the exact exception texts. An exception is an error value that names its kind and, for checkpoints, the two ids compared.
- `get_full_row_ref`: it expands a parameter pack over a `TraceContainer` interface that is not part of this model.
- `CompleteAddress.random`: it draws random field elements.
- `CompleteAddress.toReadableString`: display formatting only.
- `CompleteAddresses.GetPreaddress`: it is one call to the external `computePreaddress` on the external key hash, so it carries no contract of its own. `PreaddressIgnoresAddress` states what follows from its shape: only the keys and the partial address matter.
- Asynchronous plumbing (`Promise`s) in `complete_address.ts`: each await is a sequential step.
- The byte encodings of `Fr`, `AztecAddress`, `PrivateKernelCircuitPublicInputs` and `VerificationKeyData` are parameters with an assumed round trip (`FieldCodecSound`, `CodecSound`). The public-key bundle is written as its eight coordinates, address-sized each. `public_keys.ts` is not part of this model.
- Node's `Buffer.from(hex)` is modelled leniently: it stops at the first pair that is not hex and ignores an odd last digit. There is no malformed-hex error, because the code adds no check of its own.
- The doc comment on `toString` claims a 66-character result. That is not asserted; `CompleteAddresses.ToStringLength` proves the length the 320-byte layout gives.
- `serializeToBuffer` of a number outside 32 bits is modelled as an encoding error (`Serialize.EncodeUInt32`). This follows Node's `writeUInt32BE`, which is not part of this model.
- `RawDataDbs.HintedRawMerkleDB.constructor`: the checkpoint stack starts as `[0]` and the counter as 0. The header declaring them is not part of this model.
- `RawDataDbs.HintedRawMerkleDB.CommitCheckpoint`: requires a second element on the stack when the pop happens, because `top()` on an empty `std::stack` is undefined behaviour. `RevertCheckpoint` has the same requirement, and every checkpoint operation requires a non-empty stack (`Valid`), which each of them preserves.
- Checkpoint ids and the action counter are `uint32_t` in C++; they are unbounded here, so a counter wrap after 2^32 actions is not modelled.
- Equality of the hint key structs (declared in a header that is not part of this model) is taken to be field-wise equality.
- `TraceConversion.GetFullRow`: columns are indices, and the trace is a function from column and row to a field element. `TO_BE_SHIFTED` may be no longer than `SHIFTED`, since the source indexes `SHIFTED` by the positions of `TO_BE_SHIFTED`. Every shifted target must fit in the row, and `trace.num_columns()` must not exceed the row width. What a default-constructed row holds before the writes is not fixed by the code shown (the row type and the field type are declared elsewhere), so the initial row is the parameter `init`, and the model promises only that entries no loop writes keep their `init` value.
- `CompleteAddresses.FromBuffer`: the doc comment at complete_address.ts:121 says it throws when the input length is not the expected size, but the code performs no such check. Like the code, the model reads the first 320 bytes and ignores any trailing bytes (`FromBufferToBuffer` holds for every `rest`).
- `CompleteAddresses.FromString`: the doc comment at complete_address.ts:136-137 asks for exactly 128 hex characters and says an invalid length throws. The code checks no length and neither does the model: any string whose digits decode to at least 320 bytes is read, with the excess ignored.
- `RawDataDbs.HintedRawContractDB.GetBytecodeCommitment`: the source asserts that the commitment is present (raw_data_dbs.cpp:146), which aborts the process in builds with assertions enabled, and otherwise `at()` throws `std::out_of_range`. The model follows the build without assertions and makes the throw the recoverable `Err(MissingBytecodeCommitment(classId))`, which `GetContractClass` propagates; the abort is not modelled.
- `TraceConversion.IsShift`: the static set is built once per process; here it is recomputed from the array on each call, which gives the same answers.
