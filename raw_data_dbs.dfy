/**
 * The hint-replay world-state databases of the AVM simulator. They answer contract and
 * Merkle-tree queries from lists of hints recorded by the TypeScript simulator. Each tree
 * query is keyed by the current snapshot of its tree. The Merkle database also replays
 * tree updates, checkpoint creation, commit and revert, and checks each step against the
 * recorded hint.
 *
 * A thrown `std::runtime_error` is an `Err` (or `Fail`) carrying a `DbError`.
 */
module RawDataDbs {
  import opened Wrappers
  import opened Types
  import opened Tables

  /** C++ `uint64_t` (`index_t`, `size_t`). */
  const UINT64_LIMIT: nat := 0x1_0000_0000_0000_0000
  type U64 = x: nat | x < UINT64_LIMIT

  datatype MerkleTreeId = NullifierTree | NoteHashTree | PublicDataTree | L1ToL2MessageTree | Archive

  /** The root and size of one append-only tree. */
  datatype AppendOnlyTreeSnapshot = AppendOnlyTreeSnapshot(root: Fr, nextAvailableLeafIndex: U64)

  /** The snapshots of the four trees the simulator evolves. */
  datatype TreeSnapshots = TreeSnapshots(
    l1ToL2MessageTree: AppendOnlyTreeSnapshot,
    noteHashTree: AppendOnlyTreeSnapshot,
    nullifierTree: AppendOnlyTreeSnapshot,
    publicDataTree: AppendOnlyTreeSnapshot)

  datatype DbError =
    | UnsupportedTree(treeId: MerkleTreeId)
    | HintNotFound
    | MissingBytecodeCommitment(classId: Fr)
    | UnsupportedAppendTree(treeId: MerkleTreeId)
    | OldCheckpointMismatch(hinted: nat, current: nat)
    | NewCheckpointMismatch(hinted: nat, current: nat)
    | SnapshotMismatch

  // ---------------------------------------------------------------------------------------
  // Tree selection

  /** The snapshot of a tree the simulator tracks; the archive tree is not one of them. */
  function TreeOf(roots: TreeSnapshots, treeId: MerkleTreeId): AppendOnlyTreeSnapshot
    requires treeId != Archive
  {
    match treeId
    case NullifierTree => roots.nullifierTree
    case PublicDataTree => roots.publicDataTree
    case NoteHashTree => roots.noteHashTree
    case L1ToL2MessageTree => roots.l1ToL2MessageTree
  }

  /** Tree selection, which throws for any tree the simulator does not track. */
  function TreeInfo(roots: TreeSnapshots, treeId: MerkleTreeId): (r: Result<AppendOnlyTreeSnapshot, DbError>)
    ensures r.Err? <==> treeId == Archive
    ensures r.Err? ==> r.error == UnsupportedTree(treeId)
    ensures r.Ok? ==> r.value == TreeOf(roots, treeId)
  {
    if treeId == Archive then Err(UnsupportedTree(treeId)) else Ok(TreeOf(roots, treeId))
  }

  /** `a` and `b` agree on every tracked tree except `treeId`. */
  ghost predicate SameTreesExcept(a: TreeSnapshots, b: TreeSnapshots, treeId: MerkleTreeId) {
    forall t: MerkleTreeId :: t != Archive && t != treeId ==> TreeOf(a, t) == TreeOf(b, t)
  }

  /** The snapshots with one tree replaced, as an assignment through the selected reference does. */
  function WithTree(roots: TreeSnapshots, treeId: MerkleTreeId, s: AppendOnlyTreeSnapshot): (r: TreeSnapshots)
    requires treeId != Archive
    ensures TreeOf(r, treeId) == s
    ensures SameTreesExcept(roots, r, treeId)
  {
    match treeId
    case NullifierTree => roots.(nullifierTree := s)
    case PublicDataTree => roots.(publicDataTree := s)
    case NoteHashTree => roots.(noteHashTree := s)
    case L1ToL2MessageTree => roots.(l1ToL2MessageTree := s)
  }

  /** A snapshot whose size grew by `numLeaves`, with the `uint64_t` addition wrapping. */
  function PadSnapshot(s: AppendOnlyTreeSnapshot, numLeaves: U64): (r: AppendOnlyTreeSnapshot)
    ensures r.root == s.root
    ensures s.nextAvailableLeafIndex + numLeaves < UINT64_LIMIT ==>
      r.nextAvailableLeafIndex == s.nextAvailableLeafIndex + numLeaves
    ensures s.nextAvailableLeafIndex + numLeaves >= UINT64_LIMIT ==>
      r.nextAvailableLeafIndex == s.nextAvailableLeafIndex + numLeaves - UINT64_LIMIT
  {
    s.(nextAvailableLeafIndex := (s.nextAvailableLeafIndex + numLeaves) % UINT64_LIMIT)
  }

  // ---------------------------------------------------------------------------------------
  // Hints

  type SiblingPath = seq<Fr>

  datatype PublicDataLeafValue = PublicDataLeafValue(slot: Fr, value: Fr)
  datatype NullifierLeafValue = NullifierLeafValue(nullifier: Fr)

  /** A leaf of an indexed tree with its link to the next-larger key. */
  datatype IndexedLeaf<L> = IndexedLeaf(leaf: L, nextIndex: U64, nextKey: Fr)

  datatype LeafUpdateWitnessData<L> = LeafUpdateWitnessData(leaf: IndexedLeaf<L>, index: U64, path: SiblingPath)

  datatype SequentialInsertionResult<L> = SequentialInsertionResult(
    lowLeafWitnessData: seq<LeafUpdateWitnessData<L>>,
    insertionWitnessData: seq<LeafUpdateWitnessData<L>>)

  datatype GetLowIndexedLeafResponse = GetLowIndexedLeafResponse(isAlreadyPresent: bool, index: U64)

  datatype AppendLeafResult = AppendLeafResult(root: Fr, path: SiblingPath)

  datatype ContractInstanceHint = ContractInstanceHint(
    address: AztecAddress,
    salt: Fr,
    deployer: AztecAddress,
    currentContractClassId: Fr,
    originalContractClassId: Fr,
    initializationHash: Fr,
    publicKeys: PublicKeys)

  datatype ContractClassHint = ContractClassHint(
    classId: Fr, artifactHash: Fr, privateFunctionsRoot: Fr, packedBytecode: Bytes)

  datatype BytecodeCommitmentHint = BytecodeCommitmentHint(classId: Fr, commitment: Fr)

  /** A contract class as the simulator uses it, with its bytecode commitment embedded. */
  datatype ContractClass = ContractClass(
    artifactHash: Fr, privateFunctionRoot: Fr, publicBytecodeCommitment: Fr, packedBytecode: Bytes)

  datatype GetSiblingPathHint = GetSiblingPathHint(
    hintKey: AppendOnlyTreeSnapshot, treeId: MerkleTreeId, index: U64, path: SiblingPath)

  datatype GetPreviousValueIndexHint = GetPreviousValueIndexHint(
    hintKey: AppendOnlyTreeSnapshot, treeId: MerkleTreeId, value: Fr, index: U64, alreadyPresent: bool)

  datatype GetLeafPreimageHint<L> = GetLeafPreimageHint(
    hintKey: AppendOnlyTreeSnapshot, index: U64, leafPreimage: IndexedLeaf<L>)

  datatype GetLeafValueHint = GetLeafValueHint(
    hintKey: AppendOnlyTreeSnapshot, treeId: MerkleTreeId, index: U64, value: Fr)

  datatype SequentialInsertHint<L> = SequentialInsertHint(
    hintKey: AppendOnlyTreeSnapshot,
    treeId: MerkleTreeId,
    leaf: L,
    lowLeavesWitnessData: LeafUpdateWitnessData<L>,
    insertionWitnessData: LeafUpdateWitnessData<L>,
    stateAfter: AppendOnlyTreeSnapshot)

  datatype AppendLeavesHint = AppendLeavesHint(
    hintKey: AppendOnlyTreeSnapshot, treeId: MerkleTreeId, leaves: seq<Fr>, stateAfter: AppendOnlyTreeSnapshot)

  datatype CheckpointActionNoStateChangeHint = CheckpointActionNoStateChangeHint(
    actionCounter: nat, oldCheckpointId: nat, newCheckpointId: nat)

  datatype RevertCheckpointHint = RevertCheckpointHint(
    actionCounter: nat, oldCheckpointId: nat, newCheckpointId: nat,
    stateBefore: TreeSnapshots, stateAfter: TreeSnapshots)

  datatype ExecutionHints = ExecutionHints(
    contractInstances: seq<ContractInstanceHint>,
    contractClasses: seq<ContractClassHint>,
    bytecodeCommitments: seq<BytecodeCommitmentHint>,
    startingTreeRoots: TreeSnapshots,
    getSiblingPathHints: seq<GetSiblingPathHint>,
    getPreviousValueIndexHints: seq<GetPreviousValueIndexHint>,
    getLeafPreimageHintsPublicDataTree: seq<GetLeafPreimageHint<PublicDataLeafValue>>,
    getLeafPreimageHintsNullifierTree: seq<GetLeafPreimageHint<NullifierLeafValue>>,
    getLeafValueHints: seq<GetLeafValueHint>,
    sequentialInsertHintsPublicDataTree: seq<SequentialInsertHint<PublicDataLeafValue>>,
    sequentialInsertHintsNullifierTree: seq<SequentialInsertHint<NullifierLeafValue>>,
    appendLeavesHints: seq<AppendLeavesHint>,
    createCheckpointHints: seq<CheckpointActionNoStateChangeHint>,
    commitCheckpointHints: seq<CheckpointActionNoStateChangeHint>,
    revertCheckpointHints: seq<RevertCheckpointHint>)

  // Keys and values under which the constructors file each hint.

  type TreeIndexKey = (AppendOnlyTreeSnapshot, MerkleTreeId, U64)

  function InstanceAddress(h: ContractInstanceHint): AztecAddress { h.address }
  function InstanceHintItself(h: ContractInstanceHint): ContractInstanceHint { h }
  function ClassHintId(h: ContractClassHint): Fr { h.classId }
  function ClassHintItself(h: ContractClassHint): ContractClassHint { h }
  function CommitmentClassId(h: BytecodeCommitmentHint): Fr { h.classId }
  function CommitmentValue(h: BytecodeCommitmentHint): Fr { h.commitment }
  function SiblingPathKey(h: GetSiblingPathHint): TreeIndexKey { (h.hintKey, h.treeId, h.index) }
  function SiblingPathValue(h: GetSiblingPathHint): SiblingPath { h.path }
  function PreviousValueIndexKey(h: GetPreviousValueIndexHint): (AppendOnlyTreeSnapshot, MerkleTreeId, Fr) {
    (h.hintKey, h.treeId, h.value)
  }
  function PreviousValueIndexValue(h: GetPreviousValueIndexHint): GetLowIndexedLeafResponse {
    GetLowIndexedLeafResponse(h.alreadyPresent, h.index)
  }
  function PublicDataPreimageKey(h: GetLeafPreimageHint<PublicDataLeafValue>): (AppendOnlyTreeSnapshot, U64) {
    (h.hintKey, h.index)
  }
  function PublicDataPreimageValue(h: GetLeafPreimageHint<PublicDataLeafValue>): IndexedLeaf<PublicDataLeafValue> {
    h.leafPreimage
  }
  function NullifierPreimageKey(h: GetLeafPreimageHint<NullifierLeafValue>): (AppendOnlyTreeSnapshot, U64) {
    (h.hintKey, h.index)
  }
  function NullifierPreimageValue(h: GetLeafPreimageHint<NullifierLeafValue>): IndexedLeaf<NullifierLeafValue> {
    h.leafPreimage
  }
  function LeafValueKey(h: GetLeafValueHint): TreeIndexKey { (h.hintKey, h.treeId, h.index) }
  function LeafValueValue(h: GetLeafValueHint): Fr { h.value }
  function PublicDataInsertKey(h: SequentialInsertHint<PublicDataLeafValue>):
    (AppendOnlyTreeSnapshot, MerkleTreeId, PublicDataLeafValue)
  {
    (h.hintKey, h.treeId, h.leaf)
  }
  function PublicDataInsertItself(h: SequentialInsertHint<PublicDataLeafValue>): SequentialInsertHint<PublicDataLeafValue> { h }
  function NullifierInsertKey(h: SequentialInsertHint<NullifierLeafValue>):
    (AppendOnlyTreeSnapshot, MerkleTreeId, NullifierLeafValue)
  {
    (h.hintKey, h.treeId, h.leaf)
  }
  function NullifierInsertItself(h: SequentialInsertHint<NullifierLeafValue>): SequentialInsertHint<NullifierLeafValue> { h }
  function AppendKey(h: AppendLeavesHint): (AppendOnlyTreeSnapshot, MerkleTreeId, seq<Fr>) { (h.hintKey, h.treeId, h.leaves) }
  function AppendStateAfter(h: AppendLeavesHint): AppendOnlyTreeSnapshot { h.stateAfter }
  function CheckpointCounter(h: CheckpointActionNoStateChangeHint): nat { h.actionCounter }
  function CheckpointItself(h: CheckpointActionNoStateChangeHint): CheckpointActionNoStateChangeHint { h }
  function RevertCounter(h: RevertCheckpointHint): nat { h.actionCounter }
  function RevertItself(h: RevertCheckpointHint): RevertCheckpointHint { h }

  /** The simulator's view of an instance hint: every field except the address, unchanged. */
  function InstanceOf(h: ContractInstanceHint): ContractInstance {
    ContractInstance(h.salt, h.deployer, h.currentContractClassId, h.originalContractClassId,
                     h.initializationHash, h.publicKeys)
  }

  /** The witness data an indexed insert returns: one low-leaf and one insertion witness. */
  function InsertionResultOf<L>(h: SequentialInsertHint<L>): (r: SequentialInsertionResult<L>)
    ensures r.lowLeafWitnessData == [h.lowLeavesWitnessData]
    ensures r.insertionWitnessData == [h.insertionWitnessData]
  {
    SequentialInsertionResult([h.lowLeavesWitnessData], [h.insertionWitnessData])
  }

  // ---------------------------------------------------------------------------------------
  // Contract database

  class HintedRawContractDB {
    const contractInstances: map<AztecAddress, ContractInstanceHint>
    const contractClasses: map<Fr, ContractClassHint>
    const bytecodeCommitments: map<Fr, Fr>

    /** The tables are those filed from `hints`, later hints overwriting earlier ones. */
    ghost predicate BuiltFrom(hints: ExecutionHints) {
      && contractInstances == BuildTable(hints.contractInstances, InstanceAddress, InstanceHintItself)
      && contractClasses == BuildTable(hints.contractClasses, ClassHintId, ClassHintItself)
      && bytecodeCommitments == BuildTable(hints.bytecodeCommitments, CommitmentClassId, CommitmentValue)
    }

    constructor (hints: ExecutionHints)
      ensures BuiltFrom(hints)
    {
      var instances := FillTable(hints.contractInstances, InstanceAddress, InstanceHintItself);
      var classes := FillTable(hints.contractClasses, ClassHintId, ClassHintItself);
      var commitments := FillTable(hints.bytecodeCommitments, CommitmentClassId, CommitmentValue);
      contractInstances := instances;
      contractClasses := classes;
      bytecodeCommitments := commitments;
    }

    function GetContractInstance(address: AztecAddress): (r: Option<ContractInstance>)
      ensures r.None? <==> address !in contractInstances
      ensures r.Some? ==> r.value == InstanceOf(contractInstances[address])
    {
      if address in contractInstances then Some(InstanceOf(contractInstances[address])) else None
    }

    /** Throws (`at()` on a missing key) when no commitment was hinted for the class. */
    function GetBytecodeCommitment(classId: Fr): (r: Result<Fr, DbError>)
      ensures r.Ok? <==> classId in bytecodeCommitments
      ensures r.Ok? ==> r.value == bytecodeCommitments[classId]
      ensures r.Err? ==> r.error == MissingBytecodeCommitment(classId)
    {
      if classId in bytecodeCommitments then Ok(bytecodeCommitments[classId])
      else Err(MissingBytecodeCommitment(classId))
    }

    function GetContractClass(classId: Fr): (r: Result<Option<ContractClass>, DbError>)
      ensures r == Ok(None) <==> classId !in contractClasses
      ensures classId in contractClasses ==> (r.Ok? <==> classId in bytecodeCommitments)
      ensures r.Err? ==> r.error == MissingBytecodeCommitment(classId)
      ensures r.Ok? && r.value.Some? ==>
        var h := contractClasses[classId];
        r.value.value == ContractClass(h.artifactHash, h.privateFunctionsRoot,
                                       bytecodeCommitments[classId], h.packedBytecode)
    {
      if classId !in contractClasses then Ok(None)
      else
        var h := contractClasses[classId];
        var commitment :- GetBytecodeCommitment(classId);
        Ok(Some(ContractClass(h.artifactHash, h.privateFunctionsRoot, commitment, h.packedBytecode)))
    }
  }

  /**
   * Looking up an address finds nothing exactly when no instance hint names it, and
   * otherwise finds the last hint that names it.
   */
  lemma GetContractInstanceFromHints(db: HintedRawContractDB, hints: ExecutionHints, address: AztecAddress)
    requires db.BuiltFrom(hints)
    ensures var hs := hints.contractInstances;
      db.GetContractInstance(address).None? <==> forall i :: 0 <= i < |hs| ==> hs[i].address != address
    ensures forall i :: IsLastWithKey(hints.contractInstances, InstanceAddress, address, i) ==>
      db.GetContractInstance(address) == Some(InstanceOf(hints.contractInstances[i]))
  {
    var hs := hints.contractInstances;
    BuildTableKeys(hs, InstanceAddress, InstanceHintItself, address);
    forall i | IsLastWithKey(hs, InstanceAddress, address, i)
      ensures db.GetContractInstance(address) == Some(InstanceOf(hs[i]))
    {
      BuildTableLastWins(hs, InstanceAddress, InstanceHintItself, address, i);
    }
  }

  // ---------------------------------------------------------------------------------------
  // Merkle database

  function Top(stack: seq<nat>): nat
    requires stack != []
  {
    stack[|stack| - 1]
  }

  predicate AppendSupported(treeId: MerkleTreeId) {
    treeId == NoteHashTree || treeId == L1ToL2MessageTree
  }

  class HintedRawMerkleDB {
    const siblingPathHints: map<TreeIndexKey, SiblingPath>
    const previousValueIndexHints: map<(AppendOnlyTreeSnapshot, MerkleTreeId, Fr), GetLowIndexedLeafResponse>
    const leafPreimageHintsPublicDataTree: map<(AppendOnlyTreeSnapshot, U64), IndexedLeaf<PublicDataLeafValue>>
    const leafPreimageHintsNullifierTree: map<(AppendOnlyTreeSnapshot, U64), IndexedLeaf<NullifierLeafValue>>
    const leafValueHints: map<TreeIndexKey, Fr>
    const sequentialInsertHintsPublicDataTree:
      map<(AppendOnlyTreeSnapshot, MerkleTreeId, PublicDataLeafValue), SequentialInsertHint<PublicDataLeafValue>>
    const sequentialInsertHintsNullifierTree:
      map<(AppendOnlyTreeSnapshot, MerkleTreeId, NullifierLeafValue), SequentialInsertHint<NullifierLeafValue>>
    const appendLeavesHints: map<(AppendOnlyTreeSnapshot, MerkleTreeId, seq<Fr>), AppendOnlyTreeSnapshot>
    const createCheckpointHints: map<nat, CheckpointActionNoStateChangeHint>
    const commitCheckpointHints: map<nat, CheckpointActionNoStateChangeHint>
    const revertCheckpointHints: map<nat, RevertCheckpointHint>

    var treeRoots: TreeSnapshots
    /** The checkpoint-id stack; its top is the last element. */
    var checkpointStack: seq<nat>
    var checkpointActionCounter: nat

    /** The checkpoint stack is never empty, so `top()` is always defined. */
    ghost predicate Valid()
      reads this
    {
      checkpointStack != []
    }

    /** The tables are those filed from `hints`, later hints overwriting earlier ones. */
    ghost predicate BuiltFrom(hints: ExecutionHints) {
      && siblingPathHints == BuildTable(hints.getSiblingPathHints, SiblingPathKey, SiblingPathValue)
      && previousValueIndexHints ==
         BuildTable(hints.getPreviousValueIndexHints, PreviousValueIndexKey, PreviousValueIndexValue)
      && leafPreimageHintsPublicDataTree ==
         BuildTable(hints.getLeafPreimageHintsPublicDataTree, PublicDataPreimageKey, PublicDataPreimageValue)
      && leafPreimageHintsNullifierTree ==
         BuildTable(hints.getLeafPreimageHintsNullifierTree, NullifierPreimageKey, NullifierPreimageValue)
      && leafValueHints == BuildTable(hints.getLeafValueHints, LeafValueKey, LeafValueValue)
      && sequentialInsertHintsPublicDataTree ==
         BuildTable(hints.sequentialInsertHintsPublicDataTree, PublicDataInsertKey, PublicDataInsertItself)
      && sequentialInsertHintsNullifierTree ==
         BuildTable(hints.sequentialInsertHintsNullifierTree, NullifierInsertKey, NullifierInsertItself)
      && appendLeavesHints == BuildTable(hints.appendLeavesHints, AppendKey, AppendStateAfter)
      && createCheckpointHints == BuildTable(hints.createCheckpointHints, CheckpointCounter, CheckpointItself)
      && commitCheckpointHints == BuildTable(hints.commitCheckpointHints, CheckpointCounter, CheckpointItself)
      && revertCheckpointHints == BuildTable(hints.revertCheckpointHints, RevertCounter, RevertItself)
    }

    constructor (hints: ExecutionHints)
      ensures BuiltFrom(hints) && Valid()
      ensures treeRoots == hints.startingTreeRoots
      ensures checkpointStack == [0] && checkpointActionCounter == 0
    {
      treeRoots := hints.startingTreeRoots;
      checkpointStack := [0];
      checkpointActionCounter := 0;
      var paths := FillTable(hints.getSiblingPathHints, SiblingPathKey, SiblingPathValue);
      var lowLeaves := FillTable(hints.getPreviousValueIndexHints, PreviousValueIndexKey, PreviousValueIndexValue);
      var publicPreimages :=
        FillTable(hints.getLeafPreimageHintsPublicDataTree, PublicDataPreimageKey, PublicDataPreimageValue);
      var nullifierPreimages :=
        FillTable(hints.getLeafPreimageHintsNullifierTree, NullifierPreimageKey, NullifierPreimageValue);
      var values := FillTable(hints.getLeafValueHints, LeafValueKey, LeafValueValue);
      var publicInserts :=
        FillTable(hints.sequentialInsertHintsPublicDataTree, PublicDataInsertKey, PublicDataInsertItself);
      var nullifierInserts :=
        FillTable(hints.sequentialInsertHintsNullifierTree, NullifierInsertKey, NullifierInsertItself);
      var appends := FillTable(hints.appendLeavesHints, AppendKey, AppendStateAfter);
      var creates := FillTable(hints.createCheckpointHints, CheckpointCounter, CheckpointItself);
      var commits := FillTable(hints.commitCheckpointHints, CheckpointCounter, CheckpointItself);
      var reverts := FillTable(hints.revertCheckpointHints, RevertCounter, RevertItself);
      siblingPathHints := paths;
      previousValueIndexHints := lowLeaves;
      leafPreimageHintsPublicDataTree := publicPreimages;
      leafPreimageHintsNullifierTree := nullifierPreimages;
      leafValueHints := values;
      sequentialInsertHintsPublicDataTree := publicInserts;
      sequentialInsertHintsNullifierTree := nullifierInserts;
      appendLeavesHints := appends;
      createCheckpointHints := creates;
      commitCheckpointHints := commits;
      revertCheckpointHints := reverts;
    }

    function GetTreeInfo(treeId: MerkleTreeId): (r: Result<AppendOnlyTreeSnapshot, DbError>)
      reads this
      ensures r == TreeInfo(treeRoots, treeId)
    {
      TreeInfo(treeRoots, treeId)
    }

    // Read-only lookups, each keyed by the current snapshot of its tree.

    function GetSiblingPath(treeId: MerkleTreeId, leafIndex: U64): (r: Result<SiblingPath, DbError>)
      reads this
      ensures treeId == Archive ==> r == Err(UnsupportedTree(treeId))
      ensures treeId != Archive ==>
        var key := (TreeOf(treeRoots, treeId), treeId, leafIndex);
        if key in siblingPathHints then r == Ok(siblingPathHints[key]) else r == Err(HintNotFound)
    {
      var info :- GetTreeInfo(treeId);
      var key := (info, treeId, leafIndex);
      if key in siblingPathHints then Ok(siblingPathHints[key]) else Err(HintNotFound)
    }

    function GetLowIndexedLeaf(treeId: MerkleTreeId, value: Fr): (r: Result<GetLowIndexedLeafResponse, DbError>)
      reads this
      ensures treeId == Archive ==> r == Err(UnsupportedTree(treeId))
      ensures treeId != Archive ==>
        var key := (TreeOf(treeRoots, treeId), treeId, value);
        if key in previousValueIndexHints then r == Ok(previousValueIndexHints[key]) else r == Err(HintNotFound)
    {
      var info :- GetTreeInfo(treeId);
      var key := (info, treeId, value);
      if key in previousValueIndexHints then Ok(previousValueIndexHints[key]) else Err(HintNotFound)
    }

    /** Unlike the other lookups, a missing leaf-value hint yields 0 rather than an error. */
    function GetLeafValue(treeId: MerkleTreeId, leafIndex: U64): (r: Result<Fr, DbError>)
      reads this
      ensures r.Err? <==> treeId == Archive
      ensures treeId != Archive ==>
        var key := (TreeOf(treeRoots, treeId), treeId, leafIndex);
        r.value == if key in leafValueHints then leafValueHints[key] else 0
    {
      var info :- GetTreeInfo(treeId);
      var key := (info, treeId, leafIndex);
      Ok(if key in leafValueHints then leafValueHints[key] else 0)
    }

    function GetLeafPreimagePublicDataTree(leafIndex: U64): (r: Result<IndexedLeaf<PublicDataLeafValue>, DbError>)
      reads this
      ensures var key := (treeRoots.publicDataTree, leafIndex);
        if key in leafPreimageHintsPublicDataTree then r == Ok(leafPreimageHintsPublicDataTree[key])
        else r == Err(HintNotFound)
    {
      var key := (TreeOf(treeRoots, PublicDataTree), leafIndex);
      if key in leafPreimageHintsPublicDataTree then Ok(leafPreimageHintsPublicDataTree[key]) else Err(HintNotFound)
    }

    function GetLeafPreimageNullifierTree(leafIndex: U64): (r: Result<IndexedLeaf<NullifierLeafValue>, DbError>)
      reads this
      ensures var key := (treeRoots.nullifierTree, leafIndex);
        if key in leafPreimageHintsNullifierTree then r == Ok(leafPreimageHintsNullifierTree[key])
        else r == Err(HintNotFound)
    {
      var key := (TreeOf(treeRoots, NullifierTree), leafIndex);
      if key in leafPreimageHintsNullifierTree then Ok(leafPreimageHintsNullifierTree[key]) else Err(HintNotFound)
    }

    // Indexed inserts: replace the target tree's snapshot by the hinted one.

    method InsertIndexedLeavesPublicDataTree(leafValue: PublicDataLeafValue)
      returns (r: Result<SequentialInsertionResult<PublicDataLeafValue>, DbError>)
      modifies this`treeRoots
      ensures var key := (old(treeRoots).publicDataTree, PublicDataTree, leafValue);
        if key in sequentialInsertHintsPublicDataTree then
          var hint := sequentialInsertHintsPublicDataTree[key];
          && r == Ok(InsertionResultOf(hint))
          && treeRoots == WithTree(old(treeRoots), PublicDataTree, hint.stateAfter)
        else
          r == Err(HintNotFound) && treeRoots == old(treeRoots)
    {
      var info := TreeOf(treeRoots, PublicDataTree);
      var key := (info, PublicDataTree, leafValue);
      if key !in sequentialInsertHintsPublicDataTree {
        return Err(HintNotFound);
      }
      var hint := sequentialInsertHintsPublicDataTree[key];
      var result := SequentialInsertionResult([hint.lowLeavesWitnessData], [hint.insertionWitnessData]);
      treeRoots := treeRoots.(publicDataTree := hint.stateAfter);
      r := Ok(result);
    }

    method InsertIndexedLeavesNullifierTree(leafValue: NullifierLeafValue)
      returns (r: Result<SequentialInsertionResult<NullifierLeafValue>, DbError>)
      modifies this`treeRoots
      ensures var key := (old(treeRoots).nullifierTree, NullifierTree, leafValue);
        if key in sequentialInsertHintsNullifierTree then
          var hint := sequentialInsertHintsNullifierTree[key];
          && r == Ok(InsertionResultOf(hint))
          && treeRoots == WithTree(old(treeRoots), NullifierTree, hint.stateAfter)
        else
          r == Err(HintNotFound) && treeRoots == old(treeRoots)
    {
      var info := TreeOf(treeRoots, NullifierTree);
      var key := (info, NullifierTree, leafValue);
      if key !in sequentialInsertHintsNullifierTree {
        return Err(HintNotFound);
      }
      var hint := sequentialInsertHintsNullifierTree[key];
      var result := SequentialInsertionResult([hint.lowLeavesWitnessData], [hint.insertionWitnessData]);
      treeRoots := treeRoots.(nullifierTree := hint.stateAfter);
      r := Ok(result);
    }

    // Checkpoints.

    method CreateCheckpoint() returns (r: Outcome<DbError>)
      requires Valid()
      modifies this`checkpointStack, this`checkpointActionCounter
      ensures Valid()
      ensures var counter, stack := old(checkpointActionCounter), old(checkpointStack);
        r.Pass? <==> counter in createCheckpointHints && createCheckpointHints[counter].oldCheckpointId == Top(stack)
      ensures r.Pass? ==>
        && checkpointStack == old(checkpointStack) + [createCheckpointHints[old(checkpointActionCounter)].newCheckpointId]
        && checkpointActionCounter == old(checkpointActionCounter) + 1
      ensures r.Fail? ==>
        checkpointStack == old(checkpointStack) && checkpointActionCounter == old(checkpointActionCounter)
    {
      if checkpointActionCounter !in createCheckpointHints {
        return Fail(HintNotFound);
      }
      var hint := createCheckpointHints[checkpointActionCounter];
      if hint.oldCheckpointId != Top(checkpointStack) {
        return Fail(OldCheckpointMismatch(hint.oldCheckpointId, Top(checkpointStack)));
      }
      checkpointStack := checkpointStack + [hint.newCheckpointId];
      checkpointActionCounter := checkpointActionCounter + 1;
      r := Pass;
    }

    /**
     * A commit whose hint matches the current top pops it; the pop stays even when the
     * second sanity check then fails. `top()` after that pop must find an element.
     */
    method CommitCheckpoint() returns (r: Outcome<DbError>)
      requires Valid()
      requires var counter := checkpointActionCounter;
        counter in commitCheckpointHints && commitCheckpointHints[counter].oldCheckpointId == Top(checkpointStack)
        ==> |checkpointStack| >= 2
      modifies this`checkpointStack, this`checkpointActionCounter
      ensures Valid()
      ensures treeRoots == old(treeRoots)
      ensures var counter, stack := old(checkpointActionCounter), old(checkpointStack);
        if counter !in commitCheckpointHints then
          r == Fail(HintNotFound) && checkpointStack == stack && checkpointActionCounter == counter
        else
          var hint := commitCheckpointHints[counter];
          if hint.oldCheckpointId != Top(stack) then
            && r == Fail(OldCheckpointMismatch(hint.oldCheckpointId, Top(stack)))
            && checkpointStack == stack && checkpointActionCounter == counter
          else
            && checkpointStack == stack[..|stack| - 1]
            && (r.Pass? <==> hint.newCheckpointId == Top(checkpointStack))
            && checkpointActionCounter == (if r.Pass? then counter + 1 else counter)
    {
      if checkpointActionCounter !in commitCheckpointHints {
        return Fail(HintNotFound);
      }
      var hint := commitCheckpointHints[checkpointActionCounter];
      if hint.oldCheckpointId != Top(checkpointStack) {
        return Fail(OldCheckpointMismatch(hint.oldCheckpointId, Top(checkpointStack)));
      }
      checkpointStack := checkpointStack[..|checkpointStack| - 1];
      if hint.newCheckpointId != Top(checkpointStack) {
        return Fail(NewCheckpointMismatch(hint.newCheckpointId, Top(checkpointStack)));
      }
      checkpointActionCounter := checkpointActionCounter + 1;
      r := Pass;
    }

    /**
     * A revert also demands that the hinted state before equals the current roots; on
     * success every root takes the hinted state after.
     */
    method RevertCheckpoint() returns (r: Outcome<DbError>)
      requires Valid()
      requires var counter := checkpointActionCounter;
        && counter in revertCheckpointHints
        && revertCheckpointHints[counter].oldCheckpointId == Top(checkpointStack)
        && revertCheckpointHints[counter].stateBefore == treeRoots
        ==> |checkpointStack| >= 2
      modifies this`checkpointStack, this`checkpointActionCounter, this`treeRoots
      ensures Valid()
      ensures var counter, stack := old(checkpointActionCounter), old(checkpointStack);
        if counter !in revertCheckpointHints then
          && r == Fail(HintNotFound)
          && checkpointStack == stack && checkpointActionCounter == counter && treeRoots == old(treeRoots)
        else
          var hint := revertCheckpointHints[counter];
          if hint.oldCheckpointId != Top(stack) then
            && r == Fail(OldCheckpointMismatch(hint.oldCheckpointId, Top(stack)))
            && checkpointStack == stack && checkpointActionCounter == counter && treeRoots == old(treeRoots)
          else if hint.stateBefore != old(treeRoots) then
            && r == Fail(SnapshotMismatch)
            && checkpointStack == stack && checkpointActionCounter == counter && treeRoots == old(treeRoots)
          else
            && checkpointStack == stack[..|stack| - 1]
            && (r.Pass? <==> hint.newCheckpointId == Top(checkpointStack))
            && (r.Pass? ==> treeRoots == hint.stateAfter && checkpointActionCounter == counter + 1)
            && (r.Fail? ==> treeRoots == old(treeRoots) && checkpointActionCounter == counter)
    {
      if checkpointActionCounter !in revertCheckpointHints {
        return Fail(HintNotFound);
      }
      var hint := revertCheckpointHints[checkpointActionCounter];
      if hint.oldCheckpointId != Top(checkpointStack) {
        return Fail(OldCheckpointMismatch(hint.oldCheckpointId, Top(checkpointStack)));
      }
      if hint.stateBefore != treeRoots {
        return Fail(SnapshotMismatch);
      }
      checkpointStack := checkpointStack[..|checkpointStack| - 1];
      if hint.newCheckpointId != Top(checkpointStack) {
        return Fail(NewCheckpointMismatch(hint.newCheckpointId, Top(checkpointStack)));
      }
      treeRoots := hint.stateAfter;
      checkpointActionCounter := checkpointActionCounter + 1;
      r := Pass;
    }

    // Appending leaves.

    /**
     * One leaf appended from `roots`: the new roots and the result. The update is made
     * before the sibling path of the new leaf is looked up, so it stays when that lookup
     * fails.
     */
    function AppendLeafStep(roots: TreeSnapshots, treeId: MerkleTreeId, leaf: Fr)
      : (o: (Result<AppendLeafResult, DbError>, TreeSnapshots))
      ensures treeId == Archive ==> o == (Err(UnsupportedTree(treeId)), roots)
      ensures treeId != Archive ==> SameTreesExcept(roots, o.1, treeId)
      ensures !AppendSupported(treeId) ==> o.0.Err? && o.1 == roots
      ensures treeId != Archive && !AppendSupported(treeId) ==>
        o.0.error == if (TreeOf(roots, treeId), treeId, [leaf]) in appendLeavesHints
                     then UnsupportedAppendTree(treeId) else HintNotFound
      ensures AppendSupported(treeId) ==>
        var before := TreeOf(roots, treeId);
        var key := (before, treeId, [leaf]);
        && (key !in appendLeavesHints ==> o == (Err(HintNotFound), roots))
        && (key in appendLeavesHints ==> TreeOf(o.1, treeId) == appendLeavesHints[key])
        && (key in appendLeavesHints ==>
              && (o.0.Ok? <==> (appendLeavesHints[key], treeId, before.nextAvailableLeafIndex) in siblingPathHints)
              && (o.0.Err? ==> o.0.error == HintNotFound))
        && (o.0.Ok? ==>
              var pathKey := (TreeOf(o.1, treeId), treeId, before.nextAvailableLeafIndex);
              pathKey in siblingPathHints && o.0.value == AppendLeafResult(before.root, siblingPathHints[pathKey]))
    {
      match TreeInfo(roots, treeId)
      case Err(e) => (Err(e), roots)
      case Ok(info) =>
        var key := (info, treeId, [leaf]);
        if key !in appendLeavesHints then (Err(HintNotFound), roots)
        else if !AppendSupported(treeId) then (Err(UnsupportedAppendTree(treeId)), roots)
        else
          var after := WithTree(roots, treeId, appendLeavesHints[key]);
          var pathKey := (TreeOf(after, treeId), treeId, info.nextAvailableLeafIndex);
          if pathKey in siblingPathHints then (Ok(AppendLeafResult(info.root, siblingPathHints[pathKey])), after)
          else (Err(HintNotFound), after)
    }

    /** Leaves appended one at a time from `roots`, stopping at the first failure. */
    function AppendLeavesOutcome(roots: TreeSnapshots, treeId: MerkleTreeId, leaves: seq<Fr>)
      : (Result<seq<AppendLeafResult>, DbError>, TreeSnapshots)
      decreases |leaves|
    {
      if leaves == [] then (Ok([]), roots)
      else
        var (prefix, rootsBefore) := AppendLeavesOutcome(roots, treeId, leaves[..|leaves| - 1]);
        if prefix.Err? then (prefix, rootsBefore)
        else
          var (last, rootsAfter) := AppendLeafStep(rootsBefore, treeId, leaves[|leaves| - 1]);
          if last.Err? then (Err(last.error), rootsAfter) else (Ok(prefix.value + [last.value]), rootsAfter)
    }

    method AppendLeafInternal(treeId: MerkleTreeId, leaf: Fr) returns (r: Result<AppendLeafResult, DbError>)
      modifies this`treeRoots
      ensures (r, treeRoots) == AppendLeafStep(old(treeRoots), treeId, leaf)
    {
      var treeInfo := GetTreeInfo(treeId);
      if treeInfo.Err? {
        return Err(treeInfo.error);
      }
      var info := treeInfo.value;
      var key := (info, treeId, [leaf]);
      if key !in appendLeavesHints {
        return Err(HintNotFound);
      }
      var stateAfter := appendLeavesHints[key];
      match treeId {
        case NoteHashTree =>
          treeRoots := treeRoots.(noteHashTree := stateAfter);
        case L1ToL2MessageTree =>
          treeRoots := treeRoots.(l1ToL2MessageTree := stateAfter);
        case _ =>
          return Err(UnsupportedAppendTree(treeId));
      }
      var path := GetSiblingPath(treeId, info.nextAvailableLeafIndex);
      if path.Err? {
        return Err(path.error);
      }
      r := Ok(AppendLeafResult(info.root, path.value));
    }

    method AppendLeaves(treeId: MerkleTreeId, leaves: seq<Fr>) returns (r: Result<seq<AppendLeafResult>, DbError>)
      modifies this`treeRoots
      ensures (r, treeRoots) == AppendLeavesOutcome(old(treeRoots), treeId, leaves)
    {
      var results := [];
      for i := 0 to |leaves|
        invariant (Ok(results), treeRoots) == AppendLeavesOutcome(old(treeRoots), treeId, leaves[..i])
      {
        assert leaves[..i + 1][..i] == leaves[..i];
        var result := AppendLeafInternal(treeId, leaves[i]);
        if result.Err? {
          AppendLeavesFailureIsFinal(old(treeRoots), treeId, leaves, i + 1);
          assert leaves[..|leaves|] == leaves;
          return Err(result.error);
        }
        results := results + [result.value];
      }
      assert leaves[..|leaves|] == leaves;
      r := Ok(results);
    }

    /** Padding grows the tree's size by `numLeaves` (wrapping at 2^64) and keeps its root. */
    method PadTree(treeId: MerkleTreeId, numLeaves: U64) returns (r: Outcome<DbError>)
      modifies this`treeRoots
      ensures treeId == Archive ==> r == Fail(UnsupportedTree(treeId)) && treeRoots == old(treeRoots)
      ensures treeId != Archive ==>
        r == Pass && treeRoots == WithTree(old(treeRoots), treeId, PadSnapshot(TreeOf(old(treeRoots), treeId), numLeaves))
    {
      var treeInfo := GetTreeInfo(treeId);
      if treeInfo.Err? {
        return Fail(treeInfo.error);
      }
      var sizeBefore := treeInfo.value.nextAvailableLeafIndex;
      var padded := treeInfo.value.(nextAvailableLeafIndex := (sizeBefore + numLeaves) % UINT64_LIMIT);
      treeRoots := WithTree(treeRoots, treeId, padded);
      r := Pass;
    }

    // Properties of appending.

    /** Once a leaf fails, the later leaves are not processed: the outcome is that of the failing prefix. */
    lemma {:induction false} AppendLeavesFailureIsFinal(roots: TreeSnapshots, treeId: MerkleTreeId, leaves: seq<Fr>, j: nat)
      requires j <= |leaves|
      requires AppendLeavesOutcome(roots, treeId, leaves[..j]).0.Err?
      ensures AppendLeavesOutcome(roots, treeId, leaves) == AppendLeavesOutcome(roots, treeId, leaves[..j])
      decreases |leaves|
    {
      if j < |leaves| {
        var init := leaves[..|leaves| - 1];
        assert init[..j] == leaves[..j];
        AppendLeavesFailureIsFinal(roots, treeId, init, j);
      } else {
        assert leaves[..j] == leaves;
      }
    }

    /**
     * A successful append yields one result per leaf, in input order; result `i` carries
     * the root of the tree before leaf `i` was appended.
     */
    lemma {:induction false} AppendLeavesResults(roots: TreeSnapshots, treeId: MerkleTreeId, leaves: seq<Fr>)
      requires AppendLeavesOutcome(roots, treeId, leaves).0.Ok?
      ensures leaves != [] ==> AppendSupported(treeId)
      ensures var results := AppendLeavesOutcome(roots, treeId, leaves).0.value;
        && |results| == |leaves|
        && forall i :: 0 <= i < |leaves| ==>
             var before := AppendLeavesOutcome(roots, treeId, leaves[..i]).1;
             AppendLeafStep(before, treeId, leaves[i]).0 == Ok(results[i])
             && results[i].root == TreeOf(before, treeId).root
      decreases |leaves|
    {
      if leaves != [] {
        var n := |leaves| - 1;
        var init := leaves[..n];
        AppendLeavesResults(roots, treeId, init);
        var results := AppendLeavesOutcome(roots, treeId, leaves).0.value;
        forall i | 0 <= i < |leaves|
          ensures var before := AppendLeavesOutcome(roots, treeId, leaves[..i]).1;
            AppendLeafStep(before, treeId, leaves[i]).0 == Ok(results[i])
            && results[i].root == TreeOf(before, treeId).root
        {
          if i < n {
            assert leaves[..i] == init[..i];
          }
        }
      }
    }

    /** Appending changes no tree other than the target one. */
    lemma {:induction false} AppendLeavesOtherTrees(roots: TreeSnapshots, treeId: MerkleTreeId, leaves: seq<Fr>)
      requires treeId != Archive
      ensures SameTreesExcept(roots, AppendLeavesOutcome(roots, treeId, leaves).1, treeId)
      decreases |leaves|
    {
      if leaves != [] {
        AppendLeavesOtherTrees(roots, treeId, leaves[..|leaves| - 1]);
      }
    }

    /** Appending to any tree other than the note-hash and message trees fails and changes nothing. */
    lemma {:induction false} AppendLeavesUnsupported(roots: TreeSnapshots, treeId: MerkleTreeId, leaves: seq<Fr>)
      requires !AppendSupported(treeId) && leaves != []
      ensures AppendLeavesOutcome(roots, treeId, leaves).0.Err?
      ensures AppendLeavesOutcome(roots, treeId, leaves).1 == roots
      decreases |leaves|
    {
      var init := leaves[..|leaves| - 1];
      if init != [] {
        AppendLeavesUnsupported(roots, treeId, init);
      }
    }
  }
}
