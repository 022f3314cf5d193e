/** The privacy pool program: its account data, its instructions as functions
    on that data, and runs of instructions. */
module PoolState {
  import opened Outcomes
  import opened MerkleTree
  import opened FieldTerms
  import opened IncrementalTree
  import opened RootRing
  import opened CommitmentPages
  import opened Fees

  const LEGACY_TREE_DEPTH := 10
  const MAX_TREE_DEPTH := 20
  const NULLIFIER_VERSION_LEGACY := 0
  const NULLIFIER_VERSION_PDA := 1

  /** A 256-bit public key, read as a big-endian number. */
  type Key = nat

  datatype Kind = Legacy | V2 | FeeV2

  datatype PoolError =
    | PoolFull
    | InvalidProof
    | InvalidRoot
    | AlreadyWithdrawn
    | NullifierAccountInUse
    | InvalidTreeDepth
    | InvalidDepositAmount
    | ProtocolFeeBpsTooHigh
    | InvalidCommitment
    | InvalidCommitmentPage
    | ZeroNullifierNote
    | UnsupportedNullifierVersion
    | InvalidTreasury
    | FeeProblem(fee: FeeError)
    | InsufficientFunds
    | MissingSignature
    | UnauthorizedTreasuryUpdate

  datatype Pool = Pool(
    kind: Kind,
    key: Key,
    vault: Key,
    authority: Key,
    treasury: Key,
    depositAmount: nat,
    protocolFeeBps: nat,
    nextIndex: nat,
    nullifierCount: nat,
    nullifierVersion: nat,
    treeDepth: nat,
    rootCount: nat,
    roots: seq<Field>,
    filledSubtrees: seq<Field>,
    commitments: seq<Field>,
    usedNullifiers: seq<Field>)

  /** The pool account with everything on chain that its instructions touch. */
  datatype World = World(
    pool: Pool,
    pages: map<nat, Page<Field>>,
    nullifierRecords: set<Field>,
    lamports: map<Key, nat>)

  // ---------- well-formed account data ----------

  predicate Sized(p: Pool) {
    && |p.roots| == ROOT_HISTORY_SIZE
    && p.treeDepth <= |p.filledSubtrees|
  }

  predicate SizedWorld(w: World) {
    && Sized(w.pool)
    && forall i <- w.pages :: |w.pages[i].commitments| == COMMITMENT_PAGE_CAPACITY
  }

  function SpentNullifiers(w: World): set<Field> {
    if w.pool.kind == Legacy then set x | x in w.pool.usedNullifiers
    else w.nullifierRecords
  }

  // ---------- balances ----------

  function Balance(lamports: map<Key, nat>, k: Key): nat {
    if k in lamports then lamports[k] else 0
  }

  function Transfer(lamports: map<Key, nat>, from: Key, to: Key, amount: nat): Option<map<Key, nat>> {
    if Balance(lamports, from) < amount then None
    else
      var debited := lamports[from := Balance(lamports, from) - amount];
      Some(debited[to := Balance(debited, to) + amount])
  }

  datatype Payment = Payment(to: Key, amount: nat)

  function PayAll(lamports: map<Key, nat>, from: Key, payments: seq<Payment>): Option<map<Key, nat>>
    decreases |payments|
  {
    if payments == [] then Some(lamports)
    else
      match Transfer(lamports, from, payments[0].to, payments[0].amount)
      case None => None
      case Some(next) => PayAll(next, from, payments[1..])
  }

  // ---------- initialize ----------

  predicate ValidTreeDepth(depth: nat) {
    depth == 10 || depth == 20
  }

  function PaddedZeroSubtrees(depth: nat, size: nat): (s: seq<Field>)
    ensures |s| == if depth <= size then size else depth
  {
    ZeroHashes(Compress, Zero, depth) + (if depth <= size then seq(size - depth, _ => Zero) else [])
  }

  function Initialize(
      kind: Kind, key: Key, vault: Key, authority: Key, treasury: Key,
      depositAmount: nat, treeDepth: nat, protocolFeeBps: nat): (r: Result<Pool, PoolError>)
    ensures r.Ok? ==> Sized(r.value)
  {
    var depth := if kind == Legacy then LEGACY_TREE_DEPTH else treeDepth;
    if kind != Legacy && !ValidTreeDepth(treeDepth) then Err(InvalidTreeDepth)
    else if !ValidDenomination(depositAmount) then Err(InvalidDepositAmount)
    else if kind == FeeV2 && protocolFeeBps > MAX_PROTOCOL_FEE_BPS then Err(ProtocolFeeBpsTooHigh)
    else Ok(Pool(
      kind, key, vault, authority,
      if kind == FeeV2 then treasury else 0,
      depositAmount,
      if kind == FeeV2 then protocolFeeBps else 0,
      0, 0,
      if kind == Legacy then NULLIFIER_VERSION_LEGACY else NULLIFIER_VERSION_PDA,
      depth,
      0,
      seq(ROOT_HISTORY_SIZE, _ => Zero),
      PaddedZeroSubtrees(depth, if kind == Legacy then LEGACY_TREE_DEPTH else MAX_TREE_DEPTH),
      [], []))
  }

  // ---------- deposit ----------

  /** The tree part shared by every append. */
  function PushLeaf(p: Pool, c: Field): (next: Pool)
    requires Sized(p)
    ensures Sized(next)
  {
    var inserted := Insert(Compress, ZeroHashes(Compress, Zero, p.treeDepth), p.filledSubtrees, p.nextIndex, c);
    p.(filledSubtrees := inserted.filled,
       roots := Push(p.roots, p.rootCount, inserted.root),
       rootCount := p.rootCount + 1,
       nextIndex := p.nextIndex + 1)
  }

  function AppendLegacy(p: Pool, c: Field): (r: Result<Pool, PoolError>)
    requires Sized(p)
    ensures r.Ok? ==> Sized(r.value)
  {
    if p.nextIndex >= Pow2(LEGACY_TREE_DEPTH) then Err(PoolFull)
    else Ok(PushLeaf(p.(commitments := p.commitments + [c]), c))
  }

  function AppendPaged(p: Pool, page: Page<Field>, pageIndex: nat, c: Field): (r: Result<(Pool, Page<Field>), PoolError>)
    requires Sized(p) && |page.commitments| == COMMITMENT_PAGE_CAPACITY
    ensures r.Ok? ==> Sized(r.value.0) && |r.value.1.commitments| == COMMITMENT_PAGE_CAPACITY
  {
    if !ValidTreeDepth(p.treeDepth) then Err(InvalidTreeDepth)
    else if p.nextIndex >= Pow2(p.treeDepth) then Err(PoolFull)
    else if pageIndex != ExpectedPageIndex(p.nextIndex) then Err(InvalidCommitmentPage)
    else
      match AppendToPage(Zero, page, p.key, pageIndex, ExpectedPageOffset(p.nextIndex), c)
      case None => Err(InvalidCommitmentPage)
      case Some(next) => Ok((PushLeaf(p, c), next))
  }

  function Deposit(w: World, depositor: Key, c: Field, pageIndex: nat): (r: Result<World, PoolError>)
    requires SizedWorld(w)
    ensures r.Ok? ==> SizedWorld(r.value)
  {
    if depositor == w.pool.vault then Err(MissingSignature)
    else if c == Zero then Err(InvalidCommitment)
    else
      match Transfer(w.lamports, depositor, w.pool.vault, w.pool.depositAmount)
      case None => Err(InsufficientFunds)
      case Some(paid) =>
        if w.pool.kind == Legacy then
          match AppendLegacy(w.pool, c)
          case Err(e) => Err(e)
          case Ok(p) => Ok(w.(pool := p, lamports := paid))
        else
          var page := if pageIndex in w.pages then w.pages[pageIndex] else NewPage(Zero);
          match AppendPaged(w.pool, page, pageIndex, c)
          case Err(e) => Err(e)
          case Ok((p, next)) => Ok(w.(pool := p, pages := w.pages[pageIndex := next], lamports := paid))
  }

  // ---------- withdraw ----------

  /** The first 31 bytes of a key, as a field element. */
  function RecipientInput(recipient: Key): Field {
    Const(recipient / 256)
  }

  datatype Witness = Witness(secret: Field, nullifier: Field, siblings: seq<Field>, bits: seq<nat>)

  datatype PublicInputs = PublicInputs(root: Field, nullifierHash: Field, recipient: Field)

  /** A proof of the ideal proof system: the statement and a witness for it. */
  datatype Proof = Proof(statement: PublicInputs, evidence: Witness)

  /** The relation of the withdrawal circuit of a given depth. */
  predicate Relation(depth: nat, x: PublicInputs, wit: Witness) {
    && |wit.siblings| == |wit.bits| == depth
    && H1(wit.nullifier) == x.nullifierHash
    && Fold(Compress, H2(wit.secret, wit.nullifier), wit.siblings, wit.bits) == x.root
  }

  /** The ideal verifier. */
  predicate Verifies(depth: nat, proof: Proof, x: PublicInputs) {
    proof.statement == x && Relation(depth, x, proof.evidence)
  }

  datatype WithdrawArgs = WithdrawArgs(
    proof: Proof,
    root: Field,
    nullifierHash: Field,
    recipient: Key,
    relayer: Option<Key>,
    relayerFee: nat,
    treasury: Key)

  function VerifyWithdraw(w: World, a: WithdrawArgs): Result<(), PoolError>
    requires Sized(w.pool)
  {
    var p := w.pool;
    var x := PublicInputs(a.root, a.nullifierHash, RecipientInput(a.recipient));
    if p.kind != Legacy && p.nullifierVersion != NULLIFIER_VERSION_PDA then Err(UnsupportedNullifierVersion)
    else if a.nullifierHash == H1(Zero) then Err(ZeroNullifierNote)
    else if !Known(p.roots, p.rootCount, a.root) then Err(InvalidRoot)
    else if p.kind == Legacy && a.nullifierHash in p.usedNullifiers then Err(AlreadyWithdrawn)
    else if !Verifies(p.treeDepth, a.proof, x) then Err(InvalidProof)
    else Ok(())
  }

  function RelayerFeeOf(a: WithdrawArgs): nat {
    if a.relayer.Some? then a.relayerFee else 0
  }

  /** The split a withdrawal pays. */
  function SplitFor(p: Pool, a: WithdrawArgs): Result<Split, FeeError> {
    if p.kind == FeeV2 then FeePoolSplit(p.depositAmount, p.protocolFeeBps, RelayerFeeOf(a))
    else PlainPoolSplit(p.depositAmount, RelayerFeeOf(a))
  }

  /** The transfers that pay a split, in the program's order. */
  function PaymentsFor(p: Pool, a: WithdrawArgs, s: Split): seq<Payment> {
    if p.kind == FeeV2 then
      (if s.protocolFee > 0 then [Payment(p.treasury, s.protocolFee)] else [])
      + (if a.relayer.Some? && s.relayerFee > 0 then [Payment(a.relayer.value, s.relayerFee)] else [])
      + [Payment(a.recipient, s.recipientAmount)]
    else
      [Payment(a.recipient, s.recipientAmount)]
      + (if a.relayer.Some? then [Payment(a.relayer.value, s.relayerFee)] else [])
  }

  function RecordNullifier(w: World, nullifierHash: Field): World {
    if w.pool.kind == Legacy then
      w.(pool := w.pool.(usedNullifiers := w.pool.usedNullifiers + [nullifierHash],
                         nullifierCount := w.pool.nullifierCount + 1))
    else
      w.(pool := w.pool.(nullifierCount := w.pool.nullifierCount + 1),
         nullifierRecords := w.nullifierRecords + {nullifierHash})
  }

  /** Every check a withdrawal passes before the vault is touched. */
  function Authorize(w: World, a: WithdrawArgs): Result<Split, PoolError>
    requires SizedWorld(w)
  {
    var p := w.pool;
    if a.relayer == Some(p.vault) then Err(MissingSignature)
    else if p.kind != Legacy && a.nullifierHash in w.nullifierRecords then Err(NullifierAccountInUse)
    else if p.kind == FeeV2 && a.treasury != p.treasury then Err(InvalidTreasury)
    else if p.kind == FeeV2 && SplitFor(p, a).Err? then Err(FeeProblem(SplitFor(p, a).error))
    else match VerifyWithdraw(w, a)
      case Err(e) => Err(e)
      case Ok(_) =>
        match SplitFor(p, a)
        case Err(e) => Err(FeeProblem(e))
        case Ok(split) => Ok(split)
  }

  function Withdraw(w: World, a: WithdrawArgs): (r: Result<World, PoolError>)
    requires SizedWorld(w)
    ensures r.Ok? ==> SizedWorld(r.value)
  {
    match Authorize(w, a)
    case Err(e) => Err(e)
    case Ok(split) =>
      match PayAll(w.lamports, w.pool.vault, PaymentsFor(w.pool, a, split))
      case None => Err(InsufficientFunds)
      case Some(paid) => Ok(RecordNullifier(w, a.nullifierHash).(lamports := paid))
  }

  // ---------- runs ----------

  function UpdateTreasury(w: World, signer: Key, newTreasury: Key): (r: Result<World, PoolError>)
    ensures r.Ok? && SizedWorld(w) ==> SizedWorld(r.value)
  {
    if w.pool.kind != FeeV2 || signer != w.pool.authority then Err(UnauthorizedTreasuryUpdate)
    else Ok(w.(pool := w.pool.(treasury := newTreasury)))
  }

  datatype Instruction =
    | DepositIx(depositor: Key, commitment: Field, pageIndex: nat)
    | WithdrawIx(args: WithdrawArgs)
    | UpdateTreasuryIx(signer: Key, newTreasury: Key)
    // lamports that arrive at some account, the vault included, from elsewhere
    | ReceiveIx(account: Key, amount: nat)
    // a transfer signed by some other account
    | TransferIx(from: Key, to: Key, amount: nat)

  function Execute(w: World, ix: Instruction): (r: Result<World, PoolError>)
    requires SizedWorld(w)
    ensures r.Ok? ==> SizedWorld(r.value)
  {
    match ix
    case DepositIx(depositor, c, pageIndex) => Deposit(w, depositor, c, pageIndex)
    case WithdrawIx(a) => Withdraw(w, a)
    case UpdateTreasuryIx(signer, t) => UpdateTreasury(w, signer, t)
    case ReceiveIx(account, amount) => Ok(w.(lamports := w.lamports[account := Balance(w.lamports, account) + amount]))
    case TransferIx(from, to, amount) =>
      if from == w.pool.vault then Err(MissingSignature)
      else match Transfer(w.lamports, from, to, amount)
        case None => Err(InsufficientFunds)
        case Some(paid) => Ok(w.(lamports := paid))
  }

  /** A failing instruction leaves no trace. */
  function Next(w: World, ix: Instruction): (next: World)
    requires SizedWorld(w)
    ensures SizedWorld(next)
  {
    match Execute(w, ix)
    case Ok(next) => next
    case Err(_) => w
  }

  function Run(w: World, ixs: seq<Instruction>): (last: World)
    requires SizedWorld(w)
    ensures SizedWorld(last)
    decreases |ixs|
  {
    if ixs == [] then w else Run(Next(w, ixs[0]), ixs[1..])
  }

  /** The commitments of the accepted deposits of a run, in order. */
  function Deposited(w: World, ixs: seq<Instruction>): seq<Field>
    requires SizedWorld(w)
    decreases |ixs|
  {
    if ixs == [] then []
    else
      (if ixs[0].DepositIx? && Execute(w, ixs[0]).Ok? then [ixs[0].commitment] else [])
      + Deposited(Next(w, ixs[0]), ixs[1..])
  }
}
