/** From stored commitments to an accepted withdrawal: the SDK's proof
    generation, and the theorem that its proofs are accepted on chain. */
module Withdrawability {
  import opened Outcomes
  import opened MerkleTree
  import opened FieldTerms
  import opened SdkMerkleTree
  import opened RootRing
  import opened CommitmentPages
  import opened PoolState
  import opened PoolSafety

  datatype Note = Note(secret: Field, nullifier: Field, commitment: Field, nullifierHash: Field, depositIndex: int)

  /** A note as `createNote` makes it. */
  predicate Honest(note: Note) {
    && note.commitment == H2(note.secret, note.nullifier)
    && note.nullifierHash == H1(note.nullifier)
  }

  /** What proof generation throws; the prover itself fails on a note that is not well-formed. */
  datatype ProofError = UnsupportedTreeDepth | CommitmentNotFound | TreeRefused(tree: TreeError) | ProverFailed

  datatype GeneratedProof = GeneratedProof(proof: Proof, root: Field, nullifierHash: Field)

  /** The first position of c, or -1. */
  function FirstIndex(commitments: seq<Field>, c: Field): (i: int)
    ensures c in commitments ==> 0 <= i < |commitments| && commitments[i] == c
    ensures forall j :: 0 <= j < i < |commitments| ==> commitments[j] != c
    ensures c !in commitments ==> i == -1
  {
    if commitments == [] then -1
    else if commitments[0] == c then 0
    else
      var rest := FirstIndex(commitments[1..], c);
      if rest == -1 then -1 else rest + 1
  }

  /** The hinted position when it is right, else the first one, or -1. */
  function FindCommitmentIndex(commitments: seq<Field>, c: Field, hint: int): (i: int)
    ensures c in commitments ==> 0 <= i < |commitments| && commitments[i] == c
    ensures i == hint || forall j :: 0 <= j < i < |commitments| ==> commitments[j] != c
    ensures 0 <= hint < |commitments| && commitments[hint] == c ==> i == hint
    ensures c !in commitments ==> i == -1
  {
    if 0 <= hint < |commitments| && commitments[hint] == c then hint
    else FirstIndex(commitments, c)
  }

  lemma {:induction false} FoldIsInjective(a: Field, b: Field, siblings: seq<Field>, bits: seq<nat>)
    requires |siblings| == |bits|
    requires Fold(Compress, a, siblings, bits) == Fold(Compress, b, siblings, bits)
    ensures a == b
    decreases |bits|
  {
    if siblings != [] {
      var top := |siblings| - 1;
      FoldIsInjective(a, b, siblings[..top], bits[..top]);
    }
  }

  /** Proof generation succeeds exactly for an honest note whose commitment is
      stored, and then yields a proof about the root of the stored list. */
  method GenerateWithdrawProof(note: Note, commitments: seq<Field>, recipient: Key, treeDepth: nat)
    returns (r: Result<GeneratedProof, ProofError>)
    ensures r.Ok? <==>
      && ValidTreeDepth(treeDepth) && note.commitment in commitments
      && |commitments| <= Pow2(treeDepth) && Honest(note)
    ensures r.Ok? ==> ProvesWithdrawal(r.value, note, commitments, recipient, treeDepth)
    ensures r == Err(UnsupportedTreeDepth) <==> !ValidTreeDepth(treeDepth)
    ensures r == Err(CommitmentNotFound) <==> ValidTreeDepth(treeDepth) && note.commitment !in commitments
    ensures r == Err(TreeRefused(TreeError.PoolFull)) <==>
      ValidTreeDepth(treeDepth) && note.commitment in commitments && |commitments| > Pow2(treeDepth)
    ensures r.Err? ==> !r.error.TreeRefused? || r.error.tree == TreeError.PoolFull
  {
    if treeDepth != LEGACY_TREE_DEPTH && treeDepth != MAX_TREE_DEPTH {
      return Err(UnsupportedTreeDepth);
    }
    var index := FindCommitmentIndex(commitments, note.commitment, note.depositIndex);
    if index == -1 {
      return Err(CommitmentNotFound);
    }
    var built := BuildTreeFromCommitments(Compress, Zero, commitments, c => c, treeDepth);
    if built.Err? {
      return Err(TreeRefused(built.error));
    }
    var tree := built.value;
    assert tree.leaves == commitments;
    var root := tree.GetRoot();
    var path := tree.GetProof(index);
    var statement := PublicInputs(root.value, note.nullifierHash, RecipientInput(recipient));
    var wit := Witness(note.secret, note.nullifier, path.value.siblings, path.value.bits);
    if Fold(Compress, H2(note.secret, note.nullifier), wit.siblings, wit.bits) == root.value {
      FoldIsInjective(H2(note.secret, note.nullifier), note.commitment, wit.siblings, wit.bits);
    }
    // the prover succeeds exactly when the witness satisfies the circuit
    if !Relation(treeDepth, statement, wit) {
      return Err(ProverFailed);
    }
    r := Ok(GeneratedProof(Proof(statement, wit), root.value, note.nullifierHash));
  }

  predicate ProvesWithdrawal(g: GeneratedProof, note: Note, commitments: seq<Field>, recipient: Key, treeDepth: nat) {
    && g.root == Root(Compress, Zero, commitments, treeDepth)
    && g.nullifierHash == note.nullifierHash
    && Verifies(treeDepth, g.proof, PublicInputs(g.root, g.nullifierHash, RecipientInput(recipient)))
  }

  /** The commitments the SDK reads from a pool. */
  function StoredCommitments(w: World): seq<Field> {
    FetchCommitments(Zero, w.pool.kind == Legacy, w.pool.commitments, w.pool.nextIndex, w.pages)
  }

  lemma StoredCommitmentsAreLeaves(w: World, leaves: seq<Field>)
    requires Inv(w, leaves)
    ensures StoredCommitments(w) == leaves
  {
    if w.pool.kind != Legacy {
      FetchRoundTrip(Zero, w.pool.key, w.pages, 0, leaves);
      assert leaves[..0] == [];
    }
  }

  /** A withdrawal of a generated proof that the signers and fees allow. */
  predicate WellFormedCall(p: Pool, a: WithdrawArgs) {
    && a.relayer != Some(p.vault)
    && SplitFor(p, a).Ok?
    && (p.kind == FeeV2 ==> a.treasury == p.treasury)
  }

  lemma RootStillKnown(w: World, before: seq<Field>, since: seq<Field>)
    requires Configured(w.pool) && TreeHolds(w.pool, before + since) && before != []
    ensures Known(w.pool.roots, w.pool.rootCount, Root(Compress, Zero, before, w.pool.treeDepth))
       <==> |since| < ROOT_HISTORY_SIZE
  {
    CompressIsCollisionFree();
    assert (before + since)[..|before|] == before;
    AcceptedIffFewerThanThirtyFollow(Compress, Zero, before + since, w.pool.treeDepth, w.pool.roots, |before|);
  }

  /** With an unspent nullifier, a proof over the leaves of an earlier state is
      accepted and paid exactly while fewer than thirty deposits followed. */
  lemma AcceptedIffRecent(w: World, before: seq<Field>, since: seq<Field>, note: Note, g: GeneratedProof, a: WithdrawArgs)
    requires Inv(w, before + since)
    requires Honest(note) && note.nullifier != Zero && note.commitment in before
    requires ProvesWithdrawal(g, note, before, a.recipient, w.pool.treeDepth)
    requires a.proof == g.proof && a.root == g.root && a.nullifierHash == g.nullifierHash
    requires WellFormedCall(w.pool, a)
    requires note.nullifierHash !in SpentNullifiers(w)
    ensures Withdraw(w, a).Ok? <==> |since| < ROOT_HISTORY_SIZE
  {
    RootStillKnown(w, before, since);
    WithdrawIsPayable(w, before + since, a);
  }

  /** The same after any further run that leaves the note unspent. */
  lemma AcceptedAfter(
      w: World, leaves: seq<Field>, later: seq<Instruction>, note: Note, g: GeneratedProof, a: WithdrawArgs)
    requires Inv(w, leaves)
    requires Honest(note) && note.nullifier != Zero && note.commitment in leaves
    requires ProvesWithdrawal(g, note, leaves, a.recipient, w.pool.treeDepth)
    requires a.proof == g.proof && a.root == g.root && a.nullifierHash == g.nullifierHash
    requires WellFormedCall(Run(w, later).pool, a)
    requires note.nullifierHash !in SpentNullifiers(Run(w, later))
    ensures Withdraw(Run(w, later), a).Ok? <==> |Deposited(w, later)| < ROOT_HISTORY_SIZE
  {
    RunKeeps(w, leaves, later);
    RunFixesConfiguration(w, later);
    AcceptedIffRecent(Run(w, later), leaves, Deposited(w, later), note, g, a);
  }

  /** The client's whole way, from a reachable pool to a withdrawal in hand: it
      reads the commitments, generates the proof and fills in the instruction. The
      program accepts that now, and after every further run that leaves the note
      unspent and the call well-formed, exactly while fewer than thirty deposits
      followed. */
  method PrepareWithdrawal(w: World, ghost leaves: seq<Field>, note: Note, recipient: Key, relayer: Option<Key>, relayerFee: nat)
    returns (a: WithdrawArgs)
    requires Inv(w, leaves)
    requires Honest(note) && note.nullifier != Zero && note.commitment in leaves
    requires note.nullifierHash !in SpentNullifiers(w)
    ensures a.recipient == recipient && a.relayer == relayer && a.relayerFee == relayerFee
    ensures a.nullifierHash == note.nullifierHash && a.treasury == w.pool.treasury
    ensures Withdraw(w, a).Ok? <==> WellFormedCall(w.pool, a)
    ensures forall later: seq<Instruction> ::
      WellFormedCall(Run(w, later).pool, a) && note.nullifierHash !in SpentNullifiers(Run(w, later)) ==>
        (Withdraw(Run(w, later), a).Ok? <==> |Deposited(w, later)| < ROOT_HISTORY_SIZE)
  {
    StoredCommitmentsAreLeaves(w, leaves);
    var generated := GenerateWithdrawProof(note, StoredCommitments(w), recipient, w.pool.treeDepth);
    var g := generated.value;
    a := WithdrawArgs(g.proof, g.root, g.nullifierHash, recipient, relayer, relayerFee, w.pool.treasury);
    if WellFormedCall(w.pool, a) {
      AcceptedAfter(w, leaves, [], note, g, a);
    } else {
      AuthorizedIff(w, a);
    }
    forall later: seq<Instruction> |
      WellFormedCall(Run(w, later).pool, a) && note.nullifierHash !in SpentNullifiers(Run(w, later))
      ensures Withdraw(Run(w, later), a).Ok? <==> |Deposited(w, later)| < ROOT_HISTORY_SIZE
    {
      AcceptedAfter(w, leaves, later, note, g, a);
    }
  }

  /** End to end, over every run. Take any initialized pool, any run, a deposited
      note with a nonzero nullifier, and a proof generated from what the SDK
      reads at that point. After any further run that leaves the note unspent,
      the program accepts and pays the withdrawal exactly while fewer than
      thirty deposits followed. */
  lemma EndToEnd(
      kind: Kind, key: Key, vault: Key, authority: Key, treasury: Key,
      depositAmount: nat, treeDepth: nat, protocolFeeBps: nat, lamports: map<Key, nat>,
      earlier: seq<Instruction>, later: seq<Instruction>, note: Note, g: GeneratedProof, a: WithdrawArgs)
    requires key != NO_POOL
    requires Initialize(kind, key, vault, authority, treasury, depositAmount, treeDepth, protocolFeeBps).Ok?
    requires var w0 := NewWorld(Initialize(kind, key, vault, authority, treasury, depositAmount, treeDepth, protocolFeeBps).value, lamports);
             var w1 := Run(w0, earlier);
             var w2 := Run(w1, later);
             && Honest(note) && note.nullifier != Zero && note.commitment in Deposited(w0, earlier)
             && ProvesWithdrawal(g, note, StoredCommitments(w1), a.recipient, w1.pool.treeDepth)
             && a.proof == g.proof && a.root == g.root && a.nullifierHash == g.nullifierHash
             && WellFormedCall(w2.pool, a)
             && note.nullifierHash !in SpentNullifiers(w2)
    ensures var w0 := NewWorld(Initialize(kind, key, vault, authority, treasury, depositAmount, treeDepth, protocolFeeBps).value, lamports);
            var w1 := Run(w0, earlier);
            Withdraw(Run(w1, later), a).Ok? <==> |Deposited(w1, later)| < ROOT_HISTORY_SIZE
  {
    InitializeEstablishes(kind, key, vault, authority, treasury, depositAmount, treeDepth, protocolFeeBps, lamports);
    var w0 := NewWorld(Initialize(kind, key, vault, authority, treasury, depositAmount, treeDepth, protocolFeeBps).value, lamports);
    var w1 := Run(w0, earlier);
    var before := [] + Deposited(w0, earlier);
    RunKeeps(w0, [], earlier);
    RunKeeps(w1, before, later);
    RunFixesConfiguration(w1, later);
    StoredCommitmentsAreLeaves(w1, before);
    AcceptedIffRecent(Run(w1, later), before, Deposited(w1, later), note, g, a);
  }
}
