/** Invariants of every run of the pool, solvency and single spending. */
module PoolSafety {
  import opened Outcomes
  import opened MerkleTree
  import opened FieldTerms
  import opened IncrementalTree
  import opened RootRing
  import opened CommitmentPages
  import opened Fees
  import opened PoolState

  // ---------- the invariant ----------

  /** The nullifier hashes that belong to well-formed notes among the leaves. */
  function NullifierHashes(leaves: seq<Field>): (s: set<Field>)
    ensures |s| <= |leaves|
    ensures forall x :: x in s <==> exists i :: 0 <= i < |leaves| && leaves[i].H2? && x == H1(leaves[i].r)
  {
    if leaves == [] then {}
    else
      var last := |leaves| - 1;
      assert forall i :: 0 <= i < last ==> leaves[..last][i] == leaves[i];
      NullifierHashes(leaves[..last]) + (if leaves[last].H2? then {H1(leaves[last].r)} else {})
  }

  /** n denominations. */
  function Owed(d: nat, n: nat): nat {
    if n == 0 then 0 else d + Owed(d, n - 1)
  }

  lemma {:induction false} OwedIsProduct(d: nat, n: nat)
    ensures Owed(d, n) == d * n
  {
    if n > 0 {
      OwedIsProduct(d, n - 1);
      assert d * n == d * (n - 1) + d;
    }
  }

  lemma {:induction false} OwedIsMonotone(d: nat, m: nat, n: nat)
    requires m <= n
    ensures Owed(d, m) <= Owed(d, n)
  {
    if m < n {
      OwedIsMonotone(d, m, n - 1);
    }
  }

  predicate Configured(p: Pool) {
    && p.key != NO_POOL
    && ValidDenomination(p.depositAmount)
    && p.protocolFeeBps <= MAX_PROTOCOL_FEE_BPS
    && ValidTreeDepth(p.treeDepth)
    && (p.kind == Legacy ==> p.treeDepth == LEGACY_TREE_DEPTH)
    && (p.kind != Legacy ==> p.nullifierVersion == NULLIFIER_VERSION_PDA)
  }

  /** The tree and the ring agree with the list of all deposited leaves. */
  ghost predicate TreeHolds(p: Pool, leaves: seq<Field>) {
    && Sized(p)
    && p.nextIndex == p.rootCount == |leaves| <= Pow2(p.treeDepth)
    && (forall i :: 0 <= i < |leaves| ==> leaves[i] != Zero)
    && Tracks(Compress, Zero, leaves, p.filledSubtrees, p.treeDepth)
    && Holds(Zero, p.roots, p.rootCount, RootsOf(Compress, Zero, leaves, p.treeDepth))
  }

  ghost predicate StorageHolds(w: World, leaves: seq<Field>) {
    && SizedWorld(w)
    && if w.pool.kind == Legacy then w.pool.commitments == leaves
       else w.pool.commitments == [] && Stores(w.pool.key, w.pages, 0, leaves)
  }

  /** Spent nullifiers are those of deposited notes, each counted once, and the
      vault covers every deposit that has not been withdrawn. */
  ghost predicate AccountingHolds(w: World, leaves: seq<Field>) {
    && SpentNullifiers(w) <= NullifierHashes(leaves)
    && w.pool.nullifierCount == |SpentNullifiers(w)|
    && Balance(w.lamports, w.pool.vault) + Owed(w.pool.depositAmount, w.pool.nullifierCount) >= Owed(w.pool.depositAmount, |leaves|)
  }

  ghost predicate Inv(w: World, leaves: seq<Field>) {
    && Configured(w.pool)
    && TreeHolds(w.pool, leaves)
    && StorageHolds(w, leaves)
    && AccountingHolds(w, leaves)
  }

  // ---------- initialize ----------

  function NewWorld(p: Pool, lamports: map<Key, nat>): World {
    World(p, map[], {}, lamports)
  }

  lemma InitializeEstablishes(
      kind: Kind, key: Key, vault: Key, authority: Key, treasury: Key,
      depositAmount: nat, treeDepth: nat, protocolFeeBps: nat, lamports: map<Key, nat>)
    requires key != NO_POOL
    requires Initialize(kind, key, vault, authority, treasury, depositAmount, treeDepth, protocolFeeBps).Ok?
    ensures Inv(NewWorld(Initialize(kind, key, vault, authority, treasury, depositAmount, treeDepth, protocolFeeBps).value, lamports), [])
  {
    var p := Initialize(kind, key, vault, authority, treasury, depositAmount, treeDepth, protocolFeeBps).value;
    var w := NewWorld(p, lamports);
    NoPagesYet<Field>(key, []);
    assert SpentNullifiers(w) == {};
  }

  /** A pool can be created exactly with a supported depth, a denomination that
      clients can represent, and a rate within the maximum. */
  lemma InitializeAcceptedIff(
      kind: Kind, key: Key, vault: Key, authority: Key, treasury: Key,
      depositAmount: nat, treeDepth: nat, protocolFeeBps: nat)
    ensures Initialize(kind, key, vault, authority, treasury, depositAmount, treeDepth, protocolFeeBps).Ok?
       <==> && (kind == Legacy || treeDepth == 10 || treeDepth == 20)
            && 0 < depositAmount <= 9_007_199_254_740_991
            && (kind == FeeV2 ==> protocolFeeBps <= 500)
  {
  }

  /** A new pool has the authority, denomination and depth it was given, a
      fee-capable one its treasury and rate; nothing is deposited or spent. */
  lemma InitializedAsGiven(
      kind: Kind, key: Key, vault: Key, authority: Key, treasury: Key,
      depositAmount: nat, treeDepth: nat, protocolFeeBps: nat)
    requires Initialize(kind, key, vault, authority, treasury, depositAmount, treeDepth, protocolFeeBps).Ok?
    ensures var p := Initialize(kind, key, vault, authority, treasury, depositAmount, treeDepth, protocolFeeBps).value;
            && p.kind == kind && p.key == key && p.vault == vault && p.authority == authority
            && p.depositAmount == depositAmount
            && p.treeDepth == (if kind == Legacy then 10 else treeDepth)
            && (kind == FeeV2 ==> p.treasury == treasury && p.protocolFeeBps == protocolFeeBps)
            && (kind != FeeV2 ==> p.protocolFeeBps == 0)
            && p.nullifierVersion == (if kind == Legacy then 0 else 1)
            && p.nextIndex == p.rootCount == p.nullifierCount == 0
            && p.commitments == [] && p.usedNullifiers == []
            && (forall i :: 0 <= i < |p.roots| ==> p.roots[i] == Zero)
            && |p.filledSubtrees| == (if kind == Legacy then 10 else 20)
            && (forall l :: 0 <= l < p.treeDepth ==> p.filledSubtrees[l] == ZeroAt(Compress, Zero, l))
            && (forall l :: p.treeDepth <= l < |p.filledSubtrees| ==> p.filledSubtrees[l] == Zero)
  {
  }

  // ---------- deposit ----------

  lemma PushLeafHolds(p: Pool, leaves: seq<Field>, c: Field)
    requires TreeHolds(p, leaves) && |leaves| < Pow2(p.treeDepth) && c != Zero
    ensures TreeHolds(PushLeaf(p, c), leaves + [c])
  {
    var depth := p.treeDepth;
    InsertRefinesRebuild(Compress, Zero, leaves, c, p.filledSubtrees, depth);
    var inserted := Insert(Compress, ZeroHashes(Compress, Zero, depth), p.filledSubtrees, |leaves|, c);
    PushHolds(Zero, p.roots, p.rootCount, RootsOf(Compress, Zero, leaves, depth), inserted.root);
    RootsOfGrows(Compress, Zero, leaves, c, depth);
  }

  lemma NullifierHashesGrow(leaves: seq<Field>, c: Field)
    ensures NullifierHashes(leaves) <= NullifierHashes(leaves + [c])
  {
    assert (leaves + [c])[..|leaves|] == leaves;
  }

  lemma DepositKeepsTree(w: World, leaves: seq<Field>, depositor: Key, c: Field, pageIndex: nat)
    requires SizedWorld(w) && Configured(w.pool) && TreeHolds(w.pool, leaves)
    requires Deposit(w, depositor, c, pageIndex).Ok?
    ensures TreeHolds(Deposit(w, depositor, c, pageIndex).value.pool, leaves + [c])
  {
    PushLeafHolds(if w.pool.kind == Legacy then w.pool.(commitments := w.pool.commitments + [c]) else w.pool, leaves, c);
  }

  lemma DepositKeepsConfiguration(w: World, depositor: Key, c: Field, pageIndex: nat)
    requires SizedWorld(w) && Configured(w.pool)
    requires Deposit(w, depositor, c, pageIndex).Ok?
    ensures Configured(Deposit(w, depositor, c, pageIndex).value.pool)
  {
  }

  lemma DepositKeepsStorage(w: World, leaves: seq<Field>, depositor: Key, c: Field, pageIndex: nat)
    requires Configured(w.pool) && StorageHolds(w, leaves) && w.pool.nextIndex == |leaves|
    requires Deposit(w, depositor, c, pageIndex).Ok?
    ensures StorageHolds(Deposit(w, depositor, c, pageIndex).value, leaves + [c])
  {
    if w.pool.kind != Legacy {
      AppendStores(Zero, w.pages, w.pool.key, 0, leaves, pageIndex, c);
    }
  }

  /** One more leaf, one more denomination, no other change to the accounts. */
  lemma AccountingGrows(w: World, next: World, leaves: seq<Field>, c: Field)
    requires AccountingHolds(w, leaves)
    requires SpentNullifiers(next) == SpentNullifiers(w)
    requires next.pool.nullifierCount == w.pool.nullifierCount
    requires next.pool.depositAmount == w.pool.depositAmount
    requires Balance(next.lamports, next.pool.vault) == Balance(w.lamports, w.pool.vault) + w.pool.depositAmount
    ensures AccountingHolds(next, leaves + [c])
  {
    NullifierHashesGrow(leaves, c);
    OneMoreOwed(w.pool.depositAmount, |leaves|);
  }

  lemma DepositKeepsCounters(w: World, depositor: Key, c: Field, pageIndex: nat)
    requires SizedWorld(w) && Deposit(w, depositor, c, pageIndex).Ok?
    ensures var next := Deposit(w, depositor, c, pageIndex).value;
            && next.pool.nullifierCount == w.pool.nullifierCount
            && next.pool.depositAmount == w.pool.depositAmount
            && next.pool.vault == w.pool.vault
  {
  }

  lemma DepositKeepsAccounting(w: World, leaves: seq<Field>, depositor: Key, c: Field, pageIndex: nat)
    requires SizedWorld(w) && AccountingHolds(w, leaves)
    requires Deposit(w, depositor, c, pageIndex).Ok?
    ensures AccountingHolds(Deposit(w, depositor, c, pageIndex).value, leaves + [c])
  {
    DepositMovesOneDenomination(w, depositor, c, pageIndex);
    DepositKeepsCounters(w, depositor, c, pageIndex);
    AccountingGrows(w, Deposit(w, depositor, c, pageIndex).value, leaves, c);
  }

  lemma DepositKeeps(w: World, leaves: seq<Field>, depositor: Key, c: Field, pageIndex: nat)
    requires Inv(w, leaves)
    requires Deposit(w, depositor, c, pageIndex).Ok?
    ensures Inv(Deposit(w, depositor, c, pageIndex).value, leaves + [c])
  {
    var next := Deposit(w, depositor, c, pageIndex).value;
    assert TreeHolds(next.pool, leaves + [c]) by { DepositKeepsTree(w, leaves, depositor, c, pageIndex); }
    assert StorageHolds(next, leaves + [c]) by { DepositKeepsStorage(w, leaves, depositor, c, pageIndex); }
    assert AccountingHolds(next, leaves + [c]) by { DepositKeepsAccounting(w, leaves, depositor, c, pageIndex); }
    assert Configured(next.pool) by { DepositKeepsConfiguration(w, depositor, c, pageIndex); }
  }

  /** The append to the expected page has a slot for the leaf exactly when the
      tree has room. */
  lemma PagedAppendAcceptedIff(w: World, leaves: seq<Field>, page: Page<Field>, c: Field, pageIndex: nat)
    requires Configured(w.pool) && w.pool.kind != Legacy
    requires StorageHolds(w, leaves) && w.pool.nextIndex == |leaves|
    requires page == if pageIndex in w.pages then w.pages[pageIndex] else NewPage(Zero)
    ensures AppendPaged(w.pool, page, pageIndex, c).Ok?
       <==> |leaves| < Pow2(w.pool.treeDepth) && pageIndex == |leaves| / COMMITMENT_PAGE_CAPACITY
  {
    AppendStores(Zero, w.pages, w.pool.key, 0, leaves, pageIndex, c);
  }

  predicate Payable(w: World, depositor: Key, c: Field) {
    depositor != w.pool.vault && c != Zero && w.pool.depositAmount <= Balance(w.lamports, depositor)
  }

  lemma PagedDepositAcceptedIff(w: World, depositor: Key, page: Page<Field>, c: Field, pageIndex: nat)
    requires SizedWorld(w) && w.pool.kind != Legacy
    requires page == if pageIndex in w.pages then w.pages[pageIndex] else NewPage(Zero)
    ensures Deposit(w, depositor, c, pageIndex).Ok?
       <==> Payable(w, depositor, c) && AppendPaged(w.pool, page, pageIndex, c).Ok?
  {
  }

  lemma LegacyDepositAcceptedIff(w: World, depositor: Key, c: Field, pageIndex: nat)
    requires SizedWorld(w) && w.pool.kind == Legacy
    ensures Deposit(w, depositor, c, pageIndex).Ok?
       <==> Payable(w, depositor, c) && w.pool.nextIndex < Pow2(LEGACY_TREE_DEPTH)
  {
  }

  /** A funded, nonzero commitment sent to the expected page is accepted
      exactly while the tree has room. */
  lemma DepositAcceptedIff(w: World, leaves: seq<Field>, depositor: Key, c: Field, pageIndex: nat)
    requires Inv(w, leaves)
    ensures Deposit(w, depositor, c, pageIndex).Ok?
       <==> && depositor != w.pool.vault
            && c != Zero
            && w.pool.depositAmount <= Balance(w.lamports, depositor)
            && |leaves| < Pow2(w.pool.treeDepth)
            && (w.pool.kind == Legacy || pageIndex == |leaves| / COMMITMENT_PAGE_CAPACITY)
  {
    if w.pool.kind == Legacy {
      LegacyDepositAcceptedIff(w, depositor, c, pageIndex);
    } else {
      var page := if pageIndex in w.pages then w.pages[pageIndex] else NewPage(Zero);
      PagedDepositAcceptedIff(w, depositor, page, c, pageIndex);
      PagedAppendAcceptedIff(w, leaves, page, c, pageIndex);
    }
  }

  lemma PagedAppendRefusals(w: World, leaves: seq<Field>, page: Page<Field>, c: Field, pageIndex: nat)
    requires Configured(w.pool) && w.pool.kind != Legacy
    requires StorageHolds(w, leaves) && w.pool.nextIndex == |leaves|
    requires page == if pageIndex in w.pages then w.pages[pageIndex] else NewPage(Zero)
    requires AppendPaged(w.pool, page, pageIndex, c).Err?
    ensures match AppendPaged(w.pool, page, pageIndex, c).error
            case PoolFull => |leaves| >= Pow2(w.pool.treeDepth)
            case InvalidCommitmentPage => pageIndex != |leaves| / COMMITMENT_PAGE_CAPACITY
            case _ => false
  {
    AppendStores(Zero, w.pages, w.pool.key, 0, leaves, pageIndex, c);
  }

  /** Every refusal of a deposit to a reachable pool is for the reason it names. */
  lemma DepositRefusalsAreTrue(w: World, leaves: seq<Field>, depositor: Key, c: Field, pageIndex: nat)
    requires Inv(w, leaves) && Deposit(w, depositor, c, pageIndex).Err?
    ensures match Deposit(w, depositor, c, pageIndex).error
            case MissingSignature => depositor == w.pool.vault
            case InvalidCommitment => c == Zero
            case InsufficientFunds => Balance(w.lamports, depositor) < w.pool.depositAmount
            case PoolFull => |leaves| == Pow2(w.pool.treeDepth)
            case InvalidCommitmentPage => w.pool.kind != Legacy && pageIndex != |leaves| / COMMITMENT_PAGE_CAPACITY
            case _ => false
  {
    if Payable(w, depositor, c) {
      if w.pool.kind == Legacy {
        assert Deposit(w, depositor, c, pageIndex) == Err(PoolFull);
      } else {
        var page := if pageIndex in w.pages then w.pages[pageIndex] else NewPage(Zero);
        PagedDepositError(w, depositor, page, c, pageIndex);
        PagedAppendRefusals(w, leaves, page, c, pageIndex);
      }
    } else {
      UnpayableDeposit(w, depositor, c, pageIndex);
    }
  }

  lemma PagedDepositError(w: World, depositor: Key, page: Page<Field>, c: Field, pageIndex: nat)
    requires SizedWorld(w) && w.pool.kind != Legacy && Payable(w, depositor, c)
    requires page == if pageIndex in w.pages then w.pages[pageIndex] else NewPage(Zero)
    requires Deposit(w, depositor, c, pageIndex).Err?
    ensures AppendPaged(w.pool, page, pageIndex, c).Err?
    ensures Deposit(w, depositor, c, pageIndex).error == AppendPaged(w.pool, page, pageIndex, c).error
  {
  }

  lemma UnpayableDeposit(w: World, depositor: Key, c: Field, pageIndex: nat)
    requires SizedWorld(w) && !Payable(w, depositor, c)
    ensures Deposit(w, depositor, c, pageIndex)
         == Err(if depositor == w.pool.vault then MissingSignature else if c == Zero then InvalidCommitment else InsufficientFunds)
  {
  }

  /** An accepted deposit moves one denomination into the vault, and changes no
      other balance and no nullifier. */
  lemma DepositMovesOneDenomination(w: World, depositor: Key, c: Field, pageIndex: nat)
    requires SizedWorld(w) && Deposit(w, depositor, c, pageIndex).Ok?
    ensures var next := Deposit(w, depositor, c, pageIndex).value;
            && Balance(next.lamports, w.pool.vault) == Balance(w.lamports, w.pool.vault) + w.pool.depositAmount
            && Balance(next.lamports, depositor) == Balance(w.lamports, depositor) - w.pool.depositAmount
            && (forall k | k != depositor && k != w.pool.vault :: Balance(next.lamports, k) == Balance(w.lamports, k))
            && SpentNullifiers(next) == SpentNullifiers(w)
  {
    var next := Deposit(w, depositor, c, pageIndex).value;
    assert Transfer(w.lamports, depositor, w.pool.vault, w.pool.depositAmount) == Some(next.lamports);
  }

  // ---------- payments ----------

  function Total(payments: seq<Payment>): nat
    decreases |payments|
  {
    if payments == [] then 0 else payments[0].amount + Total(payments[1..])
  }

  function PaidTo(payments: seq<Payment>, k: Key): nat
    decreases |payments|
  {
    if payments == [] then 0
    else (if payments[0].to == k then payments[0].amount else 0) + PaidTo(payments[1..], k)
  }

  /** A vault that covers the total pays everything, and every balance moves
      by exactly what it is owed. */
  lemma {:induction false} PayAllPays(lamports: map<Key, nat>, from: Key, payments: seq<Payment>)
    requires Total(payments) <= Balance(lamports, from)
    ensures PayAll(lamports, from, payments).Some?
    ensures var paid := PayAll(lamports, from, payments).value;
            && Balance(paid, from) == Balance(lamports, from) - Total(payments) + PaidTo(payments, from)
            && forall k | k != from :: Balance(paid, k) == Balance(lamports, k) + PaidTo(payments, k)
    decreases |payments|
  {
    if payments != [] {
      var next := Transfer(lamports, from, payments[0].to, payments[0].amount).value;
      PayAllPays(next, from, payments[1..]);
    }
  }

  lemma {:induction false} PayAllSpendsAtMost(lamports: map<Key, nat>, from: Key, payments: seq<Payment>)
    requires PayAll(lamports, from, payments).Some?
    ensures Balance(PayAll(lamports, from, payments).value, from) + Total(payments) >= Balance(lamports, from)
    decreases |payments|
  {
    if payments != [] {
      var next := Transfer(lamports, from, payments[0].to, payments[0].amount).value;
      PayAllSpendsAtMost(next, from, payments[1..]);
    }
  }

  /** Every split of an accepted fee adds up to one denomination. */
  lemma SplitIsDenomination(p: Pool, a: WithdrawArgs)
    requires Configured(p) && SplitFor(p, a).Ok?
    ensures SplitFor(p, a).value.Total() == p.depositAmount
    ensures Total(PaymentsFor(p, a, SplitFor(p, a).value)) == p.depositAmount
  {
    var s := SplitFor(p, a).value;
    var payments := PaymentsFor(p, a, s);
    if p.kind == FeeV2 {
      ProtocolFeeBounds(p.depositAmount, p.protocolFeeBps);
    }
    if |payments| == 1 {
      TotalOf1(payments[0]);
      assert payments == [payments[0]];
    } else if |payments| == 2 {
      TotalOf2(payments[0], payments[1]);
      assert payments == [payments[0], payments[1]];
    } else {
      TotalOf3(payments[0], payments[1], payments[2]);
      assert payments == [payments[0], payments[1], payments[2]];
    }
  }

  lemma TotalOf1(x: Payment)
    ensures Total([x]) == x.amount
  {
    assert [x][1..] == [];
  }

  lemma TotalOf2(x: Payment, y: Payment)
    ensures Total([x, y]) == x.amount + y.amount
  {
    assert [x, y][1..] == [y];
    TotalOf1(y);
  }

  lemma TotalOf3(x: Payment, y: Payment, z: Payment)
    ensures Total([x, y, z]) == x.amount + y.amount + z.amount
  {
    assert [x, y, z][1..] == [y, z];
    TotalOf2(y, z);
  }

  // ---------- withdraw ----------

  /** Binding: whoever passes the root check and the verifier withdraws a note
      that was deposited. */
  lemma VerifiedNoteWasDeposited(w: World, leaves: seq<Field>, a: WithdrawArgs)
    requires Configured(w.pool) && TreeHolds(w.pool, leaves)
    requires VerifyWithdraw(w, a).Ok?
    ensures H2(a.proof.evidence.secret, a.proof.evidence.nullifier) in leaves
    ensures a.nullifierHash in NullifierHashes(leaves)
  {
    var depth := w.pool.treeDepth;
    var wit := a.proof.evidence;
    var leaf := H2(wit.secret, wit.nullifier);
    var history := RootsOf(Compress, Zero, leaves, depth);
    KnownIffRecent(Zero, w.pool.roots, w.pool.rootCount, history, a.root);
    var k :| 0 <= k < |history| && history[k] == a.root;
    CompressIsCollisionFree();
    PathBinds(Compress, Zero, leaves[..k + 1], 0, leaf, wit.siblings, wit.bits);
    var i := Descend(0, wit.bits);
    assert leaf == Padded(Zero, leaves[..k + 1], i);
    assert leaf == leaves[i];
  }

  /** What is left to withdraw is covered. */
  lemma UnspentIsCovered(w: World, leaves: seq<Field>, nullifierHash: Field)
    requires AccountingHolds(w, leaves)
    requires nullifierHash in NullifierHashes(leaves) && nullifierHash !in SpentNullifiers(w)
    ensures w.pool.nullifierCount < |leaves|
    ensures Balance(w.lamports, w.pool.vault) >= w.pool.depositAmount
  {
    SubsetSize(SpentNullifiers(w) + {nullifierHash}, NullifierHashes(leaves));
    OwedIsMonotone(w.pool.depositAmount, w.pool.nullifierCount + 1, |leaves|);
  }

  lemma {:induction false} SubsetSize<T>(a: set<T>, b: set<T>)
    requires a <= b
    ensures |a| <= |b|
  {
    if a != {} {
      var x :| x in a;
      SubsetSize(a - {x}, b - {x});
    }
  }

  lemma RecordedNullifier(w: World, nullifierHash: Field, lamports: map<Key, nat>)
    ensures SpentNullifiers(RecordNullifier(w, nullifierHash).(lamports := lamports)) == SpentNullifiers(w) + {nullifierHash}
  {
  }

  lemma WithdrawKeepsTree(w: World, leaves: seq<Field>, a: WithdrawArgs)
    requires SizedWorld(w) && TreeHolds(w.pool, leaves)
    requires Withdraw(w, a).Ok?
    ensures TreeHolds(Withdraw(w, a).value.pool, leaves)
  {
  }

  /** What an accepted withdrawal does to the accounts. */
  lemma WithdrawEffect(w: World, leaves: seq<Field>, a: WithdrawArgs)
    requires SizedWorld(w) && Configured(w.pool) && TreeHolds(w.pool, leaves)
    requires Withdraw(w, a).Ok?
    ensures var next := Withdraw(w, a).value;
            && a.nullifierHash in NullifierHashes(leaves)
            && a.nullifierHash !in SpentNullifiers(w)
            && SpentNullifiers(next) == SpentNullifiers(w) + {a.nullifierHash}
            && next.pool.nullifierCount == w.pool.nullifierCount + 1
            && next.pool.depositAmount == w.pool.depositAmount
            && next.pool.vault == w.pool.vault
            && Balance(next.lamports, w.pool.vault) + w.pool.depositAmount >= Balance(w.lamports, w.pool.vault)
  {
    var p := w.pool;
    VerifiedNoteWasDeposited(w, leaves, a);
    SplitIsDenomination(p, a);
    PayAllSpendsAtMost(w.lamports, p.vault, PaymentsFor(p, a, SplitFor(p, a).value));
    RecordedNullifier(w, a.nullifierHash, Withdraw(w, a).value.lamports);
  }

  lemma WithdrawKeepsAccounting(w: World, leaves: seq<Field>, a: WithdrawArgs)
    requires SizedWorld(w) && Configured(w.pool) && TreeHolds(w.pool, leaves) && AccountingHolds(w, leaves)
    requires Withdraw(w, a).Ok?
    ensures AccountingHolds(Withdraw(w, a).value, leaves)
  {
    WithdrawEffect(w, leaves, a);
    OneMoreOwed(w.pool.depositAmount, w.pool.nullifierCount);
  }

  lemma OneMoreOwed(d: nat, n: nat)
    ensures Owed(d, n + 1) == d + Owed(d, n)
  {
  }

  lemma WithdrawKeeps(w: World, leaves: seq<Field>, a: WithdrawArgs)
    requires Inv(w, leaves)
    requires Withdraw(w, a).Ok?
    ensures Inv(Withdraw(w, a).value, leaves)
  {
    WithdrawKeepsTree(w, leaves, a);
    WithdrawKeepsAccounting(w, leaves, a);
  }

  /** Every withdrawal that passes its checks is payable in full: the vault
      never runs dry. */
  lemma WithdrawIsPayable(w: World, leaves: seq<Field>, a: WithdrawArgs)
    requires Inv(w, leaves)
    ensures Withdraw(w, a) != Err(InsufficientFunds)
  {
    if Withdraw(w, a) == Err(InsufficientFunds) {
      VerifiedNoteWasDeposited(w, leaves, a);
      UnspentIsCovered(w, leaves, a.nullifierHash);
      SplitIsDenomination(w.pool, a);
      PayAllPays(w.lamports, w.pool.vault, PaymentsFor(w.pool, a, SplitFor(w.pool, a).value));
    }
  }

  /** What an account receives from a split. */
  function Share(p: Pool, a: WithdrawArgs, s: Split, k: Key): nat {
    (if k == a.recipient then s.recipientAmount else 0)
    + (if a.relayer == Some(k) then s.relayerFee else 0)
    + (if p.kind == FeeV2 && k == p.treasury then s.protocolFee else 0)
  }

  lemma PaidToIsShare(p: Pool, a: WithdrawArgs, k: Key)
    requires SplitFor(p, a).Ok?
    ensures var s := SplitFor(p, a).value;
            PaidTo(PaymentsFor(p, a, s), k) == Share(p, a, s, k)
  {
    var s := SplitFor(p, a).value;
    var payments := PaymentsFor(p, a, s);
    if |payments| == 1 {
      assert payments == [payments[0]] && payments[1..] == [];
    } else if |payments| == 2 {
      assert payments[1..] == [payments[1]] && payments[1..][1..] == [];
      assert PaidTo(payments[1..][1..], k) == 0;
    } else {
      assert payments[1..] == [payments[1], payments[2]] && payments[1..][1..] == [payments[2]] && payments[1..][1..][1..] == [];
      assert PaidTo(payments[1..][1..][1..], k) == 0;
      assert PaidTo(payments[1..][1..], k) == (if payments[2].to == k then payments[2].amount else 0);
    }
  }

  /** An accepted withdrawal takes one denomination out of the vault and gives
      the recipient, the relayer and the treasury exactly their shares, and
      nobody else anything; a share whose account is the vault stays there. */
  lemma WithdrawPaysExactly(w: World, leaves: seq<Field>, a: WithdrawArgs)
    requires Inv(w, leaves)
    requires Withdraw(w, a).Ok?
    ensures var p := w.pool;
            var s := SplitFor(p, a).value;
            var after := Withdraw(w, a).value.lamports;
            && s.Total() == p.depositAmount
            && Balance(after, p.vault) == Balance(w.lamports, p.vault) - p.depositAmount + Share(p, a, s, p.vault)
            && forall k | k != p.vault :: Balance(after, k) == Balance(w.lamports, k) + Share(p, a, s, k)
  {
    var p := w.pool;
    var payments := PaymentsFor(p, a, SplitFor(p, a).value);
    assert Total(payments) == p.depositAmount && Total(payments) <= Balance(w.lamports, p.vault) by {
      WithdrawEffect(w, leaves, a);
      UnspentIsCovered(w, leaves, a.nullifierHash);
      SplitIsDenomination(p, a);
    }
    assert SplitFor(p, a).value.Total() == p.depositAmount by {
      SplitIsDenomination(p, a);
    }
    PayAllPays(w.lamports, p.vault, payments);
    forall k ensures PaidTo(payments, k) == Share(p, a, SplitFor(p, a).value, k) {
      PaidToIsShare(p, a, k);
    }
    assert Withdraw(w, a).value.lamports == PayAll(w.lamports, p.vault, payments).value;
  }

  /** The protocol fee of a withdrawal, relayed or direct: the pool's rate of the
      denomination, rounded down, and none on a pool without fees. */
  function FeeDue(p: Pool): nat {
    if p.kind == FeeV2 then p.depositAmount * p.protocolFeeBps / BPS_DENOMINATOR else 0
  }

  lemma SplitIs(p: Pool, a: WithdrawArgs)
    requires Configured(p)
    ensures SplitFor(p, a).Ok? <==> FeeDue(p) + RelayerFeeOf(a) < p.depositAmount
    ensures SplitFor(p, a).Ok? ==>
              SplitFor(p, a).value == Split(FeeDue(p), RelayerFeeOf(a), p.depositAmount - FeeDue(p) - RelayerFeeOf(a))
  {
    if p.kind == FeeV2 {
      ProtocolFeeBounds(p.depositAmount, p.protocolFeeBps);
    }
  }

  /** An accepted withdrawal, direct or relayed, pays the treasury the rate of its
      pool, the relayer its fee if there is one, and the recipient the rest of the
      denomination; accounts that coincide get the sum. */
  lemma WithdrawPaysFees(w: World, leaves: seq<Field>, a: WithdrawArgs, k: Key)
    requires Inv(w, leaves)
    requires Withdraw(w, a).Ok? && k != w.pool.vault
    ensures var p := w.pool;
            var protocolFee := if p.kind == FeeV2 then p.depositAmount * p.protocolFeeBps / BPS_DENOMINATOR else 0;
            var relayerFee := if a.relayer.Some? then a.relayerFee else 0;
            && protocolFee + relayerFee < p.depositAmount
            && Balance(Withdraw(w, a).value.lamports, k)
               == Balance(w.lamports, k)
                  + (if k == a.recipient then p.depositAmount - protocolFee - relayerFee else 0)
                  + (if a.relayer == Some(k) then relayerFee else 0)
                  + (if k == p.treasury then protocolFee else 0)
  {
    assert SplitFor(w.pool, a).Ok?;
    ShareIs(w.pool, a, k);
    assert Balance(Withdraw(w, a).value.lamports, k) == Balance(w.lamports, k) + Share(w.pool, a, SplitFor(w.pool, a).value, k) by {
      WithdrawPaysExactly(w, leaves, a);
    }
  }

  lemma ShareIs(p: Pool, a: WithdrawArgs, k: Key)
    requires Configured(p) && SplitFor(p, a).Ok?
    ensures FeeDue(p) + RelayerFeeOf(a) < p.depositAmount
    ensures Share(p, a, SplitFor(p, a).value, k)
         == (if k == a.recipient then p.depositAmount - FeeDue(p) - RelayerFeeOf(a) else 0)
            + (if a.relayer == Some(k) then RelayerFeeOf(a) else 0)
            + (if k == p.treasury then FeeDue(p) else 0)
  {
    SplitIs(p, a);
  }

  /** What a withdrawal passes before the vault is touched, whatever the order. */
  lemma AuthorizedIff(w: World, a: WithdrawArgs)
    requires SizedWorld(w) && Configured(w.pool)
    ensures Authorize(w, a).Ok?
       <==> && a.relayer != Some(w.pool.vault)
            && (w.pool.kind == FeeV2 ==> a.treasury == w.pool.treasury)
            && SplitFor(w.pool, a).Ok?
            && a.nullifierHash != H1(Zero)
            && a.nullifierHash !in SpentNullifiers(w)
            && Known(w.pool.roots, w.pool.rootCount, a.root)
            && Verifies(w.pool.treeDepth, a.proof, PublicInputs(a.root, a.nullifierHash, RecipientInput(a.recipient)))
  {
  }

  lemma AcceptedIffAuthorized(w: World, leaves: seq<Field>, a: WithdrawArgs)
    requires Inv(w, leaves)
    ensures Withdraw(w, a).Ok? <==> Authorize(w, a).Ok?
  {
    WithdrawIsPayable(w, leaves, a);
  }

  /** A withdrawal is accepted exactly when the signatures, accounts and fees
      are in order, the note is not the zero note and not spent, the root is one
      of the last thirty, and the proof verifies. */
  lemma WithdrawAcceptedIff(w: World, leaves: seq<Field>, a: WithdrawArgs)
    requires Inv(w, leaves)
    ensures Withdraw(w, a).Ok?
       <==> && a.relayer != Some(w.pool.vault)
            && (w.pool.kind == FeeV2 ==> a.treasury == w.pool.treasury)
            && SplitFor(w.pool, a).Ok?
            && a.nullifierHash != H1(Zero)
            && a.nullifierHash !in SpentNullifiers(w)
            && (exists k :: 1 <= k <= |leaves| && |leaves| - k < ROOT_HISTORY_SIZE && a.root == Root(Compress, Zero, leaves[..k], w.pool.treeDepth))
            && Verifies(w.pool.treeDepth, a.proof, PublicInputs(a.root, a.nullifierHash, RecipientInput(a.recipient)))
  {
    AcceptedIffAuthorized(w, leaves, a);
    AuthorizedIff(w, a);
    RecentRoots(w.pool, leaves, a.root);
  }

  lemma AuthorizeRefusals(w: World, a: WithdrawArgs)
    requires SizedWorld(w) && Configured(w.pool) && Authorize(w, a).Err?
    ensures var p := w.pool;
            match Authorize(w, a).error
            case MissingSignature => a.relayer == Some(p.vault)
            case NullifierAccountInUse => p.kind != Legacy && a.nullifierHash in SpentNullifiers(w)
            case AlreadyWithdrawn => p.kind == Legacy && a.nullifierHash in SpentNullifiers(w)
            case InvalidTreasury => p.kind == FeeV2 && a.treasury != p.treasury
            case FeeProblem(_) => SplitFor(p, a).Err?
            case ZeroNullifierNote => a.nullifierHash == H1(Zero)
            case InvalidRoot => !Known(p.roots, p.rootCount, a.root)
            case InvalidProof => !Verifies(p.treeDepth, a.proof, PublicInputs(a.root, a.nullifierHash, RecipientInput(a.recipient)))
            case _ => false
  {
  }

  lemma RefusedIsUnauthorized(w: World, leaves: seq<Field>, a: WithdrawArgs)
    requires Inv(w, leaves) && Withdraw(w, a).Err?
    ensures Authorize(w, a).Err? && Authorize(w, a).error == Withdraw(w, a).error
  {
    WithdrawIsPayable(w, leaves, a);
  }

  /** Every refusal of a withdrawal from a reachable pool is for the reason it names. */
  lemma WithdrawRefusalsAreTrue(w: World, leaves: seq<Field>, a: WithdrawArgs, error: PoolError)
    requires Inv(w, leaves) && Withdraw(w, a) == Err(error)
    ensures var p := w.pool;
            match error
            case MissingSignature => a.relayer == Some(p.vault)
            case NullifierAccountInUse => p.kind != Legacy && a.nullifierHash in SpentNullifiers(w)
            case AlreadyWithdrawn => p.kind == Legacy && a.nullifierHash in SpentNullifiers(w)
            case InvalidTreasury => p.kind == FeeV2 && a.treasury != p.treasury
            case FeeProblem(_) => FeeDue(p) + RelayerFeeOf(a) >= p.depositAmount
            case ZeroNullifierNote => a.nullifierHash == H1(Zero)
            case InvalidRoot =>
              forall k :: 1 <= k <= |leaves| && |leaves| - k < ROOT_HISTORY_SIZE ==>
                a.root != Root(Compress, Zero, leaves[..k], p.treeDepth)
            case InvalidProof => !Verifies(p.treeDepth, a.proof, PublicInputs(a.root, a.nullifierHash, RecipientInput(a.recipient)))
            case _ => false
  {
    RefusedIsUnauthorized(w, leaves, a);
    AuthorizeRefusals(w, a);
    SplitIs(w.pool, a);
    RecentRoots(w.pool, leaves, a.root);
  }

  /** What a proof binds: the same withdrawal for another recipient is accepted
      exactly when the keys agree in all but their last byte. */
  lemma ProofBindsRecipient(w: World, leaves: seq<Field>, a: WithdrawArgs, recipient: Key)
    requires Inv(w, leaves) && Withdraw(w, a).Ok?
    ensures Withdraw(w, a.(recipient := recipient)).Ok? <==> recipient / 256 == a.recipient / 256
  {
    var b := a.(recipient := recipient);
    WithdrawAcceptedIff(w, leaves, a);
    WithdrawAcceptedIff(w, leaves, b);
    assert SplitFor(w.pool, b) == SplitFor(w.pool, a);
  }

  /** What it does not bind: with another relayer and fee, the withdrawal is
      accepted exactly when that relayer can sign and that fee can be split. */
  lemma ProofLeavesRelayerOpen(w: World, leaves: seq<Field>, a: WithdrawArgs, relayer: Option<Key>, relayerFee: nat)
    requires Inv(w, leaves) && Withdraw(w, a).Ok?
    ensures var b := a.(relayer := relayer, relayerFee := relayerFee);
            Withdraw(w, b).Ok? <==> relayer != Some(w.pool.vault) && SplitFor(w.pool, b).Ok?
  {
    WithdrawAcceptedIff(w, leaves, a);
    WithdrawAcceptedIff(w, leaves, a.(relayer := relayer, relayerFee := relayerFee));
  }

  lemma RecentRoots(p: Pool, leaves: seq<Field>, root: Field)
    requires TreeHolds(p, leaves)
    ensures Known(p.roots, p.rootCount, root)
       <==> exists k :: 1 <= k <= |leaves| && |leaves| - k < ROOT_HISTORY_SIZE && root == Root(Compress, Zero, leaves[..k], p.treeDepth)
  {
    var history := RootsOf(Compress, Zero, leaves, p.treeDepth);
    KnownIffRecent(Zero, p.roots, p.rootCount, history, root);
    if j :| 0 <= j < |history| && |history| - j <= ROOT_HISTORY_SIZE && history[j] == root {
      assert 1 <= j + 1 <= |leaves| && root == Root(Compress, Zero, leaves[..j + 1], p.treeDepth);
    }
    if k :| 1 <= k <= |leaves| && |leaves| - k < ROOT_HISTORY_SIZE && root == Root(Compress, Zero, leaves[..k], p.treeDepth) {
      assert history[k - 1] == root;
    }
  }

  /** Over every run of a new fee-capable pool the authority is the one given, and
      so is the treasury until that authority sets another. */
  lemma InitializedOverRuns(
      key: Key, vault: Key, authority: Key, treasury: Key,
      depositAmount: nat, treeDepth: nat, protocolFeeBps: nat, lamports: map<Key, nat>, ixs: seq<Instruction>)
    requires Initialize(FeeV2, key, vault, authority, treasury, depositAmount, treeDepth, protocolFeeBps).Ok?
    ensures var w := NewWorld(Initialize(FeeV2, key, vault, authority, treasury, depositAmount, treeDepth, protocolFeeBps).value, lamports);
            var p := Run(w, ixs).pool;
            && p.authority == authority
            && ((forall j :: 0 <= j < |ixs| ==> !(ixs[j].UpdateTreasuryIx? && ixs[j].signer == authority)) ==> p.treasury == treasury)
            && forall k :: 0 <= k < |ixs| && ixs[k].UpdateTreasuryIx? && ixs[k].signer == authority
                 && (forall j :: k < j < |ixs| ==> !(ixs[j].UpdateTreasuryIx? && ixs[j].signer == authority))
                 ==> p.treasury == ixs[k].newTreasury
  {
    InitializedAsGiven(FeeV2, key, vault, authority, treasury, depositAmount, treeDepth, protocolFeeBps);
    var w := NewWorld(Initialize(FeeV2, key, vault, authority, treasury, depositAmount, treeDepth, protocolFeeBps).value, lamports);
    RunFixesConfiguration(w, ixs);
    assert forall j :: 0 <= j < |ixs| ==> (SetsTreasury(w.pool, ixs[j]) <==> ixs[j].UpdateTreasuryIx? && ixs[j].signer == authority);
    if forall j :: 0 <= j < |ixs| ==> !(ixs[j].UpdateTreasuryIx? && ixs[j].signer == authority) {
      TreasuryStays(w, ixs);
    }
    forall k | 0 <= k < |ixs| && ixs[k].UpdateTreasuryIx? && ixs[k].signer == authority
               && (forall j :: k < j < |ixs| ==> !(ixs[j].UpdateTreasuryIx? && ixs[j].signer == authority))
      ensures Run(w, ixs).pool.treasury == ixs[k].newTreasury
    {
      TreasuryIsLastSet(w, ixs, k);
    }
  }

  // ---------- runs ----------

  function Accepted(w: World, ix: Instruction): seq<Field>
    requires SizedWorld(w)
  {
    if ix.DepositIx? && Execute(w, ix).Ok? then [ix.commitment] else []
  }

  lemma NextKeeps(w: World, leaves: seq<Field>, ix: Instruction)
    requires Inv(w, leaves)
    ensures Inv(Next(w, ix), leaves + Accepted(w, ix))
  {
    if Execute(w, ix).Ok? {
      match ix
      case DepositIx(depositor, c, pageIndex) => DepositKeeps(w, leaves, depositor, c, pageIndex);
      case WithdrawIx(a) =>
        WithdrawKeeps(w, leaves, a);
        assert leaves + [] == leaves;
      case UpdateTreasuryIx(signer, t) => OtherStepKeeps(w, leaves, ix);
      case ReceiveIx(account, amount) => OtherStepKeeps(w, leaves, ix);
      case TransferIx(from, to, amount) => OtherStepKeeps(w, leaves, ix);
    } else {
      assert leaves + [] == leaves;
    }
  }

  lemma OtherStepKeeps(w: World, leaves: seq<Field>, ix: Instruction)
    requires Inv(w, leaves)
    requires !ix.DepositIx? && !ix.WithdrawIx? && Execute(w, ix).Ok?
    ensures Inv(Next(w, ix), leaves + Accepted(w, ix))
  {
    var next := Next(w, ix);
    assert leaves + [] == leaves;
    assert SpentNullifiers(next) == SpentNullifiers(w);
    assert Balance(next.lamports, w.pool.vault) >= Balance(w.lamports, w.pool.vault);
  }

  lemma DepositedSplits(w: World, leaves: seq<Field>, ixs: seq<Instruction>)
    requires SizedWorld(w) && ixs != []
    ensures (leaves + Accepted(w, ixs[0])) + Deposited(Next(w, ixs[0]), ixs[1..]) == leaves + Deposited(w, ixs)
  {
    var rest := Deposited(Next(w, ixs[0]), ixs[1..]);
    assert Deposited(w, ixs) == Accepted(w, ixs[0]) + rest;
    Associate(leaves, Accepted(w, ixs[0]), rest);
  }

  lemma Associate(a: seq<Field>, b: seq<Field>, c: seq<Field>)
    ensures (a + b) + c == a + (b + c)
  {
  }

  /** Every run keeps the invariant over the leaves deposited so far. */
  lemma {:induction false} RunKeeps(w: World, leaves: seq<Field>, ixs: seq<Instruction>)
    requires Inv(w, leaves)
    ensures Inv(Run(w, ixs), leaves + Deposited(w, ixs))
    decreases |ixs|
  {
    if ixs == [] {
      assert leaves + Deposited(w, ixs) == leaves;
    } else {
      NextKeeps(w, leaves, ixs[0]);
      RunKeeps(Next(w, ixs[0]), leaves + Accepted(w, ixs[0]), ixs[1..]);
      DepositedSplits(w, leaves, ixs);
    }
  }

  lemma Distributes(d: nat, m: nat, n: nat)
    requires m <= n
    ensures d * (n - m) == d * n - d * m
  {
  }

  lemma SolvencyFromAccounting(w: World, leaves: seq<Field>)
    requires AccountingHolds(w, leaves)
    ensures w.pool.nullifierCount == |SpentNullifiers(w)| <= |leaves|
    ensures Balance(w.lamports, w.pool.vault) >= w.pool.depositAmount * (|leaves| - w.pool.nullifierCount)
  {
    SubsetSize(SpentNullifiers(w), NullifierHashes(leaves));
    OwedIsProduct(w.pool.depositAmount, |leaves|);
    OwedIsProduct(w.pool.depositAmount, w.pool.nullifierCount);
    Distributes(w.pool.depositAmount, w.pool.nullifierCount, |leaves|);
  }

  /** Solvency over every run of a freshly initialized pool: no more notes are
      spent than were deposited, and the vault covers the rest. */
  lemma Solvency(
      kind: Kind, key: Key, vault: Key, authority: Key, treasury: Key,
      depositAmount: nat, treeDepth: nat, protocolFeeBps: nat, lamports: map<Key, nat>, ixs: seq<Instruction>)
    requires key != NO_POOL
    requires Initialize(kind, key, vault, authority, treasury, depositAmount, treeDepth, protocolFeeBps).Ok?
    ensures var w := Run(NewWorld(Initialize(kind, key, vault, authority, treasury, depositAmount, treeDepth, protocolFeeBps).value, lamports), ixs);
            && w.pool.nullifierCount == |SpentNullifiers(w)| <= w.pool.nextIndex
            && Balance(w.lamports, w.pool.vault) >= depositAmount * (w.pool.nextIndex - w.pool.nullifierCount)
  {
    InitializeEstablishes(kind, key, vault, authority, treasury, depositAmount, treeDepth, protocolFeeBps, lamports);
    var w0 := NewWorld(Initialize(kind, key, vault, authority, treasury, depositAmount, treeDepth, protocolFeeBps).value, lamports);
    RunKeeps(w0, [], ixs);
    RunFixesConfiguration(w0, ixs);
    SolvencyFromAccounting(Run(w0, ixs), [] + Deposited(w0, ixs));
  }

  /** What no instruction changes. */
  predicate SameConfiguration(p: Pool, q: Pool) {
    && p.kind == q.kind && p.key == q.key && p.vault == q.vault && p.authority == q.authority
    && p.depositAmount == q.depositAmount && p.protocolFeeBps == q.protocolFeeBps
    && p.treeDepth == q.treeDepth && p.nullifierVersion == q.nullifierVersion
  }

  lemma DepositFixesConfiguration(w: World, depositor: Key, c: Field, pageIndex: nat)
    requires SizedWorld(w) && Deposit(w, depositor, c, pageIndex).Ok?
    ensures SameConfiguration(Deposit(w, depositor, c, pageIndex).value.pool, w.pool)
  {
  }

  lemma WithdrawFixesConfiguration(w: World, a: WithdrawArgs)
    requires SizedWorld(w) && Withdraw(w, a).Ok?
    ensures SameConfiguration(Withdraw(w, a).value.pool, w.pool)
  {
  }

  lemma NextFixesConfiguration(w: World, ix: Instruction)
    requires SizedWorld(w)
    ensures SameConfiguration(Next(w, ix).pool, w.pool)
  {
    if Execute(w, ix).Ok? {
      match ix
      case DepositIx(depositor, c, pageIndex) => DepositFixesConfiguration(w, depositor, c, pageIndex);
      case WithdrawIx(a) => WithdrawFixesConfiguration(w, a);
      case _ =>
    }
  }

  lemma {:induction false} RunFixesConfiguration(w: World, ixs: seq<Instruction>)
    requires SizedWorld(w)
    ensures SameConfiguration(Run(w, ixs).pool, w.pool)
    decreases |ixs|
  {
    if ixs != [] {
      NextFixesConfiguration(w, ixs[0]);
      RunFixesConfiguration(Next(w, ixs[0]), ixs[1..]);
    }
  }

  /** An update of the treasury that the program accepts. */
  predicate SetsTreasury(p: Pool, ix: Instruction) {
    ix.UpdateTreasuryIx? && p.kind == FeeV2 && ix.signer == p.authority
  }

  lemma NextTreasury(w: World, ix: Instruction)
    requires SizedWorld(w)
    ensures Next(w, ix).pool.treasury == if SetsTreasury(w.pool, ix) then ix.newTreasury else w.pool.treasury
  {
  }

  /** Without an update signed by the authority, the treasury stays. */
  lemma {:induction false} TreasuryStays(w: World, ixs: seq<Instruction>)
    requires SizedWorld(w)
    requires forall j :: 0 <= j < |ixs| ==> !SetsTreasury(w.pool, ixs[j])
    ensures Run(w, ixs).pool.treasury == w.pool.treasury
    decreases |ixs|
  {
    if ixs != [] {
      NextTreasury(w, ixs[0]);
      NextFixesConfiguration(w, ixs[0]);
      TreasuryStays(Next(w, ixs[0]), ixs[1..]);
    }
  }

  /** Else it is the one set last. */
  lemma {:induction false} TreasuryIsLastSet(w: World, ixs: seq<Instruction>, k: nat)
    requires SizedWorld(w) && k < |ixs|
    requires SetsTreasury(w.pool, ixs[k])
    requires forall j :: k < j < |ixs| ==> !SetsTreasury(w.pool, ixs[j])
    ensures Run(w, ixs).pool.treasury == ixs[k].newTreasury
    decreases |ixs|
  {
    NextTreasury(w, ixs[0]);
    NextFixesConfiguration(w, ixs[0]);
    if k == 0 {
      TreasuryStays(Next(w, ixs[0]), ixs[1..]);
    } else {
      TreasuryIsLastSet(Next(w, ixs[0]), ixs[1..], k - 1);
    }
  }

  lemma {:induction false} SpentStaysSpent(w: World, ixs: seq<Instruction>)
    requires SizedWorld(w)
    ensures SpentNullifiers(w) <= SpentNullifiers(Run(w, ixs))
    decreases |ixs|
  {
    if ixs != [] {
      if ixs[0].WithdrawIx? && Execute(w, ixs[0]).Ok? {
        RecordedNullifier(w, ixs[0].args.nullifierHash, Execute(w, ixs[0]).value.lamports);
      } else {
        assert SpentNullifiers(Next(w, ixs[0])) == SpentNullifiers(w);
      }
      SpentStaysSpent(Next(w, ixs[0]), ixs[1..]);
    }
  }

  /** Once withdrawn, a note is never paid again, whatever happens in between
      and whatever proof, recipient or relayer is used. */
  lemma NoDoubleSpend(w: World, a: WithdrawArgs, ixs: seq<Instruction>, again: WithdrawArgs)
    requires SizedWorld(w) && Withdraw(w, a).Ok?
    requires again.nullifierHash == a.nullifierHash
    ensures Withdraw(Run(Withdraw(w, a).value, ixs), again).Err?
  {
    var next := Withdraw(w, a).value;
    RecordedNullifier(w, a.nullifierHash, next.lamports);
    SpentStaysSpent(next, ixs);
  }

  /** No counter of a reachable pool leaves its machine type. */
  lemma CountersFit(w: World, leaves: seq<Field>)
    requires Inv(w, leaves)
    ensures w.pool.nullifierCount <= w.pool.nextIndex == w.pool.rootCount <= 0x10_0000 < 0x1_0000_0000
  {
    SubsetSize(SpentNullifiers(w), NullifierHashes(leaves));
    assert Pow2(10) == 1024 && Pow2(20) == Pow2(10) * 1024 by {
      assert Pow2(5) == 32;
      assert Pow2(15) == 32 * Pow2(10);
    }
  }
}
