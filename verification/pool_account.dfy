/** The pool account as the program updates it in place, proved against the
    functions of PoolState. */
module PoolAccounts {
  import opened Outcomes
  import opened MerkleTree
  import opened FieldTerms
  import opened IncrementalTree
  import opened RootRing
  import opened CommitmentPages
  import opened Fees
  import opened PoolState

  /** Lamport balances and nullifier records, as the runtime keeps them. */
  class Ledger {
    var lamports: map<Key, nat>
    var nullifierRecords: set<Field>

    constructor (lamports: map<Key, nat>, nullifierRecords: set<Field>)
      ensures this.lamports == lamports && this.nullifierRecords == nullifierRecords
    {
      this.lamports := lamports;
      this.nullifierRecords := nullifierRecords;
    }

    method Transfer(from: Key, to: Key, amount: nat) returns (ok: bool)
      modifies this`lamports
      ensures ok == PoolState.Transfer(old(lamports), from, to, amount).Some?
      ensures lamports == if ok then PoolState.Transfer(old(lamports), from, to, amount).value else old(lamports)
    {
      if Balance(lamports, from) < amount {
        return false;
      }
      lamports := lamports[from := Balance(lamports, from) - amount];
      lamports := lamports[to := Balance(lamports, to) + amount];
      ok := true;
    }
  }

  method ComputeZeroHashes<F>(h: (F, F) -> F, zero: F, depth: nat) returns (zeros: seq<F>)
    ensures zeros == ZeroHashes(h, zero, depth)
  {
    zeros := [];
    var current := zero;
    var level := 0;
    while level < depth
      invariant 0 <= level <= depth && |zeros| == level
      invariant current == ZeroAt(h, zero, level)
      invariant forall l :: 0 <= l < level ==> zeros[l] == ZeroAt(h, zero, l)
    {
      zeros := zeros + [current];
      current := h(current, current);
      level := level + 1;
    }
  }

  class PoolAccount {
    const kind: Kind
    const key: Key
    const vault: Key
    const authority: Key
    const depositAmount: nat
    const protocolFeeBps: nat
    const nullifierVersion: nat
    const treeDepth: nat
    var treasury: Key
    var nextIndex: nat
    var nullifierCount: nat
    var rootCount: nat
    const roots: array<Field>
    const filledSubtrees: array<Field>
    var commitments: seq<Field>
    var usedNullifiers: seq<Field>

    ghost predicate Valid()
      reads this
    {
      && roots != filledSubtrees
      && roots.Length == ROOT_HISTORY_SIZE
      && treeDepth <= filledSubtrees.Length
    }

    ghost function Model(): (p: Pool)
      requires Valid()
      reads this, roots, filledSubtrees
      ensures Sized(p)
    {
      Pool(kind, key, vault, authority, treasury, depositAmount, protocolFeeBps, nextIndex, nullifierCount,
           nullifierVersion, treeDepth, rootCount, roots[..], filledSubtrees[..], commitments, usedNullifiers)
    }

    /** A fresh account whose fields the caller has checked. */
    constructor (p: Pool)
      requires Sized(p) && p.roots == seq(ROOT_HISTORY_SIZE, _ => Zero)
      ensures Valid() && Model() == p && fresh(roots) && fresh(filledSubtrees)
    {
      kind, key, vault, authority, treasury := p.kind, p.key, p.vault, p.authority, p.treasury;
      depositAmount, protocolFeeBps, nullifierVersion, treeDepth := p.depositAmount, p.protocolFeeBps, p.nullifierVersion, p.treeDepth;
      nextIndex, nullifierCount, rootCount := p.nextIndex, p.nullifierCount, p.rootCount;
      roots := new Field[ROOT_HISTORY_SIZE](_ => Zero);
      filledSubtrees := new Field[|p.filledSubtrees|](i requires 0 <= i < |p.filledSubtrees| => p.filledSubtrees[i]);
      commitments, usedNullifiers := p.commitments, p.usedNullifiers;
    }

    method UpdateTreasury(signer: Key, newTreasury: Key) returns (r: Result<(), PoolError>)
      requires Valid()
      modifies this`treasury
      ensures Valid()
      ensures r.Ok? <==> kind == FeeV2 && signer == authority
      ensures Model() == if r.Ok? then old(Model()).(treasury := newTreasury) else old(Model())
    {
      if kind != FeeV2 || signer != authority {
        return Err(UnauthorizedTreasuryUpdate);
      }
      treasury := newTreasury;
      r := Ok(());
    }

    /** The loop shared by the three append functions: climb from the new leaf
        to the root, then push the root and count. */
    method PushLeaf(c: Field)
      requires Valid()
      modifies this, roots, filledSubtrees
      ensures Valid() && Model() == PoolState.PushLeaf(old(Model()), c)
    {
      var zeros := ComputeZeroHashes(Compress, Zero, treeDepth);
      var current := c;
      var index := nextIndex;
      var level := 0;
      while level < treeDepth
        invariant 0 <= level <= treeDepth && Valid()
        invariant Model() == old(Model()).(filledSubtrees := filledSubtrees[..])
        invariant Climb(Compress, zeros, filledSubtrees[..], index, current, level)
               == Insert(Compress, zeros, old(filledSubtrees[..]), old(nextIndex), c)
      {
        if index % 2 == 0 {
          filledSubtrees[level] := current;
          current := Compress(current, zeros[level]);
        } else {
          current := Compress(filledSubtrees[level], current);
        }
        index := index / 2;
        level := level + 1;
      }
      roots[rootCount % ROOT_HISTORY_SIZE] := current;
      rootCount := rootCount + 1;
      nextIndex := nextIndex + 1;
    }

    method AppendLegacy(c: Field) returns (r: Result<(), PoolError>)
      requires Valid()
      modifies this, roots, filledSubtrees
      ensures Valid()
      ensures match PoolState.AppendLegacy(old(Model()), c)
              case Ok(p) => r == Ok(()) && Model() == p
              case Err(e) => r == Err(e) && Model() == old(Model())
    {
      if nextIndex >= Pow2(LEGACY_TREE_DEPTH) {
        return Err(PoolFull);
      }
      commitments := commitments + [c];
      PushLeaf(c);
      r := Ok(());
    }

    method AppendPaged(page: CommitmentPage<Field>, pageIndex: nat, c: Field) returns (r: Result<(), PoolError>)
      requires Valid() && page.Valid() && page.zero == Zero && key != NO_POOL
      requires page.commitments != roots && page.commitments != filledSubtrees
      modifies this, roots, filledSubtrees, page, page.commitments
      ensures Valid() && page.Valid()
      ensures match PoolState.AppendPaged(old(Model()), old(page.Model()), pageIndex, c)
              case Ok((p, next)) => r == Ok(()) && Model() == p && page.Model() == next
              case Err(e) => r == Err(e) && Model() == old(Model()) && page.Model() == old(page.Model())
    {
      if treeDepth != 10 && treeDepth != 20 {
        return Err(InvalidTreeDepth);
      }
      if nextIndex >= Pow2(treeDepth) {
        return Err(PoolFull);
      }
      if pageIndex != ExpectedPageIndex(nextIndex) {
        return Err(InvalidCommitmentPage);
      }
      var stored := page.Append(key, pageIndex, ExpectedPageOffset(nextIndex), c);
      if !stored {
        return Err(InvalidCommitmentPage);
      }
      PushLeaf(c);
      r := Ok(());
    }

    ghost function WorldWith(ledger: Ledger, pages: map<nat, Page<Field>>): World
      requires Valid()
      reads this, roots, filledSubtrees, ledger
    {
      World(Model(), pages, ledger.nullifierRecords, ledger.lamports)
    }

    /** The deposit instructions. The runtime passes the page account of the
        given index and undoes the transfer when the append fails. */
    method Deposit(ledger: Ledger, page: CommitmentPage<Field>, depositor: Key, c: Field, pageIndex: nat,
                   ghost pages: map<nat, Page<Field>>)
      returns (r: Result<(), PoolError>)
      requires Valid() && page.Valid() && page.zero == Zero && key != NO_POOL
      requires page.commitments != roots && page.commitments != filledSubtrees
      requires forall i <- pages :: |pages[i].commitments| == COMMITMENT_PAGE_CAPACITY
      requires page.Model() == if pageIndex in pages then pages[pageIndex] else NewPage(Zero)
      modifies this, roots, filledSubtrees, page, page.commitments, ledger`lamports
      ensures Valid() && page.Valid()
      ensures match PoolState.Deposit(old(WorldWith(ledger, pages)), depositor, c, pageIndex)
              case Ok(w) =>
                && r == Ok(())
                && WorldWith(ledger, w.pages) == w
                && (if kind == Legacy then w.pages == pages && page.Model() == old(page.Model())
                    else w.pages == pages[pageIndex := page.Model()])
              case Err(e) => r == Err(e) && WorldWith(ledger, pages) == old(WorldWith(ledger, pages)) && page.Model() == old(page.Model())
    {
      if depositor == vault {
        return Err(MissingSignature);
      }
      if c == Zero {
        return Err(InvalidCommitment);
      }
      var before := ledger.lamports;
      var paid := ledger.Transfer(depositor, vault, depositAmount);
      if !paid {
        return Err(InsufficientFunds);
      }
      if kind == Legacy {
        r := AppendLegacy(c);
      } else {
        r := AppendPaged(page, pageIndex, c);
      }
      if r.Err? {
        ledger.lamports := before;
      }
    }

    method VerifyWithdraw(a: WithdrawArgs, ghost w: World) returns (r: Result<(), PoolError>)
      requires Valid() && w.pool == Model()
      ensures r == PoolState.VerifyWithdraw(w, a)
    {
      if kind != Legacy && nullifierVersion != NULLIFIER_VERSION_PDA {
        return Err(UnsupportedNullifierVersion);
      }
      if a.nullifierHash == H1(Zero) {
        return Err(ZeroNullifierNote);
      }
      if !Known(roots[..], rootCount, a.root) {
        return Err(InvalidRoot);
      }
      if kind == Legacy && a.nullifierHash in usedNullifiers {
        return Err(AlreadyWithdrawn);
      }
      if !Verifies(treeDepth, a.proof, PublicInputs(a.root, a.nullifierHash, RecipientInput(a.recipient))) {
        return Err(InvalidProof);
      }
      r := Ok(());
    }

    /** The transfers of a split: a fee-capable pool pays the recipient last, a
        plain pool first. */
    method PaymentsOf(a: WithdrawArgs, split: Split) returns (payments: seq<Payment>)
      requires Valid()
      ensures payments == PaymentsFor(Model(), a, split)
    {
      payments := [];
      if kind == FeeV2 {
        if split.protocolFee > 0 {
          payments := payments + [Payment(treasury, split.protocolFee)];
        }
        if a.relayer.Some? && split.relayerFee > 0 {
          payments := payments + [Payment(a.relayer.value, split.relayerFee)];
        }
        payments := payments + [Payment(a.recipient, split.recipientAmount)];
      } else {
        payments := payments + [Payment(a.recipient, split.recipientAmount)];
        if a.relayer.Some? {
          payments := payments + [Payment(a.relayer.value, split.relayerFee)];
        }
      }
    }

    /** Pays a split out of the vault, transfer by transfer. */
    method Pay(ledger: Ledger, a: WithdrawArgs, split: Split) returns (ok: bool)
      requires Valid()
      modifies ledger`lamports
      ensures var paid := PayAll(old(ledger.lamports), vault, PaymentsFor(Model(), a, split));
              && ok == paid.Some?
              && (ok ==> ledger.lamports == paid.value)
    {
      var payments := PaymentsOf(a, split);
      var i := 0;
      while i < |payments|
        invariant 0 <= i <= |payments|
        invariant PayAll(old(ledger.lamports), vault, payments) == PayAll(ledger.lamports, vault, payments[i..])
      {
        assert payments[i..][1..] == payments[i + 1..];
        var sent := ledger.Transfer(vault, payments[i].to, payments[i].amount);
        if !sent {
          return false;
        }
        i := i + 1;
      }
      ok := true;
    }

    /** The runtime's account constraints, the fee arithmetic and the proof. */
    method Authorize(ledger: Ledger, a: WithdrawArgs, ghost w: World) returns (r: Result<Split, PoolError>)
      requires Valid() && SizedWorld(w)
      requires w.pool == Model() && w.nullifierRecords == ledger.nullifierRecords
      ensures r == PoolState.Authorize(w, a)
    {
      if a.relayer == Some(vault) {
        return Err(MissingSignature);
      }
      if kind != Legacy && a.nullifierHash in ledger.nullifierRecords {
        return Err(NullifierAccountInUse);
      }
      if kind == FeeV2 && a.treasury != treasury {
        return Err(InvalidTreasury);
      }
      var fee := if a.relayer.Some? then a.relayerFee else 0;
      var split := if kind == FeeV2 then FeePoolSplit(depositAmount, protocolFeeBps, fee) else PlainPoolSplit(depositAmount, fee);
      if kind == FeeV2 && split.Err? {
        return Err(FeeProblem(split.error));
      }
      var verified := VerifyWithdraw(a, w);
      if verified.Err? {
        return Err(verified.error);
      }
      if split.Err? {
        return Err(FeeProblem(split.error));
      }
      r := Ok(split.value);
    }

    /** The withdraw instructions. The runtime refuses an existing nullifier
        record before the program runs, and undoes everything on failure. */
    method Withdraw(ledger: Ledger, a: WithdrawArgs, ghost pages: map<nat, Page<Field>>)
      returns (r: Result<(), PoolError>)
      requires Valid()
      requires forall i <- pages :: |pages[i].commitments| == COMMITMENT_PAGE_CAPACITY
      modifies this`nullifierCount, this`usedNullifiers, ledger
      ensures Valid()
      ensures match PoolState.Withdraw(old(WorldWith(ledger, pages)), a)
              case Ok(w) => r == Ok(()) && WorldWith(ledger, pages) == w
              case Err(e) => r == Err(e) && WorldWith(ledger, pages) == old(WorldWith(ledger, pages))
    {
      var split := Authorize(ledger, a, WorldWith(ledger, pages));
      if split.Err? {
        return Err(split.error);
      }
      var before := ledger.lamports;
      var paid := Pay(ledger, a, split.value);
      if !paid {
        ledger.lamports := before;
        return Err(InsufficientFunds);
      }
      if kind == Legacy {
        usedNullifiers := usedNullifiers + [a.nullifierHash];
      } else {
        ledger.nullifierRecords := ledger.nullifierRecords + {a.nullifierHash};
      }
      nullifierCount := nullifierCount + 1;
      r := Ok(());
    }
  }
}
