# Verification of the agent privacy pool

A Solana program keeps a pool of equal deposits. A deposit appends a Poseidon
commitment to a Merkle tree; a withdrawal shows a zero-knowledge proof that its
note is one of the commitments and reveals a nullifier, so that a note is paid
once. An SDK rebuilds the tree from what is stored on chain and produces the
proofs, and a relayer submits withdrawals for users who do not want to pay gas
from their own account. This project models these three parts and proves what
they are for:

* **Tree and storage.** The on-chain tree keeps one node per level. For every
  hash, every depth and every list of commitments that fits, the root it
  computes is the root of the SDK's full zero-padded rebuild. The commitment
  pages give back exactly the deposited list, and the ring of thirty roots
  accepts exactly the roots that fewer than thirty deposits followed.
* **The pool as a state machine.** Initialization, deposits, direct and relayed
  withdrawals with and without protocol fee, treasury updates, transfers and
  donations by others. Over every run the vault covers every note not yet
  withdrawn, every withdrawal that passes its checks is paid in full and moves
  exactly one denomination, no note is paid twice, and a deposited note can be
  withdrawn with what the SDK reads from the chain. Pool and relayer run jointly
  agree on every withdrawal paid (`RelayedWithdrawal`).
* **The relayer.** Request rows, workers that hold snapshots of them, and an
  asynchronous chain with ambiguous sends, expiring blockhashes and crashes.
  Some theorems hold for every interleaving of any number of workers
  (`RelaySafety`, `RelayReopening`, `RelayRaces`, `RelayTiming`), some when one
  worker at a time holds a request (`RelaySingle`, `RelayLanding`, `RelayPass`,
  `RelayOutcomes`, `RelayService`).
  `RelayLimits` holds runs that show why the two are kept apart.
* **Limits, fees, encodings.** The rate limit and the spend limit hold in every
  window, proofs survive their byte encoding, and it is stated exactly on which
  pools the clients' floating-point fees are the program's.

## How the parts are modelled

* `MerkleTree`, `IncrementalTree`, `SdkMerkleTree`, `RootRing` and
  `CommitmentPages` are generic in the field and the hash. The pool uses
  `FieldTerms`: field elements are free terms, so both hashes are collision-free
  by construction.
* Groth16 is an ideal proof system: a proof is a statement with evidence, and it
  verifies exactly when the evidence satisfies the relation of the circuit. The
  relation is the one the SDK builds its witness for: the leaf is the hash of
  secret and nullifier, the nullifier hash is the hash of the nullifier, the
  path folds to the root.
* Code that updates objects is imperative here (`PoolAccounts`, `SdkMerkleTree`,
  `CommitmentPage`, `RelayStore`, `ProductionRelayService`, `SpendLimiter`), and
  each method is proved against a function on values; the theorems are about
  those functions. The runtime's undoing of a failed instruction is written out.
* In the relay protocol every await is a point where any other step may happen.
  Nodes may lie about everything except this: a nullifier reported as used at
  the confirmed level is used, a transaction reported as confirmed without error
  has paid, a signature found for a nullifier has spent it, a block height
  reported has been reached, and a transaction whose send was refused for good is
  in no block. A "no" may be stale. The chain remembers every transaction ever
  sent, so that theorems about sending cover the refused ones.
* Products and quotients of JavaScript numbers round to 53 bits, ties to even
  (`Doubles`). Sums and differences are exact here: an amount is at most 2^53 - 1,
  and a rounded sum is on the same side of it as the exact one.
* The clock is a number that events and questions carry; for the rate limit it
  may even run backwards.

## Where the code differs from its documentation

The models follow the code.

* `relayer/README.md:16` and `:18` say that a proof is verified before
  submission. A reserved record is processable at once, so the retry manager may
  submit it while the handler is still checking. From every reachable state of
  that kind it can, exactly when the payload is usable and the fee is feasible
  (`RelayRaces.SubmittedBeforeCheckedIff`); and so can there be two live
  transactions (`RelayRaces.TwoLiveIff`). With one worker per record the statement
  holds (`RelaySingle.CheckedBeforeSubmitted`).
* `relayer/README.md:28`: `confirmed` means that the nullifier is spent
  (`RelaySafety.ConfirmedMeansSpent`), not that the stored transaction was
  executed. It need not be when somebody else spent the nullifier
  (`RelayLimits.ConfirmedByForeignSpend`), nor when only the one worker did, with
  an earlier transaction that stale nodes had denied
  (`RelayLimits.ConfirmedByEarlierSend`). `RelayLanding.ConfirmationVouchesIff`
  says exactly which confirming answers show that it was.
* `relayer/README.md:30` describes `expired` as a missing or unusable payload. The
  code also uses it for a request refused by the handler's own checks.
* The terminal statuses are not final when a stale worker is left, since no
  update looks at the current status (`RelayLimits.ConfirmedIsNotFinal`);
  `RelayReopening.TerminalIsFinalIff` says exactly when they are.
* A limit of 0 still admits one request, because there is no oldest row to wait
  for (`RateLimit.LimitsKeptIff`).
* The relayer's root check reads all thirty slots and so also accepts the zero
  root of a ring that is not full, which the program refuses
  (`RootRing.RelayerRootCheck`).
* Two withdrawals that are both checked before either is recorded pass the spend
  limit together (`SpendLimits.InterleavedChecksExceed`). The limits survive such
  interleaving exactly under policies that allow no withdrawal at all
  (`SpendLimits.LimitsSurviveInterleavingIff`).
* The relayer and the SDK compute fees as `Math.floor((amount * bps) / 10_000)` on
  doubles. On a pool of 6474206544261692 units at 390 basis points, which the
  program lets anybody create, this gives 252494055226206 and the program
  252494055226205 (`Fees.LargePoolDisagrees`). The three agree exactly when the
  rounded product stays clear of the neighbouring multiples
  (`Fees.SplitsAgreeIff`), so on every pool whose product is a safe integer
  (`Fees.SmallPoolsAgree`). Rounding also goes down: on 7411047126444500 units at
  20 basis points the clients accept a relayer fee that the program refuses
  (`Fees.LargePoolRefuses`); `Fees.NeverRefusedIff` says exactly where that cannot
  happen.

## Model

| member | source | states |
|---|---|---|
| MerkleTree.WidthIsCeiling | sdk-package/src/merkle.ts:125-139 | level l of the rebuild has n / 2^l nodes, rounded up |
| MerkleTree.NodeFrame | programs/agent-privacy-pool/src/lib.rs:326-334 | appending a leaf changes no node but the leaf's own ancestors |
| MerkleTree.PathFoldsToRoot | sdk-package/src/merkle.ts:80-116 | completeness: a leaf with its own siblings and bits folds to the root, for every hash, depth and leaf |
| MerkleTree.PathBinds | sdk-package/src/proof.ts:58-66 | binding: with a collision-free hash, whatever folds to a node is the padded leaf its bits lead to |
| MerkleTree.RootBinds | programs/agent-privacy-pool/src/lib.rs:74-84 | two lists have the same root exactly when their padded leaf vectors are equal |
| MerkleTree.RootsOfPrefixesDiffer | programs/agent-privacy-pool/src/lib.rs:59-62 | since commitments are not zero, the roots after different numbers of deposits differ |
| IncrementalTree.LeftNeighbour | programs/agent-privacy-pool/src/lib.rs:330-332 | when the new leaf's ancestor is a right child, the stored node is its left sibling and is still right |
| IncrementalTree.ClimbRefines | programs/agent-privacy-pool/src/lib.rs:326-334 | the walk from any level up computes the rebuilt root and leaves the stored nodes right at all levels |
| IncrementalTree.InsertRefinesRebuild | programs/agent-privacy-pool/src/lib.rs:322-334 | refinement: the O(depth) insertion yields the root of the full zero-padded rebuild, for every hash, every depth and every list with room |
| SdkMerkleTree.PoseidonMerkleTree.GenerateZeros | sdk-package/src/merkle.ts:144-150 | every level's default is the hash of the all-zero subtree of that height |
| SdkMerkleTree.PoseidonMerkleTree.Insert | sdk-package/src/merkle.ts:58-66 | a leaf goes to the end while there is room for it; else the tree is unchanged and the call fails |
| SdkMerkleTree.PoseidonMerkleTree.ParentLevel | sdk-package/src/merkle.ts:126-138 | from all nodes of one level, all nodes of the next, odd ends paired with the zero subtree |
| SdkMerkleTree.PoseidonMerkleTree.ComputeRoot | sdk-package/src/merkle.ts:122-142 | the level-by-level rebuild is the root of the reference tree |
| SdkMerkleTree.PoseidonMerkleTree.GetRoot | sdk-package/src/merkle.ts:68-78 | the reference root for every number of leaves including none; an error exactly before initialization |
| SdkMerkleTree.PoseidonMerkleTree.GetProof | sdk-package/src/merkle.ts:80-116 | fails outside the leaves, and without initialization exactly on a tree that is not full; otherwise the leaf's true path, which folds to the root |
| SdkMerkleTree.BuildTreeFromCommitments | sdk-package/src/merkle.ts:153-166 | succeeds exactly when the commitments fit, and holds them in order |
| RootRing.PushHolds | programs/agent-privacy-pool/src/lib.rs:336-338 | writing at root_count mod 30 keeps the ring in step with the history of all roots |
| RootRing.NewestRoot | sdk-package/src/snap-client.ts:788-791 | the slot clients read holds the newest root |
| RootRing.KnownIffRecent | programs/agent-privacy-pool/src/lib.rs:104-111 | the accepted roots are exactly the last thirty of the history |
| RootRing.RelayerRootCheck | relayer/src/proof-verifier.ts:84-88 | the relayer accepts what the program accepts and, on a ring that is not full, the zero root, nothing else |
| RootRing.AcceptedIffFewerThanThirtyFollow | programs/agent-privacy-pool/src/lib.rs:104-111 | the root taken after k of n deposits is accepted exactly while n - k < 30 |
| CommitmentPages.CommitmentPage.Append | programs/agent-privacy-pool/src/lib.rs:129-167 | the page account updated in place is the functional append; a refused append leaves it unchanged |
| CommitmentPages.AppendStores | programs/agent-privacy-pool/src/lib.rs:312-320 | an append succeeds exactly on the expected page and then the pages hold exactly the longer list, from any number of inline commitments |
| CommitmentPages.MergeCommitmentSources | sdk-package/src/commitment-pages.ts:43-78 | the nested loops with their break are the overlay of all pages over the inline commitments |
| CommitmentPages.MergeRoundTrip | sdk-package/src/commitment-pages.ts:43-78 | the merge is the deposited list, in whatever order and however often the pages arrive |
| CommitmentPages.FetchRoundTrip | sdk-package/src/snap-client.ts:1091-1143 | the pages the SDK asks for are all there are, so what it fetches is the deposited list |
| CommitmentPages.StorageRoundTrip | sdk-package/src/snap-client.ts:1091-1143 | from any inline commitments and no pages, any number of appends all succeed and are read back in order |
| Fees.ProtocolFeeBounds | programs/agent-privacy-pool/src/lib.rs:461-467 | on valid pools the fee never overflows u64, is the exact rate rounded down, and is at most a twentieth |
| Doubles.QuotientInClosedForm | relayer/src/service.ts:669-671 | the integer part of a rounded quotient is one exact integer division, half a unit added at the scale of 53 bits; no tie matters |
| Doubles.NearestIsClosest | sdk-package/src/snap-client.ts:1446-1451 | the rounding is to the nearest integer, and a tie goes to the even one |
| Doubles.ScaleFills | sdk-package/src/snap-client.ts:1446-1451 | it is done at the scale at which the number has exactly 53 bits |
| Fees.FeeIsExactIff | sdk-package/src/snap-client.ts:1446-1451 | on valid pools the clients' protocol fee is the exact rate rounded down if and only if the rounded product stays half a unit clear of the neighbouring multiples |
| Fees.SmallProductIsExact | sdk-package/src/snap-client.ts:1446-1451 | it is whenever the product is below 2^53 |
| Fees.ThreeSplitsAgree | relayer/src/service.ts:665-680 | relayer and SDK always compute one split, each split that anyone accepts adds up to the denomination and leaves the recipient something, and all three agree if the clients' fee is exact |
| Fees.SplitsAgreeIff | sdk-package/src/snap-client.ts:994-1007 | program, relayer and SDK accept the same relayer fees with the same splits if and only if the clients' protocol fee is exact |
| Fees.NeverRefusedIff | relayer/src/service.ts:672-678 | the program refuses no relayer fee that the clients accept, if and only if rounding does not lower the clients' protocol fee |
| Fees.SmallPoolsAgree | programs/agent-privacy-pool/src/lib.rs:461-481 | they agree on every pool whose fee product is a safe integer, hence on every pool of at most 18014398509481 units |
| Fees.LargePoolDisagrees | programs/agent-privacy-pool/src/lib.rs:43-57 | a pool that can be created on which the clients compute one unit more than the program |
| Fees.LargePoolRefuses | programs/agent-privacy-pool/src/lib.rs:469-481 | a pool that can be created, with a relayer fee that the clients accept and the program refuses |
| Fees.PlainSplitAgrees | sdk-package/src/snap-client.ts:994-1007 | the same for pools without protocol fee, read by clients as rate 0 |
| Fees.SignedFeeIsExpected | relayer/src/fee-calculator.ts:4-23 | the fee a client signs is the fee the relayer expects, since both round alike |
| Fees.CalculateFeeIsTheLarger | relayer/src/fee-calculator.ts:4-23 | the relayer fee is refused exactly for an amount that is not positive or a negative rate or minimum; else it is the larger of the minimum and the rounded share, the exact share when the product is safe |
| Fees.SmallShareIsExact | relayer/src/fee-calculator.ts:21 | the share is the exact rate rounded down whenever the product is below 2^53, at any rate |
| PoolSafety.InitializeEstablishes | programs/agent-privacy-pool/src/lib.rs:571-599 | a new pool satisfies the invariant over no deposits |
| PoolSafety.InitializeAcceptedIff | programs/agent-privacy-pool/src/lib.rs:498-599 | a pool can be created exactly with depth 10 or 20 (a legacy pool always has 10), a positive denomination that is a safe integer, and a rate of at most 500 |
| PoolSafety.InitializedAsGiven | programs/agent-privacy-pool/src/lib.rs:571-599 | a new pool has the authority, denomination and depth it was given, a fee-capable one the given treasury and rate, another no fee; roots and counters are zero, the stored nodes are the zero subtrees |
| PoolSafety.InitializedOverRuns | programs/agent-privacy-pool/src/lib.rs:635-650 | over every run of a new fee-capable pool the authority is the one given, and the treasury is the one given until that authority sets another, then the one it set last |
| PoolSafety.TreasuryIsLastSet | programs/agent-privacy-pool/src/lib.rs:635-650 | the same from any pool on: the treasury is the one set last by a call that the program accepts |
| PoolSafety.PushLeafHolds | programs/agent-privacy-pool/src/lib.rs:322-340 | an append keeps tree, ring and counters in step with the list of deposits |
| PoolSafety.DepositKeeps | programs/agent-privacy-pool/src/lib.rs:674-706 | an accepted deposit keeps the whole invariant, over one more leaf |
| PoolSafety.DepositAcceptedIff | programs/agent-privacy-pool/src/lib.rs:674-706 | a deposit is accepted exactly when signed, funded, nonzero, sent to the expected page, and the tree has room |
| PoolSafety.DepositMovesOneDenomination | programs/agent-privacy-pool/src/lib.rs:682-691 | it moves one denomination into the vault and touches no other balance and no nullifier |
| PoolSafety.DepositRefusalsAreTrue | programs/agent-privacy-pool/src/lib.rs:270-320 | every error of a deposit to a reachable pool is true of it: no signature, a zero commitment, too little money, a full tree, the wrong page; no other error occurs |
| PoolSafety.VerifiedNoteWasDeposited | programs/agent-privacy-pool/src/lib.rs:387-413 | whoever passes the root check and the verifier withdraws a note that was deposited |
| PoolSafety.UnspentIsCovered | programs/agent-privacy-pool/src/lib.rs:956-996 | pigeonhole: while a deposited nullifier is unspent, fewer notes are spent than deposited and the vault holds a denomination |
| PoolSafety.SplitIsDenomination | programs/agent-privacy-pool/src/lib.rs:469-481 | the transfers of an accepted split add up to one denomination |
| PoolSafety.WithdrawKeeps | programs/agent-privacy-pool/src/lib.rs:956-996 | an accepted withdrawal keeps the whole invariant |
| PoolSafety.WithdrawIsPayable | programs/agent-privacy-pool/src/lib.rs:216-240 | in a reachable pool no withdrawal that passes its checks fails for lack of funds |
| PoolSafety.WithdrawPaysExactly | programs/agent-privacy-pool/src/lib.rs:1217-1290 | recipient, relayer and treasury get exactly their shares, also when accounts coincide, the vault loses exactly that, nobody else changes |
| PoolSafety.WithdrawPaysFees | programs/agent-privacy-pool/src/lib.rs:1156-1290 | in balances of any account but the vault: every accepted withdrawal, direct or relayed, pays the treasury of a fee-capable pool the rate of the denomination rounded down and of another pool nothing, the relayer its fee if there is one, and the recipient the rest, which is positive; coinciding accounts get the sum |
| PoolSafety.WithdrawAcceptedIff | programs/agent-privacy-pool/src/lib.rs:387-413 | a withdrawal is accepted exactly when accounts and fee are in order, the nullifier is new and not the zero note's, the root is one of the last thirty and the proof verifies |
| PoolSafety.WithdrawRefusalsAreTrue | programs/agent-privacy-pool/src/lib.rs:387-413 | every error of a withdrawal from a reachable pool is true of it: a spent nullifier, a wrong treasury, fees that leave nothing, the zero note, a root that thirty deposits followed or none had, a proof that does not verify; no other error occurs |
| PoolSafety.ProofBindsRecipient | programs/agent-privacy-pool/src/lib.rs:169-174 | an accepted withdrawal is accepted for another recipient if and only if the two keys differ at most in their last byte |
| PoolSafety.ProofLeavesRelayerOpen | programs/agent-privacy-pool/src/lib.rs:1217-1240 | with another relayer and fee it is accepted if and only if that relayer can sign and that fee can be split |
| PoolSafety.RunKeeps | programs/agent-privacy-pool/src/lib.rs:299-341 | every run of instructions keeps the invariant over the deposits accepted so far |
| PoolSafety.Solvency | programs/agent-privacy-pool/src/lib.rs:956-996 | over every run from initialization: nullifier_count counts the spent nullifiers, is at most next_index, and the vault covers a denomination for each deposit not withdrawn |
| PoolSafety.RunFixesConfiguration | programs/agent-privacy-pool/src/lib.rs:635-650 | no run changes the denomination, the rate, the depth, the vault or the version of a pool |
| PoolSafety.NoDoubleSpend | programs/agent-privacy-pool/src/lib.rs:1984-1991 | once withdrawn, a nullifier is refused after every further run, whatever proof, recipient or relayer is used |
| PoolSafety.CountersFit | programs/agent-privacy-pool/src/lib.rs:336-339 | no reachable counter leaves its machine type |
| PoolAccounts.ComputeZeroHashes | programs/agent-privacy-pool/src/lib.rs:74-84 | the loop lists the hashes of the zero subtrees, lowest first |
| PoolAccounts.PoolAccount.UpdateTreasury | programs/agent-privacy-pool/src/lib.rs:635-650 | only the authority of a fee-capable pool succeeds, and only the treasury changes |
| PoolAccounts.PoolAccount.PushLeaf | programs/agent-privacy-pool/src/lib.rs:322-340 | the loop over the account's arrays computes the functional append, touching nothing else |
| PoolAccounts.PoolAccount.AppendLegacy | programs/agent-privacy-pool/src/lib.rs:270-297 | the inline append in place is the functional one, its refusal included |
| PoolAccounts.PoolAccount.AppendPaged | programs/agent-privacy-pool/src/lib.rs:299-341 | pool and page updated in place are the functional append, its refusals included |
| PoolAccounts.PoolAccount.Deposit | programs/agent-privacy-pool/src/lib.rs:652-706 | the deposit in place is the functional deposit; a refused one leaves no trace |
| PoolAccounts.PoolAccount.VerifyWithdraw | programs/agent-privacy-pool/src/lib.rs:387-413 | the checks in the program's order, with the program's errors |
| PoolAccounts.PoolAccount.Pay | programs/agent-privacy-pool/src/lib.rs:1249-1281 | the transfers in the program's order have the effect of paying the whole split |
| PoolAccounts.PoolAccount.Withdraw | programs/agent-privacy-pool/src/lib.rs:956-996 | the withdrawal in place is the functional one; a refused one leaves no trace |
| Withdrawability.FindCommitmentIndex | sdk-package/src/proof.ts:150-164 | a right hint is taken, else the first position of the commitment, else -1 |
| Withdrawability.FoldIsInjective | sdk-package/src/proof.ts:58-66 | on one path, two different leaves never fold to the same root |
| Withdrawability.GenerateWithdrawProof | sdk-package/src/proof.ts:29-97 | succeeds exactly for a stored, well-formed note in a tree it fits, with a verifying proof about the root of the stored list; each error is the one for the check that fails first |
| Withdrawability.StoredCommitmentsAreLeaves | sdk-package/src/snap-client.ts:1091-1143 | in every reachable pool of every kind, what the SDK reads is the list of deposits |
| Withdrawability.AcceptedIffRecent | sdk-package/src/proof.ts:40-66 | a proof made at an earlier state is accepted exactly while fewer than thirty deposits followed |
| Withdrawability.EndToEnd | sdk-package/src/proof.ts:29-97 | the same over every run before and after proof generation, from initialization on |
| Withdrawability.PrepareWithdrawal | sdk-package/src/snap-client.ts:414-440 | reading the commitments, generating the proof and filling in the call gives a withdrawal that the program accepts exactly if the call is well-formed, and after every further run that leaves the note unspent exactly while fewer than thirty deposits followed |
| RelayStores.RelayStore.ReservePending | relayer/src/store.ts:217-289 | the transaction admits, limits or refuses as specified, and adds exactly one row exactly when it admits |
| RelayStores.RelayStore.MarkSubmitted | relayer/src/store.ts:292-319 | exactly the named row changes, to submitted with signature, time and expiry; an unknown id changes nothing |
| RelayStores.RelayStore.MarkConfirmed | relayer/src/store.ts:321-343 | exactly the named row changes; missing values keep what was stored |
| RelayStores.RelayStore.RecordFeeBreakdown | relayer/src/store.ts:345-364 | exactly the fees of the named row change |
| RelayStores.RelayStore.RescheduleSubmitted | relayer/src/store.ts:366-382 | the named row becomes submitted whatever it was, and keeps its transaction |
| RelayStores.RelayStore.MarkFailed | relayer/src/store.ts:384-412 | the named row becomes failed or pending, one retry is counted, the transaction is cleared on demand |
| RelayStores.RelayStore.MarkExpired | relayer/src/store.ts:414-429 | the named row becomes expired and keeps everything else |
| RateLimit.ReserveKeepsWindows | relayer/src/store.ts:217-289 | a reservation keeps every closed window within the limit, per address and overall, whatever its clock reads; a duplicate consumes nothing |
| RateLimit.AdmittedIff | relayer/src/store.ts:217-289 | a request is admitted exactly when its own address has fewer rows in the window than its limit, all addresses together fewer than theirs, and the nullifier is new; else the limit is named before the duplicate, with the time until the oldest row counted leaves the window |
| RateLimit.OldestIsEarliest | relayer/src/store.ts:217-258 | that oldest row is one of those counted, and none of them is older |
| RateLimit.EveryWindowIsBounded | relayer/src/store.ts:164-429 | so does every history of requests and of the store's updates, on clocks that may run backwards |
| RateLimit.UpdatesKeepArrival | relayer/src/store.ts:292-429 | no update of the store touches when and from where a request arrived |
| RateLimit.EveryRunIsBounded | relayer/src/store.ts:217-289 | hence every run of the relayer, with any handlers, retry managers, clocks and crashes, keeps every window within the limits |
| RateLimit.LimitsKeptIff | relayer/src/store.ts:232-258 | the configured limits hold over all histories exactly when neither is 0 |
| RateLimit.RetryAfterSuffices | relayer/src/rate-limiter.ts:36-55 | a caller refused for its address who waits longer than retryAfter passes that check, if nothing was admitted meanwhile |
| RateLimit.RetryAfterIsNeeded | relayer/src/rate-limiter.ts:36-55 | retryAfter is no longer than needed: whoever comes back sooner is refused again |
| RateLimit.RefusedUntil | relayer/src/rate-limiter.ts:36-55 | for one address or for all: if nothing is admitted meanwhile, the check still refuses at a later time if and only if the oldest row counted has not yet left the window |
| RelaySafety.ResumeIsSound | relayer/src/service.ts:384-578 | whatever a worker writes on an honest answer, however stale its snapshot: a confirmed row's nullifier is spent and its fees are recorded |
| RelaySafety.ExecIsSafe | relayer/src/service.ts:139-192 | every run of any number of workers, blocks, foreign spends and crashes keeps the safety invariant |
| RelaySafety.ConfirmedMeansSpent | relayer/src/service.ts:300-302 | under every interleaving a confirmed request, hence every success response, has its nullifier spent on chain |
| RelaySafety.PaidAtMostOnce | relayer/src/service.ts:322-382 | at most one payout per request; if it is the relayer's, one denomination to the stored recipient at the stored fee; a confirmed request has it, and its row records the relayer fee paid, and the protocol fee paid if and only if that is exact in doubles |
| RelaySafety.TransactionsCarryTheRequest | relayer/src/service.ts:330-342 | every transaction ever sent, refused ones included, carries the recipient and fee of the one row with its nullifier |
| RelaySingle.ResumeKeepsShape | relayer/src/store.ts:292-412 | each step of an up-to-date worker keeps the shape of its row |
| RelaySingle.OrderlyRunIsSingle | relayer/src/service.ts:289-320 | every run with one worker per record and no crash during a send keeps shapes, snapshots and at most one live transaction |
| RelaySingle.AtMostOneLiveTransaction | relayer/src/tx-builder.ts:340-364 | two transactions of one request that a block could still take up are the same |
| RelaySingle.ResubmittedOnlyWhenSettled | relayer/src/service.ts:464-472 | when a request is submitted again, each transaction ever sent for it has been refused, has been executed or has expired |
| RelaySingle.LiveIsWrittenDown | relayer/src/service.ts:355-381 | ambiguous sends go to submitted, never back to pending: in such runs a live transaction that no worker is just sending belongs to a request that is not pending and, if submitted, stores it |
| RelaySingle.SignaturesAreNeverMissing | relayer/src/service.ts:388-396 | the shape of every record in every such run, so neither error about a missing signature can occur; at most maxRetries + 1 retries |
| RelaySingle.CheckedBeforeSubmitted | relayer/src/service.ts:98-134 | in such runs nothing was ever sent, refused sends included, for a request whose handler is still checking it |
| RelaySingle.TerminalIsFinal | relayer/src/store.ts:458-480 | in such runs a terminal row never changes again |
| RelaySingle.CrashLeavesLiveIff | relayer/src/service.ts:332-349 | a crash leaves a pending request with a transaction that may still be executed exactly when it interrupts the send of such a transaction |
| RelayReopening.TerminalIsFinalIff | relayer/src/store.ts:384-429 | a terminal request stays terminal in every continuation exactly when no worker that can reopen it is left |
| RelayReopening.Reopening | relayer/src/service.ts:480-495 | every such worker does reopen it in some continuation, which the lemma builds |
| RelayTiming.QuietUntilDueIff | relayer/src/store.ts:458-480 | a record that nobody is processing keeps its row and has nothing sent for it in every run that takes records up no later than some time, if and only if that time is before its next attempt |
| RelayRaces.UnsendableIsNeverSent | relayer/src/service.ts:139-153 | nothing is ever sent for a request with an unusable payload or an infeasible fee, under any interleaving |
| RelayRaces.HeldSends | relayer/src/service.ts:322-342 | a worker that took up any other pending row can send a transaction for it, whatever everybody else is doing |
| RelayRaces.SubmittedBeforeCheckedIff | relayer/src/retry.ts:48-65 | in every reachable state with a handler checking a pending request, a live transaction for it before the checks are over is ahead if and only if the payload is usable and the fee feasible |
| RelayRaces.TwoLiveIff | relayer/src/retry.ts:48-65 | in every reachable state with a pending request, two live transactions for it are ahead if and only if the payload is usable and the fee feasible |
| RelayLanding.ConfirmationVouchesIff | relayer/src/service.ts:384-462 | the answer that confirms a record shows that the stored transaction paid if and only if a signature was looked up, or the status asked for was that of the stored signature |
| RelayLanding.ConfirmedMeansLanded | relayer/src/service.ts:442-461 | with one worker per record, a confirmed record stores a transaction that paid, unless it was confirmed on the bare word that its nullifier is used |
| RelayLimits.TwoWorkersTwoLive | relayer/src/retry.ts:48-65 | for every configuration and request in order, a run in which handler and retry manager have two live transactions |
| RelayLimits.CrashTwoLive | relayer/src/service.ts:332-349 | the same with one worker at a time and a crash during a send |
| RelayLimits.SubmittedBeforeChecked | relayer/src/retry.ts:48-65 | for every configuration and request in order, a run in which it is submitted while it is being checked |
| RelayLimits.ConfirmedIsNotFinal | relayer/src/store.ts:384-412 | for every configuration and request in order, a run in which it is confirmed and then no longer terminal, pending if a retry is allowed |
| RelayLimits.ConfirmedByForeignSpend | relayer/src/service.ts:442-461 | a run that confirms it though the stored transaction was never executed, after a foreign spend |
| RelayLimits.ConfirmedByEarlierSend | relayer/src/service.ts:442-472 | another one without foreign spend, second worker or crash: an earlier transaction of its own landed unseen |
| RelayPass.PendingPass | relayer/src/service.ts:322-382 | a pass over a pending row sends at most one transaction, keeps the request, ends in one of four outcomes, and throws only on an infeasible fee, then without a send |
| RelayPass.SubmittedPass | relayer/src/service.ts:384-478 | a pass over a submitted row sends nothing, and leaves it submitted only if its last question got an error, an unsettled answer, or a height within the blockhash's life |
| RelayPass.PassProgress | relayer/src/service.ts:139-192 | every pass that returns makes (retries left, status, patience) smaller and stays within its allowance of transactions; one that throws has an infeasible fee |
| RelayOutcomes.SettledOutcome | relayer/src/service.ts:414-433 | a transaction found settled confirms its request, with the stored signature and send time and the fees recorded |
| RelayOutcomes.UnsettledOutcome | relayer/src/service.ts:435-440 | one found without error and not settled, or an error, only has the row asked for again after the poll interval |
| RelayOutcomes.ErroredOutcome | relayer/src/service.ts:398-412 | a transaction that failed confirms the request if its nullifier is used and a spender found, with that signature; else the request has failed for good and keeps what it stores |
| RelayOutcomes.UnknownOutcome | relayer/src/service.ts:442-477 | of a transaction nobody knows: a used nullifier confirms, an expired blockhash counts a retry and makes the row pending again or failed, everything else has it asked for again |
| RelayOutcomes.SubmittedConfirmedIff | relayer/src/service.ts:384-478 | a whole pass over a submitted row confirms it exactly on these three answers: settled, unknown with a used nullifier, failed with a spender found |
| RelayOutcomes.SendOutcome | relayer/src/service.ts:344-381 | a sent transaction, and one whose send ended ambiguously, makes the row submitted with that transaction, the time, the expiry and the fees; a refused one is recovered or counts as a failed attempt |
| RelayOutcomes.PrepareOutcome | relayer/src/service.ts:322-342 | so does a transaction that could not be prepared |
| RelayOutcomes.PendingUsedOutcome | relayer/src/service.ts:497-540 | a pending request found spent is confirmed exactly if a spender is found, with its signature and the time of the attempt; else the attempt has failed |
| RelayOutcomes.PendingSubmittedIff | relayer/src/service.ts:322-382 | a whole pass over a pending row with a feasible fee submits it exactly when its transaction is prepared and the send succeeds or is ambiguous |
| RelayOutcomes.UnreadPoolOutcome | relayer/src/service.ts:155-170 | without the pool a pending row has one failed attempt more, a submitted one is asked for again |
| RelayOutcomes.UnusableExpires | relayer/src/service.ts:133-148 | a row without a usable payload expires, unasked and unsent |
| RelayOutcomes.FailureOutcome | relayer/src/service.ts:480-495 | a failed attempt counts one retry: again pending, without transaction, after the delay for the count so far if the failure is retryable and retries are left; else failed |
| RelayOutcomes.FailureOnSnapshot | relayer/src/service.ts:480-495 | for a stale worker the count goes up on the row, but its snapshot decides on finality, delay and what is kept |
| RelayOutcomes.BackoffEntry | relayer/src/service.ts:593-597 | the delay is the entry of the list that the retry count names, and the last entry from there on |
| RelayOutcomes.ChecksOutcome | relayer/src/service.ts:279-287 | failed checks expire a request if the client is to blame and fail it otherwise |
| RelayOutcomes.SentAndSettledConfirms | relayer/src/service.ts:289-320 | a pending request whose transaction is sent, clearly or not, and found settled by the next pass ends confirmed with that transaction after two turns of the loop |
| RelayOutcomes.SettledInTheEnd | relayer/src/service.ts:289-320 | so does, at any turn of the loop, a submitted request whose transaction the next pass finds settled |
| RelayOutcomes.LoopEndsOnce | relayer/src/service.ts:289-320 | wherever the loop is over, it is over with the same row |
| RelayService.ProductionRelayService.HandleSubmissionFailure | relayer/src/service.ts:480-495 | the row written is the specified one, computed from the snapshot |
| RelayService.ProductionRelayService.SubmitPendingRecord | relayer/src/service.ts:322-382 | the method with its recovery does to store and clock what the protocol's resumptions do, strung together |
| RelayService.ProductionRelayService.SendPrepared | relayer/src/service.ts:344-381 | the same from the send on: sent, ambiguous or refused |
| RelayService.ProductionRelayService.SubmissionFailed | relayer/src/service.ts:497-540 | the same for the recovery of a pending request that is already spent |
| RelayService.ProductionRelayService.RecoverFailedTransaction | relayer/src/service.ts:542-585 | the same for a transaction that failed on chain |
| RelayService.ProductionRelayService.InspectSubmittedRecord | relayer/src/service.ts:384-478 | the same for the inspection of a submitted record |
| RelayService.ProductionRelayService.ProcessRecord | relayer/src/service.ts:139-192 | the same for a whole pass, and it throws exactly when the pass does |
| RelayService.ProductionRelayService.WaitForTerminalState | relayer/src/service.ts:289-320 | in a fair environment the loop terminates, with a terminal row and no exception if the fee is feasible; it hands at most maxRetries + 1 transactions to the network and counts at most as many retries; success exactly for a confirmed row, which has a signature; store and clock are left as that many turns of the specified loop leave them |
| RelayService.ProductionRelayService.Relay | relayer/src/service.ts:98-137 | a request that is not reserved or fails its checks, an infeasible fee included, sends nothing; a reserved one always ends with a terminal row, an exception exactly after failed checks, and at most maxRetries + 1 sends; other rows are untouched; refused checks leave it expired or failed by whose fault it is; a request whose transaction is sent and settles is answered with success, that transaction and its fees |
| RelayService.NeverThrowsAfterFetching | relayer/src/service.ts:169-191 | once the pool is read and the fee is feasible, no exception escapes processing |
| RelayedWithdrawal.ExecutionMatchesProgram | relayer/src/tx-builder.ts:330-352 | what the protocol takes a block to do with a transaction is what the program does with the withdrawal it carries: same nullifiers, same split |
| RelayedWithdrawal.JointRunsAgree | relayer/src/tx-builder.ts:330-365 | over every joint run of relayer, network, pool and everybody else, the relayer's part is a run of the protocol, the pool's part a run of the program, and they agree on the spent nullifiers and, in order, on every withdrawal paid with its recipient and split |
| RelayedWithdrawal.ConfirmedIsWithdrawn | relayer/src/service.ts:300-302 | in every joint run a confirmed request's nullifier is one the program has recorded, with a withdrawal it accepted |
| RelayedWithdrawal.ConfirmedIsNeverPaidAgain | programs/agent-privacy-pool/src/lib.rs:2232-2239 | and the program refuses that nullifier after every further run |
| SpendLimits.SpendLimiter.Check | sdk-package/src/spend-limits.ts:20-78 | the decision and the pruned history, and that static refusals prune nothing |
| SpendLimits.SpendLimiter.Record | sdk-package/src/spend-limits.ts:80-84 | the pruned history and the new entry at its end |
| SpendLimits.PruningNeverMatters | sdk-package/src/spend-limits.ts:129-132 | while time does not run backwards, a check on the pruned history decides as on the full one |
| SpendLimits.EveryWindowIsBounded | sdk-package/src/snap-client.ts:420-428 | if records follow allowed checks with no record in between, every rolling hour and day of everything ever recorded is within its limit |
| SpendLimits.InterleavedChecksExceed | sdk-package/src/snap-client.ts:584-586 | four calls in the client's order that exceed the hourly limit when two withdrawals interleave |
| SpendLimits.StormExceeds | sdk-package/src/snap-client.ts:672-680 | under every policy that lets a unit through, enough withdrawals that all check before any records exceed the hourly limit |
| SpendLimits.LimitsSurviveInterleavingIff | sdk-package/src/snap-client.ts:753-755 | if every record only has an allowed check of its own, the limits hold over all call sequences exactly under policies that allow nothing |
| ProofCodec.BytesRoundTrip | sdk-package/src/commitment.ts:100-103 | reading what was written gives the number back |
| ProofCodec.BigintRoundTrip | sdk-package/src/commitment.ts:89-103 | and writing what was read gives the bytes back |
| ProofCodec.PaddedDigits | sdk-package/src/commitment.ts:90 | the padded hexadecimal text of a number that fits has exactly its digits |
| ProofCodec.BigintToBytes | sdk-package/src/commitment.ts:89-98 | the detour over hexadecimal text writes the big-endian bytes of a value that fits, and the longer form described of one that does not |
| ProofCodec.WrittenRoundTripIff | sdk-package/src/commitment.ts:89-103 | a value is read back from what was written exactly when it fits, or has an even number of digits, or just one |
| ProofCodec.NegateG1Y | sdk-package/src/proof.ts:166-176 | the first word stays, the second becomes its distance to the prime |
| ProofCodec.FormatProofForSolana | sdk-package/src/proof.ts:125-148 | the three parts are the 256 bytes of the layout, with y negated and limbs swapped |
| ProofCodec.DecodedIff | relayer/src/proof-verifier.ts:90-116 | a proof is decoded exactly when it has 256 bytes; writing the coordinates back, limbs swapped, gives its bytes |
| ProofCodec.ProofRoundTrip | relayer/src/proof-verifier.ts:90-116 | the relayer decodes every proof over the field back to the same points, y = 0 included |

## Left out

Weaker than the code, on purpose:

- RelayService.ProductionRelayService.WaitForTerminalState: does not sleep until a row is due; the clock only orders questions. Termination assumes that from some question on no call fails and no signature stays merely processed, and that blocks keep coming, which the code cannot ensure.
- RelayService.ProductionRelayService.Relay: the signed envelope and the payload validation are one flag of the request; the pool, nullifier, fee and proof checks are one answer.
- RelaySingle.OrderlyRunIsSingle: assumes one worker per record and no crash during a send; `TwoLiveIff` and `CrashLeavesLiveIff` say when each is needed.
- SdkMerkleTree.PoseidonMerkleTree.GetProof: a hash of a missing zero subtree is an error; whether the hash itself has been loaded is not modelled.
- ProofCodec.NegateG1Y: only for y up to the prime, as the prover returns it.
- PoolAccounts.PoolAccount.Deposit: the page the runtime passes is tied to the pool's pages by a ghost argument, since looking up an account by its address is the runtime's work.
- SpendLimits.EveryWindowIsBounded: assumes time does not run backwards, and that no other record comes between a check and its record; `LimitsSurviveInterleavingIff` says what holds without the latter.

Not modelled:

- Groth16, Poseidon, the verifying keys and the circuits: replaced by the ideal proof system and free terms, with path bits that are 0 or not 0; hash inputs outside the field and hashing errors do not occur.
- Program-derived addresses, account sizes, rent, compute budget and serialization: a record that must not exist is a set that must not contain it; rent is ignored.
- Token pools: one ledger of balances stands for lamports and tokens, so the asset checks are absent.
- The three copies of the append loop and the withdrawals per pool kind: one definition with the kind as a field, each kind's checks, errors and payment order kept.
- The recipient input that the legacy relayed instruction takes as an argument: a wrong one fails with the error of a wrong proof.
- The `demo` withdrawal with SHA-256 commitments, which is not built by default.
- JavaScript numbers beyond products and quotients of amounts: spend-limit sums are integers, numbers do not overflow to infinity; display amounts, error texts, metrics and `updated_at` are absent.
- The in-flight flag and the order of the retry manager: it is any number of workers that snapshot due rows, which allows more.
- `getPending`, `getStats`, health and info endpoints, HTTP handling, configuration.
- Serialization of the spend limiter, the note store, histories, key handling and encryption.
- Scripts, integrations, agent wrappers, and the older copies of the tree under `sdk/`.
