/** The relayer's submission protocol as steps over the request table, the
    workers that hold requests, and the chain. Every await of the service is a
    point where other steps may happen. */
module RelayProtocol {
  import opened Outcomes
  import opened FieldTerms
  import opened Fees
  import opened RelayStores

  datatype Config = Config(
    maxRetries: nat,
    confirmationPollMs: nat,
    retryBackoffMs: seq<nat>,
    limits: Limits,
    depositAmount: nat,
    protocolFeeBps: nat)

  predicate ValidConfig(cfg: Config) {
    && ValidDenomination(cfg.depositAmount)
    && cfg.protocolFeeBps <= MAX_PROTOCOL_FEE_BPS
    && |cfg.retryBackoffMs| > 0
  }

  // ---------- one worker ----------

  /** How the service classifies an error: may it be retried, and does its
      message say that the nullifier account exists already. */
  datatype Failure = Failure(retryable: bool, alreadyInUse: bool)

  /** Where a worker waits. */
  datatype Pc =
    | Checking                                        // relay: pool state, nullifier and proof checks
    | Waiting                                         // relay: head of the polling loop
    | Held                                            // retry manager: record read, not begun
    | Fetching                                        // fetchPoolState
    | Preparing(submittedAt: int)                     // blockhash and transaction
    | Sending(tx: Tx, submittedAt: int)               // sendRawTransaction
    | PendingUsed(failure: Failure, submittedAt: int) // isNullifierUsed after a refused submission
    | PendingFind(failure: Failure, submittedAt: int) // findNullifierSpendSignature, ditto
    | Inspecting                                      // getSignatureStatus
    | SubmittedUsed                                   // isNullifierUsed after a failed transaction
    | SubmittedFind                                   // findNullifierSpendSignature, ditto
    | LookingUp                                       // isNullifierUsed for a signature not found
    | ReadingHeight                                   // getCurrentBlockHeight

  datatype Answer =
    | Threw(failure: Failure)
    | ChecksPassed
    | ChecksRejected(clientError: bool)
    | PoolRead
    | Prepared(blockhash: int, lastValidBlockHeight: int)
    | Sent
    | SendAmbiguous
    | SendRejected(failure: Failure)
    | NullifierUsed(used: bool)
    | SpendFound(spender: Option<Signature>)
    | SignatureStatus(found: bool, err: bool, settled: bool)
    | Height(height: int)

  /** What follows an await: another await, the end of processing, or an exception. */
  datatype After = Await(pc: Pc) | Return | Throw

  datatype Effect = Effect(row: Row, after: After)

  function Feasible(cfg: Config, row: Row): bool {
    RelayerBreakdown(cfg.depositAmount, cfg.protocolFeeBps, row.request.fee).Some?
  }

  function WithBreakdown(cfg: Config, row: Row): Row {
    match RelayerBreakdown(cfg.depositAmount, cfg.protocolFeeBps, row.request.fee)
    case Some(s) => WithFees(row, s.protocolFee, s.relayerFee)
    case None => row
  }

  function BackoffMs(cfg: Config, retries: nat): nat
    requires |cfg.retryBackoffMs| > 0
  {
    cfg.retryBackoffMs[if retries < |cfg.retryBackoffMs| then retries else |cfg.retryBackoffMs| - 1]
  }

  function HandleSubmissionFailure(cfg: Config, now: int, current: Row, record: Row, failure: Failure): Row
    requires |cfg.retryBackoffMs| > 0
  {
    var finalFailure := !failure.retryable || record.retries >= cfg.maxRetries;
    var preserveSubmission := finalFailure && record.status == Submitted;
    AsFailed(current, if finalFailure then now else now + BackoffMs(cfg, record.retries), finalFailure, !preserveSubmission)
  }

  function Rescheduled(cfg: Config, now: int, current: Row): Effect {
    Effect(AsRescheduled(current, now + cfg.confirmationPollMs), Return)
  }

  /** The catch clause of a submission. */
  function SubmissionThrew(cfg: Config, now: int, current: Row, record: Row, failure: Failure, submittedAt: int): Effect
    requires |cfg.retryBackoffMs| > 0
  {
    if failure.alreadyInUse then Effect(current, Await(PendingUsed(failure, submittedAt)))
    else Effect(HandleSubmissionFailure(cfg, now, current, record, failure), Return)
  }

  function TxFor(request: Request, blockhash: int, lastValidBlockHeight: int): Tx {
    Tx(request.nullifierHash, request.recipient, request.fee, blockhash, lastValidBlockHeight)
  }

  /** The synchronous start of processing a record. */
  function Begin(now: int, current: Row, record: Row): Effect {
    if !record.request.usable then Effect(AsExpired(current, now), Return)
    else Effect(current, Await(Fetching))
  }

  /** What a worker that holds the snapshot `record` does to the row, now
      `current`, when an await is answered. An answer that does not belong to
      the await is ignored. */
  function Resume(cfg: Config, now: int, current: Row, record: Row, pc: Pc, ans: Answer): Effect
    requires |cfg.retryBackoffMs| > 0
  {
    match (pc, ans)
    case (Checking, ChecksPassed) =>
      // the checks compute the breakdown, which throws a server error
      if Feasible(cfg, record) then Effect(current, Await(Waiting))
      else Effect(AsFailed(current, now, true, true), Throw)
    case (Checking, ChecksRejected(clientError)) =>
      Effect(if clientError then AsExpired(current, now) else AsFailed(current, now, true, true), Throw)

    case (Fetching, Threw(f)) =>
      if record.status == Submitted then Rescheduled(cfg, now, current)
      else Effect(HandleSubmissionFailure(cfg, now, current, record, f), Return)
    case (Fetching, PoolRead) =>
      if record.status == Submitted then
        if record.signature.None? then Effect(AsFailed(current, now, true, true), Return)
        else Effect(current, Await(Inspecting))
      else if record.status == Pending then
        if Feasible(cfg, record) then Effect(current, Await(Preparing(now)))
        else Effect(current, Throw)
      else Effect(current, Return)

    case (Preparing(at), Threw(f)) => SubmissionThrew(cfg, now, current, record, f, at)
    case (Preparing(at), Prepared(blockhash, lastValid)) =>
      Effect(current, Await(Sending(TxFor(record.request, blockhash, lastValid), at)))
    case (Sending(tx, at), Sent) =>
      Effect(WithBreakdown(cfg, AsSubmitted(current, Own(tx), at, tx.lastValidBlockHeight)), Return)
    case (Sending(tx, at), SendAmbiguous) =>
      Effect(WithBreakdown(cfg, AsRescheduled(AsSubmitted(current, Own(tx), at, tx.lastValidBlockHeight), at)), Return)
    case (Sending(tx, at), SendRejected(f)) => SubmissionThrew(cfg, now, current, record, f, at)

    case (PendingUsed(f, at), NullifierUsed(used)) =>
      if used then Effect(current, Await(PendingFind(f, at)))
      else Effect(HandleSubmissionFailure(cfg, now, current, record, f), Return)
    case (PendingUsed(f, at), Threw(_)) => Effect(HandleSubmissionFailure(cfg, now, current, record, f), Return)
    case (PendingFind(f, at), SpendFound(found)) =>
      if found.Some? && Feasible(cfg, record) then
        Effect(AsConfirmed(WithBreakdown(cfg, current), found, Some(at), now), Return)
      else Effect(HandleSubmissionFailure(cfg, now, current, record, f), Return)
    case (PendingFind(f, at), Threw(_)) => Effect(HandleSubmissionFailure(cfg, now, current, record, f), Return)

    case (Inspecting, Threw(_)) => Rescheduled(cfg, now, current)
    case (Inspecting, SignatureStatus(found, err, settled)) =>
      if found && err then Effect(current, Await(SubmittedUsed))
      else if found && settled && Feasible(cfg, record) then
        Effect(AsConfirmed(WithBreakdown(cfg, current), None, None, now), Return)
      else if found then Rescheduled(cfg, now, current)
      else Effect(current, Await(LookingUp))
    case (SubmittedUsed, NullifierUsed(used)) =>
      if used then Effect(current, Await(SubmittedFind))
      else Effect(AsFailed(current, now, true, false), Return)
    case (SubmittedUsed, Threw(_)) => Effect(AsFailed(current, now, true, false), Return)
    case (SubmittedFind, SpendFound(found)) =>
      if found.Some? && Feasible(cfg, record) then
        Effect(AsConfirmed(WithBreakdown(cfg, current), found, record.submittedAt, now), Return)
      else Effect(AsFailed(current, now, true, false), Return)
    case (SubmittedFind, Threw(_)) => Effect(AsFailed(current, now, true, false), Return)

    case (LookingUp, Threw(_)) => Rescheduled(cfg, now, current)
    case (LookingUp, NullifierUsed(used)) =>
      if used && Feasible(cfg, record) then
        Effect(AsConfirmed(WithBreakdown(cfg, current), None, None, now), Return)
      else if used || record.lastValidBlockHeight.None? then Rescheduled(cfg, now, current)
      else Effect(current, Await(ReadingHeight))
    case (ReadingHeight, Threw(_)) => Rescheduled(cfg, now, current)
    case (ReadingHeight, Height(h)) =>
      if record.lastValidBlockHeight.Some? && h > record.lastValidBlockHeight.value then
        Effect(HandleSubmissionFailure(cfg, now, current, record, Failure(true, false)), Return)
      else Rescheduled(cfg, now, current)

    case _ => Effect(current, Await(pc))
  }

  // ---------- the system ----------

  /** `record` is the snapshot the worker acts on. */
  datatype Worker = Worker(id: nat, http: bool, pc: Pc, record: Row)

  /** Who sent a transaction: the request and the worker. */
  datatype Origin = Origin(id: nat, worker: int)

  /** One executed withdrawal; `id` names the relayer's request, if it is the relayer's. */
  datatype Payout = Payout(nullifierHash: Field, recipient: nat, split: Split, id: Option<nat>)

  /** `sent` are all transactions ever handed to the network, `refused` those
      whose last send was refused for good, `executed` those that a block
      contains, and `landed` those of them that paid. */
  datatype Chain = Chain(
    height: int,
    sent: map<Tx, Origin>,
    refused: set<Tx>,
    executed: set<Tx>,
    landed: set<Tx>,
    spent: set<Field>,
    paid: seq<Payout>)

  datatype Sys = Sys(rows: seq<Row>, workers: map<int, Worker>, chain: Chain)

  datatype Event =
    | ReserveEv(worker: int, request: Request, clientIp: int, receivedAt: int)
    | ResumeEv(worker: int, now: int, ans: Answer)
    | LoopEv(worker: int, now: int)
    | SnapshotEv(worker: int, id: nat, now: int)
    | BeginEv(worker: int, now: int)
    | ExecuteEv(tx: Tx, otherwiseValid: bool)
    | ForeignSpendEv(nullifierHash: Field, recipient: nat, split: Split)
    | BlockEv
    | CrashEv

  predicate Terminal(status: Status) {
    status == Confirmed || status == Failed || status == Expired
  }

  predicate Live(chain: Chain, tx: Tx) {
    tx in chain.sent && tx !in chain.refused && tx !in chain.executed && chain.height <= tx.lastValidBlockHeight
  }

  /** What the nodes the relayer asks may answer. Confirmed reads that say yes
      are true: a nullifier reported as used is spent, a transaction reported as
      confirmed without error has paid. A no may be stale. A refused transaction
      never reached a block. */
  predicate Honest(chain: Chain, w: Worker, ans: Answer) {
    match ans
    case SendRejected(_) => w.pc.Sending? ==> w.pc.tx !in chain.executed
    case NullifierUsed(used) => used ==> w.record.request.nullifierHash in chain.spent
    case SignatureStatus(found, err, settled) =>
      (found && !err && settled && w.record.signature.Some? && w.record.signature.value.Own?) ==>
        w.record.signature.value.tx in chain.landed
    case SpendFound(spender) =>
      spender.Some? && spender.value.Own? ==>
        spender.value.tx in chain.landed && spender.value.tx.nullifierHash == w.record.request.nullifierHash
    case Height(h) => h <= chain.height
    case _ => true
  }

  predicate Enabled(cfg: Config, s: Sys, ev: Event) {
    match ev
    case ReserveEv(wid, request, ip, at) => wid !in s.workers && Reserve(s.rows, request, ip, at, cfg.limits).Admitted?
    case ResumeEv(wid, _, ans) => wid in s.workers && s.workers[wid].id < |s.rows| && Honest(s.chain, s.workers[wid], ans)
    case LoopEv(wid, now) =>
      && wid in s.workers && s.workers[wid].pc == Waiting && s.workers[wid].id < |s.rows|
      && var row := s.rows[s.workers[wid].id]; Terminal(row.status) || row.nextAttemptAt <= now
    case SnapshotEv(wid, id, now) =>
      wid !in s.workers && id < |s.rows| && !Terminal(s.rows[id].status) && s.rows[id].nextAttemptAt <= now
    case BeginEv(wid, _) => wid in s.workers && s.workers[wid].pc == Held && s.workers[wid].id < |s.rows|
    case ExecuteEv(tx, _) => Live(s.chain, tx)
    case ForeignSpendEv(n, _, _) => n !in s.chain.spent
    case BlockEv => true
    case CrashEv => true
  }

  /** Writes back what a worker did and moves the worker on. */
  function Apply(s: Sys, wid: int, w: Worker, e: Effect): Sys
    requires w.id < |s.rows|
  {
    s.(rows := s.rows[w.id := e.row],
       workers := match e.after
         case Await(pc) => s.workers[wid := w.(pc := pc)]
         case Return => if w.http then s.workers[wid := w.(pc := Waiting)] else s.workers - {wid}
         case Throw => s.workers - {wid})
  }

  /** A submission hands the transaction to the network, a refusal ends that. */
  function Transmit(chain: Chain, wid: int, w: Worker, ans: Answer): Chain {
    match (w.pc, ans)
    case (Preparing(_), Prepared(blockhash, lastValid)) =>
      var tx := TxFor(w.record.request, blockhash, lastValid);
      chain.(sent := chain.sent[tx := Origin(w.id, wid)], refused := chain.refused - {tx})
    case (Sending(tx, _), SendRejected(_)) => chain.(refused := chain.refused + {tx})
    case _ => chain
  }

  /** A block takes up a transaction; it pays only if its nullifier is unspent. */
  function ExecuteTx(cfg: Config, chain: Chain, tx: Tx, otherwiseValid: bool): Chain
    requires tx in chain.sent
  {
    var split := FeePoolSplit(cfg.depositAmount, cfg.protocolFeeBps, tx.fee);
    var done := chain.(executed := chain.executed + {tx});
    if otherwiseValid && tx.nullifierHash !in chain.spent && split.Ok? then
      done.(landed := chain.landed + {tx},
            spent := chain.spent + {tx.nullifierHash},
            paid := chain.paid + [Payout(tx.nullifierHash, tx.recipient, split.value, Some(chain.sent[tx].id))])
    else done
  }

  function Step(cfg: Config, s: Sys, ev: Event): Sys
    requires |cfg.retryBackoffMs| > 0
  {
    if !Enabled(cfg, s, ev) then s
    else match ev
      case ReserveEv(wid, request, ip, at) =>
        var row := NewRow(request, ip, at);
        s.(rows := s.rows + [row], workers := s.workers[wid := Worker(|s.rows|, true, Checking, row)])
      case ResumeEv(wid, now, ans) =>
        var w := s.workers[wid];
        Apply(s, wid, w, Resume(cfg, now, s.rows[w.id], w.record, w.pc, ans)).(chain := Transmit(s.chain, wid, w, ans))
      case LoopEv(wid, now) =>
        var row := s.rows[s.workers[wid].id];
        if Terminal(row.status) then s.(workers := s.workers - {wid})
        else
          var w := s.workers[wid].(record := row);
          Apply(s, wid, w, Begin(now, row, row))
      case SnapshotEv(wid, id, _) => s.(workers := s.workers[wid := Worker(id, false, Held, s.rows[id])])
      case BeginEv(wid, now) =>
        var w := s.workers[wid];
        Apply(s, wid, w, Begin(now, s.rows[w.id], w.record))
      case ExecuteEv(tx, otherwiseValid) => s.(chain := ExecuteTx(cfg, s.chain, tx, otherwiseValid))
      case ForeignSpendEv(n, recipient, split) =>
        s.(chain := s.chain.(spent := s.chain.spent + {n}, paid := s.chain.paid + [Payout(n, recipient, split, None)]))
      case BlockEv => s.(chain := s.chain.(height := s.chain.height + 1))
      case CrashEv => s.(workers := map[])
  }

  function Exec(cfg: Config, s: Sys, evs: seq<Event>): Sys
    requires |cfg.retryBackoffMs| > 0
    decreases |evs|
  {
    if evs == [] then s else Exec(cfg, Step(cfg, s, evs[0]), evs[1..])
  }

  lemma {:induction false} ExecAppends(cfg: Config, s: Sys, evs: seq<Event>, more: seq<Event>)
    requires |cfg.retryBackoffMs| > 0
    ensures Exec(cfg, s, evs + more) == Exec(cfg, Exec(cfg, s, evs), more)
    decreases |evs|
  {
    if evs == [] {
      assert evs + more == more;
    } else {
      assert (evs + more)[1..] == evs[1..] + more;
      ExecAppends(cfg, Step(cfg, s, evs[0]), evs[1..], more);
    }
  }

  /** An empty table, at some height of a chain on which nothing was sent yet;
      what others have spent before counts as spent by them during the run. */
  predicate Initial(s: Sys) {
    s.rows == [] && s.workers == map[] && s.chain == Chain(s.chain.height, map[], {}, {}, {}, {}, [])
  }
}
