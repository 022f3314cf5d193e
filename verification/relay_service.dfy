/** The relay service as it runs: it processes a record by asking the network
    and updating the store, and polls until the request is terminal. */
module RelayService {
  import opened Outcomes
  import opened Fees
  import opened RelayStores
  import opened RelayProtocol
  import opened RelaySingle
  import opened RelayPass
  import opened RelayOutcomes

  /** The network as one service instance hears it. */
  class Runtime {
    const env: Env
    var clock: nat
    // how many transactions were handed to the network
    ghost var sends: nat

    constructor (env: Env)
      ensures this.env == env && clock == 0 && sends == 0
    {
      this.env := env;
      clock := 0;
      sends := 0;
    }

    /** An await: one question, answered some time later. */
    method Ask(pc: Pc) returns (ans: Answer)
      modifies this
      ensures clock == old(clock) + 1
      ensures sends == old(sends) + (if pc.Sending? then 1 else 0)
      ensures ans == env.answers(old(clock), pc)
    {
      ans := env.answers(clock, pc);
      clock := clock + 1;
      if pc.Sending? {
        sends := sends + 1;
      }
    }

    function Now(): int
      reads this`clock
    {
      env.times(clock)
    }
  }

  datatype RelayOutcome =
    | Success(row: Row)
    | Refused(row: Row)
    | NotReserved(reservation: Reservation)
    | Exception

  class ProductionRelayService {
    const cfg: Config
    const store: RelayStore
    const runtime: Runtime

    ghost predicate Ready()
      reads this
    {
      |cfg.retryBackoffMs| > 0 && Fitting(runtime.env)
    }

    constructor (cfg: Config, store: RelayStore, runtime: Runtime)
      ensures this.cfg == cfg && this.store == store && this.runtime == runtime
    {
      this.cfg, this.store, this.runtime := cfg, store, runtime;
    }

    /** The row, the questions asked and the transactions sent are those of a given pass. */
    twostate predicate Did(id: nat, r: PassResult)
      reads store, runtime
      requires id < |old(store.rows)|
    {
      && store.rows == old(store.rows)[id := r.row]
      && runtime.clock == r.t
      && runtime.sends == old(runtime.sends) + r.sends
    }

    method HandleSubmissionFailure(id: nat, record: Row, failure: Failure)
      requires Ready() && id < |store.rows|
      modifies store
      ensures store.rows == old(store.rows)[id := RelayProtocol.HandleSubmissionFailure(cfg, runtime.Now(), old(store.rows)[id], record, failure)]
    {
      var backoffMs := BackoffMs(cfg, record.retries);
      var finalFailure := !failure.retryable || record.retries >= cfg.maxRetries;
      var preserveSubmission := finalFailure && record.status == Submitted;
      store.MarkFailed(id, if finalFailure then runtime.Now() else runtime.Now() + backoffMs, finalFailure, !preserveSubmission);
    }

    method RecordBreakdown(id: nat)
      requires id < |store.rows|
      modifies store
      ensures store.rows == old(store.rows)[id := WithBreakdown(cfg, old(store.rows)[id])]
    {
      var breakdown := RelayerBreakdown(cfg.depositAmount, cfg.protocolFeeBps, store.rows[id].request.fee);
      if breakdown.Some? {
        store.RecordFeeBreakdown(id, breakdown.value.protocolFee, breakdown.value.relayerFee);
      }
    }

    /** Confirms a request whose nullifier is known to be spent. */
    method Confirm(id: nat, signature: Option<Signature>, submittedAt: Option<int>)
      requires id < |store.rows|
      modifies store
      ensures store.rows == old(store.rows)[id := AsConfirmed(WithBreakdown(cfg, old(store.rows)[id]), signature, submittedAt, runtime.Now())]
    {
      RecordBreakdown(id);
      store.MarkConfirmed(id, signature, submittedAt, runtime.Now());
    }

    /** The nullifier of a refused submission is spent: by which transaction? */
    method FindSpendOfPending(id: nat, record: Row, failure: Failure, submittedAt: int)
      requires Ready() && id < |store.rows|
      modifies store, runtime
      ensures Did(id, Pass(cfg, runtime.env, old(runtime.clock), old(store.rows)[id], record, PendingFind(failure, submittedAt)))
    {
      assert Fits(PendingFind(failure, submittedAt), runtime.env.answers(runtime.clock, PendingFind(failure, submittedAt)));
      var spender := runtime.Ask(PendingFind(failure, submittedAt));
      if spender.SpendFound? && spender.spender.Some? && Feasible(cfg, record) {
        Confirm(id, spender.spender, Some(submittedAt));
      } else {
        HandleSubmissionFailure(id, record, failure);
      }
    }

    /** The catch clause of a submission: recover a withdrawal that is already
        on chain, or fail. */
    method SubmissionFailed(id: nat, record: Row, failure: Failure, submittedAt: int)
      requires Ready() && id < |store.rows|
      modifies store, runtime
      ensures failure.alreadyInUse ==>
                Did(id, Pass(cfg, runtime.env, old(runtime.clock), old(store.rows)[id], record, PendingUsed(failure, submittedAt)))
      ensures !failure.alreadyInUse ==>
                runtime.clock == old(runtime.clock) && runtime.sends == old(runtime.sends)
                && store.rows == old(store.rows)[id := RelayProtocol.HandleSubmissionFailure(cfg, runtime.Now(), old(store.rows)[id], record, failure)]
    {
      if failure.alreadyInUse {
        assert Fits(PendingUsed(failure, submittedAt), runtime.env.answers(runtime.clock, PendingUsed(failure, submittedAt)));
        var used := runtime.Ask(PendingUsed(failure, submittedAt));
        if used.NullifierUsed? && used.used {
          AwaitingOn(cfg, runtime.env, old(runtime.clock), store.rows[id], record,
                     PendingUsed(failure, submittedAt), PendingFind(failure, submittedAt));
          FindSpendOfPending(id, record, failure, submittedAt);
          return;
        }
      }
      HandleSubmissionFailure(id, record, failure);
    }

    /** Hands a prepared transaction to the network. */
    method SendPrepared(id: nat, record: Row, tx: Tx, submittedAt: int)
      requires Ready() && id < |store.rows|
      requires record.request == store.rows[id].request
      modifies store, runtime
      ensures Did(id, Pass(cfg, runtime.env, old(runtime.clock), old(store.rows)[id], record, Sending(tx, submittedAt)))
    {
      assert Fits(Sending(tx, submittedAt), runtime.env.answers(runtime.clock, Sending(tx, submittedAt)));
      var sent := runtime.Ask(Sending(tx, submittedAt));
      match sent {
        case Sent =>
          store.MarkSubmitted(id, Own(tx), submittedAt, tx.lastValidBlockHeight);
          RecordBreakdown(id);
        case SendAmbiguous =>
          store.MarkSubmitted(id, Own(tx), submittedAt, tx.lastValidBlockHeight);
          store.RescheduleSubmitted(id, submittedAt);
          RecordBreakdown(id);
        case SendRejected(failure) =>
          SubmissionFailed(id, record, failure, submittedAt);
        case _ =>
          assert false;
      }
    }

    method SubmitPendingRecord(id: nat, record: Row, submittedAt: int)
      requires Ready() && id < |store.rows|
      requires record.request == store.rows[id].request
      modifies store, runtime
      ensures Did(id, Pass(cfg, runtime.env, old(runtime.clock), old(store.rows)[id], record, Preparing(submittedAt)))
    {
      assert Fits(Preparing(submittedAt), runtime.env.answers(runtime.clock, Preparing(submittedAt)));
      var prepared := runtime.Ask(Preparing(submittedAt));
      if prepared.Threw? {
        SubmissionFailed(id, record, prepared.failure, submittedAt);
        return;
      }
      var tx := TxFor(record.request, prepared.blockhash, prepared.lastValidBlockHeight);
      AwaitingOn(cfg, runtime.env, old(runtime.clock), store.rows[id], record, Preparing(submittedAt), Sending(tx, submittedAt));
      SendPrepared(id, record, tx, submittedAt);
    }

    /** The nullifier of a failed transaction is spent: by which other one? */
    method FindSpendOfFailed(id: nat, record: Row)
      requires Ready() && id < |store.rows|
      modifies store, runtime
      ensures Did(id, Pass(cfg, runtime.env, old(runtime.clock), old(store.rows)[id], record, SubmittedFind))
    {
      assert Fits(SubmittedFind, runtime.env.answers(runtime.clock, SubmittedFind));
      var spender := runtime.Ask(SubmittedFind);
      if spender.SpendFound? && spender.spender.Some? && Feasible(cfg, record) {
        Confirm(id, spender.spender, record.submittedAt);
      } else {
        store.MarkFailed(id, runtime.Now(), true, false);
      }
    }

    /** A transaction that failed on chain: recover, or fail for good. */
    method RecoverFailedTransaction(id: nat, record: Row)
      requires Ready() && id < |store.rows|
      modifies store, runtime
      ensures Did(id, Pass(cfg, runtime.env, old(runtime.clock), old(store.rows)[id], record, SubmittedUsed))
    {
      assert Fits(SubmittedUsed, runtime.env.answers(runtime.clock, SubmittedUsed));
      var used := runtime.Ask(SubmittedUsed);
      if used.NullifierUsed? && used.used {
        AwaitingOn(cfg, runtime.env, old(runtime.clock), store.rows[id], record, SubmittedUsed, SubmittedFind);
        FindSpendOfFailed(id, record);
      } else {
        store.MarkFailed(id, runtime.Now(), true, false);
      }
    }

    /** The nullifier is unused: has the blockhash expired? */
    method RetryIfExpired(id: nat, record: Row)
      requires Ready() && id < |store.rows|
      modifies store, runtime
      ensures Did(id, Pass(cfg, runtime.env, old(runtime.clock), old(store.rows)[id], record, ReadingHeight))
    {
      assert Fits(ReadingHeight, runtime.env.answers(runtime.clock, ReadingHeight));
      var height := runtime.Ask(ReadingHeight);
      if height.Height? && record.lastValidBlockHeight.Some? && height.height > record.lastValidBlockHeight.value {
        HandleSubmissionFailure(id, record, Failure(true, false));
      } else {
        store.RescheduleSubmitted(id, runtime.Now() + cfg.confirmationPollMs);
      }
    }

    /** A transaction the network does not know: spent, expired or still to come. */
    method InspectMissingTransaction(id: nat, record: Row)
      requires Ready() && id < |store.rows|
      modifies store, runtime
      ensures Did(id, Pass(cfg, runtime.env, old(runtime.clock), old(store.rows)[id], record, LookingUp))
    {
      assert Fits(LookingUp, runtime.env.answers(runtime.clock, LookingUp));
      var used := runtime.Ask(LookingUp);
      if used.NullifierUsed? && used.used && Feasible(cfg, record) {
        Confirm(id, None, None);
      } else if used.NullifierUsed? && !used.used && record.lastValidBlockHeight.Some? {
        AwaitingOn(cfg, runtime.env, old(runtime.clock), store.rows[id], record, LookingUp, ReadingHeight);
        RetryIfExpired(id, record);
      } else {
        store.RescheduleSubmitted(id, runtime.Now() + cfg.confirmationPollMs);
      }
    }

    /** A status that settles the inspection: confirmed, or ask again later. */
    method ConcludeInspection(id: nat, record: Row, status: Answer)
      requires Ready() && id < |store.rows|
      requires Fits(Inspecting, status)
      requires status.SignatureStatus? ==> status.found && !status.err
      modifies store
      ensures store.rows == old(store.rows)[id := Resume(cfg, runtime.Now(), old(store.rows)[id], record, Inspecting, status).row]
    {
      if status.SignatureStatus? && status.settled && Feasible(cfg, record) {
        Confirm(id, None, None);
      } else {
        store.RescheduleSubmitted(id, runtime.Now() + cfg.confirmationPollMs);
      }
    }

    method InspectSubmittedRecord(id: nat, record: Row)
      requires Ready() && id < |store.rows|
      requires record.signature.Some?
      modifies store, runtime
      ensures Did(id, Pass(cfg, runtime.env, old(runtime.clock), old(store.rows)[id], record, Inspecting))
    {
      ghost var t, current := runtime.clock, store.rows[id];
      assert Fits(Inspecting, runtime.env.answers(t, Inspecting));
      var status := runtime.Ask(Inspecting);
      if status.SignatureStatus? && status.found && status.err {
        AwaitingOn(cfg, runtime.env, t, current, record, Inspecting, SubmittedUsed);
        RecoverFailedTransaction(id, record);
      } else if status.SignatureStatus? && !status.found {
        AwaitingOn(cfg, runtime.env, t, current, record, Inspecting, LookingUp);
        InspectMissingTransaction(id, record);
      } else {
        ConcludeInspection(id, record, status);
        EndingThere(cfg, runtime.env, t, current, record, Inspecting,
                    Resume(cfg, runtime.env.times(t + 1), current, record, Inspecting, status).row);
      }
    }

    /** Processes a snapshot of a record; an escaping exception is reported. */
    method ProcessRecord(id: nat, record: Row) returns (threw: bool)
      requires Ready() && id < |store.rows|
      requires record.request == store.rows[id].request
      modifies store, runtime
      ensures Did(id, ProcessRecordPass(cfg, runtime.env, old(runtime.clock), old(store.rows)[id], record))
      ensures threw == ProcessRecordPass(cfg, runtime.env, old(runtime.clock), old(store.rows)[id], record).threw
    {
      threw := false;
      if !record.request.usable {
        store.MarkExpired(id, runtime.Now());
        return;
      }
      ghost var t := runtime.clock;
      ghost var current := store.rows[id];
      assert Fits(Fetching, runtime.env.answers(runtime.clock, Fetching));
      var pool := runtime.Ask(Fetching);
      ghost var e := Resume(cfg, runtime.env.times(t + 1), current, record, Fetching, pool);
      if pool.Threw? {
        if record.status == Submitted {
          store.RescheduleSubmitted(id, runtime.Now() + cfg.confirmationPollMs);
        } else {
          HandleSubmissionFailure(id, record, pool.failure);
        }
      } else if record.status == Submitted {
        if record.signature.None? {
          store.MarkFailed(id, runtime.Now(), true, true);
        } else {
          assert e == Effect(current, Await(Inspecting));
          NeverThrowsAfterFetching(cfg, runtime.env, runtime.clock, current, record, Inspecting);
          InspectSubmittedRecord(id, record);
        }
      } else if record.status == Pending {
        if Feasible(cfg, record) {
          assert e == Effect(current, Await(Preparing(runtime.Now())));
          NeverThrowsAfterFetching(cfg, runtime.env, runtime.clock, current, record, Preparing(runtime.Now()));
          SubmitPendingRecord(id, record, runtime.Now());
        } else {
          threw := true;
        }
      }
    }

    /** The polling loop of a relay request, alone with its record, in an
        environment that is fair from some point on. It ends with a terminal row
        if the fee is feasible, and an exception needs one that is not. It hands
        at most maxRetries + 1 transactions to the network and counts at most
        maxRetries + 1 retries; success is only answered with a signature. What it
        leaves is the turns of the loop, one after the other, until it is over. */
    method WaitForTerminalState(id: nat, ghost calm: nat) returns (outcome: RelayOutcome, ghost turns: nat)
      requires ValidConfig(cfg) && Fair(runtime.env, calm)
      requires id < |store.rows| && Shaped(cfg, store.rows[id])
      requires store.rows[id].status == Pending && store.rows[id].retries == 0
      modifies store, runtime
      ensures id < |store.rows| && |store.rows| == |old(store.rows)|
      ensures forall i :: 0 <= i < |store.rows| && i != id ==> store.rows[i] == old(store.rows)[i]
      ensures store.rows[id].request == old(store.rows)[id].request
      ensures Feasible(cfg, old(store.rows)[id]) ==> !outcome.Exception?
      ensures !outcome.Exception? ==> Terminal(store.rows[id].status) && !outcome.NotReserved? && outcome.row == store.rows[id]
      ensures outcome.Success? <==> !outcome.Exception? && store.rows[id].status == Confirmed
      ensures outcome.Success? ==> outcome.row.signature.Some?
      ensures !outcome.NotReserved?
      ensures Looped(cfg, runtime.env, old(runtime.clock), old(store.rows)[id], turns)
           == LoopState(store.rows[id], runtime.clock, outcome.Exception?)
      ensures store.rows[id].retries <= cfg.maxRetries + 1
      ensures runtime.sends <= old(runtime.sends) + cfg.maxRetries + 1
    {
      turns := 0;
      while true
        invariant id < |store.rows| && |store.rows| == |old(store.rows)|
        invariant Looped(cfg, runtime.env, old(runtime.clock), old(store.rows)[id], turns)
               == LoopState(store.rows[id], runtime.clock, false)
        invariant forall i :: 0 <= i < |store.rows| && i != id ==> store.rows[i] == old(store.rows)[i]
        invariant store.rows[id].request == old(store.rows)[id].request
        invariant Shaped(cfg, store.rows[id]) && store.rows[id].retries <= cfg.maxRetries + 1
        invariant old(runtime.sends) <= runtime.sends
        invariant runtime.sends - old(runtime.sends) <= SendsAllowed(cfg, store.rows[id]) <= cfg.maxRetries + 1
        decreases RetriesLeft(cfg, store.rows[id]), StatusRank(store.rows[id].status),
                  Patience(runtime.env, calm, runtime.clock, store.rows[id])
      {
        var row := store.rows[id];
        if row.status == Confirmed {
          return Success(row), turns;
        }
        if row.status == Failed || row.status == Expired {
          return Refused(row), turns;
        }
        var threw := PollOnce(id, row, calm, runtime.sends - old(runtime.sends), old(runtime.clock), old(store.rows)[id], turns);
        turns := turns + 1;
        if threw {
          return Exception, turns;
        }
      }
    }

    /** A relay request from reservation to answer, alone with its record. A
        request that is not reserved, or fails its checks, sends nothing; one that
        is reserved always ends with a terminal row. A request whose transaction is
        sent and settles is answered with success and that transaction. */
    method Relay(request: Request, clientIp: int, ghost calm: nat) returns (outcome: RelayOutcome)
      requires ValidConfig(cfg) && Fair(runtime.env, calm)
      modifies store, runtime
      ensures outcome.NotReserved? <==> !Reserve(old(store.rows), request, clientIp, runtime.env.times(old(runtime.clock)), cfg.limits).Admitted?
      ensures outcome.NotReserved? ==>
        && outcome.reservation == Reserve(old(store.rows), request, clientIp, runtime.env.times(old(runtime.clock)), cfg.limits)
        && store.rows == old(store.rows) && runtime.sends == old(runtime.sends)
      ensures !outcome.NotReserved? ==>
        && |store.rows| == |old(store.rows)| + 1
        && store.rows[..|old(store.rows)|] == old(store.rows)
        && store.rows[|old(store.rows)|].request == request
        && Terminal(store.rows[|old(store.rows)|].status)
        && store.rows[|old(store.rows)|].retries <= cfg.maxRetries + 1
      ensures !outcome.NotReserved? ==>
        (outcome.Exception? <==>
           runtime.env.answers(old(runtime.clock), Checking).ChecksRejected? || !Feasible(cfg, store.rows[|old(store.rows)|]))
      ensures outcome.Exception? ==>
        && runtime.sends == old(runtime.sends)
        && store.rows[|old(store.rows)|].status
           == if runtime.env.answers(old(runtime.clock), Checking) == ChecksRejected(true) then Expired else Failed
      ensures
        var row := NewRow(request, clientIp, runtime.env.times(old(runtime.clock)));
        !outcome.NotReserved? && !outcome.Exception? && request.usable && SentAndSettled(runtime.env, old(runtime.clock) + 1, row) ==>
          && outcome.Success?
          && outcome.row.signature == Some(Own(PreparedTx(runtime.env, old(runtime.clock) + 1, row).value))
          && RecordsFees(cfg, outcome.row)
      ensures outcome.Success? || outcome.Refused? ==> outcome.row == store.rows[|old(store.rows)|]
      ensures outcome.Success? ==> outcome.row.status == Confirmed && outcome.row.signature.Some?
      ensures outcome.Refused? ==> outcome.row.status == Failed || outcome.row.status == Expired
      ensures runtime.sends <= old(runtime.sends) + cfg.maxRetries + 1
    {
      var reservation := store.ReservePending(request, clientIp, runtime.Now(), cfg.limits);
      if !reservation.Admitted? {
        return NotReserved(reservation);
      }
      var id := reservation.id;
      assert Fits(Checking, runtime.env.answers(runtime.clock, Checking));
      var checks := runtime.Ask(Checking);
      if checks.ChecksRejected? && checks.clientError {
        store.MarkExpired(id, runtime.Now());
        return Exception;
      }
      if checks.ChecksRejected? || !Feasible(cfg, store.rows[id]) {
        store.MarkFailed(id, runtime.Now(), true, true);
        return Exception;
      }
      ghost var t, row := runtime.clock, store.rows[id];
      ghost var turns;
      outcome, turns := WaitForTerminalState(id, calm);
      if request.usable && SentAndSettled(runtime.env, t, row) {
        SentAndSettledConfirms(cfg, runtime.env, t, row);
        LoopEndsOnce(cfg, runtime.env, t, row, turns, 2);
      }
    }

    /** One turn of the polling loop. */
    method PollOnce(id: nat, row: Row, ghost calm: nat, ghost sent: nat, ghost since: nat, ghost first: Row, ghost turns: nat)
      returns (threw: bool)
      requires ValidConfig(cfg) && Fair(runtime.env, calm)
      requires id < |store.rows| && row == store.rows[id] && Shaped(cfg, row) && !Terminal(row.status)
      requires sent <= SendsAllowed(cfg, row)
      requires Looped(cfg, runtime.env, since, first, turns) == LoopState(row, runtime.clock, false)
      modifies store, runtime
      ensures |store.rows| == |old(store.rows)|
      ensures forall i :: 0 <= i < |store.rows| && i != id ==> store.rows[i] == old(store.rows)[i]
      ensures store.rows[id].request == row.request
      ensures Shaped(cfg, store.rows[id]) && store.rows[id].retries <= cfg.maxRetries + 1 && row.retries <= cfg.maxRetries + 1
      ensures old(runtime.sends) <= runtime.sends
      ensures sent + (runtime.sends - old(runtime.sends)) <= SendsAllowed(cfg, store.rows[id]) <= cfg.maxRetries + 1
      ensures threw ==> !Feasible(cfg, row)
      ensures Looped(cfg, runtime.env, since, first, turns + 1) == LoopState(store.rows[id], runtime.clock, threw)
      ensures !threw ==> Smaller(cfg, runtime.env, calm, runtime.clock, store.rows[id], old(runtime.clock), row)
    {
      PassProgress(cfg, runtime.env, calm, runtime.clock, row, sent);
      threw := ProcessRecord(id, row);
    }
  }

  lemma {:induction false} NeverThrowsAfterFetching(cfg: Config, env: Env, t: nat, current: Row, record: Row, pc: Pc)
    requires |cfg.retryBackoffMs| > 0 && Fitting(env)
    requires OnPending(pc) || OnSubmitted(pc)
    ensures !Pass(cfg, env, t, current, record, pc).threw
    decreases Rank(pc)
  {
    var ans := env.answers(t, pc);
    assert Fits(pc, ans);
    var e := Resume(cfg, env.times(t + 1), current, record, pc, ans);
    if e.after.Await? {
      NeverThrowsAfterFetching(cfg, env, t + 1, e.row, record, e.after.pc);
    }
  }
}
