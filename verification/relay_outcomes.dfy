/** What every answer leads to: the row that a pass leaves behind, field by
    field, and where the polling loop ends. */
module RelayOutcomes {
  import opened Outcomes
  import opened Fees
  import opened RelayStores
  import opened RelayProtocol
  import opened RelaySingle
  import opened RelayPass

  // ---------- answers ----------

  predicate Settled(ans: Answer) {
    ans.SignatureStatus? && ans.found && !ans.err && ans.settled
  }

  predicate Errored(ans: Answer) {
    ans.SignatureStatus? && ans.found && ans.err
  }

  predicate Unknown(ans: Answer) {
    ans.SignatureStatus? && !ans.found
  }

  predicate Used(ans: Answer) {
    ans.NullifierUsed? && ans.used
  }

  predicate Spender(ans: Answer) {
    ans.SpendFound? && ans.spender.Some?
  }

  /** The blockhash of a row has expired at the height answered. */
  predicate PastExpiry(ans: Answer, row: Row) {
    ans.Height? && row.lastValidBlockHeight.Some? && ans.height > row.lastValidBlockHeight.value
  }

  // ---------- rows ----------

  /** The row records the fees of its request. */
  predicate RecordsFees(cfg: Config, row: Row) {
    var s := RelayerBreakdown(cfg.depositAmount, cfg.protocolFeeBps, row.request.fee);
    s.Some? && row.protocolFee == s.value.protocolFee && row.relayerFee == s.value.relayerFee
  }

  predicate ConfirmedWith(cfg: Config, row: Row, after: Row, signature: Option<Signature>, submittedAt: Option<int>) {
    && after.status == Confirmed && after.request == row.request && after.retries == row.retries
    && after.signature == signature && after.submittedAt == submittedAt
    && RecordsFees(cfg, after)
  }

  /** Still submitted, with the same transaction, due again after the poll interval. */
  predicate AskedAgain(cfg: Config, now: int, row: Row, after: Row) {
    after == row.(nextAttemptAt := now + cfg.confirmationPollMs)
  }

  predicate KeepsSubmission(row: Row, after: Row) {
    after.signature == row.signature && after.submittedAt == row.submittedAt && after.lastValidBlockHeight == row.lastValidBlockHeight
  }

  /** One more retry is counted. A failure that may be retried, with retries left,
      makes the row pending, without its transaction, due after the delay for the
      retries so far; any other failure is final, and keeps a submitted
      transaction on record. */
  predicate FailedAttempt(cfg: Config, now: int, row: Row, f: Failure, after: Row)
    requires |cfg.retryBackoffMs| > 0
  {
    && after.request == row.request && after.retries == row.retries + 1
    && if f.retryable && row.retries < cfg.maxRetries then
         after.status == Pending && Unsubmitted(after) && after.nextAttemptAt == now + BackoffMs(cfg, row.retries)
       else
         && after.status == Failed && after.nextAttemptAt == now
         && (row.status == Submitted ==> KeepsSubmission(row, after))
         && (row.status != Submitted ==> Unsubmitted(after))
  }

  lemma FailureOutcome(cfg: Config, now: int, row: Row, f: Failure)
    requires |cfg.retryBackoffMs| > 0
    ensures FailedAttempt(cfg, now, row, f, HandleSubmissionFailure(cfg, now, row, row, f))
  {
  }

  /** A stale worker counts the retry on the row, but its snapshot decides whether it
      is the last, how long to wait, and whether the transaction stays on record. */
  lemma FailureOnSnapshot(cfg: Config, now: int, current: Row, record: Row, f: Failure)
    requires |cfg.retryBackoffMs| > 0
    ensures var after := HandleSubmissionFailure(cfg, now, current, record, f);
            var again := f.retryable && record.retries < cfg.maxRetries;
            && after.request == current.request && after.retries == current.retries + 1
            && after.status == (if again then Pending else Failed)
            && after.nextAttemptAt == (if again then now + BackoffMs(cfg, record.retries) else now)
            && (if !again && record.status == Submitted then KeepsSubmission(current, after) else Unsubmitted(after))
  {
  }

  /** A stale worker that finds a spender stores its signature, with the time of the
      send that its snapshot knows. */
  lemma RecoveryOnSnapshot(cfg: Config, now: int, current: Row, record: Row, signature: Signature)
    requires |cfg.retryBackoffMs| > 0 && Feasible(cfg, record)
    ensures var e := Resume(cfg, now, current, record, SubmittedFind, SpendFound(Some(signature)));
            && e.after == Return && e.row.status == Confirmed && e.row.signature == Some(signature)
            && e.row.submittedAt == (if record.submittedAt.Some? then record.submittedAt else current.submittedAt)
  {
  }

  /** Whether the blockhash has expired, a stale worker judges by its snapshot. */
  lemma ExpiryOnSnapshot(cfg: Config, now: int, current: Row, record: Row, ans: Answer)
    requires |cfg.retryBackoffMs| > 0
    ensures Resume(cfg, now, current, record, ReadingHeight, ans).row
         == if PastExpiry(ans, record) then HandleSubmissionFailure(cfg, now, current, record, Failure(true, false))
            else if ans.Height? || ans.Threw? then AsRescheduled(current, now + cfg.confirmationPollMs)
            else current
  {
  }

  /** The delay after so many retries is that entry of the list, and the last one from there on. */
  lemma BackoffEntry(cfg: Config, retries: nat)
    requires |cfg.retryBackoffMs| > 0
    ensures retries < |cfg.retryBackoffMs| ==> BackoffMs(cfg, retries) == cfg.retryBackoffMs[retries]
    ensures retries >= |cfg.retryBackoffMs| ==> BackoffMs(cfg, retries) == cfg.retryBackoffMs[|cfg.retryBackoffMs| - 1]
  {
  }

  /** Failed checks expire the request if the client is to blame, and fail it otherwise;
      passed checks leave it as it is, unless the fee is infeasible. */
  lemma ChecksOutcome(cfg: Config, now: int, row: Row)
    requires |cfg.retryBackoffMs| > 0
    ensures var e := Resume(cfg, now, row, row, Checking, ChecksRejected(true));
            e.after == Throw && e.row.status == Expired && e.row.request == row.request
    ensures var e := Resume(cfg, now, row, row, Checking, ChecksRejected(false));
            e.after == Throw && e.row.status == Failed && e.row.request == row.request
    ensures var e := Resume(cfg, now, row, row, Checking, ChecksPassed);
            if Feasible(cfg, row) then e == Effect(row, Await(Waiting))
            else e.after == Throw && e.row.status == Failed && e.row.request == row.request
  {
  }

  // ---------- submitted rows ----------

  predicate Inspectable(cfg: Config, row: Row) {
    && ValidConfig(cfg)
    && Shaped(cfg, row) && row.status == Submitted
  }

  lemma SettledOutcome(cfg: Config, env: Env, t: nat, row: Row) returns (r: PassResult)
    requires Fitting(env) && Inspectable(cfg, row)
    requires Settled(env.answers(t, Inspecting))
    ensures r == Pass(cfg, env, t, row, row, Inspecting)
    ensures r.t == t + 1 && !r.threw && r.sends == 0
    ensures ConfirmedWith(cfg, row, r.row, row.signature, row.submittedAt)
  {
    var after := AsConfirmed(WithBreakdown(cfg, row), None, None, env.times(t + 1));
    EndingThere(cfg, env, t, row, row, Inspecting, after);
    r := PassResult(after, false, t + 1, 0, Inspecting);
  }

  lemma UnsettledOutcome(cfg: Config, env: Env, t: nat, row: Row) returns (r: PassResult)
    requires Fitting(env) && Inspectable(cfg, row)
    requires Stutters(env.answers(t, Inspecting))
    ensures r == Pass(cfg, env, t, row, row, Inspecting)
    ensures r.t == t + 1 && !r.threw && r.sends == 0 && AskedAgain(cfg, env.times(t + 1), row, r.row)
  {
    var after := AsRescheduled(row, env.times(t + 1) + cfg.confirmationPollMs);
    EndingThere(cfg, env, t, row, row, Inspecting, after);
    r := PassResult(after, false, t + 1, 0, Inspecting);
  }

  /** After a failed transaction: a spender found confirms, anything else is final. */
  predicate AfterError(cfg: Config, row: Row, used: Answer, found: Answer, after: Row) {
    if Used(used) && Spender(found) then ConfirmedWith(cfg, row, after, found.spender, row.submittedAt)
    else after.status == Failed && after.request == row.request && after.retries == row.retries + 1 && KeepsSubmission(row, after)
  }

  lemma FindOutcome(cfg: Config, env: Env, t: nat, row: Row) returns (r: PassResult)
    requires Fitting(env) && Inspectable(cfg, row)
    ensures r == Pass(cfg, env, t, row, row, SubmittedFind)
    ensures !r.threw && r.sends == 0
    ensures AfterError(cfg, row, NullifierUsed(true), env.answers(t, SubmittedFind), r.row)
  {
    var found := env.answers(t, SubmittedFind);
    assert Fits(SubmittedFind, found);
    var after := Resume(cfg, env.times(t + 1), row, row, SubmittedFind, found).row;
    EndingThere(cfg, env, t, row, row, SubmittedFind, after);
    r := PassResult(after, false, t + 1, 0, SubmittedFind);
  }

  lemma UsedOutcome(cfg: Config, env: Env, t: nat, row: Row) returns (r: PassResult)
    requires Fitting(env) && Inspectable(cfg, row)
    ensures r == Pass(cfg, env, t, row, row, SubmittedUsed)
    ensures !r.threw && r.sends == 0
    ensures AfterError(cfg, row, env.answers(t, SubmittedUsed), env.answers(t + 1, SubmittedFind), r.row)
  {
    var used := env.answers(t, SubmittedUsed);
    assert Fits(SubmittedUsed, used);
    if Used(used) {
      AwaitingOn(cfg, env, t, row, row, SubmittedUsed, SubmittedFind);
      r := FindOutcome(cfg, env, t + 1, row);
    } else {
      var after := AsFailed(row, env.times(t + 1), true, false);
      EndingThere(cfg, env, t, row, row, SubmittedUsed, after);
      r := PassResult(after, false, t + 1, 0, SubmittedUsed);
    }
  }

  lemma ErroredThenAsked(cfg: Config, env: Env, t: nat, row: Row)
    requires Fitting(env) && Inspectable(cfg, row)
    requires Errored(env.answers(t, Inspecting))
    ensures Pass(cfg, env, t, row, row, Inspecting) == Pass(cfg, env, t + 1, row, row, SubmittedUsed)
  {
    AwaitingOn(cfg, env, t, row, row, Inspecting, SubmittedUsed);
  }

  lemma ErroredOutcome(cfg: Config, env: Env, t: nat, row: Row) returns (r: PassResult)
    requires Fitting(env) && Inspectable(cfg, row)
    requires Errored(env.answers(t, Inspecting))
    ensures r == Pass(cfg, env, t, row, row, Inspecting)
    ensures !r.threw && r.sends == 0
    ensures AfterError(cfg, row, env.answers(t + 1, SubmittedUsed), env.answers(t + 2, SubmittedFind), r.row)
  {
    ErroredThenAsked(cfg, env, t, row);
    r := UsedOutcome(cfg, env, t + 1, row);
  }

  lemma HeightOutcome(cfg: Config, env: Env, t: nat, row: Row) returns (r: PassResult)
    requires Fitting(env) && Inspectable(cfg, row)
    ensures r == Pass(cfg, env, t, row, row, ReadingHeight)
    ensures r.t == t + 1 && !r.threw && r.sends == 0
    ensures if PastExpiry(env.answers(t, ReadingHeight), row)
            then FailedAttempt(cfg, env.times(t + 1), row, Failure(true, false), r.row)
            else AskedAgain(cfg, env.times(t + 1), row, r.row)
  {
    var ans := env.answers(t, ReadingHeight);
    assert Fits(ReadingHeight, ans);
    FailureOutcome(cfg, env.times(t + 1), row, Failure(true, false));
    var after := Resume(cfg, env.times(t + 1), row, row, ReadingHeight, ans).row;
    EndingThere(cfg, env, t, row, row, ReadingHeight, after);
    r := PassResult(after, false, t + 1, 0, ReadingHeight);
  }

  /** A transaction nobody knows: a used nullifier confirms, an expired blockhash
      counts as a failure to be retried, and else the row is asked for again. */
  predicate AfterUnknown(cfg: Config, row: Row, used: Answer, height: Answer, now: int, after: Row)
    requires |cfg.retryBackoffMs| > 0
  {
    if Used(used) then ConfirmedWith(cfg, row, after, row.signature, row.submittedAt)
    else if used.NullifierUsed? && PastExpiry(height, row) then FailedAttempt(cfg, now, row, Failure(true, false), after)
    else AskedAgain(cfg, now, row, after)
  }

  lemma LookupOutcome(cfg: Config, env: Env, t: nat, row: Row) returns (r: PassResult)
    requires Fitting(env) && Inspectable(cfg, row)
    ensures r == Pass(cfg, env, t, row, row, LookingUp)
    ensures !r.threw && r.sends == 0
    ensures AfterUnknown(cfg, row, env.answers(t, LookingUp), env.answers(t + 1, ReadingHeight), env.times(r.t), r.row)
  {
    var used := env.answers(t, LookingUp);
    assert Fits(LookingUp, used);
    if used == NullifierUsed(false) {
      AwaitingOn(cfg, env, t, row, row, LookingUp, ReadingHeight);
      r := HeightOutcome(cfg, env, t + 1, row);
    } else {
      var after := Resume(cfg, env.times(t + 1), row, row, LookingUp, used).row;
      EndingThere(cfg, env, t, row, row, LookingUp, after);
      r := PassResult(after, false, t + 1, 0, LookingUp);
    }
  }

  lemma UnknownThenLookedUp(cfg: Config, env: Env, t: nat, row: Row)
    requires Fitting(env) && Inspectable(cfg, row)
    requires Unknown(env.answers(t, Inspecting))
    ensures Pass(cfg, env, t, row, row, Inspecting) == Pass(cfg, env, t + 1, row, row, LookingUp)
  {
    AwaitingOn(cfg, env, t, row, row, Inspecting, LookingUp);
  }

  lemma UnknownOutcome(cfg: Config, env: Env, t: nat, row: Row) returns (r: PassResult)
    requires Fitting(env) && Inspectable(cfg, row)
    requires Unknown(env.answers(t, Inspecting))
    ensures r == Pass(cfg, env, t, row, row, Inspecting)
    ensures !r.threw && r.sends == 0
    ensures AfterUnknown(cfg, row, env.answers(t + 1, LookingUp), env.answers(t + 2, ReadingHeight), env.times(r.t), r.row)
  {
    UnknownThenLookedUp(cfg, env, t, row);
    r := LookupOutcome(cfg, env, t + 1, row);
  }

  /** The confirming answers, exactly: the transaction is settled, or unknown with
      its nullifier used, or failed with a spender found. */
  predicate Confirming(env: Env, t: nat) {
    var status := env.answers(t, Inspecting);
    || Settled(status)
    || (Unknown(status) && Used(env.answers(t + 1, LookingUp)))
    || (Errored(status) && Used(env.answers(t + 1, SubmittedUsed)) && Spender(env.answers(t + 2, SubmittedFind)))
  }

  lemma FetchedThenInspected(cfg: Config, env: Env, t: nat, row: Row)
    requires Fitting(env) && Inspectable(cfg, row) && row.request.usable
    requires env.answers(t, Fetching).PoolRead?
    ensures ProcessRecordPass(cfg, env, t, row, row) == Pass(cfg, env, t + 1, row, row, Inspecting)
  {
    AwaitingOn(cfg, env, t, row, row, Fetching, Inspecting);
  }

  /** A pass over a submitted row, with the pool read, confirms it exactly on a
      confirming answer: with the stored signature, or the spender found. */
  lemma SubmittedConfirmedIff(cfg: Config, env: Env, t: nat, row: Row) returns (r: PassResult)
    requires Fitting(env) && Inspectable(cfg, row) && row.request.usable
    requires env.answers(t, Fetching).PoolRead?
    ensures r == ProcessRecordPass(cfg, env, t, row, row)
    ensures !r.threw && r.sends == 0
    ensures r.row.status == Confirmed <==> Confirming(env, t + 1)
    ensures Confirming(env, t + 1) ==>
              ConfirmedWith(cfg, row, r.row,
                            if Errored(env.answers(t + 1, Inspecting)) then env.answers(t + 3, SubmittedFind).spender else row.signature,
                            row.submittedAt)
  {
    FetchedThenInspected(cfg, env, t, row);
    r := InspectingOutcome(cfg, env, t + 1, row);
  }

  lemma InspectingOutcome(cfg: Config, env: Env, t: nat, row: Row) returns (r: PassResult)
    requires Fitting(env) && Inspectable(cfg, row)
    ensures r == Pass(cfg, env, t, row, row, Inspecting)
    ensures !r.threw && r.sends == 0
    ensures r.row.status == Confirmed <==> Confirming(env, t)
    ensures Confirming(env, t) ==>
              ConfirmedWith(cfg, row, r.row,
                            if Errored(env.answers(t, Inspecting)) then env.answers(t + 2, SubmittedFind).spender else row.signature,
                            row.submittedAt)
  {
    var status := env.answers(t, Inspecting);
    assert Fits(Inspecting, status);
    if Settled(status) {
      r := SettledOutcome(cfg, env, t, row);
    } else if Errored(status) {
      r := ErroredOutcome(cfg, env, t, row);
    } else if Unknown(status) {
      r := UnknownOutcome(cfg, env, t, row);
    } else {
      r := UnsettledOutcome(cfg, env, t, row);
    }
  }

  // ---------- pending rows ----------

  predicate Submittable(cfg: Config, row: Row) {
    && ValidConfig(cfg)
    && Shaped(cfg, row) && row.status == Pending
    && row.request.usable && Feasible(cfg, row)
  }

  /** Written down as submitted, with its transaction, its expiry and its fees, due at once. */
  predicate SubmittedWith(cfg: Config, row: Row, after: Row, tx: Tx, at: int) {
    && after.status == Submitted && after.request == row.request && after.retries == row.retries
    && after.signature == Some(Own(tx)) && after.submittedAt == Some(at)
    && after.lastValidBlockHeight == Some(tx.lastValidBlockHeight) && after.nextAttemptAt == at
    && RecordsFees(cfg, after)
  }

  /** A submission that threw: an account already in use is looked into, and a
      spender found confirms with its signature and the time of the send. */
  predicate AfterThrow(cfg: Config, now: int, row: Row, f: Failure, used: Answer, found: Answer, at: int, after: Row)
    requires |cfg.retryBackoffMs| > 0
  {
    if f.alreadyInUse && Used(used) && Spender(found) then ConfirmedWith(cfg, row, after, found.spender, Some(at))
    else FailedAttempt(cfg, now, row, f, after)
  }

  lemma PendingFindOutcome(cfg: Config, env: Env, t: nat, row: Row, f: Failure, at: int) returns (r: PassResult)
    requires Fitting(env) && Submittable(cfg, row)
    ensures r == Pass(cfg, env, t, row, row, PendingFind(f, at))
    ensures r.t == t + 1 && !r.threw && r.sends == 0
    ensures var found := env.answers(t, PendingFind(f, at));
            if Spender(found) then ConfirmedWith(cfg, row, r.row, found.spender, Some(at))
            else FailedAttempt(cfg, env.times(t + 1), row, f, r.row)
  {
    var found := env.answers(t, PendingFind(f, at));
    assert Fits(PendingFind(f, at), found);
    FailureOutcome(cfg, env.times(t + 1), row, f);
    var after := Resume(cfg, env.times(t + 1), row, row, PendingFind(f, at), found).row;
    EndingThere(cfg, env, t, row, row, PendingFind(f, at), after);
    r := PassResult(after, false, t + 1, 0, PendingFind(f, at));
  }

  lemma PendingUsedOutcome(cfg: Config, env: Env, t: nat, row: Row, f: Failure, at: int) returns (r: PassResult)
    requires Fitting(env) && Submittable(cfg, row) && f.alreadyInUse
    ensures r == Pass(cfg, env, t, row, row, PendingUsed(f, at))
    ensures !r.threw && r.sends == 0
    ensures AfterThrow(cfg, env.times(r.t), row, f, env.answers(t, PendingUsed(f, at)), env.answers(t + 1, PendingFind(f, at)), at, r.row)
  {
    var used := env.answers(t, PendingUsed(f, at));
    assert Fits(PendingUsed(f, at), used);
    if Used(used) {
      AwaitingOn(cfg, env, t, row, row, PendingUsed(f, at), PendingFind(f, at));
      r := PendingFindOutcome(cfg, env, t + 1, row, f, at);
    } else {
      FailureOutcome(cfg, env.times(t + 1), row, f);
      var after := HandleSubmissionFailure(cfg, env.times(t + 1), row, row, f);
      EndingThere(cfg, env, t, row, row, PendingUsed(f, at), after);
      r := PassResult(after, false, t + 1, 0, PendingUsed(f, at));
    }
  }

  lemma SendOutcome(cfg: Config, env: Env, t: nat, row: Row, tx: Tx, at: int) returns (r: PassResult)
    requires Fitting(env) && Submittable(cfg, row)
    ensures r == Pass(cfg, env, t, row, row, Sending(tx, at))
    ensures !r.threw && r.sends == 1
    ensures var sent := env.answers(t, Sending(tx, at));
            && (sent.Sent? || sent.SendAmbiguous? ==> r.t == t + 1 && SubmittedWith(cfg, row, r.row, tx, at))
            && (sent.SendRejected? ==>
                  AfterThrow(cfg, env.times(r.t), row, sent.failure, env.answers(t + 1, PendingUsed(sent.failure, at)),
                             env.answers(t + 2, PendingFind(sent.failure, at)), at, r.row))
  {
    r := Pass(cfg, env, t, row, row, Sending(tx, at));
    var sent := env.answers(t, Sending(tx, at));
    assert Fits(Sending(tx, at), sent);
    if sent.SendRejected? {
      if sent.failure.alreadyInUse {
        var rest := PendingUsedOutcome(cfg, env, t + 1, row, sent.failure, at);
      } else {
        FailureOutcome(cfg, env.times(t + 1), row, sent.failure);
      }
    }
  }

  lemma PrepareOutcome(cfg: Config, env: Env, t: nat, row: Row, at: int) returns (r: PassResult)
    requires Fitting(env) && Submittable(cfg, row)
    requires env.answers(t, Preparing(at)).Threw?
    ensures r == Pass(cfg, env, t, row, row, Preparing(at))
    ensures !r.threw && r.sends == 0
    ensures var f := env.answers(t, Preparing(at)).failure;
            AfterThrow(cfg, env.times(r.t), row, f, env.answers(t + 1, PendingUsed(f, at)), env.answers(t + 2, PendingFind(f, at)), at, r.row)
  {
    var f := env.answers(t, Preparing(at)).failure;
    if f.alreadyInUse {
      AwaitingOn(cfg, env, t, row, row, Preparing(at), PendingUsed(f, at));
      r := PendingUsedOutcome(cfg, env, t + 1, row, f, at);
    } else {
      FailureOutcome(cfg, env.times(t + 1), row, f);
      var after := HandleSubmissionFailure(cfg, env.times(t + 1), row, row, f);
      EndingThere(cfg, env, t, row, row, Preparing(at), after);
      r := PassResult(after, false, t + 1, 0, Preparing(at));
    }
  }

  /** The transaction that a pass over a pending row prepares, when it does. */
  function PreparedTx(env: Env, t: nat, row: Row): Option<Tx> {
    var prepared := env.answers(t + 1, Preparing(env.times(t + 1)));
    if prepared.Prepared? then Some(TxFor(row.request, prepared.blockhash, prepared.lastValidBlockHeight)) else None
  }

  predicate Accepted(sent: Answer) {
    sent.Sent? || sent.SendAmbiguous?
  }

  /** The transaction is prepared, and its send succeeds or is ambiguous. */
  predicate Sends(env: Env, t: nat, row: Row) {
    var tx := PreparedTx(env, t, row);
    tx.Some? && Accepted(env.answers(t + 2, Sending(tx.value, env.times(t + 1))))
  }

  /** A pass over a pending row, with the pool read, submits it exactly when its
      transaction is prepared and the send succeeds or is ambiguous; then the row
      holds that transaction. */
  lemma PendingSubmittedIff(cfg: Config, env: Env, t: nat, row: Row) returns (r: PassResult)
    requires Fitting(env) && Submittable(cfg, row)
    requires env.answers(t, Fetching).PoolRead?
    ensures r == ProcessRecordPass(cfg, env, t, row, row)
    ensures !r.threw && (r.row.status == Submitted <==> Sends(env, t, row))
    ensures Sends(env, t, row) ==>
              r.t == t + 3 && r.sends == 1 && SubmittedWith(cfg, row, r.row, PreparedTx(env, t, row).value, env.times(t + 1))
  {
    AwaitingOn(cfg, env, t, row, row, Fetching, Preparing(env.times(t + 1)));
    r := PreparingOutcome(cfg, env, t, row);
  }

  lemma PreparingOutcome(cfg: Config, env: Env, t: nat, row: Row) returns (r: PassResult)
    requires Fitting(env) && Submittable(cfg, row)
    ensures r == Pass(cfg, env, t + 1, row, row, Preparing(env.times(t + 1)))
    ensures !r.threw && (r.row.status == Submitted <==> Sends(env, t, row))
    ensures Sends(env, t, row) ==>
              r.t == t + 3 && r.sends == 1 && SubmittedWith(cfg, row, r.row, PreparedTx(env, t, row).value, env.times(t + 1))
  {
    var at := env.times(t + 1);
    var prepared := env.answers(t + 1, Preparing(at));
    assert Fits(Preparing(at), prepared);
    if prepared.Prepared? {
      var tx := TxFor(row.request, prepared.blockhash, prepared.lastValidBlockHeight);
      AwaitingOn(cfg, env, t + 1, row, row, Preparing(at), Sending(tx, at));
      assert Fits(Sending(tx, at), env.answers(t + 2, Sending(tx, at)));
      r := SendOutcome(cfg, env, t + 2, row, tx, at);
    } else {
      r := PrepareOutcome(cfg, env, t + 1, row, at);
    }
  }

  /** Without the pool a pending row has one failed attempt more, a submitted one
      is asked for again. */
  lemma UnreadPoolOutcome(cfg: Config, env: Env, t: nat, row: Row)
    requires ValidConfig(cfg) && Fitting(env) && Shaped(cfg, row) && !Terminal(row.status) && row.request.usable
    requires env.answers(t, Fetching).Threw?
    ensures var r := ProcessRecordPass(cfg, env, t, row, row);
            && r.t == t + 1 && !r.threw && r.sends == 0
            && if row.status == Submitted then AskedAgain(cfg, env.times(t + 1), row, r.row)
               else FailedAttempt(cfg, env.times(t + 1), row, env.answers(t, Fetching).failure, r.row)
  {
    var ans := env.answers(t, Fetching);
    FailureOutcome(cfg, env.times(t + 1), row, ans.failure);
    EndingThere(cfg, env, t, row, row, Fetching, Resume(cfg, env.times(t + 1), row, row, Fetching, ans).row);
  }

  /** A row without a usable payload expires, unasked and unsent. */
  lemma UnusableExpires(cfg: Config, env: Env, t: nat, row: Row)
    requires |cfg.retryBackoffMs| > 0 && Fitting(env) && !row.request.usable
    ensures var r := ProcessRecordPass(cfg, env, t, row, row);
            r.t == t && !r.threw && r.sends == 0 && r.row.status == Expired && r.row.request == row.request
  {
  }

  // ---------- the polling loop ----------

  /** The row, the question reached, and whether an exception has ended the loop. */
  datatype LoopState = LoopState(row: Row, t: nat, threw: bool)

  predicate Over(s: LoopState) {
    s.threw || Terminal(s.row.status)
  }

  /** One turn of the loop; a loop that is over stays as it is. */
  function Advance(cfg: Config, env: Env, s: LoopState): LoopState
    requires |cfg.retryBackoffMs| > 0 && Fitting(env)
  {
    if Over(s) then s
    else
      var r := ProcessRecordPass(cfg, env, s.t, s.row, s.row);
      LoopState(r.row, r.t, r.threw)
  }

  /** After n turns. */
  function Looped(cfg: Config, env: Env, t: nat, row: Row, n: nat): LoopState
    requires |cfg.retryBackoffMs| > 0 && Fitting(env)
  {
    if n == 0 then LoopState(row, t, false) else Advance(cfg, env, Looped(cfg, env, t, row, n - 1))
  }

  lemma {:induction false} LoopStays(cfg: Config, env: Env, t: nat, row: Row, n: nat, m: nat)
    requires |cfg.retryBackoffMs| > 0 && Fitting(env)
    requires n <= m && Over(Looped(cfg, env, t, row, n))
    ensures Looped(cfg, env, t, row, m) == Looped(cfg, env, t, row, n)
  {
    if n < m {
      LoopStays(cfg, env, t, row, n, m - 1);
    }
  }

  /** Wherever the loop is over, it is over with the same row. */
  lemma LoopEndsOnce(cfg: Config, env: Env, t: nat, row: Row, n: nat, m: nat)
    requires |cfg.retryBackoffMs| > 0 && Fitting(env)
    requires Over(Looped(cfg, env, t, row, n)) && Over(Looped(cfg, env, t, row, m))
    ensures Looped(cfg, env, t, row, n) == Looped(cfg, env, t, row, m)
  {
    if n <= m {
      LoopStays(cfg, env, t, row, n, m);
    } else {
      LoopStays(cfg, env, t, row, m, n);
    }
  }

  /** The ordinary course: the pool is read, the transaction prepared and sent,
      clearly or not, and the next pass reads the pool and finds it settled. */
  predicate SentAndSettled(env: Env, t: nat, row: Row) {
    && env.answers(t, Fetching).PoolRead?
    && Sends(env, t, row)
    && env.answers(t + 3, Fetching).PoolRead?
    && Settled(env.answers(t + 4, Inspecting))
  }

  /** It ends confirmed, with the transaction that was sent. */
  lemma SentAndSettledConfirms(cfg: Config, env: Env, t: nat, row: Row)
    requires Fitting(env) && Submittable(cfg, row)
    requires SentAndSettled(env, t, row)
    ensures var last := Looped(cfg, env, t, row, 2);
            && !last.threw
            && ConfirmedWith(cfg, row, last.row, Some(Own(PreparedTx(env, t, row).value)), Some(env.times(t + 1)))
  {
    PassKeepsShape(cfg, env, t, row);
    var r := PendingSubmittedIff(cfg, env, t, row);
    var last := SubmittedConfirmedIff(cfg, env, t + 3, r.row);
    TwoTurns(cfg, env, t, row, r, last);
  }

  lemma TwoTurns(cfg: Config, env: Env, t: nat, row: Row, first: PassResult, second: PassResult)
    requires |cfg.retryBackoffMs| > 0 && Fitting(env)
    requires !Terminal(row.status) && first == ProcessRecordPass(cfg, env, t, row, row)
    requires !first.threw && !Terminal(first.row.status)
    requires second == ProcessRecordPass(cfg, env, first.t, first.row, first.row)
    ensures Looped(cfg, env, t, row, 2) == LoopState(second.row, second.t, second.threw)
  {
    assert Looped(cfg, env, t, row, 0) == LoopState(row, t, false);
    assert Looped(cfg, env, t, row, 1) == LoopState(first.row, first.t, false);
  }

  lemma PassKeepsShape(cfg: Config, env: Env, t: nat, row: Row)
    requires Fitting(env) && Submittable(cfg, row)
    ensures var r := ProcessRecordPass(cfg, env, t, row, row);
            !r.threw ==> Shaped(cfg, r.row) && r.row.request == row.request
  {
    PendingPass(cfg, env, t, row, Fetching);
  }

  lemma SettledAdvance(cfg: Config, env: Env, s: LoopState)
    requires Fitting(env) && Inspectable(cfg, s.row) && s.row.request.usable && !s.threw
    requires env.answers(s.t, Fetching).PoolRead? && Settled(env.answers(s.t + 1, Inspecting))
    ensures var next := Advance(cfg, env, s);
            !next.threw && ConfirmedWith(cfg, s.row, next.row, s.row.signature, s.row.submittedAt)
  {
    var r := SubmittedConfirmedIff(cfg, env, s.t, s.row);
  }

  /** From any turn of the loop on: a submitted row whose transaction is found
      settled is confirmed by the next one, with the signature it stores. */
  lemma SettledInTheEnd(cfg: Config, env: Env, t: nat, row: Row, n: nat, s: LoopState)
    requires Fitting(env) && Inspectable(cfg, s.row) && s.row.request.usable && !s.threw
    requires s == Looped(cfg, env, t, row, n)
    requires env.answers(s.t, Fetching).PoolRead? && Settled(env.answers(s.t + 1, Inspecting))
    ensures var next := Looped(cfg, env, t, row, n + 1);
            !next.threw && ConfirmedWith(cfg, s.row, next.row, s.row.signature, s.row.submittedAt)
  {
    SettledAdvance(cfg, env, s);
    assert Looped(cfg, env, t, row, n + 1) == Advance(cfg, env, s);
  }
}
