/** One pass of the service over a record, alone with the record, as the
    protocol's resumptions strung together, and why passes come to an end. */
module RelayPass {
  import opened Outcomes
  import opened RelayStores
  import opened RelayProtocol
  import opened RelaySingle

  /** Everything the service hears: the answer to the t-th question when it is
      asked at an await, the clock then, and the block height then. */
  datatype Env = Env(answers: (nat, Pc) -> Answer, times: nat -> int, heights: nat -> int)

  /** The answers an await can get. */
  predicate Fits(pc: Pc, ans: Answer) {
    match pc
    case Checking => ans.ChecksPassed? || ans.ChecksRejected?
    case Fetching => ans.Threw? || ans.PoolRead?
    case Preparing(_) => ans.Threw? || ans.Prepared?
    case Sending(_, _) => ans.Sent? || ans.SendAmbiguous? || ans.SendRejected?
    case Inspecting => ans.Threw? || ans.SignatureStatus?
    case ReadingHeight => ans.Threw? || ans.Height?
    case PendingFind(_, _) => ans.Threw? || ans.SpendFound?
    case SubmittedFind => ans.Threw? || ans.SpendFound?
    case _ => ans.Threw? || ans.NullifierUsed?
  }

  ghost predicate Fitting(env: Env) {
    forall t: nat, pc: Pc :: Fits(pc, env.answers(t, pc))
  }

  /** Answers that may make the service ask again without progress. */
  predicate Stutters(ans: Answer) {
    ans.Threw? || (ans.SignatureStatus? && ans.found && !ans.err && !ans.settled)
  }

  predicate BlockPasses(env: Env, t: nat) {
    env.heights(t) < env.heights(t + 1)
  }

  /** Blocks keep coming, and from the question `calm` on nothing stutters. */
  ghost predicate Fair(env: Env, calm: nat) {
    && Fitting(env)
    && (forall t: nat, pc: Pc :: t >= calm ==> !Stutters(env.answers(t, pc)))
    && (forall t: nat :: BlockPasses(env, t))
    && (forall t: nat, pc: Pc :: env.answers(t, pc).Height? ==> env.answers(t, pc).height == env.heights(t))
  }

  function Rank(pc: Pc): nat {
    match pc
    case Fetching => 6
    case Preparing(_) => 5
    case Sending(_, _) => 4
    case PendingUsed(_, _) => 3
    case PendingFind(_, _) => 2
    case Inspecting => 5
    case LookingUp => 4
    case SubmittedUsed => 3
    case SubmittedFind => 2
    case ReadingHeight => 2
    case _ => 0
  }

  predicate Processing(pc: Pc) {
    pc == Fetching || OnPending(pc) || OnSubmitted(pc)
  }

  /** The row left behind, whether an exception escaped, how many questions were
      asked in all, how many transactions were handed to the network, and the
      await at which the last question was asked. */
  datatype PassResult = PassResult(row: Row, threw: bool, t: nat, sends: nat, last: Pc)

  function Pass(cfg: Config, env: Env, t: nat, current: Row, record: Row, pc: Pc): PassResult
    requires |cfg.retryBackoffMs| > 0
    requires Fitting(env) && Processing(pc)
    decreases Rank(pc)
  {
    var ans := env.answers(t, pc);
    assert Fits(pc, ans);
    var e := Resume(cfg, env.times(t + 1), current, record, pc, ans);
    var sent := if pc.Sending? then 1 else 0;
    match e.after
    case Return => PassResult(e.row, false, t + 1, sent, pc)
    case Throw => PassResult(e.row, true, t + 1, sent, pc)
    case Await(next) =>
      var rest := Pass(cfg, env, t + 1, e.row, record, next);
      rest.(sends := rest.sends + sent)
  }

  /** A resumption that only awaits hands over to the pass from the next await. */
  lemma AwaitingOn(cfg: Config, env: Env, t: nat, current: Row, record: Row, pc: Pc, next: Pc)
    requires |cfg.retryBackoffMs| > 0
    requires Fitting(env) && Processing(pc) && !pc.Sending? && Processing(next)
    requires Resume(cfg, env.times(t + 1), current, record, pc, env.answers(t, pc)) == Effect(current, Await(next))
    ensures Pass(cfg, env, t, current, record, pc) == Pass(cfg, env, t + 1, current, record, next)
  {
    assert Fits(pc, env.answers(t, pc));
  }

  /** A resumption that ends the processing ends the pass. */
  lemma EndingThere(cfg: Config, env: Env, t: nat, current: Row, record: Row, pc: Pc, row: Row)
    requires |cfg.retryBackoffMs| > 0
    requires Fitting(env) && Processing(pc) && !pc.Sending?
    requires Resume(cfg, env.times(t + 1), current, record, pc, env.answers(t, pc)) == Effect(row, Return)
    ensures Pass(cfg, env, t, current, record, pc) == PassResult(row, false, t + 1, 0, pc)
  {
    assert Fits(pc, env.answers(t, pc));
  }

  function ProcessRecordPass(cfg: Config, env: Env, t: nat, current: Row, record: Row): PassResult
    requires |cfg.retryBackoffMs| > 0 && Fitting(env)
  {
    if !record.request.usable then PassResult(AsExpired(current, env.times(t)), false, t, 0, Fetching)
    else Pass(cfg, env, t, current, record, Fetching)
  }

  // ---------- progress ----------

  lemma {:induction false} HeightsAdvance(env: Env, calm: nat, t: nat, u: nat)
    requires Fair(env, calm) && t <= u
    ensures env.heights(t) + (u - t) <= env.heights(u)
    decreases u - t
  {
    if t < u {
      assert BlockPasses(env, t);
      HeightsAdvance(env, calm, t + 1, u);
    }
  }

  /** The outcomes of a pass that began with a pending row. */
  predicate FromPending(cfg: Config, row: Row, after: Row) {
    && Shaped(cfg, after) && after.request == row.request
    && (|| (after.status == Pending && after.retries == row.retries + 1)
       || (after.status == Submitted && after.retries == row.retries)
       || (after.status == Failed && after.retries == row.retries + 1)
       || (after.status == Confirmed && after.retries == row.retries))
  }

  /** One resumption on a pending row goes on, throws at once, or ends the pass. */
  lemma PendingResume(cfg: Config, now: int, row: Row, pc: Pc, ans: Answer)
    requires ValidConfig(cfg)
    requires Shaped(cfg, row) && row.status == Pending
    requires pc == Fetching || OnPending(pc)
    requires UpToDate(cfg, Worker(0, true, pc, row), row)
    requires Fits(pc, ans)
    ensures var e := Resume(cfg, now, row, row, pc, ans);
            match e.after
            case Await(next) =>
              && e.row == row && OnPending(next) && UpToDate(cfg, Worker(0, true, next, row), row)
              && (next.Preparing? ==> pc == Fetching) && (next.Sending? ==> pc.Preparing?)
            case Throw => pc == Fetching && e.row == row && !Feasible(cfg, row)
            case Return => FromPending(cfg, row, e.row)
  {
  }

  /** A pass over a pending row is one resumption and, if that awaits, the pass
      from the next await, plus the transaction handed over at this one. */
  lemma PendingUnfolds(cfg: Config, env: Env, t: nat, row: Row, pc: Pc) returns (next: Option<Pc>)
    requires ValidConfig(cfg) && Fitting(env)
    requires Shaped(cfg, row) && row.status == Pending
    requires pc == Fetching || OnPending(pc)
    requires UpToDate(cfg, Worker(0, true, pc, row), row)
    ensures next.Some? ==>
              && OnPending(next.value) && UpToDate(cfg, Worker(0, true, next.value, row), row)
              && Rank(next.value) < Rank(pc)
              && (next.value.Preparing? ==> pc == Fetching) && (next.value.Sending? ==> pc.Preparing?)
              && (var rest := Pass(cfg, env, t + 1, row, row, next.value);
                  Pass(cfg, env, t, row, row, pc) == rest.(sends := rest.sends + (if pc.Sending? then 1 else 0)))
    ensures next.None? ==>
              var r := Pass(cfg, env, t, row, row, pc);
              && r.sends == (if pc.Sending? then 1 else 0)
              && (r.threw ==> pc == Fetching && r.row == row && !Feasible(cfg, row))
              && (!r.threw ==> FromPending(cfg, row, r.row))
  {
    var ans := env.answers(t, pc);
    assert Fits(pc, ans);
    PendingResume(cfg, env.times(t + 1), row, pc, ans);
    var e := Resume(cfg, env.times(t + 1), row, row, pc, ans);
    next := if e.after.Await? then Some(e.after.pc) else None;
  }

  /** What a pass from an await leaves of a pending row. */
  lemma {:induction false} PendingPass(cfg: Config, env: Env, t: nat, row: Row, pc: Pc)
    requires ValidConfig(cfg) && Fitting(env)
    requires Shaped(cfg, row) && row.status == Pending
    requires pc == Fetching || OnPending(pc)
    requires UpToDate(cfg, Worker(0, true, pc, row), row)
    ensures var r := Pass(cfg, env, t, row, row, pc);
            && r.sends <= (if pc == Fetching || pc.Preparing? || pc.Sending? then 1 else 0)
            && (r.threw ==> pc == Fetching && r.row == row && r.sends == 0 && !Feasible(cfg, row))
            && (!r.threw ==> FromPending(cfg, row, r.row))
    decreases Rank(pc)
  {
    var next := PendingUnfolds(cfg, env, t, row, pc);
    if next.Some? {
      PendingPass(cfg, env, t + 1, row, next.value);
    }
  }

  /** The outcomes of a pass that began with a submitted row. */
  predicate FromSubmitted(cfg: Config, row: Row, after: Row) {
    && Shaped(cfg, after) && after.request == row.request
    && (|| (after.status == Pending && after.retries == row.retries + 1)
       || (after.status == Failed && after.retries == row.retries + 1)
       || (after.status == Confirmed && after.retries == row.retries)
       || (after.status == Submitted && after.retries == row.retries && after.lastValidBlockHeight == row.lastValidBlockHeight))
  }

  predicate WithoutProgress(ans: Answer, row: Row) {
    Stutters(ans) || (ans.Height? && row.lastValidBlockHeight.Some? && ans.height <= row.lastValidBlockHeight.value)
  }

  /** One resumption on a submitted row goes on or ends the pass; it leaves the
      row submitted only on a stuttering answer or within the blockhash's life. */
  lemma SubmittedResume(cfg: Config, now: int, row: Row, pc: Pc, ans: Answer)
    requires ValidConfig(cfg)
    requires Shaped(cfg, row) && row.status == Submitted
    requires pc == Fetching || OnSubmitted(pc)
    requires UpToDate(cfg, Worker(0, true, pc, row), row)
    requires Fits(pc, ans)
    ensures var e := Resume(cfg, now, row, row, pc, ans);
            match e.after
            case Await(next) => e.row == row && OnSubmitted(next) && UpToDate(cfg, Worker(0, true, next, row), row)
            case Throw => false
            case Return =>
              && FromSubmitted(cfg, row, e.row)
              && (e.row.status == Submitted ==> WithoutProgress(ans, row))
  {
  }

  /** What a pass leaves of a submitted row. If it is still submitted, the last
      question, the one at u and the await `at`, brought no progress. */
  predicate LeavesSubmitted(cfg: Config, env: Env, row: Row, r: PassResult, u: nat, at: Pc) {
    && r.t == u + 1 && r.last == at && !r.threw && r.sends == 0
    && FromSubmitted(cfg, row, r.row)
    && (r.row.status == Submitted ==> WithoutProgress(env.answers(u, at), row))
  }

  /** A pass over a submitted row is one resumption and, if that awaits, the pass
      from the next await. */
  lemma SubmittedUnfolds(cfg: Config, env: Env, t: nat, row: Row, pc: Pc) returns (r: PassResult, next: Option<Pc>)
    requires ValidConfig(cfg) && Fitting(env)
    requires Shaped(cfg, row) && row.status == Submitted
    requires pc == Fetching || OnSubmitted(pc)
    requires UpToDate(cfg, Worker(0, true, pc, row), row)
    ensures r == Pass(cfg, env, t, row, row, pc)
    ensures next.Some? ==>
              && OnSubmitted(next.value) && UpToDate(cfg, Worker(0, true, next.value, row), row)
              && Rank(next.value) < Rank(pc)
              && r == Pass(cfg, env, t + 1, row, row, next.value)
    ensures next.None? ==> LeavesSubmitted(cfg, env, row, r, t, pc)
  {
    var ans := env.answers(t, pc);
    assert Fits(pc, ans);
    SubmittedResume(cfg, env.times(t + 1), row, pc, ans);
    var e := Resume(cfg, env.times(t + 1), row, row, pc, ans);
    r := Pass(cfg, env, t, row, row, pc);
    if e.after.Await? {
      AwaitingOn(cfg, env, t, row, row, pc, e.after.pc);
      next := Some(e.after.pc);
    } else {
      EndingThere(cfg, env, t, row, row, pc, e.row);
      next := None;
    }
  }

  lemma {:induction false} SubmittedPass(cfg: Config, env: Env, t: nat, row: Row, pc: Pc) returns (r: PassResult, u: nat, at: Pc)
    requires ValidConfig(cfg) && Fitting(env)
    requires Shaped(cfg, row) && row.status == Submitted
    requires pc == Fetching || OnSubmitted(pc)
    requires UpToDate(cfg, Worker(0, true, pc, row), row)
    ensures r == Pass(cfg, env, t, row, row, pc)
    ensures t <= u && LeavesSubmitted(cfg, env, row, r, u, at)
    decreases Rank(pc)
  {
    var next;
    r, next := SubmittedUnfolds(cfg, env, t, row, pc);
    if next.Some? {
      var rest;
      rest, u, at := SubmittedPass(cfg, env, t + 1, row, next.value);
    } else {
      u, at := t, pc;
    }
  }

  /** Questions until calm, plus blocks until the blockhash has expired. */
  function Patience(env: Env, calm: nat, t: nat, row: Row): nat {
    (if t < calm then calm - t else 0)
    + (if row.lastValidBlockHeight.Some? && env.heights(t) <= row.lastValidBlockHeight.value
       then row.lastValidBlockHeight.value - env.heights(t) + 1 else 0)
  }

  function StatusRank(status: Status): nat {
    if status == Pending then 2 else if status == Submitted then 1 else 0
  }

  /** How many transactions may have been built when a row looks like this. */
  function SendsAllowed(cfg: Config, row: Row): nat {
    match row.status
    case Pending => row.retries
    case Submitted => row.retries + 1
    case _ => cfg.maxRetries + 1
  }

  function RetriesLeft(cfg: Config, row: Row): nat
    requires row.retries <= cfg.maxRetries + 1
  {
    cfg.maxRetries + 1 - row.retries
  }

  /** The measure (retries left, status, patience) is smaller for the first row. */
  predicate Smaller(cfg: Config, env: Env, calm: nat, t: nat, row: Row, t': nat, row': Row)
    requires row.retries <= cfg.maxRetries + 1 && row'.retries <= cfg.maxRetries + 1
  {
    || RetriesLeft(cfg, row) < RetriesLeft(cfg, row')
    || (RetriesLeft(cfg, row) == RetriesLeft(cfg, row') && StatusRank(row.status) < StatusRank(row'.status))
    || (&& RetriesLeft(cfg, row) == RetriesLeft(cfg, row')
        && StatusRank(row.status) == StatusRank(row'.status)
        && Patience(env, calm, t, row) < Patience(env, calm, t', row'))
  }

  /** Progress: a pass makes the measure smaller unless an exception ends it, which
      takes an infeasible fee; it never exceeds the allowance of transactions. */
  lemma PassProgress(cfg: Config, env: Env, calm: nat, t: nat, row: Row, sent: nat)
    requires ValidConfig(cfg) && Fair(env, calm)
    requires Shaped(cfg, row) && !Terminal(row.status)
    requires sent <= SendsAllowed(cfg, row)
    ensures var r := ProcessRecordPass(cfg, env, t, row, row);
            && Shaped(cfg, r.row) && r.row.request == row.request
            && sent + r.sends <= SendsAllowed(cfg, r.row)
            && (r.threw ==> !Feasible(cfg, row))
            && (r.threw || Smaller(cfg, env, calm, r.t, r.row, t, row))
  {
    if row.request.usable {
      if row.status == Pending {
        PendingPass(cfg, env, t, row, Fetching);
      } else {
        var r, u, at := SubmittedPass(cfg, env, t, row, Fetching);
        HeightsAdvance(env, calm, t, u);
        HeightsAdvance(env, calm, t, r.t);
      }
    }
  }
}
