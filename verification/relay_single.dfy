/** What holds when at most one worker at a time holds a request, and no crash
    hits a worker between handing a transaction to the network and writing it
    down: the shape of records, and at most one live transaction each. */
module RelaySingle {
  import opened Outcomes
  import opened RelayStores
  import opened RelayProtocol
  import opened RelaySafety

  /** The discipline on single steps. */
  predicate Orderly(s: Sys, ev: Event) {
    match ev
    case SnapshotEv(_, id, _) => forall wid <- s.workers :: s.workers[wid].id != id
    case CrashEv => forall wid <- s.workers :: !s.workers[wid].pc.Sending?
    case _ => true
  }

  predicate OrderlyRun(cfg: Config, s: Sys, evs: seq<Event>)
    requires |cfg.retryBackoffMs| > 0
    decreases |evs|
  {
    evs == [] || (Orderly(s, evs[0]) && OrderlyRun(cfg, Step(cfg, s, evs[0]), evs[1..]))
  }

  // ---------- shape ----------

  predicate Unsubmitted(row: Row) {
    row.signature.None? && row.submittedAt.None? && row.lastValidBlockHeight.None?
  }

  /** Submitted rows carry the relayer's own transaction and its expiry. */
  predicate Tracked(row: Row) {
    && row.signature.Some? && row.signature.value.Own?
    && row.submittedAt.Some?
    && row.lastValidBlockHeight == Some(row.signature.value.tx.lastValidBlockHeight)
  }

  predicate Shaped(cfg: Config, row: Row) {
    match row.status
    case Pending => Unsubmitted(row) && row.retries <= cfg.maxRetries
    case Submitted => Tracked(row) && Feasible(cfg, row) && row.retries <= cfg.maxRetries
    case Confirmed => row.signature.Some? && row.retries <= cfg.maxRetries
    case Failed => row.retries <= cfg.maxRetries + 1
    case Expired => row.retries <= cfg.maxRetries
  }

  predicate OnPending(pc: Pc) {
    pc.Preparing? || pc.Sending? || pc.PendingUsed? || pc.PendingFind?
  }

  predicate OnSubmitted(pc: Pc) {
    pc.Inspecting? || pc.SubmittedUsed? || pc.SubmittedFind? || pc.LookingUp? || pc.ReadingHeight?
  }

  /** A worker that acts on a snapshot has an up-to-date one. */
  predicate UpToDate(cfg: Config, w: Worker, row: Row) {
    && (w.pc != Waiting ==> w.record == row && !Terminal(row.status))
    && (w.pc == Checking ==> row.status == Pending)
    && (OnPending(w.pc) ==> row.status == Pending && Feasible(cfg, row))
    && (OnSubmitted(w.pc) ==> row.status == Submitted)
  }

  // ---------- live transactions ----------

  /** A live transaction of a pending request is just being sent; one of a
      submitted request is the one written down. */
  predicate TrackedIn(s: Sys, tx: Tx)
    requires tx in s.chain.sent && s.chain.sent[tx].id < |s.rows|
  {
    var origin := s.chain.sent[tx];
    var row := s.rows[origin.id];
    && (row.status == Pending ==>
          && origin.worker in s.workers
          && s.workers[origin.worker].id == origin.id
          && s.workers[origin.worker].pc.Sending?
          && s.workers[origin.worker].pc.tx == tx)
    && (row.status == Submitted ==> row.signature == Some(Own(tx)))
  }

  ghost predicate LiveTracked(s: Sys) {
    forall tx | Live(s.chain, tx) && s.chain.sent[tx].id < |s.rows| :: TrackedIn(s, tx)
  }

  ghost predicate AtMostOneLive(chain: Chain) {
    forall tx, tx' | tx in chain.sent && tx' in chain.sent && Live(chain, tx) && Live(chain, tx') ::
      chain.sent[tx].id == chain.sent[tx'].id ==> tx == tx'
  }

  ghost predicate OneEach(s: Sys) {
    forall v, w | v in s.workers && w in s.workers :: s.workers[v].id == s.workers[w].id ==> v == w
  }

  /** The part of the invariant that is about single workers. */
  ghost predicate Tidy(cfg: Config, s: Sys) {
    && OneEach(s)
    && (forall i :: 0 <= i < |s.rows| ==> Shaped(cfg, s.rows[i]))
    && (forall wid <- s.workers :: s.workers[wid].id < |s.rows| && UpToDate(cfg, s.workers[wid], s.rows[s.workers[wid].id]))
    && LiveTracked(s)
    && AtMostOneLive(s.chain)
  }

  ghost predicate Single(cfg: Config, s: Sys) {
    Safe(cfg, s) && Tidy(cfg, s)
  }

  // ---------- the row of the worker ----------

  /** What one resumption does to an up-to-date row. */
  lemma ResumeKeepsShape(cfg: Config, now: int, row: Row, w: Worker, ans: Answer)
    requires ValidConfig(cfg)
    requires Shaped(cfg, row) && UpToDate(cfg, w, row)
    requires w.pc != Waiting
    ensures var e := Resume(cfg, now, row, w.record, w.pc, ans);
            && Shaped(cfg, e.row)
            && (e.after.Await? && e.after.pc != Waiting ==> UpToDate(cfg, w.(pc := e.after.pc), e.row) && e.row == row)
            && (e.after == Await(Waiting) ==> e.row == row)
  {
  }

  // ---------- live transactions of the worker's request ----------

  /** Before a step of the one worker of a request: its live transaction, if
      any, is the one the worker is sending or the one written down. */
  lemma LiveBefore(cfg: Config, s: Sys, wid: int, tx: Tx)
    requires Tidy(cfg, s) && wid in s.workers
    requires Live(s.chain, tx) && s.chain.sent[tx].id == s.workers[wid].id
    ensures var w := s.workers[wid];
            var row := s.rows[w.id];
            && (row.status == Pending ==> w.pc.Sending? && w.pc.tx == tx)
            && (row.status == Submitted ==> row.signature == Some(Own(tx)))
  {
    assert TrackedIn(s, tx);
  }

  /** A transaction has one request only. */
  lemma SameRequest(s: Sys, wid: int, tx: Tx)
    requires UniqueNullifiers(s.rows) && SentSound(s.chain.sent, s.rows)
    requires wid in s.workers && s.workers[wid].id < |s.rows|
    requires tx in s.chain.sent && Carries(tx, s.rows[s.workers[wid].id].request)
    ensures s.chain.sent[tx].id == s.workers[wid].id
  {
    var id := s.chain.sent[tx].id;
    assert Carries(tx, s.rows[id].request);
    assert s.rows[id].request.nullifierHash == s.rows[s.workers[wid].id].request.nullifierHash;
  }

  /** After the step: the same, for what the worker wrote and where it waits. */
  lemma LiveAfter(cfg: Config, s: Sys, wid: int, now: int, ans: Answer, tx: Tx)
    requires ValidConfig(cfg) && Tidy(cfg, s) && Enabled(cfg, s, ResumeEv(wid, now, ans))
    requires s.workers[wid].pc != Waiting
    requires var chain := Transmit(s.chain, wid, s.workers[wid], ans);
             Live(chain, tx) && chain.sent[tx].id == s.workers[wid].id
    ensures var w := s.workers[wid];
            var e := Resume(cfg, now, s.rows[w.id], w.record, w.pc, ans);
            && (e.row.status == Pending ==>
                  && e.after.Await? && e.after.pc.Sending? && e.after.pc.tx == tx
                  && Transmit(s.chain, wid, w, ans).sent[tx].worker == wid)
            && (e.row.status == Submitted ==> e.row.signature == Some(Own(tx)))
  {
    var w := s.workers[wid];
    var row := s.rows[w.id];
    assert UpToDate(cfg, w, row);
    assert Shaped(cfg, row);
    if w.pc.Preparing? && ans.Prepared? {
      if tx != TxFor(w.record.request, ans.blockhash, ans.lastValidBlockHeight) {
        assert Live(s.chain, tx);
        LiveBefore(cfg, s, wid, tx);
      }
    } else {
      assert Live(s.chain, tx);
      LiveBefore(cfg, s, wid, tx);
      assert TrackedIn(s, tx);
    }
  }

  /** A second transaction of a request is only ever built when none is live. */
  lemma NoneLiveWhenPrepared(cfg: Config, s: Sys, wid: int, tx: Tx)
    requires Tidy(cfg, s) && wid in s.workers && s.workers[wid].pc.Preparing?
    requires tx in s.chain.sent && s.chain.sent[tx].id == s.workers[wid].id
    ensures !Live(s.chain, tx)
  {
    assert UpToDate(cfg, s.workers[wid], s.rows[s.workers[wid].id]);
    if Live(s.chain, tx) {
      LiveBefore(cfg, s, wid, tx);
    }
  }

  lemma TransmitKeepsOneLive(cfg: Config, s: Sys, wid: int, now: int, ans: Answer)
    requires ValidConfig(cfg) && Tidy(cfg, s) && Enabled(cfg, s, ResumeEv(wid, now, ans))
    ensures AtMostOneLive(Transmit(s.chain, wid, s.workers[wid], ans))
  {
    var w := s.workers[wid];
    var chain := Transmit(s.chain, wid, w, ans);
    if w.pc.Preparing? && ans.Prepared? {
      var sent := TxFor(w.record.request, ans.blockhash, ans.lastValidBlockHeight);
      forall tx, tx' | tx in chain.sent && tx' in chain.sent && Live(chain, tx) && Live(chain, tx') && chain.sent[tx].id == chain.sent[tx'].id
        ensures tx == tx'
      {
        if tx == sent && tx' != sent {
          NoneLiveWhenPrepared(cfg, s, wid, tx');
        } else if tx != sent && tx' == sent {
          NoneLiveWhenPrepared(cfg, s, wid, tx);
        }
      }
    }
  }

  // ---------- steps ----------

  /** Live transactions of other requests are tracked as before. */
  lemma OthersStayTracked(cfg: Config, s: Sys, wid: int, now: int, ans: Answer, tx: Tx)
    requires ValidConfig(cfg) && Tidy(cfg, s) && Enabled(cfg, s, ResumeEv(wid, now, ans))
    requires var chain := Transmit(s.chain, wid, s.workers[wid], ans);
             Live(chain, tx) && chain.sent[tx].id < |s.rows| && chain.sent[tx].id != s.workers[wid].id
    ensures TrackedIn(Step(cfg, s, ResumeEv(wid, now, ans)), tx)
  {
    assert Live(s.chain, tx) && TrackedIn(s, tx);
  }

  lemma ResumeIsTracked(cfg: Config, s: Sys, wid: int, now: int, ans: Answer)
    requires ValidConfig(cfg) && Tidy(cfg, s) && Enabled(cfg, s, ResumeEv(wid, now, ans))
    requires s.workers[wid].pc != Waiting
    ensures LiveTracked(Step(cfg, s, ResumeEv(wid, now, ans)))
  {
    var next := Step(cfg, s, ResumeEv(wid, now, ans));
    forall tx | Live(next.chain, tx) && next.chain.sent[tx].id < |next.rows|
      ensures TrackedIn(next, tx)
    {
      if next.chain.sent[tx].id == s.workers[wid].id {
        LiveAfter(cfg, s, wid, now, ans, tx);
      } else {
        OthersStayTracked(cfg, s, wid, now, ans, tx);
      }
    }
  }

  lemma ResumeIsShaped(cfg: Config, s: Sys, wid: int, now: int, ans: Answer)
    requires ValidConfig(cfg) && Tidy(cfg, s) && Enabled(cfg, s, ResumeEv(wid, now, ans))
    requires s.workers[wid].pc != Waiting
    ensures var next := Step(cfg, s, ResumeEv(wid, now, ans));
            && OneEach(next)
            && (forall i :: 0 <= i < |next.rows| ==> Shaped(cfg, next.rows[i]))
            && (forall v <- next.workers :: next.workers[v].id < |next.rows| && UpToDate(cfg, next.workers[v], next.rows[next.workers[v].id]))
  {
    var w := s.workers[wid];
    var next := Step(cfg, s, ResumeEv(wid, now, ans));
    assert UpToDate(cfg, w, s.rows[w.id]) && Shaped(cfg, s.rows[w.id]);
    ResumeKeepsShape(cfg, now, s.rows[w.id], w, ans);
    var e := Resume(cfg, now, s.rows[w.id], w.record, w.pc, ans);
    assert next.rows == s.rows[w.id := e.row];
    forall v | v in next.workers
      ensures v in s.workers && next.workers[v].id == s.workers[v].id
      ensures UpToDate(cfg, next.workers[v], next.rows[next.workers[v].id])
    {
      if v != wid {
        assert s.workers[v].id != w.id;
        assert UpToDate(cfg, s.workers[v], s.rows[s.workers[v].id]);
      }
    }
  }

  lemma ResumeIsTidy(cfg: Config, s: Sys, wid: int, now: int, ans: Answer)
    requires ValidConfig(cfg) && Tidy(cfg, s) && Enabled(cfg, s, ResumeEv(wid, now, ans))
    ensures Tidy(cfg, Step(cfg, s, ResumeEv(wid, now, ans)))
  {
    if s.workers[wid].pc == Waiting {
      var w := s.workers[wid];
      var next := Step(cfg, s, ResumeEv(wid, now, ans));
      assert Resume(cfg, now, s.rows[w.id], w.record, w.pc, ans) == Effect(s.rows[w.id], Await(Waiting));
      assert next.rows == s.rows;
      assert next.workers == s.workers;
      assert next == s;
    } else {
      ResumeIsShaped(cfg, s, wid, now, ans);
      ResumeIsTracked(cfg, s, wid, now, ans);
      TransmitKeepsOneLive(cfg, s, wid, now, ans);
    }
  }

  /** Beginning to process: at most the row of an unusable payload changes, and
      then to a terminal status. */
  ghost predicate Began(cfg: Config, s: Sys, wid: int, now: int, next: Sys)
    requires wid in s.workers && s.workers[wid].id < |s.rows|
  {
    var id := s.workers[wid].id;
    && !s.workers[wid].pc.Sending?
    && next.chain == s.chain
    && (next.rows == s.rows || next.rows == s.rows[id := AsExpired(s.rows[id], now)])
    && (forall v <- s.workers :: v != wid ==> v in next.workers && next.workers[v] == s.workers[v])
    && (forall v <- next.workers :: v in s.workers && next.workers[v].id == s.workers[v].id)
    && (wid in next.workers ==> UpToDate(cfg, next.workers[wid], next.rows[id]))
  }

  lemma LoopBegins(cfg: Config, s: Sys, wid: int, now: int)
    requires ValidConfig(cfg) && Enabled(cfg, s, LoopEv(wid, now))
    ensures Began(cfg, s, wid, now, Step(cfg, s, LoopEv(wid, now)))
  {
  }

  lemma HeldBegins(cfg: Config, s: Sys, wid: int, now: int)
    requires ValidConfig(cfg) && Enabled(cfg, s, BeginEv(wid, now))
    requires UpToDate(cfg, s.workers[wid], s.rows[s.workers[wid].id])
    ensures Began(cfg, s, wid, now, Step(cfg, s, BeginEv(wid, now)))
  {
  }

  lemma BeginEffect(cfg: Config, s: Sys, ev: Event)
    requires ValidConfig(cfg) && Tidy(cfg, s) && Enabled(cfg, s, ev)
    requires ev.LoopEv? || ev.BeginEv?
    ensures Began(cfg, s, ev.worker, ev.now, Step(cfg, s, ev))
  {
    assert UpToDate(cfg, s.workers[ev.worker], s.rows[s.workers[ev.worker].id]);
    match ev
    case LoopEv(wid, now) => LoopBegins(cfg, s, wid, now);
    case BeginEv(wid, now) => HeldBegins(cfg, s, wid, now);
  }

  lemma BeginIsTracked(cfg: Config, s: Sys, ev: Event)
    requires ValidConfig(cfg) && Tidy(cfg, s) && Enabled(cfg, s, ev)
    requires ev.LoopEv? || ev.BeginEv?
    ensures LiveTracked(Step(cfg, s, ev))
  {
    BeginEffect(cfg, s, ev);
    var next := Step(cfg, s, ev);
    forall tx | Live(next.chain, tx) && next.chain.sent[tx].id < |next.rows|
      ensures TrackedIn(next, tx)
    {
      assert TrackedIn(s, tx);
      if s.chain.sent[tx].id == s.workers[ev.worker].id {
        LiveBefore(cfg, s, ev.worker, tx);
      }
    }
  }

  lemma BeginIsTidy(cfg: Config, s: Sys, ev: Event)
    requires ValidConfig(cfg) && Tidy(cfg, s) && Enabled(cfg, s, ev)
    requires ev.LoopEv? || ev.BeginEv?
    ensures Tidy(cfg, Step(cfg, s, ev))
  {
    BeginIsTracked(cfg, s, ev);
    BeginEffect(cfg, s, ev);
    var next := Step(cfg, s, ev);
    var id := s.workers[ev.worker].id;
    assert Shaped(cfg, s.rows[id]);
    forall v | v in next.workers
      ensures next.workers[v].id < |next.rows| && UpToDate(cfg, next.workers[v], next.rows[next.workers[v].id])
    {
      if v != ev.worker {
        assert s.workers[v].id != id;
        assert UpToDate(cfg, s.workers[v], s.rows[s.workers[v].id]);
      }
    }
  }

  lemma ReserveIsTidy(cfg: Config, s: Sys, wid: int, request: Request, ip: int, at: int)
    requires ValidConfig(cfg) && Tidy(cfg, s) && SentSound(s.chain.sent, s.rows)
    requires Enabled(cfg, s, ReserveEv(wid, request, ip, at))
    ensures Tidy(cfg, Step(cfg, s, ReserveEv(wid, request, ip, at)))
  {
    var row := NewRow(request, ip, at);
    var next := Step(cfg, s, ReserveEv(wid, request, ip, at));
    assert next == s.(rows := s.rows + [row], workers := s.workers[wid := Worker(|s.rows|, true, Checking, row)]);
    forall v | v in next.workers
      ensures next.workers[v].id < |next.rows| && UpToDate(cfg, next.workers[v], next.rows[next.workers[v].id])
    {
      if v != wid {
        assert UpToDate(cfg, s.workers[v], s.rows[s.workers[v].id]);
      }
    }
    forall tx | Live(next.chain, tx) && next.chain.sent[tx].id < |next.rows| ensures TrackedIn(next, tx) {
      assert s.chain.sent[tx].id < |s.rows| && TrackedIn(s, tx);
    }
  }

  lemma SnapshotIsTidy(cfg: Config, s: Sys, wid: int, id: nat, now: int)
    requires ValidConfig(cfg) && Tidy(cfg, s)
    requires Enabled(cfg, s, SnapshotEv(wid, id, now)) && Orderly(s, SnapshotEv(wid, id, now))
    ensures Tidy(cfg, Step(cfg, s, SnapshotEv(wid, id, now)))
  {
    var next := Step(cfg, s, SnapshotEv(wid, id, now));
    assert next == s.(workers := s.workers[wid := Worker(id, false, Held, s.rows[id])]);
    forall tx | Live(next.chain, tx) && next.chain.sent[tx].id < |next.rows| ensures TrackedIn(next, tx) {
      assert TrackedIn(s, tx);
    }
  }

  lemma ChainStepIsTidy(cfg: Config, s: Sys, ev: Event)
    requires ValidConfig(cfg) && Tidy(cfg, s) && Enabled(cfg, s, ev)
    requires ev.ExecuteEv? || ev.ForeignSpendEv? || ev.BlockEv?
    ensures Tidy(cfg, Step(cfg, s, ev))
  {
    var next := Step(cfg, s, ev);
    assert next == s.(chain := next.chain);
    assert next.chain.sent == s.chain.sent && s.chain.executed <= next.chain.executed && s.chain.height <= next.chain.height;
    forall tx | Live(next.chain, tx) && next.chain.sent[tx].id < |next.rows| ensures TrackedIn(next, tx) {
      assert Live(s.chain, tx) && TrackedIn(s, tx);
    }
  }

  /** A crash that interrupts no send leaves nothing untracked. */
  lemma CrashIsTidy(cfg: Config, s: Sys)
    requires ValidConfig(cfg) && Tidy(cfg, s) && Orderly(s, CrashEv)
    ensures Tidy(cfg, Step(cfg, s, CrashEv))
  {
    var next := Step(cfg, s, CrashEv);
    forall tx | Live(next.chain, tx) && next.chain.sent[tx].id < |next.rows| ensures TrackedIn(next, tx) {
      assert TrackedIn(s, tx);
    }
  }

  lemma StepIsSingle(cfg: Config, s: Sys, ev: Event)
    requires ValidConfig(cfg) && Single(cfg, s) && Orderly(s, ev)
    ensures Single(cfg, Step(cfg, s, ev))
  {
    StepIsSafe(cfg, s, ev);
    if Enabled(cfg, s, ev) {
      match ev
      case ResumeEv(wid, now, ans) => ResumeIsTidy(cfg, s, wid, now, ans);
      case LoopEv(_, _) => BeginIsTidy(cfg, s, ev);
      case BeginEv(_, _) => BeginIsTidy(cfg, s, ev);
      case ReserveEv(wid, request, ip, at) => ReserveIsTidy(cfg, s, wid, request, ip, at);
      case SnapshotEv(wid, id, now) => SnapshotIsTidy(cfg, s, wid, id, now);
      case ExecuteEv(_, _) => ChainStepIsTidy(cfg, s, ev);
      case ForeignSpendEv(_, _, _) => ChainStepIsTidy(cfg, s, ev);
      case BlockEv => ChainStepIsTidy(cfg, s, ev);
      case CrashEv => CrashIsTidy(cfg, s);
    }
  }

  lemma {:induction false} OrderlyRunIsSingle(cfg: Config, s: Sys, evs: seq<Event>)
    requires ValidConfig(cfg) && Single(cfg, s) && OrderlyRun(cfg, s, evs)
    ensures Single(cfg, Exec(cfg, s, evs))
    decreases |evs|
  {
    if evs != [] {
      StepIsSingle(cfg, s, evs[0]);
      OrderlyRunIsSingle(cfg, Step(cfg, s, evs[0]), evs[1..]);
    }
  }

  // ---------- what it means ----------

  /** At most one live transaction per request, over every orderly run. */
  lemma AtMostOneLiveTransaction(cfg: Config, s: Sys, evs: seq<Event>, tx: Tx, tx': Tx)
    requires ValidConfig(cfg) && Initial(s) && OrderlyRun(cfg, s, evs)
    requires var chain := Exec(cfg, s, evs).chain;
             Live(chain, tx) && Live(chain, tx') && chain.sent[tx].id == chain.sent[tx'].id
    ensures tx == tx'
  {
    OrderlyRunIsSingle(cfg, s, evs);
  }

  /** When a request is submitted again, each of its earlier transactions has
      been executed, refused, or can no longer be executed. */
  lemma ResubmittedOnlyWhenSettled(cfg: Config, s: Sys, evs: seq<Event>, wid: int, tx: Tx)
    requires ValidConfig(cfg) && Initial(s) && OrderlyRun(cfg, s, evs)
    requires var last := Exec(cfg, s, evs);
             && wid in last.workers && last.workers[wid].pc.Preparing?
             && tx in last.chain.sent && last.chain.sent[tx].id == last.workers[wid].id
    ensures var chain := Exec(cfg, s, evs).chain;
            tx in chain.refused || tx in chain.executed || chain.height > tx.lastValidBlockHeight
  {
    OrderlyRunIsSingle(cfg, s, evs);
    NoneLiveWhenPrepared(cfg, Exec(cfg, s, evs), wid, tx);
  }

  /** The shape of every record over every orderly run; so neither error about a
      missing signature can occur: a submitted record that is inspected and a
      confirmed record that is answered have one. */
  lemma SignaturesAreNeverMissing(cfg: Config, s: Sys, evs: seq<Event>, id: nat)
    requires ValidConfig(cfg) && Initial(s) && OrderlyRun(cfg, s, evs)
    requires id < |Exec(cfg, s, evs).rows|
    ensures var last := Exec(cfg, s, evs);
            && Shaped(cfg, last.rows[id])
            && last.rows[id].retries <= cfg.maxRetries + 1
            && (forall wid <- last.workers :: last.workers[wid].id == id && last.workers[wid].pc == Fetching && last.workers[wid].record.status == Submitted ==>
                  last.workers[wid].record.signature.Some?)
  {
    OrderlyRunIsSingle(cfg, s, evs);
  }

  /** Ambiguous sends go to submitted, never back to pending: over every orderly
      run, a transaction that may still be executed and that no worker is just
      sending belongs to a request that is not pending, and if that is submitted,
      it is the transaction written down. */
  lemma LiveIsWrittenDown(cfg: Config, s: Sys, evs: seq<Event>, tx: Tx)
    requires ValidConfig(cfg) && Initial(s) && OrderlyRun(cfg, s, evs)
    requires var last := Exec(cfg, s, evs);
             && Live(last.chain, tx)
             && forall wid <- last.workers :: !(last.workers[wid].pc.Sending? && last.workers[wid].pc.tx == tx)
    ensures var last := Exec(cfg, s, evs);
            && last.chain.sent[tx].id < |last.rows|
            && last.rows[last.chain.sent[tx].id].status != Pending
            && (last.rows[last.chain.sent[tx].id].status == Submitted ==>
                  last.rows[last.chain.sent[tx].id].signature == Some(Own(tx)))
  {
    OrderlyRunIsSingle(cfg, s, evs);
    var last := Exec(cfg, s, evs);
    assert SentSound(last.chain.sent, last.rows);
    assert TrackedIn(last, tx);
  }

  /** Nothing was sent for a request whose handler is still checking it. */
  ghost predicate UncheckedUnsent(s: Sys) {
    forall wid, tx | wid in s.workers && tx in s.chain.sent && s.workers[wid].pc == Checking ::
      s.chain.sent[tx].id != s.workers[wid].id
  }

  /** A resumption never goes back to checking. */
  lemma ResumeStopsChecking(cfg: Config, now: int, current: Row, record: Row, pc: Pc, ans: Answer)
    requires |cfg.retryBackoffMs| > 0
    ensures Resume(cfg, now, current, record, pc, ans).after == Await(Checking) ==> pc == Checking
  {
  }

  /** The only new transaction is one for the request of a worker that prepares it. */
  lemma SentAfter(s: Sys, wid: int, w: Worker, ans: Answer, tx: Tx)
    requires tx in Transmit(s.chain, wid, w, ans).sent
    ensures var origin := Transmit(s.chain, wid, w, ans).sent[tx];
            (tx in s.chain.sent && s.chain.sent[tx] == origin) || (w.pc.Preparing? && origin.id == w.id)
  {
  }

  lemma ResumeKeepsUncheckedUnsent(cfg: Config, s: Sys, wid: int, now: int, ans: Answer)
    requires ValidConfig(cfg) && OneEach(s) && UncheckedUnsent(s) && Enabled(cfg, s, ResumeEv(wid, now, ans))
    ensures UncheckedUnsent(Step(cfg, s, ResumeEv(wid, now, ans)))
  {
    var w := s.workers[wid];
    var e := Resume(cfg, now, s.rows[w.id], w.record, w.pc, ans);
    ResumeStopsChecking(cfg, now, s.rows[w.id], w.record, w.pc, ans);
    var chain := Transmit(s.chain, wid, w, ans);
    var next := Apply(s, wid, w, e).(chain := chain);
    forall v, tx | v in next.workers && tx in chain.sent && next.workers[v].pc == Checking
      ensures chain.sent[tx].id != next.workers[v].id
    {
      SentAfter(s, wid, w, ans, tx);
      assert next.workers[v] == s.workers[v];
    }
  }

  lemma BeginKeepsUncheckedUnsent(cfg: Config, s: Sys, ev: Event)
    requires ValidConfig(cfg) && UncheckedUnsent(s) && Enabled(cfg, s, ev)
    requires ev.LoopEv? || ev.BeginEv? || ev.SnapshotEv?
    ensures UncheckedUnsent(Step(cfg, s, ev))
  {
    var next := Step(cfg, s, ev);
    assert next.chain == s.chain;
    assert forall v <- next.workers :: next.workers[v].pc == Checking ==> v in s.workers && next.workers[v] == s.workers[v];
  }

  lemma StepKeepsUncheckedUnsent(cfg: Config, s: Sys, ev: Event)
    requires ValidConfig(cfg) && OneEach(s) && SentSound(s.chain.sent, s.rows) && UncheckedUnsent(s)
    ensures UncheckedUnsent(Step(cfg, s, ev))
  {
    if Enabled(cfg, s, ev) {
      match ev
      case ResumeEv(wid, now, ans) => ResumeKeepsUncheckedUnsent(cfg, s, wid, now, ans);
      case LoopEv(_, _) => BeginKeepsUncheckedUnsent(cfg, s, ev);
      case BeginEv(_, _) => BeginKeepsUncheckedUnsent(cfg, s, ev);
      case SnapshotEv(_, _, _) => BeginKeepsUncheckedUnsent(cfg, s, ev);
      case _ =>
    }
  }

  lemma {:induction false} RunKeepsUncheckedUnsent(cfg: Config, s: Sys, evs: seq<Event>)
    requires ValidConfig(cfg) && Single(cfg, s) && UncheckedUnsent(s) && OrderlyRun(cfg, s, evs)
    ensures UncheckedUnsent(Exec(cfg, s, evs))
    decreases |evs|
  {
    if evs != [] {
      StepKeepsUncheckedUnsent(cfg, s, evs[0]);
      StepIsSingle(cfg, s, evs[0]);
      RunKeepsUncheckedUnsent(cfg, Step(cfg, s, evs[0]), evs[1..]);
    }
  }

  /** Verified before submitted: over every orderly run, nothing is sent for a
      request before its handler has passed the checks. */
  lemma CheckedBeforeSubmitted(cfg: Config, s: Sys, evs: seq<Event>, wid: int, tx: Tx)
    requires ValidConfig(cfg) && Initial(s) && OrderlyRun(cfg, s, evs)
    requires var last := Exec(cfg, s, evs);
             tx in last.chain.sent && wid in last.workers && last.workers[wid].id == last.chain.sent[tx].id
    ensures Exec(cfg, s, evs).workers[wid].pc != Checking
  {
    RunKeepsUncheckedUnsent(cfg, s, evs);
  }

  /** Terminal statuses are final over every orderly run. */
  lemma {:induction false} TerminalIsFinal(cfg: Config, s: Sys, evs: seq<Event>, id: nat)
    requires ValidConfig(cfg) && Single(cfg, s) && OrderlyRun(cfg, s, evs)
    requires id < |s.rows| && Terminal(s.rows[id].status)
    ensures id < |Exec(cfg, s, evs).rows| && Exec(cfg, s, evs).rows[id] == s.rows[id]
    decreases |evs|
  {
    if evs != [] {
      var next := Step(cfg, s, evs[0]);
      assert id < |next.rows| && next.rows[id] == s.rows[id] by {
        TerminalSurvives(cfg, s, evs[0], id);
      }
      StepIsSingle(cfg, s, evs[0]);
      TerminalIsFinal(cfg, next, evs[1..], id);
    }
  }

  lemma TerminalSurvives(cfg: Config, s: Sys, ev: Event, id: nat)
    requires ValidConfig(cfg) && Single(cfg, s) && Orderly(s, ev)
    requires id < |s.rows| && Terminal(s.rows[id].status)
    ensures id < |Step(cfg, s, ev).rows| && Step(cfg, s, ev).rows[id] == s.rows[id]
  {
    if Enabled(cfg, s, ev) && (ev.ResumeEv? || ev.BeginEv?) {
      var w := s.workers[ev.worker];
      assert UpToDate(cfg, w, s.rows[w.id]);
    }
  }

  /** A pending request whose transaction may still be executed. */
  ghost predicate LeavesPendingLive(s: Sys) {
    exists tx :: Live(s.chain, tx) && s.chain.sent[tx].id < |s.rows| && s.rows[s.chain.sent[tx].id].status == Pending
  }

  /** Exactly when a crash leaves a pending request with a transaction that may
      still be executed, so that a restart may send a second one: when it
      interrupts the send of such a transaction. */
  lemma CrashLeavesLiveIff(cfg: Config, s: Sys)
    requires ValidConfig(cfg) && Single(cfg, s)
    ensures LeavesPendingLive(Step(cfg, s, CrashEv))
       <==> exists wid :: wid in s.workers && s.workers[wid].pc.Sending? && Live(s.chain, s.workers[wid].pc.tx)
  {
    if wid :| wid in s.workers && s.workers[wid].pc.Sending? && Live(s.chain, s.workers[wid].pc.tx) {
      var w := s.workers[wid];
      assert WorkerSound(w, s.rows, s.chain.spent);
      assert UpToDate(cfg, w, s.rows[w.id]);
      SameRequest(s, wid, w.pc.tx);
      var next := Step(cfg, s, CrashEv);
      assert Live(next.chain, w.pc.tx) && next.rows[next.chain.sent[w.pc.tx].id].status == Pending;
    }
    if LeavesPendingLive(Step(cfg, s, CrashEv)) {
      var tx :| Live(s.chain, tx) && s.chain.sent[tx].id < |s.rows| && s.rows[s.chain.sent[tx].id].status == Pending;
      assert TrackedIn(s, tx);
    }
  }
}
