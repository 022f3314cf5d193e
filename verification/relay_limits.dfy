/** Runs that show which looser claims about the relayer do not hold, under
    every configuration and for every request in order. */
module RelayLimits {
  import opened Outcomes
  import opened Fees
  import opened RelayStores
  import opened RelayProtocol
  import RelayRaces
  import RelayReopening

  const START := Sys([], map[], Chain(0, map[], {}, {}, {}, {}, []))

  /** Any configuration, and any request that client and program find in order. */
  predicate InOrder(cfg: Config, r: Request) {
    && ValidConfig(cfg)
    && RelayRaces.Sendable(cfg, Fresh(r))
    && FeePoolSplit(cfg.depositAmount, cfg.protocolFeeBps, r.fee).Ok?
  }

  function Fresh(r: Request): Row { NewRow(r, 1, 0) }
  function First(r: Request): Tx { TxFor(r, 1, 0) }
  function Second(r: Request): Tx { TxFor(r, 2, 100) }

  // ---------- steps of a run ----------

  lemma Then(cfg: Config, evs: seq<Event>, s: Sys, ev: Event) returns (longer: seq<Event>, next: Sys)
    requires |cfg.retryBackoffMs| > 0
    requires s == Exec(cfg, START, evs)
    ensures evs <= longer && next == Step(cfg, s, ev) == Exec(cfg, START, longer)
  {
    longer := evs + [ev];
    next := Step(cfg, s, ev);
    ExecAppends(cfg, START, evs, [ev]);
    assert [ev][1..] == [];
  }

  /** One more answer for worker w, which holds request 0. */
  lemma ThenAnswer(cfg: Config, evs: seq<Event>, s: Sys, wid: int, w: Worker, ans: Answer)
    returns (longer: seq<Event>, next: Sys)
    requires |cfg.retryBackoffMs| > 0
    requires s == Exec(cfg, START, evs)
    requires wid in s.workers && s.workers[wid] == w && w.id == 0 && |s.rows| == 1
    requires Honest(s.chain, w, ans)
    ensures evs <= longer && next == Exec(cfg, START, longer)
    ensures next == Apply(s, wid, w, Resume(cfg, 0, s.rows[0], w.record, w.pc, ans)).(chain := Transmit(s.chain, wid, w, ans))
  {
    longer, next := Then(cfg, evs, s, ResumeEv(wid, 0, ans));
  }

  /** A relay handler begins another pass over request 0 when it is due. */
  lemma ThenLoop(cfg: Config, evs: seq<Event>, s: Sys, w: Worker) returns (longer: seq<Event>, next: Sys)
    requires |cfg.retryBackoffMs| > 0
    requires s == Exec(cfg, START, evs)
    requires 0 in s.workers && s.workers[0] == w && w.id == 0 && w.pc == Waiting && |s.rows| == 1
    requires !Terminal(s.rows[0].status) && s.rows[0].request.usable
    ensures evs <= longer && next == Exec(cfg, START, longer)
    ensures next == s.(workers := s.workers[0 := w.(pc := Fetching, record := s.rows[0])])
  {
    longer, next := Then(cfg, evs, s, LoopEv(0, s.rows[0].nextAttemptAt));
    assert next.rows == s.rows;
  }

  lemma Reserved(cfg: Config, r: Request) returns (evs: seq<Event>, s: Sys)
    requires InOrder(cfg, r)
    ensures s == Exec(cfg, START, evs)
    ensures s == Sys([Fresh(r)], map[0 := Worker(0, true, Checking, Fresh(r))], START.chain)
  {
    evs, s := [], START;
    assert Reserve([], r, 1, 0, cfg.limits) == Admitted(0);
    evs, s := Then(cfg, evs, s, ReserveEv(0, r, 1, 0));
  }

  /** The handler, at the head of its loop, sends a transaction for a pending row. */
  lemma HandlerSends(cfg: Config, evs: seq<Event>, s: Sys, w: Worker, row: Row, blockhash: int, lastValid: int)
    returns (longer: seq<Event>, next: Sys)
    requires |cfg.retryBackoffMs| > 0
    requires s == Exec(cfg, START, evs)
    requires s.rows == [row] && row.status == Pending && RelayRaces.Sendable(cfg, row)
    requires 0 in s.workers && s.workers[0] == w && w.id == 0 && w.http && w.pc == Waiting
    ensures evs <= longer && next == Exec(cfg, START, longer)
    ensures var tx := TxFor(row.request, blockhash, lastValid);
            next == s.(workers := s.workers[0 := Worker(0, true, Sending(tx, 0), row)],
                       chain := s.chain.(sent := s.chain.sent[tx := Origin(0, 0)], refused := s.chain.refused - {tx}))
  {
    longer, next := ThenLoop(cfg, evs, s, w);
    RelayRaces.FetchedPrepares(cfg, next, 0);
    longer, next := Then(cfg, longer, next, ResumeEv(0, 0, PoolRead));
    RelayRaces.PreparedSends(cfg, next, 0, blockhash, lastValid);
    longer, next := Then(cfg, longer, next, ResumeEv(0, 0, Prepared(blockhash, lastValid)));
    var tx := TxFor(row.request, blockhash, lastValid);
    assert next.workers == s.workers[0 := Worker(0, true, Sending(tx, 0), row)];
  }

  /** From a fresh reservation, the relay handler sends its first transaction. */
  lemma SendFirst(cfg: Config, r: Request, evs: seq<Event>, s: Sys) returns (longer: seq<Event>, next: Sys)
    requires InOrder(cfg, r)
    requires s == Exec(cfg, START, evs)
    requires s.rows == [Fresh(r)] && s.chain == START.chain
    requires 0 in s.workers && s.workers[0] == Worker(0, true, Checking, Fresh(r))
    ensures evs <= longer && next == Exec(cfg, START, longer)
    ensures next.rows == [Fresh(r)] && next.chain == START.chain.(sent := map[First(r) := Origin(0, 0)])
    ensures next.workers == s.workers[0 := Worker(0, true, Sending(First(r), 0), Fresh(r))]
  {
    var w := Worker(0, true, Waiting, Fresh(r));
    longer, next := ThenAnswer(cfg, evs, s, 0, s.workers[0], ChecksPassed);
    assert next == s.(workers := s.workers[0 := w]);
    longer, next := HandlerSends(cfg, longer, next, w, Fresh(r), 1, 0);
    assert next.chain.refused == {};
  }

  /** A worker with a fresh view of the pending row builds another transaction. */
  lemma SecondSend(cfg: Config, r: Request, evs: seq<Event>, s: Sys) returns (longer: seq<Event>, next: Sys)
    requires InOrder(cfg, r)
    requires s == Exec(cfg, START, evs)
    requires 1 in s.workers && s.workers[1] == Worker(0, false, Held, Fresh(r))
    requires s.rows == [Fresh(r)] && s.chain.refused == {}
    ensures evs <= longer && next == Exec(cfg, START, longer)
    ensures next.rows == s.rows && next.workers.Keys == s.workers.Keys
    ensures forall v <- s.workers :: v != 1 ==> next.workers[v] == s.workers[v]
    ensures next.chain == s.chain.(sent := s.chain.sent[Second(r) := Origin(0, 1)])
  {
    var rest := RelayRaces.HeldSends(cfg, s, 1, 2, 100);
    ExecAppends(cfg, START, evs, rest);
    longer := evs + rest;
    next := Exec(cfg, START, longer);
    assert next.chain.refused == {};
  }

  // ---------- two live transactions, submission before the checks ----------

  /** With the retry manager running beside the relay handler, one request can
      have two live transactions. */
  lemma TwoWorkersTwoLive(cfg: Config, r: Request) returns (evs: seq<Event>)
    requires InOrder(cfg, r)
    ensures var chain := Exec(cfg, START, evs).chain;
            Live(chain, First(r)) && Live(chain, Second(r)) && chain.sent[First(r)].id == chain.sent[Second(r)].id
  {
    var s;
    evs, s := Reserved(cfg, r);
    evs, s := Then(cfg, evs, s, SnapshotEv(1, 0, 0));
    evs, s := SendFirst(cfg, r, evs, s);
    evs, s := SecondSend(cfg, r, evs, s);
  }

  /** So it can with one worker at a time, when a crash interrupts a send. */
  lemma CrashTwoLive(cfg: Config, r: Request) returns (evs: seq<Event>)
    requires InOrder(cfg, r)
    ensures var chain := Exec(cfg, START, evs).chain;
            Live(chain, First(r)) && Live(chain, Second(r)) && chain.sent[First(r)].id == chain.sent[Second(r)].id
  {
    var s;
    evs, s := Reserved(cfg, r);
    evs, s := SendFirst(cfg, r, evs, s);
    evs, s := Then(cfg, evs, s, CrashEv);
    evs, s := Then(cfg, evs, s, SnapshotEv(1, 0, 0));
    evs, s := SecondSend(cfg, r, evs, s);
  }

  /** The retry manager may submit a request that the relay handler is still
      checking: verification does not always come before submission. */
  lemma SubmittedBeforeChecked(cfg: Config, r: Request) returns (evs: seq<Event>)
    requires InOrder(cfg, r)
    ensures var s := Exec(cfg, START, evs);
            && Live(s.chain, Second(r)) && 0 in s.workers
            && s.workers[0].pc == Checking && s.workers[0].id == s.chain.sent[Second(r)].id
  {
    var s;
    evs, s := Reserved(cfg, r);
    evs, s := Then(cfg, evs, s, SnapshotEv(1, 0, 0));
    evs, s := SecondSend(cfg, r, evs, s);
  }

  // ---------- what confirmed does not mean ----------

  /** The row of a request whose transaction was sent without an error. */
  function SubmittedRow(cfg: Config, row: Row, tx: Tx): Row {
    WithBreakdown(cfg, AsSubmitted(row, Own(tx), 0, tx.lastValidBlockHeight))
  }

  /** A pending row after one retry, due again. */
  predicate Retried(row: Row, r: Request) {
    row.request == r && row.status == Pending && row.retries == 1
  }

  lemma Spend(cfg: Config, r: Request, evs: seq<Event>, s: Sys) returns (longer: seq<Event>, next: Sys)
    requires InOrder(cfg, r)
    requires s == Exec(cfg, START, evs)
    requires s.chain == START.chain.(sent := map[First(r) := Origin(0, 0)])
    ensures evs <= longer && next == Exec(cfg, START, longer)
    ensures next == s.(chain := next.chain)
    ensures next.chain.sent == s.chain.sent && next.chain.refused == {} && next.chain.height == 0
    ensures next.chain.executed == next.chain.landed == {First(r)} && next.chain.spent == {r.nullifierHash}
  {
    longer, next := Then(cfg, evs, s, ExecuteEv(First(r), true));
  }

  lemma SentThenSpent(cfg: Config, r: Request, evs: seq<Event>, s: Sys) returns (longer: seq<Event>, next: Sys)
    requires InOrder(cfg, r)
    requires s == Exec(cfg, START, evs)
    requires s.rows == [Fresh(r)] && s.chain == START.chain.(sent := map[First(r) := Origin(0, 0)])
    requires 0 in s.workers && s.workers[0] == Worker(0, true, Sending(First(r), 0), Fresh(r))
    ensures evs <= longer && next == Exec(cfg, START, longer)
    ensures next.rows == [SubmittedRow(cfg, Fresh(r), First(r))]
    ensures next.workers == s.workers[0 := Worker(0, true, Waiting, Fresh(r))]
    ensures next.chain.sent == s.chain.sent && next.chain.refused == {} && next.chain.height == 0
    ensures next.chain.executed == next.chain.landed == {First(r)} && next.chain.spent == {r.nullifierHash}
  {
    longer, next := ThenAnswer(cfg, evs, s, 0, s.workers[0], Sent);
    longer, next := Spend(cfg, r, longer, next);
  }

  /** The handler inspects its transaction. */
  lemma Inspect(cfg: Config, evs: seq<Event>, s: Sys) returns (longer: seq<Event>, next: Sys)
    requires |cfg.retryBackoffMs| > 0
    requires s == Exec(cfg, START, evs)
    requires |s.rows| == 1 && s.rows[0].status == Submitted && s.rows[0].signature.Some? && s.rows[0].request.usable
    requires 0 in s.workers && s.workers[0].id == 0 && s.workers[0].http && s.workers[0].pc == Waiting
    ensures evs <= longer && next == Exec(cfg, START, longer)
    ensures next == s.(workers := s.workers[0 := Worker(0, true, Inspecting, s.rows[0])])
  {
    longer, next := ThenLoop(cfg, evs, s, s.workers[0]);
    longer, next := ThenAnswer(cfg, longer, next, 0, Worker(0, true, Fetching, s.rows[0]), PoolRead);
    assert next.rows == s.rows;
  }

  /** The transaction is not found, and the handler looks for the nullifier. */
  lemma NotFound(cfg: Config, evs: seq<Event>, s: Sys) returns (longer: seq<Event>, next: Sys)
    requires |cfg.retryBackoffMs| > 0
    requires s == Exec(cfg, START, evs)
    requires |s.rows| == 1 && s.rows[0].status == Submitted && s.rows[0].signature.Some? && s.rows[0].request.usable
    requires 0 in s.workers && s.workers[0].id == 0 && s.workers[0].http && s.workers[0].pc == Waiting
    ensures evs <= longer && next == Exec(cfg, START, longer)
    ensures next == s.(workers := s.workers[0 := Worker(0, true, LookingUp, s.rows[0])])
  {
    longer, next := Inspect(cfg, evs, s);
    longer, next := ThenAnswer(cfg, longer, next, 0, Worker(0, true, Inspecting, s.rows[0]), SignatureStatus(false, false, false));
    assert next.rows == s.rows;
  }

  /** The handler's request is sent, spent and confirmed while the retry manager
      still holds the pending row. */
  lemma ConfirmedBesideStale(cfg: Config, r: Request) returns (evs: seq<Event>, s: Sys)
    requires InOrder(cfg, r)
    ensures s == Exec(cfg, START, evs)
    ensures |s.rows| == 1 && s.rows[0].status == Confirmed
    ensures 1 in s.workers && s.workers[1] == Worker(0, false, Held, Fresh(r))
  {
    evs, s := Reserved(cfg, r);
    evs, s := Then(cfg, evs, s, SnapshotEv(1, 0, 0));
    evs, s := SendFirst(cfg, r, evs, s);
    evs, s := SentThenSpent(cfg, r, evs, s);
    evs, s := Inspect(cfg, evs, s);
    evs, s := ThenAnswer(cfg, evs, s, 0, s.workers[0], SignatureStatus(true, false, true));
  }

  /** A confirmed request can be reopened by a stale worker; when it fails with
      retries left, the request is pending again. */
  lemma ConfirmedIsNotFinal(cfg: Config, r: Request) returns (evs: seq<Event>, more: seq<Event>)
    requires InOrder(cfg, r)
    ensures |Exec(cfg, START, evs).rows| == 1 && Exec(cfg, START, evs).rows[0].status == Confirmed
    ensures evs <= more && |Exec(cfg, START, more).rows| == 1
    ensures !Terminal(Exec(cfg, START, more).rows[0].status)
    ensures cfg.maxRetries > 0 ==> Exec(cfg, START, more).rows[0].status == Pending
  {
    var s;
    evs, s := ConfirmedBesideStale(cfg, r);
    if cfg.maxRetries > 0 {
      RelayRaces.HeldBegins(cfg, s, 1);
      more, s := Then(cfg, evs, s, BeginEv(1, 0));
      more, s := ThenAnswer(cfg, more, s, 1, s.workers[1], Threw(Failure(true, false)));
    } else {
      var rest := RelayReopening.Reopening(cfg, s, 1);
      ExecAppends(cfg, START, evs, rest);
      more := evs + rest;
    }
  }

  /** A send with no clear outcome, then somebody else spends the nullifier. */
  lemma SentThenForeignSpend(cfg: Config, r: Request) returns (evs: seq<Event>, s: Sys)
    requires InOrder(cfg, r)
    ensures s == Exec(cfg, START, evs)
    ensures |s.rows| == 1 && s.rows[0].request == r
    ensures s.rows[0].status == Submitted && s.rows[0].signature == Some(Own(First(r)))
    ensures s.workers == map[0 := Worker(0, true, Waiting, Fresh(r))]
    ensures r.nullifierHash in s.chain.spent && First(r) !in s.chain.executed
  {
    evs, s := Reserved(cfg, r);
    evs, s := SendFirst(cfg, r, evs, s);
    evs, s := ThenAnswer(cfg, evs, s, 0, s.workers[0], SendAmbiguous);
    evs, s := Then(cfg, evs, s, ForeignSpendEv(r.nullifierHash, 9, Split(0, 0, 1)));
  }

  /** Confirmed does not mean that the stored transaction was executed: a
      nullifier spent by somebody else confirms a request too. */
  lemma ConfirmedByForeignSpend(cfg: Config, r: Request) returns (evs: seq<Event>)
    requires InOrder(cfg, r)
    ensures var s := Exec(cfg, START, evs);
            && |s.rows| == 1 && s.rows[0].status == Confirmed
            && s.rows[0].signature == Some(Own(First(r))) && First(r) !in s.chain.executed
  {
    var s;
    evs, s := SentThenForeignSpend(cfg, r);
    evs, s := NotFound(cfg, evs, s);
    evs, s := ThenAnswer(cfg, evs, s, 0, s.workers[0], NullifierUsed(true));
  }

  /** The first transaction landed, its blockhash has expired, and the handler is
      about to ask a node that does not know of it. */
  lemma LandedThenDenied(cfg: Config, r: Request) returns (evs: seq<Event>, s: Sys)
    requires InOrder(cfg, r)
    ensures s == Exec(cfg, START, evs)
    ensures s.rows == [SubmittedRow(cfg, Fresh(r), First(r))]
    ensures s.workers == map[0 := Worker(0, true, LookingUp, s.rows[0])]
    ensures s.chain.executed == s.chain.landed == {First(r)} && s.chain.spent == {r.nullifierHash}
    ensures s.chain.refused == {} && s.chain.height == 1
  {
    evs, s := Reserved(cfg, r);
    evs, s := SendFirst(cfg, r, evs, s);
    evs, s := SentThenSpent(cfg, r, evs, s);
    evs, s := Then(cfg, evs, s, BlockEv);
    evs, s := NotFound(cfg, evs, s);
  }

  /** Stale nodes deny it until the blockhash has expired: the request is pending again. */
  lemma LandedThenRetried(cfg: Config, r: Request) returns (evs: seq<Event>, s: Sys)
    requires InOrder(cfg, r) && cfg.maxRetries > 0
    ensures s == Exec(cfg, START, evs)
    ensures |s.rows| == 1 && Retried(s.rows[0], r)
    ensures 0 in s.workers && s.workers[0].id == 0 && s.workers[0].http && s.workers[0].pc == Waiting
    ensures s.chain.executed == s.chain.landed == {First(r)} && s.chain.spent == {r.nullifierHash}
    ensures s.chain.refused == {}
  {
    evs, s := LandedThenDenied(cfg, r);
    evs, s := ThenAnswer(cfg, evs, s, 0, s.workers[0], NullifierUsed(false));
    evs, s := ThenAnswer(cfg, evs, s, 0, s.workers[0], Height(1));
  }

  /** Nor does it when nobody but the one worker spends: the request is sent again
      after an earlier transaction of its own landed, and the spent nullifier
      confirms it with the second transaction stored, which is never executed. */
  lemma ConfirmedByEarlierSend(cfg: Config, r: Request) returns (evs: seq<Event>)
    requires InOrder(cfg, r) && cfg.maxRetries > 0
    ensures var s := Exec(cfg, START, evs);
            && |s.rows| == 1 && s.rows[0].status == Confirmed
            && s.rows[0].signature == Some(Own(Second(r))) && Second(r) !in s.chain.executed
            && s.chain.landed == {First(r)}
  {
    var s;
    evs, s := LandedThenRetried(cfg, r);
    evs, s := HandlerSends(cfg, evs, s, s.workers[0], s.rows[0], 2, 100);
    evs, s := ThenAnswer(cfg, evs, s, 0, s.workers[0], Sent);
    evs, s := NotFound(cfg, evs, s);
    evs, s := ThenAnswer(cfg, evs, s, 0, s.workers[0], NullifierUsed(true));
  }
}
