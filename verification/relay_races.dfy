/** What the retry manager can do beside a relay handler that is still checking
    a request, and to which requests. */
module RelayRaces {
  import opened RelayStores
  import opened RelayProtocol
  import opened RelaySafety
  import RelaySingle

  /** The guards that every submission passes: a usable payload, and fees that
      leave the recipient something. */
  predicate Sendable(cfg: Config, row: Row) {
    row.request.usable && Feasible(cfg, row)
  }

  predicate Begun(pc: Pc) {
    pc != Checking && pc != Waiting && pc != Held
  }

  // ---------- nothing else is ever sent ----------

  predicate GuardsPassed(cfg: Config, w: Worker) {
    && (Begun(w.pc) ==> w.record.request.usable)
    && (RelaySingle.OnPending(w.pc) ==> Feasible(cfg, w.record))
  }

  /** Workers that got past the guards have passed them, and what was sent has too. */
  ghost predicate OnlySendable(cfg: Config, s: Sys) {
    && (forall wid <- s.workers :: GuardsPassed(cfg, s.workers[wid]))
    && (forall tx <- s.chain.sent :: s.chain.sent[tx].id < |s.rows| && Sendable(cfg, s.rows[s.chain.sent[tx].id]))
  }

  lemma SameRequestSameGuards(cfg: Config, a: Row, b: Row)
    requires a.request == b.request
    ensures Sendable(cfg, a) == Sendable(cfg, b) && Feasible(cfg, a) == Feasible(cfg, b)
  {
  }

  lemma ResumeKeepsGuards(cfg: Config, now: int, current: Row, w: Worker, ans: Answer)
    requires |cfg.retryBackoffMs| > 0
    requires GuardsPassed(cfg, w)
    ensures var e := Resume(cfg, now, current, w.record, w.pc, ans);
            && e.row.request == current.request
            && (e.after.Await? ==> GuardsPassed(cfg, w.(pc := e.after.pc)))
  {
  }

  lemma ResumeKeepsOnlySendable(cfg: Config, s: Sys, wid: int, now: int, ans: Answer)
    requires ValidConfig(cfg) && Safe(cfg, s) && OnlySendable(cfg, s) && Enabled(cfg, s, ResumeEv(wid, now, ans))
    ensures OnlySendable(cfg, Step(cfg, s, ResumeEv(wid, now, ans)))
  {
    var w := s.workers[wid];
    assert WorkerSound(w, s.rows, s.chain.spent) && GuardsPassed(cfg, w);
    ResumeKeepsGuards(cfg, now, s.rows[w.id], w, ans);
    var e := Resume(cfg, now, s.rows[w.id], w.record, w.pc, ans);
    var chain := Transmit(s.chain, wid, w, ans);
    var next := Apply(s, wid, w, e).(chain := chain);
    forall tx | tx in chain.sent
      ensures chain.sent[tx].id < |next.rows| && Sendable(cfg, next.rows[chain.sent[tx].id])
    {
      RelaySingle.SentAfter(s, wid, w, ans, tx);
      var id := chain.sent[tx].id;
      SameRequestSameGuards(cfg, next.rows[id], s.rows[id]);
      if w.pc.Preparing? {
        SameRequestSameGuards(cfg, s.rows[w.id], w.record);
      }
    }
  }

  lemma BeginKeepsOnlySendable(cfg: Config, s: Sys, ev: Event)
    requires ValidConfig(cfg) && Safe(cfg, s) && OnlySendable(cfg, s) && Enabled(cfg, s, ev)
    requires ev.LoopEv? || ev.BeginEv?
    ensures OnlySendable(cfg, Step(cfg, s, ev))
  {
    var next := Step(cfg, s, ev);
    var w := s.workers[ev.worker];
    assert WorkerSound(w, s.rows, s.chain.spent);
    assert next.chain == s.chain && |next.rows| == |s.rows|;
    assert next.rows == s.rows || next.rows == s.rows[w.id := AsExpired(s.rows[w.id], ev.now)];
    forall tx | tx in s.chain.sent ensures Sendable(cfg, next.rows[s.chain.sent[tx].id]) {
      SameRequestSameGuards(cfg, next.rows[s.chain.sent[tx].id], s.rows[s.chain.sent[tx].id]);
    }
    forall v | v in next.workers ensures GuardsPassed(cfg, next.workers[v]) {
      assert v != ev.worker ==> next.workers[v] == s.workers[v];
    }
  }

  lemma StepKeepsOnlySendable(cfg: Config, s: Sys, ev: Event)
    requires ValidConfig(cfg) && Safe(cfg, s) && OnlySendable(cfg, s)
    ensures OnlySendable(cfg, Step(cfg, s, ev))
  {
    if Enabled(cfg, s, ev) {
      match ev
      case ResumeEv(wid, now, ans) => ResumeKeepsOnlySendable(cfg, s, wid, now, ans);
      case LoopEv(_, _) => BeginKeepsOnlySendable(cfg, s, ev);
      case BeginEv(_, _) => BeginKeepsOnlySendable(cfg, s, ev);
      case _ =>
    }
  }

  lemma {:induction false} ExecKeepsOnlySendable(cfg: Config, s: Sys, evs: seq<Event>)
    requires ValidConfig(cfg) && Safe(cfg, s) && OnlySendable(cfg, s)
    ensures Safe(cfg, Exec(cfg, s, evs)) && OnlySendable(cfg, Exec(cfg, s, evs))
    decreases |evs|
  {
    if evs != [] {
      StepIsSafe(cfg, s, evs[0]);
      StepKeepsOnlySendable(cfg, s, evs[0]);
      ExecKeepsOnlySendable(cfg, Step(cfg, s, evs[0]), evs[1..]);
    }
  }

  /** A request, once stored, never changes. */
  lemma {:induction false} RequestsRemain(cfg: Config, s: Sys, evs: seq<Event>, id: nat)
    requires ValidConfig(cfg) && id < |s.rows|
    ensures id < |Exec(cfg, s, evs).rows| && Exec(cfg, s, evs).rows[id].request == s.rows[id].request
    decreases |evs|
  {
    if evs != [] {
      StepKeepsRequest(cfg, s, evs[0], id);
      RequestsRemain(cfg, Step(cfg, s, evs[0]), evs[1..], id);
    }
  }

  lemma StepKeepsRequest(cfg: Config, s: Sys, ev: Event, id: nat)
    requires ValidConfig(cfg) && id < |s.rows|
    ensures id < |Step(cfg, s, ev).rows| && Step(cfg, s, ev).rows[id].request == s.rows[id].request
  {
  }

  // ---------- what can be sent, can be sent at any time ----------

  lemma HeldBegins(cfg: Config, s: Sys, v: int)
    requires |cfg.retryBackoffMs| > 0
    requires v in s.workers && s.workers[v].pc == Held && s.workers[v].id < |s.rows| && s.workers[v].record.request.usable
    ensures Step(cfg, s, BeginEv(v, 0)) == s.(workers := s.workers[v := s.workers[v].(pc := Fetching)])
  {
    assert Step(cfg, s, BeginEv(v, 0)).rows == s.rows;
  }

  lemma FetchedPrepares(cfg: Config, s: Sys, v: int)
    requires |cfg.retryBackoffMs| > 0
    requires v in s.workers && s.workers[v].pc == Fetching && s.workers[v].id < |s.rows|
    requires s.workers[v].record.status == Pending && Feasible(cfg, s.workers[v].record)
    ensures Step(cfg, s, ResumeEv(v, 0, PoolRead)) == s.(workers := s.workers[v := s.workers[v].(pc := Preparing(0))])
  {
    assert Step(cfg, s, ResumeEv(v, 0, PoolRead)).rows == s.rows;
  }

  lemma PreparedSends(cfg: Config, s: Sys, v: int, blockhash: int, lastValid: int)
    requires |cfg.retryBackoffMs| > 0
    requires v in s.workers && s.workers[v].pc == Preparing(0) && s.workers[v].id < |s.rows|
    ensures var w := s.workers[v];
            var tx := TxFor(w.record.request, blockhash, lastValid);
            Step(cfg, s, ResumeEv(v, 0, Prepared(blockhash, lastValid)))
            == s.(workers := s.workers[v := w.(pc := Sending(tx, 0))],
                  chain := s.chain.(sent := s.chain.sent[tx := Origin(w.id, v)], refused := s.chain.refused - {tx}))
  {
    assert Step(cfg, s, ResumeEv(v, 0, Prepared(blockhash, lastValid))).rows == s.rows;
  }

  /** A worker that took up a sendable pending row hands a transaction to the
      network, whatever everybody else is doing. */
  lemma HeldSends(cfg: Config, s: Sys, v: int, blockhash: int, lastValid: int) returns (evs: seq<Event>)
    requires |cfg.retryBackoffMs| > 0
    requires v in s.workers && s.workers[v].pc == Held && s.workers[v].id < |s.rows|
    requires s.workers[v].record.status == Pending && Sendable(cfg, s.workers[v].record)
    ensures var w := s.workers[v];
            var tx := TxFor(w.record.request, blockhash, lastValid);
            Exec(cfg, s, evs)
            == s.(workers := s.workers[v := w.(pc := Sending(tx, 0))],
                  chain := s.chain.(sent := s.chain.sent[tx := Origin(w.id, v)], refused := s.chain.refused - {tx}))
  {
    var w := s.workers[v];
    var s1 := s.(workers := s.workers[v := w.(pc := Fetching)]);
    var s2 := s.(workers := s.workers[v := w.(pc := Preparing(0))]);
    HeldBegins(cfg, s, v);
    FetchedPrepares(cfg, s1, v);
    assert s1.workers[v := w.(pc := Preparing(0))] == s2.workers;
    PreparedSends(cfg, s2, v, blockhash, lastValid);
    evs := ThreeSteps(cfg, s, BeginEv(v, 0), ResumeEv(v, 0, PoolRead), ResumeEv(v, 0, Prepared(blockhash, lastValid)));
    var tx := TxFor(w.record.request, blockhash, lastValid);
    assert s2.workers[v := w.(pc := Sending(tx, 0))] == s.workers[v := w.(pc := Sending(tx, 0))];
  }

  lemma ThreeSteps(cfg: Config, s: Sys, a: Event, b: Event, c: Event) returns (evs: seq<Event>)
    requires |cfg.retryBackoffMs| > 0
    ensures Exec(cfg, s, evs) == Step(cfg, Step(cfg, Step(cfg, s, a), b), c)
  {
    evs := [a, b, c];
    assert evs[1..] == [b, c];
    assert [b, c][1..] == [c];
    assert [c][1..] == [];
    assert Exec(cfg, Step(cfg, Step(cfg, s, a), b), [c]) == Step(cfg, Step(cfg, Step(cfg, s, a), b), c);
  }

  lemma {:induction false} FreeName(names: set<int>) returns (v: int)
    ensures forall u <- names :: u < v
  {
    if u :| u in names {
      var rest := FreeName(names - {u});
      v := if u < rest then rest else u + 1;
      assert forall x <- names :: x == u || x in names - {u};
    } else {
      v := 0;
    }
  }

  lemma {:induction false} FreshBlockhash(txs: set<Tx>) returns (blockhash: int)
    ensures forall tx <- txs :: tx.blockhash < blockhash
  {
    if tx :| tx in txs {
      var rest := FreshBlockhash(txs - {tx});
      blockhash := if tx.blockhash < rest then rest else tx.blockhash + 1;
      assert forall x <- txs :: x == tx || x in txs - {tx};
    } else {
      blockhash := 0;
    }
  }

  /** One more worker snapshots a pending row and sends a live transaction for it. */
  lemma OneMoreSends(cfg: Config, s: Sys, id: nat, above: int) returns (evs: seq<Event>, v: int, tx: Tx)
    requires ValidConfig(cfg) && id < |s.rows|
    requires s.rows[id].status == Pending && Sendable(cfg, s.rows[id])
    ensures var next := Exec(cfg, s, evs);
            && next.rows == s.rows && v !in s.workers
            && (forall u <- s.workers :: u in next.workers && next.workers[u] == s.workers[u])
            && next.chain == s.chain.(sent := s.chain.sent[tx := Origin(id, v)], refused := s.chain.refused - {tx})
            && Live(next.chain, tx) && tx.blockhash >= above
  {
    v := FreeName(s.workers.Keys);
    var blockhash := FreshBlockhash(s.chain.executed);
    blockhash := if blockhash < above then above else blockhash;
    tx := TxFor(s.rows[id].request, blockhash, s.chain.height);
    var taken := SnapshotEv(v, id, s.rows[id].nextAttemptAt);
    var held := s.(workers := s.workers[v := Worker(id, false, Held, s.rows[id])]);
    assert Step(cfg, s, taken) == held;
    var rest := HeldSends(cfg, held, v, blockhash, s.chain.height);
    evs := [taken] + rest;
    assert evs[1..] == rest;
    assert Exec(cfg, s, evs) == Exec(cfg, held, rest);
  }

  // ---------- exactly when ----------

  ghost predicate SentWhileChecking(s: Sys, wid: int, id: nat) {
    && wid in s.workers && s.workers[wid].pc == Checking && s.workers[wid].id == id
    && exists tx :: Live(s.chain, tx) && s.chain.sent[tx].id == id
  }

  ghost predicate TwoLive(s: Sys, id: nat) {
    exists tx, tx' :: tx != tx' && Live(s.chain, tx) && Live(s.chain, tx')
                      && s.chain.sent[tx].id == id && s.chain.sent[tx'].id == id
  }

  lemma InitialIsOnlySendable(cfg: Config, s: Sys)
    requires Initial(s)
    ensures Safe(cfg, s) && OnlySendable(cfg, s)
  {
  }

  lemma UnsendableIsNeverSent(cfg: Config, s: Sys, evs: seq<Event>, more: seq<Event>, id: nat, tx: Tx)
    requires ValidConfig(cfg) && Initial(s)
    requires id < |Exec(cfg, s, evs).rows| && !Sendable(cfg, Exec(cfg, s, evs).rows[id])
    requires var chain := Exec(cfg, Exec(cfg, s, evs), more).chain; tx in chain.sent
    ensures Exec(cfg, Exec(cfg, s, evs), more).chain.sent[tx].id != id
  {
    var reached := Exec(cfg, s, evs);
    InitialIsOnlySendable(cfg, s);
    ExecKeepsOnlySendable(cfg, s, evs);
    ExecKeepsOnlySendable(cfg, reached, more);
    RequestsRemain(cfg, reached, more, id);
    SameRequestSameGuards(cfg, Exec(cfg, reached, more).rows[id], reached.rows[id]);
  }

  /** In every reachable state with a handler that checks a pending request: some
      continuation hands the network a transaction for it before the checks are
      over, exactly when the payload is usable and the fees are feasible. */
  lemma SubmittedBeforeCheckedIff(cfg: Config, s: Sys, evs: seq<Event>, wid: int)
    requires ValidConfig(cfg) && Initial(s)
    requires var reached := Exec(cfg, s, evs);
             && wid in reached.workers && reached.workers[wid].pc == Checking
             && reached.workers[wid].id < |reached.rows| && reached.rows[reached.workers[wid].id].status == Pending
    ensures var reached := Exec(cfg, s, evs);
            var id := reached.workers[wid].id;
            (exists more :: SentWhileChecking(Exec(cfg, reached, more), wid, id)) <==> Sendable(cfg, reached.rows[id])
  {
    var reached := Exec(cfg, s, evs);
    var id := reached.workers[wid].id;
    if Sendable(cfg, reached.rows[id]) {
      var more, v, tx := OneMoreSends(cfg, reached, id, 0);
      assert SentWhileChecking(Exec(cfg, reached, more), wid, id);
    }
    if more :| SentWhileChecking(Exec(cfg, reached, more), wid, id) {
      var tx :| Live(Exec(cfg, reached, more).chain, tx) && Exec(cfg, reached, more).chain.sent[tx].id == id;
      if !Sendable(cfg, reached.rows[id]) {
        UnsendableIsNeverSent(cfg, s, evs, more, id, tx);
      }
    }
  }

  /** In every reachable state with a pending request: two live transactions for
      it are ahead in some continuation, exactly when it is sendable. */
  lemma TwoLiveIff(cfg: Config, s: Sys, evs: seq<Event>, id: nat)
    requires ValidConfig(cfg) && Initial(s)
    requires id < |Exec(cfg, s, evs).rows| && Exec(cfg, s, evs).rows[id].status == Pending
    ensures var reached := Exec(cfg, s, evs);
            (exists more :: TwoLive(Exec(cfg, reached, more), id)) <==> Sendable(cfg, reached.rows[id])
  {
    var reached := Exec(cfg, s, evs);
    if Sendable(cfg, reached.rows[id]) {
      var first, v, tx := OneMoreSends(cfg, reached, id, 0);
      var between := Exec(cfg, reached, first);
      var second, v', tx' := OneMoreSends(cfg, between, id, tx.blockhash + 1);
      ExecAppends(cfg, reached, first, second);
      var last := Exec(cfg, reached, first + second);
      assert tx != tx' && Live(last.chain, tx) && Live(last.chain, tx');
      assert TwoLive(last, id);
    }
    if more :| TwoLive(Exec(cfg, reached, more), id) {
      var last := Exec(cfg, reached, more);
      var tx, tx' :| tx != tx' && Live(last.chain, tx) && Live(last.chain, tx') && last.chain.sent[tx].id == id && last.chain.sent[tx'].id == id;
      if !Sendable(cfg, reached.rows[id]) {
        UnsendableIsNeverSent(cfg, s, evs, more, id, tx);
      }
    }
  }
}
