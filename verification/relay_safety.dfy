/** What every interleaving of the relay protocol keeps, with any number of
    workers, stale snapshots, retries and crashes. */
module RelaySafety {
  import opened Outcomes
  import opened FieldTerms
  import opened Fees
  import opened RelayStores
  import opened RelayProtocol

  // ---------- the invariant ----------

  /** A stored signature is one of the relayer's transactions for this very
      nullifier, or the nullifier is spent. */
  predicate SignatureSound(signature: Option<Signature>, nullifierHash: Field, spent: set<Field>) {
    || signature.None?
    || nullifierHash in spent
    || (signature.value.Own? && signature.value.tx.nullifierHash == nullifierHash)
  }

  predicate RowSound(row: Row, spent: set<Field>) {
    && (row.status == Confirmed ==> row.request.nullifierHash in spent)
    && SignatureSound(row.signature, row.request.nullifierHash, spent)
  }

  /** A confirmed row records the fees of its request. */
  predicate FeesRecorded(cfg: Config, row: Row) {
    row.status == Confirmed ==>
      var s := RelayerBreakdown(cfg.depositAmount, cfg.protocolFeeBps, row.request.fee);
      s.Some? && row.protocolFee == s.value.protocolFee && row.relayerFee == s.value.relayerFee
  }

  predicate Carries(tx: Tx, request: Request) {
    tx.nullifierHash == request.nullifierHash && tx.recipient == request.recipient && tx.fee == request.fee
  }

  predicate PcSound(pc: Pc, record: Row, spent: set<Field>) {
    && (pc.PendingFind? || pc.SubmittedFind? ==> record.request.nullifierHash in spent)
    && (pc.Sending? ==> Carries(pc.tx, record.request))
    && (pc.Inspecting? ==> record.signature.Some?)
  }

  predicate WorkerSound(w: Worker, rows: seq<Row>, spent: set<Field>) {
    && w.id < |rows|
    && w.record.request == rows[w.id].request
    && SignatureSound(w.record.signature, w.record.request.nullifierHash, spent)
    && PcSound(w.pc, w.record, spent)
  }

  predicate PayoutSound(cfg: Config, p: Payout, rows: seq<Row>, spent: set<Field>) {
    && p.nullifierHash in spent
    && (p.id.Some? ==>
          && p.id.value < |rows|
          && rows[p.id.value].request.nullifierHash == p.nullifierHash
          && rows[p.id.value].request.recipient == p.recipient
          && FeePoolSplit(cfg.depositAmount, cfg.protocolFeeBps, rows[p.id.value].request.fee) == Ok(p.split))
  }

  ghost predicate PaidSound(cfg: Config, paid: seq<Payout>, rows: seq<Row>, spent: set<Field>) {
    && (forall i :: 0 <= i < |paid| ==> PayoutSound(cfg, paid[i], rows, spent))
    && (forall i, j :: 0 <= i < j < |paid| ==> paid[i].nullifierHash != paid[j].nullifierHash)
    && (forall n <- spent :: exists i :: 0 <= i < |paid| && paid[i].nullifierHash == n)
  }

  ghost predicate SentSound(sent: map<Tx, Origin>, rows: seq<Row>) {
    forall tx <- sent :: sent[tx].id < |rows| && Carries(tx, rows[sent[tx].id].request)
  }

  /** Whatever landed was executed and spent its nullifier, and no two
      transactions landed for one nullifier. */
  ghost predicate LandedSound(landed: set<Tx>, executed: set<Tx>, spent: set<Field>) {
    && (forall tx <- landed :: tx in executed && tx.nullifierHash in spent)
    && (forall tx, tx' | tx in landed && tx' in landed :: tx.nullifierHash == tx'.nullifierHash ==> tx == tx')
  }

  ghost predicate Safe(cfg: Config, s: Sys) {
    && UniqueNullifiers(s.rows)
    && (forall i :: 0 <= i < |s.rows| ==> RowSound(s.rows[i], s.chain.spent) && FeesRecorded(cfg, s.rows[i]))
    && (forall wid <- s.workers :: WorkerSound(s.workers[wid], s.rows, s.chain.spent))
    && SentSound(s.chain.sent, s.rows)
    && LandedSound(s.chain.landed, s.chain.executed, s.chain.spent)
    && PaidSound(cfg, s.chain.paid, s.rows, s.chain.spent)
  }

  // ---------- steps ----------

  /** The heart of it: whatever a worker does with an honest answer, and however
      stale its snapshot, the row it writes stays sound. */
  lemma ResumeIsSound(cfg: Config, now: int, current: Row, w: Worker, ans: Answer, chain: Chain)
    requires |cfg.retryBackoffMs| > 0
    requires RowSound(current, chain.spent) && FeesRecorded(cfg, current)
    requires w.record.request == current.request
    requires SignatureSound(w.record.signature, w.record.request.nullifierHash, chain.spent)
    requires PcSound(w.pc, w.record, chain.spent)
    requires LandedSound(chain.landed, chain.executed, chain.spent)
    requires Honest(chain, w, ans)
    ensures var e := Resume(cfg, now, current, w.record, w.pc, ans);
            && e.row.request == current.request
            && RowSound(e.row, chain.spent) && FeesRecorded(cfg, e.row)
            && (e.after.Await? ==> PcSound(e.after.pc, w.record, chain.spent))
  {
  }

  /** Writing a sound row back and moving the worker on is safe. */
  lemma ApplyIsSafe(cfg: Config, s: Sys, wid: int, w: Worker, e: Effect)
    requires Safe(cfg, s)
    requires w.id < |s.rows| && w.record.request == s.rows[w.id].request
    requires SignatureSound(w.record.signature, w.record.request.nullifierHash, s.chain.spent)
    requires e.row.request == s.rows[w.id].request && RowSound(e.row, s.chain.spent) && FeesRecorded(cfg, e.row)
    requires e.after.Await? ==> PcSound(e.after.pc, w.record, s.chain.spent)
    ensures Safe(cfg, Apply(s, wid, w, e))
  {
    var next := Apply(s, wid, w, e);
    assert forall i :: 0 <= i < |s.rows| ==> next.rows[i].request == s.rows[i].request;
    forall v | v in next.workers
      ensures WorkerSound(next.workers[v], next.rows, s.chain.spent)
    {
      if v != wid {
        assert next.workers[v] == s.workers[v];
      }
    }
    forall i | 0 <= i < |s.chain.paid|
      ensures PayoutSound(cfg, s.chain.paid[i], next.rows, s.chain.spent)
    {
      assert PayoutSound(cfg, s.chain.paid[i], s.rows, s.chain.spent);
    }
  }

  lemma ResumeIsSafe(cfg: Config, s: Sys, wid: int, now: int, ans: Answer)
    requires ValidConfig(cfg) && Safe(cfg, s) && Enabled(cfg, s, ResumeEv(wid, now, ans))
    ensures Safe(cfg, Step(cfg, s, ResumeEv(wid, now, ans)))
  {
    var w := s.workers[wid];
    assert WorkerSound(w, s.rows, s.chain.spent);
    ResumeIsSound(cfg, now, s.rows[w.id], w, ans, s.chain);
    var e := Resume(cfg, now, s.rows[w.id], w.record, w.pc, ans);
    ApplyIsSafe(cfg, s, wid, w, e);
    var chain := Transmit(s.chain, wid, w, ans);
    var rows := Apply(s, wid, w, e).rows;
    assert SentSound(s.chain.sent, rows);
    assert SentSound(chain.sent, rows);
  }

  lemma ReserveIsSafe(cfg: Config, s: Sys, wid: int, request: Request, ip: int, at: int)
    requires ValidConfig(cfg) && Safe(cfg, s) && Enabled(cfg, s, ReserveEv(wid, request, ip, at))
    ensures Safe(cfg, Step(cfg, s, ReserveEv(wid, request, ip, at)))
  {
    var next := Step(cfg, s, ReserveEv(wid, request, ip, at));
    assert !HasNullifier(s.rows, request.nullifierHash);
    assert forall i :: 0 <= i < |s.rows| ==> next.rows[i] == s.rows[i];
    forall v | v in next.workers
      ensures WorkerSound(next.workers[v], next.rows, s.chain.spent)
    {
      if v != wid {
        assert WorkerSound(s.workers[v], s.rows, s.chain.spent);
      }
    }
    forall i | 0 <= i < |s.chain.paid|
      ensures PayoutSound(cfg, s.chain.paid[i], next.rows, s.chain.spent)
    {
      assert PayoutSound(cfg, s.chain.paid[i], s.rows, s.chain.spent);
    }
  }

  /** Spending more keeps everything sound. */
  lemma SpendingIsSafe(cfg: Config, s: Sys, p: Payout)
    requires Safe(cfg, s)
    requires p.nullifierHash !in s.chain.spent
    requires PayoutSound(cfg, p, s.rows, s.chain.spent + {p.nullifierHash})
    ensures Safe(cfg, s.(chain := s.chain.(spent := s.chain.spent + {p.nullifierHash}, paid := s.chain.paid + [p])))
  {
    var spent := s.chain.spent + {p.nullifierHash};
    var paid := s.chain.paid + [p];
    forall wid | wid in s.workers ensures WorkerSound(s.workers[wid], s.rows, spent) {
      assert WorkerSound(s.workers[wid], s.rows, s.chain.spent);
    }
    forall i | 0 <= i < |paid| ensures PayoutSound(cfg, paid[i], s.rows, spent) {
      if i < |s.chain.paid| {
        assert PayoutSound(cfg, s.chain.paid[i], s.rows, s.chain.spent);
      }
    }
    forall n | n in spent ensures exists i :: 0 <= i < |paid| && paid[i].nullifierHash == n {
      if n in s.chain.spent {
        var i :| 0 <= i < |s.chain.paid| && s.chain.paid[i].nullifierHash == n;
        assert paid[i].nullifierHash == n;
      } else {
        assert paid[|s.chain.paid|].nullifierHash == n;
      }
    }
  }

  lemma LandingIsSound(landed: set<Tx>, executed: set<Tx>, spent: set<Field>, tx: Tx)
    requires LandedSound(landed, executed, spent)
    requires tx in executed && tx.nullifierHash !in spent
    ensures LandedSound(landed + {tx}, executed, spent + {tx.nullifierHash})
  {
  }

  lemma ExecuteIsSafe(cfg: Config, s: Sys, tx: Tx, otherwiseValid: bool)
    requires ValidConfig(cfg) && Safe(cfg, s) && Live(s.chain, tx)
    ensures Safe(cfg, Step(cfg, s, ExecuteEv(tx, otherwiseValid)))
  {
    var done := s.(chain := s.chain.(executed := s.chain.executed + {tx}));
    assert Safe(cfg, done);
    var split := FeePoolSplit(cfg.depositAmount, cfg.protocolFeeBps, tx.fee);
    if otherwiseValid && tx.nullifierHash !in s.chain.spent && split.Ok? {
      var origin := s.chain.sent[tx].id;
      assert Carries(tx, s.rows[origin].request);
      var p := Payout(tx.nullifierHash, tx.recipient, split.value, Some(origin));
      SpendingIsSafe(cfg, done, p);
      var paid := done.chain.(spent := done.chain.spent + {tx.nullifierHash}, paid := done.chain.paid + [p]);
      LandingIsSound(done.chain.landed, done.chain.executed, done.chain.spent, tx);
      assert Safe(cfg, s.(chain := paid.(landed := done.chain.landed + {tx})));
    }
  }

  lemma LocalStepIsSafe(cfg: Config, s: Sys, ev: Event)
    requires ValidConfig(cfg) && Safe(cfg, s) && Enabled(cfg, s, ev)
    requires ev.LoopEv? || ev.BeginEv? || ev.SnapshotEv?
    ensures Safe(cfg, Step(cfg, s, ev))
  {
    match ev
    case LoopEv(wid, now) =>
      var id := s.workers[wid].id;
      var row := s.rows[id];
      if !Terminal(row.status) {
        ApplyIsSafe(cfg, s, wid, s.workers[wid].(record := row), Begin(now, row, row));
      }
    case BeginEv(wid, now) =>
      var w := s.workers[wid];
      assert WorkerSound(w, s.rows, s.chain.spent);
      ApplyIsSafe(cfg, s, wid, w, Begin(now, s.rows[w.id], w.record));
    case SnapshotEv(wid, id, _) =>
  }

  lemma StepIsSafe(cfg: Config, s: Sys, ev: Event)
    requires ValidConfig(cfg) && Safe(cfg, s)
    ensures Safe(cfg, Step(cfg, s, ev))
  {
    if Enabled(cfg, s, ev) {
      match ev
      case ReserveEv(wid, request, ip, at) => ReserveIsSafe(cfg, s, wid, request, ip, at);
      case ResumeEv(wid, now, ans) => ResumeIsSafe(cfg, s, wid, now, ans);
      case LoopEv(_, _) => LocalStepIsSafe(cfg, s, ev);
      case SnapshotEv(_, _, _) => LocalStepIsSafe(cfg, s, ev);
      case BeginEv(_, _) => LocalStepIsSafe(cfg, s, ev);
      case ExecuteEv(tx, otherwiseValid) => ExecuteIsSafe(cfg, s, tx, otherwiseValid);
      case ForeignSpendEv(n, recipient, split) => SpendingIsSafe(cfg, s, Payout(n, recipient, split, None));
      case BlockEv =>
      case CrashEv =>
    }
  }

  lemma {:induction false} ExecIsSafe(cfg: Config, s: Sys, evs: seq<Event>)
    requires ValidConfig(cfg) && Safe(cfg, s)
    ensures Safe(cfg, Exec(cfg, s, evs))
    decreases |evs|
  {
    if evs != [] {
      StepIsSafe(cfg, s, evs[0]);
      ExecIsSafe(cfg, Step(cfg, s, evs[0]), evs[1..]);
    }
  }

  // ---------- what it means ----------

  /** Confirmed is sound under any interleaving: a confirmed request, and with
      it every success response, has its nullifier spent on chain. */
  lemma ConfirmedMeansSpent(cfg: Config, s: Sys, evs: seq<Event>, id: nat)
    requires ValidConfig(cfg) && Initial(s)
    requires id < |Exec(cfg, s, evs).rows| && Exec(cfg, s, evs).rows[id].status == Confirmed
    ensures Exec(cfg, s, evs).rows[id].request.nullifierHash in Exec(cfg, s, evs).chain.spent
  {
    ExecIsSafe(cfg, s, evs);
  }

  /** All payouts of one nullifier, oldest first. */
  function PayoutsOf(paid: seq<Payout>, nullifierHash: Field): seq<Payout> {
    if paid == [] then []
    else
      var last := |paid| - 1;
      PayoutsOf(paid[..last], nullifierHash) + (if paid[last].nullifierHash == nullifierHash then [paid[last]] else [])
  }

  lemma {:induction false} NoPayouts(paid: seq<Payout>, nullifierHash: Field)
    requires forall i :: 0 <= i < |paid| ==> paid[i].nullifierHash != nullifierHash
    ensures PayoutsOf(paid, nullifierHash) == []
  {
    if paid != [] {
      NoPayouts(paid[..|paid| - 1], nullifierHash);
    }
  }

  lemma {:induction false} OnePayout(paid: seq<Payout>, k: nat)
    requires k < |paid|
    requires forall i :: 0 <= i < |paid| && i != k ==> paid[i].nullifierHash != paid[k].nullifierHash
    ensures PayoutsOf(paid, paid[k].nullifierHash) == [paid[k]]
  {
    var last := |paid| - 1;
    if k == last {
      NoPayouts(paid[..last], paid[k].nullifierHash);
    } else {
      OnePayout(paid[..last], k);
    }
  }

  /** The one payout a request may lead to: its stored recipient and fee, and a
      split that adds up to one denomination. */
  predicate PaysRequest(cfg: Config, p: Payout, request: Request, id: nat) {
    && p.nullifierHash == request.nullifierHash
    && p.recipient == request.recipient
    && p.id == Some(id)
    && p.split.relayerFee == request.fee
    && p.split.Total() == cfg.depositAmount
  }

  /** Exactly-once payout, over retries, crashes and any interleaving. What has
      been paid for the nullifier of a request is nothing or one payout. Unless
      somebody else spent it (a payout without id), that is exactly one
      denomination to the stored recipient at the stored fee. A confirmed request
      has its payout; its row records the relayer fee paid, and the protocol fee
      paid exactly when the clients' doubles compute that one exactly. */
  lemma PaidAtMostOnce(cfg: Config, s: Sys, evs: seq<Event>, id: nat)
    requires ValidConfig(cfg) && Initial(s)
    requires id < |Exec(cfg, s, evs).rows|
    ensures var last := Exec(cfg, s, evs);
            var row := last.rows[id];
            var payouts := PayoutsOf(last.chain.paid, row.request.nullifierHash);
            && |payouts| <= 1
            && (row.status == Confirmed ==> |payouts| == 1)
            && (|payouts| == 1 && payouts[0].id.Some? ==> PaysRequest(cfg, payouts[0], row.request, id))
            && (|payouts| == 1 && payouts[0].id.Some? && row.status == Confirmed ==>
                  && payouts[0].split.relayerFee == row.relayerFee
                  && (payouts[0].split.protocolFee == row.protocolFee <==> FeeIsExact(cfg.depositAmount, cfg.protocolFeeBps)))
  {
    ExecIsSafe(cfg, s, evs);
    var last := Exec(cfg, s, evs);
    var request := last.rows[id].request;
    var paid := last.chain.paid;
    if k :| 0 <= k < |paid| && paid[k].nullifierHash == request.nullifierHash {
      assert PayoutSound(cfg, paid[k], last.rows, last.chain.spent);
      OnePayout(paid, k);
      if paid[k].id.Some? {
        assert paid[k].id == Some(id);
        assert FeePoolSplit(cfg.depositAmount, cfg.protocolFeeBps, request.fee) == Ok(paid[k].split);
        ThreeSplitsAgree(cfg.depositAmount, cfg.protocolFeeBps, request.fee);
        FeeIsExactIff(cfg.depositAmount, cfg.protocolFeeBps);
      }
    } else {
      NoPayouts(paid, request.nullifierHash);
    }
  }

  /** Every transaction of a request carries what the request stores. */
  lemma TransactionsCarryTheRequest(cfg: Config, s: Sys, evs: seq<Event>, tx: Tx)
    requires ValidConfig(cfg) && Initial(s)
    requires tx in Exec(cfg, s, evs).chain.sent
    ensures var last := Exec(cfg, s, evs);
            && last.chain.sent[tx].id < |last.rows|
            && Carries(tx, last.rows[last.chain.sent[tx].id].request)
            && forall i :: 0 <= i < |last.rows| && last.rows[i].request.nullifierHash == tx.nullifierHash ==> i == last.chain.sent[tx].id
  {
    ExecIsSafe(cfg, s, evs);
  }
}
