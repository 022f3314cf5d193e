/** When a terminal status is final: exactly when no worker is left in the
    middle of processing the request with a snapshot from before. */
module RelayReopening {
  import opened RelayStores
  import opened RelayProtocol

  predicate MayRetry(cfg: Config, record: Row) {
    record.retries < cfg.maxRetries
  }

  /** What a worker holds lets some answer write a status that is not terminal. */
  predicate CanReopen(cfg: Config, w: Worker) {
    match w.pc
    case Held =>
      w.record.request.usable
      && (w.record.status == Submitted || MayRetry(cfg, w.record) || (w.record.status == Pending && Feasible(cfg, w.record)))
    case Fetching =>
      w.record.status == Submitted || MayRetry(cfg, w.record) || (w.record.status == Pending && Feasible(cfg, w.record))
    case Preparing(_) => true
    case Sending(_, _) => true
    case PendingUsed(f, _) => f.retryable && MayRetry(cfg, w.record)
    case PendingFind(f, _) => f.retryable && MayRetry(cfg, w.record)
    case Inspecting => true
    case LookingUp => true
    case ReadingHeight => true
    case _ => false
  }

  ghost predicate Settled(cfg: Config, s: Sys, id: nat) {
    && id < |s.rows|
    && Terminal(s.rows[id].status)
    && forall wid <- s.workers :: s.workers[wid].id == id ==> !CanReopen(cfg, s.workers[wid])
  }

  lemma ResumeKeepsSettled(cfg: Config, now: int, current: Row, w: Worker, ans: Answer)
    requires |cfg.retryBackoffMs| > 0
    requires Terminal(current.status) && !CanReopen(cfg, w)
    ensures var e := Resume(cfg, now, current, w.record, w.pc, ans);
            && Terminal(e.row.status)
            && (e.after.Await? ==> !CanReopen(cfg, w.(pc := e.after.pc)))
  {
  }

  lemma StepKeepsSettled(cfg: Config, s: Sys, ev: Event, id: nat)
    requires |cfg.retryBackoffMs| > 0 && Settled(cfg, s, id)
    ensures Settled(cfg, Step(cfg, s, ev), id)
  {
    if Enabled(cfg, s, ev) && ev.ResumeEv? {
      var w := s.workers[ev.worker];
      if w.id == id {
        ResumeKeepsSettled(cfg, ev.now, s.rows[id], w, ev.ans);
      }
    }
  }

  lemma {:induction false} ExecKeepsSettled(cfg: Config, s: Sys, evs: seq<Event>, id: nat)
    requires |cfg.retryBackoffMs| > 0 && Settled(cfg, s, id)
    ensures Settled(cfg, Exec(cfg, s, evs), id)
    decreases |evs|
  {
    if evs != [] {
      StepKeepsSettled(cfg, s, evs[0], id);
      ExecKeepsSettled(cfg, Step(cfg, s, evs[0]), evs[1..], id);
    }
  }

  /** How many answers away the reopening is. */
  function Distance(pc: Pc): nat {
    match pc
    case Held => 3
    case Fetching => 2
    case Preparing(_) => 1
    case _ => 0
  }

  /** The next event on the way: an error where one suffices, else onwards. */
  function Towards(cfg: Config, wid: int, w: Worker): Event {
    var failure := Threw(Failure(true, false));
    match w.pc
    case Held => BeginEv(wid, 0)
    case Fetching => ResumeEv(wid, 0, if w.record.status == Submitted || MayRetry(cfg, w.record) then failure else PoolRead)
    case Preparing(_) => ResumeEv(wid, 0, Prepared(0, 0))
    case Sending(_, _) => ResumeEv(wid, 0, Sent)
    case _ => ResumeEv(wid, 0, failure)
  }

  lemma StepTowards(cfg: Config, s: Sys, wid: int)
    requires |cfg.retryBackoffMs| > 0
    requires wid in s.workers && s.workers[wid].id < |s.rows|
    requires CanReopen(cfg, s.workers[wid])
    ensures var w := s.workers[wid];
            var next := Step(cfg, s, Towards(cfg, wid, w));
            && |next.rows| == |s.rows|
            && (|| !Terminal(next.rows[w.id].status)
                || (&& wid in next.workers && next.workers[wid].id == w.id
                    && CanReopen(cfg, next.workers[wid]) && Distance(next.workers[wid].pc) < Distance(w.pc)))
  {
  }

  /** A worker that can reopen a request does so in some continuation. */
  lemma {:induction false} Reopening(cfg: Config, s: Sys, wid: int) returns (evs: seq<Event>)
    requires |cfg.retryBackoffMs| > 0
    requires wid in s.workers && s.workers[wid].id < |s.rows|
    requires CanReopen(cfg, s.workers[wid])
    ensures var last := Exec(cfg, s, evs);
            |last.rows| == |s.rows| && !Terminal(last.rows[s.workers[wid].id].status)
    decreases Distance(s.workers[wid].pc)
  {
    var ev := Towards(cfg, wid, s.workers[wid]);
    var next := Step(cfg, s, ev);
    StepTowards(cfg, s, wid);
    var rest := [];
    if Terminal(next.rows[s.workers[wid].id].status) {
      rest := Reopening(cfg, next, wid);
    }
    evs := [ev] + rest;
    assert evs[1..] == rest;
  }

  lemma {:induction false} RowsRemain(cfg: Config, s: Sys, evs: seq<Event>)
    requires |cfg.retryBackoffMs| > 0
    ensures |s.rows| <= |Exec(cfg, s, evs).rows|
    decreases |evs|
  {
    if evs != [] {
      RowsRemain(cfg, Step(cfg, s, evs[0]), evs[1..]);
    }
  }

  /** A terminal request stays terminal in every continuation exactly when no
      worker that can reopen it is left. */
  lemma TerminalIsFinalIff(cfg: Config, s: Sys, id: nat)
    requires |cfg.retryBackoffMs| > 0
    requires id < |s.rows| && Terminal(s.rows[id].status)
    ensures (forall evs :: id < |Exec(cfg, s, evs).rows| && Terminal(Exec(cfg, s, evs).rows[id].status))
       <==> forall wid <- s.workers :: s.workers[wid].id == id ==> !CanReopen(cfg, s.workers[wid])
  {
    if wid :| wid in s.workers && s.workers[wid].id == id && CanReopen(cfg, s.workers[wid]) {
      var evs := Reopening(cfg, s, wid);
      assert !Terminal(Exec(cfg, s, evs).rows[id].status);
    } else {
      forall evs ensures id < |Exec(cfg, s, evs).rows| && Terminal(Exec(cfg, s, evs).rows[id].status) {
        ExecKeepsSettled(cfg, s, evs, id);
      }
    }
  }
}
