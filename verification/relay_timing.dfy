/** The waiting times between attempts are kept: a record that nobody is
    processing is left alone until its next attempt is due, and no longer. */
module RelayTiming {
  import opened Outcomes
  import opened RelayStores
  import opened RelayProtocol
  import opened RelaySingle
  import opened RelayRaces

  /** Nobody is processing the record, though handlers may be waiting for it. */
  ghost predicate Resting(s: Sys, id: nat) {
    && id < |s.rows|
    && forall wid <- s.workers :: s.workers[wid].id == id ==> s.workers[wid].pc == Waiting
  }

  /** Nobody takes up a record after this time. */
  predicate StartsBy(evs: seq<Event>, time: int) {
    forall i :: 0 <= i < |evs| && (evs[i].LoopEv? || evs[i].SnapshotEv?) ==> evs[i].now <= time
  }

  /** The row is as it was, and nothing was sent for it. */
  ghost predicate LeftAlone(s: Sys, next: Sys, id: nat)
    requires id < |s.rows|
  {
    && id < |next.rows| && next.rows[id] == s.rows[id]
    && forall tx <- next.chain.sent :: next.chain.sent[tx].id == id ==> tx in s.chain.sent && s.chain.sent[tx].id == id
  }

  lemma StepRests(cfg: Config, s: Sys, ev: Event, id: nat)
    requires |cfg.retryBackoffMs| > 0 && Resting(s, id)
    requires (ev.LoopEv? || ev.SnapshotEv?) ==> ev.now < s.rows[id].nextAttemptAt
    ensures var next := Step(cfg, s, ev); Resting(next, id) && LeftAlone(s, next, id)
  {
    if Enabled(cfg, s, ev) && ev.ResumeEv? {
      var w := s.workers[ev.worker];
      var chain := Transmit(s.chain, ev.worker, w, ev.ans);
      forall tx <- chain.sent | chain.sent[tx].id == id ensures tx in s.chain.sent && s.chain.sent[tx].id == id {
        SentAfter(s, ev.worker, w, ev.ans, tx);
      }
    }
  }

  lemma {:induction false} ExecRests(cfg: Config, s: Sys, evs: seq<Event>, time: int, id: nat)
    requires |cfg.retryBackoffMs| > 0 && Resting(s, id)
    requires StartsBy(evs, time) && time < s.rows[id].nextAttemptAt
    ensures var last := Exec(cfg, s, evs); Resting(last, id) && LeftAlone(s, last, id)
    decreases |evs|
  {
    if evs != [] {
      StepRests(cfg, s, evs[0], id);
      ExecRests(cfg, Step(cfg, s, evs[0]), evs[1..], time, id);
    }
  }

  /** A record that is due can be taken up, and then its row changes: it expires,
      counts one retry more, or is put off. */
  lemma WokenWhenDue(cfg: Config, s: Sys, id: nat, time: int) returns (evs: seq<Event>)
    requires |cfg.retryBackoffMs| > 0
    requires id < |s.rows| && !Terminal(s.rows[id].status) && s.rows[id].nextAttemptAt <= time
    ensures StartsBy(evs, time)
    ensures id < |Exec(cfg, s, evs).rows| && Exec(cfg, s, evs).rows[id] != s.rows[id]
  {
    var row := s.rows[id];
    var v := FreeName(s.workers.Keys);
    var taken, begun := SnapshotEv(v, id, time), BeginEv(v, time);
    assert Step(cfg, s, taken) == s.(workers := s.workers[v := Worker(id, false, Held, row)]);
    if !row.request.usable {
      evs := [taken, begun];
      ExecTwo(cfg, s, taken, begun);
    } else {
      var later := row.nextAttemptAt - cfg.confirmationPollMs + 1;
      var answered := ResumeEv(v, later, Threw(Failure(true, false)));
      evs := [taken, begun, answered];
      ExecTwo(cfg, s, taken, begun);
      ExecAppends(cfg, s, [taken, begun], [answered]);
      assert [taken, begun] + [answered] == evs;
      FailingFetch(cfg, Exec(cfg, s, [taken, begun]), v, id, row, answered);
    }
  }

  lemma ExecTwo(cfg: Config, s: Sys, first: Event, second: Event)
    requires |cfg.retryBackoffMs| > 0
    ensures Exec(cfg, s, [first, second]) == Step(cfg, Step(cfg, s, first), second)
  {
    var next := Step(cfg, s, first);
    assert [first, second][1..] == [second];
    assert Exec(cfg, s, [first, second]) == Exec(cfg, next, [second]);
    assert [second][1..] == [];
    assert Exec(cfg, next, [second]) == Exec(cfg, Step(cfg, next, second), []);
  }

  lemma FailingFetch(cfg: Config, s: Sys, wid: int, id: nat, row: Row, answered: Event)
    requires |cfg.retryBackoffMs| > 0
    requires id < |s.rows| && s.rows[id] == row && !Terminal(row.status)
    requires wid in s.workers && s.workers[wid] == Worker(id, false, Fetching, row)
    requires answered == ResumeEv(wid, row.nextAttemptAt - cfg.confirmationPollMs + 1, Threw(Failure(true, false)))
    ensures id < |Exec(cfg, s, [answered]).rows| && Exec(cfg, s, [answered]).rows[id] != row
  {
    assert [answered][1..] == [];
    assert Exec(cfg, s, [answered]) == Step(cfg, s, answered);
  }

  /** A record that nobody is processing is left alone by every run that takes
      nothing up after some time, exactly when that is before its next attempt. */
  lemma QuietUntilDueIff(cfg: Config, s: Sys, id: nat, time: int)
    requires |cfg.retryBackoffMs| > 0
    requires Resting(s, id) && !Terminal(s.rows[id].status)
    ensures (forall evs :: StartsBy(evs, time) ==> LeftAlone(s, Exec(cfg, s, evs), id)) <==> time < s.rows[id].nextAttemptAt
  {
    if time < s.rows[id].nextAttemptAt {
      forall evs | StartsBy(evs, time) ensures LeftAlone(s, Exec(cfg, s, evs), id) {
        ExecRests(cfg, s, evs, time, id);
      }
    } else {
      var evs := WokenWhenDue(cfg, s, id, time);
      assert !LeftAlone(s, Exec(cfg, s, evs), id);
    }
  }
}
