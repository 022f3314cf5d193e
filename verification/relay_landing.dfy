/** What a confirmed record says about its stored signature: exactly which
    confirmations vouch for the stored transaction. */
module RelayLanding {
  import opened Outcomes
  import opened RelayStores
  import opened RelayProtocol
  import opened RelaySafety
  import opened RelaySingle

  /** The stored signature is that of a transaction that paid: one of the
      relayer's own that landed, or one that was looked up on chain. */
  predicate Landed(signature: Option<Signature>, landed: set<Tx>) {
    signature.Some? && (signature.value.Own? ==> signature.value.tx in landed)
  }

  /** A worker with this snapshot is told whether the stored transaction landed:
      it looked a signature up, or asked for the status of the one stored. */
  predicate Vouches(w: Worker, current: Row) {
    || w.pc.PendingFind?
    || w.pc.SubmittedFind?
    || (current.signature.Some? && current.signature.value.Found?)
    || (w.pc == Inspecting && current.signature.Some? && w.record.signature == current.signature)
  }

  predicate Turns(cfg: Config, now: int, current: Row, w: Worker, ans: Answer)
    requires |cfg.retryBackoffMs| > 0
  {
    current.status != Confirmed && Resume(cfg, now, current, w.record, w.pc, ans).row.status == Confirmed
  }

  /** A sound chain on which an answer is true although the stored transaction,
      if it is the relayer's and not the one asked about, never landed. */
  function WithoutIt(w: Worker): Chain {
    var asked := if w.pc == Inspecting && w.record.signature.Some? && w.record.signature.value.Own?
                 then {w.record.signature.value.tx} else {};
    Chain(0, map[], {}, asked, asked, (set tx <- asked :: tx.nullifierHash) + {w.record.request.nullifierHash}, [])
  }

  /** On every sound chain on which the answer is true, the signature landed. */
  ghost predicate AlwaysLanded(signature: Option<Signature>, w: Worker, ans: Answer) {
    forall chain: Chain :: LandedSound(chain.landed, chain.executed, chain.spent) && Honest(chain, w, ans) ==>
      Landed(signature, chain.landed)
  }

  /** Exactly when the answer that confirms a record shows that the stored
      transaction landed, whatever the rest of the chain looks like. */
  lemma ConfirmationVouchesIff(cfg: Config, now: int, current: Row, w: Worker, ans: Answer)
    requires |cfg.retryBackoffMs| > 0
    requires Turns(cfg, now, current, w, ans)
    ensures AlwaysLanded(Resume(cfg, now, current, w.record, w.pc, ans).row.signature, w, ans) <==> Vouches(w, current)
  {
    if !Vouches(w, current) {
      var chain := WithoutIt(w);
      assert Honest(chain, w, ans);
      assert LandedSound(chain.landed, chain.executed, chain.spent);
    }
  }

  // ---------- over runs ----------

  /** The record is not confirmed on the bare word that its nullifier is used. */
  predicate Sighted(s: Sys, ev: Event, id: nat) {
    ev.ResumeEv? && ev.worker in s.workers && s.workers[ev.worker].id == id && ev.ans == NullifierUsed(true) ==>
      s.workers[ev.worker].pc != LookingUp
  }

  predicate SightedRun(cfg: Config, s: Sys, evs: seq<Event>, id: nat)
    requires |cfg.retryBackoffMs| > 0
    decreases |evs|
  {
    evs == [] || (Sighted(s, evs[0], id) && SightedRun(cfg, Step(cfg, s, evs[0]), evs[1..], id))
  }

  predicate ConfirmedLanded(s: Sys, id: nat) {
    id < |s.rows| && s.rows[id].status == Confirmed ==> Landed(s.rows[id].signature, s.chain.landed)
  }

  /** An up-to-date worker that is not told just that the nullifier is used. */
  lemma TurnsLanded(cfg: Config, now: int, row: Row, w: Worker, ans: Answer, chain: Chain)
    requires ValidConfig(cfg)
    requires Turns(cfg, now, row, w, ans)
    requires UpToDate(cfg, w, row) && Shaped(cfg, row)
    requires w.pc == LookingUp ==> ans != NullifierUsed(true)
    requires LandedSound(chain.landed, chain.executed, chain.spent) && Honest(chain, w, ans)
    ensures Landed(Resume(cfg, now, row, w.record, w.pc, ans).row.signature, chain.landed)
  {
    TurnsAtLast(cfg, now, row, w, ans);
    ConfirmationVouchesIff(cfg, now, row, w, ans);
    assert Vouches(w, row);
  }

  lemma ResumeKeepsConfirmedLanded(cfg: Config, s: Sys, wid: int, now: int, ans: Answer, id: nat)
    requires ValidConfig(cfg) && Single(cfg, s) && ConfirmedLanded(s, id)
    requires Enabled(cfg, s, ResumeEv(wid, now, ans)) && Sighted(s, ResumeEv(wid, now, ans), id)
    ensures ConfirmedLanded(Step(cfg, s, ResumeEv(wid, now, ans)), id)
  {
    var w := s.workers[wid];
    var e := Resume(cfg, now, s.rows[w.id], w.record, w.pc, ans);
    var next := Step(cfg, s, ResumeEv(wid, now, ans));
    assert next.rows == s.rows[w.id := e.row];
    TransmitLandsNothing(s.chain, wid, w, ans);
    if w.id == id && e.row.status == Confirmed {
      assert UpToDate(cfg, w, s.rows[id]) && Shaped(cfg, s.rows[id]);
      if Turns(cfg, now, s.rows[id], w, ans) {
        TurnsLanded(cfg, now, s.rows[id], w, ans, s.chain);
      } else {
        assert e.row == s.rows[id];
      }
    }
  }

  lemma TransmitLandsNothing(chain: Chain, wid: int, w: Worker, ans: Answer)
    ensures Transmit(chain, wid, w, ans).landed == chain.landed
  {
  }

  /** The awaits at which a record can turn confirmed. */
  lemma TurnsAtLast(cfg: Config, now: int, current: Row, w: Worker, ans: Answer)
    requires |cfg.retryBackoffMs| > 0
    requires Turns(cfg, now, current, w, ans)
    ensures w.pc.PendingFind? || w.pc.SubmittedFind? || w.pc == Inspecting || (w.pc == LookingUp && ans == NullifierUsed(true))
  {
  }

  lemma StepKeepsConfirmedLanded(cfg: Config, s: Sys, ev: Event, id: nat)
    requires ValidConfig(cfg) && Single(cfg, s) && ConfirmedLanded(s, id)
    requires Orderly(s, ev) && Sighted(s, ev, id)
    ensures ConfirmedLanded(Step(cfg, s, ev), id)
  {
    if Enabled(cfg, s, ev) {
      match ev
      case ResumeEv(wid, now, ans) => ResumeKeepsConfirmedLanded(cfg, s, wid, now, ans, id);
      case _ =>
    }
  }

  lemma {:induction false} RunKeepsConfirmedLanded(cfg: Config, s: Sys, evs: seq<Event>, id: nat)
    requires ValidConfig(cfg) && Single(cfg, s) && ConfirmedLanded(s, id)
    requires OrderlyRun(cfg, s, evs) && SightedRun(cfg, s, evs, id)
    ensures ConfirmedLanded(Exec(cfg, s, evs), id)
    decreases |evs|
  {
    if evs != [] {
      StepKeepsConfirmedLanded(cfg, s, evs[0], id);
      StepIsSingle(cfg, s, evs[0]);
      RunKeepsConfirmedLanded(cfg, Step(cfg, s, evs[0]), evs[1..], id);
    }
  }

  /** With one worker per record, a confirmed record stores a transaction that
      paid, unless it was confirmed on the bare word that its nullifier is used. */
  lemma ConfirmedMeansLanded(cfg: Config, s: Sys, evs: seq<Event>, id: nat)
    requires ValidConfig(cfg) && Initial(s)
    requires OrderlyRun(cfg, s, evs) && SightedRun(cfg, s, evs, id)
    requires id < |Exec(cfg, s, evs).rows| && Exec(cfg, s, evs).rows[id].status == Confirmed
    ensures Landed(Exec(cfg, s, evs).rows[id].signature, Exec(cfg, s, evs).chain.landed)
  {
    RunKeepsConfirmedLanded(cfg, s, evs, id);
  }
}
