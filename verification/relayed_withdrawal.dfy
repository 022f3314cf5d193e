/** The two layers together: what the relay protocol takes a block to do with a
    transaction is what the pool program does with the withdrawal in it. */
module RelayedWithdrawal {
  import opened Outcomes
  import opened FieldTerms
  import opened Fees
  import opened PoolState
  import opened PoolSafety
  import opened RelayStores
  import opened RelayProtocol
  import opened RelaySafety

  /** The relayer's configuration describes this pool. */
  predicate Describes(cfg: Config, p: Pool) {
    && cfg.depositAmount == p.depositAmount
    && cfg.protocolFeeBps == (if p.kind == FeeV2 then p.protocolFeeBps else 0)
  }

  /** The withdrawal that a transaction of the relayer carries. */
  predicate CarriedBy(a: WithdrawArgs, tx: Tx) {
    && a.nullifierHash == tx.nullifierHash
    && a.recipient == tx.recipient
    && a.relayer.Some?
    && a.relayerFee == tx.fee
  }

  lemma SameSplit(cfg: Config, p: Pool, a: WithdrawArgs)
    requires Describes(cfg, p) && Configured(p) && a.relayer.Some? && SplitFor(p, a).Ok?
    ensures FeePoolSplit(cfg.depositAmount, cfg.protocolFeeBps, a.relayerFee) == SplitFor(p, a)
  {
  }

  /** Executing the transaction in the protocol, as valid as the program finds
      it, spends and pays exactly what executing the withdrawal does. */
  lemma ExecutionMatchesProgram(cfg: Config, chain: Chain, tx: Tx, w: World, leaves: seq<Field>, a: WithdrawArgs)
    requires Inv(w, leaves) && Describes(cfg, w.pool) && CarriedBy(a, tx)
    requires tx in chain.sent && chain.spent == SpentNullifiers(w)
    ensures var next := ExecuteTx(cfg, chain, tx, Withdraw(w, a).Ok?);
            && next.spent == SpentNullifiers(Next(w, WithdrawIx(a)))
            && (Withdraw(w, a).Ok? ==>
                  && next.paid == chain.paid + [Payout(tx.nullifierHash, tx.recipient, SplitFor(w.pool, a).value, Some(chain.sent[tx].id))]
                  && SplitFor(w.pool, a).value.Total() == w.pool.depositAmount)
            && (Withdraw(w, a).Err? ==> next.paid == chain.paid)
  {
    assert Execute(w, WithdrawIx(a)) == Withdraw(w, a);
    if Withdraw(w, a).Ok? {
      assert Authorize(w, a).Ok?;
      WithdrawEffect(w, leaves, a);
      SplitIsDenomination(w.pool, a);
      SameSplit(cfg, w.pool, a);
      var next := ExecuteTx(cfg, chain, tx, true);
      assert next.spent == chain.spent + {tx.nullifierHash};
    } else {
      assert Next(w, WithdrawIx(a)) == w;
    }
  }

  // ---------- whole runs ----------

  /** One thing that happens to relayer and pool together: a step of the relayer
      or its network, a block that takes up one of its transactions with the
      withdrawal in it, or an instruction of somebody else. */
  datatype Joint =
    | Own(ev: Event)
    | Land(tx: Tx, args: WithdrawArgs)
    | Other(ix: Instruction)

  predicate Lands(s: Sys, j: Joint) {
    j.Land? && Live(s.chain, j.tx) && CarriedBy(j.args, j.tx)
  }

  /** What the protocol sees of it. Blocks take up transactions only as Land, and
      others spend only as Other. */
  function EventsOf(s: Sys, w: World, j: Joint): seq<Event>
    requires SizedWorld(w)
  {
    match j
    case Own(ev) => if ev.ExecuteEv? || ev.ForeignSpendEv? then [] else [ev]
    case Land(tx, a) => if Lands(s, j) then [ExecuteEv(tx, Withdraw(w, a).Ok?)] else []
    case Other(ix) =>
      if ix.WithdrawIx? && Withdraw(w, ix.args).Ok?
      then [ForeignSpendEv(ix.args.nullifierHash, ix.args.recipient, SplitFor(w.pool, ix.args).value)]
      else []
  }

  /** What the pool sees of it. */
  function InstructionsOf(s: Sys, j: Joint): seq<Instruction> {
    match j
    case Own(_) => []
    case Land(_, a) => if Lands(s, j) then [WithdrawIx(a)] else []
    case Other(ix) => [ix]
  }

  function Events(cfg: Config, s: Sys, w: World, js: seq<Joint>): seq<Event>
    requires ValidConfig(cfg) && SizedWorld(w)
    decreases |js|
  {
    if js == [] then []
    else
      var evs, ixs := EventsOf(s, w, js[0]), InstructionsOf(s, js[0]);
      evs + Events(cfg, Exec(cfg, s, evs), Run(w, ixs), js[1..])
  }

  function Instructions(cfg: Config, s: Sys, w: World, js: seq<Joint>): seq<Instruction>
    requires ValidConfig(cfg) && SizedWorld(w)
    decreases |js|
  {
    if js == [] then []
    else
      var evs, ixs := EventsOf(s, w, js[0]), InstructionsOf(s, js[0]);
      ixs + Instructions(cfg, Exec(cfg, s, evs), Run(w, ixs), js[1..])
  }

  /** A withdrawal as the pool's instructions show it. */
  datatype Paid = Paid(nullifierHash: Field, recipient: nat, split: Split)

  function WithdrawalOf(w: World, ix: Instruction): seq<Paid>
    requires SizedWorld(w)
  {
    if ix.WithdrawIx? && Withdraw(w, ix.args).Ok?
    then [Paid(ix.args.nullifierHash, ix.args.recipient, SplitFor(w.pool, ix.args).value)]
    else []
  }

  /** The accepted withdrawals of a run of the pool, in order. */
  function Withdrawals(w: World, ixs: seq<Instruction>): seq<Paid>
    requires SizedWorld(w)
    decreases |ixs|
  {
    if ixs == [] then [] else WithdrawalOf(w, ixs[0]) + Withdrawals(Next(w, ixs[0]), ixs[1..])
  }

  /** The protocol's payouts, without who made them. */
  function Shown(paid: seq<Payout>): seq<Paid> {
    if paid == [] then []
    else
      var last := paid[|paid| - 1];
      Shown(paid[..|paid| - 1]) + [Paid(last.nullifierHash, last.recipient, last.split)]
  }

  lemma ShownGrows(paid: seq<Payout>, p: Payout)
    ensures Shown(paid + [p]) == Shown(paid) + [Paid(p.nullifierHash, p.recipient, p.split)]
  {
    assert (paid + [p])[..|paid|] == paid;
  }

  ghost predicate Linked(cfg: Config, s: Sys, w: World, leaves: seq<Field>) {
    && Inv(w, leaves) && Describes(cfg, w.pool)
    && s.chain.spent == SpentNullifiers(w)
  }

  lemma ExecOne(cfg: Config, s: Sys, ev: Event)
    requires |cfg.retryBackoffMs| > 0
    ensures Exec(cfg, s, [ev]) == Step(cfg, s, ev)
  {
    assert [ev][1..] == [];
  }

  lemma RunOne(w: World, ix: Instruction)
    requires SizedWorld(w)
    ensures Run(w, [ix]) == Next(w, ix)
    ensures Withdrawals(w, [ix]) == WithdrawalOf(w, ix)
  {
    assert [ix][1..] == [];
  }

  /** The relayer's own steps neither spend nor pay. */
  lemma OwnStepKeepsChain(cfg: Config, s: Sys, ev: Event)
    requires |cfg.retryBackoffMs| > 0 && !ev.ExecuteEv? && !ev.ForeignSpendEv?
    ensures Step(cfg, s, ev).chain.spent == s.chain.spent && Step(cfg, s, ev).chain.paid == s.chain.paid
  {
  }

  /** An instruction that is no accepted withdrawal spends nothing. */
  lemma OtherInstructionSpendsNothing(w: World, ix: Instruction)
    requires SizedWorld(w) && !(ix.WithdrawIx? && Withdraw(w, ix.args).Ok?)
    ensures SpentNullifiers(Next(w, ix)) == SpentNullifiers(w)
  {
  }

  lemma ExecuteStep(cfg: Config, s: Sys, tx: Tx, otherwiseValid: bool)
    requires |cfg.retryBackoffMs| > 0 && Live(s.chain, tx)
    ensures Step(cfg, s, ExecuteEv(tx, otherwiseValid)).chain == ExecuteTx(cfg, s.chain, tx, otherwiseValid)
  {
  }

  lemma LandingShows(cfg: Config, chain: Chain, w: World, leaves: seq<Field>, tx: Tx, a: WithdrawArgs)
    requires Inv(w, leaves) && Describes(cfg, w.pool) && CarriedBy(a, tx)
    requires tx in chain.sent && chain.spent == SpentNullifiers(w)
    ensures Shown(ExecuteTx(cfg, chain, tx, Withdraw(w, a).Ok?).paid) == Shown(chain.paid) + WithdrawalOf(w, WithdrawIx(a))
  {
    ExecutionMatchesProgram(cfg, chain, tx, w, leaves, a);
    if Withdraw(w, a).Ok? {
      ShownGrows(chain.paid, Payout(tx.nullifierHash, tx.recipient, SplitFor(w.pool, a).value, Some(chain.sent[tx].id)));
    }
  }

  lemma LandKeepsLink(cfg: Config, s: Sys, w: World, leaves: seq<Field>, tx: Tx, a: WithdrawArgs)
    requires ValidConfig(cfg) && Linked(cfg, s, w, leaves) && Lands(s, Land(tx, a))
    ensures var next := Step(cfg, s, ExecuteEv(tx, Withdraw(w, a).Ok?));
            && next.chain.spent == SpentNullifiers(Next(w, WithdrawIx(a)))
            && Shown(next.chain.paid) == Shown(s.chain.paid) + Withdrawals(w, [WithdrawIx(a)])
  {
    var ok := Withdraw(w, a).Ok?;
    RunOne(w, WithdrawIx(a));
    ExecuteStep(cfg, s, tx, ok);
    ExecutionMatchesProgram(cfg, s.chain, tx, w, leaves, a);
    LandingShows(cfg, s.chain, w, leaves, tx, a);
  }

  lemma AcceptedWithdrawalSpends(w: World, leaves: seq<Field>, a: WithdrawArgs)
    requires Inv(w, leaves) && Withdraw(w, a).Ok?
    ensures a.nullifierHash !in SpentNullifiers(w)
    ensures SpentNullifiers(Next(w, WithdrawIx(a))) == SpentNullifiers(w) + {a.nullifierHash}
  {
    WithdrawEffect(w, leaves, a);
    assert Execute(w, WithdrawIx(a)) == Withdraw(w, a);
  }

  lemma ForeignSpends(cfg: Config, s: Sys, p: Payout)
    requires |cfg.retryBackoffMs| > 0 && p.id == None && p.nullifierHash !in s.chain.spent
    ensures var next := Exec(cfg, s, [ForeignSpendEv(p.nullifierHash, p.recipient, p.split)]);
            && next.chain.spent == s.chain.spent + {p.nullifierHash}
            && Shown(next.chain.paid) == Shown(s.chain.paid) + [Paid(p.nullifierHash, p.recipient, p.split)]
  {
    ExecOne(cfg, s, ForeignSpendEv(p.nullifierHash, p.recipient, p.split));
    ShownGrows(s.chain.paid, p);
  }

  lemma OtherKeepsLink(cfg: Config, s: Sys, w: World, leaves: seq<Field>, ix: Instruction)
    requires ValidConfig(cfg) && Linked(cfg, s, w, leaves)
    ensures var next := Exec(cfg, s, EventsOf(s, w, Other(ix)));
            && next.chain.spent == SpentNullifiers(Next(w, ix))
            && Shown(next.chain.paid) == Shown(s.chain.paid) + Withdrawals(w, [ix])
  {
    RunOne(w, ix);
    if ix.WithdrawIx? && Withdraw(w, ix.args).Ok? {
      AcceptedWithdrawalSpends(w, leaves, ix.args);
      ForeignSpends(cfg, s, Payout(ix.args.nullifierHash, ix.args.recipient, SplitFor(w.pool, ix.args).value, None));
    } else {
      OtherInstructionSpendsNothing(w, ix);
      assert EventsOf(s, w, Other(ix)) == [];
    }
  }

  /** One joint step keeps relayer and pool in agreement. */
  lemma JointStepKeepsLink(cfg: Config, s: Sys, w: World, leaves: seq<Field>, j: Joint) returns (after: seq<Field>)
    requires ValidConfig(cfg) && Linked(cfg, s, w, leaves)
    ensures var next := Exec(cfg, s, EventsOf(s, w, j));
            && Linked(cfg, next, Run(w, InstructionsOf(s, j)), after)
            && Shown(next.chain.paid) == Shown(s.chain.paid) + Withdrawals(w, InstructionsOf(s, j))
  {
    after := leaves;
    match j
    case Own(ev) =>
      if EventsOf(s, w, j) != [] {
        ExecOne(cfg, s, ev);
        OwnStepKeepsChain(cfg, s, ev);
      }
    case Land(tx, a) =>
      if Lands(s, j) {
        LandKeepsLink(cfg, s, w, leaves, tx, a);
        ExecOne(cfg, s, ExecuteEv(tx, Withdraw(w, a).Ok?));
        after := PoolStepKeeps(cfg, w, leaves, WithdrawIx(a));
      }
    case Other(ix) =>
      OtherKeepsLink(cfg, s, w, leaves, ix);
      after := PoolStepKeeps(cfg, w, leaves, ix);
  }

  lemma PoolStepKeeps(cfg: Config, w: World, leaves: seq<Field>, ix: Instruction) returns (after: seq<Field>)
    requires Inv(w, leaves) && Describes(cfg, w.pool)
    ensures Inv(Run(w, [ix]), after) && Describes(cfg, Run(w, [ix]).pool)
    ensures Run(w, [ix]) == Next(w, ix)
  {
    RunOne(w, ix);
    NextKeeps(w, leaves, ix);
    NextFixesConfiguration(w, ix);
    after := leaves + Accepted(w, ix);
  }

  lemma {:induction false} RunAppends(w: World, ixs: seq<Instruction>, more: seq<Instruction>)
    requires SizedWorld(w)
    ensures Run(w, ixs + more) == Run(Run(w, ixs), more)
    decreases |ixs|
  {
    if ixs == [] {
      assert ixs + more == more;
    } else {
      assert (ixs + more)[1..] == ixs[1..] + more;
      RunAppends(Next(w, ixs[0]), ixs[1..], more);
    }
  }

  /** The withdrawals of at most one instruction come first. */
  lemma WithdrawalsSplit(w: World, ixs: seq<Instruction>, more: seq<Instruction>)
    requires SizedWorld(w) && |ixs| <= 1
    ensures Withdrawals(w, ixs + more) == Withdrawals(w, ixs) + Withdrawals(Run(w, ixs), more)
  {
    if ixs == [] {
      assert ixs + more == more;
    } else {
      RunOne(w, ixs[0]);
      assert ixs == [ixs[0]];
      assert (ixs + more)[1..] == more;
    }
  }

  /** The first joint step, and the rest. */
  lemma JointRunSplits(cfg: Config, s: Sys, w: World, js: seq<Joint>, s': Sys, w': World)
    requires ValidConfig(cfg) && SizedWorld(w) && js != []
    requires s' == Exec(cfg, s, EventsOf(s, w, js[0])) && w' == Run(w, InstructionsOf(s, js[0]))
    ensures Exec(cfg, s, Events(cfg, s, w, js)) == Exec(cfg, s', Events(cfg, s', w', js[1..]))
    ensures Run(w, Instructions(cfg, s, w, js)) == Run(w', Instructions(cfg, s', w', js[1..]))
    ensures Withdrawals(w, Instructions(cfg, s, w, js))
         == Withdrawals(w, InstructionsOf(s, js[0])) + Withdrawals(w', Instructions(cfg, s', w', js[1..]))
  {
    ExecAppends(cfg, s, EventsOf(s, w, js[0]), Events(cfg, s', w', js[1..]));
    RunAppends(w, InstructionsOf(s, js[0]), Instructions(cfg, s', w', js[1..]));
    WithdrawalsSplit(w, InstructionsOf(s, js[0]), Instructions(cfg, s', w', js[1..]));
  }

  /** Over every joint run, the protocol's part is a run of the protocol, the
      pool's part a run of the pool, and they agree on what is spent and on every
      withdrawal paid, in order, with recipient and split. */
  lemma {:induction false} JointRunsAgree(cfg: Config, s: Sys, w: World, leaves: seq<Field>, js: seq<Joint>)
    returns (after: seq<Field>, last: Sys, end: World)
    requires ValidConfig(cfg) && Linked(cfg, s, w, leaves)
    ensures last == Exec(cfg, s, Events(cfg, s, w, js)) && end == Run(w, Instructions(cfg, s, w, js))
    ensures Linked(cfg, last, end, after)
    ensures Shown(last.chain.paid) == Shown(s.chain.paid) + Withdrawals(w, Instructions(cfg, s, w, js))
    decreases |js|
  {
    if js == [] {
      after, last, end := leaves, s, w;
    } else {
      var s' := Exec(cfg, s, EventsOf(s, w, js[0]));
      var w' := Run(w, InstructionsOf(s, js[0]));
      var between := JointStepKeepsLink(cfg, s, w, leaves, js[0]);
      after, last, end := JointRunsAgree(cfg, s', w', between, js[1..]);
      JointRunSplits(cfg, s, w, js, s', w');
      Associates(Shown(s.chain.paid), Withdrawals(w, InstructionsOf(s, js[0])), Withdrawals(w', Instructions(cfg, s', w', js[1..])));
    }
  }

  lemma Associates(a: seq<Paid>, b: seq<Paid>, c: seq<Paid>)
    ensures (a + b) + c == a + (b + c)
  {
  }

  predicate Includes(paid: seq<Paid>, nullifierHash: Field) {
    exists i :: 0 <= i < |paid| && paid[i].nullifierHash == nullifierHash
  }

  lemma SpentIsShown(cfg: Config, s: Sys, n: Field)
    requires Safe(cfg, s) && n in s.chain.spent
    ensures Includes(Shown(s.chain.paid), n)
  {
    assert PaidSound(cfg, s.chain.paid, s.rows, s.chain.spent);
    var i :| 0 <= i < |s.chain.paid| && s.chain.paid[i].nullifierHash == n;
    ShownAt(s.chain.paid, i);
    assert Shown(s.chain.paid)[i].nullifierHash == n;
  }

  /** Relayer and program together, from a pool nobody has withdrawn from and an
      empty table: the nullifier of a confirmed request is one the program has
      recorded, with a withdrawal it accepted and paid. */
  lemma ConfirmedIsWithdrawn(cfg: Config, s: Sys, w: World, leaves: seq<Field>, js: seq<Joint>, id: nat)
    requires ValidConfig(cfg) && Initial(s)
    requires Inv(w, leaves) && Describes(cfg, w.pool) && SpentNullifiers(w) == {}
    requires var last := Exec(cfg, s, Events(cfg, s, w, js));
             id < |last.rows| && last.rows[id].status == Confirmed
    ensures var n := Exec(cfg, s, Events(cfg, s, w, js)).rows[id].request.nullifierHash;
            var ixs := Instructions(cfg, s, w, js);
            n in SpentNullifiers(Run(w, ixs)) && Includes(Withdrawals(w, ixs), n)
  {
    var evs := Events(cfg, s, w, js);
    var after, last, end := JointRunsAgree(cfg, s, w, leaves, js);
    ConfirmedMeansSpent(cfg, s, evs, id);
    InitialIsSafe(cfg, s);
    ExecIsSafe(cfg, s, evs);
    SpentIsShown(cfg, last, last.rows[id].request.nullifierHash);
    assert Shown(s.chain.paid) == [];
    assert Shown(last.chain.paid) == Withdrawals(w, Instructions(cfg, s, w, js));
  }

  lemma InitialIsSafe(cfg: Config, s: Sys)
    requires Initial(s)
    ensures Safe(cfg, s)
  {
  }

  /** And the program refuses that nullifier ever after. */
  lemma ConfirmedIsNeverPaidAgain(
      cfg: Config, s: Sys, w: World, leaves: seq<Field>, js: seq<Joint>, id: nat, later: seq<Instruction>, a: WithdrawArgs)
    requires ValidConfig(cfg) && Initial(s)
    requires Inv(w, leaves) && Describes(cfg, w.pool) && SpentNullifiers(w) == {}
    requires var last := Exec(cfg, s, Events(cfg, s, w, js));
             id < |last.rows| && last.rows[id].status == Confirmed && a.nullifierHash == last.rows[id].request.nullifierHash
    ensures Withdraw(Run(Run(w, Instructions(cfg, s, w, js)), later), a).Err?
  {
    ConfirmedIsWithdrawn(cfg, s, w, leaves, js, id);
    SpentStaysSpent(Run(w, Instructions(cfg, s, w, js)), later);
    SpentIsRefused(Run(Run(w, Instructions(cfg, s, w, js)), later), a);
  }

  lemma SpentIsRefused(w: World, a: WithdrawArgs)
    requires SizedWorld(w) && a.nullifierHash in SpentNullifiers(w)
    ensures Withdraw(w, a).Err?
  {
  }

  lemma {:induction false} ShownAt(paid: seq<Payout>, i: nat)
    requires i < |paid|
    ensures |Shown(paid)| == |paid|
    ensures Shown(paid)[i] == Paid(paid[i].nullifierHash, paid[i].recipient, paid[i].split)
  {
    if i < |paid| - 1 {
      ShownAt(paid[..|paid| - 1], i);
    } else if |paid| > 1 {
      ShownAt(paid[..|paid| - 1], 0);
    }
  }
}
