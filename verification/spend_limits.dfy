/** The SDK's spend limiter: rolling hourly and daily limits on withdrawals. */
module SpendLimits {
  import opened Outcomes

  const HOUR_MS := 60 * 60 * 1000
  const DAY_MS := 24 * HOUR_MS

  datatype Policy = Policy(
    maxPerTransaction: int,
    maxPerHour: int,
    maxPerDay: int,
    requireOwnerApproval: int,
    allowedPools: seq<int>)

  datatype Entry = Entry(amount: int, timestamp: int)

  datatype Refusal = NotPositive | OverTransactionLimit | NeedsApproval | NoPool | PoolNotAllowed | OverHourlyLimit | OverDailyLimit

  function SumSince(history: seq<Entry>, cutoff: int): int {
    if history == [] then 0
    else
      var last := history[|history| - 1];
      SumSince(history[..|history| - 1], cutoff) + (if last.timestamp >= cutoff then last.amount else 0)
  }

  function Pruned(history: seq<Entry>, cutoff: int): seq<Entry> {
    if history == [] then []
    else
      var last := history[|history| - 1];
      Pruned(history[..|history| - 1], cutoff) + (if last.timestamp >= cutoff then [last] else [])
  }

  /** The checks that do not look at the history. */
  function StaticRefusal(policy: Policy, amount: int, pool: Option<int>): Option<Refusal> {
    if amount <= 0 then Some(NotPositive)
    else if amount > policy.maxPerTransaction then Some(OverTransactionLimit)
    else if policy.requireOwnerApproval > 0 && amount > policy.requireOwnerApproval then Some(NeedsApproval)
    else if policy.allowedPools != [] && pool.None? then Some(NoPool)
    else if policy.allowedPools != [] && pool.value !in policy.allowedPools then Some(PoolNotAllowed)
    else None
  }

  function RollingRefusal(policy: Policy, history: seq<Entry>, amount: int, now: int): Option<Refusal> {
    if SumSince(history, now - HOUR_MS) + amount > policy.maxPerHour then Some(OverHourlyLimit)
    else if SumSince(history, now - DAY_MS) + amount > policy.maxPerDay then Some(OverDailyLimit)
    else None
  }

  function Decide(policy: Policy, history: seq<Entry>, amount: int, pool: Option<int>, now: int): Option<Refusal> {
    if StaticRefusal(policy, amount, pool).Some? then StaticRefusal(policy, amount, pool)
    else RollingRefusal(policy, Pruned(history, now - DAY_MS), amount, now)
  }

  class SpendLimiter {
    const policy: Policy
    var history: seq<Entry>

    constructor (policy: Policy)
      ensures this.policy == policy && history == []
    {
      this.policy := policy;
      history := [];
    }

    method PruneHistory(now: int)
      modifies this
      ensures history == Pruned(old(history), now - DAY_MS)
    {
      history := Pruned(history, now - DAY_MS);
    }

    method Check(amount: int, pool: Option<int>, now: int) returns (r: Option<Refusal>)
      modifies this
      ensures r == Decide(policy, old(history), amount, pool, now)
      ensures history == if StaticRefusal(policy, amount, pool).Some? then old(history) else Pruned(old(history), now - DAY_MS)
    {
      if amount <= 0 {
        return Some(NotPositive);
      }
      if amount > policy.maxPerTransaction {
        return Some(OverTransactionLimit);
      }
      if policy.requireOwnerApproval > 0 && amount > policy.requireOwnerApproval {
        return Some(NeedsApproval);
      }
      if |policy.allowedPools| > 0 {
        if pool.None? {
          return Some(NoPool);
        }
        if pool.value !in policy.allowedPools {
          return Some(PoolNotAllowed);
        }
      }
      PruneHistory(now);
      if SumSince(history, now - HOUR_MS) + amount > policy.maxPerHour {
        return Some(OverHourlyLimit);
      }
      if SumSince(history, now - DAY_MS) + amount > policy.maxPerDay {
        return Some(OverDailyLimit);
      }
      return None;
    }

    method Record(amount: int, now: int)
      modifies this
      ensures history == Pruned(old(history), now - DAY_MS) + [Entry(amount, now)]
    {
      PruneHistory(now);
      history := history + [Entry(amount, now)];
    }
  }

  // ---------- calls over time ----------

  datatype Call = CheckCall(amount: int, pool: Option<int>, now: int) | RecordCall(amount: int, now: int)

  /** The limiter's history, all that was ever recorded, where it was last
      pruned, the checks allowed since the last record, and the last time seen. */
  datatype Ledger = Ledger(history: seq<Entry>, full: seq<Entry>, prunedTo: int, cleared: seq<Entry>, clock: int)

  function After(policy: Policy, l: Ledger, call: Call): Ledger {
    match call
    case CheckCall(amount, pool, now) =>
      if StaticRefusal(policy, amount, pool).Some? then l.(clock := now)
      else
        l.(history := Pruned(l.history, now - DAY_MS),
           prunedTo := now - DAY_MS,
           cleared := if Decide(policy, l.history, amount, pool, now).None? then l.cleared + [Entry(amount, now)] else l.cleared,
           clock := now)
    case RecordCall(amount, now) =>
      Ledger(Pruned(l.history, now - DAY_MS) + [Entry(amount, now)], l.full + [Entry(amount, now)], now - DAY_MS, [], now)
  }

  /** Time does not run backwards, and what is recorded was allowed by a check
      with no other record in between. */
  predicate Disciplined(l: Ledger, call: Call) {
    && call.now >= l.clock
    && (call.RecordCall? ==> exists i :: 0 <= i < |l.cleared| && l.cleared[i].amount == call.amount)
  }

  predicate DisciplinedCalls(policy: Policy, l: Ledger, calls: seq<Call>)
    decreases |calls|
  {
    calls == [] || (Disciplined(l, calls[0]) && DisciplinedCalls(policy, After(policy, l, calls[0]), calls[1..]))
  }

  function AfterAll(policy: Policy, l: Ledger, calls: seq<Call>): Ledger
    decreases |calls|
  {
    if calls == [] then l else AfterAll(policy, After(policy, l, calls[0]), calls[1..])
  }

  // ---------- windows ----------

  /** What was spent in the closed interval of the given length from lo on. */
  function SpentIn(full: seq<Entry>, lo: int, length: nat): int {
    if full == [] then 0
    else
      var last := full[|full| - 1];
      SpentIn(full[..|full| - 1], lo, length) + (if lo <= last.timestamp <= lo + length then last.amount else 0)
  }

  function NonNegative(limit: int): nat {
    if limit < 0 then 0 else limit
  }

  ghost predicate WindowsBounded(policy: Policy, full: seq<Entry>) {
    && (forall lo: int :: SpentIn(full, lo, HOUR_MS) <= NonNegative(policy.maxPerHour))
    && (forall lo: int :: SpentIn(full, lo, DAY_MS) <= NonNegative(policy.maxPerDay))
  }

  /** Room that an allowed check has established. */
  predicate HasRoom(policy: Policy, full: seq<Entry>, e: Entry) {
    && e.amount > 0
    && SumSince(full, e.timestamp - HOUR_MS) + e.amount <= policy.maxPerHour
    && SumSince(full, e.timestamp - DAY_MS) + e.amount <= policy.maxPerDay
  }

  ghost predicate Consistent(policy: Policy, l: Ledger) {
    && (forall i :: 0 <= i < |l.full| ==> l.full[i].amount > 0)
    && l.history == Pruned(l.full, l.prunedTo)
    && l.prunedTo <= l.clock - DAY_MS
    && (forall i :: 0 <= i < |l.cleared| ==> l.cleared[i].timestamp <= l.clock && HasRoom(policy, l.full, l.cleared[i]))
    && WindowsBounded(policy, l.full)
  }

  lemma {:induction false} PruningKeepsSums(full: seq<Entry>, cutoff: int, since: int)
    requires cutoff <= since
    ensures SumSince(Pruned(full, cutoff), since) == SumSince(full, since)
  {
    if full != [] {
      var last := full[|full| - 1];
      var before := full[..|full| - 1];
      PruningKeepsSums(before, cutoff, since);
      if last.timestamp >= cutoff {
        assert (Pruned(before, cutoff) + [last])[..|Pruned(before, cutoff)|] == Pruned(before, cutoff);
      } else {
        assert Pruned(full, cutoff) == Pruned(before, cutoff);
      }
    }
  }

  lemma {:induction false} PruningTwice(full: seq<Entry>, first: int, second: int)
    requires first <= second
    ensures Pruned(Pruned(full, first), second) == Pruned(full, second)
  {
    if full != [] {
      var last := full[|full| - 1];
      var before := full[..|full| - 1];
      PruningTwice(before, first, second);
      if last.timestamp >= first {
        assert (Pruned(before, first) + [last])[..|Pruned(before, first)|] == Pruned(before, first);
      } else {
        assert Pruned(full, first) == Pruned(before, first);
      }
    }
  }

  /** Pruning never changes a check: the limiter decides as if it remembered
      everything, at every time from now on. */
  lemma PruningNeverMatters(policy: Policy, l: Ledger, amount: int, pool: Option<int>, now: int)
    requires Consistent(policy, l) && now >= l.clock
    ensures Decide(policy, l.history, amount, pool, now)
         == if StaticRefusal(policy, amount, pool).Some? then StaticRefusal(policy, amount, pool)
            else RollingRefusal(policy, l.full, amount, now)
  {
    PruningTwice(l.full, l.prunedTo, now - DAY_MS);
    PruningKeepsSums(l.full, now - DAY_MS, now - HOUR_MS);
    PruningKeepsSums(l.full, now - DAY_MS, now - DAY_MS);
  }

  /** A check allows a withdrawal exactly when the amount is positive and within
      the limit per transaction, needs no approval, goes to a listed pool if there
      is a list, and fits into the last hour and the last day together with
      everything ever recorded there. */
  lemma CheckAllowsIff(policy: Policy, l: Ledger, amount: int, pool: Option<int>, now: int)
    requires Consistent(policy, l) && now >= l.clock
    ensures Decide(policy, l.history, amount, pool, now).None?
       <==> && 0 < amount <= policy.maxPerTransaction
            && (policy.requireOwnerApproval <= 0 || amount <= policy.requireOwnerApproval)
            && (policy.allowedPools == [] || (pool.Some? && pool.value in policy.allowedPools))
            && SumSince(l.full, now - HOUR_MS) + amount <= policy.maxPerHour
            && SumSince(l.full, now - DAY_MS) + amount <= policy.maxPerDay
  {
    PruningNeverMatters(policy, l, amount, pool, now);
  }

  /** Every refusal names a limit that the withdrawal exceeds. */
  lemma RefusalsAreTrue(policy: Policy, l: Ledger, amount: int, pool: Option<int>, now: int)
    requires Consistent(policy, l) && now >= l.clock
    ensures match Decide(policy, l.history, amount, pool, now)
            case None => true
            case Some(NotPositive) => amount <= 0
            case Some(OverTransactionLimit) => amount > policy.maxPerTransaction
            case Some(NeedsApproval) => 0 < policy.requireOwnerApproval < amount
            case Some(NoPool) => policy.allowedPools != [] && pool.None?
            case Some(PoolNotAllowed) => policy.allowedPools != [] && pool.Some? && pool.value !in policy.allowedPools
            case Some(OverHourlyLimit) => SumSince(l.full, now - HOUR_MS) + amount > policy.maxPerHour
            case Some(OverDailyLimit) => SumSince(l.full, now - DAY_MS) + amount > policy.maxPerDay
  {
    PruningNeverMatters(policy, l, amount, pool, now);
  }

  lemma {:induction false} WindowWithinSince(full: seq<Entry>, lo: int, length: nat, since: int)
    requires since <= lo
    requires forall i :: 0 <= i < |full| ==> full[i].amount > 0
    ensures SpentIn(full, lo, length) <= SumSince(full, since)
  {
    if full != [] {
      WindowWithinSince(full[..|full| - 1], lo, length, since);
    }
  }

  /** Recording a cleared amount keeps the windows of one length bounded. */
  lemma RecordingKeepsBound(full: seq<Entry>, amount: int, checkedAt: int, now: int, length: nat, limit: int, lo: int)
    requires forall i :: 0 <= i < |full| ==> full[i].amount > 0
    requires checkedAt <= now && SumSince(full, checkedAt - length) + amount <= limit
    requires SpentIn(full, lo, length) <= NonNegative(limit)
    ensures SpentIn(full + [Entry(amount, now)], lo, length) <= NonNegative(limit)
  {
    assert (full + [Entry(amount, now)])[..|full|] == full;
    if lo <= now <= lo + length {
      WindowWithinSince(full, lo, length, checkedAt - length);
    }
  }

  lemma AllowedHasRoom(policy: Policy, l: Ledger, amount: int, pool: Option<int>, now: int)
    requires Consistent(policy, l) && now >= l.clock
    requires Decide(policy, l.history, amount, pool, now).None?
    ensures HasRoom(policy, l.full, Entry(amount, now))
  {
    PruningNeverMatters(policy, l, amount, pool, now);
  }

  lemma CheckKeeps(policy: Policy, l: Ledger, amount: int, pool: Option<int>, now: int)
    requires Consistent(policy, l) && now >= l.clock
    ensures Consistent(policy, After(policy, l, CheckCall(amount, pool, now)))
  {
    PruningTwice(l.full, l.prunedTo, now - DAY_MS);
    if Decide(policy, l.history, amount, pool, now).None? {
      AllowedHasRoom(policy, l, amount, pool, now);
    }
  }

  lemma RecordKeepsWindows(policy: Policy, full: seq<Entry>, amount: int, checkedAt: int, now: int)
    requires WindowsBounded(policy, full)
    requires forall i :: 0 <= i < |full| ==> full[i].amount > 0
    requires checkedAt <= now && HasRoom(policy, full, Entry(amount, checkedAt))
    ensures WindowsBounded(policy, full + [Entry(amount, now)])
  {
    forall lo: int ensures SpentIn(full + [Entry(amount, now)], lo, HOUR_MS) <= NonNegative(policy.maxPerHour) {
      RecordingKeepsBound(full, amount, checkedAt, now, HOUR_MS, policy.maxPerHour, lo);
    }
    forall lo: int ensures SpentIn(full + [Entry(amount, now)], lo, DAY_MS) <= NonNegative(policy.maxPerDay) {
      RecordingKeepsBound(full, amount, checkedAt, now, DAY_MS, policy.maxPerDay, lo);
    }
  }

  lemma RecordKeeps(policy: Policy, l: Ledger, amount: int, now: int)
    requires Consistent(policy, l) && Disciplined(l, RecordCall(amount, now))
    ensures Consistent(policy, After(policy, l, RecordCall(amount, now)))
  {
    var i :| 0 <= i < |l.cleared| && l.cleared[i].amount == amount;
    RecordKeepsWindows(policy, l.full, amount, l.cleared[i].timestamp, now);
    PruningTwice(l.full, l.prunedTo, now - DAY_MS);
    assert (l.full + [Entry(amount, now)])[..|l.full|] == l.full;
  }

  lemma CallKeeps(policy: Policy, l: Ledger, call: Call)
    requires Consistent(policy, l) && Disciplined(l, call)
    ensures Consistent(policy, After(policy, l, call))
  {
    match call
    case CheckCall(amount, pool, now) => CheckKeeps(policy, l, amount, pool, now);
    case RecordCall(amount, now) => RecordKeeps(policy, l, amount, now);
  }

  lemma {:induction false} CallsKeep(policy: Policy, l: Ledger, calls: seq<Call>)
    requires Consistent(policy, l) && DisciplinedCalls(policy, l, calls)
    ensures Consistent(policy, AfterAll(policy, l, calls))
    decreases |calls|
  {
    if calls != [] {
      CallKeeps(policy, l, calls[0]);
      CallsKeep(policy, After(policy, l, calls[0]), calls[1..]);
    }
  }

  function NewLedger(clock: int): Ledger {
    Ledger([], [], clock - DAY_MS, [], clock)
  }

  /** The limits hold for every rolling hour and day of everything ever
      recorded, over every disciplined sequence of calls. */
  lemma EveryWindowIsBounded(policy: Policy, clock: int, calls: seq<Call>)
    requires DisciplinedCalls(policy, NewLedger(clock), calls)
    ensures WindowsBounded(policy, AfterAll(policy, NewLedger(clock), calls).full)
  {
    CallsKeep(policy, NewLedger(clock), calls);
  }

  /** Without the discipline the limits can be passed: two withdrawals that are
      both checked before either is recorded. */
  lemma InterleavedChecksExceed() returns (policy: Policy, calls: seq<Call>)
    ensures |calls| == 4 && calls[0].CheckCall? && calls[1].CheckCall? && calls[2].RecordCall? && calls[3].RecordCall?
    ensures var l := NewLedger(0);
            var l1 := After(policy, l, calls[0]);
            var l2 := After(policy, l1, calls[1]);
            && Decide(policy, l.history, calls[0].amount, calls[0].pool, calls[0].now).None?
            && Decide(policy, l1.history, calls[1].amount, calls[1].pool, calls[1].now).None?
            && calls[2].amount == calls[0].amount && calls[3].amount == calls[1].amount
            && SpentIn(After(policy, After(policy, l2, calls[2]), calls[3]).full, 0, HOUR_MS) > policy.maxPerHour
  {
    policy := Policy(10, 10, 10, 0, []);
    calls := [CheckCall(10, None, 0), CheckCall(10, None, 0), RecordCall(10, 0), RecordCall(10, 0)];
    var l2 := After(policy, After(policy, NewLedger(0), calls[0]), calls[1]);
    var l3 := After(policy, l2, calls[2]);
    assert l3.full == [Entry(10, 0)];
    var l4 := After(policy, l3, calls[3]);
    assert l4.full == [Entry(10, 0), Entry(10, 0)];
    assert l4.full[..1] == [Entry(10, 0)];
    assert SpentIn(l4.full[..1], 0, HOUR_MS) == 10;
  }

  // ---------- withdrawals that interleave ----------

  /** A limiter shared by withdrawals that each check once and record at most
      once, in any order: `open` are the amounts allowed and not yet recorded. */
  datatype Client = Client(history: seq<Entry>, full: seq<Entry>, open: multiset<int>, clock: int)

  function NewClient(clock: int): Client {
    Client([], [], multiset{}, clock)
  }

  function ClientAfter(policy: Policy, c: Client, call: Call): Client {
    match call
    case CheckCall(amount, pool, now) =>
      if StaticRefusal(policy, amount, pool).Some? then c.(clock := now)
      else
        c.(history := Pruned(c.history, now - DAY_MS),
           open := if Decide(policy, c.history, amount, pool, now).None? then c.open + multiset{amount} else c.open,
           clock := now)
    case RecordCall(amount, now) =>
      Client(Pruned(c.history, now - DAY_MS) + [Entry(amount, now)], c.full + [Entry(amount, now)], c.open - multiset{amount}, now)
  }

  /** Time does not run backwards, and every record has an allowed check of its own. */
  predicate Paired(c: Client, call: Call) {
    call.now >= c.clock && (call.RecordCall? ==> call.amount in c.open)
  }

  predicate PairedCalls(policy: Policy, c: Client, calls: seq<Call>)
    decreases |calls|
  {
    calls == [] || (Paired(c, calls[0]) && PairedCalls(policy, ClientAfter(policy, c, calls[0]), calls[1..]))
  }

  function AfterPaired(policy: Policy, c: Client, calls: seq<Call>): Client
    decreases |calls|
  {
    if calls == [] then c else AfterPaired(policy, ClientAfter(policy, c, calls[0]), calls[1..])
  }

  /** The limits hold whatever withdrawals interleave. */
  ghost predicate LimitsSurviveInterleaving(policy: Policy) {
    forall clock: int, calls: seq<Call> :: PairedCalls(policy, NewClient(clock), calls) ==>
      WindowsBounded(policy, AfterPaired(policy, NewClient(clock), calls).full)
  }

  /** A policy under which no withdrawal at all passes its first check. */
  predicate AllowsNothing(policy: Policy) {
    policy.maxPerTransaction < 1 || policy.maxPerHour < 1 || policy.maxPerDay < 1
  }

  lemma {:induction false} NothingIsRecorded(policy: Policy, c: Client, calls: seq<Call>)
    requires AllowsNothing(policy) && PairedCalls(policy, c, calls)
    requires c.history == [] && c.full == [] && c.open == multiset{}
    ensures AfterPaired(policy, c, calls).full == []
    decreases |calls|
  {
    if calls != [] {
      NothingIsRecorded(policy, ClientAfter(policy, c, calls[0]), calls[1..]);
    }
  }

  function Copies<T>(x: T, n: nat): (s: seq<T>)
    ensures |s| == n
  {
    if n == 0 then [] else [x] + Copies(x, n - 1)
  }

  lemma CopiesThen<T>(x: T, n: nat, rest: seq<T>)
    requires n > 0
    ensures (Copies(x, n) + rest)[0] == x && (Copies(x, n) + rest)[1..] == Copies(x, n - 1) + rest
  {
  }

  function Units(n: nat): multiset<int> {
    multiset{}[1 := n]
  }

  lemma CheckSteps(policy: Policy, c: Client, pool: Option<int>, calls: seq<Call>)
    requires c.history == [] && c.clock == 0 && Decide(policy, [], 1, pool, 0).None?
    requires calls != [] && calls[0] == CheckCall(1, pool, 0)
    ensures var next := c.(open := c.open + Units(1));
            && PairedCalls(policy, c, calls) == PairedCalls(policy, next, calls[1..])
            && AfterPaired(policy, c, calls) == AfterPaired(policy, next, calls[1..])
  {
    var next := c.(open := c.open + Units(1));
    assert Units(1) == multiset{1};
    assert ClientAfter(policy, c, calls[0]) == next;
  }

  /** On an empty history, checks of a unit are allowed one after the other. */
  lemma {:induction false} ChecksPass(policy: Policy, c: Client, pool: Option<int>, n: nat, rest: seq<Call>)
    requires c.history == [] && c.clock == 0 && Decide(policy, [], 1, pool, 0).None?
    ensures var calls := Copies(CheckCall(1, pool, 0), n) + rest;
            var checked := c.(open := c.open + Units(n));
            && PairedCalls(policy, c, calls) == PairedCalls(policy, checked, rest)
            && AfterPaired(policy, c, calls) == AfterPaired(policy, checked, rest)
    decreases n
  {
    var check := CheckCall(1, pool, 0);
    if n == 0 {
      assert Copies(check, 0) + rest == rest;
      assert c.open + Units(0) == c.open;
    } else {
      CopiesThen(check, n, rest);
      CheckSteps(policy, c, pool, Copies(check, n) + rest);
      ChecksPass(policy, c.(open := c.open + Units(1)), pool, n - 1, rest);
      assert c.open + Units(1) + Units(n - 1) == c.open + Units(n);
    }
  }

  lemma RecordSteps(policy: Policy, c: Client, calls: seq<Call>) returns (next: Client)
    requires c.clock == 0 && c.open[1] > 0
    requires calls != [] && calls[0] == RecordCall(1, 0)
    ensures next.clock == 0 && next.open[1] == c.open[1] - 1 && next.full == c.full + [Entry(1, 0)]
    ensures PairedCalls(policy, c, calls) == PairedCalls(policy, next, calls[1..])
    ensures AfterPaired(policy, c, calls) == AfterPaired(policy, next, calls[1..])
  {
    next := ClientAfter(policy, c, calls[0]);
  }

  /** Then each of them records. */
  lemma {:induction false} RecordsPass(policy: Policy, c: Client, n: nat)
    requires c.clock == 0 && c.open[1] >= n
    ensures var calls := Copies(RecordCall(1, 0), n);
            && PairedCalls(policy, c, calls)
            && AfterPaired(policy, c, calls).full == c.full + Copies(Entry(1, 0), n)
    decreases n
  {
    if n > 0 {
      var calls := Copies(RecordCall(1, 0), n);
      var next := RecordSteps(policy, c, calls);
      RecordsPass(policy, next, n - 1);
      assert calls[1..] == Copies(RecordCall(1, 0), n - 1);
      EntriesThen(c.full, n);
    }
  }

  lemma EntriesThen(full: seq<Entry>, n: nat)
    requires n > 0
    ensures (full + [Entry(1, 0)]) + Copies(Entry(1, 0), n - 1) == full + Copies(Entry(1, 0), n)
  {
  }

  lemma {:induction false} CopiesSpend(n: nat, length: nat)
    ensures SpentIn(Copies(Entry(1, 0), n), 0, length) == n
  {
    if n > 0 {
      CopiesAtEnd(Entry(1, 0), n);
      CopiesSpend(n - 1, length);
    }
  }

  lemma {:induction false} CopiesAtEnd<T>(x: T, n: nat)
    requires n > 0
    ensures Copies(x, n)[n - 1] == x && Copies(x, n)[..n - 1] == Copies(x, n - 1)
  {
    if n > 1 {
      CopiesAtEnd(x, n - 1);
    }
  }

  /** A policy that lets a unit through is exceeded by enough withdrawals that all
      check before any records. */
  lemma StormExceeds(policy: Policy) returns (calls: seq<Call>)
    requires !AllowsNothing(policy)
    ensures PairedCalls(policy, NewClient(0), calls)
    ensures SpentIn(AfterPaired(policy, NewClient(0), calls).full, 0, HOUR_MS) > policy.maxPerHour
  {
    var pool := if policy.allowedPools == [] then None else Some(policy.allowedPools[0]);
    var n := policy.maxPerHour + 1;
    var records := Copies(RecordCall(1, 0), n);
    calls := Copies(CheckCall(1, pool, 0), n) + records;
    ChecksPass(policy, NewClient(0), pool, n, records);
    var checked := NewClient(0).(open := multiset{} + Units(n));
    RecordsPass(policy, checked, n);
    assert AfterPaired(policy, checked, records).full == Copies(Entry(1, 0), n);
    CopiesSpend(n, HOUR_MS);
  }

  /** The limits survive interleaved withdrawals exactly under the policies that
      allow no withdrawal at all. */
  lemma LimitsSurviveInterleavingIff(policy: Policy)
    ensures LimitsSurviveInterleaving(policy) <==> AllowsNothing(policy)
  {
    if AllowsNothing(policy) {
      forall clock: int, calls: seq<Call> | PairedCalls(policy, NewClient(clock), calls)
        ensures WindowsBounded(policy, AfterPaired(policy, NewClient(clock), calls).full)
      {
        NothingIsRecorded(policy, NewClient(clock), calls);
      }
    } else {
      var calls := StormExceeds(policy);
      assert !WindowsBounded(policy, AfterPaired(policy, NewClient(0), calls).full);
    }
  }
}
