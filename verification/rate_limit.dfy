/** The rate limit holds in every window, under any clock. */
module RateLimit {
  import opened Outcomes
  import opened RelayStores
  import opened RelayProtocol

  function AtLeastOne(limit: nat): nat {
    if limit == 0 then 1 else limit
  }

  /** Rows received in the closed interval of the given length from lo on. */
  function InWindow(rows: seq<Row>, ip: Option<int>, lo: int, length: nat): nat {
    CountIn(rows, ip, lo, lo + length)
  }

  /** Every closed interval as long as the window holds few enough rows, per
      ip and overall. */
  ghost predicate WindowsBounded(rows: seq<Row>, limits: Limits) {
    && (forall ip, lo: int :: InWindow(rows, Some(ip), lo, limits.windowMs) <= AtLeastOne(limits.perIpLimit))
    && (forall lo: int :: InWindow(rows, None, lo, limits.windowMs) <= AtLeastOne(limits.globalLimit))
  }

  lemma {:induction false} WindowWithinSince(rows: seq<Row>, ip: Option<int>, lo: int, hi: int, since: int)
    requires since <= lo
    ensures CountIn(rows, ip, lo, hi) <= CountSince(rows, ip, since)
  {
    if rows != [] {
      WindowWithinSince(rows[..|rows| - 1], ip, lo, hi, since);
    }
  }

  lemma {:induction false} OldestIffCounted(rows: seq<Row>, ip: Option<int>, since: int)
    ensures OldestSince(rows, ip, since).None? <==> CountSince(rows, ip, since) == 0
  {
    if rows != [] {
      OldestIffCounted(rows[..|rows| - 1], ip, since);
    }
  }

  lemma AddingKeepsBound(rows: seq<Row>, row: Row, ip: Option<int>, limit: nat, limits: Limits, lo: int)
    requires Counts(row, ip) ==> LimitCheck(rows, ip, limit, limits, row.receivedAt).None?
    requires InWindow(rows, ip, lo, limits.windowMs) <= AtLeastOne(limit)
    ensures InWindow(rows + [row], ip, lo, limits.windowMs) <= AtLeastOne(limit)
  {
    assert (rows + [row])[..|rows|] == rows;
    if Counts(row, ip) && lo <= row.receivedAt <= lo + limits.windowMs {
      var since := row.receivedAt - limits.windowMs;
      WindowWithinSince(rows, ip, lo, lo + limits.windowMs, since);
      OldestIffCounted(rows, ip, since);
    }
  }

  /** A reservation keeps every window bounded, whatever its clock reads: times
      may repeat, jump or run backwards. A duplicate consumes no quota. */
  lemma ReserveKeepsWindows(rows: seq<Row>, request: Request, clientIp: int, receivedAt: int, limits: Limits)
    requires WindowsBounded(rows, limits)
    ensures WindowsBounded(AfterReserve(rows, request, clientIp, receivedAt, limits), limits)
    ensures Reserve(rows, request, clientIp, receivedAt, limits).NullifierExists? ==>
              AfterReserve(rows, request, clientIp, receivedAt, limits) == rows
  {
    if Reserve(rows, request, clientIp, receivedAt, limits).Admitted? {
      var row := NewRow(request, clientIp, receivedAt);
      forall ip, lo: int
        ensures InWindow(rows + [row], Some(ip), lo, limits.windowMs) <= AtLeastOne(limits.perIpLimit)
      {
        AddingKeepsBound(rows, row, Some(ip), limits.perIpLimit, limits, lo);
      }
      forall lo: int
        ensures InWindow(rows + [row], None, lo, limits.windowMs) <= AtLeastOne(limits.globalLimit)
      {
        AddingKeepsBound(rows, row, None, limits.globalLimit, limits, lo);
      }
    }
  }

  /** Updates of rows never touch what the limit counts. */
  lemma {:induction false} UpdateKeepsCounts(rows: seq<Row>, id: nat, row: Row, ip: Option<int>, lo: int, hi: int)
    requires id < |rows|
    requires row.receivedAt == rows[id].receivedAt && row.clientIp == rows[id].clientIp
    ensures CountIn(rows[id := row], ip, lo, hi) == CountIn(rows, ip, lo, hi)
  {
    var last := |rows| - 1;
    var updated := rows[id := row];
    if id < last {
      assert updated[..last] == rows[..last][id := row];
      UpdateKeepsCounts(rows[..last], id, row, ip, lo, hi);
    } else {
      assert updated[..last] == rows[..last];
    }
  }

  lemma UpdateKeepsWindows(rows: seq<Row>, id: nat, row: Row, limits: Limits)
    requires WindowsBounded(rows, limits)
    requires id < |rows|
    requires row.receivedAt == rows[id].receivedAt && row.clientIp == rows[id].clientIp
    ensures WindowsBounded(rows[id := row], limits)
  {
    var updated := rows[id := row];
    forall ip, lo: int
      ensures InWindow(updated, Some(ip), lo, limits.windowMs) <= AtLeastOne(limits.perIpLimit)
    {
      UpdateKeepsCounts(rows, id, row, Some(ip), lo, lo + limits.windowMs);
      assert InWindow(rows, Some(ip), lo, limits.windowMs) <= AtLeastOne(limits.perIpLimit);
    }
    forall lo: int
      ensures InWindow(updated, None, lo, limits.windowMs) <= AtLeastOne(limits.globalLimit)
    {
      UpdateKeepsCounts(rows, id, row, None, lo, lo + limits.windowMs);
      assert InWindow(rows, None, lo, limits.windowMs) <= AtLeastOne(limits.globalLimit);
    }
  }

  // ---------- every history of the table ----------

  /** The updates of the store. */
  datatype Update =
    | Submit(signature: Signature, submittedAt: int, lastValidBlockHeight: int)
    | Confirm(found: Option<Signature>, sent: Option<int>, now: int)
    | RecordFees(protocolFee: nat, relayerFee: nat)
    | Reschedule(nextAttemptAt: int)
    | Fail(nextAttemptAt: int, finalFailure: bool, clearSubmission: bool)
    | Expire(now: int)

  function Updated(row: Row, u: Update): Row {
    match u
    case Submit(signature, submittedAt, lastValid) => AsSubmitted(row, signature, submittedAt, lastValid)
    case Confirm(found, sent, now) => AsConfirmed(row, found, sent, now)
    case RecordFees(protocolFee, relayerFee) => WithFees(row, protocolFee, relayerFee)
    case Reschedule(at) => AsRescheduled(row, at)
    case Fail(at, finalFailure, clear) => AsFailed(row, at, finalFailure, clear)
    case Expire(now) => AsExpired(row, now)
  }

  predicate SameArrival(a: Row, b: Row) {
    a.receivedAt == b.receivedAt && a.clientIp == b.clientIp
  }

  /** No update of the store touches when and from where a request arrived. */
  lemma UpdatesKeepArrival(row: Row, u: Update)
    ensures SameArrival(Updated(row, u), row)
  {
  }

  datatype Traffic = Arrival(request: Request, clientIp: int, receivedAt: int) | Change(id: nat, update: Update)

  function AfterTraffic(rows: seq<Row>, traffic: seq<Traffic>, limits: Limits): seq<Row>
    decreases |traffic|
  {
    if traffic == [] then rows
    else
      var next := match traffic[0]
        case Arrival(request, clientIp, receivedAt) => AfterReserve(rows, request, clientIp, receivedAt, limits)
        case Change(id, update) => if id < |rows| then rows[id := Updated(rows[id], update)] else rows;
      AfterTraffic(next, traffic[1..], limits)
  }

  /** The limit over every history of requests and updates. */
  lemma {:induction false} EveryWindowIsBounded(rows: seq<Row>, traffic: seq<Traffic>, limits: Limits)
    requires WindowsBounded(rows, limits)
    ensures WindowsBounded(AfterTraffic(rows, traffic, limits), limits)
    decreases |traffic|
  {
    if traffic != [] {
      match traffic[0]
      case Arrival(request, clientIp, receivedAt) =>
        ReserveKeepsWindows(rows, request, clientIp, receivedAt, limits);
        EveryWindowIsBounded(AfterReserve(rows, request, clientIp, receivedAt, limits), traffic[1..], limits);
      case Change(id, update) =>
        if id < |rows| {
          UpdatesKeepArrival(rows[id], update);
          UpdateKeepsWindows(rows, id, Updated(rows[id], update), limits);
          EveryWindowIsBounded(rows[id := Updated(rows[id], update)], traffic[1..], limits);
        } else {
          EveryWindowIsBounded(rows, traffic[1..], limits);
        }
    }
  }

  lemma EmptyTableIsBounded(limits: Limits)
    ensures WindowsBounded([], limits)
  {
  }

  // ---------- over every run of the relayer ----------

  lemma ResumeKeepsArrival(cfg: Config, now: int, current: Row, record: Row, pc: Pc, ans: Answer)
    requires |cfg.retryBackoffMs| > 0
    ensures SameArrival(Resume(cfg, now, current, record, pc, ans).row, current)
  {
  }

  lemma StepKeepsWindows(cfg: Config, s: Sys, ev: Event)
    requires |cfg.retryBackoffMs| > 0 && WindowsBounded(s.rows, cfg.limits)
    ensures WindowsBounded(Step(cfg, s, ev).rows, cfg.limits)
  {
    if Enabled(cfg, s, ev) {
      match ev
      case ReserveEv(_, request, ip, at) => ReserveKeepsWindows(s.rows, request, ip, at, cfg.limits);
      case ResumeEv(wid, now, ans) =>
        var w := s.workers[wid];
        ResumeKeepsArrival(cfg, now, s.rows[w.id], w.record, w.pc, ans);
        UpdateKeepsWindows(s.rows, w.id, Resume(cfg, now, s.rows[w.id], w.record, w.pc, ans).row, cfg.limits);
      case LoopEv(wid, now) =>
        var id := s.workers[wid].id;
        UpdateKeepsWindows(s.rows, id, Begin(now, s.rows[id], s.rows[id]).row, cfg.limits);
      case BeginEv(wid, now) =>
        var w := s.workers[wid];
        UpdateKeepsWindows(s.rows, w.id, Begin(now, s.rows[w.id], w.record).row, cfg.limits);
      case _ =>
    }
  }

  lemma {:induction false} ExecKeepsWindows(cfg: Config, s: Sys, evs: seq<Event>)
    requires |cfg.retryBackoffMs| > 0 && WindowsBounded(s.rows, cfg.limits)
    ensures WindowsBounded(Exec(cfg, s, evs).rows, cfg.limits)
    decreases |evs|
  {
    if evs != [] {
      StepKeepsWindows(cfg, s, evs[0]);
      ExecKeepsWindows(cfg, Step(cfg, s, evs[0]), evs[1..]);
    }
  }

  /** The limit over every run of the relayer: any handlers, retry managers,
      clocks and crashes. */
  lemma EveryRunIsBounded(cfg: Config, s: Sys, evs: seq<Event>)
    requires |cfg.retryBackoffMs| > 0 && Initial(s)
    ensures WindowsBounded(Exec(cfg, s, evs).rows, cfg.limits)
  {
    EmptyTableIsBounded(cfg.limits);
    ExecKeepsWindows(cfg, s, evs);
  }

  // ---------- the limits themselves ----------

  /** No history lets more rows of one ip, or of all, into a window than configured. */
  ghost predicate KeepsLimits(limits: Limits) {
    forall traffic: seq<Traffic>, ip, lo: int ::
      && InWindow(AfterTraffic([], traffic, limits), Some(ip), lo, limits.windowMs) <= limits.perIpLimit
      && InWindow(AfterTraffic([], traffic, limits), None, lo, limits.windowMs) <= limits.globalLimit
  }

  lemma CountOfOne(row: Row, ip: Option<int>, lo: int, hi: int)
    requires Counts(row, ip) && lo <= row.receivedAt <= hi
    ensures CountIn([row], ip, lo, hi) == 1
  {
    assert [row][..|[row]| - 1] == [];
    assert CountIn([], ip, lo, hi) == 0;
  }

  /** The very first request is admitted under any limits, even 0. */
  lemma FirstRequestIsAdmitted(request: Request, clientIp: int, receivedAt: int, limits: Limits)
    ensures AfterTraffic([], [Arrival(request, clientIp, receivedAt)], limits) == [NewRow(request, clientIp, receivedAt)]
  {
    var traffic := [Arrival(request, clientIp, receivedAt)];
    assert traffic[1..] == [];
    assert AfterReserve([], request, clientIp, receivedAt, limits) == [NewRow(request, clientIp, receivedAt)];
  }

  /** The configured limits hold exactly when neither of them is 0. */
  lemma LimitsKeptIff(limits: Limits, request: Request)
    ensures KeepsLimits(limits) <==> limits.perIpLimit >= 1 && limits.globalLimit >= 1
  {
    FirstRequestIsAdmitted(request, 0, 0, limits);
    CountOfOne(NewRow(request, 0, 0), Some(0), 0, limits.windowMs);
    CountOfOne(NewRow(request, 0, 0), None, 0, limits.windowMs);
    assert InWindow(AfterTraffic([], [Arrival(request, 0, 0)], limits), Some(0), 0, limits.windowMs) == 1;
    assert InWindow(AfterTraffic([], [Arrival(request, 0, 0)], limits), None, 0, limits.windowMs) == 1;
    EmptyTableIsBounded(limits);
    if limits.perIpLimit >= 1 && limits.globalLimit >= 1 {
      forall traffic: seq<Traffic>, ip, lo: int
        ensures InWindow(AfterTraffic([], traffic, limits), Some(ip), lo, limits.windowMs) <= limits.perIpLimit
        ensures InWindow(AfterTraffic([], traffic, limits), None, lo, limits.windowMs) <= limits.globalLimit
      {
        EveryWindowIsBounded([], traffic, limits);
      }
    }
  }

  // ---------- when a request is admitted ----------

  /** A request is admitted exactly when its address has fewer rows in the window
      than its limit, all addresses together have fewer than theirs, and the
      nullifier is new; it is told of a duplicate only within the limits. A refused
      one is told to wait until the oldest row counted has left the window: of its
      own address if that is at its limit, else of all. */
  lemma AdmittedIff(rows: seq<Row>, request: Request, clientIp: int, at: int, limits: Limits)
    ensures var own := CountSince(rows, Some(clientIp), at - limits.windowMs);
            var all := CountSince(rows, None, at - limits.windowMs);
            var room := own < AtLeastOne(limits.perIpLimit) && all < AtLeastOne(limits.globalLimit);
            var r := Reserve(rows, request, clientIp, at, limits);
            && (r.Admitted? <==> room && !HasNullifier(rows, request.nullifierHash))
            && (r.NullifierExists? <==> room && HasNullifier(rows, request.nullifierHash))
            && (r.RateLimited? <==> !room)
            && (r.Admitted? ==> r.id == |rows|)
            && (r.RateLimited? ==>
                  var oldest := OldestSince(rows, if own < AtLeastOne(limits.perIpLimit) then None else Some(clientIp), at - limits.windowMs);
                  && oldest.Some? && r.retryAfter >= 1
                  && (oldest.value + limits.windowMs > at ==> at + r.retryAfter == oldest.value + limits.windowMs)
                  && (oldest.value + limits.windowMs <= at ==> r.retryAfter == 1))
  {
    OldestIffCounted(rows, Some(clientIp), at - limits.windowMs);
    OldestIffCounted(rows, None, at - limits.windowMs);
  }

  /** The oldest row counted is one of those counted, and none is older. */
  lemma {:induction false} OldestIsEarliest(rows: seq<Row>, ip: Option<int>, since: int)
    requires OldestSince(rows, ip, since).Some?
    ensures var oldest := OldestSince(rows, ip, since).value;
            && since <= oldest
            && (exists i :: 0 <= i < |rows| && Counts(rows[i], ip) && rows[i].receivedAt == oldest)
            && forall i :: 0 <= i < |rows| && Counts(rows[i], ip) && since <= rows[i].receivedAt ==> oldest <= rows[i].receivedAt
  {
    var last := |rows| - 1;
    var before := rows[..last];
    OldestOfNone(before, ip, since);
    if OldestSince(before, ip, since).Some? {
      OldestIsEarliest(before, ip, since);
      var i :| 0 <= i < |before| && Counts(before[i], ip) && before[i].receivedAt == OldestSince(before, ip, since).value;
      assert rows[i] == before[i];
    }
    forall i | 0 <= i < |rows| && Counts(rows[i], ip) && since <= rows[i].receivedAt
      ensures OldestSince(rows, ip, since).value <= rows[i].receivedAt
    {
      if i < last {
        assert before[i] == rows[i];
      }
    }
    assert (Counts(rows[last], ip) && since <= rows[last].receivedAt) || OldestSince(rows, ip, since) == OldestSince(before, ip, since);
  }

  lemma {:induction false} OldestOfNone(rows: seq<Row>, ip: Option<int>, since: int)
    ensures OldestSince(rows, ip, since).None? ==>
              forall i :: 0 <= i < |rows| ==> !(Counts(rows[i], ip) && since <= rows[i].receivedAt)
  {
    if rows != [] {
      OldestOfNone(rows[..|rows| - 1], ip, since);
      assert forall i :: 0 <= i < |rows| - 1 ==> rows[i] == rows[..|rows| - 1][i];
    }
  }

  // ---------- retryAfter ----------

  lemma {:induction false} SinceIsWindow(rows: seq<Row>, ip: Option<int>, since: int, hi: int)
    requires forall i :: 0 <= i < |rows| ==> rows[i].receivedAt <= hi
    ensures CountSince(rows, ip, since) == CountIn(rows, ip, since, hi)
  {
    if rows != [] {
      SinceIsWindow(rows[..|rows| - 1], ip, since, hi);
    }
  }

  /** Moving the start past the oldest counted row drops that row. */
  lemma {:induction false} OldestDropsOut(rows: seq<Row>, ip: Option<int>, since: int, later: int)
    requires since <= later
    ensures CountSince(rows, ip, later) <= CountSince(rows, ip, since)
    ensures OldestSince(rows, ip, since).Some? && OldestSince(rows, ip, since).value < later ==>
              CountSince(rows, ip, later) < CountSince(rows, ip, since)
  {
    if rows != [] {
      OldestDropsOut(rows[..|rows| - 1], ip, since, later);
    }
  }

  /** Until the oldest counted row leaves the window, the count stays. */
  lemma {:induction false} CountStaysUntilOldest(rows: seq<Row>, ip: Option<int>, since: int, later: int)
    requires since <= later
    requires OldestSince(rows, ip, since).Some? ==> later <= OldestSince(rows, ip, since).value
    ensures CountSince(rows, ip, later) == CountSince(rows, ip, since)
    ensures OldestSince(rows, ip, later) == OldestSince(rows, ip, since)
  {
    if rows != [] {
      CountStaysUntilOldest(rows[..|rows| - 1], ip, since, later);
    }
  }

  /** A refused caller stays refused exactly until the oldest row counted has left
      the window, if nothing is admitted in between; for one address or for all. */
  lemma RefusedUntil(rows: seq<Row>, ip: Option<int>, limit: nat, now: int, later: int, limits: Limits)
    requires InWindow(rows, ip, now - limits.windowMs, limits.windowMs) <= limit
    requires forall i :: 0 <= i < |rows| ==> rows[i].receivedAt <= now
    requires now <= later && LimitCheck(rows, ip, limit, limits, now).Some?
    ensures LimitCheck(rows, ip, limit, limits, later).Some?
       <==> later <= OldestSince(rows, ip, now - limits.windowMs).value + limits.windowMs
  {
    var since := now - limits.windowMs;
    SinceIsWindow(rows, ip, since, now);
    if later - limits.windowMs <= OldestSince(rows, ip, since).value {
      CountStaysUntilOldest(rows, ip, since, later - limits.windowMs);
    } else {
      OldestDropsOut(rows, ip, since, later - limits.windowMs);
    }
  }

  /** retryAfter asks for no more than is needed: a caller who comes back sooner
      is refused again. */
  lemma RetryAfterIsNeeded(rows: seq<Row>, ip: Option<int>, limit: nat, now: int, later: int, limits: Limits)
    requires var refused := LimitCheck(rows, ip, limit, limits, now);
             refused.Some? && now <= later < now + refused.value
    ensures LimitCheck(rows, ip, limit, limits, later).Some?
  {
    OldestIsEarliest(rows, ip, now - limits.windowMs);
    CountStaysUntilOldest(rows, ip, now - limits.windowMs, later - limits.windowMs);
  }

  /** On a clock that has not run backwards, a caller refused for its ip who
      waits longer than retryAfter passes that check, if nothing was admitted
      in between. */
  lemma RetryAfterSuffices(rows: seq<Row>, clientIp: int, now: int, later: int, limits: Limits)
    requires WindowsBounded(rows, limits) && limits.perIpLimit >= 1
    requires forall i :: 0 <= i < |rows| ==> rows[i].receivedAt <= now
    requires var refused := LimitCheck(rows, Some(clientIp), limits.perIpLimit, limits, now);
             refused.Some? && later > now + refused.value
    ensures LimitCheck(rows, Some(clientIp), limits.perIpLimit, limits, later).None?
  {
    var since := now - limits.windowMs;
    SinceIsWindow(rows, Some(clientIp), since, now);
    assert InWindow(rows, Some(clientIp), since, limits.windowMs) <= limits.perIpLimit;
    OldestDropsOut(rows, Some(clientIp), since, later - limits.windowMs);
  }
}
