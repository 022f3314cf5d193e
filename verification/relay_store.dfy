/** The relayer's table of requests: row updates, and reservations under the
    rate limit. Rows are never deleted; a row's id is its position. */
module RelayStores {
  import opened Outcomes
  import opened FieldTerms

  datatype Status = Pending | Submitted | Confirmed | Failed | Expired

  /** A signed transaction of the relayer. Signing is deterministic, so its
      content stands for its signature. */
  datatype Tx = Tx(nullifierHash: Field, recipient: nat, fee: nat, blockhash: int, lastValidBlockHeight: int)

  /** A signature found in the table: one of the relayer's transactions, or one
      that a lookup on chain returned. */
  datatype Signature = Own(tx: Tx) | Found(n: int)

  /** The stored request. `usable` is false when the payload is missing or no
      longer validates. */
  datatype Request = Request(nullifierHash: Field, recipient: nat, fee: nat, usable: bool)

  datatype Row = Row(
    receivedAt: int,
    clientIp: int,
    request: Request,
    status: Status,
    signature: Option<Signature>,
    submittedAt: Option<int>,
    lastValidBlockHeight: Option<int>,
    retries: nat,
    nextAttemptAt: int,
    protocolFee: nat,
    relayerFee: nat)

  function NewRow(request: Request, clientIp: int, receivedAt: int): Row {
    Row(receivedAt, clientIp, request, Pending, None, None, None, 0, receivedAt, 0, 0)
  }

  // ---------- the updates, none of which looks at the current status ----------

  function AsSubmitted(row: Row, signature: Signature, submittedAt: int, lastValidBlockHeight: int): Row {
    row.(status := Submitted,
         signature := Some(signature),
         submittedAt := Some(submittedAt),
         lastValidBlockHeight := Some(lastValidBlockHeight),
         nextAttemptAt := submittedAt)
  }

  function AsConfirmed(row: Row, signature: Option<Signature>, submittedAt: Option<int>, now: int): Row {
    row.(status := Confirmed,
         signature := if signature.None? then row.signature else signature,
         submittedAt := if submittedAt.None? then row.submittedAt else submittedAt,
         nextAttemptAt := now)
  }

  function WithFees(row: Row, protocolFee: nat, relayerFee: nat): Row {
    row.(protocolFee := protocolFee, relayerFee := relayerFee)
  }

  function AsRescheduled(row: Row, nextAttemptAt: int): Row {
    row.(status := Submitted, nextAttemptAt := nextAttemptAt)
  }

  function AsFailed(row: Row, nextAttemptAt: int, finalFailure: bool, clearSubmission: bool): Row {
    row.(status := if finalFailure then Failed else Pending,
         signature := if clearSubmission then None else row.signature,
         submittedAt := if clearSubmission then None else row.submittedAt,
         lastValidBlockHeight := if clearSubmission then None else row.lastValidBlockHeight,
         retries := row.retries + 1,
         nextAttemptAt := nextAttemptAt)
  }

  function AsExpired(row: Row, now: int): Row {
    row.(status := Expired, nextAttemptAt := now)
  }

  // ---------- reservations ----------

  datatype Limits = Limits(globalLimit: nat, perIpLimit: nat, windowMs: nat)

  datatype Reservation =
    | Admitted(id: nat)
    | RateLimited(retryAfter: int)
    | NullifierExists

  predicate Counts(row: Row, ip: Option<int>) {
    ip.None? || ip.value == row.clientIp
  }

  /** Rows of an ip, or of all, received in the closed interval [lo, hi]. */
  function CountIn(rows: seq<Row>, ip: Option<int>, lo: int, hi: int): nat {
    if rows == [] then 0
    else
      var last := |rows| - 1;
      CountIn(rows[..last], ip, lo, hi)
      + (if Counts(rows[last], ip) && lo <= rows[last].receivedAt <= hi then 1 else 0)
  }

  /** Rows received at `since` or later, whatever the clock says now. */
  function CountSince(rows: seq<Row>, ip: Option<int>, since: int): nat {
    if rows == [] then 0
    else
      var last := |rows| - 1;
      CountSince(rows[..last], ip, since)
      + (if Counts(rows[last], ip) && since <= rows[last].receivedAt then 1 else 0)
  }

  function OldestSince(rows: seq<Row>, ip: Option<int>, since: int): Option<int> {
    if rows == [] then None
    else
      var last := rows[|rows| - 1];
      var before := OldestSince(rows[..|rows| - 1], ip, since);
      if !(Counts(last, ip) && since <= last.receivedAt) then before
      else if before.None? || last.receivedAt < before.value then Some(last.receivedAt)
      else before
  }

  function RetryAfter(limits: Limits, now: int, oldest: int): int {
    if limits.windowMs - (now - oldest) < 1 then 1 else limits.windowMs - (now - oldest)
  }

  /** The limit check for one ip, or for all. */
  function LimitCheck(rows: seq<Row>, ip: Option<int>, limit: nat, limits: Limits, now: int): Option<int> {
    var since := now - limits.windowMs;
    var oldest := OldestSince(rows, ip, since);
    if CountSince(rows, ip, since) >= limit && oldest.Some? then Some(RetryAfter(limits, now, oldest.value))
    else None
  }

  predicate HasNullifier(rows: seq<Row>, nullifierHash: Field) {
    exists i :: 0 <= i < |rows| && rows[i].request.nullifierHash == nullifierHash
  }

  function Reserve(rows: seq<Row>, request: Request, clientIp: int, receivedAt: int, limits: Limits): Reservation {
    var perIp := LimitCheck(rows, Some(clientIp), limits.perIpLimit, limits, receivedAt);
    var global := LimitCheck(rows, None, limits.globalLimit, limits, receivedAt);
    if perIp.Some? then RateLimited(perIp.value)
    else if global.Some? then RateLimited(global.value)
    else if HasNullifier(rows, request.nullifierHash) then NullifierExists
    else Admitted(|rows|)
  }

  function AfterReserve(rows: seq<Row>, request: Request, clientIp: int, receivedAt: int, limits: Limits): seq<Row> {
    if Reserve(rows, request, clientIp, receivedAt, limits).Admitted? then rows + [NewRow(request, clientIp, receivedAt)]
    else rows
  }

  /** One request per nullifier. */
  ghost predicate UniqueNullifiers(rows: seq<Row>) {
    forall i, j :: 0 <= i < j < |rows| ==> rows[i].request.nullifierHash != rows[j].request.nullifierHash
  }

  class RelayStore {
    var rows: seq<Row>

    constructor ()
      ensures rows == []
    {
      rows := [];
    }

    method ReservePending(request: Request, clientIp: int, receivedAt: int, limits: Limits) returns (r: Reservation)
      modifies this
      ensures r == Reserve(old(rows), request, clientIp, receivedAt, limits)
      ensures rows == AfterReserve(old(rows), request, clientIp, receivedAt, limits)
    {
      var perIp := LimitCheck(rows, Some(clientIp), limits.perIpLimit, limits, receivedAt);
      if perIp.Some? {
        return RateLimited(perIp.value);
      }
      var global := LimitCheck(rows, None, limits.globalLimit, limits, receivedAt);
      if global.Some? {
        return RateLimited(global.value);
      }
      if HasNullifier(rows, request.nullifierHash) {
        return NullifierExists;
      }
      r := Admitted(|rows|);
      rows := rows + [NewRow(request, clientIp, receivedAt)];
    }

    method Update(id: nat, row: Row)
      requires id < |rows|
      modifies this
      ensures rows == old(rows)[id := row]
    {
      rows := rows[id := row];
    }

    method MarkSubmitted(id: nat, signature: Signature, submittedAt: int, lastValidBlockHeight: int)
      modifies this
      ensures rows == if id < |old(rows)| then old(rows)[id := AsSubmitted(old(rows)[id], signature, submittedAt, lastValidBlockHeight)] else old(rows)
    {
      if id < |rows| {
        Update(id, AsSubmitted(rows[id], signature, submittedAt, lastValidBlockHeight));
      }
    }

    method MarkConfirmed(id: nat, signature: Option<Signature>, submittedAt: Option<int>, now: int)
      modifies this
      ensures rows == if id < |old(rows)| then old(rows)[id := AsConfirmed(old(rows)[id], signature, submittedAt, now)] else old(rows)
    {
      if id < |rows| {
        Update(id, AsConfirmed(rows[id], signature, submittedAt, now));
      }
    }

    method RecordFeeBreakdown(id: nat, protocolFee: nat, relayerFee: nat)
      modifies this
      ensures rows == if id < |old(rows)| then old(rows)[id := WithFees(old(rows)[id], protocolFee, relayerFee)] else old(rows)
    {
      if id < |rows| {
        Update(id, WithFees(rows[id], protocolFee, relayerFee));
      }
    }

    method RescheduleSubmitted(id: nat, nextAttemptAt: int)
      modifies this
      ensures rows == if id < |old(rows)| then old(rows)[id := AsRescheduled(old(rows)[id], nextAttemptAt)] else old(rows)
    {
      if id < |rows| {
        Update(id, AsRescheduled(rows[id], nextAttemptAt));
      }
    }

    method MarkFailed(id: nat, nextAttemptAt: int, finalFailure: bool, clearSubmission: bool)
      modifies this
      ensures rows == if id < |old(rows)| then old(rows)[id := AsFailed(old(rows)[id], nextAttemptAt, finalFailure, clearSubmission)] else old(rows)
    {
      if id < |rows| {
        Update(id, AsFailed(rows[id], nextAttemptAt, finalFailure, clearSubmission));
      }
    }

    method MarkExpired(id: nat, now: int)
      modifies this
      ensures rows == if id < |old(rows)| then old(rows)[id := AsExpired(old(rows)[id], now)] else old(rows)
    {
      if id < |rows| {
        Update(id, AsExpired(rows[id], now));
      }
    }
  }
}
