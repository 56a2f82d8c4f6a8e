/** The relay's tables and the statements that change them.

    Each statement is a function on the tables; the store object applies it to its
    own tables. Text produced by `json.dumps` is carried as text. */
module RelayStore {
  import opened Wrappers
  import opened RelayTime

  // ---- rows ----

  datatype TunnelRow = TunnelRow(
    deviceId: string, localBase: string, apiKey: string, publicKey: string,
    createdAt: string, expiresAt: string, requestCount: nat, deletedAt: Option<string>)

  datatype RequestRow = RequestRow(
    tunnelId: string, verb: string, path: string, headers: string, body: SqlValue,
    createdAt: string, responded: bool)

  datatype ResponseRow = ResponseRow(requestId: string, status: int, body: SqlValue, createdAt: string)

  datatype SqlValue = Null | Text(text: string)

  datatype Db = Db(
    tunnels: map<string, TunnelRow>, requests: map<string, RequestRow>, responses: map<string, ResponseRow>)

  /** What sqlite3 raises: a wrong number of bound values, NULL in a NOT NULL column, a taken key. */
  datatype SqlError = BindingCount(expected: nat, given: nat) | NotNull | Taken

  /** A registration fails on a taken id or on an expiry Python cannot represent. */
  datatype RegisterError = IdTaken | Overflow

  // ---- tunnels ----

  predicate Live(row: TunnelRow, now: string) {
    row.deletedAt.None? && Before(now, row.expiresAt)
  }

  function GetTunnel(db: Db, tid: string, now: string): Option<TunnelRow> {
    if tid in db.tunnels && Live(db.tunnels[tid], now) then Some(db.tunnels[tid]) else None
  }

  predicate Expired(row: TunnelRow, now: string) {
    row.deletedAt.None? && Before(row.expiresAt, now)
  }

  function Register(db: Db, tid: string, row: TunnelRow): Result<Db, SqlError> {
    if tid in db.tunnels then Err(Taken) else Ok(db.(tunnels := db.tunnels[tid := row]))
  }

  function Delete(db: Db, tid: string, now: string): Db {
    if tid in db.tunnels
    then db.(tunnels := db.tunnels[tid := db.tunnels[tid].(deletedAt := Some(now))])
    else db
  }

  /** A row after the clean-up statement. */
  function Cleaned(row: TunnelRow, now: string): TunnelRow {
    if Expired(row, now) then row.(deletedAt := Some(now)) else row
  }

  function ExpiredIds(db: Db, now: string): set<string> {
    set tid | tid in db.tunnels && Expired(db.tunnels[tid], now)
  }

  function Cleanup(db: Db, now: string): Db {
    db.(tunnels := map tid | tid in db.tunnels :: Cleaned(db.tunnels[tid], now))
  }

  // ---- requests ----

  const REQUEST_COLUMNS := ["id", "tunnel_id", "method", "path", "headers", "body", "created_at"]

  /** The first of the seven columns gets a generated id, which is never NULL. */
  predicate IdGiven(values: seq<SqlValue>) {
    |values| == 7 ==> values[0].Text?
  }

  /** `INSERT INTO tunnel_requests` over the seven listed columns with the given bound values. */
  function InsertRequest(db: Db, values: seq<SqlValue>): Result<Db, SqlError>
    requires IdGiven(values)
  {
    if |values| != 7 then Err(BindingCount(7, |values|))
    else if exists k :: 1 <= k < 7 && k != 5 && values[k].Null? then Err(NotNull)
    else if values[0].text in db.requests then Err(Taken)
    else Ok(db.(requests := db.requests[values[0].text := RequestRow(
      values[1].text, values[2].text, values[3].text, values[4].text, values[5], values[6].text, false)]))
  }

  function CountRequest(db: Db, tid: string): Db {
    if tid in db.tunnels
    then db.(tunnels := db.tunnels[tid := db.tunnels[tid].(requestCount := db.tunnels[tid].requestCount + 1)])
    else db
  }

  /** Insert and count in one transaction: a failed insert leaves both tables alone. */
  function Enqueue(db: Db, tid: string, values: seq<SqlValue>): Result<Db, SqlError>
    requires IdGiven(values)
  {
    match InsertRequest(db, values)
    case Err(e) => Err(e)
    case Ok(inserted) => Ok(CountRequest(inserted, tid))
  }

  /** The tuple `enqueue_request` binds: the path is missing from it. */
  function ShippedValues(rid: string, tid: string, verb: string, path: string, headers: string, body: SqlValue, now: string)
    : seq<SqlValue>
  {
    [Text(rid), Text(tid), Text(verb), Text(headers), body, Text(now)]
  }

  /** The tuple the column list calls for. */
  function ListedValues(rid: string, tid: string, verb: string, path: string, headers: string, body: SqlValue, now: string)
    : seq<SqlValue>
  {
    [Text(rid), Text(tid), Text(verb), Text(path), Text(headers), body, Text(now)]
  }

  // ---- the pending queue ----

  function Pending(db: Db, tid: string): set<string> {
    set r | r in db.requests && db.requests[r].tunnelId == tid && !db.requests[r].responded
  }

  /** How many rows `LIMIT limit` lets through; a negative limit is no limit. */
  function Limited(limit: int, n: nat): nat {
    if limit < 0 || n <= limit then n else limit
  }

  /** Request a is stamped no later than request b. */
  ghost predicate NoLater(db: Db, a: string, b: string) {
    a in db.requests && b in db.requests && !Before(db.requests[b].createdAt, db.requests[a].createdAt)
  }

  /** What the polling query may answer: as many pending requests as the limit allows, earliest stamps
      first; among equal stamps SQLite promises no order. */
  ghost predicate QueryAnswer(db: Db, tid: string, limit: int, rows: seq<string>) {
    |rows| == Limited(limit, |Pending(db, tid)|) &&
    (forall r :: r in rows ==> r in Pending(db, tid)) &&
    (forall i, j :: 0 <= i < j < |rows| ==> rows[i] != rows[j]) &&
    (forall i, j :: 0 <= i < j < |rows| ==> NoLater(db, rows[i], rows[j])) &&
    (forall r, p :: r in rows && p in Pending(db, tid) && p !in rows ==> NoLater(db, r, p))
  }

  // ---- responses ----

  function MarkResponded(db: Db, rid: string): Db {
    if rid in db.requests
    then db.(requests := db.requests[rid := db.requests[rid].(responded := true)])
    else db
  }

  /** `INSERT OR REPLACE`: rows that collide on the response id or on the unique request id go first. */
  function SaveResponse(db: Db, pid: string, row: ResponseRow): Db {
    var others := map p | p in db.responses && p != pid && db.responses[p].requestId != row.requestId :: db.responses[p];
    MarkResponded(db.(responses := others[pid := row]), row.requestId)
  }

  function Answers(db: Db, rid: string): set<string> {
    set p | p in db.responses && db.responses[p].requestId == rid
  }

  // ---- the store object ----

  datatype ProxyRequest = ProxyRequest(
    id: string, verb: string, path: string, headers: string, body: SqlValue, createdAt: string)

  function AsProxyRequest(db: Db, rid: string): ProxyRequest
    requires rid in db.requests
  {
    var row := db.requests[rid];
    ProxyRequest(rid, row.verb, row.path, if row.headers == "" then "{}" else row.headers,
                 if row.body == Text("") then Null else row.body, row.createdAt)
  }

  class RelayStore {
    var tunnels: map<string, TunnelRow>
    var requests: map<string, RequestRow>
    var responses: map<string, ResponseRow>

    function State(): Db
      reads this
    {
      Db(tunnels, requests, responses)
    }

    constructor ()
      ensures State() == Db(map[], map[], map[])
    {
      tunnels, requests, responses := map[], map[], map[];
    }

    method RegisterTunnel(tid: string, localBase: string, apiKey: string, deviceId: string, publicKey: string,
                          ttlHours: int, now: DateTime)
      returns (r: Result<TunnelRow, RegisterError>)
      requires Valid(now) && Instant(now) + ttlHours * 3600 >= 0
      modifies this
      ensures r == Err(Overflow) <==> PastTheEnd(Instant(now) + ttlHours * 3600)
      ensures r.Ok? ==> Expiry(now, ttlHours).Some? && Register(old(State()), tid, r.value) == Ok(State()) &&
                        r.value == TunnelRow(deviceId, localBase, apiKey, publicKey, Stamp(now),
                                             Stamp(Expiry(now, ttlHours).value), 0, None)
      ensures r == Err(IdTaken) ==> tid in old(tunnels)
      ensures r.Err? ==> State() == old(State())
    {
      var expires := Expiry(now, ttlHours);
      if expires.None? {
        return Err(Overflow);
      }
      if tid in tunnels {
        return Err(IdTaken);
      }
      var row := TunnelRow(deviceId, localBase, apiKey, publicKey, Stamp(now), Stamp(expires.value), 0, None);
      tunnels := tunnels[tid := row];
      r := Ok(row);
    }

    method DeleteTunnel(tid: string, now: DateTime)
      modifies this`tunnels
      ensures State() == Delete(old(State()), tid, Stamp(now))
    {
      if tid in tunnels {
        tunnels := tunnels[tid := tunnels[tid].(deletedAt := Some(Stamp(now)))];
      }
    }

    method CleanupExpired(now: DateTime) returns (deleted: nat)
      modifies this`tunnels
      ensures State() == Cleanup(old(State()), Stamp(now))
      ensures deleted == |ExpiredIds(old(State()), Stamp(now))|
    {
      var stamp := Stamp(now);
      deleted := |set tid | tid in tunnels && Expired(tunnels[tid], stamp)|;
      tunnels := map tid | tid in tunnels :: Cleaned(tunnels[tid], stamp);
    }

    /** As shipped: the insert binds six values to seven columns, so it raises and nothing changes. */
    method EnqueueRequest(rid: string, tid: string, verb: string, path: string, headers: string, body: SqlValue, now: DateTime)
      returns (r: Result<string, SqlError>)
      modifies this
      ensures r == Err(BindingCount(7, 6))
      ensures State() == old(State())
    {
      var values := [Text(rid), Text(tid), Text(verb), Text(headers), body, Text(Stamp(now))];
      r := ExecuteEnqueue(rid, tid, values);
    }

    method ExecuteEnqueue(rid: string, tid: string, values: seq<SqlValue>) returns (r: Result<string, SqlError>)
      requires IdGiven(values)
      modifies this
      ensures match Enqueue(old(State()), tid, values)
              case Ok(db) => State() == db && r == Ok(rid)
              case Err(e) => State() == old(State()) && r == Err(e)
    {
      match InsertRequest(State(), values) {
        case Err(e) => return Err(e);
        case Ok(db) =>
          requests := db.requests;
          if tid in tunnels {
            tunnels := tunnels[tid := tunnels[tid].(requestCount := tunnels[tid].requestCount + 1)];
          }
          return Ok(rid);
      }
    }

    /** The loop turns the rows of the query, in order, into what the client is handed. */
    method PollRequests(tid: string, limit: int, rows: seq<string>) returns (results: seq<ProxyRequest>)
      requires QueryAnswer(State(), tid, limit, rows)
      ensures |results| == |rows|
      ensures forall k :: 0 <= k < |rows| ==> rows[k] in requests && results[k] == AsProxyRequest(State(), rows[k])
    {
      results := [];
      for k := 0 to |rows|
        invariant |results| == k
        invariant forall j :: 0 <= j < k ==> rows[j] in requests && results[j] == AsProxyRequest(State(), rows[j])
      {
        assert rows[k] in Pending(State(), tid);
        var row := requests[rows[k]];
        results := results + [ProxyRequest(
          rows[k], row.verb, row.path, if row.headers == "" then "{}" else row.headers,
          if row.body == Text("") then Null else row.body, row.createdAt)];
      }
    }

    method SaveResponseRow(pid: string, rid: string, status: int, body: SqlValue, now: DateTime)
      modifies this
      ensures State() == SaveResponse(old(State()), pid, ResponseRow(rid, status, body, Stamp(now)))
    {
      var others := map p | p in responses && p != pid && responses[p].requestId != rid :: responses[p];
      responses := others[pid := ResponseRow(rid, status, body, Stamp(now))];
      if rid in requests {
        requests := requests[rid := requests[rid].(responded := true)];
      }
    }
  }

  // ---- the send that never stores ----

  /** With its generated id, a tuple is stored exactly when it fills all seven columns, leaves none but the
      body NULL and its id is new. */
  lemma StoredIffListed(db: Db, tid: string, values: seq<SqlValue>)
    requires IdGiven(values)
    ensures Enqueue(db, tid, values).Ok? <==>
            |values| == |REQUEST_COLUMNS| && (forall k :: 0 <= k < 7 && k != 5 ==> values[k].Text?) &&
            values[0].text !in db.requests
  {
    assert |REQUEST_COLUMNS| == 7;
  }

  /** The shipped tuple is one short of the listed one, the path; so no send is ever stored. */
  lemma ShippedSendFails(db: Db, rid: string, tid: string, verb: string, path: string, headers: string, body: SqlValue, now: string)
    ensures var listed := ListedValues(rid, tid, verb, path, headers, body, now);
            ShippedValues(rid, tid, verb, path, headers, body, now) == listed[..3] + listed[4..] &&
            (rid !in db.requests ==> Enqueue(db, tid, listed).Ok?)
    ensures Enqueue(db, tid, ShippedValues(rid, tid, verb, path, headers, body, now)) == Err(BindingCount(7, 6))
  {
    var listed := ListedValues(rid, tid, verb, path, headers, body, now);
    assert forall k :: 0 <= k < 7 && k != 5 ==> listed[k].Text?;
    StoredIffListed(db, tid, listed);
  }

  /** What a complete tuple stores is what a poll hands out, field for field. */
  lemma SentIsPolled(db: Db, rid: string, tid: string, verb: string, path: string, headers: string, body: SqlValue, now: string)
    requires rid !in db.requests
    ensures var sent := Enqueue(db, tid, ListedValues(rid, tid, verb, path, headers, body, now));
            sent.Ok? && rid in Pending(sent.value, tid) && rid !in Pending(db, tid) &&
            AsProxyRequest(sent.value, rid) ==
              ProxyRequest(rid, verb, path, if headers == "" then "{}" else headers,
                           if body == Text("") then Null else body, now)
  {
    var listed := ListedValues(rid, tid, verb, path, headers, body, now);
    assert forall k :: 0 <= k < 7 && k != 5 ==> listed[k].Text?;
    StoredIffListed(db, tid, listed);
  }

  // ---- the polling query always has an answer ----

  lemma {:induction false} EarliestExists(db: Db, ids: set<string>) returns (first: string)
    requires ids != {} && ids <= db.requests.Keys
    ensures first in ids && forall r :: r in ids ==> NoLater(db, first, r)
    decreases |ids|
  {
    var one :| one in ids;
    BeforeIsIrreflexive(db.requests[one].createdAt);
    first := one;
    var rest := ids - {one};
    assert forall r :: r in ids ==> r == one || r in rest;
    if rest != {} {
      var other := EarliestExists(db, rest);
      if Before(db.requests[other].createdAt, db.requests[one].createdAt) {
        NotBeforeBack(db.requests[other].createdAt, db.requests[one].createdAt);
        first := other;
      } else {
        forall r | r in rest ensures NoLater(db, one, r) {
          NotBeforeIsTransitive(db.requests[one].createdAt, db.requests[other].createdAt, db.requests[r].createdAt);
        }
      }
    }
  }

  lemma NotBeforeBack(a: string, b: string)
    requires Before(a, b)
    ensures !Before(b, a)
  {
    BeforeIsIrreflexive(a);
    if Before(b, a) {
      BeforeIsTransitive(a, b, a);
    }
  }

  /** n earliest of a set of requests, in order. */
  lemma {:induction false} EarliestInOrder(db: Db, ids: set<string>, n: nat) returns (rows: seq<string>)
    requires n <= |ids| && ids <= db.requests.Keys
    ensures |rows| == n && forall r :: r in rows ==> r in ids
    ensures forall i, j :: 0 <= i < j < n ==> rows[i] != rows[j]
    ensures forall i, j :: 0 <= i < j < n ==> NoLater(db, rows[i], rows[j])
    ensures forall r, p :: r in rows && p in ids && p !in rows ==> NoLater(db, r, p)
    decreases n
  {
    if n == 0 {
      rows := [];
    } else {
      var first := EarliestExists(db, ids);
      var rest := EarliestInOrder(db, ids - {first}, n - 1);
      rows := [first] + rest;
    }
  }

  lemma QueryHasAnswer(db: Db, tid: string, limit: int)
    ensures exists rows :: QueryAnswer(db, tid, limit, rows)
  {
    var rows := EarliestInOrder(db, Pending(db, tid), Limited(limit, |Pending(db, tid)|));
    assert QueryAnswer(db, tid, limit, rows);
  }
}
