/** Runs of the relay: what the endpoints can do to the tables, in any order and over any time.

    A send may bind any tuple of values, of any length, so that every result holds both of
    the endpoint as shipped and of one whose tuple fills the column list. */
module RelayRuns {
  import opened Wrappers
  import opened RelayTime
  import opened RelayStore

  datatype World = World(db: Db, now: Moment)

  datatype Event =
    | Registered(tid: string, row: TunnelRow)
    | Sent(tid: string, values: seq<SqlValue>)
    | Polled(tid: string, limit: int, batch: seq<string>)
    | Responded(tid: string, pid: string, rid: string, status: int, body: SqlValue)
    | Deleted(tid: string)
    | CleanedUp
    | Ticked

  const TTL_HOURS := 24

  ghost predicate IsLive(w: World, tid: string) {
    GetTunnel(w.db, tid, Stamp(w.now)).Some?
  }

  /** A generated request id is new to the requests and to every stored response. */
  predicate FreshRequestId(db: Db, rid: string) {
    rid !in db.requests && forall p :: p in db.responses ==> db.responses[p].requestId != rid
  }

  /** A tuple that fills the columns names a fresh id, its own tunnel and the present time. */
  ghost predicate Bindable(w: World, tid: string, values: seq<SqlValue>) {
    |values| == 7 ==>
      values[0].Text? && FreshRequestId(w.db, values[0].text) && values[1] == Text(tid) && values[6] == Text(Stamp(w.now))
  }

  /** The tables after an endpoint has handled its event; a dead tunnel is answered 404. */
  ghost predicate Handled(w: World, e: Event, db: Db) {
    match e
    case Registered(tid, row) =>
      tid !in w.db.tunnels && row.requestCount == 0 && row.deletedAt.None? &&
      Expiry(w.now, TTL_HOURS).Some? && row.expiresAt == Stamp(Expiry(w.now, TTL_HOURS).value) &&
      Register(w.db, tid, row) == Ok(db)
    case Sent(tid, values) =>
      Bindable(w, tid, values) &&
      db == (if IsLive(w, tid) && Enqueue(w.db, tid, values).Ok? then Enqueue(w.db, tid, values).value else w.db)
    case Polled(tid, limit, batch) =>
      IsLive(w, tid) && QueryAnswer(w.db, tid, limit, batch) && db == w.db
    case Responded(tid, pid, rid, status, body) =>
      pid !in w.db.responses &&
      db == (if IsLive(w, tid) then SaveResponse(w.db, pid, ResponseRow(rid, status, body, Stamp(w.now))) else w.db)
    case Deleted(tid) => db == Delete(w.db, tid, Stamp(w.now))
    case CleanedUp => db == Cleanup(w.db, Stamp(w.now))
    case Ticked => db == w.db
  }

  /** One step: the clock stands still while an endpoint works, and never runs back. */
  ghost predicate Step(w: World, e: Event, w': World) {
    Handled(w, e, w'.db) &&
    (if e.Ticked? then Instant(w.now) <= Instant(w'.now) else w'.now == w.now)
  }

  ghost predicate Run(ws: seq<World>, es: seq<Event>) {
    |ws| == |es| + 1 && forall i :: 0 <= i < |es| ==> Step(ws[i], es[i], ws[i + 1])
  }

  // ---- the invariant ----

  function RequestsOf(db: Db, tid: string): set<string> {
    set r | r in db.requests && db.requests[r].tunnelId == tid
  }

  ghost predicate CountsMatch(db: Db) {
    (forall r :: r in db.requests ==> db.requests[r].tunnelId in db.tunnels) &&
    (forall tid :: tid in db.tunnels ==> db.tunnels[tid].requestCount == |RequestsOf(db, tid)|)
  }

  /** The unique constraint on request ids of responses. */
  ghost predicate OneAnswerEach(db: Db) {
    forall p, q :: (p in db.responses && q in db.responses &&
                    db.responses[p].requestId == db.responses[q].requestId) ==> p == q
  }

  ghost predicate Answered(db: Db, rid: string) {
    exists p :: p in db.responses && db.responses[p].requestId == rid
  }

  ghost predicate RespondedIffAnswered(db: Db) {
    forall r :: r in db.requests ==> (db.requests[r].responded <==> Answered(db, r))
  }

  ghost predicate Inv(db: Db) {
    CountsMatch(db) && OneAnswerEach(db) && RespondedIffAnswered(db)
  }

  lemma EmptyDbIsInv()
    ensures Inv(Db(map[], map[], map[]))
  {
  }

  lemma RequestsAfterSend(db: Db, tid: string, values: seq<SqlValue>, t: string)
    requires IdGiven(values) && Enqueue(db, tid, values).Ok? && values[1] == Text(tid)
    ensures var after := Enqueue(db, tid, values).value;
            |RequestsOf(after, t)| == |RequestsOf(db, t)| + (if t == tid then 1 else 0)
  {
    var after, rid := Enqueue(db, tid, values).value, values[0].text;
    assert after.requests == db.requests[rid := after.requests[rid]] && after.requests[rid].tunnelId == tid;
    InsertedIsCounted(db, after, rid, t);
  }

  lemma InsertedIsCounted(db: Db, after: Db, rid: string, t: string)
    requires rid !in db.requests && rid in after.requests && after.requests == db.requests[rid := after.requests[rid]]
    ensures |RequestsOf(after, t)| == |RequestsOf(db, t)| + (if t == after.requests[rid].tunnelId then 1 else 0)
  {
    assert RequestsOf(after, t) == RequestsOf(db, t) + (if t == after.requests[rid].tunnelId then {rid} else {});
  }

  lemma EnqueueKeepsCounts(db: Db, tid: string, values: seq<SqlValue>)
    requires IdGiven(values) && CountsMatch(db) && tid in db.tunnels && Enqueue(db, tid, values).Ok? && values[1] == Text(tid)
    ensures CountsMatch(Enqueue(db, tid, values).value)
  {
    var after := Enqueue(db, tid, values).value;
    forall t | t in after.tunnels ensures after.tunnels[t].requestCount == |RequestsOf(after, t)| {
      RequestsAfterSend(db, tid, values, t);
    }
  }

  /** A stored send keeps the invariant exactly when no stored response already carries its id. */
  lemma SendKeepsInvIffUnanswered(db: Db, tid: string, values: seq<SqlValue>)
    requires IdGiven(values) && Inv(db) && tid in db.tunnels && Enqueue(db, tid, values).Ok? && values[1] == Text(tid)
    ensures Inv(Enqueue(db, tid, values).value) <==> !Answered(db, values[0].text)
  {
    var db', rid := Enqueue(db, tid, values).value, values[0].text;
    EnqueueKeepsCounts(db, tid, values);
    assert db'.responses == db.responses;
    assert rid in db'.requests && !db'.requests[rid].responded;
    forall r ensures Answered(db', r) <==> Answered(db, r) {}
    assert forall r :: r in db.requests ==> db'.requests[r] == db.requests[r];
  }

  lemma SameRequestsSameCounts(db: Db, db': Db)
    requires CountsMatch(db) && db'.requests.Keys == db.requests.Keys
    requires forall r :: r in db.requests ==> db'.requests[r].tunnelId == db.requests[r].tunnelId
    requires db.tunnels.Keys <= db'.tunnels.Keys
    requires forall t :: t in db.tunnels ==> db'.tunnels[t].requestCount == db.tunnels[t].requestCount
    requires forall t :: t in db'.tunnels && t !in db.tunnels ==> db'.tunnels[t].requestCount == 0
    ensures CountsMatch(db')
  {
    forall t | t in db'.tunnels ensures db'.tunnels[t].requestCount == |RequestsOf(db', t)| {
      assert RequestsOf(db', t) == RequestsOf(db, t);
      assert t !in db.tunnels ==> RequestsOf(db, t) == {};
    }
  }

  lemma AnsweredAfterResponse(db: Db, pid: string, row: ResponseRow, rid: string)
    requires pid !in db.responses
    ensures Answered(SaveResponse(db, pid, row), rid) <==> rid == row.requestId || Answered(db, rid)
  {
    var after := SaveResponse(db, pid, row).responses;
    assert pid in after && after[pid] == row;
    assert forall p :: p in db.responses && db.responses[p].requestId != row.requestId ==>
             p in after && after[p] == db.responses[p];
  }

  lemma ResponseKeepsOneEach(db: Db, pid: string, row: ResponseRow)
    requires OneAnswerEach(db)
    ensures OneAnswerEach(SaveResponse(db, pid, row))
  {
    var after := SaveResponse(db, pid, row).responses;
    assert forall p :: p in after && p != pid ==> p in db.responses && after[p] == db.responses[p] && after[p].requestId != row.requestId;
  }

  lemma ResponseKeepsInv(db: Db, pid: string, row: ResponseRow)
    requires Inv(db) && pid !in db.responses
    ensures Inv(SaveResponse(db, pid, row))
  {
    var db' := SaveResponse(db, pid, row);
    SameRequestsSameCounts(db, db');
    ResponseKeepsOneEach(db, pid, row);
    forall r | r in db'.requests ensures db'.requests[r].responded <==> Answered(db', r) {
      AnsweredAfterResponse(db, pid, row, r);
    }
  }

  /** Every step of every endpoint keeps the invariant, whatever tuple a send binds. */
  lemma StepKeepsInv(w: World, e: Event, w': World)
    requires Step(w, e, w') && Inv(w.db)
    ensures Inv(w'.db)
  {
    match e
    case Sent(tid, values) =>
      if IsLive(w, tid) && Enqueue(w.db, tid, values).Ok? {
        SendKeepsInvIffUnanswered(w.db, tid, values);
      }
    case Responded(tid, pid, rid, status, body) =>
      if IsLive(w, tid) {
        ResponseKeepsInv(w.db, pid, ResponseRow(rid, status, body, Stamp(w.now)));
      }
    case Polled(_, _, _) =>
    case Ticked =>
    case _ =>
      SameRequestsSameCounts(w.db, w'.db);
      assert w'.db.requests == w.db.requests && w'.db.responses == w.db.responses;
      assert forall r :: Answered(w'.db, r) <==> Answered(w.db, r);
  }

  /** In every state of every run: counts match, and each request is pending with no response
      row or responded with exactly one. */
  lemma {:induction false} RunKeepsInv(ws: seq<World>, es: seq<Event>, i: nat)
    requires Run(ws, es) && Inv(ws[0].db) && i < |ws|
    ensures Inv(ws[i].db)
    decreases i
  {
    if i > 0 {
      RunKeepsInv(ws, es, i - 1);
      StepKeepsInv(ws[i - 1], es[i - 1], ws[i]);
    }
  }

  /** In particular all states reachable from empty tables. */
  lemma ReachableIsInv(ws: seq<World>, es: seq<Event>, i: nat)
    requires Run(ws, es) && ws[0].db == Db(map[], map[], map[]) && i < |ws|
    ensures Inv(ws[i].db)
  {
    EmptyDbIsInv();
    RunKeepsInv(ws, es, i);
  }

  /** What the invariant says of one request. */
  lemma PendingOrAnsweredOnce(db: Db, rid: string)
    requires Inv(db) && rid in db.requests
    ensures if rid in Pending(db, db.requests[rid].tunnelId) then Answers(db, rid) == {}
            else exists p :: Answers(db, rid) == {p}
  {
    if db.requests[rid].responded {
      var p :| p in db.responses && db.responses[p].requestId == rid;
      assert Answers(db, rid) == {p};
    }
  }

  /** Answering an answered request again moves nothing: same requests, same number of rows, other
      answers untouched; only its own stored answer is the new one. */
  lemma RepeatedResponse(db: Db, pid: string, row: ResponseRow)
    requires Inv(db) && row.requestId in db.requests && db.requests[row.requestId].responded
    requires pid !in db.responses
    ensures var db' := SaveResponse(db, pid, row);
            db'.requests == db.requests && db'.tunnels == db.tunnels &&
            |db'.responses| == |db.responses| &&
            Answers(db', row.requestId) == {pid} && db'.responses[pid] == row &&
            forall rid :: rid != row.requestId ==> Answers(db', rid) == Answers(db, rid)
  {
    var db' := SaveResponse(db, pid, row);
    assert Answered(db, row.requestId);
    var earlier :| earlier in db.responses && db.responses[earlier].requestId == row.requestId;
    SwappedAnswer(db, pid, row, earlier);
    assert db'.requests == db.requests;
  }

  lemma SwappedAnswer(db: Db, pid: string, row: ResponseRow, earlier: string)
    requires OneAnswerEach(db) && pid !in db.responses
    requires earlier in db.responses && db.responses[earlier].requestId == row.requestId
    ensures var db' := SaveResponse(db, pid, row);
            |db'.responses| == |db.responses| && pid in db'.responses && db'.responses[pid] == row
    ensures forall rid :: Answers(SaveResponse(db, pid, row), rid) ==
                          if rid == row.requestId then {pid} else Answers(db, rid)
  {
    var after := SaveResponse(db, pid, row).responses;
    assert after.Keys == db.responses.Keys - {earlier} + {pid};
    assert |after| == |after.Keys| && |db.responses| == |db.responses.Keys|;
    assert forall p :: p in after ==> after[p] == if p == pid then row else db.responses[p];
    forall rid ensures Answers(SaveResponse(db, pid, row), rid) == if rid == row.requestId then {pid} else Answers(db, rid) {
      AnswersAfter(db, after, pid, row, earlier, rid);
    }
  }

  lemma AnswersAfter(db: Db, after: map<string, ResponseRow>, pid: string, row: ResponseRow, earlier: string, rid: string)
    requires OneAnswerEach(db) && pid !in db.responses
    requires earlier in db.responses && db.responses[earlier].requestId == row.requestId
    requires after.Keys == db.responses.Keys - {earlier} + {pid}
    requires forall p :: p in after ==> after[p] == if p == pid then row else db.responses[p]
    ensures (set p | p in after && after[p].requestId == rid) == if rid == row.requestId then {pid} else Answers(db, rid)
  {
  }

  /** Why ids must be new to the stored responses too: answers to unknown ids are stored, and a request
      that later takes such an id is pending although an answer row exists. */
  lemma StaleAnswerBreaksInv(row: TunnelRow, answer: ResponseRow, stamp: string)
    requires row.requestCount == 0 && answer.requestId == "req_1"
    ensures var db := SaveResponse(Db(map["tun_1" := row], map[], map[]), "rsp_1", answer);
            Inv(db) && "req_1" !in db.requests && !FreshRequestId(db, "req_1") &&
            var values := ListedValues("req_1", "tun_1", "GET", "/", "{}", Null, stamp);
            Enqueue(db, "tun_1", values).Ok? && !Inv(Enqueue(db, "tun_1", values).value)
  {
    var empty := Db(map["tun_1" := row], map[], map[]);
    var db := SaveResponse(empty, "rsp_1", answer);
    assert RequestsOf(empty, "tun_1") == {} && Inv(empty);
    ResponseKeepsInv(empty, "rsp_1", answer);
    assert "rsp_1" in db.responses && db.responses["rsp_1"].requestId == "req_1";
    var values := ListedValues("req_1", "tun_1", "GET", "/", "{}", Null, stamp);
    assert values[0] == Text("req_1") && forall k :: 0 <= k < 7 && k != 5 ==> values[k].Text?;
    var after := Enqueue(db, "tun_1", values).value;
    assert Answered(after, "req_1") && !after.requests["req_1"].responded;
  }

  // ---- the shipped send, over whole runs ----

  /** All sends of the run bind a tuple that does not fill the seven columns, as the shipped one does not. */
  ghost predicate ShortSends(es: seq<Event>) {
    forall i :: 0 <= i < |es| && es[i].Sent? ==> |es[i].values| != 7
  }

  /** With the shipped send no run ever adds a request, so from empty tables nothing is ever polled. */
  lemma {:induction false} ShippedRunsStoreNothing(ws: seq<World>, es: seq<Event>, i: nat)
    requires Run(ws, es) && ShortSends(es) && i < |ws|
    ensures ws[i].db.requests.Keys == ws[0].db.requests.Keys
    ensures ws[0].db.requests == map[] && i < |es| && es[i].Polled? ==> es[i].batch == []
    decreases i
  {
    if i > 0 {
      ShippedRunsStoreNothing(ws, es, i - 1);
      ShortSendStep(ws[i - 1], es[i - 1], ws[i]);
    }
    if i < |es| {
      assert Step(ws[i], es[i], ws[i + 1]);
    }
  }

  lemma ShortSendStep(w: World, e: Event, w': World)
    requires Step(w, e, w') && (e.Sent? ==> |e.values| != 7)
    ensures w'.db.requests.Keys == w.db.requests.Keys
  {
  }

  // ---- clean-up and death ----

  /** Whether and when the clean-up ran makes no difference to any later look-up, whatever the stored texts are. */
  lemma CleanupIsUnobservable(db: Db, tid: string, now: string, later: string)
    requires !Before(later, now)
    ensures GetTunnel(Cleanup(db, now), tid, later) == GetTunnel(db, tid, later)
  {
    if tid in db.tunnels && Expired(db.tunnels[tid], now) {
      var expires := db.tunnels[tid].expiresAt;
      if Before(later, expires) {
        BeforeIsTransitive(later, expires, now);
      }
    }
  }

  /** A second clean-up at the same time finds nothing to do. */
  lemma CleanupTwice(db: Db, now: string)
    ensures ExpiredIds(Cleanup(db, now), now) == {} && Cleanup(Cleanup(db, now), now) == Cleanup(db, now)
  {
  }

  lemma ClockText(a: Moment, b: Moment)
    requires Instant(a) <= Instant(b)
    ensures !Before(Stamp(b), Stamp(a))
  {
    StampOrder(b, a);
  }

  /** Registered once and no longer visible. */
  ghost predicate Dead(w: World, tid: string) {
    tid in w.db.tunnels && !IsLive(w, tid)
  }

  lemma DeathStep(w: World, e: Event, w': World, tid: string)
    requires Step(w, e, w') && Dead(w, tid)
    ensures Dead(w', tid)
  {
    ClockText(w.now, w'.now);
    var row, row' := w.db.tunnels[tid], w'.db.tunnels[tid];
    assert row'.expiresAt == row.expiresAt && (row.deletedAt.Some? ==> row'.deletedAt.Some?);
    if row.deletedAt.None? && Before(Stamp(w'.now), row.expiresAt) {
      NotBeforeIsTransitive(row.expiresAt, Stamp(w.now), Stamp(w'.now));
    }
  }

  ghost predicate StaysDead(w: World, w': World, tid: string) {
    Dead(w, tid) ==> Dead(w', tid)
  }

  lemma {:induction false} DeadStayDead(ws: seq<World>, tid: string, i: nat, j: nat)
    requires i <= j < |ws| && Dead(ws[i], tid)
    requires forall k :: 0 <= k < |ws| - 1 ==> StaysDead(ws[k], ws[k + 1], tid)
    ensures Dead(ws[j], tid)
    decreases j
  {
    if i < j {
      DeadStayDead(ws, tid, i, j - 1);
      assert StaysDead(ws[j - 1], ws[j - 1 + 1], tid);
    }
  }

  /** A registered tunnel that has become invisible stays so in every later state of every run. */
  lemma DeathIsPermanent(ws: seq<World>, es: seq<Event>, tid: string, i: nat, j: nat)
    requires Run(ws, es) && i <= j < |ws| && Dead(ws[i], tid)
    ensures Dead(ws[j], tid)
  {
    forall k | 0 <= k < |ws| - 1 ensures StaysDead(ws[k], ws[k + 1], tid) {
      assert Step(ws[k], es[k], ws[k + 1]);
      if Dead(ws[k], tid) {
        DeathStep(ws[k], es[k], ws[k + 1], tid);
      }
    }
    DeadStayDead(ws, tid, i, j);
  }

  ghost predicate DeletedBetween(es: seq<Event>, tid: string, i: int, j: int) {
    exists k :: 0 <= i <= k < j <= |es| && es[k] == Deleted(tid)
  }

  lemma DeletedOneLater(es: seq<Event>, tid: string, i: int, j: int)
    requires 0 <= i < j <= |es|
    ensures DeletedBetween(es, tid, i, j) <==> DeletedBetween(es, tid, i, j - 1) || es[j - 1] == Deleted(tid)
  {
  }

  /** The stored expiry never moves, and only the tunnel's own deletion or an expired clean-up marks it. */
  lemma RowStep(w: World, e: Event, w': World, tid: string, end: Moment)
    requires Step(w, e, w') && tid in w.db.tunnels && w.db.tunnels[tid].expiresAt == Stamp(end)
    ensures tid in w'.db.tunnels && w'.db.tunnels[tid].expiresAt == Stamp(end)
    ensures w'.db.tunnels[tid].deletedAt.Some? <==>
            w.db.tunnels[tid].deletedAt.Some? || e == Deleted(tid) || (e == CleanedUp && Instant(end) < Instant(w.now))
  {
    StampOrder(end, w.now);
  }

  lemma {:induction false} RowOverTime(ws: seq<World>, es: seq<Event>, tid: string, end: Moment, i: nat, j: nat)
    requires Run(ws, es) && i <= j < |ws| && tid in ws[i].db.tunnels
    requires ws[i].db.tunnels[tid].deletedAt.None? && ws[i].db.tunnels[tid].expiresAt == Stamp(end)
    ensures tid in ws[j].db.tunnels && ws[j].db.tunnels[tid].expiresAt == Stamp(end)
    ensures DeletedBetween(es, tid, i, j) ==> ws[j].db.tunnels[tid].deletedAt.Some?
    ensures ws[j].db.tunnels[tid].deletedAt.Some? ==>
              DeletedBetween(es, tid, i, j) || Instant(end) < Instant(ws[j].now)
    decreases j
  {
    if i < j {
      RowOverTime(ws, es, tid, end, i, j - 1);
      RowStep(ws[j - 1], es[j - 1], ws[j], tid, end);
      DeletedOneLater(es, tid, i, j);
    }
  }

  /** A tunnel registered now answers, at any later state, exactly while it has not been deleted and less
      than 24 hours have passed, however often the clean-up has run. */
  lemma RegisteredForADay(ws: seq<World>, es: seq<Event>, i: nat, j: nat)
    requires Run(ws, es) && i < j < |ws| && es[i].Registered?
    ensures IsLive(ws[j], es[i].tid) <==>
            !DeletedBetween(es, es[i].tid, i + 1, j) && Instant(ws[j].now) < Instant(ws[i].now) + 86400
  {
    assert Step(ws[i], es[i], ws[i + 1]);
    var tid, end := es[i].tid, Expiry(ws[i].now, TTL_HOURS).value;
    assert Instant(end) == Instant(ws[i].now) + 86400;
    RowOverTime(ws, es, tid, end, i + 1, j);
    StampOrder(ws[j].now, end);
  }
}
