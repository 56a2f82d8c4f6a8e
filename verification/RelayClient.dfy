/** The tunnel client: a poll loop that starts a task for every request it is handed.

    The tasks run beside the loop and beside everybody else. What happens is a list of moves, in whatever
    order the event loop and the network let them happen: a poll sent, served by the relay, and answered or
    lost; the end of a task; a call of stop; or something another party does at the relay. Every list of moves
    is a run of the relay, so what holds of all runs holds of the client, and delivery follows from how it
    behaves. */
module RelayClient {
  import opened RelayTime
  import opened RelayStore
  import opened RelayRuns
  import opened RelayDelivery

  /** The relay's default, which the client does not change. */
  const POLL_LIMIT: nat := 10

  /** What the local server made of a request; a call that raised is reported as 502. */
  datatype Local = Answer(status: int, body: SqlValue) | Raised(message: string)

  function ReplyStatus(local: Local): int {
    if local.Answer? then local.status else 502
  }

  function ReplyBody(local: Local): SqlValue {
    if local.Answer? then local.body else Text("{\"error\": \"" + local.message + "\"}")
  }

  function ReplyRow(rid: string, local: Local, now: Moment): ResponseRow {
    ResponseRow(rid, ReplyStatus(local), ReplyBody(local), Stamp(now))
  }

  /** A poll that raises or is refused with 404 is lost; it may be lost after the relay has served it. A reply
      that does not reach the relay is dropped. */
  datatype Move =
    | PollSent
    | PollServed(rows: seq<string>)
    | PollAnswered
    | PollLost
    | TaskEnded(rid: string, local: Local, pid: string, reached: bool)
    | StopAsked
    | Elsewhere(e: Event, db: Db, now: Moment)

  /** The one poll the loop may be waiting for. */
  datatype Flight = Idle | Waiting | Served(rows: seq<string>)

  /** The world, the requests whose tasks have not ended, the poll in flight, and whether stop was not called. */
  datatype Client = Client(world: World, tasks: multiset<string>, flight: Flight, running: bool)

  ghost predicate Possible(c: Client, tid: string, m: Move) {
    match m
    case PollSent => c.flight.Idle?
    case PollServed(rows) => c.flight.Waiting? && IsLive(c.world, tid) && QueryAnswer(c.world.db, tid, POLL_LIMIT, rows)
    case PollAnswered => c.flight.Served?
    case PollLost => !c.flight.Idle?
    case TaskEnded(rid, _, pid, _) => rid in c.tasks && pid !in c.world.db.responses
    case StopAsked => true
    case Elsewhere(e, db, now) => Step(c.world, e, World(db, now))
  }

  /** The reply arrives at the relay while the tunnel is live. */
  ghost predicate Accepted(c: Client, tid: string, m: Move) {
    m.TaskEnded? && m.reached && IsLive(c.world, tid)
  }

  /** Only the sending of a poll looks at the flag, at the head of the loop; an answer is taken in any case. */
  ghost function After(c: Client, tid: string, m: Move): Client {
    match m
    case PollSent => if c.running then c.(flight := Waiting) else c
    case PollServed(rows) => c.(flight := Served(rows))
    case PollAnswered => if c.flight.Served? then c.(tasks := c.tasks + multiset(c.flight.rows), flight := Idle) else c
    case PollLost => c.(flight := Idle)
    case TaskEnded(rid, local, pid, _) =>
      c.(world := if Accepted(c, tid, m)
                  then World(SaveResponse(c.world.db, pid, ReplyRow(rid, local, c.world.now)), c.world.now) else c.world,
         tasks := c.tasks - multiset{rid})
    case StopAsked => c.(running := false)
    case Elsewhere(_, db, now) => c.(world := World(db, now))
  }

  ghost function Outcome(c: Client, tid: string, moves: seq<Move>): Client {
    if moves == [] then c
    else After(Outcome(c, tid, moves[..|moves| - 1]), tid, moves[|moves| - 1])
  }

  /** Every move is possible when its turn comes. */
  ghost predicate Allowed(c: Client, tid: string, moves: seq<Move>) {
    moves == [] ||
    (Allowed(c, tid, moves[..|moves| - 1]) &&
     Possible(Outcome(c, tid, moves[..|moves| - 1]), tid, moves[|moves| - 1]))
  }

  lemma {:induction false} AllowedPrefix(c: Client, tid: string, moves: seq<Move>, k: nat)
    requires Allowed(c, tid, moves) && k <= |moves|
    ensures Allowed(c, tid, moves[..k])
  {
    if k < |moves| {
      AllowedPrefix(c, tid, moves[..|moves| - 1], k);
      assert moves[..|moves| - 1][..k] == moves[..k];
    } else {
      assert moves[..k] == moves;
    }
  }

  /** Freshly started, with its loop at the head. */
  ghost function Started(w: World): Client {
    Client(w, multiset{}, Idle, true)
  }

  // ---- the client object ----

  class TunnelClient {
    const tunnelId: string
    var running: bool
    var tasks: multiset<string>
    var flight: Flight

    ghost function View(w: World): Client
      reads this
    {
      Client(w, tasks, flight, running)
    }

    constructor (tid: string)
      ensures tunnelId == tid && !running && tasks == multiset{} && flight == Idle
    {
      tunnelId, running, tasks, flight := tid, false, multiset{}, Idle;
    }

    method Stop()
      modifies this`running
      ensures !running
    {
      running := false;
    }

    /** The relay's side of a poll: what it puts on the wire. */
    method ServePoll(store: RelayStore, rows: seq<string>)
      requires QueryAnswer(store.State(), tunnelId, POLL_LIMIT, rows)
      modifies this`flight
      ensures flight == Served(rows)
    {
      var batch := store.PollRequests(tunnelId, POLL_LIMIT, rows);
      var ids: seq<string> := [];
      for k := 0 to |batch|
        invariant ids == rows[..k]
      {
        ids := ids + [batch[k].id];
      }
      flight := Served(ids);
    }

    /** The answered half of a turn of the loop: one more task for every request of the batch. */
    method TakeBatch()
      requires flight.Served?
      modifies this`tasks, this`flight
      ensures tasks == old(tasks) + multiset(old(flight).rows) && flight == Idle
    {
      var batch := flight.rows;
      for k := 0 to |batch|
        invariant tasks == old(tasks) + multiset(batch[..k])
      {
        assert batch[..k + 1] == batch[..k] + [batch[k]];
        tasks := tasks + multiset{batch[k]};
      }
      assert batch[..|batch|] == batch;
      flight := Idle;
    }

    /** The end of a task: its reply, if it gets through to a live tunnel, is stored. */
    method EndTask(store: RelayStore, rid: string, local: Local, pid: string, reached: bool, now: Moment)
      modifies this`tasks, store
      ensures View(World(store.State(), now)) ==
              After(old(View(World(store.State(), now))), tunnelId, TaskEnded(rid, local, pid, reached))
    {
      if reached && GetTunnel(store.State(), tunnelId, Stamp(now)).Some? {
        store.SaveResponseRow(pid, rid, ReplyStatus(local), ReplyBody(local), now);
      }
      tasks := tasks - multiset{rid};
    }

    /** The loop and its tasks: it sends polls while it runs, and ends as the moves make it. */
    method Run(store: RelayStore, moves: seq<Move>, now: Moment) returns (end: Moment)
      requires tasks == multiset{} && flight == Idle
      requires Allowed(Started(World(store.State(), now)), tunnelId, moves)
      modifies this, store
      ensures View(World(store.State(), end)) == Outcome(Started(World(old(store.State()), now)), tunnelId, moves)
    {
      running, end := true, now;
      ghost var start := Started(World(store.State(), now));
      for k := 0 to |moves|
        invariant View(World(store.State(), end)) == Outcome(start, tunnelId, moves[..k])
      {
        assert moves[..k + 1][..k] == moves[..k];
        AllowedPrefix(start, tunnelId, moves, k + 1);
        match moves[k] {
          case PollSent =>
            if running {
              flight := Waiting;
            }
          case PollServed(rows) =>
            ServePoll(store, rows);
          case PollAnswered =>
            TakeBatch();
          case PollLost =>
            flight := Idle;
          case TaskEnded(rid, local, pid, reached) =>
            EndTask(store, rid, local, pid, reached, end);
          case StopAsked =>
            Stop();
          case Elsewhere(_, db, later) =>
            store.tunnels, store.requests, store.responses := db.tunnels, db.requests, db.responses;
            end := later;
        }
      }
      assert moves[..|moves|] == moves;
    }
  }

  // ---- the moves are a run of the relay ----

  /** The run as the relay sees it, and which of its events are the client's own polls. */
  datatype Trace = Trace(worlds: seq<World>, events: seq<Event>, polls: seq<nat>)

  ghost function Extended(t: Trace, c: Client, tid: string, m: Move): Trace {
    var w' := After(c, tid, m).world;
    match m
    case PollServed(rows) =>
      Trace(t.worlds + [w'], t.events + [Polled(tid, POLL_LIMIT, rows)], t.polls + [|t.events|])
    case TaskEnded(rid, local, pid, true) =>
      Trace(t.worlds + [w'], t.events + [Responded(tid, pid, rid, ReplyStatus(local), ReplyBody(local))], t.polls)
    case Elsewhere(e, _, _) => Trace(t.worlds + [w'], t.events + [e], t.polls)
    case _ => t
  }

  ghost function TraceOf(c: Client, tid: string, moves: seq<Move>): Trace {
    if moves == [] then Trace([c.world], [], [])
    else
      var init := moves[..|moves| - 1];
      Extended(TraceOf(c, tid, init), Outcome(c, tid, init), tid, moves[|moves| - 1])
  }

  /** A run of the relay that ends in the client's world, with the client's polls in it. */
  ghost predicate IsTrace(t: Trace, c: Client, tid: string) {
    Run(t.worlds, t.events) && t.worlds[|t.worlds| - 1] == c.world && Polls(t.events, t.polls, tid, POLL_LIMIT)
  }

  lemma RunGrowsByOne(ws: seq<World>, es: seq<Event>, e: Event, w: World)
    requires Run(ws, es) && Step(ws[|ws| - 1], e, w)
    ensures Run(ws + [w], es + [e])
  {
    var all, events := ws + [w], es + [e];
    forall i | 0 <= i < |events| ensures Step(all[i], events[i], all[i + 1]) {
      if i < |es| {
        assert Step(ws[i], es[i], ws[i + 1]);
        assert all[i] == ws[i] && all[i + 1] == ws[i + 1] && events[i] == es[i];
      } else {
        assert all[i] == ws[|ws| - 1] && all[i + 1] == w && events[i] == e;
      }
    }
  }

  lemma ExtendedIsTrace(t: Trace, c: Client, tid: string, m: Move)
    requires IsTrace(t, c, tid) && Possible(c, tid, m)
    ensures IsTrace(Extended(t, c, tid, m), After(c, tid, m), tid)
  {
    var t', w' := Extended(t, c, tid, m), After(c, tid, m).world;
    if t'.events != t.events {
      var e := t'.events[|t.events|];
      assert Step(c.world, e, w');
      RunGrowsByOne(t.worlds, t.events, e, w');
    }
  }

  /** Whatever the client and the others do, in whatever order, is a run of the relay. */
  lemma {:induction false} MovesAreARun(c: Client, tid: string, moves: seq<Move>)
    requires Allowed(c, tid, moves)
    ensures IsTrace(TraceOf(c, tid, moves), Outcome(c, tid, moves), tid)
    ensures TraceOf(c, tid, moves).worlds[0] == c.world
  {
    if moves != [] {
      var last := |moves| - 1;
      MovesAreARun(c, tid, moves[..last]);
      ExtendedIsTrace(TraceOf(c, tid, moves[..last]), Outcome(c, tid, moves[..last]), tid, moves[last]);
    }
  }

  // ---- stopping ----

  lemma OneMoreMove(c: Client, tid: string, init: seq<Move>, m: Move)
    requires Allowed(c, tid, init) && Possible(Outcome(c, tid, init), tid, m)
    ensures Allowed(c, tid, init + [m]) && Outcome(c, tid, init + [m]) == After(Outcome(c, tid, init), tid, m)
    ensures TraceOf(c, tid, init + [m]) == Extended(TraceOf(c, tid, init), Outcome(c, tid, init), tid, m)
  {
    assert (init + [m])[..|init|] == init;
  }

  /** Polls sent, and batches taken, so far. */
  ghost function SentCount(c: Client, tid: string, moves: seq<Move>): nat {
    if moves == [] then 0
    else
      var init := moves[..|moves| - 1];
      SentCount(c, tid, init) +
      (if moves[|moves| - 1].PollSent? && Outcome(c, tid, init).running then 1 else 0)
  }

  function TakenCount(moves: seq<Move>): nat {
    if moves == [] then 0
    else TakenCount(moves[..|moves| - 1]) + (if moves[|moves| - 1].PollAnswered? then 1 else 0)
  }

  function BoolToNat(b: bool): nat {
    if b then 1 else 0
  }

  /** With no more polls sent, the polls still to be served and the batches still to be taken are used up by
      the one in flight. */
  ghost predicate Stopped(c: Client, tid: string, moves: seq<Move>, sent: nat, served: nat, taken: nat) {
    Allowed(c, tid, moves) && !Outcome(c, tid, moves).running && SentCount(c, tid, moves) == sent &&
    |TraceOf(c, tid, moves).polls| + BoolToNat(Outcome(c, tid, moves).flight.Waiting?) <= served &&
    TakenCount(moves) + BoolToNat(!Outcome(c, tid, moves).flight.Idle?) <= taken
  }

  lemma StoppedStep(c: Client, tid: string, init: seq<Move>, m: Move, sent: nat, served: nat, taken: nat)
    requires Stopped(c, tid, init, sent, served, taken) && Allowed(c, tid, init + [m])
    ensures Stopped(c, tid, init + [m], sent, served, taken)
  {
    assert (init + [m])[..|init|] == init;
  }

  lemma {:induction false} StaysStopped(
      c: Client, tid: string, init: seq<Move>, more: seq<Move>, sent: nat, served: nat, taken: nat)
    requires Stopped(c, tid, init, sent, served, taken) && Allowed(c, tid, init + more)
    ensures Stopped(c, tid, init + more, sent, served, taken)
  {
    if more == [] {
      assert init + more == init;
    } else {
      var last := |more| - 1;
      var most := init + more[..last];
      LastMove(init, more);
      AllowedPrefix(c, tid, init + more, |most|);
      StaysStopped(c, tid, init, more[..last], sent, served, taken);
      StoppedStep(c, tid, most, more[last], sent, served, taken);
    }
  }

  lemma LastMove(init: seq<Move>, more: seq<Move>)
    requires more != []
    ensures var last := |more| - 1;
            init + more == (init + more[..last]) + [more[last]] && (init + more)[..|init| + last] == init + more[..last]
  {
  }

  lemma StopsHere(c: Client, tid: string, before: seq<Move>)
    requires Allowed(c, tid, before)
    ensures var at := Outcome(c, tid, before);
            Stopped(c, tid, before + [StopAsked], SentCount(c, tid, before),
                    |TraceOf(c, tid, before).polls| + BoolToNat(at.flight.Waiting?),
                    TakenCount(before) + BoolToNat(!at.flight.Idle?))
  {
    assert (before + [StopAsked])[..|before|] == before;
  }

  /** After a call of stop no poll is sent. One that was on its way may still be served, one that was on its way
      or served may still be answered and its batch taken, and no other. */
  lemma NoPollAfterStop(c: Client, tid: string, before: seq<Move>, after: seq<Move>)
    requires Allowed(c, tid, before + [StopAsked] + after)
    ensures var moves, at := before + [StopAsked] + after, Outcome(c, tid, before);
            SentCount(c, tid, moves) == SentCount(c, tid, before) &&
            |TraceOf(c, tid, moves).polls| <= |TraceOf(c, tid, before).polls| + BoolToNat(at.flight.Waiting?) &&
            TakenCount(moves) <= TakenCount(before) + BoolToNat(!at.flight.Idle?)
  {
    var moves, at := before + [StopAsked] + after, Outcome(c, tid, before);
    AllowedPrefix(c, tid, moves, |before|);
    assert moves[..|before|] == before;
    StopsHere(c, tid, before);
    StaysStopped(c, tid, before + [StopAsked], after, SentCount(c, tid, before),
                 |TraceOf(c, tid, before).polls| + BoolToNat(at.flight.Waiting?),
                 TakenCount(before) + BoolToNat(!at.flight.Idle?));
  }

  /** The poll in flight at the stop is indeed still answered, and its tasks are started. */
  lemma InFlightIsStillAnswered(c: Client, tid: string, before: seq<Move>, rows: seq<string>)
    requires Allowed(c, tid, before) && Outcome(c, tid, before).flight == Served(rows)
    ensures var moves := before + [StopAsked, PollAnswered];
            Allowed(c, tid, moves) && Outcome(c, tid, moves).tasks == Outcome(c, tid, before).tasks + multiset(rows)
  {
    OneMoreMove(c, tid, before, StopAsked);
    OneMoreMove(c, tid, before + [StopAsked], PollAnswered);
    assert before + [StopAsked, PollAnswered] == before + [StopAsked] + [PollAnswered];
  }

  // ---- what the replies do ----

  ghost predicate AcceptedAt(c: Client, tid: string, moves: seq<Move>, k: int) {
    0 <= k < |moves| && Accepted(Outcome(c, tid, moves[..k]), tid, moves[k])
  }

  /** Nobody else responds from move k on. */
  ghost predicate NoOtherReplies(moves: seq<Move>, k: int) {
    forall i :: 0 <= k <= i < |moves| && moves[i].Elsewhere? ==> !moves[i].e.Responded?
  }

  /** Some move is an accepted reply to the request. */
  ghost predicate AnsweredIn(c: Client, tid: string, moves: seq<Move>, rid: string) {
    moves != [] &&
    var last := |moves| - 1;
    AnsweredIn(c, tid, moves[..last], rid) ||
    (Accepted(Outcome(c, tid, moves[..last]), tid, moves[last]) && moves[last].rid == rid)
  }

  /** No step but a response touches a stored request or a stored answer. */
  lemma StepKeepsRows(w: World, e: Event, w': World)
    requires Step(w, e, w') && !e.Responded?
    ensures forall rid :: rid in w.db.requests ==> rid in w'.db.requests && w'.db.requests[rid] == w.db.requests[rid]
    ensures w'.db.responses == w.db.responses
  {
  }

  lemma RowAfterMove(c: Client, tid: string, m: Move, rid: string)
    requires Possible(c, tid, m) && rid in c.world.db.requests && (m.Elsewhere? ==> !m.e.Responded?)
    ensures var before, after := c.world.db.requests, After(c, tid, m).world.db.requests;
            rid in after &&
            after[rid] == before[rid].(responded := before[rid].responded || (Accepted(c, tid, m) && m.rid == rid))
  {
    if m.Elsewhere? {
      StepKeepsRows(c.world, m.e, World(m.db, m.now));
    }
  }

  /** In whatever order the tasks end, they answer exactly the requests with an accepted reply; the rest stay
      pending, to be polled again, and nothing else about a request changes. */
  lemma {:induction false} RepliesAnswerExactly(c: Client, tid: string, moves: seq<Move>, rid: string)
    requires Allowed(c, tid, moves) && NoOtherReplies(moves, 0) && rid in c.world.db.requests
    ensures var before, after := c.world.db.requests, Outcome(c, tid, moves).world.db.requests;
            rid in after &&
            after[rid] == before[rid].(responded := before[rid].responded || AnsweredIn(c, tid, moves, rid))
  {
    if moves != [] {
      var last := |moves| - 1;
      assert NoOtherReplies(moves[..last], 0);
      RepliesAnswerExactly(c, tid, moves[..last], rid);
      RowAfterMove(Outcome(c, tid, moves[..last]), tid, moves[last], rid);
    }
  }

  lemma AnswerAfterMove(c: Client, tid: string, m: Move, pid: string)
    requires Possible(c, tid, m) && pid in c.world.db.responses && (m.Elsewhere? ==> !m.e.Responded?)
    requires Accepted(c, tid, m) ==> m.rid != c.world.db.responses[pid].requestId
    ensures var before, after := c.world.db.responses, After(c, tid, m).world.db.responses;
            pid in after && after[pid] == before[pid]
  {
    if m.Elsewhere? {
      StepKeepsRows(c.world, m.e, World(m.db, m.now));
    }
  }

  lemma StoredAtOnce(c: Client, tid: string, m: Move)
    requires Accepted(c, tid, m)
    ensures var after := After(c, tid, m).world.db.responses;
            m.pid in after && after[m.pid] == ReplyRow(m.rid, m.local, c.world.now)
  {
  }

  /** Move k stores a reply, and no later accepted reply answers the same request. */
  ghost predicate LatestReply(c: Client, tid: string, moves: seq<Move>, k: nat) {
    AcceptedAt(c, tid, moves, k) && NoOtherReplies(moves, k) &&
    forall i :: k < i && AcceptedAt(c, tid, moves, i) ==> moves[i].rid != moves[k].rid
  }

  lemma LatestReplyPrefix(c: Client, tid: string, moves: seq<Move>, k: nat)
    requires LatestReply(c, tid, moves, k) && k < |moves| - 1
    ensures LatestReply(c, tid, moves[..|moves| - 1], k)
    ensures var last := |moves| - 1;
            (moves[last].Elsewhere? ==> !moves[last].e.Responded?) &&
            (Accepted(Outcome(c, tid, moves[..last]), tid, moves[last]) ==> moves[last].rid != moves[k].rid)
  {
    var last := |moves| - 1;
    forall i | 0 <= i < last ensures AcceptedAt(c, tid, moves[..last], i) == AcceptedAt(c, tid, moves, i) {
      assert moves[..last][..i] == moves[..i];
    }
    assert AcceptedAt(c, tid, moves, last) <==> Accepted(Outcome(c, tid, moves[..last]), tid, moves[last]);
  }

  /** An accepted reply is in the tables as the local server or the failure gave it, until a later accepted
      reply answers the same request. */
  lemma {:induction false} RepliesAreStored(c: Client, tid: string, moves: seq<Move>, k: nat)
    requires Allowed(c, tid, moves) && LatestReply(c, tid, moves, k)
    ensures var m, after := moves[k], Outcome(c, tid, moves).world.db.responses;
            m.pid in after && after[m.pid].requestId == m.rid &&
            after[m.pid].createdAt == Stamp(Outcome(c, tid, moves[..k]).world.now) &&
            match m.local
            case Answer(status, body) => after[m.pid].status == status && after[m.pid].body == body
            case Raised(message) =>
              after[m.pid].status == 502 && after[m.pid].body == Text("{\"error\": \"" + message + "\"}")
    decreases |moves|
  {
    var last := |moves| - 1;
    var before := Outcome(c, tid, moves[..last]);
    if k < last {
      LatestReplyPrefix(c, tid, moves, k);
      assert moves[..last][..k] == moves[..k];
      RepliesAreStored(c, tid, moves[..last], k);
      AnswerAfterMove(before, tid, moves[last], moves[k].pid);
    } else {
      StoredAtOnce(before, tid, moves[last]);
    }
  }

  // ---- delivery ----

  /** The client answers before it polls again: every task that ends has its reply accepted, no batch is lost
      on its way, and when a poll is sent no task is under way. */
  ghost predicate AnswersFirst(c: Client, tid: string, moves: seq<Move>) {
    moves == [] ||
    (AnswersFirst(c, tid, moves[..|moves| - 1]) &&
     AnswersAt(Outcome(c, tid, moves[..|moves| - 1]), tid, moves[|moves| - 1]))
  }

  ghost predicate AnswersAt(c: Client, tid: string, m: Move) {
    (m.TaskEnded? ==> Accepted(c, tid, m)) && (m.PollLost? ==> !c.flight.Served?) &&
    (m.PollSent? && c.running ==> c.tasks == multiset{})
  }

  /** What the latest poll handed out is answered, still under way or still on the wire; and while the loop waits
      no task is under way. */
  ghost predicate Attended(t: Trace, c: Client, tid: string)
    requires IsTrace(t, c, tid)
  {
    (!c.flight.Idle? ==> c.tasks == multiset{}) &&
    (t.polls != [] ==> forall r :: r in Batch(t.events, t.polls[|t.polls| - 1]) ==> InHand(c, r))
  }

  ghost predicate InHand(c: Client, r: string) {
    r in c.world.db.requests &&
    (r in c.tasks || c.world.db.requests[r].responded || (c.flight.Served? && r in c.flight.rows))
  }

  lemma SameEarlierBatches(t: Trace, t': Trace, c: Client, c': Client, tid: string, i: nat)
    requires IsTrace(t, c, tid) && IsTrace(t', c', tid) && i < |t.polls|
    requires t.events <= t'.events && t.worlds <= t'.worlds && t.polls <= t'.polls
    ensures t'.polls[i] == t.polls[i] && Batch(t'.events, t'.polls[i]) == Batch(t.events, t.polls[i])
    ensures t'.worlds[t.polls[i]] == t.worlds[t.polls[i]]
  {
  }

  /** What is in hand stays so, until the next poll is served. */
  lemma StaysInHand(c: Client, tid: string, m: Move, r: string)
    requires Possible(c, tid, m) && AnswersAt(c, tid, m) && !m.PollServed? && InHand(c, r)
    ensures InHand(After(c, tid, m), r)
  {
    if m.Elsewhere? {
      StepGrows(c.world, m.e, World(m.db, m.now));
    } else {
      RowAfterMove(c, tid, m, r);
    }
  }

  lemma NewBatchIsInHand(c: Client, tid: string, rows: seq<string>)
    requires Possible(c, tid, PollServed(rows))
    ensures forall r :: r in rows ==> InHand(After(c, tid, PollServed(rows)), r)
  {
    assert forall r :: r in rows ==> r in Pending(c.world.db, tid);
  }

  lemma AttendedStep(t: Trace, c: Client, tid: string, m: Move)
    requires IsTrace(t, c, tid) && Possible(c, tid, m) && AnswersAt(c, tid, m) && Attended(t, c, tid)
    ensures IsTrace(Extended(t, c, tid, m), After(c, tid, m), tid)
    ensures Attended(Extended(t, c, tid, m), After(c, tid, m), tid)
  {
    ExtendedIsTrace(t, c, tid, m);
    var t', c' := Extended(t, c, tid, m), After(c, tid, m);
    if m.PollServed? {
      NewBatchIsInHand(c, tid, m.rows);
      assert Batch(t'.events, t'.polls[|t.polls|]) == m.rows;
    } else if t.polls != [] {
      SameEarlierBatches(t, t', c, c', tid, |t.polls| - 1);
      forall r | r in Batch(t.events, t.polls[|t.polls| - 1]) ensures InHand(c', r) {
        StaysInHand(c, tid, m, r);
      }
    }
  }

  /** When the next poll is served, the latest batch has been answered. */
  lemma LatestIsAnswered(t: Trace, c: Client, tid: string, rows: seq<string>, r: string)
    requires IsTrace(t, c, tid) && Possible(c, tid, PollServed(rows)) && Attended(t, c, tid)
    requires t.polls != [] && r in Batch(t.events, t.polls[|t.polls| - 1])
    ensures r in c.world.db.requests && c.world.db.requests[r].responded
  {
    assert InHand(c, r);
  }

  lemma AnsweredSoFarStep(t: Trace, c: Client, tid: string, m: Move)
    requires IsTrace(t, c, tid) && Possible(c, tid, m) && Attended(t, c, tid)
    requires AnswersBatches(t.worlds, t.events, t.polls, tid, POLL_LIMIT)
    ensures IsTrace(Extended(t, c, tid, m), After(c, tid, m), tid)
    ensures var t' := Extended(t, c, tid, m); AnswersBatches(t'.worlds, t'.events, t'.polls, tid, POLL_LIMIT)
  {
    ExtendedIsTrace(t, c, tid, m);
    var t', c' := Extended(t, c, tid, m), After(c, tid, m);
    forall i, r | 0 <= i < |t'.polls| - 1 && r in Batch(t'.events, t'.polls[i])
      ensures r in t'.worlds[t'.polls[i + 1]].db.requests && t'.worlds[t'.polls[i + 1]].db.requests[r].responded
    {
      SameEarlierBatches(t, t', c, c', tid, i);
      if i + 1 < |t.polls| {
        SameEarlierBatches(t, t', c, c', tid, i + 1);
      } else {
        LatestIsAnswered(t, c, tid, m.rows, r);
        PollSeesTheWorld(t, c, tid, m);
      }
    }
  }

  lemma PollSeesTheWorld(t: Trace, c: Client, tid: string, m: Move)
    requires IsTrace(t, c, tid) && m.PollServed?
    ensures var t' := Extended(t, c, tid, m);
            t'.polls == t.polls + [|t.events|] && |t.events| < |t'.worlds| && t'.worlds[|t.events|] == c.world
  {
  }

  /** A client that answers first has answered every batch when its next poll is served, whatever others do. */
  lemma {:induction false} BatchesAreAnswered(c: Client, tid: string, moves: seq<Move>)
    requires Allowed(c, tid, moves) && AnswersFirst(c, tid, moves) && c.flight.Idle?
    ensures var t := TraceOf(c, tid, moves);
            IsTrace(t, Outcome(c, tid, moves), tid) && Attended(t, Outcome(c, tid, moves), tid) &&
            AnswersBatches(t.worlds, t.events, t.polls, tid, POLL_LIMIT)
  {
    if moves != [] {
      var last := |moves| - 1;
      var init := moves[..last];
      BatchesAreAnswered(c, tid, init);
      AttendedStep(TraceOf(c, tid, init), Outcome(c, tid, init), tid, moves[last]);
      AnsweredSoFarStep(TraceOf(c, tid, init), Outcome(c, tid, init), tid, moves[last]);
    }
  }

  /** At the first of the client's polls, rid is pending behind k others and its second is over; it is
      pending at the last one too. */
  ghost predicate Waits(t: Trace, tid: string, rid: string, k: nat)
    requires Run(t.worlds, t.events) && Polls(t.events, t.polls, tid, POLL_LIMIT)
  {
    t.polls != [] &&
    var first, last := t.worlds[t.polls[0]], t.worlds[t.polls[|t.polls| - 1]];
    Settled(first, rid) && rid in Pending(first.db, tid) && rid in Pending(last.db, tid) &&
    k == |NoLaterThan(first.db, tid, rid) * Pending(first.db, tid)|
  }

  /** Delivery by the client: if it answers first, k div 10 + 1 polls hand out a request that waits behind k
      others, whatever else happens at the relay. */
  lemma ClientIsHandedTheRequest(c: Client, tid: string, moves: seq<Move>, rid: string, k: nat)
    requires Allowed(c, tid, moves) && AnswersFirst(c, tid, moves) && c.flight.Idle?
    ensures var t := TraceOf(c, tid, moves);
            IsTrace(t, Outcome(c, tid, moves), tid) &&
            (Waits(t, tid, rid, k) && |t.polls| == k / 10 + 1 ==>
               exists i :: 0 <= i < |t.polls| && rid in Batch(t.events, t.polls[i]))
  {
    BatchesAreAnswered(c, tid, moves);
    var t := TraceOf(c, tid, moves);
    if Waits(t, tid, rid, k) && |t.polls| == k / 10 + 1 {
      HandedOutByPosition(t.worlds, t.events, t.polls, tid, POLL_LIMIT, rid, k);
    }
  }

  // ---- without answering first ----

  /** n turns of the loop, each of which is handed the same batch. */
  function Rounds(rows: seq<string>, n: nat): seq<Move> {
    if n == 0 then [] else Rounds(rows, n - 1) + [PollSent, PollServed(rows), PollAnswered]
  }

  /** The client and the run after n such turns. */
  ghost predicate AfterRounds(c: Client, tid: string, moves: seq<Move>, rows: seq<string>, n: nat) {
    Allowed(c, tid, moves) && Outcome(c, tid, moves).world == c.world && Outcome(c, tid, moves).running &&
    Outcome(c, tid, moves).flight.Idle? && |TraceOf(c, tid, moves).polls| == n &&
    OnlyBatch(TraceOf(c, tid, moves), tid, rows) && forall w :: w in TraceOf(c, tid, moves).worlds ==> w == c.world
  }

  ghost predicate OnlyBatch(t: Trace, tid: string, rows: seq<string>) {
    forall i :: 0 <= i < |t.polls| ==>
      t.polls[i] < |t.events| && t.events[t.polls[i]] == Polled(tid, POLL_LIMIT, rows)
  }

  lemma OneMoreRound(c: Client, tid: string, moves: seq<Move>, rows: seq<string>, n: nat)
    requires IsLive(c.world, tid) && QueryAnswer(c.world.db, tid, POLL_LIMIT, rows) && AfterRounds(c, tid, moves, rows, n)
    ensures AfterRounds(c, tid, moves + [PollSent, PollServed(rows), PollAnswered], rows, n + 1)
  {
    var sent := moves + [PollSent];
    var served := sent + [PollServed(rows)];
    OneMoreMove(c, tid, moves, PollSent);
    OneMoreMove(c, tid, sent, PollServed(rows));
    OneMoreMove(c, tid, served, PollAnswered);
    assert moves + [PollSent, PollServed(rows), PollAnswered] == served + [PollAnswered];
  }

  /** Nothing makes the client answer first, and without it there is no progress: while the tasks of a batch are
      under way it may be handed out again any number of times, and any request outside it not once. */
  lemma {:induction false} UnansweredBatchComesAgain(c: Client, tid: string, rows: seq<string>, n: nat)
    requires c.running && c.flight.Idle? && IsLive(c.world, tid) && QueryAnswer(c.world.db, tid, POLL_LIMIT, rows)
    ensures AfterRounds(c, tid, Rounds(rows, n), rows, n)
  {
    if n > 0 {
      UnansweredBatchComesAgain(c, tid, rows, n - 1);
      OneMoreRound(c, tid, Rounds(rows, n - 1), rows, n - 1);
    }
  }

  lemma RoundsPassOver(t: Trace, c: Client, tid: string, rows: seq<string>, rid: string)
    requires Run(t.worlds, t.events) && Polls(t.events, t.polls, tid, POLL_LIMIT) && OnlyBatch(t, tid, rows)
    requires rid in Pending(c.world.db, tid) && rid !in rows && forall w :: w in t.worlds ==> w == c.world
    ensures forall i :: 0 <= i < |t.polls| ==>
              rid in Pending(t.worlds[t.polls[i]].db, tid) && rid !in Batch(t.events, t.polls[i])
  {
    forall i | 0 <= i < |t.polls|
      ensures rid in Pending(t.worlds[t.polls[i]].db, tid) && rid !in Batch(t.events, t.polls[i])
    {
      assert t.worlds[t.polls[i]] in t.worlds;
    }
  }

  /** So the bound of delivery is lost: with a full batch before it, a request may be pending at any number of
      polls, k div 10 + 1 among them, and be handed out by none. */
  lemma PassedOverForever(c: Client, tid: string, rows: seq<string>, rid: string, n: nat)
    requires c.running && c.flight.Idle? && IsLive(c.world, tid) && QueryAnswer(c.world.db, tid, POLL_LIMIT, rows)
    requires rid in Pending(c.world.db, tid) && rid !in rows
    ensures var t := TraceOf(c, tid, Rounds(rows, n));
            Allowed(c, tid, Rounds(rows, n)) && |t.polls| == n && Run(t.worlds, t.events) &&
            Polls(t.events, t.polls, tid, POLL_LIMIT) &&
            forall i :: 0 <= i < n ==> rid in Pending(t.worlds[t.polls[i]].db, tid) && rid !in Batch(t.events, t.polls[i])
  {
    UnansweredBatchComesAgain(c, tid, rows, n);
    MovesAreARun(c, tid, Rounds(rows, n));
    RoundsPassOver(TraceOf(c, tid, Rounds(rows, n)), c, tid, rows, rid);
  }
}
