/** Delivery: how many polls a pending request waits, in any run in which the client
    answers each batch before it polls again and other parties do what they like. */
module RelayDelivery {
  import opened Sequences
  import opened RelayTime
  import opened RelayStore
  import opened RelayRuns

  /** The requests of tid, other than rid, stamped no later than rid. */
  function NoLaterThan(db: Db, tid: string, rid: string): set<string>
    requires rid in db.requests
  {
    set r | r in db.requests && r != rid && db.requests[r].tunnelId == tid &&
            !Before(db.requests[rid].createdAt, db.requests[r].createdAt)
  }

  /** Those of them not yet answered when the waiting starts. */
  function Rivals(start: Db, end: Db, tid: string, rid: string): set<string>
    requires rid in end.requests
  {
    set r | r in NoLaterThan(end, tid, rid) && !(r in start.requests && start.requests[r].responded)
  }

  // ---- what no step undoes ----

  /** Requests stay, with their tunnel and stamp; answered ones stay answered. */
  ghost predicate Grows(db: Db, db': Db) {
    forall r :: r in db.requests ==>
      r in db'.requests && db'.requests[r].tunnelId == db.requests[r].tunnelId &&
      db'.requests[r].createdAt == db.requests[r].createdAt &&
      (db.requests[r].responded ==> db'.requests[r].responded)
  }

  lemma StepGrows(w: World, e: Event, w': World)
    requires Step(w, e, w')
    ensures Grows(w.db, w'.db)
  {
  }

  ghost predicate Growing(ws: seq<World>) {
    forall i :: 0 <= i < |ws| - 1 ==> Grows(ws[i].db, ws[i + 1].db)
  }

  lemma {:induction false} GrowingGrows(ws: seq<World>, i: nat, j: nat)
    requires Growing(ws) && i <= j < |ws|
    ensures Grows(ws[i].db, ws[j].db)
    decreases j
  {
    if i < j {
      GrowingGrows(ws, i, j - 1);
      assert Grows(ws[j - 1].db, ws[j - 1 + 1].db);
    }
  }

  lemma RunIsGrowing(ws: seq<World>, es: seq<Event>)
    requires Run(ws, es)
    ensures Growing(ws)
  {
    forall i | 0 <= i < |ws| - 1 ensures Grows(ws[i].db, ws[i + 1].db) {
      assert Step(ws[i], es[i], ws[i + 1]);
      StepGrows(ws[i], es[i], ws[i + 1]);
    }
  }

  lemma RunGrows(ws: seq<World>, es: seq<Event>, i: nat, j: nat)
    requires Run(ws, es) && i <= j < |ws|
    ensures Grows(ws[i].db, ws[j].db)
  {
    RunIsGrowing(ws, es);
    GrowingGrows(ws, i, j);
  }

  function Elements(s: seq<string>): set<string> {
    set r | r in s
  }

  // ---- one poll ----

  /** The batch is as many earliest-stamped pending requests as the limit and the queue allow; a negative limit
      allows all. */
  lemma PollTakesEarliest(db: Db, tid: string, limit: int, batch: seq<string>)
    requires QueryAnswer(db, tid, limit, batch)
    ensures |batch| == if limit < 0 || |Pending(db, tid)| < limit then |Pending(db, tid)| else limit
    ensures limit < 0 || |Pending(db, tid)| <= limit ==> forall r :: r in Pending(db, tid) ==> r in batch
    ensures forall r, p :: r in batch && p in Pending(db, tid) && p !in batch ==> NoLater(db, r, p)
  {
    DistinctSize(batch);
    if limit < 0 || |Pending(db, tid)| <= limit {
      SubsetOfSameSize(Elements(batch), Pending(db, tid));
      assert forall r :: r in Elements(batch) ==> r in batch;
    }
  }

  lemma {:induction false} DistinctSize(s: seq<string>)
    requires forall i, j :: 0 <= i < j < |s| ==> s[i] != s[j]
    ensures |Elements(s)| == |s|
  {
    if s != [] {
      var last := |s| - 1;
      DistinctSize(s[..last]);
      assert s[last] !in s[..last];
      assert Elements(s) == Elements(s[..last]) + {s[last]};
    }
  }

  lemma SubsetOfSameSize(a: set<string>, b: set<string>)
    requires a <= b && |a| == |b|
    ensures a == b
  {
    assert |b - a| == |b| - |a|;
  }

  /** A poll that passes rid over hands out a full batch of requests stamped no later. */
  lemma PassedOver(db: Db, tid: string, limit: nat, batch: seq<string>, rid: string)
    requires QueryAnswer(db, tid, limit, batch) && rid in Pending(db, tid) && rid !in batch
    ensures |batch| == limit
    ensures forall r :: r in batch ==> r in NoLaterThan(db, tid, rid) && !db.requests[r].responded
  {
    PollTakesEarliest(db, tid, limit, batch);
    forall r | r in batch ensures r in NoLaterThan(db, tid, rid) && !db.requests[r].responded {
      assert r in Pending(db, tid) && NoLater(db, r, rid);
    }
  }

  // ---- many polls ----

  /** Event number polls[i] of the run is a poll of the tunnel under the limit. */
  ghost predicate Polls(es: seq<Event>, polls: seq<nat>, tid: string, limit: int) {
    (forall i :: 0 <= i < |polls| ==>
       polls[i] < |es| && es[polls[i]].Polled? && es[polls[i]].tid == tid && es[polls[i]].limit == limit) &&
    (forall i, j :: 0 <= i < j < |polls| ==> polls[i] < polls[j])
  }

  function Batch(es: seq<Event>, poll: nat): seq<string>
    requires poll < |es| && es[poll].Polled?
  {
    es[poll].batch
  }

  /** Whatever a poll hands out is answered before the next of these polls. */
  ghost predicate AnswersBatches(ws: seq<World>, es: seq<Event>, polls: seq<nat>, tid: string, limit: int)
    requires Run(ws, es) && Polls(es, polls, tid, limit)
  {
    forall i, r :: 0 <= i < |polls| - 1 && r in Batch(es, polls[i]) ==>
      r in ws[polls[i + 1]].db.requests && ws[polls[i + 1]].db.requests[r].responded
  }

  ghost predicate WaitsThrough(ws: seq<World>, es: seq<Event>, polls: seq<nat>, tid: string, limit: int, rid: string)
    requires Run(ws, es) && Polls(es, polls, tid, limit)
  {
    forall i :: 0 <= i < |polls| ==> rid in Pending(ws[polls[i]].db, tid) && rid !in Batch(es, polls[i])
  }

  /** One poll of the waiting: full, of rivals, none of them answered yet. */
  lemma OneBatch(ws: seq<World>, es: seq<Event>, polls: seq<nat>, tid: string, limit: nat, rid: string, i: nat)
    requires Run(ws, es) && Polls(es, polls, tid, limit) && WaitsThrough(ws, es, polls, tid, limit, rid)
    requires i < |polls|
    ensures rid in ws[|ws| - 1].db.requests
    ensures |Elements(Batch(es, polls[i]))| == limit
    ensures forall r :: r in Batch(es, polls[i]) ==>
              r in Rivals(ws[polls[0]].db, ws[|ws| - 1].db, tid, rid) &&
              r in ws[polls[i]].db.requests && !ws[polls[i]].db.requests[r].responded
  {
    var p, end := polls[i], |ws| - 1;
    assert Step(ws[p], es[p], ws[p + 1]);
    var batch := Batch(es, p);
    PassedOver(ws[p].db, tid, limit, batch, rid);
    DistinctSize(batch);
    RunGrows(ws, es, p, end);
    assert polls[0] <= p;
    RunGrows(ws, es, polls[0], p);
    RivalsHere(ws[polls[0]].db, ws[p].db, ws[end].db, tid, rid, batch);
  }

  lemma RivalsHere(start: Db, now: Db, end: Db, tid: string, rid: string, batch: seq<string>)
    requires Grows(start, now) && Grows(now, end) && rid in now.requests
    requires forall r :: r in batch ==> r in NoLaterThan(now, tid, rid) && !now.requests[r].responded
    ensures rid in end.requests && forall r :: r in batch ==> r in Rivals(start, end, tid, rid)
  {
  }

  /** What one poll handed out has been answered by the time of any later one, which so hands out other requests. */
  lemma BatchesAreDisjoint(ws: seq<World>, es: seq<Event>, polls: seq<nat>, tid: string, limit: nat, i: nat, j: nat)
    requires Run(ws, es) && Polls(es, polls, tid, limit) && AnswersBatches(ws, es, polls, tid, limit)
    requires i < j < |polls|
    requires forall r :: r in Batch(es, polls[j]) ==> r in ws[polls[j]].db.requests && !ws[polls[j]].db.requests[r].responded
    ensures Elements(Batch(es, polls[i])) !! Elements(Batch(es, polls[j]))
  {
    assert polls[i + 1] <= polls[j];
    RunGrows(ws, es, polls[i + 1], polls[j]);
    forall r | r in Batch(es, polls[i]) ensures r !in Batch(es, polls[j]) {
      assert ws[polls[i + 1]].db.requests[r].responded;
    }
  }

  function Union(sets: seq<set<string>>): set<string> {
    if sets == [] then {} else Union(sets[..|sets| - 1]) + sets[|sets| - 1]
  }

  lemma {:induction false} UnionMembers(sets: seq<set<string>>, r: string)
    ensures r in Union(sets) <==> exists i :: 0 <= i < |sets| && r in sets[i]
  {
    if sets != [] {
      UnionMembers(sets[..|sets| - 1], r);
    }
  }

  /** Disjoint sets of one size inside a whole add up. */
  lemma {:induction false} DisjointSetsAddUp(sets: seq<set<string>>, limit: nat, whole: set<string>)
    requires forall i :: 0 <= i < |sets| ==> |sets[i]| == limit && sets[i] <= whole
    requires forall i, j :: 0 <= i < j < |sets| ==> sets[i] !! sets[j]
    ensures |Union(sets)| == |sets| * limit && Union(sets) <= whole
  {
    if sets != [] {
      var last := |sets| - 1;
      DisjointSetsAddUp(sets[..last], limit, whole);
      forall r | r in sets[last] ensures r !in Union(sets[..last]) {
        UnionMembers(sets[..last], r);
      }
      UnionSize(Union(sets[..last]), sets[last]);
      Times(last, limit);
    }
  }

  lemma UnionSize(a: set<string>, b: set<string>)
    requires forall r :: r in b ==> r !in a
    ensures |a + b| == |a| + |b|
  {
    assert a !! b;
  }

  /** While rid waits, every poll takes `limit` new rivals out of a set that does not grow. */
  lemma WaitingTakesRivals(ws: seq<World>, es: seq<Event>, polls: seq<nat>, tid: string, limit: nat, rid: string)
    requires Run(ws, es) && Polls(es, polls, tid, limit) && AnswersBatches(ws, es, polls, tid, limit)
    requires WaitsThrough(ws, es, polls, tid, limit, rid) && polls != []
    ensures rid in ws[|ws| - 1].db.requests
    ensures |polls| * limit <= |Rivals(ws[polls[0]].db, ws[|ws| - 1].db, tid, rid)|
  {
    OneBatch(ws, es, polls, tid, limit, rid, 0);
    var rivals := Rivals(ws[polls[0]].db, ws[|ws| - 1].db, tid, rid);
    var sets := seq(|polls|, i requires 0 <= i < |polls| => Elements(Batch(es, polls[i])));
    forall i | 0 <= i < |sets| ensures |sets[i]| == limit && sets[i] <= rivals {
      OneBatch(ws, es, polls, tid, limit, rid, i);
    }
    forall i, j | 0 <= i < j < |sets| ensures sets[i] !! sets[j] {
      OneBatch(ws, es, polls, tid, limit, rid, j);
      BatchesAreDisjoint(ws, es, polls, tid, limit, i, j);
    }
    DisjointSetsAddUp(sets, limit, rivals);
    SubsetSize(Union(sets), rivals);
  }

  /** Delivery: among more than K div limit polls, K being the number of rivals, one hands rid out
      if it is still pending at the last of them. No assumption is made about other senders,
      responders, deletions or clean-ups in between. */
  lemma HandedOutInTime(ws: seq<World>, es: seq<Event>, polls: seq<nat>, tid: string, limit: nat, rid: string)
    requires Run(ws, es) && Polls(es, polls, tid, limit) && AnswersBatches(ws, es, polls, tid, limit)
    requires limit >= 1 && polls != []
    requires rid in Pending(ws[polls[0]].db, tid) && rid in Pending(ws[polls[|polls| - 1]].db, tid)
    requires rid in ws[|ws| - 1].db.requests
    requires |polls| >= |Rivals(ws[polls[0]].db, ws[|ws| - 1].db, tid, rid)| / limit + 1
    ensures exists i :: 0 <= i < |polls| && rid in Batch(es, polls[i])
  {
    var last := |polls| - 1;
    if forall i :: 0 <= i < |polls| ==> rid !in Batch(es, polls[i]) {
      forall i | 0 <= i < |polls| ensures rid in Pending(ws[polls[i]].db, tid) {
        RunGrows(ws, es, polls[0], polls[i]);
        RunGrows(ws, es, polls[i], polls[last]);
      }
      var rivals := Rivals(ws[polls[0]].db, ws[|ws| - 1].db, tid, rid);
      WaitingTakesRivals(ws, es, polls, tid, limit, rid);
      Quotient(|rivals|, limit, |polls|);
    }
  }

  lemma SubsetSize(a: set<string>, b: set<string>)
    requires a <= b
    ensures |a| <= |b|
  {
    assert |b - a| == |b| - |a|;
  }

  lemma Quotient(k: nat, limit: nat, n: nat)
    requires limit >= 1 && n >= k / limit + 1
    ensures n * limit > k
  {
    assert (k / limit + 1) * limit > k;
    assert n * limit >= (k / limit + 1) * limit;
  }

  // ---- when the rivals are just those already waiting ----

  /** The clock has left the second rid was stamped in. */
  ghost predicate Settled(w: World, rid: string) {
    rid in w.db.requests && Before(w.db.requests[rid].createdAt, Stamp(w.now))
  }

  ghost predicate SameRivals(w: World, w': World, tid: string, rid: string) {
    Settled(w, rid) ==> Settled(w', rid) && NoLaterThan(w'.db, tid, rid) == NoLaterThan(w.db, tid, rid)
  }

  lemma {:induction false} SettledStaysSettled(ws: seq<World>, tid: string, rid: string, i: nat, j: nat)
    requires i <= j < |ws| && Settled(ws[i], rid)
    requires forall k :: 0 <= k < |ws| - 1 ==> SameRivals(ws[k], ws[k + 1], tid, rid)
    ensures Settled(ws[j], rid) && NoLaterThan(ws[j].db, tid, rid) == NoLaterThan(ws[i].db, tid, rid)
    decreases j
  {
    if i < j {
      SettledStaysSettled(ws, tid, rid, i, j - 1);
      assert SameRivals(ws[j - 1], ws[j - 1 + 1], tid, rid);
    }
  }

  /** From then on no step brings a new rival. */
  lemma NoNewRivals(ws: seq<World>, es: seq<Event>, tid: string, rid: string, i: nat, j: nat)
    requires Run(ws, es) && i <= j < |ws| && Settled(ws[i], rid)
    ensures Settled(ws[j], rid) && NoLaterThan(ws[j].db, tid, rid) == NoLaterThan(ws[i].db, tid, rid)
  {
    forall k | 0 <= k < |ws| - 1 ensures SameRivals(ws[k], ws[k + 1], tid, rid) {
      assert Step(ws[k], es[k], ws[k + 1]);
      if Settled(ws[k], rid) {
        NoNewRivalsStep(ws[k], es[k], ws[k + 1], tid, rid);
      }
    }
    SettledStaysSettled(ws, tid, rid, i, j);
  }

  lemma NoNewRivalsStep(w: World, e: Event, w': World, tid: string, rid: string)
    requires Step(w, e, w') && Settled(w, rid)
    ensures Settled(w', rid) && NoLaterThan(w'.db, tid, rid) == NoLaterThan(w.db, tid, rid)
  {
    StepGrows(w, e, w');
    ClockText(w.now, w'.now);
    var mine := w.db.requests[rid].createdAt;
    if !Before(mine, Stamp(w'.now)) {
      NotBeforeIsTransitive(Stamp(w.now), Stamp(w'.now), mine);
    }
    forall r | r in w'.db.requests && r !in w.db.requests
      ensures Before(mine, w'.db.requests[r].createdAt)
    {
      assert e.Sent? && w'.db.requests[r].createdAt == Stamp(w.now);
    }
  }

  /** The bound in terms of what the queue shows at the first poll: k others pending and stamped no later
      means at most k div limit + 1 polls. */
  lemma HandedOutByPosition(ws: seq<World>, es: seq<Event>, polls: seq<nat>, tid: string, limit: nat, rid: string, k: nat)
    requires Run(ws, es) && Polls(es, polls, tid, limit) && AnswersBatches(ws, es, polls, tid, limit)
    requires limit >= 1 && |polls| == k / limit + 1
    requires rid in Pending(ws[polls[0]].db, tid) && rid in Pending(ws[polls[|polls| - 1]].db, tid)
    requires Settled(ws[polls[0]], rid)
    requires k == |NoLaterThan(ws[polls[0]].db, tid, rid) * Pending(ws[polls[0]].db, tid)|
    ensures exists i :: 0 <= i < |polls| && rid in Batch(es, polls[i])
  {
    var start, end := polls[0], |ws| - 1;
    NoNewRivals(ws, es, tid, rid, start, end);
    assert Rivals(ws[start].db, ws[end].db, tid, rid) == NoLaterThan(ws[start].db, tid, rid) * Pending(ws[start].db, tid);
    HandedOutInTime(ws, es, polls, tid, limit, rid);
  }
}
