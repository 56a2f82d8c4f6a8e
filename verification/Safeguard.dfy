/** The single-instance safeguard: a cache of killed PIDs and a lock file, shared by every process
    that starts.

    Each start and each exit is one step. What the process scan and the probes report, whether
    a kill succeeds, and what the clock says are inputs; cache and lock writes succeed. */
module Safeguard {
  import opened Wrappers

  const MAX_AGE := 30.0

  /** The lock file: none, JSON naming a pid or none, or other text from older versions. */
  datatype Lock = Absent | Json(pid: Option<int>) | Plain(text: string)

  /** One scanned process: what the probes say of it, how a kill of it ends, and when. */
  datatype Probe = Probe(pid: int, young: bool, nodeChild: bool, alive: bool, killed: bool, at: real)

  /** Everything one start depends on. */
  datatype Start = Start(
    pid: int, shared: bool, nodeParent: Option<int>, readAt: real, scan: seq<Probe>, wroteAt: real,
    lockProbe: Probe, endAt: real)

  datatype Kill = Kill(pid: int, at: real, killer: int, parent: Option<int>, recorded: bool)

  datatype State = State(cache: map<int, real>, lock: Lock, kills: seq<Kill>, now: real)

  datatype Event = Started(s: Start) | Exited(pid: int)

  /** How plain lock texts read: their first line as a number, and whether they begin with a pid. */
  datatype Reading = Reading(firstInt: string -> Option<int>, begins: (string, int) -> bool)

  /** Entries younger than the limit, on reading and on writing the cache file. */
  function Fresh(cache: map<int, real>, now: real): map<int, real> {
    map p | p in cache && now - cache[p] < MAX_AGE :: cache[p]
  }

  predicate IsParent(parent: Option<int>, pid: int) {
    parent.Some? && parent.value != 0 && parent.value == pid
  }

  /** The tests a pid must come through to be killed, in both phases. */
  predicate Target(probe: Probe, cache: map<int, real>, self: int, parent: Option<int>) {
    probe.pid != self && probe.pid !in cache && !IsParent(parent, probe.pid) && !probe.young && !probe.nodeChild
  }

  function ScanKills(scan: seq<Probe>, cache: map<int, real>, self: int, parent: Option<int>): seq<Kill> {
    if scan == [] then []
    else
      var last := |scan| - 1;
      ScanKills(scan[..last], cache, self, parent) +
      (if Target(scan[last], cache, self, parent)
       then [Kill(scan[last].pid, scan[last].at, self, parent, scan[last].killed)] else [])
  }

  predicate AnyRecorded(kills: seq<Kill>) {
    exists k :: 0 <= k < |kills| && kills[k].recorded
  }

  /** The cache with the recorded kills entered, later ones over earlier ones. */
  function Entered(cache: map<int, real>, kills: seq<Kill>): map<int, real> {
    if kills == [] then cache
    else
      var last := |kills| - 1;
      var before := Entered(cache, kills[..last]);
      if kills[last].recorded then before[kills[last].pid := kills[last].at] else before
  }

  function LockPid(lock: Lock, reading: Reading): Option<int> {
    match lock
    case Absent => None
    case Json(pid) => pid
    case Plain(text) => reading.firstInt(text)
  }

  /** The lock's owner is killed: phase 1 recorded no kill, and the owner is a live target. */
  predicate LockTarget(st: State, s: Start, cache: map<int, real>, kills: seq<Kill>, reading: Reading) {
    var owner := LockPid(st.lock, reading);
    !AnyRecorded(kills) && owner.Some? && owner.value != 0 && s.lockProbe.alive &&
    Target(s.lockProbe.(pid := owner.value), cache, s.pid, s.nodeParent)
  }

  function AfterStart(st: State, s: Start, reading: Reading): State {
    if s.shared then State(st.cache, Json(Some(s.pid)), st.kills, s.endAt)
    else
      var known := Fresh(st.cache, s.readAt);
      var kills := ScanKills(s.scan, known, s.pid, s.nodeParent);
      if AnyRecorded(kills) then
        State(Fresh(Entered(known, kills), s.wroteAt), Json(Some(s.pid)), st.kills + kills, s.endAt)
      else if LockTarget(st, s, known, kills, reading) then
        var owner := LockPid(st.lock, reading).value;
        State(Fresh(known[owner := s.lockProbe.at], s.endAt), Json(Some(s.pid)),
              st.kills + kills + [Kill(owner, s.lockProbe.at, s.pid, s.nodeParent, true)], s.endAt)
      else State(st.cache, Json(Some(s.pid)), st.kills + kills, s.endAt)
  }

  /** The exit handler removes the lock only if it still names the exiting process. */
  function AfterExit(st: State, pid: int, reading: Reading): State {
    match st.lock
    case Absent => st
    case Json(owner) => if owner == Some(pid) then st.(lock := Absent) else st
    case Plain(text) => if reading.begins(text, pid) then st.(lock := Absent) else st
  }

  function After(st: State, e: Event, reading: Reading): State {
    match e
    case Started(s) => AfterStart(st, s, reading)
    case Exited(pid) => AfterExit(st, pid, reading)
  }

  class Files {
    var cache: map<int, real>
    var lock: Lock
    const reading: Reading
    ghost var kills: seq<Kill>
    ghost var now: real

    ghost function View(): State
      reads this
    {
      State(cache, lock, kills, now)
    }

    constructor (cache: map<int, real>, lock: Lock, reading: Reading)
      ensures View() == State(cache, lock, [], 0.0) && this.reading == reading
    {
      this.cache, this.lock, this.reading, this.kills, this.now := cache, lock, reading, [], 0.0;
    }

    method ReadKilledCache(now: real) returns (r: map<int, real>)
      ensures r == Fresh(cache, now)
    {
      r := map p | p in cache && now - cache[p] < MAX_AGE :: cache[p];
    }

    method WriteKilledCache(killed: map<int, real>, now: real)
      modifies this`cache
      ensures cache == Fresh(killed, now)
    {
      cache := map p | p in killed && now - killed[p] < MAX_AGE :: killed[p];
    }

    /** The scanning loop of phase 1. */
    method KillScanned(scan: seq<Probe>, known: map<int, real>, self: int, parent: Option<int>)
      returns (killedCache: map<int, real>, killedAny: bool)
      modifies this`kills
      ensures kills == old(kills) + ScanKills(scan, known, self, parent)
      ensures killedCache == Entered(known, ScanKills(scan, known, self, parent))
      ensures killedAny <==> AnyRecorded(ScanKills(scan, known, self, parent))
    {
      killedCache, killedAny := known, false;
      ghost var done: seq<Kill> := [];
      for i := 0 to |scan|
        invariant done == ScanKills(scan[..i], known, self, parent)
        invariant kills == old(kills) + done && killedCache == Entered(known, done)
        invariant killedAny <==> AnyRecorded(done)
      {
        assert scan[..i + 1][..i] == scan[..i];
        var p := scan[i];
        if p.pid == self { continue; }
        if p.pid in known { continue; }
        if parent.Some? && parent.value != 0 && p.pid == parent.value { continue; }
        if p.young { continue; }
        if p.nodeChild { continue; }
        ghost var kill := Kill(p.pid, p.at, self, parent, p.killed);
        OneMoreKill(known, done, kill);
        kills := kills + [kill];
        if p.killed {
          killedAny := true;
          killedCache := killedCache[p.pid := p.at];
        }
        done := done + [kill];
      }
      assert scan[..|scan|] == scan;
    }

    method SafeguardInstance(s: Start)
      modifies this
      ensures View() == AfterStart(old(View()), s, reading)
    {
      if s.shared {
        lock := Json(Some(s.pid));
        now := s.endAt;
        return;
      }
      var known := ReadKilledCache(s.readAt);
      ghost var found := ScanKills(s.scan, known, s.pid, s.nodeParent);
      var killedCache, killedAny := KillScanned(s.scan, known, s.pid, s.nodeParent);
      if killedAny {
        WriteKilledCache(killedCache, s.wroteAt);
      } else {
        NothingEntered(known, found);
        var owner := LockPid(lock, reading);
        if owner.Some? && owner.value != 0 && owner.value != s.pid {
          if owner.value !in killedCache && !(s.nodeParent.Some? && s.nodeParent.value != 0 && owner.value == s.nodeParent.value) &&
             !s.lockProbe.young && !s.lockProbe.nodeChild && s.lockProbe.alive {
            kills := kills + [Kill(owner.value, s.lockProbe.at, s.pid, s.nodeParent, true)];
            killedCache := killedCache[owner.value := s.lockProbe.at];
            WriteKilledCache(killedCache, s.endAt);
          }
        }
      }
      lock := Json(Some(s.pid));
      now := s.endAt;
    }

    method Cleanup(pid: int)
      modifies this`lock
      ensures View() == AfterExit(old(View()), pid, reading)
    {
      match lock {
        case Absent =>
        case Json(owner) =>
          if owner == Some(pid) { lock := Absent; }
        case Plain(text) =>
          if reading.begins(text, pid) { lock := Absent; }
      }
    }
  }

  lemma OneMoreKill(cache: map<int, real>, done: seq<Kill>, kill: Kill)
    ensures Entered(cache, done + [kill]) ==
            if kill.recorded then Entered(cache, done)[kill.pid := kill.at] else Entered(cache, done)
    ensures AnyRecorded(done + [kill]) <==> AnyRecorded(done) || kill.recorded
  {
    var all := done + [kill];
    assert all[..|all| - 1] == done;
    assert AnyRecorded(all) ==> AnyRecorded(done) || kill.recorded;
    if AnyRecorded(done) {
      var k :| 0 <= k < |done| && done[k].recorded;
      assert all[k].recorded;
    }
    assert kill.recorded ==> all[|done|].recorded;
  }

  lemma {:induction false} NothingEntered(cache: map<int, real>, kills: seq<Kill>)
    requires !AnyRecorded(kills)
    ensures Entered(cache, kills) == cache
  {
    if kills != [] {
      assert !kills[|kills| - 1].recorded;
      NothingEntered(cache, kills[..|kills| - 1]);
    }
  }

  // ---- runs ----

  /** The clock does not run back, within a start or between events. */
  ghost predicate WellTimed(st: State, e: Event) {
    e.Started? ==>
      st.now <= e.s.readAt <= e.s.wroteAt <= e.s.lockProbe.at <= e.s.endAt &&
      forall i :: 0 <= i < |e.s.scan| ==> e.s.readAt <= e.s.scan[i].at <= e.s.wroteAt
  }

  ghost predicate Run(sts: seq<State>, es: seq<Event>, reading: Reading) {
    |sts| == |es| + 1 &&
    forall i :: 0 <= i < |es| ==> WellTimed(sts[i], es[i]) && sts[i + 1] == After(sts[i], es[i], reading)
  }

  /** The scan lists no pid twice; nothing in the code removes duplicates. */
  ghost predicate DistinctScan(e: Event) {
    e.Started? ==> DistinctPids(e.s.scan)
  }

  // ---- who is killed ----

  ghost predicate Lawful(kill: Kill) {
    kill.pid != kill.killer && !IsParent(kill.parent, kill.pid)
  }

  /** The kill comes of the scanned process. */
  predicate KillOf(kill: Kill, p: Probe, cache: map<int, real>, self: int, parent: Option<int>) {
    Target(p, cache, self, parent) && kill == Kill(p.pid, p.at, self, parent, p.killed)
  }

  ghost predicate Comes(kill: Kill, scan: seq<Probe>, cache: map<int, real>, self: int, parent: Option<int>) {
    exists i :: 0 <= i < |scan| && KillOf(kill, scan[i], cache, self, parent)
  }

  lemma {:induction false} ScanKillsAre(scan: seq<Probe>, cache: map<int, real>, self: int, parent: Option<int>)
    ensures forall k :: 0 <= k < |ScanKills(scan, cache, self, parent)| ==>
              Comes(ScanKills(scan, cache, self, parent)[k], scan, cache, self, parent)
  {
    if scan != [] {
      var last := |scan| - 1;
      ScanKillsAre(scan[..last], cache, self, parent);
      forall k | 0 <= k < |ScanKills(scan[..last], cache, self, parent)|
        ensures Comes(ScanKills(scan[..last], cache, self, parent)[k], scan, cache, self, parent)
      {
        var kill := ScanKills(scan[..last], cache, self, parent)[k];
        var i :| 0 <= i < last && KillOf(kill, scan[..last][i], cache, self, parent);
        assert scan[i] == scan[..last][i];
      }
    }
  }

  /** A start only ever adds kills, none of itself or of its own Node parent; in shared mode none at all. */
  lemma StartKillsLawfully(st: State, s: Start, reading: Reading)
    ensures st.kills <= AfterStart(st, s, reading).kills
    ensures forall k :: |st.kills| <= k < |AfterStart(st, s, reading).kills| ==> Lawful(AfterStart(st, s, reading).kills[k])
    ensures s.shared ==> AfterStart(st, s, reading).kills == st.kills
  {
    ScanKillsAre(s.scan, Fresh(st.cache, s.readAt), s.pid, s.nodeParent);
  }

  /** What protects a process: being the starter or its Node parent, having been killed less than 30 seconds
      before the cache was read, being younger than three seconds, or being a child of Node. */
  ghost predicate Spared(p: Probe, st: State, s: Start) {
    p.pid == s.pid ||
    (s.nodeParent.Some? && s.nodeParent.value != 0 && s.nodeParent.value == p.pid) ||
    (p.pid in st.cache && s.readAt - st.cache[p.pid] < 30.0) ||
    p.young || p.nodeChild
  }

  lemma SparedIffNoTarget(p: Probe, st: State, s: Start)
    ensures Spared(p, st, s) <==> !Target(p, Fresh(st.cache, s.readAt), s.pid, s.nodeParent)
  {
  }

  function KillBy(s: Start, p: Probe): Kill {
    Kill(p.pid, p.at, s.pid, s.nodeParent, p.killed)
  }

  ghost predicate Rising(hits: seq<nat>, n: nat) {
    (forall k :: 0 <= k < |hits| ==> hits[k] < n) && forall k, l :: 0 <= k < l < |hits| ==> hits[k] < hits[l]
  }

  /** The positions in the scan of the processes that phase 1 kills, in order. */
  lemma {:induction false} ScanHits(scan: seq<Probe>, st: State, s: Start) returns (hits: seq<nat>)
    ensures Rising(hits, |scan|) && forall i: nat :: i < |scan| ==> (i in hits <==> !Spared(scan[i], st, s))
    ensures var kills := ScanKills(scan, Fresh(st.cache, s.readAt), s.pid, s.nodeParent);
            |kills| == |hits| && forall k :: 0 <= k < |hits| ==> kills[k] == KillBy(s, scan[hits[k]])
  {
    hits := [];
    if scan != [] {
      var last := |scan| - 1;
      hits := ScanHits(scan[..last], st, s);
      SparedIffNoTarget(scan[last], st, s);
      if !Spared(scan[last], st, s) {
        hits := hits + [last];
      }
    }
  }

  ghost predicate OwnerIs(lock: Lock, reading: Reading, owner: int) {
    lock == Json(Some(owner)) || (lock.Plain? && reading.firstInt(lock.text) == Some(owner))
  }

  /** Phase 2 kills the owner: no kill of phase 1 succeeded, and the lock names a live process that nothing spares. */
  ghost predicate OwnerFalls(st: State, s: Start, reading: Reading, owner: int, hits: seq<nat>)
    requires Rising(hits, |s.scan|)
  {
    (forall k :: 0 <= k < |hits| ==> !s.scan[hits[k]].killed) &&
    OwnerIs(st.lock, reading, owner) && owner != 0 && s.lockProbe.alive && !Spared(s.lockProbe.(pid := owner), st, s)
  }

  /** The kills after a start: those before, those of phase 1, and that of the lock's owner if it falls. */
  ghost predicate KillsAdded(before: seq<Kill>, after: seq<Kill>, st: State, s: Start, reading: Reading, hits: seq<nat>)
    requires Rising(hits, |s.scan|)
  {
    before <= after && |before| + |hits| <= |after| <= |before| + |hits| + 1 &&
    (forall k :: 0 <= k < |hits| ==> after[|before| + k] == KillBy(s, s.scan[hits[k]])) &&
    ((exists owner :: OwnerFalls(st, s, reading, owner, hits)) <==> |after| == |before| + |hits| + 1) &&
    forall owner :: OwnerFalls(st, s, reading, owner, hits) ==>
      after[|before| + |hits|] == Kill(owner, s.lockProbe.at, s.pid, s.nodeParent, true)
  }

  /** Exactly who is killed. In stdio mode phase 1 kills, in scan order, every scanned process that nothing spares;
      if none of these kills succeeds, phase 2 kills the live owner of the lock unless something spares it; and
      nobody else is killed. */
  lemma StartKillsExactly(st: State, s: Start, reading: Reading) returns (hits: seq<nat>)
    requires !s.shared
    ensures Rising(hits, |s.scan|) && forall i: nat :: i < |s.scan| ==> (i in hits <==> !Spared(s.scan[i], st, s))
    ensures KillsAdded(st.kills, AfterStart(st, s, reading).kills, st, s, reading, hits)
  {
    hits := ScanHits(s.scan, st, s);
    var kills := ScanKills(s.scan, Fresh(st.cache, s.readAt), s.pid, s.nodeParent);
    KillsInPhases(st, s, reading);
    PhasesAdd(AfterStart(st, s, reading).kills, st, s, reading, hits, kills);
  }

  lemma PhasesAdd(after: seq<Kill>, st: State, s: Start, reading: Reading, hits: seq<nat>, kills: seq<Kill>)
    requires Rising(hits, |s.scan|) && |kills| == |hits|
    requires forall k :: 0 <= k < |hits| ==> kills[k] == KillBy(s, s.scan[hits[k]])
    requires after ==
             if LockTarget(st, s, Fresh(st.cache, s.readAt), kills, reading)
             then st.kills + kills + [Kill(LockPid(st.lock, reading).value, s.lockProbe.at, s.pid, s.nodeParent, true)]
             else st.kills + kills
    ensures KillsAdded(st.kills, after, st, s, reading, hits)
  {
    LockFallsIff(st, s, reading, hits, kills);
    forall k | 0 <= k < |hits| ensures after[|st.kills| + k] == kills[k] {}
  }

  lemma KillsInPhases(st: State, s: Start, reading: Reading)
    requires !s.shared
    ensures var known := Fresh(st.cache, s.readAt);
            var kills := ScanKills(s.scan, known, s.pid, s.nodeParent);
            AfterStart(st, s, reading).kills ==
            if LockTarget(st, s, known, kills, reading)
            then st.kills + kills + [Kill(LockPid(st.lock, reading).value, s.lockProbe.at, s.pid, s.nodeParent, true)]
            else st.kills + kills
  {
  }

  lemma LockFallsIff(st: State, s: Start, reading: Reading, hits: seq<nat>, kills: seq<Kill>)
    requires Rising(hits, |s.scan|) && |kills| == |hits|
    requires forall k :: 0 <= k < |hits| ==> kills[k] == KillBy(s, s.scan[hits[k]])
    ensures var known, owner := Fresh(st.cache, s.readAt), LockPid(st.lock, reading);
            (LockTarget(st, s, known, kills, reading) && !AnyRecorded(kills) <==>
             owner.Some? && OwnerFalls(st, s, reading, owner.value, hits))
    ensures forall owner :: OwnerFalls(st, s, reading, owner, hits) ==> LockPid(st.lock, reading) == Some(owner)
  {
    assert AnyRecorded(kills) <==> exists k :: 0 <= k < |hits| && s.scan[hits[k]].killed by {
      if AnyRecorded(kills) {
        var k :| 0 <= k < |kills| && kills[k].recorded;
        assert s.scan[hits[k]].killed;
      }
      if exists k :: 0 <= k < |hits| && s.scan[hits[k]].killed {
        var k :| 0 <= k < |hits| && s.scan[hits[k]].killed;
        assert kills[k].recorded;
      }
    }
    var owner := LockPid(st.lock, reading);
    if owner.Some? {
      SparedIffNoTarget(s.lockProbe.(pid := owner.value), st, s);
    }
  }

  lemma {:induction false} EnteredFrom(cache: map<int, real>, kills: seq<Kill>, p: int)
    requires p in Entered(cache, kills)
    ensures (p in cache && Entered(cache, kills)[p] == cache[p]) ||
            exists k :: 0 <= k < |kills| && kills[k].recorded && kills[k].pid == p && kills[k].at == Entered(cache, kills)[p]
  {
    if kills != [] {
      var last := |kills| - 1;
      if !(kills[last].recorded && kills[last].pid == p) {
        EnteredFrom(cache, kills[..last], p);
      }
    }
  }

  /** The cache spares nobody without cause: what it lists after a start it listed before, or the start has just
      killed it. */
  lemma CacheListsKills(st: State, s: Start, reading: Reading, p: int)
    requires p in AfterStart(st, s, reading).cache
    ensures var after := AfterStart(st, s, reading);
            (p in st.cache && after.cache[p] == st.cache[p]) ||
            exists k :: |st.kills| <= k < |after.kills| && after.kills[k].recorded && after.kills[k].pid == p &&
                        after.kills[k].at == after.cache[p]
  {
    var known := Fresh(st.cache, s.readAt);
    var kills := ScanKills(s.scan, known, s.pid, s.nodeParent);
    var after := AfterStart(st, s, reading);
    if !s.shared {
      if AnyRecorded(kills) {
        EnteredFrom(known, kills, p);
        if !(p in st.cache && after.cache[p] == st.cache[p]) {
          var k :| 0 <= k < |kills| && kills[k].recorded && kills[k].pid == p && kills[k].at == Entered(known, kills)[p];
          assert after.kills[|st.kills| + k] == kills[k];
        }
      } else if LockTarget(st, s, known, kills, reading) {
        var k := |st.kills| + |kills|;
        assert after.kills[k].recorded && after.kills[k].at == s.lockProbe.at;
      }
    }
  }

  /** An exit takes away the lock that names the exiting process, and touches nothing else. */
  lemma ExitTakesOwnLock(st: State, pid: int, reading: Reading)
    ensures var after := AfterExit(st, pid, reading);
            after.cache == st.cache && after.kills == st.kills && after.now == st.now &&
            after.lock == if st.lock == Json(Some(pid)) || (st.lock.Plain? && reading.begins(st.lock.text, pid))
                          then Absent else st.lock
  {
  }

  // ---- the spacing of kills ----

  /** Recorded kills of one pid are at least the cache age apart. */
  ghost predicate Spaced(kills: seq<Kill>) {
    forall i, j :: 0 <= i < j < |kills| && kills[i].recorded && kills[j].recorded && kills[i].pid == kills[j].pid ==>
      kills[j].at - kills[i].at >= 30.0
  }

  /** The cache remembers every recorded kill that is still young at time t. */
  ghost predicate Remembers(cache: map<int, real>, kills: seq<Kill>, t: real) {
    forall i :: 0 <= i < |kills| && kills[i].recorded && t - kills[i].at < MAX_AGE ==>
      kills[i].pid in cache && cache[kills[i].pid] >= kills[i].at
  }

  ghost predicate Inv(st: State) {
    Spaced(st.kills) && Remembers(st.cache, st.kills, st.now) &&
    forall i :: 0 <= i < |st.kills| ==> st.kills[i].at <= st.now
  }

  /** Dropping what is too old at time t forgets nothing that is young at t or later. */
  lemma FreshRemembers(cache: map<int, real>, kills: seq<Kill>, t: real, later: real)
    requires t <= later && Remembers(cache, kills, t)
    ensures Remembers(Fresh(cache, t), kills, later)
  {
  }

  /** A pid the pruned cache does not list was last killed long enough ago. */
  lemma UnknownIsOld(cache: map<int, real>, kills: seq<Kill>, t: real, pid: int, i: nat)
    requires Remembers(cache, kills, t) && pid !in Fresh(cache, t)
    requires i < |kills| && kills[i].recorded && kills[i].pid == pid
    ensures t - kills[i].at >= MAX_AGE
  {
  }

  /** One more kill of a pid not killed for long enough keeps the spacing and, once entered, the memory. */
  lemma KillStep(cache: map<int, real>, kills: seq<Kill>, t: real, kill: Kill)
    requires Spaced(kills) && Remembers(cache, kills, t)
    requires kill.recorded ==>
               forall i :: 0 <= i < |kills| && kills[i].recorded && kills[i].pid == kill.pid ==> kill.at - kills[i].at >= MAX_AGE
    ensures Spaced(kills + [kill])
    ensures Remembers(if kill.recorded then cache[kill.pid := kill.at] else cache, kills + [kill], t)
  {
  }

  ghost predicate DistinctPids(scan: seq<Probe>) {
    forall i, j :: 0 <= i < j < |scan| ==> scan[i].pid != scan[j].pid
  }

  /** A scanned process that is a target and whose kill succeeds. */
  predicate Falls(p: Probe, cache: map<int, real>, self: int, parent: Option<int>) {
    Target(p, cache, self, parent) && p.killed
  }

  /** No process falls twice in one scan within the cache age. */
  ghost predicate NoQuickRepeat(scan: seq<Probe>, cache: map<int, real>, self: int, parent: Option<int>) {
    forall i, j :: 0 <= i < j < |scan| && scan[i].pid == scan[j].pid &&
                   Falls(scan[i], cache, self, parent) && Falls(scan[j], cache, self, parent) ==>
      scan[j].at - scan[i].at >= 30.0
  }

  /** Phase 1 over a whole scan keeps the spacing, and the updated cache remembers what it killed. */
  lemma {:induction false} ScanStep(cache: map<int, real>, kills: seq<Kill>, t: real, scan: seq<Probe>, self: int, parent: Option<int>)
    requires Spaced(kills) && Remembers(cache, kills, t) && NoQuickRepeat(scan, Fresh(cache, t), self, parent)
    requires forall i :: 0 <= i < |scan| ==> scan[i].at >= t
    ensures var more := ScanKills(scan, Fresh(cache, t), self, parent);
            Spaced(kills + more) && Remembers(Entered(Fresh(cache, t), more), kills + more, t)
  {
    var known := Fresh(cache, t);
    if scan == [] {
      FreshRemembers(cache, kills, t, t);
      assert kills + [] == kills;
    } else {
      var last := |scan| - 1;
      ScanStep(cache, kills, t, scan[..last], self, parent);
      ScanOneMore(scan, known, self, parent);
      var before, p := ScanKills(scan[..last], known, self, parent), scan[last];
      if Target(p, known, self, parent) {
        var kill := Kill(p.pid, p.at, self, parent, p.killed);
        if p.killed {
          EarlierInScan(scan, known, self, parent);
          NotKilledLately(cache, kills, before, t, kill);
        }
        OneScanKill(known, kills, before, t, kill);
      }
    }
  }

  lemma OneScanKill(known: map<int, real>, kills: seq<Kill>, before: seq<Kill>, t: real, kill: Kill)
    requires Spaced(kills + before) && Remembers(Entered(known, before), kills + before, t)
    requires kill.recorded ==>
               forall i :: 0 <= i < |kills + before| && (kills + before)[i].recorded && (kills + before)[i].pid == kill.pid ==>
                 kill.at - (kills + before)[i].at >= MAX_AGE
    ensures Spaced(kills + (before + [kill]))
    ensures Remembers(Entered(known, before + [kill]), kills + (before + [kill]), t)
  {
    KillStep(Entered(known, before), kills + before, t, kill);
    OneMoreKill(known, before, kill);
    assert kills + before + [kill] == kills + (before + [kill]);
  }

  lemma EarlierInScan(scan: seq<Probe>, cache: map<int, real>, self: int, parent: Option<int>)
    requires scan != [] && NoQuickRepeat(scan, cache, self, parent) && Falls(scan[|scan| - 1], cache, self, parent)
    ensures var before, p := ScanKills(scan[..|scan| - 1], cache, self, parent), scan[|scan| - 1];
            forall k :: 0 <= k < |before| && before[k].pid == p.pid && before[k].recorded ==> p.at - before[k].at >= MAX_AGE
  {
    var last := |scan| - 1;
    var before := ScanKills(scan[..last], cache, self, parent);
    ScanKillsAre(scan[..last], cache, self, parent);
    forall k | 0 <= k < |before| && before[k].pid == scan[last].pid && before[k].recorded
      ensures scan[last].at - before[k].at >= MAX_AGE
    {
      var i :| 0 <= i < last && KillOf(before[k], scan[..last][i], cache, self, parent);
      assert Falls(scan[i], cache, self, parent);
    }
  }

  lemma NotKilledLately(cache: map<int, real>, kills: seq<Kill>, more: seq<Kill>, t: real, kill: Kill)
    requires Remembers(cache, kills, t) && kill.pid !in Fresh(cache, t) && kill.at >= t
    requires forall k :: 0 <= k < |more| && more[k].pid == kill.pid && more[k].recorded ==> kill.at - more[k].at >= MAX_AGE
    ensures forall i :: 0 <= i < |kills + more| && (kills + more)[i].recorded && (kills + more)[i].pid == kill.pid ==>
              kill.at - (kills + more)[i].at >= MAX_AGE
  {
    forall i | 0 <= i < |kills| && kills[i].recorded && kills[i].pid == kill.pid ensures kill.at - kills[i].at >= MAX_AGE {
      UnknownIsOld(cache, kills, t, kill.pid, i);
    }
  }

  lemma ScanOneMore(scan: seq<Probe>, cache: map<int, real>, self: int, parent: Option<int>)
    requires scan != []
    ensures var last := |scan| - 1;
            var before, p := ScanKills(scan[..last], cache, self, parent), scan[last];
            ScanKills(scan, cache, self, parent) ==
            if Target(p, cache, self, parent) then before + [Kill(p.pid, p.at, self, parent, p.killed)] else before
  {
  }

  /** The start's scan has no process fall twice within the cache age; a shared start scans nothing. */
  ghost predicate Orderly(st: State, e: Event) {
    e.Started? && !e.s.shared ==> NoQuickRepeat(e.s.scan, Fresh(st.cache, e.s.readAt), e.s.pid, e.s.nodeParent)
  }

  /** The cache as phase 1 has updated it, pruned when it is written, remembers at the end of the start. */
  lemma WrittenRemembers(cache: map<int, real>, kills: seq<Kill>, readAt: real, wroteAt: real, endAt: real)
    requires readAt <= wroteAt <= endAt && Remembers(cache, kills, readAt)
    ensures Remembers(Fresh(cache, wroteAt), kills, endAt)
  {
    assert Remembers(cache, kills, wroteAt);
    FreshRemembers(cache, kills, wroteAt, endAt);
  }

  /** So does the old cache, if no kill succeeded. */
  lemma OldRemembers(cache: map<int, real>, kills: seq<Kill>, more: seq<Kill>, now: real, endAt: real)
    requires now <= endAt && Remembers(cache, kills, now) && !AnyRecorded(more)
    ensures Remembers(cache, kills + more, endAt)
  {
    forall i | |kills| <= i < |kills + more| ensures !(kills + more)[i].recorded {
      assert !more[i - |kills|].recorded;
    }
  }

  lemma KilledInTime(st: State, s: Start, reading: Reading)
    requires Inv(st) && WellTimed(st, Started(s))
    ensures forall i :: 0 <= i < |AfterStart(st, s, reading).kills| ==> AfterStart(st, s, reading).kills[i].at <= s.endAt
  {
    ScanKillsAre(s.scan, Fresh(st.cache, s.readAt), s.pid, s.nodeParent);
  }

  /** Every orderly start keeps the invariant. */
  lemma StartKeepsInv(st: State, s: Start, reading: Reading)
    requires Inv(st) && WellTimed(st, Started(s)) && Orderly(st, Started(s))
    ensures Inv(AfterStart(st, s, reading))
  {
    KilledInTime(st, s, reading);
    if !s.shared {
      var known := Fresh(st.cache, s.readAt);
      var kills := ScanKills(s.scan, known, s.pid, s.nodeParent);
      assert Remembers(st.cache, st.kills, s.readAt);
      ScanStep(st.cache, st.kills, s.readAt, s.scan, s.pid, s.nodeParent);
      if AnyRecorded(kills) {
        WrittenRemembers(Entered(known, kills), st.kills + kills, s.readAt, s.wroteAt, s.endAt);
      } else if LockTarget(st, s, known, kills, reading) {
        NothingEntered(known, kills);
        LockKillKeepsInv(st, s, kills, LockPid(st.lock, reading).value);
      } else {
        OldRemembers(st.cache, st.kills, kills, st.now, s.endAt);
      }
    }
  }

  lemma LockKillKeepsInv(st: State, s: Start, kills: seq<Kill>, owner: int)
    requires Remembers(st.cache, st.kills, s.readAt) && s.readAt <= s.lockProbe.at <= s.endAt
    requires Spaced(st.kills + kills) && !AnyRecorded(kills) && owner !in Fresh(st.cache, s.readAt)
    requires Remembers(Fresh(st.cache, s.readAt), st.kills + kills, s.readAt)
    ensures var kill := Kill(owner, s.lockProbe.at, s.pid, s.nodeParent, true);
            Spaced(st.kills + kills + [kill]) &&
            Remembers(Fresh(Fresh(st.cache, s.readAt)[owner := kill.at], s.endAt), st.kills + kills + [kill], s.endAt)
  {
    var known, all := Fresh(st.cache, s.readAt), st.kills + kills;
    var kill := Kill(owner, s.lockProbe.at, s.pid, s.nodeParent, true);
    forall k | 0 <= k < |kills| ensures !kills[k].recorded {}
    NotKilledLately(st.cache, st.kills, kills, s.readAt, kill);
    KillStep(known, all, s.readAt, kill);
    WrittenRemembers(known[owner := kill.at], all + [kill], s.readAt, s.endAt, s.endAt);
  }

  lemma {:induction false} FallIsAKill(scan: seq<Probe>, cache: map<int, real>, self: int, parent: Option<int>, i: nat)
    returns (k: nat)
    requires i < |scan| && Target(scan[i], cache, self, parent)
    ensures k < |ScanKills(scan, cache, self, parent)|
    ensures KillOf(ScanKills(scan, cache, self, parent)[k], scan[i], cache, self, parent)
  {
    ScanOneMore(scan, cache, self, parent);
    var last := |scan| - 1;
    if i == last {
      k := |ScanKills(scan[..last], cache, self, parent)|;
    } else {
      k := FallIsAKill(scan[..last], cache, self, parent, i);
    }
  }

  lemma {:induction false} FallsAreKillsInOrder(
      scan: seq<Probe>, cache: map<int, real>, self: int, parent: Option<int>, i: nat, j: nat)
    returns (k: nat, l: nat)
    requires i < j < |scan| && Target(scan[i], cache, self, parent) && Target(scan[j], cache, self, parent)
    ensures k < l < |ScanKills(scan, cache, self, parent)|
    ensures KillOf(ScanKills(scan, cache, self, parent)[k], scan[i], cache, self, parent)
    ensures KillOf(ScanKills(scan, cache, self, parent)[l], scan[j], cache, self, parent)
  {
    ScanOneMore(scan, cache, self, parent);
    var last := |scan| - 1;
    if j == last {
      k := FallIsAKill(scan[..last], cache, self, parent, i);
      l := |ScanKills(scan[..last], cache, self, parent)|;
    } else {
      k, l := FallsAreKillsInOrder(scan[..last], cache, self, parent, i, j);
    }
  }

  /** A start that is not orderly breaks the spacing. */
  lemma DisorderShows(st: State, s: Start, reading: Reading)
    requires !Orderly(st, Started(s))
    ensures !Spaced(AfterStart(st, s, reading).kills)
  {
    var known := Fresh(st.cache, s.readAt);
    var kills := ScanKills(s.scan, known, s.pid, s.nodeParent);
    var i, j :| 0 <= i < j < |s.scan| && s.scan[i].pid == s.scan[j].pid &&
                Falls(s.scan[i], known, s.pid, s.nodeParent) && Falls(s.scan[j], known, s.pid, s.nodeParent) &&
                s.scan[j].at - s.scan[i].at < MAX_AGE;
    var k, l := FallsAreKillsInOrder(s.scan, known, s.pid, s.nodeParent, i, j);
    assert kills[k].recorded && AnyRecorded(kills);
    var all := AfterStart(st, s, reading).kills;
    assert all[|st.kills| + k] == kills[k] && all[|st.kills| + l] == kills[l];
  }

  /** Over any run of starts and exits: all recorded kills of one pid are at least 30 seconds apart exactly
      when every start so far was orderly. */
  lemma {:induction false} SpacedIffOrderly(sts: seq<State>, es: seq<Event>, reading: Reading, i: nat)
    requires Run(sts, es, reading) && Inv(sts[0]) && i < |sts|
    ensures Spaced(sts[i].kills) <==> forall k :: 0 <= k < i ==> Orderly(sts[k], es[k])
    ensures Spaced(sts[i].kills) ==> Inv(sts[i])
    decreases i
  {
    if i > 0 {
      SpacedIffOrderly(sts, es, reading, i - 1);
      assert WellTimed(sts[i - 1], es[i - 1]) && sts[i] == After(sts[i - 1], es[i - 1], reading);
      if es[i - 1].Started? {
        StartKillsLawfully(sts[i - 1], es[i - 1].s, reading);
        if !Orderly(sts[i - 1], es[i - 1]) {
          DisorderShows(sts[i - 1], es[i - 1].s, reading);
        } else if Inv(sts[i - 1]) {
          StartKeepsInv(sts[i - 1], es[i - 1].s, reading);
        } else {
          NotSpacedStays(sts[i - 1].kills, sts[i].kills);
        }
      }
    }
  }

  lemma NotSpacedStays(kills: seq<Kill>, more: seq<Kill>)
    requires kills <= more && !Spaced(kills)
    ensures !Spaced(more)
  {
    var i, j :| 0 <= i < j < |kills| && kills[i].recorded && kills[j].recorded && kills[i].pid == kills[j].pid &&
                kills[j].at - kills[i].at < MAX_AGE;
    assert more[i] == kills[i] && more[j] == kills[j];
  }

  /** In particular scans that list no pid twice keep the spacing, whatever else happens. */
  lemma KillsAreSpaced(sts: seq<State>, es: seq<Event>, reading: Reading, i: nat)
    requires Run(sts, es, reading) && Inv(sts[0]) && i < |sts|
    requires forall k :: 0 <= k < |es| ==> DistinctScan(es[k])
    ensures Spaced(sts[i].kills)
  {
    forall k | 0 <= k < i ensures Orderly(sts[k], es[k]) {
      assert DistinctScan(es[k]);
    }
    SpacedIffOrderly(sts, es, reading, i);
  }

  /** A scan that lists a pid twice can have it killed twice within a second. */
  lemma RepeatedPidIsKilledTwice(reading: Reading)
    ensures var p := Probe(7, false, false, true, true, 1.0);
            var s := Start(1, false, None, 0.0, [p, p.(at := 2.0)], 2.0, p.(at := 3.0), 4.0);
            var st := State(map[], Absent, [], 0.0);
            Inv(st) && WellTimed(st, Started(s)) && !Spaced(AfterStart(st, s, reading).kills)
  {
    var p := Probe(7, false, false, true, true, 1.0);
    var q := p.(at := 2.0);
    var s := Start(1, false, None, 0.0, [p, q], 2.0, p.(at := 3.0), 4.0);
    var st := State(map[], Absent, [], 0.0);
    TwoKills(p, q, Fresh(st.cache, s.readAt));
    var kills := ScanKills([p, q], Fresh(st.cache, s.readAt), 1, None);
    var after := AfterStart(st, s, reading).kills;
    assert after == st.kills + kills;
    assert after[0] == kills[0] && after[1] == kills[1] && after[1].at - after[0].at == 1.0;
  }

  lemma TwoKills(p: Probe, q: Probe, cache: map<int, real>)
    requires Target(p, cache, 1, None) && Target(q, cache, 1, None) && p.killed && q.killed
    ensures ScanKills([p, q], cache, 1, None) == [Kill(p.pid, p.at, 1, None, true), Kill(q.pid, q.at, 1, None, true)]
    ensures AnyRecorded(ScanKills([p, q], cache, 1, None))
  {
    ScanOneMore([p], cache, 1, None);
    ScanOneMore([p, q], cache, 1, None);
    assert [p, q][..1] == [p] && [p][..0] == [];
    assert ScanKills([p, q], cache, 1, None)[0].recorded;
  }

  // ---- the lock file ----

  /** The pid of the last start among the first n events. */
  function LatestStarter(es: seq<Event>, n: nat): Option<int>
    requires n <= |es|
  {
    if n == 0 then None else if es[n - 1].Started? then Some(es[n - 1].s.pid) else LatestStarter(es, n - 1)
  }

  /** Once anything has started, the lock file is absent or names the latest starter. */
  lemma {:induction false} LockNamesLatest(sts: seq<State>, es: seq<Event>, reading: Reading, i: nat)
    requires Run(sts, es, reading) && i < |sts| && LatestStarter(es, i).Some?
    ensures sts[i].lock == Absent || sts[i].lock == Json(LatestStarter(es, i))
    decreases i
  {
    if i > 0 && es[i - 1].Exited? {
      LockNamesLatest(sts, es, reading, i - 1);
    }
  }
}
