/** The monitoring daemon of src/daemon/worker.js: classifying one probe into a
    heartbeat, and reconciling the map of running check loops with the
    `monitors` table. The probes, the clock and the timers themselves are
    inputs: a probe's outcome and the elapsed milliseconds are parameters, and
    a timer is a handle number that is either running or cancelled. */
module Worker {
  import opened Wrappers
  import opened Schema
  import opened Store

  // ---------------------------------------------------------------------
  // checkMonitor

  /** `res.time` of an ICMP probe: the text 'unknown', or text that
      `parseFloat` reads as a number (`Some`) or as NaN (`None`). */
  datatype PingTime = TimeUnknown | TimeText(parsed: Option<real>)

  /** What the probe library hands back, or that it threw. */
  datatype Probe =
    | HttpReply(code: int)
    | PingReply(alive: bool, time: PingTime)
    | Resolved
    | Threw

  /** The outcomes each kind of probe can have; no probe runs for any other
      type. */
  predicate Fits(kind: MonitorType, p: Probe) {
    match kind
    case Http => p.HttpReply? || p.Threw?
    case Icmp => p.PingReply? || p.Threw?
    case Dns => p.Resolved? || p.Threw?
    case OtherType(_) => true
  }

  /** `parseFloat(res.time) || 0`: NaN and 0 both give 0. */
  function PingLatency(t: PingTime): (r: real)
    ensures t.TimeUnknown? || t.parsed.None? ==> r == 0.0
    ensures t.TimeText? && t.parsed.Some? ==> r == t.parsed.value
  {
    if t.TimeText? && t.parsed.Some? then t.parsed.value else 0.0
  }

  /** JavaScript's `Math.round`: the nearest integer, halves rounded up. */
  function Round(x: real): (r: int)
    ensures x - 0.5 < r as real <= x + 0.5
  {
    (x + 0.5).Floor
  }

  /** `checkMonitor`'s classification: the status starts as down with
      latency 0 and is updated step by step by the branch of the monitor's
      type; a thrown probe resets it to down with the elapsed time. */
  method Classify(kind: MonitorType, p: Probe, elapsed: nat) returns (status: Status, latency: real)
    requires Fits(kind, p)
    ensures kind.Http? ==> (status == Up <==> p.HttpReply? && 200 <= p.code < 300) && latency == elapsed as real
    ensures kind.Icmp? && p.PingReply? ==> (status == Up <==> p.alive) && latency == PingLatency(p.time)
    ensures kind.Dns? ==> (status == Up <==> p.Resolved?) && latency == elapsed as real
    ensures p.Threw? && !kind.OtherType? ==> status == Down && latency == elapsed as real
    ensures kind.OtherType? ==> status == Down && latency == 0.0
  {
    status, latency := Down, 0.0;
    if p.Threw? && !kind.OtherType? {
      status, latency := Down, elapsed as real;
      return;
    }
    match kind {
      case Http =>
        if 200 <= p.code < 300 {
          status := Up;
        }
        latency := elapsed as real;
      case Icmp =>
        status := if p.alive then Up else Down;
        latency := PingLatency(p.time);
      case Dns =>
        status := Up;
        latency := elapsed as real;
      case OtherType(_) =>
    }
  }

  /** One run of `checkMonitor`: classify, then attempt exactly one heartbeat
      write with the rounded latency; a failing write (`writeFails`) is
      swallowed and leaves the tables as they were. */
  method CheckMonitor(db: Database, m: Monitor, p: Probe, elapsed: nat, now: int, writeFails: bool)
    returns (status: Status, latency: real)
    requires db.Valid() && Fits(m.kind, p)
    modifies db
    ensures db.Valid()
    ensures m.kind.Http? ==> (status == Up <==> p.HttpReply? && 200 <= p.code < 300) && latency == elapsed as real
    ensures m.kind.Icmp? && p.PingReply? ==> (status == Up <==> p.alive) && latency == PingLatency(p.time)
    ensures m.kind.Dns? ==> (status == Up <==> p.Resolved?) && latency == elapsed as real
    ensures p.Threw? && !m.kind.OtherType? ==> status == Down && latency == elapsed as real
    ensures m.kind.OtherType? ==> status == Down && latency == 0.0
    ensures !writeFails ==> db.heartbeats == old(db.heartbeats) + [Heartbeat(m.id, status, Round(latency), now)]
    ensures writeFails ==> db.heartbeats == old(db.heartbeats)
    ensures db.monitors == old(db.monitors) && db.certificates == old(db.certificates) && db.nextId == old(db.nextId)
  {
    status, latency := Classify(m.kind, p, elapsed);
    if !writeFails {
      db.LogHeartbeat(m.id, status, Round(latency), now);
    }
  }

  // ---------------------------------------------------------------------
  // startMonitorLoop / refreshMonitors

  /** An entry of `activeMonitors`: the interval timer and the monitor row
      as it was when the loop started. */
  datatype Task = Task(timer: nat, monitor: Monitor)

  /** The daemon's scheduling state: `activeMonitors`, the next handle
      `setInterval` hands out, the handles passed to `clearInterval`, and the
      immediate checks issued by `startMonitorLoop`, in order. */
  datatype Loops = Loops(active: map<int, Task>, nextTimer: nat, cancelled: set<nat>, checks: seq<Monitor>)

  /** Entries are keyed by their monitor's id; every handle was issued,
      running handles are distinct and none of them was cancelled. */
  predicate WellFormed(s: Loops) {
    (forall id :: id in s.active ==> s.active[id].monitor.id == id) &&
    (forall id :: id in s.active ==> s.active[id].timer < s.nextTimer && s.active[id].timer !in s.cancelled) &&
    (forall x, y :: x in s.active && y in s.active && x != y ==> s.active[x].timer != s.active[y].timer) &&
    (forall t :: t in s.cancelled ==> t < s.nextTimer)
  }

  /** `startMonitorLoop(monitor)`: one immediate check, a fresh timer, and
      the entry for the monitor's id set to that timer and this snapshot. */
  function Launch(s: Loops, m: Monitor): Loops {
    Loops(s.active[m.id := Task(s.nextTimer, m)], s.nextTimer + 1, s.cancelled, s.checks + [m])
  }

  /** The loop must restart: interval, url or type differ from the table. */
  predicate Drifted(t: Task, m: Monitor) {
    t.monitor.interval != m.interval || t.monitor.url != m.url || t.monitor.kind != m.kind
  }

  /** A refresh starts a loop for `m`: none is running, or it drifted. */
  predicate NeedsStart(a: map<int, Task>, m: Monitor) {
    m.id !in a || Drifted(a[m.id], m)
  }

  /** One iteration of the second loop of `refreshMonitors`. */
  function Visit(s: Loops, m: Monitor): Loops {
    if m.id !in s.active then Launch(s, m)
    else if Drifted(s.active[m.id], m) then Launch(s.(cancelled := s.cancelled + {s.active[m.id].timer}), m)
    else s
  }

  /** The second loop of `refreshMonitors`, over the rows in table order. */
  function VisitAll(s: Loops, ms: seq<Monitor>): Loops {
    if ms == [] then s else Visit(VisitAll(s, ms[..|ms| - 1]), ms[|ms| - 1])
  }

  /** The timers of the entries of `a` with ids in `ids`. */
  function Timers(a: map<int, Task>, ids: set<int>): set<nat> {
    set id | id in ids && id in a :: a[id].timer
  }

  /** The entries of `a` whose id is in `keep`. */
  function Restrict(a: map<int, Task>, keep: set<int>): map<int, Task> {
    map id | id in a && id in keep :: a[id]
  }

  /** The first loop of `refreshMonitors`: entries whose id is not in the
      table are cancelled and removed. */
  function Prune(s: Loops, ids: set<int>): Loops {
    s.(active := Restrict(s.active, ids),
       cancelled := s.cancelled + Timers(s.active, s.active.Keys - ids))
  }

  /** A whole `refreshMonitors` pass over the table `ms`. */
  function RefreshOf(s: Loops, ms: seq<Monitor>): Loops {
    VisitAll(Prune(s, Ids(ms)), ms)
  }

  /** The monitors a refresh starts, in table order. */
  function Started(a: map<int, Task>, ms: seq<Monitor>): (r: seq<Monitor>)
    ensures |r| <= |ms|
    ensures forall m :: m in r <==> m in ms && NeedsStart(a, m)
  {
    if ms == [] then []
    else Started(a, ms[..|ms| - 1]) + (if NeedsStart(a, ms[|ms| - 1]) then [ms[|ms| - 1]] else [])
  }

  /** The ids whose running loop drifted from its row. */
  function Restarted(a: map<int, Task>, ms: seq<Monitor>): set<int> {
    set m | m in ms && m.id in a && Drifted(a[m.id], m) :: m.id
  }

  /** The map agrees with the table: one entry per row, none drifted. */
  predicate InSync(a: map<int, Task>, ms: seq<Monitor>) {
    a.Keys == Ids(ms) && forall m :: m in ms ==> !NeedsStart(a, m)
  }

  lemma VisitKeepsWellFormed(s: Loops, m: Monitor)
    requires WellFormed(s)
    ensures WellFormed(Visit(s, m))
  {
  }

  lemma PruneKeepsWellFormed(s: Loops, ids: set<int>)
    requires WellFormed(s)
    ensures WellFormed(Prune(s, ids))
  {
  }

  lemma {:induction false} VisitAllKeepsWellFormed(s: Loops, ms: seq<Monitor>)
    requires WellFormed(s)
    ensures WellFormed(VisitAll(s, ms))
  {
    if ms != [] {
      VisitAllKeepsWellFormed(s, ms[..|ms| - 1]);
      VisitKeepsWellFormed(VisitAll(s, ms[..|ms| - 1]), ms[|ms| - 1]);
    }
  }

  /** A refresh keeps the scheduling state well formed, whatever the table. */
  lemma RefreshKeepsWellFormed(s: Loops, ms: seq<Monitor>)
    requires WellFormed(s)
    ensures WellFormed(RefreshOf(s, ms))
  {
    PruneKeepsWellFormed(s, Ids(ms));
    VisitAllKeepsWellFormed(Prune(s, Ids(ms)), ms);
  }

  lemma IdsPrefix(ms: seq<Monitor>)
    requires ms != []
    ensures Ids(ms) == Ids(ms[..|ms| - 1]) + {ms[|ms| - 1].id}
    ensures forall m :: m in ms <==> m in ms[..|ms| - 1] || m == ms[|ms| - 1]
  {
    assert ms == ms[..|ms| - 1] + [ms[|ms| - 1]];
  }

  /** With distinct ids, the last row's id is not among the earlier ones. */
  lemma LastIdFresh(ms: seq<Monitor>)
    requires ms != [] && UniqueIds(ms)
    ensures UniqueIds(ms[..|ms| - 1])
    ensures ms[|ms| - 1].id !in Ids(ms[..|ms| - 1])
  {
  }

  /** One iteration of the second loop touches only the entry of its row:
      a row that needs a start gets a fresh handle, its immediate check, and
      the cancellation of the drifted handle it replaces; any other row
      leaves the state as it was. */
  lemma VisitFacts(t: Loops, m: Monitor)
    ensures Visit(t, m).active.Keys == t.active.Keys + {m.id}
    ensures forall id :: id in t.active && id != m.id ==> Visit(t, m).active[id] == t.active[id]
    ensures !NeedsStart(t.active, m) ==> Visit(t, m) == t
    ensures NeedsStart(t.active, m) ==>
      Visit(t, m).active[m.id] == Task(t.nextTimer, m) &&
      Visit(t, m).nextTimer == t.nextTimer + 1 &&
      Visit(t, m).checks == t.checks + [m] &&
      Visit(t, m).cancelled == t.cancelled + (if m.id in t.active then {t.active[m.id].timer} else {})
  {
  }

  /** The second loop leaves alone the entry of an id that is not in the
      table: present or absent, it stays as it was. */
  lemma {:induction false} VisitAllOther(s: Loops, ms: seq<Monitor>, id: int)
    requires id !in Ids(ms)
    ensures id in VisitAll(s, ms).active <==> id in s.active
    ensures id in s.active ==> VisitAll(s, ms).active[id] == s.active[id]
  {
    if ms != [] {
      IdsPrefix(ms);
      VisitAllOther(s, ms[..|ms| - 1], id);
      VisitFacts(VisitAll(s, ms[..|ms| - 1]), ms[|ms| - 1]);
    }
  }

  /** After the second loop the map holds the old keys and one per row. */
  lemma {:induction false} VisitAllKeys(s: Loops, ms: seq<Monitor>)
    ensures VisitAll(s, ms).active.Keys == s.active.Keys + Ids(ms)
  {
    if ms != [] {
      VisitAllKeys(s, ms[..|ms| - 1]);
      VisitFacts(VisitAll(s, ms[..|ms| - 1]), ms[|ms| - 1]);
      IdsPrefix(ms);
    }
  }

  /** The second loop leaves untouched every entry it does not restart:
      rows whose loop has not drifted keep their timer and their old
      snapshot (even when, say, the name changed), and entries of ids not in
      the table are left alone. Restarted rows get the new snapshot and a
      handle issued during the pass. */
  lemma {:induction false} VisitAllEntries(s: Loops, ms: seq<Monitor>)
    requires UniqueIds(ms)
    ensures VisitAll(s, ms).active.Keys == s.active.Keys + Ids(ms)
    ensures forall id :: id in s.active && id !in Ids(ms) ==> VisitAll(s, ms).active[id] == s.active[id]
    ensures forall m :: m in ms && !NeedsStart(s.active, m) ==> VisitAll(s, ms).active[m.id] == s.active[m.id]
    ensures forall m :: m in ms && NeedsStart(s.active, m) ==>
      VisitAll(s, ms).active[m.id].monitor == m && s.nextTimer <= VisitAll(s, ms).active[m.id].timer
    ensures s.nextTimer <= VisitAll(s, ms).nextTimer
  {
    VisitAllKeys(s, ms);
    if ms != [] {
      var front, last := ms[..|ms| - 1], ms[|ms| - 1];
      LastIdFresh(ms);
      IdsPrefix(ms);
      VisitAllEntries(s, front);
      var t := VisitAll(s, front);
      var r := VisitAll(s, ms);
      assert r == Visit(t, last);
      VisitFacts(t, last);
      assert NeedsStart(t.active, last) <==> NeedsStart(s.active, last);
      forall m | m in ms && !NeedsStart(s.active, m) ensures r.active[m.id] == s.active[m.id] {
        if m != last {
          assert m in front;
        }
      }
      forall m | m in ms && NeedsStart(s.active, m)
        ensures r.active[m.id].monitor == m && s.nextTimer <= r.active[m.id].timer
      {
        if m != last {
          assert m in front;
        }
      }
    }
  }

  /** The second loop issues exactly one immediate check per row it starts,
      in table order, and one handle for each. */
  lemma {:induction false} VisitAllChecks(s: Loops, ms: seq<Monitor>)
    requires UniqueIds(ms)
    ensures VisitAll(s, ms).checks == s.checks + Started(s.active, ms)
    ensures VisitAll(s, ms).nextTimer == s.nextTimer + |Started(s.active, ms)|
  {
    if ms != [] {
      var front, last := ms[..|ms| - 1], ms[|ms| - 1];
      LastIdFresh(ms);
      VisitAllChecks(s, front);
      VisitAllOther(s, front, last.id);
      var t := VisitAll(s, front);
      assert VisitAll(s, ms) == Visit(t, last);
      VisitFacts(t, last);
      assert NeedsStart(t.active, last) <==> NeedsStart(s.active, last);
      var started := Started(s.active, front);
      if NeedsStart(s.active, last) {
        assert Started(s.active, ms) == started + [last];
        assert Visit(t, last).checks == (s.checks + started) + [last];
      } else {
        assert Started(s.active, ms) == started;
      }
    }
  }

  /** The second loop cancels exactly the handles of the drifted loops. */
  lemma {:induction false} VisitAllCancels(s: Loops, ms: seq<Monitor>)
    requires UniqueIds(ms)
    ensures VisitAll(s, ms).cancelled == s.cancelled + Timers(s.active, Restarted(s.active, ms))
  {
    if ms != [] {
      var front, last := ms[..|ms| - 1], ms[|ms| - 1];
      LastIdFresh(ms);
      IdsPrefix(ms);
      VisitAllCancels(s, front);
      VisitAllOther(s, front, last.id);
      var t := VisitAll(s, front);
      assert VisitAll(s, ms) == Visit(t, last);
      VisitFacts(t, last);
      assert NeedsStart(t.active, last) <==> NeedsStart(s.active, last);
      if last.id in s.active && Drifted(s.active[last.id], last) {
        assert t.active[last.id] == s.active[last.id];
        assert Restarted(s.active, ms) == Restarted(s.active, front) + {last.id};
      } else {
        assert Restarted(s.active, ms) == Restarted(s.active, front);
      }
    }
  }

  /** Pruning leaves every entry of a table row as it was. */
  lemma PruneAgrees(s: Loops, ms: seq<Monitor>)
    ensures Started(Prune(s, Ids(ms)).active, ms) == Started(s.active, ms)
    ensures Restarted(Prune(s, Ids(ms)).active, ms) == Restarted(s.active, ms)
    ensures forall m :: m in ms ==> (NeedsStart(Prune(s, Ids(ms)).active, m) <==> NeedsStart(s.active, m))
  {
    var p := Prune(s, Ids(ms));
    assert forall m :: m in ms ==> (NeedsStart(p.active, m) <==> NeedsStart(s.active, m));
    StartedAgree(p.active, s.active, ms);
  }

  /** Two maps that agree on the table's rows start the same monitors. */
  lemma {:induction false} StartedAgree(a: map<int, Task>, b: map<int, Task>, ms: seq<Monitor>)
    requires forall m :: m in ms ==> (NeedsStart(a, m) <==> NeedsStart(b, m))
    ensures Started(a, ms) == Started(b, ms)
  {
    if ms != [] {
      assert ms[|ms| - 1] in ms;
      assert forall m :: m in ms[..|ms| - 1] ==> m in ms;
      StartedAgree(a, b, ms[..|ms| - 1]);
    }
  }

  /** What one refresh does, given a table with distinct ids: the keys
      become the table's ids; deleted monitors' loops and drifted loops are
      cancelled and nothing else is; each row without a loop or with a
      drifted one gets one immediate check and a fresh handle; every other
      loop keeps its entry. */
  lemma RefreshSpec(s: Loops, ms: seq<Monitor>)
    requires UniqueIds(ms)
    ensures RefreshOf(s, ms).active.Keys == Ids(ms)
    ensures forall m :: m in ms && !NeedsStart(s.active, m) ==> RefreshOf(s, ms).active[m.id] == s.active[m.id]
    ensures forall m :: m in ms && NeedsStart(s.active, m) ==>
      RefreshOf(s, ms).active[m.id].monitor == m && s.nextTimer <= RefreshOf(s, ms).active[m.id].timer
    ensures RefreshOf(s, ms).checks == s.checks + Started(s.active, ms)
    ensures RefreshOf(s, ms).nextTimer == s.nextTimer + |Started(s.active, ms)|
    ensures RefreshOf(s, ms).cancelled ==
      s.cancelled + Timers(s.active, s.active.Keys - Ids(ms)) + Timers(s.active, Restarted(s.active, ms))
  {
    var p := Prune(s, Ids(ms));
    PruneAgrees(s, ms);
    VisitAllKeys(p, ms);
    VisitAllEntries(p, ms);
    VisitAllChecks(p, ms);
    VisitAllCancels(p, ms);
    assert Timers(p.active, Restarted(s.active, ms)) == Timers(s.active, Restarted(s.active, ms));
  }

  /** After a refresh the map agrees with the table. */
  lemma RefreshSyncs(s: Loops, ms: seq<Monitor>)
    requires UniqueIds(ms)
    ensures InSync(RefreshOf(s, ms).active, ms)
  {
    RefreshSpec(s, ms);
  }

  /** A refresh against a table the map already agrees with changes nothing:
      no check, no new handle, no cancellation. */
  lemma RefreshInSyncIsIdle(s: Loops, ms: seq<Monitor>)
    requires UniqueIds(ms) && InSync(s.active, ms)
    ensures RefreshOf(s, ms) == s
  {
    RefreshSpec(s, ms);
    InSyncStartsNothing(s.active, ms);
    assert s.active.Keys - Ids(ms) == {};
    assert Restarted(s.active, ms) == {};
    var r := RefreshOf(s, ms);
    assert r.active == s.active by {
      forall id | id in s.active ensures r.active[id] == s.active[id] {
        var m :| m in ms && m.id == id;
      }
    }
  }

  /** Refreshing twice with the same table starts and cancels nothing on the
      second pass. */
  lemma RefreshTwice(s: Loops, ms: seq<Monitor>)
    requires UniqueIds(ms)
    ensures RefreshOf(RefreshOf(s, ms), ms) == RefreshOf(s, ms)
  {
    RefreshSyncs(s, ms);
    RefreshInSyncIsIdle(RefreshOf(s, ms), ms);
  }

  /** A map that agrees with the table makes a refresh start nothing. */
  lemma {:induction false} InSyncStartsNothing(a: map<int, Task>, ms: seq<Monitor>)
    requires forall m :: m in ms ==> !NeedsStart(a, m)
    ensures Started(a, ms) == []
  {
    if ms != [] {
      assert ms[|ms| - 1] in ms;
      assert forall m :: m in ms[..|ms| - 1] ==> m in ms;
      InSyncStartsNothing(a, ms[..|ms| - 1]);
    }
  }

  lemma RestrictAll(a: map<int, Task>, keep: set<int>)
    requires a.Keys <= keep
    ensures Restrict(a, keep) == a
  {
  }

  lemma RestrictRemove(a: map<int, Task>, keep: set<int>, x: int)
    ensures Restrict(a, keep - {x}) == Restrict(a, keep) - {x}
  {
  }

  lemma TimersAdd(a: map<int, Task>, ids: set<int>, id: int)
    requires id in a
    ensures Timers(a, ids + {id}) == Timers(a, ids) + {a[id].timer}
  {
  }

  lemma NonEmptyHasElement(s: set<int>)
    requires s != {}
    ensures exists x :: x in s
  {
    if forall x :: x !in s {
      assert false;
    }
  }

  /** Midway through the first loop: the entries in `stale` are still to be
      removed, the others not in the table are gone and cancelled. */
  predicate Pruning(a0: map<int, Task>, c0: set<nat>, ids: set<int>, stale: set<int>, a: map<int, Task>, c: set<nat>) {
    stale <= a0.Keys - ids && a == Restrict(a0, ids + stale) && c == c0 + Timers(a0, a0.Keys - ids - stale)
  }

  lemma PruningStep(a0: map<int, Task>, c0: set<nat>, ids: set<int>, stale: set<int>, a: map<int, Task>, c: set<nat>, gone: int)
    requires Pruning(a0, c0, ids, stale, a, c) && gone in stale
    ensures gone in a
    ensures Pruning(a0, c0, ids, stale - {gone}, a - {gone}, c + {a[gone].timer})
  {
    assert a0.Keys - ids - (stale - {gone}) == (a0.Keys - ids - stale) + {gone};
    assert ids + (stale - {gone}) == (ids + stale) - {gone};
    RestrictRemove(a0, ids + stale, gone);
    TimersAdd(a0, a0.Keys - ids - stale, gone);
  }

  /** The first loop of `refreshMonitors`: walk the entries, cancelling and
      deleting those whose id is not in the table (the walk order does not
      matter to the result). */
  method RemoveStale(a0: map<int, Task>, c0: set<nat>, ids: set<int>) returns (a: map<int, Task>, c: set<nat>)
    ensures a == Restrict(a0, ids)
    ensures c == c0 + Timers(a0, a0.Keys - ids)
  {
    a, c := a0, c0;
    var stale: set<int> := a.Keys - ids;
    RestrictAll(a, ids + stale);
    assert a0.Keys - ids - stale == {};
    while stale != {}
      invariant Pruning(a0, c0, ids, stale, a, c)
      decreases |stale|
    {
      NonEmptyHasElement(stale);
      var gone :| gone in stale;
      PruningStep(a0, c0, ids, stale, a, c, gone);
      c := c + {a[gone].timer};
      a := a - {gone};
      stale := stale - {gone};
    }
    assert ids + stale == ids;
    assert a0.Keys - ids - stale == a0.Keys - ids;
  }

  class Scheduler {
    var active: map<int, Task>
    var nextTimer: nat
    var cancelled: set<nat>
    var checks: seq<Monitor>

    function Current(): Loops
      reads this
    {
      Loops(active, nextTimer, cancelled, checks)
    }

    ghost predicate Valid()
      reads this
    {
      WellFormed(Current())
    }

    constructor ()
      ensures Valid()
      ensures active == map[] && cancelled == {} && checks == []
    {
      active, nextTimer, cancelled, checks := map[], 0, {}, [];
    }

    /** `startMonitorLoop(monitor)`. */
    method StartMonitorLoop(m: Monitor)
      modifies this
      ensures Current() == Launch(old(Current()), m)
      ensures old(Valid()) ==> Valid()
    {
      checks := checks + [m];
      var timer := nextTimer;
      nextTimer := nextTimer + 1;
      active := active[m.id := Task(timer, m)];
    }

    /** The first loop of `refreshMonitors`. */
    method CancelStale(ids: set<int>)
      requires Valid()
      modifies this
      ensures Valid()
      ensures Current() == Prune(old(Current()), ids)
    {
      ghost var s := Current();
      active, cancelled := RemoveStale(active, cancelled, ids);
      PruneKeepsWellFormed(s, ids);
    }

    /** One iteration of the second loop: start a loop for a row without
        one, or cancel and restart a drifted one. */
    method VisitOne(m: Monitor)
      requires Valid()
      modifies this
      ensures Valid()
      ensures Current() == Visit(old(Current()), m)
    {
      ghost var s := Current();
      VisitKeepsWellFormed(s, m);
      if m.id !in active {
        StartMonitorLoop(m);
      } else {
        var current := active[m.id];
        if current.monitor.interval != m.interval || current.monitor.url != m.url || current.monitor.kind != m.kind {
          cancelled := cancelled + {current.timer};
          StartMonitorLoop(m);
        }
      }
    }

    /** `refreshMonitors()`. `registry` is what `getMonitors()` returned, or
        `None` when it threw: the error is caught and nothing changes.
        Otherwise the state becomes `RefreshOf` the old one; `RefreshSpec`,
        `RefreshSyncs` and `RefreshTwice` say what that is. */
    method Refresh(registry: Option<seq<Monitor>>)
      requires Valid()
      modifies this
      ensures Valid()
      ensures registry.None? ==> Current() == old(Current())
      ensures registry.Some? ==> Current() == RefreshOf(old(Current()), registry.value)
    {
      if registry.None? {
        return;
      }
      var ms := registry.value;
      ghost var s0 := Current();
      CancelStale(Ids(ms));
      ghost var p := Current();
      var i := 0;
      while i < |ms|
        invariant 0 <= i <= |ms|
        invariant Valid()
        invariant Current() == VisitAll(p, ms[..i])
      {
        assert ms[..i + 1][..i] == ms[..i];
        VisitOne(ms[i]);
        i := i + 1;
      }
      assert ms[..|ms|] == ms;
      RefreshKeepsWellFormed(s0, ms);
    }
  }
}
