/** `getStats` of src/core/db.js: the status snapshot derived from each
    monitor's heartbeat history (newest first). */
module Stats {
  import opened Wrappers
  import opened Schema
  import opened Queries

  /** `status`: the newest heartbeat's status, or 'unknown'. */
  datatype CurrentStatus = Unknown | Reported(status: Status)

  /** `lastDowntime`, before relative-time formatting: 'No downtime', "Down
      for" the time since the start of the current down run, or the time of
      the most recent down heartbeat. */
  datatype Downtime = NoDowntime | DownSince(timestamp: int) | LastDownAt(timestamp: int)

  /** One element of the `getStats` result: the monitor row plus the derived
      fields. `lastCheck` is the newest heartbeat's timestamp ('Never' when
      `None`). */
  datatype Snapshot = Snapshot(
    monitor: Monitor,
    uptime: real,
    downtime: Downtime,
    status: CurrentStatus,
    latency: int,
    lastCheck: Option<int>)

  predicate IsDown(h: Heartbeat) {
    h.status == Down
  }

  predicate AllUp(hs: seq<Heartbeat>) {
    forall i :: 0 <= i < |hs| ==> hs[i].status == Up
  }

  predicate NoneUp(hs: seq<Heartbeat>) {
    forall i :: 0 <= i < |hs| ==> hs[i].status != Up
  }

  /** `heartbeats.filter(h => h.status === 'up').length`. */
  function UpCount(hs: seq<Heartbeat>): (n: nat)
    ensures n <= |hs|
    ensures n == |hs| <==> AllUp(hs)
    ensures n == 0 <==> NoneUp(hs)
  {
    if hs == [] then 0
    else
      var rest := UpCount(hs[1..]);
      assert AllUp(hs) <==> hs[0].status == Up && AllUp(hs[1..]);
      assert NoneUp(hs) <==> hs[0].status != Up && NoneUp(hs[1..]);
      (if hs[0].status == Up then 1 else 0) + rest
  }

  /** The uptime percentage, exactly (the two-decimal rounding of `toFixed`
      is not modelled): 0 for an empty history, else 100 * up / total. */
  function Uptime(hs: seq<Heartbeat>): (u: real)
    ensures hs == [] ==> u == 0.0
    ensures hs != [] ==> u * (|hs| as real) == 100.0 * (UpCount(hs) as real)
    ensures 0.0 <= u <= 100.0
    ensures hs != [] ==> (u == 100.0 <==> AllUp(hs))
    ensures u == 0.0 <==> NoneUp(hs)
  {
    if hs == [] then 0.0
    else
      var up, total := UpCount(hs) as real, |hs| as real;
      RatioBounds(up, total);
      100.0 * (up / total)
  }

  lemma RatioBounds(a: real, b: real)
    requires 0.0 <= a <= b && b > 0.0
    ensures (a / b) * b == a
    ensures 0.0 <= a / b <= 1.0
    ensures a / b == 1.0 <==> a == b
    ensures a / b == 0.0 <==> a == 0.0
  {
    var r := a / b;
    assert r * b == a;
  }

  /** The index of the oldest heartbeat of the down run that starts at the
      newest one. */
  function DownRunEnd(hs: seq<Heartbeat>): (k: nat)
    requires |hs| > 0 && hs[0].status == Down
    ensures k < |hs|
    ensures forall j :: 0 <= j <= k ==> hs[j].status == Down
    ensures k + 1 == |hs| || hs[k + 1].status == Up
  {
    if |hs| == 1 || hs[1].status == Up then 0
    else 1 + DownRunEnd(hs[1..])
  }

  /** Only one index closes the leading down run. */
  lemma DownRunEndIsUnique(hs: seq<Heartbeat>, k: nat)
    requires k < |hs|
    requires forall j :: 0 <= j <= k ==> hs[j].status == Down
    requires k + 1 == |hs| || hs[k + 1].status == Up
    ensures k == DownRunEnd(hs)
  {
    var e := DownRunEnd(hs);
  }

  /** The downtime answer of `getStats` (src/core/db.js:133-156). */
  function DowntimeOf(hs: seq<Heartbeat>): (d: Downtime)
    ensures d.NoDowntime? <==> forall i :: 0 <= i < |hs| ==> hs[i].status != Down
    ensures d.DownSince? <==> |hs| > 0 && hs[0].status == Down
    ensures d.LastDownAt? ==> hs[0].status == Up
  {
    if hs == [] then NoDowntime
    else if hs[0].status == Down then DownSince(hs[DownRunEnd(hs)].timestamp)
    else match FirstIndex(hs, IsDown)
      case Some(k) => LastDownAt(hs[k].timestamp)
      case None => NoDowntime
  }

  /** When the newest heartbeat is down, the answer is the timestamp of the
      oldest heartbeat of the unbroken down run holding the newest one. */
  lemma DownSinceIsRunStart(hs: seq<Heartbeat>, k: nat)
    requires k < |hs|
    requires forall j :: 0 <= j <= k ==> hs[j].status == Down
    requires k + 1 == |hs| || hs[k + 1].status == Up
    ensures DowntimeOf(hs) == DownSince(hs[k].timestamp)
  {
    DownRunEndIsUnique(hs, k);
  }

  /** When the newest heartbeat is up, the answer is the most recent down
      heartbeat anywhere in the history, contiguous or not. */
  lemma LastDownIsMostRecentDown(hs: seq<Heartbeat>, k: nat)
    requires k < |hs| && hs[0].status == Up
    requires hs[k].status == Down
    requires forall j :: 0 <= j < k ==> hs[j].status == Up
    ensures DowntimeOf(hs) == LastDownAt(hs[k].timestamp)
  {
    var f := FirstIndex(hs, IsDown);
  }

  /** The downtime scan as the source writes it: a loop from the newest
      heartbeat that stops at the first down heartbeat whose successor is
      missing or up; for an up newest heartbeat, `find` for the first down. */
  method ScanDowntime(hs: seq<Heartbeat>) returns (d: Downtime)
    ensures d == DowntimeOf(hs)
  {
    d := NoDowntime;
    if |hs| > 0 {
      if hs[0].status == Down {
        var start: Option<nat> := None;
        for i := 0 to |hs|
          invariant start.None?
          invariant i > 0 ==> i < |hs|
          invariant forall j :: 0 <= j <= i && j < |hs| ==> hs[j].status == Down
        {
          if hs[i].status == Down && (i + 1 == |hs| || hs[i + 1].status == Up) {
            start := Some(i);
            break;
          }
        }
        // The loop always stops: the last down heartbeat has no successor or
        // an up one. The source's fallback to the newest heartbeat is dead.
        if start.Some? {
          DownRunEndIsUnique(hs, start.value);
          d := DownSince(hs[start.value].timestamp);
        }
      } else {
        match FirstIndex(hs, IsDown)
        case Some(k) => d := LastDownAt(hs[k].timestamp);
        case None =>
      }
    }
  }

  /** The snapshot of one monitor from its full history, newest first. */
  function SnapshotOf(m: Monitor, hs: seq<Heartbeat>): (r: Snapshot)
    ensures r.monitor == m
    ensures hs == [] ==> r.status == Unknown && r.latency == 0 && r.lastCheck == None
    ensures hs == [] ==> r.uptime == 0.0 && r.downtime == NoDowntime
    ensures hs != [] ==> r.status == Reported(hs[0].status) && r.latency == hs[0].latency
    ensures hs != [] ==> r.lastCheck == Some(hs[0].timestamp)
    ensures r.status == Reported(Down) <==> r.downtime.DownSince?
  {
    Snapshot(
      m,
      Uptime(hs),
      DowntimeOf(hs),
      if hs == [] then Unknown else Reported(hs[0].status),
      if hs == [] then 0 else hs[0].latency,
      if hs == [] then None else Some(hs[0].timestamp))
  }

  /** `getStats`: one snapshot per monitor, in table order, each from that
      monitor's own heartbeats. */
  function GetStats(ms: seq<Monitor>, hbs: seq<Heartbeat>): (r: seq<Snapshot>)
    ensures |r| == |ms|
    ensures forall i :: 0 <= i < |ms| ==> r[i].monitor == ms[i]
    ensures forall i :: 0 <= i < |ms| ==> r[i] == SnapshotOf(ms[i], History(hbs, ms[i].id))
  {
    seq(|ms|, i requires 0 <= i < |ms| => SnapshotOf(ms[i], History(hbs, ms[i].id)))
  }

  /** Oldest-to-newest [up, down, down, down]: down, 25% up, down since the
      second heartbeat. */
  lemma ScenarioTrailingDownRun(m: Monitor)
    ensures var hs := [Heartbeat(m.id, Down, 0, 4), Heartbeat(m.id, Down, 0, 3),
                       Heartbeat(m.id, Down, 0, 2), Heartbeat(m.id, Up, 7, 1)];
      var s := SnapshotOf(m, hs);
      s.status == Reported(Down) && s.uptime == 25.0 && s.downtime == DownSince(2)
  {
    var hs := [Heartbeat(m.id, Down, 0, 4), Heartbeat(m.id, Down, 0, 3),
               Heartbeat(m.id, Down, 0, 2), Heartbeat(m.id, Up, 7, 1)];
    DownSinceIsRunStart(hs, 2);
    assert UpCount(hs) == 1;
  }

  /** Oldest-to-newest [down, up, up]: up, 200/3 % up, last down at the first. */
  lemma ScenarioRecovered(m: Monitor)
    ensures var hs := [Heartbeat(m.id, Up, 5, 3), Heartbeat(m.id, Up, 5, 2), Heartbeat(m.id, Down, 0, 1)];
      var s := SnapshotOf(m, hs);
      s.status == Reported(Up) && s.uptime * 3.0 == 200.0 && s.downtime == LastDownAt(1)
  {
    var hs := [Heartbeat(m.id, Up, 5, 3), Heartbeat(m.id, Up, 5, 2), Heartbeat(m.id, Down, 0, 1)];
    LastDownIsMostRecentDown(hs, 2);
    assert UpCount(hs) == 2;
  }
}
