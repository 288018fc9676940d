/** The database handle: the three tables as fields that the write operations
    of src/core/db.js and tests/core/group.test.js replace, one statement at a
    time. The read queries are the functions of `Queries`, `Stats` and
    `Groups`, applied to the fields. */
module Store {
  import opened Wrappers
  import opened Text
  import opened Schema
  import opened Queries
  import opened Groups

  /** The value an `updateMonitor` call ends with: the duplicate-name error,
      `undefined` when no field was supplied, or the statement's `changes`. */
  datatype UpdateOutcome = NameConflict | NothingToUpdate | Updated(changes: nat)

  /** The rows `UPDATE ... WHERE id = ?` and `DELETE ... WHERE id = ?` touch. */
  function RowsWithId(ms: seq<Monitor>, id: int): nat {
    if id in Ids(ms) then 1 else 0
  }

  /** What every state of `monitors` satisfies: ids positive and below the
      AUTOINCREMENT counter, ids distinct, non-empty names distinct ignoring
      case. */
  predicate WellKeyed(ms: seq<Monitor>, nextId: int) {
    (forall m :: m in ms ==> 0 < m.id < nextId) && UniqueIds(ms) && UniqueNames(ms)
  }

  /** A statement that only touches columns other than id and name keeps the
      table well keyed. */
  lemma SameKeysKeepWellKeyed(ms: seq<Monitor>, r: seq<Monitor>, nextId: int)
    requires WellKeyed(ms, nextId)
    requires |r| == |ms| && forall i :: 0 <= i < |ms| ==> r[i].id == ms[i].id && r[i].name == ms[i].name
    ensures WellKeyed(r, nextId)
  {
    forall m | m in r ensures 0 < m.id < nextId {
      var i :| 0 <= i < |r| && r[i] == m;
      assert ms[i] in ms;
    }
  }

  /** Removing rows keeps ids and names unique. */
  lemma {:induction false} FilterKeepsUnique(ms: seq<Monitor>, p: Monitor -> bool)
    ensures UniqueIds(ms) ==> UniqueIds(Filter(ms, p))
    ensures UniqueNames(ms) ==> UniqueNames(Filter(ms, p))
  {
    if ms != [] {
      FilterKeepsUnique(ms[1..], p);
      var rest := Filter(ms[1..], p);
      var r := Filter(ms, p);
      if p(ms[0]) {
        assert r == [ms[0]] + rest;
        forall j | 0 < j < |r| ensures exists k :: 0 < k < |ms| && r[j] == ms[k] {
          assert rest[j - 1] in ms[1..];
          var k :| 0 <= k < |ms[1..]| && ms[1..][k] == rest[j - 1];
          assert ms[k + 1] == r[j];
        }
      } else {
        assert r == rest;
      }
    }
  }

  /** The rows of `ms` without the one carrying `id`. */
  function DropMonitor(ms: seq<Monitor>, id: int): (r: seq<Monitor>)
    ensures forall m :: m in r <==> m in ms && m.id != id
  {
    Filter(ms, (m: Monitor) => m.id != id)
  }

  /** Deleting by id removes the one row carrying that id, if there is one. */
  lemma {:induction false} DropMonitorCount(ms: seq<Monitor>, id: int)
    requires UniqueIds(ms)
    ensures |DropMonitor(ms, id)| == |ms| - RowsWithId(ms, id)
  {
    if ms != [] {
      var rest := ms[1..];
      assert UniqueIds(rest);
      DropMonitorCount(rest, id);
      assert DropMonitor(ms, id) == (if ms[0].id != id then [ms[0]] else []) + DropMonitor(rest, id);
      assert Ids(ms) == {ms[0].id} + Ids(rest) by {
        assert ms == [ms[0]] + rest;
      }
    }
  }

  /** The heartbeats not belonging to any monitor in `ids`. */
  function DropHeartbeats(hbs: seq<Heartbeat>, ids: set<int>): (r: seq<Heartbeat>)
    ensures forall h :: h in r <==> h in hbs && h.monitorId !in ids
  {
    Filter(hbs, (h: Heartbeat) => h.monitorId !in ids)
  }

  /** Once a monitor's heartbeats are dropped it has no history. */
  lemma NoHistoryLeft(hbs: seq<Heartbeat>, id: int)
    ensures History(DropHeartbeats(hbs, {id}), id) == []
  {
    var r := History(DropHeartbeats(hbs, {id}), id);
    if |r| > 0 {
      HeadIsElement(r);
    }
  }

  lemma HeadIsElement<T>(s: seq<T>)
    requires |s| > 0
    ensures s[0] in s
  {
  }

  /** The certificates not belonging to any monitor in `ids`. */
  function DropCertificates(cs: seq<Certificate>, ids: set<int>): (r: seq<Certificate>)
    ensures forall c :: c in r <==> c in cs && c.monitorId !in ids
  {
    Filter(cs, (c: Certificate) => c.monitorId !in ids)
  }

  /** The monitors outside group `g`. */
  function DropGroup(ms: seq<Monitor>, g: string): (r: seq<Monitor>)
    ensures forall m :: m in r <==> m in ms && !InGroup(m, g)
    ensures !GroupExists(r, g)
  {
    Filter(ms, (m: Monitor) => !InGroup(m, g))
  }

  /** An insert that passed the name check keeps names unique. */
  lemma AddKeepsNamesUnique(ms: seq<Monitor>, m: Monitor)
    requires UniqueNames(ms)
    requires Truthy(m.name) ==> !NameTaken(ms, m.name.value, None)
    ensures UniqueNames(ms + [m])
  {
    var r := ms + [m];
    forall i, j | 0 <= i < j < |r| && Truthy(r[i].name) && Truthy(r[j].name)
      ensures !SameIgnoringCase(r[i].name.value, r[j].name.value)
    {
      if j == |ms| {
        assert r[i] in ms;
      }
    }
  }

  /** An update that passed the name check keeps names unique. */
  lemma UpdateKeepsNamesUnique(ms: seq<Monitor>, id: int, u: MonitorUpdate)
    requires UniqueIds(ms) && UniqueNames(ms)
    requires u.name.Set? && Truthy(u.name.value) ==> !NameTaken(ms, u.name.value.value, Some(id))
    ensures UniqueNames(UpdateRows(ms, id, u))
  {
    var r := UpdateRows(ms, id, u);
    forall i, j | 0 <= i < j < |r| && Truthy(r[i].name) && Truthy(r[j].name)
      ensures !SameIgnoringCase(r[i].name.value, r[j].name.value)
    {
      if SameIgnoringCase(r[i].name.value, r[j].name.value) {
        if ms[i].id == id && u.name.Set? {
          assert ms[j] in ms && ms[j].id != id;
          assert NameMatches(ms[j], u.name.value.value);
        } else if ms[j].id == id && u.name.Set? {
          assert ms[i] in ms && ms[i].id != id;
          assert NameMatches(ms[i], u.name.value.value);
        }
      }
    }
  }

  /** The columns an `UPDATE monitors SET ...` can assign, in the order
      `updateMonitor` tests them. */
  datatype Column = NameColumn | UrlColumn | TypeColumn | IntervalColumn | WebhookColumn | GroupColumn

  function Rank(c: Column): (r: nat)
    ensures r < 6
  {
    match c
    case NameColumn => 0
    case UrlColumn => 1
    case TypeColumn => 2
    case IntervalColumn => 3
    case WebhookColumn => 4
    case GroupColumn => 5
  }

  /** The update supplies a value (possibly null) for column `c`. */
  predicate Supplied(u: MonitorUpdate, c: Column) {
    match c
    case NameColumn => u.name.Set?
    case UrlColumn => u.url.Set?
    case TypeColumn => u.kind.Set?
    case IntervalColumn => u.interval.Set?
    case WebhookColumn => u.webhook.Set?
    case GroupColumn => u.group.Set?
  }

  /** `fields` after the tests for the columns ranked below `k`: in column
      order, holding exactly the supplied ones among them. */
  predicate Built(u: MonitorUpdate, fields: seq<Column>, k: nat) {
    (forall i, j :: 0 <= i < j < |fields| ==> Rank(fields[i]) < Rank(fields[j])) &&
    (forall c :: c in fields <==> Supplied(u, c) && Rank(c) < k)
  }

  /** One `if (... !== undefined) fields.push(...)` step. */
  lemma PushStep(u: MonitorUpdate, fields: seq<Column>, c: Column)
    requires Built(u, fields, Rank(c))
    ensures Built(u, if Supplied(u, c) then fields + [c] else fields, Rank(c) + 1)
  {
    if Supplied(u, c) {
      var r := fields + [c];
      forall i, j | 0 <= i < j < |r| ensures Rank(r[i]) < Rank(r[j]) {
        if j == |fields| {
          assert r[i] in fields;
        }
      }
    }
  }

  function ColumnAt(k: nat): (c: Column)
    requires k < 6
    ensures Rank(c) == k
  {
    [NameColumn, UrlColumn, TypeColumn, IntervalColumn, WebhookColumn, GroupColumn][k]
  }

  /** The columns ranked below `k` that the update supplies, in order. */
  function Pushed(u: MonitorUpdate, k: nat): seq<Column>
    requires k <= 6
  {
    if k == 0 then []
    else Pushed(u, k - 1) + (if Supplied(u, ColumnAt(k - 1)) then [ColumnAt(k - 1)] else [])
  }

  lemma {:induction false} PushedBuilt(u: MonitorUpdate, k: nat)
    requires k <= 6
    ensures Built(u, Pushed(u, k), k)
  {
    if k > 0 {
      PushedBuilt(u, k - 1);
      PushStep(u, Pushed(u, k - 1), ColumnAt(k - 1));
    }
  }

  /** The `fields` array of `updateMonitor`, one `push` per supplied field:
      each supplied column exactly once, in the fixed column order, and
      nothing when no field is supplied. */
  method Assignments(u: MonitorUpdate) returns (fields: seq<Column>)
    ensures forall c :: c in fields <==> Supplied(u, c)
    ensures forall i, j :: 0 <= i < j < |fields| ==> Rank(fields[i]) < Rank(fields[j])
    ensures |fields| == 0 <==> NoFields(u)
  {
    fields := [];
    if u.name.Set? { fields := fields + [NameColumn]; }
    assert fields == Pushed(u, 1);
    if u.url.Set? { fields := fields + [UrlColumn]; }
    assert fields == Pushed(u, 2);
    if u.kind.Set? { fields := fields + [TypeColumn]; }
    assert fields == Pushed(u, 3);
    if u.interval.Set? { fields := fields + [IntervalColumn]; }
    assert fields == Pushed(u, 4);
    if u.webhook.Set? { fields := fields + [WebhookColumn]; }
    assert fields == Pushed(u, 5);
    if u.group.Set? { fields := fields + [GroupColumn]; }
    assert fields == Pushed(u, 6);
    PushedFacts(u);
  }

  /** What the six pushes leave in `fields`. */
  lemma PushedFacts(u: MonitorUpdate)
    ensures forall c :: c in Pushed(u, 6) <==> Supplied(u, c)
    ensures forall i, j :: 0 <= i < j < |Pushed(u, 6)| ==> Rank(Pushed(u, 6)[i]) < Rank(Pushed(u, 6)[j])
    ensures |Pushed(u, 6)| == 0 <==> NoFields(u)
  {
    PushedBuilt(u, 6);
    if !NoFields(u) {
      var c :| Supplied(u, c) && c in [NameColumn, UrlColumn, TypeColumn, IntervalColumn, WebhookColumn, GroupColumn];
      assert c in Pushed(u, 6);
    }
  }

  class Database {
    /** The `monitors` table in rowid order. */
    var monitors: seq<Monitor>
    /** The `heartbeats` table in insertion order. */
    var heartbeats: seq<Heartbeat>
    /** The `ssl_certificates` table. */
    var certificates: seq<Certificate>
    /** The AUTOINCREMENT counter of `monitors`: ids are never reused. */
    var nextId: int

    /** Ids are positive, below the counter and distinct; non-empty names
        are distinct ignoring case. */
    ghost predicate Valid()
      reads this
    {
      nextId > 0 && WellKeyed(monitors, nextId)
    }

    constructor ()
      ensures Valid()
      ensures monitors == [] && heartbeats == [] && certificates == []
    {
      monitors, heartbeats, certificates := [], [], [];
      nextId := 1;
    }

    /** `addMonitor(type, url, interval, name, webhookUrl, groupName)`: a
        non-empty name already used (ignoring case) is refused; otherwise the
        row is appended under the next id, which is returned. */
    method AddMonitor(kind: MonitorType, url: string, interval: int, name: Option<string>,
                      webhook: Option<string>, group: Option<string>) returns (r: Result<int>)
      requires Valid()
      modifies this
      ensures Valid()
      ensures r.Err? <==> Truthy(name) && NameTaken(old(monitors), name.value, None)
      ensures r.Err? ==> monitors == old(monitors) && nextId == old(nextId)
      ensures r.Ok? ==> (r.value == old(nextId) && nextId == old(nextId) + 1 &&
        monitors == old(monitors) + [Monitor(r.value, name, kind, url, interval, webhook, group)])
      ensures r.Ok? ==> r.value !in Ids(old(monitors))
      ensures heartbeats == old(heartbeats) && certificates == old(certificates)
    {
      if Truthy(name) && NameTaken(monitors, name.value, None) {
        return Err("Monitor with name '" + name.value + "' already exists.");
      }
      var m := Monitor(nextId, name, kind, url, interval, webhook, group);
      AddKeepsNamesUnique(monitors, m);
      monitors := monitors + [m];
      r := Ok(nextId);
      nextId := nextId + 1;
    }

    /** `updateMonitor(id, updates)`: a non-empty new name that another
        monitor already uses is refused; an update naming no field does
        nothing; otherwise the supplied fields of the row with that id change. */
    method UpdateMonitor(id: int, u: MonitorUpdate) returns (r: UpdateOutcome)
      requires Valid()
      modifies this
      ensures Valid()
      ensures r == NameConflict <==> u.name.Set? && Truthy(u.name.value) && NameTaken(old(monitors), u.name.value.value, Some(id))
      ensures r == NothingToUpdate <==> r != NameConflict && NoFields(u)
      ensures r.Updated? ==> r.changes == RowsWithId(old(monitors), id) && monitors == UpdateRows(old(monitors), id, u)
      ensures !r.Updated? ==> monitors == old(monitors)
      ensures heartbeats == old(heartbeats) && certificates == old(certificates) && nextId == old(nextId)
    {
      if u.name.Set? && Truthy(u.name.value) && NameTaken(monitors, u.name.value.value, Some(id)) {
        return NameConflict;
      }
      var fields := Assignments(u);
      if |fields| == 0 {
        return NothingToUpdate;
      }
      UpdateKeepsNamesUnique(monitors, id, u);
      r := Updated(RowsWithId(monitors, id));
      var updated := UpdateRows(monitors, id, u);
      assert forall i :: 0 <= i < |updated| ==> updated[i].id == monitors[i].id;
      assert forall m :: m in updated ==> m.id in Ids(monitors);
      monitors := updated;
    }

    /** `deleteMonitor(id)`: the monitor's heartbeats and certificate go
        first, then the row itself; the result is the number of rows removed
        from `monitors`. */
    method DeleteMonitor(id: int) returns (changes: nat)
      requires Valid()
      modifies this
      ensures Valid()
      ensures changes == RowsWithId(old(monitors), id)
      ensures monitors == DropMonitor(old(monitors), id)
      ensures heartbeats == DropHeartbeats(old(heartbeats), {id})
      ensures certificates == DropCertificates(old(certificates), {id})
      ensures nextId == old(nextId)
    {
      DeleteHeartbeatsOf(id);
      certificates := DropCertificates(certificates, {id});
      changes := DeleteMonitorRow(id);
    }

    /** `DELETE FROM heartbeats WHERE monitor_id = ?`: the monitor's history
        is emptied and every other monitor's history is kept as it was. */
    method DeleteHeartbeatsOf(id: int)
      requires Valid()
      modifies this
      ensures Valid()
      ensures heartbeats == DropHeartbeats(old(heartbeats), {id})
      ensures History(heartbeats, id) == []
      ensures monitors == old(monitors) && certificates == old(certificates) && nextId == old(nextId)
    {
      heartbeats := DropHeartbeats(heartbeats, {id});
      NoHistoryLeft(old(heartbeats), id);
    }

    /** `DELETE FROM monitors WHERE id = ?`: the row with that id goes, the
        others stay, and `changes` counts what went. */
    method DeleteMonitorRow(id: int) returns (changes: nat)
      requires Valid()
      modifies this
      ensures Valid()
      ensures changes == RowsWithId(old(monitors), id)
      ensures monitors == DropMonitor(old(monitors), id)
      ensures Ids(monitors) == Ids(old(monitors)) - {id}
      ensures heartbeats == old(heartbeats) && certificates == old(certificates) && nextId == old(nextId)
    {
      DropMonitorCount(monitors, id);
      FilterKeepsUnique(monitors, (m: Monitor) => m.id != id);
      changes := |monitors| - |DropMonitor(monitors, id)|;
      monitors := DropMonitor(monitors, id);
    }

    /** `logHeartbeat(monitorId, status, latency)`: one row appended, stamped
        with the current time `now`. */
    method LogHeartbeat(monitorId: int, status: Status, latency: int, now: int)
      requires Valid()
      modifies this
      ensures Valid()
      ensures heartbeats == old(heartbeats) + [Heartbeat(monitorId, status, latency, now)]
      ensures History(heartbeats, monitorId) == [Heartbeat(monitorId, status, latency, now)] + History(old(heartbeats), monitorId)
      ensures forall id :: id != monitorId ==> History(heartbeats, id) == History(old(heartbeats), id)
      ensures monitors == old(monitors) && certificates == old(certificates) && nextId == old(nextId)
    {
      var h := Heartbeat(monitorId, status, latency, now);
      forall id ensures History(heartbeats + [h], id) == if id == monitorId then [h] + History(heartbeats, id) else History(heartbeats, id) {
        LoggedHeartbeatIsNewest(heartbeats, h, id);
      }
      heartbeats := heartbeats + [h];
    }

    /** `renameGroup(oldName, newName)`: refused when no monitor is in the
        old group, or when monitors of a different group already carry the
        new name (both ignoring case); otherwise every member of the old
        group moves to the new name, and the count of moved rows is returned. */
    method RenameGroup(src: string, dst: string) returns (r: Result<nat>)
      requires Valid()
      modifies this
      ensures Valid()
      ensures r.Err? <==> (!GroupExists(old(monitors), src) ||
        exists m :: m in old(monitors) && InGroup(m, dst) && !InGroup(m, src))
      ensures r.Err? ==> monitors == old(monitors)
      ensures r.Ok? ==> (monitors == RenameRows(old(monitors), src, dst) &&
        r.value == |MembersOf(old(monitors), src)| && r.value > 0 &&
        |MembersOf(monitors, dst)| == r.value &&
        (!SameIgnoringCase(src, dst) ==> !GroupExists(monitors, src)))
      ensures heartbeats == old(heartbeats) && certificates == old(certificates) && nextId == old(nextId)
    {
      if !GroupExists(monitors, src) {
        return Err("Group '" + src + "' does not exist.");
      }
      if exists m :: m in monitors && InGroup(m, dst) && !InGroup(m, src) {
        return Err("Group '" + dst + "' already exists.");
      }
      RenameMovesMembers(monitors, src, dst);
      r := Ok(|MembersOf(monitors, src)|);
      var renamed := RenameRows(monitors, src, dst);
      SameKeysKeepWellKeyed(monitors, renamed, nextId);
      monitors := renamed;
    }

    /** `deleteGroup(groupName, deleteMonitors)`: refused when the group does
        not exist; otherwise its members are either deleted together with
        their heartbeats and certificates, or moved out of the group (group
        set to NULL). The count of affected monitors is returned. */
    method DeleteGroup(g: string, withMonitors: bool) returns (r: Result<nat>)
      requires Valid()
      modifies this
      ensures Valid()
      ensures r.Err? <==> !GroupExists(old(monitors), g)
      ensures r.Err? ==> monitors == old(monitors) && heartbeats == old(heartbeats) && certificates == old(certificates)
      ensures r.Ok? ==> r.value == |MembersOf(old(monitors), g)| && r.value > 0 && !GroupExists(monitors, g)
      ensures r.Ok? && withMonitors ==>
        var gone := Ids(MembersOf(old(monitors), g));
        monitors == DropGroup(old(monitors), g) &&
        heartbeats == DropHeartbeats(old(heartbeats), gone) &&
        certificates == DropCertificates(old(certificates), gone)
      ensures r.Ok? && !withMonitors ==>
        monitors == UngroupRows(old(monitors), g) &&
        heartbeats == old(heartbeats) && certificates == old(certificates)
      ensures nextId == old(nextId)
    {
      if !GroupExists(monitors, g) {
        return Err("Group '" + g + "' does not exist.");
      }
      var members := MembersOf(monitors, g);
      r := Ok(|members|);
      if withMonitors {
        var gone := Ids(members);
        heartbeats := DropHeartbeats(heartbeats, gone);
        certificates := DropCertificates(certificates, gone);
        FilterKeepsUnique(monitors, (m: Monitor) => !InGroup(m, g));
        monitors := DropGroup(monitors, g);
      } else {
        var cleared := UngroupRows(monitors, g);
        SameKeysKeepWellKeyed(monitors, cleared, nextId);
        monitors := cleared;
      }
    }
  }
}
