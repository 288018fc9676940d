/** The group queries and the row transformations behind the table operations
    that tests/core/group.test.js defines (`getGroups`, `groupExists`,
    `getMonitorsByGroup`, and the effect of `renameGroup`, `deleteGroup` and
    `updateMonitor` on the `monitors` rows). */
module Groups {
  import opened Wrappers
  import opened Text
  import opened Schema

  /** `groupExists(g)`: some monitor's group equals `g` ignoring case. */
  predicate GroupExists(ms: seq<Monitor>, g: string) {
    exists m :: m in ms && InGroup(m, g)
  }

  /** The monitors `WHERE lower(group_name) = lower(g)`, in table order. */
  function MembersOf(ms: seq<Monitor>, g: string): (r: seq<Monitor>)
    ensures forall m :: m in r <==> m in ms && InGroup(m, g)
    ensures |r| > 0 <==> GroupExists(ms, g)
  {
    var r := Filter(ms, m => InGroup(m, g));
    assert |r| > 0 ==> r[0] in r;
    r
  }

  /** `getMonitorsByGroup(g)`: null and the literal name 'ungrouped' select the
      monitors without a group (NULL or empty); any other name selects the
      group's members, ignoring case. */
  function MonitorsByGroup(ms: seq<Monitor>, g: Option<string>): (r: seq<Monitor>)
    ensures g.None? || g == Some("ungrouped") ==> forall m :: m in r <==> m in ms && Ungrouped(m)
    ensures g.Some? && g.value != "ungrouped" ==> forall m :: m in r <==> m in ms && InGroup(m, g.value)
  {
    if g.None? || g.value == "ungrouped" then Filter(ms, Ungrouped)
    else MembersOf(ms, g.value)
  }

  // ---------------------------------------------------------------------
  // getGroups: GROUP BY group_name (exact text) ORDER BY group_name (binary)

  datatype GroupCount = GroupCount(name: string, count: nat)

  /** `group_name IS NOT NULL AND group_name != ''`. */
  predicate HasGroup(m: Monitor) {
    m.group.Some? && m.group.value != ""
  }

  /** How many monitors carry exactly the group text `g`. */
  function CountExact(ms: seq<Monitor>, g: string): nat {
    if ms == [] then 0
    else CountExact(ms[..|ms| - 1], g) + (if ms[|ms| - 1].group == Some(g) then 1 else 0)
  }

  /** How many monitors carry a non-empty group. */
  function NumGrouped(ms: seq<Monitor>): nat {
    if ms == [] then 0
    else NumGrouped(ms[..|ms| - 1]) + (if HasGroup(ms[|ms| - 1]) then 1 else 0)
  }

  predicate SortedByName(gs: seq<GroupCount>) {
    forall i, j :: 0 <= i < j < |gs| ==> Less(gs[i].name, gs[j].name)
  }

  predicate PositiveCounts(gs: seq<GroupCount>) {
    forall i :: 0 <= i < |gs| ==> gs[i].count > 0
  }

  function Names(gs: seq<GroupCount>): set<string> {
    set i | 0 <= i < |gs| :: gs[i].name
  }

  /** The count listed for `g`, or 0 when `g` is not listed. */
  function CountOf(gs: seq<GroupCount>, g: string): nat {
    if gs == [] then 0
    else if gs[0].name == g then gs[0].count
    else CountOf(gs[1..], g)
  }

  /** The sum of the listed counts. */
  function Total(gs: seq<GroupCount>): nat {
    if gs == [] then 0 else gs[0].count + Total(gs[1..])
  }

  lemma {:induction false} CountOfUnlisted(gs: seq<GroupCount>, g: string)
    requires g !in Names(gs)
    ensures CountOf(gs, g) == 0
  {
    if gs != [] {
      assert gs[0].name in Names(gs);
      assert Names(gs[1..]) <= Names(gs) by {
        forall n | n in Names(gs[1..]) ensures n in Names(gs) {
          var i :| 0 <= i < |gs[1..]| && gs[1..][i].name == n;
          assert gs[i + 1].name == n;
        }
      }
      CountOfUnlisted(gs[1..], g);
    }
  }

  lemma {:induction false} CountOfListed(gs: seq<GroupCount>, g: string)
    requires PositiveCounts(gs) && g in Names(gs)
    ensures CountOf(gs, g) > 0
  {
    var i :| 0 <= i < |gs| && gs[i].name == g;
    if gs[0].name != g {
      assert gs[1..][i - 1].name == g;
      CountOfListed(gs[1..], g);
    }
  }

  lemma NamesCons(x: GroupCount, gs: seq<GroupCount>)
    ensures Names([x] + gs) == {x.name} + Names(gs)
  {
    var r := [x] + gs;
    forall n | n in Names(r) ensures n in {x.name} + Names(gs) {
      var i :| 0 <= i < |r| && r[i].name == n;
      if i > 0 {
        assert gs[i - 1].name == n;
      }
    }
    forall n | n in Names(gs) ensures n in Names(r) {
      var i :| 0 <= i < |gs| && gs[i].name == n;
      assert r[i + 1].name == n;
    }
    assert r[0].name == x.name;
  }

  /** A name below every listed name can go in front of a sorted list. */
  lemma SortedCons(x: GroupCount, gs: seq<GroupCount>)
    requires SortedByName(gs)
    requires forall k :: 0 <= k < |gs| ==> Less(x.name, gs[k].name)
    ensures SortedByName([x] + gs)
  {
  }

  /** A name below the head of a sorted list is below all of it. */
  lemma BelowHead(g: string, gs: seq<GroupCount>)
    requires SortedByName(gs) && gs != [] && Less(g, gs[0].name)
    ensures forall k :: 0 <= k < |gs| ==> Less(g, gs[k].name)
    ensures g !in Names(gs)
  {
    forall k | 0 < k < |gs| ensures Less(g, gs[k].name) {
      LessTransitive(g, gs[0].name, gs[k].name);
    }
    forall k | 0 <= k < |gs| ensures gs[k].name != g {
      LessIrreflexive(g);
    }
  }

  /** Adds one monitor of group `g` to a sorted count list. */
  function Insert(gs: seq<GroupCount>, g: string): (r: seq<GroupCount>)
    requires SortedByName(gs)
    ensures SortedByName(r)
    ensures Names(r) == Names(gs) + {g}
  {
    if gs == [] then
      NamesCons(GroupCount(g, 1), []);
      [GroupCount(g, 1)]
    else if gs[0].name == g then
      var x := GroupCount(g, gs[0].count + 1);
      NamesCons(gs[0], gs[1..]);
      assert gs == [gs[0]] + gs[1..];
      NamesCons(x, gs[1..]);
      SortedCons(x, gs[1..]);
      [x] + gs[1..]
    else if Less(g, gs[0].name) then
      BelowHead(g, gs);
      NamesCons(GroupCount(g, 1), gs);
      SortedCons(GroupCount(g, 1), gs);
      [GroupCount(g, 1)] + gs
    else
      LessTotal(g, gs[0].name);
      NamesCons(gs[0], gs[1..]);
      assert gs == [gs[0]] + gs[1..];
      var rest := Insert(gs[1..], g);
      NamesCons(gs[0], rest);
      AboveHead(gs, g, rest);
      SortedCons(gs[0], rest);
      [gs[0]] + rest
  }

  /** Everything in the tail, and `g` when it sorts after the head, lies
      above the head. */
  lemma AboveHead(gs: seq<GroupCount>, g: string, rest: seq<GroupCount>)
    requires SortedByName(gs) && gs != [] && Less(gs[0].name, g)
    requires Names(rest) == Names(gs[1..]) + {g}
    ensures forall k :: 0 <= k < |rest| ==> Less(gs[0].name, rest[k].name)
  {
    forall k | 0 <= k < |rest| ensures Less(gs[0].name, rest[k].name) {
      var n := rest[k].name;
      assert n in Names(rest);
      if n != g {
        var i :| 0 <= i < |gs[1..]| && gs[1..][i].name == n;
        assert gs[i + 1].name == n;
      }
    }
  }

  lemma {:induction false} InsertCountOf(gs: seq<GroupCount>, g: string, h: string)
    requires SortedByName(gs)
    ensures CountOf(Insert(gs, g), h) == CountOf(gs, h) + (if h == g then 1 else 0)
  {
    if gs == [] || gs[0].name == g {
    } else if Less(g, gs[0].name) {
      if h == g {
        BelowHead(g, gs);
        CountOfUnlisted(gs, g);
      }
    } else {
      InsertCountOf(gs[1..], g, h);
      assert Insert(gs, g)[1..] == Insert(gs[1..], g);
    }
  }

  lemma {:induction false} InsertTotal(gs: seq<GroupCount>, g: string)
    requires SortedByName(gs)
    ensures Total(Insert(gs, g)) == Total(gs) + 1
  {
    if gs != [] && gs[0].name != g && !Less(g, gs[0].name) {
      InsertTotal(gs[1..], g);
      assert Insert(gs, g)[1..] == Insert(gs[1..], g);
    }
  }

  lemma {:induction false} InsertPositive(gs: seq<GroupCount>, g: string)
    requires SortedByName(gs) && PositiveCounts(gs)
    ensures PositiveCounts(Insert(gs, g))
  {
    if gs != [] && gs[0].name != g && !Less(g, gs[0].name) {
      InsertPositive(gs[1..], g);
      assert Insert(gs, g)[1..] == Insert(gs[1..], g);
    }
  }

  /** Inserting `g` adds one to the count of `g` and to the total, and leaves
      every other count as it was. */
  lemma InsertCounts(gs: seq<GroupCount>, g: string)
    requires SortedByName(gs)
    ensures forall h :: CountOf(Insert(gs, g), h) == CountOf(gs, h) + (if h == g then 1 else 0)
    ensures Total(Insert(gs, g)) == Total(gs) + 1
    ensures PositiveCounts(gs) ==> PositiveCounts(Insert(gs, g))
  {
    forall h ensures CountOf(Insert(gs, g), h) == CountOf(gs, h) + (if h == g then 1 else 0) {
      InsertCountOf(gs, g, h);
    }
    InsertTotal(gs, g);
    if PositiveCounts(gs) {
      InsertPositive(gs, g);
    }
  }

  /** `getGroups()`: each distinct non-empty group text once, sorted, with the
      number of its monitors (see `GroupsListEachGroupOnce`). */
  function GetGroups(ms: seq<Monitor>): (r: seq<GroupCount>)
    ensures SortedByName(r) && PositiveCounts(r)
    ensures "" !in Names(r)
    ensures forall g :: g != "" ==> CountOf(r, g) == CountExact(ms, g)
    ensures Total(r) == NumGrouped(ms)
  {
    if ms == [] then []
    else
      var front, last := ms[..|ms| - 1], ms[|ms| - 1];
      var gs := GetGroups(front);
      if HasGroup(last) then
      InsertCounts(gs, last.group.value);
      Insert(gs, last.group.value)
    else gs
  }

  lemma {:induction false} CountExactPositive(ms: seq<Monitor>, g: string)
    ensures CountExact(ms, g) > 0 <==> exists m :: m in ms && m.group == Some(g)
  {
    if ms != [] {
      var front, last := ms[..|ms| - 1], ms[|ms| - 1];
      CountExactPositive(front, g);
      assert ms == front + [last];
      if exists m :: m in ms && m.group == Some(g) {
        var m :| m in ms && m.group == Some(g);
        if m != last {
          assert m in front;
        }
      }
    }
  }

  /** A group is listed exactly when some monitor carries that non-empty group
      text, and is listed once (the list is strictly sorted). */
  lemma GroupsListEachGroupOnce(ms: seq<Monitor>, g: string)
    ensures g in Names(GetGroups(ms)) <==> g != "" && exists m :: m in ms && m.group == Some(g)
    ensures forall i, j :: 0 <= i < j < |GetGroups(ms)| ==> GetGroups(ms)[i].name != GetGroups(ms)[j].name
  {
    var r := GetGroups(ms);
    CountExactPositive(ms, g);
    if g in Names(r) {
      CountOfListed(r, g);
    } else {
      CountOfUnlisted(r, g);
    }
    forall i, j | 0 <= i < j < |r| ensures r[i].name != r[j].name {
      if r[i].name == r[j].name {
        LessIrreflexive(r[i].name);
      }
    }
  }

  // ---------------------------------------------------------------------
  // Row transformations of the mutating table operations

  /** `UPDATE monitors SET group_name = ? WHERE lower(group_name) = lower(?)`. */
  function RenameRows(ms: seq<Monitor>, src: string, dst: string): (r: seq<Monitor>)
    ensures |r| == |ms|
    ensures forall i :: 0 <= i < |ms| && InGroup(ms[i], src) ==> r[i] == ms[i].(group := Some(dst))
    ensures forall i :: 0 <= i < |ms| && !InGroup(ms[i], src) ==> r[i] == ms[i]
  {
    seq(|ms|, i requires 0 <= i < |ms| => if InGroup(ms[i], src) then ms[i].(group := Some(dst)) else ms[i])
  }

  /** `UPDATE monitors SET group_name = NULL WHERE lower(group_name) = lower(g)`. */
  function UngroupRows(ms: seq<Monitor>, g: string): (r: seq<Monitor>)
    ensures |r| == |ms|
    ensures forall i :: 0 <= i < |ms| && InGroup(ms[i], g) ==> r[i] == ms[i].(group := None)
    ensures forall i :: 0 <= i < |ms| && !InGroup(ms[i], g) ==> r[i] == ms[i]
    ensures !GroupExists(r, g)
  {
    seq(|ms|, i requires 0 <= i < |ms| => if InGroup(ms[i], g) then ms[i].(group := None) else ms[i])
  }

  /** `|Filter(s, p)|` only depends on which positions satisfy `p`. */
  lemma {:induction false} FilterCountPointwise<T(!new), U(!new)>(s: seq<T>, p: T -> bool, t: seq<U>, q: U -> bool)
    requires |s| == |t|
    requires forall i :: 0 <= i < |s| ==> (p(s[i]) <==> q(t[i]))
    ensures |Filter(s, p)| == |Filter(t, q)|
  {
    if s != [] {
      assert p(s[0]) <==> q(t[0]);
      FilterCountPointwise(s[1..], p, t[1..], q);
    }
  }

  /** After a rename that passed its checks (no other group already holds the
      new name), the new group has exactly the members the old one had, and
      the old name is gone unless it only differs from the new one in case. */
  lemma RenameMovesMembers(ms: seq<Monitor>, src: string, dst: string)
    requires forall m :: m in ms && InGroup(m, dst) ==> InGroup(m, src)
    ensures |MembersOf(RenameRows(ms, src, dst), dst)| == |MembersOf(ms, src)|
    ensures !SameIgnoringCase(src, dst) ==> !GroupExists(RenameRows(ms, src, dst), src)
  {
    var r := RenameRows(ms, src, dst);
    forall i | 0 <= i < |r| ensures InGroup(r[i], dst) <==> InGroup(ms[i], src) {
      assert ms[i] in ms;
    }
    FilterCountPointwise(r, m => InGroup(m, dst), ms, m => InGroup(m, src));
  }

  /** `{ name, url, type, interval, webhook_url, group_name }` of an
      `updateMonitor` call: an absent (undefined) key is `Keep`. */
  datatype Patch<T> = Keep | Set(value: T)

  datatype MonitorUpdate = MonitorUpdate(
    name: Patch<Option<string>>,
    url: Patch<string>,
    kind: Patch<MonitorType>,
    interval: Patch<int>,
    webhook: Patch<Option<string>>,
    group: Patch<Option<string>>)

  /** `fields.length === 0`. */
  predicate NoFields(u: MonitorUpdate) {
    u.name.Keep? && u.url.Keep? && u.kind.Keep? && u.interval.Keep? && u.webhook.Keep? && u.group.Keep?
  }

  function Choose<T>(p: Patch<T>, current: T): T {
    if p.Set? then p.value else current
  }

  /** The row after `UPDATE monitors SET <supplied fields>`: supplied fields
      take their new value and every other field keeps its old one. */
  function ApplyUpdate(m: Monitor, u: MonitorUpdate): (r: Monitor)
    ensures r.id == m.id
    ensures r.name == (if u.name.Set? then u.name.value else m.name)
    ensures r.url == (if u.url.Set? then u.url.value else m.url)
    ensures r.kind == (if u.kind.Set? then u.kind.value else m.kind)
    ensures r.interval == (if u.interval.Set? then u.interval.value else m.interval)
    ensures r.webhook == (if u.webhook.Set? then u.webhook.value else m.webhook)
    ensures r.group == (if u.group.Set? then u.group.value else m.group)
    ensures NoFields(u) ==> r == m
  {
    Monitor(m.id, Choose(u.name, m.name), Choose(u.kind, m.kind), Choose(u.url, m.url),
            Choose(u.interval, m.interval), Choose(u.webhook, m.webhook), Choose(u.group, m.group))
  }

  /** `UPDATE monitors SET ... WHERE id = ?`. */
  function UpdateRows(ms: seq<Monitor>, id: int, u: MonitorUpdate): (r: seq<Monitor>)
    ensures |r| == |ms|
    ensures forall i :: 0 <= i < |ms| && ms[i].id == id ==> r[i] == ApplyUpdate(ms[i], u)
    ensures forall i :: 0 <= i < |ms| && ms[i].id != id ==> r[i] == ms[i]
    ensures Ids(r) == Ids(ms)
  {
    var r := seq(|ms|, i requires 0 <= i < |ms| => if ms[i].id == id then ApplyUpdate(ms[i], u) else ms[i]);
    assert forall i :: 0 <= i < |ms| ==> r[i].id == ms[i].id;
    assert Ids(r) == Ids(ms) by {
      forall x | x in Ids(r) ensures x in Ids(ms) {
        var m :| m in r && m.id == x;
        var i :| 0 <= i < |r| && r[i] == m;
        assert ms[i] in ms;
      }
      forall x | x in Ids(ms) ensures x in Ids(r) {
        var m :| m in ms && m.id == x;
        var i :| 0 <= i < |ms| && ms[i] == m;
        assert r[i] in r;
      }
    }
    r
  }
}
