/** The `group` command of src/commands/group.js: action dispatch, the
    guards of `rename` and `delete`, the confirmation rules, and the listing.
    The confirmation typed at the prompt is a parameter; console output is
    reduced to the outcome values below. */
module GroupCommand {
  import opened Wrappers
  import opened Text
  import opened Schema
  import opened Groups
  import opened Store

  // ---------------------------------------------------------------------
  // Dispatch

  datatype Action = ListAction | RenameAction | DeleteAction | UnknownAction(name: string)

  const ListAliases: set<string> := {"list", "ls"}
  const RenameAliases: set<string> := {"rename", "mv"}
  const DeleteAliases: set<string> := {"delete", "del", "rm"}

  /** `(action || 'list').toLowerCase()` matched against the aliases. */
  function ParseAction(action: Option<string>): (r: Action)
    ensures !Truthy(action) ==> r == ListAction
    ensures Truthy(action) ==> (r == ListAction <==> Lower(action.value) in ListAliases)
    ensures Truthy(action) ==> (r == RenameAction <==> Lower(action.value) in RenameAliases)
    ensures Truthy(action) ==> (r == DeleteAction <==> Lower(action.value) in DeleteAliases)
    ensures r.UnknownAction? ==> Truthy(action) && r.name == action.value
  {
    if !Truthy(action) then ListAction
    else
      var a := Lower(action.value);
      if a in ListAliases then ListAction
      else if a in RenameAliases then RenameAction
      else if a in DeleteAliases then DeleteAction
      else UnknownAction(action.value)
  }

  /** Any capitalisation of an alias selects its action. */
  lemma ParseIgnoresCase(a: string, b: string)
    requires Truthy(Some(a)) && Truthy(Some(b)) && SameIgnoringCase(a, b)
    ensures ParseAction(Some(a)).UnknownAction? == ParseAction(Some(b)).UnknownAction?
    ensures !ParseAction(Some(a)).UnknownAction? ==> ParseAction(Some(a)) == ParseAction(Some(b))
  {
  }

  // ---------------------------------------------------------------------
  // rename

  datatype RenameCheck = TooFewArgs | SameNames | BlankNewName | MissingGroup | TakenName | Proceed

  /** The guards of `handleRename`, in the order they run. */
  function CheckRename(ms: seq<Monitor>, args: seq<string>): (r: RenameCheck)
    ensures r == TooFewArgs <==> |args| < 2
    ensures r == Proceed <==>
      |args| >= 2 && !SameIgnoringCase(args[0], args[1]) && Trim(args[1]) != "" &&
      GroupExists(ms, args[0]) && !GroupExists(ms, args[1])
  {
    if |args| < 2 then TooFewArgs
    else
      var src, dst := args[0], args[1];
      if SameIgnoringCase(src, dst) then SameNames
      else if Trim(dst) == "" then BlankNewName
      else if !GroupExists(ms, src) then MissingGroup
      else if GroupExists(ms, dst) && !SameIgnoringCase(src, dst) then TakenName
      else Proceed
  }

  /** A rename the command lets through passes the table operation's own
      checks, and renaming to a case variant of the same group is stopped by
      the command before it reaches the table. */
  lemma RenameGuardsAgree(ms: seq<Monitor>, args: seq<string>)
    requires CheckRename(ms, args) == Proceed
    ensures GroupExists(ms, args[0])
    ensures !exists m :: m in ms && InGroup(m, args[1]) && !InGroup(m, args[0])
    ensures forall m :: m in ms && InGroup(m, args[1]) ==> InGroup(m, args[0])
  {
  }

  // ---------------------------------------------------------------------
  // delete

  datatype DeleteCheck = NoName | NoSuchGroup | NoMonitors | Cancelled | Confirmed

  /** The confirmation rules: with `--with-monitors` the trimmed answer must be
      the group name exactly; otherwise it must start with 'y' once trimmed
      and lower-cased. */
  predicate Confirms(withMonitors: bool, g: string, answer: string) {
    if withMonitors then Trim(answer) == g else StartsWith(Lower(Trim(answer)), "y")
  }

  /** `handleDelete` as written: the emptiness test uses `getMonitorsByGroup`,
      which reads the name 'ungrouped' as the monitors without a group. So an
      existing group is reported empty exactly when it is literally named
      'ungrouped' and every monitor has a group. */
  function CheckDeleteAsWritten(ms: seq<Monitor>, args: seq<string>, withMonitors: bool, answer: string): (r: DeleteCheck)
    ensures r == NoName <==> |args| < 1
    ensures r == NoSuchGroup <==> |args| >= 1 && !GroupExists(ms, args[0])
    ensures r == NoMonitors <==>
      |args| >= 1 && GroupExists(ms, args[0]) && args[0] == "ungrouped" && forall m :: m in ms ==> !Ungrouped(m)
    ensures r == Confirmed <==>
      |args| >= 1 && GroupExists(ms, args[0]) && Confirms(withMonitors, args[0], answer) &&
      (args[0] == "ungrouped" ==> exists m :: m in ms && Ungrouped(m))
  {
    if |args| < 1 then NoName
    else
      var g := args[0];
      var looked := MonitorsByGroup(ms, Some(g));
      assert |looked| > 0 ==> looked[0] in looked;
      if !GroupExists(ms, g) then NoSuchGroup
      else if |looked| == 0 then NoMonitors
      else if !Confirms(withMonitors, g, answer) then Cancelled
      else Confirmed
  }

  /** `handleDelete` with the emptiness test on the group's own members. */
  function CheckDelete(ms: seq<Monitor>, args: seq<string>, withMonitors: bool, answer: string): (r: DeleteCheck)
    ensures r == NoName <==> |args| < 1
    ensures r == NoSuchGroup <==> |args| >= 1 && !GroupExists(ms, args[0])
    ensures r != NoMonitors
    ensures r == Confirmed <==> |args| >= 1 && GroupExists(ms, args[0]) && Confirms(withMonitors, args[0], answer)
  {
    if |args| < 1 then NoName
    else
      var g := args[0];
      if !GroupExists(ms, g) then NoSuchGroup
      else if |MembersOf(ms, g)| == 0 then NoMonitors
      else if !Confirms(withMonitors, g, answer) then Cancelled
      else Confirmed
  }

  /** The two agree on every group other than the literal name 'ungrouped'. */
  lemma CheckDeleteAgrees(ms: seq<Monitor>, args: seq<string>, withMonitors: bool, answer: string)
    requires |args| >= 1 && args[0] != "ungrouped"
    ensures CheckDeleteAsWritten(ms, args, withMonitors, answer) == CheckDelete(ms, args, withMonitors, answer)
  {
  }

  /** A group named 'ungrouped' with a member, and no monitor without a
      group: as written the command reports that the group has no monitors
      and never deletes it, whatever is typed at the prompt. */
  lemma UngroupedGroupCannotBeDeleted(answer: string)
    ensures var m := Monitor(1, None, Http, "https://example.com", 60, None, Some("ungrouped"));
      GroupExists([m], "ungrouped") &&
      CheckDeleteAsWritten([m], ["ungrouped"], true, answer) == NoMonitors &&
      CheckDelete([m], ["ungrouped"], true, "ungrouped") == Confirmed
  {
    var m := Monitor(1, None, Http, "https://example.com", 60, None, Some("ungrouped"));
    assert m in [m] && InGroup(m, "ungrouped");
    assert !Ungrouped(m);
    assert Trim("ungrouped") == "ungrouped" by {
      assert !IsWhitespace('u') && !IsWhitespace('d');
    }
  }

  /** The answers accepted without `--with-monitors` are exactly those whose
      first non-blank character is 'y' or 'Y'. */
  lemma UngroupConfirmation(g: string, answer: string)
    ensures Confirms(false, g, answer) <==> |Trim(answer)| > 0 && Trim(answer)[0] in {'y', 'Y'}
  {
    var t := Trim(answer);
    if |t| > 0 {
      assert Lower(t)[..1] == [LowerChar(t[0])];
    }
  }

  // ---------------------------------------------------------------------
  // list

  /** One group's block in the listing: name, count, the labels of its
      first five monitors and how many more there are. */
  datatype GroupLine = GroupLine(name: string, count: nat, shown: seq<string>, more: nat)

  const ShownLabels: nat := 5

  function Labels(ms: seq<Monitor>): (r: seq<string>)
    ensures |r| == |ms| && forall i :: 0 <= i < |ms| ==> r[i] == Label(ms[i])
  {
    seq(|ms|, i requires 0 <= i < |ms| => Label(ms[i]))
  }

  /** The block for `gc` given the monitors the listing looked up for it. */
  function LineFor(gc: GroupCount, monitors: seq<Monitor>): (r: GroupLine)
    ensures r.name == gc.name && r.count == gc.count
    ensures |r.shown| == if |monitors| < ShownLabels then |monitors| else ShownLabels
    ensures |r.shown| + r.more == |monitors|
    ensures r.shown == Labels(monitors)[..|r.shown|]
    ensures r.more > 0 <==> |monitors| > ShownLabels
  {
    var n := if |monitors| < ShownLabels then |monitors| else ShownLabels;
    GroupLine(gc.name, gc.count, Labels(monitors[..n]), |monitors| - n)
  }

  /** The listing as written looks the monitors up with `getMonitorsByGroup`. */
  function GroupLineAsWritten(ms: seq<Monitor>, gc: GroupCount): GroupLine {
    LineFor(gc, MonitorsByGroup(ms, Some(gc.name)))
  }

  /** The listing with the lookup on the group's own members. */
  function LineOf(ms: seq<Monitor>, gc: GroupCount): GroupLine {
    LineFor(gc, MembersOf(ms, gc.name))
  }

  /** The two listings differ only under a group literally named 'ungrouped'. */
  lemma LineAgrees(ms: seq<Monitor>, gc: GroupCount)
    requires gc.name != "ungrouped"
    ensures GroupLineAsWritten(ms, gc) == LineOf(ms, gc)
  {
  }

  /** Every label the listing shows under a group belongs to a member of it. */
  lemma ShownLabelsAreMembers(ms: seq<Monitor>, gc: GroupCount, lbl: string)
    requires lbl in LineOf(ms, gc).shown
    ensures exists m :: m in ms && InGroup(m, gc.name) && Label(m) == lbl
  {
    var members := MembersOf(ms, gc.name);
    var r := LineOf(ms, gc);
    var i :| 0 <= i < |r.shown| && r.shown[i] == lbl;
    assert members[i] in members;
  }

  /** A group named 'ungrouped' next to a monitor without a group: as written
      the listing shows the other monitor's label under it. */
  lemma UngroupedGroupListsOtherMonitors()
    ensures var grouped := Monitor(1, Some("api"), Http, "https://a.example", 60, None, Some("ungrouped"));
      var loose := Monitor(2, Some("web"), Http, "https://b.example", 60, None, None);
      GroupLineAsWritten([grouped, loose], GroupCount("ungrouped", 1)).shown == ["web"] &&
      LineOf([grouped, loose], GroupCount("ungrouped", 1)).shown == ["api"]
  {
    var grouped := Monitor(1, Some("api"), Http, "https://a.example", 60, None, Some("ungrouped"));
    var loose := Monitor(2, Some("web"), Http, "https://b.example", 60, None, None);
    var ms := [grouped, loose];
    assert Filter(ms, Ungrouped) == [loose] by {
      assert ms[1..] == [loose];
    }
    assert Filter(ms, m => InGroup(m, "ungrouped")) == [grouped] by {
      assert ms[1..] == [loose];
      assert !InGroup(loose, "ungrouped");
    }
    assert Labels([loose]) == ["web"];
    assert Labels([grouped]) == ["api"];
  }

  lemma {:induction false} TotalAppend(gs: seq<GroupCount>, g: GroupCount)
    ensures Total(gs + [g]) == Total(gs) + g.count
  {
    if gs != [] {
      assert (gs + [g])[1..] == gs[1..] + [g];
      TotalAppend(gs[1..], g);
    }
  }

  /** `listGroups()`: one block per group in `getGroups()` order, adding up
      the counts as it goes; the total is the number of grouped monitors, and
      there are no blocks exactly when no monitor has a group. */
  method ListGroups(ms: seq<Monitor>) returns (lines: seq<GroupLine>, total: nat)
    ensures |lines| == |GetGroups(ms)|
    ensures forall i :: 0 <= i < |lines| ==> lines[i] == LineOf(ms, GetGroups(ms)[i])
    ensures total == NumGrouped(ms)
    ensures lines == [] <==> NumGrouped(ms) == 0
  {
    var groups := GetGroups(ms);
    lines, total := [], 0;
    var i := 0;
    while i < |groups|
      invariant 0 <= i <= |groups|
      invariant |lines| == i
      invariant forall j :: 0 <= j < i ==> lines[j] == LineOf(ms, groups[j])
      invariant total == Total(groups[..i])
    {
      TotalAppend(groups[..i], groups[i]);
      assert groups[..i + 1] == groups[..i] + [groups[i]];
      lines := lines + [LineOf(ms, groups[i])];
      total := total + groups[i].count;
      i := i + 1;
    }
    assert groups[..i] == groups;
    if groups != [] {
      assert groups[0].count > 0;
    }
  }

  // ---------------------------------------------------------------------
  // The handlers

  datatype RenameReport = RenameReport(check: RenameCheck, changes: nat)
  datatype DeleteReport = DeleteReport(check: DeleteCheck, changes: nat)

  /** `handleRename(args)`: only a rename that passes every guard reaches the
      table, and then exactly once. */
  method HandleRename(db: Database, args: seq<string>) returns (r: RenameReport)
    requires db.Valid()
    modifies db
    ensures db.Valid()
    ensures r.check == CheckRename(old(db.monitors), args)
    ensures r.check != Proceed ==> db.monitors == old(db.monitors)
    ensures r.check == Proceed ==>
      db.monitors == RenameRows(old(db.monitors), args[0], args[1]) &&
      r.changes == |MembersOf(old(db.monitors), args[0])|
    ensures db.heartbeats == old(db.heartbeats) && db.certificates == old(db.certificates)
    ensures db.nextId == old(db.nextId)
  {
    var check := CheckRename(db.monitors, args);
    if check != Proceed {
      return RenameReport(check, 0);
    }
    RenameGuardsAgree(db.monitors, args);
    var result := db.RenameGroup(args[0], args[1]);
    r := RenameReport(check, if result.Ok? then result.value else 0);
  }

  /** `handleDelete(args, options)` with the confirmation `answer`: nothing
      changes unless the group exists and the answer confirms; then the group
      is deleted with or without its monitors. */
  method HandleDelete(db: Database, args: seq<string>, withMonitors: bool, answer: string) returns (r: DeleteReport)
    requires db.Valid()
    modifies db
    ensures db.Valid()
    ensures r.check == CheckDelete(old(db.monitors), args, withMonitors, answer)
    ensures r.check != Confirmed ==>
      db.monitors == old(db.monitors) && db.heartbeats == old(db.heartbeats) && db.certificates == old(db.certificates)
    ensures r.check == Confirmed ==>
      r.changes == |MembersOf(old(db.monitors), args[0])| && !GroupExists(db.monitors, args[0])
    ensures r.check == Confirmed && withMonitors ==> db.monitors == DropGroup(old(db.monitors), args[0])
    ensures r.check == Confirmed && !withMonitors ==> db.monitors == UngroupRows(old(db.monitors), args[0])
    ensures r.check == Confirmed && withMonitors ==>
      var gone := Ids(MembersOf(old(db.monitors), args[0]));
      db.heartbeats == DropHeartbeats(old(db.heartbeats), gone) &&
      db.certificates == DropCertificates(old(db.certificates), gone)
    ensures r.check == Confirmed && !withMonitors ==>
      db.heartbeats == old(db.heartbeats) && db.certificates == old(db.certificates)
    ensures db.nextId == old(db.nextId)
  {
    var check := CheckDelete(db.monitors, args, withMonitors, answer);
    if check != Confirmed {
      return DeleteReport(check, 0);
    }
    var result := db.DeleteGroup(args[0], withMonitors);
    r := DeleteReport(check, if result.Ok? then result.value else 0);
  }

  datatype GroupCommandResult =
    | Listed(lines: seq<GroupLine>, total: nat)
    | Renamed(rename: RenameReport)
    | Deleted(delete: DeleteReport)
    | Unknown(action: string)

  /** The `group [action] [args...]` action handler. */
  method RunGroupCommand(db: Database, action: Option<string>, args: seq<string>, withMonitors: bool, answer: string)
    returns (r: GroupCommandResult)
    requires db.Valid()
    modifies db
    ensures db.Valid()
    ensures r.Listed? <==> ParseAction(action) == ListAction
    ensures r.Renamed? <==> ParseAction(action) == RenameAction
    ensures r.Deleted? <==> ParseAction(action) == DeleteAction
    ensures r.Unknown? <==> ParseAction(action).UnknownAction?
    ensures r.Listed? ==> r.total == NumGrouped(old(db.monitors))
    ensures r.Listed? ==> (|r.lines| == |GetGroups(old(db.monitors))| &&
      forall i :: 0 <= i < |r.lines| ==> r.lines[i] == LineOf(old(db.monitors), GetGroups(old(db.monitors))[i]))
    ensures r.Listed? || r.Unknown? ==>
      db.monitors == old(db.monitors) && db.heartbeats == old(db.heartbeats) && db.certificates == old(db.certificates)
    ensures r.Renamed? ==> r.rename.check == CheckRename(old(db.monitors), args)
    ensures r.Renamed? && r.rename.check != Proceed ==> db.monitors == old(db.monitors)
    ensures r.Renamed? && r.rename.check == Proceed ==>
      db.monitors == RenameRows(old(db.monitors), args[0], args[1]) &&
      r.rename.changes == |MembersOf(old(db.monitors), args[0])|
    ensures r.Renamed? ==> db.heartbeats == old(db.heartbeats) && db.certificates == old(db.certificates)
    ensures r.Deleted? ==> r.delete.check == CheckDelete(old(db.monitors), args, withMonitors, answer)
    ensures r.Deleted? && r.delete.check != Confirmed ==>
      db.monitors == old(db.monitors) && db.heartbeats == old(db.heartbeats) && db.certificates == old(db.certificates)
    ensures r.Deleted? && r.delete.check == Confirmed ==>
      r.delete.changes == |MembersOf(old(db.monitors), args[0])| && !GroupExists(db.monitors, args[0])
    ensures r.Deleted? && r.delete.check == Confirmed && withMonitors ==>
      var gone := Ids(MembersOf(old(db.monitors), args[0]));
      db.monitors == DropGroup(old(db.monitors), args[0]) &&
      db.heartbeats == DropHeartbeats(old(db.heartbeats), gone) &&
      db.certificates == DropCertificates(old(db.certificates), gone)
    ensures r.Deleted? && r.delete.check == Confirmed && !withMonitors ==>
      db.monitors == UngroupRows(old(db.monitors), args[0]) &&
      db.heartbeats == old(db.heartbeats) && db.certificates == old(db.certificates)
    ensures db.nextId == old(db.nextId)
  {
    match ParseAction(action) {
      case ListAction =>
        var lines, total := ListGroups(db.monitors);
        r := Listed(lines, total);
      case RenameAction =>
        var report := HandleRename(db, args);
        r := Renamed(report);
      case DeleteAction =>
        var report := HandleDelete(db, args, withMonitors, answer);
        r := Deleted(report);
      case UnknownAction(name) =>
        r := Unknown(name);
    }
  }
}
